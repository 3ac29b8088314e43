/** Recently viewed products: an upsert that stamps the time, then a soft delete of everything past the newest fifty. */
module RecentViews {
  import opened Wrappers

  const MAX_RECENT_VIEWS := 50

  datatype View = View(viewedAt: int, deleted: bool)
  /** The UNIQUE index on account and product makes the pair the key of the row. */
  datatype Key = Key(accountId: nat, productId: nat)
  type Table = map<Key, View>

  predicate Shown(t: Table, a: nat, p: nat) {
    Key(a, p) in t && !t[Key(a, p)].deleted
  }

  function ShownOf(t: Table, a: nat): set<nat> {
    set k | k in t && k.accountId == a && !t[k].deleted :: k.productId
  }

  predicate NotOlder(t: Table, a: nat, p: nat, q: nat) {
    Shown(t, a, p) && Shown(t, a, q) && t[Key(a, p)].viewedAt >= t[Key(a, q)].viewedAt
  }

  predicate Newer(t: Table, a: nat, p: nat, q: nat) {
    Shown(t, a, p) && Shown(t, a, q) && t[Key(a, p)].viewedAt > t[Key(a, q)].viewedAt
  }

  ghost predicate Lists(t: Table, a: nat, order: seq<nat>) {
    Distinct(order) && forall p: nat :: p in order <==> Shown(t, a, p)
  }

  /** An answer of the database to "active views of the account, newest first": ties come in any order. */
  ghost predicate IsViewOrder(t: Table, a: nat, order: seq<nat>) {
    Lists(t, a, order) && forall i, j :: 0 <= i < j < |order| ==> NotOlder(t, a, order[i], order[j])
  }

  ghost predicate IsStrictOrder(t: Table, a: nat, order: seq<nat>) {
    Lists(t, a, order) && forall i, j :: 0 <= i < j < |order| ==> Newer(t, a, order[i], order[j])
  }

  function Upsert(t: Table, a: nat, p: nat, now: int): Table {
    t[Key(a, p) := View(now, false)]
  }

  function Over(order: seq<nat>, max: nat): seq<nat> {
    if |order| <= max then [] else order[max..]
  }

  function Hide(t: Table, a: nat, products: seq<nat>): Table {
    map k | k in t :: if k.accountId == a && k.productId in products && !t[k].deleted then t[k].(deleted := true) else t[k]
  }

  /** `order` is what the trimming query answers after the upsert. */
  datatype Event =
    | Record(accountId: nat, productId: nat, productIsActive: bool, now: int, order: seq<nat>)
    | DeleteOne(accountId: nat, productId: nat, now: int)
    | ClearAll(accountId: nat, now: int)

  ghost predicate Answers(t: Table, e: Event) {
    e.Record? && e.productIsActive ==> IsViewOrder(Upsert(t, e.accountId, e.productId, e.now), e.accountId, e.order)
  }

  function HideAll(t: Table, a: nat): Table {
    map k | k in t :: if k.accountId == a && !t[k].deleted then t[k].(deleted := true) else t[k]
  }

  function Next(t: Table, e: Event): Table {
    match e
    case Record(a, p, productIsActive, now, order) =>
      if !productIsActive then t else Hide(Upsert(t, a, p, now), a, Over(order, MAX_RECENT_VIEWS))
    case DeleteOne(a, p, _) => Hide(t, a, [p])
    case ClearAll(a, _) => HideAll(t, a)
  }

  function Run(events: seq<Event>): Table {
    if events == [] then map[] else Next(Run(events[..|events| - 1]), events[|events| - 1])
  }

  ghost predicate RunAnswers(events: seq<Event>) {
    forall i :: 0 <= i < |events| ==> Answers(Run(events[..i]), events[i])
  }

  /** Two views of the same time may be answered in either order. */
  lemma TiesComeInAnyOrder(a: nat, p: nat, q: nat, now: int)
    requires p != q
    ensures var t := Upsert(Upsert(map[], a, p, now), a, q, now); IsViewOrder(t, a, [p, q]) && IsViewOrder(t, a, [q, p])
  {
  }

  // ---------- the bound ----------

  lemma HideShows(t: Table, a: nat, products: seq<nat>, b: nat, p: nat)
    ensures Shown(Hide(t, a, products), b, p) <==> Shown(t, b, p) && !(b == a && p in products)
    ensures Shown(Hide(t, a, products), b, p) ==> Hide(t, a, products)[Key(b, p)] == t[Key(b, p)]
  {
  }

  lemma UpsertShows(t: Table, a: nat, p: nat, now: int, b: nat, q: nat)
    ensures Shown(Upsert(t, a, p, now), b, q) <==> Shown(t, b, q) || (b == a && q == p)
    ensures Shown(t, b, q) && Key(b, q) != Key(a, p) ==> Upsert(t, a, p, now)[Key(b, q)] == t[Key(b, q)]
    ensures Upsert(t, a, p, now)[Key(a, p)].viewedAt == now
  {
  }

  lemma HalvesAreDisjoint(order: seq<nat>, n: nat, p: nat)
    requires Distinct(order) && n <= |order|
    ensures p in order[..n] ==> p !in order[n..]
  {
  }

  /** After trimming, the shown products are exactly the first fifty of the order, in the same order. */
  lemma TrimKeepsNewest(t: Table, a: nat, order: seq<nat>, max: nat)
    requires IsViewOrder(t, a, order)
    ensures IsViewOrder(Hide(t, a, Over(order, max)), a, order[..Min(max, |order|)])
    ensures IsStrictOrder(t, a, order) ==> IsStrictOrder(Hide(t, a, Over(order, max)), a, order[..Min(max, |order|)])
  {
    hide Hide;
    var u, kept, over := Hide(t, a, Over(order, max)), order[..Min(max, |order|)], Over(order, max);
    assert order == kept + over;
    forall p: nat ensures Shown(u, a, p) <==> Shown(t, a, p) && p !in over
                  ensures Shown(u, a, p) ==> u[Key(a, p)] == t[Key(a, p)] {
      HideShows(t, a, over, a, p);
    }
    forall p: nat ensures p in kept <==> Shown(u, a, p) {
      HalvesAreDisjoint(order, |kept|, p);
      assert p in order <==> p in kept || p in over;
    }
    assert Lists(u, a, kept);
    forall i, j | 0 <= i < j < |kept| ensures NotOlder(u, a, kept[i], kept[j]) {
      assert NotOlder(t, a, order[i], order[j]) && kept[i] in kept && kept[j] in kept;
    }
    if IsStrictOrder(t, a, order) {
      forall i, j | 0 <= i < j < |kept| ensures Newer(u, a, kept[i], kept[j]) {
        assert Newer(t, a, order[i], order[j]) && kept[i] in kept && kept[j] in kept;
      }
    }
  }

  lemma {:induction false} DistinctSize(order: seq<nat>, s: set<nat>)
    requires Distinct(order) && forall p: nat :: p in order <==> p in s
    ensures |order| == |s|
  {
    if order == [] {
      assert s == {};
    } else {
      var last, rest := order[|order| - 1], order[..|order| - 1];
      forall p: nat ensures p in rest <==> p in s - {last} {
        if p in rest { var i: nat :| i < |rest| && rest[i] == p; assert order[i] != last; }
        assert order == rest + [last];
      }
      DistinctSize(rest, s - {last});
    }
  }

  lemma ShownOfMeaning(t: Table, a: nat)
    ensures forall p: nat :: p in ShownOf(t, a) <==> Shown(t, a, p)
  {
  }

  lemma ListsSize(t: Table, a: nat, order: seq<nat>)
    requires Lists(t, a, order)
    ensures |ShownOf(t, a)| == |order|
  {
    ShownOfMeaning(t, a);
    DistinctSize(order, ShownOf(t, a));
  }

  /** A recorded view leaves the newest fifty of its account, whatever the clock did, and no other account changes. */
  lemma RecordBounds(t: Table, e: Event, b: nat)
    requires Answers(t, e) && e.Record?
    ensures e.productIsActive ==> |ShownOf(Next(t, e), e.accountId)| <= MAX_RECENT_VIEWS
    ensures b != e.accountId ==> ShownOf(Next(t, e), b) == ShownOf(t, b)
  {
    hide Hide, Upsert, ShownOf;
    var u, order := Upsert(t, e.accountId, e.productId, e.now), e.order;
    if e.productIsActive {
      TrimKeepsNewest(u, e.accountId, order, MAX_RECENT_VIEWS);
      ListsSize(Next(t, e), e.accountId, order[..Min(MAX_RECENT_VIEWS, |order|)]);
      if b != e.accountId {
        ShownOfMeaning(t, b);
        ShownOfMeaning(Next(t, e), b);
        forall p: nat ensures Shown(Next(t, e), b, p) <==> Shown(t, b, p) {
          HideShows(u, e.accountId, Over(order, MAX_RECENT_VIEWS), b, p);
          UpsertShows(t, e.accountId, e.productId, e.now, b, p);
        }
        assert ShownOf(Next(t, e), b) == ShownOf(t, b);
      }
    }
  }

  lemma HidingShrinks(t: Table, e: Event, b: nat)
    requires !e.Record?
    ensures ShownOf(Next(t, e), b) <= ShownOf(t, b)
  {
  }

  /** No account ever shows more than fifty views, whatever the clock does. */
  lemma {:induction false} NeverMoreThanFifty(events: seq<Event>, b: nat)
    requires RunAnswers(events)
    ensures |ShownOf(Run(events), b)| <= 50
  {
    hide Next, ShownOf, Answers;
    if events == [] {
      NothingShown(b);
    } else {
      var before, e := events[..|events| - 1], events[|events| - 1];
      BeforeAnswers(events);
      NeverMoreThanFifty(before, b);
      if e.Record? {
        RecordBounds(Run(before), e, b);
        if !e.productIsActive { assert Next(Run(before), e) == Run(before) by { RefusedRecord(Run(before), e); } }
      } else {
        HidingShrinks(Run(before), e, b);
        SubsetSize(ShownOf(Run(events), b), ShownOf(Run(before), b));
      }
    }
  }

  lemma RefusedRecord(t: Table, e: Event)
    requires e.Record? && !e.productIsActive
    ensures Next(t, e) == t
  {
  }

  lemma NothingShown(b: nat)
    ensures ShownOf(Run([]), b) == {}
  {
  }

  lemma BeforeAnswers(events: seq<Event>)
    requires RunAnswers(events) && events != []
    ensures RunAnswers(events[..|events| - 1]) && Answers(Run(events[..|events| - 1]), events[|events| - 1])
  {
    hide Answers, Run;
    var before := events[..|events| - 1];
    forall i | 0 <= i < |before| ensures Answers(Run(before[..i]), before[i]) { assert before[..i] == events[..i]; }
  }

  // ---------- the move-to-front list ----------

  function Without(list: seq<nat>, p: nat): (r: seq<nat>)
    ensures forall q: nat :: q in r <==> q in list && q != p
  {
    if list == [] then []
    else if list[0] == p then Without(list[1..], p) else [list[0]] + Without(list[1..], p)
  }

  /** The list a reader has in mind: the newest view in front, fifty at most. */
  function MoveToFront(list: seq<nat>, e: Event, a: nat): seq<nat> {
    if e.accountId != a then list
    else
      match e
      case Record(_, p, productIsActive, _, _) =>
        if !productIsActive then list
        else
          var moved := [p] + Without(list, p);
          moved[..Min(50, |moved|)]
      case DeleteOne(_, p, _) => Without(list, p)
      case ClearAll(_, _) => []
  }

  function ListAfter(events: seq<Event>, a: nat): seq<nat> {
    if events == [] then [] else MoveToFront(ListAfter(events[..|events| - 1], a), events[|events| - 1], a)
  }

  predicate ClockRises(events: seq<Event>) {
    forall i, j :: 0 <= i < j < |events| ==> events[i].now < events[j].now
  }

  predicate SeenBefore(t: Table, now: int) {
    forall k :: k in t ==> t[k].viewedAt < now
  }

  /** Without keeps the order of what is left. */
  lemma {:induction false} WithoutKeepsOrder(t: Table, a: nat, list: seq<nat>, p: nat)
    requires Distinct(list) && forall i, j :: 0 <= i < j < |list| ==> Newer(t, a, list[i], list[j])
    ensures var r := Without(list, p); Distinct(r) && forall i, j :: 0 <= i < j < |r| ==> Newer(t, a, r[i], r[j])
  {
    if list != [] {
      WithoutKeepsOrder(t, a, list[1..], p);
      var rest := Without(list[1..], p);
      if list[0] != p {
        forall j | 0 <= j < |rest| ensures rest[j] != list[0] && Newer(t, a, list[0], rest[j]) {
          assert rest[j] in list[1..];
          var k: nat :| k < |list| - 1 && list[1..][k] == rest[j];
          assert list[k + 1] == rest[j];
        }
      }
    }
  }

  lemma SameViewsSameOrder(t: Table, u: Table, a: nat, r: seq<nat>)
    requires forall i, j :: 0 <= i < j < |r| ==> Newer(t, a, r[i], r[j])
    requires forall p: nat :: p in r ==> Shown(u, a, p) && Shown(t, a, p) && Key(a, p) in u && Key(a, p) in t && u[Key(a, p)] == t[Key(a, p)]
    ensures forall i, j :: 0 <= i < j < |r| ==> Newer(u, a, r[i], r[j])
  {
  }

  /** When no two views have the same time the database has only one order to answer with. */
  lemma {:induction false} StrictOrderIsOnly(t: Table, a: nat, list: seq<nat>, order: seq<nat>)
    requires |list| == |order| && Distinct(list) && Distinct(order) && (forall p: nat :: p in list <==> p in order)
    requires forall i, j :: 0 <= i < j < |list| ==> Newer(t, a, list[i], list[j])
    requires forall i, j :: 0 <= i < j < |order| ==> NotOlder(t, a, order[i], order[j])
    ensures list == order
  {
    if list == [] {
    } else {
      assert list[0] in list;
      var k: nat :| k < |order| && order[k] == list[0];
      assert order[0] in order;
      var m: nat :| m < |list| && list[m] == order[0];
      assert Newer(t, a, list[0], list[m]) || m == 0;
      assert NotOlder(t, a, order[0], order[k]) || k == 0;
      forall p: nat ensures p in list[1..] <==> p in order[1..] {
        TailMembers(list, p);
        TailMembers(order, p);
      }
      StrictOrderIsOnly(t, a, list[1..], order[1..]);
    }
  }

  lemma TailMembers(s: seq<nat>, p: nat)
    requires Distinct(s) && s != []
    ensures p in s[1..] <==> p in s && p != s[0]
  {
  }

  lemma FrontIsDistinct(p: nat, r: seq<nat>)
    requires Distinct(r) && p !in r
    ensures Distinct([p] + r)
  {
  }

  lemma FrontLists(t: Table, a: nat, p: nat, r: seq<nat>)
    requires Distinct(r) && p !in r && forall q: nat :: q in r || q == p <==> Shown(t, a, q)
    ensures Lists(t, a, [p] + r)
  {
    FrontIsDistinct(p, r);
  }

  lemma FrontOrder(t: Table, a: nat, p: nat, r: seq<nat>)
    requires forall i, j :: 0 <= i < j < |r| ==> Newer(t, a, r[i], r[j])
    requires forall q: nat :: q in r ==> Newer(t, a, p, q)
    ensures var s := [p] + r; forall i, j :: 0 <= i < j < |s| ==> Newer(t, a, s[i], s[j])
  {
    hide Newer;
    var s := [p] + r;
    forall i, j | 0 <= i < j < |s| ensures Newer(t, a, s[i], s[j]) {
      assert s[j] == r[j - 1] && r[j - 1] in r;
      if i > 0 { assert s[i] == r[i - 1]; }
    }
  }

  lemma UpsertIsNewest(t: Table, a: nat, p: nat, now: int, q: nat)
    requires SeenBefore(t, now) && Shown(t, a, q) && q != p
    ensures Newer(Upsert(t, a, p, now), a, p, q)
  {
  }

  /** The upserted product comes first, the others keep their order behind it. */
  lemma UpsertMovesToFront(t: Table, a: nat, list: seq<nat>, p: nat, now: int)
    requires IsStrictOrder(t, a, list) && SeenBefore(t, now)
    ensures IsStrictOrder(Upsert(t, a, p, now), a, [p] + Without(list, p))
  {
    hide Upsert, SeenBefore, Newer, Shown, Distinct, Without;
    var u, r := Upsert(t, a, p, now), Without(list, p);
    WithoutKeepsOrder(t, a, list, p);
    forall q: nat
      ensures Shown(u, a, q) <==> Shown(t, a, q) || q == p
      ensures q in r ==> Newer(u, a, p, q)
      ensures q in r ==> Shown(u, a, q) && Shown(t, a, q) && Key(a, q) in t && Key(a, q) in u && u[Key(a, q)] == t[Key(a, q)]
    {
      UpsertShows(t, a, p, now, a, q);
      if q in r {
        ShownHasRow(t, a, q);
        ShownHasRow(u, a, q);
        UpsertIsNewest(t, a, p, now, q);
      }
    }
    SameViewsSameOrder(t, u, a, r);
    FrontOrder(u, a, p, r);
    FrontLists(u, a, p, r);
  }

  lemma ShownHasRow(t: Table, a: nat, p: nat)
    requires Shown(t, a, p)
    ensures Key(a, p) in t
  {
  }

  lemma DeleteKeepsOrder(t: Table, a: nat, list: seq<nat>, p: nat)
    requires IsStrictOrder(t, a, list)
    ensures IsStrictOrder(Hide(t, a, [p]), a, Without(list, p))
  {
    hide Hide;
    WithoutKeepsOrder(t, a, list, p);
    var u := Hide(t, a, [p]);
    forall q: nat
      ensures Shown(u, a, q) <==> Shown(t, a, q) && q != p
      ensures Shown(u, a, q) ==> u[Key(a, q)] == t[Key(a, q)]
    {
      HideShows(t, a, [p], a, q);
    }
    SameViewsSameOrder(t, u, a, Without(list, p));
  }

  lemma OthersKeepOrder(t: Table, e: Event, a: nat, list: seq<nat>)
    requires IsStrictOrder(t, a, list) && e.accountId != a
    ensures IsStrictOrder(Next(t, e), a, list)
  {
  }

  /** One request: the table moves as the list does. */
  lemma StepRefines(t: Table, e: Event, a: nat, list: seq<nat>)
    requires IsStrictOrder(t, a, list) && Answers(t, e) && SeenBefore(t, e.now)
    ensures IsStrictOrder(Next(t, e), a, MoveToFront(list, e, a))
  {
    hide Hide, Upsert, IsStrictOrder, IsViewOrder, SeenBefore, Without, Over;
    if e.accountId != a {
      OthersKeepOrder(t, e, a, list);
    } else {
      match e
      case Record(_, p, productIsActive, now, order) =>
        if productIsActive {
          var u, moved := Upsert(t, a, p, now), [p] + Without(list, p);
          UpsertMovesToFront(t, a, list, p, now);
          AnyAnswerIsTheList(u, a, moved, order);
          TrimKeepsNewest(u, a, order, MAX_RECENT_VIEWS);
        }
      case DeleteOne(_, p, _) => DeleteKeepsOrder(t, a, list, p);
      case ClearAll(_, _) => ClearedShowsNothing(t, a);
    }
  }

  lemma ClearedShowsNothing(t: Table, a: nat)
    ensures IsStrictOrder(HideAll(t, a), a, [])
  {
  }

  lemma AnyAnswerIsTheList(t: Table, a: nat, list: seq<nat>, order: seq<nat>)
    requires IsStrictOrder(t, a, list) && IsViewOrder(t, a, order)
    ensures order == list
  {
    ListsSize(t, a, list);
    ListsSize(t, a, order);
    StrictOrderIsOnly(t, a, list, order);
  }

  lemma NextSeenBefore(t: Table, e: Event, now: int)
    requires SeenBefore(t, e.now) && e.now < now
    ensures SeenBefore(Next(t, e), now)
  {
  }

  lemma {:induction false} RunRefines(events: seq<Event>, a: nat, now: int)
    requires RunAnswers(events) && ClockRises(events)
    requires forall i :: 0 <= i < |events| ==> events[i].now < now
    ensures IsStrictOrder(Run(events), a, ListAfter(events, a)) && SeenBefore(Run(events), now)
  {
    hide Answers, Next, IsStrictOrder, SeenBefore, MoveToFront;
    if events == [] {
      EmptyTable(a, now);
    } else {
      var before, e := events[..|events| - 1], events[|events| - 1];
      BeforeAnswers(events);
      RunRefines(before, a, e.now);
      StepRefines(Run(before), e, a, ListAfter(before, a));
      NextSeenBefore(Run(before), e, now);
    }
  }

  lemma EmptyTable(a: nat, now: int)
    ensures IsStrictOrder(map[], a, []) && SeenBefore(map[], now)
  {
  }

  /** With a rising clock the newest-first query answers exactly the move-to-front list, after every run. */
  lemma TableIsMoveToFrontList(events: seq<Event>, a: nat, order: seq<nat>)
    requires RunAnswers(events) && ClockRises(events)
    ensures IsViewOrder(Run(events), a, order) <==> order == ListAfter(events, a)
  {
    hide IsStrictOrder, IsViewOrder, Run, ListAfter;
    var now := if events == [] then 0 else events[|events| - 1].now + 1;
    RunRefines(events, a, now);
    StrictIsViewOrder(Run(events), a, ListAfter(events, a));
    if IsViewOrder(Run(events), a, order) { AnyAnswerIsTheList(Run(events), a, ListAfter(events, a), order); }
  }

  lemma StrictIsViewOrder(t: Table, a: nat, order: seq<nat>)
    requires IsStrictOrder(t, a, order)
    ensures IsViewOrder(t, a, order)
  {
  }

  // ---------- the repository ----------

  class RecentProductViewRepository {
    var views: Table

    method UpsertView(accountId: nat, productId: nat, now: int)
      modifies this
      ensures views == Upsert(old(views), accountId, productId, now)
      ensures Shown(views, accountId, productId)
      ensures forall k :: k in old(views) && k != Key(accountId, productId) ==> k in views && views[k] == old(views)[k]
    {
      views := views[Key(accountId, productId) := View(now, false)];
    }

    /** `order` is the answer of the newest-first query. */
    method DeleteOldestOverLimit(accountId: nat, maxCount: nat, order: seq<nat>)
      modifies this
      ensures views == Hide(old(views), accountId, Over(order, maxCount))
    {
      var oldest := if |order| <= maxCount then [] else order[maxCount..];
      if |oldest| > 0 {
        views := map k | k in views ::
          if k.accountId == accountId && k.productId in oldest && !views[k].deleted
          then views[k].(deleted := true) else views[k];
      } else {
        HideNothing(views, accountId);
      }
    }

    method SoftDeleteByProduct(accountId: nat, productId: nat) returns (deleted: bool)
      modifies this
      ensures views == Hide(old(views), accountId, [productId])
      ensures deleted <==> Shown(old(views), accountId, productId)
    {
      var k := Key(accountId, productId);
      deleted := k in views && !views[k].deleted;
      if deleted {
        views := views[k := views[k].(deleted := true)];
      }
    }

    method SoftDeleteAllByAccount(accountId: nat) returns (count: nat)
      modifies this
      ensures views == HideAll(old(views), accountId)
      ensures count == |set k | k in old(views) && k.accountId == accountId && !old(views)[k].deleted|
    {
      var hits := set k | k in views && k.accountId == accountId && !views[k].deleted;
      views := map k | k in views :: if k in hits then views[k].(deleted := true) else views[k];
      count := |hits|;
    }

    method RecordView(accountId: nat, productId: nat, productIsActive: bool, now: int, order: seq<nat>) returns (recorded: bool)
      requires Answers(views, Record(accountId, productId, productIsActive, now, order))
      modifies this
      ensures views == Next(old(views), Record(accountId, productId, productIsActive, now, order))
      ensures recorded == productIsActive
    {
      if !productIsActive {
        return false;
      }
      UpsertView(accountId, productId, now);
      DeleteOldestOverLimit(accountId, MAX_RECENT_VIEWS, order);
      return true;
    }
  }

  lemma HideNothing(t: Table, a: nat)
    ensures Hide(t, a, []) == t
  {
  }
}
