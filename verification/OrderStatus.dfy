/** Order status updates by a seller: the transition policy, and what it writes to history, timestamps and notifications. */
module OrderStatus {
  import opened Wrappers
  import opened Text

  datatype Status = Submitted | Confirmed | Made | PickedUp | Canceled
  datatype Event = OrderConfirmed | OrderMade | OrderPickedUp
  datatype Error =
    | InvalidStatus | OrderNotFound | AlreadySet | InvalidTransition | NotCancellable | NoteRequired | NoteTooLong

  datatype Order = Order(
    accountId: nat, storeIds: set<nat>, status: Status, submittedAt: Option<int>,
    confirmedAt: Option<int>, madeAt: Option<int>, pickedUpAt: Option<int>, canceledAt: Option<int>)
  /** An entry without `from` records that the order was placed. */
  datatype History = History(orderId: nat, from: Option<Status>, to: Status, changedAt: int, note: Option<string>)
  datatype Notification = Notification(accountId: nat, orderId: nat, event: Event)
  datatype Audit = Audit(actorId: nat, storeId: nat, orderId: nat, before: Status, after: Status, note: Option<string>)
  datatype Db = Db(
    orders: map<nat, Order>, histories: seq<History>, notifications: seq<Notification>, audits: seq<Audit>)

  function Parse(raw: string): Option<Status> {
    if raw == "SUBMITTED" then Some(Submitted)
    else if raw == "CONFIRMED" then Some(Confirmed)
    else if raw == "MADE" then Some(Made)
    else if raw == "PICKED_UP" then Some(PickedUp)
    else if raw == "CANCELED" then Some(Canceled)
    else None
  }

  function SellerTransitionError(from: Status, to: Status): Option<Error> {
    if from == to then Some(AlreadySet)
    else if to == Submitted then Some(InvalidTransition)
    else if to == Confirmed && from != Submitted then Some(InvalidTransition)
    else if to == Made && from != Confirmed then Some(InvalidTransition)
    else if to == PickedUp && from != Made then Some(InvalidTransition)
    else if to == Canceled && !(from == Submitted || from == Confirmed || from == Made) then Some(NotCancellable)
    else None
  }

  function Successor(s: Status): Option<Status> {
    match s
    case Submitted => Some(Confirmed)
    case Confirmed => Some(Made)
    case Made => Some(PickedUp)
    case PickedUp => None
    case Canceled => None
  }

  /** One step along the line of work, or out of it while something is still to be done. */
  predicate Allowed(from: Status, to: Status) {
    Successor(from) == Some(to) || (to == Canceled && Successor(from).Some?)
  }

  // ---------- notes ----------

  function CleanNullableText(raw: Option<string>, maxLength: nat): Result<Option<string>, Error> {
    if raw.None? then Ok(None)
    else
      var trimmed := Trim(raw.value);
      if trimmed == [] then Ok(None) else if |trimmed| > maxLength then Err(NoteTooLong) else Ok(Some(trimmed))
  }

  // ---------- one update ----------

  datatype Update = Update(storeId: nat, actorId: nat, orderId: nat, rawStatus: string, note: Option<string>, now: int)

  predicate OwnOrder(db: Db, storeId: nat, orderId: nat) {
    orderId in db.orders && storeId in db.orders[orderId].storeIds
  }

  function NotificationEvent(s: Status): Option<Event> {
    match s
    case Confirmed => Some(OrderConfirmed)
    case Made => Some(OrderMade)
    case PickedUp => Some(OrderPickedUp)
    case _ => None
  }

  function SetStatus(o: Order, to: Status, now: int): Order {
    o.(status := to,
       confirmedAt := if to == Confirmed then Some(now) else o.confirmedAt,
       madeAt := if to == Made then Some(now) else o.madeAt,
       pickedUpAt := if to == PickedUp then Some(now) else o.pickedUpAt,
       canceledAt := if to == Canceled then Some(now) else o.canceledAt)
  }

  function Notifications(accountId: nat, orderId: nat, to: Status): seq<Notification> {
    var event := NotificationEvent(to);
    if event.None? then [] else [Notification(accountId, orderId, event.value)]
  }

  function Write(db: Db, u: Update, to: Status, note: Option<string>): Db
    requires u.orderId in db.orders
  {
    var o := db.orders[u.orderId];
    Db(db.orders[u.orderId := SetStatus(o, to, u.now)],
       db.histories + [History(u.orderId, Some(o.status), to, u.now, note)],
       db.notifications + Notifications(o.accountId, u.orderId, to),
       db.audits + [Audit(u.actorId, u.storeId, u.orderId, o.status, to, note)])
  }

  function Decide(db: Db, u: Update): Result<(Status, Option<string>), Error> {
    var to := Parse(u.rawStatus);
    if to.None? then Err(InvalidStatus)
    else if !OwnOrder(db, u.storeId, u.orderId) then Err(OrderNotFound)
    else
      var refused := SellerTransitionError(db.orders[u.orderId].status, to.value);
      if refused.Some? then Err(refused.value)
      else if to.value == Canceled && (u.note.None? || Trim(u.note.value) == []) then Err(NoteRequired)
      else
        var note := CleanNullableText(u.note, 500);
        if note.Err? then Err(note.error) else Ok((to.value, note.value))
  }

  function Apply(db: Db, u: Update): Db {
    match Decide(db, u)
    case Ok((to, note)) => Write(db, u, to, note)
    case Err(_) => db
  }

  function Run(db: Db, updates: seq<Update>): Db {
    if updates == [] then db else Apply(Run(db, updates[..|updates| - 1]), updates[|updates| - 1])
  }

  /** The policy lets exactly the allowed steps through, and a note is demanded of cancellations only. */
  lemma AcceptedIff(db: Db, u: Update)
    ensures Decide(db, u).Ok? <==>
            && Parse(u.rawStatus).Some? && u.orderId in db.orders && u.storeId in db.orders[u.orderId].storeIds
            && Allowed(db.orders[u.orderId].status, Parse(u.rawStatus).value)
            && (u.note.Some? ==> |Trim(u.note.value)| <= 500)
            && (Parse(u.rawStatus).value == Canceled ==> u.note.Some? && Trim(u.note.value) != [])
  {
    hide Trim, Parse;
  }

  /** What an accepted update writes on its order, status by status; the other orders stay. */
  lemma AcceptedUpdateOrder(db: Db, u: Update)
    requires Decide(db, u).Ok?
    ensures u.orderId in db.orders
    ensures var o, p := db.orders[u.orderId], Apply(db, u).orders[u.orderId];
            && Apply(db, u).orders == db.orders[u.orderId := p]
            && p == (if u.rawStatus == "CONFIRMED" then o.(status := Confirmed, confirmedAt := Some(u.now))
                     else if u.rawStatus == "MADE" then o.(status := Made, madeAt := Some(u.now))
                     else if u.rawStatus == "PICKED_UP" then o.(status := PickedUp, pickedUpAt := Some(u.now))
                     else o.(status := Canceled, canceledAt := Some(u.now)))
            && (u.rawStatus != "CONFIRMED" && u.rawStatus != "MADE" && u.rawStatus != "PICKED_UP" ==> u.rawStatus == "CANCELED")
  {
    hide Trim, CleanNullableText;
  }

  /** Which notification it sends: one event for each step of the work, none for a cancellation. */
  lemma AcceptedUpdateNotifies(db: Db, u: Update)
    requires Decide(db, u).Ok?
    ensures u.orderId in db.orders
    ensures var a, sent := db.orders[u.orderId].accountId, Apply(db, u).notifications;
            sent == db.notifications
                    + if u.rawStatus == "CONFIRMED" then [Notification(a, u.orderId, OrderConfirmed)]
                      else if u.rawStatus == "MADE" then [Notification(a, u.orderId, OrderMade)]
                      else if u.rawStatus == "PICKED_UP" then [Notification(a, u.orderId, OrderPickedUp)] else []
  {
    hide Trim, CleanNullableText, SetStatus;
  }

  /** What it records: where the order was, where it is, when, and the trimmed note. */
  lemma AcceptedUpdateRecords(db: Db, u: Update)
    requires Decide(db, u).Ok?
    ensures u.orderId in db.orders
    ensures var to, from := Apply(db, u).orders[u.orderId].status, db.orders[u.orderId].status;
            var note := if u.note.None? || Trim(u.note.value) == [] then None else Some(Trim(u.note.value));
            && Apply(db, u).histories == db.histories + [History(u.orderId, Some(from), to, u.now, note)]
            && Apply(db, u).audits == db.audits + [Audit(u.actorId, u.storeId, u.orderId, from, to, note)]
  {
    hide Trim, Notifications, Parse;
  }

  /** A placed order with its first history entry. */
  function Place(db: Db, id: nat, accountId: nat, storeIds: set<nat>, now: int): Db {
    db.(orders := db.orders[id := Order(accountId, storeIds, Submitted, Some(now), None, None, None, None)],
        histories := db.histories + [History(id, None, Submitted, now, None)])
  }

  /** Why an update is refused: the first of these that applies. */
  lemma RefusalReasons(db: Db, u: Update)
    ensures var r, to := Decide(db, u), Parse(u.rawStatus);
            r.Err? ==>
              if to.None? then r == Err(InvalidStatus)
              else if u.orderId !in db.orders || u.storeId !in db.orders[u.orderId].storeIds then r == Err(OrderNotFound)
              else if db.orders[u.orderId].status == to.value then r == Err(AlreadySet)
              else if to.value == Canceled && db.orders[u.orderId].status == PickedUp then r == Err(NotCancellable)
              else if !Allowed(db.orders[u.orderId].status, to.value) then r == Err(InvalidTransition)
              else if u.note.None? || Trim(u.note.value) == [] then r == Err(NoteRequired)
              else r == Err(NoteTooLong)
  {
    hide Trim, Parse;
  }

  // ---------- what every run keeps ----------

  function HistoryOf(log: seq<History>, id: nat): seq<History> {
    if log == [] then []
    else HistoryOf(log[..|log| - 1], id) + (if log[|log| - 1].orderId == id then [log[|log| - 1]] else [])
  }

  function NotificationsOf(log: seq<Notification>, id: nat): seq<Notification> {
    if log == [] then []
    else NotificationsOf(log[..|log| - 1], id) + (if log[|log| - 1].orderId == id then [log[|log| - 1]] else [])
  }

  /**
    * Each entry starts where the one before ended, the last at the current status. The first starts at
    * Submitted, behind the entry of the placing if there is one.
    */
  predicate Chained(h: seq<History>, status: Status) {
    if h == [] then status == Submitted
    else
      var last := h[|h| - 1];
      && last.to == status
      && match last.from
         case None => |h| == 1 && status == Submitted
         case Some(from) => Allowed(from, status) && Chained(h[..|h| - 1], from)
  }

  function EnteredAt(h: seq<History>, s: Status): Option<int> {
    if h == [] then None
    else if h[|h| - 1].to == s then Some(h[|h| - 1].changedAt) else EnteredAt(h[..|h| - 1], s)
  }

  function Stamp(o: Order, s: Status): Option<int> {
    match s
    case Submitted => o.submittedAt
    case Confirmed => o.confirmedAt
    case Made => o.madeAt
    case PickedUp => o.pickedUpAt
    case Canceled => o.canceledAt
  }

  predicate NoteGiven(e: History) {
    e.to == Canceled ==>
      e.note.Some? && var note := e.note.value;
      1 <= |note| <= 500 && !IsSpace(note[0]) && !IsSpace(note[|note| - 1])
  }

  predicate NotesGiven(h: seq<History>) {
    forall k :: 0 <= k < |h| ==> NoteGiven(h[k])
  }

  /** The notifications a history calls for: one for each entry that is not a cancellation, in order. */
  function Announced(h: seq<History>, accountId: nat): seq<Notification> {
    if h == [] then []
    else
      var last := h[|h| - 1];
      Announced(h[..|h| - 1], accountId) + Notifications(accountId, last.orderId, last.to)
  }

  predicate GoodOrder(o: Order, h: seq<History>) {
    && Chained(h, o.status) && NotesGiven(h)
    && (forall s: Status :: s != Submitted || EnteredAt(h, s).Some? ==> Stamp(o, s) == EnteredAt(h, s))
  }

  ghost predicate Good(db: Db) {
    forall id: nat :: id in db.orders ==> GoodOrder(db.orders[id], HistoryOf(db.histories, id))
  }

  lemma Appended(h: seq<History>, e: History, o: Order)
    requires GoodOrder(o, h) && e.from == Some(o.status) && Allowed(o.status, e.to) && NoteGiven(e)
    ensures GoodOrder(SetStatus(o, e.to, e.changedAt), h + [e])
  {
    var g, p := h + [e], SetStatus(o, e.to, e.changedAt);
    assert g[..|g| - 1] == h && g[|g| - 1] == e;
    forall s: Status | s != Submitted || EnteredAt(g, s).Some? ensures Stamp(p, s) == EnteredAt(g, s) {
      assert EnteredAt(g, s) == if e.to == s then Some(e.changedAt) else EnteredAt(h, s);
      assert Stamp(p, s) == if e.to == s then Some(e.changedAt) else Stamp(o, s);
    }
  }

  lemma HistoryGrows(log: seq<History>, e: History, id: nat)
    ensures HistoryOf(log + [e], id) == HistoryOf(log, id) + (if e.orderId == id then [e] else [])
  {
    assert (log + [e])[..|log|] == log;
  }

  /** A freshly placed order is in order, and placing it disturbs no other. */
  lemma PlaceKeepsGood(db: Db, id: nat, accountId: nat, storeIds: set<nat>, now: int)
    requires Good(db) && id !in db.orders && HistoryOf(db.histories, id) == []
    ensures Good(Place(db, id, accountId, storeIds, now))
    ensures HistoryOf(Place(db, id, accountId, storeIds, now).histories, id) == [History(id, None, Submitted, now, None)]
    ensures var u := Place(db, id, accountId, storeIds, now);
            && u.orders.Keys == db.orders.Keys + {id} && u.orders[id].accountId == accountId && u.orders[id].storeIds == storeIds
            && forall i :: i in db.orders ==> u.orders[i] == db.orders[i]
  {
    hide HistoryOf;
    var p, e := Place(db, id, accountId, storeIds, now), History(id, None, Submitted, now, None);
    HistoryGrows(db.histories, e, id);
    assert [] + [e] == [e] && [e][..0] == [];
    forall s: Status | s != Submitted || EnteredAt([e], s).Some? ensures Stamp(p.orders[id], s) == EnteredAt([e], s) {
      assert EnteredAt([e], s) == if s == Submitted then Some(now) else EnteredAt([], s);
    }
    assert GoodOrder(p.orders[id], [e]);
    forall i: nat | i in p.orders ensures GoodOrder(p.orders[i], HistoryOf(p.histories, i)) {
      HistoryGrows(db.histories, e, i);
      if i != id {
        assert HistoryOf(p.histories, i) == HistoryOf(db.histories, i);
        assert GoodOrder(db.orders[i], HistoryOf(db.histories, i));
      }
    }
  }

  lemma LogsSplit(db: Db, u: Update, to: Status, note: Option<string>, id: nat)
    requires u.orderId in db.orders
    ensures var w, o := Write(db, u, to, note), db.orders[u.orderId];
            && HistoryOf(w.histories, id)
               == HistoryOf(db.histories, id) + (if id == u.orderId then [History(id, Some(o.status), to, u.now, note)] else [])
            && NotificationsOf(w.notifications, id)
               == NotificationsOf(db.notifications, id) + (if id == u.orderId then Notifications(o.accountId, id, to) else [])
  {
    var w := Write(db, u, to, note);
    assert w.histories[..|w.histories| - 1] == db.histories;
    if NotificationEvent(to).Some? {
      assert w.notifications[..|w.notifications| - 1] == db.notifications;
    } else {
      assert w.notifications == db.notifications;
    }
  }

  lemma ApplyKeepsGood(db: Db, u: Update)
    requires Good(db)
    ensures Good(Apply(db, u))
  {
    hide GoodOrder, Write, HistoryOf, NotificationsOf, Decide;
    var decided := Decide(db, u);
    if decided.Ok? {
      var (to, note) := decided.value;
      DecidedNote(db, u);
      var w, o := Write(db, u, to, note), db.orders[u.orderId];
      WriteOrders(db, u, to, note);
      forall id: nat | id in w.orders
        ensures GoodOrder(w.orders[id], HistoryOf(w.histories, id))
      {
        LogsSplit(db, u, to, note, id);
        assert GoodOrder(db.orders[id], HistoryOf(db.histories, id));
        if id == u.orderId {
          Appended(HistoryOf(db.histories, id), History(id, Some(o.status), to, u.now, note), o);
        } else {
          assert HistoryOf(w.histories, id) == HistoryOf(db.histories, id);
        }
      }
    }
  }

  lemma WriteOrders(db: Db, u: Update, to: Status, note: Option<string>)
    requires u.orderId in db.orders
    ensures Write(db, u, to, note).orders == db.orders[u.orderId := SetStatus(db.orders[u.orderId], to, u.now)]
  {
  }

  lemma DecidedNote(db: Db, u: Update)
    requires Decide(db, u).Ok?
    ensures u.orderId in db.orders
    ensures var (to, note) := Decide(db, u).value;
            var from := db.orders[u.orderId].status;
            Allowed(from, to) && NoteGiven(History(u.orderId, Some(from), to, u.now, note))
  {
  }

  /** Over every run: chained history, notes on cancellations, timestamps that mirror the history. */
  lemma {:induction false} RunKeepsGood(db: Db, updates: seq<Update>)
    requires Good(db)
    ensures Good(Run(db, updates))
  {
    hide Good, Apply;
    if updates != [] {
      RunKeepsGood(db, updates[..|updates| - 1]);
      ApplyKeepsGood(Run(db, updates[..|updates| - 1]), updates[|updates| - 1]);
    }
  }

  /** Whatever the logs held before, a run only appends to them, one audit entry for each history entry. */
  lemma {:induction false} RunKeepsAudits(db: Db, updates: seq<Update>)
    ensures var r := Run(db, updates);
            && r.orders.Keys == db.orders.Keys && db.histories <= r.histories && db.audits <= r.audits
            && var audits, h := r.audits[|db.audits|..], r.histories[|db.histories|..];
               && |audits| == |h|
               && forall k :: 0 <= k < |h| ==>
                    && audits[k].orderId == h[k].orderId && Some(audits[k].before) == h[k].from
                    && audits[k].after == h[k].to && audits[k].note == h[k].note
  {
    hide Decide;
    if updates != [] {
      var before, u := Run(db, updates[..|updates| - 1]), updates[|updates| - 1];
      RunKeepsAudits(db, updates[..|updates| - 1]);
      if Decide(before, u).Ok? {
        DecidedNote(before, u);
        var r, n, m := Apply(before, u), |db.histories|, |db.audits|;
        assert r.histories[n..] == before.histories[n..] + [r.histories[|before.histories|]];
        assert r.audits[m..] == before.audits[m..] + [r.audits[|before.audits|]];
      }
    }
  }

  // ---------- consequences ----------

  /** In every run a cancellation carries a note of 1 to 500 characters that neither starts nor ends with white space. */
  lemma CancellationsCarryNotes(db: Db, updates: seq<Update>, id: nat, k: nat)
    requires Good(db) && id in Run(db, updates).orders
    ensures var h := HistoryOf(Run(db, updates).histories, id);
            k < |h| && h[k].to == Canceled ==>
              h[k].note.Some? && var note := h[k].note.value;
              1 <= |note| <= 500 && !IsSpace(note[0]) && !IsSpace(note[|note| - 1])
  {
    hide Run, HistoryOf, Chained, EnteredAt, Stamp;
    RunKeepsGood(db, updates);
    var r := Run(db, updates);
    assert GoodOrder(r.orders[id], HistoryOf(r.histories, id));
  }

  function Rank(s: Status): nat {
    match s
    case Submitted => 0
    case Confirmed => 1
    case Made => 2
    case PickedUp => 3
    case Canceled => 3
  }

  /** The rank of where an entry starts; the placing starts below everything. */
  function RankFrom(from: Option<Status>): int {
    if from.None? then -1 else Rank(from.value)
  }

  /** The entries written by sellers: all but that of the placing. */
  function Steps(h: seq<History>): seq<History> {
    if h != [] && h[0].from.None? then h[1..] else h
  }

  predicate Enters(h: seq<History>, k: int, s: Status) {
    0 <= k < |h| && h[k].to == s
  }

  predicate Entered(h: seq<History>, s: Status) {
    exists k | 0 <= k < |h| :: Enters(h, k, s)
  }

  lemma AllowedClimbs(from: Status, to: Status)
    requires Allowed(from, to)
    ensures Rank(from) < Rank(to) <= 3 && to != Submitted && from != Canceled && (to != Canceled ==> Rank(to) == Rank(from) + 1)
  {
  }

  /**
    * A status is entered at most once, Submitted only by the placing; the rank climbs with every entry, so a
    * history has at most three entries of sellers.
    */
  lemma {:induction false} EachStatusOnce(h: seq<History>, status: Status)
    requires Chained(h, status)
    ensures |Steps(h)| <= Rank(status) <= 3 && (status != Canceled ==> |Steps(h)| == Rank(status))
    ensures forall k :: 0 <= k < |h| ==> (h[k].from.None? <==> h[k].to == Submitted) && (h[k].from.None? ==> k == 0)
    ensures forall k :: 0 <= k < |h| ==> RankFrom(h[k].from) < Rank(h[k].to) <= Rank(status)
    ensures forall k :: 0 <= k < |h| - 1 ==> Some(h[k].to) == h[k + 1].from && Rank(h[k].to) < Rank(status)
    ensures forall i, j, s: Status :: Enters(h, i, s) && Enters(h, j, s) ==> i == j
  {
    if h != [] && h[|h| - 1].from.Some? {
      var front, last := h[..|h| - 1], h[|h| - 1];
      AllowedClimbs(last.from.value, last.to);
      hide Chained, Allowed, Rank;
      EachStatusOnce(front, last.from.value);
      assert forall k :: 0 <= k < |front| ==> h[k] == front[k];
      assert |Steps(h)| == |Steps(front)| + 1;
      assert front != [] ==> front[|front| - 1].to == last.from.value;
      forall i, j, s: Status | Enters(h, i, s) && Enters(h, j, s) ensures i == j {
        if i < |front| && j < |front| { assert Enters(front, i, s) && Enters(front, j, s); }
      }
    }
  }

  lemma {:induction false} StampedIffEntered(h: seq<History>, s: Status)
    ensures EnteredAt(h, s).Some? <==> Entered(h, s)
    ensures EnteredAt(h, s).Some? ==> exists k :: Enters(h, k, s) && h[k].changedAt == EnteredAt(h, s).value
  {
    if h != [] {
      var front := h[..|h| - 1];
      StampedIffEntered(front, s);
      if h[|h| - 1].to == s {
        assert Enters(h, |h| - 1, s);
      } else {
        assert forall k :: Enters(h, k, s) <==> Enters(front, k, s);
        assert EnteredAt(h, s) == EnteredAt(front, s);
        if EnteredAt(front, s).Some? {
          var k :| Enters(front, k, s) && front[k].changedAt == EnteredAt(front, s).value;
          assert Enters(h, k, s) && h[k] == front[k];
        }
      }
    }
  }

  /** A timestamp of a step is set exactly when its status is in the history, and it is the time of that entry. */
  lemma TimestampsMirrorHistory(db: Db, updates: seq<Update>, id: nat, s: Status, k: int)
    requires Good(db) && id in Run(db, updates).orders
    ensures var r := Run(db, updates);
            var h := HistoryOf(r.histories, id);
            && (s != Submitted ==> (Stamp(r.orders[id], s).Some? <==> Entered(h, s)))
            && (Enters(h, k, s) ==> Stamp(r.orders[id], s) == Some(h[k].changedAt))
  {
    hide Run, HistoryOf, NotificationsOf, EnteredAt, Stamp;
    RunKeepsGood(db, updates);
    var r := Run(db, updates);
    var h := HistoryOf(r.histories, id);
    assert GoodOrder(r.orders[id], h);
    EachStatusOnce(h, r.orders[id].status);
    StampedIffEntered(h, s);
    if Enters(h, k, s) {
      var i :| Enters(h, i, s) && h[i].changedAt == EnteredAt(h, s).value;
      assert i == k;
    }
  }

  /** `h` continues `before`, and the notifications since then are those its new entries call for. */
  predicate Reported(before: seq<History>, h: seq<History>, ns0: seq<Notification>, ns: seq<Notification>, a: nat) {
    before <= h && ns == ns0 + Announced(h[|before|..], a)
  }

  lemma ReportedGrows(before: seq<History>, h: seq<History>, ns0: seq<Notification>, ns: seq<Notification>, e: History, a: nat)
    requires Reported(before, h, ns0, ns, a)
    ensures Reported(before, h + [e], ns0, ns + Notifications(a, e.orderId, e.to), a)
  {
    var added := h[|before|..];
    assert (h + [e])[|before|..] == added + [e] && (added + [e])[..|added|] == added;
    assert Announced(added + [e], a) == Announced(added, a) + Notifications(a, e.orderId, e.to);
  }

  /** What one accepted update adds to the logs of order `id`. */
  lemma ApplySplits(db: Db, u: Update, id: nat)
    requires id in db.orders
    ensures var w := Apply(db, u);
            && id in w.orders && w.orders[id].accountId == db.orders[id].accountId
            && if Decide(db, u).Ok? && u.orderId == id then
                 var (to, note) := Decide(db, u).value;
                 var from := db.orders[id].status;
                 && Allowed(from, to) && w.orders[id].status == to
                 && HistoryOf(w.histories, id) == HistoryOf(db.histories, id) + [History(id, Some(from), to, u.now, note)]
                 && NotificationsOf(w.notifications, id)
                    == NotificationsOf(db.notifications, id) + Notifications(db.orders[id].accountId, id, to)
               else
                 && w.orders[id] == db.orders[id] && HistoryOf(w.histories, id) == HistoryOf(db.histories, id)
                 && NotificationsOf(w.notifications, id) == NotificationsOf(db.notifications, id)
  {
    hide Decide, HistoryOf, NotificationsOf, Write;
    if Decide(db, u).Ok? {
      var (to, note) := Decide(db, u).value;
      DecidedNote(db, u);
      WriteOrders(db, u, to, note);
      LogsSplit(db, u, to, note, id);
    }
  }

  /** In every run and from every state the buyer is notified of the updates that call for it, in their order. */
  lemma {:induction false} NotificationsFollowHistory(db: Db, updates: seq<Update>, id: nat)
    requires id in db.orders
    ensures var r := Run(db, updates);
            && id in r.orders && r.orders[id].accountId == db.orders[id].accountId
            && Reported(HistoryOf(db.histories, id), HistoryOf(r.histories, id), NotificationsOf(db.notifications, id),
                        NotificationsOf(r.notifications, id), db.orders[id].accountId)
  {
    hide Decide, HistoryOf, NotificationsOf, Notifications, Apply, Reported, Announced;
    if updates == [] {
      NothingReported(HistoryOf(db.histories, id), NotificationsOf(db.notifications, id), db.orders[id].accountId);
    } else {
      var front, u := updates[..|updates| - 1], updates[|updates| - 1];
      NotificationsFollowHistory(db, front, id);
      var v := Run(db, front);
      ApplySplits(v, u, id);
      if Decide(v, u).Ok? && u.orderId == id {
        var (to, note) := Decide(v, u).value;
        ReportedGrows(
          HistoryOf(db.histories, id), HistoryOf(v.histories, id), NotificationsOf(db.notifications, id),
          NotificationsOf(v.notifications, id), History(id, Some(v.orders[id].status), to, u.now, note), db.orders[id].accountId);
      }
    }
  }

  lemma NothingReported(h: seq<History>, ns: seq<Notification>, a: nat)
    ensures Reported(h, h, ns, ns, a)
  {
    assert h[|h|..] == [];
  }

  /** In every run and from every state an order is updated three times at most, and notified once less if it is canceled. */
  lemma {:induction false} UpdatesAndNotifications(db: Db, updates: seq<Update>, id: nat)
    requires id in db.orders
    ensures var r := Run(db, updates);
            && id in r.orders && (db.orders[id].status == Canceled ==> r.orders[id].status == Canceled)
            && var n := |HistoryOf(r.histories, id)| - |HistoryOf(db.histories, id)|;
               && 0 <= n <= Rank(r.orders[id].status) - Rank(db.orders[id].status) <= 3
               && |NotificationsOf(r.notifications, id)| - |NotificationsOf(db.notifications, id)|
                  == n - (if r.orders[id].status == Canceled && db.orders[id].status != Canceled then 1 else 0)
  {
    hide Decide, HistoryOf, NotificationsOf, Apply;
    if updates != [] {
      var front, u := updates[..|updates| - 1], updates[|updates| - 1];
      UpdatesAndNotifications(db, front, id);
      ApplySplits(Run(db, front), u, id);
    }
  }

  // ---------- every legal path is reached ----------

  predicate LegalPath(path: seq<Status>) {
    if path == [] then true
    else
      var front := path[..|path| - 1];
      LegalPath(front) && Allowed(if front == [] then Submitted else front[|front| - 1], path[|path| - 1])
  }

  function Tos(h: seq<History>): seq<Status> {
    seq(|h|, k requires 0 <= k < |h| => h[k].to)
  }

  function Raw(s: Status): string {
    match s
    case Submitted => "SUBMITTED"
    case Confirmed => "CONFIRMED"
    case Made => "MADE"
    case PickedUp => "PICKED_UP"
    case Canceled => "CANCELED"
  }

  lemma RawParses(s: Status)
    ensures Parse(Raw(s)) == Some(s)
  {
  }

  lemma StepsGrow(h: seq<History>, e: History)
    requires e.from.Some?
    ensures Steps(h + [e]) == Steps(h) + [e]
  {
  }

  lemma {:induction false} ChainedPaths(h: seq<History>, status: Status)
    requires Chained(h, status)
    ensures var path := Tos(Steps(h)); LegalPath(path) && status == if path == [] then Submitted else path[|path| - 1]
  {
    if h != [] && h[|h| - 1].from.Some? {
      var front, last := h[..|h| - 1], h[|h| - 1];
      hide Chained, LegalPath, Steps, Allowed;
      ChainedPaths(front, last.from.value);
      StepsGrow(front, last);
      assert h == front + [last];
      assert Tos(Steps(h)) == Tos(Steps(front)) + [last.to];
      PathGrows(Tos(Steps(front)), last.to);
    }
  }

  lemma PathGrows(path: seq<Status>, s: Status)
    requires LegalPath(path) && Allowed(if path == [] then Submitted else path[|path| - 1], s)
    ensures LegalPath(path + [s])
  {
    assert (path + [s])[..|path|] == path;
  }

  /** A run that walks a path, with a note on every update. */
  function Walk(path: seq<Status>, storeId: nat, id: nat): seq<Update> {
    seq(|path|, k requires 0 <= k < |path| => Update(storeId, 0, id, Raw(path[k]), Some("x"), k))
  }

  /** From a fresh order exactly the legal paths can be walked: the policy is neither tighter nor looser. */
  lemma {:induction false} LegalPathsAreReached(db: Db, storeId: nat, id: nat, path: seq<Status>)
    requires LegalPath(path)
    requires OwnOrder(db, storeId, id) && db.orders[id].status == Submitted && Chained(HistoryOf(db.histories, id), Submitted)
    ensures var r := Run(db, Walk(path, storeId, id));
            && OwnOrder(r, storeId, id) && Tos(Steps(HistoryOf(r.histories, id))) == path
            && r.orders[id].status == if path == [] then Submitted else path[|path| - 1]
  {
    hide Decide, HistoryOf, Write, Parse, Raw, Trim;
    if path == [] {
      assert Walk(path, storeId, id) == [];
      EachStatusOnce(HistoryOf(db.histories, id), Submitted);
    } else {
      var front := path[..|path| - 1];
      LegalPathsAreReached(db, storeId, id, front);
      var walk, u := Walk(path, storeId, id), Walk(path, storeId, id)[|path| - 1];
      assert walk[..|walk| - 1] == Walk(front, storeId, id);
      WalkStep(Run(db, Walk(front, storeId, id)), u, path[|path| - 1]);
    }
  }

  lemma PlainNote()
    ensures Trim("x") == "x"
  {
  }

  lemma WalkStep(db: Db, u: Update, to: Status)
    requires OwnOrder(db, u.storeId, u.orderId) && Allowed(db.orders[u.orderId].status, to)
    requires u.rawStatus == Raw(to) && u.note == Some("x")
    ensures var r := Apply(db, u);
            && OwnOrder(r, u.storeId, u.orderId) && r.orders[u.orderId].status == to
            && Tos(Steps(HistoryOf(r.histories, u.orderId))) == Tos(Steps(HistoryOf(db.histories, u.orderId))) + [to]
  {
    hide HistoryOf, Parse, Raw, Write, Trim;
    RawParses(to);
    PlainNote();
    AcceptedIff(db, u);
    WriteOrders(db, u, to, Some("x"));
    LogsSplit(db, u, to, Some("x"), u.orderId);
    StepsGrow(HistoryOf(db.histories, u.orderId), History(u.orderId, Some(db.orders[u.orderId].status), to, u.now, Some("x")));
  }

  /** Conversely every run leaves each order on a legal path that ends at its status. */
  lemma RunsWalkLegalPaths(db: Db, updates: seq<Update>, id: nat)
    requires Good(db) && id in Run(db, updates).orders
    ensures var r := Run(db, updates);
            var path := Tos(Steps(HistoryOf(r.histories, id)));
            LegalPath(path) && r.orders[id].status == if path == [] then Submitted else path[|path| - 1]
  {
    hide Run, HistoryOf, LegalPath, Chained, Steps;
    RunKeepsGood(db, updates);
    var r := Run(db, updates);
    assert GoodOrder(r.orders[id], HistoryOf(r.histories, id));
    ChainedPaths(HistoryOf(r.histories, id), r.orders[id].status);
  }

  // ---------- the service ----------

  class SellerOrders {
    var orders: map<nat, Order>
    var histories: seq<History>
    var notifications: seq<Notification>
    var audits: seq<Audit>

    function Contents(): Db
      reads this
    {
      Db(orders, histories, notifications, audits)
    }

    method UpdateOrderStatusBySeller(u: Update, to: Status, note: Option<string>) returns (found: bool)
      modifies this
      ensures found <==> OwnOrder(old(Contents()), u.storeId, u.orderId)
      ensures Contents() == if found then Write(old(Contents()), u, to, note) else old(Contents())
    {
      if u.orderId !in orders || u.storeId !in orders[u.orderId].storeIds {
        return false;
      }
      var o := orders[u.orderId];
      orders := orders[u.orderId := SetStatus(o, to, u.now)];
      histories := histories + [History(u.orderId, Some(o.status), to, u.now, note)];
      var event := NotificationEvent(to);
      if event.Some? {
        notifications := notifications + [Notification(o.accountId, u.orderId, event.value)];
      }
      audits := audits + [Audit(u.actorId, u.storeId, u.orderId, o.status, to, note)];
      return true;
    }

    /** Checks first, writes last: a refused update changes nothing. */
    method SellerUpdateOrderStatus(u: Update) returns (refused: Option<Error>)
      requires Good(Contents())
      modifies this
      ensures Good(Contents()) && Contents() == Apply(old(Contents()), u)
      ensures refused.Some? <==> Decide(old(Contents()), u).Err?
      ensures refused.Some? ==> Contents() == old(Contents()) && Decide(old(Contents()), u) == Err(refused.value)
    {
      hide Good, Write, Trim;
      ApplyKeepsGood(Contents(), u);
      var to := Parse(u.rawStatus);
      if to.None? {
        return Some(InvalidStatus);
      }
      if u.orderId !in orders || u.storeId !in orders[u.orderId].storeIds {
        return Some(OrderNotFound);
      }
      refused := SellerTransitionError(orders[u.orderId].status, to.value);
      if refused.Some? {
        return;
      }
      if to.value == Canceled && (u.note.None? || Trim(u.note.value) == []) {
        return Some(NoteRequired);
      }
      var note := CleanNullableText(u.note, 500);
      if note.Err? {
        return Some(note.error);
      }
      var found := UpdateOrderStatusBySeller(u, to.value, note.value);
      return None;
    }
  }
}
