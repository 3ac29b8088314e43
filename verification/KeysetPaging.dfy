/**
 * Keyset pagination over keys (likeCount, id), newest boundary first, across requests between which the
 * table may change arbitrarily.
 */
module KeysetPaging {
  import opened Wrappers

  datatype Key = Key(likes: nat, id: nat)

  /** HAVING count < c.likes OR (count = c.likes AND id < c.id) */
  predicate Below(a: Key, b: Key) {
    a.likes < b.likes || (a.likes == b.likes && a.id < b.id)
  }

  predicate BelowCursor(k: Key, cursor: Option<Key>) {
    cursor.None? || Below(k, cursor.value)
  }

  // ---------- ORDER BY likes DESC, id DESC ----------

  ghost function MaxKey(s: set<Key>): (m: Key)
    requires s != {}
    ensures m in s && forall k :: k in s ==> k == m || Below(k, m)
  {
    var x :| x in s;
    var rest := s - {x};
    assert forall k :: k in s <==> k == x || k in rest;
    if rest == {} then x
    else
      var m := MaxKey(rest);
      if Below(m, x) then x else m
  }

  ghost function SortDesc(s: set<Key>): seq<Key> {
    if s == {} then [] else [MaxKey(s)] + SortDesc(s - {MaxKey(s)})
  }

  ghost predicate Descending(q: seq<Key>) {
    forall i, j :: 0 <= i < j < |q| ==> Below(q[j], q[i])
  }

  /** `q` lists exactly the keys of `s`, highest first. */
  ghost predicate Lists(q: seq<Key>, s: set<Key>) {
    Descending(q) && forall k :: k in q <==> k in s
  }

  lemma {:induction false} SortDescSorts(s: set<Key>)
    ensures Lists(SortDesc(s), s) && |SortDesc(s)| == |s|
  {
    hide MaxKey, Below;
    if s != {} {
      var m := MaxKey(s);
      var rest := SortDesc(s - {m});
      SortDescSorts(s - {m});
      assert SortDesc(s) == [m] + rest;
      hide SortDesc, Lists;
      HighestFirst(m, rest, s);
    }
  }

  lemma HighestFirst(m: Key, q: seq<Key>, s: set<Key>)
    requires m in s && Lists(q, s - {m}) && forall k :: k in s ==> k == m || Below(k, m)
    ensures Lists([m] + q, s)
  {
    hide Below;
    forall i | 0 <= i < |q| ensures q[i] != m && Below(q[i], m) {
      assert q[i] in q;
    }
  }

  /** A set of keys has only one such listing. */
  lemma {:induction false} SortDescUnique(q: seq<Key>, s: set<Key>)
    requires Lists(q, s)
    ensures SortDesc(s) == q
  {
    if q == [] {
      assert forall k :: k in s ==> k in q;
    } else {
      assert q[0] in s;
      assert forall k :: k in s ==> k == q[0] || Below(k, q[0]);
      assert MaxKey(s) == q[0];
      assert q == [q[0]] + q[1..];
      assert forall i :: 0 < i < |q| ==> Below(q[i], q[0]);
      assert q[0] !in q[1..];
      SortDescUnique(q[1..], s - {q[0]});
    }
  }

  // ---------- one page ----------

  datatype Page = Page(rows: seq<Key>, hasMore: bool, next: Option<Key>)

  ghost function Remaining(keys: set<Key>, cursor: Option<Key>): set<Key> {
    set k | k in keys && BelowCursor(k, cursor)
  }

  ghost function FetchPage(keys: set<Key>, cursor: Option<Key>, limit: nat): Page
    requires limit >= 1
  {
    var sorted := SortDesc(Remaining(keys, cursor));
    var rows := sorted[..Min(limit + 1, |sorted|)];
    var hasMore := |rows| > limit;
    var page := if hasMore then rows[..limit] else rows;
    Page(page, hasMore, if hasMore then Some(page[|page| - 1]) else None)
  }

  /** What one page promises: the highest remaining keys, with the boundary key as next cursor. */
  lemma PageMeaning(keys: set<Key>, cursor: Option<Key>, limit: nat)
    requires limit >= 1
    ensures var p := FetchPage(keys, cursor, limit);
            && Descending(p.rows) && |p.rows| <= limit && p.hasMore == p.next.Some?
            && (forall k :: k in p.rows ==> k in keys && BelowCursor(k, cursor))
            && (!p.hasMore ==> forall k :: k in keys && BelowCursor(k, cursor) ==> k in p.rows)
            && (p.hasMore ==>
                  && |p.rows| == limit && p.next.value in keys && BelowCursor(p.next.value, cursor)
                  && forall k :: k in keys && BelowCursor(k, cursor) ==> (k in p.rows <==> !Below(k, p.next.value)))
  {
    hide SortDesc, Below;
    var sorted := SortDesc(Remaining(keys, cursor));
    SortDescSorts(Remaining(keys, cursor));
    var p := FetchPage(keys, cursor, limit);
    if p.hasMore {
      CutListing(sorted, Remaining(keys, cursor), limit);
      assert p.rows == sorted[..limit] && p.next == Some(sorted[limit - 1]);
    } else {
      assert p.rows == sorted;
    }
  }

  /** Cutting a listing after its n-th key separates the keys at that key. */
  lemma CutListing(q: seq<Key>, s: set<Key>, n: nat)
    requires Lists(q, s) && 1 <= n < |q|
    ensures Descending(q[..n]) && q[n - 1] in s
    ensures forall k :: k in q[..n] ==> k in s
    ensures forall k :: k in s ==> (k in q[..n] <==> !Below(k, q[n - 1]))
  {
  }

  // ---------- a traversal ----------

  /** One request: the keys its id query saw, and the reviews still alive when their bodies were read. */
  datatype Request = Request(keys: set<Key>, alive: set<nat>)

  /** Ids of the page, less the reviews deleted before their bodies were read. */
  ghost function Hydrate(rows: seq<Key>, alive: set<nat>): seq<nat> {
    if rows == [] then []
    else (if rows[0].id in alive then [rows[0].id] else []) + Hydrate(rows[1..], alive)
  }

  ghost function Walk(reqs: seq<Request>, limit: nat, cursor: Option<Key>): seq<nat>
    requires limit >= 1
  {
    if reqs == [] then []
    else
      var p := FetchPage(reqs[0].keys, cursor, limit);
      Hydrate(p.rows, reqs[0].alive) + if p.hasMore then Walk(reqs[1..], limit, p.next) else []
  }

  /** Whether the traversal reaches a page without a successor within these requests. */
  ghost predicate Finished(reqs: seq<Request>, limit: nat, cursor: Option<Key>)
    requires limit >= 1
  {
    reqs != [] &&
    var p := FetchPage(reqs[0].keys, cursor, limit);
    p.hasMore ==> Finished(reqs[1..], limit, p.next)
  }

  ghost function Occurrences(ids: seq<nat>, x: nat): nat {
    multiset(ids)[x]
  }

  /** A grouped query lists each review once. */
  ghost predicate OneKeyPerReview(keys: set<Key>) {
    forall a, b :: a in keys && b in keys && a.id == b.id ==> a == b
  }

  ghost predicate Grouped(reqs: seq<Request>) {
    forall i :: 0 <= i < |reqs| ==> OneKeyPerReview(reqs[i].keys)
  }

  ghost predicate Shows(keys: set<Key>, x: nat) {
    exists k :: k in keys && k.id == x
  }

  /** Whenever review `x` is visible its count is at least what it was at any earlier visible moment. */
  ghost predicate NeverFalls(reqs: seq<Request>, x: nat) {
    forall i, j, a, b :: 0 <= i < j < |reqs| && a in reqs[i].keys && b in reqs[j].keys && a.id == b.id == x
                         ==> a.likes <= b.likes
  }

  /** Review `x` is visible and alive throughout, and its count never rises. */
  ghost predicate StaysAndNeverRises(reqs: seq<Request>, x: nat) {
    && (forall i :: 0 <= i < |reqs| ==> Shows(reqs[i].keys, x) && x in reqs[i].alive)
    && (forall i, j, a, b :: 0 <= i < j < |reqs| && a in reqs[i].keys && b in reqs[j].keys && a.id == b.id == x
                             ==> a.likes >= b.likes)
  }

  lemma {:induction false} HydrateCount(rows: seq<Key>, alive: set<nat>, x: nat)
    requires Descending(rows) && forall a, b :: a in rows && b in rows && a.id == b.id ==> a == b
    ensures Occurrences(Hydrate(rows, alive), x) == if x in alive && (exists k :: k in rows && k.id == x) then 1 else 0
  {
    if rows != [] {
      HydrateCount(rows[1..], alive, x);
      assert rows == [rows[0]] + rows[1..];
      assert rows[0] !in rows[1..];
    }
  }

  lemma PageCount(req: Request, cursor: Option<Key>, limit: nat, x: nat)
    requires limit >= 1 && OneKeyPerReview(req.keys)
    ensures var rows := FetchPage(req.keys, cursor, limit).rows;
            Occurrences(Hydrate(rows, req.alive), x) == if x in req.alive && (exists k :: k in rows && k.id == x) then 1 else 0
  {
    PageMeaning(req.keys, cursor, limit);
    HydrateCount(FetchPage(req.keys, cursor, limit).rows, req.alive, x);
  }

  lemma WalkCount(reqs: seq<Request>, limit: nat, cursor: Option<Key>, x: nat)
    requires limit >= 1 && reqs != []
    ensures var p := FetchPage(reqs[0].keys, cursor, limit);
            Occurrences(Walk(reqs, limit, cursor), x)
            == Occurrences(Hydrate(p.rows, reqs[0].alive), x)
               + if p.hasMore then Occurrences(Walk(reqs[1..], limit, p.next), x) else 0
  {
  }

  lemma WalkOfNothing(limit: nat, cursor: Option<Key>, x: nat)
    requires limit >= 1
    ensures Walk([], limit, cursor) == [] && Occurrences(Walk([], limit, cursor), x) == 0
  {
  }

  /** Once every later key of `x` lies at or above the cursor, `x` is not returned again. */
  lemma {:induction false} NotReturnedAbove(reqs: seq<Request>, limit: nat, cursor: Key, x: nat)
    requires limit >= 1 && Grouped(reqs)
    requires forall i, k :: 0 <= i < |reqs| && k in reqs[i].keys && k.id == x ==> !Below(k, cursor)
    ensures Occurrences(Walk(reqs, limit, Some(cursor)), x) == 0
  {
    hide FetchPage, Hydrate, Walk, Occurrences;
    if reqs == [] {
      WalkOfNothing(limit, Some(cursor), x);
    } else {
      var p := FetchPage(reqs[0].keys, Some(cursor), limit);
      PageMeaning(reqs[0].keys, Some(cursor), limit);
      PageCount(reqs[0], Some(cursor), limit, x);
      WalkCount(reqs, limit, Some(cursor), x);
      if p.hasMore {
        forall i, k | 0 <= i < |reqs[1..]| && k in reqs[1..][i].keys && k.id == x ensures !Below(k, p.next.value) {
          assert k in reqs[i + 1].keys;
        }
        NotReturnedAbove(reqs[1..], limit, p.next.value, x);
      }
    }
  }

  /** A review whose count never falls is returned at most once, whatever else changes between requests. */
  lemma {:induction false} AtMostOnceIfNeverFalls(reqs: seq<Request>, limit: nat, cursor: Option<Key>, x: nat)
    requires limit >= 1 && Grouped(reqs) && NeverFalls(reqs, x)
    ensures Occurrences(Walk(reqs, limit, cursor), x) <= 1
  {
    hide FetchPage, Hydrate, Walk, Occurrences;
    if reqs == [] {
      WalkOfNothing(limit, cursor, x);
    } else {
      var p := FetchPage(reqs[0].keys, cursor, limit);
      PageMeaning(reqs[0].keys, cursor, limit);
      PageCount(reqs[0], cursor, limit, x);
      WalkCount(reqs, limit, cursor, x);
      if p.hasMore {
        TailNeverFalls(reqs, x);
        if Occurrences(Hydrate(p.rows, reqs[0].alive), x) == 0 {
          AtMostOnceIfNeverFalls(reqs[1..], limit, p.next, x);
        } else {
          var a :| a in p.rows && a.id == x;
          forall i, k | 0 <= i < |reqs[1..]| && k in reqs[1..][i].keys && k.id == x ensures !Below(k, p.next.value) {
            assert k in reqs[i + 1].keys && a in reqs[0].keys;
          }
          NotReturnedAbove(reqs[1..], limit, p.next.value, x);
        }
      }
    }
  }

  lemma TailNeverFalls(reqs: seq<Request>, x: nat)
    requires reqs != [] && NeverFalls(reqs, x)
    ensures NeverFalls(reqs[1..], x)
  {
  }

  /** A review that stays visible and whose count never rises is returned by the last page at the latest. */
  lemma {:induction false} AtLeastOnceIfNeverRises(reqs: seq<Request>, limit: nat, cursor: Option<Key>, x: nat)
    requires limit >= 1 && Grouped(reqs) && StaysAndNeverRises(reqs, x) && Finished(reqs, limit, cursor)
    requires forall k :: k in reqs[0].keys && k.id == x ==> BelowCursor(k, cursor)
    ensures Occurrences(Walk(reqs, limit, cursor), x) >= 1
  {
    hide FetchPage, Hydrate, Walk, Occurrences;
    var p := FetchPage(reqs[0].keys, cursor, limit);
    PageMeaning(reqs[0].keys, cursor, limit);
    PageCount(reqs[0], cursor, limit, x);
    WalkCount(reqs, limit, cursor, x);
    assert Shows(reqs[0].keys, x);
    var a :| a in reqs[0].keys && a.id == x;
    if a !in p.rows {
      TailNeverRises(reqs, x);
      forall k | k in reqs[1..][0].keys && k.id == x ensures BelowCursor(k, p.next) {
        assert k in reqs[1].keys;
      }
      AtLeastOnceIfNeverRises(reqs[1..], limit, p.next, x);
    }
  }

  lemma TailNeverRises(reqs: seq<Request>, x: nat)
    requires reqs != [] && StaysAndNeverRises(reqs, x)
    ensures StaysAndNeverRises(reqs[1..], x)
  {
  }

  /** A review that stays visible with a fixed count is returned exactly once by a finished traversal. */
  lemma ExactlyOnceIfFixed(reqs: seq<Request>, limit: nat, x: nat)
    requires limit >= 1 && Grouped(reqs) && Finished(reqs, limit, None)
    requires NeverFalls(reqs, x) && StaysAndNeverRises(reqs, x)
    ensures Occurrences(Walk(reqs, limit, None), x) == 1
  {
    AtMostOnceIfNeverFalls(reqs, limit, None, x);
    AtLeastOnceIfNeverRises(reqs, limit, None, x);
  }

  // ---------- what does not hold ----------

  /** A boundary review that loses likes comes back: the page comment's "no duplicates" is too strong. */
  lemma BoundaryReviewCanRepeat()
    ensures var reqs := [Request({Key(5, 1), Key(0, 2)}, {1, 2}), Request({Key(3, 1), Key(0, 2)}, {1, 2})];
            Grouped(reqs) && Walk(reqs, 1, None) == [1, 1]
  {
    var reqs := [Request({Key(5, 1), Key(0, 2)}, {1, 2}), Request({Key(3, 1), Key(0, 2)}, {1, 2})];
    hide FetchPage, Walk, Finished, Hydrate, Remaining, Lists, OneKeyPerReview;
    TwoKeys(Key(5, 1), Key(0, 2), None);
    TwoKeys(Key(3, 1), Key(0, 2), Some(Key(5, 1)));
    FirstOfListing(reqs[0].keys, None, [Key(5, 1), Key(0, 2)]);
    FirstOfListing(reqs[1].keys, Some(Key(5, 1)), [Key(3, 1), Key(0, 2)]);
    TwoRequests(reqs, 1);
    HydrateOne(Key(5, 1), {1, 2});
    HydrateOne(Key(3, 1), {1, 2});
    WalkOfNothing(1, Some(Key(3, 1)), 1);
  }

  lemma TwoKeys(a: Key, b: Key, cursor: Option<Key>)
    requires Below(b, a) && a.id != b.id
    ensures OneKeyPerReview({a, b})
    ensures BelowCursor(a, cursor) ==> Lists([a, b], Remaining({a, b}, cursor))
    ensures cursor == Some(b) ==> Lists([], Remaining({a, b}, cursor))
  {
  }

  lemma HydrateOne(k: Key, alive: set<nat>)
    ensures Hydrate([k], alive) == if k.id in alive then [k.id] else []
  {
  }

  /** The one-row page of a table whose remaining rows are known. */
  lemma FirstOfListing(keys: set<Key>, cursor: Option<Key>, q: seq<Key>)
    requires Lists(q, Remaining(keys, cursor))
    ensures FetchPage(keys, cursor, 1) == if |q| > 1 then Page([q[0]], true, Some(q[0])) else Page(q, false, None)
  {
    SortDescUnique(q, Remaining(keys, cursor));
    if |q| > 1 { assert q[..2][..1] == [q[0]]; }
  }

  lemma TwoRequests(reqs: seq<Request>, limit: nat)
    requires limit >= 1 && |reqs| == 2
    ensures var p := FetchPage(reqs[0].keys, None, limit);
            var q := FetchPage(reqs[1].keys, p.next, limit);
            Walk(reqs, limit, None) == Hydrate(p.rows, reqs[0].alive)
              + if p.hasMore then Hydrate(q.rows, reqs[1].alive) + (if q.hasMore then Walk([], limit, q.next) else []) else []
    ensures var p := FetchPage(reqs[0].keys, None, limit);
            Finished(reqs, limit, None) <==> !p.hasMore || !FetchPage(reqs[1].keys, p.next, limit).hasMore
  {
    hide FetchPage;
    var p := FetchPage(reqs[0].keys, None, limit);
    assert reqs[1..] == [reqs[1]] && reqs[1..][1..] == [];
    assert Finished(reqs[1..], limit, p.next) <==> !FetchPage(reqs[1].keys, p.next, limit).hasMore;
  }

  /** A review overtaking the boundary between two requests is missed by the whole traversal. */
  lemma OvertakingReviewCanBeMissed()
    ensures var reqs := [Request({Key(5, 1), Key(0, 2)}, {1, 2}), Request({Key(9, 2), Key(5, 1)}, {1, 2})];
            Grouped(reqs) && Finished(reqs, 1, None) && Walk(reqs, 1, None) == [1]
  {
    var reqs := [Request({Key(5, 1), Key(0, 2)}, {1, 2}), Request({Key(9, 2), Key(5, 1)}, {1, 2})];
    hide FetchPage, Walk, Finished, Hydrate, Remaining, Lists, OneKeyPerReview;
    TwoKeys(Key(5, 1), Key(0, 2), None);
    TwoKeys(Key(9, 2), Key(5, 1), Some(Key(5, 1)));
    FirstOfListing(reqs[0].keys, None, [Key(5, 1), Key(0, 2)]);
    FirstOfListing(reqs[1].keys, Some(Key(5, 1)), []);
    TwoRequests(reqs, 1);
    HydrateOne(Key(5, 1), {1, 2});
  }

  // ---------- termination ----------

  ghost function Prefix(f: nat -> Request, from: nat, n: nat): seq<Request> {
    seq(n, i requires 0 <= i => f(from + i))
  }

  /** However the table changes, no traversal goes on forever: the cursor falls lexicographically. */
  lemma {:induction false} TraversalEnds(f: nat -> Request, limit: nat)
    requires limit >= 1
    ensures exists n: nat :: Finished(Prefix(f, 0, n), limit, None)
  {
    var p := FetchPage(f(0).keys, None, limit);
    PageMeaning(f(0).keys, None, limit);
    if p.hasMore {
      var n := StepsFrom(f, 1, limit, p.next.value);
      assert Prefix(f, 0, n + 1)[1..] == Prefix(f, 1, n);
      assert Finished(Prefix(f, 0, n + 1), limit, None);
    } else {
      assert Finished(Prefix(f, 0, 1), limit, None);
    }
  }

  lemma {:induction false} StepsFrom(f: nat -> Request, i: nat, limit: nat, cursor: Key) returns (n: nat)
    requires limit >= 1
    ensures Finished(Prefix(f, i, n), limit, Some(cursor))
    decreases cursor.likes, cursor.id
  {
    var p := FetchPage(f(i).keys, Some(cursor), limit);
    PageMeaning(f(i).keys, Some(cursor), limit);
    if p.hasMore {
      n := StepsFrom(f, i + 1, limit, p.next.value);
      assert Prefix(f, i, n + 1)[1..] == Prefix(f, i + 1, n);
      n := n + 1;
    } else {
      n := 1;
    }
  }

  // ---------- a table that does not change ----------

  ghost predicate Static(reqs: seq<Request>, keys: set<Key>) {
    forall i :: 0 <= i < |reqs| ==> reqs[i].keys == keys && forall k :: k in keys ==> k.id in reqs[i].alive
  }

  ghost function Ids(q: seq<Key>): seq<nat> {
    if q == [] then [] else [q[0].id] + Ids(q[1..])
  }

  lemma {:induction false} IdsConcat(p: seq<Key>, q: seq<Key>)
    ensures Ids(p + q) == Ids(p) + Ids(q)
  {
    if p == [] {
      assert p + q == q;
    } else {
      IdsConcat(p[1..], q);
      assert (p + q)[1..] == p[1..] + q;
    }
  }

  lemma {:induction false} HydrateAllAlive(rows: seq<Key>, alive: set<nat>)
    requires forall k :: k in rows ==> k.id in alive
    ensures Hydrate(rows, alive) == Ids(rows)
  {
    if rows != [] { HydrateAllAlive(rows[1..], alive); }
  }

  /** Sorting what is left after a page is sorting everything and dropping the page. */
  lemma RestAfterPage(keys: set<Key>, cursor: Option<Key>, limit: nat)
    requires limit >= 1 && FetchPage(keys, cursor, limit).hasMore
    ensures var p := FetchPage(keys, cursor, limit);
            SortDesc(Remaining(keys, cursor)) == p.rows + SortDesc(Remaining(keys, p.next))
  {
    hide SortDesc;
    var p := FetchPage(keys, cursor, limit);
    var sorted := SortDesc(Remaining(keys, cursor));
    SortDescSorts(Remaining(keys, cursor));
    PageMeaning(keys, cursor, limit);
    var rest := sorted[limit..];
    assert p.rows == sorted[..limit] && sorted == p.rows + rest;
    assert p.next == Some(sorted[limit - 1]);
    assert forall k :: k in rest ==> k in sorted && Below(k, sorted[limit - 1]);
    forall k | k in Remaining(keys, p.next) ensures k in rest {
      assert k in Remaining(keys, cursor) && k in sorted && k !in p.rows;
    }
    SortDescUnique(rest, Remaining(keys, p.next));
  }

  /** On an unchanged table the pages of a finished traversal concatenate to the whole sorted listing. */
  lemma {:induction false} StaticWalk(reqs: seq<Request>, keys: set<Key>, limit: nat, cursor: Option<Key>)
    requires limit >= 1 && Static(reqs, keys) && Finished(reqs, limit, cursor)
    ensures Walk(reqs, limit, cursor) == Ids(SortDesc(Remaining(keys, cursor)))
  {
    var p := FetchPage(keys, cursor, limit);
    PageMeaning(keys, cursor, limit);
    HydrateAllAlive(p.rows, reqs[0].alive);
    if p.hasMore {
      StaticWalk(reqs[1..], keys, limit, p.next);
      RestAfterPage(keys, cursor, limit);
      IdsConcat(p.rows, SortDesc(Remaining(keys, p.next)));
    } else {
      var sorted := SortDesc(Remaining(keys, cursor));
      assert p.rows == sorted;
    }
  }

  /** And it finishes as soon as the pages could hold the listing. */
  lemma {:induction false} StaticFinishes(reqs: seq<Request>, keys: set<Key>, limit: nat, cursor: Option<Key>)
    requires limit >= 1 && Static(reqs, keys) && reqs != []
    requires |reqs| * limit >= |Remaining(keys, cursor)|
    ensures Finished(reqs, limit, cursor)
  {
    hide SortDesc, FetchPage;
    var p := FetchPage(keys, cursor, limit);
    PageMeaning(keys, cursor, limit);
    if p.hasMore {
      RestAfterPage(keys, cursor, limit);
      SortDescSorts(Remaining(keys, cursor));
      SortDescSorts(Remaining(keys, p.next));
      FullPageLeavesRows(keys, cursor, limit);
      assert |Remaining(keys, cursor)| == limit + |Remaining(keys, p.next)|;
      OneRequestLess(|reqs|, limit);
      StaticFinishes(reqs[1..], keys, limit, p.next);
    }
  }

  lemma OneRequestLess(n: nat, limit: nat)
    requires n >= 1
    ensures (n - 1) * limit == n * limit - limit
  {
  }

  lemma FullPageLeavesRows(keys: set<Key>, cursor: Option<Key>, limit: nat)
    requires limit >= 1 && FetchPage(keys, cursor, limit).hasMore
    ensures |Remaining(keys, cursor)| > limit
  {
    hide SortDesc;
    SortDescSorts(Remaining(keys, cursor));
  }
}
