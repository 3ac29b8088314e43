/**
 * Exactly which like counts make LIKES paging safe: for every count history of a review that breaks the
 * condition, and every page size, there are tables on which a traversal repeats or misses the review.
 */
module PagingLimits {
  import opened Wrappers
  import opened KeysetPaging

  /** At request `i` review `x` is visible and alive with `h[i]` likes; the rest of the tables is arbitrary. */
  ghost predicate Traces(reqs: seq<Request>, x: nat, h: seq<nat>) {
    && |reqs| == |h| && Grouped(reqs)
    && forall i :: 0 <= i < |h| ==> Key(h[i], x) in reqs[i].keys && x in reqs[i].alive
  }

  predicate NonDecreasing(h: seq<nat>) {
    forall i, j :: 0 <= i < j < |h| ==> h[i] <= h[j]
  }

  predicate NonIncreasing(h: seq<nat>) {
    forall i, j :: 0 <= i < j < |h| ==> h[i] >= h[j]
  }

  // ---------- tables given by their listing ----------

  /** `n` keys with the same count and the ids just above `x`, highest first. */
  function Row(likes: nat, x: nat, n: nat): (q: seq<Key>)
    ensures |q| == n && forall i :: 0 <= i < n ==> q[i] == Key(likes, x + n - i)
  {
    seq(n, i requires 0 <= i < n => Key(likes, x + n - i))
  }

  predicate DistinctIds(q: seq<Key>) {
    forall i, j :: 0 <= i < j < |q| ==> q[i].id != q[j].id
  }

  ghost predicate Listing(q: seq<Key>) {
    Descending(q) && DistinctIds(q)
  }

  ghost function Listed(q: seq<Key>): Request {
    Request(set k | k in q, set k | k in q :: k.id)
  }

  lemma ListedIsGrouped(q: seq<Key>)
    requires Listing(q)
    ensures OneKeyPerReview(Listed(q).keys)
  {
  }

  lemma ListedPage(q: seq<Key>, cursor: Option<Key>, limit: nat)
    requires limit >= 1 && Listing(q) && forall k :: k in q ==> BelowCursor(k, cursor)
    ensures FetchPage(Listed(q).keys, cursor, limit)
            == if |q| > limit then Page(q[..limit], true, Some(q[limit - 1])) else Page(q, false, None)
  {
    hide FetchPage, Listing, Below;
    ListedLists(q, cursor);
    PageOfListing(Listed(q).keys, cursor, q, limit);
  }

  lemma ListedLists(q: seq<Key>, cursor: Option<Key>)
    requires Listing(q) && forall k :: k in q ==> BelowCursor(k, cursor)
    ensures Lists(q, Remaining(Listed(q).keys, cursor))
  {
    hide Descending, DistinctIds, BelowCursor;
  }

  lemma PageOfListing(keys: set<Key>, cursor: Option<Key>, q: seq<Key>, limit: nat)
    requires limit >= 1 && Lists(q, Remaining(keys, cursor))
    ensures FetchPage(keys, cursor, limit)
            == if |q| > limit then Page(q[..limit], true, Some(q[limit - 1])) else Page(q, false, None)
  {
    hide SortDesc, Lists, Remaining;
    SortDescUnique(q, Remaining(keys, cursor));
    if |q| > limit {
      assert q[..limit + 1][..limit] == q[..limit];
    } else {
      assert q[..|q|] == q;
    }
  }

  lemma NothingLeft(q: seq<Key>, cursor: Option<Key>, limit: nat)
    requires limit >= 1 && forall k :: k in q ==> !BelowCursor(k, cursor)
    ensures FetchPage(Listed(q).keys, cursor, limit) == Page([], false, None)
  {
    assert Lists([], Remaining(Listed(q).keys, cursor));
    SortDescUnique([], Remaining(Listed(q).keys, cursor));
  }

  ghost predicate Holds(q: seq<Key>, x: nat) {
    exists k :: k in q && k.id == x
  }

  /** One request on a listed table: what it returns of `x`, and where the traversal goes on. */
  lemma ListedRequest(reqs: seq<Request>, q: seq<Key>, limit: nat, cursor: Option<Key>, x: nat)
    requires limit >= 1 && reqs != [] && reqs[0] == Listed(q)
    requires Listing(q) && forall k :: k in q ==> BelowCursor(k, cursor)
    ensures |q| > limit ==>
              && Occurrences(Walk(reqs, limit, cursor), x)
                 == (if Holds(q[..limit], x) then 1 else 0) + Occurrences(Walk(reqs[1..], limit, Some(q[limit - 1])), x)
              && (Finished(reqs, limit, cursor) <==> Finished(reqs[1..], limit, Some(q[limit - 1])))
    ensures |q| <= limit ==>
              Occurrences(Walk(reqs, limit, cursor), x) == (if Holds(q, x) then 1 else 0) && Finished(reqs, limit, cursor)
  {
    hide FetchPage, Hydrate, Occurrences, Descending, DistinctIds;
    ListedPage(q, cursor, limit);
    ListedIsGrouped(q);
    PageCount(reqs[0], cursor, limit, x);
    WalkCount(reqs, limit, cursor, x);
  }

  // ---------- getting to request `i` without meeting `x` ----------

  function Top(h: seq<nat>): (t: nat)
    ensures forall i :: 0 <= i < |h| ==> h[i] < t
  {
    if h == [] then 0 else Max(Top(h[..|h| - 1]), h[|h| - 1] + 1)
  }

  /** A table whose first page is full of reviews above `x`. */
  function Filler(h: seq<nat>, x: nat, limit: nat, k: nat): seq<Key>
    requires k < |h|
  {
    Row(Top(h) + |h| - k, x, limit) + [Key(h[k], x)]
  }

  function CursorAt(h: seq<nat>, x: nat, k: nat): Option<Key>
    requires k <= |h|
  {
    if k == 0 then None else Some(Key(Top(h) + |h| - k + 1, x + 1))
  }

  ghost predicate FillsUntil(reqs: seq<Request>, h: seq<nat>, x: nat, limit: nat, i: nat) {
    |reqs| == |h| && i <= |h| && forall k: nat :: k < i ==> reqs[k] == Listed(Filler(h, x, limit, k))
  }

  lemma RowListing(likes: nat, x: nat, n: nat, c: nat)
    requires c <= likes
    ensures Listing(Row(likes, x, n) + [Key(c, x)]) && !Holds(Row(likes, x, n), x)
  {
  }

  lemma {:induction false} FillersPass(reqs: seq<Request>, h: seq<nat>, x: nat, limit: nat, i: nat, k: nat)
    requires limit >= 1 && FillsUntil(reqs, h, x, limit, i) && k <= i
    ensures Occurrences(Walk(reqs[k..], limit, CursorAt(h, x, k)), x)
            == Occurrences(Walk(reqs[i..], limit, CursorAt(h, x, i)), x)
    ensures Finished(reqs[k..], limit, CursorAt(h, x, k)) <==> Finished(reqs[i..], limit, CursorAt(h, x, i))
    decreases i - k
  {
    if k < i {
      hide Walk, Finished, Occurrences, Listing, Holds, Top, Row;
      FillersPass(reqs, h, x, limit, i, k + 1);
      var q := Filler(h, x, limit, k);
      var likes := Top(h) + |h| - k;
      RowListing(likes, x, limit, h[k]);
      assert q[..limit] == Row(likes, x, limit) && q[limit - 1] == Key(likes, x + 1);
      assert reqs[k..][0] == Listed(q) && reqs[k..][1..] == reqs[k + 1..];
      ListedRequest(reqs[k..], q, limit, CursorAt(h, x, k), x);
    }
  }

  // ---------- the tables that break it ----------

  /** Fillers up to request `i`, then the two given tables, then `x` alone. */
  ghost function Plan(h: seq<nat>, x: nat, limit: nat, i: nat, q0: seq<Key>, q1: seq<Key>): (reqs: seq<Request>)
    requires i + 1 < |h|
    ensures |reqs| == |h|
  {
    seq(|h|, k requires 0 <= k < |h| =>
      if k < i then Listed(Filler(h, x, limit, k))
      else if k == i then Listed(q0) else if k == i + 1 then Listed(q1) else Listed([Key(h[k], x)]))
  }

  lemma PlanTraces(h: seq<nat>, x: nat, limit: nat, i: nat, q0: seq<Key>, q1: seq<Key>)
    requires i + 1 < |h| && Listing(q0) && Listing(q1) && Key(h[i], x) in q0 && Key(h[i + 1], x) in q1
    ensures Traces(Plan(h, x, limit, i, q0, q1), x, h)
    ensures FillsUntil(Plan(h, x, limit, i, q0, q1), h, x, limit, i)
  {
    hide Listing, OneKeyPerReview, Top, Row;
    var reqs := Plan(h, x, limit, i, q0, q1);
    forall k | 0 <= k < |h| ensures OneKeyPerReview(reqs[k].keys) && Key(h[k], x) in reqs[k].keys && x in reqs[k].alive {
      var q := if k < i then Filler(h, x, limit, k) else if k == i then q0 else if k == i + 1 then q1 else [Key(h[k], x)];
      if k < i {
        RowListing(Top(h) + |h| - k, x, limit, h[k]);
        assert q[limit] == Key(h[k], x);
      } else if k > i + 1 {
        assert Row(h[k], x, 0) + [Key(h[k], x)] == q;
        RowListing(h[k], x, 0, h[k]);
        assert q[0] == Key(h[k], x);
      }
      assert Listing(q) && Key(h[k], x) in q;
      ListedIsGrouped(q);
    }
  }

  /** A count that falls between two requests: the review ends one page and starts the next. */
  lemma FallRepeats(h: seq<nat>, x: nat, limit: nat, i: nat) returns (reqs: seq<Request>)
    requires limit >= 1 && i + 1 < |h| && h[i + 1] < h[i]
    ensures Traces(reqs, x, h) && Occurrences(Walk(reqs, limit, None), x) == 2
  {
    hide Walk, Finished, Occurrences, Listing, Holds, Top, Row, Plan, Traces, FillsUntil;
    var row := Row(Top(h), x, limit - 1);
    var q0, q1 := row + [Key(h[i], x), Key(0, x + limit)], [Key(h[i + 1], x)];
    RepeatListing(Top(h), x, limit, h[i]);
    assert Row(0, x, 0) + q1 == q1;
    RowListing(h[i + 1], x, 0, h[i + 1]);
    assert Row(h[i + 1], x, 0) + q1 == q1;
    assert q0[limit - 1] == Key(h[i], x) && q1[0] == Key(h[i + 1], x);
    reqs := Plan(h, x, limit, i, q0, q1);
    PlanTraces(h, x, limit, i, q0, q1);
    FillersPass(reqs, h, x, limit, i, 0);
    PlanAt(h, x, limit, i, q0, q1);
    assert reqs[0..] == reqs;
    ListedRequest(reqs[i..], q0, limit, CursorAt(h, x, i), x);
    assert q0[..limit][limit - 1] == Key(h[i], x);
    HoldsKey(q0[..limit], Key(h[i], x));
    ListedRequest(reqs[i + 1..], q1, limit, Some(Key(h[i], x)), x);
    HoldsKey(q1, Key(h[i + 1], x));
  }

  lemma HoldsKey(q: seq<Key>, k: Key)
    requires k in q
    ensures Holds(q, k.id)
  {
  }

  lemma PlanAt(h: seq<nat>, x: nat, limit: nat, i: nat, q0: seq<Key>, q1: seq<Key>)
    requires i + 1 < |h|
    ensures var reqs := Plan(h, x, limit, i, q0, q1);
            reqs[i..][0] == Listed(q0) && reqs[i..][1..] == reqs[i + 1..] && reqs[i + 1..][0] == Listed(q1)
  {
  }

  lemma RepeatListing(likes: nat, x: nat, limit: nat, c: nat)
    requires limit >= 1 && 0 < c < likes
    ensures Listing(Row(likes, x, limit - 1) + [Key(c, x), Key(0, x + limit)])
  {
  }

  /** A count that rises between two requests: the review overtakes the cursor and is never returned. */
  lemma RiseMisses(h: seq<nat>, x: nat, limit: nat, i: nat) returns (reqs: seq<Request>)
    requires limit >= 1 && i + 1 < |h| && h[i] < h[i + 1]
    ensures Traces(reqs, x, h) && Finished(reqs, limit, None) && Occurrences(Walk(reqs, limit, None), x) == 0
  {
    hide Walk, Occurrences, Listing, Holds, Top, Row, Plan, Traces, FillsUntil, FetchPage;
    var row := Row(h[i], x, limit);
    var q0, q1 := row + [Key(h[i], x)], [Key(h[i + 1], x)];
    RowListing(h[i], x, limit, h[i]);
    RowListing(h[i + 1], x, 0, h[i + 1]);
    assert Row(h[i + 1], x, 0) + q1 == q1;
    assert q0[limit] == Key(h[i], x) && q1[0] == Key(h[i + 1], x);
    reqs := Plan(h, x, limit, i, q0, q1);
    PlanTraces(h, x, limit, i, q0, q1);
    FillersPass(reqs, h, x, limit, i, 0);
    PlanAt(h, x, limit, i, q0, q1);
    assert reqs[0..] == reqs;
    assert q0[..limit] == row && q0[limit - 1] == Key(h[i], x + 1);
    ListedRequest(reqs[i..], q0, limit, CursorAt(h, x, i), x);
    NothingLeft(q1, Some(Key(h[i], x + 1)), limit);
    NothingReturned(reqs[i + 1..], limit, Some(Key(h[i], x + 1)), x);
  }

  lemma NothingReturned(reqs: seq<Request>, limit: nat, cursor: Option<Key>, x: nat)
    requires limit >= 1 && reqs != [] && FetchPage(reqs[0].keys, cursor, limit) == Page([], false, None)
    ensures Occurrences(Walk(reqs, limit, cursor), x) == 0 && Finished(reqs, limit, cursor)
  {
  }

  // ---------- the exact conditions ----------

  lemma TracedKeys(reqs: seq<Request>, x: nat, h: seq<nat>, i: nat, k: Key)
    requires Traces(reqs, x, h) && i < |h| && k in reqs[i].keys && k.id == x
    ensures k == Key(h[i], x)
  {
    assert OneKeyPerReview(reqs[i].keys);
  }

  lemma TracedNeverFalls(reqs: seq<Request>, x: nat, h: seq<nat>)
    requires Traces(reqs, x, h) && NonDecreasing(h)
    ensures NeverFalls(reqs, x)
  {
    forall i, j, a, b | 0 <= i < j < |reqs| && a in reqs[i].keys && b in reqs[j].keys && a.id == b.id == x
      ensures a.likes <= b.likes
    {
      TracedKeys(reqs, x, h, i, a);
      TracedKeys(reqs, x, h, j, b);
    }
  }

  lemma TracedNeverRises(reqs: seq<Request>, x: nat, h: seq<nat>)
    requires Traces(reqs, x, h) && NonIncreasing(h)
    ensures StaysAndNeverRises(reqs, x)
  {
    forall i | 0 <= i < |reqs| ensures Shows(reqs[i].keys, x) && x in reqs[i].alive {
      assert Key(h[i], x) in reqs[i].keys;
    }
    forall i, j, a, b | 0 <= i < j < |reqs| && a in reqs[i].keys && b in reqs[j].keys && a.id == b.id == x
      ensures a.likes >= b.likes
    {
      TracedKeys(reqs, x, h, i, a);
      TracedKeys(reqs, x, h, j, b);
    }
  }

  lemma {:induction false} FallsSomewhere(h: seq<nat>) returns (i: nat)
    requires !NonDecreasing(h)
    ensures i + 1 < |h| && h[i + 1] < h[i]
  {
    var a: nat, b: nat :| a < b < |h| && h[b] < h[a];
    i := a;
    while h[i + 1] >= h[i]
      invariant a <= i < b && h[a] <= h[i]
      decreases b - i
    {
      i := i + 1;
    }
  }

  lemma {:induction false} RisesSomewhere(h: seq<nat>) returns (i: nat)
    requires !NonIncreasing(h)
    ensures i + 1 < |h| && h[i] < h[i + 1]
  {
    var a: nat, b: nat :| a < b < |h| && h[a] < h[b];
    i := a;
    while h[i + 1] <= h[i]
      invariant a <= i < b && h[i] <= h[a]
      decreases b - i
    {
      i := i + 1;
    }
  }

  ghost predicate NeverRepeats(h: seq<nat>, x: nat, limit: nat)
    requires limit >= 1
  {
    forall reqs: seq<Request> :: Traces(reqs, x, h) ==> Occurrences(Walk(reqs, limit, None), x) <= 1
  }

  ghost predicate NeverMissed(h: seq<nat>, x: nat, limit: nat)
    requires limit >= 1
  {
    forall reqs: seq<Request> ::
      Traces(reqs, x, h) && Finished(reqs, limit, None) ==> Occurrences(Walk(reqs, limit, None), x) >= 1
  }

  /** A visible review is safe from being repeated, whatever the other reviews do, iff its own count never falls. */
  lemma NeverRepeatsIff(h: seq<nat>, x: nat, limit: nat)
    requires limit >= 1
    ensures NeverRepeats(h, x, limit) <==> NonDecreasing(h)
  {
    hide Traces, Walk, Occurrences;
    if NonDecreasing(h) {
      forall reqs: seq<Request> | Traces(reqs, x, h) ensures Occurrences(Walk(reqs, limit, None), x) <= 1 {
        TracedNeverFalls(reqs, x, h);
        assert Grouped(reqs) by { TracedIsGrouped(reqs, x, h); }
        AtMostOnceIfNeverFalls(reqs, limit, None, x);
      }
    } else {
      var i := FallsSomewhere(h);
      var reqs := FallRepeats(h, x, limit, i);
      assert Traces(reqs, x, h);
    }
  }

  /** It is safe from being missed by a finished traversal iff its own count never rises. */
  lemma NeverMissedIff(h: seq<nat>, x: nat, limit: nat)
    requires limit >= 1
    ensures NeverMissed(h, x, limit) <==> NonIncreasing(h)
  {
    hide Traces, Walk, Occurrences;
    if NonIncreasing(h) {
      forall reqs: seq<Request> | Traces(reqs, x, h) && Finished(reqs, limit, None)
        ensures Occurrences(Walk(reqs, limit, None), x) >= 1
      {
        TracedNeverRises(reqs, x, h);
        assert Grouped(reqs) by { TracedIsGrouped(reqs, x, h); }
        AtLeastOnceIfNeverRises(reqs, limit, None, x);
      }
    } else {
      var i := RisesSomewhere(h);
      var reqs := RiseMisses(h, x, limit, i);
      assert Traces(reqs, x, h);
    }
  }

  lemma TracedIsGrouped(reqs: seq<Request>, x: nat, h: seq<nat>)
    requires Traces(reqs, x, h)
    ensures Grouped(reqs)
  {
  }
}
