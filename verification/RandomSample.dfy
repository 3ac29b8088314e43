/** Sampling without replacement: a partial Fisher-Yates shuffle of a copy of the list. */
module RandomSample {
  import opened Wrappers

  /** A draw in [0, 1) scaled to an integer below `n`. */
  function Int(draw: real, n: int): int {
    Scaled(draw, n).Floor
  }

  function Scaled(draw: real, n: int): real {
    draw * n as real
  }

  lemma PositiveProduct(a: real, m: real)
    requires a > 0.0 && m > 0.0
    ensures a * m > 0.0
  {
  }

  lemma Scale(a: real, b: real, m: real)
    requires m > 0.0
    ensures a < b <==> a * m < b * m
  {
    assert (b - a) * m == b * m - a * m;
    assert (a - b) * m == a * m - b * m;
    if a < b {
      PositiveProduct(b - a, m);
    } else if b < a {
      PositiveProduct(a - b, m);
    }
  }

  lemma FractionOf(draw: real, m: real)
    requires 0.0 <= draw < 1.0 && m > 0.0
    ensures 0.0 <= draw * m < m
  {
    if draw > 0.0 { PositiveProduct(draw, m); }
    PositiveProduct(1.0 - draw, m);
    assert (1.0 - draw) * m == m - draw * m;
  }

  lemma FloorIs(x: real, k: int)
    ensures x.Floor == k <==> k as real <= x < k as real + 1.0
  {
  }

  lemma FloorWithin(x: real, n: int)
    requires 0.0 <= x < n as real
    ensures 0 <= x.Floor < n
  {
    FloorIs(x, x.Floor);
  }

  lemma ScaledWithin(draw: real, n: int)
    requires n > 0 && 0.0 <= draw < 1.0
    ensures 0.0 <= Scaled(draw, n) < n as real
  {
    FractionOf(draw, n as real);
  }

  lemma IntInRange(draw: real, n: int)
    requires n > 0 && 0.0 <= draw < 1.0
    ensures 0 <= Int(draw, n) < n
  {
    hide Scaled;
    ScaledWithin(draw, n);
    FloorWithin(Scaled(draw, n), n);
  }

  lemma QuotientTimes(k: real, m: real)
    requires m > 0.0
    ensures k / m * m == k
  {
  }

  /** `draw` is at least `k / n` exactly when the scaled draw is at least `k`. */
  lemma AtLeastQuotient(draw: real, k: int, n: int)
    requires n > 0
    ensures k as real / n as real <= draw <==> k as real <= Scaled(draw, n)
  {
    var q := k as real / n as real;
    QuotientTimes(k as real, n as real);
    Scale(draw, q, n as real);
  }

  /** `Int` hits every value below `n`, each on its own stretch of length 1/n of the unit interval. */
  lemma IntIsUniform(draw: real, n: int, k: int)
    requires n > 0 && 0.0 <= draw < 1.0
    ensures 0 <= Int(draw, n) < n
    ensures Int(draw, n) == k <==> k as real / n as real <= draw < (k + 1) as real / n as real
  {
    hide Scaled;
    AtLeastQuotient(draw, k, n);
    AtLeastQuotient(draw, k + 1, n);
    IntInRange(draw, n);
    FloorIs(Scaled(draw, n), k);
  }

  /** `choices[i]` picks one of the `n - i` elements not drawn before step `i`. */
  predicate Choices(n: nat, choices: seq<int>) {
    |choices| <= n && forall i :: 0 <= i < |choices| ==> 0 <= choices[i] < n - i
  }

  function Swap<T>(s: seq<T>, i: nat, j: nat): (r: seq<T>)
    requires i < |s| && j < |s|
    ensures |r| == |s|
  {
    s[i := s[j]][j := s[i]]
  }

  lemma ChoicesTail(n: nat, choices: seq<int>)
    requires Choices(n, choices) && choices != []
    ensures n > 0 && Choices(n - 1, choices[1..])
  {
  }

  /** The elements drawn: the chosen element comes to the front, the rest is drawn from the remaining pool. */
  function Draw<T>(pool: seq<T>, choices: seq<int>): (r: seq<T>)
    requires Choices(|pool|, choices)
    ensures |r| == |choices|
    decreases |choices|
  {
    if choices == [] then []
    else
      ChoicesTail(|pool|, choices);
      [pool[choices[0]]] + Draw(Swap(pool, 0, choices[0])[1..], choices[1..])
  }

  /** What `sample` returns; a negative count falls through to the list slice from the end. */
  function SampleOf<T>(items: seq<T>, count: int, choices: seq<int>): seq<T>
    requires Choices(|items|, choices)
  {
    if count < 0 then items[..Max(|items| + count, 0)] else Draw(items, choices)
  }

  function ChoicesOf(n: nat, k: nat, draws: seq<real>): (c: seq<int>)
    requires k <= n && k <= |draws| && forall i :: 0 <= i < |draws| ==> 0.0 <= draws[i] < 1.0
    ensures |c| == k && Choices(n, c)
  {
    var c := seq(k, i requires 0 <= i < k => Int(draws[i], n - i));
    assert Choices(n, c) by {
      forall i | 0 <= i < k ensures 0 <= c[i] < n - i { IntInRange(draws[i], n - i); }
    }
    c
  }

  lemma ChoicesAre(n: nat, k: nat, draws: seq<real>, i: nat)
    requires i < k <= n && k <= |draws| && forall i :: 0 <= i < |draws| ==> 0.0 <= draws[i] < 1.0
    ensures ChoicesOf(n, k, draws)[i] == Int(draws[i], n - i)
  {
  }

  lemma NothingDrawn<T>(pool: seq<T>, choices: seq<int>)
    requires Choices(|pool|, choices) && choices == []
    ensures Draw(pool, choices) == []
  {
  }

  /** Swapping in place at step `i` puts the next drawn element behind those already drawn. */
  lemma DrawStep<T>(before: seq<T>, i: nat, choices: seq<int>)
    requires i < |choices| && |choices| <= |before| && Choices(|before| - i, choices[i..])
    ensures 0 <= choices[i] < |before| - i && Choices(|before| - i - 1, choices[i + 1..])
    ensures var after := Swap(before, i, i + choices[i]);
            before[..i] + Draw(before[i..], choices[i..]) == after[..i + 1] + Draw(after[i + 1..], choices[i + 1..])
  {
  }

  /** After `i` steps: the pool's first `i` elements are drawn, and the rest of the draw comes from its remainder. */
  ghost predicate Drawn<T>(items: seq<T>, choices: seq<int>, pool: seq<T>, i: nat)
    requires Choices(|items|, choices)
  {
    && i <= |choices| <= |pool| == |items| && Choices(|pool| - i, choices[i..])
    && pool[..i] + Draw(pool[i..], choices[i..]) == Draw(items, choices)
  }

  lemma DrawnAtFirst<T>(items: seq<T>, choices: seq<int>)
    requires Choices(|items|, choices)
    ensures Drawn(items, choices, items, 0)
  {
    assert items[0..] == items && choices[0..] == choices;
  }

  lemma DrawnNext<T>(items: seq<T>, choices: seq<int>, pool: seq<T>, i: nat)
    requires Choices(|items|, choices) && Drawn(items, choices, pool, i) && i < |choices|
    ensures 0 <= choices[i] < |pool| - i && Drawn(items, choices, Swap(pool, i, i + choices[i]), i + 1)
  {
    hide Draw, Choices, Swap;
    DrawStep(pool, i, choices);
  }

  lemma DrawnAtLast<T>(items: seq<T>, choices: seq<int>, pool: seq<T>)
    requires Choices(|items|, choices) && Drawn(items, choices, pool, |choices|)
    ensures |choices| <= |pool| && pool[..|choices|] == Draw(items, choices)
  {
    NothingDrawn(pool[|choices|..], choices[|choices|..]);
  }

  method SwapInPlace<T>(pool: array<T>, i: nat, j: nat)
    requires i < pool.Length && j < pool.Length
    modifies pool
    ensures pool[..] == Swap(old(pool[..]), i, j)
  {
    pool[i], pool[j] := pool[j], pool[i];
  }

  method Sample<T>(items: seq<T>, count: int, draws: seq<real>) returns (r: seq<T>)
    requires count <= |draws| && forall i :: 0 <= i < |draws| ==> 0.0 <= draws[i] < 1.0
    ensures r == SampleOf(items, count, ChoicesOf(|items|, Max(Min(count, |items|), 0), draws))
  {
    hide Draw, Choices, Int, Swap, ChoicesOf, Drawn;
    var pool := new T[|items|](k requires 0 <= k < |items| => items[k]);
    assert pool[..] == items;
    var n := Min(count, |items|);
    ghost var choices := ChoicesOf(|items|, Max(n, 0), draws);
    DrawnAtFirst(items, choices);
    var i := 0;
    while i < n
      invariant 0 <= i <= Max(n, 0)
      invariant Drawn(items, choices, pool[..], i)
      invariant i == 0 ==> pool[..] == items
    {
      DrawnNext(items, choices, pool[..], i);
      ChoicesAre(|items|, n, draws, i);
      SwapInPlace(pool, i, i + Int(draws[i], |items| - i));
      i := i + 1;
    }
    if count < 0 {
      return pool[..Max(pool.Length + count, 0)];
    }
    DrawnAtLast(items, choices, pool[..]);
    return pool[..n];
  }

  // ---------- what the draws reach ----------

  predicate Within<T(==)>(r: seq<T>, pool: seq<T>) {
    forall i :: 0 <= i < |r| ==> r[i] in pool
  }

  /** An ordered selection without replacement. */
  predicate Selection<T(==)>(r: seq<T>, pool: seq<T>) {
    Distinct(r) && Within(r, pool)
  }

  lemma SwapPermutes<T>(s: seq<T>, j: nat)
    requires j < |s|
    ensures multiset(Swap(s, 0, j)) == multiset(s)
    ensures multiset(Swap(s, 0, j)[1..]) == multiset(s) - multiset{s[j]}
  {
    var t := Swap(s, 0, j);
    assert t == [s[j]] + t[1..];
  }

  /** A sample never holds an element more often than the list does. */
  lemma {:induction false} DrawTakesFromPool<T>(pool: seq<T>, choices: seq<int>)
    requires Choices(|pool|, choices)
    ensures multiset(Draw(pool, choices)) <= multiset(pool)
    decreases |choices|
  {
    if choices != [] {
      ChoicesTail(|pool|, choices);
      SwapPermutes(pool, choices[0]);
      DrawTakesFromPool(Swap(pool, 0, choices[0])[1..], choices[1..]);
    }
  }

  lemma RestIsDistinct<T>(pool: seq<T>, j: nat)
    requires j < |pool| && Distinct(pool)
    ensures Distinct(Swap(pool, 0, j)[1..])
    ensures forall x :: x in Swap(pool, 0, j)[1..] <==> x in pool && x != pool[j]
  {
    var t := Swap(pool, 0, j);
    forall x ensures x in t[1..] <==> x in pool && x != pool[j] {
      if x in t[1..] {
        var k :| 0 <= k < |t| - 1 && t[1..][k] == x;
        assert t[1..][k] == t[k + 1];
      }
      if x in pool && x != pool[j] {
        var k :| 0 <= k < |pool| && pool[k] == x;
        assert x == if k == 0 then t[1..][j - 1] else t[1..][k - 1];
      }
    }
  }

  lemma SelectionFirst<T>(x: T, r: seq<T>, rest: seq<T>, pool: seq<T>)
    requires Selection(r, rest) && x in pool && forall y :: y in rest <==> y in pool && y != x
    ensures Selection([x] + r, pool)
  {
    var s := [x] + r;
    forall i | 0 <= i < |s| ensures s[i] in pool && (i > 0 ==> s[i] != x) {
      if i > 0 { assert s[i] == r[i - 1] && r[i - 1] in rest; }
    }
    forall i, j | 0 <= i < j < |s| ensures s[i] != s[j] {
      if i > 0 { assert s[i] == r[i - 1] && s[j] == r[j - 1]; }
    }
  }

  lemma {:induction false} DrawIsSelection<T>(pool: seq<T>, choices: seq<int>)
    requires Distinct(pool) && Choices(|pool|, choices)
    ensures Selection(Draw(pool, choices), pool)
    decreases |choices|
  {
    if choices != [] {
      ChoicesTail(|pool|, choices);
      hide Distinct, Within, Swap;
      var rest := Swap(pool, 0, choices[0])[1..];
      RestIsDistinct(pool, choices[0]);
      DrawIsSelection(rest, choices[1..]);
      SelectionFirst(pool[choices[0]], Draw(rest, choices[1..]), rest, pool);
    }
  }

  /** Different choices give different samples. */
  lemma {:induction false} DrawIsInjective<T>(pool: seq<T>, c: seq<int>, d: seq<int>)
    requires Distinct(pool) && Choices(|pool|, c) && Choices(|pool|, d)
    requires Draw(pool, c) == Draw(pool, d)
    ensures c == d
    decreases |c|
  {
    assert |Draw(pool, c)| == |Draw(pool, d)|;
    if c != [] {
      ChoicesTail(|pool|, c);
      ChoicesTail(|pool|, d);
      assert Draw(pool, c)[0] == pool[c[0]] && Draw(pool, d)[0] == pool[d[0]];
      var rest := Swap(pool, 0, c[0])[1..];
      assert Draw(rest, c[1..]) == Draw(pool, c)[1..] && Draw(rest, d[1..]) == Draw(pool, d)[1..];
      RestIsDistinct(pool, c[0]);
      DrawIsInjective(rest, c[1..], d[1..]);
      assert c == [c[0]] + c[1..] && d == [d[0]] + d[1..];
    }
  }

  /** Every ordered selection is drawn by some choices. */
  lemma {:induction false} DrawIsOnto<T>(pool: seq<T>, r: seq<T>) returns (c: seq<int>)
    requires Distinct(pool) && Selection(r, pool)
    ensures Choices(|pool|, c) && Draw(pool, c) == r
    decreases |r|
  {
    if r == [] {
      c := [];
    } else {
      assert r[0] in pool;
      var j: nat :| j < |pool| && pool[j] == r[0];
      var rest := Swap(pool, 0, j)[1..];
      RestIsDistinct(pool, j);
      assert forall i :: 0 <= i < |r| - 1 ==> r[1..][i] == r[i + 1];
      var tail := DrawIsOnto(rest, r[1..]);
      c := [j] + tail;
      assert c[1..] == tail;
      assert Draw(pool, c) == [pool[j]] + Draw(rest, tail);
    }
  }

  // ---------- lists with repeated items ----------

  function At<T>(items: seq<T>, positions: seq<int>): seq<T>
    requires forall i :: 0 <= i < |positions| ==> 0 <= positions[i] < |items|
  {
    seq(|positions|, i requires 0 <= i < |positions| => items[positions[i]])
  }

  function Positions(n: nat): seq<int> {
    seq(n, i => i)
  }

  lemma SwapAt<T>(items: seq<T>, positions: seq<int>, j: nat)
    requires forall i :: 0 <= i < |positions| ==> 0 <= positions[i] < |items|
    requires j < |positions|
    ensures forall i :: 0 <= i < |positions| - 1 ==> 0 <= Swap(positions, 0, j)[1..][i] < |items|
    ensures At(items, Swap(positions, 0, j)[1..]) == Swap(At(items, positions), 0, j)[1..]
  {
  }

  lemma {:induction false} DrawByPosition<T>(items: seq<T>, positions: seq<int>, choices: seq<int>)
    requires forall i :: 0 <= i < |positions| ==> 0 <= positions[i] < |items|
    requires Choices(|positions|, choices)
    ensures forall i :: 0 <= i < |choices| ==> 0 <= Draw(positions, choices)[i] < |items|
    ensures Draw(At(items, positions), choices) == At(items, Draw(positions, choices))
    decreases |choices|
  {
    if choices != [] {
      ChoicesTail(|positions|, choices);
      SwapAt(items, positions, choices[0]);
      DrawByPosition(items, Swap(positions, 0, choices[0])[1..], choices[1..]);
    }
  }

  /**
    * For every list, repeated items or not: the sample reads the list at an ordered selection of positions,
    * each position at most once, and each selection of positions comes from exactly one vector of choices.
    */
  lemma SamplesArePositions<T>(items: seq<T>, choices: seq<int>)
    requires Choices(|items|, choices)
    ensures var p := Draw(Positions(|items|), choices);
            && (forall i :: 0 <= i < |p| ==> 0 <= p[i] < |items|) && Selection(p, Positions(|items|))
            && SampleOf(items, |choices|, choices) == At(items, p)
    ensures forall d: seq<int> :: Choices(|items|, d) && Draw(Positions(|items|), d) == Draw(Positions(|items|), choices) ==> d == choices
  {
    var all := Positions(|items|);
    DrawIsSelection(all, choices);
    DrawByPosition(items, all, choices);
    assert At(items, all) == items;
    forall d: seq<int> | Choices(|items|, d) && Draw(all, d) == Draw(all, choices) ensures d == choices {
      DrawIsInjective(all, d, choices);
    }
  }

  /** "At most `count` items" holds exactly when the count is not negative or the list is too short to show it. */
  lemma AtMostCountIff<T>(items: seq<T>, count: int, choices: seq<int>)
    requires Choices(|items|, choices) && |choices| == Max(Min(count, |items|), 0)
    ensures |SampleOf(items, count, choices)| <= Max(count, 0) <==> count >= 0 || |items| <= -count
    ensures count >= 0 ==> |SampleOf(items, count, choices)| == Min(count, |items|)
  {
  }

  lemma NegativeCountReturnsItems()
    ensures SampleOf([1, 2, 3], -1, []) == [1, 2]
  {
  }
}
