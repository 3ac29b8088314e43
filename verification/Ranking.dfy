/** Store ranking: the popularity score, the order it induces, and offset paging over the ranked list. */
module Ranking {
  import opened Wrappers

  const ORDER_WEIGHT := 1.0
  const WISHLIST_WEIGHT := 0.5
  const RATING_WEIGHT := 0.4
  const BAYESIAN_M := 5
  const DEFAULT_GLOBAL_RATING_PRIOR := 4.0

  datatype Metrics = Metrics(recentOrderCount: nat, wishlistCount: nat, ratingAverage: real, reviewCount: nat)
  datatype ReviewStat = ReviewStat(average: real, count: nat)
  datatype ScoredStore = ScoredStore(id: nat, metrics: Metrics, score: real)

  function BayesianRating(average: real, count: int, globalAverage: real, m: nat): real {
    if count <= 0 then globalAverage
    else
      var n, k := count as real, m as real;
      (n / (n + k)) * average + (k / (n + k)) * globalAverage
  }

  /** `log1p` stands for the natural logarithm of one more than its argument. */
  function PopularityScore(metrics: Metrics, globalAverage: real, log1p: nat -> real): real {
    ORDER_WEIGHT * log1p(metrics.recentOrderCount) + WISHLIST_WEIGHT * log1p(metrics.wishlistCount)
    + RATING_WEIGHT * BayesianRating(metrics.ratingAverage, metrics.reviewCount, globalAverage, BAYESIAN_M)
  }

  // ---------- the score ----------

  function Abs(x: real): (r: real)
    ensures r >= 0.0 && (r == x || r == -x)
  {
    if x < 0.0 then -x else x
  }

  /** The share of the prior in a rating from `n` reviews. */
  function PriorShare(n: nat, m: nat): (w: real)
    requires n > 0
    ensures 0.0 <= w < 1.0 && (m > 0 ==> w > 0.0)
  {
    Shares(n as real, m as real);
    m as real / (n as real + m as real)
  }

  function Pull(share: real, gap: real): real {
    share * gap
  }

  lemma Shares(n: real, k: real)
    requires n > 0.0 && k >= 0.0
    ensures var v, w := n / (n + k), k / (n + k);
            v == 1.0 - w && 0.0 <= w < 1.0 && w * (n + k) == k && (k > 0.0 ==> w > 0.0)
  {
    var d, v, w := n + k, n / (n + k), k / (n + k);
    assert v * d == n && w * d == k;
    assert (v + w - 1.0) * d == 0.0;
    Sign(v + w - 1.0, d);
    Sign(v, d);
    Sign(w, d);
  }

  lemma Sign(x: real, d: real)
    requires d > 0.0
    ensures (x * d > 0.0 <==> x > 0.0) && (x * d == 0.0 <==> x == 0.0)
  {
  }

  /** The rating is the average pulled towards the prior by the share of the prior. */
  lemma RatingIsPulled(average: real, n: nat, prior: real, m: nat)
    requires n > 0
    ensures BayesianRating(average, n, prior, m) == average + Pull(PriorShare(n, m), prior - average)
  {
    Shares(n as real, m as real);
    var w := PriorShare(n, m);
    assert BayesianRating(average, n, prior, m) == (1.0 - w) * average + w * prior;
    assert (1.0 - w) * average == average - w * average;
    assert w * (prior - average) == w * prior - w * average;
  }

  lemma PullBounds(w: real, d: real)
    requires 0.0 <= w < 1.0
    ensures Abs(Pull(w, d)) == w * Abs(d)
    ensures d >= 0.0 ==> 0.0 <= Pull(w, d) <= d
    ensures d <= 0.0 ==> d <= Pull(w, d) <= 0.0
  {
    assert (1.0 - w) * d == d - w * d;
    Sign(d, 1.0 - w);
  }

  lemma PullGrows(v: real, w: real, d: real)
    requires v < w
    ensures d > 0.0 ==> Pull(v, d) < Pull(w, d)
    ensures d < 0.0 ==> Pull(v, d) > Pull(w, d)
  {
  }

  lemma PullLags(w: real, c: real, d: real)
    requires 0.0 <= w < 1.0 && c > d
    ensures Pull(w, c) - Pull(w, d) < c - d
  {
    Sign(1.0 - w, c - d);
    assert (1.0 - w) * (c - d) == c - d - (w * c - w * d);
    Sign(c - d, 1.0 - w);
  }

  /** Between average and prior, at distance m/(n+m) of their gap from the average. */
  lemma RatingShrinks(average: real, n: nat, prior: real, m: nat)
    requires n > 0
    ensures var r := BayesianRating(average, n, prior, m);
            && Abs(r - average) == m as real / (n as real + m as real) * Abs(prior - average)
            && (average <= prior ==> average <= r <= prior) && (prior <= average ==> prior <= r <= average)
  {
    hide BayesianRating, Pull;
    RatingIsPulled(average, n, prior, m);
    PullBounds(PriorShare(n, m), prior - average);
  }

  lemma SharesFall(n: nat, k: nat, m: nat)
    requires 0 < n < k && m > 0
    ensures PriorShare(k, m) < PriorShare(n, m)
  {
    var v, w := PriorShare(n, m), PriorShare(k, m);
    var p, q := n as real + m as real, k as real + m as real;
    Shares(n as real, m as real);
    Shares(k as real, m as real);
    Sign(q - p, v);
    assert (q - p) * v == q * v - p * v;
    Sign(v - w, q);
    assert (v - w) * q == q * v - w * q;
  }

  /** More reviews with the same average count for more: the rating moves away from the prior towards the average. */
  lemma MoreReviewsTrustAverage(average: real, n: nat, k: nat, prior: real, m: nat)
    requires 0 < n < k && m > 0
    ensures average > prior ==> BayesianRating(average, k, prior, m) > BayesianRating(average, n, prior, m)
    ensures average < prior ==> BayesianRating(average, k, prior, m) < BayesianRating(average, n, prior, m)
  {
    hide BayesianRating, PriorShare, Pull;
    RatingIsPulled(average, n, prior, m);
    RatingIsPulled(average, k, prior, m);
    SharesFall(n, k, m);
    PullGrows(PriorShare(k, m), PriorShare(n, m), prior - average);
  }

  lemma RatingFollowsAverage(a: real, b: real, n: nat, prior: real, m: nat)
    requires n > 0 && a < b
    ensures BayesianRating(a, n, prior, m) < BayesianRating(b, n, prior, m)
  {
    hide BayesianRating, PriorShare, Pull;
    RatingIsPulled(a, n, prior, m);
    RatingIsPulled(b, n, prior, m);
    PullLags(PriorShare(n, m), prior - a, prior - b);
  }

  /** The rating is the average one gets by adding five reviews that give the prior. */
  lemma RatingAddsFiveReviews(average: real, n: nat, prior: real)
    ensures BayesianRating(average, n, prior, BAYESIAN_M) * (n as real + 5.0) == n as real * average + 5.0 * prior
  {
    if n > 0 {
      var d := n as real + 5.0;
      var v, w := n as real / d, 5.0 / d;
      assert v * d == n as real && w * d == 5.0;
      assert BayesianRating(average, n, prior, BAYESIAN_M) == v * average + w * prior;
      assert (v * average + w * prior) * d == (v * d) * average + (w * d) * prior;
    }
  }

  /**
    * How the score weighs its parts: against a store with the same rating, a gain in the logarithm of orders counts
    * once, of wishes half; with the same counts, a gain in the rating counts two fifths.
    */
  lemma ScoreExchange(x: Metrics, y: Metrics, prior: real, log1p: nat -> real)
    ensures PopularityScore(x, prior, log1p) - PopularityScore(y, prior, log1p)
            == log1p(x.recentOrderCount) - log1p(y.recentOrderCount)
               + (log1p(x.wishlistCount) - log1p(y.wishlistCount)) / 2.0
               + (BayesianRating(x.ratingAverage, x.reviewCount, prior, BAYESIAN_M)
                  - BayesianRating(y.ratingAverage, y.reviewCount, prior, BAYESIAN_M)) * 2.0 / 5.0
    ensures log1p(0) == 0.0 ==> PopularityScore(Metrics(0, 0, 0.0, 0), prior, log1p) == prior * 2.0 / 5.0
  {
    hide BayesianRating;
    NoReviews(0.0, prior);
  }

  /** No metric ever lowers the score: more orders, more wishes and a better average never rank a store lower. */
  lemma ScoreIsMonotone(x: Metrics, y: Metrics, prior: real, log1p: nat -> real)
    requires forall a: nat, b: nat :: a < b ==> log1p(a) < log1p(b)
    requires x.recentOrderCount <= y.recentOrderCount && x.wishlistCount <= y.wishlistCount
    requires x.ratingAverage <= y.ratingAverage && x.reviewCount == y.reviewCount
    ensures PopularityScore(x, prior, log1p) <= PopularityScore(y, prior, log1p)
    ensures PopularityScore(x, prior, log1p) == PopularityScore(y, prior, log1p) <==>
            x.recentOrderCount == y.recentOrderCount && x.wishlistCount == y.wishlistCount
            && (x.ratingAverage == y.ratingAverage || x.reviewCount == 0)
  {
    hide BayesianRating;
    if x.reviewCount > 0 {
      if x.ratingAverage < y.ratingAverage {
        RatingFollowsAverage(x.ratingAverage, y.ratingAverage, x.reviewCount, prior, BAYESIAN_M);
      }
    } else {
      NoReviews(x.ratingAverage, prior);
      NoReviews(y.ratingAverage, prior);
    }
  }

  lemma NoReviews(average: real, prior: real)
    ensures BayesianRating(average, 0, prior, BAYESIAN_M) == prior
  {
  }

  // ---------- the order ----------

  /** The comparator of the sort: negative puts `a` first. */
  function Compare(a: ScoredStore, b: ScoredStore): real {
    if b.score != a.score then b.score - a.score
    else if b.metrics.reviewCount != a.metrics.reviewCount then (b.metrics.reviewCount - a.metrics.reviewCount) as real
    else if b.id > a.id then 1.0 else -1.0
  }

  predicate Before(a: ScoredStore, b: ScoredStore) {
    Compare(a, b) < 0.0
  }

  /** On stores with distinct ids the comparator is a strict total order; a store compared to itself is not. */
  lemma ComparatorIsStrictOrder(a: ScoredStore, b: ScoredStore, c: ScoredStore)
    ensures a.id != b.id ==> (Before(a, b) <==> !Before(b, a)) && Compare(a, b) != 0.0
    ensures a.id != b.id ==> (Compare(a, b) > 0.0 <==> Before(b, a))
    ensures a.id != c.id && Before(a, b) && Before(b, c) ==> Before(a, c)
    ensures Before(a, a)
  {
  }

  predicate DistinctIds(s: seq<ScoredStore>) {
    forall i, j :: 0 <= i < j < |s| ==> s[i].id != s[j].id
  }

  predicate Ranked(s: seq<ScoredStore>) {
    forall i, j :: 0 <= i < j < |s| ==> Before(s[i], s[j])
  }

  /** One insertion from the back, as the in-place sort does it. */
  function Insert(x: ScoredStore, s: seq<ScoredStore>): (r: seq<ScoredStore>)
    ensures |r| == |s| + 1
  {
    if s == [] || !Before(x, s[|s| - 1]) then s + [x] else Insert(x, s[..|s| - 1]) + [s[|s| - 1]]
  }

  function Rank(s: seq<ScoredStore>): (r: seq<ScoredStore>)
    ensures |r| == |s|
  {
    if s == [] then [] else Insert(s[|s| - 1], Rank(s[..|s| - 1]))
  }

  lemma {:induction false} InsertPermutes(x: ScoredStore, s: seq<ScoredStore>)
    ensures multiset(Insert(x, s)) == multiset(s) + multiset{x}
  {
    if s == [] || !Before(x, s[|s| - 1]) {
    } else {
      InsertPermutes(x, s[..|s| - 1]);
      assert s == s[..|s| - 1] + [s[|s| - 1]];
    }
  }

  lemma {:induction false} RankPermutes(s: seq<ScoredStore>)
    ensures multiset(Rank(s)) == multiset(s)
  {
    if s != [] {
      RankPermutes(s[..|s| - 1]);
      InsertPermutes(s[|s| - 1], Rank(s[..|s| - 1]));
      assert s == s[..|s| - 1] + [s[|s| - 1]];
    }
  }

  predicate OtherId(x: ScoredStore, s: seq<ScoredStore>) {
    forall i :: 0 <= i < |s| ==> s[i].id != x.id
  }

  lemma {:induction false} InsertRanks(x: ScoredStore, s: seq<ScoredStore>)
    requires Ranked(s) && DistinctIds(s) && OtherId(x, s)
    ensures Ranked(Insert(x, s))
    ensures forall y: ScoredStore :: y in Insert(x, s) <==> y == x || y in s
  {
    if s == [] {
    } else {
      var front, last := s[..|s| - 1], s[|s| - 1];
      if Before(x, last) {
        InsertRanks(x, front);
        var r := Insert(x, front);
        forall i | 0 <= i < |r| ensures Before(r[i], last) {
          assert r[i] in r;
          if r[i] != x { var k: nat :| k < |front| && front[k] == r[i]; assert s[k] == r[i]; }
        }
      } else {
        forall i | 0 <= i < |s| ensures Before(s[i], x) {
          ComparatorIsStrictOrder(x, last, x);
          ComparatorIsStrictOrder(last, x, x);
          if i < |s| - 1 { ComparatorIsStrictOrder(s[i], last, x); }
        }
      }
    }
  }

  lemma {:induction false} RankRanks(s: seq<ScoredStore>)
    requires DistinctIds(s)
    ensures Ranked(Rank(s)) && DistinctIds(Rank(s))
  {
    if s != [] {
      var front, x := s[..|s| - 1], s[|s| - 1];
      RankRanks(front);
      RankPermutes(front);
      assert OtherId(x, Rank(front)) by {
        forall i | 0 <= i < |Rank(front)| ensures Rank(front)[i].id != x.id {
          assert Rank(front)[i] in multiset(Rank(front));
          assert Rank(front)[i] in front;
        }
      }
      InsertRanks(x, Rank(front));
      InsertKeepsIds(x, Rank(front));
    }
  }

  lemma {:induction false} InsertKeepsIds(x: ScoredStore, s: seq<ScoredStore>)
    requires DistinctIds(s) && OtherId(x, s)
    ensures DistinctIds(Insert(x, s))
    ensures forall y: ScoredStore :: OtherId(y, s) && y.id != x.id ==> OtherId(y, Insert(x, s))
  {
    if s != [] && Before(x, s[|s| - 1]) {
      InsertKeepsIds(x, s[..|s| - 1]);
    }
  }

  lemma TailMultiset(s: seq<ScoredStore>)
    requires s != []
    ensures multiset(s[1..]) == multiset(s) - multiset{s[0]}
  {
    assert s == [s[0]] + s[1..];
  }

  /** Any two ranked lists of the same stores are equal. */
  lemma {:induction false} RankingIsUnique(s: seq<ScoredStore>, t: seq<ScoredStore>)
    requires DistinctIds(s) && Ranked(s) && Ranked(t) && multiset(s) == multiset(t)
    ensures s == t
  {
    assert |s| == |multiset(s)| == |multiset(t)| == |t|;
    if s != [] {
      assert s[0] in multiset(t) && t[0] in multiset(s);
      assert s[0] == t[0] by { FirstIsFirst(s, t); }
      TailMultiset(s);
      TailMultiset(t);
      RankingIsUnique(s[1..], t[1..]);
      assert s == [s[0]] + s[1..] && t == [t[0]] + t[1..];
    }
  }

  lemma FirstIsFirst(s: seq<ScoredStore>, t: seq<ScoredStore>)
    requires s != [] && t != [] && DistinctIds(s) && Ranked(s) && Ranked(t) && s[0] in t && t[0] in s
    ensures s[0] == t[0]
  {
  }

  /** The ranking does not depend on the order in which the database lists the candidates, nor on the sort used. */
  lemma RankingIgnoresInputOrder(s: seq<ScoredStore>, t: seq<ScoredStore>, sorted: seq<ScoredStore>)
    requires DistinctIds(s) && multiset(s) == multiset(t)
    requires Ranked(sorted) && multiset(sorted) == multiset(t)
    ensures sorted == Rank(s)
  {
    RankRanks(s);
    RankPermutes(s);
    RankingIsUnique(Rank(s), sorted);
  }

  /** Higher scores first; among equal scores more reviews first; among those the higher id. */
  lemma RankDescends(s: seq<ScoredStore>, i: nat, j: nat)
    requires DistinctIds(s) && i < j < |s|
    ensures var a, b := Rank(s)[i], Rank(s)[j];
            && a.score >= b.score
            && (a.score == b.score ==> a.metrics.reviewCount >= b.metrics.reviewCount)
            && (a.score == b.score && a.metrics.reviewCount == b.metrics.reviewCount ==> a.id > b.id)
  {
    hide Rank;
    RankRanks(s);
    assert Before(Rank(s)[i], Rank(s)[j]) && Rank(s)[i].id != Rank(s)[j].id;
  }

  // ---------- ranking the active stores ----------

  function MetricsOf(id: nat, orders: map<nat, nat>, wishes: map<nat, nat>, reviews: map<nat, ReviewStat>): Metrics {
    Metrics(Get(orders, id).GetOr(0), Get(wishes, id).GetOr(0),
            if id in reviews then reviews[id].average else 0.0, if id in reviews then reviews[id].count else 0)
  }

  function ScoreOf(id: nat, orders: map<nat, nat>, wishes: map<nat, nat>, reviews: map<nat, ReviewStat>,
                   globalAverage: Option<real>, log1p: nat -> real): ScoredStore
  {
    var metrics := MetricsOf(id, orders, wishes, reviews);
    ScoredStore(id, metrics, PopularityScore(metrics, globalAverage.GetOr(DEFAULT_GLOBAL_RATING_PRIOR), log1p))
  }

  lemma InsertStep(x: ScoredStore, s: seq<ScoredStore>, j: nat)
    requires j <= |s| && forall k :: j <= k < |s| ==> Before(x, s[k])
    ensures Insert(x, s) == Insert(x, s[..j]) + s[j..]
    decreases |s| - j
  {
    if j < |s| {
      InsertStep(x, s, j + 1);
      assert s[..j + 1][..j] == s[..j] && s[j..] == [s[j]] + s[j + 1..];
    } else {
      assert s[..j] == s && s[j..] == [];
    }
  }

  /** Moves the element at `i` forward past every ranked element it goes before. */
  method InsertInPlace(scored: array<ScoredStore>, i: nat)
    requires i < scored.Length
    modifies scored
    ensures scored[..i + 1] == Insert(old(scored[i]), old(scored[..i])) && scored[i + 1..] == old(scored[i + 1..])
  {
    hide Before, Insert;
    var x, j := scored[i], i;
    ghost var done := scored[..i];
    while j > 0 && Before(x, scored[j - 1])
      invariant 0 <= j <= i
      invariant scored[..j] == done[..j] && scored[j] == x && scored[j + 1..i + 1] == done[j..]
      invariant scored[i + 1..] == old(scored[i + 1..])
      invariant forall k :: j <= k < i ==> Before(x, done[k])
    {
      assert scored[j - 1] == done[j - 1];
      scored[j], scored[j - 1] := scored[j - 1], x;
      j := j - 1;
      assert done[j..] == [done[j]] + done[j + 1..];
    }
    InsertStep(x, done, j);
    InsertHere(x, done[..j]);
    assert scored[..i + 1] == scored[..j] + [x] + scored[j + 1..i + 1];
  }

  /** The in-place sort of the scored candidates. */
  method SortScored(scored: array<ScoredStore>)
    modifies scored
    ensures scored[..] == Rank(old(scored[..]))
  {
    hide Rank, Insert;
    ghost var was := scored[..];
    RankNothing();
    var i := 0;
    while i < scored.Length
      invariant 0 <= i <= scored.Length == |was|
      invariant scored[..i] == Rank(was[..i]) && scored[i..] == was[i..]
    {
      assert scored[i] == was[i];
      RankOneMore(was, i);
      InsertInPlace(scored, i);
      i := i + 1;
    }
    assert scored[..i] == scored[..] && was[..i] == was;
  }

  lemma RankNothing()
    ensures Rank([]) == []
  {
  }

  lemma InsertHere(x: ScoredStore, s: seq<ScoredStore>)
    requires s == [] || !Before(x, s[|s| - 1])
    ensures Insert(x, s) == s + [x]
  {
  }

  lemma RankOneMore(s: seq<ScoredStore>, i: nat)
    requires i < |s|
    ensures Rank(s[..i + 1]) == Insert(s[i], Rank(s[..i]))
  {
    assert s[..i + 1][..i] == s[..i];
  }

  function ScoreAll(candidates: seq<nat>, orders: map<nat, nat>, wishes: map<nat, nat>, reviews: map<nat, ReviewStat>,
                    globalAverage: Option<real>, log1p: nat -> real): seq<ScoredStore>
  {
    seq(|candidates|, i requires 0 <= i < |candidates| =>
      ScoreOf(candidates[i], orders, wishes, reviews, globalAverage, log1p))
  }

  method RankActiveStores(candidates: seq<nat>, orders: map<nat, nat>, wishes: map<nat, nat>, reviews: map<nat, ReviewStat>,
                          globalAverage: Option<real>, log1p: nat -> real) returns (ranked: seq<ScoredStore>)
    ensures ranked == Rank(ScoreAll(candidates, orders, wishes, reviews, globalAverage, log1p))
    ensures Distinct(candidates) ==>
              forall i, j :: 0 <= i < j < |ranked| ==>
                && ranked[i].score >= ranked[j].score
                && (ranked[i].score == ranked[j].score ==> ranked[i].metrics.reviewCount >= ranked[j].metrics.reviewCount)
                && (ranked[i].score == ranked[j].score && ranked[i].metrics.reviewCount == ranked[j].metrics.reviewCount ==>
                      ranked[i].id > ranked[j].id)
  {
    hide Rank, ScoreOf;
    var scored := new ScoredStore[|candidates|](i requires 0 <= i < |candidates| =>
      ScoreOf(candidates[i], orders, wishes, reviews, globalAverage, log1p));
    assert scored[..] == ScoreAll(candidates, orders, wishes, reviews, globalAverage, log1p);
    SortScored(scored);
    ranked := scored[..];
    if Distinct(candidates) {
      ScoredIdsAreDistinct(candidates, orders, wishes, reviews, globalAverage, log1p);
      forall i, j | 0 <= i < j < |ranked|
        ensures && ranked[i].score >= ranked[j].score
                && (ranked[i].score == ranked[j].score ==> ranked[i].metrics.reviewCount >= ranked[j].metrics.reviewCount)
                && (ranked[i].score == ranked[j].score && ranked[i].metrics.reviewCount == ranked[j].metrics.reviewCount ==>
                      ranked[i].id > ranked[j].id)
      {
        RankDescends(ScoreAll(candidates, orders, wishes, reviews, globalAverage, log1p), i, j);
      }
    }
  }

  lemma ScoredIdsAreDistinct(candidates: seq<nat>, orders: map<nat, nat>, wishes: map<nat, nat>, reviews: map<nat, ReviewStat>,
                             globalAverage: Option<real>, log1p: nat -> real)
    requires Distinct(candidates)
    ensures DistinctIds(ScoreAll(candidates, orders, wishes, reviews, globalAverage, log1p))
  {
  }

  /** Without any review in the whole shop the prior is four stars. */
  lemma NoAverageIsFourStars(id: nat, orders: map<nat, nat>, wishes: map<nat, nat>, reviews: map<nat, ReviewStat>, log1p: nat -> real)
    ensures ScoreOf(id, orders, wishes, reviews, None, log1p) == ScoreOf(id, orders, wishes, reviews, Some(4.0), log1p)
  {
  }

  /** Of two candidates alike in wishes, rating and reviews, the one with more recent orders stands first. */
  lemma MoreOrdersRankFirst(
    candidates: seq<nat>, orders: map<nat, nat>, wishes: map<nat, nat>, reviews: map<nat, ReviewStat>,
    globalAverage: Option<real>, log1p: nat -> real, i: nat, j: nat)
    requires Distinct(candidates) && forall a: nat, b: nat :: a < b ==> log1p(a) < log1p(b)
    ensures var ranked := Rank(ScoreAll(candidates, orders, wishes, reviews, globalAverage, log1p));
            i < |ranked| && j < |ranked| ==>
              var x, y := ranked[i], ranked[j];
              Get(orders, x.id).GetOr(0) > Get(orders, y.id).GetOr(0)
              && Get(wishes, x.id).GetOr(0) == Get(wishes, y.id).GetOr(0) && Get(reviews, x.id) == Get(reviews, y.id)
              ==> i < j
  {
    hide Rank, PopularityScore;
    var scored := ScoreAll(candidates, orders, wishes, reviews, globalAverage, log1p);
    var ranked := Rank(scored);
    if i < |ranked| && j < |ranked| {
      RankedIsScored(candidates, orders, wishes, reviews, globalAverage, log1p, i);
      RankedIsScored(candidates, orders, wishes, reviews, globalAverage, log1p, j);
      var x, y := ranked[i], ranked[j];
      if Get(orders, x.id).GetOr(0) > Get(orders, y.id).GetOr(0)
         && Get(wishes, x.id).GetOr(0) == Get(wishes, y.id).GetOr(0) && Get(reviews, x.id) == Get(reviews, y.id)
      {
        ScoreIsMonotone(y.metrics, x.metrics, globalAverage.GetOr(DEFAULT_GLOBAL_RATING_PRIOR), log1p);
        if j < i {
          ScoredIdsAreDistinct(candidates, orders, wishes, reviews, globalAverage, log1p);
          RankDescends(scored, j, i);
        }
      }
    }
  }

  /** Every ranked entry is the score of a candidate, from that candidate's own counts. */
  lemma RankedIsScored(
    candidates: seq<nat>, orders: map<nat, nat>, wishes: map<nat, nat>, reviews: map<nat, ReviewStat>,
    globalAverage: Option<real>, log1p: nat -> real, i: nat)
    requires i < |candidates|
    ensures var entry := Rank(ScoreAll(candidates, orders, wishes, reviews, globalAverage, log1p))[i];
            && entry.id in candidates && entry == ScoreOf(entry.id, orders, wishes, reviews, globalAverage, log1p)
            && entry.metrics.recentOrderCount == (if entry.id in orders then orders[entry.id] else 0)
            && entry.metrics.wishlistCount == (if entry.id in wishes then wishes[entry.id] else 0)
            && entry.metrics.reviewCount == (if entry.id in reviews then reviews[entry.id].count else 0)
            && entry.metrics.ratingAverage == (if entry.id in reviews then reviews[entry.id].average else 0.0)
  {
    hide Rank, PopularityScore;
    var scored := ScoreAll(candidates, orders, wishes, reviews, globalAverage, log1p);
    RankPermutes(scored);
    assert Rank(scored)[i] in multiset(Rank(scored));
    assert Rank(scored)[i] in scored;
  }

  // ---------- paging ----------

  datatype Entry = Entry(rank: nat, store: ScoredStore)
  datatype Page = Page(items: seq<Entry>, totalCount: nat, hasMore: bool)

  function PopularStores(scored: seq<ScoredStore>, offset: nat, limit: nat): Page {
    if scored == [] then Page([], 0, false)
    else
      var lo := Min(offset, |scored|);
      var hi := Min(offset + limit, |scored|);
      Page(seq(hi - lo, k requires 0 <= k < hi - lo => Entry(offset + k + 1, scored[lo + k])), |scored|, offset + limit < |scored|)
  }

  function Numbered(scored: seq<ScoredStore>): seq<Entry> {
    seq(|scored|, k requires 0 <= k < |scored| => Entry(k + 1, scored[k]))
  }

  /** What a reader sees who asks for the next page while there is more. */
  function Browse(scored: seq<ScoredStore>, offset: nat, limit: nat): seq<Entry>
    requires limit > 0
    decreases |scored| - offset
  {
    var page := PopularStores(scored, offset, limit);
    page.items + (if page.hasMore then Browse(scored, offset + limit, limit) else [])
  }

  lemma {:induction false} BrowseIsRest(scored: seq<ScoredStore>, offset: nat, limit: nat)
    requires limit > 0 && offset <= |scored|
    ensures Browse(scored, offset, limit) == Numbered(scored)[offset..]
    decreases |scored| - offset
  {
    var page := PopularStores(scored, offset, limit);
    if page.hasMore {
      BrowseIsRest(scored, offset + limit, limit);
      assert page.items == Numbered(scored)[offset..offset + limit];
      assert Numbered(scored)[offset..] == Numbered(scored)[offset..offset + limit] + Numbered(scored)[offset + limit..];
    } else {
      assert page.items == Numbered(scored)[offset..];
    }
  }

  /** The pages of any size join to the whole ranking, numbered from one, and every page but the last has more behind it. */
  lemma PagesAreTheRanking(scored: seq<ScoredStore>, limit: nat)
    requires limit > 0
    ensures Browse(scored, 0, limit) == Numbered(scored)
    ensures forall offset: nat :: PopularStores(scored, offset, limit).hasMore <==> PopularStores(scored, offset + limit, limit).items != []
    ensures forall offset: nat :: PopularStores(scored, offset, limit).totalCount == |scored| && |PopularStores(scored, offset, limit).items| <= limit
  {
    BrowseIsRest(scored, 0, limit);
  }
}
