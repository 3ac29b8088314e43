/** Public review listings of a product or a store: the queries, the printed LIKES cursor and the totals. */
module ReviewListing {
  import opened Wrappers
  import opened Decimal
  import opened KeysetPaging

  datatype ReviewRow = ReviewRow(productId: nat, storeId: nat, deleted: bool)
  datatype LikeRow = LikeRow(reviewId: nat, deleted: bool)
  datatype MediaRow = MediaRow(reviewId: nat, deleted: bool)
  datatype ProductRow = ProductRow(storeId: nat, active: bool, deleted: bool)
  datatype StoreRow = StoreRow(active: bool, deleted: bool)
  datatype Db = Db(
    reviews: map<nat, ReviewRow>, likes: map<nat, LikeRow>, media: map<nat, MediaRow>,
    products: map<nat, ProductRow>, stores: map<nat, StoreRow>)
  datatype Scope = OfProduct(productId: nat) | OfStore(storeId: nat)

  predicate StoreOpen(db: Db, s: nat) {
    s in db.stores && db.stores[s].active && !db.stores[s].deleted
  }

  predicate ProductOpen(db: Db, p: nat) {
    p in db.products && db.products[p].active && !db.products[p].deleted
  }

  predicate HasPhoto(db: Db, r: nat) {
    exists m :: m in db.media && db.media[m].reviewId == r && !db.media[m].deleted
  }

  predicate Live(db: Db, scope: Scope, photoOnly: bool, r: nat) {
    && r in db.reviews && !db.reviews[r].deleted
    && (photoOnly ==> HasPhoto(db, r))
    && match scope
       case OfProduct(p) => db.reviews[r].productId == p
       case OfStore(s) => db.reviews[r].storeId == s
  }

  /** The raw LIKES query joins the store through the product, for a product; through the review, for a store. */
  predicate LikesQueryShows(db: Db, scope: Scope, photoOnly: bool, r: nat) {
    Live(db, scope, photoOnly, r) &&
    match scope
    case OfProduct(p) => ProductOpen(db, p) && StoreOpen(db, db.products[p].storeId)
    case OfStore(s) => StoreOpen(db, s)
  }

  /** The shared guard of the LATEST query and of the totals looks at the store of the review. */
  predicate WhereShows(db: Db, scope: Scope, photoOnly: bool, r: nat) {
    Live(db, scope, photoOnly, r) &&
    (scope.OfProduct? ==> ProductOpen(db, scope.productId)) && StoreOpen(db, db.reviews[r].storeId)
  }

  function LikeCount(db: Db, r: nat): nat {
    |set l | l in db.likes && db.likes[l].reviewId == r && !db.likes[l].deleted|
  }

  function LikesKeys(db: Db, scope: Scope, photoOnly: bool): set<Key> {
    set r | r in db.reviews && LikesQueryShows(db, scope, photoOnly, r) :: Key(LikeCount(db, r), r)
  }

  /** ORDER BY id DESC with `id < cursor` is the same paging with every count at zero. */
  function LatestKeys(db: Db, scope: Scope, photoOnly: bool): set<Key> {
    set r | r in db.reviews && WhereShows(db, scope, photoOnly, r) :: Key(0, r)
  }

  function LikesShown(db: Db, scope: Scope, photoOnly: bool): set<nat> {
    set r | r in db.reviews && LikesQueryShows(db, scope, photoOnly, r)
  }

  function Shown(db: Db, scope: Scope, photoOnly: bool): set<nat> {
    set r | r in db.reviews && WhereShows(db, scope, photoOnly, r)
  }

  function CountReviews(db: Db, scope: Scope, photoOnly: bool): nat {
    |Shown(db, scope, photoOnly)|
  }

  function AliveIds(db: Db): set<nat> {
    set r | r in db.reviews && !db.reviews[r].deleted
  }

  /** One LIKES request reads its ids from one snapshot and the review bodies from a later one. */
  function LikesRequest(db: Db, later: Db, scope: Scope, photoOnly: bool): Request {
    Request(LikesKeys(db, scope, photoOnly), AliveIds(later))
  }

  function LatestRequest(db: Db, later: Db, scope: Scope, photoOnly: bool): Request {
    Request(LatestKeys(db, scope, photoOnly), AliveIds(later))
  }

  lemma QueriesAreGrouped(db: Db, scope: Scope, photoOnly: bool)
    ensures OneKeyPerReview(LikesKeys(db, scope, photoOnly)) && OneKeyPerReview(LatestKeys(db, scope, photoOnly))
  {
  }

  /** Which reviews each query lists, in terms of the rows. */
  lemma WhatIsListed(db: Db, scope: Scope, photoOnly: bool, r: nat)
    ensures var photo := exists m :: m in db.media && db.media[m].reviewId == r && !db.media[m].deleted;
            var listed := r in db.reviews && !db.reviews[r].deleted && (photoOnly ==> photo);
            && (scope.OfProduct? ==>
                  var p := scope.productId;
                  var open := p in db.products && db.products[p].active && !db.products[p].deleted;
                  && (r in LikesShown(db, scope, photoOnly) <==>
                        listed && open && db.reviews[r].productId == p && OpenStore(db, db.products[p].storeId))
                  && (r in Shown(db, scope, photoOnly) <==>
                        listed && open && db.reviews[r].productId == p && OpenStore(db, db.reviews[r].storeId)))
            && (scope.OfStore? ==>
                  && (r in LikesShown(db, scope, photoOnly) <==> listed && db.reviews[r].storeId == scope.storeId && OpenStore(db, scope.storeId))
                  && LikesShown(db, scope, photoOnly) == Shown(db, scope, photoOnly))
            && (r in AliveIds(db) <==> r in db.reviews && !db.reviews[r].deleted)
  {
    if scope.OfStore? {
      assert forall x :: x in LikesShown(db, scope, photoOnly) <==> x in Shown(db, scope, photoOnly);
    }
  }

  predicate OpenStore(db: Db, s: nat) {
    s in db.stores && StoreRow(true, false) == db.stores[s]
  }

  // ---------- the cursor token ----------

  const MAX_SAFE_INTEGER := 9_007_199_254_740_991

  function PrintLikesCursor(k: Key): string {
    Print(k.likes) + ":" + Print(k.id)
  }

  function IndexOf(s: string, c: char): (i: nat)
    ensures i <= |s| && (forall j :: 0 <= j < i ==> s[j] != c) && (i < |s| ==> s[i] == c)
  {
    if s == [] || s[0] == c then 0 else 1 + IndexOf(s[1..], c)
  }

  /** Digits, a colon, digits, and a like count that a double holds exactly. */
  function ParseLikesCursor(raw: string): Option<Key> {
    var i := IndexOf(raw, ':');
    if i == 0 || i + 1 >= |raw| || !AllDigits(raw[..i]) || !AllDigits(raw[i + 1..]) then None
    else if Value(raw[..i]) > MAX_SAFE_INTEGER then None
    else Some(Key(Value(raw[..i]), Value(raw[i + 1..])))
  }

  /** A cursor is digits, a colon and digits, with a count of at most 2^53 - 1, and is read as those two numbers. */
  lemma CursorParsesIff(raw: string, k: Key)
    ensures ParseLikesCursor(raw) == Some(k) <==> exists i :: 0 < i < |raw| - 1 && CursorAt(raw, i, k)
  {
    var n := IndexOf(raw, ':');
    if exists i :: 0 < i < |raw| - 1 && CursorAt(raw, i, k) {
      var i :| 0 < i < |raw| - 1 && CursorAt(raw, i, k);
      assert forall j :: 0 <= j < i ==> raw[j] == raw[..i][j] && IsDigit(raw[j]);
      assert n == i;
    }
    if ParseLikesCursor(raw) == Some(k) { assert CursorAt(raw, n, k); }
  }

  predicate CursorAt(raw: string, i: int, k: Key)
    requires 0 < i < |raw| - 1
  {
    && raw[i] == ':' && AllDigits(raw[..i]) && AllDigits(raw[i + 1..])
    && k == Key(Value(raw[..i]), Value(raw[i + 1..])) && k.likes <= 9_007_199_254_740_991
  }

  /** A printed cursor parses back to itself exactly when its like count is a safe integer. */
  lemma CursorRoundTrip(k: Key)
    ensures ParseLikesCursor(PrintLikesCursor(k)) == if k.likes <= 9_007_199_254_740_991 then Some(k) else None
  {
    var s, i := PrintLikesCursor(k), |Print(k.likes)|;
    assert s[i] == ':';
    assert forall j :: 0 <= j < i ==> s[j] == Print(k.likes)[j] && IsDigit(s[j]);
    assert IndexOf(s, ':') == i;
    assert s[..i] == Print(k.likes) && s[i + 1..] == Print(k.id);
    PrintReads(k.likes);
    PrintReads(k.id);
  }

  datatype IdPage = IdPage(ids: seq<nat>, hasMore: bool, nextCursor: Option<string>)

  /** The LIKES page as the service answers it, with the cursor as a string; an empty string counts as none. */
  ghost function FetchReviewIdPage(keys: set<Key>, limit: nat, cursorRaw: Option<string>): Option<IdPage>
    requires limit >= 1
  {
    if cursorRaw.Some? && cursorRaw.value != "" && ParseLikesCursor(cursorRaw.value).None? then None
    else
      var cursor := if cursorRaw.None? || cursorRaw.value == "" then None else ParseLikesCursor(cursorRaw.value);
      var p := FetchPage(keys, cursor, limit);
      Some(IdPage(Ids(p.rows), p.hasMore, if p.next.Some? then Some(PrintLikesCursor(p.next.value)) else None))
  }

  /** No cursor and an empty one ask for the first page; any other must parse, and an unreadable one is refused. */
  lemma CursorAnswers(keys: set<Key>, limit: nat, raw: string)
    requires limit >= 1
    ensures FetchReviewIdPage(keys, limit, None).Some?
    ensures FetchReviewIdPage(keys, limit, Some("")) == FetchReviewIdPage(keys, limit, None)
    ensures raw != "" ==> (FetchReviewIdPage(keys, limit, Some(raw)).None? <==> ParseLikesCursor(raw).None?)
    ensures raw != "" && ParseLikesCursor(raw).Some? ==>
              FetchReviewIdPage(keys, limit, Some(raw)).value.ids == Ids(FetchPage(keys, ParseLikesCursor(raw), limit).rows)
    ensures FetchReviewIdPage(keys, limit, None).value.ids == Ids(FetchPage(keys, None, limit).rows)
  {
    hide FetchPage, ParseLikesCursor, Ids;
  }

  function HydrateIds(ids: seq<nat>, alive: set<nat>): seq<nat> {
    if ids == [] then [] else (if ids[0] in alive then [ids[0]] else []) + HydrateIds(ids[1..], alive)
  }

  /** What a client sees that follows `nextCursor` until there is none. */
  ghost function WalkByToken(reqs: seq<Request>, limit: nat, cursorRaw: Option<string>): Option<seq<nat>>
    requires limit >= 1
  {
    if reqs == [] then Some([])
    else
      var page := FetchReviewIdPage(reqs[0].keys, limit, cursorRaw);
      if page.None? then None
      else
        var ids := HydrateIds(page.value.ids, reqs[0].alive);
        if page.value.nextCursor.None? then Some(ids)
        else
          var rest := WalkByToken(reqs[1..], limit, page.value.nextCursor);
          if rest.None? then None else Some(ids + rest.value)
  }

  ghost predicate SafeCounts(reqs: seq<Request>) {
    forall i, k :: 0 <= i < |reqs| && k in reqs[i].keys ==> k.likes <= MAX_SAFE_INTEGER
  }

  function Token(cursor: Option<Key>): Option<string> {
    if cursor.None? then None else Some(PrintLikesCursor(cursor.value))
  }

  lemma {:induction false} HydrateIdsOfRows(rows: seq<Key>, alive: set<nat>)
    ensures HydrateIds(Ids(rows), alive) == Hydrate(rows, alive)
  {
    if rows != [] {
      HydrateIdsOfRows(rows[1..], alive);
      assert Ids(rows)[1..] == Ids(rows[1..]);
    }
  }

  /** Passing the cursor through its printed token changes nothing, so every traversal law holds for clients. */
  lemma {:induction false} TokensCarryTheCursor(reqs: seq<Request>, limit: nat, cursor: Option<Key>)
    requires limit >= 1 && SafeCounts(reqs)
    requires cursor.Some? ==> cursor.value.likes <= MAX_SAFE_INTEGER
    ensures WalkByToken(reqs, limit, Token(cursor)) == Some(Walk(reqs, limit, cursor))
  {
    hide FetchPage, PrintLikesCursor, ParseLikesCursor, Hydrate, HydrateIds, Ids;
    if reqs != [] {
      if cursor.Some? {
        CursorRoundTrip(cursor.value);
        TokenNotEmpty(cursor.value);
      }
      var p := FetchPage(reqs[0].keys, cursor, limit);
      PageMeaning(reqs[0].keys, cursor, limit);
      HydrateIdsOfRows(p.rows, reqs[0].alive);
      var page := FetchReviewIdPage(reqs[0].keys, limit, Token(cursor));
      assert page == Some(IdPage(Ids(p.rows), p.hasMore, Token(p.next)));
      var ids := Hydrate(p.rows, reqs[0].alive);
      assert ids + [] == ids;
      if p.hasMore {
        assert p.next.value.likes <= MAX_SAFE_INTEGER;
        assert forall i, k :: 0 <= i < |reqs[1..]| && k in reqs[1..][i].keys ==> k in reqs[i + 1].keys;
        TokensCarryTheCursor(reqs[1..], limit, p.next);
      }
    }
  }

  lemma TokenNotEmpty(k: Key)
    ensures PrintLikesCursor(k) != ""
  {
  }

  // ---------- what the LIKES order counts ----------

  /** Whether a like row counts for review `r`. */
  predicate Counts(row: LikeRow, r: nat) {
    row.reviewId == r && !row.deleted
  }

  /** `s` are the live like rows of review `r`. */
  ghost predicate LiveLikes(db: Db, r: nat, s: set<nat>) {
    forall l: nat :: l in s <==> l in db.likes && db.likes[l].reviewId == r && !db.likes[l].deleted
  }

  lemma CountOfSet(db: Db, r: nat, s: set<nat>)
    requires LiveLikes(db, r, s)
    ensures LikeCount(db, r) == |s|
  {
    assert s == set l | l in db.likes && db.likes[l].reviewId == r && !db.likes[l].deleted;
  }

  lemma NoLikesCountZero(db: Db, r: nat)
    requires forall l: nat :: l in db.likes ==> db.likes[l].reviewId != r
    ensures LikeCount(db, r) == 0
  {
    CountOfSet(db, r, {});
  }

  /**
    * Writing like row `l` moves the count of a review by one exactly when the row starts or stops to count for
    * it: a new or revived like adds one, an unlike takes one away, a deleted row changes nothing.
    */
  lemma LikeWriteMovesCount(db: Db, l: nat, row: LikeRow, r: nat)
    ensures var u := db.(likes := db.likes[l := row]);
            LikeCount(u, r) == LikeCount(db, r)
              + (if row.reviewId == r && !row.deleted then 1 else 0)
              - (if l in db.likes && db.likes[l].reviewId == r && !db.likes[l].deleted then 1 else 0)
  {
    var u := db.(likes := db.likes[l := row]);
    var others := set k | k in db.likes && k != l && Counts(db.likes[k], r);
    LiveLikesSplit(db, l, r, others);
    LiveLikesSplit(u, l, r, others);
    hide LikeCount, LiveLikes;
    WithOneMore(others, l, l in db.likes && Counts(db.likes[l], r));
    WithOneMore(others, l, Counts(row, r));
    CountOfSet(db, r, others + (if l in db.likes && Counts(db.likes[l], r) then {l} else {}));
    CountOfSet(u, r, others + (if Counts(row, r) then {l} else {}));
  }

  lemma LiveLikesSplit(db: Db, l: nat, r: nat, others: set<nat>)
    requires forall k: nat :: k in others <==> k in db.likes && k != l && Counts(db.likes[k], r)
    ensures LiveLikes(db, r, others + (if l in db.likes && Counts(db.likes[l], r) then {l} else {}))
  {
  }

  lemma WithOneMore(s: set<nat>, l: nat, more: bool)
    requires l !in s
    ensures |s + (if more then {l} else {})| == |s| + (if more then 1 else 0)
  {
    if !more { assert s + {} == s; }
  }

  /**
   * A page takes order and cursor from the first read, and leaves out just the reviews that are deleted by the
   * second; between the reads anything may change.
   */
  lemma PageOfTwoReads(db: Db, later: Db, scope: Scope, photoOnly: bool, limit: nat, cursor: Option<Key>, x: nat)
    requires limit >= 1
    ensures var likes := FetchPage(LikesKeys(db, scope, photoOnly), cursor, limit).rows;
            var latest := FetchPage(LatestKeys(db, scope, photoOnly), cursor, limit).rows;
            var kept := x in later.reviews && !later.reviews[x].deleted;
            && Occurrences(Walk([LikesRequest(db, later, scope, photoOnly)], limit, cursor), x)
               == (if kept && (exists k :: k in likes && k.id == x) then 1 else 0)
            && Occurrences(Walk([LatestRequest(db, later, scope, photoOnly)], limit, cursor), x)
               == (if kept && (exists k :: k in latest && k.id == x) then 1 else 0)
  {
    hide LikesKeys, LatestKeys, FetchPage, Hydrate, OneKeyPerReview;
    QueriesAreGrouped(db, scope, photoOnly);
    PageCount(LikesRequest(db, later, scope, photoOnly), cursor, limit, x);
    PageCount(LatestRequest(db, later, scope, photoOnly), cursor, limit, x);
  }

  /** The finished LIKES walk of an unchanged database goes down in live like rows, and in ids among equals. */
  lemma LikesWalkDescends(db: Db, scope: Scope, photoOnly: bool, limit: nat, n: nat, i: nat, j: nat, a: set<nat>, b: set<nat>)
    requires limit >= 1 && n >= 1 && n * limit >= |LikesShown(db, scope, photoOnly)|
    ensures var ids := Walk(Repeat(LikesRequest(db, db, scope, photoOnly), n), limit, None);
            i < j < |ids| && LiveLikes(db, ids[i], a) && LiveLikes(db, ids[j], b) ==>
              |a| > |b| || (|a| == |b| && ids[i] > ids[j])
  {
    hide LikesQueryShows, LikeCount, SortDesc, Ids, Walk, Finished, Shows, OneKeyPerReview, LiveLikes;
    QueriesAreGrouped(db, scope, photoOnly);
    ShowsLikes(db, scope, photoOnly);
    StaticListing(LikesRequest(db, db, scope, photoOnly), LikesShown(db, scope, photoOnly), limit, n);
    var keys := LikesKeys(db, scope, photoOnly);
    var q := SortDesc(keys);
    SortDescSorts(keys);
    IdsLength(q);
    if i < j < |q| {
      IdsAt(q, i);
      IdsAt(q, j);
      assert q[i] in keys && q[j] in keys && Below(q[j], q[i]);
      if LiveLikes(db, q[i].id, a) && LiveLikes(db, q[j].id, b) {
        CountOfSet(db, q[i].id, a);
        CountOfSet(db, q[j].id, b);
      }
    }
  }

  lemma {:induction false} IdsAt(q: seq<Key>, i: nat)
    requires i < |q|
    ensures |Ids(q)| == |q| && Ids(q)[i] == q[i].id
    decreases |q|
  {
    IdsLength(q);
    if i > 0 { IdsAt(q[1..], i - 1); }
  }

  // ---------- LIKES, LATEST and the total agree ----------

  /** For a listed product the two guards look at two stores; they agree if each review's store is open when the product's is. */
  predicate GuardsAgree(db: Db, scope: Scope, photoOnly: bool) {
    scope.OfProduct? && ProductOpen(db, scope.productId) ==>
      forall r :: r in db.reviews && Live(db, scope, photoOnly, r) ==>
        (StoreOpen(db, db.products[scope.productId].storeId) <==> StoreOpen(db, db.reviews[r].storeId))
  }

  /** The LIKES query and the LATEST query show the same reviews exactly when the guards agree. */
  lemma SameReviewsIff(db: Db, scope: Scope, photoOnly: bool)
    ensures GuardsAgree(db, scope, photoOnly) <==> LikesShown(db, scope, photoOnly) == Shown(db, scope, photoOnly)
  {
    hide HasPhoto, StoreOpen, ProductOpen;
    var likes, shown := LikesShown(db, scope, photoOnly), Shown(db, scope, photoOnly);
    if likes == shown {
      forall r | r in db.reviews && Live(db, scope, photoOnly, r)
        ensures LikesQueryShows(db, scope, photoOnly, r) <==> WhereShows(db, scope, photoOnly, r)
      {
        assert r in likes <==> r in shown;
      }
    } else {
      var r :| r in db.reviews && !(r in likes <==> r in shown);
      assert Live(db, scope, photoOnly, r);
    }
  }

  /** A review that carries another, closed store: LIKES lists it, LATEST and the total leave it out. */
  lemma QueriesCanDiffer()
    ensures var db := Db(map[5 := ReviewRow(1, 11, false)], map[], map[], map[1 := ProductRow(10, true, false)],
                         map[10 := StoreRow(true, false), 11 := StoreRow(false, false)]);
            && LikesShown(db, OfProduct(1), false) == {5} && Shown(db, OfProduct(1), false) == {}
            && !GuardsAgree(db, OfProduct(1), false)
  {
    var db := Db(map[5 := ReviewRow(1, 11, false)], map[], map[], map[1 := ProductRow(10, true, false)],
                 map[10 := StoreRow(true, false), 11 := StoreRow(false, false)]);
    assert LikesQueryShows(db, OfProduct(1), false, 5) && !WhereShows(db, OfProduct(1), false, 5);
    SameReviewsIff(db, OfProduct(1), false);
  }

  /** Ids of a listing, as a bag, are the listed reviews, one each. */
  lemma ListingBag(keys: set<Key>, ids: set<nat>)
    requires OneKeyPerReview(keys)
    requires forall k :: k in keys ==> k.id in ids
    requires forall x :: x in ids ==> Shows(keys, x)
    ensures multiset(Ids(SortDesc(keys))) == multiset(ids)
  {
    hide SortDesc, Ids;
    var q := SortDesc(keys);
    SortDescSorts(keys);
    HydrateAllAlive(q, ids);
    forall x ensures multiset(Ids(q))[x] == multiset(ids)[x] {
      HydrateCount(q, ids, x);
      if x in ids {
        assert Shows(keys, x);
        var k :| k in keys && k.id == x;
        assert k in q;
      }
    }
  }

  lemma ShowsLikes(db: Db, scope: Scope, photoOnly: bool)
    ensures var keys := LikesKeys(db, scope, photoOnly);
            && (forall k :: k in keys ==> k.id in LikesShown(db, scope, photoOnly) && k.id in AliveIds(db))
            && (forall x :: x in LikesShown(db, scope, photoOnly) ==> Shows(keys, x))
  {
    hide LikeCount, StoreOpen, HasPhoto;
    forall x | x in LikesShown(db, scope, photoOnly) ensures Shows(LikesKeys(db, scope, photoOnly), x) {
      assert Key(LikeCount(db, x), x) in LikesKeys(db, scope, photoOnly);
    }
  }

  lemma ShowsLatest(db: Db, scope: Scope, photoOnly: bool)
    ensures var keys := LatestKeys(db, scope, photoOnly);
            && (forall k :: k in keys ==> k.id in Shown(db, scope, photoOnly) && k.id in AliveIds(db))
            && (forall x :: x in Shown(db, scope, photoOnly) ==> Shows(keys, x))
  {
    hide StoreOpen, ProductOpen, HasPhoto;
    forall x | x in Shown(db, scope, photoOnly) ensures Shows(LatestKeys(db, scope, photoOnly), x) {
      assert Key(0, x) in LatestKeys(db, scope, photoOnly);
    }
  }

  ghost function Repeat(req: Request, n: nat): seq<Request> {
    seq(n, _ => req)
  }

  lemma SameBagIff(s: set<nat>, t: set<nat>)
    ensures multiset(s) == multiset(t) <==> s == t
  {
    if multiset(s) == multiset(t) {
      forall x ensures x in s <==> x in t { assert multiset(s)[x] == multiset(t)[x]; }
    }
  }

  /**
   * On an unchanged database a finished LIKES traversal is its whole listing sorted by likes then id, a finished
   * LATEST traversal the counted reviews sorted by id; each is a permutation of the other iff the guards agree.
   */
  lemma StaticTraversals(db: Db, scope: Scope, photoOnly: bool, limit: nat, n: nat)
    requires limit >= 1 && n >= 1
    requires n * limit >= CountReviews(db, scope, photoOnly) && n * limit >= |LikesShown(db, scope, photoOnly)|
    ensures var likes := Walk(Repeat(LikesRequest(db, db, scope, photoOnly), n), limit, None);
            var latest := Walk(Repeat(LatestRequest(db, db, scope, photoOnly), n), limit, None);
            && Finished(Repeat(LikesRequest(db, db, scope, photoOnly), n), limit, None)
            && Finished(Repeat(LatestRequest(db, db, scope, photoOnly), n), limit, None)
            && likes == Ids(SortDesc(LikesKeys(db, scope, photoOnly)))
            && latest == Ids(SortDesc(LatestKeys(db, scope, photoOnly)))
            && multiset(latest) == multiset(Shown(db, scope, photoOnly)) && |latest| == CountReviews(db, scope, photoOnly)
            && multiset(likes) == multiset(LikesShown(db, scope, photoOnly))
            && (multiset(likes) == multiset(latest) <==> GuardsAgree(db, scope, photoOnly))
  {
    hide LikesQueryShows, WhereShows, LikeCount, SortDesc, Ids, Walk, Finished, Shows, OneKeyPerReview, GuardsAgree;
    QueriesAreGrouped(db, scope, photoOnly);
    ShowsLikes(db, scope, photoOnly);
    ShowsLatest(db, scope, photoOnly);
    SameReviewsIff(db, scope, photoOnly);
    SameBagIff(LikesShown(db, scope, photoOnly), Shown(db, scope, photoOnly));
    StaticListing(LikesRequest(db, db, scope, photoOnly), LikesShown(db, scope, photoOnly), limit, n);
    StaticListing(LatestRequest(db, db, scope, photoOnly), Shown(db, scope, photoOnly), limit, n);
  }

  lemma StaticListing(req: Request, shown: set<nat>, limit: nat, n: nat)
    requires limit >= 1 && n >= 1 && n * limit >= |shown| && OneKeyPerReview(req.keys)
    requires forall k :: k in req.keys ==> k.id in shown && k.id in req.alive
    requires forall x :: x in shown ==> Shows(req.keys, x)
    ensures Finished(Repeat(req, n), limit, None)
    ensures Walk(Repeat(req, n), limit, None) == Ids(SortDesc(req.keys))
    ensures multiset(Walk(Repeat(req, n), limit, None)) == multiset(shown)
    ensures |Walk(Repeat(req, n), limit, None)| == |shown|
  {
    hide SortDesc, Ids, Walk, Finished, Shows, OneKeyPerReview;
    var q := SortDesc(req.keys);
    assert Remaining(req.keys, None) == req.keys;
    ListingBag(req.keys, shown);
    SortDescSorts(req.keys);
    IdsLength(q);
    assert |Ids(q)| == |multiset(Ids(q))| == |shown|;
    StaticFinishes(Repeat(req, n), req.keys, limit, None);
    StaticWalk(Repeat(req, n), req.keys, limit, None);
  }

  lemma {:induction false} IdsLength(q: seq<Key>)
    ensures |Ids(q)| == |q|
  {
    if q != [] { IdsLength(q[1..]); }
  }
}
