/**
 * Reviews, their media and their comments: soft-deleted rows of which the review row is later restored.
 *
 * `Apply` says what each committed transaction does to the tables as a whole; the class executes the
 * repository's statements one after the other and is proved against it.
 */
module ReviewTables {
  import opened Wrappers

  datatype MediaKind = Image | Video
  datatype MediaInput = MediaInput(kind: MediaKind, url: string)

  datatype Review = Review(orderItemId: nat, accountId: nat, productId: nat, content: string, active: bool)
  datatype Product = Product(storeId: nat, active: bool, deleted: bool)
  datatype Store = Store(active: bool, deleted: bool)
  datatype Media = Media(reviewId: nat, input: MediaInput, sortOrder: nat, active: bool)
  datatype Comment = Comment(reviewId: nat, accountId: nat, content: string, active: bool)

  datatype Tables = Tables(reviews: map<nat, Review>, media: map<nat, Media>, comments: map<nat, Comment>)

  /** A committed write. New rows carry the ids the database gave them; media ids are consecutive. */
  datatype Write =
    | CommentAdded(commentId: nat, reviewId: nat, accountId: nat, content: string)
    | CommentDropped(commentId: nat)
    | ReviewDeleted(reviewId: nat, accountId: nat)
    | ReviewRestored(reviewId: nat, content: string, inputs: seq<MediaInput>, firstMediaId: nat)
    | ReviewCreated(reviewId: nat, review: Review, inputs: seq<MediaInput>, firstMediaId: nat)

  predicate Live(t: Tables, r: nat) {
    r in t.reviews && t.reviews[r].active
  }

  function MediaOff(media: map<nat, Media>, ids: set<nat>): map<nat, Media> {
    map m | m in media :: if m in ids then media[m].(active := false) else media[m]
  }

  function CommentsOff(comments: map<nat, Comment>, ids: set<nat>): map<nat, Comment> {
    map c | c in comments :: if c in ids then comments[c].(active := false) else comments[c]
  }

  function MediaOf(t: Tables, r: nat): set<nat> {
    set m | m in t.media && t.media[m].reviewId == r
  }

  function CommentsOf(t: Tables, r: nat): set<nat> {
    set c | c in t.comments && t.comments[c].reviewId == r
  }

  function ActiveMediaOf(t: Tables, r: nat): set<nat> {
    set m | m in t.media && t.media[m].reviewId == r && t.media[m].active
  }

  function ActiveCommentsOf(t: Tables, r: nat): set<nat> {
    set c | c in t.comments && t.comments[c].reviewId == r && t.comments[c].active
  }

  predicate InRun(m: nat, first: nat, n: nat) {
    first <= m < first + n
  }

  /** `n` consecutive ids from `first`. */
  function IdRun(first: nat, n: nat): set<nat> {
    set m | first <= m < first + n && InRun(m, first, n)
  }

  function NewMedia(r: nat, inputs: seq<MediaInput>, first: nat): map<nat, Media> {
    map m | m in IdRun(first, |inputs|) :: Media(r, inputs[m - first], m - first, true)
  }

  function Apply(t: Tables, w: Write): Tables {
    match w
    case CommentAdded(c, r, a, content) =>
      if Live(t, r) then t.(comments := t.comments[c := Comment(r, a, content, true)]) else t
    case CommentDropped(c) =>
      t.(comments := CommentsOff(t.comments, {c}))
    case ReviewDeleted(r, a) =>
      if Live(t, r) && t.reviews[r].accountId == a then
        Tables(t.reviews[r := t.reviews[r].(active := false)],
               MediaOff(t.media, MediaOf(t, r)), CommentsOff(t.comments, CommentsOf(t, r)))
      else t
    case ReviewRestored(r, content, inputs, first) =>
      if r in t.reviews then
        t.(reviews := t.reviews[r := t.reviews[r].(content := content, active := true)],
           media := MediaOff(t.media, MediaOf(t, r)) + NewMedia(r, inputs, first))
      else t
    case ReviewCreated(r, review, inputs, first) =>
      if r !in t.reviews then
        t.(reviews := t.reviews[r := review.(active := true)], media := t.media + NewMedia(r, inputs, first))
      else t
  }

  function ApplyAll(t: Tables, log: seq<Write>): Tables {
    if log == [] then t else Apply(ApplyAll(t, log[..|log| - 1]), log[|log| - 1])
  }

  // ---------- what every history keeps ----------

  /** No active comment and no active media hangs on a review that is not live. */
  predicate Safe(t: Tables) {
    && (forall c :: c in t.comments && t.comments[c].active ==> Live(t, t.comments[c].reviewId))
    && (forall m :: m in t.media && t.media[m].active ==> Live(t, t.media[m].reviewId))
  }

  lemma ApplyKeepsSafe(t: Tables, w: Write)
    requires Safe(t)
    ensures Safe(Apply(t, w))
  {
  }

  lemma {:induction false} HistoryKeepsSafe(t: Tables, log: seq<Write>)
    requires Safe(t)
    ensures Safe(ApplyAll(t, log))
  {
    if log != [] {
      HistoryKeepsSafe(t, log[..|log| - 1]);
      ApplyKeepsSafe(ApplyAll(t, log[..|log| - 1]), log[|log| - 1]);
    }
  }

  /** Ids are handed out once: a new row never takes the id of an existing one. */
  predicate FreshIds(t: Tables, w: Write) {
    match w
    case CommentAdded(c, _, _, _) => c !in t.comments
    case ReviewRestored(_, _, inputs, first) => IdRun(first, |inputs|) !! t.media.Keys
    case ReviewCreated(_, _, inputs, first) => IdRun(first, |inputs|) !! t.media.Keys
    case _ => true
  }

  predicate FreshLog(t: Tables, log: seq<Write>) {
    log == [] || (FreshLog(t, log[..|log| - 1]) && FreshIds(ApplyAll(t, log[..|log| - 1]), log[|log| - 1]))
  }

  lemma CommentStaysOff(t: Tables, w: Write, c: nat)
    requires FreshIds(t, w) && c in t.comments
    ensures var u := Apply(t, w);
            && c in u.comments && u.comments[c].reviewId == t.comments[c].reviewId
            && (u.comments[c].active ==> t.comments[c].active)
  {
  }

  /** A comment row, once inactive, is never active again. */
  lemma {:induction false} CommentsStayOff(t: Tables, log: seq<Write>, j: nat, c: nat)
    requires j <= |log| && FreshLog(t, log) && c in ApplyAll(t, log[..j]).comments
    ensures var before, after := ApplyAll(t, log[..j]), ApplyAll(t, log);
            && c in after.comments && after.comments[c].reviewId == before.comments[c].reviewId
            && (after.comments[c].active ==> before.comments[c].active)
  {
    if j == |log| {
      assert log[..j] == log;
    } else {
      hide Apply, FreshIds;
      var init := log[..|log| - 1];
      assert init[..j] == log[..j];
      CommentsStayOff(t, init, j, c);
      CommentStaysOff(ApplyAll(t, init), log[|log| - 1], c);
    }
  }

  /**
   * Every comment that is active at the end was inserted after its review's latest re-activation: at the
   * moment a restore brings review `r` back, none of the finally active comments of `r` exists yet.
   */
  lemma NoZombieComments(t: Tables, log: seq<Write>, j: nat, c: nat)
    requires Safe(t) && FreshLog(t, log) && j < |log|
    requires log[j].ReviewRestored? && !Live(ApplyAll(t, log[..j]), log[j].reviewId)
    requires c in ApplyAll(t, log).comments && ApplyAll(t, log).comments[c].active
    requires ApplyAll(t, log).comments[c].reviewId == log[j].reviewId
    ensures c !in ApplyAll(t, log[..j]).comments
  {
    hide ApplyAll, FreshLog;
    HistoryKeepsSafe(t, log[..j]);
    if c in ApplyAll(t, log[..j]).comments {
      CommentsStayOff(t, log, j, c);
    }
  }

  // ---------- what each write changes, row by row ----------

  /** The write drops comment `c` itself, or is the deletion of its review by the review's author. */
  predicate EndsComment(t: Tables, w: Write, c: nat)
    requires c in t.comments
  {
    match w
    case CommentDropped(d) => d == c
    case ReviewDeleted(r, a) =>
      t.comments[c].reviewId == r && r in t.reviews && t.reviews[r].active && t.reviews[r].accountId == a
    case _ => false
  }

  /** No write touches a comment, but for switching it off when it is dropped or its own review is deleted. */
  lemma WriteOnComment(t: Tables, w: Write, c: nat)
    requires FreshIds(t, w) && c in t.comments
    ensures c in Apply(t, w).comments
    ensures Apply(t, w).comments[c] == if EndsComment(t, w, c) then t.comments[c].(active := false) else t.comments[c]
  {
    hide IdRun;
  }

  /** A comment active at some point keeps its row, content and all, until one of these two things happens to it. */
  lemma {:induction false} CommentStays(t: Tables, log: seq<Write>, j: nat, c: nat)
    requires j <= |log| && FreshLog(t, log) && c in ApplyAll(t, log[..j]).comments
    requires forall k :: j <= k < |log| && c in ApplyAll(t, log[..k]).comments ==> !EndsComment(ApplyAll(t, log[..k]), log[k], c)
    ensures c in ApplyAll(t, log).comments && ApplyAll(t, log).comments[c] == ApplyAll(t, log[..j]).comments[c]
  {
    if j == |log| {
      assert log[..j] == log;
    } else {
      hide Apply, FreshIds, EndsComment;
      var init := log[..|log| - 1];
      assert init[..j] == log[..j];
      forall k | j <= k < |init| && c in ApplyAll(t, init[..k]).comments ensures !EndsComment(ApplyAll(t, init[..k]), init[k], c) {
        assert init[..k] == log[..k];
      }
      CommentStays(t, init, j, c);
      WriteOnComment(ApplyAll(t, init), log[|log| - 1], c);
    }
  }

  /** An added comment is a new active row with its author and text; nothing else changes. */
  lemma AddedComment(t: Tables, c: nat, r: nat, a: nat, content: string)
    requires c !in t.comments
    ensures var u, live := Apply(t, CommentAdded(c, r, a, content)), r in t.reviews && t.reviews[r].active;
            && u.reviews == t.reviews && u.media == t.media
            && (c in u.comments <==> live) && (live ==> u.comments[c] == Comment(r, a, content, true))
            && (forall d :: d != c ==> (d in u.comments <==> d in t.comments) && (d in t.comments ==> u.comments[d] == t.comments[d]))
  {
  }

  /** A deletion switches off the review and its media, and touches no other review and no other media. */
  lemma DeletedReview(t: Tables, r: nat, a: nat)
    requires r in t.reviews && t.reviews[r].active && t.reviews[r].accountId == a
    ensures var u := Apply(t, ReviewDeleted(r, a));
            && u.reviews == t.reviews[r := t.reviews[r].(active := false)] && u.media.Keys == t.media.Keys
            && (forall m :: m in t.media ==>
                  u.media[m] == if t.media[m].reviewId == r then t.media[m].(active := false) else t.media[m])
  {
  }

  /** A deletion by someone else, or of a review that is not live, changes nothing. */
  lemma RefusedDeletion(t: Tables, r: nat, a: nat)
    requires r !in t.reviews || !t.reviews[r].active || t.reviews[r].accountId != a
    ensures Apply(t, ReviewDeleted(r, a)) == t
  {
  }

  /** A rewrite switches the review on with its new text, keeps its author, item and product, and touches no comment. */
  lemma RestoredReview(t: Tables, r: nat, content: string, inputs: seq<MediaInput>, first: nat)
    requires r in t.reviews && FreshIds(t, ReviewRestored(r, content, inputs, first))
    ensures var u := Apply(t, ReviewRestored(r, content, inputs, first));
            && u.reviews == t.reviews[r := t.reviews[r].(content := content, active := true)] && u.comments == t.comments
            && (forall m :: m in t.media ==> m in u.media)
            && (forall m :: m in t.media ==>
                  u.media[m] == if t.media[m].reviewId == r then t.media[m].(active := false) else t.media[m])
            && (forall m :: m in u.media && m !in t.media ==> u.media[m].reviewId == r)
  {
    hide IdRun;
  }

  // ---------- an active review shows exactly its latest write's media ----------

  /** Whether this write gives review `r` a new media list. */
  predicate Writes(t: Tables, w: Write, r: nat) {
    || (w.ReviewRestored? && w.reviewId == r && r in t.reviews)
    || (w.ReviewCreated? && w.reviewId == r && r !in t.reviews)
  }

  /** The latest write or rewrite of review `r`. */
  function LatestWrite(t: Tables, log: seq<Write>, r: nat): (w: Option<Write>)
    ensures w.Some? ==> (w.value.ReviewRestored? || w.value.ReviewCreated?) && w.value in log
  {
    if log == [] then None
    else if Writes(ApplyAll(t, log[..|log| - 1]), log[|log| - 1], r) then Some(log[|log| - 1])
    else LatestWrite(t, log[..|log| - 1], r)
  }

  /** The active media of `r` are exactly the list, in order, with sort_order 0 .. k-1. */
  predicate ShowsList(t: Tables, r: nat, inputs: seq<MediaInput>, first: nat) {
    && ActiveMediaOf(t, r) == IdRun(first, |inputs|)
    && forall m :: m in IdRun(first, |inputs|) ==> t.media[m] == Media(r, inputs[m - first], m - first, true)
  }

  lemma {:induction false} LiveReviewShowsLatestList(t: Tables, log: seq<Write>, r: nat)
    requires FreshLog(t, log) && Safe(t) && t.reviews == map[]
    ensures Live(ApplyAll(t, log), r) ==>
              var w := LatestWrite(t, log, r);
              w.Some? && ShowsList(ApplyAll(t, log), r, w.value.inputs, w.value.firstMediaId)
  {
    if log != [] {
      hide Apply, FreshIds, ShowsList, Live, Writes;
      var before, w := ApplyAll(t, log[..|log| - 1]), log[|log| - 1];
      LiveReviewShowsLatestList(t, log[..|log| - 1], r);
      HistoryKeepsSafe(t, log[..|log| - 1]);
      if Writes(before, w, r) {
        WriteShowsItsList(before, w, r);
      } else if Live(Apply(before, w), r) {
        var latest := LatestWrite(t, log[..|log| - 1], r);
        OtherWriteKeepsLive(before, w, r);
        OtherWriteKeepsList(before, w, r, latest.value.inputs, latest.value.firstMediaId);
      }
    } else {
      assert !Live(t, r);
    }
  }

  lemma WriteShowsItsList(before: Tables, w: Write, r: nat)
    requires Writes(before, w, r) && FreshIds(before, w)
    requires Safe(before)
    ensures ShowsList(Apply(before, w), r, w.inputs, w.firstMediaId)
  {
  }

  lemma OtherWriteKeepsLive(before: Tables, w: Write, r: nat)
    requires !Writes(before, w, r) && Live(Apply(before, w), r)
    ensures Live(before, r)
  {
  }

  lemma OtherWriteKeepsList(before: Tables, w: Write, r: nat, inputs: seq<MediaInput>, first: nat)
    requires FreshIds(before, w) && !Writes(before, w, r) && Live(Apply(before, w), r)
    requires ShowsList(before, r, inputs, first)
    ensures ShowsList(Apply(before, w), r, inputs, first)
  {
    hide IdRun;
    var after := Apply(before, w);
    assert forall m :: m in ActiveMediaOf(before, r) ==> m in after.media && after.media[m] == before.media[m];
    assert ActiveMediaOf(after, r) == ActiveMediaOf(before, r);
  }

  // ---------- how much media a review shows ----------

  const MAX_IMAGE_COUNT := 10
  const MAX_VIDEO_COUNT := 1

  function CountKind(media: seq<MediaInput>, kind: MediaKind): nat {
    if media == [] then 0
    else CountKind(media[..|media| - 1], kind) + if media[|media| - 1].kind == kind then 1 else 0
  }

  predicate Validated(media: seq<MediaInput>) {
    CountKind(media, Image) <= MAX_IMAGE_COUNT && CountKind(media, Video) <= MAX_VIDEO_COUNT
  }

  predicate WriteValidated(w: Write) {
    w.ReviewRestored? || w.ReviewCreated? ==> Validated(w.inputs)
  }

  predicate LogValidated(log: seq<Write>) {
    forall w :: w in log ==> WriteValidated(w)
  }

  function RunOfKind(first: nat, inputs: seq<MediaInput>, kind: MediaKind): set<nat> {
    set m | m in IdRun(first, |inputs|) && inputs[m - first].kind == kind
  }

  function ActiveOfKind(t: Tables, r: nat, kind: MediaKind): set<nat> {
    set m | m in t.media && t.media[m].reviewId == r && t.media[m].active && t.media[m].input.kind == kind
  }

  lemma {:induction false} RunOfKindSize(first: nat, inputs: seq<MediaInput>, kind: MediaKind)
    ensures |RunOfKind(first, inputs, kind)| == CountKind(inputs, kind)
  {
    if inputs == [] {
      assert RunOfKind(first, inputs, kind) == {};
    } else {
      var n := |inputs| - 1;
      RunOfKindSize(first, inputs[..n], kind);
      hide IdRun, CountKind;
      var last: set<nat> := if inputs[n].kind == kind then {first + n} else {};
      forall m: nat ensures m in RunOfKind(first, inputs, kind) <==> m in RunOfKind(first, inputs[..n], kind) || m in last {
        InIdRun(first, n, m);
        InIdRun(first, n + 1, m);
      }
      assert RunOfKind(first, inputs, kind) == RunOfKind(first, inputs[..n], kind) + last;
      InIdRun(first, n, first + n);
      CountKindLast(inputs, kind);
    }
  }

  lemma InIdRun(first: nat, n: nat, m: nat)
    ensures m in IdRun(first, n) <==> first <= m < first + n
  {
    assert InRun(m, first, n) <==> first <= m < first + n;
  }

  lemma CountKindLast(inputs: seq<MediaInput>, kind: MediaKind)
    requires inputs != []
    ensures var n := |inputs| - 1; CountKind(inputs, kind) == CountKind(inputs[..n], kind) + (if inputs[n].kind == kind then 1 else 0)
  {
  }

  lemma ShownOfKind(t: Tables, r: nat, inputs: seq<MediaInput>, first: nat, kind: MediaKind)
    requires ShowsList(t, r, inputs, first)
    ensures |ActiveOfKind(t, r, kind)| == CountKind(inputs, kind)
  {
    hide IdRun;
    RunOfKindSize(first, inputs, kind);
    forall m ensures m in ActiveOfKind(t, r, kind) <==> m in RunOfKind(first, inputs, kind) {
      assert m in ActiveMediaOf(t, r) <==> m in IdRun(first, |inputs|);
    }
    assert ActiveOfKind(t, r, kind) == RunOfKind(first, inputs, kind);
  }

  /** A live review shows at most ten images and one video, if every list written was validated. */
  lemma LiveReviewMediaIsBounded(t: Tables, log: seq<Write>, r: nat)
    requires FreshLog(t, log) && Safe(t) && t.reviews == map[] && LogValidated(log)
    ensures Live(ApplyAll(t, log), r) ==>
              && |ActiveOfKind(ApplyAll(t, log), r, Image)| <= 10
              && |ActiveOfKind(ApplyAll(t, log), r, Video)| <= 1
  {
    hide ApplyAll, FreshLog, ShowsList, Live, LatestWrite, ActiveOfKind, CountKind;
    LiveReviewShowsLatestList(t, log, r);
    var u, w := ApplyAll(t, log), LatestWrite(t, log, r);
    if Live(u, r) {
      assert WriteValidated(w.value);
      ShownOfKind(u, r, w.value.inputs, w.value.firstMediaId, Image);
      ShownOfKind(u, r, w.value.inputs, w.value.firstMediaId, Video);
    }
  }

  // ---------- the repository, statement by statement ----------

  /** The media check of a review: at most ten images and one video. */
  method ValidateMedia(media: seq<MediaInput>) returns (ok: bool)
    ensures ok <==> CountKind(media, Image) <= 10 && CountKind(media, Video) <= 1
    ensures ok <==> Validated(media)
  {
    var imageCount, videoCount := 0, 0;
    for i := 0 to |media|
      invariant imageCount == CountKind(media[..i], Image) && videoCount == CountKind(media[..i], Video)
    {
      assert media[..i + 1][..i] == media[..i];
      if media[i].kind == Video {
        videoCount := videoCount + 1;
      } else {
        imageCount := imageCount + 1;
      }
    }
    assert media[..|media|] == media;
    return imageCount <= MAX_IMAGE_COUNT && videoCount <= MAX_VIDEO_COUNT;
  }

  class ReviewRepository {
    var reviews: map<nat, Review>
    var media: map<nat, Media>
    var comments: map<nat, Comment>
    var products: map<nat, Product>
    var stores: map<nat, Store>
    var nextId: nat

    function Contents(): Tables
      reads this
    {
      Tables(reviews, media, comments)
    }

    /** Ids come from one counter that is ahead of every row. */
    predicate Valid()
      reads this
    {
      && (forall r :: r in reviews ==> r < nextId)
      && (forall m :: m in media ==> m < nextId)
      && (forall c :: c in comments ==> c < nextId)
    }

    method CreateOrRestoreReviewWithMedia(
      row: Review, existingDeletedReviewId: Option<nat>, inputs: seq<MediaInput>) returns (reviewId: nat)
      requires Valid()
      requires existingDeletedReviewId.Some? ==> existingDeletedReviewId.value in reviews
      modifies `reviews, `media, `nextId
      ensures Valid()
      ensures existingDeletedReviewId.Some? ==>
                && reviewId == existingDeletedReviewId.value
                && FreshIds(old(Contents()), ReviewRestored(reviewId, row.content, inputs, old(nextId)))
                && Contents() == Apply(old(Contents()), ReviewRestored(reviewId, row.content, inputs, old(nextId)))
      ensures existingDeletedReviewId.None? ==>
                && reviewId !in old(reviews)
                && FreshIds(old(Contents()), ReviewCreated(reviewId, row, inputs, old(nextId) + 1))
                && Contents() == Apply(old(Contents()), ReviewCreated(reviewId, row, inputs, old(nextId) + 1))
    {
      if existingDeletedReviewId.Some? {
        reviewId := existingDeletedReviewId.value;
        reviews := reviews[reviewId := reviews[reviewId].(content := row.content, active := true)];
        media := MediaOff(media, MediaOf(Contents(), reviewId));
      } else {
        reviewId := nextId;
        nextId := nextId + 1;
        reviews := reviews[reviewId := row.(active := true)];
      }
      if |inputs| > 0 {
        media := media + NewMedia(reviewId, inputs, nextId);
        nextId := nextId + |inputs|;
      } else {
        assert media == media + NewMedia(reviewId, inputs, nextId);
      }
    }

    method SoftDeleteReview(reviewId: nat, accountId: nat) returns (deleted: bool)
      modifies `reviews, `media, `comments
      ensures deleted == old(Live(Contents(), reviewId) && reviews[reviewId].accountId == accountId)
      ensures Contents() == Apply(old(Contents()), ReviewDeleted(reviewId, accountId))
    {
      deleted := Live(Contents(), reviewId) && reviews[reviewId].accountId == accountId;
      if deleted {
        reviews := reviews[reviewId := reviews[reviewId].(active := false)];
        media := MediaOff(media, ActiveMediaOf(Contents(), reviewId));
        comments := CommentsOff(comments, ActiveCommentsOf(Contents(), reviewId));
        assert media == MediaOff(old(media), MediaOf(old(Contents()), reviewId));
        assert comments == CommentsOff(old(comments), CommentsOf(old(Contents()), reviewId));
      }
    }

    /** The joined product and its store are active and not deleted. */
    predicate ShopOpen(reviewId: nat)
      reads this
      requires reviewId in reviews
    {
      var p := reviews[reviewId].productId;
      p in products && products[p].active && !products[p].deleted &&
      var s := products[p].storeId;
      s in stores && stores[s].active && !stores[s].deleted
    }

    method CreateReviewComment(reviewId: nat, accountId: nat, content: string) returns (commentId: Option<nat>)
      requires Valid()
      modifies `comments, `nextId
      ensures Valid()
      ensures commentId.Some? <==>
              && reviewId in old(reviews) && old(reviews)[reviewId].active
              && var p := old(reviews)[reviewId].productId;
                 && p in products && products[p].active && !products[p].deleted
                 && var s := products[p].storeId; s in stores && stores[s].active && !stores[s].deleted
      ensures commentId.None? ==> Contents() == old(Contents())
      ensures commentId.Some? ==>
                && commentId.value !in old(comments)
                && Contents() == Apply(old(Contents()), CommentAdded(commentId.value, reviewId, accountId, content))
    {
      if !Live(Contents(), reviewId) || !ShopOpen(reviewId) {
        return None;
      }
      commentId := Some(nextId);
      nextId := nextId + 1;
      comments := comments[commentId.value := Comment(reviewId, accountId, content, true)];
    }
  }
}
