/** Likes on reviews: a like row is soft-deleted by an unlike and revived by the next like, and notifies once. */
module ReviewLikes {
  import opened Wrappers

  datatype Review = Review(author: nat, deleted: bool)
  datatype LikeRow = LikeRow(reviewId: nat, accountId: nat, deleted: bool)
  datatype Notification = Notification(recipient: nat, reviewId: nat)
  datatype Db = Db(reviews: map<nat, Review>, likes: map<nat, LikeRow>, nextId: nat, notifications: seq<Notification>)

  datatype Outcome = Liked | AlreadyLiked | Unliked | NotFound | SelfLike

  predicate Visible(db: Db, r: nat) {
    r in db.reviews && !db.reviews[r].deleted
  }

  predicate Pairs(db: Db, i: nat, r: nat, a: nat) {
    i in db.likes && db.likes[i].reviewId == r && db.likes[i].accountId == a
  }

  /** The like row of the pair, deleted or not: the lookup bypasses the soft-delete filter. */
  ghost function Find(db: Db, r: nat, a: nat): (i: Option<nat>)
    ensures i.Some? ==> Pairs(db, i.value, r, a)
    ensures i.None? ==> forall j: nat :: !Pairs(db, j, r, a)
  {
    if exists j: nat :: Pairs(db, j, r, a) then var j: nat :| Pairs(db, j, r, a); Some(j) else None
  }

  ghost predicate Likes(db: Db, r: nat, a: nat) {
    exists i: nat :: Pairs(db, i, r, a) && !db.likes[i].deleted
  }

  function SetDeleted(db: Db, i: nat, deleted: bool): Db
    requires i in db.likes
  {
    db.(likes := db.likes[i := db.likes[i].(deleted := deleted)])
  }

  function AddLike(db: Db, r: nat, a: nat): Db
    requires r in db.reviews
  {
    Db(db.reviews, db.likes[db.nextId := LikeRow(r, a, false)], db.nextId + 1,
       db.notifications + [Notification(db.reviews[r].author, r)])
  }

  function UnlikeRows(db: Db, r: nat, a: nat): Db {
    db.(likes := map i | i in db.likes ::
          if db.likes[i].reviewId == r && db.likes[i].accountId == a && !db.likes[i].deleted
          then db.likes[i].(deleted := true) else db.likes[i])
  }

  datatype Event =
    | Like(accountId: nat, reviewId: nat)
    | Unlike(accountId: nat, reviewId: nat)
    | NewReview(author: nat, reviewId: nat)
    | DeleteReview(reviewId: nat)
    | RestoreReview(reviewId: nat)

  ghost function OutcomeOf(db: Db, e: Event): Outcome
    requires e.Like? || e.Unlike?
  {
    if !Visible(db, e.reviewId) then NotFound
    else if e.Unlike? then Unliked
    else if db.reviews[e.reviewId].author == e.accountId then SelfLike
    else if Likes(db, e.reviewId, e.accountId) then AlreadyLiked
    else Liked
  }

  ghost function Next(db: Db, e: Event): Db {
    match e
    case Like(a, r) =>
      if OutcomeOf(db, e) != Liked then db
      else
        var found := Find(db, r, a);
        if found.Some? then SetDeleted(db, found.value, false) else AddLike(db, r, a)
    case Unlike(a, r) => if Visible(db, r) then UnlikeRows(db, r, a) else db
    case NewReview(author, r) =>
      if r in db.reviews then db else db.(reviews := db.reviews[r := Review(author, false)])
    case DeleteReview(r) =>
      if r in db.reviews then db.(reviews := db.reviews[r := db.reviews[r].(deleted := true)]) else db
    case RestoreReview(r) =>
      if r in db.reviews then db.(reviews := db.reviews[r := db.reviews[r].(deleted := false)]) else db
  }

  ghost function Run(events: seq<Event>): Db {
    if events == [] then Db(map[], map[], 0, []) else Next(Run(events[..|events| - 1]), events[|events| - 1])
  }

  // ---------- what every run keeps ----------

  function RowsOf(db: Db, r: nat): set<nat> {
    set i | i in db.likes && db.likes[i].reviewId == r
  }

  function CountFor(ns: seq<Notification>, r: nat): nat {
    if ns == [] then 0 else CountFor(ns[..|ns| - 1], r) + (if ns[|ns| - 1].reviewId == r then 1 else 0)
  }

  predicate GoodRow(db: Db, i: nat)
    requires i in db.likes
  {
    var row := db.likes[i];
    i < db.nextId && row.reviewId in db.reviews && db.reviews[row.reviewId].author != row.accountId
  }

  predicate SamePair(db: Db, i: nat, j: nat) {
    i in db.likes && j in db.likes && db.likes[i].reviewId == db.likes[j].reviewId && db.likes[i].accountId == db.likes[j].accountId
  }

  predicate ToAuthor(db: Db, n: Notification) {
    n.reviewId in db.reviews && db.reviews[n.reviewId].author == n.recipient
  }

  /** No self-like, one row per pair, one notification per row and each to the author of the review. */
  ghost predicate Valid(db: Db) {
    && (forall i: nat :: i in db.likes ==> GoodRow(db, i))
    && (forall i: nat, j: nat :: SamePair(db, i, j) ==> i == j)
    && (forall k :: 0 <= k < |db.notifications| ==> ToAuthor(db, db.notifications[k]))
    && (forall r: nat :: CountFor(db.notifications, r) == |RowsOf(db, r)|)
  }

  lemma NextIdIsNew(db: Db)
    requires Valid(db)
    ensures db.nextId !in db.likes
  {
  }

  /** Changes that touch only deletion marks and reviews. */
  predicate SameRows(db: Db, u: Db) {
    && u.likes.Keys == db.likes.Keys && u.nextId == db.nextId && u.notifications == db.notifications
    && (forall i: nat :: i in db.likes ==> u.likes[i] == db.likes[i].(deleted := u.likes[i].deleted))
    && (forall r: nat :: r in db.reviews ==> r in u.reviews && u.reviews[r].author == db.reviews[r].author)
  }

  lemma SameRowsKeepValid(db: Db, u: Db)
    requires Valid(db) && SameRows(db, u)
    ensures Valid(u)
  {
    forall i: nat | i in u.likes ensures GoodRow(u, i) { assert GoodRow(db, i); }
    forall i: nat, j: nat | SamePair(u, i, j) ensures i == j { assert SamePair(db, i, j); }
    forall k | 0 <= k < |u.notifications| ensures ToAuthor(u, u.notifications[k]) { assert ToAuthor(db, db.notifications[k]); }
    forall r: nat ensures CountFor(u.notifications, r) == |RowsOf(u, r)| { assert RowsOf(u, r) == RowsOf(db, r); }
  }

  lemma AddLikeKeepsValid(db: Db, r: nat, a: nat)
    requires Valid(db) && r in db.reviews && db.reviews[r].author != a && (forall j: nat :: !Pairs(db, j, r, a))
    ensures Valid(AddLike(db, r, a))
  {
    hide CountFor, RowsOf;
    NextIdIsNew(db);
    var u := AddLike(db, r, a);
    forall i: nat | i in u.likes ensures GoodRow(u, i) { if i in db.likes { assert GoodRow(db, i); } }
    forall i: nat, j: nat | SamePair(u, i, j) ensures i == j {
      assert !Pairs(db, i, r, a) && !Pairs(db, j, r, a);
      if i in db.likes && j in db.likes { assert SamePair(db, i, j); }
    }
    forall k | 0 <= k < |u.notifications| ensures ToAuthor(u, u.notifications[k]) {
      if k < |db.notifications| { assert ToAuthor(db, db.notifications[k]); }
    }
    forall s: nat ensures CountFor(u.notifications, s) == |RowsOf(u, s)| {
      assert CountFor(db.notifications, s) == |RowsOf(db, s)|;
      AddLikeCounts(db, r, a, s);
    }
  }

  /** A new like row brings one row and one notification, both for its review. */
  lemma AddLikeCounts(db: Db, r: nat, a: nat, s: nat)
    requires r in db.reviews && db.nextId !in db.likes && CountFor(db.notifications, s) == |RowsOf(db, s)|
    ensures CountFor(AddLike(db, r, a).notifications, s) == |RowsOf(AddLike(db, r, a), s)|
  {
    hide CountFor;
    CountAppended(db.notifications, Notification(db.reviews[r].author, r), s);
    var added: set<nat> := if s == r then {db.nextId} else {};
    assert RowsOf(AddLike(db, r, a), s) == RowsOf(db, s) + added;
    assert |RowsOf(db, s) + added| == |RowsOf(db, s)| + |added|;
  }

  lemma CountAppended(ns: seq<Notification>, n: Notification, r: nat)
    ensures CountFor(ns + [n], r) == CountFor(ns, r) + (if n.reviewId == r then 1 else 0)
  {
  }

  lemma NextKeepsRowsOrAdds(db: Db, e: Event)
    requires !(e.Like? && OutcomeOf(db, e) == Liked && Find(db, e.reviewId, e.accountId).None?)
    ensures SameRows(db, Next(db, e))
  {
  }

  lemma NextKeepsValid(db: Db, e: Event)
    requires Valid(db)
    ensures Valid(Next(db, e))
  {
    hide Valid, SameRows, AddLike;
    if e.Like? && OutcomeOf(db, e) == Liked && Find(db, e.reviewId, e.accountId).None? {
      AddLikeKeepsValid(db, e.reviewId, e.accountId);
    } else {
      NextKeepsRowsOrAdds(db, e);
      SameRowsKeepValid(db, Next(db, e));
    }
  }

  lemma {:induction false} RunKeepsValid(events: seq<Event>)
    ensures Valid(Run(events))
  {
    hide Next, Valid;
    if events == [] {
      EmptyIsValid();
    } else {
      RunKeepsValid(events[..|events| - 1]);
      NextKeepsValid(Run(events[..|events| - 1]), events[|events| - 1]);
    }
  }

  lemma EmptyIsValid()
    ensures Valid(Run([]))
  {
  }

  /** A new review is visible, a deleted one is not, a restored one is again; likes and other reviews stay. */
  lemma ReviewEvents(db: Db, author: nat, r: nat)
    ensures r !in db.reviews ==> Next(db, NewReview(author, r)) == db.(reviews := db.reviews[r := Review(author, false)])
    ensures r in db.reviews ==>
              && Next(db, DeleteReview(r)) == db.(reviews := db.reviews[r := Review(db.reviews[r].author, true)])
              && Next(db, RestoreReview(r)) == db.(reviews := db.reviews[r := Review(db.reviews[r].author, false)])
  {
  }

  /** The positions of the notifications about review `r`. */
  function NotifiedAt(ns: seq<Notification>, r: nat): set<nat> {
    set k | 0 <= k < |ns| && ns[k].reviewId == r
  }

  lemma {:induction false} CountIsPositions(ns: seq<Notification>, r: nat)
    ensures CountFor(ns, r) == |NotifiedAt(ns, r)|
  {
    if ns == [] {
      assert NotifiedAt(ns, r) == {};
    } else {
      var n := |ns| - 1;
      CountIsPositions(ns[..n], r);
      var last: set<nat> := if ns[n].reviewId == r then {n} else {};
      assert NotifiedAt(ns, r) == NotifiedAt(ns[..n], r) + last;
    }
  }

  /** After every run: no like by the author, one row for each review and account, one notification for each row, to the author. */
  lemma LikesAreInOrder(events: seq<Event>, i: nat, j: nat, r: nat, k: nat)
    ensures var db := Run(events);
            && (i in db.likes ==> db.likes[i].reviewId in db.reviews && db.reviews[db.likes[i].reviewId].author != db.likes[i].accountId)
            && (i in db.likes && j in db.likes && db.likes[i].(deleted := false) == db.likes[j].(deleted := false) ==> i == j)
            && |set m | m in db.likes && db.likes[m].reviewId == r| == |NotifiedAt(db.notifications, r)|
            && (k < |db.notifications| ==>
                  && db.notifications[k].reviewId in db.reviews
                  && db.notifications[k].recipient == db.reviews[db.notifications[k].reviewId].author)
  {
    hide Run, CountFor, NotifiedAt;
    RunKeepsValid(events);
    var db := Run(events);
    if i in db.likes { assert GoodRow(db, i); }
    assert SamePair(db, i, j) ==> i == j;
    CountIsPositions(db.notifications, r);
    assert RowsOf(db, r) == set m | m in db.likes && db.likes[m].reviewId == r;
    if k < |db.notifications| { assert ToAuthor(db, db.notifications[k]); }
  }

  // ---------- who likes what ----------

  /** The last effective action of the account on the review was a like: refused requests leave it as it was. */
  ghost predicate Wants(events: seq<Event>, r: nat, a: nat) {
    if events == [] then false
    else
      var e, before := events[|events| - 1], events[..|events| - 1];
      if (e.Like? || e.Unlike?) && e.accountId == a && e.reviewId == r
         && OutcomeOf(Run(before), e) in {Liked, AlreadyLiked, Unliked}
      then e.Like? else Wants(before, r, a)
  }

  lemma LikesIff(db: Db, i: nat, r: nat, a: nat)
    requires Valid(db) && Pairs(db, i, r, a)
    ensures Likes(db, r, a) <==> !db.likes[i].deleted
  {
    forall j: nat | Pairs(db, j, r, a) ensures j == i { assert SamePair(db, i, j); }
  }

  lemma OtherPairsKeep(db: Db, u: Db, r: nat, a: nat)
    requires forall i: nat :: Pairs(u, i, r, a) <==> Pairs(db, i, r, a)
    requires forall i: nat :: Pairs(db, i, r, a) && Pairs(u, i, r, a) ==> u.likes[i].deleted == db.likes[i].deleted
    ensures Likes(u, r, a) == Likes(db, r, a)
  {
  }

  lemma LikeSets(db: Db, r: nat, a: nat, s: nat, b: nat)
    requires Valid(db) && OutcomeOf(db, Like(a, r)) == Liked
    ensures Likes(Next(db, Like(a, r)), s, b) <==> (s == r && b == a) || Likes(db, s, b)
  {
    hide Valid;
    var u, found := Next(db, Like(a, r)), Find(db, r, a);
    NextIdIsNew(db);
    var i := if found.Some? then found.value else db.nextId;
    assert Pairs(u, i, r, a) && !u.likes[i].deleted;
    if s != r || b != a {
      OtherPairsKeep(db, u, s, b);
    }
  }

  lemma UnlikeClears(db: Db, r: nat, a: nat, s: nat, b: nat)
    ensures Likes(UnlikeRows(db, r, a), s, b) <==> !(s == r && b == a) && Likes(db, s, b)
  {
    if s != r || b != a {
      OtherPairsKeep(db, UnlikeRows(db, r, a), s, b);
    }
  }

  lemma ReviewEventsKeepLikes(db: Db, e: Event, s: nat, b: nat)
    requires !e.Like? && !e.Unlike?
    ensures Likes(Next(db, e), s, b) == Likes(db, s, b)
  {
  }

  /** After every run the active likes are exactly those whose account's last effective action was a like. */
  lemma {:induction false} LikesFollowLastAction(events: seq<Event>, r: nat, a: nat)
    ensures Likes(Run(events), r, a) <==> Wants(events, r, a)
  {
    hide Valid, Likes, AddLike, UnlikeRows, SetDeleted;
    if events == [] {
      NothingLiked(r, a);
    } else {
      var before, e := events[..|events| - 1], events[|events| - 1];
      LikesFollowLastAction(before, r, a);
      RunKeepsValid(before);
      var db := Run(before);
      match e
      case Like(b, s) => if OutcomeOf(db, e) == Liked { LikeSets(db, s, b, r, a); }
      case Unlike(b, s) => UnlikeClears(db, s, b, r, a);
      case NewReview(_, _) => ReviewEventsKeepLikes(db, e, r, a);
      case DeleteReview(_) => ReviewEventsKeepLikes(db, e, r, a);
      case RestoreReview(_) => ReviewEventsKeepLikes(db, e, r, a);
    }
  }

  lemma NothingLiked(r: nat, a: nat)
    ensures !Likes(Run([]), r, a)
  {
  }

  /** A request on a review that is missing or deleted is answered "not found" and changes nothing. */
  lemma HiddenReviewRefuses(db: Db, a: nat, r: nat)
    requires r !in db.reviews || db.reviews[r].deleted
    ensures OutcomeOf(db, Like(a, r)) == NotFound && Next(db, Like(a, r)) == db
    ensures OutcomeOf(db, Unlike(a, r)) == NotFound && Next(db, Unlike(a, r)) == db
  {
  }

  /** On a visible review the author is refused, everyone else likes it afterwards. */
  lemma VisibleReviewLikes(db: Db, a: nat, r: nat)
    requires Valid(db) && r in db.reviews && !db.reviews[r].deleted
    ensures var u, outcome := Next(db, Like(a, r)), OutcomeOf(db, Like(a, r));
            && (db.reviews[r].author == a ==> outcome == SelfLike && u == db)
            && (db.reviews[r].author != a ==> outcome == (if Likes(db, r, a) then AlreadyLiked else Liked) && Likes(u, r, a))
  {
    hide Valid, Likes;
    if db.reviews[r].author != a && !Likes(db, r, a) { LikeSets(db, r, a, r, a); }
  }

  /** Unliking again changes nothing and is answered as before; a visible review is not liked afterwards. */
  lemma UnlikeIsIdempotent(db: Db, a: nat, r: nat)
    ensures var e := Unlike(a, r);
            var u := Next(db, e);
            && Next(u, e) == u && OutcomeOf(u, e) == OutcomeOf(db, e)
            && (Visible(db, r) ==> OutcomeOf(db, e) == Unliked && !Likes(u, r, a))
            && (forall s: nat, b: nat :: s != r || b != a ==> Likes(u, s, b) == Likes(db, s, b))
  {
    hide Likes;
    var u := Next(db, Unlike(a, r));
    assert Next(u, Unlike(a, r)).likes == u.likes;
    forall s: nat, b: nat ensures Visible(db, r) ==> (Likes(u, s, b) <==> !(s == r && b == a) && Likes(db, s, b)) {
      UnlikeClears(db, r, a, s, b);
    }
  }

  // ---------- the shown count ----------

  /** The rows the like count of a review counts. */
  function ActiveRows(db: Db, r: nat): set<nat> {
    set i | i in db.likes && db.likes[i].reviewId == r && !db.likes[i].deleted
  }

  function Accounts(db: Db, rows: set<nat>): set<nat>
    requires forall i :: i in rows ==> i in db.likes
  {
    set i | i in rows :: db.likes[i].accountId
  }

  lemma {:induction false} OneRowPerAccount(db: Db, r: nat, rows: set<nat>)
    requires Valid(db) && rows <= ActiveRows(db, r)
    ensures |Accounts(db, rows)| == |rows|
    decreases |rows|
  {
    if rows != {} {
      var i :| i in rows;
      var rest := rows - {i};
      OneRowPerAccount(db, r, rest);
      forall j | j in rest ensures db.likes[j].accountId != db.likes[i].accountId {
        assert !SamePair(db, i, j);
      }
      assert Accounts(db, rows) == Accounts(db, rest) + {db.likes[i].accountId};
    }
  }

  /** The like count is the number of accounts whose last effective action was a like. */
  lemma CountIsNumberOfLikers(events: seq<Event>, r: nat, likers: set<nat>)
    requires forall a: nat :: a in likers <==> Wants(events, r, a)
    ensures |ActiveRows(Run(events), r)| == |likers|
  {
    hide Valid, Run;
    var db := Run(events);
    RunKeepsValid(events);
    OneRowPerAccount(db, r, ActiveRows(db, r));
    forall a: nat ensures a in likers <==> a in Accounts(db, ActiveRows(db, r)) {
      LikesFollowLastAction(events, r, a);
      if Likes(db, r, a) {
        var i: nat :| Pairs(db, i, r, a) && !db.likes[i].deleted;
        assert i in ActiveRows(db, r);
      }
      if a in Accounts(db, ActiveRows(db, r)) {
        var i :| i in ActiveRows(db, r) && db.likes[i].accountId == a;
        assert Pairs(db, i, r, a);
      }
    }
    assert likers == Accounts(db, ActiveRows(db, r));
  }

  /** A review that is deleted and written again keeps the likes it had, although its comments are gone. */
  lemma RewriteKeepsLikes(events: seq<Event>, r: nat, a: nat)
    ensures Likes(Run(events + [DeleteReview(r), RestoreReview(r)]), r, a) <==> Wants(events, r, a)
  {
    hide Run, Likes;
    var e1 := events + [DeleteReview(r)];
    var e2 := events + [DeleteReview(r), RestoreReview(r)];
    LikesFollowLastAction(e2, r, a);
    assert e2[..|e2| - 1] == e1 && e1[..|e1| - 1] == events;
  }

  // ---------- the repository ----------

  class UserLikes {
    var reviews: map<nat, Review>
    var likes: map<nat, LikeRow>
    var nextId: nat
    var notifications: seq<Notification>

    ghost function Contents(): Db
      reads this
    {
      Db(reviews, likes, nextId, notifications)
    }

    method LikeReview(accountId: nat, reviewId: nat) returns (outcome: Outcome)
      requires Valid(Contents())
      modifies this
      ensures Valid(Contents()) && Contents() == Next(old(Contents()), Like(accountId, reviewId))
      ensures outcome == OutcomeOf(old(Contents()), Like(accountId, reviewId))
    {
      hide Valid, Likes;
      NextKeepsValid(Contents(), Like(accountId, reviewId));
      if reviewId !in reviews || reviews[reviewId].deleted {
        return NotFound;
      }
      if reviews[reviewId].author == accountId {
        return SelfLike;
      }
      var existing := set i | i in likes && likes[i].reviewId == reviewId && likes[i].accountId == accountId;
      assert forall i: nat :: i in existing <==> Pairs(Contents(), i, reviewId, accountId);
      if existing != {} {
        var i: nat :| i in existing;
        OnlyRow(Contents(), i, reviewId, accountId);
        if !likes[i].deleted {
          return AlreadyLiked;
        }
        likes := likes[i := likes[i].(deleted := false)];
        return Liked;
      }
      NoRow(Contents(), reviewId, accountId);
      likes := likes[nextId := LikeRow(reviewId, accountId, false)];
      nextId := nextId + 1;
      notifications := notifications + [Notification(reviews[reviewId].author, reviewId)];
      return Liked;
    }

    method UnlikeReview(accountId: nat, reviewId: nat) returns (outcome: Outcome)
      modifies `likes
      ensures Contents() == Next(old(Contents()), Unlike(accountId, reviewId))
      ensures outcome == OutcomeOf(old(Contents()), Unlike(accountId, reviewId))
    {
      if reviewId !in reviews || reviews[reviewId].deleted {
        return NotFound;
      }
      likes := map i | i in likes ::
        if likes[i].reviewId == reviewId && likes[i].accountId == accountId && !likes[i].deleted
        then likes[i].(deleted := true) else likes[i];
      return Unliked;
    }
  }

  lemma OnlyRow(db: Db, i: nat, r: nat, a: nat)
    requires Valid(db) && Pairs(db, i, r, a)
    ensures Find(db, r, a) == Some(i) && (Likes(db, r, a) <==> !db.likes[i].deleted)
  {
    LikesIff(db, i, r, a);
    assert SamePair(db, i, Find(db, r, a).value);
  }

  lemma NoRow(db: Db, r: nat, a: nat)
    requires forall i: nat :: !Pairs(db, i, r, a)
    ensures Find(db, r, a) == None && !Likes(db, r, a)
  {
  }
}
