/**
 * Comment, delete, restore and create transactions on reviews, run one statement at a time in any order.
 *
 * A locking read takes the review row's shared lock and an UPDATE of it the exclusive lock; both wait for
 * conflicting holders, read the latest committed row, and keep the lock until the transaction ends. Writes
 * stay with their transaction until it commits, and a rollback drops them. Which locks a transaction holds
 * follows from how far it has come.
 */
module ReviewTransactions {
  import opened Wrappers
  import opened ReviewTables

  datatype Request =
    | CommentReq(reviewId: nat, accountId: nat, content: string, shopOpen: bool)
    | DeleteReq(reviewId: nat, accountId: nat)
    | RestoreReq(reviewId: nat, content: string, inputs: seq<MediaInput>)
    | CreateReq(review: Review, inputs: seq<MediaInput>)

  /** Where a transaction stands, with the rows it has written so far. */
  datatype Phase =
    | Begun
    | CommentLocked
    | CommentInserted(commentId: nat)
    | DeleteMarked
    | DeleteMediaDone(mediaIds: set<nat>)
    | DeleteCommentsDone(mediaIds: set<nat>, commentIds: set<nat>)
    | RestoreMarked
    | RestoreMediaOff(mediaIds: set<nat>)
    | RestoreMediaNew(mediaIds: set<nat>, firstMediaId: nat)
    | Created(reviewId: nat)
    | CreatedMedia(reviewId: nat, firstMediaId: nat)

  datatype Tx = Tx(req: Request, phase: Phase)

  /** `log` is the history of committed writes, in commit order. */
  datatype State = State(tables: Tables, txs: map<nat, Tx>, nextId: nat, log: seq<Write>)

  datatype Event = Begin(tx: nat, req: Request) | Step(tx: nat) | Rollback(tx: nat) | DropComment(commentId: nat)

  predicate HoldsShared(tx: Tx, r: nat) {
    (tx.phase.CommentLocked? || tx.phase.CommentInserted?) && tx.req.CommentReq? && tx.req.reviewId == r
  }

  predicate HoldsExclusive(tx: Tx, r: nat) {
    || ((tx.phase.DeleteMarked? || tx.phase.DeleteMediaDone? || tx.phase.DeleteCommentsDone?)
        && tx.req.DeleteReq? && tx.req.reviewId == r)
    || ((tx.phase.RestoreMarked? || tx.phase.RestoreMediaOff? || tx.phase.RestoreMediaNew?)
        && tx.req.RestoreReq? && tx.req.reviewId == r)
  }

  predicate SharedFree(s: State, r: nat) {
    forall u :: u in s.txs ==> !HoldsExclusive(s.txs[u], r)
  }

  predicate ExclusiveFree(s: State, r: nat) {
    forall u :: u in s.txs ==> !HoldsExclusive(s.txs[u], r) && !HoldsShared(s.txs[u], r)
  }

  // ---------- one statement ----------

  function Advance(s: State, x: nat, phase: Phase): State
    requires x in s.txs
  {
    s.(txs := s.txs[x := s.txs[x].(phase := phase)])
  }

  function End(s: State, x: nat): State {
    s.(txs := s.txs - {x})
  }

  function Commit(s: State, x: nat, tables: Tables, w: Write): State {
    End(s, x).(tables := tables, log := s.log + [w])
  }

  /** The next statement of transaction `x`, if it is not waiting for a lock. */
  function StepTx(s: State, x: nat): State
    requires x in s.txs
  {
    var t := s.tables;
    match s.txs[x]
    case Tx(CommentReq(r, a, content, shopOpen), Begun) =>
      if !SharedFree(s, r) then s
      else if Live(t, r) && shopOpen then Advance(s, x, CommentLocked) else End(s, x)
    case Tx(CommentReq(r, a, content, _), CommentLocked) =>
      Advance(s, x, CommentInserted(s.nextId)).(nextId := s.nextId + 1)
    case Tx(CommentReq(r, a, content, _), CommentInserted(c)) =>
      Commit(s, x, t.(comments := t.comments[c := Comment(r, a, content, true)]), CommentAdded(c, r, a, content))

    case Tx(DeleteReq(r, a), Begun) =>
      if !ExclusiveFree(s, r) then s
      else if Live(t, r) && t.reviews[r].accountId == a then Advance(s, x, DeleteMarked) else End(s, x)
    case Tx(DeleteReq(r, a), DeleteMarked) => Advance(s, x, DeleteMediaDone(ActiveMediaOf(t, r)))
    case Tx(DeleteReq(r, a), DeleteMediaDone(ms)) => Advance(s, x, DeleteCommentsDone(ms, ActiveCommentsOf(t, r)))
    case Tx(DeleteReq(r, a), DeleteCommentsDone(ms, cs)) =>
      if r !in t.reviews then End(s, x)
      else
        Commit(s, x,
               Tables(t.reviews[r := t.reviews[r].(active := false)], MediaOff(t.media, ms), CommentsOff(t.comments, cs)),
               ReviewDeleted(r, a))

    case Tx(RestoreReq(r, content, inputs), Begun) =>
      if !ExclusiveFree(s, r) then s
      else if r in t.reviews then Advance(s, x, RestoreMarked) else End(s, x)
    case Tx(RestoreReq(r, content, inputs), RestoreMarked) => Advance(s, x, RestoreMediaOff(MediaOf(t, r)))
    case Tx(RestoreReq(r, content, inputs), RestoreMediaOff(ms)) =>
      if |inputs| > 0 then Advance(s, x, RestoreMediaNew(ms, s.nextId)).(nextId := s.nextId + |inputs|)
      else if r !in t.reviews then End(s, x)
      else
        Commit(s, x,
               t.(reviews := t.reviews[r := t.reviews[r].(content := content, active := true)],
                  media := MediaOff(t.media, ms)),
               ReviewRestored(r, content, inputs, s.nextId))
    case Tx(RestoreReq(r, content, inputs), RestoreMediaNew(ms, first)) =>
      if r !in t.reviews then End(s, x)
      else
        Commit(s, x,
               t.(reviews := t.reviews[r := t.reviews[r].(content := content, active := true)],
                  media := MediaOff(t.media, ms) + NewMedia(r, inputs, first)),
               ReviewRestored(r, content, inputs, first))

    case Tx(CreateReq(review, inputs), Begun) =>
      Advance(s, x, Created(s.nextId)).(nextId := s.nextId + 1)
    case Tx(CreateReq(review, inputs), Created(r)) =>
      if |inputs| > 0 then Advance(s, x, CreatedMedia(r, s.nextId)).(nextId := s.nextId + |inputs|)
      else
        Commit(s, x, t.(reviews := t.reviews[r := review.(active := true)]), ReviewCreated(r, review, inputs, s.nextId))
    case Tx(CreateReq(review, inputs), CreatedMedia(r, first)) =>
      Commit(s, x,
             t.(reviews := t.reviews[r := review.(active := true)], media := t.media + NewMedia(r, inputs, first)),
             ReviewCreated(r, review, inputs, first))
    case _ => s
  }

  function Next(s: State, e: Event): State {
    match e
    case Begin(x, req) => if x in s.txs then s else s.(txs := s.txs[x := Tx(req, Begun)])
    case Step(x) => if x in s.txs then StepTx(s, x) else s
    case Rollback(x) => End(s, x)
    case DropComment(c) =>
      s.(tables := s.tables.(comments := CommentsOff(s.tables.comments, {c})), log := s.log + [CommentDropped(c)])
  }

  function Run(s: State, events: seq<Event>): State {
    if events == [] then s else Next(Run(s, events[..|events| - 1]), events[|events| - 1])
  }

  predicate Initial(s: State) {
    && s.txs == map[] && s.log == []
    && (forall r :: r in s.tables.reviews ==> r < s.nextId)
    && (forall m :: m in s.tables.media ==> m < s.nextId)
    && (forall c :: c in s.tables.comments ==> c < s.nextId)
  }

  // ---------- the invariant behind the locks ----------

  /** What the committed tables still say while `tx` is under way. */
  predicate TxHolds(t: Tables, tx: Tx) {
    match tx
    case Tx(_, Begun) => true
    case Tx(CommentReq(r, _, _, _), CommentLocked) => Live(t, r)
    case Tx(CommentReq(r, _, _, _), CommentInserted(c)) => Live(t, r)
    case Tx(DeleteReq(r, a), DeleteMarked) => Live(t, r) && t.reviews[r].accountId == a
    case Tx(DeleteReq(r, a), DeleteMediaDone(ms)) =>
      Live(t, r) && t.reviews[r].accountId == a && ms == ActiveMediaOf(t, r)
    case Tx(DeleteReq(r, a), DeleteCommentsDone(ms, cs)) =>
      && Live(t, r) && t.reviews[r].accountId == a && ms == ActiveMediaOf(t, r)
      && ActiveCommentsOf(t, r) <= cs <= CommentsOf(t, r)
    case Tx(RestoreReq(r, _, _), RestoreMarked) => r in t.reviews
    case Tx(RestoreReq(r, _, _), RestoreMediaOff(ms)) => r in t.reviews && ms == MediaOf(t, r)
    case Tx(RestoreReq(r, _, _), RestoreMediaNew(ms, _)) => r in t.reviews && ms == MediaOf(t, r)
    case Tx(CreateReq(_, _), Created(_)) => true
    case Tx(CreateReq(_, _), CreatedMedia(_, _)) => true
    case _ => false
  }

  /** Ids of the rows a transaction has inserted but not committed. */
  function PendingIds(tx: Tx): set<nat> {
    match tx.phase
    case CommentInserted(c) => {c}
    case RestoreMediaNew(_, first) => if tx.req.RestoreReq? then IdRun(first, |tx.req.inputs|) else {}
    case Created(r) => {r}
    case CreatedMedia(r, first) => if tx.req.CreateReq? then {r} + IdRun(first, |tx.req.inputs|) else {}
    case _ => {}
  }

  predicate IdUsed(t: Tables, id: nat) {
    id in t.reviews || id in t.media || id in t.comments
  }

  predicate Pends(s: State, x: nat, id: nat) {
    x in s.txs && id in PendingIds(s.txs[x])
  }

  ghost predicate IdsBelow(s: State) {
    && (forall id: nat :: IdUsed(s.tables, id) ==> id < s.nextId)
    && (forall x: nat, id: nat :: Pends(s, x, id) ==> id < s.nextId)
    && (forall x: nat, id: nat :: Pends(s, x, id) ==> !IdUsed(s.tables, id))
    && (forall x: nat, y: nat, id: nat :: Pends(s, x, id) && Pends(s, y, id) ==> x == y)
  }

  ghost predicate Compatible(a: Tx, b: Tx) {
    forall r :: HoldsExclusive(a, r) ==> !HoldsExclusive(b, r) && !HoldsShared(b, r)
  }

  ghost predicate LocksHeld(s: State) {
    forall x, y :: x in s.txs && y in s.txs && x != y ==> Compatible(s.txs[x], s.txs[y])
  }

  ghost predicate Inv(s: State) {
    && (forall x :: x in s.txs ==> TxHolds(s.tables, s.txs[x]))
    && IdsBelow(s) && LocksHeld(s)
  }

  /** Either nothing committed, or exactly one write did, and the tables are what that write makes of them. */
  ghost predicate Atomic(s: State, u: State) {
    || (u.log == s.log && u.tables == s.tables)
    || (exists w :: u.log == s.log + [w] && u.tables == Apply(s.tables, w) && FreshIds(s.tables, w))
  }

  lemma EndKeepsInv(s: State, x: nat)
    requires Inv(s)
    ensures Inv(End(s, x))
  {
    hide TxHolds, Compatible, PendingIds, IdUsed;
    assert forall y: nat, id: nat :: Pends(End(s, x), y, id) ==> Pends(s, y, id);
  }

  /** A statement that commits nothing keeps the invariant if its own claim, locks and new ids are in order. */
  lemma AdvanceKeepsInv(s: State, x: nat, phase: Phase, nextId: nat)
    requires Inv(s) && x in s.txs && s.nextId <= nextId
    requires TxHolds(s.tables, s.txs[x].(phase := phase))
    requires forall y :: y in s.txs && y != x ==>
               Compatible(s.txs[x].(phase := phase), s.txs[y]) && Compatible(s.txs[y], s.txs[x].(phase := phase))
    requires forall id :: id in PendingIds(s.txs[x].(phase := phase)) ==>
               id in PendingIds(s.txs[x]) || s.nextId <= id < nextId
    ensures Inv(Advance(s, x, phase).(nextId := nextId))
  {
    hide TxHolds, Compatible, PendingIds, IdUsed;
    var u := Advance(s, x, phase).(nextId := nextId);
    assert forall y :: y in u.txs <==> y in s.txs;
    assert forall y :: y in s.txs && y != x ==> u.txs[y] == s.txs[y];
    assert u.txs[x] == s.txs[x].(phase := phase) && u.tables == s.tables;
    assert LocksHeld(u);
    forall y: nat, id: nat | Pends(u, y, id) ensures Pends(s, y, id) || (s.nextId <= id < nextId && y == x) {
      if y == x { assert u.txs[y] == s.txs[x].(phase := phase); }
    }
    assert IdsBelow(u);
  }

  /** What another transaction relies on survives a committed write that respects its locks. */
  ghost predicate Respects(t: Tables, w: Write, tx: Tx) {
    match w
    case CommentAdded(c, r, _, _) => !HoldsExclusive(tx, r)
    case ReviewDeleted(r, _) => !HoldsExclusive(tx, r) && !HoldsShared(tx, r)
    case ReviewRestored(r, _, _, _) => !HoldsExclusive(tx, r) && !HoldsShared(tx, r)
    case ReviewCreated(r, _, _, _) => r !in t.reviews
    case CommentDropped(_) => true
  }

  lemma WriteKeepsOthers(t: Tables, w: Write, tx: Tx)
    requires TxHolds(t, tx) && Respects(t, w, tx) && FreshIds(t, w)
    ensures TxHolds(Apply(t, w), tx)
  {
    hide IdRun;
    var u := Apply(t, w);
    match tx.req {
      case CommentReq(r, _, _, _) =>
      case DeleteReq(r, _) =>
        if tx.phase != Begun { WriteKeepsRowsOf(t, w, r); }
      case RestoreReq(r, _, _) =>
        if tx.phase != Begun { WriteKeepsRowsOf(t, w, r); }
      case CreateReq(_, _) =>
    }
  }

  lemma WriteKeepsRowsOf(t: Tables, w: Write, r: nat)
    requires FreshIds(t, w) && r in t.reviews
    requires w.CommentAdded? || w.ReviewDeleted? || w.ReviewRestored? ==> w.reviewId != r
    ensures var u := Apply(t, w);
            && r in u.reviews && u.reviews[r] == t.reviews[r]
            && MediaOf(u, r) == MediaOf(t, r) && ActiveMediaOf(u, r) == ActiveMediaOf(t, r)
            && CommentsOf(u, r) == CommentsOf(t, r) && ActiveCommentsOf(u, r) <= ActiveCommentsOf(t, r)
  {
    WriteKeepsMediaOf(t, w, r);
    WriteKeepsCommentsOf(t, w, r);
  }

  lemma WriteKeepsMediaOf(t: Tables, w: Write, r: nat)
    requires FreshIds(t, w) && r in t.reviews
    requires w.ReviewDeleted? || w.ReviewRestored? ==> w.reviewId != r
    ensures MediaOf(Apply(t, w), r) == MediaOf(t, r) && ActiveMediaOf(Apply(t, w), r) == ActiveMediaOf(t, r)
  {
    hide IdRun, CommentsOff;
  }

  lemma WriteKeepsCommentsOf(t: Tables, w: Write, r: nat)
    requires FreshIds(t, w) && r in t.reviews
    requires w.CommentAdded? || w.ReviewDeleted? ==> w.reviewId != r
    ensures CommentsOf(Apply(t, w), r) == CommentsOf(t, r)
    ensures ActiveCommentsOf(Apply(t, w), r) <= ActiveCommentsOf(t, r)
  {
  }

  /** The ids a write uses that were not in use before. */
  function NewIds(w: Write): set<nat> {
    match w
    case CommentAdded(c, _, _, _) => {c}
    case ReviewRestored(_, _, inputs, first) => IdRun(first, |inputs|)
    case ReviewCreated(r, _, inputs, first) => {r} + IdRun(first, |inputs|)
    case _ => {}
  }

  lemma WriteUsesItsIds(t: Tables, w: Write, id: nat)
    requires IdUsed(Apply(t, w), id)
    ensures IdUsed(t, id) || id in NewIds(w)
  {
  }

  lemma CommitKeepsInv(s: State, x: nat, w: Write)
    requires Inv(s) && x in s.txs && FreshIds(s.tables, w) && NewIds(w) <= PendingIds(s.txs[x])
    requires forall y :: y in s.txs && y != x ==> Respects(s.tables, w, s.txs[y])
    ensures Inv(Commit(s, x, Apply(s.tables, w), w))
    ensures Atomic(s, Commit(s, x, Apply(s.tables, w), w))
  {
    hide TxHolds, Compatible, PendingIds, IdUsed, Apply, FreshIds, NewIds, Respects;
    var u := Commit(s, x, Apply(s.tables, w), w);
    assert forall y :: y in u.txs ==> y in s.txs && y != x && u.txs[y] == s.txs[y];
    forall y | y in u.txs ensures TxHolds(u.tables, u.txs[y]) {
      WriteKeepsOthers(s.tables, w, s.txs[y]);
    }
    forall id: nat | IdUsed(u.tables, id) ensures IdUsed(s.tables, id) || id in PendingIds(s.txs[x]) {
      WriteUsesItsIds(s.tables, w, id);
    }
    assert LocksHeld(u);
    assert forall y: nat, id: nat :: Pends(u, y, id) ==> Pends(s, y, id);
    assert forall id :: id in PendingIds(s.txs[x]) ==> Pends(s, x, id);
    assert IdsBelow(u);
  }

  // ---------- each statement of each transaction ----------

  lemma CommentStep(s: State, x: nat)
    requires Inv(s) && x in s.txs && s.txs[x].req.CommentReq?
    ensures Inv(StepTx(s, x)) && Atomic(s, StepTx(s, x))
  {
    hide IdsBelow, LocksHeld, Inv, Apply;
    assert TxHolds(s.tables, s.txs[x]) by { TxOf(s, x); }
    match s.txs[x]
    case Tx(CommentReq(r, a, content, shopOpen), Begun) =>
      EndKeepsInv(s, x);
      if SharedFree(s, r) && Live(s.tables, r) && shopOpen {
        AdvanceKeepsInv(s, x, CommentLocked, s.nextId);
      }
    case Tx(CommentReq(r, a, content, _), CommentLocked) =>
      PeersCompatible(s, x);
      AdvanceKeepsInv(s, x, CommentInserted(s.nextId), s.nextId + 1);
    case Tx(CommentReq(r, a, content, _), CommentInserted(c)) =>
      PeersCompatible(s, x);
      PendingUnused(s, x, c);
      CommentCommit(s.tables, c, r, a, content);
      CommitKeepsInv(s, x, CommentAdded(c, r, a, content));
    case _ =>
  }

  lemma TxOf(s: State, x: nat)
    requires Inv(s) && x in s.txs
    ensures TxHolds(s.tables, s.txs[x])
  {
  }

  lemma PendingUnused(s: State, x: nat, id: nat)
    requires Inv(s) && x in s.txs && id in PendingIds(s.txs[x])
    ensures !IdUsed(s.tables, id)
  {
    assert Pends(s, x, id);
  }

  lemma PeersCompatible(s: State, x: nat)
    requires Inv(s) && x in s.txs
    ensures forall y :: y in s.txs && y != x ==> Compatible(s.txs[x], s.txs[y]) && Compatible(s.txs[y], s.txs[x])
  {
  }

  lemma CommentCommit(t: Tables, c: nat, r: nat, a: nat, content: string)
    requires Live(t, r)
    ensures Apply(t, CommentAdded(c, r, a, content)) == t.(comments := t.comments[c := Comment(r, a, content, true)])
  {
  }

  lemma DeleteStep(s: State, x: nat)
    requires Inv(s) && x in s.txs && s.txs[x].req.DeleteReq?
    ensures Inv(StepTx(s, x)) && Atomic(s, StepTx(s, x))
  {
    hide IdsBelow, LocksHeld, Inv, Apply;
    assert TxHolds(s.tables, s.txs[x]) by { TxOf(s, x); }
    match s.txs[x]
    case Tx(DeleteReq(r, a), Begun) =>
      EndKeepsInv(s, x);
      if ExclusiveFree(s, r) && Live(s.tables, r) && s.tables.reviews[r].accountId == a {
        AdvanceKeepsInv(s, x, DeleteMarked, s.nextId);
      }
    case Tx(DeleteReq(r, a), DeleteMarked) =>
      PeersCompatible(s, x);
      AdvanceKeepsInv(s, x, DeleteMediaDone(ActiveMediaOf(s.tables, r)), s.nextId);
    case Tx(DeleteReq(r, a), DeleteMediaDone(ms)) =>
      PeersCompatible(s, x);
      AdvanceKeepsInv(s, x, DeleteCommentsDone(ms, ActiveCommentsOf(s.tables, r)), s.nextId);
    case Tx(DeleteReq(r, a), DeleteCommentsDone(ms, cs)) =>
      PeersCompatible(s, x);
      DeleteCommit(s.tables, r, a, ms, cs);
      CommitKeepsInv(s, x, ReviewDeleted(r, a));
    case _ =>
  }

  /** The row sets collected by the statements still cover everything the deletion has to reach. */
  lemma DeleteCommit(t: Tables, r: nat, a: nat, ms: set<nat>, cs: set<nat>)
    requires TxHolds(t, Tx(DeleteReq(r, a), DeleteCommentsDone(ms, cs)))
    ensures Apply(t, ReviewDeleted(r, a))
            == Tables(t.reviews[r := t.reviews[r].(active := false)], MediaOff(t.media, ms), CommentsOff(t.comments, cs))
  {
  }

  lemma RestoreStep(s: State, x: nat)
    requires Inv(s) && x in s.txs && s.txs[x].req.RestoreReq?
    ensures Inv(StepTx(s, x)) && Atomic(s, StepTx(s, x))
  {
    hide IdsBelow, LocksHeld, Inv, Apply, IdRun;
    assert TxHolds(s.tables, s.txs[x]) by { TxOf(s, x); }
    match s.txs[x]
    case Tx(RestoreReq(r, content, inputs), Begun) =>
      EndKeepsInv(s, x);
      if ExclusiveFree(s, r) && r in s.tables.reviews {
        AdvanceKeepsInv(s, x, RestoreMarked, s.nextId);
      }
    case Tx(RestoreReq(r, content, inputs), RestoreMarked) =>
      PeersCompatible(s, x);
      AdvanceKeepsInv(s, x, RestoreMediaOff(MediaOf(s.tables, r)), s.nextId);
    case Tx(RestoreReq(r, content, inputs), RestoreMediaOff(ms)) =>
      PeersCompatible(s, x);
      RunIsFresh(s.nextId, |inputs|);
      if |inputs| > 0 {
        AdvanceKeepsInv(s, x, RestoreMediaNew(ms, s.nextId), s.nextId + |inputs|);
      } else {
        assert MediaOff(s.tables.media, ms) + NewMedia(r, inputs, s.nextId) == MediaOff(s.tables.media, ms);
        RestoreCommit(s.tables, r, content, inputs, ms, s.nextId);
        CommitKeepsInv(s, x, ReviewRestored(r, content, inputs, s.nextId));
      }
    case Tx(RestoreReq(r, content, inputs), RestoreMediaNew(ms, first)) =>
      PeersCompatible(s, x);
      forall id | id in IdRun(first, |inputs|) ensures id !in s.tables.media {
        PendingUnused(s, x, id);
      }
      RestoreCommit(s.tables, r, content, inputs, ms, first);
      CommitKeepsInv(s, x, ReviewRestored(r, content, inputs, first));
    case _ =>
  }

  lemma RunIsFresh(first: nat, n: nat)
    ensures forall id :: id in IdRun(first, n) ==> first <= id < first + n
    ensures n == 0 ==> IdRun(first, n) == {}
  {
  }

  lemma RestoreCommit(t: Tables, r: nat, content: string, inputs: seq<MediaInput>, ms: set<nat>, first: nat)
    requires r in t.reviews && ms == MediaOf(t, r)
    ensures Apply(t, ReviewRestored(r, content, inputs, first))
            == t.(reviews := t.reviews[r := t.reviews[r].(content := content, active := true)],
                  media := MediaOff(t.media, ms) + NewMedia(r, inputs, first))
  {
  }

  lemma CreateStep(s: State, x: nat)
    requires Inv(s) && x in s.txs && s.txs[x].req.CreateReq?
    ensures Inv(StepTx(s, x)) && Atomic(s, StepTx(s, x))
  {
    hide IdsBelow, LocksHeld, Inv, Apply, IdRun;
    assert TxHolds(s.tables, s.txs[x]) by { TxOf(s, x); }
    match s.txs[x]
    case Tx(CreateReq(review, inputs), Begun) =>
      PeersCompatible(s, x);
      AdvanceKeepsInv(s, x, Created(s.nextId), s.nextId + 1);
    case Tx(CreateReq(review, inputs), Created(r)) =>
      PeersCompatible(s, x);
      PendingUnused(s, x, r);
      RunIsFresh(s.nextId, |inputs|);
      if |inputs| > 0 {
        AdvanceKeepsInv(s, x, CreatedMedia(r, s.nextId), s.nextId + |inputs|);
      } else {
        assert s.tables.media + NewMedia(r, inputs, s.nextId) == s.tables.media;
        CreateCommit(s.tables, r, review, inputs, s.nextId);
        CommitKeepsInv(s, x, ReviewCreated(r, review, inputs, s.nextId));
      }
    case Tx(CreateReq(review, inputs), CreatedMedia(r, first)) =>
      PeersCompatible(s, x);
      PendingUnused(s, x, r);
      forall id | id in IdRun(first, |inputs|) ensures id !in s.tables.media {
        PendingUnused(s, x, id);
      }
      CreateCommit(s.tables, r, review, inputs, first);
      CommitKeepsInv(s, x, ReviewCreated(r, review, inputs, first));
    case _ =>
  }

  lemma CreateCommit(t: Tables, r: nat, review: Review, inputs: seq<MediaInput>, first: nat)
    requires r !in t.reviews
    ensures Apply(t, ReviewCreated(r, review, inputs, first))
            == t.(reviews := t.reviews[r := review.(active := true)], media := t.media + NewMedia(r, inputs, first))
  {
  }

  lemma NextKeepsInv(s: State, e: Event)
    requires Inv(s)
    ensures Inv(Next(s, e)) && Atomic(s, Next(s, e))
  {
    match e
    case Begin(x, req) =>
      if x !in s.txs { BeginKeepsInv(s, x, req); }
    case Step(x) =>
      if x in s.txs {
        hide Inv, Atomic, StepTx;
        match s.txs[x].req
        case CommentReq(_, _, _, _) => CommentStep(s, x);
        case DeleteReq(_, _) => DeleteStep(s, x);
        case RestoreReq(_, _, _) => RestoreStep(s, x);
        case CreateReq(_, _) => CreateStep(s, x);
      }
    case Rollback(x) => EndKeepsInv(s, x);
    case DropComment(c) => DropKeepsInv(s, c);
  }

  lemma BeginKeepsInv(s: State, x: nat, req: Request)
    requires Inv(s) && x !in s.txs
    ensures Inv(s.(txs := s.txs[x := Tx(req, Begun)]))
  {
    var u := s.(txs := s.txs[x := Tx(req, Begun)]);
    assert TxHolds(u.tables, u.txs[x]) && PendingIds(u.txs[x]) == {};
    assert forall r :: !HoldsExclusive(u.txs[x], r) && !HoldsShared(u.txs[x], r);
    hide TxHolds, PendingIds, IdUsed, HoldsExclusive, HoldsShared;
    assert forall y :: y in u.txs && y != x ==> y in s.txs && u.txs[y] == s.txs[y];
    assert LocksHeld(u);
    assert forall y: nat, id: nat :: Pends(u, y, id) ==> Pends(s, y, id);
    assert IdsBelow(u);
  }

  lemma DropKeepsInv(s: State, c: nat)
    requires Inv(s)
    ensures Inv(Next(s, DropComment(c))) && Atomic(s, Next(s, DropComment(c)))
  {
    hide TxHolds, Compatible, PendingIds, IdUsed;
    var u := Next(s, DropComment(c));
    forall id: nat | IdUsed(u.tables, id) ensures IdUsed(s.tables, id) {
      WriteUsesItsIds(s.tables, CommentDropped(c), id);
    }
    assert u.tables == Apply(s.tables, CommentDropped(c)) && u.log == s.log + [CommentDropped(c)];
    forall y | y in u.txs ensures TxHolds(u.tables, u.txs[y]) {
      WriteKeepsOthers(s.tables, CommentDropped(c), s.txs[y]);
    }
    assert forall y: nat, id: nat :: Pends(u, y, id) ==> Pends(s, y, id);
  }

  // ---------- what a transaction does when it is let through, and when it waits ----------

  /** The first statement of `x` waits while another transaction holds a conflicting lock on its review. */
  lemma LocksMakeWait(s: State, x: nat, y: nat)
    requires x in s.txs && y in s.txs && s.txs[x].phase == Begun
    ensures var req := s.txs[x].req;
            && (req.CommentReq? && HoldsExclusive(s.txs[y], req.reviewId) ==> Next(s, Step(x)) == s)
            && ((req.DeleteReq? || req.RestoreReq?) && (HoldsExclusive(s.txs[y], req.reviewId) || HoldsShared(s.txs[y], req.reviewId))
                ==> Next(s, Step(x)) == s)
  {
    hide Live, HoldsExclusive, HoldsShared;
  }

  function Steps(s: State, x: nat, n: nat): State {
    if n == 0 then s else Next(Steps(s, x, n - 1), Step(x))
  }

  /** A comment meets only readers of its review: three statements, then the comment is committed under a new id. */
  lemma CommentGoesThrough(s: State, x: nat, r: nat, a: nat, content: string, open: bool)
    requires x !in s.txs && forall y :: y in s.txs ==> !HoldsExclusive(s.txs[y], r)
    ensures var u := Next(s, Begin(x, CommentReq(r, a, content, open)));
            && (Live(s.tables, r) && open ==>
                  Steps(u, x, 3) == s.(tables := Apply(s.tables, CommentAdded(s.nextId, r, a, content)), nextId := s.nextId + 1,
                                       log := s.log + [CommentAdded(s.nextId, r, a, content)]))
            && (!(Live(s.tables, r) && open) ==> Steps(u, x, 1) == s)
  {
    hide Live, Apply;
    var req := CommentReq(r, a, content, open);
    var u := Next(s, Begin(x, req));
    assert u.txs - {x} == s.txs && SharedFree(u, r);
    if Live(s.tables, r) && open {
      CommentCommit(s.tables, s.nextId, r, a, content);
      assert Steps(u, x, 1) == u.(txs := u.txs[x := Tx(req, CommentLocked)]);
      assert Steps(u, x, 2) == u.(txs := u.txs[x := Tx(req, CommentInserted(s.nextId))], nextId := s.nextId + 1);
      assert u.txs[x := Tx(req, CommentInserted(s.nextId))] - {x} == s.txs;
    }
  }

  /** A deletion with nobody on its review: four statements, then review, media and comments are off together. */
  lemma DeletionGoesThrough(s: State, x: nat, r: nat, a: nat)
    requires x !in s.txs
    requires forall y :: y in s.txs ==> !HoldsExclusive(s.txs[y], r) && !HoldsShared(s.txs[y], r)
    ensures var u := Next(s, Begin(x, DeleteReq(r, a)));
            && (Live(s.tables, r) && s.tables.reviews[r].accountId == a ==>
                  Steps(u, x, 4) == s.(tables := Apply(s.tables, ReviewDeleted(r, a)), log := s.log + [ReviewDeleted(r, a)]))
            && (!(Live(s.tables, r) && s.tables.reviews[r].accountId == a) ==> Steps(u, x, 1) == s)
  {
    hide Apply, ActiveMediaOf, ActiveCommentsOf, MediaOff, CommentsOff;
    var u, req := Next(s, Begin(x, DeleteReq(r, a))), DeleteReq(r, a);
    assert u.txs - {x} == s.txs && ExclusiveFree(u, r);
    if Live(s.tables, r) && s.tables.reviews[r].accountId == a {
      var ms, cs := ActiveMediaOf(s.tables, r), ActiveCommentsOf(s.tables, r);
      assert Steps(u, x, 1) == u.(txs := u.txs[x := Tx(req, DeleteMarked)]);
      assert Steps(u, x, 2) == u.(txs := u.txs[x := Tx(req, DeleteMediaDone(ms))]);
      assert Steps(u, x, 3) == u.(txs := u.txs[x := Tx(req, DeleteCommentsDone(ms, cs))]);
      assert u.txs[x := Tx(req, DeleteCommentsDone(ms, cs))] - {x} == s.txs;
      CollectedRows(s.tables, r, a);
      DeleteCommit(s.tables, r, a, ms, cs);
    }
  }

  lemma CollectedRows(t: Tables, r: nat, a: nat)
    requires Live(t, r) && t.reviews[r].accountId == a
    ensures TxHolds(t, Tx(DeleteReq(r, a), DeleteCommentsDone(ActiveMediaOf(t, r), ActiveCommentsOf(t, r))))
  {
  }

  /** A rewrite with nobody on its review: three statements, four with media, then review and media are new together. */
  lemma RewriteGoesThrough(s: State, x: nat, r: nat, content: string, inputs: seq<MediaInput>)
    requires x !in s.txs && r in s.tables.reviews
    requires forall y :: y in s.txs ==> !HoldsExclusive(s.txs[y], r) && !HoldsShared(s.txs[y], r)
    ensures var u := Next(s, Begin(x, RestoreReq(r, content, inputs)));
            Steps(u, x, if inputs == [] then 3 else 4)
            == s.(tables := Apply(s.tables, ReviewRestored(r, content, inputs, s.nextId)), nextId := s.nextId + |inputs|,
                  log := s.log + [ReviewRestored(r, content, inputs, s.nextId)])
  {
    hide Apply, MediaOf, MediaOff, NewMedia, Live;
    var req := RestoreReq(r, content, inputs);
    var u, ms := Next(s, Begin(x, req)), MediaOf(s.tables, r);
    RewriteCollects(s, x, r, content, inputs);
    assert u.txs[x := Tx(req, RestoreMediaOff(ms))] - {x} == s.txs;
    RestoreCommit(s.tables, r, content, inputs, ms, s.nextId);
    if inputs == [] {
      assert MediaOff(s.tables.media, ms) + NewMedia(r, inputs, s.nextId) == MediaOff(s.tables.media, ms) by {
        NoNewMedia(s.tables.media, ms, r, s.nextId);
      }
    } else {
      assert Steps(u, x, 3) == u.(txs := u.txs[x := Tx(req, RestoreMediaNew(ms, s.nextId))], nextId := s.nextId + |inputs|);
      assert u.txs[x := Tx(req, RestoreMediaNew(ms, s.nextId))] - {x} == s.txs;
    }
  }

  lemma RewriteCollects(s: State, x: nat, r: nat, content: string, inputs: seq<MediaInput>)
    requires x !in s.txs && r in s.tables.reviews
    requires forall y :: y in s.txs ==> !HoldsExclusive(s.txs[y], r) && !HoldsShared(s.txs[y], r)
    ensures var req := RestoreReq(r, content, inputs);
            var u := Next(s, Begin(x, req));
            Steps(u, x, 2) == u.(txs := u.txs[x := Tx(req, RestoreMediaOff(MediaOf(s.tables, r)))])
  {
    hide Apply, MediaOf, MediaOff, NewMedia, Live;
    var req := RestoreReq(r, content, inputs);
    var u := Next(s, Begin(x, req));
    assert ExclusiveFree(u, r);
    assert Steps(u, x, 1) == u.(txs := u.txs[x := Tx(req, RestoreMarked)]);
  }

  lemma NoNewMedia(media: map<nat, Media>, ms: set<nat>, r: nat, first: nat)
    ensures MediaOff(media, ms) + NewMedia(r, [], first) == MediaOff(media, ms)
  {
    RunIsFresh(first, 0);
  }

  /** A first review waits for nobody: two statements, three with media. */
  lemma CreationGoesThrough(s: State, x: nat, review: Review, inputs: seq<MediaInput>)
    requires x !in s.txs && s.nextId !in s.tables.reviews
    ensures var u := Next(s, Begin(x, CreateReq(review, inputs)));
            Steps(u, x, if inputs == [] then 2 else 3)
            == s.(tables := Apply(s.tables, ReviewCreated(s.nextId, review, inputs, s.nextId + 1)),
                  nextId := s.nextId + 1 + |inputs|, log := s.log + [ReviewCreated(s.nextId, review, inputs, s.nextId + 1)])
  {
    hide Apply, NewMedia;
    var req := CreateReq(review, inputs);
    var u := Next(s, Begin(x, req));
    CreationBegins(s, x, review, inputs);
    assert u.txs[x := Tx(req, Created(s.nextId))] - {x} == s.txs;
    CreateCommit(s.tables, s.nextId, review, inputs, s.nextId + 1);
    if inputs == [] {
      assert s.tables.media + NewMedia(s.nextId, inputs, s.nextId + 1) == s.tables.media by {
        RunIsFresh(s.nextId + 1, 0);
        NothingNew(s.nextId, s.nextId + 1);
      }
    } else {
      assert Steps(u, x, 2)
          == u.(txs := u.txs[x := Tx(req, CreatedMedia(s.nextId, s.nextId + 1))], nextId := s.nextId + 1 + |inputs|);
      assert u.txs[x := Tx(req, CreatedMedia(s.nextId, s.nextId + 1))] - {x} == s.txs;
    }
  }

  lemma CreationBegins(s: State, x: nat, review: Review, inputs: seq<MediaInput>)
    requires x !in s.txs
    ensures var req := CreateReq(review, inputs);
            var u := Next(s, Begin(x, req));
            Steps(u, x, 1) == u.(txs := u.txs[x := Tx(req, Created(s.nextId))], nextId := s.nextId + 1)
  {
    hide Apply, NewMedia;
  }

  lemma NothingNew(r: nat, first: nat)
    ensures NewMedia(r, [], first) == map[]
  {
    RunIsFresh(first, 0);
  }

  // ---------- the theorems ----------

  /**
   * Serializability: in every interleaving the committed tables are what the committed writes make of the
   * initial tables when each is applied as a whole, one after the other, in commit order.
   */
  lemma {:induction false} CommitOrderIsSerial(s: State, events: seq<Event>)
    requires Initial(s)
    ensures var u := Run(s, events);
            Inv(u) && u.tables == ApplyAll(s.tables, u.log) && FreshLog(s.tables, u.log)
  {
    if events != [] {
      hide Inv, Next, Apply, FreshIds;
      CommitOrderIsSerial(s, events[..|events| - 1]);
      var v, e := Run(s, events[..|events| - 1]), events[|events| - 1];
      NextKeepsInv(v, e);
      var u := Next(v, e);
      if !(u.log == v.log && u.tables == v.tables) {
        var w :| u.log == v.log + [w] && u.tables == Apply(v.tables, w) && FreshIds(v.tables, w);
        assert u.log[..|u.log| - 1] == v.log;
      }
    }
  }

  /** In no interleaving does a committed state show a live comment or live media on a deleted review. */
  lemma NoInterleavingIsUnsafe(s: State, events: seq<Event>)
    requires Initial(s) && Safe(s.tables)
    ensures Safe(Run(s, events).tables)
  {
    CommitOrderIsSerial(s, events);
    HistoryKeepsSafe(s.tables, Run(s, events).log);
  }

  // ---------- what a live review shows, in every interleaving ----------

  predicate ReqValidated(req: Request) {
    req.RestoreReq? || req.CreateReq? ==> Validated(req.inputs)
  }

  /** The service validates the media list before it starts a transaction. */
  predicate EventsValidated(events: seq<Event>) {
    forall e :: e in events && e.Begin? ==> ReqValidated(e.req)
  }

  predicate StateValidated(s: State) {
    LogValidated(s.log) && forall x :: x in s.txs ==> ReqValidated(s.txs[x].req)
  }

  lemma NextKeepsValidated(s: State, e: Event)
    requires StateValidated(s) && (e.Begin? ==> ReqValidated(e.req))
    ensures StateValidated(Next(s, e))
  {
    hide Validated, SharedFree, ExclusiveFree, Live, MediaOff, CommentsOff, NewMedia;
  }

  lemma {:induction false} RunKeepsValidated(s: State, events: seq<Event>)
    requires StateValidated(s) && EventsValidated(events)
    ensures StateValidated(Run(s, events))
  {
    hide StateValidated, Next, ReqValidated;
    if events != [] {
      RunKeepsValidated(s, events[..|events| - 1]);
      NextKeepsValidated(Run(s, events[..|events| - 1]), events[|events| - 1]);
    }
  }

  /**
   * In every interleaving that starts without reviews, the active media of a live review are exactly the list
   * of its last committed write, and at most ten images and one video.
   */
  lemma NoInterleavingMixesMedia(s: State, events: seq<Event>, r: nat)
    requires Initial(s) && s.tables.reviews == map[] && Safe(s.tables)
    requires forall e :: e in events && e.Begin? && (e.req.RestoreReq? || e.req.CreateReq?) ==> Validated(e.req.inputs)
    ensures var u := Run(s, events);
            Live(u.tables, r) ==>
              var w := LatestWrite(s.tables, u.log, r);
              && w.Some? && ShowsList(u.tables, r, w.value.inputs, w.value.firstMediaId)
              && |ActiveOfKind(u.tables, r, Image)| <= 10
              && |ActiveOfKind(u.tables, r, Video)| <= 1
  {
    hide Inv, Run, ApplyAll, FreshLog, ShowsList, Live, LatestWrite, ActiveOfKind;
    CommitOrderIsSerial(s, events);
    RunKeepsValidated(s, events);
    LiveReviewShowsLatestList(s.tables, Run(s, events).log, r);
    LiveReviewMediaIsBounded(s.tables, Run(s, events).log, r);
  }

  // ---------- comments after a restore ----------

  /** No comment on `r` with an id below `n` is active or waits to be committed. */
  ghost predicate OldGone(s: State, r: nat, n: nat) {
    && n <= s.nextId
    && (forall c :: c in s.tables.comments && s.tables.comments[c].reviewId == r && c < n ==> !s.tables.comments[c].active)
    && (forall x :: x in s.txs ==> Late(s.txs[x], r, n))
  }

  predicate Late(tx: Tx, r: nat, n: nat) {
    tx.req.CommentReq? && tx.req.reviewId == r && tx.phase.CommentInserted? ==> n <= tx.phase.commentId
  }

  lemma NextKeepsOldGone(s: State, e: Event, r: nat, n: nat)
    requires OldGone(s, r, n)
    ensures OldGone(Next(s, e), r, n)
  {
    hide SharedFree, ExclusiveFree, Live, MediaOff, NewMedia, MediaOf, ActiveMediaOf, CommentsOf, ActiveCommentsOf;
  }

  lemma {:induction false} RunKeepsOldGone(s: State, events: seq<Event>, r: nat, n: nat)
    requires OldGone(s, r, n)
    ensures OldGone(Run(s, events), r, n)
  {
    hide OldGone, Next;
    if events != [] {
      RunKeepsOldGone(s, events[..|events| - 1], r, n);
      NextKeepsOldGone(Run(s, events[..|events| - 1]), events[|events| - 1], r, n);
    }
  }

  lemma {:induction false} RunInParts(s: State, first: seq<Event>, rest: seq<Event>)
    ensures Run(s, first + rest) == Run(Run(s, first), rest)
  {
    hide Next;
    if rest == [] {
      assert first + rest == first;
    } else {
      RunInParts(s, first, rest[..|rest| - 1]);
      assert (first + rest)[..|first + rest| - 1] == first + rest[..|rest| - 1];
    }
  }

  /**
    * In every interleaving a comment active after some committed write keeps its row as it was, until it is dropped
    * itself or its review is deleted by the author.
    */
  lemma NoInterleavingLosesComments(s: State, events: seq<Event>, j: nat, c: nat)
    requires Initial(s) && j <= |Run(s, events).log|
    ensures var log := Run(s, events).log;
            var before := ApplyAll(s.tables, log[..j]);
            && c in before.comments
            && (forall k :: j <= k < |log| && c in ApplyAll(s.tables, log[..k]).comments ==>
                  !EndsComment(ApplyAll(s.tables, log[..k]), log[k], c))
            ==> c in Run(s, events).tables.comments && Run(s, events).tables.comments[c] == before.comments[c]
  {
    hide Inv, Run, ApplyAll, FreshLog, EndsComment;
    CommitOrderIsSerial(s, events);
    var log := Run(s, events).log;
    if c in ApplyAll(s.tables, log[..j]).comments
       && forall k :: j <= k < |log| && c in ApplyAll(s.tables, log[..k]).comments ==>
            !EndsComment(ApplyAll(s.tables, log[..k]), log[k], c)
    {
      CommentStays(s.tables, log, j, c);
    }
  }

  /** The event is the commit of a transaction that brings the deleted review `r` back. */
  predicate BringsBack(s: State, e: Event, r: nat) {
    && e.Step? && e.tx in s.txs && s.txs[e.tx].req.RestoreReq? && s.txs[e.tx].req.reviewId == r
    && !Live(s.tables, r) && Next(s, e).log != s.log
  }

  /** At that commit the locks keep every comment on the review out: none is active, none is waiting. */
  lemma BringingBackStartsEmpty(s: State, e: Event, r: nat)
    requires Inv(s) && Safe(s.tables) && BringsBack(s, e, r)
    ensures OldGone(Next(s, e), r, s.nextId)
  {
    hide IdsBelow, MediaOff, NewMedia, MediaOf, Live;
    PeersCompatible(s, e.tx);
    assert HoldsExclusive(s.txs[e.tx], r);
    forall x | x in s.txs && x != e.tx ensures Late(s.txs[x], r, s.nextId) {
      assert !HoldsShared(s.txs[x], r);
    }
  }

  /**
   * Whenever a deleted review is brought back, every comment on it that is active at any later time has an id
   * that was not yet handed out at that commit: it was inserted afterwards, not merely committed afterwards.
   */
  lemma NoInterleavingRevivesComments(s: State, before: seq<Event>, e: Event, after: seq<Event>, r: nat, c: nat)
    requires Initial(s) && Safe(s.tables) && BringsBack(Run(s, before), e, r)
    ensures var u := Run(s, before + [e] + after);
            c in u.tables.comments && u.tables.comments[c].reviewId == r && u.tables.comments[c].active ==>
              c >= Run(s, before).nextId
  {
    hide Inv, Run, Next, BringsBack;
    CommitOrderIsSerial(s, before);
    NoInterleavingIsUnsafe(s, before);
    BringingBackStartsEmpty(Run(s, before), e, r);
    RunInParts(s, before + [e], after);
    RunOneMore(s, before, e);
    RunKeepsOldGone(Run(s, before + [e]), after, r, Run(s, before).nextId);
  }

  lemma RunOneMore(s: State, events: seq<Event>, e: Event)
    ensures Run(s, events + [e]) == Next(Run(s, events), e)
  {
    hide Next;
    assert (events + [e])[..|events|] == events;
  }

  /** In commit order too: no comment committed before a review was deleted comes back when it is restored. */
  lemma NoCommitRevivesComments(s: State, events: seq<Event>, j: nat, c: nat)
    requires Initial(s) && Safe(s.tables)
    requires var u := Run(s, events);
             && j < |u.log| && u.log[j].ReviewRestored? && !Live(ApplyAll(s.tables, u.log[..j]), u.log[j].reviewId)
             && c in u.tables.comments && u.tables.comments[c].active && u.tables.comments[c].reviewId == u.log[j].reviewId
    ensures c !in ApplyAll(s.tables, Run(s, events).log[..j]).comments
  {
    CommitOrderIsSerial(s, events);
    NoZombieComments(s.tables, Run(s, events).log, j, c);
  }
}
