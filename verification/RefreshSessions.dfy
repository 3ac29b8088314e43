/** Refresh sessions: issue, rotate, revoke, revoke-all and withdrawal, and the chains that rotation builds. */
module RefreshSessions {
  import opened Wrappers

  datatype Session = Session(
    accountId: nat, tokenHash: string, expiresAt: int, revokedAt: Option<int>, replacedBy: Option<nat>, deleted: bool)
  datatype Table = Table(rows: map<nat, Session>, nextId: nat)

  predicate HasHash(t: Table, i: nat, h: string) {
    i in t.rows && t.rows[i].tokenHash == h
  }

  predicate HashTaken(t: Table, h: string) {
    exists i: nat | i in t.rows :: HasHash(t, i, h)
  }

  predicate Live(t: Table, i: nat) {
    i in t.rows && t.rows[i].revokedAt.None? && !t.rows[i].deleted
  }

  predicate Active(t: Table, i: nat, h: string, now: int) {
    HasHash(t, i, h) && Live(t, i) && t.rows[i].expiresAt > now
  }

  ghost function FindActive(t: Table, h: string, now: int): (r: Option<nat>)
    ensures r.Some? ==> Active(t, r.value, h, now)
    ensures r.None? ==> forall i: nat :: !Active(t, i, h, now)
  {
    if exists i: nat :: Active(t, i, h, now) then var i: nat :| Active(t, i, h, now); Some(i) else None
  }

  /** A new row; refused when the token hash is already stored, since that column is UNIQUE. */
  function Create(t: Table, a: nat, h: string, expiresAt: int): Table {
    if HashTaken(t, h) then t
    else Table(t.rows[t.nextId := Session(a, h, expiresAt, None, None, false)], t.nextId + 1)
  }

  function MarkReplaced(t: Table, i: nat, j: nat, now: int): Table
    requires i in t.rows
  {
    t.(rows := t.rows[i := t.rows[i].(revokedAt := Some(now), replacedBy := Some(j))])
  }

  function Rotate(t: Table, i: nat, newHash: string, now: int, expiresAt: int): Table
    requires i in t.rows
  {
    if HashTaken(t, newHash) then t
    else
      var u := Create(t, t.rows[i].accountId, newHash, expiresAt);
      MarkReplaced(u, i, t.nextId, now)
  }

  function Revoke(t: Table, i: nat, now: int): Table
    requires i in t.rows
  {
    t.(rows := t.rows[i := t.rows[i].(revokedAt := Some(now))])
  }

  function RevokeAll(t: Table, a: nat, now: int): Table {
    t.(rows := map i | i in t.rows ::
         if t.rows[i].accountId == a && t.rows[i].revokedAt.None? then t.rows[i].(revokedAt := Some(now)) else t.rows[i])
  }

  function WithdrawAll(t: Table, a: nat, now: int): Table {
    t.(rows := map i | i in t.rows ::
         if t.rows[i].accountId == a && t.rows[i].revokedAt.None? && !t.rows[i].deleted
         then t.rows[i].(revokedAt := Some(now), deleted := true) else t.rows[i])
  }

  // ---------- requests ----------

  /** Tokens reach the table as hashes. A request with an unknown or spent token changes nothing. */
  datatype Event =
    | Issue(accountId: nat, tokenHash: string, expiresAt: int)
    | Refresh(tokenHash: string, newHash: string, now: int, expiresAt: int)
    | Logout(tokenHash: string, now: int)
    | ChangePassword(accountId: nat, now: int)
    | WithdrawAccount(accountId: nat, now: int)

  ghost function Next(t: Table, e: Event): Table {
    match e
    case Issue(a, h, expiresAt) => Create(t, a, h, expiresAt)
    case Refresh(h, newHash, now, expiresAt) =>
      var found := FindActive(t, h, now);
      if found.None? then t else Rotate(t, found.value, newHash, now, expiresAt)
    case Logout(h, now) =>
      var found := FindActive(t, h, now);
      if found.None? then t else Revoke(t, found.value, now)
    case ChangePassword(a, now) => RevokeAll(t, a, now)
    case WithdrawAccount(a, now) => WithdrawAll(t, a, now)
  }

  ghost function Run(t: Table, events: seq<Event>): Table {
    if events == [] then t else Next(Run(t, events[..|events| - 1]), events[|events| - 1])
  }

  // ---------- what every request keeps ----------

  /** An edge points to a later session of the same account, and only a revoked session has one. */
  predicate GoodRow(t: Table, i: nat)
    requires i in t.rows
  {
    i < t.nextId &&
    match t.rows[i].replacedBy
    case None => true
    case Some(j) => i < j && j in t.rows && t.rows[j].accountId == t.rows[i].accountId && t.rows[i].revokedAt.Some?
  }

  predicate SameHash(t: Table, i: nat, j: nat) {
    i in t.rows && j in t.rows && t.rows[i].tokenHash == t.rows[j].tokenHash
  }

  predicate SameSuccessor(t: Table, i: nat, j: nat) {
    i in t.rows && j in t.rows && t.rows[i].replacedBy.Some? && t.rows[i].replacedBy == t.rows[j].replacedBy
  }

  ghost predicate Valid(t: Table) {
    && (forall i: nat :: i in t.rows ==> GoodRow(t, i))
    && (forall i: nat, j: nat :: SameHash(t, i, j) ==> i == j)
    && (forall i: nat, j: nat :: SameSuccessor(t, i, j) ==> i == j)
  }

  /** Rows only change by being revoked or deleted. */
  predicate RowWorn(r: Session, s: Session) {
    && s == r.(revokedAt := s.revokedAt, deleted := s.deleted)
    && (r.revokedAt.Some? ==> s.revokedAt.Some?) && (r.deleted ==> s.deleted)
  }

  predicate OnlyWears(t: Table, u: Table) {
    u.nextId == t.nextId && u.rows.Keys == t.rows.Keys && forall i: nat :: i in t.rows ==> RowWorn(t.rows[i], u.rows[i])
  }

  lemma WearKeepsValid(t: Table, u: Table)
    requires Valid(t) && OnlyWears(t, u)
    ensures Valid(u)
  {
    forall i: nat | i in u.rows ensures GoodRow(u, i) { assert GoodRow(t, i) && RowWorn(t.rows[i], u.rows[i]); }
    forall i: nat, j: nat | SameHash(u, i, j) ensures i == j {
      assert RowWorn(t.rows[i], u.rows[i]) && RowWorn(t.rows[j], u.rows[j]) && SameHash(t, i, j);
    }
    forall i: nat, j: nat | SameSuccessor(u, i, j) ensures i == j {
      assert RowWorn(t.rows[i], u.rows[i]) && RowWorn(t.rows[j], u.rows[j]) && SameSuccessor(t, i, j);
    }
  }

  lemma NextIdIsNew(t: Table)
    requires Valid(t)
    ensures t.nextId !in t.rows
  {
  }

  lemma CreateKeepsValid(t: Table, a: nat, h: string, expiresAt: int)
    requires Valid(t)
    ensures Valid(Create(t, a, h, expiresAt))
  {
    if !HashTaken(t, h) {
      var u := Create(t, a, h, expiresAt);
      forall i: nat | i in u.rows ensures GoodRow(u, i) { if i in t.rows { assert GoodRow(t, i); } }
      forall i: nat, j: nat | SameHash(u, i, j) ensures i == j {
        assert !HasHash(t, i, h) && !HasHash(t, j, h);
        if i in t.rows && j in t.rows { assert SameHash(t, i, j); }
      }
      forall i: nat, j: nat | SameSuccessor(u, i, j) ensures i == j {
        assert i in t.rows && j in t.rows;
        assert GoodRow(t, i) && GoodRow(t, j) && SameSuccessor(t, i, j);
      }
    }
  }

  lemma MarkKeepsValid(t: Table, i: nat, j: nat, now: int)
    requires Valid(t) && i in t.rows && t.rows[i].replacedBy.None?
    requires j in t.rows && i < j && t.rows[j].accountId == t.rows[i].accountId
    requires forall k: nat :: k in t.rows ==> t.rows[k].replacedBy != Some(j)
    ensures Valid(MarkReplaced(t, i, j, now))
  {
    var u := MarkReplaced(t, i, j, now);
    forall k: nat | k in u.rows ensures GoodRow(u, k) { assert GoodRow(t, k); }
    forall k: nat, m: nat | SameHash(u, k, m) ensures k == m { assert SameHash(t, k, m); }
    forall k: nat, m: nat | SameSuccessor(u, k, m) ensures k == m {
      if k != i && m != i { assert SameSuccessor(t, k, m); }
    }
  }

  lemma RotateKeepsValid(t: Table, i: nat, newHash: string, now: int, expiresAt: int)
    requires Valid(t) && Live(t, i)
    ensures Valid(Rotate(t, i, newHash, now, expiresAt))
  {
    if !HashTaken(t, newHash) {
      var u := Create(t, t.rows[i].accountId, newHash, expiresAt);
      CreateKeepsValid(t, t.rows[i].accountId, newHash, expiresAt);
      NextIdIsNew(t);
      assert GoodRow(t, i);
      forall k: nat | k in u.rows ensures u.rows[k].replacedBy != Some(t.nextId) {
        if k in t.rows { assert GoodRow(t, k); }
      }
      MarkKeepsValid(u, i, t.nextId, now);
    }
  }

  lemma RevokingOnlyWears(t: Table, i: nat, a: nat, now: int)
    requires i in t.rows
    ensures OnlyWears(t, Revoke(t, i, now)) && OnlyWears(t, RevokeAll(t, a, now)) && OnlyWears(t, WithdrawAll(t, a, now))
  {
  }

  lemma RevokingAllOnlyWears(t: Table, a: nat, now: int)
    ensures OnlyWears(t, RevokeAll(t, a, now)) && OnlyWears(t, WithdrawAll(t, a, now))
  {
  }

  lemma NextKeepsValid(t: Table, e: Event)
    requires Valid(t)
    ensures Valid(Next(t, e))
  {
    hide Valid, OnlyWears, Create, Rotate, Revoke, RevokeAll, WithdrawAll;
    match e
    case Issue(a, h, expiresAt) => CreateKeepsValid(t, a, h, expiresAt);
    case Refresh(h, newHash, now, expiresAt) =>
      var found := FindActive(t, h, now);
      if found.Some? { RotateKeepsValid(t, found.value, newHash, now, expiresAt); }
    case Logout(h, now) =>
      var found := FindActive(t, h, now);
      if found.Some? { RevokingOnlyWears(t, found.value, 0, now); WearKeepsValid(t, Revoke(t, found.value, now)); }
    case ChangePassword(a, now) => RevokingAllOnlyWears(t, a, now); WearKeepsValid(t, RevokeAll(t, a, now));
    case WithdrawAccount(a, now) => RevokingAllOnlyWears(t, a, now); WearKeepsValid(t, WithdrawAll(t, a, now));
  }

  /** Over every run the `replacedBy` edges stay account-preserving, increasing and one-to-one. */
  lemma {:induction false} RunKeepsValid(t: Table, events: seq<Event>)
    requires Valid(t)
    ensures Valid(Run(t, events))
  {
    hide Valid, Next;
    if events != [] {
      RunKeepsValid(t, events[..|events| - 1]);
      NextKeepsValid(Run(t, events[..|events| - 1]), events[|events| - 1]);
    }
  }

  // ---------- chains ----------

  /** The session `n` replacements after session `i`. */
  function Follow(t: Table, i: nat, n: nat): Option<nat>
    decreases n
  {
    if i !in t.rows then None
    else if n == 0 then Some(i)
    else if t.rows[i].replacedBy.None? then None
    else Follow(t, t.rows[i].replacedBy.value, n - 1)
  }

  /** Along a chain ids strictly increase and the account stays the same. */
  lemma {:induction false} ChainKeepsAccount(t: Table, i: nat, n: nat)
    requires Valid(t) && Follow(t, i, n).Some?
    ensures var j := Follow(t, i, n).value;
            i in t.rows && j in t.rows && i + n <= j && t.rows[i].accountId == t.rows[j].accountId
    decreases n
  {
    if n > 0 {
      assert GoodRow(t, i);
      ChainKeepsAccount(t, t.rows[i].replacedBy.value, n - 1);
    }
  }

  lemma {:induction false} FollowFollow(t: Table, i: nat, m: nat, n: nat)
    requires m <= n && Follow(t, i, m).Some?
    ensures Follow(t, i, n) == Follow(t, Follow(t, i, m).value, n - m)
    decreases m
  {
    if m > 0 {
      FollowFollow(t, t.rows[i].replacedBy.value, m - 1, n - 1);
    }
  }

  ghost predicate SameChain(t: Table, i: nat, j: nat) {
    exists root: nat, m: nat, n: nat :: Follow(t, root, m) == Some(i) && Follow(t, root, n) == Some(j)
  }

  /** In every chain at most one session is unrevoked. */
  lemma OneLivePerChain(t: Table, i: nat, j: nat)
    requires Valid(t) && i in t.rows && j in t.rows && SameChain(t, i, j)
    requires t.rows[i].revokedAt.None? && t.rows[j].revokedAt.None?
    ensures i == j
  {
    var root: nat, m: nat, n: nat :| Follow(t, root, m) == Some(i) && Follow(t, root, n) == Some(j);
    assert GoodRow(t, i) && GoodRow(t, j);
    if m <= n {
      FollowFollow(t, root, m, n);
    } else {
      FollowFollow(t, root, n, m);
    }
  }

  /** Chains never merge: two chains that reach one session in equally many steps start at one session. */
  lemma {:induction false} ChainsNeverMerge(t: Table, i: nat, j: nat, n: nat)
    requires Valid(t) && Follow(t, i, n).Some? && Follow(t, i, n) == Follow(t, j, n)
    ensures i == j
    decreases n
  {
    if n > 0 {
      ChainsNeverMerge(t, t.rows[i].replacedBy.value, t.rows[j].replacedBy.value, n - 1);
      assert SameSuccessor(t, i, j);
    }
  }

  /** A withdrawal revokes and deletes the account's live sessions; every other session stays as it is. */
  lemma WithdrawMeaning(t: Table, a: nat, now: int, i: nat)
    requires i in t.rows
    ensures var u, r := Next(t, WithdrawAccount(a, now)), t.rows[i];
            && u.rows.Keys == t.rows.Keys && u.nextId == t.nextId
            && u.rows[i] == if r.accountId == a && r.revokedAt.None? && !r.deleted
                            then r.(revokedAt := Some(now), deleted := true) else r
  {
  }

  // ---------- conservation ----------

  function LiveOf(t: Table, a: nat): set<nat> {
    set i | i in t.rows && LiveFor(t, a, i)
  }

  function LiveAll(t: Table): set<nat> {
    set i | i in t.rows && Live(t, i)
  }

  lemma SwapKeepsSize(s: set<nat>, i: nat, j: nat)
    requires i in s && j !in s
    ensures |s - {i} + {j}| == |s|
  {
  }

  predicate LiveFor(t: Table, a: nat, i: nat) {
    Live(t, i) && t.rows[i].accountId == a
  }

  lemma RotateMovesLive(t: Table, i: nat, newHash: string, now: int, expiresAt: int, a: nat, k: nat)
    requires Live(t, i) && !HashTaken(t, newHash) && t.nextId !in t.rows
    ensures var u := Rotate(t, i, newHash, now, expiresAt);
            && (Live(u, k) <==> k == t.nextId || (Live(t, k) && k != i))
            && (LiveFor(u, a, k) <==> if k == t.nextId then t.rows[i].accountId == a else LiveFor(t, a, k) && k != i)
  {
  }

  lemma RotateConservesLive(t: Table, i: nat, newHash: string, now: int, expiresAt: int, a: nat)
    requires Live(t, i) && !HashTaken(t, newHash) && t.nextId !in t.rows
    ensures var u := Rotate(t, i, newHash, now, expiresAt);
            && LiveAll(u) == LiveAll(t) - {i} + {t.nextId} && |LiveAll(u)| == |LiveAll(t)|
            && |LiveOf(u, a)| == |LiveOf(t, a)|
  {
    hide Rotate, HashTaken, Live, LiveFor;
    LiveMembers(t, a);
    var u, j := Rotate(t, i, newHash, now, expiresAt), t.nextId;
    forall k: nat
      ensures Live(u, k) <==> k == j || (Live(t, k) && k != i)
      ensures LiveFor(u, a, k) <==> if k == j then t.rows[i].accountId == a else LiveFor(t, a, k) && k != i
    {
      RotateMovesLive(t, i, newHash, now, expiresAt, a, k);
    }
    LiveMembers(u, a);
    assert LiveAll(u) == LiveAll(t) - {i} + {j};
    SwapKeepsSize(LiveAll(t), i, j);
    if a == t.rows[i].accountId {
      assert LiveFor(t, a, i) by { LiveForMeans(t, a, i); }
      assert LiveOf(u, a) == LiveOf(t, a) - {i} + {j};
      SwapKeepsSize(LiveOf(t, a), i, j);
    } else {
      assert !LiveFor(t, a, i) by { LiveForMeans(t, a, i); }
      assert LiveOf(u, a) == LiveOf(t, a);
    }
  }

  lemma LiveForMeans(t: Table, a: nat, i: nat)
    requires i in t.rows
    ensures LiveFor(t, a, i) <==> Live(t, i) && t.rows[i].accountId == a
  {
  }

  lemma LiveMembers(t: Table, a: nat)
    ensures forall k: nat :: k in LiveAll(t) <==> Live(t, k)
    ensures forall k: nat :: k in LiveOf(t, a) <==> LiveFor(t, a, k)
    ensures forall k: nat :: Live(t, k) || LiveFor(t, a, k) ==> k in t.rows
  {
  }

  /** A successful refresh trades exactly one live session for one new one of the same account. */
  lemma RefreshConservesLive(t: Table, h: string, newHash: string, now: int, expiresAt: int, a: nat)
    requires Valid(t) && FindActive(t, h, now).Some? && !HashTaken(t, newHash)
    ensures var u, i := Next(t, Refresh(h, newHash, now, expiresAt)), FindActive(t, h, now).value;
            && LiveAll(u) == LiveAll(t) - {i} + {t.nextId} && |LiveAll(u)| == |LiveAll(t)| && t.nextId !in t.rows
            && |LiveOf(u, a)| == |LiveOf(t, a)|
            && t.nextId in u.rows && u.rows[t.nextId].accountId == t.rows[i].accountId
            && u.rows[i].replacedBy == Some(t.nextId)
  {
    hide Rotate, LiveAll, LiveOf, Valid, HashTaken;
    NextIdIsNew(t);
    RotateRows(t, FindActive(t, h, now).value, newHash, now, expiresAt);
    RotateConservesLive(t, FindActive(t, h, now).value, newHash, now, expiresAt, a);
  }

  lemma RotateRows(t: Table, i: nat, newHash: string, now: int, expiresAt: int)
    requires i in t.rows && !HashTaken(t, newHash) && t.nextId !in t.rows
    ensures var u := Rotate(t, i, newHash, now, expiresAt);
            && u.rows.Keys == t.rows.Keys + {t.nextId} && u.nextId == t.nextId + 1
            && (forall k: nat :: k in t.rows && k != i ==> u.rows[k] == t.rows[k])
            && u.rows[t.nextId] == Session(t.rows[i].accountId, newHash, expiresAt, None, None, false)
            && u.rows[i] == t.rows[i].(revokedAt := Some(now), replacedBy := Some(t.nextId))
  {
  }

  /** How many sessions were issued to `a` since its last password change or withdrawal. */
  function IssuedSince(events: seq<Event>, a: nat): nat {
    if events == [] then 0
    else
      var before := IssuedSince(events[..|events| - 1], a);
      var e := events[|events| - 1];
      if e.Issue? && e.accountId == a then before + 1
      else if (e.ChangePassword? || e.WithdrawAccount?) && e.accountId == a then 0
      else before
  }

  /** Each session issued to the account counts one, others none, and a reset starts again from zero. */
  lemma IssuedSinceSteps(events: seq<Event>, e: Event, a: nat)
    ensures IssuedSince([], a) == 0
    ensures e.Issue? ==> IssuedSince(events + [e], a) == IssuedSince(events, a) + if e.accountId == a then 1 else 0
    ensures e.ChangePassword? || e.WithdrawAccount? ==>
              IssuedSince(events + [e], a) == if e.accountId == a then 0 else IssuedSince(events, a)
    ensures e.Refresh? || e.Logout? ==> IssuedSince(events + [e], a) == IssuedSince(events, a)
  {
    assert (events + [e])[..|events|] == events;
  }

  lemma WearShrinksLive(t: Table, u: Table, a: nat)
    requires OnlyWears(t, u)
    ensures LiveOf(u, a) <= LiveOf(t, a) && |LiveOf(u, a)| <= |LiveOf(t, a)|
  {
    forall i: nat | i in LiveOf(u, a) ensures i in LiveOf(t, a) { assert RowWorn(t.rows[i], u.rows[i]); }
    SubsetSize(LiveOf(u, a), LiveOf(t, a));
  }

  lemma CreatedIsLive(t: Table, b: nat, h: string, expiresAt: int, a: nat, k: nat)
    requires t.nextId !in t.rows && !HashTaken(t, h)
    ensures LiveFor(Create(t, b, h, expiresAt), a, k) <==> LiveFor(t, a, k) || (k == t.nextId && b == a)
  {
  }

  lemma CreateBoundsLive(t: Table, b: nat, h: string, expiresAt: int, a: nat)
    requires t.nextId !in t.rows
    ensures |LiveOf(Create(t, b, h, expiresAt), a)| <= |LiveOf(t, a)| + (if b == a then 1 else 0)
  {
    hide HashTaken, LiveFor, LiveOf, Live;
    if !HashTaken(t, h) {
      var u := Create(t, b, h, expiresAt);
      forall k: nat ensures LiveFor(u, a, k) <==> LiveFor(t, a, k) || (k == t.nextId && b == a) {
        CreatedIsLive(t, b, h, expiresAt, a, k);
      }
      LiveMembers(t, a);
      LiveMembers(u, a);
      assert LiveOf(u, a) == LiveOf(t, a) + (if b == a then {t.nextId} else {});
    }
  }

  lemma ResetEndsLive(t: Table, a: nat, now: int)
    ensures LiveOf(RevokeAll(t, a, now), a) == {} && LiveOf(WithdrawAll(t, a, now), a) == {}
  {
  }

  lemma NextBoundsLive(t: Table, e: Event, a: nat)
    requires Valid(t)
    ensures |LiveOf(Next(t, e), a)| <= |LiveOf(t, a)| + (if e.Issue? && e.accountId == a then 1 else 0)
    ensures (e.ChangePassword? || e.WithdrawAccount?) && e.accountId == a ==> LiveOf(Next(t, e), a) == {}
  {
    hide OnlyWears, Valid, LiveOf, HashTaken, Create, Rotate, Revoke, RevokeAll, WithdrawAll;
    match e
    case Issue(b, h, expiresAt) => NextIdIsNew(t); CreateBoundsLive(t, b, h, expiresAt, a);
    case Refresh(h, newHash, now, expiresAt) =>
      if FindActive(t, h, now).Some? {
        if HashTaken(t, newHash) {
          RotateRefused(t, FindActive(t, h, now).value, newHash, now, expiresAt);
        } else {
          RefreshConservesLive(t, h, newHash, now, expiresAt, a);
        }
      }
    case Logout(h, now) =>
      var found := FindActive(t, h, now);
      if found.Some? { RevokingOnlyWears(t, found.value, 0, now); WearShrinksLive(t, Revoke(t, found.value, now), a); }
    case ChangePassword(b, now) =>
      RevokingAllOnlyWears(t, b, now); WearShrinksLive(t, RevokeAll(t, b, now), a); ResetEndsLive(t, b, now);
    case WithdrawAccount(b, now) =>
      RevokingAllOnlyWears(t, b, now); WearShrinksLive(t, WithdrawAll(t, b, now), a); ResetEndsLive(t, b, now);
  }

  /** Rotation never multiplies access: an account has at most as many live sessions as it was issued since its last reset. */
  lemma {:induction false} LiveSessionsAreIssued(events: seq<Event>, a: nat)
    ensures |LiveOf(Run(Table(map[], 0), events), a)| <= IssuedSince(events, a)
  {
    hide Next, Valid, LiveOf;
    if events == [] {
      assert LiveOf(Table(map[], 0), a) == {} by { NothingLive(a); }
    } else {
      var before := events[..|events| - 1];
      LiveSessionsAreIssued(before, a);
      EmptyIsValid();
      RunKeepsValid(Table(map[], 0), before);
      NextBoundsLive(Run(Table(map[], 0), before), events[|events| - 1], a);
    }
  }

  lemma NothingLive(a: nat)
    ensures LiveOf(Table(map[], 0), a) == {}
  {
  }

  lemma EmptyIsValid()
    ensures Valid(Table(map[], 0))
  {
  }

  // ---------- dead tokens stay dead ----------

  predicate Dead(t: Table, i: nat, h: string) {
    HasHash(t, i, h) && !Live(t, i)
  }

  lemma NextKeepsDead(t: Table, e: Event, i: nat, h: string)
    requires Valid(t) && Dead(t, i, h)
    ensures Dead(Next(t, e), i, h)
  {
  }

  lemma RotateRefused(t: Table, i: nat, newHash: string, now: int, expiresAt: int)
    requires i in t.rows && HashTaken(t, newHash)
    ensures Rotate(t, i, newHash, now, expiresAt) == t
  {
  }

  /** The token of a session that is revoked or deleted is never accepted again, whatever happens later. */
  lemma {:induction false} DeadTokenNeverAccepted(t: Table, events: seq<Event>, i: nat, h: string, now: int)
    requires Valid(t) && Dead(t, i, h)
    ensures Dead(Run(t, events), i, h) && FindActive(Run(t, events), h, now).None?
  {
    hide Next, Valid, Dead, FindActive;
    if events != [] {
      var v := Run(t, events[..|events| - 1]);
      RunKeepsValid(t, events[..|events| - 1]);
      DeadTokenNeverAccepted(t, events[..|events| - 1], i, h, now);
      NextKeepsDead(v, events[|events| - 1], i, h);
    }
    RunKeepsValid(t, events);
    DeadIsNotFound(Run(t, events), i, h, now);
  }

  lemma DeadIsNotFound(t: Table, i: nat, h: string, now: int)
    requires Valid(t) && Dead(t, i, h)
    ensures FindActive(t, h, now).None?
  {
    var found := FindActive(t, h, now);
    if found.Some? { assert SameHash(t, i, found.value); }
  }

  /** No token issued before a password change or a withdrawal of its account is accepted afterwards. */
  lemma OldTokensAreRefused(t: Table, e: Event, events: seq<Event>, i: nat, now: int)
    requires Valid(t) && i in t.rows
    requires e.ChangePassword? || e.WithdrawAccount?
    requires e.accountId == t.rows[i].accountId
    ensures FindActive(Run(Next(t, e), events), t.rows[i].tokenHash, now).None?
  {
    NextKeepsValid(t, e);
    assert Dead(Next(t, e), i, t.rows[i].tokenHash);
    DeadTokenNeverAccepted(Next(t, e), events, i, t.rows[i].tokenHash, now);
  }

  /** A token buys one refresh: once spent it is refused in every later state, and its successor is accepted. */
  lemma TokenIsSpentOnce(t: Table, h: string, newHash: string, now: int, expiresAt: int, events: seq<Event>, later: int)
    requires Valid(t) && FindActive(t, h, now).Some? && !HashTaken(t, newHash)
    ensures var u := Next(t, Refresh(h, newHash, now, expiresAt));
            && FindActive(Run(u, events), h, later).None?
            && (FindActive(u, newHash, later) == Some(t.nextId) <==> later < expiresAt)
  {
    hide Valid, Rotate;
    var e := Refresh(h, newHash, now, expiresAt);
    var i, u := FindActive(t, h, now).value, Next(t, Refresh(h, newHash, now, expiresAt));
    NextKeepsValid(t, e);
    NextIdIsNew(t);
    RotateRows(t, i, newHash, now, expiresAt);
    assert Dead(u, i, h);
    DeadTokenNeverAccepted(u, events, i, h, later);
    OnlyHolder(u, t.nextId, newHash, later);
  }

  lemma OnlyHolder(t: Table, i: nat, h: string, now: int)
    requires Valid(t) && HasHash(t, i, h)
    ensures FindActive(t, h, now) == if Active(t, i, h, now) then Some(i) else None
  {
    var found := FindActive(t, h, now);
    if found.Some? { assert SameHash(t, i, found.value); }
  }

  /**
    * Revoking all sessions of an account: each of its tokens is refused from then on, every other token is
    * answered as before, and neither earlier revocation times nor other sessions are touched.
    */
  lemma RevokeAllMeaning(t: Table, a: nat, now: int, h: string, later: int)
    requires Valid(t)
    ensures var u, found := RevokeAll(t, a, now), FindActive(t, h, later);
            && FindActive(u, h, later) == (if found.Some? && t.rows[found.value].accountId == a then None else found)
            && LiveOf(u, a) == {} && u.rows.Keys == t.rows.Keys
            && (forall i: nat :: i in t.rows && (t.rows[i].accountId != a || t.rows[i].revokedAt.Some?) ==> u.rows[i] == t.rows[i])
            && (forall i: nat :: i in t.rows && t.rows[i].accountId == a ==> u.rows[i].revokedAt.Some?)
  {
    var u, found := RevokeAll(t, a, now), FindActive(t, h, later);
    RevokingAllOnlyWears(t, a, now);
    WearKeepsValid(t, u);
    if found.Some? {
      OnlyHolder(u, found.value, h, later);
    } else {
      assert forall i: nat :: Active(u, i, h, later) ==> Active(t, i, h, later);
    }
    ResetEndsLive(t, a, now);
  }

  /**
    * Logging out: the token's session is revoked at that time and nothing else about it or any other session
    * changes; its token is refused ever after, every other token is answered as before.
    */
  lemma LogoutMeaning(t: Table, h: string, now: int, events: seq<Event>, other: string, later: int)
    requires Valid(t) && FindActive(t, h, now).Some?
    ensures var u, i := Next(t, Logout(h, now)), FindActive(t, h, now).value;
            && u.nextId == t.nextId && u.rows == t.rows[i := t.rows[i].(revokedAt := Some(now))]
            && FindActive(Run(u, events), h, later).None?
            && (other != h ==> FindActive(u, other, later) == FindActive(t, other, later))
  {
    var e := Logout(h, now);
    var u, i, found := Next(t, e), FindActive(t, h, now).value, FindActive(t, other, later);
    NextKeepsValid(t, e);
    assert Dead(u, i, h);
    DeadTokenNeverAccepted(u, events, i, h, later);
    if other != h {
      if found.Some? {
        OnlyHolder(u, found.value, other, later);
      } else {
        assert forall k: nat :: Active(u, k, other, later) ==> Active(t, k, other, later);
      }
    }
  }

  // ---------- the repository and its callers ----------

  datatype Credential = Credential(passwordHash: string, isSeller: bool)

  class RefreshSessionRepository {
    var rows: map<nat, Session>
    var nextId: nat
    var credentials: map<nat, Credential>

    ghost function Contents(): Table
      reads this
    {
      Table(rows, nextId)
    }

    method CreateRefreshSession(accountId: nat, tokenHash: string, expiresAt: int) returns (id: Option<nat>)
      modifies `rows, `nextId
      ensures Contents() == Create(old(Contents()), accountId, tokenHash, expiresAt)
      ensures id == if HashTaken(old(Contents()), tokenHash) then None else Some(old(nextId))
    {
      var taken := exists i: nat | i in rows :: HasHash(Table(rows, nextId), i, tokenHash);
      if taken {
        return None;
      }
      id := Some(nextId);
      rows := rows[nextId := Session(accountId, tokenHash, expiresAt, None, None, false)];
      nextId := nextId + 1;
    }

    method FindActiveRefreshSessionByHash(tokenHash: string, now: int) returns (id: Option<nat>)
      requires Valid(Contents())
      ensures id == FindActive(Contents(), tokenHash, now)
    {
      var hits := set i | i in rows && Active(Table(rows, nextId), i, tokenHash, now);
      assert forall i: nat :: i in hits <==> Active(Contents(), i, tokenHash, now);
      if hits == {} {
        return None;
      }
      var i: nat :| i in hits;
      OnlyHolder(Contents(), i, tokenHash, now);
      return Some(i);
    }

    /** Creates the new session, then marks the old one; a refused create leaves both untouched. */
    method RotateRefreshSession(currentSessionId: nat, newTokenHash: string, now: int, newExpiresAt: int) returns (id: Option<nat>)
      requires currentSessionId in rows && nextId !in rows
      modifies `rows, `nextId
      ensures Contents() == Rotate(old(Contents()), currentSessionId, newTokenHash, now, newExpiresAt)
      ensures id == if HashTaken(old(Contents()), newTokenHash) then None else Some(old(nextId))
    {
      id := CreateRefreshSession(rows[currentSessionId].accountId, newTokenHash, newExpiresAt);
      if id.Some? {
        rows := rows[currentSessionId := rows[currentSessionId].(revokedAt := Some(now), replacedBy := id)];
      }
    }

    method RevokeAllRefreshSessions(accountId: nat, now: int)
      modifies `rows
      ensures Contents() == RevokeAll(old(Contents()), accountId, now)
      ensures forall i: nat :: i in rows && rows[i].accountId == accountId ==> rows[i].revokedAt.Some?
      ensures forall i: nat :: i in old(rows) && (old(rows)[i].accountId != accountId || old(rows)[i].revokedAt.Some?) ==>
                i in rows && rows[i] == old(rows)[i]
    {
      rows := map i | i in rows ::
        if rows[i].accountId == accountId && rows[i].revokedAt.None? then rows[i].(revokedAt := Some(now)) else rows[i];
    }

    /** One refresh request: look the token up, then rotate its session. */
    method RotateRefresh(tokenHash: string, newTokenHash: string, now: int, newExpiresAt: int) returns (id: Option<nat>)
      requires Valid(Contents())
      modifies `rows, `nextId
      ensures Valid(Contents())
      ensures Contents() == Next(old(Contents()), Refresh(tokenHash, newTokenHash, now, newExpiresAt))
      ensures id.Some? <==> FindActive(old(Contents()), tokenHash, now).Some? && !HashTaken(old(Contents()), newTokenHash)
    {
      hide Valid, Rotate, HashTaken;
      NextKeepsValid(Contents(), Refresh(tokenHash, newTokenHash, now, newExpiresAt));
      NextIdIsNew(Contents());
      var found := FindActiveRefreshSessionByHash(tokenHash, now);
      if found.None? {
        return None;
      }
      id := RotateRefreshSession(found.value, newTokenHash, now, newExpiresAt);
    }

    /** Only the session of a seller is revoked. */
    method LogoutSeller(tokenHash: string, now: int) returns (accepted: bool)
      requires Valid(Contents())
      modifies `rows
      ensures Contents() == if accepted then Next(old(Contents()), Logout(tokenHash, now)) else old(Contents())
      ensures var found := FindActive(old(Contents()), tokenHash, now);
              accepted <==> found.Some? && var a := old(rows)[found.value].accountId; a in credentials && credentials[a].isSeller
    {
      var found := FindActiveRefreshSessionByHash(tokenHash, now);
      if found.None? {
        return false;
      }
      var a := rows[found.value].accountId;
      if a !in credentials || !credentials[a].isSeller {
        return false;
      }
      rows := rows[found.value := rows[found.value].(revokedAt := Some(now))];
      return true;
    }

    /** The password check is foreign: its two answers and the new hash are parameters. */
    method ChangeSellerPassword(accountId: nat, currentIsValid: bool, isSamePassword: bool, newHash: string, now: int)
      returns (accepted: bool)
      modifies `rows, `credentials
      ensures accepted <==> accountId in old(credentials) && old(credentials)[accountId].isSeller
                            && currentIsValid && !isSamePassword
      ensures Contents() == if accepted then Next(old(Contents()), ChangePassword(accountId, now)) else old(Contents())
      ensures credentials == if accepted then old(credentials)[accountId := Credential(newHash, true)] else old(credentials)
    {
      if accountId !in credentials || !credentials[accountId].isSeller || !currentIsValid || isSamePassword {
        return false;
      }
      credentials := credentials[accountId := credentials[accountId].(passwordHash := newHash)];
      RevokeAllRefreshSessions(accountId, now);
      return true;
    }
  }
}
