/**
 * Accounts and their social identities: login, withdrawal and re-joining under the UNIQUE
 * (provider, provider_subject) index, which also counts soft-deleted rows.
 *
 * `hash` stands for the hexadecimal SHA-256 digest and is only assumed to be injective.
 */
module Accounts {
  import opened Wrappers
  import opened Decimal

  datatype Provider = Google | Kakao
  datatype Account = Account(email: Option<string>, name: Option<string>, hasProfile: bool, deleted: bool)
  datatype Identity = Identity(accountId: nat, provider: Provider, subject: string, deleted: bool)
  datatype Db = Db(accounts: map<nat, Account>, identities: map<nat, Identity>, nextId: nat)

  datatype LoginArgs = LoginArgs(
    provider: Provider, subject: string, email: Option<string>, emailVerified: bool, displayName: Option<string>)
  datatype LoginResult = LoggedIn(accountId: nat) | NoAccount | Conflict

  const WITHDRAWN := "withdrawn:"

  function BuildWithdrawnSubject(hash: string -> string, accountId: nat, subject: string): string {
    WITHDRAWN + Print(accountId) + ":" + hash(subject)
  }

  ghost predicate Injective(hash: string -> string) {
    forall x, y :: hash(x) == hash(y) ==> x == y
  }

  /** A retired subject still tells apart the account and the original subject it came from. */
  lemma WithdrawnSubjectInjective(hash: string -> string, a: nat, x: string, b: nat, y: string)
    requires Injective(hash) && BuildWithdrawnSubject(hash, a, x) == BuildWithdrawnSubject(hash, b, y)
    ensures a == b && x == y
  {
    var s, t := Print(a) + ":" + hash(x), Print(b) + ":" + hash(y);
    assert BuildWithdrawnSubject(hash, a, x) == WITHDRAWN + s && BuildWithdrawnSubject(hash, b, y) == WITHDRAWN + t;
    assert s == (WITHDRAWN + s)[|WITHDRAWN|..] && t == (WITHDRAWN + t)[|WITHDRAWN|..];
    SplitAfterDigits(Print(a), hash(x), Print(b), hash(y), ':');
    PrintInjective(a, b);
  }

  // ---------- rows ----------

  predicate HasKey(db: Db, i: nat, p: Provider, s: string) {
    i in db.identities && db.identities[i].provider == p && db.identities[i].subject == s
  }

  predicate IsLive(db: Db, i: nat, p: Provider, s: string) {
    HasKey(db, i, p, s) && !db.identities[i].deleted
  }

  /** The identity a login by (p, s) finds: reads skip soft-deleted rows. */
  ghost function FindIdentity(db: Db, p: Provider, s: string): (r: Option<nat>)
    ensures r.Some? ==> IsLive(db, r.value, p, s)
    ensures r.None? ==> forall i :: !IsLive(db, i, p, s)
  {
    if exists i :: IsLive(db, i, p, s) then var i :| IsLive(db, i, p, s); Some(i) else None
  }

  ghost predicate KeyTaken(db: Db, p: Provider, s: string) {
    exists i :: HasKey(db, i, p, s)
  }

  function VerifiedEmail(email: Option<string>, verified: bool): Option<string> {
    if email.Some? && email.value != "" && verified then email else None
  }

  function Retired(hash: string -> string, row: Identity): Identity {
    row.(subject := BuildWithdrawnSubject(hash, row.accountId, row.subject), deleted := true)
  }

  function RetireRow(db: Db, hash: string -> string, i: nat): Db
    requires i in db.identities
  {
    db.(identities := db.identities[i := Retired(hash, db.identities[i])])
  }

  function InsertAccount(db: Db, args: LoginArgs): Db {
    var account := Account(VerifiedEmail(args.email, args.emailVerified), args.displayName, true, false);
    Db(db.accounts[db.nextId := account],
       db.identities[db.nextId + 1 := Identity(db.nextId, args.provider, args.subject, false)], db.nextId + 2)
  }

  function BackfillAccount(db: Db, a: nat, args: LoginArgs): Db
    requires a in db.accounts
  {
    var row := db.accounts[a];
    db.(accounts := db.accounts[a := Account(
          if row.email.Some? then row.email else VerifiedEmail(args.email, args.emailVerified),
          if row.name.Some? then row.name else args.displayName, true, row.deleted)])
  }

  function Active(db: Db, a: nat): bool {
    a in db.accounts && !db.accounts[a].deleted
  }

  // ---------- the two requests ----------

  ghost function JoinAnew(db: Db, args: LoginArgs): (r: (Db, LoginResult)) {
    if KeyTaken(db, args.provider, args.subject) then (db, Conflict)
    else (InsertAccount(db, args), LoggedIn(db.nextId))
  }

  /** One login by OIDC identity; a violated UNIQUE index rolls the whole transaction back. */
  ghost function Login(db: Db, hash: string -> string, args: LoginArgs): (Db, LoginResult)
    requires ForeignKeys(db)
  {
    match FindIdentity(db, args.provider, args.subject)
    case None => JoinAnew(db, args)
    case Some(i) =>
      var row := db.identities[i];
      if db.accounts[row.accountId].deleted then
        if KeyTaken(db, row.provider, Retired(hash, row).subject) then (db, Conflict)
        else
          var (after, result) := JoinAnew(RetireRow(db, hash, i), args);
          if result == Conflict then (db, Conflict) else (after, result)
      else (BackfillAccount(db, row.accountId, args), LoggedIn(row.accountId))
  }

  function LiveIdentitiesOf(db: Db, a: nat): set<nat> {
    set i | i in db.identities && db.identities[i].accountId == a && !db.identities[i].deleted
  }

  function RetireAll(db: Db, hash: string -> string, ids: set<nat>): Db {
    db.(identities := map i | i in db.identities ::
          if i in ids then Retired(hash, db.identities[i]) else db.identities[i])
  }

  /** Withdrawal of an active user: clear the email, retire every live identity. */
  function Withdraw(db: Db, hash: string -> string, a: nat): Db {
    if Active(db, a) && db.accounts[a].hasProfile then
      RetireAll(db.(accounts := db.accounts[a := db.accounts[a].(email := None, deleted := true)]),
                hash, LiveIdentitiesOf(db, a))
    else db
  }

  // ---------- what the tables keep ----------

  ghost predicate ForeignKeys(db: Db) {
    && (forall a :: a in db.accounts ==> a < db.nextId)
    && (forall i :: i in db.identities ==> i < db.nextId && db.identities[i].accountId in db.accounts)
  }

  predicate SameKey(a: Identity, b: Identity) {
    a.provider == b.provider && a.subject == b.subject
  }

  ghost predicate UniqueKeys(db: Db) {
    forall i, j :: i in db.identities && j in db.identities && SameKey(db.identities[i], db.identities[j]) ==> i == j
  }

  /** Identity providers do not issue subjects of the retired form. */
  predicate ProviderIssued(s: string) {
    !(WITHDRAWN <= s)
  }

  ghost predicate RetiredForm(hash: string -> string, row: Identity) {
    exists original :: ProviderIssued(original) && row.subject == BuildWithdrawnSubject(hash, row.accountId, original)
  }

  /** Retired rows are anonymised, live rows carry a provider's subject that is not already retired for its account. */
  ghost predicate Anonymised(db: Db, hash: string -> string) {
    && (forall i :: i in db.identities && db.identities[i].deleted ==> RetiredForm(hash, db.identities[i]))
    && (forall i :: i in db.identities && !db.identities[i].deleted ==>
          && ProviderIssued(db.identities[i].subject)
          && !KeyTaken(db, db.identities[i].provider, Retired(hash, db.identities[i]).subject))
  }

  /**
   * The state after the clean-up migration. A live identity may still hang on a withdrawn account.
   */
  ghost predicate Valid(db: Db, hash: string -> string) {
    ForeignKeys(db) && UniqueKeys(db) && Anonymised(db, hash)
  }

  /** Account `a` is the active owner of the key (p, s). */
  ghost predicate Owns(db: Db, p: Provider, s: string, a: nat) {
    Active(db, a) && exists i :: IsLive(db, i, p, s) && db.identities[i].accountId == a
  }

  lemma InsertKeepsValid(db: Db, hash: string -> string, args: LoginArgs)
    requires Injective(hash) && Valid(db, hash) && ProviderIssued(args.subject)
    requires FindIdentity(db, args.provider, args.subject).None?
    ensures !KeyTaken(db, args.provider, args.subject)
    ensures Valid(InsertAccount(db, args), hash)
  {
    hide FindIdentity, VerifiedEmail, BuildWithdrawnSubject, ProviderIssued, RetiredForm;
    RetiredIsNotProvided(db, hash, args.provider, args.subject);
    var u, added := InsertAccount(db, args), db.nextId + 1;
    InsertKeepsUnique(db, args);
    assert forall i :: i in u.identities ==> i == added || (i in db.identities && u.identities[i] == db.identities[i]);
    forall i | i in u.identities && !u.identities[i].deleted
      ensures !KeyTaken(u, u.identities[i].provider, Retired(hash, u.identities[i]).subject)
    {
      InsertKeepsRetiredFree(db, hash, args, i);
    }
  }

  lemma InsertKeepsUnique(db: Db, args: LoginArgs)
    requires ForeignKeys(db) && UniqueKeys(db) && !KeyTaken(db, args.provider, args.subject)
    ensures UniqueKeys(InsertAccount(db, args))
  {
    hide VerifiedEmail;
    var u, added := InsertAccount(db, args), db.nextId + 1;
    forall i | i in db.identities ensures !SameKey(db.identities[i], u.identities[added]) {
      assert !HasKey(db, i, args.provider, args.subject);
    }
  }

  lemma InsertKeepsRetiredFree(db: Db, hash: string -> string, args: LoginArgs, i: nat)
    requires Injective(hash) && Valid(db, hash)
    requires i in InsertAccount(db, args).identities && !InsertAccount(db, args).identities[i].deleted
    requires ProviderIssued(args.subject)
    ensures var u := InsertAccount(db, args);
            !KeyTaken(u, u.identities[i].provider, Retired(hash, u.identities[i]).subject)
  {
    hide VerifiedEmail, BuildWithdrawnSubject, ProviderIssued, RetiredForm, UniqueKeys, Anonymised;
    var u := InsertAccount(db, args);
    var row := u.identities[i];
    WithdrawnPrefix(hash, row.accountId, row.subject);
    forall k ensures !HasKey(u, k, row.provider, Retired(hash, row).subject) {
      if k in db.identities {
        if i == db.nextId + 1 {
          NewAccountIsUnretired(db, hash, k, args.subject);
        } else {
          RetiredKeyIsFree(db, hash, i, k);
        }
      }
    }
  }

  lemma NewAccountIsUnretired(db: Db, hash: string -> string, k: nat, s: string)
    requires Injective(hash) && Valid(db, hash) && k in db.identities
    ensures db.identities[k].subject != BuildWithdrawnSubject(hash, db.nextId, s)
  {
    var row := db.identities[k];
    WithdrawnPrefix(hash, db.nextId, s);
    if row.deleted {
      var original :| ProviderIssued(original) && row.subject == BuildWithdrawnSubject(hash, row.accountId, original);
      if row.subject == BuildWithdrawnSubject(hash, db.nextId, s) {
        WithdrawnSubjectInjective(hash, row.accountId, original, db.nextId, s);
      }
    }
  }

  lemma WithdrawnPrefix(hash: string -> string, a: nat, s: string)
    ensures !ProviderIssued(BuildWithdrawnSubject(hash, a, s))
  {
  }

  /** A provider-issued key nobody holds live is free: retired rows cannot occupy it. */
  lemma RetiredIsNotProvided(db: Db, hash: string -> string, p: Provider, s: string)
    requires Valid(db, hash) && ProviderIssued(s) && forall i :: !IsLive(db, i, p, s)
    ensures !KeyTaken(db, p, s)
  {
    forall i ensures !HasKey(db, i, p, s) {
      assert !IsLive(db, i, p, s);
      if i in db.identities && db.identities[i].deleted {
        RetiredNotProvided(hash, db.identities[i]);
      }
    }
  }

  lemma RetiredNotProvided(hash: string -> string, row: Identity)
    requires RetiredForm(hash, row)
    ensures !ProviderIssued(row.subject)
  {
  }

  /** Retiring any set of live rows at once keeps every key unique and frees the keys they held. */
  lemma RetireKeepsValid(db: Db, hash: string -> string, ids: set<nat>)
    requires Injective(hash) && Valid(db, hash)
    requires forall i :: i in ids ==> i in db.identities && !db.identities[i].deleted
    ensures Valid(RetireAll(db, hash, ids), hash)
  {
    var u := RetireAll(db, hash, ids);
    forall i | i in ids ensures RetiredForm(hash, u.identities[i]) {
      assert u.identities[i].subject == BuildWithdrawnSubject(hash, u.identities[i].accountId, db.identities[i].subject);
    }
    forall i, j | i in u.identities && j in u.identities && SameKey(u.identities[i], u.identities[j]) ensures i == j
    {
      RetiredKeysApart(db, hash, ids, i, j);
    }
    forall i | i in u.identities && !u.identities[i].deleted
      ensures !KeyTaken(u, u.identities[i].provider, Retired(hash, u.identities[i]).subject)
    {
      if k :| HasKey(u, k, u.identities[i].provider, Retired(hash, u.identities[i]).subject) {
        if k in ids {
          WithdrawnSubjectInjective(hash, db.identities[k].accountId, db.identities[k].subject,
                                    db.identities[i].accountId, db.identities[i].subject);
        } else {
          assert HasKey(db, k, db.identities[i].provider, Retired(hash, db.identities[i]).subject);
        }
      }
    }
  }

  lemma RetiredKeysApart(db: Db, hash: string -> string, ids: set<nat>, i: nat, j: nat)
    requires Injective(hash) && Valid(db, hash)
    requires forall k :: k in ids ==> k in db.identities && !db.identities[k].deleted
    requires i in db.identities && j in db.identities
    requires SameKey(RetireAll(db, hash, ids).identities[i], RetireAll(db, hash, ids).identities[j])
    ensures i == j
  {
    hide UniqueKeys, Anonymised;
    if i in ids && j in ids {
      WithdrawnSubjectInjective(hash, db.identities[i].accountId, db.identities[i].subject,
                                db.identities[j].accountId, db.identities[j].subject);
    } else if i in ids {
      RetiredKeyIsFree(db, hash, i, j);
    } else if j in ids {
      RetiredKeyIsFree(db, hash, j, i);
    }
    assert SameKey(db.identities[i], db.identities[j]);
    UniqueRow(db, i, j);
  }

  lemma UniqueRow(db: Db, i: nat, j: nat)
    requires UniqueKeys(db) && i in db.identities && j in db.identities && SameKey(db.identities[i], db.identities[j])
    ensures i == j
  {
  }

  lemma RetiredKeyIsFree(db: Db, hash: string -> string, i: nat, j: nat)
    requires Valid(db, hash) && i in db.identities && !db.identities[i].deleted
    ensures !HasKey(db, j, db.identities[i].provider, Retired(hash, db.identities[i]).subject)
  {
  }

  // ---------- one request ----------

  lemma RetireRowIsRetireAll(db: Db, hash: string -> string, i: nat)
    requires i in db.identities
    ensures RetireRow(db, hash, i) == RetireAll(db, hash, {i})
  {
  }

  lemma RetireFreesKey(db: Db, hash: string -> string, i: nat, p: Provider, s: string)
    requires UniqueKeys(db) && IsLive(db, i, p, s)
    ensures forall j :: !IsLive(RetireRow(db, hash, i), j, p, s)
  {
  }

  lemma BackfillKeepsValid(db: Db, hash: string -> string, a: nat, args: LoginArgs)
    requires Valid(db, hash) && a in db.accounts
    ensures Valid(BackfillAccount(db, a, args), hash)
  {
    hide VerifiedEmail, BuildWithdrawnSubject, ProviderIssued, RetiredForm;
    var u := BackfillAccount(db, a, args);
    assert forall i, p, s :: HasKey(u, i, p, s) <==> HasKey(db, i, p, s);
    assert forall p, s :: KeyTaken(u, p, s) ==> KeyTaken(db, p, s);
  }

  /**
   * What a login promises: it succeeds for every provider-issued subject, the account it returns is active and
   * owns the key from now on, it is the owner the key had, and a brand-new account if the key had none.
   */
  lemma LoginMeaning(db: Db, hash: string -> string, args: LoginArgs)
    requires Injective(hash) && Valid(db, hash) && ProviderIssued(args.subject)
    ensures var (after, result) := Login(db, hash, args);
            && Valid(after, hash) && result.LoggedIn?
            && Owns(after, args.provider, args.subject, result.accountId)
            && (forall a :: Owns(db, args.provider, args.subject, a) ==> result.accountId == a)
            && ((forall a :: !Owns(db, args.provider, args.subject, a)) ==> result.accountId !in db.accounts)
  {
    hide InsertAccount, BackfillAccount, Valid, ProviderIssued, Retired;
    assert ForeignKeys(db) && UniqueKeys(db) by { ValidParts(db, hash); }
    var p, s := args.provider, args.subject;
    var found := FindIdentity(db, p, s);
    if found.None? {
      InsertKeepsValid(db, hash, args);
      InsertOwns(db, args);
    } else {
      var row := db.identities[found.value];
      OwnerIs(db, p, s, found.value);
      if db.accounts[row.accountId].deleted {
        RetiredKeyIsFreeForAll(db, hash, found.value);
        var u := RetireRow(db, hash, found.value);
        RetireRowIsRetireAll(db, hash, found.value);
        RetireKeepsValid(db, hash, {found.value});
        RetireFreesKey(db, hash, found.value, p, s);
        InsertKeepsValid(u, hash, args);
        InsertOwns(u, args);
      } else {
        assert Owns(db, p, s, row.accountId);
        BackfillKeepsValid(db, hash, row.accountId, args);
        BackfillOwns(db, row.accountId, args, found.value);
      }
    }
  }

  /**
    * What a login writes on the account it returns: a missing email becomes the provider's if that is verified and
    * not empty, a missing name the provider's; the profile exists afterwards. No other account changes.
    */
  lemma LoginFillsAccount(db: Db, hash: string -> string, args: LoginArgs, b: nat)
    requires Injective(hash) && Valid(db, hash) && ProviderIssued(args.subject)
    ensures Login(db, hash, args).1.LoggedIn?
    ensures var (after, result) := Login(db, hash, args);
            var a := result.accountId;
            var email := if args.emailVerified && args.email.Some? && args.email.value != "" then args.email else None;
            var known := a in db.accounts;
            && a in after.accounts && after.accounts[a].hasProfile && !after.accounts[a].deleted
            && after.accounts[a].email == (if known && db.accounts[a].email.Some? then db.accounts[a].email else email)
            && after.accounts[a].name == (if known && db.accounts[a].name.Some? then db.accounts[a].name else args.displayName)
            && (b != a ==> (b in after.accounts <==> b in db.accounts) && (b in db.accounts ==> after.accounts[b] == db.accounts[b]))
  {
    LoginMeaning(db, hash, args);
    hide BuildWithdrawnSubject, Valid, KeyTaken, Owns, ProviderIssued;
    assert ForeignKeys(db) by { ValidParts(db, hash); }
  }

  lemma ValidParts(db: Db, hash: string -> string)
    requires Valid(db, hash)
    ensures ForeignKeys(db) && UniqueKeys(db)
  {
  }

  lemma RetiredKeyIsFreeForAll(db: Db, hash: string -> string, i: nat)
    requires Valid(db, hash) && i in db.identities && !db.identities[i].deleted
    ensures !KeyTaken(db, db.identities[i].provider, Retired(hash, db.identities[i]).subject)
  {
  }

  /** With unique keys the identity found for a key decides who can own it. */
  lemma OwnerIs(db: Db, p: Provider, s: string, i: nat)
    requires ForeignKeys(db) && UniqueKeys(db) && IsLive(db, i, p, s)
    ensures forall a :: Owns(db, p, s, a) <==> a == db.identities[i].accountId && Active(db, a)
  {
  }

  lemma InsertOwns(db: Db, args: LoginArgs)
    requires ForeignKeys(db)
    ensures Owns(InsertAccount(db, args), args.provider, args.subject, db.nextId) && db.nextId !in db.accounts
  {
    assert IsLive(InsertAccount(db, args), db.nextId + 1, args.provider, args.subject);
  }

  lemma BackfillOwns(db: Db, a: nat, args: LoginArgs, i: nat)
    requires Active(db, a) && IsLive(db, i, args.provider, args.subject) && db.identities[i].accountId == a
    ensures Owns(BackfillAccount(db, a, args), args.provider, args.subject, a)
  {
  }

  lemma WithdrawMeaning(db: Db, hash: string -> string, a: nat)
    requires Injective(hash) && Valid(db, hash)
    ensures Valid(Withdraw(db, hash, a), hash)
    ensures Active(db, a) && db.accounts[a].hasProfile ==>
              var u := Withdraw(db, hash, a);
              && !Active(u, a) && u.accounts[a].email == None
              && (forall i :: i in u.identities && u.identities[i].accountId == a ==> u.identities[i].deleted)
              && (forall i :: i in db.identities && db.identities[i].accountId == a && !db.identities[i].deleted ==>
                    i in u.identities && u.identities[i].provider == db.identities[i].provider
                    && u.identities[i].subject == "withdrawn:" + Print(a) + ":" + hash(db.identities[i].subject))
  {
    if Active(db, a) && db.accounts[a].hasProfile {
      var v := db.(accounts := db.accounts[a := db.accounts[a].(email := None, deleted := true)]);
      assert Valid(v, hash) by {
        hide BuildWithdrawnSubject, ProviderIssued, RetiredForm;
        assert forall i, p, s :: HasKey(v, i, p, s) <==> HasKey(db, i, p, s);
        assert forall p, s :: KeyTaken(v, p, s) ==> KeyTaken(db, p, s);
      }
      RetireKeepsValid(v, hash, LiveIdentitiesOf(db, a));
      assert Withdraw(db, hash, a) == RetireAll(v, hash, LiveIdentitiesOf(db, a));
      hide Valid, Injective;
    }
  }

  /** A withdrawal touches no row of another account, and no identity already deleted. */
  lemma WithdrawTouchesOwnRows(db: Db, hash: string -> string, a: nat, b: nat, i: nat)
    requires b in db.accounts && i in db.identities
    ensures var u := Withdraw(db, hash, a);
            && b in u.accounts && i in u.identities
            && (b != a || db.accounts[b].deleted || !db.accounts[b].hasProfile ==> u.accounts[b] == db.accounts[b])
            && (db.identities[i].accountId != a || db.identities[i].deleted ==> u.identities[i] == db.identities[i])
  {
  }

  /** A login fails on the UNIQUE index exactly when the row left standing under its key is not the one it found. */
  lemma LoginConflictIff(db: Db, hash: string -> string, args: LoginArgs)
    requires Injective(hash) && Valid(db, hash)
    ensures Login(db, hash, args).1 == Conflict
            <==> exists i :: HasKey(db, i, args.provider, args.subject) && db.identities[i].deleted
  {
    var p, s := args.provider, args.subject;
    var found := FindIdentity(db, p, s);
    if found.Some? {
      var i := found.value;
      assert forall j :: HasKey(db, j, p, s) ==> j == i by {
        forall j | HasKey(db, j, p, s) ensures j == i { UniqueRow(db, i, j); }
      }
      RetiredKeyIsFreeForAll(db, hash, i);
      WithdrawnPrefix(hash, db.identities[i].accountId, s);
      assert forall j :: !HasKey(RetireRow(db, hash, i), j, p, s);
    } else {
      assert forall j :: HasKey(db, j, p, s) ==> db.identities[j].deleted by {
        forall j | HasKey(db, j, p, s) ensures db.identities[j].deleted { assert !IsLive(db, j, p, s); }
      }
    }
  }

  // ---------- whole runs ----------

  datatype Event = LoginBy(args: LoginArgs) | WithdrawOf(accountId: nat)

  ghost function Next(db: Db, hash: string -> string, e: Event): Db
    requires ForeignKeys(db)
  {
    match e
    case LoginBy(args) => Login(db, hash, args).0
    case WithdrawOf(a) => Withdraw(db, hash, a)
  }

  predicate Issued(e: Event) {
    e.LoginBy? ==> ProviderIssued(e.args.subject)
  }

  lemma NextKeepsValid(db: Db, hash: string -> string, e: Event)
    requires Injective(hash) && Valid(db, hash) && Issued(e)
    ensures Valid(Next(db, hash, e), hash)
  {
    hide Login, Withdraw, ProviderIssued;
    match e
    case LoginBy(args) => LoginMeaning(db, hash, args);
    case WithdrawOf(a) => WithdrawMeaning(db, hash, a);
  }

  ghost predicate AllIssued(events: seq<Event>) {
    forall i :: 0 <= i < |events| ==> Issued(events[i])
  }

  ghost function Run(db: Db, hash: string -> string, events: seq<Event>): (u: Db)
    requires Injective(hash) && Valid(db, hash) && AllIssued(events)
    ensures Valid(u, hash)
  {
    if events == [] then db
    else
      var v := Run(db, hash, events[..|events| - 1]);
      NextKeepsValid(v, hash, events[|events| - 1]);
      Next(v, hash, events[|events| - 1])
  }

  /** A run is its logins and withdrawals, one after the other, from the state it starts in. */
  lemma RunFollowsRequests(db: Db, hash: string -> string, events: seq<Event>, args: LoginArgs, a: nat)
    requires Injective(hash) && Valid(db, hash) && AllIssued(events) && ProviderIssued(args.subject)
    ensures Run(db, hash, []) == db
    ensures AllIssued(events + [LoginBy(args)]) && AllIssued(events + [WithdrawOf(a)])
    ensures Run(db, hash, events + [LoginBy(args)]) == Login(Run(db, hash, events), hash, args).0
    ensures Run(db, hash, events + [WithdrawOf(a)]) == Withdraw(Run(db, hash, events), hash, a)
  {
    hide Login, Withdraw, Valid, ProviderIssued;
    assert (events + [LoginBy(args)])[..|events|] == events && (events + [WithdrawOf(a)])[..|events|] == events;
  }

  /** A refused login leaves everything as it was. */
  lemma ConflictChangesNothing(db: Db, hash: string -> string, args: LoginArgs)
    requires ForeignKeys(db) && Login(db, hash, args).1 == Conflict
    ensures Login(db, hash, args).0 == db
  {
  }

  /** (provider, subject) stays unique over live and retired rows alike, in every run. */
  lemma KeysStayUnique(db: Db, hash: string -> string, events: seq<Event>)
    requires Injective(hash) && Valid(db, hash) && AllIssued(events)
    ensures UniqueKeys(Run(db, hash, events))
  {
  }

  /** One event leaves an owned key with its owner, unless it is the owner's withdrawal. */
  lemma NextKeepsOwner(db: Db, hash: string -> string, e: Event, p: Provider, s: string, a: nat)
    requires Injective(hash) && Valid(db, hash) && Issued(e)
    requires Owns(db, p, s, a) && e != WithdrawOf(a)
    ensures Owns(Next(db, hash, e), p, s, a)
  {
    hide BuildWithdrawnSubject, VerifiedEmail, ProviderIssued, KeyTaken, UniqueKeys, Anonymised;
    var i :| IsLive(db, i, p, s) && db.identities[i].accountId == a;
    match e
    case LoginBy(args) =>
      var found := FindIdentity(db, args.provider, args.subject);
      if found.Some? {
        LoginMeaning(db, hash, args);
        assert found.value == i ==> db.identities[found.value].accountId == a;
      }
      assert IsLive(Next(db, hash, e), i, p, s);
    case WithdrawOf(b) =>
      assert IsLive(Next(db, hash, e), i, p, s);
  }

  /** Until its owner withdraws, every login by a key returns the same account. */
  lemma {:induction false} RepeatedLoginsAgree(
    db: Db, hash: string -> string, events: seq<Event>, args: LoginArgs, p: Provider, s: string, a: nat)
    requires Injective(hash) && Valid(db, hash) && AllIssued(events) && ProviderIssued(args.subject)
    requires Owns(db, p, s, a) && WithdrawOf(a) !in events && args.provider == p && args.subject == s
    ensures Owns(Run(db, hash, events), p, s, a)
    ensures Login(Run(db, hash, events), hash, args).1 == LoggedIn(a)
  {
    hide Owns, Valid, Login;
    if events != [] {
      RepeatedLoginsAgree(db, hash, events[..|events| - 1], args, p, s, a);
      NextKeepsOwner(Run(db, hash, events[..|events| - 1]), hash, events[|events| - 1], p, s, a);
    }
    LoginMeaning(Run(db, hash, events), hash, args);
  }

  /** A withdrawn account stays withdrawn, so no later login ever returns it. */
  lemma {:induction false} WithdrawnNeverReturns(
    db: Db, hash: string -> string, events: seq<Event>, args: LoginArgs, a: nat)
    requires Injective(hash) && Valid(db, hash) && AllIssued(events) && ProviderIssued(args.subject)
    requires a in db.accounts && db.accounts[a].deleted
    ensures var u := Run(db, hash, events);
            && a in u.accounts && u.accounts[a].deleted && Login(u, hash, args).1 != LoggedIn(a)
  {
    hide Valid, Login;
    if events != [] {
      WithdrawnNeverReturns(db, hash, events[..|events| - 1], args, a);
      NextKeepsWithdrawn(Run(db, hash, events[..|events| - 1]), hash, events[|events| - 1], a);
    }
    var u := Run(db, hash, events);
    LoginMeaning(u, hash, args);
    ReturnedWasActive(u, hash, args);
  }

  lemma NextKeepsWithdrawn(db: Db, hash: string -> string, e: Event, a: nat)
    requires Valid(db, hash) && a in db.accounts && db.accounts[a].deleted
    ensures a in Next(db, hash, e).accounts && Next(db, hash, e).accounts[a].deleted
  {
  }

  lemma ReturnedWasActive(db: Db, hash: string -> string, args: LoginArgs)
    requires Valid(db, hash)
    ensures var result := Login(db, hash, args).1;
            result.LoggedIn? && result.accountId in db.accounts ==> Active(db, result.accountId)
  {
  }

  ghost predicate Ownerless(db: Db, p: Provider, s: string) {
    forall a: nat :: !Owns(db, p, s, a)
  }

  predicate LoginByKey(e: Event, p: Provider, s: string) {
    e.LoginBy? && e.args.provider == p && e.args.subject == s
  }

  lemma WithdrawnOwnsNothing(db: Db, hash: string -> string, p: Provider, s: string, a: nat)
    requires Injective(hash) && Valid(db, hash) && Owns(db, p, s, a) && db.accounts[a].hasProfile
    ensures Ownerless(Withdraw(db, hash, a), p, s)
  {
    hide Valid;
    ValidParts(db, hash);
    var i :| IsLive(db, i, p, s) && db.identities[i].accountId == a;
    forall j ensures !IsLive(Withdraw(db, hash, a), j, p, s) {
      if IsLive(db, j, p, s) {
        UniqueRow(db, i, j);
      }
    }
  }

  lemma LiveRowsAreOld(db: Db, hash: string -> string, e: Event, p: Provider, s: string, i: nat)
    requires ForeignKeys(db) && !LoginByKey(e, p, s)
    ensures IsLive(Next(db, hash, e), i, p, s) ==>
              IsLive(db, i, p, s) && Next(db, hash, e).identities[i].accountId == db.identities[i].accountId
  {
    hide BuildWithdrawnSubject, VerifiedEmail, KeyTaken;
  }

  lemma ActiveWasActive(db: Db, hash: string -> string, e: Event, a: nat)
    requires ForeignKeys(db) && a in db.accounts
    ensures Active(Next(db, hash, e), a) ==> Active(db, a)
  {
    hide BuildWithdrawnSubject, VerifiedEmail, KeyTaken;
  }

  /** Only a login by the key itself can give an ownerless key an owner. */
  lemma NextKeepsOwnerless(db: Db, hash: string -> string, e: Event, p: Provider, s: string)
    requires ForeignKeys(db) && Ownerless(db, p, s) && !LoginByKey(e, p, s)
    ensures Ownerless(Next(db, hash, e), p, s)
  {
    hide Next, Active, LoginByKey;
    var u := Next(db, hash, e);
    forall a: nat ensures !Owns(u, p, s, a) {
      assert !Owns(db, p, s, a);
      forall i | IsLive(u, i, p, s) ensures u.identities[i].accountId != a || !Active(u, a) {
        LiveRowsAreOld(db, hash, e, p, s, i);
        ActiveWasActive(db, hash, e, db.identities[i].accountId);
      }
    }
  }

  lemma {:induction false} RunKeepsOwnerless(db: Db, hash: string -> string, events: seq<Event>, p: Provider, s: string)
    requires Injective(hash) && Valid(db, hash) && AllIssued(events) && Ownerless(db, p, s)
    requires forall e :: e in events ==> !LoginByKey(e, p, s)
    ensures Ownerless(Run(db, hash, events), p, s)
  {
    hide Ownerless, Valid, LoginByKey;
    if events != [] {
      RunKeepsOwnerless(db, hash, events[..|events| - 1], p, s);
      ValidParts(Run(db, hash, events[..|events| - 1]), hash);
      NextKeepsOwnerless(Run(db, hash, events[..|events| - 1]), hash, events[|events| - 1], p, s);
    }
  }

  /**
   * After the owner of a key withdrew, and whatever other logins and withdrawals came in between, the first
   * login by the key creates an account that did not exist before.
   */
  lemma LoginAfterWithdrawalIsNew(db: Db, hash: string -> string, args: LoginArgs, a: nat, events: seq<Event>)
    requires Injective(hash) && Valid(db, hash) && AllIssued(events) && ProviderIssued(args.subject)
    requires Owns(db, args.provider, args.subject, a) && db.accounts[a].hasProfile
    requires forall e :: e in events && e.LoginBy? ==> e.args.provider != args.provider || e.args.subject != args.subject
    ensures Valid(Withdraw(db, hash, a), hash)
    ensures var u := Run(Withdraw(db, hash, a), hash, events);
            var result := Login(u, hash, args).1;
            a in u.accounts && u.accounts[a].deleted && result.LoggedIn? && result.accountId !in u.accounts
  {
    assert forall e :: e in events ==> !LoginByKey(e, args.provider, args.subject);
    hide Valid, Login, Withdraw, LoginByKey;
    WithdrawMeaning(db, hash, a);
    var v := Withdraw(db, hash, a);
    assert a in v.accounts && v.accounts[a].deleted by { WithdrawnIsDeleted(db, hash, a); }
    WithdrawnOwnsNothing(db, hash, args.provider, args.subject, a);
    RunKeepsOwnerless(v, hash, events, args.provider, args.subject);
    WithdrawnNeverReturns(v, hash, events, args, a);
    LoginMeaning(Run(v, hash, events), hash, args);
  }

  lemma WithdrawnIsDeleted(db: Db, hash: string -> string, a: nat)
    requires Active(db, a) && db.accounts[a].hasProfile
    ensures a in Withdraw(db, hash, a).accounts && Withdraw(db, hash, a).accounts[a].deleted
  {
  }

  /** A non-null email never changes before the account withdraws. */
  lemma {:induction false} EmailIsKept(db: Db, hash: string -> string, events: seq<Event>, a: nat)
    requires Injective(hash) && Valid(db, hash) && AllIssued(events) && WithdrawOf(a) !in events
    requires a in db.accounts && db.accounts[a].email.Some?
    ensures var u := Run(db, hash, events); a in u.accounts && u.accounts[a].email == db.accounts[a].email
  {
    hide Valid, Next;
    if events != [] {
      EmailIsKept(db, hash, events[..|events| - 1], a);
      NextKeepsEmail(Run(db, hash, events[..|events| - 1]), hash, events[|events| - 1], a);
    }
  }

  lemma NextKeepsEmail(db: Db, hash: string -> string, e: Event, a: nat)
    requires Valid(db, hash) && e != WithdrawOf(a) && a in db.accounts && db.accounts[a].email.Some?
    ensures a in Next(db, hash, e).accounts && Next(db, hash, e).accounts[a].email == db.accounts[a].email
  {
  }
}
