/** The account repository's transactions, statement by statement, against `Accounts`. */
module AccountRepository {
  import opened Wrappers
  import opened Accounts

  class AccountStore {
    var accounts: map<nat, Account>
    var identities: map<nat, Identity>
    var nextId: nat

    ghost function Contents(): Db
      reads this
    {
      Db(accounts, identities, nextId)
    }

    /** What UNIQUE (provider, provider_subject) checks when row `i` is about to take the key. */
    predicate TakenByOther(i: nat, p: Provider, s: string)
      reads this
    {
      exists k :: k in identities && k != i && identities[k].provider == p && identities[k].subject == s
    }

    method CreateNewIdentity(args: LoginArgs) returns (result: LoginResult)
      requires ForeignKeys(Contents())
      modifies this
      ensures (Contents(), result) == JoinAnew(old(Contents()), args) || result == Conflict
      ensures result == Conflict <==> KeyTaken(old(Contents()), args.provider, args.subject)
    {
      var accountId, identityId := nextId, nextId + 1;
      accounts := accounts[accountId := Account(VerifiedEmail(args.email, args.emailVerified), args.displayName, true, false)];
      nextId := nextId + 2;
      if TakenByOther(identityId, args.provider, args.subject) {
        ghost var k :| k in identities && k != identityId
                       && identities[k].provider == args.provider && identities[k].subject == args.subject;
        assert HasKey(old(Contents()), k, args.provider, args.subject);
        return Conflict;
      }
      assert forall k :: HasKey(old(Contents()), k, args.provider, args.subject) ==> k in identities && k != identityId;
      identities := identities[identityId := Identity(accountId, args.provider, args.subject, false)];
      return LoggedIn(accountId);
    }

    method RetireWithdrawnIdentity(hash: string -> string, i: nat) returns (ok: bool)
      requires i in identities
      modifies `identities
      ensures ok ==> Contents() == RetireRow(old(Contents()), hash, i)
      ensures !ok ==> Contents() == old(Contents())
      ensures !ok ==> KeyTaken(old(Contents()), old(identities[i].provider), Retired(hash, old(identities[i])).subject)
      ensures ok ==> forall k :: HasKey(old(Contents()), k, old(identities[i].provider), Retired(hash, old(identities[i])).subject)
                                 ==> k == i
    {
      hide BuildWithdrawnSubject;
      var retired := Retired(hash, identities[i]);
      if TakenByOther(i, retired.provider, retired.subject) {
        ghost var k :| k in identities && k != i
                       && identities[k].provider == retired.provider && identities[k].subject == retired.subject;
        assert HasKey(Contents(), k, retired.provider, retired.subject);
        return false;
      }
      identities := identities[i := retired];
      return true;
    }

    /** A login runs in one transaction: on a conflict every write of it is undone. */
    method UpsertUserByOidcIdentity(hash: string -> string, args: LoginArgs) returns (result: LoginResult)
      requires ForeignKeys(Contents()) && UniqueKeys(Contents())
      modifies this
      ensures (Contents(), result) == Login(old(Contents()), hash, args)
    {
      hide BuildWithdrawnSubject, VerifiedEmail;
      var accounts0, identities0, nextId0 := accounts, identities, nextId;
      var hits := set i | i in identities && !identities[i].deleted
                          && identities[i].provider == args.provider && identities[i].subject == args.subject;
      if hits == {} {
        assert forall i :: IsLive(Contents(), i, args.provider, args.subject) ==> i in hits;
        result := CreateNewIdentity(args);
      } else {
        var i :| i in hits;
        var row := identities[i];
        FoundIs(Contents(), i, args.provider, args.subject);
        if accounts[row.accountId].deleted {
          var retired := RetireWithdrawnIdentity(hash, i);
          if retired {
            RetireSeen(old(Contents()), hash, i);
            result := CreateNewIdentity(args);
          } else {
            result := Conflict;
          }
          assert result == Login(old(Contents()), hash, args).1;
        } else {
          var account := accounts[row.accountId];
          var email := if account.email.Some? then account.email else VerifiedEmail(args.email, args.emailVerified);
          var name := if account.name.Some? then account.name else args.displayName;
          accounts := accounts[row.accountId := account.(email := email, name := name)];
          if !accounts[row.accountId].hasProfile {
            accounts := accounts[row.accountId := accounts[row.accountId].(hasProfile := true)];
          }
          result := LoggedIn(row.accountId);
          assert Contents() == BackfillAccount(old(Contents()), row.accountId, args);
        }
      }
      assert result == Login(old(Contents()), hash, args).1;
      if result == Conflict {
        accounts, identities, nextId := accounts0, identities0, nextId0;
      }
    }

    /** Withdrawal of an active user: the account first, then its identities one row at a time. */
    method SoftDeleteAccount(hash: string -> string, accountId: nat) returns (ok: bool)
      requires Injective(hash) && Valid(Contents(), hash)
      requires Active(Contents(), accountId) && accounts[accountId].hasProfile
      modifies this
      ensures ok && Contents() == Withdraw(old(Contents()), hash, accountId)
    {
      hide Valid, RetireAll, BuildWithdrawnSubject;
      accounts := accounts[accountId := accounts[accountId].(email := None, deleted := true)];
      ghost var start := Contents();
      AccountsDoNotMatter(old(Contents()), start, hash);
      ghost var all := LiveIdentitiesOf(old(Contents()), accountId);
      ghost var done: set<nat> := {};
      var todo := set i | i in identities && identities[i].accountId == accountId && !identities[i].deleted;
      assert todo == all;
      RetireNone(start, hash);
      while todo != {}
        invariant done + todo == all && done !! todo
        invariant Contents() == RetireAll(start, hash, done)
        decreases todo
      {
        var i :| i in todo;
        assert forall k :: k in done + {i} ==> k in all;
        RetireKeepsValid(start, hash, done + {i});
        NextRetirementFits(start, hash, done, i);
        var retired := Retired(hash, identities[i]);
        if TakenByOther(i, retired.provider, retired.subject) {
          assert false;
        }
        identities := identities[i := retired];
        done, todo := done + {i}, todo - {i};
      }
      assert done == all;
      return true;
    }
  }

  lemma FoundIs(db: Db, i: nat, p: Provider, s: string)
    requires UniqueKeys(db) && IsLive(db, i, p, s)
    ensures FindIdentity(db, p, s) == Some(i)
  {
  }

  /** If the retired key is already the row's own, the following insert runs into it and the login conflicts. */
  lemma RetireSeen(db: Db, hash: string -> string, i: nat)
    requires ForeignKeys(db) && i in db.identities
    requires var row := db.identities[i];
             forall k :: HasKey(db, k, row.provider, Retired(hash, row).subject) ==> k == i
    ensures var row := db.identities[i];
            KeyTaken(db, row.provider, Retired(hash, row).subject) ==> KeyTaken(RetireRow(db, hash, i), row.provider, row.subject)
  {
    hide BuildWithdrawnSubject;
    var row := db.identities[i];
    if KeyTaken(db, row.provider, Retired(hash, row).subject) {
      assert HasKey(db, i, row.provider, Retired(hash, row).subject);
      assert HasKey(RetireRow(db, hash, i), i, row.provider, row.subject);
    }
  }

  lemma AccountsDoNotMatter(db: Db, u: Db, hash: string -> string)
    requires Valid(db, hash) && u.identities == db.identities && u.nextId == db.nextId
    requires u.accounts.Keys == db.accounts.Keys
    ensures Valid(u, hash)
  {
    hide BuildWithdrawnSubject, ProviderIssued, RetiredForm;
    assert forall i, p, s :: HasKey(u, i, p, s) <==> HasKey(db, i, p, s);
    assert forall p, s :: KeyTaken(u, p, s) ==> KeyTaken(db, p, s);
  }

  lemma RetireNone(db: Db, hash: string -> string)
    ensures RetireAll(db, hash, {}) == db
  {
  }

  /** The next row to retire finds its new key free. */
  lemma NextRetirementFits(db: Db, hash: string -> string, done: set<nat>, i: nat)
    requires Valid(RetireAll(db, hash, done + {i}), hash) && i !in done && i in db.identities
    ensures i in RetireAll(db, hash, done).identities
    ensures var u := RetireAll(db, hash, done);
            var retired := Retired(hash, u.identities[i]);
            && u.(identities := u.identities[i := retired]) == RetireAll(db, hash, done + {i})
            && forall k :: k in u.identities && k != i ==> !SameKey(u.identities[k], retired)
  {
    hide BuildWithdrawnSubject;
    var u, v := RetireAll(db, hash, done), RetireAll(db, hash, done + {i});
    forall k | k in u.identities && k != i ensures !SameKey(u.identities[k], v.identities[i]) {
      assert u.identities[k] == v.identities[k];
      if SameKey(v.identities[k], v.identities[i]) { UniqueRow(v, k, i); }
    }
  }
}
