/** Machine-made nicknames: the one a first login gets and the one a withdrawal leaves behind. */
module Nickname {
  import opened Wrappers
  import opened Decimal
  import opened Text

  const MAX_NICKNAME_LENGTH := 50

  predicate Allowed(c: char) {
    'A' <= c <= 'Z' || 'a' <= c <= 'z' || IsDigit(c) || 0xAC00 <= c as int <= 0xD7A3 || c == '_'
  }

  function Sanitize(raw: string): string {
    Keep(raw, Allowed)
  }

  /** `split('@')[0]` */
  function LocalPart(email: string): (r: string)
    ensures r <= email && '@' !in r
    ensures r == email || (|r| < |email| && email[|r|] == '@')
  {
    if email == [] || email[0] == '@' then [] else [email[0]] + LocalPart(email[1..])
  }

  function Base(displayName: Option<string>, email: Option<string>): (b: string)
    ensures b != []
  {
    var fromName := if displayName.Some? then Sanitize(Trim(displayName.value)) else "";
    var fromEmail := if email.Some? && email.value != [] then Sanitize(LocalPart(email.value)) else "";
    if fromName != [] then fromName else if fromEmail != [] then fromEmail else "user"
  }

  function Suffix(accountId: nat): string {
    "_" + Print(accountId)
  }

  function InitialNickname(accountId: nat, displayName: Option<string>, email: Option<string>): string {
    var base, suffix := Base(displayName, email), Suffix(accountId);
    var baseMaxLength := Max(0, MAX_NICKNAME_LENGTH - |suffix|);
    base[..Min(|base|, baseMaxLength)] + suffix
  }

  function DeletedNickname(accountId: nat): string {
    "deleted_" + Print(accountId)
  }

  predicate MachineMade(s: string, accountId: nat) {
    s == DeletedNickname(accountId)
    || exists n: nat :: n <= |s| && s == s[..n] + Suffix(accountId)
  }

  // ---------- the id is readable ----------

  function AfterLast(s: string, mark: char): string {
    if s == [] || s[|s| - 1] == mark then [] else AfterLast(s[..|s| - 1], mark) + [s[|s| - 1]]
  }

  lemma {:induction false} AfterLastFinds(front: string, digits: string)
    requires AllDigits(digits)
    ensures AfterLast(front + ['_'] + digits, '_') == digits
  {
    var s := front + ['_'] + digits;
    if digits != [] {
      AfterLastFinds(front, digits[..|digits| - 1]);
      assert s[..|s| - 1] == front + ['_'] + digits[..|digits| - 1];
    }
  }

  lemma InitialIsMachineMade(accountId: nat, displayName: Option<string>, email: Option<string>)
    ensures MachineMade(InitialNickname(accountId, displayName, email), accountId)
  {
    var s := InitialNickname(accountId, displayName, email);
    var n: nat := |s| - |Suffix(accountId)|;
    assert s == s[..n] + Suffix(accountId);
  }

  /** The text after the last underscore of a machine-made nickname is the account id. */
  lemma IdIsReadable(s: string, accountId: nat)
    requires MachineMade(s, accountId)
    ensures AfterLast(s, '_') == Print(accountId)
  {
    hide AfterLast, Print, AllDigits;
    if s == DeletedNickname(accountId) {
      AfterLastFinds("deleted", Print(accountId));
      assert s == "deleted" + ['_'] + Print(accountId);
    } else {
      var n: nat :| n <= |s| && s == s[..n] + Suffix(accountId);
      AfterLastFinds(s[..n], Print(accountId));
      assert s == s[..n] + ['_'] + Print(accountId);
    }
  }

  /** Machine-made nicknames of two accounts never collide, whatever names and emails the provider gave. */
  lemma NeverCollide(s: string, a: nat, b: nat)
    requires MachineMade(s, a) && MachineMade(s, b)
    ensures a == b
  {
    IdIsReadable(s, a);
    IdIsReadable(s, b);
    PrintInjective(a, b);
  }

  // ---------- form ----------

  predicate AllAllowed(s: string) {
    forall i :: 0 <= i < |s| ==> Allowed(s[i])
  }

  lemma SanitizeIgnoresTrim(raw: string)
    ensures Sanitize(Trim(raw)) == Sanitize(raw) && AllAllowed(Sanitize(raw))
  {
    KeepAbsorbsTrim(raw, Allowed);
  }

  /** Only allowed characters, the whole suffix, and as much of the base as fits. */
  lemma InitialForm(accountId: nat, displayName: Option<string>, email: Option<string>)
    ensures var s, base, suffix := InitialNickname(accountId, displayName, email), Base(displayName, email), Suffix(accountId);
            && (forall i :: 0 <= i < |s| ==> Allowed(s[i])) && |s| >= |suffix| && s[|s| - |suffix|..] == suffix && s[..|s| - |suffix|] <= base
            && (|base| + |suffix| <= MAX_NICKNAME_LENGTH <==> s == base + suffix)
            && (|base| + |suffix| > MAX_NICKNAME_LENGTH && |suffix| <= MAX_NICKNAME_LENGTH ==> |s| == MAX_NICKNAME_LENGTH)
  {
    hide Allowed, Keep, Trim;
    var s, base, suffix := InitialNickname(accountId, displayName, email), Base(displayName, email), Suffix(accountId);
    assert AllAllowed(base) by { BaseIsAllowed(displayName, email); }
    assert AllAllowed(suffix) by { SuffixIsAllowed(accountId); }
    var n := |s| - |suffix|;
    assert s[..n] == base[..n] && s[n..] == suffix;
    if s == base + suffix { assert |s| == |base| + |suffix|; }
  }

  /** The allowed characters of the name come first, then those of the email's local part, then "user". */
  lemma NameBeforeEmail(displayName: Option<string>, email: Option<string>)
    ensures var name := Keep(displayName.GetOr(""), Allowed);
            var local := Keep(LocalPart(email.GetOr("")), Allowed);
            Base(displayName, email) == if name != "" then name else if local != "" then local else "user"
  {
    SanitizeIgnoresTrim(displayName.GetOr(""));
    hide Trim, Allowed;
    assert LocalPart("") == "" && Keep("", Allowed) == "";
  }

  /** Exactly the letters and digits of ASCII, the Hangul syllables and the underscore are kept. */
  lemma AllowedIff(c: char)
    ensures Keep([c], Allowed) == (if 'A' <= c <= 'Z' || 'a' <= c <= 'z' || '0' <= c <= '9' || '\U{AC00}' <= c <= '\U{D7A3}' || c == '_'
                                   then [c] else [])
  {
    assert Keep([c][..0], Allowed) == [];
  }

  lemma BaseIsAllowed(displayName: Option<string>, email: Option<string>)
    ensures AllAllowed(Base(displayName, email))
  {
    hide Trim, Keep, LocalPart, IsDigit;
  }

  lemma SuffixIsAllowed(accountId: nat)
    ensures AllAllowed(Suffix(accountId))
  {
  }

  function Pow10(k: nat): nat {
    if k == 0 then 1 else 10 * Pow10(k - 1)
  }

  lemma {:induction false} PrintLengthIff(n: nat, k: nat)
    requires k > 0
    ensures |Print(n)| <= k <==> n < Pow10(k)
  {
    if n < 10 {
      Pow10AtLeast(k);
    } else {
      assert |Print(n)| == |Print(n / 10)| + 1;
      if k > 1 {
        PrintLengthIff(n / 10, k - 1);
        assert Pow10(k) == 10 * Pow10(k - 1);
      } else {
        assert Pow10(1) == 10 * Pow10(0);
      }
    }
  }

  lemma {:induction false} Pow10AtLeast(k: nat)
    requires k > 0
    ensures Pow10(k) >= 10
  {
    if k == 1 { assert Pow10(1) == 10 * Pow10(0); } else { Pow10AtLeast(k - 1); }
  }

  /** The nickname fits its column exactly for the ids whose suffix does. */
  lemma FitsColumnIff(accountId: nat, displayName: Option<string>, email: Option<string>)
    ensures |InitialNickname(accountId, displayName, email)| <= MAX_NICKNAME_LENGTH <==> accountId < Pow10(49)
  {
    hide Base, Pow10, Print;
    PrintLengthIff(accountId, 49);
  }

  /** Every 64-bit id fits, and leaves room for some of the name. */
  lemma WideIdsFit(accountId: nat, displayName: Option<string>, email: Option<string>)
    requires accountId < 0x1_0000_0000_0000_0000
    ensures |Suffix(accountId)| < |InitialNickname(accountId, displayName, email)| <= MAX_NICKNAME_LENGTH
  {
    hide Base, Print;
    PrintLengthIff(accountId, 20);
    assert Pow10(20) == 100_000_000_000_000_000_000 by {
      assert Pow10(5) == 100_000; assert Pow10(10) == 100_000 * 100_000; assert Pow10(15) == 100_000 * Pow10(10);
    }
  }
}
