/** String trimming. */
module Text {

  /** The characters that `trim` removes, as ECMA-262 lists them. */
  predicate IsSpace(c: char) {
    var n := c as int;
    9 <= n <= 13 || n == 32 || n == 160 || n == 5760 || 8192 <= n <= 8202
    || n == 8232 || n == 8233 || n == 8239 || n == 8287 || n == 12288 || n == 65279
  }

  /** Tab to carriage return, space, no-break space, the Unicode space separators, the two line separators, the byte order mark. */
  lemma SpacesAre(c: char)
    ensures IsSpace(c) <==>
            c in {'\U{0009}', '\U{000A}', '\U{000B}', '\U{000C}', '\U{000D}', ' ', '\U{00A0}', '\U{1680}',
                  '\U{2000}', '\U{2001}', '\U{2002}', '\U{2003}', '\U{2004}', '\U{2005}', '\U{2006}', '\U{2007}',
                  '\U{2008}', '\U{2009}', '\U{200A}', '\U{2028}', '\U{2029}', '\U{202F}', '\U{205F}', '\U{3000}', '\U{FEFF}'}
  {
  }

  predicate AllSpaces(s: string) {
    forall i :: 0 <= i < |s| ==> IsSpace(s[i])
  }

  function TrimStart(s: string): (r: string)
    ensures |r| <= |s| && (r != [] ==> !IsSpace(r[0]))
    ensures s != [] && !IsSpace(s[|s| - 1]) ==> r != [] && r[|r| - 1] == s[|s| - 1]
  {
    if s != [] && IsSpace(s[0]) then TrimStart(s[1..]) else s
  }

  function TrimEnd(s: string): (r: string)
    ensures r <= s && (r != [] ==> !IsSpace(r[|r| - 1]))
  {
    if s != [] && IsSpace(s[|s| - 1]) then TrimEnd(s[..|s| - 1]) else s
  }

  function Trim(s: string): (r: string)
    ensures |r| <= |s| && (r != [] ==> !IsSpace(r[0]) && !IsSpace(r[|r| - 1]))
  {
    TrimStart(TrimEnd(s))
  }

  /** Trimming cuts the white space off both ends and nothing else, and there is only one way to do that. */
  lemma TrimIsMiddle(s: string) returns (before: string, after: string)
    ensures s == before + Trim(s) + after && AllSpaces(before) && AllSpaces(after)
  {
    hide TrimStart, TrimEnd, IsSpace;
    var r := TrimEnd(s);
    var n := TrimStartCuts(r);
    TrimEndCuts(s);
    before, after := r[..n], s[|r|..];
    assert r == before + r[n..] && s == r + after;
  }

  lemma {:induction false} TrimStartCuts(s: string) returns (n: nat)
    ensures n <= |s| && TrimStart(s) == s[n..] && forall i :: 0 <= i < n ==> IsSpace(s[i])
  {
    n := 0;
    if s != [] && IsSpace(s[0]) {
      var rest := s[1..];
      assert TrimStart(s) == TrimStart(rest);
      hide TrimStart, IsSpace;
      var m := TrimStartCuts(rest);
      n := m + 1;
      assert s[n..] == rest[m..];
      forall i | 0 <= i < n ensures IsSpace(s[i]) {
        if i > 0 { assert s[i] == rest[i - 1]; }
      }
    }
  }

  lemma {:induction false} TrimEndCuts(s: string)
    ensures AllSpaces(s[|TrimEnd(s)|..])
  {
    if s != [] && IsSpace(s[|s| - 1]) {
      TrimEndCuts(s[..|s| - 1]);
      var n := |TrimEnd(s)|;
      assert s[n..] == s[..|s| - 1][n..] + [s[|s| - 1]];
    }
  }

  lemma {:induction false} TrimOfPadded(before: string, middle: string, after: string)
    requires AllSpaces(before) && AllSpaces(after)
    requires middle != [] && !IsSpace(middle[0]) && !IsSpace(middle[|middle| - 1])
    ensures Trim(before + middle + after) == middle
  {
    TrimEndOfPadded(before + middle, after);
    TrimStartOfPadded(before, middle);
  }

  lemma {:induction false} TrimEndOfPadded(s: string, after: string)
    requires AllSpaces(after) && s != [] && !IsSpace(s[|s| - 1])
    ensures TrimEnd(s + after) == s
  {
    if after == [] {
      assert s + after == s;
    } else {
      assert (s + after)[..|s + after| - 1] == s + after[..|after| - 1];
      TrimEndOfPadded(s, after[..|after| - 1]);
    }
  }

  lemma {:induction false} TrimStartOfPadded(before: string, s: string)
    requires AllSpaces(before) && s != [] && !IsSpace(s[0])
    ensures TrimStart(before + s) == s
  {
    if before == [] {
      assert before + s == s;
    } else {
      assert (before + s)[1..] == before[1..] + s;
      TrimStartOfPadded(before[1..], s);
    }
  }

  function Keep(s: string, allowed: char -> bool): (r: string)
    ensures forall i :: 0 <= i < |r| ==> allowed(r[i])
    ensures |r| <= |s|
  {
    if s == [] then []
    else Keep(s[..|s| - 1], allowed) + (if allowed(s[|s| - 1]) then [s[|s| - 1]] else [])
  }

  lemma {:induction false} KeepConcat(s: string, t: string, allowed: char -> bool)
    ensures Keep(s + t, allowed) == Keep(s, allowed) + Keep(t, allowed)
  {
    if t == [] {
      assert s + t == s;
    } else {
      KeepConcat(s, t[..|t| - 1], allowed);
      assert (s + t)[..|s + t| - 1] == s + t[..|t| - 1];
    }
  }

  lemma {:induction false} KeepTrimEnd(s: string, allowed: char -> bool)
    requires forall c :: allowed(c) ==> !IsSpace(c)
    ensures Keep(TrimEnd(s), allowed) == Keep(s, allowed)
  {
    if s != [] && IsSpace(s[|s| - 1]) {
      KeepTrimEnd(s[..|s| - 1], allowed);
    }
  }

  lemma {:induction false} KeepTrimStart(s: string, allowed: char -> bool)
    requires forall c :: allowed(c) ==> !IsSpace(c)
    ensures Keep(TrimStart(s), allowed) == Keep(s, allowed)
  {
    if s != [] && IsSpace(s[0]) {
      KeepTrimStart(s[1..], allowed);
      KeepConcat([s[0]], s[1..], allowed);
      assert s == [s[0]] + s[1..];
    }
  }

  /** Trimming first changes nothing for a filter that drops white space anyway. */
  lemma KeepAbsorbsTrim(s: string, allowed: char -> bool)
    requires forall c :: allowed(c) ==> !IsSpace(c)
    ensures Keep(Trim(s), allowed) == Keep(s, allowed)
  {
    KeepTrimEnd(s, allowed);
    KeepTrimStart(TrimEnd(s), allowed);
  }
}
