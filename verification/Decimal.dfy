/** Decimal printing and reading of naturals, as `toString`, `padStart` and `\d` patterns do it. */
module Decimal {

  predicate IsDigit(c: char) {
    '0' <= c <= '9'
  }

  predicate AllDigits(s: string) {
    forall i :: 0 <= i < |s| ==> IsDigit(s[i])
  }

  function DigitChar(d: nat): (c: char)
    requires d < 10
    ensures IsDigit(c) && DigitValue(c) == d
  {
    ('0' as int + d) as char
  }

  function DigitValue(c: char): (d: nat)
    requires IsDigit(c)
    ensures d < 10
  {
    c as int - '0' as int
  }

  function Print(n: nat): (s: string)
    ensures |s| >= 1 && AllDigits(s)
    ensures n > 0 ==> s[0] != '0'
  {
    if n < 10 then [DigitChar(n)] else Print(n / 10) + [DigitChar(n % 10)]
  }

  function Value(s: string): nat
    requires AllDigits(s)
  {
    if s == [] then 0 else Value(s[..|s| - 1]) * 10 + DigitValue(s[|s| - 1])
  }

  /** `value.toString().padStart(width, '0')` */
  function Pad(n: nat, width: nat): (s: string)
    ensures AllDigits(s) && |s| >= width
  {
    PadTo(Print(n), width)
  }

  function PadTo(s: string, width: nat): (p: string)
    ensures |p| == if |s| < width then width else |s|
    ensures AllDigits(s) ==> AllDigits(p)
    decreases width - |s|
  {
    if |s| < width then PadTo(['0'] + s, width) else s
  }

  /** Reading back what was printed gives the number. */
  lemma {:induction false} PrintReads(n: nat)
    ensures Value(Print(n)) == n
  {
    if n >= 10 {
      PrintReads(n / 10);
      assert Print(n)[..|Print(n)| - 1] == Print(n / 10);
    }
  }

  lemma PrintInjective(a: nat, b: nat)
    requires Print(a) == Print(b)
    ensures a == b
  {
    PrintReads(a);
    PrintReads(b);
  }

  lemma {:induction false} ValueZeroPrefix(s: string)
    requires AllDigits(s)
    ensures AllDigits(['0'] + s) && Value(['0'] + s) == Value(s)
  {
    if s != [] {
      ValueZeroPrefix(s[..|s| - 1]);
      assert (['0'] + s)[..|s|] == ['0'] + s[..|s| - 1];
    }
  }

  lemma {:induction false} PadToReads(s: string, width: nat)
    requires AllDigits(s)
    ensures Value(PadTo(s, width)) == Value(s)
    decreases width - |s|
  {
    if |s| < width {
      ValueZeroPrefix(s);
      PadToReads(['0'] + s, width);
    }
  }

  /** Padding does not change the number read back, so a padded number names its value. */
  lemma PadReads(n: nat, width: nat)
    ensures Value(Pad(n, width)) == n
  {
    PadToReads(Print(n), width);
    PrintReads(n);
  }

  /** How many digits a number prints with, up to the four a calendar year is allowed. */
  lemma PrintLength(n: nat)
    ensures |Print(n)| == 1 <==> n < 10
    ensures |Print(n)| == 2 <==> 10 <= n < 100
    ensures |Print(n)| == 3 <==> 100 <= n < 1000
    ensures |Print(n)| == 4 <==> 1000 <= n < 10000
  {
  }

  lemma Pad2Length(n: nat)
    requires n < 100
    ensures |Pad(n, 2)| == 2
  {
    PrintLength(n);
  }

  lemma Pad4Length(n: nat)
    requires n < 10000
    ensures |Pad(n, 4)| == 4
  {
    PrintLength(n);
  }

  lemma Pad6Length(n: nat)
    requires n < 1_000_000
    ensures |Pad(n, 6)| == 6
  {
    PrintLength(n);
    if n >= 10_000 {
      assert |Print(n)| == |Print(n / 10)| + 1;
      if n >= 100_000 { assert |Print(n / 10)| == |Print(n / 10 / 10)| + 1; PrintLength(n / 10 / 10); } else { PrintLength(n / 10); }
    }
  }

  lemma LastDigit(a: nat, b: nat, c: nat, d: nat)
    requires b < 10 && d < 10 && a * 10 + b == c * 10 + d
    ensures a == c && b == d
  {
  }

  lemma ValueOfLast(s: string)
    requires AllDigits(s) && s != []
    ensures var n := |s| - 1; AllDigits(s[..n]) && IsDigit(s[n]) && Value(s) == Value(s[..n]) * 10 + DigitValue(s[n])
  {
  }

  /** Digit strings of one length are told apart by their values. */
  lemma {:induction false} DigitsNameString(s: string, t: string)
    requires AllDigits(s) && AllDigits(t) && |s| == |t| && Value(s) == Value(t)
    ensures s == t
  {
    if s != [] {
      var n := |s| - 1;
      ValueOfLast(s);
      ValueOfLast(t);
      hide Value;
      LastDigit(Value(s[..n]), DigitValue(s[n]), Value(t[..n]), DigitValue(t[n]));
      DigitsNameString(s[..n], t[..n]);
      assert s == s[..n] + [s[n]] && t == t[..n] + [t[n]];
    }
  }

  /** Digits end where the first other character stands. */
  lemma {:induction false} SplitAfterDigits(d: string, r: string, e: string, t: string, mark: char)
    requires AllDigits(d) && AllDigits(e) && !IsDigit(mark) && d + [mark] + r == e + [mark] + t
    ensures d == e && r == t
  {
    var s := d + [mark] + r;
    assert IsDigit(s[0]) <==> d != [];
    assert IsDigit((e + [mark] + t)[0]) <==> e != [];
    if d == [] {
      assert s[1..] == r;
    } else {
      assert s[0] == d[0] == e[0];
      assert s[1..] == d[1..] + [mark] + r == e[1..] + [mark] + t;
      SplitAfterDigits(d[1..], r, e[1..], t, mark);
    }
  }
}
