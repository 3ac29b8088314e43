/**
 * Korean calendar time (UTC+9) computed from epoch milliseconds.
 *
 * `Date.UTC` and the `getUTC*` readers are those of ECMA-262 sections 21.4.1 and 21.4.3.4;
 * an instant is an unbounded integer number of milliseconds.
 */
module KstTime {
  import opened Wrappers
  import opened Decimal

  const MINUTE_MS := 60_000
  const DAY_MS := 86_400_000
  const KST_OFFSET_MS := 32_400_000

  datatype Ymd = Ymd(year: int, month: nat, day: nat)
  datatype YearMonth = YearMonth(year: nat, month: nat)

  // ---------- the proleptic Gregorian calendar of ECMA-262 ----------

  predicate IsLeap(y: int) {
    y % 4 == 0 && (y % 100 != 0 || y % 400 == 0)
  }

  function DayFromYear(y: int): int {
    365 * (y - 1970) + (y - 1969) / 4 - (y - 1901) / 100 + (y - 1601) / 400
  }

  /** Days of a year before its month `m` (1-13). */
  function DaysBeforeMonth(leap: bool, m: int): int {
    if m <= 1 then 0
    else if m == 2 then 31
    else (if leap then 1 else 0) + CommonDaysBefore(m)
  }

  function CommonDaysBefore(m: int): int {
    if m == 3 then 59
    else if m == 4 then 90
    else if m == 5 then 120
    else if m == 6 then 151
    else if m == 7 then 181
    else if m == 8 then 212
    else if m == 9 then 243
    else if m == 10 then 273
    else if m == 11 then 304
    else if m == 12 then 334
    else 365
  }

  function DaysInMonth(y: int, m: int): (n: int)
    ensures 1 <= m <= 12 ==> 28 <= n <= 31
  {
    DaysBeforeMonth(IsLeap(y), m + 1) - DaysBeforeMonth(IsLeap(y), m)
  }

  predicate ValidDate(c: Ymd) {
    1 <= c.month <= 12 && 1 <= c.day <= DaysInMonth(c.year, c.month)
  }

  lemma FourYearStep(y: int)
    ensures (y - 1968) / 4 - (y - 1969) / 4 == if y % 4 == 0 then 1 else 0
  {
  }

  lemma CenturyStep(y: int)
    ensures (y - 1900) / 100 - (y - 1901) / 100 == if y % 100 == 0 then 1 else 0
  {
  }

  lemma FourCenturyStep(y: int)
    ensures (y - 1600) / 400 - (y - 1601) / 400 == if y % 400 == 0 then 1 else 0
  {
  }

  lemma YearLength(y: int)
    ensures DayFromYear(y + 1) - DayFromYear(y) == if IsLeap(y) then 366 else 365
  {
    LeapDayStep((y - 1968) / 4, (y - 1900) / 100, (y - 1600) / 400, y);
  }

  lemma LeapDayStep(fours: int, centuries: int, fourCenturies: int, y: int)
    requires fours == (y - 1968) / 4 && centuries == (y - 1900) / 100 && fourCenturies == (y - 1600) / 400
    ensures fours - (y - 1969) / 4 - (centuries - (y - 1901) / 100) + (fourCenturies - (y - 1601) / 400)
            == if IsLeap(y) then 1 else 0
  {
    FourYearStep(y);
    CenturyStep(y);
    FourCenturyStep(y);
    CenturyIsFourYears(y);
    FourCenturyIsCentury(y);
  }

  lemma CenturyIsFourYears(y: int)
    ensures y % 100 == 0 ==> y % 4 == 0
  {
    var q := y / 100;
    assert y == 4 * (25 * q) + y % 100;
  }

  lemma FourCenturyIsCentury(y: int)
    ensures y % 400 == 0 ==> y % 100 == 0
  {
    var q := y / 400;
    assert y == 100 * (4 * q) + y % 400;
  }

  lemma {:induction false} YearsAscend(a: int, b: int)
    requires a < b
    ensures DayFromYear(a) < DayFromYear(b)
    decreases b - a
  {
    YearLength(a);
    if a + 1 < b {
      YearsAscend(a + 1, b);
    }
  }

  /** The largest year starting on or before day `d`, searched upwards from `y`. */
  function LargestYear(y: int, d: int): (r: int)
    requires DayFromYear(y) <= d
    ensures DayFromYear(r) <= d < DayFromYear(r + 1)
    decreases d - DayFromYear(y)
  {
    YearLength(y);
    if d < DayFromYear(y + 1) then y else LargestYear(y + 1, d)
  }

  /** YearFromTime: the year holding day `d`. */
  function YearFromDay(d: int): (y: int)
    ensures DayFromYear(y) <= d < DayFromYear(y + 1)
  {
    LargestYear(if d >= 0 then 1970 else 1970 + d, d)
  }

  lemma YearFromDayUnique(y: int, d: int)
    requires DayFromYear(y) <= d < DayFromYear(y + 1)
    ensures YearFromDay(d) == y
  {
    hide DayFromYear, YearFromDay;
    var r := YearFromDay(d);
    if r < y {
      if r + 1 < y { YearsAscend(r + 1, y); }
    } else if y < r {
      if y + 1 < r { YearsAscend(y + 1, r); }
    }
  }

  /** MonthFromTime, from the day within the year. */
  function MonthFromDay(leap: bool, dayInYear: int): (m: int)
    ensures 1 <= m <= 12
  {
    MonthUpFrom(leap, dayInYear, 1)
  }

  function MonthUpFrom(leap: bool, dayInYear: int, m: int): (r: int)
    requires 1 <= m <= 12
    ensures m <= r <= 12
    ensures r < 12 ==> dayInYear < DaysBeforeMonth(leap, r + 1)
    ensures m < r ==> DaysBeforeMonth(leap, r) <= dayInYear
    decreases 12 - m
  {
    if m == 12 || dayInYear < DaysBeforeMonth(leap, m + 1) then m
    else MonthUpFrom(leap, dayInYear, m + 1)
  }

  lemma MonthFromDayUnique(leap: bool, m: int, dayInYear: int)
    requires 1 <= m <= 12
    requires DaysBeforeMonth(leap, m) <= dayInYear < DaysBeforeMonth(leap, m + 1)
    ensures MonthFromDay(leap, dayInYear) == m
  {
    var r := MonthFromDay(leap, dayInYear);
    if r < m { MonthsAscend(leap, r + 1, m); }
    if m < r { MonthsAscend(leap, m + 1, r); }
  }

  lemma MonthsAscend(leap: bool, a: int, b: int)
    requires 1 <= a <= b <= 13
    ensures DaysBeforeMonth(leap, a) <= DaysBeforeMonth(leap, b)
  {
  }

  /** getUTCFullYear / getUTCMonth + 1 / getUTCDate of day number `n`. */
  function CivilOfDay(n: int): Ymd {
    var y := YearFromDay(n);
    var dayInYear := n - DayFromYear(y);
    var m := MonthFromDay(IsLeap(y), dayInYear);
    Ymd(y, m, dayInYear - DaysBeforeMonth(IsLeap(y), m) + 1)
  }

  /** MakeDay: `month0` counts from 0, and both `month0` and `date` may overflow. */
  function MakeDay(year: int, month0: int, date: int): int {
    var y := year + month0 / 12;
    DayFromYear(y) + DaysBeforeMonth(IsLeap(y), month0 % 12 + 1) + date - 1
  }

  /** Day number of `Date.UTC(year, month0, date)`, which reads years 0-99 as 1900-1999. */
  function UtcDay(year: int, month0: int, date: int): int {
    MakeDay(if 0 <= year <= 99 then 1900 + year else year, month0, date)
  }

  /** getUTCDay: day 0 was a Thursday. */
  function Weekday(n: int): int {
    (n + 4) % 7
  }

  /** The months of thirty days are April, June, September and November; February has 28 or 29, the others 31. */
  lemma MonthLengths(y: int, m: int)
    requires 1 <= m <= 12
    ensures DaysInMonth(y, m) ==
            if m == 4 || m == 6 || m == 9 || m == 11 then 30
            else if m != 2 then 31
            else if y % 4 == 0 && (y % 100 != 0 || y % 400 == 0) then 29 else 28
  {
    hide DaysBeforeMonth;
    MonthLengthsBy(IsLeap(y), m);
  }

  lemma MonthLengthsBy(leap: bool, m: int)
    requires 1 <= m <= 12
    ensures DaysBeforeMonth(leap, m + 1) - DaysBeforeMonth(leap, m) ==
            if m == 4 || m == 6 || m == 9 || m == 11 then 30 else if m != 2 then 31 else if leap then 29 else 28
  {
  }

  /** Day 0 is 1970-01-01, and 1970-01-04 was a Sunday. */
  lemma CalendarIsAnchored()
    ensures CivilOfDay(0) == Ymd(1970, 1, 1) && MakeDay(1970, 0, 4) == 3 && Weekday(MakeDay(1970, 0, 4)) == 0
  {
    hide CivilOfDay, MakeDay;
    FirstDays();
    DayRoundTrip(Ymd(1970, 1, 1));
  }

  lemma FirstDays()
    ensures MakeDay(1970, 0, 1) == 0 && MakeDay(1970, 0, 4) == 3 && ValidDate(Ymd(1970, 1, 1))
  {
  }

  /** Weekdays follow one another from Sunday 0 to Saturday 6. */
  lemma WeekdaysCycle(n: int)
    ensures 0 <= Weekday(n) <= 6 && Weekday(n + 1) == if Weekday(n) == 6 then 0 else Weekday(n) + 1
  {
  }

  /** The weekday is the number of days since a Sunday, modulo 7. */
  lemma WeekdayCountsFromSunday(n: int)
    ensures Weekday(n) == (n - MakeDay(1970, 0, 4)) % 7
  {
    hide MakeDay;
    FirstDays();
  }

  lemma MakeDayInYear(y: int, m: int, d: int)
    requires 1 <= m <= 12
    ensures MakeDay(y, m - 1, d) == DayFromYear(y) + DaysBeforeMonth(IsLeap(y), m) + d - 1
  {
    assert (m - 1) / 12 == 0 && (m - 1) % 12 == m - 1;
  }

  /** Decomposing a day number gives a real date, and composing that date gives the number back. */
  lemma CivilRoundTrip(n: int)
    ensures ValidDate(CivilOfDay(n))
    ensures var c := CivilOfDay(n); MakeDay(c.year, c.month - 1, c.day) == n
  {
    hide DayFromYear, IsLeap, MakeDay;
    var c := CivilOfDay(n);
    YearLength(c.year);
    MakeDayInYear(c.year, c.month, c.day);
  }

  /** Conversely, a real date survives being composed and decomposed. */
  lemma DayRoundTrip(c: Ymd)
    requires ValidDate(c)
    ensures CivilOfDay(MakeDay(c.year, c.month - 1, c.day)) == c
  {
    hide DayFromYear, IsLeap, MakeDay;
    var n := MakeDay(c.year, c.month - 1, c.day);
    var leap := IsLeap(c.year);
    MakeDayInYear(c.year, c.month, c.day);
    MonthsAscend(leap, c.month + 1, 13);
    MonthsAscend(leap, 1, c.month);
    YearLength(c.year);
    YearFromDayUnique(c.year, n);
    MonthFromDayUnique(leap, c.month, n - DayFromYear(c.year));
  }

  /** Overflowing the day by one month's length is the first of the next month, across year ends too. */
  lemma NextMonthStart(y: int, m: int)
    requires 1 <= m <= 12
    ensures MakeDay(y, m, 1) == MakeDay(y, m - 1, 1) + DaysInMonth(y, m)
  {
    hide DayFromYear, IsLeap;
    MakeDayInYear(y, m, 1);
    if m == 12 {
      YearLength(y);
    } else {
      MakeDayInYear(y, m + 1, 1);
    }
  }

  /** `new Date(Date.UTC(y, m, 0)).getUTCDate()` is the length of month `m`. */
  lemma LastDayOfMonth(y: int, m: int)
    requires 1 <= m <= 12
    ensures CivilOfDay(MakeDay(y, m, 0)) == Ymd(y, m, DaysInMonth(y, m))
  {
    hide DayFromYear, IsLeap;
    NextMonthStart(y, m);
    assert MakeDay(y, m, 0) == MakeDay(y, m, 1) - 1;
    assert MakeDay(y, m - 1, DaysInMonth(y, m)) == MakeDay(y, m - 1, 1) + DaysInMonth(y, m) - 1;
    DayRoundTrip(Ymd(y, m, DaysInMonth(y, m)));
  }

  // ---------- Korean dates ----------

  /** The KST calendar day an instant falls on, as a day number. */
  function KstDay(t: int): int {
    (t + KST_OFFSET_MS) / DAY_MS
  }

  /** The instant at which KST day `n` starts. */
  function KstStart(n: int): int {
    n * DAY_MS - KST_OFFSET_MS
  }

  lemma KstStartDay(n: int)
    ensures KstDay(KstStart(n)) == n
  {
  }

  /** An instant is its KST day's midnight in Korea, nine hours behind UTC, plus the minutes and milliseconds since. */
  lemma KstClock(t: int)
    ensures var sinceMinute := t - (KstDay(t) * 86_400_000 - 9 * 3_600_000) - KstMinutesOfDay(t) * 60_000;
            0 <= sinceMinute < 60_000
  {
  }

  function ToKstYmd(t: int): Ymd {
    CivilOfDay(KstDay(t))
  }

  function KstMidnightUtc(year: int, month: int, day: int): int {
    UtcDay(year, month - 1, day) * DAY_MS - KST_OFFSET_MS
  }

  function YearString(y: int): string {
    if y < 0 then "-" + Print(-y) else Print(y)
  }

  function DateString(c: Ymd): string {
    YearString(c.year) + "-" + Pad(c.month, 2) + "-" + Pad(c.day, 2)
  }

  function FormatKstDate(t: int): string {
    DateString(ToKstYmd(t))
  }

  function KstMinutesOfDay(t: int): (m: int)
    ensures 0 <= m < 1440
  {
    (t + KST_OFFSET_MS) % DAY_MS / MINUTE_MS
  }

  function ParseKstYearMonth(s: string): (r: Option<YearMonth>)
    ensures r.Some? ==> r.value.year <= 9999 && 1 <= r.value.month <= 12
  {
    if |s| != 7 || s[4] != '-' || !AllDigits(s[..4]) || !AllDigits(s[5..]) then None
    else
      var month := Value(s[5..]);
      if month < 1 || month > 12 then None else
        Value4(s[..4]);
        Some(YearMonth(Value(s[..4]), month))
  }

  function ParseKstDate(s: string): Option<int> {
    if |s| != 10 || s[4] != '-' || s[7] != '-'
       || !AllDigits(s[..4]) || !AllDigits(s[5..7]) || !AllDigits(s[8..]) then None
    else
      var year, month, day := Value(s[..4]), Value(s[5..7]), Value(s[8..]);
      if month < 1 || month > 12 || day < 1 || day > 31 then None else
        var date := KstMidnightUtc(year, month, day);
        if FormatKstDate(date) != s then None else Some(date)
  }

  /** `Math.round(x / DAY_MS)`; halves round up. */
  function RoundDays(x: int): int {
    (2 * x + DAY_MS) / (2 * DAY_MS)
  }

  function KstDayDiff(a: int, b: int): int {
    var startA := ParseKstDate(FormatKstDate(a));
    var startB := ParseKstDate(FormatKstDate(b));
    if startA.None? || startB.None? then 0
    else RoundDays(startB.value - startA.value)
  }

  function FormatMinutesOfDay(minutes: nat): string {
    Pad(minutes / 60, 2) + ":" + Pad(minutes % 60, 2)
  }

  // ---------- what the string functions mean ----------

  lemma Value4(s: string)
    requires |s| == 4 && AllDigits(s)
    ensures Value(s) <= 9999
  {
    assert s[..3][..2] == s[..2] && s[..2][..1] == s[..1] && s[..1][..0] == [];
    assert Value(s[..1]) <= 9;
    assert Value(s[..2]) <= 99;
    assert Value(s[..3]) <= 999;
  }

  /** A month string is accepted exactly when it is "YYYY-MM" with a month from 01 to 12, and is read as that month. */
  lemma ParseYearMonthIff(s: string, ym: YearMonth)
    ensures ParseKstYearMonth(s) == Some(ym) <==>
            ym.year <= 9999 && 1 <= ym.month <= 12 && s == Pad(ym.year, 4) + "-" + Pad(ym.month, 2)
  {
    hide Pad, Value, Print;
    PadReads(ym.year, 4);
    PadReads(ym.month, 2);
    if ym.year <= 9999 && 1 <= ym.month <= 12 {
      Pad4Length(ym.year);
      Pad2Length(ym.month);
      var t := Pad(ym.year, 4) + "-" + Pad(ym.month, 2);
      assert t[..4] == Pad(ym.year, 4) && t[5..] == Pad(ym.month, 2);
      if ParseKstYearMonth(s) == Some(ym) {
        DigitsNameString(s[..4], Pad(ym.year, 4));
        DigitsNameString(s[5..], Pad(ym.month, 2));
        assert s == s[..4] + "-" + s[5..];
      }
    }
  }

  predicate FourDigitYear(y: int) {
    1000 <= y <= 9999
  }

  lemma DateStringShape(c: Ymd)
    requires ValidDate(c)
    ensures |DateString(c)| == |YearString(c.year)| + 6
    ensures FourDigitYear(c.year) ==>
              var s := DateString(c);
              && |s| == 10 && s[..4] == Print(c.year) && s[4] == '-' && s[5..7] == Pad(c.month, 2)
              && s[7] == '-' && s[8..] == Pad(c.day, 2)
  {
    assert c.month < 100 && c.day < 100;
    hide ValidDate, DaysInMonth, Pad, Print;
    Pad2Length(c.month);
    Pad2Length(c.day);
    if FourDigitYear(c.year) {
      PrintLength(c.year);
      var y, m, d := Print(c.year), Pad(c.month, 2), Pad(c.day, 2);
      assert DateString(c) == y + "-" + m + "-" + d;
      assert DateString(c)[5..7] == m && DateString(c)[8..] == d;
    }
  }

  /** A year is printed as a template string prints a number: no padding, a sign only below zero. */
  lemma FormattedYear(t: int)
    ensures var y := ToKstYmd(t).year;
            var printed := if y >= 0 then Print(y) else "-" + Print(-y);
            printed + "-" <= FormatKstDate(t)
  {
    hide ToKstYmd, Print, Pad;
  }

  /** The midnight of a real four-digit-year date is where its KST day starts. */
  lemma MidnightOfRealDate(c: Ymd)
    requires FourDigitYear(c.year) && ValidDate(c)
    ensures KstMidnightUtc(c.year, c.month, c.day) == KstStart(MakeDay(c.year, c.month - 1, c.day))
    ensures ToKstYmd(KstMidnightUtc(c.year, c.month, c.day)) == c
  {
    hide DayFromYear, IsLeap, MakeDay;
    var n := MakeDay(c.year, c.month - 1, c.day);
    assert UtcDay(c.year, c.month - 1, c.day) == n;
    KstStartDay(n);
    DayRoundTrip(c);
  }

  /** A real four-digit-year date parses to the instant its KST day starts. */
  lemma ParseAcceptsRealDate(c: Ymd)
    requires FourDigitYear(c.year) && ValidDate(c)
    ensures ParseKstDate(DateString(c)) == Some(KstMidnightUtc(c.year, c.month, c.day))
  {
    var date := KstMidnightUtc(c.year, c.month, c.day);
    MidnightOfRealDate(c);
    assert FormatKstDate(date) == DateString(c);
    DateStringShape(c);
    PrintReads(c.year);
    PadReads(c.month, 2);
    PadReads(c.day, 2);
    assert DaysInMonth(c.year, c.month) <= 31;
    ParseOfShape(DateString(c), c.year, c.month, c.day);
  }

  lemma ParseOfShape(s: string, year: int, month: int, day: int)
    requires |s| == 10 && s[4] == '-' && s[7] == '-'
    requires AllDigits(s[..4]) && AllDigits(s[5..7]) && AllDigits(s[8..])
    requires Value(s[..4]) == year && Value(s[5..7]) == month && Value(s[8..]) == day
    requires 1 <= month <= 12 && 1 <= day <= 31
    ensures ParseKstDate(s) ==
            var date := KstMidnightUtc(year, month, day);
            if FormatKstDate(date) == s then Some(date) else None
  {
  }

  /** Conversely, only those strings parse. */
  lemma ParseOnlyRealDates(s: string)
    ensures ParseKstDate(s).Some? ==>
              var c := ToKstYmd(ParseKstDate(s).value);
              FourDigitYear(c.year) && ValidDate(c) && s == DateString(c)
  {
    if ParseKstDate(s).Some? {
      var c := ToKstYmd(ParseKstDate(s).value);
      CivilRoundTrip(KstDay(ParseKstDate(s).value));
      DateStringShape(c);
      assert |YearString(c.year)| == 4;
      assert IsDigit(s[..4][0]);
      if c.year >= 0 { PrintLength(c.year); }
    }
  }

  ghost predicate RealDateString(s: string) {
    exists c: Ymd :: FourDigitYear(c.year) && ValidDate(c) && s == DateString(c)
  }

  /** `parseKstDate` accepts exactly the real Gregorian dates of years 1000 to 9999. */
  lemma ParseAcceptsExactlyRealDates(s: string)
    ensures ParseKstDate(s).Some? <==> RealDateString(s)
  {
    ParseOnlyRealDates(s);
    if RealDateString(s) {
      var c: Ymd :| FourDigitYear(c.year) && ValidDate(c) && s == DateString(c);
      ParseAcceptsRealDate(c);
    }
  }

  /** Formatting an instant and parsing it back gives the start of its KST day, or nothing outside years 1000-9999. */
  lemma FormatThenParse(t: int)
    ensures ParseKstDate(FormatKstDate(t)) ==
            if FourDigitYear(ToKstYmd(t).year) then Some(KstStart(KstDay(t))) else None
  {
    var c := ToKstYmd(t);
    CivilRoundTrip(KstDay(t));
    hide CivilOfDay, MakeDay, ValidDate, UtcDay;
    if FourDigitYear(c.year) {
      hide ParseKstDate, DateString;
      ParseAcceptsRealDate(c);
      MidnightOfRealDate(c);
    } else {
      DateStringShape(c);
      if c.year >= 0 {
        PrintLength(c.year);
      } else {
        assert FormatKstDate(t)[0] == '-';
        assert FormatKstDate(t)[..4][0] == '-';
      }
    }
  }

  /** Parsing a date and formatting it back gives the same string. */
  lemma ParseThenFormat(s: string)
    ensures ParseKstDate(s).Some? ==>
              && FormatKstDate(ParseKstDate(s).value) == s
              && exists n :: ParseKstDate(s) == Some(KstStart(n))
  {
    ParseOnlyRealDates(s);
    if ParseKstDate(s).Some? {
      ParseAcceptsRealDate(ToKstYmd(ParseKstDate(s).value));
      MidnightOfRealDate(ToKstYmd(ParseKstDate(s).value));
    }
  }

  /** The day difference is the difference of KST day numbers, and 0 when either year has not four digits. */
  lemma DayDiffMeaning(a: int, b: int)
    ensures KstDayDiff(a, b) ==
            if FourDigitYear(ToKstYmd(a).year) && FourDigitYear(ToKstYmd(b).year)
            then KstDay(b) - KstDay(a) else 0
  {
    hide ParseKstDate, FormatKstDate, ToKstYmd, RoundDays, KstDay, KstStart;
    FormatThenParse(a);
    FormatThenParse(b);
    RoundExactDays(KstDay(a), KstDay(b));
  }

  lemma RoundExactDays(m: int, n: int)
    ensures RoundDays(KstStart(n) - KstStart(m)) == n - m
  {
    assert KstStart(n) - KstStart(m) == (n - m) * DAY_MS;
  }

  /** "HH:MM" strings name their minute of the day. */
  lemma FormatMinutesReads(m: nat)
    requires m < 1440
    ensures var s := FormatMinutesOfDay(m);
            && |s| == 5 && AllDigits(s[..2]) && AllDigits(s[3..])
            && Value(s[..2]) * 60 + Value(s[3..]) == m
  {
    Pad2Length(m / 60);
    Pad2Length(m % 60);
    PadReads(m / 60, 2);
    PadReads(m % 60, 2);
    var s := FormatMinutesOfDay(m);
    assert s[..2] == Pad(m / 60, 2);
    assert s[3..] == Pad(m % 60, 2);
  }
}
