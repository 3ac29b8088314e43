/** The store-independent pickup calendar and time slots of the home screen. */
module HomePickup {
  import opened Wrappers
  import opened Decimal
  import opened KstTime
  import opened PickupSlots
  import opened ScheduleAgreement

  const OPEN_MINUTES := 600
  const CLOSE_MINUTES := 1200
  const SLOT_INTERVAL_MINUTES := 30
  const MAX_DAYS_AHEAD := 30
  const MIN_LEAD_MINUTES := 60

  datatype DayReason = Past | OutOfRange | Closed
  datatype CalendarDay = CalendarDay(date: string, selectable: bool, reason: Option<DayReason>)

  // ---------- the calendar ----------

  function TodayHasSlot(now: int): bool {
    KstMinutesOfDay(now) + MIN_LEAD_MINUTES <= CLOSE_MINUTES - SLOT_INTERVAL_MINUTES
  }

  function DayEntry(now: int, year: int, month: int, day: int): CalendarDay {
    var date := KstMidnightUtc(year, month, day);
    var diff := KstDayDiff(now, date);
    if diff < 0 then CalendarDay(FormatKstDate(date), false, Some(Past))
    else if diff > MAX_DAYS_AHEAD then CalendarDay(FormatKstDate(date), false, Some(OutOfRange))
    else if diff == 0 && !TodayHasSlot(now) then CalendarDay(FormatKstDate(date), false, Some(Closed))
    else CalendarDay(FormatKstDate(date), true, None)
  }

  function PickupCalendar(yearMonth: string, now: int): Option<seq<CalendarDay>> {
    var ym := ParseKstYearMonth(yearMonth);
    if ym.None? then None
    else
      var daysInMonth := CivilOfDay(UtcDay(ym.value.year, ym.value.month, 0)).day;
      Some(seq(daysInMonth, i => DayEntry(now, ym.value.year, ym.value.month, i + 1)))
  }

  // ---------- the slots of a day ----------

  function HomePolicy(isToday: bool, now: int): SlotPolicy {
    SlotPolicy(OPEN_MINUTES, CLOSE_MINUTES, SLOT_INTERVAL_MINUTES, MIN_LEAD_MINUTES,
               if isToday then At(KstMinutesOfDay(now)) else NoCutoff)
  }

  function PickupTimeSlots(date: string, now: int): Option<TimeSlots> {
    var parsed := ParseKstDate(date);
    if parsed.None? then None
    else
      Some(SlotsAhead(date, KstDayDiff(now, parsed.value), now))
  }

  /** The slots of a day `diff` days from today. */
  function SlotsAhead(date: string, diff: int, now: int): TimeSlots {
    SplitDay(date, HomePolicy(diff == 0, now), diff < 0 || diff > MAX_DAYS_AHEAD)
  }

  /** The grid of the day as the loop shows it. */
  function HomeSlots(isToday: bool, now: int, outOfRange: bool): (slots: seq<Slot>)
    ensures AllClockTimes(slots)
  {
    var policy := HomePolicy(isToday, now);
    GridIsClockTimes(policy);
    if outOfRange then CloseAll(policy.Slots()) else policy.Slots()
  }

  lemma HomeSlotAt(isToday: bool, now: int, outOfRange: bool, minutes: int, k: nat)
    requires minutes == OPEN_MINUTES + k * SLOT_INTERVAL_MINUTES
    ensures var slots := HomeSlots(isToday, now, outOfRange);
            && (k < |slots| <==> minutes < CLOSE_MINUTES)
            && (k < |slots| ==>
                  && SlotMinutes(slots[k]) == minutes
                  && slots[k] == Slot(FormatMinutesOfDay(minutes),
                                      !outOfRange && (isToday ==> minutes >= KstMinutesOfDay(now) + MIN_LEAD_MINUTES)))
  {
    hide FormatMinutesOfDay, KstMinutesOfDay, IsClockTime, SlotMinutes;
    var policy := HomePolicy(isToday, now);
    GridIsClockTimes(policy);
    policy.GridIsExact(k);
    if k < policy.Count() {
      SlotMinutesIgnoresState(policy.Slots()[k], HomeSlots(isToday, now, outOfRange)[k]);
    }
  }

  /** The loop that pushes each slot into its half of the day builds the split grid. */
  method ComputePickupTimeSlots(date: string, now: int) returns (r: Option<TimeSlots>)
    ensures r == PickupTimeSlots(date, now)
  {
    hide ParseKstDate, KstDayDiff, KstMinutesOfDay, SlotMinutes, IsClockTime, FormatMinutesOfDay, HomeSlots, HalfDay;
    var parsed := ParseKstDate(date);
    if parsed.None? {
      return None;
    }
    var diff := KstDayDiff(now, parsed.value);
    var outOfRange := diff < 0 || diff > MAX_DAYS_AHEAD;
    ghost var slots := HomeSlots(diff == 0, now, outOfRange);
    var morning: seq<Slot>, afternoon: seq<Slot> := [], [];
    var minutes := OPEN_MINUTES;
    ghost var k := 0;
    EmptyHalves(slots);
    HomeSlotAt(diff == 0, now, outOfRange, minutes, 0);
    while minutes < CLOSE_MINUTES
      invariant 0 <= k <= |slots| && minutes == OPEN_MINUTES + k * SLOT_INTERVAL_MINUTES
      invariant AllClockTimes(slots[..k])
      invariant morning == HalfDay(slots[..k], false) && afternoon == HalfDay(slots[..k], true)
      decreases CLOSE_MINUTES - minutes
    {
      HomeSlotAt(diff == 0, now, outOfRange, minutes, k);
      HalfDayGrows(slots, k, false);
      HalfDayGrows(slots, k, true);
      var slot := Slot(
        FormatMinutesOfDay(minutes),
        !outOfRange && (diff == 0 ==> minutes >= KstMinutesOfDay(now) + MIN_LEAD_MINUTES));
      if minutes < AFTERNOON_START_MINUTES {
        morning := morning + [slot];
      } else {
        afternoon := afternoon + [slot];
      }
      minutes := minutes + SLOT_INTERVAL_MINUTES;
      k := k + 1;
    }
    HomeSlotAt(diff == 0, now, outOfRange, minutes, k);
    assert slots[..k] == slots;
    SplitIsHalves(date, diff == 0, now, outOfRange);
    return Some(TimeSlots(date, morning, afternoon));
  }

  lemma EmptyHalves(slots: seq<Slot>)
    ensures AllClockTimes(slots[..0]) && HalfDay(slots[..0], false) == [] && HalfDay(slots[..0], true) == []
  {
  }

  lemma SplitIsHalves(date: string, isToday: bool, now: int, outOfRange: bool)
    ensures HomePolicy(isToday, now).closeMinutes <= 1440
    ensures var slots := HomeSlots(isToday, now, outOfRange);
            SplitDay(date, HomePolicy(isToday, now), outOfRange) == TimeSlots(date, HalfDay(slots, false), HalfDay(slots, true))
  {
    hide HalfDay, SlotPolicy.Slots;
  }

  lemma SlotMinutesIgnoresState(a: Slot, b: Slot)
    requires a.time == b.time && IsClockTime(a.time)
    ensures SlotMinutes(a) == SlotMinutes(b)
  {
  }

  // ---------- the two agree ----------

  /** The closed form for today matches the grid, because the interval divides the opening hours. */
  lemma ClosedFormMatchesGrid(now: int)
    ensures TodayHasSlot(now) <==> HasAvailable(HomePolicy(true, now).Slots())
  {
    var policy := HomePolicy(true, now);
    assert policy.Count() == 20 && policy.Minute(19) == 1170;
    if HasAvailable(policy.Slots()) {
      var i :| 0 <= i < 20 && policy.Slots()[i].available;
      policy.AvailabilityIsMonotone(i, 19);
    }
    assert policy.Slots()[19].available <==> TodayHasSlot(now);
  }

  /** The calendar year `Date.UTC` reads a two-digit year as. */
  function UtcYear(y: int): int {
    if 0 <= y <= 99 then 1900 + y else y
  }

  lemma EntryOfMonth(y: nat, m: nat, d: int)
    requires 1 <= m <= 12 && 1 <= d <= DaysInMonth(UtcYear(y), m)
    ensures var c := Ymd(UtcYear(y), m, d);
            && ValidDate(c) && KstMidnightUtc(y, m, d) == KstStart(DayNumber(c))
            && FormatKstDate(KstMidnightUtc(y, m, d)) == DateString(c)
            && ToKstYmd(KstMidnightUtc(y, m, d)) == c && KstDay(KstMidnightUtc(y, m, d)) == DayNumber(c)
  {
    hide MakeDay, CivilOfDay, DateString, DaysInMonth, KstDay;
    var c := Ymd(UtcYear(y), m, d);
    DayRoundTrip(c);
    KstStartDay(DayNumber(c));
  }

  lemma MonthLength(yearMonth: string, now: int)
    requires ParseKstYearMonth(yearMonth).Some?
    ensures PickupCalendar(yearMonth, now).Some?
    ensures var ym := ParseKstYearMonth(yearMonth).value;
            |PickupCalendar(yearMonth, now).value| == DaysInMonth(UtcYear(ym.year), ym.month)
  {
    hide ParseKstYearMonth, DayEntry, CivilOfDay, DaysInMonth, MakeDay;
    var ym := ParseKstYearMonth(yearMonth).value;
    LastDayOfMonth(UtcYear(ym.year), ym.month);
  }

  /**
   * For months of years 1000-9999 the calendar lists each date of the month in order, and a date is
   * selectable exactly when the slot query for it offers an available slot, whatever the clock says.
   */
  lemma HomeCalendarAgreesWithSlots(yearMonth: string, now: int, d: nat)
    requires d >= 1
    ensures ParseKstYearMonth(yearMonth).Some? ==>
              && PickupCalendar(yearMonth, now).Some?
              && var ym := ParseKstYearMonth(yearMonth).value;
                 var days := PickupCalendar(yearMonth, now).value;
                 ym.year >= 1000 && d <= |days| ==>
                   && days[d - 1].date == DateString(Ymd(ym.year, ym.month, d))
                   && PickupTimeSlots(days[d - 1].date, now).Some?
                   && (days[d - 1].selectable <==> HasAvailable(AllSlots(PickupTimeSlots(days[d - 1].date, now).value)))
  {
    hide ParseKstYearMonth, CivilOfDay, DaysInMonth, MakeDay, DateString, KstDayDiff, KstStart, TodayHasSlot, ValidDate;
    hide ParseKstDate, FormatKstDate, SplitDay, KstMidnightUtc, UtcDay, HomePolicy, AllSlots, DayNumber;
    if ParseKstYearMonth(yearMonth).Some? {
      var ym := ParseKstYearMonth(yearMonth).value;
      MonthLength(yearMonth, now);
      if ym.year >= 1000 && d <= |PickupCalendar(yearMonth, now).value| {
        EntryOfMonth(ym.year, ym.month, d);
        var c := Ymd(ym.year, ym.month, d);
        ParseAcceptsRealDate(c);
        var diff := KstDayDiff(now, KstMidnightUtc(ym.year, ym.month, d));
        SelectableByDiff(DateString(c), now, diff);
      }
    }
  }

  lemma SelectableByDiff(date: string, now: int, diff: int)
    ensures HomePolicy(diff == 0, now).closeMinutes <= 1440
    ensures var closed := diff < 0 || diff > MAX_DAYS_AHEAD;
            HasAvailable(AllSlots(SplitDay(date, HomePolicy(diff == 0, now), closed)))
            <==> !closed && (diff == 0 ==> TodayHasSlot(now))
  {
    hide TodayHasSlot, AllSlots, SplitDay;
    var policy := HomePolicy(diff == 0, now);
    SplitDayKeepsAll(date, policy, diff < 0 || diff > MAX_DAYS_AHEAD);
    if diff == 0 {
      ClosedFormMatchesGrid(now);
    } else {
      assert policy.Count() == 20;
      assert policy.Slots()[0].available;
    }
  }

  /** Past days come first and out-of-range days last, in every month the calendar answers for. */
  lemma ReasonsAreOrdered(yearMonth: string, now: int, i: nat, j: nat)
    requires 1 <= i <= j
    ensures PickupCalendar(yearMonth, now).Some? && j <= |PickupCalendar(yearMonth, now).value| ==>
              var days := PickupCalendar(yearMonth, now).value;
              && (days[j - 1].reason == Some(Past) ==> days[i - 1].reason == Some(Past))
              && (days[i - 1].reason == Some(OutOfRange) ==> days[j - 1].reason == Some(OutOfRange))
  {
    hide ParseKstYearMonth, CivilOfDay, DaysInMonth, MakeDay, KstDayDiff, KstStart, FormatKstDate, KstMidnightUtc;
    hide ValidDate, KstDay, ToKstYmd, DateString;
    if PickupCalendar(yearMonth, now).Some? && j <= |PickupCalendar(yearMonth, now).value| {
      var ym := ParseKstYearMonth(yearMonth).value;
      var y := UtcYear(ym.year);
      MonthLength(yearMonth, now);
      EntryOfMonth(ym.year, ym.month, i);
      EntryOfMonth(ym.year, ym.month, j);
      DayInMonth(y, ym.month, i);
      DayInMonth(y, ym.month, j);
      DayDiffMeaning(now, KstMidnightUtc(ym.year, ym.month, i));
      DayDiffMeaning(now, KstMidnightUtc(ym.year, ym.month, j));
    }
  }

  /** From year 1000 on: which reason a date is refused with, by its distance from today and the minute of the day. */
  lemma HomeReasons(yearMonth: string, now: int, d: nat)
    requires d >= 1 && FourDigitYear(ToKstYmd(now).year)
    ensures PickupCalendar(yearMonth, now).Some? ==>
              && ParseKstYearMonth(yearMonth).Some?
              && var ym, days := ParseKstYearMonth(yearMonth).value, PickupCalendar(yearMonth, now).value;
                 ym.year >= 1000 && d <= |days| ==>
                   var n, today := MakeDay(ym.year, ym.month - 1, d), KstDay(now);
                   days[d - 1].reason ==
                   if n < today then Some(Past)
                   else if n > today + 30 then Some(OutOfRange)
                   else if n == today && KstMinutesOfDay(now) + 60 > 19 * 60 + 30 then Some(Closed)
                   else None
  {
    hide ParseKstYearMonth, CivilOfDay, DaysInMonth, MakeDay, KstDayDiff, KstStart, FormatKstDate, KstMidnightUtc;
    hide ValidDate, KstDay, ToKstYmd, DateString, KstMinutesOfDay;
    if PickupCalendar(yearMonth, now).Some? {
      var ym := ParseKstYearMonth(yearMonth).value;
      MonthLength(yearMonth, now);
      if ym.year >= 1000 && d <= |PickupCalendar(yearMonth, now).value| {
        EntryOfMonth(ym.year, ym.month, d);
        DayDiffMeaning(now, KstMidnightUtc(ym.year, ym.month, d));
      }
    }
  }

  /** The day's slots are twenty, every half hour from 10:00 to 19:30. */
  lemma HomeGrid(isToday: bool, now: int, i: nat)
    ensures var slots := HomePolicy(isToday, now).Slots();
            && |slots| == 20 && (i < 20 ==> slots[i].time == FormatMinutesOfDay(10 * 60 + 30 * i))
  {
    hide FormatMinutesOfDay, KstMinutesOfDay;
    assert HomePolicy(isToday, now).Count() == 20;
  }

  predicate InMonth(date: string, yearMonth: string) {
    |date| >= 7 && date[..7] == yearMonth
  }

  /** The calendar lists the month it was asked for, in dates the slot query accepts, exactly from year 1000 on. */
  lemma ListsRequestedMonthFromYear1000(yearMonth: string, now: int)
    requires ParseKstYearMonth(yearMonth).Some?
    ensures (forall entry :: entry in PickupCalendar(yearMonth, now).value ==>
               PickupTimeSlots(entry.date, now).Some? && InMonth(entry.date, yearMonth))
            <==> ParseKstYearMonth(yearMonth).value.year >= 1000
  {
    hide CivilOfDay, MakeDay, KstDayDiff, KstStart, FormatKstDate, KstMidnightUtc, UtcDay, ToKstYmd, DayNumber, KstDay;
    hide SplitDay, ParseKstYearMonth, DaysInMonth, ParseKstDate, ValidDate, DateString, DayEntry;
    var ym := ParseKstYearMonth(yearMonth).value;
    var days := PickupCalendar(yearMonth, now).value;
    MonthLength(yearMonth, now);
    if ym.year >= 1000 {
      forall entry | entry in days ensures PickupTimeSlots(entry.date, now).Some? && InMonth(entry.date, yearMonth) {
        var d :| 0 <= d < |days| && days[d] == entry;
        HomeCalendarAgreesWithSlots(yearMonth, now, d + 1);
        EntryOfMonth(ym.year, ym.month, d + 1);
        MonthPrefix(yearMonth, d + 1);
      }
    } else {
      FirstEntryIsElsewhere(yearMonth, now);
      assert days[0] in days;
    }
  }

  lemma MonthPrefix(yearMonth: string, d: nat)
    requires ParseKstYearMonth(yearMonth).Some? && ParseKstYearMonth(yearMonth).value.year >= 1000
    requires var ym := ParseKstYearMonth(yearMonth).value; ValidDate(Ymd(ym.year, ym.month, d))
    ensures var ym := ParseKstYearMonth(yearMonth).value;
            var s := DateString(Ymd(ym.year, ym.month, d));
            |s| == 10 && s[..7] == yearMonth
  {
    hide CivilOfDay, DaysInMonth, MakeDay, Pad;
    var ym := ParseKstYearMonth(yearMonth).value;
    var s := DateString(Ymd(ym.year, ym.month, d));
    DateStringShape(Ymd(ym.year, ym.month, d));
    PrintReads(ym.year);
    PrintLength(ym.year);
    DigitsNameString(yearMonth[..4], Print(ym.year));
    PadReads(ym.month, 2);
    DigitsNameString(yearMonth[5..], Pad(ym.month, 2));
    assert yearMonth == yearMonth[..4] + "-" + yearMonth[5..];
    assert s[..7] == s[..4] + "-" + s[5..7];
  }

  /** Below year 1000 the first listed date is not one the slot query accepts, or lies in a 20th-century month. */
  lemma FirstEntryIsElsewhere(yearMonth: string, now: int)
    requires ParseKstYearMonth(yearMonth).Some? && ParseKstYearMonth(yearMonth).value.year < 1000
    ensures |PickupCalendar(yearMonth, now).value| >= 28
    ensures var entry := PickupCalendar(yearMonth, now).value[0];
            PickupTimeSlots(entry.date, now).None? || !InMonth(entry.date, yearMonth)
  {
    hide CivilOfDay, MakeDay, KstDayDiff, KstStart, ToKstYmd, DayNumber, KstDay, SplitDay;
    hide ParseKstDate, FormatKstDate, KstMidnightUtc, Pad, Print;
    var ym := ParseKstYearMonth(yearMonth).value;
    MonthLength(yearMonth, now);
    EntryOfMonth(ym.year, ym.month, 1);
    var c := Ymd(UtcYear(ym.year), ym.month, 1);
    DateStringShape(c);
    if ym.year <= 99 {
      PrintReads(c.year);
      assert DateString(c)[..7][..4] == DateString(c)[..4];
    } else {
      FormatThenParse(KstMidnightUtc(ym.year, ym.month, 1));
    }
  }

  /** An offered slot of today is always more than 59 minutes ahead, although the clock is read to the minute. */
  lemma NeverWithin59Minutes(now: int, i: nat)
    requires i < HomePolicy(true, now).Count() && HomePolicy(true, now).Slots()[i].available
    ensures KstStart(KstDay(now)) + HomePolicy(true, now).Minute(i) * MINUTE_MS > now + 59 * MINUTE_MS
  {
    var ms := (now + KST_OFFSET_MS) % DAY_MS;
    assert now == KstStart(KstDay(now)) + ms;
    assert ms < (KstMinutesOfDay(now) + 1) * MINUTE_MS;
  }

  /** And one more than 60 minutes ahead is always offered. */
  lemma OfferedFromOneHour(now: int, i: nat)
    requires i < HomePolicy(true, now).Count()
    requires KstStart(KstDay(now)) + HomePolicy(true, now).Minute(i) * MINUTE_MS >= now + 60 * MINUTE_MS
    ensures HomePolicy(true, now).Slots()[i].available
  {
    var ms := (now + KST_OFFSET_MS) % DAY_MS;
    assert now == KstStart(KstDay(now)) + ms;
    assert ms >= KstMinutesOfDay(now) * MINUTE_MS;
  }
}
