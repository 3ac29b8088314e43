/** The month calendar and the day's time slots of a store say the same thing about every day. */
module ScheduleAgreement {
  import opened Wrappers
  import opened Decimal
  import opened KstTime
  import opened PickupSlots
  import opened StoreSchedule

  /** The verdict on day `n`, read off the tables without any range context. */
  function DayVerdict(db: Snapshot, store: StoreRow, now: int, n: int): Option<Reason> {
    Judge(store, FactsOn(db, store.id, n), now, KstDayDiff(now, KstStart(n)))
  }

  function DayNumber(c: Ymd): int {
    MakeDay(c.year, c.month - 1, c.day)
  }

  lemma MonthIsNamed(y: int, m: int)
    requires ScheduleYear(y) && 1 <= m <= 12
    ensures var a, b := MakeDay(y, m - 1, 1), MakeDay(y, m, 1);
            && RangeOfNamedDays(a, b) && b == a + DaysInMonth(y, m)
            && UtcDay(y, m - 1, 1) == a && UtcDay(y, m, 1) == b
            && KstMidnightUtc(y, m, 1) == KstStart(a) && KstMidnightUtc(y, m + 1, 1) == KstStart(b)
            && CivilOfDay(UtcDay(y, m, 0)) == Ymd(y, m, DaysInMonth(y, m))
  {
    hide CivilOfDay, DaysInMonth, MakeDay;
    LastDayOfMonth(y, m);
    NextMonthStart(y, m);
    DayRoundTrip(Ymd(y, m, 1));
    DayInMonth(y, m, 0);
    DayInMonthAfter(y, m);
  }

  lemma DayInMonth(y: int, m: int, d: int)
    ensures MakeDay(y, m - 1, d) == MakeDay(y, m - 1, 1) + d - 1
    ensures MakeDay(y, m, d) == MakeDay(y, m, 1) + d - 1
  {
  }

  lemma DayInMonthAfter(y: int, m: int)
    requires 1 <= m <= 12
    ensures MakeDay(y, m, 1) - 1 == MakeDay(y, m, 0)
  {
  }

  /** Every entry of the calendar is the verdict of its own day, under that day's own date. */
  lemma CalendarEntry(db: Snapshot, storeId: nat, yearMonth: string, now: int, d: int)
    ensures StorePickupCalendar(db, storeId, yearMonth, now).Ok? ==>
              && ParseKstYearMonth(yearMonth).Some? && FindStore(db.stores, storeId).Some?
              && var ym := ParseKstYearMonth(yearMonth).value;
                 var store := FindStore(db.stores, storeId).value;
                 var days := StorePickupCalendar(db, storeId, yearMonth, now).value.days;
                 && ScheduleYear(ym.year) && |days| == DaysInMonth(ym.year, ym.month)
                 && (1 <= d <= |days| ==>
                       var c := Ymd(ym.year, ym.month, d);
                       var verdict := DayVerdict(db, store, now, DayNumber(c));
                       && ValidDate(c)
                       && days[d - 1] == DayEntry(DateString(c), verdict.None?, verdict))
  {
    hide ParseKstYearMonth, FindStore, LoadScheduleContext, Judge, FactsOn, KstDayDiff, EvaluateDay;
    hide CivilOfDay, DaysInMonth, MakeDay, DateString, IsoDateKey, RangeOfNamedDays, UtcDay, KstMidnightUtc, KstStart;
    if StorePickupCalendar(db, storeId, yearMonth, now).Ok? {
      var ym := ParseKstYearMonth(yearMonth).value;
      var store := FindStore(db.stores, storeId).value;
      var y, m := ym.year, ym.month;
      MonthIsNamed(y, m);
      if 1 <= d <= DaysInMonth(y, m) {
        var c := Ymd(y, m, d);
        DayInMonth(y, m, d);
        ContextAnswersForDay(db, store, MakeDay(y, m - 1, 1), MakeDay(y, m, 1), now, c);
        DateKeyOf(c);
      }
    }
  }

  lemma DateKeyOf(c: Ymd)
    requires ValidDate(c) && FourDigitYear(c.year)
    ensures UtcDay(c.year, c.month - 1, c.day) == DayNumber(c)
    ensures IsoDateKey(DayNumber(c)) == DateString(c) && NamedDay(DayNumber(c))
  {
    hide CivilOfDay, MakeDay, DateString, IsoDateKey, ValidDate;
    DayRoundTrip(c);
    KeyNamesDay(DayNumber(c));
  }

  /** The slots of a day, before they are split at noon. */
  function DayGrid(db: Snapshot, store: StoreRow, now: int, n: int): seq<Slot> {
    var facts := FactsOn(db, store.id, n);
    if facts.hours.None? || facts.closed then []
    else
      var slots := BuildDaySlots(store, facts.hours.value, KstDayDiff(now, KstStart(n)) == 0, now);
      if DayVerdict(db, store, now, n).Some? then CloseAll(slots) else slots
  }

  lemma DayContextOf(db: Snapshot, storeId: nat, c: Ymd)
    requires ValidDate(c) && ScheduleYear(c.year)
    ensures var n := DayNumber(c);
            && ToKstYmd(KstStart(n)) == c && UtcDay(c.year, c.month - 1, c.day) == n && RangeOfNamedDays(n, n + 1)
            && DayContext(db, storeId, KstStart(n))
               == LoadScheduleContext(db, storeId, n * DAY_MS, (n + 1) * DAY_MS, KstStart(n), KstStart(n + 1))
  {
    hide DateString, ValidDate, MakeDay, CivilOfDay, IsoDateKey, NamedDay;
    var n := DayNumber(c);
    MidnightOfRealDate(c);
    DateKeyOf(c);
    DayInMonth(c.year, c.month, c.day);
    DayInMonth(c.year, c.month, c.day + 1);
  }

  /** The slot query answers for the day its date names, and with that day's whole grid. */
  lemma TimeSlotsOfDay(db: Snapshot, storeId: nat, c: Ymd, now: int)
    requires ValidDate(c) && ScheduleYear(c.year) && FindStore(db.stores, storeId).Some?
    ensures var r := StorePickupTimeSlots(db, storeId, DateString(c), now);
            && r.Ok? && r.value.date == DateString(c)
            && AllSlots(r.value) == DayGrid(db, FindStore(db.stores, storeId).value, now, DayNumber(c))
  {
    hide DateString, ParseKstDate, FindStore, ValidDate, MakeDay, DayGrid, DaySlots, KstStart, DayContext;
    hide AllSlots, ToKstYmd, CivilOfDay, KstMidnightUtc, UtcDay;
    var date := DateString(c);
    ParseAcceptsRealDate(c);
    MidnightOfRealDate(c);
    DayContextOf(db, FindStore(db.stores, storeId).value.id, c);
    DaySlotsAreGrid(db, FindStore(db.stores, storeId).value, date, c, now);
  }

  lemma DaySlotsAreGrid(db: Snapshot, store: StoreRow, date: string, c: Ymd, now: int)
    requires ValidDate(c) && ScheduleYear(c.year)
    ensures var n := DayNumber(c);
            var slots := DaySlots(date, store, DayContext(db, store.id, KstStart(n)), now, KstStart(n));
            slots.date == date && AllSlots(slots) == DayGrid(db, store, now, n)
  {
    hide DateString, ValidDate, MakeDay, LoadScheduleContext, FactsOn, Judge, DayContext, ToKstYmd, Weekday;
    hide KstDayDiff, EvaluateDay, IsoDateKey, SplitDay, CloseAll, RangeOfNamedDays, SlotPolicy.Slots, OpenHours, KstStart;
    var n := DayNumber(c);
    DayContextOf(db, store.id, c);
    DateKeyOf(c);
    ContextAnswersForDay(db, store, n, n + 1, now, c);
    var facts := FactsOn(db, store.id, n);
    if facts.hours.Some? && !facts.closed {
      var isToday := KstDayDiff(now, KstStart(n)) == 0;
      var policy := DayPolicy(store, facts.hours.value, isToday, now);
      var ctx := DayContext(db, store.id, KstStart(n));
      assert DaySlots(date, store, ctx, now, KstStart(n)) == SplitDay(date, policy, DayVerdict(db, store, now, n).Some?);
      SplitDayKeepsAll(date, policy, DayVerdict(db, store, now, n).Some?);
    } else {
      var none: seq<Slot> := [];
      assert none + none == none;
    }
  }

  /**
   * The one case in which the calendar offers a day that has no slot: a future open day with room left, on
   * which the interval or the opening hours leave no grid.
   */
  predicate OffersEmptyDay(db: Snapshot, store: StoreRow, now: int, n: int) {
    var f, diff := FactsOn(db, store.id, n), KstDayDiff(now, KstStart(n));
    && 1 <= diff <= store.maxDaysAhead
    && !f.closed && f.hours.Some? && !(f.capacity.Some? && f.booked >= f.capacity.value)
    && DayPolicy(store, f.hours.value, false, now).NoGrid()
  }

  lemma CalendarOk(db: Snapshot, storeId: nat, yearMonth: string, c: Ymd, now: int)
    requires ScheduleYear(c.year) && ValidDate(c) && FindStore(db.stores, storeId).Some?
    requires ParseKstYearMonth(yearMonth) == Some(YearMonth(c.year, c.month))
    ensures StorePickupCalendar(db, storeId, yearMonth, now).Ok?
    ensures 1 <= c.day <= DaysInMonth(c.year, c.month)
  {
  }

  /**
   * The main agreement: for every date the slot query accepts, the calendar of that date's month has an entry
   * for it, and that entry is selectable exactly when the day has an available slot, unless the tables say
   * that the day is one offered without a grid.
   */
  lemma CalendarAgreesWithSlots(db: Snapshot, storeId: nat, date: string, now: int)
    ensures StorePickupTimeSlots(db, storeId, date, now).Ok? ==>
              && ParseKstDate(date).Some? && FindStore(db.stores, storeId).Some?
              && var parsed := ParseKstDate(date).value;
                 var d, n := ToKstYmd(parsed).day, KstDay(parsed);
                 var slots := AllSlots(StorePickupTimeSlots(db, storeId, date, now).value);
                 var calendar := StorePickupCalendar(db, storeId, date[..7], now);
                 && calendar.Ok? && 1 <= d <= |calendar.value.days| && calendar.value.days[d - 1].date == date
                 && (HasAvailable(slots) <==> calendar.value.days[d - 1].selectable && slots != [])
                 && ((HasAvailable(slots) <==> calendar.value.days[d - 1].selectable)
                     <==> !OffersEmptyDay(db, FindStore(db.stores, storeId).value, now, n))
  {
    hide DateString, ParseKstDate, ToKstYmd, ParseKstYearMonth, DayVerdict, DayGrid, DayNumber, FindStore, KstDay;
    hide ValidDate, DaysInMonth, AllSlots, DaySlots, CalendarDay, OffersEmptyDay, StorePickupCalendar;
    if StorePickupTimeSlots(db, storeId, date, now).Ok? {
      var c := ToKstYmd(ParseKstDate(date).value);
      ParseOnlyRealDates(date);
      ParsedDay(date);
      YearMonthOfDate(c);
      TimeSlotsOfDay(db, storeId, c, now);
      CalendarOk(db, storeId, date[..7], c, now);
      CalendarEntry(db, storeId, date[..7], now, c.day);
      VerdictAgrees(db, FindStore(db.stores, storeId).value, now, DayNumber(c));
    }
  }

  /** The number of a parsed date's day is that of its KST day. */
  lemma ParsedDay(date: string)
    ensures ParseKstDate(date).Some? ==> DayNumber(ToKstYmd(ParseKstDate(date).value)) == KstDay(ParseKstDate(date).value)
  {
    hide MakeDay, CivilOfDay, KstDay, ParseKstDate;
    if ParseKstDate(date).Some? { CivilRoundTrip(KstDay(ParseKstDate(date).value)); }
  }

  lemma VerdictAgrees(db: Snapshot, store: StoreRow, now: int, n: int)
    ensures var selectable, slots := DayVerdict(db, store, now, n).None?, DayGrid(db, store, now, n);
            && (HasAvailable(slots) <==> selectable && slots != [])
            && ((HasAvailable(slots) <==> selectable) <==> !OffersEmptyDay(db, store, now, n))
  {
    hide KstDayDiff, FactsOn;
    var facts := FactsOn(db, store.id, n);
    if facts.hours.Some? && !facts.closed {
      var diff := KstDayDiff(now, KstStart(n));
      var slots := BuildDaySlots(store, facts.hours.value, diff == 0, now);
      GridIffCount(DayPolicy(store, facts.hours.value, diff == 0, now));
      if DayVerdict(db, store, now, n).None? && diff != 0 && slots != [] {
        assert slots[0].available;
      }
    }
  }

  lemma GridIffCount(policy: SlotPolicy)
    ensures policy.Slots() == [] <==> policy.NoGrid()
  {
    if !policy.NoGrid() {
      policy.NextMinute(0);
      policy.GridIsExact(0);
    }
  }

  /** A positive interval, and opening hours that close at least a minute after they open on the clock. */
  predicate KeepsGrid(db: Snapshot, store: StoreRow) {
    && store.intervalMinutes > 0
    && forall row :: row in db.hours && row.storeId == store.id && !row.deleted && OpenHours(Some(row)).Some? ==>
         var hours := OpenHours(Some(row)).value;
         TimeColumnToMinutes(hours.0) < TimeColumnToMinutes(hours.1)
  }

  lemma {:induction false} HourOnIsRow(rows: seq<HourRow>, storeId: nat, weekday: int)
    ensures var hour := HourOn(rows, storeId, weekday);
            && (hour.Some? ==> hour.value in rows && IsHourRow(hour.value, storeId, weekday))
            && (hour.None? ==> forall row :: row in rows ==> !IsHourRow(row, storeId, weekday))
  {
    if rows != [] {
      HourOnIsRow(rows[..|rows| - 1], storeId, weekday);
      assert rows == rows[..|rows| - 1] + [rows[|rows| - 1]];
    }
  }

  /** A day has opening hours exactly when its weekday's row is not closed and names both times. */
  lemma OpenHoursIff(db: Snapshot, storeId: nat, n: int, open: int, close: int)
    ensures FactsOn(db, storeId, n).hours == Some((open, close)) <==>
            var row := HourOn(db.hours, storeId, Weekday(n));
            row.Some? && !row.value.isClosed && row.value.openTime == Some(open) && row.value.closeTime == Some(close)
  {
    hide HourOn, Weekday, ClosedOn, CapacityOn, BookedOn;
  }

  predicate IsHourRow(row: HourRow, storeId: nat, weekday: int) {
    row.storeId == storeId && !row.deleted && row.dayOfWeek == weekday
  }

  lemma {:induction false} CapacityOnIsRow(rows: seq<CapacityRow>, storeId: nat, n: int)
    ensures var capacity := CapacityOn(rows, storeId, n);
            && (capacity.Some? ==> CapacityRow(storeId, n, capacity.value, false) in rows)
            && (capacity.None? ==> forall row :: row in rows ==> !(row.storeId == storeId && row.day == n && !row.deleted))
  {
    if rows != [] {
      CapacityOnIsRow(rows[..|rows| - 1], storeId, n);
      assert rows == rows[..|rows| - 1] + [rows[|rows| - 1]];
    }
  }

  /** A store is found exactly when it has an active row that is not deleted. */
  lemma {:induction false} FindStoreIsRow(stores: seq<StoreRow>, storeId: nat)
    ensures var store := FindStore(stores, storeId);
            && (store.Some? ==> store.value in stores && store.value.id == storeId && store.value.active && !store.value.deleted)
            && (store.None? ==> forall row :: row in stores ==> !(row.id == storeId && row.active && !row.deleted))
  {
    if stores != [] {
      FindStoreIsRow(stores[1..], storeId);
      assert stores == [stores[0]] + stores[1..];
    }
  }

  // ---------- what each reason means ----------

  /** The in-range conditions of a day, from its rows. */
  predicate InRange(store: StoreRow, today: int, n: int) {
    today <= n <= today + store.maxDaysAhead
  }

  predicate SoldOut(f: DayFacts) {
    f.capacity.Some? && f.booked >= f.capacity.value
  }

  /** Some slot of today starts at least the lead time from now. */
  ghost predicate SlotInTime(store: StoreRow, hours: (int, int), now: int, n: int) {
    exists i: nat :: SlotIsInTime(store, hours, now, n, i)
  }

  ghost predicate SlotIsInTime(store: StoreRow, hours: (int, int), now: int, n: int, i: nat) {
    var minute := TimeColumnToMinutes(hours.0) + i * store.intervalMinutes;
    && store.intervalMinutes > 0 && minute < TimeColumnToMinutes(hours.1)
    && KstStart(n) + minute * 60_000 >= now + store.leadTimeMinutes * 60_000
  }

  /** Which reason a day is refused with, and when it is not. */
  lemma ReasonsOfDay(db: Snapshot, store: StoreRow, now: int, n: int)
    requires NamedDay(n) && NamedDay(KstDay(now))
    ensures var reason, f, today := DayVerdict(db, store, now, n), FactsOn(db, store.id, n), KstDay(now);
            && (reason == Some(Past) <==> n < today)
            && (reason == Some(OutOfRange) <==> n > today + store.maxDaysAhead)
            && (reason == Some(CapacityFull) <==> InRange(store, today, n) && !f.closed && f.hours.Some? && SoldOut(f))
            && (reason == Some(Closed) <==>
                  InRange(store, today, n)
                  && (f.closed || f.hours.None? || (!SoldOut(f) && n == today && !SlotInTime(store, f.hours.value, now, n))))
  {
    hide KstDayDiff, FactsOn, KstDay, KstStart, CivilOfDay, ToKstYmd, BuildDaySlots, SlotInTime;
    ToKstYmdOfDay(now);
    ToKstYmdOfDay(KstStart(n));
    KstStartDay(n);
    DayDiffMeaning(now, KstStart(n));
    var f := FactsOn(db, store.id, n);
    if f.hours.Some? && n == KstDay(now) {
      TodayHasSlotIff(store, f.hours.value, now);
    }
  }

  lemma TodayHasSlotIff(store: StoreRow, hours: (int, int), now: int)
    ensures HasAvailable(BuildDaySlots(store, hours, true, now)) <==> SlotInTime(store, hours, now, KstDay(now))
  {
    hide KstDay, KstStart, NowCeilMinutes, FormatMinutesOfDay, TimeColumnToMinutes;
    var policy := DayPolicy(store, hours, true, now);
    var slots := policy.Slots();
    if HasAvailable(slots) {
      var i: nat :| i < |slots| && slots[i].available;
      TodaySlotsKeepLeadTime(store, hours, now, i);
      assert SlotIsInTime(store, hours, now, KstDay(now), i);
    }
    if SlotInTime(store, hours, now, KstDay(now)) {
      var i: nat :| SlotIsInTime(store, hours, now, KstDay(now), i);
      policy.GridIsExact(i);
      TodaySlotsKeepLeadTime(store, hours, now, i);
      assert slots[i].available;
    }
  }

  /** The calendar gives each day the reason of that day. */
  lemma CalendarReasons(db: Snapshot, storeId: nat, yearMonth: string, now: int, d: int)
    requires NamedDay(KstDay(now))
    ensures StorePickupCalendar(db, storeId, yearMonth, now).Ok? && 1 <= d <= |StorePickupCalendar(db, storeId, yearMonth, now).value.days| ==>
              && ParseKstYearMonth(yearMonth).Some? && FindStore(db.stores, storeId).Some?
              && var ym, store := ParseKstYearMonth(yearMonth).value, FindStore(db.stores, storeId).value;
                 var n, today := MakeDay(ym.year, ym.month - 1, d), KstDay(now);
                 var reason, f := StorePickupCalendar(db, storeId, yearMonth, now).value.days[d - 1].reason, FactsOn(db, store.id, n);
                 && (reason == Some(Past) <==> n < today)
                 && (reason == Some(OutOfRange) <==> n > today + store.maxDaysAhead)
                 && (reason == Some(CapacityFull) <==> InRange(store, today, n) && !f.closed && f.hours.Some? && SoldOut(f))
                 && (reason == Some(Closed) <==>
                       InRange(store, today, n)
                       && (f.closed || f.hours.None? || (!SoldOut(f) && n == today && !SlotInTime(store, f.hours.value, now, n))))
  {
    hide StorePickupCalendar, ParseKstYearMonth, FindStore, DayVerdict, KstDay, MakeDay, FactsOn, SlotInTime;
    hide ValidDate, DaysInMonth, DateString, NamedDay, InRange, SoldOut;
    CalendarEntry(db, storeId, yearMonth, now, d);
    if StorePickupCalendar(db, storeId, yearMonth, now).Ok? && 1 <= d <= |StorePickupCalendar(db, storeId, yearMonth, now).value.days| {
      var ym := ParseKstYearMonth(yearMonth).value;
      DateKeyOf(Ymd(ym.year, ym.month, d));
      ReasonsOfDay(db, FindStore(db.stores, storeId).value, now, DayNumber(Ymd(ym.year, ym.month, d)));
    }
  }

  /**
    * A store whose only live hours are for weekday `w` is selectable, and has slots, only on dates that lie `w`
    * days, modulo 7, after a Sunday.
    */
  lemma OpensOnItsWeekdayOnly(db: Snapshot, storeId: nat, date: string, now: int, w: int)
    requires forall row :: row in db.hours && row.storeId == storeId && !row.deleted ==> row.dayOfWeek == w
    ensures StorePickupTimeSlots(db, storeId, date, now).Ok? ==>
              && ParseKstDate(date).Some?
              && var c := ToKstYmd(ParseKstDate(date).value);
                 var calendar := StorePickupCalendar(db, storeId, date[..7], now);
                 && calendar.Ok? && 1 <= c.day <= |calendar.value.days|
                 && (calendar.value.days[c.day - 1].selectable || AllSlots(StorePickupTimeSlots(db, storeId, date, now).value) != [] ==>
                       (MakeDay(c.year, c.month - 1, c.day) - MakeDay(1970, 0, 4)) % 7 == w)
  {
    hide DateString, ParseKstDate, ToKstYmd, ParseKstYearMonth, DayVerdict, DayGrid, FindStore, KstDay, MakeDay, Weekday;
    hide ValidDate, DaysInMonth, AllSlots, DaySlots, CalendarDay, StorePickupCalendar;
    if StorePickupTimeSlots(db, storeId, date, now).Ok? {
      var c := ToKstYmd(ParseKstDate(date).value);
      ParseOnlyRealDates(date);
      YearMonthOfDate(c);
      TimeSlotsOfDay(db, storeId, c, now);
      CalendarOk(db, storeId, date[..7], c, now);
      CalendarEntry(db, storeId, date[..7], now, c.day);
      FindStoreIsRow(db.stores, storeId);
      if HourOn(db.hours, storeId, Weekday(DayNumber(c))).None? {
        NoHoursNothing(db, FindStore(db.stores, storeId).value, now, DayNumber(c));
      }
      HourOnIsRow(db.hours, storeId, Weekday(DayNumber(c)));
      WeekdayCountsFromSunday(DayNumber(c));
    }
  }

  lemma NoHoursNothing(db: Snapshot, store: StoreRow, now: int, n: int)
    requires HourOn(db.hours, store.id, Weekday(n)).None?
    ensures DayVerdict(db, store, now, n).Some? && DayGrid(db, store, now, n) == []
  {
    hide KstDayDiff, Weekday, HourOn;
  }

  /** For a store whose tables keep a grid the two queries agree on every date. */
  lemma CalendarAgreesForGrids(db: Snapshot, storeId: nat, date: string, now: int)
    requires FindStore(db.stores, storeId).Some? && FindStore(db.stores, storeId).value.intervalMinutes > 0
    requires forall row :: row in db.hours && row.storeId == storeId && !row.deleted && OpenHours(Some(row)).Some? ==>
               TimeColumnToMinutes(OpenHours(Some(row)).value.0) < TimeColumnToMinutes(OpenHours(Some(row)).value.1)
    ensures StorePickupTimeSlots(db, storeId, date, now).Ok? ==>
              && ParseKstDate(date).Some?
              && var d := ToKstYmd(ParseKstDate(date).value).day;
                 var calendar := StorePickupCalendar(db, storeId, date[..7], now);
                 && calendar.Ok? && 1 <= d <= |calendar.value.days| && calendar.value.days[d - 1].date == date
                 && (HasAvailable(AllSlots(StorePickupTimeSlots(db, storeId, date, now).value))
                     <==> calendar.value.days[d - 1].selectable)
  {
    hide StorePickupTimeSlots, StorePickupCalendar, ToKstYmd, FindStore, AllSlots, OffersEmptyDay, KstDay, OpenHours;
    FindStoreIsRow(db.stores, storeId);
    CalendarAgreesWithSlots(db, storeId, date, now);
    if StorePickupTimeSlots(db, storeId, date, now).Ok? {
      GridsOfferNoEmptyDay(db, FindStore(db.stores, storeId).value, now, KstDay(ParseKstDate(date).value));
    }
  }

  lemma GridsOfferNoEmptyDay(db: Snapshot, store: StoreRow, now: int, n: int)
    requires KeepsGrid(db, store)
    ensures !OffersEmptyDay(db, store, now, n)
  {
    hide KstDayDiff, TimeColumnToMinutes, CapacityOn, BookedOn, ClosedOn, Weekday, KstStart, HourOn;
    HourOnIsRow(db.hours, store.id, Weekday(n));
  }

  lemma YearMonthOfDate(c: Ymd)
    requires ValidDate(c) && FourDigitYear(c.year)
    ensures |DateString(c)| == 10 && ParseKstYearMonth(DateString(c)[..7]) == Some(YearMonth(c.year, c.month))
  {
    hide MakeDay, CivilOfDay, Pad;
    DateStringShape(c);
    PrintReads(c.year);
    PadReads(c.month, 2);
    var s, ym := DateString(c), DateString(c)[..7];
    assert ym[..4] == s[..4] && ym[5..] == s[5..7] && ym[4] == s[4];
  }

  // ---------- hours a seller can save that leave no grid ----------

  /** The seller's check compares the two instants whole. */
  predicate SellerAcceptsHours(openTime: int, closeTime: int) {
    openTime < closeTime
  }

  /** A TIME column keeps the time of day of a whole-second instant. */
  function TimeColumn(t: int): (r: int)
    ensures 0 <= r < 86_400_000 && (t - r) % 86_400_000 == 0
  {
    t % DAY_MS
  }

  /** 2026-01-01T10:00Z and 2026-01-02T09:00Z */
  const LATE_OPENING := 20454 * DAY_MS + 600 * MINUTE_MS
  const EARLY_CLOSING := 20455 * DAY_MS + 540 * MINUTE_MS

  lemma AcceptedWithoutGrid()
    ensures MakeDay(2026, 0, 1) == 20454 && LATE_OPENING == 1_767_261_600_000 && EARLY_CLOSING == 1_767_344_400_000
    ensures SellerAcceptsHours(LATE_OPENING, EARLY_CLOSING) && !SellerAcceptsHours(LATE_OPENING, LATE_OPENING)
    ensures TimeColumnToMinutes(TimeColumn(LATE_OPENING)) == 600 && TimeColumnToMinutes(TimeColumn(EARLY_CLOSING)) == 540
  {
  }

  /**
   * The disagreement, on an input the seller's own checks let through: opening 2026-01-01T10:00Z, closing
   * 2026-01-02T09:00Z, slots every 30 minutes. Each date is then selectable the day before, and has no slot.
   */
  lemma SelectableDayWithoutSlots(c: Ymd)
    requires ValidDate(c) && ScheduleYear(c.year)
    ensures var n := DayNumber(c);
            var db := Snapshot([StoreRow(1, 30, 60, 30, true, false)],
                               [HourRow(1, Weekday(n), false, Some(TimeColumn(LATE_OPENING)), Some(TimeColumn(EARLY_CLOSING)), false)],
                               [], [], []);
            var date, now := DateString(c), KstStart(n - 1);
            var calendar, slots := StorePickupCalendar(db, 1, date[..7], now), StorePickupTimeSlots(db, 1, date, now);
            && calendar.Ok? && 1 <= c.day <= |calendar.value.days| && calendar.value.days[c.day - 1].date == date
            && calendar.value.days[c.day - 1].selectable
            && slots.Ok? && AllSlots(slots.value) == []
  {
    hide DaysInMonth, ValidDate, MakeDay, Weekday, CivilOfDay, KstStart, KstDay, ToKstYmd, DayVerdict, DayGrid, TimeColumn;
    hide DateString, AllSlots, CalendarDay, DaySlots, ParseKstDate, ParseKstYearMonth, StorePickupTimeSlots, StorePickupCalendar;
    var n := DayNumber(c);
    var hours := [HourRow(1, Weekday(n), false, Some(TimeColumn(LATE_OPENING)), Some(TimeColumn(EARLY_CLOSING)), false)];
    var db := Snapshot([StoreRow(1, 30, 60, 30, true, false)], hours, [], [], []);
    assert FindStore(db.stores, 1) == Some(db.stores[0]);
    YearMonthOfDate(c);
    TimeSlotsOfDay(db, 1, c, KstStart(n - 1));
    CalendarOk(db, 1, DateString(c)[..7], c, KstStart(n - 1));
    CalendarEntry(db, 1, DateString(c)[..7], KstStart(n - 1), c.day);
    DayBeforeIsOne(c);
    EmptyDay(db, db.stores[0], KstStart(n - 1), n);
  }

  lemma DayBeforeIsOne(c: Ymd)
    requires ValidDate(c) && ScheduleYear(c.year)
    ensures KstDayDiff(KstStart(DayNumber(c) - 1), KstStart(DayNumber(c))) == 1
  {
    hide DaysInMonth, ValidDate, MakeDay, KstDayDiff, CivilOfDay, KstStart, KstDay, ToKstYmd;
    var n := DayNumber(c);
    DayRoundTrip(c);
    DayBefore(n);
    ToKstYmdOfDay(KstStart(n - 1));
    ToKstYmdOfDay(KstStart(n));
    DayDiffMeaning(KstStart(n - 1), KstStart(n));
    KstStartDay(n - 1);
    KstStartDay(n);
  }

  lemma EmptyDay(db: Snapshot, store: StoreRow, now: int, n: int)
    requires db.closures == [] && db.capacities == []
    requires db.hours == [HourRow(1, Weekday(n), false, Some(TimeColumn(LATE_OPENING)), Some(TimeColumn(EARLY_CLOSING)), false)]
    requires store == StoreRow(1, 30, 60, 30, true, false)
    ensures KstDayDiff(now, KstStart(n)) == 1 ==> DayVerdict(db, store, now, n).None? && DayGrid(db, store, now, n) == []
  {
    hide KstDayDiff, Weekday, KstStart, TimeColumn, TimeColumnToMinutes, BookedOn;
    AcceptedWithoutGrid();
    assert HourOn(db.hours, 1, Weekday(n)) == Some(db.hours[0]);
  }

  /** The day before a day is in the same year or the year before. */
  lemma DayBefore(n: int)
    ensures CivilOfDay(n).year - 1 <= CivilOfDay(n - 1).year <= CivilOfDay(n).year
  {
    hide IsLeap, DayFromYear, MonthFromDay;
    var y := CivilOfDay(n).year;
    var p := CivilOfDay(n - 1).year;
    YearLength(y - 1);
    if y < p && y + 1 < p { YearsAscend(y + 1, p); }
    if p + 1 < y - 1 { YearsAscend(p + 1, y - 1); }
  }

  /** On a selectable today the whole grid is cut at now + lead time, and nothing else closes a slot. */
  lemma SelectableTodayShowsGrid(db: Snapshot, store: StoreRow, now: int, n: int)
    requires KstDay(now) == n
    ensures NamedDay(n) && DayVerdict(db, store, now, n).None? ==>
              var hours := FactsOn(db, store.id, n).hours;
              hours.Some? && DayGrid(db, store, now, n) == BuildDaySlots(store, hours.value, true, now)
  {
    hide KstDayDiff, FactsOn, KstDay, KstStart, CivilOfDay, ToKstYmd, BuildDaySlots;
    if NamedDay(n) { SameDayDiff(now, n); }
  }

  lemma SameDayDiff(now: int, n: int)
    requires NamedDay(n) && KstDay(now) == n
    ensures KstDayDiff(now, KstStart(n)) == 0
  {
    hide KstDayDiff, KstDay, KstStart, CivilOfDay, ToKstYmd;
    KstStartDay(n);
    ToKstYmdOfDay(now);
    ToKstYmdOfDay(KstStart(n));
    DayDiffMeaning(now, KstStart(n));
  }

  /** Such a slot is on offer exactly when its instant is not before now + lead time, to the millisecond. */
  lemma TodaySlotsKeepLeadTime(store: StoreRow, hours: (int, int), now: int, i: nat)
    requires i < DayPolicy(store, hours, true, now).Count()
    ensures var policy := DayPolicy(store, hours, true, now);
            && policy.Minute(i) < policy.closeMinutes
            && (policy.Slots()[i].available
                <==> KstStart(KstDay(now)) + policy.Minute(i) * MINUTE_MS >= now + store.leadTimeMinutes * MINUTE_MS)
  {
    hide NowCeilMinutes, KstDay, KstStart, SlotPolicy.Minute;
    var policy := DayPolicy(store, hours, true, now);
    policy.GridIsExact(i);
    LeadTimeIsExact(now, store.leadTimeMinutes, policy.Minute(i));
  }

  lemma ToKstYmdOfDay(t: int)
    ensures ToKstYmd(t) == CivilOfDay(KstDay(t))
  {
  }
}
