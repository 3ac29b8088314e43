/**
 * A store's pickup calendar and its per-day time slots.
 *
 * Tables are sequences of rows. A DATE column is the day number of its UTC midnight; a DATETIME or
 * TIME column is an instant in milliseconds. The queries keep their filters, and the keyed maps built
 * from the rows keep the last row of a key.
 */
module StoreSchedule {
  import opened Wrappers
  import opened Decimal
  import opened KstTime
  import opened PickupSlots

  const MIN_SCHEDULE_YEAR := 1001
  const MAX_SCHEDULE_YEAR := 9998

  datatype StoreRow = StoreRow(
    id: nat, intervalMinutes: nat, leadTimeMinutes: nat, maxDaysAhead: nat, active: bool, deleted: bool)
  datatype HourRow = HourRow(
    storeId: nat, dayOfWeek: int, isClosed: bool, openTime: Option<int>, closeTime: Option<int>, deleted: bool)
  datatype ClosureRow = ClosureRow(storeId: nat, day: int, deleted: bool)
  datatype CapacityRow = CapacityRow(storeId: nat, day: int, capacity: nat, deleted: bool)
  /** An order item joined with its order; `excluded` holds when either is soft-deleted or the order is canceled. */
  datatype BookedRow = BookedRow(storeId: nat, quantity: nat, pickupAt: int, excluded: bool)

  datatype Snapshot = Snapshot(
    stores: seq<StoreRow>, hours: seq<HourRow>, closures: seq<ClosureRow>,
    capacities: seq<CapacityRow>, bookings: seq<BookedRow>)

  datatype Reason = Past | OutOfRange | Closed | CapacityFull
  datatype DayEntry = DayEntry(date: string, selectable: bool, reason: Option<Reason>)
  datatype Calendar = Calendar(yearMonth: string, days: seq<DayEntry>)
  datatype ScheduleError = InvalidYearMonth | InvalidDate | StoreNotFound

  datatype Context = Context(
    hoursByWeekday: map<int, HourRow>, closureDates: set<string>,
    capacities: map<string, nat>, bookedByDate: map<string, nat>)

  // ---------- queries ----------

  function FindStore(stores: seq<StoreRow>, storeId: nat): Option<StoreRow> {
    if stores == [] then None
    else if stores[0].id == storeId && stores[0].active && !stores[0].deleted then Some(stores[0])
    else FindStore(stores[1..], storeId)
  }

  /** `toISOString().slice(0, 10)` of a UTC midnight. */
  function IsoDateKey(n: int): string {
    var c := CivilOfDay(n);
    var year := if c.year < 0 then "-" + Pad(-c.year, 6)
                else if c.year > 9999 then "+" + Pad(c.year, 6) else Pad(c.year, 4);
    (year + "-" + Pad(c.month, 2) + "-" + Pad(c.day, 2))[..10]
  }

  function HoursByWeekday(rows: seq<HourRow>, storeId: nat): map<int, HourRow> {
    if rows == [] then map[]
    else
      var m := HoursByWeekday(rows[..|rows| - 1], storeId);
      var last := rows[|rows| - 1];
      if last.storeId == storeId && !last.deleted then m[last.dayOfWeek := last] else m
  }

  function ClosureDates(rows: seq<ClosureRow>, storeId: nat, from: int, to: int): set<string> {
    set i | 0 <= i < |rows| && rows[i].storeId == storeId && !rows[i].deleted && from <= rows[i].day * DAY_MS < to
      :: IsoDateKey(rows[i].day)
  }

  function Capacities(rows: seq<CapacityRow>, storeId: nat, from: int, to: int): map<string, nat> {
    if rows == [] then map[]
    else
      var m := Capacities(rows[..|rows| - 1], storeId, from, to);
      var last := rows[|rows| - 1];
      if last.storeId == storeId && !last.deleted && from <= last.day * DAY_MS < to
      then m[IsoDateKey(last.day) := last.capacity] else m
  }

  /** Sum of quantities grouped by the KST date of `pickup_at`. */
  function BookedByKstDate(rows: seq<BookedRow>, storeId: nat, start: int, end: int): map<string, nat> {
    if rows == [] then map[]
    else
      var m := BookedByKstDate(rows[..|rows| - 1], storeId, start, end);
      var last := rows[|rows| - 1];
      if last.storeId == storeId && !last.excluded && start <= last.pickupAt < end then
        var key := IsoDateKey(KstDay(last.pickupAt));
        m[key := Get(m, key).GetOr(0) + last.quantity]
      else m
  }

  function LoadScheduleContext(db: Snapshot, storeId: nat, from: int, to: int, start: int, end: int): Context {
    Context(
      HoursByWeekday(db.hours, storeId), ClosureDates(db.closures, storeId, from, to),
      Capacities(db.capacities, storeId, from, to), BookedByKstDate(db.bookings, storeId, start, end))
  }

  // ---------- judging one day ----------

  function TimeColumnToMinutes(value: int): (m: nat)
    ensures m < 1440
  {
    value % DAY_MS / MINUTE_MS
  }

  /** A TIME column gives the hours and minutes of its instant, whatever day it was written on. */
  lemma TimeColumnReads(day: int, hours: nat, minutes: nat, rest: nat)
    requires hours < 24 && minutes < 60 && rest < MINUTE_MS
    ensures TimeColumnToMinutes(day * DAY_MS + hours * 60 * MINUTE_MS + minutes * MINUTE_MS + rest) == hours * 60 + minutes
  {
    var inDay := (hours * 60 + minutes) * MINUTE_MS + rest;
    assert (day * DAY_MS + inDay) % DAY_MS == inDay;
    assert inDay / MINUTE_MS == hours * 60 + minutes;
  }

  /** Opening and closing time, when the store opens at all. */
  function OpenHours(hour: Option<HourRow>): Option<(int, int)> {
    if hour.None? || hour.value.isClosed || hour.value.openTime.None? || hour.value.closeTime.None? then None
    else Some((hour.value.openTime.value, hour.value.closeTime.value))
  }

  function DayPolicy(store: StoreRow, hours: (int, int), isToday: bool, now: int): SlotPolicy {
    SlotPolicy(
      TimeColumnToMinutes(hours.0), TimeColumnToMinutes(hours.1), store.intervalMinutes, store.leadTimeMinutes,
      if isToday then At(NowCeilMinutes(now)) else NoCutoff)
  }

  function BuildDaySlots(store: StoreRow, hours: (int, int), isToday: bool, now: int): seq<Slot> {
    DayPolicy(store, hours, isToday, now).Slots()
  }

  /** What the tables say about one store on one day. */
  datatype DayFacts = DayFacts(closed: bool, hours: Option<(int, int)>, capacity: Option<nat>, booked: nat)

  function Judge(store: StoreRow, facts: DayFacts, now: int, diff: int): Option<Reason> {
    if diff < 0 then Some(Past)
    else if diff > store.maxDaysAhead then Some(OutOfRange)
    else if facts.closed then Some(Closed)
    else if facts.hours.None? then Some(Closed)
    else if facts.capacity.Some? && facts.booked >= facts.capacity.value then Some(CapacityFull)
    else if diff == 0 && !HasAvailable(BuildDaySlots(store, facts.hours.value, true, now)) then Some(Closed)
    else None
  }

  function EvaluateDay(store: StoreRow, ctx: Context, now: int, year: int, month: int, day: int): Option<Reason> {
    var dateOnly := UtcDay(year, month - 1, day);
    var key := IsoDateKey(dateOnly);
    var facts := DayFacts(
                   key in ctx.closureDates, OpenHours(Get(ctx.hoursByWeekday, Weekday(dateOnly))),
                   Get(ctx.capacities, key), Get(ctx.bookedByDate, key).GetOr(0));
    Judge(store, facts, now, KstDayDiff(now, KstMidnightUtc(year, month, day)))
  }

  // ---------- the two queries ----------

  function CalendarDay(store: StoreRow, ctx: Context, now: int, year: int, month: int, day: int): DayEntry {
    var reason := EvaluateDay(store, ctx, now, year, month, day);
    DayEntry(IsoDateKey(UtcDay(year, month - 1, day)), reason.None?, reason)
  }

  function MonthContext(db: Snapshot, storeId: nat, year: int, month: int): Context {
    LoadScheduleContext(
      db, storeId, UtcDay(year, month - 1, 1) * DAY_MS, UtcDay(year, month, 1) * DAY_MS,
      KstMidnightUtc(year, month, 1), KstMidnightUtc(year, month + 1, 1))
  }

  function StorePickupCalendar(db: Snapshot, storeId: nat, yearMonth: string, now: int): Result<Calendar, ScheduleError>
  {
    var ym := ParseKstYearMonth(yearMonth);
    if ym.None? || ym.value.year < MIN_SCHEDULE_YEAR || ym.value.year > MAX_SCHEDULE_YEAR then Err(InvalidYearMonth)
    else
      var store := FindStore(db.stores, storeId);
      if store.None? then Err(StoreNotFound) else
        var y, m := ym.value.year, ym.value.month;
        var daysInMonth := CivilOfDay(UtcDay(y, m, 0)).day;
        var ctx := MonthContext(db, store.value.id, y, m);
        Ok(Calendar(yearMonth, seq(daysInMonth, i => CalendarDay(store.value, ctx, now, y, m, i + 1))))
  }

  function DayContext(db: Snapshot, storeId: nat, parsed: int): Context {
    var c := ToKstYmd(parsed);
    LoadScheduleContext(
      db, storeId, UtcDay(c.year, c.month - 1, c.day) * DAY_MS, UtcDay(c.year, c.month - 1, c.day + 1) * DAY_MS,
      parsed, KstMidnightUtc(c.year, c.month, c.day + 1))
  }

  function StorePickupTimeSlots(db: Snapshot, storeId: nat, date: string, now: int): Result<TimeSlots, ScheduleError>
  {
    var parsed := ParseKstDate(date);
    if parsed.None? then Err(InvalidDate) else
      var c := ToKstYmd(parsed.value);
      if c.year < MIN_SCHEDULE_YEAR || c.year > MAX_SCHEDULE_YEAR then Err(InvalidDate) else
        var store := FindStore(db.stores, storeId);
        if store.None? then Err(StoreNotFound) else
          Ok(DaySlots(date, store.value, DayContext(db, store.value.id, parsed.value), now, parsed.value))
  }

  function DaySlots(date: string, store: StoreRow, ctx: Context, now: int, parsed: int): TimeSlots {
    var c := ToKstYmd(parsed);
    var dateOnly := UtcDay(c.year, c.month - 1, c.day);
    var hours := OpenHours(Get(ctx.hoursByWeekday, Weekday(dateOnly)));
    if hours.None? then TimeSlots(date, [], [])
    else if IsoDateKey(dateOnly) in ctx.closureDates then TimeSlots(date, [], [])
    else
      var reason := EvaluateDay(store, ctx, now, c.year, c.month, c.day);
      var isToday := KstDayDiff(now, parsed) == 0;
      SplitDay(date, DayPolicy(store, hours.value, isToday, now), reason.Some?)
  }

  // ---------- one day's facts, read directly ----------

  function HourOn(rows: seq<HourRow>, storeId: nat, weekday: int): Option<HourRow> {
    if rows == [] then None
    else
      var last := rows[|rows| - 1];
      if last.storeId == storeId && !last.deleted && last.dayOfWeek == weekday then Some(last)
      else HourOn(rows[..|rows| - 1], storeId, weekday)
  }

  predicate ClosedOn(rows: seq<ClosureRow>, storeId: nat, n: int) {
    exists i :: 0 <= i < |rows| && rows[i].storeId == storeId && !rows[i].deleted && rows[i].day == n
  }

  function CapacityOn(rows: seq<CapacityRow>, storeId: nat, n: int): Option<nat> {
    if rows == [] then None
    else
      var last := rows[|rows| - 1];
      if last.storeId == storeId && !last.deleted && last.day == n then Some(last.capacity)
      else CapacityOn(rows[..|rows| - 1], storeId, n)
  }

  /** Quantity booked for pickup within [start, end). */
  function BookedWithin(rows: seq<BookedRow>, storeId: nat, start: int, end: int): nat {
    if rows == [] then 0
    else
      var last := rows[|rows| - 1];
      BookedWithin(rows[..|rows| - 1], storeId, start, end)
      + if last.storeId == storeId && !last.excluded && start <= last.pickupAt < end then last.quantity else 0
  }

  function BookedOn(rows: seq<BookedRow>, storeId: nat, n: int): nat {
    BookedWithin(rows, storeId, KstStart(n), KstStart(n + 1))
  }

  function FactsOn(db: Snapshot, storeId: nat, n: int): DayFacts {
    DayFacts(
      ClosedOn(db.closures, storeId, n), OpenHours(HourOn(db.hours, storeId, Weekday(n))),
      CapacityOn(db.capacities, storeId, n), BookedOn(db.bookings, storeId, n))
  }

  // ---------- date keys name days ----------

  /** Days whose year has four digits. */
  predicate NamedDay(n: int) {
    FourDigitYear(CivilOfDay(n).year)
  }

  lemma YearsFollowDays(a: int, b: int)
    requires a <= b
    ensures CivilOfDay(a).year <= CivilOfDay(b).year
  {
    hide DayFromYear, IsLeap;
    var y, z := CivilOfDay(a).year, CivilOfDay(b).year;
    if z < y && z + 1 < y { YearsAscend(z + 1, y); }
  }

  lemma NamedDayRange(a: int, n: int, b: int)
    requires a <= n <= b
    ensures NamedDay(a) && NamedDay(b) ==> NamedDay(n)
  {
    YearsFollowDays(a, n);
    YearsFollowDays(n, b);
  }

  lemma KeyIsDateString(n: int)
    requires NamedDay(n)
    ensures IsoDateKey(n) == DateString(CivilOfDay(n)) && |IsoDateKey(n)| == 10
  {
    hide CivilOfDay, ValidDate, Print;
    var c := CivilOfDay(n);
    CivilRoundTrip(n);
    DateStringShape(c);
    PrintLength(c.year);
    assert Pad(c.year, 4) == Print(c.year);
    var s := DateString(c);
    assert s[..10] == s;
  }

  lemma KeyNamesDay(n: int)
    requires NamedDay(n)
    ensures IsoDateKey(n) == DateString(CivilOfDay(n)) && |IsoDateKey(n)| == 10
    ensures ParseKstDate(IsoDateKey(n)) == Some(KstStart(n))
  {
    hide CivilOfDay, ParseKstDate, DateString, IsoDateKey, UtcDay, MakeDay;
    KeyIsDateString(n);
    CivilRoundTrip(n);
    ParseAcceptsRealDate(CivilOfDay(n));
    MidnightOfRealDate(CivilOfDay(n));
  }

  /** Days of other years: four digits up to year 9999, a sign and six digits beyond and before. */
  lemma KeyOfYear(n: int)
    ensures var y, key := CivilOfDay(n).year, IsoDateKey(n);
            && (0 <= y <= 9999 ==> key == Pad(y, 4) + "-" + Pad(CivilOfDay(n).month, 2) + "-" + Pad(CivilOfDay(n).day, 2))
            && (9999 < y <= 999_999 ==> key[..7] == "+" + Pad(y, 6))
            && (-999_999 <= y < 0 ==> key[..7] == "-" + Pad(-y, 6))
  {
    hide CivilOfDay, ValidDate, Print, DaysInMonth;
    var c := CivilOfDay(n);
    CivilRoundTrip(n);
    assert c.month <= 12 && c.day <= 31 by { MonthAndDayAreSmall(c); }
    Pad2Length(c.month);
    Pad2Length(c.day);
    if 0 <= c.year <= 9999 {
      Pad4Length(c.year);
    } else if 9999 < c.year <= 999_999 {
      Pad6Length(c.year);
    } else if -999_999 <= c.year < 0 {
      Pad6Length(-c.year);
    }
  }

  lemma MonthAndDayAreSmall(c: Ymd)
    requires ValidDate(c)
    ensures 1 <= c.month <= 12 && 1 <= c.day <= 31
  {
  }

  /** When the calendar answers and which error it gives otherwise. */
  lemma CalendarErrors(db: Snapshot, storeId: nat, yearMonth: string, now: int)
    ensures var r, ym := StorePickupCalendar(db, storeId, yearMonth, now), ParseKstYearMonth(yearMonth);
            var accepted := ym.Some? && 1001 <= ym.value.year <= 9998;
            && (r == Err(InvalidYearMonth) <==> !accepted)
            && (r == Err(StoreNotFound) <==> accepted && FindStore(db.stores, storeId).None?)
            && (r.Ok? <==> accepted && FindStore(db.stores, storeId).Some?)
            && (r.Ok? ==> r.value.yearMonth == yearMonth)
  {
    hide ParseKstYearMonth, FindStore, CivilOfDay, CalendarDay, MonthContext, UtcDay;
  }

  /** When the slot query answers and which error it gives otherwise. */
  lemma SlotErrors(db: Snapshot, storeId: nat, date: string, now: int)
    ensures var r, parsed := StorePickupTimeSlots(db, storeId, date, now), ParseKstDate(date);
            var accepted := parsed.Some? && 1001 <= ToKstYmd(parsed.value).year <= 9998;
            && (r == Err(InvalidDate) <==> !accepted)
            && (r == Err(StoreNotFound) <==> accepted && FindStore(db.stores, storeId).None?)
            && (r.Ok? <==> accepted && FindStore(db.stores, storeId).Some?)
            && (r.Ok? ==> r.value.date == date)
  {
    hide ParseKstDate, ToKstYmd, FindStore, DayContext, EvaluateDay, UtcDay, HalfDay, KstDayDiff;
  }

  lemma KeysDiffer(m: int, n: int)
    requires NamedDay(m) && NamedDay(n)
    ensures IsoDateKey(m) == IsoDateKey(n) ==> m == n
  {
    hide IsoDateKey, NamedDay, ParseKstDate, KstStart, KstDay;
    KeyNamesDay(m);
    KeyNamesDay(n);
    KstStartDay(m);
    KstStartDay(n);
  }

  // ---------- a range context answers for each of its days ----------

  /** A context loaded for days [a, b), all of them with four-digit years. */
  ghost predicate RangeOfNamedDays(a: int, b: int) {
    a < b && NamedDay(a) && NamedDay(b - 1)
  }

  lemma {:induction false} HoursLookup(rows: seq<HourRow>, storeId: nat, weekday: int)
    ensures Get(HoursByWeekday(rows, storeId), weekday) == HourOn(rows, storeId, weekday)
  {
    if rows != [] { HoursLookup(rows[..|rows| - 1], storeId, weekday); }
  }

  lemma ClosureLookup(rows: seq<ClosureRow>, storeId: nat, a: int, b: int, n: int)
    requires RangeOfNamedDays(a, b) && a <= n < b
    ensures IsoDateKey(n) in ClosureDates(rows, storeId, a * DAY_MS, b * DAY_MS) <==> ClosedOn(rows, storeId, n)
  {
    hide IsoDateKey, NamedDay;
    NamedDayRange(a, n, b - 1);
    if IsoDateKey(n) in ClosureDates(rows, storeId, a * DAY_MS, b * DAY_MS) {
      var i :| 0 <= i < |rows| && rows[i].storeId == storeId && !rows[i].deleted
               && a * DAY_MS <= rows[i].day * DAY_MS < b * DAY_MS && IsoDateKey(rows[i].day) == IsoDateKey(n);
      NamedDayRange(a, rows[i].day, b - 1);
      KeysDiffer(rows[i].day, n);
    }
  }

  lemma {:induction false} CapacityLookup(rows: seq<CapacityRow>, storeId: nat, a: int, b: int, n: int)
    requires RangeOfNamedDays(a, b) && a <= n < b
    ensures Get(Capacities(rows, storeId, a * DAY_MS, b * DAY_MS), IsoDateKey(n)) == CapacityOn(rows, storeId, n)
  {
    hide IsoDateKey, NamedDay;
    if rows != [] {
      CapacityLookup(rows[..|rows| - 1], storeId, a, b, n);
      var last := rows[|rows| - 1];
      if a * DAY_MS <= last.day * DAY_MS < b * DAY_MS && last.day != n {
        NamedDayRange(a, last.day, b - 1);
        NamedDayRange(a, n, b - 1);
        KeysDiffer(last.day, n);
      }
    }
  }

  /** Grouping bookings by KST date gives each day exactly its own [midnight, next midnight) total. */
  lemma {:induction false} BookedLookup(rows: seq<BookedRow>, storeId: nat, a: int, b: int, n: int)
    requires RangeOfNamedDays(a, b) && a <= n < b
    ensures Get(BookedByKstDate(rows, storeId, KstStart(a), KstStart(b)), IsoDateKey(n)).GetOr(0)
            == BookedOn(rows, storeId, n)
  {
    hide IsoDateKey, NamedDay;
    if rows != [] {
      BookedLookup(rows[..|rows| - 1], storeId, a, b, n);
      var k := KstDay(rows[|rows| - 1].pickupAt);
      if a <= k < b && k != n {
        NamedDayRange(a, k, b - 1);
        NamedDayRange(a, n, b - 1);
        KeysDiffer(k, n);
      }
    }
  }

  /** The bookings of consecutive days add up to the bookings of the whole range: none is lost or counted twice. */
  lemma {:induction false} BookingsPartition(rows: seq<BookedRow>, storeId: nat, a: int, b: int)
    requires a <= b
    ensures BookedWithin(rows, storeId, KstStart(a), KstStart(b)) == SumOfDays(rows, storeId, a, b)
    decreases b - a
  {
    if a < b {
      BookingsPartition(rows, storeId, a, b - 1);
      BookedSplit(rows, storeId, KstStart(a), KstStart(b - 1), KstStart(b));
    } else {
      BookedEmpty(rows, storeId, KstStart(a));
    }
  }

  function SumOfDays(rows: seq<BookedRow>, storeId: nat, a: int, b: int): nat
    decreases b - a
  {
    if a >= b then 0 else SumOfDays(rows, storeId, a, b - 1) + BookedOn(rows, storeId, b - 1)
  }

  lemma {:induction false} BookedSplit(rows: seq<BookedRow>, storeId: nat, start: int, mid: int, end: int)
    requires start <= mid <= end
    ensures BookedWithin(rows, storeId, start, end)
            == BookedWithin(rows, storeId, start, mid) + BookedWithin(rows, storeId, mid, end)
  {
    if rows != [] { BookedSplit(rows[..|rows| - 1], storeId, start, mid, end); }
  }

  lemma {:induction false} BookedEmpty(rows: seq<BookedRow>, storeId: nat, start: int)
    ensures BookedWithin(rows, storeId, start, start) == 0
  {
    if rows != [] { BookedEmpty(rows[..|rows| - 1], storeId, start); }
  }

  predicate ScheduleYear(y: int) {
    MIN_SCHEDULE_YEAR <= y <= MAX_SCHEDULE_YEAR
  }

  /**
   * Whatever range of days a context was loaded for, judging one of those days with it is judging the
   * day's own facts. The one-day context is in this sense the restriction of the month context.
   */
  lemma ContextAnswersForDay(db: Snapshot, store: StoreRow, a: int, b: int, now: int, c: Ymd)
    requires RangeOfNamedDays(a, b) && ValidDate(c) && ScheduleYear(c.year)
    requires a <= MakeDay(c.year, c.month - 1, c.day) < b
    ensures var ctx := LoadScheduleContext(db, store.id, a * DAY_MS, b * DAY_MS, KstStart(a), KstStart(b));
            var n := MakeDay(c.year, c.month - 1, c.day);
            var facts := FactsOn(db, store.id, n);
            && EvaluateDay(store, ctx, now, c.year, c.month, c.day)
               == Judge(store, facts, now, KstDayDiff(now, KstStart(n)))
            && OpenHours(Get(ctx.hoursByWeekday, Weekday(n))) == facts.hours
            && (IsoDateKey(n) in ctx.closureDates <==> facts.closed)
  {
    hide IsoDateKey, NamedDay, Judge, KstDayDiff, OpenHours, MakeDay, ValidDate, Weekday, BookedOn;
    hide Capacities, ClosureDates, BookedByKstDate, HoursByWeekday, HourOn, CapacityOn, ClosedOn;
    var n := MakeDay(c.year, c.month - 1, c.day);
    MidnightOfRealDate(c);
    assert UtcDay(c.year, c.month - 1, c.day) == n;
    HoursLookup(db.hours, store.id, Weekday(n));
    ClosureLookup(db.closures, store.id, a, b, n);
    CapacityLookup(db.capacities, store.id, a, b, n);
    BookedLookup(db.bookings, store.id, a, b, n);
  }
}
