/** The stores that can still be picked up from today, for all ranked stores in four bulk queries. */
module TodayPickup {
  import opened Wrappers
  import opened Decimal
  import opened KstTime
  import opened PickupSlots
  import opened StoreSchedule
  import opened ScheduleAgreement

  datatype OpenStore = OpenStore(store: StoreRow, slots: seq<Slot>)
  datatype Today = Today(weekday: int, day: int, start: int, end: int)

  function TodayKst(asOf: int): (t: Today)
    ensures t.weekday == Weekday(t.day) && t.start == KstStart(t.day) && t.end == KstStart(t.day + 1)
  {
    var c := ToKstYmd(asOf);
    var dateOnly := UtcDay(c.year, c.month - 1, c.day);
    var start := KstMidnightUtc(c.year, c.month, c.day);
    Today(Weekday(dateOnly), dateOnly, start, start + DAY_MS)
  }

  // ---------- the bulk queries, keyed by store ----------

  function HoursByStore(rows: seq<HourRow>, ids: set<nat>, weekday: int): map<nat, HourRow> {
    if rows == [] then map[]
    else
      var m := HoursByStore(rows[..|rows| - 1], ids, weekday);
      var last := rows[|rows| - 1];
      if last.storeId in ids && last.dayOfWeek == weekday && !last.deleted then m[last.storeId := last] else m
  }

  function ClosedStoreIds(rows: seq<ClosureRow>, ids: set<nat>, day: int): set<nat> {
    set i | 0 <= i < |rows| && rows[i].storeId in ids && rows[i].day == day && !rows[i].deleted :: rows[i].storeId
  }

  function DailyCapacities(rows: seq<CapacityRow>, ids: set<nat>, day: int): map<nat, nat> {
    if rows == [] then map[]
    else
      var m := DailyCapacities(rows[..|rows| - 1], ids, day);
      var last := rows[|rows| - 1];
      if last.storeId in ids && last.day == day && !last.deleted then m[last.storeId := last.capacity] else m
  }

  function QuantitiesInRange(rows: seq<BookedRow>, ids: set<nat>, start: int, end: int): map<nat, nat> {
    if rows == [] then map[]
    else
      var m := QuantitiesInRange(rows[..|rows| - 1], ids, start, end);
      var last := rows[|rows| - 1];
      if last.storeId in ids && !last.excluded && start <= last.pickupAt < end
      then m[last.storeId := Get(m, last.storeId).GetOr(0) + last.quantity] else m
  }

  /** Each bulk query answers for each of its stores as a query for that store alone would. */
  lemma {:induction false} HoursByStoreLookup(rows: seq<HourRow>, ids: set<nat>, weekday: int, id: nat)
    requires id in ids
    ensures Get(HoursByStore(rows, ids, weekday), id) == HourOn(rows, id, weekday)
  {
    if rows != [] { HoursByStoreLookup(rows[..|rows| - 1], ids, weekday, id); }
  }

  lemma {:induction false} DailyCapacitiesLookup(rows: seq<CapacityRow>, ids: set<nat>, day: int, id: nat)
    requires id in ids
    ensures Get(DailyCapacities(rows, ids, day), id) == CapacityOn(rows, id, day)
  {
    if rows != [] { DailyCapacitiesLookup(rows[..|rows| - 1], ids, day, id); }
  }

  lemma {:induction false} QuantitiesLookup(rows: seq<BookedRow>, ids: set<nat>, start: int, end: int, id: nat)
    requires id in ids
    ensures Get(QuantitiesInRange(rows, ids, start, end), id).GetOr(0) == BookedWithin(rows, id, start, end)
  {
    if rows != [] { QuantitiesLookup(rows[..|rows| - 1], ids, start, end, id); }
  }

  // ---------- the listing ----------

  /** One store's place in the listing, from its own facts of the day. */
  function OpenEntry(db: Snapshot, store: StoreRow, now: int): Option<OpenStore> {
    var facts := FactsOn(db, store.id, TodayKst(now).day);
    if facts.closed || facts.hours.None? || (facts.capacity.Some? && facts.booked >= facts.capacity.value) then None
    else
      var slots := BuildDaySlots(store, facts.hours.value, true, now);
      if HasAvailable(slots) then Some(OpenStore(store, slots)) else None
  }

  function OpenStores(db: Snapshot, scored: seq<StoreRow>, now: int): seq<OpenStore> {
    if scored == [] then []
    else
      var entry := OpenEntry(db, scored[|scored| - 1], now);
      OpenStores(db, scored[..|scored| - 1], now) + if entry.Some? then [entry.value] else []
  }

  /** The loop over the ranking keeps exactly the open stores, in ranking order. */
  method TodayPickupStores(db: Snapshot, scored: seq<StoreRow>, asOf: int) returns (open: seq<OpenStore>)
    ensures open == OpenStores(db, scored, asOf)
  {
    var ids := set i | 0 <= i < |scored| :: scored[i].id;
    var today := TodayKst(asOf);
    var hourByStore := HoursByStore(db.hours, ids, today.weekday);
    var closed := ClosedStoreIds(db.closures, ids, today.day);
    var capacities := DailyCapacities(db.capacities, ids, today.day);
    var booked := QuantitiesInRange(db.bookings, ids, today.start, today.end);
    open := [];
    for k := 0 to |scored|
      invariant open == OpenStores(db, scored[..k], asOf)
    {
      hide TodayKst, HourOn, CapacityOn, BookedWithin, HoursByStore, DailyCapacities, QuantitiesInRange;
      var store := scored[k];
      assert scored[..k + 1][..k] == scored[..k];
      HoursByStoreLookup(db.hours, ids, today.weekday, store.id);
      DailyCapacitiesLookup(db.capacities, ids, today.day, store.id);
      QuantitiesLookup(db.bookings, ids, today.start, today.end, store.id);
      if store.id in closed { continue; }
      var hours := OpenHours(Get(hourByStore, store.id));
      if hours.None? { continue; }
      var capacity := Get(capacities, store.id);
      if capacity.Some? && Get(booked, store.id).GetOr(0) >= capacity.value { continue; }
      var slots := BuildTodaySlots(DayPolicy(store, hours.value, true, asOf));
      if !HasAvailable(slots) { continue; }
      open := open + [OpenStore(store, slots)];
    }
    assert scored[..|scored|] == scored;
  }

  lemma {:induction false} OpenStoresIsFilter(db: Snapshot, scored: seq<StoreRow>, now: int, o: OpenStore)
    ensures o in OpenStores(db, scored, now) <==> o.store in scored && OpenEntry(db, o.store, now) == Some(o)
  {
    hide OpenEntry;
    if scored != [] {
      var init, last := scored[..|scored| - 1], scored[|scored| - 1];
      OpenStoresIsFilter(db, init, now, o);
      assert scored == init + [last];
      assert OpenEntry(db, last, now).Some? ==> OpenEntry(db, last, now).value.store == last by { EntryStore(db, last, now); }
    }
  }

  lemma EntryStore(db: Snapshot, store: StoreRow, now: int)
    ensures OpenEntry(db, store, now).Some? ==> OpenEntry(db, store, now).value.store == store
  {
  }

  lemma TodayIsKstDay(now: int)
    requires FourDigitYear(ToKstYmd(now).year)
    ensures var n := KstDay(now);
            && TodayKst(now) == Today(Weekday(n), n, KstStart(n), KstStart(n + 1)) && KstStart(n) <= now < KstStart(n + 1)
            && DayNumber(ToKstYmd(now)) == n && ValidDate(ToKstYmd(now))
  {
    hide MakeDay, CivilOfDay, ValidDate, Weekday;
    CivilRoundTrip(KstDay(now));
  }

  /**
   * A ranked store is listed today exactly when its own calendar marks today selectable, and it is listed
   * with the slots its own slot query gives for today, morning then afternoon.
   */
  lemma TodayAgreesWithCalendar(db: Snapshot, scored: seq<StoreRow>, store: StoreRow, now: int)
    requires ScheduleYear(ToKstYmd(now).year)
    requires store in scored && FindStore(db.stores, store.id) == Some(store)
    ensures var c := ToKstYmd(now);
            var date := DateString(c);
            var calendar := StorePickupCalendar(db, store.id, date[..7], now);
            var slots := StorePickupTimeSlots(db, store.id, date, now);
            && calendar.Ok? && slots.Ok? && 1 <= c.day <= |calendar.value.days|
            && calendar.value.days[c.day - 1].date == date
            && ((exists o :: o in OpenStores(db, scored, now) && o.store == store)
                <==> calendar.value.days[c.day - 1].selectable)
            && (forall o :: o in OpenStores(db, scored, now) && o.store == store ==> o.slots == AllSlots(slots.value))
  {
    hide StorePickupTimeSlots, DateString, ParseKstYearMonth, DayVerdict, DayGrid, OpenEntry, DaySlots, CalendarDay;
    hide FindStore, ToKstYmd, ValidDate, DaysInMonth, AllSlots, OpenStores, DayNumber, MonthContext, TodayKst, KstDay;
    var c := ToKstYmd(now);
    TodayIsKstDay(now);
    YearMonthOfDate(c);
    var date := DateString(c);
    TimeSlotsOfDay(db, store.id, c, now);
    CalendarOk(db, store.id, date[..7], c, now);
    CalendarEntry(db, store.id, date[..7], now, c.day);
    EntryIsVerdict(db, store, now);
    ListedByEntry(db, scored, store, now);
  }

  lemma ListedByEntry(db: Snapshot, scored: seq<StoreRow>, store: StoreRow, now: int)
    requires store in scored
    ensures (exists o :: o in OpenStores(db, scored, now) && o.store == store) <==> OpenEntry(db, store, now).Some?
    ensures forall o :: o in OpenStores(db, scored, now) && o.store == store ==> OpenEntry(db, store, now) == Some(o)
  {
    hide OpenEntry, OpenStores;
    forall o | o in OpenStores(db, scored, now) && o.store == store ensures OpenEntry(db, store, now) == Some(o) {
      OpenStoresIsFilter(db, scored, now, o);
    }
    if OpenEntry(db, store, now).Some? {
      var o := OpenEntry(db, store, now).value;
      EntryStore(db, store, now);
      OpenStoresIsFilter(db, scored, now, o);
      assert o in OpenStores(db, scored, now) && o.store == store;
    }
  }

  lemma EntryIsVerdict(db: Snapshot, store: StoreRow, now: int)
    requires FourDigitYear(ToKstYmd(now).year)
    ensures var n := KstDay(now);
            && (OpenEntry(db, store, now).Some? <==> DayVerdict(db, store, now, n).None?)
            && (OpenEntry(db, store, now).Some? ==> OpenEntry(db, store, now).value.slots == DayGrid(db, store, now, n))
  {
    hide FactsOn, BuildDaySlots, TodayKst, KstDayDiff, ToKstYmd, KstStart, KstDay;
    TodayIsKstDay(now);
    KstStartDay(KstDay(now));
    ToKstYmdOfDay(now);
    ToKstYmdOfDay(KstStart(KstDay(now)));
    DayDiffMeaning(now, KstStart(KstDay(now)));
  }
}
