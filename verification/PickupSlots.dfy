/** Pickup time slots of one day: the grid, the lead-time cutoff and the morning/afternoon split. */
module PickupSlots {
  import opened Decimal
  import opened KstTime

  const AFTERNOON_START_MINUTES := 12 * 60

  datatype Slot = Slot(time: string, available: bool)
  datatype TimeSlots = TimeSlots(date: string, morning: seq<Slot>, afternoon: seq<Slot>)

  /** The current minute of the day, or minus infinity on a day that needs no cutoff. */
  datatype NowMinutes = NoCutoff | At(minutes: int)

  datatype SlotPolicy = SlotPolicy(
    openMinutes: nat, closeMinutes: int, intervalMinutes: int, leadTimeMinutes: int, nowMinutes: NowMinutes)
  {
    predicate NoGrid() {
      intervalMinutes <= 0 || closeMinutes <= openMinutes
    }

    predicate AfterCutoff(minute: int) {
      nowMinutes.At? ==> minute >= nowMinutes.minutes + leadTimeMinutes
    }

    /** ceil((close - open) / interval) */
    function Count(): nat {
      if NoGrid() then 0 else (closeMinutes - openMinutes + intervalMinutes - 1) / intervalMinutes
    }

    function Minute(i: nat): int {
      openMinutes + i * intervalMinutes
    }

    function SlotAt(i: nat): Slot
      requires !NoGrid()
    {
      Growing(i);
      Slot(FormatMinutesOfDay(Minute(i)), AfterCutoff(Minute(i)))
    }

    function Slots(): seq<Slot> {
      seq(Count(), i requires 0 <= i < Count() => SlotAt(i))
    }

    lemma NextMinute(i: nat)
      ensures Minute(0) == openMinutes && Minute(i + 1) == Minute(i) + intervalMinutes
    {
    }

    lemma Growing(i: nat)
      requires !NoGrid()
      ensures openMinutes <= Minute(i)
    {
    }

    /** The grid is exactly the points open, open + interval, ... that lie before close. */
    lemma GridIsExact(i: nat)
      requires !NoGrid()
      ensures i < Count() <==> Minute(i) < closeMinutes
    {
      CeilDivision(closeMinutes - openMinutes, intervalMinutes, i);
    }

    lemma MinutesAscend(i: nat, j: nat)
      requires i <= j && !NoGrid()
      ensures Minute(i) <= Minute(j)
      ensures i < j ==> Minute(i) < Minute(j)
    {
      assert Minute(j) - Minute(i) == (j - i) * intervalMinutes;
    }

    /** Availability has the shape false*true*: once a slot is on offer, so is every later one. */
    lemma AvailabilityIsMonotone(i: nat, j: nat)
      requires i <= j < Count()
      ensures Slots()[i].available ==> Slots()[j].available
    {
      MinutesAscend(i, j);
    }
  }

  lemma Product(a: int, d: int)
    requires a >= 0 && d > 0
    ensures a * d >= 0
  {
  }

  lemma CeilDivision(c: int, d: int, i: int)
    requires d > 0 && c > 0 && i >= 0
    ensures i < (c + d - 1) / d <==> i * d < c
  {
    var q, r := (c + d - 1) / d, (c + d - 1) % d;
    assert c + d - 1 == q * d + r;
    assert (q - i) * d == q * d - i * d;
    if i < q {
      Product(q - i - 1, d);
      assert (q - i) * d == (q - i - 1) * d + d;
    } else {
      Product(i - q, d);
      assert (i - q) * d == i * d - q * d;
    }
  }

  /** The loop over [open, close) builds the grid. */
  method BuildTodaySlots(policy: SlotPolicy) returns (slots: seq<Slot>)
    ensures slots == policy.Slots()
  {
    slots := [];
    if policy.NoGrid() {
      return;
    }
    hide SlotPolicy.Minute, SlotPolicy.Count;
    policy.NextMinute(0);
    var t := policy.openMinutes;
    while t < policy.closeMinutes
      invariant t == policy.Minute(|slots|) && t >= 0
      invariant |slots| <= policy.Count()
      invariant forall i :: 0 <= i < |slots| ==> slots[i] == policy.SlotAt(i)
    {
      policy.GridIsExact(|slots|);
      policy.NextMinute(|slots|);
      slots := slots + [Slot(FormatMinutesOfDay(t), policy.AfterCutoff(t))];
      t := t + policy.intervalMinutes;
    }
    policy.GridIsExact(|slots|);
  }

  // ---------- lead time ----------

  predicate HasSubMinute(now: int) {
    now % MINUTE_MS / 1000 > 0 || now % 1000 > 0
  }

  /** The KST minute of the day, rounded up. */
  function NowCeilMinutes(now: int): int {
    KstMinutesOfDay(now) + if HasSubMinute(now) then 1 else 0
  }

  /** Rounding up loses nothing: a slot passes the cutoff exactly when its instant is not before now + lead. */
  lemma LeadTimeIsExact(now: int, lead: int, minute: int)
    ensures minute >= NowCeilMinutes(now) + lead
            <==> KstStart(KstDay(now)) + minute * MINUTE_MS >= now + lead * MINUTE_MS
  {
    var ms := (now + KST_OFFSET_MS) % DAY_MS;
    assert now == KstStart(KstDay(now)) + ms;
    SubMinute(now);
    assert ms == KstMinutesOfDay(now) * MINUTE_MS + now % MINUTE_MS;
  }

  lemma SubMinute(now: int)
    ensures HasSubMinute(now) <==> now % MINUTE_MS != 0
    ensures (now + KST_OFFSET_MS) % DAY_MS % MINUTE_MS == now % MINUTE_MS
  {
    var q := (now + KST_OFFSET_MS) / DAY_MS;
    var r := (now + KST_OFFSET_MS) % DAY_MS;
    MinuteRemainder(now, 1440 * q + r / MINUTE_MS - 540, r % MINUTE_MS);
    SecondRemainder(now, 60 * (now / MINUTE_MS) + now % MINUTE_MS / 1000, now % MINUTE_MS % 1000);
  }

  lemma MinuteRemainder(x: int, k: int, b: int)
    requires x == k * MINUTE_MS + b && 0 <= b < MINUTE_MS
    ensures x % MINUTE_MS == b
  {
  }

  lemma SecondRemainder(x: int, k: int, b: int)
    requires x == k * 1000 + b && 0 <= b < 1000
    ensures x % 1000 == b
  {
  }

  // ---------- morning and afternoon ----------

  predicate IsClockTime(s: string) {
    |s| == 5 && AllDigits(s[..2]) && AllDigits(s[3..])
  }

  function SlotMinutes(slot: Slot): nat
    requires IsClockTime(slot.time)
  {
    Value(slot.time[..2]) * 60 + Value(slot.time[3..])
  }

  predicate AllClockTimes(slots: seq<Slot>) {
    forall i :: 0 <= i < |slots| ==> IsClockTime(slots[i].time)
  }

  /** `slots.filter` by the half of the day. */
  function HalfDay(slots: seq<Slot>, afternoon: bool): (half: seq<Slot>)
    requires AllClockTimes(slots)
  {
    if slots == [] then []
    else
      var rest := HalfDay(slots[..|slots| - 1], afternoon);
      var last := slots[|slots| - 1];
      if (SlotMinutes(last) >= AFTERNOON_START_MINUTES) == afternoon then rest + [last] else rest
  }

  /** The next slot of the day goes to the end of its half. */
  lemma HalfDayGrows(slots: seq<Slot>, k: nat, afternoon: bool)
    requires AllClockTimes(slots) && k < |slots|
    ensures AllClockTimes(slots[..k]) && AllClockTimes(slots[..k + 1])
    ensures HalfDay(slots[..k + 1], afternoon)
            == HalfDay(slots[..k], afternoon)
               + (if (SlotMinutes(slots[k]) >= AFTERNOON_START_MINUTES) == afternoon then [slots[k]] else [])
  {
    assert slots[..k + 1][..k] == slots[..k];
  }

  predicate Ascending(slots: seq<Slot>)
    requires AllClockTimes(slots)
  {
    forall i, j :: 0 <= i < j < |slots| ==> SlotMinutes(slots[i]) <= SlotMinutes(slots[j])
  }

  /** Splitting an ascending day at noon loses, repeats and reorders nothing. */
  lemma {:induction false} HalvesJoin(slots: seq<Slot>)
    requires AllClockTimes(slots) && Ascending(slots)
    ensures HalfDay(slots, false) + HalfDay(slots, true) == slots
    ensures slots != [] && SlotMinutes(slots[|slots| - 1]) < AFTERNOON_START_MINUTES ==> HalfDay(slots, true) == []
  {
    if slots != [] {
      var init := slots[..|slots| - 1];
      HalvesJoin(init);
      assert slots == init + [slots[|slots| - 1]];
      if init != [] {
        assert SlotMinutes(slots[|slots| - 2]) <= SlotMinutes(slots[|slots| - 1]);
      }
    }
  }

  /** A grid that closes by midnight is an ascending list of clock times. */
  lemma GridIsClockTimes(policy: SlotPolicy)
    requires policy.closeMinutes <= 1440
    ensures AllClockTimes(policy.Slots()) && Ascending(policy.Slots())
    ensures forall i :: 0 <= i < policy.Count() ==> SlotMinutes(policy.Slots()[i]) == policy.Minute(i)
  {
    forall i | 0 <= i < policy.Count()
      ensures IsClockTime(policy.Slots()[i].time) && SlotMinutes(policy.Slots()[i]) == policy.Minute(i)
    {
      policy.GridIsExact(i);
      policy.Growing(i);
      FormatMinutesReads(policy.Minute(i));
    }
    forall i, j | 0 <= i < j < policy.Count() ensures policy.Minute(i) <= policy.Minute(j) {
      policy.MinutesAscend(i, j);
    }
  }

  predicate HasAvailable(slots: seq<Slot>) {
    exists i :: 0 <= i < |slots| && slots[i].available
  }

  function CloseAll(slots: seq<Slot>): (r: seq<Slot>)
    ensures |r| == |slots|
  {
    seq(|slots|, i requires 0 <= i < |slots| => slots[i].(available := false))
  }

  /** The grid of a day, shown as sold out when `closed`, split at noon. */
  function SplitDay(date: string, policy: SlotPolicy, closed: bool): TimeSlots
    requires policy.closeMinutes <= 1440
  {
    GridIsClockTimes(policy);
    var slots := if closed then CloseAll(policy.Slots()) else policy.Slots();
    TimeSlots(date, HalfDay(slots, false), HalfDay(slots, true))
  }

  function AllSlots(s: TimeSlots): seq<Slot> {
    s.morning + s.afternoon
  }

  lemma SplitDayKeepsAll(date: string, policy: SlotPolicy, closed: bool)
    requires policy.closeMinutes <= 1440
    ensures var s := SplitDay(date, policy, closed);
            s.date == date && AllSlots(s) == if closed then CloseAll(policy.Slots()) else policy.Slots()
  {
    hide SlotPolicy.Slots, IsClockTime;
    GridIsClockTimes(policy);
    HalvesJoin(if closed then CloseAll(policy.Slots()) else policy.Slots());
  }

  /** Each half holds slots of the day, the morning those before 12:00, the afternoon those from 12:00 on. */
  lemma {:induction false} HalfDayIsSplitAtNoon(slots: seq<Slot>, afternoon: bool, k: nat)
    requires AllClockTimes(slots) && k < |HalfDay(slots, afternoon)|
    ensures var slot := HalfDay(slots, afternoon)[k];
            slot in slots && (SlotMinutes(slot) >= 12 * 60 <==> afternoon)
  {
    hide IsClockTime, SlotMinutes;
    var n := |slots| - 1;
    assert slots == slots[..n] + [slots[n]];
    if k < |HalfDay(slots[..n], afternoon)| {
      HalfDayIsSplitAtNoon(slots[..n], afternoon, k);
    }
  }
}
