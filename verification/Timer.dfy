/**
 * kernel/src/timer.cpp: when a software timer fires, in ticks of a constant length.
 */
module TimerSpec {
  import opened Words
  import opened Sectors

  datatype TimerState = TimerState(intervalMs: u32, elapsedMs: u32, active: bool, repeat: bool)

  function Start(t: TimerState): TimerState { t.(elapsedMs := 0, active := true) }

  /** One tick, and whether the callback ran. */
  function Tick(t: TimerState, deltaMs: u32): (TimerState, bool) {
    if !t.active then (t, false)
    else
      var elapsed := Wrap32(t.elapsedMs + deltaMs);
      if elapsed < t.intervalMs then (t.(elapsedMs := elapsed), false)
      else if t.repeat then (t.(elapsedMs := 0), true)
      else (t.(elapsedMs := elapsed, active := false), true)
  }

  function Ticks(t: TimerState, deltaMs: u32, n: nat): TimerState
    decreases n
  {
    if n == 0 then t else Ticks(Tick(t, deltaMs).0, deltaMs, n - 1)
  }

  /** How often the callback runs in n ticks. */
  function Fired(t: TimerState, deltaMs: u32, n: nat): nat
    decreases n
  {
    if n == 0 then 0 else (if Tick(t, deltaMs).1 then 1 else 0) + Fired(Tick(t, deltaMs).0, deltaMs, n - 1)
  }

  /** Ticks per period: the interval divided by the tick length, rounded up, and at least one. */
  function Period(intervalMs: nat, deltaMs: nat): (k: nat)
    requires deltaMs > 0
    ensures k > 0
    decreases intervalMs
  {
    if intervalMs <= deltaMs then 1 else 1 + Period(intervalMs - deltaMs, deltaMs)
  }

  lemma {:induction false} PeriodBounds(i: nat, d: nat)
    requires d > 0
    ensures Times(Period(i, d) - 1, d) < i || Period(i, d) == 1
    ensures i <= Times(Period(i, d), d)
    ensures i > 0 ==> Times(Period(i, d), d) < i + d
    decreases i
  {
    if i > d {
      PeriodBounds(i - d, d);
    } else {
      assert Times(1, d) == Times(0, d) + d;
    }
  }

  /** Period is max(1, ceil(interval / delta)). */
  lemma PeriodIsCeiling(i: nat, d: nat)
    requires d > 0
    ensures Period(i, d) == if i == 0 then 1 else (i + d - 1) / d
  {
    PeriodBounds(i, d);
    if i > 0 {
      var k := Period(i, d);
      DownOfSector(i + d - 1, k, d);
      DownIsFloor(i + d - 1, d);
      SameTimes(k, (i + d - 1) / d, d);
    }
  }

  lemma {:induction false} TicksSum(t: TimerState, d: u32, a: nat, b: nat)
    ensures Ticks(t, d, a + b) == Ticks(Ticks(t, d, a), d, b)
    ensures Fired(t, d, a + b) == Fired(t, d, a) + Fired(Ticks(t, d, a), d, b)
    decreases a
  {
    if a > 0 {
      TicksSum(Tick(t, d).0, d, a - 1, b);
    }
  }

  /** Before the period is over the timer just counts. */
  lemma {:induction false} StillCounting(t: TimerState, d: u32, j: nat)
    requires t.active && t.elapsedMs == 0 && d > 0 && (j == 0 || Times(j, d) < t.intervalMs)
    ensures Ticks(t, d, j) == t.(elapsedMs := Times(j, d)) && Fired(t, d, j) == 0
    decreases j
  {
    if j > 0 {
      TimesMonotone(j - 1, j, d);
      StillCounting(t, d, j - 1);
      TicksSum(t, d, j - 1, 1);
      LastTick(Ticks(t, d, j - 1), d);
    }
  }

  lemma LastTick(t: TimerState, d: u32)
    ensures Ticks(t, d, 1) == Tick(t, d).0 && Fired(t, d, 1) == if Tick(t, d).1 then 1 else 0
  {
    assert Ticks(t, d, 1) == Ticks(Tick(t, d).0, d, 0);
    assert Fired(Tick(t, d).0, d, 0) == 0;
  }

  /**
   * The first period: the callback runs at its last tick and not before, exactly when the elapsed
   * counter does not wrap on the way.
   */
  lemma FirstPeriod(t: TimerState, d: u32)
    requires t.active && t.elapsedMs == 0 && d > 0
    ensures var k := Period(t.intervalMs, d);
      && Fired(t, d, k - 1) == 0
      && Fired(t, d, k) == (if Times(k, d) < 0x1_0000_0000 then 1 else 0)
      && (Times(k, d) < 0x1_0000_0000 ==> Ticks(t, d, k) == if t.repeat then t else t.(elapsedMs := Times(k, d), active := false))
  {
    hide Ticks, Fired;
    var k := Period(t.intervalMs, d);
    PeriodBounds(t.intervalMs, d);
    StillCounting(t, d, k - 1);
    TicksSum(t, d, k - 1, 1);
    LastTick(Ticks(t, d, k - 1), d);
    assert Times(k, d) == Times(k - 1, d) + d;
  }

  /** n / k, counted in periods. */
  function Periods(n: nat, k: nat): nat
    requires k > 0
    decreases n
  {
    if n < k then 0 else 1 + Periods(n - k, k)
  }

  lemma {:induction false} PeriodsIsQuotient(n: nat, k: nat)
    requires k > 0
    ensures Periods(n, k) == n / k
    decreases n
  {
    PeriodsBounds(n, k);
    DownOfSector(n, Periods(n, k), k);
    DownIsFloor(n, k);
    SameTimes(Periods(n, k), n / k, k);
  }

  lemma {:induction false} PeriodsBounds(n: nat, k: nat)
    requires k > 0
    ensures Times(Periods(n, k), k) <= n < Times(Periods(n, k), k) + k
    decreases n
  {
    if n >= k {
      PeriodsBounds(n - k, k);
    }
  }

  lemma {:induction false} RepeatingPeriods(t: TimerState, d: u32, n: nat)
    requires t.active && t.elapsedMs == 0 && t.repeat && d > 0
    requires Times(Period(t.intervalMs, d), d) < 0x1_0000_0000
    ensures Fired(t, d, n) == Periods(n, Period(t.intervalMs, d))
    decreases n
  {
    var k := Period(t.intervalMs, d);
    FirstPeriod(t, d);
    if n < k {
      TicksSum(t, d, n, k - 1 - n);
    } else {
      TicksSum(t, d, k, n - k);
      RepeatingPeriods(t, d, n - k);
    }
  }

  /**
   * Firing law.  A repeating timer has fired n / k times n ticks after its start, for every n, where k
   * is the interval in ticks rounded up and at least 1, exactly when k ticks do not overflow the
   * 32-bit elapsed counter.
   */
  lemma RepeatingFiringLaw(t: TimerState, d: u32)
    requires d > 0 && t.repeat
    ensures var k := Period(t.intervalMs, d);
      (forall n: nat :: Fired(Start(t), d, n) == n / k) <==> Times(k, d) < 0x1_0000_0000
  {
    var s, k := Start(t), Period(t.intervalMs, d);
    FirstPeriod(s, d);
    if Times(k, d) < 0x1_0000_0000 {
      forall n: nat ensures Fired(s, d, n) == n / k {
        RepeatingPeriods(s, d, n);
        PeriodsIsQuotient(n, k);
      }
    } else {
      assert Fired(s, d, k) != k / k;
    }
  }

  lemma {:induction false} StoppedStaysSilent(t: TimerState, d: u32, n: nat)
    requires !t.active
    ensures Fired(t, d, n) == 0 && Ticks(t, d, n) == t
    decreases n
  {
    if n > 0 {
      StoppedStaysSilent(t, d, n - 1);
    }
  }

  /**
   * A one-shot timer fires once, at the last tick of its first period, and never again, exactly when that
   * period does not overflow the elapsed counter.
   */
  lemma OneShotFiresOnce(t: TimerState, d: u32)
    requires d > 0 && !t.repeat
    ensures var k := Period(t.intervalMs, d);
      (forall n: nat :: Fired(Start(t), d, n) == if n < k then 0 else 1) <==> Times(k, d) < 0x1_0000_0000
  {
    hide Ticks, Fired;
    var s, k := Start(t), Period(t.intervalMs, d);
    FirstPeriod(s, d);
    if Times(k, d) < 0x1_0000_0000 {
      forall n: nat ensures Fired(s, d, n) == if n < k then 0 else 1 {
        if n < k {
          TicksSum(s, d, n, k - 1 - n);
        } else {
          TicksSum(s, d, k, n - k);
          StoppedStaysSilent(Ticks(s, d, k), d, n - k);
        }
      }
    } else {
      assert Fired(s, d, k) == 0;
    }
  }

  /** The callback runs at the n-th tick after the start. */
  predicate FiresAt(t: TimerState, d: u32, n: nat) {
    n > 0 && Fired(Start(t), d, n) > Fired(Start(t), d, n - 1)
  }

  lemma {:induction false} PeriodsStep(n: nat, k: nat)
    requires n > 0 && k > 0
    ensures Periods(n, k) > Periods(n - 1, k) <==> Aligned(n, k)
    decreases n
  {
    if n > k {
      PeriodsStep(n - k, k);
    } else {
      assert Down(0, k) == 0 && Periods(0, k) == 0;
    }
  }

  /** A repeating timer fires exactly at the multiples of its period. */
  lemma FiresAtMultiples(t: TimerState, d: u32, n: nat)
    requires d > 0 && t.repeat && n > 0 && Times(Period(t.intervalMs, d), d) < 0x1_0000_0000
    ensures FiresAt(t, d, n) <==> Aligned(n, Period(t.intervalMs, d))
  {
    hide Fired, Periods, Aligned;
    var k := Period(t.intervalMs, d);
    RepeatingPeriods(Start(t), d, n);
    RepeatingPeriods(Start(t), d, n - 1);
    PeriodsStep(n, k);
  }

  /** The time between two consecutive firings is at least the interval and less than one tick longer. */
  lemma GapBounds(t: TimerState, d: u32, a: nat, b: nat)
    requires d > 0 && t.repeat && t.intervalMs > 0 && Times(Period(t.intervalMs, d), d) < 0x1_0000_0000
    requires a < b && FiresAt(t, d, a) && FiresAt(t, d, b) && forall n | a < n < b :: !FiresAt(t, d, n)
    ensures t.intervalMs <= Times(b - a, d) < t.intervalMs + d
  {
    hide FiresAt, Down, Times;
    var k := Period(t.intervalMs, d);
    PeriodBounds(t.intervalMs, d);
    FiresAtSomeTick(t, d, a);
    FiresAtMultiples(t, d, a);
    FiresAtMultiples(t, d, b);
    FiresAtMultiples(t, d, a + k);
    DownMonotone(a, b, k);
    WholePeriod(k);
    AlignedSum(a, k, k);
  }

  lemma FiresAtSomeTick(t: TimerState, d: u32, n: nat)
    requires FiresAt(t, d, n)
    ensures n > 0
  {}

  lemma WholePeriod(k: nat)
    requires k > 0
    ensures Aligned(k, k)
  {
    assert Down(0, k) == 0;
  }

  /** The period fits the counter whenever interval and tick together do. */
  lemma ShortIntervalsFit(intervalMs: u32, d: u32)
    requires d > 0 && intervalMs + d <= 0x1_0000_0000
    ensures Times(Period(intervalMs, d), d) < 0x1_0000_0000
  {
    PeriodBounds(intervalMs, d);
    assert Times(1, d) == Times(0, d) + d;
  }

  /** A timer that overflows: with an interval of 2^32 - 1 and ticks of 2^31 ms, the first period passes without a firing. */
  lemma OverflowingTimerMisses(t: TimerState)
    requires t.intervalMs == 0xFFFF_FFFF && t.repeat
    ensures Fired(Start(t), 0x8000_0000, 2) == 0 && Period(t.intervalMs, 0x8000_0000) == 2
  {
    FirstPeriod(Start(t), 0x8000_0000);
    assert Times(2, 0x8000_0000) == Times(1, 0x8000_0000) + 0x8000_0000;
  }
}

/** Timers and their registry, in place. */
module TimerImpl {
  import opened Words
  import opened TimerSpec
  import opened EventBusSpec
  import opened EventBusImpl
  import TaktSpec

  const MAX_TIMERS: nat := 32
  const NO_HANDLE: nat := 0xFFFF

  class Timer {
    var handle: nat
    var intervalMs: u32
    var elapsedMs: u32
    var active: bool
    var repeat: bool
    ghost var firings: nat  // how often the callback ran

    constructor (intervalMs: u32, repeat: bool)
      ensures handle == NO_HANDLE && State() == TimerState(intervalMs, 0, false, repeat) && firings == 0
    {
      handle, this.intervalMs, elapsedMs, active, this.repeat, firings := NO_HANDLE, intervalMs, 0, false, repeat, 0;
    }

    ghost function State(): TimerState
      reads this
    {
      TimerState(intervalMs, elapsedMs, active, repeat)
    }

    method StartTimer()
      modifies this`elapsedMs, this`active
      ensures State() == Start(old(State()))
    {
      elapsedMs := 0;
      active := true;
    }

    /** The callback itself, which runs when this returns true, is up to the caller. */
    method TickTimer(deltaMs: u32) returns (fired: bool)
      modifies this`elapsedMs, this`active, this`firings
      ensures (State(), fired) == Tick(old(State()), deltaMs) && firings == old(firings) + if fired then 1 else 0
    {
      if !active {
        return false;
      }
      elapsedMs := Wrap32(elapsedMs + deltaMs);
      fired := elapsedMs >= intervalMs;
      if fired {
        firings := firings + 1;
        if repeat {
          elapsedMs := 0;
        } else {
          active := false;
        }
      }
    }
  }

  class TimerManager {
    const timers: array<Timer?>
    var activeCount: nat

    /** The registered timers. */
    ghost function Members(): set<Timer>
      reads timers
    {
      set i | 0 <= i < timers.Length && timers[i] != null :: timers[i]
    }

    ghost predicate Valid()
      reads this, timers
    {
      timers.Length == MAX_TIMERS && activeCount == Used(timers[..])
    }

    constructor ()
      ensures Valid() && Members() == {}
    {
      timers := new Timer?[MAX_TIMERS](_ => null);
      activeCount := 0;
      new;
      NoneUsed(timers[..]);
    }

    /** Takes the first free slot; fails exactly when there is none.  A timer registered before gets a second slot. */
    method RegisterTimer(timer: Timer) returns (ok: bool)
      requires Valid()
      modifies this`activeCount, timers, timer`handle
      ensures Valid()
      ensures ok <==> exists i | 0 <= i < 32 :: old(timers[i]) == null
      ensures ok ==>
        && timer.handle < MAX_TIMERS && (forall k | 0 <= k < timer.handle :: old(timers[k]) != null)
        && old(timers[..])[timer.handle] == null && timers[..] == old(timers[..])[timer.handle := timer]
      ensures !ok ==> timers[..] == old(timers[..]) && timer.handle == old(timer.handle)
    {
      ghost var before := timers[..];
      UsedBounds(before);
      if activeCount >= MAX_TIMERS {
        return false;
      }
      for i := 0 to MAX_TIMERS
        invariant timers[..] == before && Valid() && timer.handle == old(timer.handle)
        invariant forall k | 0 <= k < i :: before[k] != null
      {
        if timers[i] == null {
          UsedUpdate(before, i, timer);
          timers[i] := timer;
          timer.handle := i;
          activeCount := activeCount + 1;
          assert timers[..] == before[i := timer];
          return true;
        }
      }
      ok := false;
    }

    /** Clears the one slot the timer's handle names; a second registration stays. */
    method UnregisterTimer(timer: Timer)
      requires Valid()
      modifies this`activeCount, timers, timer`handle
      ensures Valid()
      ensures if old(timer.handle) < MAX_TIMERS && old(timers[..])[old(timer.handle)] == timer
        then timers[..] == old(timers[..])[old(timer.handle) := null] && timer.handle == NO_HANDLE
        else timers[..] == old(timers[..]) && timer.handle == old(timer.handle)
    {
      var h := timer.handle;
      if h < MAX_TIMERS && timers[h] == timer {
        ghost var before := timers[..];
        UsedUpdate(before, h, null);
        timers[h] := null;
        timer.handle := NO_HANDLE;
        activeCount := activeCount - 1;
        assert timers[..] == before[h := null];
      }
    }

    /** Whether the tick in a slot will fire in the next takt, after those in the slots before it. */
    ghost predicate FiresNext(i: nat, deltaMs: u32)
      requires timers.Length == MAX_TIMERS && i < MAX_TIMERS
      reads timers, Members()
    {
      timers[i] != null && Tick(Ticks(timers[i].State(), deltaMs, Slots(timers[..i], timers[i])), deltaMs).1
    }

    /** The tick of one slot, and its callback. */
    method TickSlot(i: nat, deltaMs: u32, bus: EventBus) returns (fired: bool)
      requires timers.Length == MAX_TIMERS && i < MAX_TIMERS && timers[i] != null && bus.Valid()
      modifies timers[i], bus`queueTail, bus`queueCount, bus`trace, bus`subscriberCount, bus.queue, bus.subscriptions
      ensures (timers[i].State(), fired) == Tick(old(timers[i].State()), deltaMs)
      ensures timers[i].firings == old(timers[i].firings) + if fired then 1 else 0
      ensures bus.Valid()
      ensures bus.State() == if fired then EventBusSpec.RunActor(bus.program, old(bus.State()), TimerCallback(i)) else old(bus.State())
    {
      hide EventBus.Valid, EventBus.State, EventBusSpec.RunActor, Tick;
      fired := timers[i].TickTimer(deltaMs);
      if fired {
        bus.RunActor(TimerCallback(i));
      }
    }

    /** The loop body for one slot, if there is a timer in it. */
    method TickNext(i: nat, deltaMs: u32, bus: EventBus, ghost was: map<Timer, TimerState>, ghost count: map<Timer, nat>) returns (fired: bool)
      requires timers.Length == MAX_TIMERS && i < MAX_TIMERS && bus.Valid()
      requires was.Keys == count.Keys == Members() && AllAdvanced(was, count, deltaMs, timers[..i])
      modifies Members(), bus`queueTail, bus`queueCount, bus`trace, bus`subscriberCount, bus.queue, bus.subscriptions
      ensures fired == FiresIn(timers[..], was, i, deltaMs) && AllAdvanced(was, count, deltaMs, timers[..i + 1])
      ensures bus.Valid()
      ensures bus.State() == if fired then EventBusSpec.RunActor(bus.program, old(bus.State()), TimerCallback(i)) else old(bus.State())
    {
      hide EventBus.Valid, EventBus.State, EventBusSpec.RunActor, Tick, Ticks, Fired, Slots, FiresIn, Advanced;
      ghost var slots := timers[..];
      assert slots[..i] == timers[..i] && slots[..i + 1] == timers[..i + 1];
      SlotsStep(slots, i);
      EmptySlotSilent(slots, was, i, deltaMs);
      fired := false;
      if timers[i] != null {
        assert timers[i] in was;
        FiresHere(slots, was, i, deltaMs, timers[i].State());
        NextTick(was[timers[i]], deltaMs, Slots(slots[..i], timers[i]));
        fired := TickSlot(i, deltaMs, bus);
      }
    }

    /**
     * One takt: every timer advances once for each slot it is registered in, and no other timer advances.
     * The callback of a slot runs when the tick in that slot fires, in slot order, and may use the bus.
     */
    method TickAll(deltaMs: u32, bus: EventBus) returns (ghost fires: seq<bool>)
      requires Valid() && bus.Valid()
      modifies Members(), bus`queueTail, bus`queueCount, bus`trace, bus`subscriberCount, bus.queue, bus.subscriptions
      ensures Valid() && timers[..] == old(timers[..])
      ensures forall t | t in Members() :: var n := Slots(timers[..], t);
        t.State() == Ticks(old(t.State()), deltaMs, n) && t.firings == old(t.firings) + Fired(old(t.State()), deltaMs, n)
      ensures |fires| == MAX_TIMERS && forall i | 0 <= i < MAX_TIMERS :: fires[i] == old(FiresNext(i, deltaMs))
      ensures bus.Valid() && bus.State() == TaktSpec.Timers(bus.program, old(bus.State()), fires, MAX_TIMERS)
    {
      hide EventBus.Valid, EventBus.State, Used, Tick, Ticks, Fired, Slots, FiresIn, FireAsTold, AllAdvanced, TaktSpec.Timers;
      ghost var was: map<Timer, TimerState> := map t: Timer | t in Members() :: t.State();
      ghost var count: map<Timer, nat> := map t: Timer | t in Members() :: t.firings;
      NothingTicked(timers[..], was, count, deltaMs);
      fires := TickSlots(deltaMs, bus, was, count);
      AllAdvancedMeans(was, count, deltaMs, timers[..]);
      FiresMeans(fires, timers[..], was, deltaMs);
    }

    /** The loop of tick(), told with the timers' states at the start. */
    method TickSlots(deltaMs: u32, bus: EventBus, ghost was: map<Timer, TimerState>, ghost count: map<Timer, nat>) returns (ghost fires: seq<bool>)
      requires Valid() && bus.Valid()
      requires was.Keys == count.Keys == Members() && AllAdvanced(was, count, deltaMs, timers[..][..0])
      modifies Members(), bus`queueTail, bus`queueCount, bus`trace, bus`subscriberCount, bus.queue, bus.subscriptions
      ensures Valid() && timers[..] == old(timers[..]) && AllAdvanced(was, count, deltaMs, timers[..])
      ensures |fires| == MAX_TIMERS && FireAsTold(fires, timers[..], was, deltaMs)
      ensures bus.Valid() && bus.State() == TaktSpec.Timers(bus.program, old(bus.State()), fires, MAX_TIMERS)
    {
      assert bus.queue.Length == QUEUE_DEPTH;
      hide EventBus.Valid, EventBus.State, Used, Tick, Ticks, Fired, Slots, FiresIn, FireAsTold, AllAdvanced, TaktSpec.Timers;
      ghost var slots, b := timers[..], bus.State();
      fires := [];
      FireAsToldStarts(slots, was, deltaMs);
      TaktSpec.NoTimers(bus.program, b, fires);
      for i := 0 to MAX_TIMERS
        invariant timers[..] == slots && bus.Valid() && AllAdvanced(was, count, deltaMs, slots[..i])
        invariant |fires| == i && FireAsTold(fires, slots, was, deltaMs)
        invariant bus.State() == TaktSpec.Timers(bus.program, b, fires, i)
      {
        assert timers[..i] == slots[..i] && timers[..i + 1] == slots[..i + 1];
        var fired := TickNext(i, deltaMs, bus, was, count);
        TaktSpec.NextTimer(bus.program, b, fires, fired);
        OneMoreFires(fires, slots, was, deltaMs, fired);
        fires := fires + [fired];
      }
      assert slots[..MAX_TIMERS] == slots;
    }
  }

  /** A timer after n ticks of the same takt. */
  ghost predicate Advanced(before: TimerState, after: TimerState, firings: int, deltaMs: u32, n: nat) {
    after == Ticks(before, deltaMs, n) && firings == Fired(before, deltaMs, n)
  }

  /** Every timer is where it gets by one tick for each of the given slots it is in. */
  ghost predicate AllAdvanced(was: map<Timer, TimerState>, count: map<Timer, nat>, deltaMs: u32, slots: seq<Timer?>)
    requires was.Keys == count.Keys
    reads was.Keys
  {
    forall t | t in was :: Advanced(was[t], t.State(), t.firings - count[t], deltaMs, Slots(slots, t))
  }

  /** The tick in slot j fires, after those in the slots before it. */
  ghost predicate FiresIn(slots: seq<Timer?>, was: map<Timer, TimerState>, j: nat, deltaMs: u32)
    requires j < |slots|
  {
    slots[j] != null && slots[j] in was && Tick(Ticks(was[slots[j]], deltaMs, Slots(slots[..j], slots[j])), deltaMs).1
  }

  ghost predicate FireAsTold(fires: seq<bool>, slots: seq<Timer?>, was: map<Timer, TimerState>, deltaMs: u32) {
    |fires| <= |slots| && forall j | 0 <= j < |fires| :: fires[j] == FiresIn(slots, was, j, deltaMs)
  }

  lemma OneMoreFires(fires: seq<bool>, slots: seq<Timer?>, was: map<Timer, TimerState>, deltaMs: u32, fired: bool)
    requires FireAsTold(fires, slots, was, deltaMs) && |fires| < |slots| && fired == FiresIn(slots, was, |fires|, deltaMs)
    ensures FireAsTold(fires + [fired], slots, was, deltaMs)
  {
    hide FiresIn;
  }

  lemma FiresMeans(fires: seq<bool>, slots: seq<Timer?>, was: map<Timer, TimerState>, deltaMs: u32)
    requires FireAsTold(fires, slots, was, deltaMs)
    ensures |fires| <= |slots|
    ensures forall j | 0 <= j < |fires| ::
      fires[j] == (slots[j] != null && slots[j] in was && Tick(Ticks(was[slots[j]], deltaMs, Slots(slots[..j], slots[j])), deltaMs).1)
  {
    hide Tick, Ticks, Slots;
  }

  lemma NothingTicked(slots: seq<Timer?>, was: map<Timer, TimerState>, count: map<Timer, nat>, deltaMs: u32)
    requires was.Keys == count.Keys && forall t | t in was :: t.State() == was[t] && t.firings == count[t]
    ensures AllAdvanced(was, count, deltaMs, slots[..0])
  {}

  lemma FireAsToldStarts(slots: seq<Timer?>, was: map<Timer, TimerState>, deltaMs: u32)
    ensures FireAsTold([], slots, was, deltaMs)
  {}

  lemma AllAdvancedMeans(was: map<Timer, TimerState>, count: map<Timer, nat>, deltaMs: u32, slots: seq<Timer?>)
    requires was.Keys == count.Keys && AllAdvanced(was, count, deltaMs, slots)
    ensures forall t | t in was :: var n := Slots(slots, t);
      t.State() == Ticks(was[t], deltaMs, n) && t.firings == count[t] + Fired(was[t], deltaMs, n)
  {
    hide Ticks, Fired, Slots;
  }

  lemma SlotsStep(slots: seq<Timer?>, i: nat)
    requires i < |slots|
    ensures forall t: Timer :: Slots(slots[..i + 1], t) == Slots(slots[..i], t) + if slots[i] == t then 1 else 0
  {
    assert slots[..i + 1][..i] == slots[..i];
  }

  lemma FiresHere(slots: seq<Timer?>, was: map<Timer, TimerState>, j: nat, deltaMs: u32, now: TimerState)
    requires j < |slots| && slots[j] != null && slots[j] in was
    requires exists firings :: Advanced(was[slots[j]], now, firings, deltaMs, Slots(slots[..j], slots[j]))
    ensures FiresIn(slots, was, j, deltaMs) == Tick(now, deltaMs).1
  {}

  lemma EmptySlotSilent(slots: seq<Timer?>, was: map<Timer, TimerState>, j: nat, deltaMs: u32)
    requires j < |slots|
    ensures slots[j] == null ==> !FiresIn(slots, was, j, deltaMs)
  {}

  lemma NextTick(before: TimerState, deltaMs: u32, n: nat)
    ensures forall after, firings | Advanced(before, after, firings, deltaMs, n) ::
      var (next, fired) := Tick(after, deltaMs);
      Advanced(before, next, firings + if fired then 1 else 0, deltaMs, n + 1)
  {
    OneMoreTick(before, deltaMs, n);
  }

  lemma OneMoreTick(t: TimerState, d: u32, n: nat)
    ensures Ticks(t, d, n + 1) == Tick(Ticks(t, d, n), d).0
    ensures Fired(t, d, n + 1) == Fired(t, d, n) + if Tick(Ticks(t, d, n), d).1 then 1 else 0
  {
    hide Ticks, Fired;
    TicksSum(t, d, n, 1);
    LastTick(Ticks(t, d, n), d);
  }

  /** How many slots hold a timer. */
  ghost function Slots(slots: seq<Timer?>, t: Timer): nat {
    if |slots| == 0 then 0 else Slots(slots[..|slots| - 1], t) + if slots[|slots| - 1] == t then 1 else 0
  }

  /** A timer in one slot is in none before it. */
  lemma {:induction false} OnlySlot(slots: seq<Timer?>, i: nat, t: Timer)
    requires i < |slots| && slots[i] == t && Slots(slots, t) == 1
    ensures Slots(slots[..i], t) == 0
    decreases |slots|
  {
    var n := |slots| - 1;
    if i < n {
      assert slots[..n][i] == t;
      SlotHeld(slots[..n], i, t);
      OnlySlot(slots[..n], i, t);
      assert slots[..n][..i] == slots[..i];
    }
  }

  lemma {:induction false} SlotHeld(slots: seq<Timer?>, i: nat, t: Timer)
    requires i < |slots| && slots[i] == t
    ensures Slots(slots, t) >= 1
    decreases |slots|
  {
    if i < |slots| - 1 {
      SlotHeld(slots[..|slots| - 1], i, t);
    }
  }

  lemma {:induction false} SlotsUpdate(slots: seq<Timer?>, i: nat, x: Timer?, t: Timer)
    requires i < |slots|
    ensures Slots(slots[i := x], t) == Slots(slots, t) + (if x == t then 1 else 0) - (if slots[i] == t then 1 else 0)
    decreases |slots|
  {
    var n := |slots| - 1;
    if i < n {
      SlotsUpdate(slots[..n], i, x, t);
      assert slots[i := x][..n] == slots[..n][i := x];
    } else {
      assert slots[i := x][..n] == slots[..n];
    }
  }

  /**
   * Registering and unregistering are inverse on the number of slots a timer holds.  So a timer registered
   * twice and unregistered once is still ticked.
   */
  lemma RegisteredOnceMore(slots: seq<Timer?>, i: nat, t: Timer)
    requires i < |slots| && slots[i] == null
    ensures Slots(slots[i := t], t) == Slots(slots, t) + 1
    ensures Slots(slots[i := t][i := null], t) == Slots(slots, t)
    ensures forall x: Timer | x != t :: Slots(slots[i := t], x) == Slots(slots, x)
  {
    SlotsUpdate(slots, i, t, t);
    assert slots[i := t][i := null] == slots;
    forall x: Timer | x != t ensures Slots(slots[i := t], x) == Slots(slots, x) {
      SlotsUpdate(slots, i, t, x);
    }
  }

  ghost function Used(slots: seq<Timer?>): nat {
    if |slots| == 0 then 0 else Used(slots[..|slots| - 1]) + if slots[|slots| - 1] != null then 1 else 0
  }

  lemma {:induction false} NoneUsed(slots: seq<Timer?>)
    requires forall i | 0 <= i < |slots| :: slots[i] == null
    ensures Used(slots) == 0
  {
    if |slots| > 0 {
      NoneUsed(slots[..|slots| - 1]);
    }
  }

  /** The count is full exactly when every slot is taken. */
  lemma {:induction false} UsedBounds(slots: seq<Timer?>)
    ensures Used(slots) <= |slots|
    ensures Used(slots) == |slots| <==> forall i | 0 <= i < |slots| :: slots[i] != null
    decreases |slots|
  {
    if |slots| > 0 {
      UsedBounds(slots[..|slots| - 1]);
    }
  }

  lemma {:induction false} UsedUpdate(slots: seq<Timer?>, i: nat, t: Timer?)
    requires i < |slots|
    ensures Used(slots[i := t]) == Used(slots) + (if t != null then 1 else 0) - (if slots[i] != null then 1 else 0)
    decreases |slots|
  {
    var n := |slots| - 1;
    if i < n {
      UsedUpdate(slots[..n], i, t);
      assert slots[i := t][..n] == slots[..n][i := t];
    } else {
      assert slots[i := t][..n] == slots[..n];
    }
  }
}
