/**
 * kernel/src/scheduler.cpp, runTakt as a whole: the timer callbacks, the event queue, the modules and the
 * overrun event, with everything they do on the bus.
 */
module TaktSpec {
  import opened Words
  import opened EventBusSpec
  import S = SchedulerSpec
  import L = SchedulerLifecycle
  import T = TimerSpec
  import Sectors

  const TAKT_OVERRUN: nat := 4

  /** Input of one takt: which timer slots fire, and what the scheduler reads from the clock and from hasWork(). */
  datatype Input = Input(fires: seq<bool>, t: S.Takt, budgetUs: u32)

  datatype Kernel = Kernel(sched: S.Sched, bus: Bus)

  // ---------------------------------------------------------------- the parts of a takt

  /** The callbacks of the timers that fire among the first n slots. */
  function Timers(p: Program, b: Bus, fires: seq<bool>, n: nat): Bus
    requires n <= |fires|
  {
    if n == 0 then b
    else
      var c := Timers(p, b, fires, n - 1);
      if fires[n - 1] then RunActor(p, c, TimerCallback(n - 1)) else c
  }

  lemma {:induction false} TimersPrefix(p: Program, b: Bus, fires: seq<bool>, more: seq<bool>, n: nat)
    requires n <= |fires|
    ensures Timers(p, b, fires + more, n) == Timers(p, b, fires, n)
    decreases n
  {
    hide RunActor;
    if n > 0 {
      TimersPrefix(p, b, fires, more, n - 1);
    }
  }

  lemma {:induction false} NextTimer(p: Program, b: Bus, fires: seq<bool>, fired: bool)
    ensures Timers(p, b, fires + [fired], |fires| + 1)
         == if fired then RunActor(p, Timers(p, b, fires, |fires|), TimerCallback(|fires|)) else Timers(p, b, fires, |fires|)
  {
    hide RunActor;
    TimersPrefix(p, b, fires, [fired], |fires|);
  }

  lemma {:induction false} NoTimers(p: Program, b: Bus, fires: seq<bool>)
    ensures Timers(p, b, fires, 0) == b
  {}

  /** The modules that should run among the first n entries. */
  function Modules(p: Program, b: Bus, entries: seq<S.Entry>, hasWork: seq<bool>, n: nat): Bus
    requires n <= |entries| == |hasWork|
  {
    if n == 0 then b
    else
      var c := Modules(p, b, entries, hasWork, n - 1);
      if S.ShouldRun(entries[n - 1], hasWork[n - 1]) then RunActor(p, c, ModuleTick(n - 1)) else c
  }

  /** A takt that took longer than its budget is published, with the time cut to 32 bits. */
  function Overrun(p: Program, b: Bus, elapsed: nat, budgetUs: u32): Bus {
    if budgetUs > 0 && elapsed > budgetUs
    then Grant(p, b, Publish(EventData(TAKT_OVERRUN, Wrap32(elapsed), budgetUs, [])))
    else b
  }

  /** The bus once the queue has been drained. */
  function Drained(p: Program, b: Bus, fires: seq<bool>): Bus
    requires Ranked(p) && |b.queue| <= QUEUE_DEPTH
  {
    TimersExtend(p, b, fires, |fires|);
    Drain(p, Timers(p, b, fires, |fires|))
  }

  /** The rest of the takt. */
  function Ticked(p: Program, b: Bus, entries: seq<S.Entry>, i: Input): Bus
    requires |i.t.hasWork| == |entries| && i.t.start <= i.t.end
  {
    Overrun(p, Modules(p, b, entries, i.t.hasWork, |entries|), i.t.end - i.t.start, i.budgetUs)
  }

  function RunTakt(p: Program, k: Kernel, i: Input): Kernel
    requires Ranked(p) && |k.bus.queue| <= QUEUE_DEPTH && S.Monotone(i.t, |k.sched.entries|)
  {
    Kernel(S.RunTakt(k.sched, i.t, i.budgetUs), Ticked(p, Drained(p, k.bus, i.fires), k.sched.entries, i))
  }

  // ---------------------------------------------------------------- who runs in a takt

  function Firing(fires: seq<bool>, n: nat): seq<Actor>
    requires n <= |fires|
  {
    if n == 0 then [] else Firing(fires, n - 1) + if fires[n - 1] then [TimerCallback(n - 1)] else []
  }

  function Ticking(entries: seq<S.Entry>, hasWork: seq<bool>, n: nat): seq<Actor>
    requires n <= |entries| == |hasWork|
  {
    if n == 0 then []
    else Ticking(entries, hasWork, n - 1) + if S.ShouldRun(entries[n - 1], hasWork[n - 1]) then [ModuleTick(n - 1)] else []
  }

  lemma {:induction false} TimersExtend(p: Program, b: Bus, fires: seq<bool>, n: nat)
    requires Ranked(p) && |b.queue| <= QUEUE_DEPTH && n <= |fires|
    ensures var c := Timers(p, b, fires, n);
      Extends(b, c) && |c.queue| <= QUEUE_DEPTH && Resumptions(c.trace) == Resumptions(b.trace) + Firing(fires, n)
    decreases n
  {
    hide Ranked, RunActor, Extends, Resumptions;
    if n == 0 {
      ExtendsNothing(b);
      assert Resumptions(b.trace) + Firing(fires, 0) == Resumptions(b.trace);
    } else {
      TimersExtend(p, b, fires, n - 1);
      if fires[n - 1] {
        OneMoreActor(p, b, Timers(p, b, fires, n - 1), Firing(fires, n - 1), TimerCallback(n - 1));
      }
    }
  }

  lemma {:induction false} OneMoreActor(p: Program, b: Bus, c: Bus, ran: seq<Actor>, who: Actor)
    requires Ranked(p) && Extends(b, c) && |c.queue| <= QUEUE_DEPTH && Resumptions(c.trace) == Resumptions(b.trace) + ran
    ensures var d := RunActor(p, c, who);
      Extends(b, d) && |d.queue| <= QUEUE_DEPTH && Resumptions(d.trace) == Resumptions(b.trace) + (ran + [who])
  {
    hide Ranked, RunActor, Extends, Resumptions;
    ActorExtends(p, c, who);
    ExtendsOn(b, c, RunActor(p, c, who));
    ExtendedFits(c, RunActor(p, c, who));
    assert Resumptions(b.trace) + (ran + [who]) == (Resumptions(b.trace) + ran) + [who];
  }

  lemma {:induction false} ModulesExtend(p: Program, b: Bus, entries: seq<S.Entry>, hasWork: seq<bool>, n: nat)
    requires Ranked(p) && |b.queue| <= QUEUE_DEPTH && n <= |entries| == |hasWork|
    ensures var c := Modules(p, b, entries, hasWork, n);
      Extends(b, c) && |c.queue| <= QUEUE_DEPTH && Resumptions(c.trace) == Resumptions(b.trace) + Ticking(entries, hasWork, n)
    decreases n
  {
    hide Ranked, RunActor, Extends, Resumptions, S.ShouldRun;
    if n == 0 {
      ExtendsNothing(b);
      assert Resumptions(b.trace) + Ticking(entries, hasWork, 0) == Resumptions(b.trace);
    } else {
      ModulesExtend(p, b, entries, hasWork, n - 1);
      if S.ShouldRun(entries[n - 1], hasWork[n - 1]) {
        OneMoreActor(p, b, Modules(p, b, entries, hasWork, n - 1), Ticking(entries, hasWork, n - 1), ModuleTick(n - 1));
      }
    }
  }

  lemma {:induction false} TickedExtends(p: Program, b: Bus, entries: seq<S.Entry>, i: Input)
    requires Ranked(p) && |b.queue| <= QUEUE_DEPTH && |i.t.hasWork| == |entries| && i.t.start <= i.t.end
    ensures var c := Ticked(p, b, entries, i);
      && Extends(b, c) && |c.queue| <= QUEUE_DEPTH
      && Resumptions(c.trace) == Resumptions(b.trace) + Ticking(entries, i.t.hasWork, |entries|)
  {
    hide Ranked, Extends, Resumptions, Grant;
    var n, elapsed := |entries|, i.t.end - i.t.start;
    ModulesExtend(p, b, entries, i.t.hasWork, n);
    var c := Modules(p, b, entries, i.t.hasWork, n);
    if i.budgetUs > 0 && elapsed > i.budgetUs {
      var q := Publish(EventData(TAKT_OVERRUN, Wrap32(elapsed), i.budgetUs, []));
      GrantExtends(p, c, q);
      ExtendedFits(c, Grant(p, c, q));
      ExtendsOn(b, c, Grant(p, c, q));
    }
  }

  // ---------------------------------------------------------------- one takt

  /** A queue within its bounds, and every event accepted so far delivered or queued, in order. */
  ghost predicate Sound(p: Program, k: Kernel) {
    Ranked(p) && |k.bus.queue| <= QUEUE_DEPTH && Balanced(k.bus)
  }

  /**
   * One takt.  What was queued when it began is delivered first, in order, with everything that timer
   * callbacks and subscribers add; then nothing is delivered any more, and what the modules queue waits.
   * The timer callbacks run in slot order, then the modules in registration order.
   */
  lemma {:induction false} TaktDelivers(p: Program, k: Kernel, i: Input)
    requires Sound(p, k) && S.Monotone(i.t, |k.sched.entries|)
    ensures var d := Drained(p, k.bus, i.fires); var e := RunTakt(p, k, i).bus;
      && Sound(p, RunTakt(p, k, i))
      && d.queue == [] && Out(d.trace) == Taken(d.trace)
      && Out(k.bus.trace) + k.bus.queue <= Out(d.trace)
      && Out(e.trace) == Out(d.trace) && Taken(e.trace) == Taken(d.trace) + e.queue
      && Resumptions(e.trace)
         == Resumptions(k.bus.trace) + Firing(i.fires, |i.fires|) + Ticking(k.sched.entries, i.t.hasWork, |k.sched.entries|)
  {
    hide Ranked, Drain, Taken, Out, Resumptions, Timers, Ticked, Firing, Ticking, S.RunTakt, S.Monotone;
    MonotoneShape(i.t, |k.sched.entries|);
    var b := Timers(p, k.bus, i.fires, |i.fires|);
    var d := Drained(p, k.bus, i.fires);
    TimersExtend(p, k.bus, i.fires, |i.fires|);
    ExtendedFits(k.bus, b);
    DrainIsFifo(p, b);
    DrainResumesNobody(p, b);
    assert Taken(k.bus.trace) <= Taken(b.trace) <= Taken(d.trace);
    TickedExtends(p, d, k.sched.entries, i);
    ExtendedFits(d, Ticked(p, d, k.sched.entries, i));
  }

  /** A takt that took longer than its budget raises event 4 with its time, cut to 32 bits, and its budget. */
  lemma OverrunAnnounced(p: Program, k: Kernel, i: Input)
    requires Sound(p, k) && S.Monotone(i.t, |k.sched.entries|) && i.budgetUs > 0 && i.t.end - i.t.start > i.budgetUs
    ensures var e := RunTakt(p, k, i).bus;
      exists n :: |k.bus.trace| <= n < |e.trace| && e.trace[n] == Raised(EventData(4, (i.t.end - i.t.start) % 0x1_0000_0000, i.budgetUs, []))
  {
    hide Ranked, Timers, Modules, Drain, Balanced, DispatchFrom, Extends, Faithful;
    var n := |k.sched.entries|;
    var d := Drained(p, k.bus, i.fires);
    var m := Modules(p, d, k.sched.entries, i.t.hasWork, n);
    var x := EventData(4, (i.t.end - i.t.start) % 0x1_0000_0000, i.budgetUs, []);
    TaktFaithful(p, k, i);
    BeforeOverrun(p, k, i);
    DispatchFaithful(p, m.Noting(Raised(x)), x, 0);
    FaithfulPrefix(m.Noting(Raised(x)), RunTakt(p, k, i).bus);
    assert RunTakt(p, k, i).bus.trace[|m.trace|] == m.Noting(Raised(x)).trace[|m.trace|];
  }

  /** And only such a takt: an idle kernel's bus has no new history exactly when the takt kept its budget or has none. */
  lemma {:induction false} IdleTaktIff(p: Program, k: Kernel, i: Input)
    requires Sound(p, k) && S.Monotone(i.t, |k.sched.entries|)
    requires |k.sched.entries| == 0 && k.bus.queue == [] && forall j | 0 <= j < |i.fires| :: !i.fires[j]
    ensures RunTakt(p, k, i).bus.trace == k.bus.trace <==> i.budgetUs == 0 || i.t.end - i.t.start <= i.budgetUs
  {
    hide Ranked, DispatchFrom, Balanced, Faithful, RunActor;
    NobodyFires(p, k.bus, i.fires, |i.fires|);
    assert Drained(p, k.bus, i.fires) == k.bus;
    if i.budgetUs > 0 && i.t.end - i.t.start > i.budgetUs {
      OverrunAnnounced(p, k, i);
    }
  }

  lemma {:induction false} NobodyFires(p: Program, b: Bus, fires: seq<bool>, n: nat)
    requires n <= |fires| && forall j | 0 <= j < n :: !fires[j]
    ensures Timers(p, b, fires, n) == b
    decreases n
  {
    hide RunActor;
    if n > 0 {
      NobodyFires(p, b, fires, n - 1);
    }
  }

  lemma BeforeOverrun(p: Program, k: Kernel, i: Input)
    requires Sound(p, k) && S.Monotone(i.t, |k.sched.entries|)
    ensures k.bus.trace <= Modules(p, Drained(p, k.bus, i.fires), k.sched.entries, i.t.hasWork, |k.sched.entries|).trace
  {
    hide Ranked, Timers, Modules, Drain, Balanced, Faithful;
    var b := Timers(p, k.bus, i.fires, |i.fires|);
    var d := Drained(p, k.bus, i.fires);
    TimersFaithful(p, k.bus, i.fires, |i.fires|);
    TimersExtend(p, k.bus, i.fires, |i.fires|);
    DrainFaithful(p, b);
    ModulesFaithful(p, d, k.sched.entries, i.t.hasWork, |k.sched.entries|);
    FaithfulPrefix(k.bus, b);
    FaithfulPrefix(b, d);
    FaithfulPrefix(d, Modules(p, d, k.sched.entries, i.t.hasWork, |k.sched.entries|));
  }

  lemma MonotoneShape(t: S.Takt, n: nat)
    requires S.Monotone(t, n)
    ensures |t.hasWork| == n && t.start <= t.end
  {}

  // ---------------------------------------------------------------- any number of takts, and what happens between them

  /** A takt, a call on the scheduler's table, or a request to the bus by code that runs between takts. */
  datatype Step = TaktStep(i: Input) | TableStep(c: S.Call) | BusStep(q: Request)

  ghost predicate StepFits(k: Kernel, step: Step) {
    match step
    case TaktStep(i) => S.Monotone(i.t, |k.sched.entries|)
    case TableStep(c) => !c.TaktCall? && S.Fits(k.sched, c)
    case BusStep(q) => true
  }

  function DoStep(p: Program, k: Kernel, step: Step): Kernel
    requires Sound(p, k) && StepFits(k, step)
  {
    match step
    case TaktStep(i) => RunTakt(p, k, i)
    case TableStep(c) => k.(sched := S.Step(k.sched, c))
    case BusStep(q) => k.(bus := Grant(p, k.bus, q))
  }

  /** Every step keeps the queue in bounds and the balance of accepted and delivered events; the order of deliveries never changes. */
  lemma {:induction false} StepKeepsSound(p: Program, k: Kernel, step: Step)
    requires Sound(p, k) && StepFits(k, step)
    ensures var r := DoStep(p, k, step);
      Sound(p, r) && Out(k.bus.trace) <= Out(r.bus.trace) && Taken(k.bus.trace) <= Taken(r.bus.trace)
  {
    hide Ranked, RunTakt, Grant, Taken, Out, Resumptions, Firing, Ticking, Drained;
    match step
    case TaktStep(i) =>
      TaktDelivers(p, k, i);
      assert Taken(k.bus.trace) <= Out(RunTakt(p, k, i).bus.trace);
    case TableStep(c) =>
    case BusStep(q) =>
      GrantExtends(p, k.bus, q);
      ExtendedFits(k.bus, Grant(p, k.bus, q));
  }

  ghost predicate AllFit(p: Program, k: Kernel, steps: seq<Step>)
    requires Sound(p, k)
    decreases |steps|
  {
    |steps| == 0 ||
    (StepFits(k, steps[0]) && (StepKeepsSound(p, k, steps[0]); AllFit(p, DoStep(p, k, steps[0]), steps[1..])))
  }

  ghost function Run(p: Program, k: Kernel, steps: seq<Step>): (r: Kernel)
    requires Sound(p, k) && AllFit(p, k, steps)
    ensures Sound(p, r)
    decreases |steps|
  {
    if |steps| == 0 then k
    else
      StepKeepsSound(p, k, steps[0]);
      Run(p, DoStep(p, k, steps[0]), steps[1..])
  }

  lemma {:induction false} RunOnward(p: Program, k: Kernel, steps: seq<Step>, next: Step)
    requires Sound(p, k) && AllFit(p, k, steps) && StepFits(Run(p, k, steps), next)
    ensures AllFit(p, k, steps + [next]) && Run(p, k, steps + [next]) == DoStep(p, Run(p, k, steps), next)
    decreases |steps|
  {
    hide Sound, DoStep, StepFits;
    StepKeepsSound(p, Run(p, k, steps), next);
    if |steps| == 0 {
      assert steps + [next] == [next] && [next][1..] == [];
    } else {
      StepKeepsSound(p, k, steps[0]);
      RunOnward(p, DoStep(p, k, steps[0]), steps[1..], next);
      assert (steps + [next])[1..] == steps[1..] + [next];
    }
  }

  /**
   * No event waits longer than one takt.  In every state that any run reaches, whatever timers, modules,
   * subscribers and the code between takts do: after one more takt everything that was accepted before it
   * has been delivered, exactly once and in the order of acceptance, and what it accepted after its own
   * deliveries is exactly what is queued.
   */
  lemma {:induction false} DeliveredByNextTakt(p: Program, k: Kernel, steps: seq<Step>, i: Input)
    requires Sound(p, k) && AllFit(p, k, steps) && S.Monotone(i.t, |Run(p, k, steps).sched.entries|)
    ensures var a := Run(p, k, steps); var b := RunTakt(p, a, i);
      && Out(k.bus.trace) <= Out(a.bus.trace)
      && Taken(a.bus.trace) <= Out(b.bus.trace)
      && Out(b.bus.trace) + b.bus.queue == Taken(b.bus.trace)
  {
    hide Ranked, Taken, Out, Resumptions, RunTakt, Firing, Ticking, Drained;
    RunKeepsOrder(p, k, steps);
    TaktDelivers(p, Run(p, k, steps), i);
  }

  lemma {:induction false} RunKeepsOrder(p: Program, k: Kernel, steps: seq<Step>)
    requires Sound(p, k) && AllFit(p, k, steps)
    ensures Out(k.bus.trace) <= Out(Run(p, k, steps).bus.trace) && Taken(k.bus.trace) <= Taken(Run(p, k, steps).bus.trace)
    decreases |steps|
  {
    hide Sound, DoStep, StepFits, Taken, Out;
    if |steps| > 0 {
      StepKeepsSound(p, k, steps[0]);
      RunKeepsOrder(p, DoStep(p, k, steps[0]), steps[1..]);
    }
  }

  // ---------------------------------------------------------------- the scheduler in the kernel

  /** The calls the scheduler sees. */
  function Calls(steps: seq<Step>): seq<S.Call>
    decreases |steps|
  {
    if |steps| == 0 then []
    else
      (match steps[0]
       case TaktStep(i) => [S.TaktCall(i.t, i.budgetUs)]
       case TableStep(c) => [c]
       case BusStep(q) => [])
      + Calls(steps[1..])
  }

  /** Whatever happens on the bus, the scheduler does what it would do alone. */
  lemma {:induction false} SchedulerAlone(p: Program, k: Kernel, steps: seq<Step>)
    requires Sound(p, k) && AllFit(p, k, steps)
    ensures S.AllFit(k.sched, Calls(steps)) && S.Run(k.sched, Calls(steps)) == Run(p, k, steps).sched
    decreases |steps|
  {
    hide Sound, S.RunTakt, Ticked, Drained, S.Monotone;
    if |steps| > 0 {
      StepKeepsSound(p, k, steps[0]);
      SchedulerAlone(p, DoStep(p, k, steps[0]), steps[1..]);
      match steps[0]
      case TaktStep(i) => CallsFrom(S.TaktCall(i.t, i.budgetUs), Calls(steps[1..]));
      case TableStep(c) => CallsFrom(c, Calls(steps[1..]));
      case BusStep(q) => assert Calls(steps) == Calls(steps[1..]);
    }
  }

  lemma CallsFrom(c: S.Call, calls: seq<S.Call>)
    ensures ([c] + calls)[0] == c && ([c] + calls)[1..] == calls
  {}

  /** The entries of the modules that ran, according to the bus. */
  function ModulesRun(ran: seq<Actor>): seq<nat> {
    if |ran| == 0 then []
    else ModulesRun(ran[..|ran| - 1]) + if ran[|ran| - 1].ModuleTick? then [ran[|ran| - 1].entry] else []
  }

  /** The entries of the modules that were ticked, according to the scheduler's history. */
  function TicksIn(history: seq<S.Action>): seq<nat> {
    if |history| == 0 then []
    else TicksIn(history[..|history| - 1]) + if history[|history| - 1].Tick? then [history[|history| - 1].entry] else []
  }

  lemma {:induction false} ModulesRunSum(a: seq<Actor>, b: seq<Actor>)
    ensures ModulesRun(a + b) == ModulesRun(a) + ModulesRun(b)
    decreases |b|
  {
    if |b| == 0 {
      assert a + b == a;
    } else {
      ModulesRunSum(a, b[..|b| - 1]);
      assert (a + b)[..|a + b| - 1] == a + b[..|b| - 1];
    }
  }

  lemma {:induction false} TicksInSum(a: seq<S.Action>, b: seq<S.Action>)
    ensures TicksIn(a + b) == TicksIn(a) + TicksIn(b)
    decreases |b|
  {
    if |b| == 0 {
      assert a + b == a;
    } else {
      TicksInSum(a, b[..|b| - 1]);
      assert (a + b)[..|a + b| - 1] == a + b[..|b| - 1];
    }
  }

  lemma {:induction false} FiringNoModules(fires: seq<bool>, n: nat)
    requires n <= |fires|
    ensures ModulesRun(Firing(fires, n)) == []
    decreases n
  {
    hide ModulesRun;
    NoModuleRun(TimerCallback(0));
    if n > 0 {
      FiringNoModules(fires, n - 1);
      ModulesRunSum(Firing(fires, n - 1), if fires[n - 1] then [TimerCallback(n - 1)] else []);
      NoModuleRun(TimerCallback(n - 1));
    }
  }

  lemma NoModuleRun(x: Actor)
    ensures ModulesRun([]) == [] && ModulesRun([x]) == if x.ModuleTick? then [x.entry] else []
  {
    assert [x][..0] == [];
  }

  lemma NoTicksIn(x: S.Action)
    ensures TicksIn([]) == [] && TicksIn([x]) == if x.Tick? then [x.entry] else []
  {
    assert [x][..0] == [];
  }

  lemma {:induction false} TickingMatches(entries: seq<S.Entry>, hasWork: seq<bool>, n: nat)
    requires n <= |entries| == |hasWork|
    ensures ModulesRun(Ticking(entries, hasWork, n)) == TicksIn(S.TickCalls(entries, hasWork, n))
    decreases n
  {
    hide ModulesRun, TicksIn, S.ShouldRun;
    NoModuleRun(ModuleTick(0));
    NoTicksIn(S.Tick(0, 0));
    if n > 0 {
      var run, x, a := S.ShouldRun(entries[n - 1], hasWork[n - 1]), ModuleTick(n - 1), S.Tick(n - 1, entries[n - 1].m.id);
      TickingMatches(entries, hasWork, n - 1);
      ModulesRunSum(Ticking(entries, hasWork, n - 1), if run then [x] else []);
      TicksInSum(S.TickCalls(entries, hasWork, n - 1), if run then [a] else []);
      NoModuleRun(x);
      NoTicksIn(a);
    }
  }

  lemma {:induction false} InitCallsNoTicks(entries: seq<S.Entry>, oks: seq<bool>, n: nat)
    requires n <= |entries| == |oks|
    ensures TicksIn(S.InitCalls(entries, oks, n)) == []
    decreases n
  {
    hide TicksIn;
    NoTicksIn(S.Tick(0, 0));
    if n > 0 {
      var a := S.Init(n - 1, entries[n - 1].m.id, oks[n - 1]);
      InitCallsNoTicks(entries, oks, n - 1);
      TicksInSum(S.InitCalls(entries, oks, n - 1), if entries[n - 1].active then [a] else []);
      NoTicksIn(a);
    }
  }

  lemma {:induction false} StopCallsNoTicks(entries: seq<S.Entry>, n: nat)
    requires n <= |entries|
    ensures TicksIn(S.StopCalls(entries, n)) == []
    decreases n
  {
    hide TicksIn;
    NoTicksIn(S.Tick(0, 0));
    if n > 0 {
      var a := S.Stop(n - 1, entries[n - 1].m.id);
      StopCallsNoTicks(entries, n - 1);
      TicksInSum(S.StopCalls(entries, n - 1), if entries[n - 1].active then [a] else []);
      NoTicksIn(a);
    }
  }

  /** The bus and the scheduler agree on which modules ran, and in which order. */
  ghost predicate Agreed(k: Kernel) { ModulesRun(Resumptions(k.bus.trace)) == TicksIn(k.sched.history) }

  lemma {:induction false} TableKeepsAgreed(s: S.Sched, c: S.Call)
    requires S.Fits(s, c) && !c.TaktCall?
    ensures TicksIn(S.Step(s, c).history) == TicksIn(s.history)
  {
    hide TicksIn, S.InitCalls, S.StopCalls;
    match c
    case RegisterCall(m) =>
    case UnregisterCall(id) =>
      if id < |s.entries| {
        TicksInSum(s.history, [S.Stop(id, s.entries[id].m.id)]);
        NoTicksIn(S.Stop(id, s.entries[id].m.id));
      }
    case InitCall(oks) =>
      InitCallsNoTicks(s.entries, oks, |s.entries|);
      TicksInSum(s.history, S.InitCalls(s.entries, oks, |s.entries|));
    case ShutdownCall =>
      StopCallsNoTicks(s.entries, |s.entries|);
      TicksInSum(s.history, S.StopCalls(s.entries, |s.entries|));
  }

  lemma {:induction false} TaktKeepsAgreed(p: Program, k: Kernel, i: Input)
    requires Sound(p, k) && S.Monotone(i.t, |k.sched.entries|) && Agreed(k)
    ensures Agreed(RunTakt(p, k, i))
  {
    hide Ranked, Drained, Taken, Out, Resumptions, Ticked, Firing, Ticking, ModulesRun, TicksIn, S.TickCalls;
    var n := |k.sched.entries|;
    var ran, firing, ticking := Resumptions(k.bus.trace), Firing(i.fires, |i.fires|), Ticking(k.sched.entries, i.t.hasWork, n);
    TaktDelivers(p, k, i);
    ModulesRunSum(ran + firing, ticking);
    ModulesRunSum(ran, firing);
    FiringNoModules(i.fires, |i.fires|);
    TickingMatches(k.sched.entries, i.t.hasWork, n);
    TicksInSum(k.sched.history, S.TickCalls(k.sched.entries, i.t.hasWork, n));
  }

  lemma {:induction false} RunKeepsAgreed(p: Program, k: Kernel, steps: seq<Step>)
    requires Sound(p, k) && AllFit(p, k, steps) && Agreed(k)
    ensures Agreed(Run(p, k, steps))
    decreases |steps|
  {
    hide Sound, RunTakt, Grant, S.Step, ModulesRun, TicksIn, Resumptions;
    if |steps| > 0 {
      StepKeepsSound(p, k, steps[0]);
      match steps[0] {
        case TaktStep(i) => TaktKeepsAgreed(p, k, i);
        case TableStep(c) => TableKeepsAgreed(k.sched, c);
        case BusStep(q) => GrantResumesNobody(p, k, q);
      }
      RunKeepsAgreed(p, DoStep(p, k, steps[0]), steps[1..]);
    }
  }

  lemma {:induction false} GrantResumesNobody(p: Program, k: Kernel, q: Request)
    requires Sound(p, k)
    ensures Resumptions(Grant(p, k.bus, q).trace) == Resumptions(k.bus.trace)
  {
    hide Ranked, Taken, Out, Resumptions, Grant;
    GrantExtends(p, k.bus, q);
  }

  // ---------------------------------------------------------------- the right ones are called

  lemma {:induction false} TimersFaithful(p: Program, b: Bus, fires: seq<bool>, n: nat)
    requires n <= |fires|
    ensures Faithful(b, Timers(p, b, fires, n))
    decreases n
  {
    hide Faithful, RunActor;
    FaithfulNothing(b);
    if n > 0 {
      var c := Timers(p, b, fires, n - 1);
      TimersFaithful(p, b, fires, n - 1);
      ActorFaithful(p, c, TimerCallback(n - 1));
      if fires[n - 1] {
        FaithfulOn(b, c, RunActor(p, c, TimerCallback(n - 1)));
      }
    }
  }

  lemma {:induction false} ModulesFaithful(p: Program, b: Bus, entries: seq<S.Entry>, hasWork: seq<bool>, n: nat)
    requires n <= |entries| == |hasWork|
    ensures Faithful(b, Modules(p, b, entries, hasWork, n))
    decreases n
  {
    hide Faithful, RunActor, S.ShouldRun;
    FaithfulNothing(b);
    if n > 0 {
      var c := Modules(p, b, entries, hasWork, n - 1);
      ModulesFaithful(p, b, entries, hasWork, n - 1);
      ActorFaithful(p, c, ModuleTick(n - 1));
      if S.ShouldRun(entries[n - 1], hasWork[n - 1]) {
        FaithfulOn(b, c, RunActor(p, c, ModuleTick(n - 1)));
      }
    }
  }

  lemma {:induction false} TaktFaithful(p: Program, k: Kernel, i: Input)
    requires Sound(p, k) && S.Monotone(i.t, |k.sched.entries|)
    ensures Faithful(k.bus, RunTakt(p, k, i).bus)
  {
    hide Ranked, Faithful, Timers, Modules, Drain, Grant, Balanced;
    var n := |k.sched.entries|;
    var b := Timers(p, k.bus, i.fires, |i.fires|);
    var d := Drained(p, k.bus, i.fires);
    var m := Modules(p, d, k.sched.entries, i.t.hasWork, n);
    TimersFaithful(p, k.bus, i.fires, |i.fires|);
    TimersExtend(p, k.bus, i.fires, |i.fires|);
    DrainFaithful(p, b);
    FaithfulOn(k.bus, b, d);
    ModulesFaithful(p, d, k.sched.entries, i.t.hasWork, n);
    FaithfulOn(k.bus, d, m);
    FaithfulNothing(m);
    GrantFaithful(p, m, Publish(EventData(TAKT_OVERRUN, Wrap32(i.t.end - i.t.start), i.budgetUs, [])));
    FaithfulOn(k.bus, m, Ticked(p, d, k.sched.entries, i));
  }

  /** Over every run each call of a subscriber was of a slot that at that moment was subscribed to that event. */
  lemma {:induction false} RunFaithful(p: Program, k: Kernel, steps: seq<Step>)
    requires Sound(p, k) && AllFit(p, k, steps)
    ensures Faithful(k.bus, Run(p, k, steps).bus)
    decreases |steps|
  {
    hide Sound, Faithful, RunTakt, Grant;
    FaithfulNothing(k.bus);
    if |steps| > 0 {
      var next := DoStep(p, k, steps[0]);
      StepKeepsSound(p, k, steps[0]);
      match steps[0] {
        case TaktStep(i) => TaktFaithful(p, k, i);
        case TableStep(c) =>
        case BusStep(q) => GrantFaithful(p, k.bus, q);
      }
      RunFaithful(p, next, steps[1..]);
      FaithfulOn(k.bus, next.bus, Run(p, next, steps[1..]).bus);
    }
  }

  /** Power-on: nothing registered, nothing queued, nobody ran. */
  function PowerOn(subs: seq<Subscription>): Kernel { Kernel(S.BLANK, Bus(subs, [], [])) }

  lemma PowerOnSound(p: Program, subs: seq<Subscription>)
    requires Ranked(p)
    ensures Sound(p, PowerOn(subs)) && Agreed(PowerOn(subs))
  {
    hide Ranked;
  }

  /**
   * The whole kernel.  Over every run from power-on, with takts, table calls and bus requests in any order
   * and no module object registered twice: the modules whose tick() really ran are those of the scheduler's
   * history, in its order, each was initialized successfully before and not shut down since, and the next
   * takt delivers every event accepted so far.
   */
  lemma KernelPromise(p: Program, subs: seq<Subscription>, steps: seq<Step>, i: Input)
    requires Ranked(p) && Sound(p, PowerOn(subs)) && AllFit(p, PowerOn(subs), steps)
    requires S.AllFit(S.BLANK, Calls(steps)) && L.RegistersOnce(S.BLANK, Calls(steps))
    requires S.Monotone(i.t, |Run(p, PowerOn(subs), steps).sched.entries|)
    ensures var r := Run(p, PowerOn(subs), steps); var h := r.sched.history;
      && Faithful(PowerOn(subs).bus, r.bus)
      && ModulesRun(Resumptions(r.bus.trace)) == TicksIn(h)
      && (forall n | 0 <= n < |h| && h[n].Tick? :: L.Live(h[..n], h[n].id))
      && Taken(r.bus.trace) <= Out(RunTakt(p, r, i).bus.trace)
  {
    hide Ranked, Sound, AllFit, Run, RunTakt, Taken, Out, Resumptions, ModulesRun, TicksIn, Faithful, L.Live, L.RegistersOnce, S.Run, S.AllFit;
    PowerOnSound(p, subs);
    SchedulerAlone(p, PowerOn(subs), steps);
    RunFaithful(p, PowerOn(subs), steps);
    RunKeepsAgreed(p, PowerOn(subs), steps);
    var h := Run(p, PowerOn(subs), steps).sched.history;
    forall n | 0 <= n < |h| && h[n].Tick? ensures L.Live(h[..n], h[n].id) {
      L.TicksOnlyLiveModules(Calls(steps), n);
    }
    DeliveredByNextTakt(p, PowerOn(subs), steps, i);
  }

  // ---------------------------------------------------------------- how often things run

  /** How often a timer callback or a module has run so far. */
  function Runs(b: Bus, who: Actor): nat { Count(Resumptions(b.trace), who) }

  function Count(ran: seq<Actor>, who: Actor): nat {
    if |ran| == 0 then 0 else Count(ran[..|ran| - 1], who) + if ran[|ran| - 1] == who then 1 else 0
  }

  lemma {:induction false} CountSum(a: seq<Actor>, b: seq<Actor>, who: Actor)
    ensures Count(a + b, who) == Count(a, who) + Count(b, who)
    decreases |b|
  {
    if |b| == 0 {
      assert a + b == a;
    } else {
      CountSum(a, b[..|b| - 1], who);
      assert (a + b)[..|a + b| - 1] == a + b[..|b| - 1];
    }
  }

  lemma CountOne(x: Actor, who: Actor)
    ensures Count([x], who) == (if x == who then 1 else 0) && Count([], who) == 0
  {
    assert [x][..0] == [];
  }

  lemma {:induction false} FiringCount(fires: seq<bool>, n: nat, who: Actor)
    requires n <= |fires|
    ensures Count(Firing(fires, n), who) == if who.TimerCallback? && who.slot < n && fires[who.slot] then 1 else 0
    decreases n
  {
    hide Count;
    CountOne(who, who);
    if n > 0 {
      var x := TimerCallback(n - 1);
      FiringCount(fires, n - 1, who);
      CountSum(Firing(fires, n - 1), if fires[n - 1] then [x] else [], who);
      CountOne(x, who);
    }
  }

  lemma {:induction false} TickingCount(entries: seq<S.Entry>, hasWork: seq<bool>, n: nat, who: Actor)
    requires n <= |entries| == |hasWork|
    ensures Count(Ticking(entries, hasWork, n), who)
         == if who.ModuleTick? && who.entry < n && S.ShouldRun(entries[who.entry], hasWork[who.entry]) then 1 else 0
    decreases n
  {
    hide S.ShouldRun, Count;
    CountOne(who, who);
    if n > 0 {
      var x := ModuleTick(n - 1);
      TickingCount(entries, hasWork, n - 1, who);
      CountSum(Ticking(entries, hasWork, n - 1), if S.ShouldRun(entries[n - 1], hasWork[n - 1]) then [x] else [], who);
      CountOne(x, who);
    }
  }

  lemma {:induction false} TaktCounts(p: Program, k: Kernel, i: Input, who: Actor)
    requires Sound(p, k) && S.Monotone(i.t, |k.sched.entries|)
    ensures var n := Runs(RunTakt(p, k, i).bus, who) - Runs(k.bus, who);
      n == match who
        case TimerCallback(slot) => if slot < |i.fires| && i.fires[slot] then 1 else 0
        case ModuleTick(entry) =>
          if entry < |k.sched.entries| then RunTakt(p, k, i).sched.entries[entry].stats.tickCount - k.sched.entries[entry].stats.tickCount else 0
  {
    hide Ranked, Drained, Taken, Out, Resumptions, Ticked, Firing, Ticking, Count;
    var ran, firing, ticking := Resumptions(k.bus.trace), Firing(i.fires, |i.fires|), Ticking(k.sched.entries, i.t.hasWork, |k.sched.entries|);
    TaktDelivers(p, k, i);
    FiringCount(i.fires, |i.fires|, who);
    TickingCount(k.sched.entries, i.t.hasWork, |k.sched.entries|, who);
    CountSum(ran + firing, ticking, who);
    CountSum(ran, firing, who);
  }

  /** The tick counters of the scheduler's table count the ticks that really ran. */
  ghost predicate CountersTell(k: Kernel) {
    forall entry: nat :: Runs(k.bus, ModuleTick(entry)) == if entry < |k.sched.entries| then k.sched.entries[entry].stats.tickCount else 0
  }

  lemma {:induction false} StepKeepsCounters(p: Program, k: Kernel, step: Step)
    requires Sound(p, k) && StepFits(k, step) && CountersTell(k)
    ensures CountersTell(DoStep(p, k, step))
  {
    hide Sound, Runs, RunTakt, Grant, S.Monotone;
    var r := DoStep(p, k, step);
    forall entry: nat
      ensures Runs(r.bus, ModuleTick(entry)) == if entry < |r.sched.entries| then r.sched.entries[entry].stats.tickCount else 0
    {
      assert Runs(k.bus, ModuleTick(entry)) == if entry < |k.sched.entries| then k.sched.entries[entry].stats.tickCount else 0;
      match step
      case TaktStep(i) =>
        TaktCounts(p, k, i, ModuleTick(entry));
        TaktKeepsTable(p, k, i);
      case TableStep(c) =>
      case BusStep(q) =>
        GrantResumesNobody(p, k, q);
        RunsAlike(k.bus, Grant(p, k.bus, q), ModuleTick(entry));
    }
  }

  lemma TaktKeepsTable(p: Program, k: Kernel, i: Input)
    requires Sound(p, k) && S.Monotone(i.t, |k.sched.entries|)
    ensures |RunTakt(p, k, i).sched.entries| == |k.sched.entries|
  {}

  lemma RunsAlike(b: Bus, c: Bus, who: Actor)
    requires Resumptions(c.trace) == Resumptions(b.trace)
    ensures Runs(c, who) == Runs(b, who)
  {}

  lemma {:induction false} RunKeepsCounters(p: Program, k: Kernel, steps: seq<Step>)
    requires Sound(p, k) && AllFit(p, k, steps) && CountersTell(k)
    ensures CountersTell(Run(p, k, steps))
    decreases |steps|
  {
    hide Sound, DoStep, StepFits, CountersTell;
    if |steps| > 0 {
      StepKeepsSound(p, k, steps[0]);
      StepKeepsCounters(p, k, steps[0]);
      RunKeepsCounters(p, DoStep(p, k, steps[0]), steps[1..]);
    }
  }

  /** Over every run from power-on, entries registered on the way included. */
  lemma TickCountersTell(p: Program, subs: seq<Subscription>, steps: seq<Step>, entry: nat)
    requires Ranked(p) && Sound(p, PowerOn(subs)) && AllFit(p, PowerOn(subs), steps)
    ensures var r := Run(p, PowerOn(subs), steps);
      Runs(r.bus, ModuleTick(entry)) == if entry < |r.sched.entries| then r.sched.entries[entry].stats.tickCount else 0
  {
    hide Ranked, Sound, AllFit, Run;
    assert CountersTell(PowerOn(subs));
    RunKeepsCounters(p, PowerOn(subs), steps);
  }

  // ---------------------------------------------------------------- timers in the kernel

  /** The takts of a run. */
  function Takts(steps: seq<Step>): seq<Input>
    decreases |steps|
  {
    if |steps| == 0 then [] else (if steps[0].TaktStep? then [steps[0].i] else []) + Takts(steps[1..])
  }

  /** A slot fires in each takt as the timer in it does, ticked once per takt by d milliseconds. */
  ghost predicate FiresLike(inputs: seq<Input>, slot: nat, timer: T.TimerState, d: u32) {
    forall j | 0 <= j < |inputs| :: slot < |inputs[j].fires| && inputs[j].fires[slot] == T.Tick(T.Ticks(timer, d, j), d).1
  }

  lemma FiresLikeRest(inputs: seq<Input>, slot: nat, timer: T.TimerState, d: u32)
    requires |inputs| > 0 && FiresLike(inputs, slot, timer, d)
    ensures slot < |inputs[0].fires| && inputs[0].fires[slot] == T.Tick(timer, d).1
    ensures FiresLike(inputs[1..], slot, T.Tick(timer, d).0, d)
  {
    hide T.Tick;
    forall j | 0 <= j < |inputs| - 1
      ensures slot < |inputs[1..][j].fires| && inputs[1..][j].fires[slot] == T.Tick(T.Ticks(T.Tick(timer, d).0, d, j), d).1
    {
      assert inputs[1..][j] == inputs[j + 1];
      assert T.Ticks(timer, d, j + 1) == T.Ticks(T.Tick(timer, d).0, d, j);
    }
    assert T.Ticks(timer, d, 0) == timer;
  }

  lemma FiresLikeMore(inputs: seq<Input>, i: Input, slot: nat, timer: T.TimerState, d: u32)
    requires FiresLike(inputs, slot, timer, d)
    requires slot < |i.fires| && i.fires[slot] == T.Tick(T.Ticks(timer, d, |inputs|), d).1
    ensures FiresLike(inputs + [i], slot, timer, d)
  {
    hide T.Tick, T.Ticks;
  }

  lemma {:induction false} TaktsOnward(steps: seq<Step>, i: Input)
    ensures Takts(steps + [TaktStep(i)]) == Takts(steps) + [i]
    decreases |steps|
  {
    var more := steps + [TaktStep(i)];
    if |steps| == 0 {
      assert more[1..] == [];
      assert Takts(more) == [i] + Takts([]);
    } else {
      TaktsOnward(steps[1..], i);
      assert more[1..] == steps[1..] + [TaktStep(i)];
    }
  }

  lemma FiredFirst(timer: T.TimerState, d: u32, n: nat)
    ensures T.Fired(timer, d, 0) == 0
    ensures T.Fired(timer, d, n + 1) == (if T.Tick(timer, d).1 then 1 else 0) + T.Fired(T.Tick(timer, d).0, d, n)
  {}

  lemma FirstOf(i: Input, inputs: seq<Input>)
    ensures ([i] + inputs)[0] == i && ([i] + inputs)[1..] == inputs
  {}

  /**
   * Over every run, whatever else happens, the callback of a slot whose flags are the timer's firings runs as
   * often as the timer alone would fire.  The scheduler in place produces such flags.
   */
  lemma {:induction false} TimerCallbacksKeepTime(p: Program, k: Kernel, steps: seq<Step>, slot: nat, timer: T.TimerState, d: u32)
    requires Sound(p, k) && AllFit(p, k, steps) && FiresLike(Takts(steps), slot, timer, d)
    ensures Runs(Run(p, k, steps).bus, TimerCallback(slot)) - Runs(k.bus, TimerCallback(slot)) == T.Fired(timer, d, |Takts(steps)|)
    decreases |steps|
  {
    hide Sound, Runs, RunTakt, Grant, S.Monotone, T.Tick, T.Ticks, T.Fired, FiresLike;
    FiredFirst(timer, d, 0);
    if |steps| > 0 {
      var rest := Takts(steps[1..]);
      StepKeepsSound(p, k, steps[0]);
      match steps[0] {
        case TaktStep(i) =>
          FirstOf(i, rest);
          FiresLikeRest(Takts(steps), slot, timer, d);
          TaktCounts(p, k, i, TimerCallback(slot));
          FiredFirst(timer, d, |rest|);
          TimerCallbacksKeepTime(p, DoStep(p, k, steps[0]), steps[1..], slot, T.Tick(timer, d).0, d);
        case TableStep(c) =>
          assert Takts(steps) == rest;
          TimerCallbacksKeepTime(p, DoStep(p, k, steps[0]), steps[1..], slot, timer, d);
        case BusStep(q) =>
          assert Takts(steps) == rest;
          GrantResumesNobody(p, k, q);
          RunsAlike(k.bus, Grant(p, k.bus, q), TimerCallback(slot));
          TimerCallbacksKeepTime(p, DoStep(p, k, steps[0]), steps[1..], slot, timer, d);
      }
    }
  }

  /** A repeating timer that was just started: once per period, for any number of takts. */
  lemma RepeatingCallbacks(p: Program, k: Kernel, steps: seq<Step>, slot: nat, timer: T.TimerState, d: u32)
    requires Sound(p, k) && AllFit(p, k, steps) && d > 0 && timer.repeat
    requires FiresLike(Takts(steps), slot, T.Start(timer), d) && Sectors.Times(T.Period(timer.intervalMs, d), d) < 0x1_0000_0000
    ensures Runs(Run(p, k, steps).bus, TimerCallback(slot)) - Runs(k.bus, TimerCallback(slot))
         == |Takts(steps)| / T.Period(timer.intervalMs, d)
  {
    hide Sound, Runs, Run, FiresLike, AllFit;
    TimerCallbacksKeepTime(p, k, steps, slot, T.Start(timer), d);
    T.RepeatingFiringLaw(timer, d);
  }
}
