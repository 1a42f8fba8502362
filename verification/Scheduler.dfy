/**
 * kernel/src/scheduler.cpp: the cyclic executive, as functions on its table and counters.
 *
 * What the modules and the clock do is input: the results of init() and hasWork(), and the clock
 * readings around each tick().  The history records every call the scheduler makes on a module.
 */
module SchedulerSpec {
  import opened Words

  const MAX_MODULES: nat := 48

  datatype Kind = Static | Dynamic | Background

  /** A module object: its identity and the two properties the scheduler asks for. */
  datatype Module = Module(id: nat, kind: Kind, budgetUs: nat)

  datatype State = Unregistered | Registered | Initializing | Ready | Running | Suspended | Error | Stopped

  datatype Stats = Stats(tickCount: nat, totalUs: nat, maxUs: nat, lastUs: nat, overrunCount: u32, skipCount: u32, state: State)

  /** `born` is the number of takts completed when the entry was made; the program does not keep it. */
  datatype Entry = Entry(m: Module, stats: Stats, active: bool, born: nat)

  datatype Action = Init(entry: nat, id: nat, ok: bool) | Tick(entry: nat, id: nat) | Stop(entry: nat, id: nat)

  datatype Sched = Sched(
    entries: seq<Entry>, totalTakts: nat, totalTaktUs: nat, maxTaktUs: nat, lastTaktUs: nat, overrunCount: u32,
    history: seq<Action>)

  /** One takt's input: per entry the answer of hasWork() and the clock before and after its tick(). */
  datatype Takt = Takt(start: nat, hasWork: seq<bool>, before: seq<nat>, after: seq<nat>, end: nat)

  /** The clock never runs backwards.  Readings of entries that do not tick are not used. */
  ghost predicate Monotone(t: Takt, n: nat) {
    && |t.hasWork| == |t.before| == |t.after| == n && t.start <= t.end
    && (forall i | 0 <= i < n :: t.start <= t.before[i] <= t.after[i] <= t.end)
    && (forall i, j | 0 <= i < j < n :: t.after[i] <= t.before[j])
  }

  // ---------------------------------------------------------------- calls

  const NO_STATS: Stats := Stats(0, 0, 0, 0, 0, 0, Unregistered)

  function Register(s: Sched, m: Module): Sched {
    if |s.entries| >= MAX_MODULES then s
    else s.(entries := s.entries + [Entry(m, NO_STATS.(state := Registered), true, s.totalTakts)])
  }

  function Unregister(s: Sched, id: nat): Sched {
    if id >= |s.entries| then s
    else
      var e := s.entries[id];
      s.(entries := s.entries[id := e.(active := false, stats := e.stats.(state := Stopped))],
         history := s.history + [Stop(id, e.m.id)])
  }

  function AfterInit(e: Entry, ok: bool): Entry {
    if e.active then e.(stats := e.stats.(state := if ok then Ready else Error)) else e
  }

  /** The init() calls on the first n entries. */
  function InitCalls(entries: seq<Entry>, oks: seq<bool>, n: nat): seq<Action>
    requires n <= |entries| == |oks|
  {
    if n == 0 then []
    else InitCalls(entries, oks, n - 1) + if entries[n - 1].active then [Init(n - 1, entries[n - 1].m.id, oks[n - 1])] else []
  }

  function InitAll(s: Sched, oks: seq<bool>): Sched
    requires |oks| == |s.entries|
  {
    s.(entries := seq(|s.entries|, i requires 0 <= i < |s.entries| => AfterInit(s.entries[i], oks[i])),
       history := s.history + InitCalls(s.entries, oks, |s.entries|))
  }

  predicate ShouldRun(e: Entry, hasWork: bool) {
    e.active && (e.stats.state == Ready || e.stats.state == Running) && (e.m.kind == Background ==> hasWork)
  }

  function AfterTakt(e: Entry, hasWork: bool, elapsed: nat): Entry {
    if !ShouldRun(e, hasWork) then
      if e.m.kind == Background then e.(stats := e.stats.(skipCount := Wrap32(e.stats.skipCount + 1))) else e
    else
      e.(stats := e.stats.(
        tickCount := e.stats.tickCount + 1,
        lastUs := elapsed,
        totalUs := e.stats.totalUs + elapsed,
        maxUs := if elapsed > e.stats.maxUs then elapsed else e.stats.maxUs,
        overrunCount := if e.m.budgetUs > 0 && elapsed > e.m.budgetUs then Wrap32(e.stats.overrunCount + 1) else e.stats.overrunCount,
        state := Ready))
  }

  function TickCalls(entries: seq<Entry>, hasWork: seq<bool>, n: nat): seq<Action>
    requires n <= |entries| == |hasWork|
  {
    if n == 0 then []
    else TickCalls(entries, hasWork, n - 1) + if ShouldRun(entries[n - 1], hasWork[n - 1]) then [Tick(n - 1, entries[n - 1].m.id)] else []
  }

  function Elapsed(t: Takt, i: nat): nat
    requires Monotone(t, |t.hasWork|) && i < |t.hasWork|
  {
    t.after[i] - t.before[i]
  }

  function RunTakt(s: Sched, t: Takt, taktBudgetUs: nat): Sched
    requires Monotone(t, |s.entries|)
  {
    var us := t.end - t.start;
    s.(entries := seq(|s.entries|, i requires 0 <= i < |s.entries| => AfterTakt(s.entries[i], t.hasWork[i], Elapsed(t, i))),
       totalTakts := s.totalTakts + 1,
       totalTaktUs := s.totalTaktUs + us,
       maxTaktUs := if us > s.maxTaktUs then us else s.maxTaktUs,
       lastTaktUs := us,
       overrunCount := if taktBudgetUs > 0 && us > taktBudgetUs then Wrap32(s.overrunCount + 1) else s.overrunCount,
       history := s.history + TickCalls(s.entries, t.hasWork, |s.entries|))
  }

  function AfterShutdown(e: Entry): Entry {
    if e.active then e.(stats := e.stats.(state := Stopped)) else e
  }

  function StopCalls(entries: seq<Entry>, n: nat): seq<Action>
    requires n <= |entries|
  {
    if n == 0 then []
    else StopCalls(entries, n - 1) + if entries[n - 1].active then [Stop(n - 1, entries[n - 1].m.id)] else []
  }

  function ShutdownAll(s: Sched): Sched {
    s.(entries := seq(|s.entries|, i requires 0 <= i < |s.entries| => AfterShutdown(s.entries[i])),
       history := s.history + StopCalls(s.entries, |s.entries|))
  }

  const BLANK: Sched := Sched([], 0, 0, 0, 0, 0, [])

  // ---------------------------------------------------------------- runs

  datatype Call =
    | RegisterCall(m: Module)
    | UnregisterCall(id: nat)
    | InitCall(oks: seq<bool>)
    | TaktCall(t: Takt, taktBudgetUs: nat)
    | ShutdownCall

  /** The input matches the table and the clock is monotone. */
  ghost predicate Fits(s: Sched, c: Call) {
    match c
    case InitCall(oks) => |oks| == |s.entries|
    case TaktCall(t, budget) => Monotone(t, |s.entries|)
    case _ => true
  }

  function Step(s: Sched, c: Call): Sched
    requires Fits(s, c)
  {
    match c
    case RegisterCall(m) => Register(s, m)
    case UnregisterCall(id) => Unregister(s, id)
    case InitCall(oks) => InitAll(s, oks)
    case TaktCall(t, budget) => RunTakt(s, t, budget)
    case ShutdownCall => ShutdownAll(s)
  }

  ghost predicate AllFit(s: Sched, calls: seq<Call>)
    decreases |calls|
  {
    |calls| == 0 || (Fits(s, calls[0]) && AllFit(Step(s, calls[0]), calls[1..]))
  }

  function Run(s: Sched, calls: seq<Call>): Sched
    requires AllFit(s, calls)
    decreases |calls|
  {
    if |calls| == 0 then s else Run(Step(s, calls[0]), calls[1..])
  }
}

/** Time accounting and takt accounting over any number of takts. */
module SchedulerAccounts {
  import opened Words
  import opened SchedulerSpec

  function SumTotalUs(entries: seq<Entry>): nat {
    if |entries| == 0 then 0 else SumTotalUs(entries[..|entries| - 1]) + entries[|entries| - 1].stats.totalUs
  }

  ghost predicate EntryAccount(e: Entry, s: Sched) {
    var st := e.stats;
    && st.totalUs <= st.tickCount * st.maxUs
    && st.maxUs <= s.maxTaktUs
    && st.overrunCount <= st.tickCount
    && e.born + st.tickCount + st.skipCount <= s.totalTakts
    && (e.m.kind == Background ==> (st.tickCount + st.skipCount - (s.totalTakts - e.born)) % 0x1_0000_0000 == 0)
    && (e.m.kind != Background ==> st.skipCount == 0)
  }

  ghost predicate Accounts(s: Sched) {
    && SumTotalUs(s.entries) <= s.totalTaktUs
    && forall i | 0 <= i < |s.entries| :: EntryAccount(s.entries[i], s)
  }

  lemma Multiply(total: nat, count: nat, max: nat, elapsed: nat, max': nat)
    requires total <= count * max && max <= max' && elapsed <= max'
    ensures total + elapsed <= (count + 1) * max'
  {
    assert count * max <= count * max';
    assert (count + 1) * max' == count * max' + max';
  }

  lemma EntryTakt(e: Entry, s: Sched, s': Sched, hasWork: bool, elapsed: nat)
    requires EntryAccount(e, s) && elapsed <= s'.maxTaktUs && s.maxTaktUs <= s'.maxTaktUs && s'.totalTakts == s.totalTakts + 1
    ensures EntryAccount(AfterTakt(e, hasWork, elapsed), s')
  {
    var st, st' := e.stats, AfterTakt(e, hasWork, elapsed).stats;
    if ShouldRun(e, hasWork) {
      Multiply(st.totalUs, st.tickCount, st.maxUs, elapsed, st'.maxUs);
    }
    var x := st.tickCount + st.skipCount - (s.totalTakts - e.born);
    var y := st'.tickCount + st'.skipCount - (s'.totalTakts - e.born);
    if e.m.kind == Background {
      assert y == x || y == x - 0x1_0000_0000;
    }
  }

  lemma {:induction false} SumUnchanged(a: seq<Entry>, b: seq<Entry>)
    requires |a| == |b| && forall i | 0 <= i < |a| :: a[i].stats.totalUs == b[i].stats.totalUs
    ensures SumTotalUs(a) == SumTotalUs(b)
    decreases |a|
  {
    if |a| > 0 {
      SumUnchanged(a[..|a| - 1], b[..|b| - 1]);
    }
  }

  /** The latest clock reading of the first n entries. */
  ghost function ClockAt(t: Takt, n: nat): nat
    requires Monotone(t, |t.hasWork|) && n <= |t.hasWork|
  {
    if n == 0 then t.start else t.after[n - 1]
  }

  lemma {:induction false} SumTakt(s: Sched, t: Takt, budget: nat, n: nat)
    requires Monotone(t, |s.entries|) && n <= |s.entries|
    ensures SumTotalUs(RunTakt(s, t, budget).entries[..n]) <= SumTotalUs(s.entries[..n]) + (ClockAt(t, n) - t.start)
    decreases n
  {
    hide ShouldRun;
    var after := RunTakt(s, t, budget).entries;
    if n > 0 {
      SumTakt(s, t, budget, n - 1);
      assert after[..n][..n - 1] == after[..n - 1] && s.entries[..n][..n - 1] == s.entries[..n - 1];
      assert after[..n][n - 1] == AfterTakt(s.entries[n - 1], t.hasWork[n - 1], Elapsed(t, n - 1));
      assert ClockAt(t, n - 1) <= t.before[n - 1];
    }
  }

  lemma TaktKeepsAccounts(s: Sched, t: Takt, budget: nat)
    requires Accounts(s) && Monotone(t, |s.entries|)
    ensures Accounts(RunTakt(s, t, budget))
  {
    var s' := RunTakt(s, t, budget);
    var n := |s.entries|;
    SumTakt(s, t, budget, n);
    assert s'.entries[..n] == s'.entries && s.entries[..n] == s.entries;
    forall i | 0 <= i < n ensures EntryAccount(s'.entries[i], s') {
      EntryTakt(s.entries[i], s, s', t.hasWork[i], Elapsed(t, i));
    }
  }

  lemma SumAppend(entries: seq<Entry>, e: Entry)
    ensures SumTotalUs(entries + [e]) == SumTotalUs(entries) + e.stats.totalUs
  {
    assert (entries + [e])[..|entries|] == entries;
  }

  lemma RegisterKeepsAccounts(s: Sched, m: Module)
    requires Accounts(s)
    ensures Accounts(Register(s, m))
  {
    hide EntryAccount, SumTotalUs;
    if |s.entries| < MAX_MODULES {
      var s' := Register(s, m);
      var e := Entry(m, NO_STATS.(state := Registered), true, s.totalTakts);
      SumAppend(s.entries, e);
      NewEntryAccount(s', e);
      forall i | 0 <= i < |s.entries| ensures EntryAccount(s'.entries[i], s') {
        SameAccount(s.entries[i], s.entries[i], s, s');
      }
    }
  }

  lemma StepKeepsAccounts(s: Sched, c: Call)
    requires Accounts(s) && Fits(s, c)
    ensures Accounts(Step(s, c))
  {
    hide EntryAccount;
    match c
    case RegisterCall(m) => RegisterKeepsAccounts(s, m);
    case UnregisterCall(id) => SameNumbers(s, Step(s, c));
    case InitCall(oks) => SameNumbers(s, Step(s, c));
    case TaktCall(t, budget) => TaktKeepsAccounts(s, t, budget);
    case ShutdownCall => SameNumbers(s, Step(s, c));
  }

  lemma NewEntryAccount(s: Sched, e: Entry)
    requires e.stats == NO_STATS.(state := Registered) && e.born == s.totalTakts
    ensures EntryAccount(e, s)
  {}

  lemma SameAccount(e: Entry, e': Entry, s: Sched, s': Sched)
    requires EntryAccount(e, s) && s'.totalTakts == s.totalTakts && s'.maxTaktUs == s.maxTaktUs
    requires e'.m == e.m && e'.born == e.born && e'.stats.(state := e.stats.state) == e.stats
    ensures EntryAccount(e', s')
  {}

  lemma SameNumbers(s: Sched, s': Sched)
    requires Accounts(s) && |s'.entries| == |s.entries|
    requires s'.totalTakts == s.totalTakts && s'.maxTaktUs == s.maxTaktUs && s'.totalTaktUs == s.totalTaktUs
    requires forall i | 0 <= i < |s.entries| ::
      && s'.entries[i].m == s.entries[i].m && s'.entries[i].born == s.entries[i].born
      && s'.entries[i].stats.(state := s.entries[i].stats.state) == s.entries[i].stats
    ensures Accounts(s')
  {
    hide EntryAccount;
    SumUnchanged(s.entries, s'.entries);
    forall i | 0 <= i < |s.entries| ensures EntryAccount(s'.entries[i], s') {
      SameAccount(s.entries[i], s'.entries[i], s, s');
    }
  }

  lemma {:induction false} RunKeepsAccounts(s: Sched, calls: seq<Call>)
    requires Accounts(s) && AllFit(s, calls)
    ensures Accounts(Run(s, calls))
    decreases |calls|
  {
    hide Accounts;
    if |calls| > 0 {
      StepKeepsAccounts(s, calls[0]);
      RunKeepsAccounts(Step(s, calls[0]), calls[1..]);
    }
  }

  /**
   * Time accounting.  After any run from power-on the modules' times sum up to no more than the
   * scheduler's; each module's total is at most its tick count times its longest tick, which is no
   * longer than the longest takt; and no module overran more often than it ticked.
   */
  lemma TimeAccounting(calls: seq<Call>)
    requires AllFit(BLANK, calls)
    ensures var s := Run(BLANK, calls);
      && SumTotalUs(s.entries) <= s.totalTaktUs
      && forall i | 0 <= i < |s.entries| :: var st := s.entries[i].stats;
           st.totalUs <= st.tickCount * st.maxUs && st.maxUs <= s.maxTaktUs && st.overrunCount <= st.tickCount
  {
    RunKeepsAccounts(BLANK, calls);
  }

  /**
   * Conservation of takts.  After any run from power-on, a background module's ticks and skips add up
   * to the takts since its registration, modulo the 32 bits of the skip counter and exactly before it
   * wraps; other modules never skip.
   */
  lemma TaktConservation(calls: seq<Call>, i: nat)
    requires AllFit(BLANK, calls) && i < |Run(BLANK, calls).entries|
    ensures var s := Run(BLANK, calls); var e := s.entries[i];
      && e.born <= s.totalTakts
      && (e.m.kind == Background ==> (e.stats.tickCount + e.stats.skipCount - (s.totalTakts - e.born)) % 0x1_0000_0000 == 0)
      && (e.m.kind == Background && s.totalTakts - e.born < 0x1_0000_0000 ==>
            e.stats.tickCount + e.stats.skipCount == s.totalTakts - e.born)
      && (e.m.kind != Background ==> e.stats.skipCount == 0)
  {
    hide Run;
    RunKeepsAccounts(BLANK, calls);
    assert EntryAccount(Run(BLANK, calls).entries[i], Run(BLANK, calls));
  }
}

/** Exactly when a module runs and what its statistics come to, said on the inputs of a run. */
module SchedulerLaw {
  import opened Words
  import opened SchedulerSpec

  /** What a takt offers an entry: the answer of hasWork() and the time a tick takes. */
  datatype Turn = Turn(hasWork: bool, elapsed: nat)

  function TurnOf(c: Call, i: nat): (r: seq<Turn>)
    ensures |r| <= 1
  {
    match c
    case TaktCall(t, budget) =>
      if i < |t.hasWork| == |t.before| == |t.after| && t.before[i] <= t.after[i] then [Turn(t.hasWork[i], t.after[i] - t.before[i])] else []
    case _ => []
  }

  function Turns(calls: seq<Call>, i: nat): seq<Turn>
    decreases |calls|
  {
    if |calls| == 0 then [] else TurnOf(calls[0], i) + Turns(calls[1..], i)
  }

  /** The turns a module takes: a background module those in which it has work, any other one all of them. */
  function Taken(turns: seq<Turn>, background: bool): (r: seq<Turn>)
    ensures |r| <= |turns|
    decreases |turns|
  {
    if |turns| == 0 then []
    else (if turns[0].hasWork || !background then [turns[0]] else []) + Taken(turns[1..], background)
  }

  function Sum(turns: seq<Turn>): nat {
    if |turns| == 0 then 0 else turns[0].elapsed + Sum(turns[1..])
  }

  function Longest(turns: seq<Turn>, atLeast: nat): nat
    decreases |turns|
  {
    if |turns| == 0 then atLeast else Longest(turns[1..], if turns[0].elapsed > atLeast then turns[0].elapsed else atLeast)
  }

  /** How many turns took longer than the budget; 0 is no budget. */
  function OverBudget(turns: seq<Turn>, budget: nat): nat {
    if |turns| == 0 then 0 else (if budget > 0 && turns[0].elapsed > budget then 1 else 0) + OverBudget(turns[1..], budget)
  }

  lemma {:induction false} AllTaken(turns: seq<Turn>)
    ensures Taken(turns, false) == turns
    decreases |turns|
  {
    if |turns| > 0 {
      AllTaken(turns[1..]);
    }
  }

  /** Entry i is neither removed nor shut down, and every further init() of it succeeds. */
  ghost predicate StaysUp(calls: seq<Call>, i: nat) {
    forall k | 0 <= k < |calls| ::
      && !calls[k].ShutdownCall?
      && (calls[k].UnregisterCall? ==> calls[k].id != i)
      && (calls[k].InitCall? ==> i < |calls[k].oks| && calls[k].oks[i])
  }

  /** From e to f an entry took these turns and skipped so many. */
  ghost predicate Advanced(e: Entry, f: Entry, taken: seq<Turn>, skipped: nat) {
    && f.m == e.m && f.active && f.stats.state == Ready
    && f.stats.tickCount == e.stats.tickCount + |taken|
    && f.stats.totalUs == e.stats.totalUs + Sum(taken)
    && f.stats.maxUs == Longest(taken, e.stats.maxUs)
    && f.stats.overrunCount == (e.stats.overrunCount + OverBudget(taken, e.m.budgetUs)) % 0x1_0000_0000
    && f.stats.skipCount == (e.stats.skipCount + if e.m.kind == Background then skipped else 0) % 0x1_0000_0000
  }

  lemma OneTurn(e: Entry, turn: Turn)
    requires e.active && e.stats.state == Ready
    ensures var taken := Taken([turn], e.m.kind == Background);
      Advanced(e, AfterTakt(e, turn.hasWork, turn.elapsed), taken, 1 - |taken|)
  {
    assert [turn][1..] == [];
    assert Taken([], e.m.kind == Background) == [];
    assert Sum([turn]) == turn.elapsed && Sum([]) == 0;
  }

  lemma AddModulo(a: nat, b: nat, c: nat)
    ensures ((a + b) % 0x1_0000_0000 + c) % 0x1_0000_0000 == (a + (b + c)) % 0x1_0000_0000
  {}

  lemma AtMostOneMore(first: seq<Turn>, rest: seq<Turn>, budget: nat, atLeast: nat, background: bool)
    requires |first| <= 1
    ensures Sum(first + rest) == Sum(first) + Sum(rest)
    ensures OverBudget(first + rest, budget) == OverBudget(first, budget) + OverBudget(rest, budget)
    ensures Longest(first + rest, atLeast) == Longest(rest, Longest(first, atLeast))
    ensures Taken(first + rest, background) == Taken(first, background) + Taken(rest, background)
  {
    assert Sum([]) == 0 && OverBudget([], budget) == 0 && Longest([], atLeast) == atLeast && Taken([], background) == [];
    if |first| == 0 {
      assert first + rest == rest && first == [];
    } else {
      assert (first + rest)[1..] == rest && first[1..] == [];
    }
  }

  lemma {:induction false} AdvancedOn(e: Entry, f: Entry, g: Entry, first: seq<Turn>, rest: seq<Turn>, a: nat, b: nat)
    requires Advanced(e, f, first, a) && Advanced(f, g, rest, b) && |first| <= 1
    ensures Advanced(e, g, first + rest, a + b)
  {
    hide Sum, OverBudget, Longest;
    AtMostOneMore(first, rest, e.m.budgetUs, e.stats.maxUs, false);
    AddModulo(e.stats.overrunCount, OverBudget(first, e.m.budgetUs), OverBudget(rest, e.m.budgetUs));
    AddModulo(e.stats.skipCount, if e.m.kind == Background then a else 0, if e.m.kind == Background then b else 0);
  }

  lemma NotAdvanced(e: Entry)
    requires e.active && e.stats.state == Ready
    ensures Advanced(e, e, [], 0)
  {}

  /**
   * The run law.  Over any run, an entry that is ready and stays up takes every turn, or as a background module
   * exactly those in which hasWork() was true, and skips the others; its total time is the sum of the turns it
   * took, its longest tick the longest of them, and its overruns those over its budget, modulo 2^32.
   */
  lemma {:induction false} EntryLaw(s: Sched, calls: seq<Call>, i: nat)
    requires AllFit(s, calls) && StaysUp(calls, i)
    requires i < |s.entries| && s.entries[i].active && s.entries[i].stats.state == Ready
    ensures var turns := Turns(calls, i); var taken := Taken(turns, s.entries[i].m.kind == Background);
      && i < |Run(s, calls).entries|
      && Advanced(s.entries[i], Run(s, calls).entries[i], taken, |turns| - |taken|)
    decreases |calls|
  {
    hide Advanced, Step, Fits, Taken, TurnOf;
    var e, bg := s.entries[i], s.entries[i].m.kind == Background;
    if |calls| == 0 {
      NotAdvanced(e);
      NothingTaken(bg);
    } else {
      var next := Step(s, calls[0]);
      StayUpOn(calls, i);
      StepOfEntry(s, calls[0], i);
      AdvancedMeans(e, next.entries[i]);
      EntryLaw(next, calls[1..], i);
      var first, rest := TurnOf(calls[0], i), Turns(calls[1..], i);
      AtMostOneMore(first, rest, 0, 0, bg);
      AdvancedOn(e, next.entries[i], Run(s, calls).entries[i], Taken(first, bg), Taken(rest, bg), |first| - |Taken(first, bg)|, |rest| - |Taken(rest, bg)|);
    }
  }

  lemma NothingTaken(background: bool)
    ensures Taken([], background) == []
  {}

  lemma StayUpOn(calls: seq<Call>, i: nat)
    requires |calls| > 0 && StaysUp(calls, i)
    ensures StaysUp([calls[0]], i) && StaysUp(calls[1..], i)
  {
    assert forall k | 0 <= k < |calls| - 1 :: calls[1..][k] == calls[k + 1];
  }

  lemma AdvancedMeans(e: Entry, f: Entry)
    ensures forall taken, skipped :: Advanced(e, f, taken, skipped) ==> f.m == e.m && f.active && f.stats.state == Ready
  {}

  lemma StepOfEntry(s: Sched, c: Call, i: nat)
    requires Fits(s, c) && StaysUp([c], i)
    requires i < |s.entries| && s.entries[i].active && s.entries[i].stats.state == Ready
    ensures var next := Step(s, c); var e := s.entries[i]; var taken := Taken(TurnOf(c, i), e.m.kind == Background);
      i < |next.entries| && Advanced(e, next.entries[i], taken, |TurnOf(c, i)| - |taken|)
  {
    hide Advanced, AfterTakt, Taken;
    var e := s.entries[i];
    assert [c][0] == c;
    NothingTaken(e.m.kind == Background);
    match c
    case RegisterCall(m) => NotAdvanced(e);
    case UnregisterCall(id) => NotAdvanced(e);
    case InitCall(oks) => InitAdvances(e);
    case TaktCall(t, budget) => OneTurn(e, Turn(t.hasWork[i], t.after[i] - t.before[i]));
    case ShutdownCall =>
  }

  lemma InitAdvances(e: Entry)
    requires e.active && e.stats.state == Ready
    ensures Advanced(e, AfterInit(e, true), [], 0)
  {}

  /** And an entry that was removed never ticks again, whatever is called. */
  lemma {:induction false} RemovedNeverTicks(s: Sched, calls: seq<Call>, i: nat)
    requires AllFit(s, calls) && i < |s.entries| && !s.entries[i].active
    ensures i < |Run(s, calls).entries|
    ensures var e, f := s.entries[i], Run(s, calls).entries[i];
      !f.active && f.stats.tickCount == e.stats.tickCount && f.stats.totalUs == e.stats.totalUs
    decreases |calls|
  {
    if |calls| > 0 {
      RemovedNeverTicks(Step(s, calls[0]), calls[1..], i);
    }
  }

  /** In particular: a module that is not in the background ticks in every takt. */
  lemma ForegroundTicksAlways(s: Sched, calls: seq<Call>, i: nat)
    requires AllFit(s, calls) && StaysUp(calls, i)
    requires i < |s.entries| && s.entries[i].active && s.entries[i].stats.state == Ready && s.entries[i].m.kind != Background
    ensures i < |Run(s, calls).entries|
    ensures Run(s, calls).entries[i].stats.tickCount == s.entries[i].stats.tickCount + |Turns(calls, i)|
  {
    hide Sum, Longest, OverBudget, Run, AllFit;
    EntryLaw(s, calls, i);
    AllTaken(Turns(calls, i));
  }

  /** How an entry gets ready: registered, it is in use; a successful init() makes it ready, a failing one an error. */
  lemma GettingReady(s: Sched, m: Module, oks: seq<bool>, i: nat)
    requires |oks| == |s.entries| && i < |s.entries|
    ensures Register(s, m).entries
         == if |s.entries| < 48 then s.entries + [Entry(m, Stats(0, 0, 0, 0, 0, 0, Registered), true, s.totalTakts)] else s.entries
    ensures InitAll(s, oks).entries[i].stats
         == if s.entries[i].active then s.entries[i].stats.(state := if oks[i] then Ready else Error) else s.entries[i].stats
  {}

  // ---------------------------------------------------------------- the scheduler's own statistics

  /** The time and the budget of a takt. */
  function TaktOf(c: Call): (r: seq<(nat, nat)>)
    ensures |r| <= 1
  {
    if c.TaktCall? && c.t.start <= c.t.end then [(c.t.end - c.t.start, c.taktBudgetUs)] else []
  }

  function Takts(calls: seq<Call>): seq<(nat, nat)>
    decreases |calls|
  {
    if |calls| == 0 then [] else TaktOf(calls[0]) + Takts(calls[1..])
  }

  function TotalTime(takts: seq<(nat, nat)>): nat {
    if |takts| == 0 then 0 else takts[0].0 + TotalTime(takts[1..])
  }

  function LongestTakt(takts: seq<(nat, nat)>, atLeast: nat): nat
    decreases |takts|
  {
    if |takts| == 0 then atLeast else LongestTakt(takts[1..], if takts[0].0 > atLeast then takts[0].0 else atLeast)
  }

  function Overruns(takts: seq<(nat, nat)>): nat {
    if |takts| == 0 then 0 else (if takts[0].1 > 0 && takts[0].0 > takts[0].1 then 1 else 0) + Overruns(takts[1..])
  }

  /** From s to r these takts were run. */
  ghost predicate Totals(s: Sched, r: Sched, takts: seq<(nat, nat)>) {
    && r.totalTakts == s.totalTakts + |takts|
    && r.totalTaktUs == s.totalTaktUs + TotalTime(takts)
    && r.maxTaktUs == LongestTakt(takts, s.maxTaktUs)
    && r.overrunCount == (s.overrunCount + Overruns(takts)) % 0x1_0000_0000
    && r.lastTaktUs == if |takts| == 0 then s.lastTaktUs else takts[|takts| - 1].0
  }

  lemma {:induction false} TotalsOn(s: Sched, next: Sched, r: Sched, first: seq<(nat, nat)>, rest: seq<(nat, nat)>)
    requires Totals(s, next, first) && Totals(next, r, rest) && |first| <= 1
    ensures Totals(s, r, first + rest)
  {
    AddModulo(s.overrunCount, Overruns(first), Overruns(rest));
    if |first| == 0 {
      assert first + rest == rest;
    } else {
      assert (first + rest)[1..] == rest && (first + rest)[0] == first[0];
      OneTakt(first[0], s.maxTaktUs);
      assert first == [first[0]];
      assert |rest| > 0 ==> (first + rest)[|rest|] == rest[|rest| - 1];
    }
  }

  lemma OneTakt(takt: (nat, nat), atLeast: nat)
    ensures TotalTime([takt]) == takt.0 && Overruns([takt]) == (if takt.1 > 0 && takt.0 > takt.1 then 1 else 0)
    ensures LongestTakt([takt], atLeast) == if takt.0 > atLeast then takt.0 else atLeast
  {
    assert [takt][1..] == [];
  }

  lemma {:induction false} StepTotals(s: Sched, c: Call)
    requires Fits(s, c)
    ensures Totals(s, Step(s, c), TaktOf(c))
  {
    hide AfterTakt;
    NoTotals(s);
    if c.TaktCall? {
      OneTakt(TaktOf(c)[0], s.maxTaktUs);
    }
  }

  /** Over any run: the number of takts, their total and longest time, and how many took longer than their budget, modulo 2^32. */
  lemma {:induction false} TaktLaw(s: Sched, calls: seq<Call>)
    requires AllFit(s, calls)
    ensures Totals(s, Run(s, calls), Takts(calls))
    decreases |calls|
  {
    hide Totals, Step, Fits, TaktOf;
    if |calls| == 0 {
      NoTotals(s);
    } else {
      StepTotals(s, calls[0]);
      TaktLaw(Step(s, calls[0]), calls[1..]);
      TotalsOn(s, Step(s, calls[0]), Run(s, calls), TaktOf(calls[0]), Takts(calls[1..]));
    }
  }

  lemma {:induction false} NoTotals(s: Sched)
    ensures Totals(s, s, [])
  {}
}

/** Which modules may be ticked, over any interleaving of calls. */
module SchedulerLifecycle {
  import opened Words
  import opened SchedulerSpec

  /** The last init() or shutdown() of a module was a successful init(). */
  predicate Live(history: seq<Action>, id: nat)
    decreases |history|
  {
    if |history| == 0 then false
    else
      var a := history[|history| - 1];
      if a.id == id && !a.Tick? then a.Init? && a.ok else Live(history[..|history| - 1], id)
  }

  /** Every tick() so far was on a live module. */
  predicate Safe(history: seq<Action>)
    decreases |history|
  {
    |history| == 0 ||
    (Safe(history[..|history| - 1])
     && (history[|history| - 1].Tick? ==> Live(history[..|history| - 1], history[|history| - 1].id)))
  }

  lemma LiveAfter(h: seq<Action>, a: Action, id: nat)
    ensures Live(h + [a], id) == if a.id == id && !a.Tick? then a.Init? && a.ok else Live(h, id)
    ensures Safe(h + [a]) <==> Safe(h) && (a.Tick? ==> Live(h, a.id))
  {
    assert (h + [a])[..|h|] == h;
  }

  /** No active entry shares its module object with another entry, active or removed. */
  ghost predicate Exclusive(entries: seq<Entry>) {
    forall i, j | 0 <= i < |entries| && 0 <= j < |entries| && i != j && entries[j].active :: entries[i].m.id != entries[j].m.id
  }

  ghost predicate CanRun(e: Entry) { e.stats.state == Ready || e.stats.state == Running }

  /** What keeps ticks safe: runnable entries are live, and removed entries are stopped. */
  ghost predicate Inv(s: Sched) {
    && Safe(s.history)
    && (forall i | 0 <= i < |s.entries| && CanRun(s.entries[i]) :: Live(s.history, s.entries[i].m.id))
    && (forall i | 0 <= i < |s.entries| && !s.entries[i].active :: s.entries[i].stats.state == Stopped)
  }

  // ---------------------------------------------------------------- the calls one by one

  lemma {:induction false} InitCallsLive(h: seq<Action>, entries: seq<Entry>, oks: seq<bool>, n: nat, id: nat)
    requires Exclusive(entries) && n <= |entries| == |oks| && Safe(h)
    ensures var l := h + InitCalls(entries, oks, n);
      && Safe(l)
      && forall j | 0 <= j < |entries| && entries[j].m.id == id ::
           Live(l, id) == if j < n && entries[j].active then oks[j] else Live(h, id)
    decreases n
  {
    if n == 0 {
      assert h + InitCalls(entries, oks, 0) == h;
    } else {
      InitCallsLive(h, entries, oks, n - 1, id);
      var l := h + InitCalls(entries, oks, n - 1);
      if entries[n - 1].active {
        var a := Init(n - 1, entries[n - 1].m.id, oks[n - 1]);
        assert h + InitCalls(entries, oks, n) == l + [a];
        LiveAfter(l, a, id);
      } else {
        assert h + InitCalls(entries, oks, n) == l;
      }
    }
  }

  lemma {:induction false} StopCallsSafe(h: seq<Action>, entries: seq<Entry>, n: nat)
    requires n <= |entries| && Safe(h)
    ensures Safe(h + StopCalls(entries, n))
    decreases n
  {
    if n == 0 {
      assert h + StopCalls(entries, 0) == h;
    } else {
      StopCallsSafe(h, entries, n - 1);
      var l := h + StopCalls(entries, n - 1);
      if entries[n - 1].active {
        var a := Stop(n - 1, entries[n - 1].m.id);
        assert h + StopCalls(entries, n) == l + [a];
        LiveAfter(l, a, a.id);
      } else {
        assert h + StopCalls(entries, n) == l;
      }
    }
  }

  lemma {:induction false} TickCallsLive(h: seq<Action>, entries: seq<Entry>, hasWork: seq<bool>, n: nat, id: nat)
    requires n <= |entries| == |hasWork| && Safe(h)
    requires forall i | 0 <= i < |entries| && CanRun(entries[i]) :: Live(h, entries[i].m.id)
    ensures var l := h + TickCalls(entries, hasWork, n);
      Safe(l) && Live(l, id) == Live(h, id)
    decreases n
  {
    hide Live, Safe;
    if n == 0 {
      assert h + TickCalls(entries, hasWork, 0) == h;
    } else {
      TickCallsLive(h, entries, hasWork, n - 1, id);
      var l := h + TickCalls(entries, hasWork, n - 1);
      if ShouldRun(entries[n - 1], hasWork[n - 1]) {
        var a := Tick(n - 1, entries[n - 1].m.id);
        TickCallsLive(h, entries, hasWork, n - 1, a.id);
        assert h + TickCalls(entries, hasWork, n) == l + [a];
        LiveAfter(l, a, id);
      } else {
        assert h + TickCalls(entries, hasWork, n) == l;
      }
    }
  }

  lemma StepKeepsInv(s: Sched, c: Call)
    requires Inv(s) && Exclusive(s.entries) && Fits(s, c)
    ensures Inv(Step(s, c))
  {
    hide Live, Safe;
    var s' := Step(s, c);
    match c
    case RegisterCall(m) =>
    case UnregisterCall(id) =>
      if id < |s.entries| {
        var a := Stop(id, s.entries[id].m.id);
        forall i | 0 <= i < |s.entries| && CanRun(s'.entries[i]) ensures Live(s'.history, s'.entries[i].m.id) {
          LiveAfter(s.history, a, s.entries[i].m.id);
        }
        LiveAfter(s.history, a, 0);
      }
    case InitCall(oks) =>
      forall i | 0 <= i < |s.entries| && CanRun(s'.entries[i]) ensures Live(s'.history, s'.entries[i].m.id) {
        InitCallsLive(s.history, s.entries, oks, |s.entries|, s.entries[i].m.id);
      }
      InitCallsLive(s.history, s.entries, oks, |s.entries|, 0);
    case TaktCall(t, budget) =>
      forall i | 0 <= i < |s.entries| && CanRun(s'.entries[i]) ensures Live(s'.history, s'.entries[i].m.id) {
        TickCallsLive(s.history, s.entries, t.hasWork, |s.entries|, s.entries[i].m.id);
      }
      TickCallsLive(s.history, s.entries, t.hasWork, |s.entries|, 0);
    case ShutdownCall =>
      StopCallsSafe(s.history, s.entries, |s.entries|);
  }

  // ---------------------------------------------------------------- whole runs

  /** No call registers a module object that is already in the table. */
  ghost predicate RegistersOnce(s: Sched, calls: seq<Call>)
    requires AllFit(s, calls)
    decreases |calls|
  {
    |calls| == 0 ||
    ((calls[0].RegisterCall? ==> forall i | 0 <= i < |s.entries| :: s.entries[i].m.id != calls[0].m.id)
     && RegistersOnce(Step(s, calls[0]), calls[1..]))
  }

  lemma StepKeepsExclusive(s: Sched, c: Call)
    requires Exclusive(s.entries) && Fits(s, c)
    requires c.RegisterCall? ==> forall i | 0 <= i < |s.entries| :: s.entries[i].m.id != c.m.id
    ensures Exclusive(Step(s, c).entries)
  {}

  lemma {:induction false} RunKeepsInv(s: Sched, calls: seq<Call>)
    requires AllFit(s, calls) && RegistersOnce(s, calls) && Inv(s) && Exclusive(s.entries)
    ensures Inv(Run(s, calls))
    decreases |calls|
  {
    hide Inv, Exclusive;
    if |calls| > 0 {
      StepKeepsInv(s, calls[0]);
      StepKeepsExclusive(s, calls[0]);
      RunKeepsInv(Step(s, calls[0]), calls[1..]);
    }
  }

  /**
   * Lifecycle safety.  Over any interleaving of calls from power-on in which no module object is
   * registered twice, tick() is called only on a module whose last init() succeeded and that has not
   * been shut down since.
   */
  lemma TicksOnlyLiveModules(calls: seq<Call>, k: nat)
    requires AllFit(BLANK, calls) && RegistersOnce(BLANK, calls)
    requires k < |Run(BLANK, calls).history| && Run(BLANK, calls).history[k].Tick?
    ensures var h := Run(BLANK, calls).history; Live(h[..k], h[k].id)
  {
    hide Live;
    RunKeepsInv(BLANK, calls);
    SafeAt(Run(BLANK, calls).history, k);
  }

  lemma {:induction false} SafeAt(h: seq<Action>, k: nat)
    requires Safe(h) && k < |h| && h[k].Tick?
    ensures Live(h[..k], h[k].id)
    decreases |h|
  {
    if k < |h| - 1 {
      SafeAt(h[..|h| - 1], k);
      assert h[..|h| - 1][..k] == h[..k];
    }
  }

  lemma {:induction false} UnsafeTick(h: seq<Action>, entries: seq<Entry>, hasWork: seq<bool>, n: nat, j: nat)
    requires j < n <= |entries| == |hasWork| && ShouldRun(entries[j], hasWork[j]) && !Live(h, entries[j].m.id)
    ensures !Safe(h + TickCalls(entries, hasWork, n))
    decreases n
  {
    var l := h + TickCalls(entries, hasWork, n - 1);
    TicksLeaveLive(h, entries, hasWork, n - 1, entries[j].m.id);
    if ShouldRun(entries[n - 1], hasWork[n - 1]) {
      var a := Tick(n - 1, entries[n - 1].m.id);
      assert h + TickCalls(entries, hasWork, n) == l + [a];
      LiveAfter(l, a, a.id);
    } else {
      assert h + TickCalls(entries, hasWork, n) == l;
    }
    if j < n - 1 {
      UnsafeTick(h, entries, hasWork, n - 1, j);
    }
  }

  lemma {:induction false} TicksLeaveLive(h: seq<Action>, entries: seq<Entry>, hasWork: seq<bool>, n: nat, id: nat)
    requires n <= |entries| == |hasWork|
    ensures Live(h + TickCalls(entries, hasWork, n), id) == Live(h, id)
    decreases n
  {
    if n == 0 {
      assert h + TickCalls(entries, hasWork, 0) == h;
    } else {
      TicksLeaveLive(h, entries, hasWork, n - 1, id);
      var l := h + TickCalls(entries, hasWork, n - 1);
      if ShouldRun(entries[n - 1], hasWork[n - 1]) {
        assert h + TickCalls(entries, hasWork, n) == l + [Tick(n - 1, entries[n - 1].m.id)];
        LiveAfter(l, Tick(n - 1, entries[n - 1].m.id), id);
      } else {
        assert h + TickCalls(entries, hasWork, n) == l;
      }
    }
  }

  /**
   * Once a runnable module object has a second entry, removing that entry shuts the object down and
   * the next takt still ticks it through the first.
   */
  lemma DoubleRegistrationTicksStopped(s: Sched, i: nat, j: nat, t: Takt, budget: nat)
    requires i < |s.entries| && j < |s.entries| && i != j && s.entries[i].m.id == s.entries[j].m.id
    requires Monotone(t, |s.entries|) && ShouldRun(s.entries[j], t.hasWork[j])
    ensures !Safe(RunTakt(Unregister(s, i), t, budget).history)
  {
    var u := Unregister(s, i);
    LiveAfter(s.history, Stop(i, s.entries[i].m.id), s.entries[j].m.id);
    UnsafeTick(u.history, u.entries, t.hasWork, |u.entries|, j);
  }

  /** Whatever is called from here on, without registering an object that is in the table, no stopped module is ticked. */
  ghost predicate StaysSafe(s: Sched) {
    forall calls: seq<Call> | AllFit(s, calls) && RegistersOnce(s, calls) :: Safe(Run(s, calls).history)
  }

  lemma {:induction false} OneMore(s: Sched, c: Call, calls: seq<Call>)
    requires Fits(s, c) && !c.RegisterCall? && AllFit(Step(s, c), calls) && RegistersOnce(Step(s, c), calls)
    ensures AllFit(s, [c] + calls) && RegistersOnce(s, [c] + calls) && Run(s, [c] + calls) == Run(Step(s, c), calls)
  {
    hide Fits, Step;
    assert ([c] + calls)[1..] == calls;
  }

  /** Safe from a state that satisfies the invariant: exactly when no active entry shares its object. */
  lemma StaysSafeFromInv(s: Sched)
    requires Inv(s)
    ensures StaysSafe(s) <==> Exclusive(s.entries)
  {
    hide Safe, Live, Inv, Step;
    if Exclusive(s.entries) {
      forall calls: seq<Call> | AllFit(s, calls) && RegistersOnce(s, calls) ensures Safe(Run(s, calls).history) {
        RunKeepsInv(s, calls);
        InvIsSafe(Run(s, calls));
      }
    } else {
      SomeSharedUnsafe(s);
    }
  }

  lemma SomeSharedUnsafe(s: Sched)
    requires !Exclusive(s.entries)
    ensures !StaysSafe(s)
  {
    hide StaysSafe;
    var i, j :| 0 <= i < |s.entries| && 0 <= j < |s.entries| && i != j && s.entries[j].active && s.entries[i].m.id == s.entries[j].m.id;
    SharedObjectUnsafe(s, i, j);
  }

  lemma InvIsSafe(s: Sched)
    requires Inv(s)
    ensures Safe(s.history)
  {}

  /** The run that goes wrong: initialize, remove the second entry, run one takt. */
  lemma SharedObjectUnsafe(s: Sched, i: nat, j: nat)
    requires i < |s.entries| && j < |s.entries| && i != j && s.entries[j].active && s.entries[i].m.id == s.entries[j].m.id
    ensures !StaysSafe(s)
  {
    hide Safe, Live;
    var n := |s.entries|;
    var yes, zeros := seq(n, _ => true), seq(n, _ => 0 as nat);
    var a, b, c := InitCall(yes), UnregisterCall(i), TaktCall(Takt(0, yes, zeros, zeros, 0), 0);
    var s1 := Step(s, a);
    var s2 := Step(s1, b);
    DoubleRegistrationTicksStopped(s1, i, j, c.t, 0);
    OneMore(s2, c, []);
    OneMore(s1, b, [c] + []);
    OneMore(s, a, [b] + ([c] + []));
    assert !Safe(Step(s2, c).history);
  }

  // ---------------------------------------------------------------- every reachable state

  /** No other entry, active or removed, has the object of entry i. */
  ghost predicate Unshared(entries: seq<Entry>, i: nat)
    requires i < |entries|
  {
    forall j | 0 <= j < |entries| && j != i :: entries[j].m.id != entries[i].m.id
  }

  /** What holds in every state, whatever was registered twice: runnable entries with an object of their own are live. */
  ghost predicate Reachable(s: Sched) {
    && (forall i | 0 <= i < |s.entries| && CanRun(s.entries[i]) && Unshared(s.entries, i) :: Live(s.history, s.entries[i].m.id))
    && (forall i | 0 <= i < |s.entries| && !s.entries[i].active :: s.entries[i].stats.state == Stopped)
  }

  lemma {:induction false} InitCallsOfOne(h: seq<Action>, entries: seq<Entry>, oks: seq<bool>, n: nat, i: nat)
    requires n <= |entries| == |oks| && i < |entries| && Unshared(entries, i)
    ensures Live(h + InitCalls(entries, oks, n), entries[i].m.id)
         == if i < n && entries[i].active then oks[i] else Live(h, entries[i].m.id)
    decreases n
  {
    hide Live, Safe;
    if n == 0 {
      assert h + InitCalls(entries, oks, 0) == h;
    } else {
      InitCallsOfOne(h, entries, oks, n - 1, i);
      var l := h + InitCalls(entries, oks, n - 1);
      if entries[n - 1].active {
        var a := Init(n - 1, entries[n - 1].m.id, oks[n - 1]);
        assert h + InitCalls(entries, oks, n) == l + [a];
        LiveAfter(l, a, entries[i].m.id);
      } else {
        assert h + InitCalls(entries, oks, n) == l;
      }
    }
  }

  lemma SameObjectsUnshared(a: seq<Entry>, b: seq<Entry>, i: nat)
    requires |a| <= |b| && i < |a| && Unshared(b, i) && forall k | 0 <= k < |a| :: b[k].m == a[k].m
    ensures Unshared(a, i)
  {
    forall j | 0 <= j < |a| && j != i ensures a[j].m.id != a[i].m.id {
      assert b[j].m == a[j].m;
    }
  }

  lemma StepKeepsReachable(s: Sched, c: Call)
    requires Reachable(s) && Fits(s, c)
    ensures Reachable(Step(s, c))
  {
    hide Live, Unshared, Fits;
    var s' := Step(s, c);
    forall i | 0 <= i < |s'.entries| && CanRun(s'.entries[i]) && Unshared(s'.entries, i)
      ensures Live(s'.history, s'.entries[i].m.id)
    {
      StepKeepsLive(s, c, i);
    }
  }

  lemma StepKeepsLive(s: Sched, c: Call, i: nat)
    requires Reachable(s) && Fits(s, c)
    requires i < |Step(s, c).entries| && CanRun(Step(s, c).entries[i]) && Unshared(Step(s, c).entries, i)
    ensures Live(Step(s, c).history, Step(s, c).entries[i].m.id)
  {
    hide Live;
    var s' := Step(s, c);
    SameObjectsUnshared(s.entries, s'.entries, i);
    match c
    case RegisterCall(m) =>
    case UnregisterCall(id) =>
      if id < |s.entries| {
        LiveAfter(s.history, Stop(id, s.entries[id].m.id), s.entries[i].m.id);
      }
    case InitCall(oks) =>
      InitCallsOfOne(s.history, s.entries, oks, |s.entries|, i);
    case TaktCall(t, budget) =>
      TicksLeaveLive(s.history, s.entries, t.hasWork, |s.entries|, s.entries[i].m.id);
    case ShutdownCall =>
  }

  lemma {:induction false} RunKeepsReachable(s: Sched, calls: seq<Call>)
    requires AllFit(s, calls) && Reachable(s)
    ensures Reachable(Run(s, calls))
    decreases |calls|
  {
    hide Reachable, Step;
    if |calls| > 0 {
      StepKeepsReachable(s, calls[0]);
      RunKeepsReachable(Step(s, calls[0]), calls[1..]);
    }
  }

  lemma ReachableInv(s: Sched)
    requires Reachable(s) && Safe(s.history) && Exclusive(s.entries)
    ensures Inv(s)
  {
    hide Live, Safe;
    forall i | 0 <= i < |s.entries| && CanRun(s.entries[i]) ensures Live(s.history, s.entries[i].m.id) {
      assert s.entries[i].active;
      assert Unshared(s.entries, i);
    }
  }

  lemma StaysSafeNow(s: Sched)
    requires StaysSafe(s)
    ensures Safe(s.history)
  {
    hide Safe;
    assert AllFit(s, []) && RegistersOnce(s, []) && Run(s, []) == s;
  }

  /**
   * After every run from power-on, whatever was registered twice and whichever init() failed: all
   * continuations that register no object again are safe exactly when the run was safe so far and no
   * active entry shares its object with another entry.
   */
  lemma StaysSafeIff(calls: seq<Call>)
    requires AllFit(BLANK, calls)
    ensures var s := Run(BLANK, calls);
      StaysSafe(s) <==> Safe(s.history) && Exclusive(s.entries)
  {
    hide Safe, Live, Exclusive, StaysSafe, Reachable, Inv, Run;
    var s := Run(BLANK, calls);
    BlankReachable();
    RunKeepsReachable(BLANK, calls);
    if Safe(s.history) && Exclusive(s.entries) {
      ReachableInv(s);
      StaysSafeFromInv(s);
    }
    if StaysSafe(s) {
      StaysSafeNow(s);
      if !Exclusive(s.entries) {
        SomeSharedUnsafe(s);
      }
    }
  }

  lemma BlankReachable()
    ensures Reachable(BLANK)
  {}

  // ---------------------------------------------------------------- order within a takt

  /**
   * The ticks of one takt come in registration order, each entry at most once: exactly the entries in use that
   * are ready or running, background modules only when they have work.
   */
  lemma {:induction false} TaktFollowsRegistration(entries: seq<Entry>, hasWork: seq<bool>, n: nat)
    requires n <= |entries| == |hasWork|
    ensures var ticks := TickCalls(entries, hasWork, n);
      && (forall a | 0 <= a < |ticks| :: ticks[a].Tick? && ticks[a].entry < n && ticks[a].id == entries[ticks[a].entry].m.id)
      && (forall a, b | 0 <= a < b < |ticks| :: ticks[a].entry < ticks[b].entry)
      && (forall i | 0 <= i < n ::
            (entries[i].active && (entries[i].stats.state == Ready || entries[i].stats.state == Running) && (entries[i].m.kind == Background ==> hasWork[i]))
            <==> Tick(i, entries[i].m.id) in ticks)
    decreases n
  {
    if n > 0 {
      TaktFollowsRegistration(entries, hasWork, n - 1);
    }
  }

  /** Actions on entries below n, each entry at most once and in order. */
  ghost predicate InOrder(actions: seq<Action>, n: nat) {
    && (forall a | 0 <= a < |actions| :: actions[a].entry < n)
    && (forall a, b | 0 <= a < b < |actions| :: actions[a].entry < actions[b].entry)
  }

  lemma {:induction false} InOrderOn(before: seq<Action>, last: seq<Action>, n: nat)
    requires InOrder(before, n) && |last| <= 1 && (|last| == 1 ==> last[0].entry == n)
    ensures InOrder(before + last, n + 1)
  {
    var all := before + last;
    forall a, b | 0 <= a < b < |all| ensures all[a].entry < all[b].entry {
      assert all[a] == before[a];
    }
  }

  /** The init() call of an entry in use among the first n. */
  predicate IsInit(entries: seq<Entry>, oks: seq<bool>, n: nat, x: Action)
    requires n <= |entries| == |oks|
  {
    x.Init? && x.entry < n && entries[x.entry].active && x.id == entries[x.entry].m.id && x.ok == oks[x.entry]
  }

  predicate IsStop(entries: seq<Entry>, n: nat, x: Action)
    requires n <= |entries|
  {
    x.Stop? && x.entry < n && entries[x.entry].active && x.id == entries[x.entry].m.id
  }

  lemma {:induction false} InitIn(entries: seq<Entry>, oks: seq<bool>, n: nat, x: Action)
    requires n <= |entries| == |oks|
    ensures x in InitCalls(entries, oks, n) <==> IsInit(entries, oks, n, x)
    decreases n
  {
    if n > 0 {
      InitIn(entries, oks, n - 1, x);
    }
  }

  lemma {:induction false} StopIn(entries: seq<Entry>, n: nat, x: Action)
    requires n <= |entries|
    ensures x in StopCalls(entries, n) <==> IsStop(entries, n, x)
    decreases n
  {
    if n > 0 {
      StopIn(entries, n - 1, x);
    }
  }

  /** init() is called on exactly the entries in use, once each and in registration order, and so is shutdown(). */
  lemma {:induction false} InitFollowsRegistration(entries: seq<Entry>, oks: seq<bool>, n: nat)
    requires n <= |entries| == |oks|
    ensures InOrder(InitCalls(entries, oks, n), n)
    ensures forall x :: x in InitCalls(entries, oks, n) <==> IsInit(entries, oks, n, x)
    decreases n
  {
    hide InOrder, IsInit;
    if n == 0 {
      NothingInOrder();
    } else {
      InitFollowsRegistration(entries, oks, n - 1);
      InOrderOn(InitCalls(entries, oks, n - 1), if entries[n - 1].active then [Init(n - 1, entries[n - 1].m.id, oks[n - 1])] else [], n - 1);
    }
    forall x ensures x in InitCalls(entries, oks, n) <==> IsInit(entries, oks, n, x) {
      InitIn(entries, oks, n, x);
    }
  }

  lemma NothingInOrder()
    ensures InOrder([], 0)
  {}

  lemma {:induction false} ShutdownFollowsRegistration(entries: seq<Entry>, n: nat)
    requires n <= |entries|
    ensures InOrder(StopCalls(entries, n), n)
    ensures forall x :: x in StopCalls(entries, n) <==> IsStop(entries, n, x)
    decreases n
  {
    hide InOrder, IsStop;
    if n == 0 {
      NothingInOrder();
    } else {
      ShutdownFollowsRegistration(entries, n - 1);
      InOrderOn(StopCalls(entries, n - 1), if entries[n - 1].active then [Stop(n - 1, entries[n - 1].m.id)] else [], n - 1);
    }
    forall x ensures x in StopCalls(entries, n) <==> IsStop(entries, n, x) {
      StopIn(entries, n, x);
    }
  }
}

/** The scheduler in place, with the timers and the bus it drives. */
module SchedulerImpl {
  import opened Words
  import opened SchedulerSpec
  import opened EventBusImpl
  import opened TimerImpl
  import E = EventBusSpec
  import T = TimerSpec
  import TaktSpec
  import Sectors

  class Scheduler {
    const modules: array<Entry>
    var moduleCount: nat
    var totalTakts: nat
    var totalTaktUs: nat
    var maxTaktUs: nat
    var lastTaktUs: nat
    var overrunCount: u32
    var taktBudgetUs: u32
    var taktPeriodMs: u32
    const timers: TimerManager
    const bus: EventBus
    ghost var history: seq<Action>

    ghost predicate Valid()
      reads this
    {
      modules.Length == MAX_MODULES && moduleCount <= MAX_MODULES
    }

    ghost function Abstract(): Sched
      requires Valid()
      reads this, modules
    {
      Sched(modules[..moduleCount], totalTakts, totalTaktUs, maxTaktUs, lastTaktUs, overrunCount, history)
    }

    constructor (timers: TimerManager, bus: EventBus)
      ensures Valid() && Abstract() == BLANK && taktBudgetUs == 0 && taktPeriodMs == 1
      ensures this.timers == timers && this.bus == bus
    {
      this.timers, this.bus, taktPeriodMs := timers, bus, 1;
      modules := new Entry[MAX_MODULES](_ => Entry(Module(0, Static, 0), NO_STATS, false, 0));
      moduleCount, totalTakts, totalTaktUs, maxTaktUs, lastTaktUs, overrunCount, taktBudgetUs := 0, 0, 0, 0, 0, 0, 0;
      history := [];
    }

    /** Returns the module id, or 0xFFFF when the table is full. */
    method RegisterModule(m: Module) returns (id: nat)
      requires Valid()
      modifies this, modules
      ensures Valid() && Abstract() == Register(old(Abstract()), m)
      ensures taktBudgetUs == old(taktBudgetUs) && taktPeriodMs == old(taktPeriodMs)
      ensures id == if old(moduleCount) < 48 then old(moduleCount) else 0xFFFF
    {
      if moduleCount >= MAX_MODULES {
        return 0xFFFF;
      }
      modules[moduleCount] := Entry(m, NO_STATS.(state := Registered), true, totalTakts);
      id := moduleCount;
      moduleCount := moduleCount + 1;
    }

    method UnregisterModule(id: nat)
      requires Valid()
      modifies this, modules
      ensures Valid() && Abstract() == Unregister(old(Abstract()), id)
      ensures taktBudgetUs == old(taktBudgetUs) && taktPeriodMs == old(taktPeriodMs)
    {
      if id >= moduleCount {
        return;
      }
      history := history + [Stop(id, modules[id].m.id)];
      var stats := modules[id].stats;
      modules[id] := modules[id].(active := false, stats := stats.(state := Stopped));
    }

    /** oks: what each module's init() returns. */
    method InitAll(oks: seq<bool>) returns (ok: bool)
      requires Valid() && |oks| == moduleCount
      modifies this, modules
      ensures Valid() && Abstract() == SchedulerSpec.InitAll(old(Abstract()), oks)
      ensures taktBudgetUs == old(taktBudgetUs) && taktPeriodMs == old(taktPeriodMs)
      ensures ok <==> forall i | 0 <= i < |oks| && old(modules[i].active) :: oks[i]
    {
      ok := true;
      ghost var before, h := modules[..moduleCount], history;
      assert h + InitCalls(before, oks, 0) == h;
      for i := 0 to moduleCount
        invariant moduleCount == |before| == |oks| <= modules.Length
        invariant forall k | 0 <= k < i :: modules[k] == AfterInit(before[k], oks[k])
        invariant forall k | i <= k < moduleCount :: modules[k] == before[k]
        invariant history == h + InitCalls(before, oks, i)
        invariant ok <==> forall k | 0 <= k < i && before[k].active :: oks[k]
        modifies this`history, modules
      {
        if !modules[i].active {
          continue;
        }
        var stats := modules[i].stats;
        modules[i] := modules[i].(stats := stats.(state := Initializing));
        history := history + [Init(i, modules[i].m.id, oks[i])];
        if !oks[i] {
          modules[i] := modules[i].(stats := stats.(state := Error));
          ok := false;
        } else {
          modules[i] := modules[i].(stats := stats.(state := Ready));
        }
      }
    }

    static method ShouldRunModule(entry: Entry, hasWork: bool) returns (run: bool)
      ensures run == ShouldRun(entry, hasWork)
    {
      if !entry.active {
        return false;
      }
      if entry.stats.state != Ready && entry.stats.state != Running {
        return false;
      }
      if entry.m.kind == Background {
        return hasWork;
      }
      run := true;
    }

    /** One module's turn in a takt; its tick() may use the bus. */
    method RunModule(i: nat, hasWork: bool, before: nat, after: nat)
      requires Valid() && i < moduleCount && before <= after && bus.Valid()
      modifies this`history, modules, bus`queueTail, bus`queueCount, bus`trace, bus`subscriberCount, bus.queue, bus.subscriptions
      ensures modules[i] == AfterTakt(old(modules[i]), hasWork, after - before)
      ensures forall k | 0 <= k < modules.Length && k != i :: modules[k] == old(modules[k])
      ensures history == old(history) + if ShouldRun(old(modules[i]), hasWork) then [Tick(i, old(modules[i]).m.id)] else []
      ensures bus.Valid()
      ensures bus.State() == if ShouldRun(old(modules[i]), hasWork) then E.RunActor(bus.program, old(bus.State()), E.ModuleTick(i)) else old(bus.State())
    {
      hide EventBus.Valid, EventBus.State, E.RunActor;
      var stats := modules[i].stats;
      var run := ShouldRunModule(modules[i], hasWork);
      if !run {
        if modules[i].m.kind == Background {
          modules[i] := modules[i].(stats := stats.(skipCount := Wrap32(stats.skipCount + 1)));
        }
        return;
      }
      var modStart := before;
      stats := stats.(state := Running);
      history := history + [Tick(i, modules[i].m.id)];
      bus.RunActor(E.ModuleTick(i));
      var modElapsed: nat := after - modStart;
      stats := stats.(tickCount := stats.tickCount + 1, lastUs := modElapsed, totalUs := stats.totalUs + modElapsed);
      if modElapsed > stats.maxUs {
        stats := stats.(maxUs := modElapsed);
      }
      var budget := modules[i].m.budgetUs;
      if budget > 0 && modElapsed > budget {
        stats := stats.(overrunCount := Wrap32(stats.overrunCount + 1));
      }
      modules[i] := modules[i].(stats := stats.(state := Ready));
    }

    /** The module loop of one takt. */
    method RunModules(t: Takt)
      requires Valid() && Monotone(t, moduleCount) && bus.Valid()
      modifies this`history, modules, bus`queueTail, bus`queueCount, bus`trace, bus`subscriberCount, bus.queue, bus.subscriptions
      ensures forall k | 0 <= k < moduleCount :: modules[k] == AfterTakt(old(modules[k]), t.hasWork[k], Elapsed(t, k))
      ensures history == old(history) + TickCalls(old(modules[..moduleCount]), t.hasWork, moduleCount)
      ensures bus.Valid()
      ensures bus.State() == TaktSpec.Modules(bus.program, old(bus.State()), old(modules[..moduleCount]), t.hasWork, moduleCount)
    {
      assert bus.queue.Length == E.QUEUE_DEPTH;
      hide AfterTakt, ShouldRun, EventBus.Valid, EventBus.State, E.RunActor, TickCalls, TaktSpec.Modules;
      ghost var entries, h, b := modules[..moduleCount], history, bus.State();
      NoCalls(bus.program, b, h, entries, t.hasWork);
      for i := 0 to moduleCount
        invariant moduleCount == |entries| && bus.Valid()
        invariant forall k | 0 <= k < i :: modules[k] == AfterTakt(entries[k], t.hasWork[k], Elapsed(t, k))
        invariant forall k | i <= k < moduleCount :: modules[k] == entries[k]
        invariant history == h + TickCalls(entries, t.hasWork, i)
        invariant bus.State() == TaktSpec.Modules(bus.program, b, entries, t.hasWork, i)
      {
        NextCall(bus.program, b, h, entries, t.hasWork, i);
        RunModule(i, t.hasWork[i], t.before[i], t.after[i]);
      }
    }

    /**
     * One takt: timers, queue, modules, and the overrun event if it took too long.  t supplies the clock and
     * the answers of hasWork().
     */
    method RunTakt(t: Takt) returns (ghost i: TaktSpec.Input)
      requires Valid() && Monotone(t, moduleCount) && timers.Valid() && bus.Valid()
      modifies this, modules, timers.Members(), bus, bus.queue, bus.subscriptions
      ensures Valid() && timers.Valid() && bus.Valid() && moduleCount == old(moduleCount)
      ensures taktBudgetUs == old(taktBudgetUs) && taktPeriodMs == old(taktPeriodMs)
      ensures i.t == t && i.budgetUs == taktBudgetUs && |i.fires| == MAX_TIMERS
      ensures forall j | 0 <= j < MAX_TIMERS :: i.fires[j] == old(timers.FiresNext(j, taktPeriodMs))
      ensures timers.timers[..] == old(timers.timers[..])
      ensures forall x | x in timers.Members() :: x.State() == T.Ticks(old(x.State()), taktPeriodMs, Slots(timers.timers[..], x))
      ensures TaktSpec.Kernel(Abstract(), bus.State())
           == TaktSpec.RunTakt(bus.program, TaktSpec.Kernel(old(Abstract()), old(bus.State())), i)
    {
      hide T.Ticks, Slots, SchedulerSpec.RunTakt, TaktSpec.Ticked, TaktSpec.Drained, EventBus.Valid, EventBus.State, TimerManager.FiresNext, Monotone;
      ghost var fires := StartTakt();
      i := TaktSpec.Input(fires, t, taktBudgetUs);
      FinishTakt(t, i);
    }

    ghost function State(): TaktSpec.Kernel
      requires Valid() && bus.queue.Length == E.QUEUE_DEPTH
      reads this, modules, bus, bus.queue, bus.subscriptions
    {
      TaktSpec.Kernel(Abstract(), bus.State())
    }

    /**
     * Any number of takts, as the takt loop runs them, seen from a timer that is registered in one slot.  Its
     * callback runs as often as the timer alone would fire: once per period if it repeats and was just started.
     */
    method RunTakts(takts: seq<Takt>, ghost slot: nat, ghost timer: Timer) returns (ghost steps: seq<TaktSpec.Step>)
      requires Valid() && timers.Valid() && bus.Valid() && forall j | 0 <= j < |takts| :: Monotone(takts[j], moduleCount)
      requires slot < MAX_TIMERS && timers.timers[slot] == timer && Slots(timers.timers[..], timer) == 1
      modifies this, modules, timers.Members(), bus, bus.queue, bus.subscriptions
      ensures Valid() && timers.Valid() && bus.Valid() && taktPeriodMs == old(taktPeriodMs)
      ensures |steps| == |takts| && forall j | 0 <= j < |takts| :: steps[j].TaktStep? && steps[j].i.t == takts[j]
      ensures TaktSpec.Sound(bus.program, old(State())) && TaktSpec.AllFit(bus.program, old(State()), steps)
      ensures State() == TaktSpec.Run(bus.program, old(State()), steps)
      ensures timer.State() == T.Ticks(old(timer.State()), taktPeriodMs, |takts|)
      ensures TaktSpec.FiresLike(TaktSpec.Takts(steps), slot, old(timer.State()), taktPeriodMs)
      ensures var callbacks := TaktSpec.Runs(bus.State(), E.TimerCallback(slot)) - TaktSpec.Runs(old(bus.State()), E.TimerCallback(slot));
        var t := old(timer.State());
        && callbacks == T.Fired(t, taktPeriodMs, |takts|)
        && (t.repeat && t == T.Start(t) && taktPeriodMs > 0 && Sectors.Times(T.Period(t.intervalMs, taktPeriodMs), taktPeriodMs) < 0x1_0000_0000 ==>
              callbacks == |takts| / T.Period(t.intervalMs, taktPeriodMs))
    {
      assert bus.queue.Length == E.QUEUE_DEPTH;
      hide Progress, T.Ticks, T.Fired, Slots, TaktSpec.Run, TaktSpec.AllFit, TaktSpec.FiresLike, TaktSpec.Runs, TaktSpec.Takts, TaktSpec.Sound,
        EventBus.Valid, EventBus.State, TimerManager.Valid, Monotone;
      ghost var k, t, d := State(), timer.State(), taktPeriodMs;
      steps := TaktLoop(takts, slot, timer);
      ProgressMeans(bus.program, k, takts, steps, State(), slot, t, d, timer.State());
      TaktSpec.TimerCallbacksKeepTime(bus.program, k, steps, slot, t, d);
      if t.repeat && t == T.Start(t) && d > 0 && Sectors.Times(T.Period(t.intervalMs, d), d) < 0x1_0000_0000 {
        TaktSpec.RepeatingCallbacks(bus.program, k, steps, slot, t, d);
      }
    }

    /** The takt loop itself. */
    method TaktLoop(takts: seq<Takt>, ghost slot: nat, ghost timer: Timer) returns (ghost steps: seq<TaktSpec.Step>)
      requires Valid() && timers.Valid() && bus.Valid() && forall j | 0 <= j < |takts| :: Monotone(takts[j], moduleCount)
      requires slot < MAX_TIMERS && timers.timers[slot] == timer && Slots(timers.timers[..], timer) == 1
      modifies this, modules, timers.Members(), bus, bus.queue, bus.subscriptions
      ensures Valid() && timers.Valid() && bus.Valid() && taktPeriodMs == old(taktPeriodMs)
      ensures |steps| == |takts|
      ensures Progress(bus.program, old(State()), takts, steps, State(), slot, old(timer.State()), taktPeriodMs, timer.State())
    {
      assert bus.queue.Length == E.QUEUE_DEPTH;
      BusSound();
      hide Progress, Slots, EventBus.Valid, EventBus.State, TimerManager.Valid, Monotone, T.Tick, TaktSpec.RunTakt, TaktSpec.Sound;
      ghost var k, t, d := State(), timer.State(), taktPeriodMs;
      steps := [];
      NoTaktsYet(bus.program, k, takts, slot, t, d);
      for j := 0 to |takts|
        invariant Valid() && timers.Valid() && bus.Valid() && taktPeriodMs == d && moduleCount == |k.sched.entries|
        invariant timers.timers[..] == old(timers.timers[..]) && timers.Members() == old(timers.Members())
        invariant |steps| == j && Progress(bus.program, k, takts, steps, State(), slot, t, d, timer.State())
      {
        ghost var now, was := State(), timer.State();
        ghost var i := NextTakt(takts[j], slot, timer);
        TaktOnward(bus.program, k, takts, steps, now, i, slot, t, d, was);
        steps := steps + [TaktSpec.TaktStep(i)];
      }
    }

    lemma BusSound()
      requires Valid() && bus.Valid()
      ensures TaktSpec.Sound(bus.program, State())
    {}

    /** One takt, seen from that timer. */
    method NextTakt(t: Takt, ghost slot: nat, ghost timer: Timer) returns (ghost i: TaktSpec.Input)
      requires Valid() && Monotone(t, moduleCount) && timers.Valid() && bus.Valid()
      requires slot < MAX_TIMERS && timers.timers[slot] == timer && Slots(timers.timers[..], timer) == 1
      modifies this, modules, timers.Members(), bus, bus.queue, bus.subscriptions
      ensures Valid() && timers.Valid() && bus.Valid() && taktPeriodMs == old(taktPeriodMs) && moduleCount == old(moduleCount)
      ensures timers.timers[..] == old(timers.timers[..]) && timers.Members() == old(timers.Members())
      ensures i.t == t && slot < |i.fires| && (timer.State(), i.fires[slot]) == T.Tick(old(timer.State()), taktPeriodMs)
      ensures State() == TaktSpec.RunTakt(bus.program, old(State()), i)
    {
      hide T.Tick, T.Ticks, Slots, TaktSpec.Drained, TaktSpec.Ticked, EventBus.Valid, EventBus.State, Used, Monotone;
      assert timer in timers.Members();
      assert timers.timers[..][slot] == timer && timers.timers[..][..slot] == timers.timers[..slot];
      OnlySlot(timers.timers[..], slot, timer);
      OneTick(timer.State(), taktPeriodMs);
      i := RunTakt(t);
    }

    /** The timer tick and the queue. */
    method StartTakt() returns (ghost fires: seq<bool>)
      requires Valid() && timers.Valid() && bus.Valid()
      modifies timers.Members(), bus, bus.queue, bus.subscriptions
      ensures timers.Valid() && bus.Valid() && Abstract() == old(Abstract())
      ensures |fires| == MAX_TIMERS && forall j | 0 <= j < MAX_TIMERS :: fires[j] == old(timers.FiresNext(j, taktPeriodMs))
      ensures timers.timers[..] == old(timers.timers[..])
      ensures forall x | x in timers.Members() :: x.State() == T.Ticks(old(x.State()), taktPeriodMs, Slots(timers.timers[..], x))
      ensures bus.State() == TaktSpec.Drained(bus.program, old(bus.State()), fires)
    {
      hide T.Ticks, T.Fired, Slots, EventBus.State, E.Drain, TaktSpec.Timers, E.Balanced, E.Ranked, Ring, ActiveCount, TimerManager.FiresNext;
      fires := timers.TickAll(taktPeriodMs, bus);
      bus.DispatchQueued();
    }

    /** The modules, the statistics, and the overrun event. */
    method FinishTakt(t: Takt, ghost i: TaktSpec.Input)
      requires Valid() && Monotone(t, moduleCount) && bus.Valid() && i.t == t && i.budgetUs == taktBudgetUs
      modifies this, modules, bus`queueTail, bus`queueCount, bus`trace, bus`subscriberCount, bus.queue, bus.subscriptions
      ensures Valid() && bus.Valid() && moduleCount == old(moduleCount)
      ensures taktBudgetUs == old(taktBudgetUs) && taktPeriodMs == old(taktPeriodMs)
      ensures Abstract() == SchedulerSpec.RunTakt(old(Abstract()), t, taktBudgetUs)
      ensures bus.State() == TaktSpec.Ticked(bus.program, old(bus.State()), old(Abstract()).entries, i)
    {
      hide AfterTakt, TickCalls, EventBus.Valid, EventBus.State, TaktSpec.Modules, E.DispatchFrom;
      RunModules(t);
      var overran := Account(t.end - t.start);
      if overran {
        bus.PublishEvent(E.EventData(TaktSpec.TAKT_OVERRUN, Wrap32(t.end - t.start), taktBudgetUs, []));
      }
    }

    /** The scheduler's own statistics, and whether the takt took too long. */
    method Account(taktElapsed: nat) returns (overran: bool)
      modifies this`totalTakts, this`lastTaktUs, this`totalTaktUs, this`maxTaktUs, this`overrunCount
      ensures overran == (taktBudgetUs > 0 && taktElapsed > taktBudgetUs)
      ensures totalTakts == old(totalTakts) + 1 && lastTaktUs == taktElapsed && totalTaktUs == old(totalTaktUs) + taktElapsed
      ensures maxTaktUs == if taktElapsed > old(maxTaktUs) then taktElapsed else old(maxTaktUs)
      ensures overrunCount == if overran then Wrap32(old(overrunCount) + 1) else old(overrunCount)
    {
      totalTakts := totalTakts + 1;
      lastTaktUs := taktElapsed;
      totalTaktUs := totalTaktUs + taktElapsed;
      if taktElapsed > maxTaktUs {
        maxTaktUs := taktElapsed;
      }
      overran := taktBudgetUs > 0 && taktElapsed > taktBudgetUs;
      if overran {
        overrunCount := Wrap32(overrunCount + 1);
      }
    }

    method ShutdownAll()
      requires Valid()
      modifies this, modules
      ensures Valid() && Abstract() == SchedulerSpec.ShutdownAll(old(Abstract()))
      ensures taktBudgetUs == old(taktBudgetUs) && taktPeriodMs == old(taktPeriodMs)
    {
      ghost var before, h := modules[..moduleCount], history;
      assert h + StopCalls(before, 0) == h;
      for i := 0 to moduleCount
        invariant moduleCount == |before| && Valid()
        invariant forall k | 0 <= k < i :: modules[k] == AfterShutdown(before[k])
        invariant forall k | i <= k < moduleCount :: modules[k] == before[k]
        invariant history == h + StopCalls(before, i)
        modifies this`history, modules
      {
        if modules[i].active {
          history := history + [Stop(i, modules[i].m.id)];
          var stats := modules[i].stats;
          modules[i] := modules[i].(stats := stats.(state := Stopped));
        }
      }
    }
  }

  lemma NoCalls(p: E.Program, b: E.Bus, h: seq<Action>, entries: seq<Entry>, hasWork: seq<bool>)
    requires |entries| == |hasWork|
    ensures h + TickCalls(entries, hasWork, 0) == h && TaktSpec.Modules(p, b, entries, hasWork, 0) == b
  {}

  /** What the next entry's turn adds to the history and does on the bus. */
  lemma NextCall(p: E.Program, b: E.Bus, h: seq<Action>, entries: seq<Entry>, hasWork: seq<bool>, i: nat)
    requires i < |entries| == |hasWork|
    ensures h + TickCalls(entries, hasWork, i + 1)
         == h + TickCalls(entries, hasWork, i) + if ShouldRun(entries[i], hasWork[i]) then [Tick(i, entries[i].m.id)] else []
    ensures TaktSpec.Modules(p, b, entries, hasWork, i + 1)
         == (var c := TaktSpec.Modules(p, b, entries, hasWork, i);
             if ShouldRun(entries[i], hasWork[i]) then E.RunActor(p, c, E.ModuleTick(i)) else c)
  {
    hide ShouldRun, E.RunActor;
  }

  lemma OneTick(t: T.TimerState, d: u32)
    ensures T.Ticks(t, d, 0) == t && T.Ticks(t, d, 1) == T.Tick(t, d).0
  {
    hide T.Tick;
    assert T.Ticks(T.Tick(t, d).0, d, 0) == T.Tick(t, d).0;
  }

  /** Steps for the first takts: they lead from k to now, and one slot fires in them as the timer in it, which is where it should be. */
  ghost predicate Progress(p: E.Program, k: TaktSpec.Kernel, takts: seq<Takt>, steps: seq<TaktSpec.Step>, now: TaktSpec.Kernel,
      slot: nat, t: T.TimerState, d: u32, timer: T.TimerState)
  {
    && |steps| <= |takts| && (forall j | 0 <= j < |steps| :: steps[j].TaktStep? && steps[j].i.t == takts[j])
    && TaktSpec.Sound(p, k) && TaktSpec.AllFit(p, k, steps) && now == TaktSpec.Run(p, k, steps)
    && |TaktSpec.Takts(steps)| == |steps| && TaktSpec.FiresLike(TaktSpec.Takts(steps), slot, t, d)
    && timer == T.Ticks(t, d, |steps|)
  }

  lemma ProgressMeans(p: E.Program, k: TaktSpec.Kernel, takts: seq<Takt>, steps: seq<TaktSpec.Step>, now: TaktSpec.Kernel,
      slot: nat, t: T.TimerState, d: u32, timer: T.TimerState)
    requires Progress(p, k, takts, steps, now, slot, t, d, timer)
    ensures |steps| <= |takts| && forall j | 0 <= j < |steps| :: steps[j].TaktStep? && steps[j].i.t == takts[j]
    ensures TaktSpec.Sound(p, k) && TaktSpec.AllFit(p, k, steps) && now == TaktSpec.Run(p, k, steps)
    ensures |TaktSpec.Takts(steps)| == |steps| && TaktSpec.FiresLike(TaktSpec.Takts(steps), slot, t, d)
    ensures timer == T.Ticks(t, d, |steps|)
  {
    hide T.Ticks, TaktSpec.Sound, TaktSpec.AllFit, TaktSpec.Run, TaktSpec.FiresLike, TaktSpec.Takts;
  }

  lemma NoTaktsYet(p: E.Program, k: TaktSpec.Kernel, takts: seq<Takt>, slot: nat, t: T.TimerState, d: u32)
    requires TaktSpec.Sound(p, k)
    ensures Progress(p, k, takts, [], k, slot, t, d, t)
  {
    hide TaktSpec.Sound;
    OneTick(t, d);
  }

  /** A takt more, for the run, the flags of a slot and the timer in it. */
  lemma TaktOnward(p: E.Program, k: TaktSpec.Kernel, takts: seq<Takt>, steps: seq<TaktSpec.Step>, now: TaktSpec.Kernel,
      i: TaktSpec.Input, slot: nat, t: T.TimerState, d: u32, timer: T.TimerState)
    requires Progress(p, k, takts, steps, now, slot, t, d, timer) && |steps| < |takts| && i.t == takts[|steps|]
    requires Monotone(i.t, |now.sched.entries|) && TaktSpec.Sound(p, now)
    requires slot < |i.fires| && i.fires[slot] == T.Tick(timer, d).1
    ensures Progress(p, k, takts, steps + [TaktSpec.TaktStep(i)], TaktSpec.RunTakt(p, now, i), slot, t, d, T.Tick(timer, d).0)
  {
    hide T.Tick, T.Ticks, TaktSpec.Sound, TaktSpec.AllFit, TaktSpec.Run, TaktSpec.RunTakt, TaktSpec.FiresLike, TaktSpec.Takts, Monotone;
    TaktSpec.RunOnward(p, k, steps, TaktSpec.TaktStep(i));
    TaktSpec.TaktsOnward(steps, i);
    TaktSpec.FiresLikeMore(TaktSpec.Takts(steps), i, slot, t, d);
    OneMoreTick(t, d, |steps|);
  }
}
