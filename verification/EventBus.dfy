/**
 * kernel/src/event_bus.cpp: what publishing and draining the event queue do, when callbacks publish,
 * enqueue, subscribe and unsubscribe themselves.
 */
module EventBusSpec {
  import opened Words
  import opened Sectors

  const MAX_SUBSCRIBERS: nat := 32
  const QUEUE_DEPTH: nat := 64

  datatype EventData = EventData(id: nat, param1: u32, param2: u32, blob: seq<byte>)

  /** `callback` names a function; 0 is the null pointer. */
  datatype Subscription = Subscription(event: nat, callback: nat, userData: nat, active: bool)

  /** What a running callback asks of the bus next; with Return it is done. */
  datatype Request =
    | Enqueue(e: EventData)
    | Publish(e: EventData)
    | Subscribe(event: nat, callback: nat, userData: nat)
    | Unsubscribe(handle: int)
    | Return

  /** Code of the program that runs outside a dispatch: the callback of a timer slot, or the tick() of a scheduler entry. */
  datatype Actor = TimerCallback(slot: nat) | ModuleTick(entry: nat)

  /** Everything that happens on the bus, with the results that callbacks see. */
  datatype Effect =
    | Delivered(e: EventData)
    | Called(slot: nat, callback: nat, userData: nat, e: EventData)
    | Attempted(e: EventData, taken: bool)
    | Raised(e: EventData)
    | Subscribed(handle: int, event: nat, callback: nat, userData: nat)
    | Unsubscribed(handle: int)
    | Resumed(who: Actor)

  /**
   * The program's callbacks.  `react` gives a running callback's next request; it may depend on all that
   * has happened so far, and so on whatever the callbacks keep in memory.  `patience` bounds the requests of
   * one call: callbacks return.  `rank` bounds how events lead to further events.  `act` and `stamina` are
   * the same for timer callbacks and modules, which may raise events of any rank.
   */
  datatype Program = Program(
    react: (seq<Effect>, nat, nat, EventData) -> Request,
    patience: (seq<Effect>, nat, nat, EventData) -> nat,
    rank: EventData -> nat,
    act: (seq<Effect>, Actor) -> Request,
    stamina: (seq<Effect>, Actor) -> nat)

  /** Every event a callback raises or queues has a smaller rank than the event it was called for. */
  ghost predicate Ranked(p: Program) {
    forall history, callback, userData, e :: Descends(p, p.react(history, callback, userData, e), e)
  }

  predicate Descends(p: Program, q: Request, e: EventData) {
    match q
    case Enqueue(x) => p.rank(x) < p.rank(e)
    case Publish(x) => p.rank(x) < p.rank(e)
    case _ => true
  }

  /** The bus: its slots, its queue, and the history. */
  datatype Bus = Bus(subs: seq<Subscription>, queue: seq<EventData>, trace: seq<Effect>)
  {
    function Noting(x: Effect): Bus { this.(trace := trace + [x]) }
  }

  predicate Listens(sub: Subscription, e: EventData) {
    sub.active && sub.event == e.id && sub.callback != 0
  }

  // ---------------------------------------------------------------- the calls

  /** The first slot from i on that is not in use, or -1. */
  function FreeSlot(subs: seq<Subscription>, i: nat): (h: int)
    requires i <= |subs|
    ensures h == -1 || (i <= h < |subs| && !subs[h].active)
    ensures forall k | i <= k < |subs| && (h == -1 || k < h) :: subs[k].active
    decreases |subs| - i
  {
    if i == |subs| then -1 else if !subs[i].active then i else FreeSlot(subs, i + 1)
  }

  function DoSubscribe(b: Bus, event: nat, callback: nat, userData: nat): Bus {
    var h := FreeSlot(b.subs, 0);
    if h == -1 then b.Noting(Subscribed(-1, event, callback, userData))
    else b.(subs := b.subs[h := Subscription(event, callback, userData, true)]).Noting(Subscribed(h, event, callback, userData))
  }

  function DoUnsubscribe(b: Bus, handle: int): Bus {
    if handle < 0 || handle >= |b.subs| then b.Noting(Unsubscribed(handle))
    else b.(subs := b.subs[handle := b.subs[handle].(active := false)]).Noting(Unsubscribed(handle))
  }

  function DoEnqueue(b: Bus, e: EventData): Bus {
    if |b.queue| >= QUEUE_DEPTH then b.Noting(Attempted(e, false))
    else b.(queue := b.queue + [e]).Noting(Attempted(e, true))
  }

  /** Dispatching e to the slots from i on. */
  function DispatchFrom(p: Program, b: Bus, e: EventData, i: nat): (c: Bus)
    requires i <= |b.subs|
    ensures |c.subs| == |b.subs|
    decreases p.rank(e), 1, |b.subs| - i, 0
  {
    if i == |b.subs| then b
    else if !Listens(b.subs[i], e) then DispatchFrom(p, b, e, i + 1)
    else
      var sub := b.subs[i];
      var started := b.Noting(Called(i, sub.callback, sub.userData, e));
      DispatchFrom(p, Callback(p, started, sub.callback, sub.userData, e, p.patience(b.trace, sub.callback, sub.userData, e)), e, i + 1)
  }

  /** A callback runs until it returns, for at most `left` requests. */
  function Callback(p: Program, b: Bus, callback: nat, userData: nat, e: EventData, left: nat): (c: Bus)
    ensures |c.subs| == |b.subs|
    decreases p.rank(e), 0, left, 1
  {
    if left == 0 then b
    else
      var q := p.react(b.trace, callback, userData, e);
      if q.Return? then b else Callback(p, Serve(p, b, e, q), callback, userData, e, left - 1)
  }

  /** One request of a callback that was called for e. */
  function Serve(p: Program, b: Bus, e: EventData, q: Request): (c: Bus)
    ensures |c.subs| == |b.subs|
    decreases p.rank(e), 0, 0, 0
  {
    match q
    case Enqueue(x) => DoEnqueue(b, x)
    case Publish(x) => if p.rank(x) < p.rank(e) then DispatchFrom(p, b.Noting(Raised(x)), x, 0) else b
    case Subscribe(event, callback, userData) => DoSubscribe(b, event, callback, userData)
    case Unsubscribe(handle) => DoUnsubscribe(b, handle)
    case Return => b
  }

  /** dispatchQueued takes out the oldest event and dispatches it. */
  function Deliver(p: Program, b: Bus): Bus
    requires |b.queue| > 0
  {
    DispatchFrom(p, b.(queue := b.queue[1..]).Noting(Delivered(b.queue[0])), b.queue[0], 0)
  }

  /** A timer callback or a module at work: it asks for one thing after the other until it returns. */
  function RunActor(p: Program, b: Bus, who: Actor): (c: Bus)
    ensures |c.subs| == |b.subs|
  {
    Act(p, b.Noting(Resumed(who)), who, p.stamina(b.trace, who))
  }

  function Act(p: Program, b: Bus, who: Actor, left: nat): (c: Bus)
    ensures |c.subs| == |b.subs|
    decreases left
  {
    if left == 0 then b
    else
      var q := p.act(b.trace, who);
      if q.Return? then b else Act(p, Grant(p, b, q), who, left - 1)
  }

  /** One request from outside a dispatch. */
  function Grant(p: Program, b: Bus, q: Request): (c: Bus)
    ensures |c.subs| == |b.subs|
  {
    match q
    case Enqueue(x) => DoEnqueue(b, x)
    case Publish(x) => DispatchFrom(p, b.Noting(Raised(x)), x, 0)
    case Subscribe(event, callback, userData) => DoSubscribe(b, event, callback, userData)
    case Unsubscribe(handle) => DoUnsubscribe(b, handle)
    case Return => b
  }

  // ---------------------------------------------------------------- reading the history

  /** The events the queue accepted, in order. */
  function Taken(trace: seq<Effect>): seq<EventData> {
    if |trace| == 0 then []
    else
      var x := trace[|trace| - 1];
      Taken(trace[..|trace| - 1]) + if x.Attempted? && x.taken then [x.e] else []
  }

  /** The events dispatchQueued took out, in order. */
  function Out(trace: seq<Effect>): seq<EventData> {
    if |trace| == 0 then []
    else
      var x := trace[|trace| - 1];
      Out(trace[..|trace| - 1]) + if x.Delivered? then [x.e] else []
  }

  /** The slots called for an event, in order. */
  function CallsFor(trace: seq<Effect>, e: EventData): seq<nat> {
    if |trace| == 0 then []
    else
      var x := trace[|trace| - 1];
      CallsFor(trace[..|trace| - 1], e) + if x.Called? && x.e == e then [x.slot] else []
  }

  /** The timer callbacks and modules that ran, in order. */
  function Resumptions(trace: seq<Effect>): seq<Actor> {
    if |trace| == 0 then []
    else
      var x := trace[|trace| - 1];
      Resumptions(trace[..|trace| - 1]) + if x.Resumed? then [x.who] else []
  }

  lemma {:induction false} Noted(trace: seq<Effect>, x: Effect)
    ensures Taken(trace + [x]) == Taken(trace) + if x.Attempted? && x.taken then [x.e] else []
    ensures Out(trace + [x]) == Out(trace) + if x.Delivered? then [x.e] else []
    ensures Resumptions(trace + [x]) == Resumptions(trace) + if x.Resumed? then [x.who] else []
    ensures forall e :: CallsFor(trace + [x], e) == CallsFor(trace, e) + if x.Called? && x.e == e then [x.slot] else []
  {
    assert (trace + [x])[..|trace|] == trace;
  }

  // ---------------------------------------------------------------- what a dispatch can do to the queue

  ghost predicate AllBelow(p: Program, q: seq<EventData>, r: nat) {
    forall k | 0 <= k < |q| :: p.rank(q[k]) < r
  }

  /** From b to c the history went on and the queue took events, and nothing was taken out. */
  ghost predicate Extends(b: Bus, c: Bus) {
    && b.trace <= c.trace && b.queue <= c.queue && |c.queue| <= QUEUE_DEPTH
    && Taken(c.trace) == Taken(b.trace) + c.queue[|b.queue|..]
    && Out(c.trace) == Out(b.trace)
  }

  /** The same without any other code running, and with events of rank below r. */
  ghost predicate Grows(p: Program, b: Bus, c: Bus, r: nat) {
    && Extends(b, c)
    && AllBelow(p, c.queue[|b.queue|..], r)
    && Resumptions(c.trace) == Resumptions(b.trace)
  }

  lemma {:induction false} ExtendsOn(b: Bus, c: Bus, d: Bus)
    requires Extends(b, c) && Extends(c, d)
    ensures Extends(b, d)
  {
    hide Taken, Out;
    var x, y := c.queue[|b.queue|..], d.queue[|c.queue|..];
    assert d.queue[|b.queue|..] == x + y;
  }

  lemma {:induction false} GrowsOn(p: Program, b: Bus, c: Bus, d: Bus, r: nat)
    requires Grows(p, b, c, r) && Grows(p, c, d, r)
    ensures Grows(p, b, d, r)
  {
    hide Taken, Out, Resumptions;
    ExtendsOn(b, c, d);
    var x, y := c.queue[|b.queue|..], d.queue[|c.queue|..];
    assert d.queue[|b.queue|..] == x + y;
  }

  lemma {:induction false} GrowsWider(p: Program, b: Bus, c: Bus, r: nat, s: nat)
    requires Grows(p, b, c, r) && r <= s
    ensures Grows(p, b, c, s)
  {}

  lemma {:induction false} NotingGrows(p: Program, b: Bus, x: Effect, r: nat)
    requires |b.queue| <= QUEUE_DEPTH && !x.Delivered? && !(x.Attempted? && x.taken) && !x.Resumed?
    ensures Grows(p, b, b.Noting(x), r)
  {
    Noted(b.trace, x);
  }

  lemma {:induction false} EnqueueGrows(p: Program, b: Bus, e: EventData, r: nat)
    requires |b.queue| <= QUEUE_DEPTH && p.rank(e) < r
    ensures Grows(p, b, DoEnqueue(b, e), r)
  {
    if |b.queue| >= QUEUE_DEPTH {
      NotingGrows(p, b, Attempted(e, false), r);
    } else {
      Noted(b.trace, Attempted(e, true));
      assert (b.queue + [e])[|b.queue|..] == [e];
    }
  }

  /** A dispatch, with everything its callbacks do, only lets the queue grow, by events of smaller rank. */
  lemma {:induction false} DispatchGrows(p: Program, b: Bus, e: EventData, i: nat)
    requires Ranked(p) && i <= |b.subs| && |b.queue| <= QUEUE_DEPTH
    ensures Grows(p, b, DispatchFrom(p, b, e, i), p.rank(e))
    decreases p.rank(e), 1, |b.subs| - i, 0
  {
    hide Ranked, Grows, Callback;
    if i == |b.subs| {
      GrowsNothing(p, b, p.rank(e));
    } else if !Listens(b.subs[i], e) {
      DispatchGrows(p, b, e, i + 1);
    } else {
      var sub := b.subs[i];
      var started := b.Noting(Called(i, sub.callback, sub.userData, e));
      var limit := p.patience(b.trace, sub.callback, sub.userData, e);
      var after := Callback(p, started, sub.callback, sub.userData, e, limit);
      NotingGrows(p, b, Called(i, sub.callback, sub.userData, e), p.rank(e));
      CallbackGrows(p, started, sub.callback, sub.userData, e, limit);
      QueueFits(p, started, after, p.rank(e));
      DispatchGrows(p, after, e, i + 1);
      GrowsOn(p, b, started, after, p.rank(e));
      GrowsOn(p, b, after, DispatchFrom(p, after, e, i + 1), p.rank(e));
    }
  }

  lemma {:induction false} GrowsNothing(p: Program, b: Bus, r: nat)
    requires |b.queue| <= QUEUE_DEPTH
    ensures Grows(p, b, b, r)
  {}

  lemma {:induction false} QueueFits(p: Program, b: Bus, c: Bus, r: nat)
    requires Grows(p, b, c, r)
    ensures |c.queue| <= QUEUE_DEPTH
  {}

  lemma {:induction false} CallbackGrows(p: Program, b: Bus, callback: nat, userData: nat, e: EventData, left: nat)
    requires Ranked(p) && |b.queue| <= QUEUE_DEPTH
    ensures Grows(p, b, Callback(p, b, callback, userData, e, left), p.rank(e))
    decreases p.rank(e), 0, left, 1
  {
    hide Grows, Serve;
    GrowsNothing(p, b, p.rank(e));
    if left > 0 {
      var q := p.react(b.trace, callback, userData, e);
      if !q.Return? {
        assert Descends(p, q, e);
        var served := Serve(p, b, e, q);
        ServeGrows(p, b, e, q);
        QueueFits(p, b, served, p.rank(e));
        CallbackGrows(p, served, callback, userData, e, left - 1);
        GrowsOn(p, b, served, Callback(p, served, callback, userData, e, left - 1), p.rank(e));
      }
    }
  }

  lemma {:induction false} ServeGrows(p: Program, b: Bus, e: EventData, q: Request)
    requires Ranked(p) && |b.queue| <= QUEUE_DEPTH && Descends(p, q, e)
    ensures Grows(p, b, Serve(p, b, e, q), p.rank(e))
    decreases p.rank(e), 0, 0, 0
  {
    hide Grows, DispatchFrom, Ranked;
    match q
    case Enqueue(x) => EnqueueGrows(p, b, x, p.rank(e));
    case Publish(x) =>
      var raised := b.Noting(Raised(x));
      NotingGrows(p, b, Raised(x), p.rank(e));
      DispatchGrows(p, raised, x, 0);
      GrowsWider(p, raised, DispatchFrom(p, raised, x, 0), p.rank(x), p.rank(e));
      GrowsOn(p, b, raised, DispatchFrom(p, raised, x, 0), p.rank(e));
    case Subscribe(event, callback, userData) => SubscribeGrows(p, b, event, callback, userData, p.rank(e));
    case Unsubscribe(handle) => UnsubscribeGrows(p, b, handle, p.rank(e));
    case Return => GrowsNothing(p, b, p.rank(e));
  }

  lemma {:induction false} SubscribeGrows(p: Program, b: Bus, event: nat, callback: nat, userData: nat, r: nat)
    requires |b.queue| <= QUEUE_DEPTH
    ensures Grows(p, b, DoSubscribe(b, event, callback, userData), r)
  {
    Noted(b.trace, Subscribed(FreeSlot(b.subs, 0), event, callback, userData));
  }

  lemma {:induction false} UnsubscribeGrows(p: Program, b: Bus, handle: int, r: nat)
    requires |b.queue| <= QUEUE_DEPTH
    ensures Grows(p, b, DoUnsubscribe(b, handle), r)
  {
    Noted(b.trace, Unsubscribed(handle));
  }

  // ---------------------------------------------------------------- code outside a dispatch

  /** A request from outside a dispatch lets the queue grow, by events of any rank. */
  lemma {:induction false} GrantExtends(p: Program, b: Bus, q: Request)
    requires Ranked(p) && |b.queue| <= QUEUE_DEPTH
    ensures Extends(b, Grant(p, b, q)) && Resumptions(Grant(p, b, q).trace) == Resumptions(b.trace)
  {
    hide Ranked, DispatchFrom, Taken, Out, Resumptions;
    match q
    case Enqueue(x) => EnqueueGrows(p, b, x, p.rank(x) + 1);
    case Publish(x) =>
      var raised := b.Noting(Raised(x));
      NotingGrows(p, b, Raised(x), p.rank(x));
      DispatchGrows(p, raised, x, 0);
      GrowsOn(p, b, raised, DispatchFrom(p, raised, x, 0), p.rank(x));
    case Subscribe(event, callback, userData) => SubscribeGrows(p, b, event, callback, userData, 0);
    case Unsubscribe(handle) => UnsubscribeGrows(p, b, handle, 0);
    case Return => GrowsNothing(p, b, 0);
  }

  lemma {:induction false} ActExtends(p: Program, b: Bus, who: Actor, left: nat)
    requires Ranked(p) && |b.queue| <= QUEUE_DEPTH
    ensures Extends(b, Act(p, b, who, left)) && Resumptions(Act(p, b, who, left).trace) == Resumptions(b.trace)
    decreases left
  {
    hide Ranked, Grant, Extends, Resumptions;
    ExtendsNothing(b);
    if left > 0 {
      var q := p.act(b.trace, who);
      if !q.Return? {
        var c := Grant(p, b, q);
        GrantExtends(p, b, q);
        ExtendedFits(b, c);
        ActExtends(p, c, who, left - 1);
        ExtendsOn(b, c, Act(p, c, who, left - 1));
      }
    }
  }

  lemma {:induction false} ExtendsNothing(b: Bus)
    requires |b.queue| <= QUEUE_DEPTH
    ensures Extends(b, b)
  {}

  lemma {:induction false} ExtendedFits(b: Bus, c: Bus)
    requires Extends(b, c)
    ensures |c.queue| <= QUEUE_DEPTH && (Balanced(b) ==> Balanced(c))
  {
    hide Taken, Out;
  }

  /** A timer callback or a module at work only lets the queue grow, and is recorded once. */
  lemma {:induction false} ActorExtends(p: Program, b: Bus, who: Actor)
    requires Ranked(p) && |b.queue| <= QUEUE_DEPTH
    ensures var c := RunActor(p, b, who); Extends(b, c) && Resumptions(c.trace) == Resumptions(b.trace) + [who]
  {
    hide Ranked, Act, Taken, Out, Resumptions;
    Noted(b.trace, Resumed(who));
    var started := b.Noting(Resumed(who));
    assert Extends(b, started);
    ActExtends(p, started, who, p.stamina(b.trace, who));
    ExtendsOn(b, started, RunActor(p, b, who));
  }

  // ---------------------------------------------------------------- the measure

  /** One event of rank r outweighs a whole queue of events of smaller rank. */
  function Power(r: nat): (w: nat)
    ensures w > 0
  {
    if r == 0 then 1 else 65 * Power(r - 1)
  }

  function Weight(p: Program, q: seq<EventData>): nat {
    if |q| == 0 then 0 else Power(p.rank(q[0])) + Weight(p, q[1..])
  }

  lemma {:induction false} PowerMonotone(r: nat, s: nat)
    requires r <= s
    ensures Power(r) <= Power(s)
    decreases s
  {
    if r < s {
      PowerMonotone(r, s - 1);
    }
  }

  lemma {:induction false} WeightAppend(p: Program, a: seq<EventData>, b: seq<EventData>)
    ensures Weight(p, a + b) == Weight(p, a) + Weight(p, b)
    decreases |a|
  {
    if |a| == 0 {
      assert a + b == b;
    } else {
      assert (a + b)[1..] == a[1..] + b;
      WeightAppend(p, a[1..], b);
    }
  }

  lemma {:induction false} WeightBelow(p: Program, q: seq<EventData>, r: nat)
    requires AllBelow(p, q, r) && r > 0
    ensures Weight(p, q) <= Times(|q|, Power(r - 1))
    decreases |q|
  {
    if |q| > 0 {
      WeightBelow(p, q[1..], r);
      PowerMonotone(p.rank(q[0]), r - 1);
    }
  }

  lemma {:induction false} QueueOutweighed(p: Program, q: seq<EventData>, r: nat)
    requires AllBelow(p, q, r) && |q| <= QUEUE_DEPTH
    ensures Weight(p, q) < Power(r)
  {
    if r > 0 {
      WeightBelow(p, q, r);
      TimesMonotone(|q|, 64, Power(r - 1));
      TimesIsProduct(64, Power(r - 1));
    }
  }

  /** Delivering an event takes more weight out of the queue than its callbacks put in. */
  lemma {:induction false} DeliveryLosesWeight(p: Program, b: Bus)
    requires Ranked(p) && 0 < |b.queue| <= QUEUE_DEPTH
    ensures Weight(p, Deliver(p, b).queue) < Weight(p, b.queue)
    ensures |Deliver(p, b).queue| <= QUEUE_DEPTH
  {
    hide Ranked, DispatchFrom, Power, Taken, Out;
    var e, rest := b.queue[0], b.queue[1..];
    var taken := b.(queue := rest).Noting(Delivered(e));
    DispatchGrows(p, taken, e, 0);
    var c := Deliver(p, b);
    var added := c.queue[|rest|..];
    assert c.queue == rest + added;
    WeightAppend(p, rest, added);
    QueueOutweighed(p, added, p.rank(e));
  }

  // ---------------------------------------------------------------- draining

  /** dispatchQueued: deliver until the queue is empty. */
  function Drain(p: Program, b: Bus): Bus
    requires Ranked(p) && |b.queue| <= QUEUE_DEPTH
    decreases Weight(p, b.queue)
  {
    if |b.queue| == 0 then b
    else
      DeliveryLosesWeight(p, b);
      Drain(p, Deliver(p, b))
  }

  /** Every event the queue ever accepted has been delivered or is still queued, in order. */
  ghost predicate Balanced(b: Bus) { Taken(b.trace) == Out(b.trace) + b.queue }

  lemma {:induction false} DeliveryInOrder(p: Program, b: Bus)
    requires Ranked(p) && 0 < |b.queue| <= QUEUE_DEPTH
    ensures var c := Deliver(p, b);
      && b.trace <= c.trace && |c.queue| <= QUEUE_DEPTH && b.queue[1..] <= c.queue
      && Out(c.trace) == Out(b.trace) + [b.queue[0]]
      && Taken(c.trace) == Taken(b.trace) + c.queue[|b.queue| - 1..]
  {
    hide Ranked, DispatchFrom;
    var e, rest := b.queue[0], b.queue[1..];
    var taken := b.(queue := rest).Noting(Delivered(e));
    Noted(b.trace, Delivered(e));
    DispatchGrows(p, taken, e, 0);
  }

  /**
   * First in, first out, exactly once: draining leaves the queue empty, and what it delivers is the queue as
   * it stood, in order, followed by what was accepted meanwhile, in order.
   */
  lemma {:induction false} DrainIsFifo(p: Program, b: Bus)
    requires Ranked(p) && |b.queue| <= QUEUE_DEPTH
    ensures var c := Drain(p, b);
      && c.queue == [] && b.trace <= c.trace && Taken(b.trace) <= Taken(c.trace)
      && Out(c.trace) == Out(b.trace) + b.queue + Taken(c.trace)[|Taken(b.trace)|..]
      && (Balanced(b) ==> Balanced(c) && Out(c.trace) == Taken(c.trace))
    decreases Weight(p, b.queue)
  {
    hide Ranked, Deliver, Taken, Out, Weight;
    if |b.queue| > 0 {
      DeliveryLosesWeight(p, b);
      DeliveryInOrder(p, b);
      var c := Deliver(p, b);
      DrainIsFifo(p, c);
      var d := Drain(p, b);
      FifoStep(b.queue, c.queue, Out(b.trace), Taken(b.trace), Taken(c.trace), Out(d.trace), Taken(d.trace));
    }
  }

  /** Draining runs no timer callback and no module. */
  lemma {:induction false} DrainResumesNobody(p: Program, b: Bus)
    requires Ranked(p) && |b.queue| <= QUEUE_DEPTH
    ensures Resumptions(Drain(p, b).trace) == Resumptions(b.trace)
    decreases Weight(p, b.queue)
  {
    hide Ranked, DispatchFrom, Taken, Out, Weight, Resumptions;
    if |b.queue| > 0 {
      var e, rest := b.queue[0], b.queue[1..];
      var taken := b.(queue := rest).Noting(Delivered(e));
      DeliveryLosesWeight(p, b);
      Noted(b.trace, Delivered(e));
      DispatchGrows(p, taken, e, 0);
      DrainResumesNobody(p, Deliver(p, b));
    }
  }

  /** One delivery and the draining after it, on the lists of events only. */
  lemma {:induction false} FifoStep(q: seq<EventData>, r: seq<EventData>, out: seq<EventData>, taken: seq<EventData>,
      taken': seq<EventData>, outEnd: seq<EventData>, takenEnd: seq<EventData>)
    requires |q| > 0 && q[1..] <= r && taken' == taken + r[|q| - 1..] && taken' <= takenEnd
    requires outEnd == (out + [q[0]]) + r + takenEnd[|taken'|..]
    ensures taken <= takenEnd && outEnd == out + q + takenEnd[|taken|..]
    ensures taken == out + q ==> outEnd == takenEnd
  {
    var added := r[|q| - 1..];
    assert r == q[1..] + added;
    assert takenEnd == taken + added + takenEnd[|taken'|..];
    assert q == [q[0]] + q[1..];
  }

  // ---------------------------------------------------------------- who is called

  /** The slots from i on that listen to e. */
  function Listeners(subs: seq<Subscription>, e: EventData, i: nat): seq<nat>
    requires i <= |subs|
    decreases |subs| - i
  {
    if i == |subs| then [] else (if Listens(subs[i], e) then [i] else []) + Listeners(subs, e, i + 1)
  }

  /** No callback subscribes or unsubscribes. */
  ghost predicate Settled(p: Program) {
    forall history, callback, userData, e :: var q := p.react(history, callback, userData, e); !q.Subscribe? && !q.Unsubscribe?
  }

  /** Same slots, and the same calls for every event of rank at least r other than e. */
  ghost predicate Quiet(p: Program, b: Bus, c: Bus, r: nat) {
    c.subs == b.subs && forall x | p.rank(x) >= r :: CallsFor(c.trace, x) == CallsFor(b.trace, x)
  }

  lemma {:induction false} CallbackQuiet(p: Program, b: Bus, callback: nat, userData: nat, e: EventData, left: nat)
    requires Ranked(p) && Settled(p)
    ensures Quiet(p, b, Callback(p, b, callback, userData, e, left), p.rank(e))
    decreases p.rank(e), 0, left, 1
  {
    hide Ranked, Settled, Serve, CallsFor;
    if left > 0 {
      var q := p.react(b.trace, callback, userData, e);
      if !q.Return? {
        NextRequest(p, b.trace, callback, userData, e);
        ServeQuiet(p, b, e, q);
        CallbackQuiet(p, Serve(p, b, e, q), callback, userData, e, left - 1);
      }
    }
  }

  lemma {:induction false} NextRequest(p: Program, history: seq<Effect>, callback: nat, userData: nat, e: EventData)
    requires Ranked(p) && Settled(p)
    ensures var q := p.react(history, callback, userData, e); Descends(p, q, e) && !q.Subscribe? && !q.Unsubscribe?
  {}

  lemma {:induction false} ServeQuiet(p: Program, b: Bus, e: EventData, q: Request)
    requires Ranked(p) && Settled(p) && Descends(p, q, e) && !q.Subscribe? && !q.Unsubscribe?
    ensures Quiet(p, b, Serve(p, b, e, q), p.rank(e))
    decreases p.rank(e), 0, 0, 0
  {
    hide Ranked, Settled, DispatchFrom, CallsFor;
    match q
    case Enqueue(x) =>
      Noted(b.trace, Attempted(x, true));
      Noted(b.trace, Attempted(x, false));
    case Publish(x) =>
      Noted(b.trace, Raised(x));
      DispatchCalls(p, b.Noting(Raised(x)), x, 0);
    case Return =>
  }

  /**
   * A dispatch calls exactly the listening slots, each once and in slot order, and nobody else for this
   * event or for another one of its rank or higher.
   */
  lemma {:induction false} DispatchCalls(p: Program, b: Bus, e: EventData, i: nat)
    requires Ranked(p) && Settled(p) && i <= |b.subs|
    ensures var c := DispatchFrom(p, b, e, i);
      && c.subs == b.subs
      && CallsFor(c.trace, e) == CallsFor(b.trace, e) + Listeners(b.subs, e, i)
      && forall x | p.rank(x) >= p.rank(e) && x != e :: CallsFor(c.trace, x) == CallsFor(b.trace, x)
    decreases p.rank(e), 1, |b.subs| - i, 0
  {
    hide Ranked, Settled, Callback, CallsFor;
    if i < |b.subs| {
      if !Listens(b.subs[i], e) {
        DispatchCalls(p, b, e, i + 1);
      } else {
        var sub := b.subs[i];
        var started := b.Noting(Called(i, sub.callback, sub.userData, e));
        var limit := p.patience(b.trace, sub.callback, sub.userData, e);
        Noted(b.trace, Called(i, sub.callback, sub.userData, e));
        CallbackQuiet(p, started, sub.callback, sub.userData, e, limit);
        DispatchCalls(p, Callback(p, started, sub.callback, sub.userData, e, limit), e, i + 1);
      }
    }
  }

  // ---------------------------------------------------------------- from subscribing to being called

  /** The slots that a history makes of the ones before it. */
  function SlotsAfter(subs: seq<Subscription>, history: seq<Effect>): (r: seq<Subscription>)
    ensures |r| == |subs|
  {
    if |history| == 0 then subs
    else
      var before, x := SlotsAfter(subs, history[..|history| - 1]), history[|history| - 1];
      match x
      case Subscribed(k, event, callback, userData) =>
        if 0 <= k < |subs| then before[k := Subscription(event, callback, userData, true)] else before
      case Unsubscribed(k) => if 0 <= k < |subs| then before[k := before[k].(active := false)] else before
      case _ => before
  }

  /** Whoever is called at some moment has subscribed to that very event, and gets the data it subscribed with. */
  predicate Rightly(subs: seq<Subscription>, x: Effect) {
    x.Called? ==>
      && x.slot < |subs| && subs[x.slot].active && subs[x.slot].event == x.e.id
      && x.callback == subs[x.slot].callback != 0 && x.userData == subs[x.slot].userData
  }

  /** From b to c the slots are what the new history says, and at each of its moments the right ones were called. */
  ghost predicate Faithful(b: Bus, c: Bus) {
    && b.trace <= c.trace && c.subs == SlotsAfter(b.subs, c.trace[|b.trace|..])
    && forall n | |b.trace| <= n < |c.trace| :: Rightly(SlotsAfter(b.subs, c.trace[|b.trace|..n]), c.trace[n])
  }

  lemma {:induction false} SlotsAfterSum(subs: seq<Subscription>, a: seq<Effect>, b: seq<Effect>)
    ensures SlotsAfter(subs, a + b) == SlotsAfter(SlotsAfter(subs, a), b)
    decreases |b|
  {
    if |b| == 0 {
      assert a + b == a;
    } else {
      SlotsAfterSum(subs, a, b[..|b| - 1]);
      assert (a + b)[..|a + b| - 1] == a + b[..|b| - 1];
    }
  }

  lemma {:induction false} FaithfulOn(b: Bus, c: Bus, d: Bus)
    requires Faithful(b, c) && Faithful(c, d)
    ensures Faithful(b, d)
  {
    hide SlotsAfter, Rightly;
    var i, j := |b.trace|, |c.trace|;
    HistoryParts(c.trace, d.trace, i, |d.trace|);
    SlotsAfterSum(b.subs, c.trace[i..], d.trace[j..]);
    forall n | i <= n < |d.trace| ensures Rightly(SlotsAfter(b.subs, d.trace[i..n]), d.trace[n]) {
      HistoryParts(c.trace, d.trace, i, n);
      if n < j {
        assert d.trace[n] == c.trace[n];
      } else {
        SlotsAfterSum(b.subs, c.trace[i..], d.trace[j..n]);
      }
    }
  }

  lemma HistoryParts(c: seq<Effect>, d: seq<Effect>, i: nat, n: nat)
    requires c <= d && i <= |c| && i <= n <= |d|
    ensures n <= |c| ==> d[i..n] == c[i..n]
    ensures n >= |c| ==> d[i..n] == c[i..] + d[|c|..n]
    ensures d[i..] == d[i..|d|] && d[|c|..] == d[|c|..|d|]
  {
    if n <= |c| {
      forall k | 0 <= k < n - i ensures d[i..n][k] == c[i..n][k] {
        assert d[i + k] == c[i + k];
      }
    } else {
      forall k | 0 <= k < n - i ensures d[i..n][k] == (c[i..] + d[|c|..n])[k] {
        assert i + k < |c| ==> d[i + k] == c[i + k];
      }
    }
  }

  lemma {:induction false} FaithfulNothing(b: Bus)
    ensures Faithful(b, b)
  {
    assert b.trace[|b.trace|..] == [];
  }

  /** One effect, and what it does to the slots. */
  lemma {:induction false} FaithfulEffect(b: Bus, c: Bus, x: Effect)
    requires c.trace == b.trace + [x] && Rightly(b.subs, x) && c.subs == SlotsAfter(b.subs, [x])
    ensures Faithful(b, c)
  {
    assert c.trace[|b.trace|..] == [x] && c.trace[|b.trace|..|b.trace|] == [];
  }

  lemma OneEffect(subs: seq<Subscription>, x: Effect)
    ensures SlotsAfter(subs, [x]) ==
      if x.Subscribed? && 0 <= x.handle < |subs| then subs[x.handle := Subscription(x.event, x.callback, x.userData, true)]
      else if x.Unsubscribed? && 0 <= x.handle < |subs| then subs[x.handle := subs[x.handle].(active := false)]
      else subs
  {
    assert [x][..0] == [];
  }

  lemma {:induction false} CallsAreFaithful(p: Program, b: Bus, e: EventData, event: nat, callback: nat, userData: nat, handle: int)
    ensures Faithful(b, DoEnqueue(b, e)) && Faithful(b, DoSubscribe(b, event, callback, userData)) && Faithful(b, DoUnsubscribe(b, handle))
    ensures forall x: Effect | !x.Called? && !x.Subscribed? && !x.Unsubscribed? :: Faithful(b, b.Noting(x))
  {
    hide Faithful, SlotsAfter;
    forall x: Effect | !x.Called? && !x.Subscribed? && !x.Unsubscribed? ensures Faithful(b, b.Noting(x)) {
      OneEffect(b.subs, x);
      FaithfulEffect(b, b.Noting(x), x);
    }
    var taken := |b.queue| < QUEUE_DEPTH;
    OneEffect(b.subs, Attempted(e, taken));
    FaithfulEffect(b, DoEnqueue(b, e), Attempted(e, taken));
    var s := Subscribed(FreeSlot(b.subs, 0), event, callback, userData);
    OneEffect(b.subs, s);
    FaithfulEffect(b, DoSubscribe(b, event, callback, userData), s);
    OneEffect(b.subs, Unsubscribed(handle));
    FaithfulEffect(b, DoUnsubscribe(b, handle), Unsubscribed(handle));
  }

  /**
   * Every call that a dispatch makes, with everything its callbacks do, is of a slot that at that moment was
   * in use, subscribed to that event, and had a callback.
   */
  lemma {:induction false} DispatchFaithful(p: Program, b: Bus, e: EventData, i: nat)
    requires i <= |b.subs|
    ensures Faithful(b, DispatchFrom(p, b, e, i))
    decreases p.rank(e), 1, |b.subs| - i, 0
  {
    hide Faithful, Callback, SlotsAfter;
    if i == |b.subs| {
      FaithfulNothing(b);
    } else if !Listens(b.subs[i], e) {
      DispatchFaithful(p, b, e, i + 1);
    } else {
      var sub := b.subs[i];
      var x := Called(i, sub.callback, sub.userData, e);
      var limit := p.patience(b.trace, sub.callback, sub.userData, e);
      var after := Callback(p, b.Noting(x), sub.callback, sub.userData, e, limit);
      OneEffect(b.subs, x);
      FaithfulEffect(b, b.Noting(x), x);
      CallbackFaithful(p, b.Noting(x), sub.callback, sub.userData, e, limit);
      DispatchFaithful(p, after, e, i + 1);
      FaithfulOn(b, b.Noting(x), after);
      FaithfulOn(b, after, DispatchFrom(p, after, e, i + 1));
    }
  }

  lemma {:induction false} CallbackFaithful(p: Program, b: Bus, callback: nat, userData: nat, e: EventData, left: nat)
    ensures Faithful(b, Callback(p, b, callback, userData, e, left))
    decreases p.rank(e), 0, left, 1
  {
    hide Faithful, Serve;
    FaithfulNothing(b);
    if left > 0 {
      var q := p.react(b.trace, callback, userData, e);
      if !q.Return? {
        var served := Serve(p, b, e, q);
        ServeFaithful(p, b, e, q);
        CallbackFaithful(p, served, callback, userData, e, left - 1);
        FaithfulOn(b, served, Callback(p, served, callback, userData, e, left - 1));
      }
    }
  }

  lemma {:induction false} ServeFaithful(p: Program, b: Bus, e: EventData, q: Request)
    ensures Faithful(b, Serve(p, b, e, q))
    decreases p.rank(e), 0, 0, 0
  {
    hide Faithful, DispatchFrom, DoEnqueue, DoSubscribe, DoUnsubscribe;
    FaithfulNothing(b);
    match q
    case Enqueue(x) => CallsAreFaithful(p, b, x, 0, 0, 0, 0);
    case Publish(x) =>
      if p.rank(x) < p.rank(e) {
        CallsAreFaithful(p, b, x, 0, 0, 0, 0);
        DispatchFaithful(p, b.Noting(Raised(x)), x, 0);
        FaithfulOn(b, b.Noting(Raised(x)), DispatchFrom(p, b.Noting(Raised(x)), x, 0));
      }
    case Subscribe(event, callback, userData) => CallsAreFaithful(p, b, e, event, callback, userData, 0);
    case Unsubscribe(handle) => CallsAreFaithful(p, b, e, 0, 0, 0, handle);
    case Return =>
  }

  lemma {:induction false} GrantFaithful(p: Program, b: Bus, q: Request)
    ensures Faithful(b, Grant(p, b, q))
  {
    hide Faithful, DispatchFrom, DoEnqueue, DoSubscribe, DoUnsubscribe;
    FaithfulNothing(b);
    match q
    case Enqueue(x) => CallsAreFaithful(p, b, x, 0, 0, 0, 0);
    case Publish(x) =>
      CallsAreFaithful(p, b, x, 0, 0, 0, 0);
      DispatchFaithful(p, b.Noting(Raised(x)), x, 0);
      FaithfulOn(b, b.Noting(Raised(x)), DispatchFrom(p, b.Noting(Raised(x)), x, 0));
    case Subscribe(event, callback, userData) => CallsAreFaithful(p, b, EventData(0, 0, 0, []), event, callback, userData, 0);
    case Unsubscribe(handle) => CallsAreFaithful(p, b, EventData(0, 0, 0, []), 0, 0, 0, handle);
    case Return =>
  }

  lemma {:induction false} ActFaithful(p: Program, b: Bus, who: Actor, left: nat)
    ensures Faithful(b, Act(p, b, who, left))
    decreases left
  {
    hide Faithful, Grant;
    FaithfulNothing(b);
    if left > 0 {
      var q := p.act(b.trace, who);
      if !q.Return? {
        GrantFaithful(p, b, q);
        ActFaithful(p, Grant(p, b, q), who, left - 1);
        FaithfulOn(b, Grant(p, b, q), Act(p, Grant(p, b, q), who, left - 1));
      }
    }
  }

  lemma {:induction false} ActorFaithful(p: Program, b: Bus, who: Actor)
    ensures Faithful(b, RunActor(p, b, who))
  {
    hide Faithful, Act;
    CallsAreFaithful(p, b, EventData(0, 0, 0, []), 0, 0, 0, 0);
    var started := b.Noting(Resumed(who));
    ActFaithful(p, started, who, p.stamina(b.trace, who));
    FaithfulOn(b, started, RunActor(p, b, who));
  }

  lemma {:induction false} DrainFaithful(p: Program, b: Bus)
    requires Ranked(p) && |b.queue| <= QUEUE_DEPTH
    ensures Faithful(b, Drain(p, b))
    decreases Weight(p, b.queue)
  {
    hide Ranked, Faithful, DispatchFrom, Weight;
    FaithfulNothing(b);
    if |b.queue| > 0 {
      var taken := b.(queue := b.queue[1..]).Noting(Delivered(b.queue[0]));
      OneEffect(b.subs, Delivered(b.queue[0]));
      FaithfulEffect(b, taken, Delivered(b.queue[0]));
      DispatchFaithful(p, taken, b.queue[0], 0);
      FaithfulOn(b, taken, Deliver(p, b));
      DeliveryLosesWeight(p, b);
      DrainFaithful(p, Deliver(p, b));
      FaithfulOn(b, Deliver(p, b), Drain(p, Deliver(p, b)));
    }
  }

  // ---------------------------------------------------------------- what that means for one subscriber

  /** A slot that is not taken again keeps its event and its data. */
  lemma {:induction false} SlotKept(subs: seq<Subscription>, history: seq<Effect>, k: nat)
    requires k < |subs| && forall n | 0 <= n < |history| :: !(history[n].Subscribed? && history[n].handle == k)
    ensures SlotsAfter(subs, history)[k] == subs[k].(active := SlotsAfter(subs, history)[k].active)
    ensures !subs[k].active ==> !SlotsAfter(subs, history)[k].active
    decreases |history|
  {
    if |history| > 0 {
      SlotKept(subs, history[..|history| - 1], k);
    }
  }

  /**
   * As long as its slot is not taken by another subscription, a subscriber is called for the event it
   * subscribed to only, with its own data, and not at all once it has unsubscribed.
   */
  lemma {:induction false} OnlyItsEvent(b: Bus, c: Bus, k: nat, n: nat)
    requires Faithful(b, c) && k < |b.subs| && |b.trace| <= n < |c.trace| && c.trace[n].Called? && c.trace[n].slot == k
    requires forall j | |b.trace| <= j < n :: !(c.trace[j].Subscribed? && c.trace[j].handle == k)
    ensures b.subs[k].active && c.trace[n].e.id == b.subs[k].event
    ensures c.trace[n].callback == b.subs[k].callback != 0 && c.trace[n].userData == b.subs[k].userData
  {
    hide SlotsAfter;
    var h := c.trace[|b.trace|..n];
    assert forall j | 0 <= j < |h| :: h[j] == c.trace[|b.trace| + j];
    SlotKept(b.subs, h, k);
    assert Rightly(SlotsAfter(b.subs, h), c.trace[n]);
  }

  /** What subscribing leaves in the first free slot, and unsubscribing in its slot. */
  lemma SlotTaken(b: Bus, event: nat, callback: nat, userData: nat)
    requires exists k :: 0 <= k < |b.subs| && !b.subs[k].active
    ensures var h := FreeSlot(b.subs, 0); var c := DoSubscribe(b, event, callback, userData);
      && 0 <= h < |b.subs| && c.subs[h] == Subscription(event, callback, userData, true) && c.queue == b.queue
      && (forall k | 0 <= k < |b.subs| && k != h :: c.subs[k] == b.subs[k])
      && !DoUnsubscribe(c, h).subs[h].active && DoUnsubscribe(c, h).queue == b.queue
  {}

  /**
   * Nobody is left out: a slot that listens to an event at every moment of its dispatch, whatever callbacks do
   * to other slots meanwhile, is called.
   */
  lemma {:induction false} ListenerIsReached(p: Program, b: Bus, e: EventData, i: nat, k: nat)
    requires i <= k < |b.subs|
    requires ListensThroughout(b, DispatchFrom(p, b, e, i), k, e.id)
    ensures IsCalled(b, DispatchFrom(p, b, e, i), k, e)
    decreases k - i
  {
    hide Callback, SlotsAfter, Faithful;
    var c := DispatchFrom(p, b, e, i);
    DispatchFaithful(p, b, e, i);
    FaithfulPrefix(b, c);
    assert c.trace[|b.trace|..|b.trace|] == [];
    NoHistory(b.subs);
    assert ListensTo(SlotsAfter(b.subs, c.trace[|b.trace|..|b.trace|])[k], e.id);
    assert ListensTo(b.subs[k], e.id);
    if !Listens(b.subs[i], e) {
      ListenerIsReached(p, b, e, i + 1, k);
    } else {
      var sub := b.subs[i];
      var x := Called(i, sub.callback, sub.userData, e);
      var limit := p.patience(b.trace, sub.callback, sub.userData, e);
      var after := Callback(p, b.Noting(x), sub.callback, sub.userData, e, limit);
      OneEffect(b.subs, x);
      FaithfulEffect(b, b.Noting(x), x);
      CallbackFaithful(p, b.Noting(x), sub.callback, sub.userData, e, limit);
      FaithfulOn(b, b.Noting(x), after);
      DispatchFaithful(p, after, e, i + 1);
      FaithfulPrefix(b.Noting(x), after);
      FaithfulPrefix(after, c);
      if i == k {
        assert c.trace[|b.trace|] == after.trace[|b.trace|] == x;
      } else {
        LaterMoments(b, after, c, k, e.id);
        ListenerIsReached(p, after, e, i + 1, k);
      }
    }
  }

  /** At every moment from b to c the slot is in use, subscribed to the event, and has a callback. */
  ghost predicate ListensThroughout(b: Bus, c: Bus, k: nat, id: nat) {
    k < |b.subs| && forall n | |b.trace| <= n <= |c.trace| :: ListensTo(SlotsAfter(b.subs, c.trace[|b.trace|..n])[k], id)
  }

  /** Between b and c the slot was called for the event. */
  ghost predicate IsCalled(b: Bus, c: Bus, k: nat, e: EventData) {
    exists n :: |b.trace| <= n < |c.trace| && c.trace[n].Called? && c.trace[n].slot == k && c.trace[n].e == e
  }

  predicate ListensTo(sub: Subscription, id: nat) { sub.active && sub.event == id && sub.callback != 0 }

  lemma NoHistory(subs: seq<Subscription>)
    ensures SlotsAfter(subs, []) == subs
  {}

  lemma FaithfulPrefix(b: Bus, c: Bus)
    requires Faithful(b, c)
    ensures b.trace <= c.trace && |c.subs| == |b.subs|
  {}

  lemma {:induction false} LaterMoments(b: Bus, after: Bus, c: Bus, k: nat, id: nat)
    requires Faithful(b, after) && after.trace <= c.trace && ListensThroughout(b, c, k, id)
    ensures ListensThroughout(after, c, k, id)
  {
    hide SlotsAfter, Rightly, ListensTo;
    forall n | |after.trace| <= n <= |c.trace| ensures ListensTo(SlotsAfter(after.subs, c.trace[|after.trace|..n])[k], id) {
      assert c.trace[|b.trace|..n] == after.trace[|b.trace|..] + c.trace[|after.trace|..n];
      SlotsAfterSum(b.subs, after.trace[|b.trace|..], c.trace[|after.trace|..n]);
    }
  }

  lemma {:induction false} ListenersAre(subs: seq<Subscription>, e: EventData, i: nat)
    requires i <= |subs|
    ensures var l := Listeners(subs, e, i);
      && (forall a, b | 0 <= a < b < |l| :: l[a] < l[b])
      && (forall k | k in l :: i <= k < |subs|)
      && (forall k | i <= k < |subs| :: k in l <==> subs[k].active && subs[k].event == e.id && subs[k].callback != 0)
    decreases |subs| - i
  {
    if i < |subs| {
      ListenersAre(subs, e, i + 1);
      var l, rest := Listeners(subs, e, i), Listeners(subs, e, i + 1);
      var first := if Listens(subs[i], e) then [i] else [];
      assert l == first + rest;
      forall k | i <= k < |subs| ensures k in l <==> subs[k].active && subs[k].event == e.id && subs[k].callback != 0 {
        assert k in l <==> k in first || k in rest;
      }
      forall a, b | 0 <= a < b < |l| ensures l[a] < l[b] {
        assert l[b] in rest;
      }
    }
  }

  /**
   * When callbacks leave the subscriptions alone, a dispatch calls for its event exactly the slots that are in
   * use, subscribed to it and have a callback, each once and in slot order; so a new subscriber is called for
   * its event and for no other one.
   */
  lemma {:induction false} SubscribeThenDispatch(p: Program, b: Bus, event: nat, callback: nat, userData: nat, e: EventData)
    requires Ranked(p) && Settled(p) && exists k :: 0 <= k < |b.subs| && !b.subs[k].active
    ensures var h, s := FreeSlot(b.subs, 0), DoSubscribe(b, event, callback, userData);
      var before, after := CallsFor(s.trace, e), CallsFor(DispatchFrom(p, s, e, 0).trace, e);
      && before <= after
      && var l := after[|before|..];
      && (forall i, j | 0 <= i < j < |l| :: l[i] < l[j])
      && (forall k: nat :: k in l <==> k < |s.subs| && s.subs[k].active && s.subs[k].event == e.id && s.subs[k].callback != 0)
      && (h in l <==> callback != 0 && event == e.id)
  {
    hide Ranked, Settled, DispatchFrom, CallsFor, Listeners;
    SlotTaken(b, event, callback, userData);
    var s := DoSubscribe(b, event, callback, userData);
    DispatchCalls(p, s, e, 0);
    ListenersAre(s.subs, e, 0);
  }

  /** A callback is run with the callback and data its slot names: what it queues in answer is in the queue. */
  lemma {:induction false} AnswerIsQueued(p: Program, b: Bus, e: EventData, k: nat, answer: EventData)
    requires k < |b.subs| && b.subs[k].active && b.subs[k].event == e.id && b.subs[k].callback != 0
    requires forall j | 0 <= j < |b.subs| && j != k :: !b.subs[j].active
    requires var sub := b.subs[k];
      && p.patience(b.trace, sub.callback, sub.userData, e) == 1
      && p.react(b.trace + [Called(k, sub.callback, sub.userData, e)], sub.callback, sub.userData, e) == Enqueue(answer)
    requires |b.queue| < QUEUE_DEPTH
    ensures DispatchFrom(p, b, e, 0).queue == b.queue + [answer] && DispatchFrom(p, b, e, 0).subs == b.subs
  {
    hide Callback;
    var sub := b.subs[k];
    var started := b.Noting(Called(k, sub.callback, sub.userData, e));
    UpToListener(p, b, e, 0, k);
    CallbackOnce(p, started, sub.callback, sub.userData, e, Enqueue(answer));
    NoFurtherListener(p, DoEnqueue(started, answer), e, k + 1);
  }

  lemma {:induction false} UpToListener(p: Program, b: Bus, e: EventData, i: nat, k: nat)
    requires i <= k < |b.subs| && forall j | 0 <= j < k :: !b.subs[j].active
    ensures DispatchFrom(p, b, e, i) == DispatchFrom(p, b, e, k)
    decreases k - i
  {
    if i < k {
      UpToListener(p, b, e, i + 1, k);
    }
  }

  lemma {:induction false} NoFurtherListener(p: Program, b: Bus, e: EventData, i: nat)
    requires i <= |b.subs| && forall j | i <= j < |b.subs| :: !b.subs[j].active
    ensures DispatchFrom(p, b, e, i) == b
    decreases |b.subs| - i
  {
    if i < |b.subs| {
      NoFurtherListener(p, b, e, i + 1);
    }
  }

  // ---------------------------------------------------------------- without ranks

  /** A callback that queues the event it was called for, once. */
  function Echo(): Program {
    Program((history, callback, userData, e) => Enqueue(e), (history, callback, userData, e) => 1, e => 0,
            (history, who) => Return, (history, who) => 0)
  }

  /** The bus after n deliveries, if it does not run empty before. */
  function AfterDeliveries(p: Program, b: Bus, n: nat): Bus
    decreases n
  {
    if n == 0 || |b.queue| == 0 then b else AfterDeliveries(p, Deliver(p, b), n - 1)
  }

  lemma {:induction false} CallbackOnce(p: Program, b: Bus, callback: nat, userData: nat, e: EventData, q: Request)
    requires p.react(b.trace, callback, userData, e) == q && !q.Return?
    ensures Callback(p, b, callback, userData, e, 1) == Serve(p, b, e, q)
  {
    hide Serve;
    var served := Serve(p, b, e, q);
    assert Callback(p, served, callback, userData, e, 0) == served;
  }

  /** A queue of at most 64 copies of e. */
  ghost predicate Copies(q: seq<EventData>, e: EventData) {
    |q| <= QUEUE_DEPTH && forall k | 0 <= k < |q| :: q[k] == e
  }

  lemma {:induction false} EchoDispatch(b: Bus, e: EventData, i: nat)
    requires i <= |b.subs| && Copies(b.queue, e)
    ensures var c := DispatchFrom(Echo(), b, e, i);
      && c.subs == b.subs && Copies(c.queue, e)
      && (c.queue == [] <==> b.queue == [] && Listeners(b.subs, e, i) == [])
    decreases |b.subs| - i
  {
    if i < |b.subs| {
      if !Listens(b.subs[i], e) {
        EchoDispatch(b, e, i + 1);
      } else {
        var sub := b.subs[i];
        var started := b.Noting(Called(i, sub.callback, sub.userData, e));
        CallbackOnce(Echo(), started, sub.callback, sub.userData, e, Enqueue(e));
        EchoDispatch(DoEnqueue(started, e), e, i + 1);
      }
    }
  }

  lemma {:induction false} EchoNeverEnds(b: Bus, e: EventData, n: nat)
    requires b.queue != [] && Copies(b.queue, e) && Listeners(b.subs, e, 0) != []
    ensures AfterDeliveries(Echo(), b, n).queue != []
    decreases n
  {
    hide DispatchFrom, Listeners;
    if n > 0 {
      EchoDispatch(b.(queue := b.queue[1..]).Noting(Delivered(e)), e, 0);
      EchoNeverEnds(Deliver(Echo(), b), e, n - 1);
    }
  }

  /** Some rank is needed: with this callback the queue runs empty exactly when nobody listens to the event. */
  lemma {:induction false} EchoEndsIff(b: Bus, e: EventData)
    requires b.queue == [e]
    ensures (exists n: nat :: AfterDeliveries(Echo(), b, n).queue == []) <==> Listeners(b.subs, e, 0) == []
  {
    hide DispatchFrom, Listeners;
    if Listeners(b.subs, e, 0) == [] {
      EchoDispatch(b.(queue := b.queue[1..]).Noting(Delivered(e)), e, 0);
      assert AfterDeliveries(Echo(), b, 1) == AfterDeliveries(Echo(), Deliver(Echo(), b), 0);
    } else {
      forall n: nat ensures AfterDeliveries(Echo(), b, n).queue != [] {
        EchoNeverEnds(b, e, n);
      }
    }
  }
}

/** The bus in place: subscription slots and a ring queue that callbacks refill while it is drained. */
module EventBusImpl {
  import opened Words
  import opened EventBusSpec

  class EventBus {
    const subscriptions: array<Subscription>
    var subscriberCount: nat
    const queue: array<EventData>
    var queueHead: nat
    var queueTail: nat
    var queueCount: nat
    const program: Program
    var trace: seq<Effect>  // what has happened, as far as callbacks can remember it

    ghost function Contents(): (q: seq<EventData>)
      requires queue.Length == QUEUE_DEPTH
      reads this, queue
      ensures |q| == queueCount
    {
      Ring(queue[..], queueHead, queueCount)
    }

    ghost function State(): Bus
      requires queue.Length == QUEUE_DEPTH
      reads this, queue, subscriptions
    {
      Bus(subscriptions[..], Contents(), trace)
    }

    /** The ring is consistent, the count is right, and every accepted event was delivered or is queued, in order. */
    ghost predicate Valid()
      reads this, queue, subscriptions
    {
      && subscriptions.Length == MAX_SUBSCRIBERS && queue.Length == QUEUE_DEPTH
      && queueHead < QUEUE_DEPTH && queueCount <= QUEUE_DEPTH && queueTail == (queueHead + queueCount) % 64
      && subscriberCount == ActiveCount(subscriptions[..])
      && Ranked(program) && Balanced(State())
    }

    constructor (program: Program)
      requires Ranked(program)
      ensures Valid() && this.program == program && Contents() == [] && trace == []
      ensures subscriptions.Length == 32 && queue.Length == 64 && forall k | 0 <= k < 32 :: !subscriptions[k].active
    {
      subscriptions := new Subscription[MAX_SUBSCRIBERS](_ => Subscription(0, 0, 0, false));
      queue := new EventData[QUEUE_DEPTH](_ => EventData(0, 0, 0, []));
      subscriberCount, queueHead, queueTail, queueCount := 0, 0, 0, 0;
      this.program := program;
      trace := [];
      new;
      NoneActive(subscriptions[..]);
    }

    /** Takes the first free slot; -1 when there is none. */
    method Subscribe(event: nat, callback: nat, userData: nat) returns (handle: int)
      requires Valid()
      modifies this`subscriberCount, this`trace, subscriptions
      ensures Valid() && State() == DoSubscribe(old(State()), event, callback, userData)
      ensures handle == FreeSlot(old(subscriptions[..]), 0)
    {
      hide Ranked, Taken, Out, Resumptions;
      ghost var before := subscriptions[..];
      handle := -1;
      CountBounds(before);
      FullMeansNoFreeSlot(before);
      if subscriberCount < MAX_SUBSCRIBERS {
        for i := 0 to MAX_SUBSCRIBERS
          invariant subscriptions[..] == before && Valid() && State() == old(State()) && handle == -1
          invariant FreeSlot(before, i) == FreeSlot(before, 0)
        {
          if !subscriptions[i].active {
            CountUpdate(before, i, Subscription(event, callback, userData, true));
            subscriptions[i] := Subscription(event, callback, userData, true);
            assert subscriptions[..] == before[i := Subscription(event, callback, userData, true)];
            subscriberCount := subscriberCount + 1;
            handle := i;
            break;
          }
        }
      }
      NotedQuietly(State(), Subscribed(handle, event, callback, userData));
      trace := trace + [Subscribed(handle, event, callback, userData)];
    }

    method Unsubscribe(handle: int)
      requires Valid()
      modifies this`subscriberCount, this`trace, subscriptions
      ensures Valid() && State() == DoUnsubscribe(old(State()), handle)
    {
      hide Ranked, Taken, Out, Resumptions;
      ghost var before := subscriptions[..];
      if 0 <= handle && handle < MAX_SUBSCRIBERS && subscriptions[handle].active {
        CountUpdate(before, handle, subscriptions[handle].(active := false));
        subscriptions[handle] := subscriptions[handle].(active := false);
        subscriberCount := subscriberCount - 1;
      }
      assert subscriptions[..] == if 0 <= handle < MAX_SUBSCRIBERS then before[handle := before[handle].(active := false)] else before;
      NotedQuietly(State(), Unsubscribed(handle));
      trace := trace + [Unsubscribed(handle)];
    }

    /** Goes to the end of the queue, or is refused exactly when the queue is full. */
    method Enqueue(data: EventData) returns (ok: bool)
      requires Valid()
      modifies this`queueTail, this`queueCount, this`trace, queue
      ensures Valid() && State() == DoEnqueue(old(State()), data) && ok == (old(queueCount) < 64)
    {
      hide Ranked, Ring, ActiveCount, Taken, Out, Resumptions;
      NotedEnqueue(State(), data);
      ok := queueCount < QUEUE_DEPTH;
      if ok {
        RingPush(queue[..], queueHead, queueCount, data);
        queue[queueTail] := data;
        assert queue[..] == old(queue[..])[old(queueTail) := data];
        queueTail := (queueTail + 1) % 64;
        queueCount := queueCount + 1;
      }
      trace := trace + [Attempted(data, ok)];
    }

    /** Calls every subscriber of an event in slot order; callbacks may use the bus while they run. */
    method Dispatch(data: EventData)
      requires Valid()
      modifies this`queueTail, this`queueCount, this`trace, this`subscriberCount, queue, subscriptions
      ensures Valid() && State() == DispatchFrom(program, old(State()), data, 0)
      decreases program.rank(data), 1
    {
      hide Ranked, DispatchFrom, EventBusSpec.Callback, Ring, Balanced, ActiveCount;
      ghost var before := State();
      for i := 0 to MAX_SUBSCRIBERS
        invariant Valid() && DispatchFrom(program, State(), data, i) == DispatchFrom(program, before, data, 0)
      {
        SlotStep(program, State(), data, i);
        var sub := subscriptions[i];
        if sub.active && sub.event == data.id && sub.callback != 0 {
          var limit := program.patience(trace, sub.callback, sub.userData, data);
          Note(Called(i, sub.callback, sub.userData, data));
          RunCallback(sub.callback, sub.userData, data, limit);
        }
      }
      AllSlotsDone(program, State(), data);
    }

    /** Something that changes neither slots nor queue. */
    method Note(x: Effect)
      requires Valid() && !x.Delivered? && !x.Attempted?
      modifies this`trace
      ensures Valid() && State() == old(State()).Noting(x)
    {
      hide Ranked, Taken, Out, Resumptions;
      NotedQuietly(State(), x);
      trace := trace + [x];
    }

    /** A callback at work: it asks for one thing after the other, seeing what came of it. */
    method RunCallback(callback: nat, userData: nat, data: EventData, limit: nat)
      requires Valid()
      modifies this`queueTail, this`queueCount, this`trace, this`subscriberCount, queue, subscriptions
      ensures Valid() && State() == EventBusSpec.Callback(program, old(State()), callback, userData, data, limit)
      decreases program.rank(data), 0, 1
    {
      hide Ranked, EventBusSpec.Callback, EventBusSpec.Serve, Ring, Balanced, ActiveCount;
      ghost var before := State();
      var left := limit;
      while left > 0
        invariant Valid()
        invariant EventBusSpec.Callback(program, State(), callback, userData, data, left)
               == EventBusSpec.Callback(program, before, callback, userData, data, limit)
        decreases left
      {
        var q := program.react(trace, callback, userData, data);
        CallbackStep(program, State(), callback, userData, data, left, q);
        if q.Return? {
          return;
        }
        ReactDescends(program, trace, callback, userData, data);
        Serve(data, q);
        left := left - 1;
      }
      CallbackDone(program, State(), callback, userData, data);
    }

    method Serve(data: EventData, q: Request)
      requires Valid() && Descends(program, q, data)
      modifies this`queueTail, this`queueCount, this`trace, this`subscriberCount, queue, subscriptions
      ensures Valid() && State() == EventBusSpec.Serve(program, old(State()), data, q)
      decreases program.rank(data), 0, 0
    {
      hide Ranked, DispatchFrom, Ring, Balanced, ActiveCount;
      match q {
        case Enqueue(x) => var ok := Enqueue(x);
        case Publish(x) =>
          Note(Raised(x));
          Dispatch(x);
        case Subscribe(event, callback, userData) => var handle := Subscribe(event, callback, userData);
        case Unsubscribe(handle) => Unsubscribe(handle);
        case Return =>
      }
    }

    /** A timer callback or a module at work. */
    method RunActor(who: Actor)
      requires Valid()
      modifies this`queueTail, this`queueCount, this`trace, this`subscriberCount, queue, subscriptions
      ensures Valid() && State() == EventBusSpec.RunActor(program, old(State()), who)
    {
      hide Ranked, EventBusSpec.Act, EventBusSpec.Grant, Ring, Balanced, ActiveCount;
      var left := program.stamina(trace, who);
      Note(Resumed(who));
      ghost var before, limit := State(), left;
      while left > 0
        invariant Valid() && EventBusSpec.Act(program, State(), who, left) == EventBusSpec.Act(program, before, who, limit)
        decreases left
      {
        var q := program.act(trace, who);
        ActStep(program, State(), who, left, q);
        if q.Return? {
          return;
        }
        Grant(q);
        left := left - 1;
      }
      ActDone(program, State(), who);
    }

    /** One request from outside a dispatch. */
    method Grant(q: Request)
      requires Valid()
      modifies this`queueTail, this`queueCount, this`trace, this`subscriberCount, queue, subscriptions
      ensures Valid() && State() == EventBusSpec.Grant(program, old(State()), q)
    {
      hide Ranked, DispatchFrom, Ring, Balanced, ActiveCount;
      match q {
        case Enqueue(x) => var ok := Enqueue(x);
        case Publish(x) => PublishEvent(x);
        case Subscribe(event, callback, userData) => var handle := Subscribe(event, callback, userData);
        case Unsubscribe(handle) => Unsubscribe(handle);
        case Return =>
      }
    }

    /** Publishing is an immediate dispatch. */
    method PublishEvent(data: EventData)
      requires Valid()
      modifies this`queueTail, this`queueCount, this`trace, this`subscriberCount, queue, subscriptions
      ensures Valid() && State() == DispatchFrom(program, old(State()).Noting(Raised(data)), data, 0)
    {
      Note(Raised(data));
      Dispatch(data);
    }

    /**
     * Drains the queue.  It ends although callbacks refill the queue, leaves it empty, and by then every
     * event ever accepted has been delivered exactly once, in order.
     */
    method DispatchQueued()
      requires Valid()
      modifies this, queue, subscriptions
      ensures Valid() && State() == Drain(program, old(State()))
      ensures Contents() == [] && Out(trace) == Taken(trace)
    {
      hide Ranked, DispatchFrom, Ring, ActiveCount, Weight, Drain, Deliver, Taken, Out;
      ghost var before := State();
      while queueCount > 0
        invariant Valid() && Drain(program, State()) == Drain(program, before)
        decreases Weight(program, Contents())
      {
        ghost var b := State();
        DrainStep(program, b);
        var data := TakeOut();
        Dispatch(data);
        assert State() == Deliver(program, b);
      }
      DrainDone(program, State());
      DrainIsFifo(program, before);
    }

    /** Removes the oldest event. */
    method TakeOut() returns (data: EventData)
      requires Valid() && queueCount > 0
      modifies this`queueHead, this`queueCount, this`trace
      ensures Valid() && old(Contents()) != [] && data == old(Contents())[0]
      ensures State() == old(State()).(queue := old(Contents())[1..]).Noting(Delivered(data))
    {
      hide Ranked, Ring, ActiveCount, Taken, Out, Resumptions;
      ghost var b := State();
      data := queue[queueHead];
      RingPop(queue[..], queueHead, queueCount);
      NotedDelivery(b);
      queueHead := (queueHead + 1) % 64;
      queueCount := queueCount - 1;
      trace := trace + [Delivered(data)];
      assert Contents() == b.queue[1..];
    }
  }

  // ---------------------------------------------------------------- steps of the loops

  lemma {:induction false} SlotStep(p: Program, b: Bus, e: EventData, i: nat)
    requires i < |b.subs|
    ensures var sub := b.subs[i]; var limit := p.patience(b.trace, sub.callback, sub.userData, e);
      DispatchFrom(p, b, e, i) ==
        if Listens(sub, e)
        then DispatchFrom(p, Callback(p, b.Noting(Called(i, sub.callback, sub.userData, e)), sub.callback, sub.userData, e, limit), e, i + 1)
        else DispatchFrom(p, b, e, i + 1)
  {}

  lemma {:induction false} AllSlotsDone(p: Program, b: Bus, e: EventData)
    ensures DispatchFrom(p, b, e, |b.subs|) == b
  {}

  lemma {:induction false} CallbackStep(p: Program, b: Bus, callback: nat, userData: nat, e: EventData, left: nat, q: Request)
    requires left > 0 && q == p.react(b.trace, callback, userData, e)
    ensures Callback(p, b, callback, userData, e, left)
         == if q.Return? then b else Callback(p, Serve(p, b, e, q), callback, userData, e, left - 1)
  {}

  lemma {:induction false} CallbackDone(p: Program, b: Bus, callback: nat, userData: nat, e: EventData)
    ensures Callback(p, b, callback, userData, e, 0) == b
  {}

  lemma {:induction false} ActStep(p: Program, b: Bus, who: Actor, left: nat, q: Request)
    requires left > 0 && q == p.act(b.trace, who)
    ensures Act(p, b, who, left) == if q.Return? then b else Act(p, Grant(p, b, q), who, left - 1)
  {}

  lemma {:induction false} ActDone(p: Program, b: Bus, who: Actor)
    ensures Act(p, b, who, 0) == b
  {}

  lemma {:induction false} ReactDescends(p: Program, history: seq<Effect>, callback: nat, userData: nat, e: EventData)
    requires Ranked(p)
    ensures Descends(p, p.react(history, callback, userData, e), e)
  {}

  lemma {:induction false} DrainStep(p: Program, b: Bus)
    requires Ranked(p) && 0 < |b.queue| <= QUEUE_DEPTH
    ensures |Deliver(p, b).queue| <= QUEUE_DEPTH && Drain(p, b) == Drain(p, Deliver(p, b))
    ensures Weight(p, Deliver(p, b).queue) < Weight(p, b.queue)
    ensures Deliver(p, b) == DispatchFrom(p, b.(queue := b.queue[1..]).Noting(Delivered(b.queue[0])), b.queue[0], 0)
  {
    hide DispatchFrom, Weight;
    DeliveryLosesWeight(p, b);
  }

  lemma {:induction false} DrainDone(p: Program, b: Bus)
    requires Ranked(p) && b.queue == []
    ensures Drain(p, b) == b
  {}

  // ---------------------------------------------------------------- the balance of accepted and delivered

  lemma {:induction false} NotedQuietly(b: Bus, x: Effect)
    requires !x.Delivered? && !x.Attempted?
    ensures Balanced(b) ==> Balanced(b.Noting(x))
    ensures Taken(b.trace + [x]) == Taken(b.trace) && Out(b.trace + [x]) == Out(b.trace)
  {
    Noted(b.trace, x);
  }

  lemma {:induction false} NotedEnqueue(b: Bus, e: EventData)
    ensures Balanced(b) ==> Balanced(DoEnqueue(b, e))
  {
    Noted(b.trace, Attempted(e, true));
    Noted(b.trace, Attempted(e, false));
  }

  lemma {:induction false} NotedDelivery(b: Bus)
    requires |b.queue| > 0
    ensures Balanced(b) ==> Balanced(b.(queue := b.queue[1..]).Noting(Delivered(b.queue[0])))
  {
    Noted(b.trace, Delivered(b.queue[0]));
  }

  // ---------------------------------------------------------------- the ring

  /** The ring's events in queue order. */
  function Ring(q: seq<EventData>, head: nat, n: nat): (r: seq<EventData>)
    requires |q| == QUEUE_DEPTH
    ensures |r| == n
    ensures forall i | 0 <= i < n :: r[i] == q[(head + i) % 64]
  {
    seq(n, i requires 0 <= i < n => q[(head + i) % 64])
  }

  lemma RingPush(q: seq<EventData>, head: nat, n: nat, e: EventData)
    requires |q| == QUEUE_DEPTH && head < QUEUE_DEPTH && n < QUEUE_DEPTH
    ensures Ring(q[(head + n) % 64 := e], head, n + 1) == Ring(q, head, n) + [e]
  {}

  lemma RingPop(q: seq<EventData>, head: nat, n: nat)
    requires |q| == QUEUE_DEPTH && head < QUEUE_DEPTH && 0 < n <= QUEUE_DEPTH
    ensures Ring(q, head, n) == [q[head]] + Ring(q, (head + 1) % 64, n - 1)
    ensures (head + n) % 64 == ((head + 1) % 64 + (n - 1)) % 64
  {
    var a, b := Ring(q, head, n), [q[head]] + Ring(q, (head + 1) % 64, n - 1);
    forall i | 0 <= i < n ensures a[i] == b[i] {
      if i > 0 {
        assert ((head + 1) % 64 + (i - 1)) % 64 == (head + i) % 64;
      }
    }
  }

  // ---------------------------------------------------------------- small facts about the specification

  function ActiveCount(subs: seq<Subscription>): nat {
    if |subs| == 0 then 0 else ActiveCount(subs[..|subs| - 1]) + if subs[|subs| - 1].active then 1 else 0
  }

  lemma {:induction false} NoneActive(subs: seq<Subscription>)
    requires forall i | 0 <= i < |subs| :: !subs[i].active
    ensures ActiveCount(subs) == 0
  {
    if |subs| > 0 {
      NoneActive(subs[..|subs| - 1]);
    }
  }

  /** The count is full exactly when every slot is taken. */
  lemma {:induction false} CountBounds(subs: seq<Subscription>)
    ensures ActiveCount(subs) <= |subs|
    ensures ActiveCount(subs) == |subs| <==> forall i | 0 <= i < |subs| :: subs[i].active
    decreases |subs|
  {
    if |subs| > 0 {
      CountBounds(subs[..|subs| - 1]);
    }
  }

  lemma {:induction false} CountUpdate(subs: seq<Subscription>, i: nat, sub: Subscription)
    requires i < |subs|
    ensures ActiveCount(subs[i := sub]) == ActiveCount(subs) + (if sub.active then 1 else 0) - (if subs[i].active then 1 else 0)
    decreases |subs|
  {
    var n := |subs| - 1;
    if i < n {
      CountUpdate(subs[..n], i, sub);
      assert subs[i := sub][..n] == subs[..n][i := sub];
    } else {
      assert subs[i := sub][..n] == subs[..n];
    }
  }

  lemma {:induction false} FullMeansNoFreeSlot(subs: seq<Subscription>)
    ensures (forall i | 0 <= i < |subs| :: subs[i].active) ==> FreeSlot(subs, 0) == -1
  {}
}
