/** The bounded FIFO between threads: one mutex, one condition for both roles, `notify_one` (Queue.h). */
module Queues {
  import opened Wire

  type Item = int
  type Thread = nat

  /** Who uses the queue. A thread only pushes or only pops. */
  datatype Config = Config(capacity: nat, producers: set<Thread>, consumers: set<Thread>)

  /** The queue, everything that was ever pushed and popped, and who waits on the condition. A thread that
      does not wait is about to take the mutex: to begin a call, or to test the loop condition again. */
  datatype State = State(queue: seq<Item>, pushed: seq<Item>, popped: seq<Item>,
                         waitingProducers: set<Thread>, waitingConsumers: set<Thread>)

  const START := State([], [], [], {}, {})

  /** What happens while one thread holds the mutex, and wakeups nobody asked for. `notify_one` wakes any one
      of the threads that wait, of either role. */
  datatype Event =
    | PushWaits(t: Thread)
    | Push(t: Thread, item: Item, woken: Option<Thread>)
    | PopWaits(t: Thread)
    | Pop(t: Thread, woken: Option<Thread>)
    | Spurious(t: Thread)

  function Waiting(s: State): set<Thread> {
    s.waitingProducers + s.waitingConsumers
  }

  /** Any one of those that wait, and nobody only when nobody waits. */
  predicate CanNotify(waiting: set<Thread>, woken: Option<Thread>) {
    match woken
    case None => waiting == {}
    case Some(t) => t in waiting
  }

  function Wake(s: State, t: Thread): State {
    s.(waitingProducers := s.waitingProducers - {t}, waitingConsumers := s.waitingConsumers - {t})
  }

  function Notify(s: State, woken: Option<Thread>): State {
    if woken.Some? then Wake(s, woken.value) else s
  }

  /** The state after an event; `None` when the event cannot happen. */
  function Next(c: Config, s: State, e: Event): Option<State> {
    match e
    case PushWaits(t) =>
      if t in c.producers - s.waitingProducers && |s.queue| >= c.capacity
      then Some(s.(waitingProducers := s.waitingProducers + {t})) else None
    case Push(t, item, woken) =>
      if t in c.producers - s.waitingProducers && |s.queue| < c.capacity && CanNotify(Waiting(s), woken)
      then Some(Notify(s.(queue := s.queue + [item], pushed := s.pushed + [item]), woken)) else None
    case PopWaits(t) =>
      if t in c.consumers - s.waitingConsumers && s.queue == []
      then Some(s.(waitingConsumers := s.waitingConsumers + {t})) else None
    case Pop(t, woken) =>
      if t in c.consumers - s.waitingConsumers && s.queue != [] && CanNotify(Waiting(s), woken)
      then Some(Notify(s.(queue := s.queue[1..], popped := s.popped + [s.queue[0]]), woken)) else None
    case Spurious(t) =>
      if t in Waiting(s) then Some(Wake(s, t)) else None
  }

  /** A run from the empty queue. */
  function Run(c: Config, es: seq<Event>): Option<State> {
    if es == [] then Some(START)
    else
      var s := Run(c, es[..|es| - 1]);
      if s.None? then None else Next(c, s.value, es[|es| - 1])
  }

  ghost predicate Reachable(c: Config, s: State) {
    exists es :: Run(c, es) == Some(s)
  }

  lemma ReachableNext(c: Config, s: State, e: Event)
    requires Reachable(c, s) && Next(c, s, e).Some?
    ensures Reachable(c, Next(c, s, e).value)
  {
    var es :| Run(c, es) == Some(s);
    assert (es + [e])[..|es|] == es;
    assert Run(c, es + [e]) == Next(c, s, e);
  }

  /* ------------------------------- safety ------------------------------- */

  ghost predicate Fifo(c: Config, s: State) {
    && s.pushed == s.popped + s.queue && |s.queue| <= c.capacity
    && s.waitingProducers <= c.producers && s.waitingConsumers <= c.consumers
  }

  lemma StaysFifo(c: Config, s: State, e: Event)
    requires Fifo(c, s) && Next(c, s, e).Some?
    ensures Fifo(c, Next(c, s, e).value)
  {
    if e.Pop? {
      assert s.popped + s.queue == (s.popped + [s.queue[0]]) + s.queue[1..];
    }
  }

  /** However many threads there are: what was popped, with what is in the queue after it, is what was
      pushed, and the queue never holds more than its capacity. */
  lemma {:induction false} FirstInFirstOut(c: Config, es: seq<Event>)
    requires Run(c, es).Some?
    ensures var s := Run(c, es).value;
            && s.pushed == s.popped + s.queue && |s.queue| <= c.capacity
            && s.waitingProducers <= c.producers && s.waitingConsumers <= c.consumers
  {
    hide Next;
    if es != [] {
      FirstInFirstOut(c, es[..|es| - 1]);
      StaysFifo(c, Run(c, es[..|es| - 1]).value, es[|es| - 1]);
    }
  }

  /* ---------------------------- lost wakeups ---------------------------- */

  /** With one producer and one consumer no wakeup is lost: a consumer waits only on an empty queue, a
      producer only on a full one, and never both. */
  lemma {:induction false} NoLostWakeup(c: Config, es: seq<Event>, p: Thread, q: Thread)
    requires c.producers == {p} && c.consumers == {q} && c.capacity > 0 && Run(c, es).Some?
    ensures var s := Run(c, es).value;
            && (s.waitingConsumers != {} ==> s.queue == [])
            && (s.waitingProducers != {} ==> |s.queue| == c.capacity)
  {
    if es != [] {
      NoLostWakeup(c, es[..|es| - 1], p, q);
      FirstInFirstOut(c, es[..|es| - 1]);
      FirstInFirstOut(c, es);
      var s, t := Run(c, es[..|es| - 1]).value, Run(c, es).value;
      if es[|es| - 1].Push? {
        assert s.waitingProducers == {};
      } else if es[|es| - 1].Pop? {
        assert s.waitingConsumers == {};
      }
    }
  }

  /* ---------------------- counting instead of naming ---------------------- */

  /** How many items there are and how many threads of each role wait. */
  datatype Count = Count(items: nat, waitingProducers: nat, waitingConsumers: nat)

  function Counted(s: State): Count {
    Count(|s.queue|, |s.waitingProducers|, |s.waitingConsumers|)
  }

  datatype Sizes = Sizes(capacity: nat, producers: nat, consumers: nat)

  function SizesOf(c: Config): Sizes {
    Sizes(c.capacity, |c.producers|, |c.consumers|)
  }

  /** An event, without the names in it. */
  datatype Kind = AProducerWaits | AConsumerWaits | APush | APop | AWakeup

  /** One of those that wait is woken, of either role. */
  predicate OneWoken(a: Count, b: Count) {
    && b.waitingProducers + b.waitingConsumers == a.waitingProducers + a.waitingConsumers - 1
    && b.waitingProducers <= a.waitingProducers && b.waitingConsumers <= a.waitingConsumers
  }

  predicate OneWokenIfAny(a: Count, b: Count) {
    && (a.waitingProducers == a.waitingConsumers == 0 ==> b.waitingProducers == b.waitingConsumers == 0)
    && (a.waitingProducers > 0 || a.waitingConsumers > 0 ==> OneWoken(a, b))
  }

  predicate CountStep(z: Sizes, a: Count, k: Kind, b: Count) {
    match k
    case AProducerWaits =>
      && a.waitingProducers < z.producers && a.items >= z.capacity
      && b == a.(waitingProducers := a.waitingProducers + 1)
    case AConsumerWaits =>
      && a.waitingConsumers < z.consumers && a.items == 0
      && b == a.(waitingConsumers := a.waitingConsumers + 1)
    case APush =>
      a.waitingProducers < z.producers && a.items < z.capacity && b.items == a.items + 1 && OneWokenIfAny(a, b)
    case APop =>
      a.waitingConsumers < z.consumers && a.items > 0 && b.items == a.items - 1 && OneWokenIfAny(a, b)
    case AWakeup =>
      b.items == a.items && OneWoken(a, b)
  }

  function KindOf(e: Event): Kind {
    match e
    case PushWaits(_) => AProducerWaits
    case Push(_, _, _) => APush
    case PopWaits(_) => AConsumerWaits
    case Pop(_, _) => APop
    case Spurious(_) => AWakeup
  }

  ghost predicate Sensible(c: Config) {
    c.capacity > 0 && c.producers != {} && c.consumers != {} && c.producers !! c.consumers
  }

  lemma Smaller<T>(a: set<T>, b: set<T>)
    requires a <= b
    ensures |a| <= |b| && (a != b ==> |a| < |b|)
  {
    assert b == a + (b - a);
    if a != b {
      assert b - a != {};
    }
  }

  lemma WakingOne(c: Config, s: State, t: Thread)
    requires Sensible(c) && s.waitingProducers <= c.producers && s.waitingConsumers <= c.consumers && t in Waiting(s)
    ensures OneWoken(Counted(s), Counted(Wake(s, t)))
    ensures t in s.waitingProducers <==> Counted(Wake(s, t)).waitingProducers < |s.waitingProducers|
  {
    if t in s.waitingProducers {
      assert s.waitingConsumers - {t} == s.waitingConsumers;
    } else {
      assert s.waitingProducers - {t} == s.waitingProducers;
    }
  }

  lemma NotifyingOne(c: Config, s: State, woken: Option<Thread>)
    requires Sensible(c) && s.waitingProducers <= c.producers && s.waitingConsumers <= c.consumers
    requires CanNotify(Waiting(s), woken)
    ensures OneWokenIfAny(Counted(s), Counted(Notify(s, woken)))
  {
    if woken.Some? {
      WakingOne(c, s, woken.value);
    } else {
      assert s.waitingProducers == {} && s.waitingConsumers == {};
    }
  }

  /** Every event is a step on the counts. */
  lemma Counting(c: Config, s: State, e: Event)
    requires Sensible(c) && s.waitingProducers <= c.producers && s.waitingConsumers <= c.consumers
    requires Next(c, s, e).Some?
    ensures CountStep(SizesOf(c), Counted(s), KindOf(e), Counted(Next(c, s, e).value))
  {
    hide Notify, Wake, Sensible;
    match e {
      case PushWaits(t) =>
        Smaller(s.waitingProducers + {t}, c.producers);
      case PopWaits(t) =>
        Smaller(s.waitingConsumers + {t}, c.consumers);
      case Push(_, _, _) => CountingPush(c, s, e);
      case Pop(_, _) => CountingPop(c, s, e);
      case Spurious(t) =>
        WakingOne(c, s, t);
        WakingLeavesQueue(s, t);
    }
  }

  lemma CountingPush(c: Config, s: State, e: Event)
    requires Sensible(c) && s.waitingProducers <= c.producers && s.waitingConsumers <= c.consumers
    requires e.Push? && Next(c, s, e).Some?
    ensures CountStep(SizesOf(c), Counted(s), KindOf(e), Counted(Next(c, s, e).value))
  {
    hide Notify, Wake, Sensible;
    Smaller(s.waitingProducers, c.producers);
    NotifyingOne(c, s, e.woken);
    NotifiedQueue(s, s.queue + [e.item], s.pushed + [e.item], s.popped, e.woken);
  }

  lemma CountingPop(c: Config, s: State, e: Event)
    requires Sensible(c) && s.waitingProducers <= c.producers && s.waitingConsumers <= c.consumers
    requires e.Pop? && Next(c, s, e).Some?
    ensures CountStep(SizesOf(c), Counted(s), KindOf(e), Counted(Next(c, s, e).value))
  {
    hide Notify, Wake, Sensible;
    Smaller(s.waitingConsumers, c.consumers);
    NotifyingOne(c, s, e.woken);
    NotifiedQueue(s, s.queue[1..], s.pushed, s.popped + [s.queue[0]], e.woken);
  }

  lemma NotifiedQueue(s: State, queue: seq<Item>, pushed: seq<Item>, popped: seq<Item>, woken: Option<Thread>)
    ensures Notify(s.(queue := queue, pushed := pushed, popped := popped), woken)
            == Notify(s, woken).(queue := queue, pushed := pushed, popped := popped)
  {
  }

  lemma WakingLeavesQueue(s: State, t: Thread)
    ensures Wake(s, t).queue == s.queue
  {
  }

  lemma Outside(a: set<Thread>, b: set<Thread>) returns (t: Thread)
    requires a <= b && |a| < |b|
    ensures t in b - a
  {
    assert b == a + (b - a);
    t :| t in b - a;
  }

  /** Somebody to wake of the role of which one waits less in `b`. */
  lemma WhomToWake(c: Config, s: State, b: Count) returns (woken: Option<Thread>)
    requires Sensible(c) && s.waitingProducers <= c.producers && s.waitingConsumers <= c.consumers
    requires OneWokenIfAny(Counted(s), b)
    ensures CanNotify(Waiting(s), woken)
    ensures |Notify(s, woken).waitingProducers| == b.waitingProducers
    ensures |Notify(s, woken).waitingConsumers| == b.waitingConsumers
  {
    var a := Counted(s);
    woken := None;
    if a.waitingProducers + a.waitingConsumers > 0 {
      var w :| w in if b.waitingProducers < a.waitingProducers then s.waitingProducers else s.waitingConsumers;
      woken := Some(w);
      WakingOne(c, s, w);
    }
  }

  /** And every step on the counts is one that some threads can take. */
  lemma Named(c: Config, s: State, k: Kind, b: Count) returns (t: State)
    requires Sensible(c) && Reachable(c, s) && CountStep(SizesOf(c), Counted(s), k, b)
    ensures Reachable(c, t) && Counted(t) == b
  {
    hide Reachable, Notify, Wake, OneWoken, OneWokenIfAny, CanNotify, Waiting;
    WaitersAreThreads(c, s);
    match k {
      case AProducerWaits =>
        var p := Outside(s.waitingProducers, c.producers);
        ReachableNext(c, s, PushWaits(p));
        t := Next(c, s, PushWaits(p)).value;
      case AConsumerWaits =>
        var p := Outside(s.waitingConsumers, c.consumers);
        ReachableNext(c, s, PopWaits(p));
        t := Next(c, s, PopWaits(p)).value;
      case APush =>
        var p := Outside(s.waitingProducers, c.producers);
        var woken := WhomToWake(c, s, b);
        NotifiedQueue(s, s.queue + [0], s.pushed + [0], s.popped, woken);
        ReachableNext(c, s, Push(p, 0, woken));
        t := Next(c, s, Push(p, 0, woken)).value;
      case APop =>
        var p := Outside(s.waitingConsumers, c.consumers);
        var woken := WhomToWake(c, s, b);
        NotifiedQueue(s, s.queue[1..], s.pushed, s.popped + [s.queue[0]], woken);
        ReachableNext(c, s, Pop(p, woken));
        t := Next(c, s, Pop(p, woken)).value;
      case AWakeup =>
        t := NamedWakeup(c, s, b);
    }
  }

  lemma NamedWakeup(c: Config, s: State, b: Count) returns (t: State)
    requires Sensible(c) && Reachable(c, s) && b.items == |s.queue| && OneWoken(Counted(s), b)
    ensures Reachable(c, t) && Counted(t) == b
  {
    hide Reachable;
    WaitersAreThreads(c, s);
    var woken := WhomToWake(c, s, b);
    ReachableNext(c, s, Spurious(woken.value));
    t := Next(c, s, Spurious(woken.value)).value;
  }

  /* -------------------- no deadlock while P + C <= 2 * capacity -------------------- */

  function Max(a: int, b: int): int {
    if a < b then b else a
  }

  /** `P + max(C, capacity) <= 2 * capacity`. */
  predicate Roomy(z: Sizes) {
    z.producers + Max(z.consumers, z.capacity) <= 2 * z.capacity
  }

  /** Few enough consumers wait to leave the items to those that do not, and a producer waits only where
      the queue is nearly full. */
  predicate Safe(z: Sizes, a: Count) {
    var m := Max(z.consumers, z.capacity);
    && a.items <= z.capacity
    && a.waitingConsumers <= m - a.items
    && (a.waitingProducers > 0 ==>
          && a.waitingConsumers <= m - z.capacity
          && a.waitingProducers + a.waitingConsumers <= a.items + z.producers + m - 2 * z.capacity)
  }

  lemma StaysSafe(z: Sizes, a: Count, k: Kind, b: Count)
    requires z.capacity > 0 && Roomy(z) && Safe(z, a) && CountStep(z, a, k, b)
    ensures Safe(z, b)
  {
  }

  /** Room for items is to producers what items are to consumers. */
  function Flip(z: Sizes): Sizes {
    Sizes(z.capacity, z.consumers, z.producers)
  }

  function FlipCount(z: Sizes, a: Count): Count
    requires a.items <= z.capacity
  {
    Count(z.capacity - a.items, a.waitingConsumers, a.waitingProducers)
  }

  function FlipKind(k: Kind): Kind {
    match k
    case AProducerWaits => AConsumerWaits
    case AConsumerWaits => AProducerWaits
    case APush => APop
    case APop => APush
    case AWakeup => AWakeup
  }

  lemma FlipStep(z: Sizes, a: Count, k: Kind, b: Count)
    requires a.items <= z.capacity && b.items <= z.capacity && CountStep(z, a, k, b)
    ensures CountStep(Flip(z), FlipCount(z, a), FlipKind(k), FlipCount(z, b))
  {
  }

  /** One of the two invariants holds all through a run. */
  lemma {:induction false} RunIsSafe(c: Config, es: seq<Event>)
    requires Sensible(c) && |c.producers| + |c.consumers| <= 2 * c.capacity && Run(c, es).Some?
    ensures var z, a := SizesOf(c), Counted(Run(c, es).value);
            && a.items <= z.capacity
            && (Roomy(z) ==> Safe(z, a)) && (Roomy(Flip(z)) ==> Safe(Flip(z), FlipCount(z, a)))
  {
    hide Next, CountStep, Fifo;
    FirstInFirstOut(c, es);
    if es != [] {
      RunIsSafe(c, es[..|es| - 1]);
      FirstInFirstOut(c, es[..|es| - 1]);
      var z, s, t, e := SizesOf(c), Run(c, es[..|es| - 1]).value, Run(c, es).value, es[|es| - 1];
      Counting(c, s, e);
      FlipStep(z, Counted(s), KindOf(e), Counted(t));
      if Roomy(z) {
        StaysSafe(z, Counted(s), KindOf(e), Counted(t));
      }
      if Roomy(Flip(z)) {
        StaysSafe(Flip(z), FlipCount(z, Counted(s)), FlipKind(KindOf(e)), FlipCount(z, Counted(t)));
      }
    }
  }

  /** A call can be completed: some thread that does not wait finds what it needs. */
  ghost predicate Moves(c: Config, s: State) {
    || (|s.queue| < c.capacity && c.producers - s.waitingProducers != {})
    || (s.queue != [] && c.consumers - s.waitingConsumers != {})
  }

  /** With no more threads than twice the capacity some call can always be completed. */
  lemma SomeCallCompletes(c: Config, es: seq<Event>)
    requires Sensible(c) && |c.producers| + |c.consumers| <= 2 * c.capacity && Run(c, es).Some?
    ensures Moves(c, Run(c, es).value)
  {
    RunIsSafe(c, es);
    FirstInFirstOut(c, es);
    var s := Run(c, es).value;
    Smaller(s.waitingProducers, c.producers);
    Smaller(s.waitingConsumers, c.consumers);
    Smaller({}, c.producers);
    Smaller({}, c.consumers);
    assert |s.waitingProducers| < |c.producers| ==> c.producers - s.waitingProducers != {};
    assert |s.waitingConsumers| < |c.consumers| ==> c.consumers - s.waitingConsumers != {};
  }

  /* ---------------------- deadlock as soon as there are more ---------------------- */

  ghost predicate AllWait(c: Config, s: State) {
    s.waitingProducers == c.producers && s.waitingConsumers == c.consumers
  }

  /** The producers fill the queue, waking each other rather than consumers, and then all of them wait. */
  lemma FillUp(c: Config, s: State) returns (t: State)
    requires Sensible(c) && Reachable(c, s) && |s.queue| <= c.capacity
    requires |s.waitingProducers| < |c.producers| || |s.queue| == c.capacity
    requires |s.waitingProducers| <= |c.producers|
    ensures Reachable(c, t) && |t.queue| == c.capacity && |t.waitingProducers| == |c.producers|
    ensures |t.waitingConsumers| >= |s.waitingConsumers| + (|s.waitingProducers| - (c.capacity - |s.queue|))
            || |t.waitingConsumers| >= |s.waitingConsumers|
    decreases c.capacity - |s.queue|, |c.producers| - |s.waitingProducers|
  {
    var a := Counted(s);
    if a.items < c.capacity {
      var b := if a.waitingProducers > 0 then a.(waitingProducers := a.waitingProducers - 1)
               else if a.waitingConsumers > 0 then a.(waitingConsumers := a.waitingConsumers - 1)
               else a;
      t := Named(c, s, APush, b.(items := a.items + 1));
      t := FillUp(c, t);
    } else if a.waitingProducers < |c.producers| {
      t := Named(c, s, AProducerWaits, a.(waitingProducers := a.waitingProducers + 1));
      t := FillUp(c, t);
    } else {
      t := s;
    }
  }

  /** The consumers empty the queue, waking each other rather than producers, and then all of them wait. */
  lemma DrainDry(c: Config, s: State) returns (t: State)
    requires Sensible(c) && Reachable(c, s)
    requires |s.waitingConsumers| < |c.consumers| || s.queue == []
    requires |s.waitingConsumers| <= |c.consumers|
    ensures Reachable(c, t) && t.queue == [] && |t.waitingConsumers| == |c.consumers|
    ensures |t.waitingProducers| >= |s.waitingProducers| + (|s.waitingConsumers| - |s.queue|)
            || |t.waitingProducers| >= |s.waitingProducers|
    decreases |s.queue|, |c.consumers| - |s.waitingConsumers|
  {
    var a := Counted(s);
    if a.items > 0 {
      var b := if a.waitingConsumers > 0 then a.(waitingConsumers := a.waitingConsumers - 1)
               else if a.waitingProducers > 0 then a.(waitingProducers := a.waitingProducers - 1)
               else a;
      t := Named(c, s, APop, b.(items := a.items - 1));
      t := DrainDry(c, t);
    } else if a.waitingConsumers < |c.consumers| {
      t := Named(c, s, AConsumerWaits, a.(waitingConsumers := a.waitingConsumers + 1));
      t := DrainDry(c, t);
    } else {
      t := s;
    }
  }

  /** Each time round more producers are left waiting on the empty queue. */
  lemma RoundAndRound(c: Config, s: State) returns (t: State)
    requires Sensible(c) && |c.producers| + |c.consumers| > 2 * c.capacity
    requires Reachable(c, s) && s.queue == [] && |s.waitingConsumers| == |c.consumers|
    ensures Reachable(c, t) && AllWait(c, t)
    decreases |c.producers| - |s.waitingProducers|
  {
    WaitersAreThreads(c, s);
    if |s.waitingProducers| == |c.producers| {
      t := s;
    } else {
      t := FillUp(c, s);
      WaitersAreThreads(c, t);
      if |t.waitingConsumers| < |c.consumers| {
        t := DrainDry(c, t);
        WaitersAreThreads(c, t);
        t := RoundAndRound(c, t);
      }
    }
  }

  lemma WaitersAreThreads(c: Config, s: State)
    requires Reachable(c, s)
    ensures s.waitingProducers <= c.producers && |s.waitingProducers| <= |c.producers|
    ensures s.waitingConsumers <= c.consumers && |s.waitingConsumers| <= |c.consumers|
    ensures |s.waitingProducers| == |c.producers| && |s.waitingConsumers| == |c.consumers| ==> AllWait(c, s)
  {
    var es :| Run(c, es) == Some(s);
    FirstInFirstOut(c, es);
    Smaller(s.waitingProducers, c.producers);
    Smaller(s.waitingConsumers, c.consumers);
  }

  /** All threads can come to wait for each other exactly when there are more of them than twice the
      capacity. */
  lemma DeadlockExactly(c: Config)
    requires Sensible(c)
    ensures (exists s :: Reachable(c, s) && AllWait(c, s)) <==> |c.producers| + |c.consumers| > 2 * c.capacity
  {
    if |c.producers| + |c.consumers| > 2 * c.capacity {
      assert Run(c, []) == Some(START);
      var s := DrainDry(c, START);
      s := RoundAndRound(c, s);
    } else {
      forall s | Reachable(c, s)
        ensures !AllWait(c, s)
      {
        var es :| Run(c, es) == Some(s);
        SomeCallCompletes(c, es);
      }
    }
  }

  /* ------------------------------ the class ------------------------------ */

  /** The state, changed in place. Each method is what a thread does with the mutex in one go. */
  class Queue {
    const config: Config
    var queue: seq<Item>
    var waitingProducers: set<Thread>
    var waitingConsumers: set<Thread>
    ghost var pushed: seq<Item>
    ghost var popped: seq<Item>

    ghost function Contents(): State
      reads this
    {
      State(queue, pushed, popped, waitingProducers, waitingConsumers)
    }

    constructor (config: Config)
      ensures this.config == config && Contents() == START
    {
      this.config := config;
      queue, waitingProducers, waitingConsumers := [], {}, {};
      pushed, popped := [], [];
    }

    method NotifyOne() returns (woken: Option<Thread>)
      modifies this`waitingProducers, this`waitingConsumers
      ensures CanNotify(old(Waiting(Contents())), woken) && Contents() == Notify(old(Contents()), woken)
    {
      woken := None;
      if t :| t in waitingProducers + waitingConsumers {
        woken := Some(t);
        waitingProducers, waitingConsumers := waitingProducers - {t}, waitingConsumers - {t};
      }
    }

    /** `Push`, from taking the mutex until it returns or waits. */
    method PushTurn(t: Thread, item: Item) returns (done: bool, ghost e: Event)
      requires t in config.producers - waitingProducers
      modifies this
      ensures Next(config, old(Contents()), e) == Some(Contents())
      ensures done == (|old(queue)| < config.capacity)
      ensures if done then e.Push? && e.t == t && e.item == item else e == PushWaits(t)
    {
      if |queue| >= config.capacity {
        waitingProducers := waitingProducers + {t};
        return false, PushWaits(t);
      }
      queue, pushed := queue + [item], pushed + [item];
      var woken := NotifyOne();
      return true, Push(t, item, woken);
    }

    /** `Pop`, likewise. */
    method PopTurn(t: Thread) returns (item: Option<Item>, ghost e: Event)
      requires t in config.consumers - waitingConsumers
      modifies this
      ensures Next(config, old(Contents()), e) == Some(Contents())
      ensures if old(queue) != [] then item == Some(old(queue)[0]) && e.Pop? && e.t == t
              else item == None && e == PopWaits(t)
    {
      if queue == [] {
        waitingConsumers := waitingConsumers + {t};
        return None, PopWaits(t);
      }
      item := Some(queue[0]);
      queue, popped := queue[1..], popped + [queue[0]];
      var woken := NotifyOne();
      e := Pop(t, woken);
    }
  }
}
