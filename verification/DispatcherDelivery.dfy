/** Delivery of records, and the end of shutdown. */
module DispatcherDelivery {
  import opened BoundedFifo
  import opened QueueMachine
  import opened Dispatcher
  import QC = QueueConservation
  import QL = QueueLinearizability

  // ---- the writer exits when it is told to, and not before ----

  ghost predicate Obeys(d: World) {
    (d.writer.Exited? ==> d.stop) && (d.stop <==> !d.closer.Open?)
  }

  lemma {:induction false} RunObeys(cfg: Config, n: nat, d: World, acts: seq<Act>, e: World)
    requires Sized(cfg, d.q) && Obeys(d) && Behaves(cfg, n, d, acts, e)
    ensures Obeys(e)
    decreases |acts|
  {
    if acts != [] { RunObeys(cfg, n, Next(cfg, d, acts[0]), acts[1..], e); }
  }

  /** In every run, for any tags, the writer has exited only after stopFlag was set. */
  lemma WriterRunsUntilStopped(cfg: Config, n: nat, acts: seq<Act>, d: World)
    requires 0 < cfg.capacity && Behaves(cfg, n, Start(cfg), acts, d)
    ensures d.writer.Exited? ==> d.stop
    ensures d.stop <==> !d.closer.Open?
  {
    RunObeys(cfg, n, Start(cfg), acts, d);
  }

  // ---- the writer alone ----

  predicate WriterAct(a: Act) {
    a.TestStop? || a.TestEmpty? || a.Wake? || a.StartPump? || a.StepPump? || a.Write?
  }

  /** Producers have finished and nobody has asked the writer to stop. */
  ghost predicate Resting(cfg: Config, d: World) {
    Good(cfg, d) && Obeys(d) && ProducersDone(d) && !d.stop
  }

  /** Items stored and not taken. */
  function Left(d: World): int {
    |d.q.stored| - |d.q.taken|
  }

  /** How near a pop is to its next item, or to its answer if there is none. */
  function PopWork(left: int, c: Call): nat {
    match c
    case PopLoad => if left > 0 then 4 else 6
    case PopCheck(_) => if left > 0 then 3 else 5
    case PopRead(_) => 2
    case PopSwap(_, _) => 1
    case PopBump(_, _, _) => if left > 0 then 7 else 9
    case PopEnd(w) => if w == NULL then (if left > 0 then 6 else 4) else if left > 0 then 6 else 8
    case _ => 0
  }

  /** A bound on the writer's actions. */
  function Work(d: World): int {
    var left := Left(d);
    9 * left + (if d.event then 4 else 0) +
    match d.writer
    case Top => if left > 0 then 7 else 2
    case Test => if left > 0 then 6 else 1
    case Wait => if left > 0 then 2 else 0
    case Drain => if left > 0 then 5 else 3
    case Pumping(id) => if id in d.q.calls then PopWork(left, d.q.calls[id]) else 0
    case Holding(_) => if left > 0 then 5 else 7
    case Exited => 0
  }

  /** What the writer's pop meets when the producers have finished: m_puts counts the items stored, and m_gets
      those taken except by a pop that is about to move it. */
  ghost predicate Meets(cfg: Config, q: State, popping: bool, c: Call) {
    Sized(cfg, q) && |q.stored| == q.puts && |q.taken| <= q.puts && (popping ==> !IsPush(c)) &&
    if !popping || c.PopEnd? then |q.taken| == q.gets
    else match c
      case PopLoad => |q.taken| == q.gets
      case PopCheck(g) => g == q.gets == |q.taken|
      case PopRead(g) => g == q.gets == |q.taken| < q.puts
      case PopSwap(g, w) => g == q.gets == |q.taken| < q.puts && q.slots[Slot(g, cfg.capacity)] == w && !Vacant(w)
      case PopBump(g, w, won) => won && !Vacant(w) && g == q.gets && |q.taken| == g + 1
      case _ => true
  }

  /** The writer is in queue.pop(), or after it the closing thread. */
  predicate InPop(d: World) {
    d.writer.Pumping? || d.closer.Draining?
  }

  function Popper(d: World): CallId
    requires InPop(d)
  {
    if d.writer.Pumping? then d.writer.call else d.closer.call
  }

  /** The call of the consumer, where there is one. */
  ghost predicate MeetsNow(cfg: Config, d: World) {
    Meets(cfg, d.q, InPop(d), if InPop(d) && Popper(d) in d.q.calls then d.q.calls[Popper(d)] else PopLoad) &&
    (InPop(d) ==> Popper(d) in d.q.calls)
  }

  lemma AllPassed(cfg: Config, d: World)
    requires Good(cfg, d) && ProducersDone(d)
    ensures |d.q.stored| == d.q.puts
  {
  }

  lemma ConsumerMeets(cfg: Config, d: World)
    requires Good(cfg, d) && ProducersDone(d)
    ensures MeetsNow(cfg, d)
  {
    AllPassed(cfg, d);
    var q := d.q;
    if InPop(d) {
      var c := q.calls[Popper(d)];
      assert QL.CallOrder(cfg, q, Popper(d), c);
      if c.PopSwap? { assert q.slots[Slot(c.seen, cfg.capacity)] == q.stored[c.seen].item; }
    }
    if |q.taken| == q.gets + 1 {
      assert Popping(q.calls[q.taken[q.gets].call]);
    }
  }

  lemma PopCalls(cfg: Config, q: State, id: CallId)
    requires Sized(cfg, q) && id in q.calls && Popping(q.calls[id])
    ensures var t := Step(cfg, q, Run(id));
            id in t.calls && t.calls == q.calls[id := t.calls[id]] && !IsPush(t.calls[id])
  {
  }

  /** The consumer's actions leave the producers' calls alone. */
  lemma ProducersStayDone(cfg: Config, d: World, a: Act)
    requires MeetsNow(cfg, d) && ProducersDone(d) && ShutdownAct(a) && CanAct(d, a)
    requires d.writer.Pumping? ==> !d.closer.Draining?
    ensures ProducersDone(Next(cfg, d, a))
  {
    hide RunCall;
    if InPop(d) && Popping(d.q.calls[Popper(d)]) { PopCalls(cfg, d.q, Popper(d)); }
  }

  lemma ObeysStill(cfg: Config, d: World, a: Act)
    requires Sized(cfg, d.q) && Obeys(d) && CanAct(d, a)
    ensures Obeys(Next(cfg, d, a))
  {
  }

  /** Each step of a pop uses up work. */
  lemma PopUses(cfg: Config, q: State, id: CallId)
    requires id in q.calls && Popping(q.calls[id]) && Meets(cfg, q, true, q.calls[id])
    ensures var t := Step(cfg, q, Run(id));
            t.puts == q.puts && t.stored == q.stored && id in t.calls &&
            var left, left' := |q.stored| - |q.taken|, |t.stored| - |t.taken|;
            9 * left' + PopWork(left', t.calls[id]) < 9 * left + PopWork(left, q.calls[id])
  {
  }

  /** Each action of the writer uses up work, stores nothing and leaves the producers done. */
  lemma WriterUses(cfg: Config, d: World, a: Act)
    requires MeetsNow(cfg, d) && !d.stop && d.closer.Open? && WriterAct(a) && CanAct(d, a)
    ensures var e := Next(cfg, d, a);
            e.q.puts == d.q.puts && e.q.stored == d.q.stored && Work(e) < Work(d) && !e.stop
  {
    if a.StepPump? && Popping(d.q.calls[d.writer.call]) {
      hide RunCall, PopWork;
      PopUses(cfg, d.q, d.writer.call);
    }
  }

  lemma WriterWorks(cfg: Config, n: nat, d: World, a: Act)
    requires Resting(cfg, d) && WriterAct(a) && CanAct(d, a) && QL.DistinctTags(cfg, n) && d.q.puts + cfg.capacity <= n
    ensures var e := Next(cfg, d, a);
            Resting(cfg, e) && e.q.puts == d.q.puts && e.q.stored == d.q.stored && 0 <= Work(e) < Work(d)
  {
    hide Work, MeetsNow, QL.DistinctTags, ProducersDone, QC.Inv, QL.Order, Roles, Lives, Awake, InOrder;
    SizedQueue(cfg, d);
    var e := Next(cfg, d, a);
    ConsumerMeets(cfg, d);
    WriterUses(cfg, d, a);
    ActGood(cfg, n, d, a);
    ProducersStayDone(cfg, d, a);
    ObeysStill(cfg, d, a);
    ConsumerMeets(cfg, e);
    NoDebt(cfg, e);
  }

  lemma NoDebt(cfg: Config, d: World)
    requires MeetsNow(cfg, d)
    ensures Work(d) >= 0
  {
  }

  // ---- runs of the writer alone ----

  ghost predicate WriterRuns(cfg: Config, d: World, acts: seq<Act>, e: World)
    requires Sized(cfg, d.q)
    decreases |acts|
  {
    if acts == [] then d == e
    else
      WriterAct(acts[0]) && CanAct(d, acts[0]) && Sized(cfg, Next(cfg, d, acts[0]).q) &&
      WriterRuns(cfg, Next(cfg, d, acts[0]), acts[1..], e)
  }

  lemma {:induction false} WriterRunShort(cfg: Config, n: nat, d: World, acts: seq<Act>, e: World)
    requires Resting(cfg, d) && QL.DistinctTags(cfg, n) && d.q.puts + cfg.capacity <= n
    requires Sized(cfg, d.q) && WriterRuns(cfg, d, acts, e)
    ensures Resting(cfg, e) && e.q.stored == d.q.stored && |acts| <= Work(d) - Work(e) && 0 <= Work(e)
    decreases |acts|
  {
    hide Resting, Work, QL.DistinctTags;
    if acts == [] {
      WriterDebt(cfg, d);
    } else {
      WriterWorks(cfg, n, d, acts[0]);
      WriterRunShort(cfg, n, Next(cfg, d, acts[0]), acts[1..], e);
    }
  }

  lemma WriterDebt(cfg: Config, d: World)
    requires Resting(cfg, d)
    ensures 0 <= Work(d)
  {
    ConsumerMeets(cfg, d);
    NoDebt(cfg, d);
  }

  lemma {:induction false} Bound(ids: set<CallId>) returns (b: nat)
    ensures forall id :: id in ids ==> id < b
    decreases |ids|
  {
    if ids == {} {
      b := 0;
    } else {
      var x :| x in ids;
      var c := Bound(ids - {x});
      b := if x < c then c else x + 1;
      assert forall id :: id in ids ==> id == x || id in ids - {x};
    }
  }

  lemma FreshCall(d: World) returns (id: CallId)
    ensures id !in d.q.calls
  {
    id := Bound(d.q.calls.Keys);
  }

  /** The writer rests with no event pending. */
  predicate Idle(d: World) {
    d.writer.Wait? && !d.event
  }

  /** The writer can always act, except when it is idle. */
  lemma WriterCanAct(cfg: Config, d: World) returns (a: Act)
    requires Resting(cfg, d) && !Idle(d)
    ensures WriterAct(a) && CanAct(d, a)
  {
    var id := FreshCall(d);
    a := match d.writer
      case Top => TestStop
      case Test => TestEmpty
      case Wait => Wake
      case Drain => StartPump(id)
      case Pumping(_) => StepPump
      case Holding(_) => Write(id)
      case Exited => TestStop;
  }

  /** While the writer is idle, only a producer that has not finished can have an item in the queue. */
  lemma IdleMeansTaken(cfg: Config, d: World)
    requires Good(cfg, d) && Idle(d) && |d.q.taken| < |d.q.stored|
    ensures !ProducersDone(d)
  {
    var id := d.q.stored[|d.q.taken|].call;
    assert id in d.q.calls && QC.Gave(d.q.calls[id]) != NULL;
    assert IsPush(d.q.calls[id]) && id !in d.done;
  }

  /** An idle writer has given every stored record to the sinks, in order. */
  lemma IdleDelivered(cfg: Config, d: World)
    requires Resting(cfg, d) && Idle(d)
    ensures d.written == ItemsOf(d.q.stored)
  {
    hide QC.Inv, Lives;
    ConsumerMeets(cfg, d);
    if |d.q.taken| < |d.q.stored| { IdleMeansTaken(cfg, d); }
    assert ItemsOf(d.q.taken) == ItemsOf(d.q.stored);
  }

  lemma {:induction false} WriterGoesOn(cfg: Config, n: nat, d: World) returns (acts: seq<Act>, e: World)
    requires Resting(cfg, d) && QL.DistinctTags(cfg, n) && d.q.puts + cfg.capacity <= n
    ensures Sized(cfg, d.q) && WriterRuns(cfg, d, acts, e) && Resting(cfg, e) && Idle(e)
    decreases Work(d)
  {
    hide Resting, Work, QL.DistinctTags, Good;
    WriterSized(cfg, d);
    if Idle(d) {
      acts, e := [], d;
    } else {
      var a := WriterCanAct(cfg, d);
      WriterWorks(cfg, n, d, a);
      WriterSized(cfg, Next(cfg, d, a));
      var more;
      more, e := WriterGoesOn(cfg, n, Next(cfg, d, a));
      acts := [a] + more;
      assert acts[0] == a && acts[1..] == more;
    }
  }

  lemma WriterSized(cfg: Config, d: World)
    requires Resting(cfg, d)
    ensures Sized(cfg, d.q)
  {
  }

  /** Delivery: from every reachable world with stopFlag clear and every producer done, the writer alone comes
      to rest having given every stored record to the sinks, in the order of storing. */
  lemma WriterDelivers(cfg: Config, n: nat, acts: seq<Act>, d: World) returns (more: seq<Act>, e: World)
    requires 0 < cfg.capacity && QL.DistinctTags(cfg, n) && Behaves(cfg, n, Start(cfg), acts, d)
    requires !d.stop && ProducersDone(d)
    ensures Sized(cfg, d.q) && WriterRuns(cfg, d, more, e)
    ensures Idle(e) && e.q.stored == d.q.stored && e.written == ItemsOf(d.q.stored)
  {
    Reached(cfg, n, acts, d);
    more, e := WriterGoesOn(cfg, n, d);
    WriterRunShort(cfg, n, d, more, e);
    IdleDelivered(cfg, e);
  }

  /** And it cannot do otherwise: no run of the writer alone is longer than `Work`, and one that cannot go on
      has delivered everything. */
  lemma WriterRunsDeliver(cfg: Config, n: nat, acts: seq<Act>, d: World, more: seq<Act>, e: World)
    requires 0 < cfg.capacity && QL.DistinctTags(cfg, n) && Behaves(cfg, n, Start(cfg), acts, d)
    requires !d.stop && ProducersDone(d) && Sized(cfg, d.q) && WriterRuns(cfg, d, more, e)
    ensures |more| <= Work(d)
    ensures (forall a :: WriterAct(a) ==> !CanAct(e, a)) ==> e.written == ItemsOf(d.q.stored)
  {
    Reached(cfg, n, acts, d);
    WriterRunShort(cfg, n, d, more, e);
    if Idle(e) {
      IdleDelivered(cfg, e);
    } else {
      var a := WriterCanAct(cfg, e);
    }
  }

  lemma Reached(cfg: Config, n: nat, acts: seq<Act>, d: World)
    requires 0 < cfg.capacity && QL.DistinctTags(cfg, n) && Behaves(cfg, n, Start(cfg), acts, d)
    ensures Good(cfg, d) && Obeys(d) && d.q.puts + cfg.capacity <= n
  {
    StartGood(cfg);
    RunGood(cfg, n, Start(cfg), acts, d);
    RunObeys(cfg, n, Start(cfg), acts, d);
    BehavesWithin(cfg, n, Start(cfg), acts, d);
  }

  lemma {:induction false} BehavesWithin(cfg: Config, n: nat, d: World, acts: seq<Act>, e: World)
    requires Sized(cfg, d.q) && Behaves(cfg, n, d, acts, e)
    ensures e.q.puts + cfg.capacity <= n
    decreases |acts|
  {
    if acts != [] { BehavesWithin(cfg, n, Next(cfg, d, acts[0]), acts[1..], e); }
  }

  // ---- shutdown ----

  /** The writer, an alert while it waits, and the thread that closes. */
  predicate ShutdownAct(a: Act) {
    WriterAct(a) || a.Alerted? || a.Join? || a.StepDrain? || a.Drop?
  }

  /** stopFlag is set and the producers have finished. */
  ghost predicate Stopped(cfg: Config, d: World) {
    Good(cfg, d) && Obeys(d) && ProducersDone(d) && d.stop
  }

  /** A bound on what is left to do until the queue is drained. */
  function ShutdownWork(d: World): int {
    var left := Left(d);
    9 * left +
    if d.writer.Exited? then
      match d.closer
      case Draining(id) => if id in d.q.calls then PopWork(left, d.q.calls[id]) else 0
      case Closed => 0
      case _ => if left > 0 then 5 else 7
    else
      20 + (if d.event then 4 else 0) +
      match d.writer
      case Top => if left > 0 then 1 else 0
      case Test => if left > 0 then 6 else 2
      case Wait => if left > 0 then 2 else 1
      case Drain => if left > 0 then 5 else 3
      case Pumping(id) => if id in d.q.calls then PopWork(left, d.q.calls[id]) else 0
      case Holding(_) => if left > 0 then 5 else 7
      case Exited => 0
  }

  lemma ClosingUses(cfg: Config, d: World, a: Act)
    requires MeetsNow(cfg, d) && d.stop && d.writer.Exited? && CanAct(d, a) && (a.Join? || a.StepDrain? || a.Drop?)
    ensures var e := Next(cfg, d, a);
            e.q.puts == d.q.puts && e.q.stored == d.q.stored && ShutdownWork(e) < ShutdownWork(d) && e.stop
  {
    if a.StepDrain? && Popping(d.q.calls[d.closer.call]) {
      hide RunCall, PopWork;
      PopUses(cfg, d.q, d.closer.call);
    }
  }

  lemma StoppingUses(cfg: Config, d: World, a: Act)
    requires MeetsNow(cfg, d) && d.stop && d.closer.Stopping? && CanAct(d, a) && (WriterAct(a) || a.Alerted?)
    ensures var e := Next(cfg, d, a);
            e.q.puts == d.q.puts && e.q.stored == d.q.stored && ShutdownWork(e) < ShutdownWork(d) && e.stop
  {
    if a.StepPump? && Popping(d.q.calls[d.writer.call]) {
      hide RunCall, PopWork;
      PopUses(cfg, d.q, d.writer.call);
    }
  }

  lemma ClosersTurn(d: World)
    requires Roles(d) && Obeys(d) && d.stop
    ensures d.closer.Stopping? || d.writer.Exited?
  {
  }

  lemma NoShutdownDebt(cfg: Config, d: World)
    requires MeetsNow(cfg, d)
    ensures ShutdownWork(d) >= 0
  {
  }

  lemma ShutdownWorks(cfg: Config, n: nat, d: World, a: Act)
    requires Stopped(cfg, d) && ShutdownAct(a) && CanAct(d, a)
    requires QL.DistinctTags(cfg, n) && d.q.puts + cfg.capacity <= n
    ensures var e := Next(cfg, d, a);
            Stopped(cfg, e) && e.q.puts == d.q.puts && 0 <= ShutdownWork(e) < ShutdownWork(d)
  {
    hide ShutdownWork, MeetsNow, QL.DistinctTags, ProducersDone, QC.Inv, QL.Order, Roles, Lives, Awake, InOrder;
    SizedQueue(cfg, d);
    var e := Next(cfg, d, a);
    ConsumerMeets(cfg, d);
    ClosersTurn(d);
    if WriterAct(a) || a.Alerted? { StoppingUses(cfg, d, a); } else { ClosingUses(cfg, d, a); }
    ActGood(cfg, n, d, a);
    ProducersStayDone(cfg, d, a);
    ObeysStill(cfg, d, a);
    ConsumerMeets(cfg, e);
    NoShutdownDebt(cfg, e);
  }

  ghost predicate ShutdownRuns(cfg: Config, d: World, acts: seq<Act>, e: World)
    requires Sized(cfg, d.q)
    decreases |acts|
  {
    if acts == [] then d == e
    else
      ShutdownAct(acts[0]) && CanAct(d, acts[0]) && Sized(cfg, Next(cfg, d, acts[0]).q) &&
      ShutdownRuns(cfg, Next(cfg, d, acts[0]), acts[1..], e)
  }

  /** Until the queue is closed, the writer or the closing thread can act. */
  lemma ShutdownCanAct(cfg: Config, d: World) returns (a: Act)
    requires Stopped(cfg, d) && !d.closer.Closed?
    ensures ShutdownAct(a) && CanAct(d, a)
  {
    var id := FreshCall(d);
    a := match d.writer
      case Top => TestStop
      case Test => TestEmpty
      case Wait => Alerted
      case Drain => StartPump(id)
      case Pumping(_) => StepPump
      case Holding(_) => Write(id)
      case Exited => if d.closer.Draining? then StepDrain else if d.closer.Dropping? then Drop(id) else Join(id);
  }

  lemma {:induction false} ShutdownGoesOn(cfg: Config, n: nat, d: World) returns (acts: seq<Act>, e: World)
    requires Stopped(cfg, d) && QL.DistinctTags(cfg, n) && d.q.puts + cfg.capacity <= n
    ensures Sized(cfg, d.q) && ShutdownRuns(cfg, d, acts, e) && Good(cfg, e) && e.closer.Closed?
    decreases ShutdownWork(d)
  {
    hide ShutdownWork, QL.DistinctTags, Good;
    StoppedSized(cfg, d);
    if d.closer.Closed? {
      acts, e := [], d;
    } else {
      var a := ShutdownCanAct(cfg, d);
      ShutdownWorks(cfg, n, d, a);
      StoppedSized(cfg, Next(cfg, d, a));
      var more;
      more, e := ShutdownGoesOn(cfg, n, Next(cfg, d, a));
      acts := [a] + more;
      assert acts[0] == a && acts[1..] == more;
    }
  }

  lemma StoppedSized(cfg: Config, d: World)
    requires Stopped(cfg, d)
    ensures Sized(cfg, d.q)
  {
    SizedQueue(cfg, d);
  }

  lemma {:induction false} ShutdownRunShort(cfg: Config, n: nat, d: World, acts: seq<Act>, e: World)
    requires Stopped(cfg, d) && QL.DistinctTags(cfg, n) && d.q.puts + cfg.capacity <= n
    requires Sized(cfg, d.q) && ShutdownRuns(cfg, d, acts, e)
    ensures Stopped(cfg, e) && |acts| <= ShutdownWork(d) - ShutdownWork(e) && 0 <= ShutdownWork(e)
    decreases |acts|
  {
    hide Stopped, ShutdownWork, QL.DistinctTags;
    if acts == [] {
      StoppedDebt(cfg, d);
    } else {
      ShutdownWorks(cfg, n, d, acts[0]);
      ShutdownRunShort(cfg, n, Next(cfg, d, acts[0]), acts[1..], e);
    }
  }

  lemma StoppedDebt(cfg: Config, d: World)
    requires Stopped(cfg, d)
    ensures 0 <= ShutdownWork(d)
  {
    ConsumerMeets(cfg, d);
    NoShutdownDebt(cfg, d);
  }

  /** Shutdown ends: from every reachable world with stopFlag set and every producer done, the writer and the
      closing thread come to the end of the shutdown, and then no record is left. */
  lemma ShutdownEnds(cfg: Config, n: nat, acts: seq<Act>, d: World) returns (more: seq<Act>, e: World)
    requires 0 < cfg.capacity && QL.DistinctTags(cfg, n) && Behaves(cfg, n, Start(cfg), acts, d)
    requires d.stop && ProducersDone(d)
    ensures Sized(cfg, d.q) && ShutdownRuns(cfg, d, more, e) && e.closer.Closed? && e.live == map[]
  {
    Reached(cfg, n, acts, d);
    more, e := ShutdownGoesOn(cfg, n, d);
    EmptyWhenClosed(cfg, e);
  }

  /** And they cannot go on for ever, or stop before the end. */
  lemma ShutdownRunsEnd(cfg: Config, n: nat, acts: seq<Act>, d: World, more: seq<Act>, e: World)
    requires 0 < cfg.capacity && QL.DistinctTags(cfg, n) && Behaves(cfg, n, Start(cfg), acts, d)
    requires d.stop && ProducersDone(d) && Sized(cfg, d.q) && ShutdownRuns(cfg, d, more, e)
    ensures |more| <= ShutdownWork(d)
    ensures (forall a :: ShutdownAct(a) ==> !CanAct(e, a)) ==> e.closer.Closed? && e.live == map[]
  {
    Reached(cfg, n, acts, d);
    ShutdownRunShort(cfg, n, d, more, e);
    if e.closer.Closed? {
      EmptyWhenClosed(cfg, e);
    } else {
      var a := ShutdownCanAct(cfg, e);
    }
  }
}
