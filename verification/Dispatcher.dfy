/** The trace dispatcher on top of the queue machine. */
module Dispatcher {
  // Producers make records and push them, one writer thread sleeps on an auto-reset event and pumps the queue, and
  // shutdown stops the writer and drains what is left.
  //
  // `live` maps the address of every record whose queue-owned reference has not been released to the push call
  // that made it. Addresses may be reused once released.

  import opened BoundedFifo
  import opened QueueMachine
  import QC = QueueConservation
  import QL = QueueLinearizability

  datatype Writer =
    | Top                        // about to test stopFlag
    | Test                       // about to test queue.empty() before waiting
    | Wait                       // waiting for the event
    | Drain                      // about to test queue.empty() in the inner loop
    | Pumping(call: CallId)      // in queue.pop()
    | Holding(record: Word)      // holds the popped record, writing it to the sinks
    | Exited

  datatype Closer =
    | Open
    | Stopping                   // stopFlag set, joining the writer
    | Draining(call: CallId)     // in queue.pop()
    | Dropping(record: Word)     // about to release the popped record
    | Closed

  datatype World = World(
    q: State, event: bool, stop: bool, writer: Writer, closer: Closer,
    done: set<CallId>,           // push calls that have called set() or released their record
    live: map<Word, CallId>,
    written: seq<Word>)          // records given to the sinks

  datatype Act =
    | Produce(id: CallId, record: Word)
    | Pushing(id: CallId)
    | Signal(id: CallId)
    | Discard(id: CallId)
    | TestStop | TestEmpty | Wake | Alerted
    | StartPump(id: CallId) | StepPump | Write(id: CallId)
    | Stop | Join(id: CallId) | StepDrain | Drop(id: CallId)

  predicate IsPush(c: Call) {
    c.PushLoad? || c.PushCheck? || c.PushSwap? || c.PushBump? || c.PushEnd?
  }

  function Start(cfg: Config): World {
    World(Initial(cfg), false, false, Top, Open, {}, map[], [])
  }

  /** Every push call has finished, including its set() or its release. */
  ghost predicate ProducersDone(d: World) {
    forall id :: id in d.q.calls && IsPush(d.q.calls[id]) ==> id in d.done
  }

  ghost predicate CanAct(d: World, a: Act) {
    match a
    case Produce(id, w) => !d.stop && id !in d.q.calls && !Vacant(w) && w !in d.live
    case Pushing(id) => id in d.q.calls && IsPush(d.q.calls[id]) && Enabled(d.q, Run(id))
    case Signal(id) => id in d.q.calls && d.q.calls[id].PushEnd? && d.q.calls[id].ok && id !in d.done
    case Discard(id) => id in d.q.calls && d.q.calls[id].PushEnd? && !d.q.calls[id].ok && id !in d.done
    case TestStop => d.writer.Top?
    case TestEmpty => d.writer.Test?
    case Wake => d.writer.Wait? && d.event
    case Alerted => d.writer.Wait?
    case StartPump(id) => d.writer.Drain? && id !in d.q.calls
    case StepPump => d.writer.Pumping? && d.writer.call in d.q.calls
    case Write(id) => d.writer.Holding? && id !in d.q.calls
    case Stop => d.closer.Open?
    case Join(id) => d.closer.Stopping? && d.writer.Exited? && ProducersDone(d) && id !in d.q.calls
    case StepDrain => d.closer.Draining? && d.closer.call in d.q.calls
    case Drop(id) => d.closer.Dropping? && id !in d.q.calls
  }

  function Forget(live: map<Word, CallId>, w: Word): map<Word, CallId> {
    live - {w}
  }

  function Next(cfg: Config, d: World, a: Act): World
    requires Sized(cfg, d.q) && CanAct(d, a)
  {
    match a
    case Produce(id, w) => d.(q := Step(cfg, d.q, Begin(id, Push(w))), live := d.live[w := id])
    case Pushing(id) => d.(q := Step(cfg, d.q, Run(id)))
    case Signal(id) => d.(event := true, done := d.done + {id})
    case Discard(id) => d.(done := d.done + {id}, live := Forget(d.live, d.q.calls[id].item))
    case TestStop => d.(writer := if d.stop then Exited else Test)
    case TestEmpty => d.(writer := if d.q.puts == d.q.gets then Wait else Drain)
    case Wake => d.(writer := Drain, event := false)
    case Alerted => d.(writer := Top)
    case StartPump(id) =>
      if d.q.puts == d.q.gets then d.(writer := Top)
      else d.(writer := Pumping(id), q := Step(cfg, d.q, Begin(id, Pop)))
    case StepPump =>
      var c := d.q.calls[d.writer.call];
      if c.PopEnd? then d.(writer := if c.item == NULL then Drain else Holding(c.item))
      else if Popping(c) then d.(q := Step(cfg, d.q, Run(d.writer.call))) else d
    case Write(id) =>
      d.(writer := Pumping(id), q := Step(cfg, d.q, Begin(id, Pop)),
         written := d.written + [d.writer.record], live := Forget(d.live, d.writer.record))
    case Stop => d.(stop := true, closer := Stopping)
    case Join(id) => d.(closer := Draining(id), q := Step(cfg, d.q, Begin(id, Pop)))
    case StepDrain =>
      var c := d.q.calls[d.closer.call];
      if c.PopEnd? then d.(closer := if c.item == NULL then Closed else Dropping(c.item))
      else if Popping(c) then d.(q := Step(cfg, d.q, Run(d.closer.call))) else d
    case Drop(id) =>
      d.(closer := Draining(id), q := Step(cfg, d.q, Begin(id, Pop)), live := Forget(d.live, d.closer.record))
  }

  /** An action that releases a record touches one whose reference is still held. */
  predicate Releases(d: World, a: Act, w: Word) {
    (a.Discard? && a.id in d.q.calls && d.q.calls[a.id].PushEnd? && d.q.calls[a.id].item == w) ||
    (a.Write? && d.writer == Holding(w)) ||
    (a.Drop? && d.closer == Dropping(w))
  }

  ghost predicate Behaves(cfg: Config, n: nat, d: World, acts: seq<Act>, e: World)
    requires Sized(cfg, d.q)
    decreases |acts|
  {
    d.q.puts + cfg.capacity <= n &&
    if acts == [] then d == e
    else
      CanAct(d, acts[0]) && Sized(cfg, Next(cfg, d, acts[0]).q) &&
      Behaves(cfg, n, Next(cfg, d, acts[0]), acts[1..], e)
  }

  // ---- the invariant ----

  /** The pop call in progress, if any, belongs to the writer or, after it has exited, to the closer. */
  ghost predicate PopOwner(d: World, id: CallId) {
    d.writer == Pumping(id) || d.closer == Draining(id)
  }

  ghost predicate Roles(d: World) {
    (forall id :: id in d.q.calls && Popping(d.q.calls[id]) ==> PopOwner(d, id)) &&
    (d.writer.Pumping? ==> d.writer.call in d.q.calls && !IsPush(d.q.calls[d.writer.call])) &&
    (d.closer.Draining? ==> d.closer.call in d.q.calls && !IsPush(d.q.calls[d.closer.call])) &&
    (d.closer.Draining? || d.closer.Dropping? || d.closer.Closed? ==> d.writer.Exited? && ProducersDone(d)) &&
    (!d.closer.Open? ==> d.stop) &&
    d.writer != Holding(NULL) && d.closer != Dropping(NULL) &&
    (forall id :: id in d.q.calls && IsPush(d.q.calls[id]) ==> d.q.calls[id].item != NULL) &&
    (d.closer.Draining? && d.q.calls[d.closer.call] == PopEnd(NULL) ==> d.q.puts == d.q.gets) &&
    (d.closer.Closed? ==> d.q.puts == d.q.gets) &&
    (forall id :: id in d.done ==> id in d.q.calls && d.q.calls[id].PushEnd?)
  }

  /** A record taken out of the queue and not yet released. */
  ghost predicate InHand(d: World, w: Word) {
    d.writer == Holding(w) || d.closer == Dropping(w) ||
    (d.writer.Pumping? && d.writer.call in d.q.calls && QC.Got(d.q.calls[d.writer.call]) == w) ||
    (d.closer.Draining? && d.closer.call in d.q.calls && QC.Got(d.q.calls[d.closer.call]) == w)
  }

  /** A push call that still owns its record. */
  ghost predicate Owns(d: World, id: CallId, w: Word) {
    id in d.q.calls && IsPush(d.q.calls[id]) && QC.Gave(d.q.calls[id]) == NULL && id !in d.done &&
      d.q.calls[id].item == w
  }

  ghost predicate Queued(d: World, id: CallId, w: Word) {
    exists k :: |d.q.taken| <= k < |d.q.stored| && d.q.stored[k] == Transfer(id, w)
  }

  ghost predicate TakenLast(d: World, id: CallId, w: Word) {
    0 < |d.q.taken| <= |d.q.stored| && d.q.stored[|d.q.taken| - 1] == Transfer(id, w)
  }

  /** A record is live exactly while its push call owns it, it is queued, or a consumer has it in hand. */
  ghost predicate Lives(d: World) {
    (forall id, w :: Owns(d, id, w) && w != NULL ==> w in d.live && d.live[w] == id) &&
    (forall k :: |d.q.taken| <= k < |d.q.stored| ==>
      d.q.stored[k].item in d.live && d.live[d.q.stored[k].item] == d.q.stored[k].call) &&
    (forall w :: InHand(d, w) && w != NULL ==> w in d.live && TakenLast(d, d.live[w], w)) &&
    (forall w :: w in d.live ==> w != NULL && (Owns(d, d.live[w], w) || Queued(d, d.live[w], w) || InHand(d, w)))
  }

  /** A sleeping writer with no event pending has only queued records whose producers have yet to call set(). */
  ghost predicate Awake(d: World) {
    d.writer.Wait? && !d.event ==>
      forall k :: |d.q.taken| <= k < |d.q.stored| ==> d.q.stored[k].call !in d.done
  }

  /** The writer gives records to the sinks in the order they were taken, hence stored. */
  ghost predicate InOrder(d: World) {
    d.written <= ItemsOf(d.q.taken) &&
    (!d.writer.Exited? ==> |d.q.taken| - |d.written| == if WriterHas(d) then 1 else 0) &&
    (forall w :: d.writer == Holding(w) ==> 0 < |d.q.taken| && d.q.taken[|d.q.taken| - 1].item == w)
  }

  ghost predicate WriterHas(d: World) {
    d.writer.Holding? ||
    (d.writer.Pumping? && d.writer.call in d.q.calls && QC.Got(d.q.calls[d.writer.call]) != NULL)
  }

  ghost predicate Good(cfg: Config, d: World) {
    QC.Inv(cfg, d.q) && QL.Order(cfg, d.q) && Roles(d) && Lives(d) && Awake(d) && InOrder(d)
  }

  // ---- liveness of records under a step ----

  /** Nothing about ownership changed. */
  lemma LivesCarry(d: World, e: World)
    requires Lives(d) && e.live == d.live && e.q.stored == d.q.stored && e.q.taken == d.q.taken
    requires forall id, w :: w != NULL ==> (Owns(e, id, w) <==> Owns(d, id, w))
    requires forall w :: w != NULL ==> (InHand(e, w) <==> InHand(d, w))
    ensures Lives(e)
  {
    forall w | w in e.live ensures w != NULL && (Owns(e, e.live[w], w) || Queued(e, e.live[w], w) || InHand(e, w)) {
      if Queued(d, d.live[w], w) {
        var k :| |d.q.taken| <= k < |d.q.stored| && d.q.stored[k] == Transfer(d.live[w], w);
        assert e.q.stored[k] == Transfer(e.live[w], w);
      }
    }
  }

  /** A push stores its record: from the call to the queue. */
  lemma LivesStore(d: World, e: World, id: CallId, w: Word)
    requires Lives(d) && e.live == d.live && |d.q.taken| <= |d.q.stored|
    requires e.q.stored == d.q.stored + [Transfer(id, w)] && e.q.taken == d.q.taken
    requires Owns(d, id, w) && w != NULL
    requires forall i, v :: v != NULL ==> (Owns(e, i, v) <==> Owns(d, i, v) && i != id)
    requires forall v :: v != NULL ==> (InHand(e, v) <==> InHand(d, v))
    ensures Lives(e)
  {
    forall v | v in e.live ensures v != NULL && (Owns(e, e.live[v], v) || Queued(e, e.live[v], v) || InHand(e, v)) {
      if Queued(d, d.live[v], v) {
        var k :| |d.q.taken| <= k < |d.q.stored| && d.q.stored[k] == Transfer(d.live[v], v);
        assert e.q.stored[k] == Transfer(e.live[v], v);
      } else if Owns(d, d.live[v], v) && d.live[v] == id {
        assert e.q.stored[|d.q.stored|] == Transfer(id, v);
      }
    }
  }

  /** A pop takes the oldest record: from the queue into a hand. */
  lemma LivesTake(d: World, e: World, x: Transfer)
    requires Lives(d) && e.live == d.live && |d.q.taken| < |d.q.stored|
    requires e.q.stored == d.q.stored && e.q.taken == d.q.taken + [x]
    requires forall i, v :: v != NULL ==> (Owns(e, i, v) <==> Owns(d, i, v))
    requires forall v :: v != NULL ==> !InHand(d, v) && (InHand(e, v) <==> v == d.q.stored[|d.q.taken|].item)
    ensures Lives(e)
  {
    var g := |d.q.taken|;
    forall v | v in e.live ensures v != NULL && (Owns(e, e.live[v], v) || Queued(e, e.live[v], v) || InHand(e, v)) {
      if Queued(d, d.live[v], v) {
        var k :| g <= k < |d.q.stored| && d.q.stored[k] == Transfer(d.live[v], v);
        if k > g { assert e.q.stored[k] == Transfer(e.live[v], v); }
      }
    }
  }

  /** A consumer releases the record in hand. */
  lemma LivesDrop(cfg: Config, d: World, e: World, w: Word)
    requires Lives(d) && QC.Inv(cfg, d.q) && InHand(d, w) && w != NULL
    requires e.live == Forget(d.live, w) && e.q.stored == d.q.stored && e.q.taken == d.q.taken
    requires forall i, v :: v != NULL ==> (Owns(e, i, v) <==> Owns(d, i, v))
    requires forall v :: v != NULL ==> !InHand(e, v) && (InHand(d, v) <==> v == w)
    ensures Lives(e)
  {
    var id := d.live[w];
    assert TakenLast(d, id, w);
    assert !Owns(d, id, w);
    forall v | v in e.live ensures v != NULL && (Owns(e, e.live[v], v) || Queued(e, e.live[v], v) || InHand(e, v)) {
      if Queued(d, d.live[v], v) {
        var k :| |d.q.taken| <= k < |d.q.stored| && d.q.stored[k] == Transfer(d.live[v], v);
        assert e.q.stored[k] == Transfer(e.live[v], v);
      }
    }
  }

  /** A producer releases the record the full queue refused. */
  lemma LivesDiscard(d: World, e: World, id: CallId, w: Word)
    requires Lives(d) && w != NULL && forall v :: Owns(d, id, v) <==> v == w
    requires forall k :: 0 <= k < |d.q.stored| ==> d.q.stored[k].call != id
    requires e.live == Forget(d.live, w) && e.q == d.q
    requires forall i, v :: v != NULL ==> (Owns(e, i, v) <==> Owns(d, i, v) && i != id)
    requires forall v :: v != NULL ==> (InHand(e, v) <==> InHand(d, v))
    ensures Lives(e)
  {
    hide Owns, InHand;
    assert Owns(d, id, w);
    assert d.live[w] == id && !InHand(d, w);
    forall v | v in e.live ensures v != NULL && (Owns(e, e.live[v], v) || Queued(e, e.live[v], v) || InHand(e, v)) {
      if Queued(d, d.live[v], v) {
        var k :| |d.q.taken| <= k < |d.q.stored| && d.q.stored[k] == Transfer(d.live[v], v);
        assert e.q.stored[k] == Transfer(e.live[v], v);
      }
    }
  }

  /** A new record belongs to its push call. */
  lemma LivesProduce(d: World, e: World, id: CallId, w: Word)
    requires Lives(d) && w !in d.live && w != NULL
    requires e.live == d.live[w := id] && e.q.stored == d.q.stored && e.q.taken == d.q.taken
    requires forall i, v :: v != NULL ==> (Owns(e, i, v) <==> Owns(d, i, v) || (i == id && v == w))
    requires forall v :: v != NULL ==> (InHand(e, v) <==> InHand(d, v))
    ensures Lives(e)
  {
    forall v | v in e.live ensures v != NULL && (Owns(e, e.live[v], v) || Queued(e, e.live[v], v) || InHand(e, v)) {
      if v != w && Queued(d, d.live[v], v) {
        var k :| |d.q.taken| <= k < |d.q.stored| && d.q.stored[k] == Transfer(d.live[v], v);
        assert e.q.stored[k] == Transfer(e.live[v], v);
      }
    }
  }

  // ---- each action keeps Lives ----

  lemma ProduceLives(cfg: Config, d: World, id: CallId, w: Word)
    requires Good(cfg, d) && CanAct(d, Produce(id, w))
    ensures Lives(Next(cfg, d, Produce(id, w)))
  {
    LivesProduce(d, Next(cfg, d, Produce(id, w)), id, w);
  }

  /** What a step of push call `id` may do to the queue. */
  ghost predicate PushShape(q: State, r: State, id: CallId) {
    id in q.calls && IsPush(q.calls[id]) && id in r.calls && IsPush(r.calls[id]) &&
    r.calls == q.calls[id := r.calls[id]] && r.calls[id].item == q.calls[id].item &&
    r.taken == q.taken && r.gets == q.gets && !q.calls[id].PushEnd? &&
    ((r.stored == q.stored && QC.Gave(r.calls[id]) == QC.Gave(q.calls[id])) ||
     (r.stored == q.stored + [Transfer(id, q.calls[id].item)] && QC.Gave(q.calls[id]) == NULL &&
      QC.Gave(r.calls[id]) == q.calls[id].item != NULL))
  }

  lemma PushShaped(cfg: Config, q: State, id: CallId)
    requires QC.Inv(cfg, q) && id in q.calls && IsPush(q.calls[id]) && Enabled(q, Run(id))
    ensures PushShape(q, Step(cfg, q, Run(id)), id)
  {
    assert QC.CallBounds(cfg, q, q.calls[id]);
  }

  /** What a step of pop call `id`, the only one in progress, may do to the queue. */
  ghost predicate PopShape(q: State, r: State, id: CallId) {
    id in q.calls && Popping(q.calls[id]) && id in r.calls && !IsPush(r.calls[id]) &&
    r.calls == q.calls[id := r.calls[id]] && r.stored == q.stored && r.puts == q.puts &&
    (r.calls[id] == PopEnd(NULL) ==> r.puts == r.gets) &&
    ((r.taken == q.taken && QC.Got(r.calls[id]) == QC.Got(q.calls[id])) ||
     (|q.taken| < |q.stored| && QC.Got(q.calls[id]) == NULL &&
      QC.Got(r.calls[id]) == q.stored[|q.taken|].item != NULL &&
      r.taken == q.taken + [Transfer(id, q.stored[|q.taken|].item)]))
  }

  lemma PopShaped(cfg: Config, q: State, id: CallId)
    requires QL.Order(cfg, q) && id in q.calls && Popping(q.calls[id])
    ensures PopShape(q, Step(cfg, q, Run(id)), id)
  {
    assert QL.CallOrder(cfg, q, id, q.calls[id]);
    if q.calls[id].PopSwap? {
      assert q.slots[Slot(|q.taken|, cfg.capacity)] == q.stored[|q.taken|].item;
    }
  }

  lemma PushShapeLives(d: World, e: World, id: CallId)
    requires Lives(d) && Roles(d) && |d.q.taken| <= |d.q.stored|
    requires e == d.(q := e.q) && PushShape(d.q, e.q, id)
    ensures Lives(e)
  {
    if e.q.stored != d.q.stored {
      LivesStore(d, e, id, d.q.calls[id].item);
    } else {
      LivesCarry(d, e);
    }
  }

  lemma PopShapeLives(d: World, e: World, id: CallId)
    requires Lives(d) && Roles(d)
    requires e == d.(q := e.q) && PopShape(d.q, e.q, id) && PopOwner(d, id)
    ensures Lives(e)
  {
    if e.q.taken != d.q.taken {
      LivesTake(d, e, e.q.taken[|d.q.taken|]);
    } else {
      LivesCarry(d, e);
    }
  }

  lemma PushingLives(cfg: Config, d: World, id: CallId)
    requires Good(cfg, d) && CanAct(d, Pushing(id))
    ensures Lives(Next(cfg, d, Pushing(id)))
  {
    PushShaped(cfg, d.q, id);
    PushShapeLives(d, Next(cfg, d, Pushing(id)), id);
  }

  lemma PoppingLives(cfg: Config, d: World, a: Act)
    requires Good(cfg, d) && CanAct(d, a) && (a.StepPump? || a.StepDrain?)
    ensures Lives(Next(cfg, d, a))
  {
    hide QC.Inv, QL.Order, Awake, InOrder;
    SizedQueue(cfg, d);
    var id := if a.StepPump? then d.writer.call else d.closer.call;
    if Popping(d.q.calls[id]) {
      PopShaped(cfg, d.q, id);
      PopShapeLives(d, Next(cfg, d, a), id);
    } else {
      LivesCarry(d, Next(cfg, d, a));
    }
  }

  lemma ReleaseLives(cfg: Config, d: World, a: Act)
    requires Good(cfg, d) && CanAct(d, a) && (a.Write? || a.Drop?)
    ensures Lives(Next(cfg, d, a))
  {
    hide QL.Order, Awake, InOrder;
    var w := if a.Write? then d.writer.record else d.closer.record;
    LivesDrop(cfg, d, Next(cfg, d, a), w);
  }

  lemma DiscardLives(cfg: Config, d: World, id: CallId)
    requires Good(cfg, d) && CanAct(d, Discard(id))
    ensures Lives(Next(cfg, d, Discard(id)))
  {
    RefusedNotStored(cfg, d.q, id);
    LivesDiscard(d, Next(cfg, d, Discard(id)), id, d.q.calls[id].item);
  }

  lemma SignalLives(cfg: Config, d: World, a: Act)
    requires Good(cfg, d) && CanAct(d, a) && a.Signal?
    ensures Lives(Next(cfg, d, a))
  {
    assert QC.CallBounds(cfg, d.q, d.q.calls[a.id]);
    LivesCarry(d, Next(cfg, d, a));
  }

  lemma OtherLives(cfg: Config, d: World, a: Act)
    requires Good(cfg, d) && CanAct(d, a)
    requires a.TestStop? || a.TestEmpty? || a.Wake? || a.Alerted? || a.Stop?
    ensures Lives(Next(cfg, d, a))
  {
    hide QC.Inv, QL.Order, Awake, InOrder;
    SizedQueue(cfg, d);
    LivesCarry(d, Next(cfg, d, a));
  }

  lemma SizedQueue(cfg: Config, d: World)
    requires Good(cfg, d)
    ensures Sized(cfg, d.q)
  {
  }

  lemma BeginPopLives(cfg: Config, d: World, a: Act)
    requires Good(cfg, d) && CanAct(d, a) && (a.StartPump? || a.Join?)
    ensures Lives(Next(cfg, d, a))
  {
    hide QC.Inv, QL.Order, Awake, InOrder;
    SizedQueue(cfg, d);
    LivesCarry(d, Next(cfg, d, a));
  }

  lemma ActLives(cfg: Config, d: World, a: Act)
    requires Good(cfg, d) && CanAct(d, a)
    ensures Lives(Next(cfg, d, a))
  {
    match a
    case Produce(id, w) => ProduceLives(cfg, d, id, w);
    case Pushing(id) => PushingLives(cfg, d, id);
    case StepPump => PoppingLives(cfg, d, a);
    case StepDrain => PoppingLives(cfg, d, a);
    case Write(_) => ReleaseLives(cfg, d, a);
    case Drop(_) => ReleaseLives(cfg, d, a);
    case Discard(id) => DiscardLives(cfg, d, id);
    case Signal(_) => SignalLives(cfg, d, a);
    case StartPump(_) => BeginPopLives(cfg, d, a);
    case Join(_) => BeginPopLives(cfg, d, a);
    case _ => OtherLives(cfg, d, a);
  }

  // ---- each action keeps the rest ----

  lemma PushShapeRest(d: World, e: World, id: CallId)
    requires Rest(d)
    requires e == d.(q := e.q) && PushShape(d.q, e.q, id)
    ensures Rest(e)
  {
    assert id !in d.done;
  }

  lemma PopShapeRest(d: World, e: World, id: CallId)
    requires Rest(d)
    requires e == d.(q := e.q) && PopShape(d.q, e.q, id) && PopOwner(d, id)
    ensures Rest(e)
  {
    if e.q.taken != d.q.taken {
      assert ItemsOf(e.q.taken)[..|d.q.taken|] == ItemsOf(d.q.taken);
    }
  }

  ghost predicate Rest(d: World) {
    Roles(d) && Awake(d) && InOrder(d)
  }

  /** If the counters agree, whatever is stored beyond them belongs to a push still in progress. */
  lemma EmptyMeansPending(cfg: Config, d: World)
    requires QL.Order(cfg, d.q) && Roles(d) && d.q.puts == d.q.gets
    ensures forall k :: |d.q.taken| <= k < |d.q.stored| ==> d.q.stored[k].call !in d.done
  {
    forall k | |d.q.taken| <= k < |d.q.stored| ensures d.q.stored[k].call !in d.done {
      assert k == d.q.puts && d.q.calls[d.q.stored[k].call].PushBump?;
    }
  }

  lemma RefusedNotStored(cfg: Config, q: State, id: CallId)
    requires QC.Inv(cfg, q) && id in q.calls && QC.Gave(q.calls[id]) == NULL
    ensures forall k :: 0 <= k < |q.stored| ==> q.stored[k].call != id
  {
  }

  lemma WriterRest(d: World, cfg: Config, a: Act)
    requires Rest(d) && Sized(cfg, d.q) && CanAct(d, a)
    requires a.TestStop? || a.TestEmpty? || a.Wake? || a.Alerted? || a.Stop? || a.Signal?
    requires d.q.puts == d.q.gets ==> forall k :: |d.q.taken| <= k < |d.q.stored| ==> d.q.stored[k].call !in d.done
    ensures Rest(Next(cfg, d, a))
  {
  }

  lemma DiscardRest(d: World, cfg: Config, id: CallId)
    requires Rest(d) && Sized(cfg, d.q) && CanAct(d, Discard(id))
    requires forall k :: 0 <= k < |d.q.stored| ==> d.q.stored[k].call != id
    ensures Rest(Next(cfg, d, Discard(id)))
  {
  }

  lemma QuietRest(d: World, cfg: Config, a: Act)
    requires Good(cfg, d) && CanAct(d, a)
    requires a.Signal? || a.Discard? || a.TestStop? || a.TestEmpty? || a.Wake? || a.Alerted? || a.Stop?
    ensures Rest(Next(cfg, d, a))
  {
    if a.Discard? {
      RefusedNotStored(cfg, d.q, a.id);
      DiscardRest(d, cfg, a.id);
    } else {
      if d.q.puts == d.q.gets { EmptyMeansPending(cfg, d); }
      WriterRest(d, cfg, a);
    }
  }

  /** A new call begins. */
  ghost predicate BeginShape(q: State, r: State, id: CallId, c: Call) {
    id !in q.calls && r == q.(calls := q.calls[id := c]) && (c == PopLoad || c.PushLoad?)
  }

  lemma ProduceRest(d: World, e: World, id: CallId, c: Call)
    requires Rest(d) && BeginShape(d.q, e.q, id, c) && IsPush(c) && c.item != NULL && !d.stop
    requires e == d.(q := e.q, live := e.live)
    ensures Rest(e)
  {
  }

  lemma StartPumpRest(d: World, e: World, id: CallId)
    requires Rest(d) && d.writer.Drain?
    requires e == d.(writer := Top) || (BeginShape(d.q, e.q, id, PopLoad) && e == d.(q := e.q, writer := Pumping(id)))
    ensures Rest(e)
  {
  }

  lemma WriteRest(d: World, e: World, id: CallId)
    requires Rest(d) && d.writer.Holding? && BeginShape(d.q, e.q, id, PopLoad)
    requires e == d.(q := e.q, writer := Pumping(id), live := e.live, written := d.written + [d.writer.record])
    ensures Rest(e)
  {
    assert ItemsOf(d.q.taken) == d.written + [d.writer.record];
  }

  lemma DrainRest(d: World, e: World, id: CallId)
    requires Rest(d) && BeginShape(d.q, e.q, id, PopLoad)
    requires d.closer.Dropping? || (d.closer.Stopping? && d.writer.Exited? && ProducersDone(d))
    requires e == d.(q := e.q, closer := Draining(id), live := e.live)
    ensures Rest(e)
  {
  }

  lemma BeginRest(d: World, cfg: Config, a: Act)
    requires Rest(d) && Sized(cfg, d.q) && CanAct(d, a)
    requires a.Produce? || a.StartPump? || a.Write? || a.Join? || a.Drop?
    ensures Rest(Next(cfg, d, a))
  {
    var e := Next(cfg, d, a);
    match a
    case Produce(id, w) => ProduceRest(d, e, id, PushLoad(w));
    case StartPump(id) => StartPumpRest(d, e, id);
    case Write(id) => WriteRest(d, e, id);
    case Join(id) => DrainRest(d, e, id);
    case Drop(id) => DrainRest(d, e, id);
  }

  lemma ActRest(cfg: Config, d: World, a: Act)
    requires Good(cfg, d) && CanAct(d, a)
    ensures Rest(Next(cfg, d, a))
  {
    var e := Next(cfg, d, a);
    match a
    case Pushing(id) => PushShaped(cfg, d.q, id); PushShapeRest(d, e, id);
    case StepPump => PoppingRest(cfg, d, a);
    case StepDrain => PoppingRest(cfg, d, a);
    case Produce(_, _) => BeginRest(d, cfg, a);
    case StartPump(_) => BeginRest(d, cfg, a);
    case Write(_) => BeginRest(d, cfg, a);
    case Join(_) => BeginRest(d, cfg, a);
    case Drop(_) => BeginRest(d, cfg, a);
    case _ => QuietRest(d, cfg, a);
  }

  lemma PoppingRest(cfg: Config, d: World, a: Act)
    requires Good(cfg, d) && CanAct(d, a) && (a.StepPump? || a.StepDrain?)
    ensures Rest(Next(cfg, d, a))
  {
    var id := if a.StepPump? then d.writer.call else d.closer.call;
    if Popping(d.q.calls[id]) {
      PopShaped(cfg, d.q, id);
      PopShapeRest(d, Next(cfg, d, a), id);
    } else {
      FinishedRest(cfg, d, a, id);
    }
  }

  /** The writer's pop has returned null or a record. */
  lemma PumpedRest(d: World, e: World)
    requires Rest(d) && d.writer.Pumping? && d.writer.call in d.q.calls && !Popping(d.q.calls[d.writer.call])
    requires var c := d.q.calls[d.writer.call];
             c.PopEnd? && (c.item != NULL ==> 0 < |d.q.taken| && d.q.taken[|d.q.taken| - 1].item == c.item) &&
             e == d.(writer := if c.item == NULL then Drain else Holding(c.item))
    ensures Rest(e)
  {
  }

  lemma DrainedRest(d: World, e: World)
    requires Rest(d) && d.closer.Draining? && d.closer.call in d.q.calls && !Popping(d.q.calls[d.closer.call])
    requires var c := d.q.calls[d.closer.call];
             c.PopEnd? && e == d.(closer := if c.item == NULL then Closed else Dropping(c.item))
    ensures Rest(e)
  {
  }

  lemma FinishedRest(cfg: Config, d: World, a: Act, id: CallId)
    requires Good(cfg, d) && CanAct(d, a)
    requires (a.StepPump? && d.writer == Pumping(id)) || (a.StepDrain? && d.closer == Draining(id))
    requires id in d.q.calls && !Popping(d.q.calls[id])
    ensures Rest(Next(cfg, d, a))
  {
    hide QC.Inv, Awake, InOrder, Owns, Queued;
    SizedQueue(cfg, d);
    if a.StepPump? {
      var w := d.q.calls[id].item;
      if w != NULL { assert InHand(d, w); }
      PumpedRest(d, Next(cfg, d, a));
    } else {
      DrainedRest(d, Next(cfg, d, a));
    }
  }

  /** The queue machine makes one step, or none. */
  lemma ActQueue(cfg: Config, n: nat, d: World, a: Act)
    requires Good(cfg, d) && CanAct(d, a) && Roles(Next(cfg, d, a)) && QL.DistinctTags(cfg, n)
    requires d.q.puts + cfg.capacity <= n && Next(cfg, d, a).q.puts + cfg.capacity <= n
    ensures var e := Next(cfg, d, a); QC.Inv(cfg, e.q) && QL.Order(cfg, e.q)
  {
    hide QC.Inv, QL.Order, Lives, Awake, InOrder;
    SizedQueue(cfg, d);
    var e := Next(cfg, d, a);
    OnePopper(d);
    OnePopper(e);
    if e.q != d.q {
      var m := MoveOf(d, a);
      assert Enabled(d.q, m) && e.q == Step(cfg, d.q, m);
      QC.StepInv(cfg, d.q, m);
      QL.StepOrder(cfg, n, d.q, m);
    }
  }

  function MoveOf(d: World, a: Act): Move {
    match a
    case Produce(id, w) => Begin(id, Push(w))
    case Pushing(id) => Run(id)
    case StepPump => Run(if d.writer.Pumping? then d.writer.call else 0)
    case StepDrain => Run(if d.closer.Draining? then d.closer.call else 0)
    case StartPump(id) => Begin(id, Pop)
    case Write(id) => Begin(id, Pop)
    case Join(id) => Begin(id, Pop)
    case Drop(id) => Begin(id, Pop)
    case _ => Run(0)
  }

  lemma OnePopper(d: World)
    requires Roles(d)
    ensures OneConsumer(d.q)
  {
  }

  lemma StartGood(cfg: Config)
    requires 0 < cfg.capacity
    ensures Good(cfg, Start(cfg))
  {
    QC.InitialInv(cfg);
    QL.InitialOrder(cfg);
  }

  lemma ActGood(cfg: Config, n: nat, d: World, a: Act)
    requires Good(cfg, d) && CanAct(d, a) && QL.DistinctTags(cfg, n)
    requires d.q.puts + cfg.capacity <= n && Next(cfg, d, a).q.puts + cfg.capacity <= n
    ensures Good(cfg, Next(cfg, d, a))
  {
    ActRest(cfg, d, a);
    ActLives(cfg, d, a);
    ActQueue(cfg, n, d, a);
  }

  lemma {:induction false} RunGood(cfg: Config, n: nat, d: World, acts: seq<Act>, e: World)
    requires Good(cfg, d) && QL.DistinctTags(cfg, n) && Behaves(cfg, n, d, acts, e)
    ensures Good(cfg, e)
    decreases |acts|
  {
    if acts != [] {
      ActGood(cfg, n, d, acts[0]);
      RunGood(cfg, n, Next(cfg, d, acts[0]), acts[1..], e);
    }
  }

  // ---- the results ----

  /** No lost wakeup: while the writer sleeps with no event pending, every record stored and not taken
      belongs to a producer that has yet to call set(); if no such producer is left, nothing is queued. */
  lemma NoLostWakeup(cfg: Config, n: nat, acts: seq<Act>, d: World)
    requires 0 < cfg.capacity && QL.DistinctTags(cfg, n) && Behaves(cfg, n, Start(cfg), acts, d)
    requires d.writer.Wait? && !d.event
    ensures d.q.puts != d.q.gets ==>
              exists id :: id in d.q.calls && id !in d.done && QC.Gave(d.q.calls[id]) != NULL
    ensures ProducersDone(d) ==> d.q.puts == d.q.gets && ItemsOf(d.q.stored) == d.written
  {
    StartGood(cfg);
    RunGood(cfg, n, Start(cfg), acts, d);
    NothingPopping(d);
    if |d.q.taken| < |d.q.stored| {
      var id := d.q.stored[|d.q.taken|].call;
      assert id in d.q.calls && id !in d.done && QC.Gave(d.q.calls[id]) != NULL;
      assert IsPush(d.q.calls[id]);
    } else if |d.q.taken| == d.q.gets + 1 {
      assert Popping(d.q.calls[d.q.taken[d.q.gets].call]);
    }
    if ProducersDone(d) {
      assert ItemsOf(d.q.taken) == d.written;
    }
  }

  lemma NothingPopping(d: World)
    requires Roles(d) && d.writer.Wait?
    ensures forall id :: id in d.q.calls ==> !Popping(d.q.calls[id])
  {
  }

  lemma EmptyWhenClosed(cfg: Config, d: World)
    requires QL.Order(cfg, d.q) && Roles(d) && Lives(d) && d.closer.Closed?
    ensures d.live == map[]
  {
    if d.live != map[] {
      var w :| w in d.live;
      EmptyMeansPending(cfg, d);
      assert false;
    }
  }

  /** When shutdown has finished, no record is left unreleased, and the sinks have seen an initial part
      of the records in the order they were stored. */
  lemma NothingLeaks(cfg: Config, n: nat, acts: seq<Act>, d: World)
    requires 0 < cfg.capacity && QL.DistinctTags(cfg, n) && Behaves(cfg, n, Start(cfg), acts, d)
    ensures d.written <= ItemsOf(d.q.stored)
    ensures d.closer.Closed? ==> d.live == map[]
  {
    StartGood(cfg);
    RunGood(cfg, n, Start(cfg), acts, d);
    assert ItemsOf(d.q.taken) <= ItemsOf(d.q.stored) by { assert QL.Histories(d.q); }
    if d.closer.Closed? { EmptyWhenClosed(cfg, d); }
  }
}
