/** No record is released twice, whatever the tags are. */
module DispatcherReleases {
  // Even after the tags have begun to clash, the dispatcher never gives up a reference it does not hold.

  import opened BoundedFifo
  import opened QueueMachine
  import opened Dispatcher
  import QC = QueueConservation

  // ---- the invariant, which needs no order ----

  /** At most one pop call is in progress, and who holds a record holds a proper one. */
  ghost predicate Hands(d: World) {
    (forall id :: id in d.q.calls && Popping(d.q.calls[id]) ==> PopOwner(d, id)) &&
    (d.writer.Pumping? ==> d.writer.call in d.q.calls && !IsPush(d.q.calls[d.writer.call])) &&
    (d.closer.Draining? ==> d.closer.call in d.q.calls && !IsPush(d.q.calls[d.closer.call])) &&
    (d.closer.Draining? || d.closer.Dropping? || d.closer.Closed? ==> d.writer.Exited?) &&
    d.writer != Holding(NULL) && d.closer != Dropping(NULL) &&
    (forall id :: id in d.q.calls && IsPush(d.q.calls[id]) ==> d.q.calls[id].item != NULL) &&
    (forall id :: id in d.done ==> id in d.q.calls && d.q.calls[id].PushEnd?)
  }

  /** Call `id` has put its record w into the queue. */
  ghost predicate Gave(d: World, id: CallId, w: Word) {
    id in d.q.calls && QC.Gave(d.q.calls[id]) == w
  }

  /** A record with its push call, in a slot or in a hand is live, and is in one of these places only. */
  ghost predicate Kept(d: World) {
    (forall id, w :: Owns(d, id, w) && w != NULL ==> w in d.live && d.live[w] == id) &&
    (forall k :: 0 <= k < |d.q.slots| && !Vacant(d.q.slots[k]) ==>
      d.q.slots[k] in d.live && Gave(d, d.live[d.q.slots[k]], d.q.slots[k])) &&
    (forall j, k :: 0 <= j < k < |d.q.slots| && !Vacant(d.q.slots[j]) ==> d.q.slots[j] != d.q.slots[k]) &&
    (forall w :: InHand(d, w) && w != NULL ==> !Vacant(w) && w in d.live && Gave(d, d.live[w], w) && w !in d.q.slots)
  }

  ghost predicate Safe(cfg: Config, d: World) {
    QC.Inv(cfg, d.q) && Hands(d) && Kept(d)
  }

  // ---- what an action may change ----

  /** No call forgets what it gave. */
  ghost predicate Remembers(d: World, e: World) {
    forall id :: id in d.q.calls && QC.Gave(d.q.calls[id]) != NULL ==>
      id in e.q.calls && QC.Gave(e.q.calls[id]) == QC.Gave(d.q.calls[id])
  }

  lemma KeptCarry(d: World, e: World)
    requires Kept(d) && Remembers(d, e) && e.live == d.live && e.q.slots == d.q.slots
    requires forall id, w :: w != NULL && Owns(e, id, w) ==> Owns(d, id, w)
    requires forall w :: w != NULL && InHand(e, w) ==> InHand(d, w)
    ensures Kept(e)
  {
  }

  lemma KeptProduce(d: World, e: World, id: CallId, w: Word)
    requires Kept(d) && Remembers(d, e) && id !in d.q.calls && w !in d.live
    requires e.live == d.live[w := id] && e.q.slots == d.q.slots
    requires forall i, v :: v != NULL && Owns(e, i, v) ==> Owns(d, i, v) || (i == id && v == w)
    requires forall v :: v != NULL && InHand(e, v) ==> InHand(d, v)
    ensures Kept(e)
  {
  }

  lemma KeptStore(d: World, e: World, id: CallId, w: Word, k: nat)
    requires Kept(d) && Remembers(d, e) && Owns(d, id, w) && !Vacant(w) && Gave(e, id, w)
    requires e.live == d.live && k < |d.q.slots| && Vacant(d.q.slots[k]) && e.q.slots == d.q.slots[k := w]
    requires forall i, v :: v != NULL && Owns(e, i, v) ==> Owns(d, i, v) && i != id
    requires forall v :: v != NULL && InHand(e, v) ==> InHand(d, v)
    ensures Kept(e)
  {
    assert w in d.live && d.live[w] == id && !Gave(d, id, w);
    assert w !in d.q.slots && !InHand(d, w);
  }

  lemma KeptTake(d: World, e: World, k: nat, tag: Word)
    requires Kept(d) && Remembers(d, e) && Vacant(tag)
    requires e.live == d.live && k < |d.q.slots| && e.q.slots == d.q.slots[k := tag]
    requires forall i, v :: v != NULL && Owns(e, i, v) ==> Owns(d, i, v)
    requires forall v :: v != NULL && InHand(e, v) ==> InHand(d, v) || (v == d.q.slots[k] && !Vacant(v))
    ensures Kept(e)
  {
    forall w | InHand(e, w) && w != NULL ensures !Vacant(w) && w in e.live && Gave(e, e.live[w], w) && w !in e.q.slots {
      forall j | 0 <= j < |e.q.slots| ensures e.q.slots[j] != w {
        if j != k { assert e.q.slots[j] == d.q.slots[j]; }
      }
    }
  }

  lemma KeptRelease(d: World, e: World, w: Word)
    requires Kept(d) && Remembers(d, e) && e.live == Forget(d.live, w) && e.q.slots == d.q.slots && w != NULL
    requires InHand(d, w) || exists id :: Owns(d, id, w)
    requires forall i, v :: v != NULL && Owns(e, i, v) ==> Owns(d, i, v) && (v == w ==> InHand(d, w))
    requires forall v :: v != NULL && InHand(e, v) ==> InHand(d, v) && (v == w ==> !InHand(d, w))
    ensures Kept(e)
  {
    assert w in d.live;
    if InHand(d, w) {
      assert Gave(d, d.live[w], w);
    } else {
      var id :| Owns(d, id, w);
      assert !Gave(d, d.live[w], w);
    }
  }

  // ---- the queue's steps ----

  /** What a step of push call `id` may do to the slots. */
  ghost predicate PushMove(q: State, r: State, id: CallId) {
    id in q.calls && IsPush(q.calls[id]) && !q.calls[id].PushEnd? && id in r.calls && IsPush(r.calls[id]) &&
    r.calls == q.calls[id := r.calls[id]] && r.calls[id].item == q.calls[id].item &&
    ((r.slots == q.slots && QC.Gave(r.calls[id]) == QC.Gave(q.calls[id])) ||
     (QC.Gave(q.calls[id]) == NULL && QC.Gave(r.calls[id]) == q.calls[id].item && !Vacant(q.calls[id].item) &&
      exists k :: 0 <= k < |q.slots| && Vacant(q.slots[k]) && r.slots == q.slots[k := q.calls[id].item]))
  }

  lemma PushMoved(cfg: Config, q: State, id: CallId)
    requires QC.Inv(cfg, q) && id in q.calls && IsPush(q.calls[id]) && Enabled(q, Run(id))
    ensures Sized(cfg, q) && PushMove(q, Step(cfg, q, Run(id)), id)
  {
    assert QC.CallBounds(cfg, q, q.calls[id]);
  }

  lemma PushMoveKept(d: World, e: World, id: CallId)
    requires Hands(d) && Kept(d) && e == d.(q := e.q) && PushMove(d.q, e.q, id)
    ensures Kept(e)
  {
    if e.q.slots == d.q.slots && QC.Gave(e.q.calls[id]) == QC.Gave(d.q.calls[id]) {
      KeptCarry(d, e);
    } else {
      var w := d.q.calls[id].item;
      var k :| 0 <= k < |d.q.slots| && Vacant(d.q.slots[k]) && e.q.slots == d.q.slots[k := w];
      assert id !in d.done;
      KeptStore(d, e, id, w, k);
    }
  }

  lemma PushStep(cfg: Config, d: World, id: CallId)
    requires Safe(cfg, d) && CanAct(d, Pushing(id))
    ensures Hands(Next(cfg, d, Pushing(id))) && Kept(Next(cfg, d, Pushing(id)))
  {
    hide Kept, PushMove, Hands, QC.Inv, Owns;
    PushMoved(cfg, d.q, id);
    PushMoveKept(d, Next(cfg, d, Pushing(id)), id);
    PushMoveHands(d, Next(cfg, d, Pushing(id)), id);
  }

  lemma PushMoveHands(d: World, e: World, id: CallId)
    requires Hands(d) && e == d.(q := e.q) && PushMove(d.q, e.q, id)
    ensures Hands(e)
  {
    assert id !in d.done;
  }

  /** What a step of pop call `id` may do to the slots. */
  ghost predicate PopMove(q: State, r: State, id: CallId) {
    id in q.calls && Popping(q.calls[id]) && id in r.calls && !IsPush(r.calls[id]) &&
    r.calls == q.calls[id := r.calls[id]] &&
    ((r.slots == q.slots && QC.Got(r.calls[id]) == QC.Got(q.calls[id])) ||
     (QC.Got(q.calls[id]) == NULL &&
      exists k, tag :: 0 <= k < |q.slots| && Vacant(tag) && Refilled(q, r, k, tag) &&
        QC.Got(r.calls[id]) == if Vacant(q.slots[k]) then NULL else q.slots[k]))
  }

  ghost predicate Refilled(q: State, r: State, k: nat, tag: Word) {
    k < |q.slots| && r.slots == q.slots[k := tag]
  }

  lemma PopMoved(cfg: Config, q: State, id: CallId)
    requires QC.Inv(cfg, q) && id in q.calls && Popping(q.calls[id])
    ensures Sized(cfg, q) && PopMove(q, Step(cfg, q, Run(id)), id)
  {
    var c := q.calls[id];
    assert QC.CallBounds(cfg, q, c);
    if c.PopSwap? && q.slots[Slot(c.seen, cfg.capacity)] == c.word {
      assert Refilled(q, Step(cfg, q, Run(id)), Slot(c.seen, cfg.capacity), Tag(cfg, c.seen + cfg.capacity));
    }
  }

  lemma PopMoveKept(d: World, e: World, id: CallId)
    requires Hands(d) && Kept(d) && e == d.(q := e.q) && PopMove(d.q, e.q, id) && PopOwner(d, id)
    ensures Kept(e)
  {
    if e.q.slots == d.q.slots && QC.Got(e.q.calls[id]) == QC.Got(d.q.calls[id]) {
      KeptCarry(d, e);
    } else {
      var k, tag :| 0 <= k < |d.q.slots| && Vacant(tag) && Refilled(d.q, e.q, k, tag) &&
        QC.Got(e.q.calls[id]) == if Vacant(d.q.slots[k]) then NULL else d.q.slots[k];
      KeptTake(d, e, k, tag);
    }
  }

  /** The pop call of an action that steps one. */
  function PopCall(d: World, a: Act): CallId
    requires (a.StepPump? || a.StepDrain?) && CanAct(d, a)
  {
    if a.StepPump? then d.writer.call else d.closer.call
  }

  lemma PopStep(cfg: Config, d: World, a: Act)
    requires Safe(cfg, d) && CanAct(d, a) && (a.StepPump? || a.StepDrain?) && Popping(d.q.calls[PopCall(d, a)])
    ensures Hands(Next(cfg, d, a)) && Kept(Next(cfg, d, a))
  {
    hide Kept, PopMove, QC.Inv;
    PopMoved(cfg, d.q, PopCall(d, a));
    PopMoveKept(d, Next(cfg, d, a), PopCall(d, a));
    PopMoveHands(d, Next(cfg, d, a), PopCall(d, a));
  }

  lemma PopMoveHands(d: World, e: World, id: CallId)
    requires Hands(d) && e == d.(q := e.q) && PopMove(d.q, e.q, id) && PopOwner(d, id)
    ensures Hands(e)
  {
  }

  /** The pop has returned: what it got is in the writer's or the closer's hand, as it was. */
  lemma PopReturned(cfg: Config, d: World, a: Act)
    requires Safe(cfg, d) && CanAct(d, a) && (a.StepPump? || a.StepDrain?) && !Popping(d.q.calls[PopCall(d, a)])
    ensures Hands(Next(cfg, d, a)) && Kept(Next(cfg, d, a))
  {
    KeptCarry(d, Next(cfg, d, a));
  }

  lemma ReleaseStep(cfg: Config, d: World, a: Act)
    requires Safe(cfg, d) && CanAct(d, a) && (a.Write? || a.Drop?)
    ensures Hands(Next(cfg, d, a)) && Kept(Next(cfg, d, a))
  {
    hide Hands, Kept, QC.Inv;
    SizedQueue(cfg, d);
    ReleaseKept(cfg, d, a);
    ReleaseHands(cfg, d, a);
  }

  lemma ReleaseHands(cfg: Config, d: World, a: Act)
    requires Hands(d) && Sized(cfg, d.q) && CanAct(d, a) && (a.Write? || a.Drop?)
    ensures Hands(Next(cfg, d, a))
  {
  }

  lemma ReleaseKept(cfg: Config, d: World, a: Act)
    requires Hands(d) && Kept(d) && Sized(cfg, d.q) && CanAct(d, a) && (a.Write? || a.Drop?)
    ensures Kept(Next(cfg, d, a))
  {
    KeptRelease(d, Next(cfg, d, a), if a.Write? then d.writer.record else d.closer.record);
  }

  lemma DiscardStep(cfg: Config, d: World, id: CallId)
    requires Safe(cfg, d) && CanAct(d, Discard(id))
    ensures Hands(Next(cfg, d, Discard(id))) && Kept(Next(cfg, d, Discard(id)))
  {
    var e := Next(cfg, d, Discard(id));
    var w := d.q.calls[id].item;
    assert Owns(d, id, w) && w in d.live && d.live[w] == id;
    assert !InHand(d, w);
    KeptRelease(d, e, w);
  }

  lemma ProduceStep(cfg: Config, d: World, a: Act)
    requires Safe(cfg, d) && CanAct(d, a) && a.Produce?
    ensures Hands(Next(cfg, d, a)) && Kept(Next(cfg, d, a))
  {
    KeptProduce(d, Next(cfg, d, a), a.id, a.record);
  }

  lemma QuietStep(cfg: Config, d: World, a: Act)
    requires Safe(cfg, d) && CanAct(d, a)
    requires a.Signal? || a.TestStop? || a.TestEmpty? || a.Wake? || a.Alerted? || a.Stop?
    ensures Hands(Next(cfg, d, a)) && Kept(Next(cfg, d, a))
  {
    KeptCarry(d, Next(cfg, d, a));
  }

  lemma SizedQueue(cfg: Config, d: World)
    requires Safe(cfg, d)
    ensures Sized(cfg, d.q)
  {
  }

  /** A pop call begins, and the writer or the closer has it. */
  lemma BeginPopStep(cfg: Config, d: World, a: Act)
    requires Safe(cfg, d) && CanAct(d, a) && (a.StartPump? || a.Join?)
    ensures Hands(Next(cfg, d, a)) && Kept(Next(cfg, d, a))
  {
    hide QC.Inv, Kept, Hands;
    SizedQueue(cfg, d);
    BeginPopHands(cfg, d, a);
    BeginPopKept(cfg, d, a);
  }

  lemma BeginPopHands(cfg: Config, d: World, a: Act)
    requires Hands(d) && Sized(cfg, d.q) && CanAct(d, a) && (a.StartPump? || a.Join?)
    ensures Hands(Next(cfg, d, a))
  {
  }

  lemma BeginPopKept(cfg: Config, d: World, a: Act)
    requires Kept(d) && Sized(cfg, d.q) && CanAct(d, a) && (a.StartPump? || a.Join?)
    ensures Kept(Next(cfg, d, a))
  {
    KeptCarry(d, Next(cfg, d, a));
  }

  lemma QueueStep(cfg: Config, d: World, a: Act)
    requires Safe(cfg, d) && CanAct(d, a)
    ensures QC.Inv(cfg, Next(cfg, d, a).q)
  {
    var e := Next(cfg, d, a);
    if e.q != d.q {
      var m := MoveOf(d, a);
      assert Enabled(d.q, m) && e.q == Step(cfg, d.q, m);
      QC.StepInv(cfg, d.q, m);
    }
  }

  lemma ActSafe(cfg: Config, d: World, a: Act)
    requires Safe(cfg, d) && CanAct(d, a)
    ensures Safe(cfg, Next(cfg, d, a))
  {
    hide Hands, Kept;
    QueueStep(cfg, d, a);
    match a
    case Pushing(id) => PushStep(cfg, d, id);
    case StepPump => if Popping(d.q.calls[PopCall(d, a)]) { PopStep(cfg, d, a); } else { PopReturned(cfg, d, a); }
    case StepDrain => if Popping(d.q.calls[PopCall(d, a)]) { PopStep(cfg, d, a); } else { PopReturned(cfg, d, a); }
    case Write(_) => ReleaseStep(cfg, d, a);
    case Drop(_) => ReleaseStep(cfg, d, a);
    case Discard(id) => DiscardStep(cfg, d, id);
    case Produce(_, _) => ProduceStep(cfg, d, a);
    case StartPump(_) => BeginPopStep(cfg, d, a);
    case Join(_) => BeginPopStep(cfg, d, a);
    case _ => QuietStep(cfg, d, a);
  }

  lemma {:induction false} RunSafe(cfg: Config, n: nat, d: World, acts: seq<Act>, e: World)
    requires Safe(cfg, d) && Behaves(cfg, n, d, acts, e)
    ensures Safe(cfg, e)
    decreases |acts|
  {
    if acts != [] {
      ActSafe(cfg, d, acts[0]);
      RunSafe(cfg, n, Next(cfg, d, acts[0]), acts[1..], e);
    }
  }

  // ---- the result ----

  lemma ReleaseHeld(cfg: Config, d: World, a: Act, w: Word)
    requires Safe(cfg, d) && CanAct(d, a) && Releases(d, a, w)
    ensures w in d.live
  {
    match a
    case Discard(id) => assert Owns(d, id, w);
    case Write(_) => assert InHand(d, w);
    case Drop(_) => assert InHand(d, w);
  }

  /** What an action releases, it removes from `live`; nothing else is removed. */
  lemma ReleaseForgets(cfg: Config, d: World, a: Act)
    requires Sized(cfg, d.q) && CanAct(d, a) && !a.Produce?
    ensures forall w :: Releases(d, a, w) ==> Next(cfg, d, a).live == d.live - {w}
    ensures Next(cfg, d, a).live == d.live || exists w :: Releases(d, a, w)
  {
    match a
    case Discard(id) => assert Releases(d, a, d.q.calls[id].item);
    case Write(_) => assert Releases(d, a, d.writer.record);
    case Drop(_) => assert Releases(d, a, d.closer.record);
    case _ =>
  }

  /** In every run, whatever the tags are, each release touches a record whose queue-owned reference is
      still held, and gives it up; nothing else does. */
  lemma ReleasedOnce(cfg: Config, n: nat, acts: seq<Act>, d: World, a: Act)
    requires 0 < cfg.capacity && Behaves(cfg, n, Start(cfg), acts, d)
    requires Sized(cfg, d.q) && CanAct(d, a) && !a.Produce?
    ensures forall w :: Releases(d, a, w) ==> w in d.live && Next(cfg, d, a).live == d.live - {w}
    ensures Next(cfg, d, a).live == d.live || exists w :: Releases(d, a, w)
  {
    QC.InitialInv(cfg);
    RunSafe(cfg, n, Start(cfg), acts, d);
    ReleaseForgets(cfg, d, a);
    forall w | Releases(d, a, w) ensures w in d.live { ReleaseHeld(cfg, d, a, w); }
  }
}
