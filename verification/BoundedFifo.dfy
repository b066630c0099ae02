/** The sequential object that the queue must implement. */
module BoundedFifo {
  // It is a FIFO of at most `capacity` words, together with the calls in progress. A call is pending until a single
  // `Decide` event applies its whole effect to `items`; only then may it return. An execution of the concurrent
  // queue is linearizable when it can be read as such a sequence of events.

  type CallId = nat

  /** A pointer-sized word. NULL and odd words are not items. */
  type Word = nat

  datatype Op = Push(item: Word) | Pop
  datatype Outcome = Pushed(ok: bool) | Popped(item: Word)

  datatype Status = Pending(op: Op) | Decided(op: Op, outcome: Outcome) | Returned(outcome: Outcome)
  datatype Fifo = Fifo(capacity: nat, items: seq<Word>, calls: map<CallId, Status>)
  datatype Event = Invoke(id: CallId, op: Op) | Decide(id: CallId) | Return(id: CallId)

  const NULL: Word := 0

  predicate Vacant(w: Word) {
    w == NULL || w % 2 == 1
  }

  /** What one operation does when it runs alone. */
  function Outcome1(capacity: nat, items: seq<Word>, op: Op): Outcome {
    match op
    case Push(w) => Pushed(!Vacant(w) && |items| < capacity)
    case Pop => if items == [] then Popped(NULL) else Popped(items[0])
  }

  function Items1(capacity: nat, items: seq<Word>, op: Op): seq<Word> {
    match op
    case Push(w) => if !Vacant(w) && |items| < capacity then items + [w] else items
    case Pop => if items == [] then [] else items[1..]
  }

  predicate Allowed(f: Fifo, e: Event) {
    match e
    case Invoke(id, _) => id !in f.calls
    case Decide(id) => id in f.calls && f.calls[id].Pending?
    case Return(id) => id in f.calls && f.calls[id].Decided?
  }

  function Apply(f: Fifo, e: Event): Fifo
    requires Allowed(f, e)
  {
    match e
    case Invoke(id, op) => f.(calls := f.calls[id := Pending(op)])
    case Decide(id) =>
      var op := f.calls[id].op;
      Fifo(f.capacity, Items1(f.capacity, f.items, op),
           f.calls[id := Decided(op, Outcome1(f.capacity, f.items, op))])
    case Return(id) => f.(calls := f.calls[id := Returned(f.calls[id].outcome)])
  }

  /** The events `es` lead from `f` to `g`. */
  predicate Accepts(f: Fifo, es: seq<Event>, g: Fifo)
    decreases |es|
  {
    if es == [] then f == g else Allowed(f, es[0]) && Accepts(Apply(f, es[0]), es[1..], g)
  }

  /** The item a single event puts in, if any. */
  function EnteredBy(f: Fifo, e: Event): seq<Word>
    requires Allowed(f, e)
  {
    if e.Decide? && f.calls[e.id].op.Push? && Outcome1(f.capacity, f.items, f.calls[e.id].op).ok
    then [f.calls[e.id].op.item] else []
  }

  /** The item a single event hands out, if any. */
  function LeftBy(f: Fifo, e: Event): seq<Word>
    requires Allowed(f, e)
  {
    if e.Decide? && f.calls[e.id].op.Pop? && f.items != [] then [f.items[0]] else []
  }

  /** The items entered by successful pushes, in the order of their decisions. */
  function Entered(f: Fifo, es: seq<Event>): seq<Word>
    decreases |es|
  {
    if es == [] || !Allowed(f, es[0]) then [] else EnteredBy(f, es[0]) + Entered(Apply(f, es[0]), es[1..])
  }

  /** The non-null items handed out by pops, in the order of their decisions. */
  function Left(f: Fifo, es: seq<Event>): seq<Word>
    decreases |es|
  {
    if es == [] || !Allowed(f, es[0]) then [] else LeftBy(f, es[0]) + Left(Apply(f, es[0]), es[1..])
  }

  lemma {:induction false} AcceptsConcat(f: Fifo, es: seq<Event>, g: Fifo, ds: seq<Event>, h: Fifo)
    requires Accepts(f, es, g) && Accepts(g, ds, h)
    ensures Accepts(f, es + ds, h)
    decreases |es|
  {
    if es == [] {
      assert es + ds == ds;
    } else {
      AcceptsConcat(Apply(f, es[0]), es[1..], g, ds, h);
      assert (es + ds)[0] == es[0] && (es + ds)[1..] == es[1..] + ds;
    }
  }

  /** First in, first out: what has left plus what is inside is exactly what was inside plus what
      entered, in order; and the bound is respected. */
  lemma {:induction false} FirstInFirstOut(f: Fifo, es: seq<Event>, g: Fifo)
    requires Accepts(f, es, g)
    ensures f.items + Entered(f, es) == Left(f, es) + g.items
    ensures g.capacity == f.capacity
    ensures |f.items| <= f.capacity ==> |g.items| <= g.capacity
    decreases |es|
  {
    if es == [] {
    } else {
      var m := Apply(f, es[0]);
      FirstInFirstOut(m, es[1..], g);
      StepThenRest(f, es[0]);
      Splice(f.items, EnteredBy(f, es[0]), LeftBy(f, es[0]), m.items, Entered(m, es[1..]), Left(m, es[1..]), g.items);
    }
  }

  lemma StepThenRest(f: Fifo, e: Event)
    requires Allowed(f, e)
    ensures f.items + EnteredBy(f, e) == LeftBy(f, e) + Apply(f, e).items
    ensures |f.items| <= f.capacity ==> |Apply(f, e).items| <= f.capacity
  {
  }

  lemma Splice<T>(a: seq<T>, x: seq<T>, y: seq<T>, b: seq<T>, x': seq<T>, y': seq<T>, c: seq<T>)
    requires a + x == y + b && b + x' == y' + c
    ensures a + (x + x') == (y + y') + c
  {
    assert a + (x + x') == (y + b) + x';
    assert (y + y') + c == y + (b + x');
  }
}
