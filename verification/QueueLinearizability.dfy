/** Every single-consumer run is a run of BoundedFifo. */
module QueueLinearizability {
  // With one consumer at a time and tags that differ between the tickets of a slot, each step of the machine is
  // matched by the events of `EventsOf`, and the abstraction `Abs` follows.
  //
  // A push takes effect when m_puts moves past its ticket, often by another thread's CAS; a pop when m_gets moves
  // past its ticket; "full" and "empty" at the read that decides.

  import opened BoundedFifo
  import opened QueueMachine

  /** No two of the first `n` tickets share both slot and tag. */
  ghost predicate DistinctTags(cfg: Config, n: nat)
    requires 0 < cfg.capacity
  {
    forall t: nat, u: nat :: t < u < n && Slot(t, cfg.capacity) == Slot(u, cfg.capacity) ==> Tag(cfg, t) != Tag(cfg, u)
  }

  /** One consumer, and all tickets in play below `n`. */
  ghost predicate Solo(cfg: Config, n: nat, s: State) {
    OneConsumer(s) && s.puts + cfg.capacity <= n
  }

  ghost predicate SoloRuns(cfg: Config, n: nat, s: State, ms: seq<Move>, t: State)
    requires Sized(cfg, s)
    decreases |ms|
  {
    Solo(cfg, n, s) &&
    if ms == [] then s == t
    else Enabled(s, ms[0]) && SoloRuns(cfg, n, Step(cfg, s, ms[0]), ms[1..], t)
  }

  // ---- the invariant ----

  /** The window of tickets the slots stand for: the stored ones hold items, the rest their tags. */
  ghost predicate Window(cfg: Config, s: State)
    requires Sized(cfg, s)
  {
    forall t: nat :: |s.taken| <= t < |s.taken| + cfg.capacity ==>
      s.slots[Slot(t, cfg.capacity)] == if t < |s.stored| then s.stored[t].item else Tag(cfg, t)
  }

  ghost predicate Counts(cfg: Config, s: State) {
    Sized(cfg, s) &&
    s.gets <= |s.taken| <= s.gets + 1 && s.puts <= |s.stored| <= s.puts + 1 &&
    |s.taken| <= s.puts && |s.stored| <= s.gets + cfg.capacity
  }

  ghost predicate Histories(s: State) {
    (forall k :: 0 <= k < |s.stored| ==> !Vacant(s.stored[k].item)) &&
    |s.taken| <= |s.stored| &&
    (forall k :: 0 <= k < |s.taken| ==> s.taken[k].item == s.stored[k].item)
  }

  /** A counter that lags behind its history has its call about to move it. */
  ghost predicate Laggards(s: State)
    requires s.puts <= |s.stored| && s.gets <= |s.taken|
  {
    (|s.stored| == s.puts + 1 ==>
      var x := s.stored[s.puts]; x.call in s.calls && s.calls[x.call] == PushBump(x.item, s.puts, true)) &&
    (|s.taken| == s.gets + 1 ==>
      var x := s.taken[s.gets]; x.call in s.calls && s.calls[x.call] == PopBump(s.gets, x.item, true))
  }

  ghost predicate CallOrder(cfg: Config, s: State, id: CallId, c: Call) {
    match c
    case PushLoad(w) => !Vacant(w)
    case PushCheck(w, p) => !Vacant(w) && p <= s.puts
    case PushSwap(w, p) => !Vacant(w) && p <= s.puts && p < s.gets + cfg.capacity
    case PushBump(w, p, won) => !Vacant(w) && p <= s.puts && p < |s.stored| && (won ==> s.stored[p] == Transfer(id, w))
    case PushEnd(_, _) => true
    case PopLoad => |s.taken| == s.gets
    case PopCheck(g) => g == s.gets == |s.taken|
    case PopRead(g) => g == s.gets == |s.taken| < s.puts
    case PopSwap(g, w) => g == s.gets == |s.taken| < s.puts && g < |s.stored| && w == s.stored[g].item
    case PopBump(g, w, won) => won && g == s.gets && |s.taken| == g + 1 && g < |s.stored| && w == s.stored[g].item
    case PopEnd(_) => true
  }

  ghost predicate CallsOrder(cfg: Config, s: State) {
    forall id :: id in s.calls ==> CallOrder(cfg, s, id, s.calls[id])
  }

  ghost predicate Order(cfg: Config, s: State) {
    Counts(cfg, s) && Window(cfg, s) && Histories(s) && Laggards(s) && CallsOrder(cfg, s)
  }

  lemma InitialOrder(cfg: Config)
    requires 0 < cfg.capacity
    ensures Order(cfg, Initial(cfg))
  {
  }

  // ---- the slot CAS of a push ----

  /** Every ticket shares its slot with one ticket of the window. */
  lemma {:induction false} WindowHit(p: nat, g: nat, n: nat) returns (t: nat)
    requires 0 < n && p < g + n
    ensures g <= t < g + n && p <= t && Slot(t, n) == Slot(p, n)
    decreases g + n - p
  {
    if g <= p { t := p; } else { t := WindowHit(p + n, g, n); }
  }

  /** The slot still holds the ticket's tag exactly when the ticket is the next one to be stored: a
      producer that has fallen behind never stores. */
  lemma StoresOnlyNext(cfg: Config, n: nat, s: State, p: nat)
    requires Counts(cfg, s) && Window(cfg, s) && Histories(s)
    requires DistinctTags(cfg, n) && s.puts + cfg.capacity <= n
    requires p <= s.puts && p < s.gets + cfg.capacity
    ensures s.slots[Slot(p, cfg.capacity)] == Tag(cfg, p) <==> p == |s.stored|
  {
    var t := WindowHit(p, |s.taken|, cfg.capacity);
    if t < |s.stored| {
      assert !Vacant(s.stored[t].item);
    } else if p < t {
      assert Tag(cfg, p) != Tag(cfg, t);
    }
  }

  lemma StoreWindow(cfg: Config, s: State, x: Transfer, s': State)
    requires Sized(cfg, s) && Window(cfg, s) && |s.taken| <= |s.stored| < |s.taken| + cfg.capacity
    requires s'.stored == s.stored + [x] && s'.taken == s.taken
    requires s'.slots == s.slots[Slot(|s.stored|, cfg.capacity) := x.item]
    ensures Sized(cfg, s') && Window(cfg, s')
  {
    forall t: nat | |s.taken| <= t < |s.taken| + cfg.capacity
      ensures s'.slots[Slot(t, cfg.capacity)] == if t < |s'.stored| then s'.stored[t].item else Tag(cfg, t)
    {
      if t < |s.stored| { SlotsDiffer(t, |s.stored|, cfg.capacity); }
      if |s.stored| < t { SlotsDiffer(|s.stored|, t, cfg.capacity); }
    }
  }

  lemma TakeWindow(cfg: Config, s: State, x: Transfer, s': State)
    requires Sized(cfg, s) && Window(cfg, s) && |s.stored| <= |s.taken| + cfg.capacity
    requires s'.stored == s.stored && s'.taken == s.taken + [x]
    requires s'.slots == s.slots[Slot(|s.taken|, cfg.capacity) := Tag(cfg, |s.taken| + cfg.capacity)]
    ensures Sized(cfg, s') && Window(cfg, s')
  {
    var g := |s.taken|;
    forall t: nat | g + 1 <= t < g + 1 + cfg.capacity
      ensures s'.slots[Slot(t, cfg.capacity)] == if t < |s'.stored| then s'.stored[t].item else Tag(cfg, t)
    {
      if t == g + cfg.capacity {
        assert Slot(t, cfg.capacity) == Slot(g, cfg.capacity);
      } else {
        SlotsDiffer(g, t, cfg.capacity);
      }
    }
  }

  // ---- one step keeps the invariant ----

  /** Calls other than the moving one keep what they know while counters and histories grow. */
  lemma OthersKeep(cfg: Config, s: State, t: State, id: CallId)
    requires CallsOrder(cfg, s) && id in t.calls && t.calls == s.calls[id := t.calls[id]]
    requires s.puts <= t.puts && s.stored <= t.stored && s.gets <= t.gets
    requires (t.gets == s.gets && |t.taken| == |s.taken|) || forall j :: j in s.calls && j != id ==>
      !Popping(s.calls[j])
    requires CallOrder(cfg, t, id, t.calls[id])
    ensures CallsOrder(cfg, t)
  {
  }

  lemma BeginOrder(cfg: Config, s: State, id: CallId, op: Op)
    requires Order(cfg, s) && id !in s.calls && OneConsumer(SetCall(s, id, BeginCall(op)))
    ensures Order(cfg, SetCall(s, id, BeginCall(op)))
  {
    var t := SetCall(s, id, BeginCall(op));
    if op.Pop? && |s.taken| == s.gets + 1 {
      assert Popping(t.calls[s.taken[s.gets].call]) && Popping(t.calls[id]);
    }
    OthersKeep(cfg, s, t, id);
  }

  lemma PushSwapOrder(cfg: Config, n: nat, s: State, id: CallId)
    requires Order(cfg, s) && DistinctTags(cfg, n) && s.puts + cfg.capacity <= n
    requires id in s.calls && s.calls[id].PushSwap?
    ensures Order(cfg, PushSwapStep(cfg, s, id, s.calls[id]))
  {
    var c := s.calls[id];
    var t := PushSwapStep(cfg, s, id, c);
    assert CallOrder(cfg, s, id, c);
    StoresOnlyNext(cfg, n, s, c.seen);
    if s.slots[Slot(c.seen, cfg.capacity)] == Tag(cfg, c.seen) {
      StoreWindow(cfg, s, Transfer(id, c.item), t);
    }
    OthersKeep(cfg, s, t, id);
  }

  lemma PopSwapOrder(cfg: Config, s: State, id: CallId)
    requires Order(cfg, s) && OneConsumer(s)
    requires id in s.calls && s.calls[id].PopSwap?
    ensures Order(cfg, PopSwapStep(cfg, s, id, s.calls[id]))
  {
    var c := s.calls[id];
    var t := PopSwapStep(cfg, s, id, c);
    assert CallOrder(cfg, s, id, c);
    assert s.slots[Slot(c.seen, cfg.capacity)] == c.word;
    TakeWindow(cfg, s, Transfer(id, c.word), t);
    OthersKeep(cfg, s, t, id);
  }

  lemma PushBumpOrder(cfg: Config, s: State, id: CallId)
    requires Order(cfg, s) && id in s.calls && s.calls[id].PushBump?
    ensures Order(cfg, RunCall(cfg, s, id, s.calls[id]))
  {
    var c := s.calls[id];
    var t := RunCall(cfg, s, id, c);
    assert CallOrder(cfg, s, id, c);
    if |s.taken| == s.gets + 1 { assert s.taken[s.gets].call != id; }
    OthersKeep(cfg, s, t, id);
  }

  lemma PopBumpOrder(cfg: Config, s: State, id: CallId)
    requires Order(cfg, s) && OneConsumer(s) && id in s.calls && s.calls[id].PopBump?
    ensures Order(cfg, RunCall(cfg, s, id, s.calls[id]))
  {
    var c := s.calls[id];
    var t := RunCall(cfg, s, id, c);
    assert CallOrder(cfg, s, id, c);
    if |s.stored| == s.puts + 1 { assert s.stored[s.puts].call != id; }
    OthersKeep(cfg, s, t, id);
  }

  /** A step that writes nothing shared. */
  lemma ReadOrder(cfg: Config, s: State, id: CallId, c: Call)
    requires Order(cfg, s) && id in s.calls && !s.calls[id].PushBump? && !s.calls[id].PopBump?
    requires CallOrder(cfg, s, id, c)
    ensures Order(cfg, SetCall(s, id, c))
  {
    var t := SetCall(s, id, c);
    if |s.stored| == s.puts + 1 { assert s.stored[s.puts].call != id; }
    if |s.taken| == s.gets + 1 { assert s.taken[s.gets].call != id; }
    OthersKeep(cfg, s, t, id);
  }

  lemma OtherOrder(cfg: Config, s: State, id: CallId)
    requires Order(cfg, s) && OneConsumer(s) && Enabled(s, Run(id))
    requires !s.calls[id].PushSwap? && !s.calls[id].PopSwap?
    ensures Order(cfg, RunCall(cfg, s, id, s.calls[id]))
  {
    if s.calls[id].PushBump? { PushBumpOrder(cfg, s, id); }
    else if s.calls[id].PopBump? { PopBumpOrder(cfg, s, id); }
    else {
      assert CallOrder(cfg, s, id, s.calls[id]);
      if s.calls[id].PopRead? {
        assert s.slots[Slot(s.gets, cfg.capacity)] == s.stored[s.gets].item;
      }
      ReadOrder(cfg, s, id, RunCall(cfg, s, id, s.calls[id]).calls[id]);
    }
  }

  lemma StepOrder(cfg: Config, n: nat, s: State, m: Move)
    requires Order(cfg, s) && DistinctTags(cfg, n) && Enabled(s, m)
    requires Solo(cfg, n, s) && Solo(cfg, n, Step(cfg, s, m))
    ensures Order(cfg, Step(cfg, s, m))
  {
    match m
    case Begin(id, op) => BeginOrder(cfg, s, id, op);
    case Run(id) =>
      if s.calls[id].PushSwap? { PushSwapOrder(cfg, n, s, id); }
      else if s.calls[id].PopSwap? { PopSwapOrder(cfg, s, id); }
      else { OtherOrder(cfg, s, id); }
  }

  lemma {:induction false} RunOrder(cfg: Config, n: nat, s: State, ms: seq<Move>, t: State)
    requires Order(cfg, s) && DistinctTags(cfg, n) && SoloRuns(cfg, n, s, ms, t)
    ensures Order(cfg, t) && Solo(cfg, n, t)
    decreases |ms|
  {
    if ms != [] {
      var m := Step(cfg, s, ms[0]);
      StepOrder(cfg, n, s, ms[0]);
      RunOrder(cfg, n, m, ms[1..], t);
    }
  }

  // ---- the abstraction ----

  /** A call as the sequential queue sees it when m_puts is `puts`. */
  function View(puts: nat, c: Call): Status {
    match c
    case PushLoad(w) => Pending(Push(w))
    case PushCheck(w, _) => Pending(Push(w))
    case PushSwap(w, _) => Pending(Push(w))
    case PushBump(w, p, won) => if won && p < puts then Decided(Push(w), Pushed(true)) else Pending(Push(w))
    case PushEnd(_, ok) => Returned(Pushed(ok))
    case PopEnd(w) => Returned(Popped(w))
    case _ => Pending(Pop)
  }

  function Views(puts: nat, calls: map<CallId, Call>): map<CallId, Status> {
    map id | id in calls :: View(puts, calls[id])
  }

  /** The items whose tickets the counters enclose. */
  function Abs(cfg: Config, s: State): Fifo
    requires s.gets <= s.puts <= |s.stored|
  {
    Fifo(cfg.capacity, ItemsOf(s.stored[s.gets..s.puts]), Views(s.puts, s.calls))
  }

  /** The events of the sequential queue that one step of the machine performs. */
  function EventsOf(cfg: Config, s: State, m: Move): seq<Event>
    requires Enabled(s, m)
  {
    match m
    case Begin(id, op) =>
      if op.Push? && Vacant(op.item) then [Invoke(id, op), Decide(id), Return(id)] else [Invoke(id, op)]
    case Run(id) =>
      match s.calls[id]
      case PushCheck(_, p) => if p - s.gets < cfg.capacity then [] else [Decide(id), Return(id)]
      case PushBump(_, p, won) =>
        (if s.puts == p < |s.stored| then [Decide(s.stored[p].call)] else []) + (if won then [Return(id)] else [])
      case PopCheck(g) => if s.puts - g > 0 then [] else [Decide(id), Return(id)]
      case PopBump(_, _, _) => [Decide(id), Return(id)]
      case _ => []
  }

  function RunEvents(cfg: Config, s: State, ms: seq<Move>): seq<Event>
    requires Sized(cfg, s)
    decreases |ms|
  {
    if ms == [] || !Enabled(s, ms[0]) then []
    else EventsOf(cfg, s, ms[0]) + RunEvents(cfg, Step(cfg, s, ms[0]), ms[1..])
  }

  lemma AcceptsNone(f: Fifo)
    ensures Accepts(f, [], f)
  {
  }

  lemma Accepts1(f: Fifo, e: Event)
    requires Allowed(f, e)
    ensures Accepts(f, [e], Apply(f, e))
  {
    assert [e][1..] == [];
  }

  lemma Accepts2(f: Fifo, e: Event, e': Event)
    requires Allowed(f, e) && Allowed(Apply(f, e), e')
    ensures Accepts(f, [e, e'], Apply(Apply(f, e), e'))
  {
    Accepts1(Apply(f, e), e');
    assert [e, e'][1..] == [e'];
  }

  lemma Accepts3(f: Fifo, e: Event, e': Event, e'': Event)
    requires Allowed(f, e) && Allowed(Apply(f, e), e') && Allowed(Apply(Apply(f, e), e'), e'')
    ensures Accepts(f, [e, e', e''], Apply(Apply(Apply(f, e), e'), e''))
  {
    Accepts2(Apply(f, e), e', e'');
    assert [e, e', e''][1..] == [e', e''];
  }

  lemma ViewsUpdate(puts: nat, calls: map<CallId, Call>, id: CallId, c: Call)
    ensures Views(puts, calls[id := c]) == Views(puts, calls)[id := View(puts, c)]
  {
  }

  lemma BeginSimulates(cfg: Config, s: State, id: CallId, op: Op)
    requires Order(cfg, s) && id !in s.calls
    ensures Accepts(Abs(cfg, s), EventsOf(cfg, s, Begin(id, op)), Abs(cfg, SetCall(s, id, BeginCall(op))))
  {
    var f := Abs(cfg, s);
    ViewsUpdate(s.puts, s.calls, id, BeginCall(op));
    if op.Push? && Vacant(op.item) {
      Accepts3(f, Invoke(id, op), Decide(id), Return(id));
      assert Views(s.puts, s.calls[id := BeginCall(op)])
          == Views(s.puts, s.calls)[id := Pending(op)][id := Decided(op, Pushed(false))][id := Returned(Pushed(false))];
    } else {
      Accepts1(f, Invoke(id, op));
    }
  }

  /** "Full" and "empty" answers decide and return in one step. */
  lemma RefusalSimulates(cfg: Config, s: State, id: CallId)
    requires Order(cfg, s) && id in s.calls
    requires var c := s.calls[id];
             (c.PushCheck? && c.seen - s.gets >= cfg.capacity) || (c.PopCheck? && s.puts - c.seen <= 0)
    ensures Accepts(Abs(cfg, s), [Decide(id), Return(id)], Abs(cfg, RunCall(cfg, s, id, s.calls[id])))
  {
    var f := Abs(cfg, s);
    var c := s.calls[id];
    assert CallOrder(cfg, s, id, c);
    var t := RunCall(cfg, s, id, c);
    Accepts2(f, Decide(id), Return(id));
    ViewsUpdate(s.puts, s.calls, id, t.calls[id]);
    var op := f.calls[id].op;
    var out := Outcome1(f.capacity, f.items, op);
    assert f.calls[id := Decided(op, out)][id := Returned(out)] == f.calls[id := Returned(out)];
  }

  /** Moving m_puts past a ticket decides the push that stored it, whichever call moves it. */
  lemma BumpViews(cfg: Config, s: State)
    requires Order(cfg, s) && |s.stored| == s.puts + 1
    ensures var x := s.stored[s.puts];
            Views(s.puts + 1, s.calls) == Views(s.puts, s.calls)[x.call := Decided(Push(x.item), Pushed(true))]
  {
    var x := s.stored[s.puts];
    forall j | j in s.calls && j != x.call ensures View(s.puts + 1, s.calls[j]) == View(s.puts, s.calls[j]) {
      assert CallOrder(cfg, s, j, s.calls[j]);
    }
  }

  lemma BumpItems(cfg: Config, s: State)
    requires Order(cfg, s) && |s.stored| == s.puts + 1
    ensures ItemsOf(s.stored[s.gets..s.puts + 1]) == ItemsOf(s.stored[s.gets..s.puts]) + [s.stored[s.puts].item]
  {
  }

  /** The event of moving m_puts past the ticket it points to. */
  lemma BumpDecides(cfg: Config, s: State)
    requires Order(cfg, s) && |s.stored| == s.puts + 1
    ensures var f := Abs(cfg, s); var e := Decide(s.stored[s.puts].call);
            Allowed(f, e) && Apply(f, e) == Abs(cfg, s.(puts := s.puts + 1))
  {
    BumpViews(cfg, s);
    BumpItems(cfg, s);
  }

  lemma PushBumpSimulates(cfg: Config, s: State, id: CallId)
    requires Order(cfg, s) && id in s.calls && s.calls[id].PushBump?
    ensures Accepts(Abs(cfg, s), EventsOf(cfg, s, Run(id)), Abs(cfg, RunCall(cfg, s, id, s.calls[id])))
  {
    hide Window, Histories, Accepts;
    var c := s.calls[id];
    var t := RunCall(cfg, s, id, c);
    assert CallOrder(cfg, s, id, c);
    AcceptsNone(Abs(cfg, s));
    var m := if s.puts == c.seen then s.(puts := s.puts + 1) else s;
    if s.puts == c.seen {
      BumpDecides(cfg, s);
      Accepts1(Abs(cfg, s), Decide(s.stored[s.puts].call));
    }
    ViewsUpdate(m.puts, s.calls, id, t.calls[id]);
    var ds := if c.won then [Return(id)] else [];
    if c.won { Accepts1(Abs(cfg, m), Return(id)); } else { assert Abs(cfg, t).calls == Abs(cfg, m).calls; }
    var es := if s.puts == c.seen then [Decide(s.stored[c.seen].call)] else [];
    AcceptsConcat(Abs(cfg, s), es, Abs(cfg, m), ds, Abs(cfg, t));
  }

  lemma PopBumpSimulates(cfg: Config, s: State, id: CallId)
    requires Order(cfg, s) && id in s.calls && s.calls[id].PopBump?
    ensures Accepts(Abs(cfg, s), [Decide(id), Return(id)], Abs(cfg, RunCall(cfg, s, id, s.calls[id])))
  {
    var f := Abs(cfg, s);
    var c := s.calls[id];
    assert CallOrder(cfg, s, id, c);
    var t := RunCall(cfg, s, id, c);
    Accepts2(f, Decide(id), Return(id));
    ViewsUpdate(s.puts, s.calls, id, t.calls[id]);
    assert f.calls[id := Decided(Pop, Popped(c.word))][id := Returned(Popped(c.word))] ==
      f.calls[id := Returned(Popped(c.word))];
    assert f.items[0] == c.word && f.items[1..] == ItemsOf(s.stored[s.gets + 1..s.puts]);
  }

  /** A step with no event leaves the abstract queue as it was. */
  lemma SilentSimulates(cfg: Config, n: nat, s: State, id: CallId)
    requires Order(cfg, s) && DistinctTags(cfg, n) && s.puts + cfg.capacity <= n
    requires Enabled(s, Run(id)) && EventsOf(cfg, s, Run(id)) == [] && !s.calls[id].PushBump?
    ensures var t := RunCall(cfg, s, id, s.calls[id]);
            t.gets == s.gets && t.puts == s.puts <= |t.stored| && Abs(cfg, t) == Abs(cfg, s)
  {
    hide Window, Laggards;
    var c := s.calls[id];
    var t := RunCall(cfg, s, id, c);
    assert CallOrder(cfg, s, id, c);
    if c.PushSwap? { StoresOnlyNext(cfg, n, s, c.seen); }
    assert t.stored[s.gets..s.puts] == s.stored[s.gets..s.puts];
    ViewsUpdate(s.puts, s.calls, id, t.calls[id]);
    assert Views(s.puts, s.calls)[id := View(s.puts, c)] == Views(s.puts, s.calls);
  }

  /** Each step of the machine performs its events on the abstract queue. */
  lemma StepSimulates(cfg: Config, n: nat, s: State, m: Move)
    requires Order(cfg, s) && DistinctTags(cfg, n) && Enabled(s, m) && Solo(cfg, n, s)
    requires Order(cfg, Step(cfg, s, m))
    ensures Accepts(Abs(cfg, s), EventsOf(cfg, s, m), Abs(cfg, Step(cfg, s, m)))
  {
    match m
    case Begin(id, op) => BeginSimulates(cfg, s, id, op);
    case Run(id) =>
      var c := s.calls[id];
      if c.PushBump? { PushBumpSimulates(cfg, s, id); }
      else if c.PopBump? { PopBumpSimulates(cfg, s, id); }
      else if EventsOf(cfg, s, m) == [] { SilentSimulates(cfg, n, s, id); }
      else { RefusalSimulates(cfg, s, id); }
  }

  lemma {:induction false} RunSimulates(cfg: Config, n: nat, s: State, ms: seq<Move>, t: State)
    requires Order(cfg, s) && DistinctTags(cfg, n) && SoloRuns(cfg, n, s, ms, t)
    ensures Order(cfg, t) && Accepts(Abs(cfg, s), RunEvents(cfg, s, ms), Abs(cfg, t))
    decreases |ms|
  {
    if ms != [] {
      var m := Step(cfg, s, ms[0]);
      StepOrder(cfg, n, s, ms[0]);
      StepSimulates(cfg, n, s, ms[0]);
      RunSimulates(cfg, n, m, ms[1..], t);
      AcceptsConcat(Abs(cfg, s), EventsOf(cfg, s, ms[0]), Abs(cfg, m), RunEvents(cfg, m, ms[1..]), Abs(cfg, t));
    }
  }

  // ---- the results ----

  /** Linearizability: every single-consumer run is a run of the sequential bounded FIFO, with the same
      calls returning the same outcomes. */
  lemma Linearizable(cfg: Config, n: nat, ms: seq<Move>, s: State)
    requires 0 < cfg.capacity && DistinctTags(cfg, n) && SoloRuns(cfg, n, Initial(cfg), ms, s)
    ensures s.gets <= s.puts <= |s.stored|
    ensures Accepts(Fifo(cfg.capacity, [], map[]), RunEvents(cfg, Initial(cfg), ms), Abs(cfg, s))
  {
    InitialOrder(cfg);
    RunSimulates(cfg, n, Initial(cfg), ms, s);
    assert Abs(cfg, Initial(cfg)) == Fifo(cfg.capacity, [], map[]);
  }

  /** Items are taken in the order they were stored, by the call that later returns them, and the counters
      tell how many: only calls in progress can make a history run ahead of its counter. */
  lemma TakenInOrder(cfg: Config, n: nat, ms: seq<Move>, s: State)
    requires 0 < cfg.capacity && DistinctTags(cfg, n) && SoloRuns(cfg, n, Initial(cfg), ms, s)
    ensures ItemsOf(s.taken) <= ItemsOf(s.stored)
    ensures s.puts <= |s.stored| <= s.puts + 1 && s.gets <= |s.taken| <= s.gets + 1
    ensures Quiescent(s) ==> |s.stored| == s.puts && |s.taken| == s.gets
  {
    InitialOrder(cfg);
    RunOrder(cfg, n, Initial(cfg), ms, s);
  }

  /** In any reachable state a slot CAS stores exactly when its ticket is the next one: m_puts has not moved
      past it and nobody has stored it. */
  lemma StaleProducersNeverStore(cfg: Config, n: nat, ms: seq<Move>, s: State, id: CallId)
    requires 0 < cfg.capacity && DistinctTags(cfg, n) && SoloRuns(cfg, n, Initial(cfg), ms, s)
    requires id in s.calls && s.calls[id].PushSwap? && Sized(cfg, s)
    ensures PushSwapStep(cfg, s, id, s.calls[id]).calls[id].won <==> s.calls[id].seen == s.puts == |s.stored|
  {
    InitialOrder(cfg);
    RunOrder(cfg, n, Initial(cfg), ms, s);
    assert CallOrder(cfg, s, id, s.calls[id]);
    StoresOnlyNext(cfg, n, s, s.calls[id].seen);
  }

  /** m_puts never moves past a ticket that was not stored, whoever moves it. */
  lemma CounterPassesStoredTickets(cfg: Config, n: nat, ms: seq<Move>, s: State, id: CallId)
    requires 0 < cfg.capacity && DistinctTags(cfg, n) && SoloRuns(cfg, n, Initial(cfg), ms, s)
    requires Sized(cfg, s) && Enabled(s, Run(id)) && Step(cfg, s, Run(id)).puts != s.puts
    ensures Step(cfg, s, Run(id)).puts == s.puts + 1 == |s.stored|
  {
    InitialOrder(cfg);
    RunOrder(cfg, n, Initial(cfg), ms, s);
    assert CallOrder(cfg, s, id, s.calls[id]);
  }
}
