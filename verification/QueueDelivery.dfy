/** The order of delivery with any number of consumers. */
module QueueDelivery {
  // Whatever the tags are, items leave in the order they were stored, in every run, if and only if the queue has
  // a single slot.

  import opened BoundedFifo
  import opened QueueMachine

  /** In every run, items leave in the order they were stored. */
  ghost predicate InOrder(cfg: Config)
    requires 0 < cfg.capacity
  {
    forall ms, s :: Runs(cfg, Initial(cfg), ms, s) ==> ItemsOf(s.taken) <= ItemsOf(s.stored)
  }

  // ---- one slot: in order ----

  /** The one slot holds the item that was stored and not taken, if there is one. */
  ghost predicate OneSlot(cfg: Config, s: State) {
    cfg.capacity == 1 && Sized(cfg, s) && |s.slots| == 1 &&
    ItemsOf(s.stored) == ItemsOf(s.taken) + (if Vacant(s.slots[0]) then [] else [s.slots[0]]) &&
    forall id :: id in s.calls ==> CarriesItem(s.calls[id])
  }

  ghost predicate CarriesItem(c: Call) {
    (c.PushLoad? || c.PushCheck? || c.PushSwap? || c.PushBump?) ==> !Vacant(c.item)
  }

  lemma OneSlotStep(cfg: Config, s: State, m: Move)
    requires OneSlot(cfg, s) && Enabled(s, m)
    ensures OneSlot(cfg, Step(cfg, s, m))
  {
    var t := Step(cfg, s, m);
    var c := t.calls[m.id];
    assert t.calls == s.calls[m.id := c] && CarriesItem(c);
    if t.stored != s.stored {
      assert ItemsOf(t.stored) == ItemsOf(s.stored) + [c.item];
    } else if t.taken != s.taken {
      assert ItemsOf(t.taken) == ItemsOf(s.taken) + [s.slots[0]];
    }
  }

  lemma {:induction false} OneSlotRun(cfg: Config, s: State, ms: seq<Move>, t: State)
    requires OneSlot(cfg, s) && Runs(cfg, s, ms, t)
    ensures OneSlot(cfg, t)
    decreases |ms|
  {
    if ms != [] {
      OneSlotStep(cfg, s, ms[0]);
      OneSlotRun(cfg, Step(cfg, s, ms[0]), ms[1..], t);
    }
  }

  // ---- two consumers and two slots: out of order ----

  lemma {:induction false} RunsMore(cfg: Config, s: State, ms: seq<Move>, t: State, ms': seq<Move>, u: State)
    requires Sized(cfg, s) && Sized(cfg, t) && Runs(cfg, s, ms, t) && Runs(cfg, t, ms', u)
    ensures Runs(cfg, s, ms + ms', u)
    decreases |ms|
  {
    if ms == [] {
      assert ms + ms' == ms';
    } else {
      RunsMore(cfg, Step(cfg, s, ms[0]), ms[1..], t, ms', u);
      assert (ms + ms')[0] == ms[0] && (ms + ms')[1..] == ms[1..] + ms';
    }
  }

  lemma Then(cfg: Config, s: State, ms: seq<Move>, t: State, m: Move, u: State)
    requires Sized(cfg, s) && Sized(cfg, t) && Runs(cfg, s, ms, t) && Enabled(t, m) && Step(cfg, t, m) == u
    ensures Runs(cfg, s, ms + [m], u)
  {
    assert [m][1..] == [];
    assert Runs(cfg, u, [m][1..], u);
    RunsMore(cfg, s, ms, t, [m], u);
  }

  function AfterPush(s: State, id: CallId, w: Word, k: nat): State
    requires k < |s.slots|
  {
    State(s.slots[k := w], s.puts + 1, s.gets, s.calls[id := PushEnd(w, true)], s.stored + [Transfer(id, w)], s.taken)
  }

  /** A push that nobody disturbs. */
  lemma QuickPush(cfg: Config, s: State, id: CallId, w: Word) returns (ms: seq<Move>)
    requires Sized(cfg, s) && id !in s.calls && !Vacant(w) && s.puts - s.gets < cfg.capacity
    requires s.slots[Slot(s.puts, cfg.capacity)] == Tag(cfg, s.puts)
    ensures Runs(cfg, s, ms, AfterPush(s, id, w, Slot(s.puts, cfg.capacity)))
  {
    var p := s.puts;
    var s1 := SetCall(s, id, PushLoad(w));
    var s2 := SetCall(s, id, PushCheck(w, p));
    var s3 := SetCall(s, id, PushSwap(w, p));
    var t := AfterPush(s, id, w, Slot(p, cfg.capacity));
    var s4 := t.(puts := p, calls := s.calls[id := PushBump(w, p, true)]);
    assert SetCall(s1, id, PushCheck(w, p)) == s2 && SetCall(s2, id, PushSwap(w, p)) == s3;
    assert s3.calls[id := PushBump(w, p, true)] == s4.calls && s4.calls[id := PushEnd(w, true)] == t.calls;
    Then(cfg, s, [], s, Begin(id, Push(w)), s1); ms := [] + [Begin(id, Push(w))];
    Then(cfg, s, ms, s1, Run(id), s2); ms := ms + [Run(id)];
    Then(cfg, s, ms, s2, Run(id), s3); ms := ms + [Run(id)];
    Then(cfg, s, ms, s3, Run(id), s4); ms := ms + [Run(id)];
    Then(cfg, s, ms, s4, Run(id), t); ms := ms + [Run(id)];
  }

  /** A pop up to its read of the slot. */
  lemma PopUpToRead(cfg: Config, s: State, id: CallId) returns (ms: seq<Move>)
    requires Sized(cfg, s) && id !in s.calls && s.gets < s.puts
    ensures Runs(cfg, s, ms, SetCall(s, id, PopRead(s.gets)))
  {
    var g := s.gets;
    var s1 := SetCall(s, id, PopLoad);
    var s2 := SetCall(s, id, PopCheck(g));
    var s3 := SetCall(s, id, PopRead(g));
    assert SetCall(s1, id, PopCheck(g)) == s2 && SetCall(s2, id, PopRead(g)) == s3;
    Then(cfg, s, [], s, Begin(id, Pop), s1); ms := [] + [Begin(id, Pop)];
    Then(cfg, s, ms, s1, Run(id), s2); ms := ms + [Run(id)];
    Then(cfg, s, ms, s2, Run(id), s3); ms := ms + [Run(id)];
  }

  function AfterTake(cfg: Config, s: State, id: CallId, g: nat): State
    requires Sized(cfg, s)
  {
    var k := Slot(g, cfg.capacity);
    State(s.slots[k := Tag(cfg, g + cfg.capacity)], s.puts, if s.gets == g then g + 1 else s.gets,
          s.calls[id := PopEnd(s.slots[k])], s.stored, s.taken + [Transfer(id, s.slots[k])])
  }

  /** The rest of a pop, undisturbed, when the slot it goes for holds an item. */
  lemma PopFromRead(cfg: Config, s: State, id: CallId, g: nat) returns (ms: seq<Move>)
    requires Sized(cfg, s) && id in s.calls && s.calls[id] == PopRead(g) && !Vacant(s.slots[Slot(g, cfg.capacity)])
    ensures Runs(cfg, s, ms, AfterTake(cfg, s, id, g))
  {
    var w := s.slots[Slot(g, cfg.capacity)];
    var t := AfterTake(cfg, s, id, g);
    var s1 := SetCall(s, id, PopSwap(g, w));
    var s2 := t.(gets := s.gets, calls := s.calls[id := PopBump(g, w, true)]);
    assert s1.calls[id := PopBump(g, w, true)] == s2.calls && s2.calls[id := PopEnd(w)] == t.calls;
    Then(cfg, s, [], s, Run(id), s1); ms := [] + [Run(id)];
    Then(cfg, s, ms, s1, Run(id), s2); ms := ms + [Run(id)];
    Then(cfg, s, ms, s2, Run(id), t); ms := ms + [Run(id)];
  }

  /** The first k tickets are stored, as 2, 4, 6 and so on, and nothing else has happened. */
  ghost predicate Filled(cfg: Config, s: State, k: nat) {
    k <= cfg.capacity && Sized(cfg, s) && s.puts == k == |s.stored| && s.gets == 0 && s.taken == [] &&
    (forall i :: 0 <= i < cfg.capacity ==> s.slots[i] == if i < k then 2 * i + 2 else Tag(cfg, i)) &&
    (forall i :: 0 <= i < k ==> s.stored[i] == Transfer(i, 2 * i + 2)) &&
    (forall id :: id in s.calls ==> id < k && s.calls[id].PushEnd?)
  }

  lemma {:induction false} FillUp(cfg: Config, k: nat) returns (ms: seq<Move>, s: State)
    requires 0 < cfg.capacity && k <= cfg.capacity
    ensures Runs(cfg, Initial(cfg), ms, s) && Filled(cfg, s, k)
  {
    if k == 0 {
      ms, s := [], Initial(cfg);
    } else {
      var ms1, s1 := FillUp(cfg, k - 1);
      var w := 2 * (k - 1) + 2;
      var ms2 := QuickPush(cfg, s1, k - 1, w);
      s := AfterPush(s1, k - 1, w, Slot(k - 1, cfg.capacity));
      RunsMore(cfg, Initial(cfg), ms1, s1, ms2, s);
      ms := ms1 + ms2;
    }
  }

  /** From the full queue, consumer A stops before its slot read, and consumer B takes the first item. */
  lemma Overtake(cfg: Config, s: State, a: CallId, b: CallId) returns (ms: seq<Move>, t: State)
    requires 0 < cfg.capacity && Filled(cfg, s, cfg.capacity) && a == cfg.capacity && b == cfg.capacity + 1
    ensures Runs(cfg, s, ms, t)
    ensures t == AfterTake(cfg, SetCall(SetCall(s, a, PopRead(0)), b, PopRead(0)), b, 0)
  {
    var s1 := SetCall(s, a, PopRead(0));
    var s2 := SetCall(s1, b, PopRead(0));
    t := AfterTake(cfg, s2, b, 0);
    var m1 := PopUpToRead(cfg, s, a);
    var m2 := PopUpToRead(cfg, s1, b);
    var m3 := PopFromRead(cfg, s2, b, 0);
    RunsMore(cfg, s, m1, s1, m2, s2);
    RunsMore(cfg, s, m1 + m2, s2, m3, t);
    ms := m1 + m2 + m3;
  }

  /** Two consumers and any capacity above one, whatever the tags are: the item that refills the first
      slot is delivered before the second item. A consumer that stopped before its slot read takes it. */
  lemma TwoConsumersReorder(cfg: Config) returns (ms: seq<Move>, s: State)
    requires 2 <= cfg.capacity
    ensures Runs(cfg, Initial(cfg), ms, s) && Quiescent(s)
    ensures ItemsOf(s.taken) == [2, 2 * cfg.capacity + 2] && |s.stored| == cfg.capacity + 1 && s.stored[1].item == 4
  {
    hide Runs, Step;
    var c, s0 := cfg.capacity, Initial(cfg);
    var m1, s1 := FillUp(cfg, c);
    var m2, s2 := Overtake(cfg, s1, c, c + 1);
    RunsMore(cfg, s0, m1, s1, m2, s2);
    var m3;
    m3, s := Refill(cfg, s1, s2);
    RunsMore(cfg, s0, m1 + m2, s2, m3, s);
    ms := m1 + m2 + m3;
  }

  /** The freed slot is filled again, and consumer A, which is still to read it, takes the new item. */
  lemma Refill(cfg: Config, s1: State, s2: State) returns (ms: seq<Move>, s: State)
    requires 2 <= cfg.capacity && Filled(cfg, s1, cfg.capacity)
    requires var c := cfg.capacity;
             s2 == AfterTake(cfg, SetCall(SetCall(s1, c, PopRead(0)), c + 1, PopRead(0)), c + 1, 0)
    ensures Runs(cfg, s2, ms, s) && Quiescent(s)
    ensures ItemsOf(s.taken) == [2, 2 * cfg.capacity + 2] && |s.stored| == cfg.capacity + 1 && s.stored[1].item == 4
  {
    hide Runs, Step;
    var c := cfg.capacity;
    assert Slot(c, c) == 0;
    var w := 2 * c + 2;
    var m1 := QuickPush(cfg, s2, c + 2, w);
    var s3 := AfterPush(s2, c + 2, w, 0);
    var m2 := PopFromRead(cfg, s3, c, 0);
    s := AfterTake(cfg, s3, c, 0);
    RunsMore(cfg, s2, m1, s3, m2, s);
    ms := m1 + m2;
    assert s.taken == [Transfer(c + 1, 2), Transfer(c, w)];
  }

  /** Delivery is in order in every run exactly if the queue has one slot. */
  lemma InOrderIffOneSlot(cfg: Config)
    requires 0 < cfg.capacity
    ensures InOrder(cfg) <==> cfg.capacity == 1
  {
    if cfg.capacity == 1 {
      forall ms, s | Runs(cfg, Initial(cfg), ms, s) ensures ItemsOf(s.taken) <= ItemsOf(s.stored) {
        OneSlotRun(cfg, Initial(cfg), ms, s);
      }
    } else {
      var ms, s := TwoConsumersReorder(cfg);
      assert ItemsOf(s.taken)[1] != ItemsOf(s.stored)[1];
    }
  }
}
