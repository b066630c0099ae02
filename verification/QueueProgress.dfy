/** What a call achieves by its own steps. */
module QueueProgress {
  import opened BoundedFifo
  import opened QueueMachine
  import opened QueueLinearizability
  import QC = QueueConservation

  /** After the CAS of its counter, won or lost before, a call finds that counter past its ticket, in any run
      of any number of producers and consumers: it has moved the counter itself if nobody else had. */
  lemma CounterMovesOn(cfg: Config, ms: seq<Move>, s: State, id: CallId)
    requires 0 < cfg.capacity && Runs(cfg, Initial(cfg), ms, s) && Sized(cfg, s) && id in s.calls
    ensures s.calls[id].PushBump? ==>
      var t := Step(cfg, s, Run(id));
      s.calls[id].seen < t.puts && s.puts <= t.puts <= s.puts + 1 && (s.calls[id].seen < s.puts ==> t.puts == s.puts)
    ensures s.calls[id].PopBump? ==>
      var t := Step(cfg, s, Run(id));
      s.calls[id].seen < t.gets && s.gets <= t.gets <= s.gets + 1 && (s.calls[id].seen < s.gets ==> t.gets == s.gets)
  {
    QC.InitialInv(cfg);
    QC.RunInv(cfg, Initial(cfg), ms, s);
    assert QC.CallBounds(cfg, s, s.calls[id]);
  }

  // ---- one call runs alone ----

  /** At most k steps of call `id`, and of no other, until it returns. */
  function Alone(cfg: Config, s: State, id: CallId, k: nat): State
    requires Sized(cfg, s)
    decreases k
  {
    if k == 0 || !Enabled(s, Run(id)) then s else Alone(cfg, Step(cfg, s, Run(id)), id, k - 1)
  }

  predicate Pushing(c: Call) {
    c.PushLoad? || c.PushCheck? || c.PushSwap? || c.PushBump?
  }

  /** The invariant of single-consumer runs, with a ticket to spare for a call that has not stored its item. */
  ghost predicate Steady(cfg: Config, n: nat, s: State, c: Call) {
    Order(cfg, s) && OneConsumer(s) && DistinctTags(cfg, n) &&
    |s.stored| + (if !Pushing(c) || (c.PushBump? && c.won) then 0 else 1) + cfg.capacity <= n
  }

  /** What a push in progress will answer: true if it has stored its item, or there is room for it. */
  predicate WillStore(cfg: Config, s: State, c: Call) {
    (c.PushBump? && c.won) || |s.stored| < s.gets + cfg.capacity
  }

  /** How many more steps a push can need: two more rounds of four, and what is left of the one it is in. */
  function Needs(s: State, c: Call): nat {
    var again := if s.puts < |s.stored| then 8 else 4;
    match c
    case PushLoad(_) => again
    case PushCheck(_, p) => if p == |s.stored| then 3 else if p == s.puts then 7 else 3 + again
    case PushSwap(_, p) => if p == |s.stored| then 2 else if p == s.puts then 6 else 2 + again
    case PushBump(_, p, won) => if won then 1 else if p == s.puts then 5 else 1 + again
    case _ => 0
  }

  /** Each step of a push that runs alone brings it nearer to its return, and its answer stays decided. */
  lemma PushNears(cfg: Config, n: nat, s: State, id: CallId)
    requires Sized(cfg, s) && id in s.calls && Pushing(s.calls[id]) && Steady(cfg, n, s, s.calls[id])
    ensures var c := s.calls[id]; var t := Step(cfg, s, Run(id)); var d := t.calls[id];
            t.gets == s.gets && t.puts <= |s.stored| && Needs(t, d) < Needs(s, c) &&
            if Pushing(d) then
              d.item == c.item && (WillStore(cfg, t, d) <==> WillStore(cfg, s, c)) &&
              t.stored == if d.PushBump? && d.won then s.stored + [Transfer(id, c.item)] else s.stored
            else d == PushEnd(c.item, WillStore(cfg, s, c)) && t.stored == s.stored
  {
    var c := s.calls[id];
    assert CallOrder(cfg, s, id, c);
    if c.PushSwap? { StoresOnlyNext(cfg, n, s, c.seen); }
  }

  lemma PushSteady(cfg: Config, n: nat, s: State, id: CallId)
    requires Sized(cfg, s) && id in s.calls && Pushing(s.calls[id]) && Steady(cfg, n, s, s.calls[id])
    ensures var t := Step(cfg, s, Run(id)); Sized(cfg, t) && Steady(cfg, n, t, t.calls[id])
  {
    PushNears(cfg, n, s, id);
    hide DistinctTags, Slot;
    var t := Step(cfg, s, Run(id));
    assert OneConsumer(t);
    StepOrder(cfg, n, s, Run(id));
  }

  lemma {:induction false} PushReturns(cfg: Config, n: nat, s: State, id: CallId, k: nat)
    requires Sized(cfg, s) && id in s.calls && Pushing(s.calls[id]) && Steady(cfg, n, s, s.calls[id])
    requires Needs(s, s.calls[id]) <= k
    ensures Answered(cfg, s, id, Alone(cfg, s, id, k))
    decreases k
  {
    hide Steady;
    PushNears(cfg, n, s, id);
    PushSteady(cfg, n, s, id);
    var t := Step(cfg, s, Run(id));
    if Pushing(t.calls[id]) { PushReturns(cfg, n, t, id, k - 1); }
  }

  /** The push that was in progress in `s` has returned in `t`, and has stored its item if it was to. */
  predicate Answered(cfg: Config, s: State, id: CallId, t: State)
    requires id in s.calls && Pushing(s.calls[id])
  {
    var c := s.calls[id];
    id in t.calls && t.calls[id] == PushEnd(c.item, WillStore(cfg, s, c)) &&
    t.stored == if WillStore(cfg, s, c) && !(c.PushBump? && c.won) then s.stored + [Transfer(id, c.item)] else s.stored
  }

  // ---- a pop ----

  /** What a pop in progress will answer: the first item that m_puts has passed, or null. */
  function WillTake(s: State): Word
    requires s.puts <= |s.stored|
  {
    if s.gets < s.puts then s.stored[s.gets].item else NULL
  }

  function PopNeeds(c: Call): nat {
    match c
    case PopLoad => 5
    case PopCheck(_) => 4
    case PopRead(_) => 3
    case PopSwap(_, _) => 2
    case PopBump(_, _, _) => 1
    case _ => 0
  }

  lemma PopNears(cfg: Config, n: nat, s: State, id: CallId)
    requires Order(cfg, s) && Solo(cfg, n, s) && DistinctTags(cfg, n) && id in s.calls && Popping(s.calls[id])
    ensures var t := Step(cfg, s, Run(id)); var d := t.calls[id];
            Order(cfg, t) && Solo(cfg, n, t) && t.puts == s.puts && t.stored == s.stored &&
            PopNeeds(d) < PopNeeds(s.calls[id]) &&
            if Popping(d) then t.gets == s.gets && WillTake(t) == WillTake(s) else d == PopEnd(WillTake(s))
  {
    hide DistinctTags, Slot, Window;
    var t := Step(cfg, s, Run(id));
    assert CallOrder(cfg, s, id, s.calls[id]);
    assert OneConsumer(t);
    StepOrder(cfg, n, s, Run(id));
  }

  lemma {:induction false} PopReturns(cfg: Config, n: nat, s: State, id: CallId, k: nat)
    requires Order(cfg, s) && Solo(cfg, n, s) && DistinctTags(cfg, n) && id in s.calls && Popping(s.calls[id])
    requires Sized(cfg, s) && PopNeeds(s.calls[id]) <= k
    ensures var t := Alone(cfg, s, id, k); id in t.calls && t.calls[id] == PopEnd(WillTake(s))
    decreases k
  {
    hide Order, DistinctTags, Solo;
    PopNears(cfg, n, s, id);
    var t := Step(cfg, s, Run(id));
    if Popping(t.calls[id]) { PopReturns(cfg, n, t, id, k - 1); }
  }

  // ---- the results ----

  /** In every reachable single-consumer state, wherever the others have stopped, a push that runs alone
      returns within 11 of its own steps. It returns true, and has stored its item, exactly if it had stored it
      before or fewer items than the capacity are stored and not passed by m_gets. */
  lemma PushProgress(cfg: Config, n: nat, ms: seq<Move>, s: State, id: CallId)
    requires 0 < cfg.capacity && DistinctTags(cfg, n) && SoloRuns(cfg, n, Initial(cfg), ms, s) && Sized(cfg, s)
    requires s.puts + 2 + cfg.capacity <= n && id in s.calls && Pushing(s.calls[id])
    ensures Answered(cfg, s, id, Alone(cfg, s, id, 11))
  {
    InitialOrder(cfg);
    RunOrder(cfg, n, Initial(cfg), ms, s);
    assert CallOrder(cfg, s, id, s.calls[id]);
    PushReturns(cfg, n, s, id, 11);
  }

  /** A new push: 9 steps with its first one, whatever it meets. */
  lemma NewPushProgress(cfg: Config, n: nat, ms: seq<Move>, s: State, id: CallId, w: Word)
    requires 0 < cfg.capacity && DistinctTags(cfg, n) && SoloRuns(cfg, n, Initial(cfg), ms, s) && Sized(cfg, s)
    requires s.puts + 2 + cfg.capacity <= n && id !in s.calls
    ensures var t := Alone(cfg, Step(cfg, s, Begin(id, Push(w))), id, 8);
            var ok := !Vacant(w) && |s.stored| < s.gets + cfg.capacity;
            id in t.calls && t.calls[id] == PushEnd(w, ok) &&
            t.stored == if ok then s.stored + [Transfer(id, w)] else s.stored
  {
    InitialOrder(cfg);
    RunOrder(cfg, n, Initial(cfg), ms, s);
    var t := Step(cfg, s, Begin(id, Push(w)));
    if !Vacant(w) {
      BeginOrder(cfg, s, id, Push(w)) by { assert OneConsumer(t); }
      PushReturns(cfg, n, t, id, 8);
    }
  }

  /** A pop that runs alone returns within 5 of its own steps, and returns null exactly if m_gets has caught up
      with m_puts; else the next item in the order of storing. */
  lemma PopProgress(cfg: Config, n: nat, ms: seq<Move>, s: State, id: CallId)
    requires 0 < cfg.capacity && DistinctTags(cfg, n) && SoloRuns(cfg, n, Initial(cfg), ms, s) && Sized(cfg, s)
    requires id in s.calls && Popping(s.calls[id])
    ensures s.puts <= |s.stored|
    ensures var t := Alone(cfg, s, id, 5); id in t.calls && t.calls[id] == PopEnd(WillTake(s))
  {
    InitialOrder(cfg);
    RunOrder(cfg, n, Initial(cfg), ms, s);
    PopReturns(cfg, n, s, id, 5);
  }

  /** A new pop, when no other is in progress. */
  lemma NewPopProgress(cfg: Config, n: nat, ms: seq<Move>, s: State, id: CallId)
    requires 0 < cfg.capacity && DistinctTags(cfg, n) && SoloRuns(cfg, n, Initial(cfg), ms, s) && Sized(cfg, s)
    requires id !in s.calls && forall j :: j in s.calls ==> !Popping(s.calls[j])
    ensures s.puts <= |s.stored|
    ensures var t := Alone(cfg, Step(cfg, s, Begin(id, Pop)), id, 5);
            id in t.calls && t.calls[id] == PopEnd(WillTake(s))
  {
    InitialOrder(cfg);
    RunOrder(cfg, n, Initial(cfg), ms, s);
    var t := Step(cfg, s, Begin(id, Pop));
    BeginOrder(cfg, s, id, Pop) by { assert OneConsumer(t); }
    PopReturns(cfg, n, t, id, 5);
  }
}
