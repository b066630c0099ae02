/** What callers of the lock-free queue see. */
module QueueHistories {
  // A history tells which call began and what each one returned, in order. Single-consumer runs over the first n
  // tickets look like a bounded FIFO to their callers if and only if the tags of those tickets are distinct slot
  // by slot.

  import opened BoundedFifo
  import opened QueueMachine
  import opened QueueConservation
  import opened QueueLinearizability
  import opened QueueLimits

  datatype Happening = Called(id: CallId, op: Op) | Came(id: CallId, outcome: Outcome)

  // ---- the history of a run of the machine ----

  predicate Ended(c: Call) {
    c.PushEnd? || c.PopEnd?
  }

  function Result(c: Call): Outcome
    requires Ended(c)
  {
    if c.PushEnd? then Pushed(c.ok) else Popped(c.item)
  }

  /** What callers see of one step: a call that begins, a call that returns. */
  function Happenings(cfg: Config, s: State, m: Move): seq<Happening>
    requires Sized(cfg, s) && Enabled(s, m)
  {
    var c := Step(cfg, s, m).calls[m.id];
    (if m.Begin? then [Called(m.id, m.op)] else []) + (if Ended(c) then [Came(m.id, Result(c))] else [])
  }

  function History(cfg: Config, s: State, ms: seq<Move>): seq<Happening>
    requires Sized(cfg, s)
    decreases |ms|
  {
    if ms == [] || !Enabled(s, ms[0]) then []
    else Happenings(cfg, s, ms[0]) + History(cfg, Step(cfg, s, ms[0]), ms[1..])
  }

  // ---- the history of a run of the sequential queue ----

  function SeenOf(f: Fifo, e: Event): seq<Happening>
    requires Allowed(f, e)
  {
    match e
    case Invoke(id, op) => [Called(id, op)]
    case Decide(_) => []
    case Return(id) => [Came(id, f.calls[id].outcome)]
  }

  function Seen(f: Fifo, es: seq<Event>): seq<Happening>
    decreases |es|
  {
    if es == [] || !Allowed(f, es[0]) then [] else SeenOf(f, es[0]) + Seen(Apply(f, es[0]), es[1..])
  }

  function Empty(cfg: Config): Fifo {
    Fifo(cfg.capacity, [], map[])
  }

  /** Some run of the bounded FIFO looks like this: linearizability. */
  ghost predicate Explained(cfg: Config, h: seq<Happening>) {
    exists es, g :: Accepts(Empty(cfg), es, g) && Seen(Empty(cfg), es) == h
  }

  // ---- with distinct tags every history is explained ----

  lemma {:induction false} SeenConcat(f: Fifo, es: seq<Event>, g: Fifo, ds: seq<Event>)
    requires Accepts(f, es, g)
    ensures Seen(f, es + ds) == Seen(f, es) + Seen(g, ds)
    decreases |es|
  {
    if es == [] {
      assert es + ds == ds;
    } else {
      SeenConcat(Apply(f, es[0]), es[1..], g, ds);
      assert (es + ds)[0] == es[0] && (es + ds)[1..] == es[1..] + ds;
    }
  }

  /** A call that returns last returns what the end state says. */
  lemma SeenReturn(f: Fifo, es: seq<Event>, id: CallId, g: Fifo)
    requires Accepts(f, es + [Return(id)], g)
    ensures id in g.calls && g.calls[id].Returned?
    ensures Seen(f, es + [Return(id)]) == Seen(f, es) + [Came(id, g.calls[id].outcome)]
    decreases |es|
  {
    var all := es + [Return(id)];
    if es == [] {
      assert all[1..] == [];
    } else {
      assert all[0] == es[0] && all[1..] == es[1..] + [Return(id)];
      SeenReturn(Apply(f, es[0]), es[1..], id, g);
    }
  }

  lemma SeenDecide(f: Fifo, id: CallId)
    ensures Seen(f, [Decide(id)]) == []
  {
    assert [Decide(id)][1..] == [];
  }

  lemma SeenInvoke(f: Fifo, id: CallId, op: Op)
    requires id !in f.calls
    ensures Seen(f, [Invoke(id, op)]) == [Called(id, op)] && Seen(f, [Invoke(id, op), Decide(id)]) == [Called(id, op)]
  {
    assert [Invoke(id, op)][1..] == [];
    assert [Invoke(id, op), Decide(id)][1..] == [Decide(id)];
    SeenDecide(Apply(f, Invoke(id, op)), id);
  }

  /** How the events of a step end: with the return of the call that moved, if it has ended. */
  lemma EventsEnd(cfg: Config, s: State, id: CallId)
    requires Order(cfg, s) && Enabled(s, Run(id))
    ensures var c, es := RunCall(cfg, s, id, s.calls[id]).calls[id], EventsOf(cfg, s, Run(id));
            if Ended(c) then es == [Return(id)] || exists j :: es == [Decide(j)] + [Return(id)]
            else es == [] || exists j :: es == [Decide(j)]
  {
    hide Window, Laggards, Counts;
    assert CallOrder(cfg, s, id, s.calls[id]);
    var es := EventsOf(cfg, s, Run(id));
    if |es| == 2 {
      assert es == [Decide(es[0].id)] + [Return(id)];
    } else if |es| == 1 {
      assert es == [if es[0].Decide? then Decide(es[0].id) else Return(id)];
    }
  }

  /** The returned outcome is the one the machine's call has. */
  lemma AbsOutcome(cfg: Config, s: State, id: CallId)
    requires s.gets <= s.puts <= |s.stored| && id in s.calls && Ended(s.calls[id])
    ensures id in Abs(cfg, s).calls && Abs(cfg, s).calls[id] == Returned(Result(s.calls[id]))
  {
  }

  lemma BeginSeen(cfg: Config, s: State, id: CallId, op: Op)
    requires Order(cfg, s) && id !in s.calls && Order(cfg, SetCall(s, id, BeginCall(op)))
    requires Accepts(Abs(cfg, s), EventsOf(cfg, s, Begin(id, op)), Abs(cfg, SetCall(s, id, BeginCall(op))))
    ensures Seen(Abs(cfg, s), EventsOf(cfg, s, Begin(id, op))) == Happenings(cfg, s, Begin(id, op))
  {
    hide Window, Laggards, Histories, CallsOrder, Accepts, Seen;
    var f, t := Abs(cfg, s), SetCall(s, id, BeginCall(op));
    SeenInvoke(f, id, op);
    if op.Push? && Vacant(op.item) {
      var es := [Invoke(id, op), Decide(id)];
      assert EventsOf(cfg, s, Begin(id, op)) == es + [Return(id)];
      SeenReturn(f, es, id, Abs(cfg, t));
      AbsOutcome(cfg, t, id);
    }
  }

  /** The events that explain a step look like the step. */
  lemma StepSeen(cfg: Config, s: State, m: Move)
    requires Order(cfg, s) && Enabled(s, m) && Order(cfg, Step(cfg, s, m))
    requires Accepts(Abs(cfg, s), EventsOf(cfg, s, m), Abs(cfg, Step(cfg, s, m)))
    ensures Seen(Abs(cfg, s), EventsOf(cfg, s, m)) == Happenings(cfg, s, m)
  {
    match m
    case Begin(id, op) => BeginSeen(cfg, s, id, op);
    case Run(id) => RunStepSeen(cfg, s, id, Step(cfg, s, m));
  }

  lemma RunStepSeen(cfg: Config, s: State, id: CallId, t: State)
    requires Order(cfg, s) && Enabled(s, Run(id)) && Order(cfg, t) && t == Step(cfg, s, Run(id)) && id in t.calls
    requires Accepts(Abs(cfg, s), EventsOf(cfg, s, Run(id)), Abs(cfg, t))
    ensures Seen(Abs(cfg, s), EventsOf(cfg, s, Run(id))) == Happenings(cfg, s, Run(id))
  {
    hide Window, Laggards, Histories, CallsOrder, Accepts, Seen, EventsOf, RunCall;
    EventsEnd(cfg, s, id);
    var f, es := Abs(cfg, s), EventsOf(cfg, s, Run(id));
    SeenNothing(f);
    if Ended(t.calls[id]) {
      var before := es[..|es| - 1];
      assert es == before + [Return(id)];
      if before != [] {
        var j :| es == [Decide(j)] + [Return(id)];
        assert before == [Decide(j)];
        SeenDecide(f, j);
      }
      SeenReturn(f, before, id, Abs(cfg, t));
      AbsOutcome(cfg, t, id);
    } else if es != [] {
      var j :| es == [Decide(j)];
      SeenDecide(f, j);
    }
  }

  lemma SeenNothing(f: Fifo)
    ensures Seen(f, []) == []
  {
  }

  lemma {:induction false} RunSeen(cfg: Config, n: nat, s: State, ms: seq<Move>, t: State)
    requires Order(cfg, s) && DistinctTags(cfg, n) && SoloRuns(cfg, n, s, ms, t)
    ensures Seen(Abs(cfg, s), RunEvents(cfg, s, ms)) == History(cfg, s, ms)
    decreases |ms|
  {
    if ms != [] {
      var m := Step(cfg, s, ms[0]);
      StepOrder(cfg, n, s, ms[0]);
      StepSimulates(cfg, n, s, ms[0]);
      StepSeen(cfg, s, ms[0]);
      RunSeen(cfg, n, m, ms[1..], t);
      SeenConcat(Abs(cfg, s), EventsOf(cfg, s, ms[0]), Abs(cfg, m), RunEvents(cfg, m, ms[1..]));
    }
  }

  // ---- what a history tells of the calls ----

  /** The calls that a history shows to have begun, and the results it shows, on top of those known. */
  function Begun(ids: set<CallId>, h: seq<Happening>): set<CallId>
    decreases |h|
  {
    if h == [] then ids else Begun(if h[0].Called? then ids + {h[0].id} else ids, h[1..])
  }

  function Results(rs: map<CallId, Outcome>, h: seq<Happening>): map<CallId, Outcome>
    decreases |h|
  {
    if h == [] then rs else Results(if h[0].Came? then rs[h[0].id := h[0].outcome] else rs, h[1..])
  }

  lemma {:induction false} FoldConcat(ids: set<CallId>, rs: map<CallId, Outcome>, h: seq<Happening>, k: seq<Happening>)
    ensures Begun(ids, h + k) == Begun(Begun(ids, h), k) && Results(rs, h + k) == Results(Results(rs, h), k)
    decreases |h|
  {
    if h == [] {
      assert h + k == k;
    } else {
      FoldConcat(if h[0].Called? then ids + {h[0].id} else ids, if h[0].Came? then rs[h[0].id := h[0].outcome] else rs,
        h[1..], k);
      assert (h + k)[0] == h[0] && (h + k)[1..] == h[1..] + k;
    }
  }

  function ResultsOf(calls: map<CallId, Call>): map<CallId, Outcome> {
    map id | id in calls && Ended(calls[id]) :: Result(calls[id])
  }

  function ReturnsOf(calls: map<CallId, Status>): map<CallId, Outcome> {
    map id | id in calls && calls[id].Returned? :: calls[id].outcome
  }

  lemma StepTells(cfg: Config, s: State, m: Move)
    requires Sized(cfg, s) && Enabled(s, m)
    ensures var h, t := Happenings(cfg, s, m), Step(cfg, s, m);
            Begun(s.calls.Keys, h) == t.calls.Keys && Results(ResultsOf(s.calls), h) == ResultsOf(t.calls)
  {
    var h, t := Happenings(cfg, s, m), Step(cfg, s, m);
    var c := t.calls[m.id];
    assert t.calls == s.calls[m.id := c];
    var first := if m.Begin? then [Called(m.id, m.op)] else [];
    var second := if Ended(c) then [Came(m.id, Result(c))] else [];
    FoldConcat(s.calls.Keys, ResultsOf(s.calls), first, second);
    assert first != [] ==> first[1..] == [];
    assert second != [] ==> second[1..] == [];
    assert ResultsOf(t.calls) == if Ended(c) then ResultsOf(s.calls)[m.id := Result(c)] else ResultsOf(s.calls);
  }

  lemma {:induction false} RunTells(cfg: Config, s: State, ms: seq<Move>, t: State)
    requires Sized(cfg, s) && Runs(cfg, s, ms, t)
    ensures Begun(s.calls.Keys, History(cfg, s, ms)) == t.calls.Keys
    ensures Results(ResultsOf(s.calls), History(cfg, s, ms)) == ResultsOf(t.calls)
    decreases |ms|
  {
    if ms != [] {
      var m := Step(cfg, s, ms[0]);
      StepTells(cfg, s, ms[0]);
      RunTells(cfg, m, ms[1..], t);
      FoldConcat(s.calls.Keys, ResultsOf(s.calls), Happenings(cfg, s, ms[0]), History(cfg, m, ms[1..]));
    }
  }

  lemma EventTells(f: Fifo, e: Event)
    requires Allowed(f, e)
    ensures Begun(f.calls.Keys, SeenOf(f, e)) == Apply(f, e).calls.Keys
    ensures Results(ReturnsOf(f.calls), SeenOf(f, e)) == ReturnsOf(Apply(f, e).calls)
  {
    var h := SeenOf(f, e);
    assert h != [] ==> h[1..] == [];
    var rs := ReturnsOf(Apply(f, e).calls);
    assert rs == if e.Return? then ReturnsOf(f.calls)[e.id := f.calls[e.id].outcome] else ReturnsOf(f.calls);
  }

  lemma {:induction false} EventsTell(f: Fifo, es: seq<Event>, g: Fifo)
    requires Accepts(f, es, g)
    ensures Begun(f.calls.Keys, Seen(f, es)) == g.calls.Keys &&
      Results(ReturnsOf(f.calls), Seen(f, es)) == ReturnsOf(g.calls)
    decreases |es|
  {
    if es != [] {
      var m := Apply(f, es[0]);
      EventTells(f, es[0]);
      EventsTell(m, es[1..], g);
      FoldConcat(f.calls.Keys, ReturnsOf(f.calls), SeenOf(f, es[0]), Seen(m, es[1..]));
    }
  }

  // ---- how many items the results account for ----

  ghost function Ins(rs: map<CallId, Outcome>): set<CallId> {
    set id | id in rs && rs[id] == Pushed(true)
  }

  ghost function Outs(rs: map<CallId, Outcome>): set<CallId> {
    set id | id in rs && rs[id].Popped? && rs[id].item != NULL
  }

  /** The results of all calls that have had their effect. */
  function EffectsOf(calls: map<CallId, Status>): map<CallId, Outcome> {
    map id | id in calls && !calls[id].Pending? :: calls[id].outcome
  }

  /** Items are the pushes that succeeded without the pops that got one; none of them is null. */
  ghost predicate Tallied(f: Fifo) {
    |f.items| == |Ins(EffectsOf(f.calls))| - |Outs(EffectsOf(f.calls))| && forall k :: 0 <= k < |f.items| ==>
      !Vacant(f.items[k])
  }

  lemma OneMoreIn(rs: map<CallId, Outcome>, id: CallId, o: Outcome)
    requires id !in rs
    ensures |Ins(rs[id := o])| == |Ins(rs)| + (if o == Pushed(true) then 1 else 0)
  {
    if o == Pushed(true) {
      assert Ins(rs[id := o]) == Ins(rs) + {id};
    } else {
      assert Ins(rs[id := o]) == Ins(rs);
    }
  }

  lemma OneMoreOut(rs: map<CallId, Outcome>, id: CallId, o: Outcome)
    requires id !in rs
    ensures |Outs(rs[id := o])| == |Outs(rs)| + (if o.Popped? && o.item != NULL then 1 else 0)
  {
    if o.Popped? && o.item != NULL {
      assert Outs(rs[id := o]) == Outs(rs) + {id};
    } else {
      assert Outs(rs[id := o]) == Outs(rs);
    }
  }

  lemma EventTallies(f: Fifo, e: Event)
    requires Allowed(f, e) && Tallied(f)
    ensures Tallied(Apply(f, e))
  {
    var g := Apply(f, e);
    if e.Decide? {
      var o := Outcome1(f.capacity, f.items, f.calls[e.id].op);
      assert EffectsOf(g.calls) == EffectsOf(f.calls)[e.id := o];
      OneMoreIn(EffectsOf(f.calls), e.id, o);
      OneMoreOut(EffectsOf(f.calls), e.id, o);
    } else {
      assert EffectsOf(g.calls) == EffectsOf(f.calls);
    }
  }

  lemma {:induction false} EventsTally(f: Fifo, es: seq<Event>, g: Fifo)
    requires Accepts(f, es, g) && Tallied(f)
    ensures Tallied(g)
    decreases |es|
  {
    if es != [] {
      EventTallies(f, es[0]);
      EventsTally(Apply(f, es[0]), es[1..], g);
    }
  }

  /** A ledger has one entry for each call it lists. */
  lemma {:induction false} LedgerSize(ts: seq<Transfer>, ids: set<CallId>)
    requires forall k :: 0 <= k < |ts| ==> ts[k].call in ids
    requires forall j, k :: 0 <= j < k < |ts| ==> ts[j].call != ts[k].call
    requires forall id :: id in ids ==> exists k :: 0 <= k < |ts| && ts[k].call == id
    ensures |ts| == |ids|
  {
    if ts == [] {
      assert ids == {};
    } else {
      var last := |ts| - 1;
      forall id | id in ids - {ts[last].call} ensures exists k :: 0 <= k < last && ts[..last][k].call == id {
        var k :| 0 <= k < |ts| && ts[k].call == id;
        assert ts[..last][k].call == id;
      }
      LedgerSize(ts[..last], ids - {ts[last].call});
    }
  }

  lemma LedgerCounts(ts: seq<Transfer>, calls: map<CallId, Call>, what: Call -> Word, ids: set<CallId>)
    requires Ledger(ts, calls, what)
    requires forall id :: id in ids <==> id in calls && what(calls[id]) != NULL
    ensures |ts| == |ids|
  {
    forall id | id in ids ensures exists k :: 0 <= k < |ts| && ts[k].call == id {
      assert Transfer(id, what(calls[id])) in ts;
    }
    LedgerSize(ts, ids);
  }

  /** When nothing is in progress, the results account for what was stored and taken. */
  lemma HistoriesCounted(cfg: Config, ms: seq<Move>, s: State)
    requires 0 < cfg.capacity && Runs(cfg, Initial(cfg), ms, s) && Quiescent(s)
    ensures |s.stored| == |Ins(ResultsOf(s.calls))| && |s.taken| == |Outs(ResultsOf(s.calls))|
  {
    InitialInv(cfg);
    RunInv(cfg, Initial(cfg), ms, s);
    forall id | id in s.calls ensures Ended(s.calls[id]) && CallBounds(cfg, s, s.calls[id]) {
    }
    LedgerCounts(s.stored, s.calls, Gave, Ins(ResultsOf(s.calls)));
    LedgerCounts(s.taken, s.calls, Got, Outs(ResultsOf(s.calls)));
  }

  // ---- a clash of tags: a pop finds nothing though more was pushed than popped ----

  lemma SeenHead(f: Fifo, es: seq<Event>, h: seq<Happening>)
    requires es != [] && Allowed(f, es[0]) && Seen(f, es) == h
    ensures |SeenOf(f, es[0])| <= 1 && |SeenOf(f, es[0])| <= |h| && SeenOf(f, es[0]) == h[..|SeenOf(f, es[0])|]
    ensures Seen(Apply(f, es[0]), es[1..]) == h[|SeenOf(f, es[0])|..]
  {
    assert h == SeenOf(f, es[0]) + Seen(Apply(f, es[0]), es[1..]);
  }

  lemma {:induction false} SeenSplit(f: Fifo, es: seq<Event>, g: Fifo, h: seq<Happening>, k: seq<Happening>)
    returns (i: nat, m: Fifo)
    requires Accepts(f, es, g) && Seen(f, es) == h + k
    ensures i <= |es| && Accepts(f, es[..i], m) && Accepts(m, es[i..], g) && Seen(f, es[..i]) == h &&
      Seen(m, es[i..]) == k
    decreases |es|
  {
    if h == [] {
      i, m := 0, f;
      assert es[..0] == [] && es[0..] == es && h + k == k;
    } else {
      var f1 := Apply(f, es[0]);
      var a := SeenOf(f, es[0]);
      SeenHead(f, es, h + k);
      assert (h + k)[|a|..] == h[|a|..] + k;
      i, m := SeenSplit(f1, es[1..], g, h[|a|..], k);
      assert es[..i + 1][0] == es[0] && es[..i + 1][1..] == es[1..][..i] && es[1..][i..] == es[i + 1..];
      assert Seen(f, es[..i + 1]) == a + h[|a|..] == h;
      i := i + 1;
    }
  }

  /** With all calls returned and an item inside, the bounded FIFO answers a pop with that item. */
  lemma PopGetsFirst(f: Fifo, es: seq<Event>, g: Fifo, id: CallId, o: Outcome)
    requires Accepts(f, es, g) && Seen(f, es) == [Called(id, Pop), Came(id, o)]
    requires (forall j :: j in f.calls ==> f.calls[j].Returned?) && f.items != []
    ensures o == Popped(f.items[0])
  {
    var h := [Called(id, Pop), Came(id, o)];
    SeenHead(f, es, h);
    assert es[0].Invoke? && h[..1][0] == Called(id, Pop);
    var f1, es1 := Apply(f, es[0]), es[1..];
    SeenHead(f1, es1, [Came(id, o)]);
    assert es1[0] == Decide(id);
    var f2, es2 := Apply(f1, es1[0]), es1[1..];
    SeenHead(f2, es2, [Came(id, o)]);
    assert f2.calls == f.calls[id := Decided(Pop, Popped(f.items[0]))] && [Came(id, o)][..1] == [Came(id, o)];
    assert !es2[0].Decide?;
    assert es2[0] == Return(id);
    assert SeenOf(f2, es2[0])[0] == Came(id, Popped(f.items[0]));
  }

  lemma {:induction false} SoloRunsAreRuns(cfg: Config, n: nat, s: State, ms: seq<Move>, t: State)
    requires Sized(cfg, s) && SoloRuns(cfg, n, s, ms, t)
    ensures Runs(cfg, s, ms, t)
    decreases |ms|
  {
    if ms != [] { SoloRunsAreRuns(cfg, n, Step(cfg, s, ms[0]), ms[1..], t); }
  }

  lemma StepSized(cfg: Config, s: State, m: Move)
    requires Sized(cfg, s) && Enabled(s, m)
    ensures Sized(cfg, Step(cfg, s, m))
  {
  }

  lemma {:induction false} HistoryConcat(cfg: Config, s: State, ms: seq<Move>, t: State, ks: seq<Move>)
    requires Sized(cfg, s) && Sized(cfg, t) && Runs(cfg, s, ms, t)
    ensures History(cfg, s, ms + ks) == History(cfg, s, ms) + History(cfg, t, ks)
    decreases |ms|
  {
    hide Happenings, Step;
    if ms == [] {
      assert ms + ks == ks;
    } else {
      StepSized(cfg, s, ms[0]);
      HistoryConcat(cfg, Step(cfg, s, ms[0]), ms[1..], t, ks);
      assert (ms + ks)[0] == ms[0] && (ms + ks)[1..] == ms[1..] + ks;
    }
  }

  /** A pop that finds the counters equal. */
  lemma EmptyPop(cfg: Config, n: nat, s: State, id: CallId) returns (ms: seq<Move>, t: State)
    requires Sized(cfg, s) && Quiescent(s) && s.puts == s.gets && s.puts + cfg.capacity <= n && id !in s.calls
    ensures SoloRuns(cfg, n, s, ms, t) && History(cfg, s, ms) == [Called(id, Pop), Came(id, Popped(NULL))]
  {
    hide Slot;
    var s1 := SetCall(s, id, PopLoad);
    var s2 := SetCall(s1, id, PopCheck(s.gets));
    t := SetCall(s2, id, PopEnd(NULL));
    var tail := [Run(id), Run(id)];
    ms := [Begin(id, Pop)] + tail;
    assert ms[0] == Begin(id, Pop) && ms[1..] == tail && tail[1..] == [Run(id)] && [Run(id)][1..] == [];
    assert SoloRuns(cfg, n, t, [], t);
    assert SoloRuns(cfg, n, s2, [Run(id)], t);
    assert SoloRuns(cfg, n, s1, tail, t);
    assert SoloRuns(cfg, n, s, ms, t);
    assert History(cfg, s2, [Run(id)]) == [Came(id, Popped(NULL))] + History(cfg, t, []);
    assert History(cfg, s1, tail) == [] + History(cfg, s2, [Run(id)]);
    assert History(cfg, s, ms) == [Called(id, Pop)] + History(cfg, s1, tail);
  }

  lemma ClashUnexplained(cfg: Config, n: nat, t: nat, u: nat) returns (ms: seq<Move>, s: State)
    requires 0 < cfg.capacity && t < u < n
    requires Slot(t, cfg.capacity) == Slot(u, cfg.capacity) && Tag(cfg, t) == Tag(cfg, u)
    ensures SoloRuns(cfg, n, Initial(cfg), ms, s) && !Explained(cfg, History(cfg, Initial(cfg), ms))
  {
    var s0 := Initial(cfg);
    var ms1, r := ClashLosesItem(cfg, n, t, u);
    var id := Unused(r.calls.Keys);
    var ms2;
    SoloRunsAreRuns(cfg, n, s0, ms1, r);
    ms2, s := EmptyPop(cfg, n, r, id);
    RunsOn(cfg, n, s0, ms1, r, ms2, s);
    ms := ms1 + ms2;
    HistoryConcat(cfg, s0, ms1, r, ms2);
    forall es, g | Accepts(Empty(cfg), es, g) && Seen(Empty(cfg), es) == History(cfg, s0, ms) ensures false {
      NotEmptyYet(cfg, ms1, r, es, g, id, Popped(NULL));
    }
  }

  /** No run of the bounded FIFO answers null after results that leave an item inside. */
  lemma NotEmptyYet(cfg: Config, ms: seq<Move>, s: State, es: seq<Event>, g: Fifo, id: CallId, o: Outcome)
    requires 0 < cfg.capacity && Runs(cfg, Initial(cfg), ms, s) && Quiescent(s) && |s.stored| > |s.taken|
    requires Accepts(Empty(cfg), es, g)
    requires Seen(Empty(cfg), es) == History(cfg, Initial(cfg), ms) + [Called(id, Pop), Came(id, o)]
    ensures o != Popped(NULL)
  {
    var i, m := SeenSplit(Empty(cfg), es, g, History(cfg, Initial(cfg), ms), [Called(id, Pop), Came(id, o)]);
    RunTells(cfg, Initial(cfg), ms, s);
    EventsTell(Empty(cfg), es[..i], m);
    assert ResultsOf(Initial(cfg).calls) == map[] == ReturnsOf(Empty(cfg).calls);
    assert ResultsOf(s.calls) == ReturnsOf(m.calls) && s.calls.Keys == m.calls.Keys;
    forall j | j in m.calls ensures m.calls[j].Returned? {
      assert j in ResultsOf(s.calls).Keys;
      assert j in ReturnsOf(m.calls);
    }
    assert EffectsOf(m.calls) == ReturnsOf(m.calls);
    assert EffectsOf(Empty(cfg).calls) == map[];
    EventsTally(Empty(cfg), es[..i], m);
    HistoriesCounted(cfg, ms, s);
    PopGetsFirst(m, es[i..], g, id, o);
  }

  lemma Unused(ids: set<CallId>) returns (id: CallId)
    ensures id !in ids
  {
    id := Bound(ids);
  }

  lemma {:induction false} Bound(ids: set<CallId>) returns (b: CallId)
    ensures forall id :: id in ids ==> id < b
    decreases ids
  {
    if ids == {} {
      b := 0;
    } else {
      var id :| id in ids;
      b := Bound(ids - {id});
      var rest := ids - {id};
      assert forall j :: j in ids ==> j == id || j in rest;
      if b <= id { b := id + 1; }
    }
  }

  /** All single-consumer runs over the first n tickets look like the bounded FIFO. */
  ghost predicate AllExplained(cfg: Config, n: nat)
    requires 0 < cfg.capacity
  {
    forall ms, s :: SoloRuns(cfg, n, Initial(cfg), ms, s) ==> Explained(cfg, History(cfg, Initial(cfg), ms))
  }

  /** The exact condition of first-in first-out: no two of the first n tickets share a slot and a tag. */
  lemma FifoIffDistinctTags(cfg: Config, n: nat)
    requires 0 < cfg.capacity
    ensures AllExplained(cfg, n) <==> DistinctTags(cfg, n)
  {
    if DistinctTags(cfg, n) {
      forall ms, s | SoloRuns(cfg, n, Initial(cfg), ms, s) ensures Explained(cfg, History(cfg, Initial(cfg), ms)) {
        InitialOrder(cfg);
        Linearizable(cfg, n, ms, s);
        RunSeen(cfg, n, Initial(cfg), ms, s);
        assert Abs(cfg, Initial(cfg)) == Empty(cfg);
        assert Accepts(Empty(cfg), RunEvents(cfg, Initial(cfg), ms), Abs(cfg, s));
      }
    } else {
      var t: nat, u: nat :| t < u < n && Slot(t, cfg.capacity) == Slot(u, cfg.capacity) && Tag(cfg, t) == Tag(cfg, u);
      var ms, s := ClashUnexplained(cfg, n, t, u);
    }
  }
}
