/** How far the single-consumer guarantee reaches. */
module QueueLimits {
  // The counters account for the stored items in all runs over the first n tickets if and only if the tags of
  // those tickets are distinct slot by slot; since a tag is one of 2^31 odd words, that fails for some n.

  import Bits
  import opened BoundedFifo
  import opened QueueMachine
  import opened QueueLinearizability

  /** When nothing is in progress, m_puts - m_gets is the number of items stored and not taken. */
  ghost predicate Accounted(s: State) {
    Quiescent(s) ==> |s.stored| - |s.taken| == s.puts - s.gets
  }

  /** Some single-consumer run over the first n tickets ends in `s`. */
  ghost predicate Reachable(cfg: Config, n: nat, s: State)
    requires 0 < cfg.capacity
  {
    exists ms :: SoloRuns(cfg, n, Initial(cfg), ms, s)
  }

  // ---- composing runs ----

  lemma {:induction false} RunsOn(cfg: Config, n: nat, s: State, ms: seq<Move>, t: State, ms': seq<Move>, u: State)
    requires Sized(cfg, s) && Sized(cfg, t) && SoloRuns(cfg, n, s, ms, t) && SoloRuns(cfg, n, t, ms', u)
    ensures SoloRuns(cfg, n, s, ms + ms', u)
    decreases |ms|
  {
    if ms == [] {
      assert ms + ms' == ms';
    } else {
      RunsOn(cfg, n, Step(cfg, s, ms[0]), ms[1..], t, ms', u);
      assert (ms + ms')[0] == ms[0] && (ms + ms')[1..] == ms[1..] + ms';
    }
  }

  lemma RunsOne(cfg: Config, n: nat, s: State, ms: seq<Move>, t: State, m: Move)
    requires Sized(cfg, s) && Sized(cfg, t) && SoloRuns(cfg, n, s, ms, t) && Enabled(t, m)
    requires Solo(cfg, n, t) && Solo(cfg, n, Step(cfg, t, m))
    ensures SoloRuns(cfg, n, s, ms + [m], Step(cfg, t, m))
  {
    var u := Step(cfg, t, m);
    assert [m][1..] == [];
    assert SoloRuns(cfg, n, u, [m][1..], u);
    RunsOn(cfg, n, s, ms, t, [m], u);
  }

  lemma RunsNone(cfg: Config, n: nat, s: State)
    requires Sized(cfg, s) && Solo(cfg, n, s)
    ensures SoloRuns(cfg, n, s, [], s)
  {
  }

  // ---- a push and a pop with nobody in the way ----

  /** `held` are calls that stand still, none of them a pop; every other call has ended. */
  ghost predicate Calm(s: State, held: map<CallId, Call>, lo: nat) {
    (forall id :: id in s.calls ==> id < lo) &&
    (forall id :: id in held ==> id in s.calls && s.calls[id] == held[id] && !Popping(held[id])) &&
    (forall id :: id in s.calls && id !in held ==> s.calls[id].PushEnd? || s.calls[id].PopEnd?)
  }

  /** Empty after m pushes and m pops, all slots tagged for the next round. */
  ghost predicate EmptyAt(cfg: Config, s: State, m: nat) {
    Sized(cfg, s) && s.puts == s.gets == m == |s.stored| == |s.taken| &&
    forall k: nat :: m <= k < m + cfg.capacity ==> s.slots[Slot(k, cfg.capacity)] == Tag(cfg, k)
  }

  ghost predicate OneAt(cfg: Config, s: State, m: nat) {
    Sized(cfg, s) && s.puts == m + 1 == |s.stored| && s.gets == m == |s.taken| &&
    s.slots[Slot(m, cfg.capacity)] == 2 &&
    forall k: nat :: m + 1 <= k < m + cfg.capacity ==> s.slots[Slot(k, cfg.capacity)] == Tag(cfg, k)
  }

  /** Only call `id` may be popping. */
  ghost predicate Only(s: State, id: CallId) {
    forall j :: j in s.calls && Popping(s.calls[j]) ==> j == id
  }

  /** One more move of call `id`, when nobody else is popping. */
  lemma Go(cfg: Config, n: nat, s: State, ms: seq<Move>, t: State, m: Move, u: State)
    requires Sized(cfg, s) && Sized(cfg, t) && SoloRuns(cfg, n, s, ms, t) && Enabled(t, m) && Step(cfg, t, m) == u
    requires Only(t, m.id) && Only(u, m.id) && t.puts + cfg.capacity <= n && u.puts + cfg.capacity <= n
    ensures SoloRuns(cfg, n, s, ms + [m], u)
  {
    RunsOne(cfg, n, s, ms, t, m);
  }

  /** Nobody is popping and `id` has not begun. */
  ghost predicate Clear(s: State, id: CallId) {
    id !in s.calls && forall j :: j in s.calls ==> !Popping(s.calls[j])
  }

  /** The part of a push before its slot CAS. */
  lemma PushArrives(cfg: Config, n: nat, s: State, m: nat, lo: nat) returns (ms: seq<Move>)
    requires Sized(cfg, s) && s.puts == s.gets == m && Clear(s, lo) && m + cfg.capacity <= n
    ensures SoloRuns(cfg, n, s, ms, SetCall(s, lo, PushSwap(2, m)))
  {
    hide SoloRuns, Slot;
    RunsNone(cfg, n, s);
    var s1 := SetCall(s, lo, PushLoad(2));
    var s2 := SetCall(s, lo, PushCheck(2, m));
    var s3 := SetCall(s, lo, PushSwap(2, m));
    assert SetCall(s1, lo, PushCheck(2, m)) == s2 && SetCall(s2, lo, PushSwap(2, m)) == s3;
    Go(cfg, n, s, [], s, Begin(lo, Push(2)), s1);
    ms := [] + [Begin(lo, Push(2))];
    Go(cfg, n, s, ms, s1, Run(lo), s2); ms := ms + [Run(lo)];
    Go(cfg, n, s, ms, s2, Run(lo), s3); ms := ms + [Run(lo)];
  }

  lemma PushAlone(cfg: Config, n: nat, s: State, m: nat, held: map<CallId, Call>, lo: nat)
    returns (ms: seq<Move>, t: State)
    requires EmptyAt(cfg, s, m) && Calm(s, held, lo) && m + 1 + cfg.capacity <= n
    ensures SoloRuns(cfg, n, s, ms, t) && OneAt(cfg, t, m) && Calm(t, held, lo + 1)
  {
    hide SoloRuns, Slot;
    ms := PushArrives(cfg, n, s, m, lo);
    var s3 := SetCall(s, lo, PushSwap(2, m));
    var slots := s.slots[Slot(m, cfg.capacity) := 2];
    var stored := s.stored + [Transfer(lo, 2)];
    var s4 := State(slots, m, m, s.calls[lo := PushBump(2, m, true)], stored, s.taken);
    t := State(slots, m + 1, m, s.calls[lo := PushEnd(2, true)], stored, s.taken);
    assert s3.calls[lo := PushBump(2, m, true)] == s4.calls && s4.calls[lo := PushEnd(2, true)] == t.calls;
    Go(cfg, n, s, ms, s3, Run(lo), s4); ms := ms + [Run(lo)];
    Go(cfg, n, s, ms, s4, Run(lo), t); ms := ms + [Run(lo)];
    forall k: nat | m + 1 <= k < m + cfg.capacity ensures t.slots[Slot(k, cfg.capacity)] == Tag(cfg, k) {
      SlotsDiffer(m, k, cfg.capacity);
    }
  }

  /** The part of a pop before its slot CAS. */
  lemma PopArrives(cfg: Config, n: nat, s: State, m: nat, lo: nat) returns (ms: seq<Move>)
    requires Sized(cfg, s) && s.puts == m + 1 && s.gets == m && s.slots[Slot(m, cfg.capacity)] == 2
    requires Clear(s, lo) && m + 1 + cfg.capacity <= n
    ensures SoloRuns(cfg, n, s, ms, SetCall(s, lo, PopSwap(m, 2)))
  {
    hide SoloRuns, Slot;
    RunsNone(cfg, n, s);
    var s1 := SetCall(s, lo, PopLoad);
    var s2 := SetCall(s, lo, PopCheck(m));
    var s3 := SetCall(s, lo, PopRead(m));
    var s4 := SetCall(s, lo, PopSwap(m, 2));
    assert SetCall(s1, lo, PopCheck(m)) == s2 && SetCall(s2, lo, PopRead(m)) == s3 &&
      SetCall(s3, lo, PopSwap(m, 2)) == s4;
    Go(cfg, n, s, [], s, Begin(lo, Pop), s1);
    ms := [] + [Begin(lo, Pop)];
    Go(cfg, n, s, ms, s1, Run(lo), s2); ms := ms + [Run(lo)];
    Go(cfg, n, s, ms, s2, Run(lo), s3); ms := ms + [Run(lo)];
    Go(cfg, n, s, ms, s3, Run(lo), s4); ms := ms + [Run(lo)];
  }

  lemma PopAlone(cfg: Config, n: nat, s: State, m: nat, held: map<CallId, Call>, lo: nat)
    returns (ms: seq<Move>, t: State)
    requires OneAt(cfg, s, m) && Calm(s, held, lo) && m + 1 + cfg.capacity <= n
    ensures SoloRuns(cfg, n, s, ms, t) && EmptyAt(cfg, t, m + 1) && Calm(t, held, lo + 1)
  {
    hide SoloRuns, Slot;
    ms := PopArrives(cfg, n, s, m, lo);
    var s4 := SetCall(s, lo, PopSwap(m, 2));
    var slots := s.slots[Slot(m, cfg.capacity) := Tag(cfg, m + cfg.capacity)];
    var taken := s.taken + [Transfer(lo, 2)];
    var s5 := State(slots, m + 1, m, s.calls[lo := PopBump(m, 2, true)], s.stored, taken);
    t := State(slots, m + 1, m + 1, s.calls[lo := PopEnd(2)], s.stored, taken);
    assert s4.calls[lo := PopBump(m, 2, true)] == s5.calls && s5.calls[lo := PopEnd(2)] == t.calls;
    Go(cfg, n, s, ms, s4, Run(lo), s5); ms := ms + [Run(lo)];
    Go(cfg, n, s, ms, s5, Run(lo), t); ms := ms + [Run(lo)];
    NextRound(cfg, s, t, m);
  }

  lemma NextRound(cfg: Config, s: State, t: State, m: nat)
    requires OneAt(cfg, s, m) && t.slots == s.slots[Slot(m, cfg.capacity) := Tag(cfg, m + cfg.capacity)]
    ensures forall k: nat :: m + 1 <= k < m + 1 + cfg.capacity ==> t.slots[Slot(k, cfg.capacity)] == Tag(cfg, k)
  {
    forall k: nat | m + 1 <= k < m + 1 + cfg.capacity ensures t.slots[Slot(k, cfg.capacity)] == Tag(cfg, k) {
      if k < m + cfg.capacity { SlotsDiffer(m, k, cfg.capacity); }
      else { assert Slot(k, cfg.capacity) == Slot(m, cfg.capacity); }
    }
  }

  lemma {:induction false} Rounds(cfg: Config, n: nat, s: State, m: nat, m': nat, held: map<CallId, Call>, lo: nat)
    returns (ms: seq<Move>, t: State, lo': nat)
    requires EmptyAt(cfg, s, m) && Calm(s, held, lo) && m <= m' && m' + cfg.capacity <= n
    ensures SoloRuns(cfg, n, s, ms, t) && EmptyAt(cfg, t, m') && Calm(t, held, lo')
    decreases m' - m
  {
    if m == m' {
      ms, t, lo' := [], s, lo;
    } else {
      var ms1, s1 := PushAlone(cfg, n, s, m, held, lo);
      var ms2, s2 := PopAlone(cfg, n, s1, m, held, lo + 1);
      var ms3, s3, lo3 := Rounds(cfg, n, s2, m + 1, m', held, lo + 2);
      RunsOn(cfg, n, s, ms1, s1, ms2, s2);
      RunsOn(cfg, n, s, ms1 + ms2, s2, ms3, s3);
      ms, t, lo' := ms1 + ms2 + ms3, s3, lo3;
    }
  }

  // ---- a clash of tags loses an item from the counters ----

  /** A producer that stops just before its slot CAS. */
  lemma Stall(cfg: Config, n: nat, s: State, m: nat, lo: nat) returns (ms: seq<Move>, t: State)
    requires EmptyAt(cfg, s, m) && Calm(s, map[], lo) && m + cfg.capacity <= n
    ensures SoloRuns(cfg, n, s, ms, t) && EmptyAt(cfg, t, m) && Calm(t, map[lo := PushSwap(2, m)], lo + 1)
  {
    ms := PushArrives(cfg, n, s, m, lo);
    t := SetCall(s, lo, PushSwap(2, m));
  }

  /** The stalled producer wakes up when the slot shows its tag again, a round or more later. */
  lemma Wake(cfg: Config, n: nat, s: State, t: nat, m: nat, id: CallId, lo: nat) returns (ms: seq<Move>, r: State)
    requires EmptyAt(cfg, s, m) && Calm(s, map[id := PushSwap(2, t)], lo) && m + cfg.capacity <= n && t < m
    requires s.slots[Slot(t, cfg.capacity)] == Tag(cfg, t)
    ensures SoloRuns(cfg, n, s, ms, r) && Quiescent(r) && id in r.calls && r.calls[id] == PushEnd(2, true)
    ensures Sized(cfg, r) && r.puts == r.gets == m && |r.stored| == |r.taken| + 1
  {
    var held := map[id := PushSwap(2, t)];
    assert id in held && s.calls[id] == held[id];
    var s1 := Step(cfg, s, Run(id));
    r := Step(cfg, s1, Run(id));
    RunsOne(cfg, n, s, [], s, Run(id)); ms := [] + [Run(id)];
    RunsOne(cfg, n, s, ms, s1, Run(id)); ms := ms + [Run(id)];
  }

  lemma ClashLosesItem(cfg: Config, n: nat, t: nat, u: nat) returns (ms: seq<Move>, s: State)
    requires 0 < cfg.capacity && t < u < n
    requires Slot(t, cfg.capacity) == Slot(u, cfg.capacity) && Tag(cfg, t) == Tag(cfg, u)
    ensures SoloRuns(cfg, n, Initial(cfg), ms, s) && Sized(cfg, s) && Quiescent(s) && s.puts + cfg.capacity <= n
    ensures s.puts == s.gets && |s.stored| == |s.taken| + 1
  {
    if u < t + cfg.capacity { SlotsDiffer(t, u, cfg.capacity); }
    var m := u - cfg.capacity + 1;
    var ms1, s1, lo1 := Rounds(cfg, n, Initial(cfg), 0, t, map[], 0);
    var ms2, s2 := Stall(cfg, n, s1, t, lo1);
    var held := map[lo1 := PushSwap(2, t)];
    var ms3, s3, lo3 := Rounds(cfg, n, s2, t, m, held, lo1 + 1);
    assert s3.slots[Slot(u, cfg.capacity)] == Tag(cfg, u);
    var ms4, s4 := Wake(cfg, n, s3, t, m, lo1, lo3);
    RunsOn(cfg, n, Initial(cfg), ms1, s1, ms2, s2);
    RunsOn(cfg, n, Initial(cfg), ms1 + ms2, s2, ms3, s3);
    RunsOn(cfg, n, Initial(cfg), ms1 + ms2 + ms3, s3, ms4, s4);
    ms, s := ms1 + ms2 + ms3 + ms4, s4;
  }

  /** The exact condition: single-consumer runs over the first n tickets keep their account if and only
      if no two of those tickets share a slot and a tag. */
  lemma AccountedIffDistinctTags(cfg: Config, n: nat)
    requires 0 < cfg.capacity
    ensures (forall s :: Reachable(cfg, n, s) ==> Accounted(s)) <==> DistinctTags(cfg, n)
  {
    if DistinctTags(cfg, n) {
      forall s | Reachable(cfg, n, s) ensures Accounted(s) {
        var ms :| SoloRuns(cfg, n, Initial(cfg), ms, s);
        TakenInOrder(cfg, n, ms, s);
      }
    } else {
      var t: nat, u: nat :| t < u < n && Slot(t, cfg.capacity) == Slot(u, cfg.capacity) && Tag(cfg, t) == Tag(cfg, u);
      var ms, s := ClashLosesItem(cfg, n, t, u);
      assert Reachable(cfg, n, s) && !Accounted(s);
    }
  }

  // ---- a 32-bit hash runs out of tags ----

  lemma {:induction false} Pigeonhole(vs: seq<nat>, n: nat)
    requires forall i :: 0 <= i < |vs| ==> vs[i] < n
    requires forall i, j :: 0 <= i < j < |vs| ==> vs[i] != vs[j]
    ensures |vs| <= n
  {
    if vs != [] {
      assert vs[0] < n;
      if k :| 0 <= k < |vs| && vs[k] == n - 1 {
        Pigeonhole(vs[..k] + vs[k + 1..], n - 1);
      } else {
        Pigeonhole(vs, n - 1);
      }
    }
  }

  lemma {:induction false} SlotOfRound(i: nat, n: nat)
    requires 0 < n
    ensures Slot(i * n, n) == 0
  {
    if 0 < i {
      SlotOfRound(i - 1, n);
      Bits.Apart(n, i);
      assert i * n - n == (i - 1) * n;
    }
  }

  lemma RoundsGrow(i: nat, j: nat, n: nat)
    requires 0 < n && i < j
    ensures i * n < j * n
  {
    Bits.Apart(n, j - i);
    assert j * n == i * n + n * (j - i);
  }

  lemma HalvesDiffer(cfg: Config, rounds: nat, i: nat, j: nat)
    requires 0 < cfg.capacity && i < j <= rounds && DistinctTags(cfg, rounds * cfg.capacity + 1)
    ensures HalfTag(cfg, i) != HalfTag(cfg, j)
  {
    RoundsGrow(i, j, cfg.capacity);
    if j < rounds { RoundsGrow(j, rounds, cfg.capacity); }
    SlotOfRound(i, cfg.capacity);
    SlotOfRound(j, cfg.capacity);
  }

  /** A tag is one of 2^31 odd words, so within 2^31 rounds of any slot two tickets clash. */
  lemma HashRunsOut(cfg: Config)
    requires 0 < cfg.capacity
    requires forall i: nat :: cfg.hash(i) < 0x1_0000_0000
    ensures !DistinctTags(cfg, 0x8000_0000 * cfg.capacity + 1)
  {
    var rounds := 0x8000_0000;
    if DistinctTags(cfg, rounds * cfg.capacity + 1) {
      var halves := seq(rounds + 1, i requires 0 <= i < rounds + 1 => HalfTag(cfg, i));
      forall i, j | 0 <= i < j < |halves| ensures halves[i] != halves[j] {
        HalvesDiffer(cfg, rounds, i, j);
      }
      Pigeonhole(halves, rounds);
    }
  }

  /** The 31 bits of a tag above its low bit, for the i-th ticket of slot 0. */
  function HalfTag(cfg: Config, i: nat): (h: nat)
    ensures Tag(cfg, i * cfg.capacity) == 2 * h + 1
  {
    (Tag(cfg, i * cfg.capacity) - 1) / 2
  }
}
