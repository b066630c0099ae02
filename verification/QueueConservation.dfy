/** What every interleaving keeps, whatever the tags are. */
module QueueConservation {
  // With any number of producers and consumers no item is lost, duplicated or invented, and the counters stay
  // within the capacity of each other.

  import opened BoundedFifo
  import opened QueueMachine

  /** The items among some words, with multiplicity. */
  function Items(ws: seq<Word>): multiset<Word> {
    if ws == [] then multiset{} else One(ws[0]) + Items(ws[1..])
  }

  function One(w: Word): multiset<Word> {
    if Vacant(w) then multiset{} else multiset{w}
  }

  ghost predicate Counters(cfg: Config, s: State) {
    Sized(cfg, s) && s.gets <= s.puts <= s.gets + cfg.capacity
  }

  /** Every vacant slot holds a tag made for one of the slot's own tickets. */
  ghost predicate TagsAtHome(cfg: Config, s: State)
    requires Sized(cfg, s)
  {
    forall k :: 0 <= k < |s.slots| && Vacant(s.slots[k]) ==> TagAt(cfg, s.slots[k], k)
  }

  ghost predicate TagAt(cfg: Config, w: Word, k: nat)
    requires 0 < cfg.capacity
  {
    exists t: nat :: Slot(t, cfg.capacity) == k && w == Tag(cfg, t)
  }

  /** Everything ever stored is either still in a slot or was taken. */
  ghost predicate Balanced(s: State) {
    multiset(ItemsOf(s.stored)) == Items(s.slots) + multiset(ItemsOf(s.taken))
  }

  /** What a call in progress knows about the counters. */
  ghost predicate CallBounds(cfg: Config, s: State, c: Call) {
    match c
    case PushLoad(w) => !Vacant(w)
    case PushCheck(w, p) => !Vacant(w) && p <= s.puts
    case PushSwap(w, p) => !Vacant(w) && p <= s.puts && p < s.gets + cfg.capacity
    case PushBump(w, p, _) => !Vacant(w) && p <= s.puts && p < s.gets + cfg.capacity
    case PushEnd(w, ok) => ok ==> !Vacant(w)
    case PopLoad => true
    case PopCheck(g) => g <= s.gets
    case PopRead(g) => g <= s.gets && g < s.puts
    case PopSwap(g, _) => g <= s.gets && g < s.puts
    case PopBump(g, _, _) => g <= s.gets && g < s.puts
    case PopEnd(_) => true
  }

  /** The item this call has put into a slot, or null. */
  function Gave(c: Call): Word {
    match c
    case PushBump(w, _, won) => if won then w else NULL
    case PushEnd(w, ok) => if ok then w else NULL
    case _ => NULL
  }

  /** The item this call has taken out of a slot, or null. */
  function Got(c: Call): Word {
    match c
    case PopBump(_, w, won) => if won && !Vacant(w) then w else NULL
    case PopEnd(w) => w
    case _ => NULL
  }

  /** `ts` lists every call of `ids` with a non-null `what` exactly once, with that item, and no other. */
  ghost predicate Ledger(ts: seq<Transfer>, calls: map<CallId, Call>, what: Call -> Word) {
    (forall k :: 0 <= k < |ts| ==>
      ts[k].call in calls && !Vacant(ts[k].item) && what(calls[ts[k].call]) == ts[k].item) &&
    (forall j, k :: 0 <= j < k < |ts| ==> ts[j].call != ts[k].call) &&
    (forall id :: id in calls && what(calls[id]) != NULL ==> Transfer(id, what(calls[id])) in ts)
  }

  ghost predicate Inv(cfg: Config, s: State) {
    Counters(cfg, s) && TagsAtHome(cfg, s) && Balanced(s) &&
    Bounded(cfg, s) &&
    Ledger(s.stored, s.calls, Gave) && Ledger(s.taken, s.calls, Got)
  }

  // ---- multisets of slots ----

  lemma {:induction false} ItemsUpdate(ws: seq<Word>, k: nat, w: Word)
    requires k < |ws|
    ensures Items(ws[k := w]) + One(ws[k]) == Items(ws) + One(w)
  {
    var vs := ws[k := w];
    if k == 0 {
      assert vs[1..] == ws[1..];
    } else {
      assert vs[1..] == ws[1..][k - 1 := w];
      ItemsUpdate(ws[1..], k - 1, w);
      Regroup(One(ws[0]), Items(ws[1..]), Items(vs[1..]), One(ws[k]), One(w));
    }
  }

  lemma Regroup(h: multiset<Word>, t: multiset<Word>, u: multiset<Word>, o: multiset<Word>, n: multiset<Word>)
    requires u + o == t + n
    ensures (h + u) + o == (h + t) + n
  {
    assert (h + u) + o == h + (u + o);
    assert (h + t) + n == h + (t + n);
  }

  lemma AppendCounts(ts: seq<Transfer>, t: Transfer)
    ensures multiset(ItemsOf(ts + [t])) == multiset(ItemsOf(ts)) + multiset{t.item}
  {
    ItemsOfAppend(ts, t);
  }

  lemma {:induction false} NoItems(ws: seq<Word>)
    requires forall k :: 0 <= k < |ws| ==> Vacant(ws[k])
    ensures Items(ws) == multiset{}
  {
    if ws != [] { NoItems(ws[1..]); }
  }

  lemma ItemsOfAppend(ts: seq<Transfer>, t: Transfer)
    ensures ItemsOf(ts + [t]) == ItemsOf(ts) + [t.item]
  {
  }

  // ---- the ledger under a change of one call ----

  lemma LedgerKeeps(ts: seq<Transfer>, calls: map<CallId, Call>, what: Call -> Word, id: CallId, c: Call)
    requires Ledger(ts, calls, what)
    requires what(c) == if id in calls then what(calls[id]) else NULL
    ensures Ledger(ts, calls[id := c], what)
  {
  }

  lemma LedgerGrows(ts: seq<Transfer>, calls: map<CallId, Call>, what: Call -> Word, id: CallId, c: Call)
    requires Ledger(ts, calls, what)
    requires id in calls && what(calls[id]) == NULL && !Vacant(what(c))
    ensures Ledger(ts + [Transfer(id, what(c))], calls[id := c], what)
  {
    var us := ts + [Transfer(id, what(c))];
    assert us[|ts|] == Transfer(id, what(c));
    assert forall x :: x in ts ==> x in us;
  }

  // ---- one step ----

  lemma InitialInv(cfg: Config)
    requires 0 < cfg.capacity
    ensures Inv(cfg, Initial(cfg))
  {
    var s := Initial(cfg);
    NoItems(s.slots);
    forall k | 0 <= k < |s.slots| ensures TagAt(cfg, s.slots[k], k) {
      assert Slot(k, cfg.capacity) == k && s.slots[k] == Tag(cfg, k);
    }
  }

  /** The counters only grow, so what a call knows about them stays true. */
  ghost predicate Bounded(cfg: Config, s: State) {
    forall id :: id in s.calls ==> CallBounds(cfg, s, s.calls[id])
  }

  lemma BoundedStep(cfg: Config, s: State, t: State, id: CallId, c: Call)
    requires Bounded(cfg, s) && s.puts <= t.puts && s.gets <= t.gets
    requires t.calls == s.calls[id := c] && CallBounds(cfg, t, c)
    ensures Bounded(cfg, t)
  {
  }

  /** Replacing one slot's items `o` by `n`: what the slots gain and lose is what the histories record. */
  lemma Transferred(a: multiset<Word>, b: multiset<Word>, c: multiset<Word>, b': multiset<Word>,
                    o: multiset<Word>, n: multiset<Word>)
    requires a == b + c && b' + o == b + n
    ensures a + n == b' + (c + o)
  {
    assert b' + (c + o) == (b' + o) + c;
    assert a + n == (b + n) + c;
  }

  lemma PushSwapBalanced(cfg: Config, s: State, id: CallId, c: Call)
    requires Sized(cfg, s) && Balanced(s) && c.PushSwap? && !Vacant(c.item)
    ensures Balanced(PushSwapStep(cfg, s, id, c))
  {
    var k := Slot(c.seen, cfg.capacity);
    var t := PushSwapStep(cfg, s, id, c);
    if s.slots[k] == Tag(cfg, c.seen) {
      ItemsUpdate(s.slots, k, c.item);
      AppendCounts(s.stored, Transfer(id, c.item));
      var taken := multiset(ItemsOf(s.taken));
      Transferred(multiset(ItemsOf(s.stored)), Items(s.slots), taken, Items(t.slots), One(s.slots[k]), One(c.item));
      assert taken + One(s.slots[k]) == taken;
    }
  }

  /** A word replaced by a tag leaves the slots; if it is an item, the history records it. */
  lemma TakeBalanced(stored: multiset<Word>, slots: seq<Word>, taken: multiset<Word>, k: nat, tag: Word)
    requires k < |slots| && Vacant(tag) && stored == Items(slots) + taken
    ensures stored == Items(slots[k := tag]) + (taken + One(slots[k]))
  {
    ItemsUpdate(slots, k, tag);
    Transferred(stored, Items(slots), taken, Items(slots[k := tag]), One(slots[k]), One(tag));
    assert stored + One(tag) == stored;
  }

  lemma PopSwapBalanced(cfg: Config, s: State, id: CallId, c: Call)
    requires Sized(cfg, s) && Balanced(s) && c.PopSwap?
    ensures Balanced(PopSwapStep(cfg, s, id, c))
  {
    var k := Slot(c.seen, cfg.capacity);
    var t := PopSwapStep(cfg, s, id, c);
    if s.slots[k] == c.word {
      assert t.slots == s.slots[k := Tag(cfg, c.seen + cfg.capacity)] && t.stored == s.stored;
      TakeBalanced(multiset(ItemsOf(s.stored)), s.slots, multiset(ItemsOf(s.taken)), k,
        Tag(cfg, c.seen + cfg.capacity));
      TakenCounts(s.taken, t.taken, id, c.word);
    }
  }

  lemma TakenCounts(ts: seq<Transfer>, us: seq<Transfer>, id: CallId, w: Word)
    requires us == if Vacant(w) then ts else ts + [Transfer(id, w)]
    ensures multiset(ItemsOf(us)) == multiset(ItemsOf(ts)) + One(w)
  {
    if !Vacant(w) { AppendCounts(ts, Transfer(id, w)); }
  }

  lemma PopSwapHome(cfg: Config, s: State, id: CallId, c: Call)
    requires Sized(cfg, s) && TagsAtHome(cfg, s) && c.PopSwap?
    ensures TagsAtHome(cfg, PopSwapStep(cfg, s, id, c))
  {
    var k := Slot(c.seen, cfg.capacity);
    assert Slot(c.seen + cfg.capacity, cfg.capacity) == k;
    assert TagAt(cfg, Tag(cfg, c.seen + cfg.capacity), k);
  }

  lemma GiveStep(cfg: Config, s: State, id: CallId, c: Call)
    requires Sized(cfg, s) && id in s.calls && c == s.calls[id] && c.PushSwap? && !Vacant(c.item)
    requires Ledger(s.stored, s.calls, Gave) && Ledger(s.taken, s.calls, Got)
    ensures var t := PushSwapStep(cfg, s, id, c);
            Ledger(t.stored, t.calls, Gave) && Ledger(t.taken, t.calls, Got)
  {
    var t := PushSwapStep(cfg, s, id, c);
    LedgerKeeps(s.taken, s.calls, Got, id, t.calls[id]);
    if s.slots[Slot(c.seen, cfg.capacity)] == Tag(cfg, c.seen) {
      LedgerGrows(s.stored, s.calls, Gave, id, t.calls[id]);
    } else {
      LedgerKeeps(s.stored, s.calls, Gave, id, t.calls[id]);
    }
  }

  lemma GetStep(cfg: Config, s: State, id: CallId, c: Call)
    requires Sized(cfg, s) && id in s.calls && c == s.calls[id] && c.PopSwap?
    requires Ledger(s.stored, s.calls, Gave) && Ledger(s.taken, s.calls, Got)
    ensures var t := PopSwapStep(cfg, s, id, c);
            Ledger(t.stored, t.calls, Gave) && Ledger(t.taken, t.calls, Got)
  {
    var t := PopSwapStep(cfg, s, id, c);
    LedgerKeeps(s.stored, s.calls, Gave, id, t.calls[id]);
    if s.slots[Slot(c.seen, cfg.capacity)] == c.word && !Vacant(c.word) {
      LedgerGrows(s.taken, s.calls, Got, id, t.calls[id]);
    } else {
      LedgerKeeps(s.taken, s.calls, Got, id, t.calls[id]);
    }
  }

  /** Every step of every call keeps the invariant. */
  lemma StepInv(cfg: Config, s: State, m: Move)
    requires Inv(cfg, s) && Enabled(s, m)
    ensures Inv(cfg, Step(cfg, s, m))
  {
    hide Ledger, Items, TagAt;
    var t := Step(cfg, s, m);
    BoundedStep(cfg, s, t, m.id, t.calls[m.id]) by { StepBounds(cfg, s, m); }
    StepBounds(cfg, s, m);
    if m.Run? && s.calls[m.id].PushSwap? {
      PushSwapBalanced(cfg, s, m.id, s.calls[m.id]);
      GiveStep(cfg, s, m.id, s.calls[m.id]);
    } else if m.Run? && s.calls[m.id].PopSwap? {
      PopSwapBalanced(cfg, s, m.id, s.calls[m.id]);
      PopSwapHome(cfg, s, m.id, s.calls[m.id]);
      GetStep(cfg, s, m.id, s.calls[m.id]);
    } else {
      LedgerKeeps(s.stored, s.calls, Gave, m.id, t.calls[m.id]);
      LedgerKeeps(s.taken, s.calls, Got, m.id, t.calls[m.id]);
    }
  }

  lemma StepBounds(cfg: Config, s: State, m: Move)
    requires Counters(cfg, s) && Enabled(s, m)
    requires m.Run? ==> CallBounds(cfg, s, s.calls[m.id])
    ensures var t := Step(cfg, s, m);
            Counters(cfg, t) && s.puts <= t.puts && s.gets <= t.gets &&
            m.id in t.calls && t.calls == s.calls[m.id := t.calls[m.id]] && CallBounds(cfg, t, t.calls[m.id])
  {
  }

  lemma {:induction false} RunInv(cfg: Config, s: State, ms: seq<Move>, t: State)
    requires Inv(cfg, s) && Runs(cfg, s, ms, t)
    ensures Inv(cfg, t)
    decreases |ms|
  {
    if ms != [] {
      StepInv(cfg, s, ms[0]);
      RunInv(cfg, Step(cfg, s, ms[0]), ms[1..], t);
    }
  }

  // ---- the results ----

  ghost predicate Once(ts: seq<Transfer>, id: CallId, w: Word) {
    exists k :: 0 <= k < |ts| && ts[k] == Transfer(id, w) && forall j :: 0 <= j < |ts| && ts[j].call == id ==> j == k
  }

  ghost predicate Never(ts: seq<Transfer>, id: CallId) {
    forall k :: 0 <= k < |ts| ==> ts[k].call != id
  }

  lemma LedgerOnce(ts: seq<Transfer>, calls: map<CallId, Call>, what: Call -> Word, id: CallId)
    requires Ledger(ts, calls, what) && id in calls
    ensures if what(calls[id]) != NULL then Once(ts, id, what(calls[id])) else Never(ts, id)
  {
    if what(calls[id]) != NULL {
      var k :| 0 <= k < |ts| && ts[k] == Transfer(id, what(calls[id]));
    }
  }

  /** For every run with any number of producers and consumers: stored items are in a slot or taken,
      counted with multiplicity; a push returns true exactly if it stored its item once and false if it
      stored nothing; a pop took exactly the item it returns, or nothing if it returns null. */
  lemma Conservation(cfg: Config, ms: seq<Move>, s: State)
    requires 0 < cfg.capacity && Runs(cfg, Initial(cfg), ms, s)
    ensures multiset(ItemsOf(s.stored)) == Items(s.slots) + multiset(ItemsOf(s.taken))
    ensures s.gets <= s.puts <= s.gets + cfg.capacity
    ensures |s.slots| == cfg.capacity && TagsAtHome(cfg, s)
    ensures forall id, w, ok :: id in s.calls && s.calls[id] == PushEnd(w, ok) ==>
              if ok then Once(s.stored, id, w) else Never(s.stored, id)
    ensures forall id, w :: id in s.calls && s.calls[id] == PopEnd(w) ==>
              if w != NULL then Once(s.taken, id, w) else Never(s.taken, id)
  {
    InitialInv(cfg);
    RunInv(cfg, Initial(cfg), ms, s);
    forall id | id in s.calls
      ensures CallBounds(cfg, s, s.calls[id])
      ensures if Gave(s.calls[id]) != NULL then Once(s.stored, id, Gave(s.calls[id])) else Never(s.stored, id)
      ensures if Got(s.calls[id]) != NULL then Once(s.taken, id, Got(s.calls[id])) else Never(s.taken, id)
    {
      assert CallBounds(cfg, s, s.calls[id]);
      LedgerOnce(s.stored, s.calls, Gave, id);
      LedgerOnce(s.taken, s.calls, Got, id);
    }
  }

  /** "Full" and "empty" are reported only when the counters differ by the capacity or by nothing at the
      read that decides. */
  lemma FullAndEmptyAreTrue(cfg: Config, ms: seq<Move>, s: State, id: CallId)
    requires 0 < cfg.capacity && Runs(cfg, Initial(cfg), ms, s)
    requires Sized(cfg, s) && Enabled(s, Run(id))
    ensures Step(cfg, s, Run(id)).calls[id].PushEnd? && !Step(cfg, s, Run(id)).calls[id].ok ==>
      s.puts == s.gets + cfg.capacity
    ensures Step(cfg, s, Run(id)).calls[id] == PopEnd(NULL) ==> s.puts == s.gets
  {
    InitialInv(cfg);
    RunInv(cfg, Initial(cfg), ms, s);
    assert CallBounds(cfg, s, s.calls[id]);
  }
}
