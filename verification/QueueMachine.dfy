/** The lock-free queue, one atomic step at a time. */
module QueueMachine {
  // One step is one atomic read or compare-and-swap; any number of calls are in progress, in any interleaving.
  // `stored` and `taken` are histories: the items whose slot CAS succeeded in a push or in a pop, in CAS order,
  // each with the call that did it. No step reads them.

  import Bits
  import opened BoundedFifo

  /** `hash(i)` is the 32-bit hash of ticket i. */
  datatype Config = Config(capacity: nat, hash: nat -> nat)

  datatype Call =
    | PushLoad(item: Word)                              // about to read m_puts
    | PushCheck(item: Word, seen: nat)                  // about to read m_gets in the loop guard
    | PushSwap(item: Word, seen: nat)                   // about to CAS the slot
    | PushBump(item: Word, seen: nat, won: bool)        // about to CAS m_puts
    | PushEnd(item: Word, ok: bool)
    | PopLoad                                           // about to read m_gets
    | PopCheck(seen: nat)                               // about to read m_puts in the loop guard
    | PopRead(seen: nat)                                // about to read the slot
    | PopSwap(seen: nat, word: Word)                    // about to CAS the slot
    | PopBump(seen: nat, word: Word, won: bool)         // about to CAS m_gets
    | PopEnd(item: Word)

  datatype Transfer = Transfer(call: CallId, item: Word)

  datatype State = State(
    slots: seq<Word>, puts: nat, gets: nat,
    calls: map<CallId, Call>,
    stored: seq<Transfer>, taken: seq<Transfer>)

  datatype Move = Begin(id: CallId, op: Op) | Run(id: CallId)

  /** The vacant tag of a ticket: its hash with the low bit set. */
  function Tag(cfg: Config, ticket: nat): (w: Word)
    ensures Vacant(w)
  {
    if cfg.hash(ticket) % 2 == 0 then cfg.hash(ticket) + 1 else cfg.hash(ticket)
  }

  /** The slot of a ticket in a ring of n slots: its remainder, by repeated subtraction. */
  function Slot(ticket: nat, n: nat): (k: nat)
    requires 0 < n
    ensures k < n
  {
    if ticket < n then ticket else Slot(ticket - n, n)
  }

  lemma {:induction false} SlotIsRemainder(ticket: nat, n: nat)
    requires 0 < n
    ensures Slot(ticket, n) == ticket % n
  {
    if n <= ticket {
      SlotIsRemainder(ticket - n, n);
      Bits.RemainderIs(ticket, n, (ticket - n) / n + 1, (ticket - n) % n);
    }
  }

  /** Tickets less than a full round apart have different slots. */
  lemma {:induction false} SlotsDiffer(t: nat, u: nat, n: nat)
    requires t < u < t + n
    ensures Slot(t, n) != Slot(u, n)
  {
    if n <= t {
      SlotsDiffer(t - n, u - n, n);
    } else if n <= u {
      assert Slot(u, n) == Slot(u - n, n) == u - n;
    }
  }

  function Initial(cfg: Config): State {
    State(seq(cfg.capacity, (i: nat) => Tag(cfg, i)), 0, 0, map[], [], [])
  }

  predicate Enabled(s: State, m: Move) {
    match m
    case Begin(id, _) => id !in s.calls
    case Run(id) => id in s.calls && !s.calls[id].PushEnd? && !s.calls[id].PopEnd?
  }

  predicate Sized(cfg: Config, s: State) {
    0 < cfg.capacity == |s.slots|
  }

  function SetCall(s: State, id: CallId, c: Call): State {
    s.(calls := s.calls[id := c])
  }

  function BeginCall(op: Op): Call {
    match op
    case Push(w) => if Vacant(w) then PushEnd(w, false) else PushLoad(w)
    case Pop => PopLoad
  }

  /** CAS of the put slot: store the item if the slot still holds the tag of ticket `c.seen`. */
  function PushSwapStep(cfg: Config, s: State, id: CallId, c: Call): State
    requires Sized(cfg, s) && c.PushSwap?
  {
    var k := Slot(c.seen, cfg.capacity);
    if s.slots[k] == Tag(cfg, c.seen) then
      SetCall(s, id, PushBump(c.item, c.seen, true)).(
        slots := s.slots[k := c.item], stored := s.stored + [Transfer(id, c.item)])
    else
      SetCall(s, id, PushBump(c.item, c.seen, false))
  }

  /** CAS of the get slot: replace the word read before by the tag of the slot's next ticket. */
  function PopSwapStep(cfg: Config, s: State, id: CallId, c: Call): State
    requires Sized(cfg, s) && c.PopSwap?
  {
    var k := Slot(c.seen, cfg.capacity);
    if s.slots[k] == c.word then
      SetCall(s, id, PopBump(c.seen, c.word, true)).(
        slots := s.slots[k := Tag(cfg, c.seen + cfg.capacity)],
        taken := if Vacant(c.word) then s.taken else s.taken + [Transfer(id, c.word)])
    else
      SetCall(s, id, PopBump(c.seen, c.word, false))
  }

  function RunCall(cfg: Config, s: State, id: CallId, c: Call): State
    requires Sized(cfg, s)
  {
    match c
    case PushLoad(w) => SetCall(s, id, PushCheck(w, s.puts))
    case PushCheck(w, p) =>
      if p - s.gets < cfg.capacity then SetCall(s, id, PushSwap(w, p)) else SetCall(s, id, PushEnd(w, false))
    case PushSwap(_, _) => PushSwapStep(cfg, s, id, c)
    case PushBump(w, p, won) =>
      SetCall(s, id, if won then PushEnd(w, true) else PushLoad(w)).(puts := if s.puts == p then p + 1 else s.puts)
    case PopLoad => SetCall(s, id, PopCheck(s.gets))
    case PopCheck(g) =>
      if s.puts - g > 0 then SetCall(s, id, PopRead(g)) else SetCall(s, id, PopEnd(NULL))
    case PopRead(g) => SetCall(s, id, PopSwap(g, s.slots[Slot(g, cfg.capacity)]))
    case PopSwap(_, _) => PopSwapStep(cfg, s, id, c)
    case PopBump(g, w, won) =>
      SetCall(s, id, if won && !Vacant(w) then PopEnd(w) else PopLoad).(gets := if s.gets == g then g + 1 else s.gets)
    case PushEnd(_, _) => s
    case PopEnd(_) => s
  }

  function Step(cfg: Config, s: State, m: Move): State
    requires Sized(cfg, s) && Enabled(s, m)
  {
    match m
    case Begin(id, op) => SetCall(s, id, BeginCall(op))
    case Run(id) => RunCall(cfg, s, id, s.calls[id])
  }

  /** A pop call between its first and its last step. */
  predicate Popping(c: Call) {
    c.PopLoad? || c.PopCheck? || c.PopRead? || c.PopSwap? || c.PopBump?
  }

  /** At most one pop call is in progress: the discipline of the trace dispatcher. */
  ghost predicate OneConsumer(s: State) {
    forall i, j :: i in s.calls && j in s.calls && Popping(s.calls[i]) && Popping(s.calls[j]) ==> i == j
  }

  /** No call is in progress. */
  ghost predicate Quiescent(s: State) {
    forall i :: i in s.calls ==> s.calls[i].PushEnd? || s.calls[i].PopEnd?
  }

  /** The moves `ms` are enabled one after the other from `s` and lead to `t`. */
  predicate Runs(cfg: Config, s: State, ms: seq<Move>, t: State)
    requires Sized(cfg, s)
    decreases |ms|
  {
    if ms == [] then s == t
    else Enabled(s, ms[0]) && Runs(cfg, Step(cfg, s, ms[0]), ms[1..], t)
  }

  function ItemsOf(ts: seq<Transfer>): (ws: seq<Word>)
    ensures |ws| == |ts|
  {
    seq(|ts|, i requires 0 <= i < |ts| => ts[i].item)
  }
}
