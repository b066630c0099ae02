/**
  Copy-on-write strings: handles that share counted blocks, and keep value semantics.

  A block is a heap object with its reference count; a handle points to one block. `Strings`
  is the set of handles that are alive, and its invariant says that the count of each block is
  the number of handles that hold it, that a block is freed exactly when nothing holds it, and
  that the shared empty block has no count. Under it a write through one handle, in place or
  not, is never seen through another.
*/
module CowString {
  import opened SharedData
  import opened Transcoder

  /** The count of a block that is never freed. */
  const PERSISTENT := -1

  /** A string block. Its text is stored with a terminator; a block of capacity 0 is never written. */
  class Block {
    const capacity: nat
    var ref: int
    var text: seq<Unit>
    var freed: bool

    constructor (capacity: nat, ref: int, text: seq<Unit>)
      ensures this.capacity == capacity && this.ref == ref && this.text == text && !freed
    {
      this.capacity, this.ref, this.text := capacity, ref, text;
      freed := false;
    }

    // ---- the reference count ----

    method Increment()
      modifies this`ref
      ensures ref == if old(ref) == PERSISTENT then PERSISTENT else old(ref) + 1
    {
      if ref != PERSISTENT {
        ref := ref + 1;
      }
    }

    method Decrement() returns (left: int)
      modifies this`ref
      ensures ref == if old(ref) == PERSISTENT then PERSISTENT else old(ref) - 1
      ensures left == if old(ref) == PERSISTENT then 1 else ref
    {
      if ref != PERSISTENT {
        ref := ref - 1;
        return ref;
      }
      return 1;
    }

    /** lock: takes the block of a sole holder by setting its count from 1 to 2. */
    method Lock() returns (owned: bool)
      modifies this`ref
      ensures owned <==> old(ref) == 1
      ensures ref == if owned then 2 else old(ref)
    {
      if ref == 1 {
        ref := 2;
        return true;
      }
      return false;
    }
  }

  class Handle {
    var block: Block

    constructor (block: Block)
      ensures this.block == block
    {
      this.block := block;
    }
  }

  // ---- how many handles hold a block ----

  ghost function Count(at: map<Handle, Block>, b: Block): nat {
    |Holders(at, b)|
  }

  ghost function Holders(at: map<Handle, Block>, b: Block): set<Handle> {
    set h | h in at && at[h] == b
  }

  function One(yes: bool): nat {
    if yes then 1 else 0
  }

  lemma CountAdded(at: map<Handle, Block>, h: Handle, b: Block, d: Block)
    requires h !in at
    ensures Count(at[h := b], d) == Count(at, d) + One(d == b)
  {
    if d == b {
      assert Holders(at[h := b], d) == Holders(at, d) + {h};
    } else {
      assert Holders(at[h := b], d) == Holders(at, d);
    }
  }

  lemma CountDropped(at: map<Handle, Block>, h: Handle, d: Block)
    requires h in at
    ensures Count(at, d) == Count(at - {h}, d) + One(d == at[h])
  {
    CountAdded(at - {h}, h, at[h], d);
    assert (at - {h})[h := at[h]] == at;
  }

  lemma CountMoved(at: map<Handle, Block>, h: Handle, b: Block, d: Block)
    requires h in at
    ensures Count(at[h := b], d) + One(d == at[h]) == Count(at, d) + One(d == b)
  {
    CountDropped(at, h, d);
    CountDropped(at[h := b], h, d);
    assert at[h := b] - {h} == at - {h};
  }

  lemma CountSwapped(at: map<Handle, Block>, h: Handle, g: Handle, d: Block)
    requires h in at && g in at
    ensures Count(at[h := at[g]][g := at[h]], d) == Count(at, d)
  {
    CountMoved(at, h, at[g], d);
    CountMoved(at[h := at[g]], g, at[h], d);
  }

  lemma OnlyHolder(at: map<Handle, Block>, h: Handle)
    requires h in at && Count(at, at[h]) == 1
    ensures Holders(at, at[h]) == {h}
  {
    assert h in Holders(at, at[h]);
    assert |Holders(at, at[h]) - {h}| == 0;
  }

  lemma CountHeld(at: map<Handle, Block>, h: Handle)
    requires h in at
    ensures Count(at, at[h]) > 0
  {
    assert h in Holders(at, at[h]);
  }

  /** The temporary of the assignment operators leaves no trace. */
  lemma AssignedThrough(at: map<Handle, Block>, t: Handle, h: Handle, e: Block, b: Block)
    requires t !in at && h in at
    ensures var at1 := at[t := e]; at1[h := at1[t]][t := at1[h]][h := b] - {t} == at[h := b]
  {
    var at1 := at[t := e];
    var at2 := at1[h := at1[t]][t := at1[h]][h := b] - {t};
    assert at2.Keys == at.Keys;
  }

  lemma MovedThrough(at: map<Handle, Block>, t: Handle, h: Handle, g: Handle, e: Block)
    requires t !in at && h in at && g in at && h != g
    ensures var at1 := at[t := at[g]][g := e];
            at1[h := at1[t]][t := at1[h]] - {t} == at[g := e][h := at[g]]
  {
    var at1 := at[t := at[g]][g := e];
    var at2 := at1[h := at1[t]][t := at1[h]] - {t};
    assert at2.Keys == at.Keys;
  }

  lemma AppendedThrough(at: map<Handle, Block>, t: Handle, h: Handle, sd: Block)
    requires t !in at && h in at
    ensures var at1 := at[t := sd]; at1[h := at1[t]][t := at1[h]] - {t} == at[h := sd]
  {
    var at1 := at[t := sd];
    var at2 := at1[h := at1[t]][t := at1[h]] - {t};
    assert at2.Keys == at.Keys;
  }

  /** All strings of a program: where its handles are, and the counted blocks made so far. */
  class Strings {
    const empty: Block
    const header: nat
    ghost var at: map<Handle, Block>
    ghost var blocks: set<Block>

    /** Each counted block has as many references as handles on it, and is freed exactly when there is none. */
    ghost predicate Valid()
      reads this, at.Keys, blocks, empty
    {
      16 <= header && empty.ref == PERSISTENT && empty.text == [] && empty.capacity == 0 && !empty.freed &&
      empty !in blocks &&
      (forall h :: h in at ==> h.block == at[h] && (at[h] == empty || at[h] in blocks)) &&
      (forall b :: b in blocks ==>
        b.ref == Count(at, b) && (b.freed <==> Count(at, b) == 0) && |b.text| + 1 <= b.capacity)
    }

    ghost function Text(h: Handle): seq<Unit>
      reads h, h.block
    {
      h.block.text
    }

    constructor (header: nat)
      requires 16 <= header
      ensures Valid() && at == map[] && blocks == {}
    {
      empty := new Block(0, PERSISTENT, []);
      this.header := header;
      at, blocks := map[], {};
    }

    // ---- construction and destruction ----

    method NewEmpty() returns (h: Handle)
      requires Valid()
      modifies this`at
      ensures Valid() && fresh(h) && at == old(at)[h := empty]
    {
      h := new Handle(empty);
      forall d { CountAdded(at, h, empty, d); }
      at := at[h := empty];
    }

    /** A handle on a new block; the block has one reference. */
    method Adopt(capacity: nat, text: seq<Unit>) returns (h: Handle)
      requires Valid() && |text| + 1 <= capacity
      modifies this`at, this`blocks
      ensures Valid() && fresh(h) && fresh(h.block) && at == old(at)[h := h.block] && blocks == old(blocks) + {h.block}
      ensures h.block.text == text && h.block.capacity == capacity
    {
      var sd := new Block(capacity, 1, text);
      h := new Handle(sd);
      assert Holders(at, sd) == {} && sd !in blocks;
      CountAdded(at, h, sd, sd);
      forall d | d in blocks ensures Count(at[h := sd], d) == Count(at, d) { CountAdded(at, h, sd, d); }
      at := at[h := sd];
      blocks := blocks + {sd};
    }

    /** Construction from units: an empty text, or a failed allocation, gives the shared empty block. */
    method FromUnits(text: seq<Unit>, fails: bool) returns (h: Handle)
      requires Valid()
      modifies this`at, this`blocks
      ensures Valid() && fresh(h) && at == old(at)[h := h.block]
      ensures Text(h) == if fails then [] else text
    {
      if text == [] || fails {
        h := NewEmpty();
      } else {
        h := Adopt(|text| + 1, text);
      }
    }

    /** Copy construction. */
    method Copy(g: Handle) returns (h: Handle)
      requires Valid() && g in at
      modifies this`at, g.block`ref
      ensures Valid() && fresh(h) && at == old(at)[h := g.block] && Text(h) == old(Text(g))
    {
      h := new Handle(g.block);
      CountHeld(at, g);
      forall d { CountAdded(at, h, g.block, d); }
      h.block.Increment();
      at := at[h := g.block];
    }

    method Swap(h: Handle, g: Handle)
      requires Valid() && h in at && g in at
      modifies this`at, h`block, g`block
      ensures Valid() && at == old(at)[h := old(at)[g]][g := old(at)[h]]
    {
      forall d { CountSwapped(at, h, g, d); }
      h.block, g.block := g.block, h.block;
      at := at[h := at[g]][g := at[h]];
    }

    /** Move construction leaves the source empty. */
    method Move(g: Handle) returns (h: Handle)
      requires Valid() && g in at
      modifies this`at, g`block
      ensures Valid() && fresh(h) && at == old(at)[h := old(at)[g]][g := empty]
    {
      h := NewEmpty();
      Swap(h, g);
    }

    /** Destruction; the block goes with its last handle. */
    method Destroy(h: Handle)
      requires Valid() && h in at
      modifies this`at, h.block`ref, h.block`freed
      ensures Valid() && at == old(at) - {h}
    {
      forall d { CountDropped(at, h, d); }
      var left := h.block.Decrement();
      at := at - {h};
      if left == 0 {
        h.block.freed := true;
      }
    }

    // ---- assignment ----

    /** A string that is empty takes hold of another's block. */
    method Retarget(h: Handle, g: Handle)
      requires Valid() && h in at && g in at && h.block == empty
      modifies this`at, h`block, g.block`ref
      ensures Valid() && at == old(at)[h := old(at)[g]]
    {
      CountHeld(at, g);
      forall d { CountMoved(at, h, at[g], d); }
      h.block := g.block;
      h.block.Increment();
      at := at[h := at[g]];
    }

    /** Copy assignment. */
    method Assign(h: Handle, g: Handle)
      requires Valid() && h in at && g in at
      modifies this`at, h`block, h.block`ref, h.block`freed, g.block`ref
      ensures Valid() && at == old(at)[h := old(at)[g]] && Text(h) == old(Text(g))
    {
      if h.block != g.block {
        ghost var was := at;
        var t := NewEmpty();
        Swap(h, t);
        Retarget(h, g);
        Destroy(t);
        AssignedThrough(was, t, h, empty, was[g]);
      }
    }

    /** Move assignment: the source becomes empty, unless both already share a block. */
    method MoveAssign(h: Handle, g: Handle)
      requires Valid() && h in at && g in at
      modifies this`at, h`block, g`block, h.block`ref, h.block`freed
      ensures Valid() && at == if old(at)[h] == old(at)[g] then old(at) else old(at)[g := empty][h := old(at)[g]]
    {
      if h.block != g.block {
        ghost var was := at;
        var t := Move(g);
        Swap(h, t);
        Destroy(t);
        MovedThrough(was, t, h, g, empty);
      }
    }

    // ---- append ----

    /** No other handle holds the string's block, and there is room in it for more text and the terminator. */
    ghost predicate FitsAlone(h: Handle, more: seq<Unit>)
      reads this`at, h, h.block
    {
      Holders(at, h.block) == {h} && |h.block.text| + |more| + 1 <= h.block.capacity
    }

    /** The branch of append that writes into the string's own block: only if no other handle holds it. */
    method AppendInPlace(h: Handle, text: seq<Unit>) returns (done: bool)
      requires Valid() && h in at
      modifies h.block`ref, h.block`text
      ensures Valid() && Text(h) == old(Text(h)) + if done then text else []
      ensures done <==> old(FitsAlone(h, text))
      ensures done ==> Holders(at, h.block) == {h}
    {
      if h.block.capacity != 0 {
        if h.block.capacity >= |h.block.text| + |text| + 1 {
          var owned := h.block.Lock();
          if owned {
            OnlyHolder(at, h);
            h.block.text := h.block.text + text;
            var _ := h.block.Decrement();
            return true;
          }
        }
      }
      return false;
    }

    /** The branch of append that moves the string to a new, larger block. */
    method AppendAnew(h: Handle, text: seq<Unit>)
      requires Valid() && h in at && text != []
      modifies this`at, this`blocks, h`block, h.block`ref, h.block`freed
      ensures Valid() && fresh(h.block) && at == old(at)[h := h.block]
      ensures Text(h) == old(Text(h)) + text
      ensures h.block.capacity == GrowTo(old(|Text(h)|) + 1, old(|Text(h)|) + |text| + 1, 2, header)
    {
      hide GrowTo, Strings.FitsAlone;
      ghost var was := at;
      var now := |h.block.text|;
      var t := Adopt(GrowTo(now + 1, now + |text| + 1, 2, header), h.block.text + text);
      ghost var sd := t.block;
      Swap(h, t);
      Destroy(t);
      AppendedThrough(was, t, h, sd);
    }

    /**
      append: it changes the text of its own handle only. Units that start with a zero are not
      appended; a failed allocation changes nothing.
    */
    method Append(h: Handle, text: seq<Unit>, fails: bool) returns (ok: bool)
      requires Valid() && h in at
      modifies this`at, this`blocks, h`block, h.block
      ensures Valid() && at.Keys == old(at).Keys
      ensures Text(h) == old(Text(h)) + if ok && text != [] && text[0] != 0 then text else []
      ensures forall g :: g in at && g != h ==> g.block == old(g.block) && Text(g) == old(Text(g))
      ensures ok <==> !fails || text == [] || text[0] == 0 || old(FitsAlone(h, text))
    {
      if text == [] || text[0] == 0 {
        return true;
      }
      var done := AppendInPlace(h, text);
      if done {
        assert forall g :: g in at && at[g] == h.block ==> g in Holders(at, h.block);
        return true;
      }
      if fails {
        return false;
      }
      AppendAnew(h, text);
      return true;
    }
  }
}
