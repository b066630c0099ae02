/** The growing byte buffer of the JSON engine, on machine words. */
module StrBuffer {
  import Bits
  import opened Utf8

  const MIN_SIZE := 16
  const FACTOR := 2

  class Buffer {
    const sizeMax: nat
    var value: array<Byte>
    var length: nat
    var size: nat

    /** The text is closed by a NUL, and there is always room for it. */
    ghost predicate Valid()
      reads this, value
    {
      sizeMax in {0xFFFF_FFFF, 0xFFFF_FFFF_FFFF_FFFF} && length < size == value.Length <= sizeMax && value[length] == 0
    }

    ghost function Text(): Bytes
      requires Valid()
      reads this, value
    {
      value[..length]
    }

    /** What a computation leaves in a word of type size_t. */
    function Word(x: int): int {
      if sizeMax == 0xFFFF_FFFF then x % 0x1_0000_0000 else x % 0x1_0000_0000_0000_0000
    }

    lemma WordFits(x: int)
      requires sizeMax in {0xFFFF_FFFF, 0xFFFF_FFFF_FFFF_FFFF} && 0 <= x <= sizeMax
      ensures Word(x) == x
    {
    }

    /** strbuffer_init */
    constructor (sizeMax: nat)
      requires sizeMax in {0xFFFF_FFFF, 0xFFFF_FFFF_FFFF_FFFF}
      ensures Valid() && fresh(value) && Text() == [] && this.sizeMax == sizeMax
    {
      this.sizeMax := sizeMax;
      size, length := MIN_SIZE, 0;
      value := new Byte[MIN_SIZE](i => 0);
    }

    /** The text and `extra` more bytes, NUL included, could not be counted in a word, or twice the size could not. */
    ghost predicate Overflows(extra: nat)
      reads this
    {
      size * FACTOR > sizeMax || length + extra + 1 > sizeMax
    }

    /** The growing part of strbuffer_append_bytes. */
    method Grow(extra: nat, allocates: bool) returns (rc: int)
      requires Valid() && extra <= sizeMax && length + extra >= size
      modifies this`value, this`size
      ensures Valid() && rc in {0, -1} && (rc == -1 <==> old(Overflows(extra)) || !allocates)
      ensures value[..length] == old(value[..length])
      ensures if rc == 0 then fresh(value) && size == Bits.Max(old(size) * FACTOR, length + extra + 1)
              else value == old(value) && size == old(size)
    {
      hide Word;
      WordFits(sizeMax - 1);
      if size > sizeMax / FACTOR || extra > Word(sizeMax - 1) {
        return -1;
      }
      WordFits(sizeMax - 1 - extra);
      if length > Word(sizeMax - 1 - extra) {
        return -1;
      }
      if !allocates {
        return -1;
      }
      WordFits(size * FACTOR);
      WordFits(length + extra + 1);
      var doubled, needed := Word(size * FACTOR), Word(length + extra + 1);
      var newSize := Bits.Max(doubled, needed);
      var newValue := new Byte[newSize](i => 0);
      forall i | 0 <= i < length { newValue[i] := value[i]; }
      value := newValue;
      size := newSize;
      return 0;
    }

    /**
      strbuffer_append_bytes: it fails exactly if the bytes and the NUL do not fit what is
      allocated and no more can be had, by the words or by the allocator, and then changes nothing.
    */
    method AppendBytes(data: Bytes, allocates: bool) returns (rc: int)
      requires Valid() && |data| <= sizeMax
      modifies this`value, this`length, this`size, value
      ensures Valid() && rc in {0, -1} && (fresh(value) || value == old(value))
      ensures rc == -1 <==> old(length) + |data| >= old(size) && (old(Overflows(|data|)) || !allocates)
      ensures Text() == if rc == 0 then old(Text()) + data else old(Text())
      ensures size == old(size) || size >= old(size) * FACTOR
    {
      WordFits(size - length);
      ghost var text := Text();
      if |data| >= Word(size - length) {
        rc := Grow(|data|, allocates);
        if rc != 0 {
          return -1;
        }
      }
      forall i | 0 <= i < |data| { value[length + i] := data[i]; }
      assert value[..length + |data|] == text + data;
      length := length + |data|;
      value[length] := 0;
      return 0;
    }

    /** strbuffer_pop */
    method Pop() returns (c: Byte)
      requires Valid()
      modifies this`length, value
      ensures Valid()
      ensures old(Text()) == [] ==> c == 0 && Text() == []
      ensures old(Text()) != [] ==> old(Text()) == Text() + [c]
    {
      if length > 0 {
        length := length - 1;
        c := value[length];
        value[length] := 0;
        return;
      } else {
        return 0;
      }
    }

    /** strbuffer_clear */
    method Clear()
      requires Valid()
      modifies this`length, value
      ensures Valid() && Text() == []
    {
      length := 0;
      value[0] := 0;
    }
  }
}
