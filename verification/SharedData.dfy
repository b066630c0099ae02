/** Capacities of string blocks: the power-of-two bit trick and the two growth rules. */
module SharedData {
  import Bits

  // ---- nextPowerOfTwo ----

  function NextPowerOfTwo32(x: bv32): bv32 {
    var a := x | (x >> 1);
    var b := a | (a >> 2);
    var c := b | (b >> 4);
    var d := c | (c >> 8);
    var e := d | (d >> 16);
    e + 1
  }

  function NextPowerOfTwo64(x: bv64): bv64 {
    var a := x | (x >> 1);
    var b := a | (a >> 2);
    var c := b | (b >> 4);
    var d := c | (c >> 8);
    var e := d | (d >> 16);
    var g := e | (e >> 32);
    g + 1
  }

  predicate IsPower32(p: bv32) {
    p != 0 && p & (p - 1) == 0
  }

  predicate IsPower64(p: bv64) {
    p != 0 && p & (p - 1) == 0
  }

  /** Unless the word overflows, the result is the least power of two strictly above the argument. */
  lemma LeastPower32(x: bv32, p: bv32)
    ensures x < 0x8000_0000 <==> NextPowerOfTwo32(x) != 0
    ensures x < 0x8000_0000 ==> IsPower32(NextPowerOfTwo32(x)) && x < NextPowerOfTwo32(x)
    ensures x < 0x8000_0000 && IsPower32(p) && x < p ==> NextPowerOfTwo32(x) <= p
  {
  }

  lemma LeastPower64(x: bv64, p: bv64)
    ensures x < 0x8000_0000_0000_0000 <==> NextPowerOfTwo64(x) != 0
    ensures x < 0x8000_0000_0000_0000 ==> IsPower64(NextPowerOfTwo64(x)) && x < NextPowerOfTwo64(x)
    ensures x < 0x8000_0000_0000_0000 && IsPower64(p) && x < p ==> NextPowerOfTwo64(x) <= p
  {
  }

  // ---- the same as numbers ----

  /** The least power of two strictly above n, as a number. */
  function PowerAbove(n: nat): (p: nat)
    ensures n < p <= 2 * n + 1
  {
    if n == 0 then 1 else 2 * PowerAbove(n / 2)
  }

  ghost predicate IsPower(p: nat) {
    p == 1 || (p > 0 && p % 2 == 0 && IsPower(p / 2))
  }

  lemma {:induction false} PowerAboveIsLeast(n: nat, p: nat)
    ensures IsPower(PowerAbove(n))
    ensures IsPower(p) && n < p ==> PowerAbove(n) <= p
    decreases n
  {
    if n > 0 {
      PowerAboveIsLeast(n / 2, p / 2);
      assert PowerAbove(n) / 2 == PowerAbove(n / 2);
    }
  }

  lemma {:induction false} PowerAboveTwice(n: nat)
    ensures PowerAbove(PowerAbove(n)) == 2 * PowerAbove(n)
  {
    if n > 0 {
      PowerAboveTwice(n / 2);
      assert PowerAbove(n) / 2 == PowerAbove(n / 2);
    }
  }

  /** The number a word stands for. */
  function Number32(x: bv32): nat
    decreases x
  {
    if x == 0 then 0 else 2 * Number32(x >> 1) + (if x & 1 == 1 then 1 else 0)
  }

  function Number64(x: bv64): nat
    decreases x
  {
    if x == 0 then 0 else 2 * Number64(x >> 1) + (if x & 1 == 1 then 1 else 0)
  }

  lemma {:induction false} NotZero32(x: bv32)
    requires x != 0
    ensures Number32(x) > 0
    decreases x
  {
    if x & 1 != 1 { NotZero32(x >> 1); }
  }

  /** The trick on a word is twice the trick on its half. */
  lemma HalfTrick32(x: bv32)
    requires 0 < x < 0x8000_0000
    ensures x >> 1 < x && x >> 1 < 0x8000_0000
    ensures NextPowerOfTwo32(x) != 0 && NextPowerOfTwo32(x) >> 1 == NextPowerOfTwo32(x >> 1) &&
      NextPowerOfTwo32(x) & 1 == 0
  {
  }

  lemma TrickOfZero32()
    ensures Number32(NextPowerOfTwo32(0)) == 1
  {
    assert NextPowerOfTwo32(0) == 1;
    assert Number32(1) == 1;
  }

  /** Below the overflow the trick computes the least power of two above the number. */
  lemma {:induction false} TrickIsPowerAbove32(x: bv32)
    requires x < 0x8000_0000
    ensures Number32(NextPowerOfTwo32(x)) == PowerAbove(Number32(x))
    decreases x
  {
    hide NextPowerOfTwo32;
    if x == 0 {
      TrickOfZero32();
    } else {
      HalfTrick32(x);
      TrickIsPowerAbove32(x >> 1);
      NotZero32(x);
    }
  }

  lemma {:induction false} NotZero64(x: bv64)
    requires x != 0
    ensures Number64(x) > 0
    decreases x
  {
    if x & 1 != 1 { NotZero64(x >> 1); }
  }

  lemma EvenTrick64(x: bv64)
    requires 0 < x < 0x8000_0000_0000_0000
    ensures NextPowerOfTwo64(x) != 0 && NextPowerOfTwo64(x) & 1 == 0
  {
  }

  lemma ShiftedTrick64(x: bv64)
    requires 0 < x < 0x8000_0000_0000_0000
    ensures NextPowerOfTwo64(x) >> 1 == NextPowerOfTwo64(x >> 1)
  {
  }

  /** The trick on a word is twice the trick on its half. */
  lemma HalfTrick64(x: bv64)
    requires 0 < x < 0x8000_0000_0000_0000
    ensures x >> 1 < x && x >> 1 < 0x8000_0000_0000_0000
    ensures NextPowerOfTwo64(x) != 0 && NextPowerOfTwo64(x) >> 1 == NextPowerOfTwo64(x >> 1) &&
      NextPowerOfTwo64(x) & 1 == 0
  {
    hide NextPowerOfTwo64;
    EvenTrick64(x);
    ShiftedTrick64(x);
  }

  lemma TrickOfZero64()
    ensures Number64(NextPowerOfTwo64(0)) == 1
  {
    assert NextPowerOfTwo64(0) == 1;
    assert Number64(1) == 1;
  }

  /** Below the overflow the trick computes the least power of two above the number. */
  lemma {:induction false} TrickIsPowerAbove64(x: bv64)
    requires x < 0x8000_0000_0000_0000
    ensures Number64(NextPowerOfTwo64(x)) == PowerAbove(Number64(x))
    decreases x
  {
    hide NextPowerOfTwo64;
    if x == 0 {
      TrickOfZero64();
    } else {
      HalfTrick64(x);
      TrickIsPowerAbove64(x >> 1);
      NotZero64(x);
    }
  }

  // ---- growth ----

  const PAGE := 4096

  function RoundUpPage(x: nat): (r: nat)
    ensures x <= r < x + PAGE && r % PAGE == 0
  {
    (x + PAGE - 1) / PAGE * PAGE
  }

  /** The bytes asked for in place of a block of `existing` bytes, and for one of `needed` bytes. */
  function Larger(existing: nat): (required: nat)
    requires 16 <= existing
    ensures existing < required
  {
    if existing < 4084 then
      PowerAboveTwice(existing);
      var p := PowerAbove(existing);
      (if p - 12 <= existing then PowerAbove(p) else p) - 12
    else RoundUpPage(existing) + PAGE
  }

  function LargeEnough(existing: nat, needed: nat): (required: nat)
    requires 16 <= existing < needed
    ensures needed <= required
  {
    if existing < 4084 then
      PowerAboveTwice(needed);
      var p := PowerAbove(needed);
      (if p - 12 < needed then PowerAbove(p) else p) - 12
    else Bits.Max(RoundUpPage(existing + PAGE), RoundUpPage(needed))
  }

  /** A small block becomes the least power of two less 12 that exceeds it; a large one whole pages, one more than
      it takes. */
  lemma LargerIsLeast(existing: nat, p: nat)
    requires 16 <= existing
    ensures existing < 4084 ==>
      IsPower(Larger(existing) + 12) && (IsPower(p) && existing < p - 12 ==> Larger(existing) + 12 <= p)
    ensures existing >= 4084 ==>
      Larger(existing) % PAGE == 0 && existing + PAGE <= Larger(existing) < existing + 2 * PAGE
  {
    if existing < 4084 {
      LeastWithSlack(existing, p);
    } else {
      assert (RoundUpPage(existing) + PAGE) % PAGE == 0;
    }
  }

  /** The same for a wanted size: no block of this kind between it and the size wanted. */
  lemma LargeEnoughIsLeast(existing: nat, needed: nat, p: nat)
    requires 16 <= existing < needed
    ensures existing < 4084 ==>
      IsPower(LargeEnough(existing, needed) + 12) &&
      (IsPower(p) && needed <= p - 12 ==> LargeEnough(existing, needed) + 12 <= p)
    ensures existing >= 4084 ==>
      LargeEnough(existing, needed) % PAGE == 0 &&
      0 <= LargeEnough(existing, needed) - Bits.Max(existing + PAGE, needed) < PAGE
  {
    if existing < 4084 {
      LeastWithSlack(needed - 1, p);
      LeastWithSlack(needed, p);
      PowerAboveIsLeast(needed, p);
      PowerAboveTwice(needed);
      PowerAboveIsLeast(PowerAbove(needed), p);
    }
  }

  /** Doubling once is enough to leave 12 bytes unused. */
  lemma LeastWithSlack(n: nat, p: nat)
    requires 13 <= n
    ensures var q := PowerAbove(n); var r := if q - 12 <= n then PowerAbove(q) else q;
            IsPower(r) && n < r - 12 && (IsPower(p) && n < p - 12 ==> r <= p)
  {
    var q := PowerAbove(n);
    PowerAboveIsLeast(n, p);
    PowerAboveTwice(n);
    PowerAboveIsLeast(q, p);
  }

  /** The capacity is what the block has room for, and no less. */
  lemma GrowFills(current: nat, wanted: nat, unit: nat, header: nat)
    requires 1 <= unit && 16 <= header && current < wanted
    ensures var required := Larger(BlockSize(current, unit, header)); var c := Grow(current, unit, header);
            BlockSize(c, unit, header) <= required < BlockSize(c + 1, unit, header)
    ensures BlockSize(current, unit, header) < BlockSize(wanted, unit, header)
    ensures var required := LargeEnough(BlockSize(current, unit, header), BlockSize(wanted, unit, header));
            var c := GrowTo(current, wanted, unit, header);
            BlockSize(c, unit, header) <= required < BlockSize(c + 1, unit, header)
  {
    hide Larger, LargeEnough;
    BlockSizeOrder(current, wanted, unit, header);
    Filled(Larger(BlockSize(current, unit, header)), unit, header);
    Filled(LargeEnough(BlockSize(current, unit, header), BlockSize(wanted, unit, header)), unit, header);
  }

  lemma Filled(required: nat, unit: nat, header: nat)
    requires 1 <= unit && header <= required
    ensures var c := (required - header) / unit;
            BlockSize(c, unit, header) <= required < BlockSize(c + 1, unit, header)
  {
    var q, r := (required - header) / unit, (required - header) % unit;
    assert q * unit + r == required - header;
    assert (q + 1) * unit == q * unit + unit;
  }

  /** The size of a block for `capacity` units of `unit` bytes behind a header. */
  function BlockSize(capacity: nat, unit: nat, header: nat): (size: nat)
    ensures header <= size
  {
    capacity * unit + header
  }

  lemma BlockSizeOrder(c: nat, d: nat, unit: nat, header: nat)
    requires c < d && 1 <= unit
    ensures BlockSize(c, unit, header) < BlockSize(d, unit, header)
  {
    assert d * unit == c * unit + (d - c) * unit;
    Positive(d - c, unit);
  }

  lemma Positive(k: int, unit: nat)
    requires 1 <= unit
    ensures k * unit > 0 <==> k > 0
  {
  }

  /** grow to more than the current capacity; `unit` is the size of an element, `header` that of the block's header. */
  function Grow(current: nat, unit: nat, header: nat): (capacity: nat)
    requires 1 <= unit && 16 <= header
    ensures current <= capacity
  {
    var required := Larger(BlockSize(current, unit, header));
    RoomFor(required, current, unit, header);
    (required - header) / unit
  }

  /** grow to at least a wanted capacity. */
  function GrowTo(current: nat, wanted: nat, unit: nat, header: nat): (capacity: nat)
    requires 1 <= unit && 16 <= header && current < wanted
    ensures wanted <= capacity
  {
    BlockSizeOrder(current, wanted, unit, header);
    var required := LargeEnough(BlockSize(current, unit, header), BlockSize(wanted, unit, header));
    RoomFor(required, wanted, unit, header);
    (required - header) / unit
  }

  /** Room for n units and the header is a capacity of at least n. */
  lemma RoomFor(required: nat, n: nat, unit: nat, header: nat)
    requires 1 <= unit && BlockSize(n, unit, header) <= required
    ensures n <= (required - header) / unit
  {
    var q, r := (required - header) / unit, (required - header) % unit;
    assert q * unit + r == required - header;
    assert (q + 1 - n) * unit == q * unit + unit - n * unit;
    Positive(q + 1 - n, unit);
  }

  /**
    The retry loop of formatV, for a text of `need` characters: the buffer grows every round,
    so the loop ends, with a block that holds the text and its terminator.
  */
  method FormatV(formatLength: nat, need: nat, unit: nat, header: nat) returns (capacity: nat, rounds: nat)
    requires 1 <= unit && 16 <= header
    ensures need + 1 < capacity
    ensures rounds <= 1 + (if need < formatLength then 0 else need + 1 - formatLength)
  {
    var bufferSize := formatLength;
    rounds := 0;
    var fits := false;
    capacity := 0;
    while !fits
      invariant formatLength + rounds <= bufferSize
      invariant fits ==>
        need + 1 < capacity && rounds <= 1 + (if need < formatLength then 0 else need + 1 - formatLength)
      invariant !fits ==> rounds == 0 || formatLength + rounds - 1 <= need
      decreases !fits, need + 2 - bufferSize
    {
      capacity := Grow(bufferSize + 1, unit, header);
      fits := need + 1 <= bufferSize;
      bufferSize := capacity;
      rounds := rounds + 1;
    }
  }
}
