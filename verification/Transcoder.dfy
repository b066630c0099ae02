/** Text between UTF-8 bytes and 16-bit units. */
module Transcoder {
  // The converters of the strings; each has a length pass and a fill pass.

  import opened Options
  import opened Utf8

  type Unit = u: int | 0 <= u < 0x10000

  /**
    What a buffer holds: the units before the first zero, and no more than `length`. The default
    length, the largest word, is more than any memory holds.
  */
  ghost function Text<T>(mem: seq<T>, zero: T, length: nat): (s: seq<T>)
    ensures |s| <= |mem| && |s| <= length && mem[..|s|] == s && zero !in s
    ensures |s| < length && |s| < |mem| ==> mem[|s|] == zero
  {
    if length == 0 || mem == [] || mem[0] == zero then [] else [mem[0]] + Text(mem[1..], zero, length - 1)
  }

  /** What the caller must provide: a terminated buffer, or one of the given length. */
  ghost predicate Readable<T>(mem: seq<T>, zero: T, length: nat) {
    zero in mem || length <= |mem|
  }

  /** Units before the end are not zero, and the end is at the length or at a zero. */
  lemma TextIn<T>(mem: seq<T>, zero: T, length: nat)
    requires Readable(mem, zero, length)
    ensures var s := Text(mem, zero, length);
            (forall j :: 0 <= j < |s| ==> mem[j] == s[j] && mem[j] != zero) &&
            (|s| < length ==> |s| < |mem| && mem[|s|] == zero)
  {
    var s := Text(mem, zero, length);
    forall j | 0 <= j < |s| ensures mem[j] == s[j] && mem[j] != zero {
      assert mem[..|s|][j] == s[j] && s[j] in s;
    }
  }

  /** The bytes of a unit. Surrogates are not paired: each unit stands for itself. */
  function UnitBytes(u: Unit): (s: Bytes)
    ensures 1 <= |s| <= 3
  {
    if u < 0x80 then [u]
    else if u < 0x800 then [0xC0 + u / 0x40, 0x80 + u % 0x40]
    else [0xE0 + u / 0x1000, 0x80 + u / 0x40 % 0x40, 0x80 + u % 0x40]
  }

  function ToBytes(us: seq<Unit>): Bytes {
    if us == [] then [] else UnitBytes(us[0]) + ToBytes(us[1..])
  }

  /** How many bytes a first byte asks for; 0 for a byte that cannot come first. */
  function Width(b: Byte): nat {
    if b < 0x80 then 1 else if b < 0xC0 then 0 else if b < 0xE0 then 2 else 3
  }

  /** The unit of a first byte and those after it; only their low bits count. */
  function UnitOf(s: Bytes): Unit
    requires s != [] && 1 <= Width(s[0]) <= |s|
  {
    if Width(s[0]) == 1 then s[0]
    else if Width(s[0]) == 2 then Low(s[0], 0x20) * 0x40 + Low(s[1], 0x80)
    else (Low(s[0], 0x10) * 0x1000 + Low(s[1], 0x80) * 0x40 + Low(s[2], 0x80)) % 0x10000
  }

  /** The units of a byte string: a truncated end is dropped, and a stray continuation byte spoils all. */
  function ToUnits(s: Bytes): Option<seq<Unit>> {
    if s == [] then Some([])
    else if Width(s[0]) == 0 then None
    else if |s| < Width(s[0]) then Some([])
    else
      match ToUnits(s[Width(s[0])..])
      case None => None
      case Some(us) => Some([UnitOf(s)] + us)
  }

  // ---- the bytes are UTF-8 ----

  /** Half of a surrogate pair. */
  predicate Surrogate(u: Unit) {
    0xD800 <= u <= 0xDFFF
  }

  /** A unit that is no surrogate is written as its UTF-8 character; a surrogate as the three bytes that UTF-8
      leaves out. */
  lemma UnitIsEncoded(u: Unit)
    ensures !Surrogate(u) ==> UnitBytes(u) == Encode(u)
    ensures Surrogate(u) ==>
      UnitBytes(u) == [0xED, 0xA0 + (u - 0xD800) / 0x40, 0x80 + u % 0x40] &&
      0xA0 <= UnitBytes(u)[1] <= 0xBF && Tail(UnitBytes(u)[2])
  {
    assert u == u / 0x40 * 0x40 + u % 0x40 && u / 0x1000 == u / 0x40 / 0x40;
  }

  /** A byte string that starts with a surrogate's bytes is not well formed. */
  lemma SurrogateIllFormed(u: Unit, t: Bytes)
    requires Surrogate(u)
    ensures !WellFormed(UnitBytes(u) + t)
  {
    hide UnitBytes, WellFormed;
    UnitIsEncoded(u);
    var s := UnitBytes(u) + t;
    WellFormedStep(s);
    assert s[..3] == UnitBytes(u);
  }

  /** Text without surrogates becomes its UTF-8 encoding; text with one becomes no UTF-8 at all. */
  lemma {:induction false} BytesAreUtf8(us: seq<Unit>)
    ensures (forall i :: 0 <= i < |us| ==> !Surrogate(us[i])) <==> WellFormed(ToBytes(us))
    ensures WellFormed(ToBytes(us)) ==> ToBytes(us) == EncodeAll(us)
  {
    hide UnitBytes, WellFormed, Encode;
    NothingEncoded();
    if us != [] {
      BytesAreUtf8(us[1..]);
      UnitIsEncoded(us[0]);
      if Surrogate(us[0]) {
        SurrogateIllFormed(us[0], ToBytes(us[1..]));
      } else {
        EncodeIsChar(us[0]);
        CharWellFormed(Encode(us[0]));
        WellFormedConcat(UnitBytes(us[0]), ToBytes(us[1..]));
        assert us == [us[0]] + us[1..];
      }
    }
  }

  // ---- the round trip ----

  lemma DigitsOfUnit(u: Unit)
    requires 0x800 <= u
    ensures u / 0x1000 < 0x10 && (u / 0x1000) * 0x1000 + (u / 0x40 % 0x40) * 0x40 + u % 0x40 == u
  {
    var q := u / 0x40;
    assert u == q * 0x40 + u % 0x40 && q == q / 0x40 * 0x40 + q % 0x40 && u / 0x1000 == q / 0x40;
  }

  lemma LowDigit(b: Byte, base: int, d: int, m: int)
    requires b == base + d && 0 <= d < m
    requires (base == 0xC0 && m == 0x20) || (base == 0xE0 && m == 0x10) || (base == 0x80 && m == 0x80)
    ensures Low(b, m) == d
  {
  }

  lemma UnitReadBack(u: Unit, rest: Bytes)
    ensures var s := UnitBytes(u) + rest;
            Width(s[0]) == |UnitBytes(u)| && UnitOf(s) == u && s[|UnitBytes(u)|..] == rest
  {
    if 0x80 <= u < 0x800 {
      LowDigit(0xC0 + u / 0x40, 0xC0, u / 0x40, 0x20);
      LowDigit(0x80 + u % 0x40, 0x80, u % 0x40, 0x80);
    } else if 0x800 <= u {
      DigitsOfUnit(u);
      LowDigit(0xE0 + u / 0x1000, 0xE0, u / 0x1000, 0x10);
      LowDigit(0x80 + u / 0x40 % 0x40, 0x80, u / 0x40 % 0x40, 0x80);
      LowDigit(0x80 + u % 0x40, 0x80, u % 0x40, 0x80);
    }
  }

  /** Any sequence of 16-bit units comes back from its bytes, unpaired surrogates included. */
  lemma {:induction false} UnitsRoundTrip(us: seq<Unit>)
    ensures ToUnits(ToBytes(us)) == Some(us)
  {
    hide UnitOf, UnitBytes, Width;
    if us != [] {
      UnitReadBack(us[0], ToBytes(us[1..]));
      UnitsRoundTrip(us[1..]);
      assert [us[0]] + us[1..] == us;
    }
  }

  /** A character above 0xFFFF is taken for three bytes and a stray one. */
  lemma SupplementarySpoils(v: ScalarValue, t: Bytes)
    requires v >= 0x10000
    ensures ToUnits(Encode(v) + t) == None
  {
    EncodeIsChar(v);
    var s := Encode(v) + t;
    assert IsChar(Encode(v)) && |Encode(v)| == 4 && s[..4] == Encode(v);
    assert s[3] == Encode(v)[3] && s[3..][0] == s[3];
  }

  /** UTF-8 is read to units exactly if it has no character above 0xFFFF, and then each unit is its character. */
  lemma {:induction false} Utf8IsRead(vs: seq<ScalarValue>)
    ensures ToUnits(EncodeAll(vs)).Some? <==> forall i :: 0 <= i < |vs| ==> vs[i] < 0x10000
    ensures ToUnits(EncodeAll(vs)).Some? ==> ToUnits(EncodeAll(vs)).value == vs
  {
    hide UnitBytes, Encode, UnitOf, Width;
    if vs != [] {
      Utf8IsRead(vs[1..]);
      if vs[0] < 0x10000 {
        UnitIsEncoded(vs[0]);
        UnitReadBack(vs[0], EncodeAll(vs[1..]));
        assert vs == [vs[0]] + vs[1..];
      } else {
        SupplementarySpoils(vs[0], EncodeAll(vs[1..]));
      }
    }
  }

  /** Units that are not zero have bytes that are not zero, so the byte string is not cut short. */
  lemma {:induction false} NoZeroBytes(us: seq<Unit>)
    requires 0 !in us
    ensures 0 !in ToBytes(us)
  {
    if us != [] {
      assert us[0] in us;
      NoZeroBytes(us[1..]);
    }
  }

  // ---- from 16-bit units ----

  lemma {:induction false} ToBytesAppend(us: seq<Unit>, u: Unit)
    ensures ToBytes(us + [u]) == ToBytes(us) + UnitBytes(u)
  {
    hide UnitBytes;
    if us == [] {
      assert us + [u] == [u] && [u][1..] == [];
    } else {
      ToBytesAppend(us[1..], u);
      assert (us + [u])[1..] == us[1..] + [u];
    }
  }

  /** One unit more. */
  lemma OneUnit(us: seq<Unit>, i: nat)
    requires i < |us|
    ensures ToBytes(us[..i + 1]) == ToBytes(us[..i]) + UnitBytes(us[i])
  {
    assert us[..i + 1] == us[..i] + [us[i]];
    ToBytesAppend(us[..i], us[i]);
  }

  /** _Utf16ToUtf8Len */
  method Utf16ToUtf8Len(mem: seq<Unit>, length: nat) returns (result: nat)
    requires Readable(mem, 0, length)
    ensures result == |ToBytes(Text(mem, 0, length))|
  {
    hide Text, Readable, UnitBytes;
    result := 0;
    var i, left := 0, length;
    ghost var us := Text(mem, 0, length);
    TextIn(mem, 0, length);
    NothingRead(us);
    while left > 0
      invariant i <= |us| && left == length - i && result == |ToBytes(us[..i])|
    {
      var u := mem[i];
      if u == 0 {
        break;
      }
      OneUnit(us, i);
      result := result + UnitLength(u);
      i, left := i + 1, left - 1;
    }
    assert us[..|us|] == us;
  }

  /** How many bytes the length pass counts for a unit. */
  function UnitLength(u: Unit): (n: nat)
    ensures n == |UnitBytes(u)|
  {
    if u < 0x80 then 1 else if u < 0x800 then 2 else 3
  }

  lemma {:induction false} ToBytesGrows(us: seq<Unit>, i: nat)
    requires i <= |us|
    ensures |ToBytes(us[..i])| <= |ToBytes(us)| && (i < |us| ==> |ToBytes(us[..i])| < |ToBytes(us)|)
    decreases |us| - i
  {
    if i == |us| {
      assert us[..i] == us;
    } else {
      assert us[..i + 1] == us[..i] + [us[i]];
      ToBytesAppend(us[..i], us[i]);
      ToBytesGrows(us, i + 1);
    }
  }

  /** The bytes of one unit, if they fit before `required`. */
  method PutUnit(u: Unit, buffer: array<Byte>, out: nat, required: nat) returns (fits: bool, out': nat)
    requires out < required < buffer.Length
    modifies buffer
    ensures fits <==> out + |UnitBytes(u)| <= required
    ensures fits ==> out' == out + |UnitBytes(u)| && buffer[..out'] == old(buffer[..out]) + UnitBytes(u)
  {
    ghost var before := buffer[..out];
    if u < 0x80 {
      buffer[out] := u;
      out' := out + 1;
    } else if u < 0x800 {
      if out >= required - 1 {
        return false, out;
      }
      buffer[out] := 0xC0 + u / 0x40;
      buffer[out + 1] := 0x80 + u % 0x40;
      out' := out + 2;
    } else {
      if out >= required - 2 {
        return false, out;
      }
      buffer[out] := 0xE0 + u / 0x1000;
      buffer[out + 1] := 0x80 + u / 0x40 % 0x40;
      buffer[out + 2] := 0x80 + u % 0x40;
      out' := out + 3;
    }
    fits := true;
    assert buffer[..out'] == before + UnitBytes(u);
  }

  /** Before the end there is a unit left, and its bytes fit. */
  lemma NextFits(us: seq<Unit>, i: nat)
    requires i <= |us| && |ToBytes(us[..i])| < |ToBytes(us)|
    ensures i < |us| && |ToBytes(us[..i])| + |UnitBytes(us[i])| <= |ToBytes(us)|
    ensures ToBytes(us[..i + 1]) == ToBytes(us[..i]) + UnitBytes(us[i])
  {
    hide UnitBytes, ToBytes;
    assert us[..|us|] == us;
    OneUnit(us, i);
    ToBytesGrows(us, i + 1);
  }

  lemma AllWritten(us: seq<Unit>, i: nat)
    requires i <= |us| && |ToBytes(us[..i])| == |ToBytes(us)|
    ensures ToBytes(us[..i]) == ToBytes(us)
  {
    ToBytesGrows(us, i);
    assert us[..|us|] == us;
  }

  /**
    _fromUtf16: the fill pass writes the bytes the length pass counted, with a zero after them.
    It never meets the zero or the end first, and never has to stop for want of room.
  */
  method FromUtf16(mem: seq<Unit>, length: nat) returns (buffer: array<Byte>, size: nat)
    requires Readable(mem, 0, length)
    ensures fresh(buffer) && buffer.Length == size + 1 && buffer[size] == 0
    ensures buffer[..size] == ToBytes(Text(mem, 0, length))
  {
    hide Text, UnitBytes, ToBytes, Readable;
    var required := Utf16ToUtf8Len(mem, length);
    buffer := new Byte[required + 1](i => 0);
    var out, i, left := 0, 0, length;
    ghost var us := Text(mem, 0, length);
    TextIn(mem, 0, length);
    NothingRead(us);
    assert buffer[..0] == [];
    while out < required && left > 0
      invariant i <= |us| && left == length - i && out <= required && buffer[..out] == ToBytes(us[..i])
    {
      assert |buffer[..out]| == out;
      NextFits(us, i);
      var u := mem[i];
      i, left := i + 1, left - 1;
      if u == 0 {
        break;
      }
      var fits, out' := PutUnit(u, buffer, out, required);
      if !fits {
        break;
      }
      out := out';
    }
    assert |buffer[..out]| == out;
    if out < required { NextFits(us, i); }
    AllWritten(us, i);
    buffer[out] := 0;
    size := out;
  }

  lemma NothingRead(us: seq<Unit>)
    ensures us[..0] == [] && ToBytes(us[..0]) == []
  {
  }

  // ---- from bytes ----

  function Joined(us: seq<Unit>, more: Option<seq<Unit>>): Option<seq<Unit>> {
    match more case None => None case Some(vs) => Some(us + vs)
  }

  /** The units us have been read from s[..i]. */
  ghost predicate ReadUpTo(s: Bytes, i: nat, us: seq<Unit>) {
    i <= |s| && ToUnits(s) == Joined(us, ToUnits(s[i..]))
  }

  lemma ReadNone(s: Bytes)
    ensures ReadUpTo(s, 0, [])
  {
    assert s[0..] == s;
    if ToUnits(s).Some? { assert [] + ToUnits(s).value == ToUnits(s).value; }
  }

  /** The text ends at i, or before the end of the character that starts there. */
  lemma ReadAll(s: Bytes, i: nat, us: seq<Unit>)
    requires ReadUpTo(s, i, us) && (i < |s| ==> 0 < Width(s[i]) && i + Width(s[i]) > |s|)
    ensures ToUnits(s) == Some(us)
  {
    assert us + [] == us;
  }

  lemma ReadStray(s: Bytes, i: nat, us: seq<Unit>)
    requires ReadUpTo(s, i, us) && i < |s| && Width(s[i]) == 0
    ensures ToUnits(s) == None
  {
  }

  lemma ReadChar(s: Bytes, i: nat, us: seq<Unit>)
    requires ReadUpTo(s, i, us) && i < |s| && 0 < Width(s[i]) && i + Width(s[i]) <= |s|
    ensures ReadUpTo(s, i + Width(s[i]), us + [UnitOf(s[i..])])
  {
    var t := s[i..];
    var w := Width(t[0]);
    assert t[w..] == s[i + w..];
    if ToUnits(t[w..]).Some? {
      assert us + ([UnitOf(t)] + ToUnits(t[w..]).value) == us + [UnitOf(t)] + ToUnits(t[w..]).value;
    }
  }

  /** How many units a byte string has: none if it is spoilt. */
  function UnitCount(s: Bytes): nat {
    match ToUnits(s) case None => 0 case Some(us) => |us|
  }

  /** The text ends after the second byte of a character of three. */
  predicate Cut(s: Bytes) {
    s != [] && 0 < Width(s[0]) &&
    if |s| < Width(s[0]) then |s| == 2 else Cut(s[Width(s[0])..])
  }

  /** Reading on over whole characters meets the same end. */
  lemma CutFrom(s: Bytes, i: nat)
    requires i < |s| && 0 < Width(s[i]) && i + Width(s[i]) <= |s|
    ensures Cut(s[i..]) <==> Cut(s[i + Width(s[i])..])
  {
    assert s[i..][Width(s[i])..] == s[i + Width(s[i])..];
  }

  /** The first character, and the rest. */
  lemma FirstChar(s: Bytes, more: Bytes)
    requires s != [] && 0 < Width(s[0])
    ensures Width(s[0]) <= |s| ==>
      ToUnits(s) == Joined([UnitOf(s)], ToUnits(s[Width(s[0])..])) &&
      ToUnits(s + more) == Joined([UnitOf(s)], ToUnits(s[Width(s[0])..] + more))
    ensures Width(s[0]) > |s| ==> ToUnits(s) == Some([])
  {
    if Width(s[0]) <= |s| {
      assert (s + more)[Width(s[0])..] == s[Width(s[0])..] + more && UnitOf(s + more) == UnitOf(s);
    }
  }

  lemma JoinedTwice(x: Unit, us: seq<Unit>, u: Unit, r: Option<seq<Unit>>)
    ensures Joined([x], Joined(us + [u], r)) == Joined([x] + us + [u], r)
  {
    if r.Some? {
      assert [x] + (us + [u] + r.value) == [x] + us + [u] + r.value;
    }
  }

  /** Behind whole characters that end in a cut, more text completes that character. */
  lemma {:induction false} CutGoesOn(s: Bytes, more: Bytes) returns (u: Unit)
    requires Cut(s) && more != []
    ensures ToUnits(s).Some? && ToUnits(s + more) == Joined(ToUnits(s).value + [u], ToUnits(more[1..]))
  {
    hide ToUnits, UnitOf;
    FirstChar(s, more);
    if |s| < Width(s[0]) {
      var t := s + more;
      assert t[3..] == more[1..];
      FirstChar(t, []);
      u := UnitOf(t);
      assert [] + [u] == [u];
    } else {
      var r := s[Width(s[0])..];
      u := CutGoesOn(r, more);
      JoinedTwice(UnitOf(s), ToUnits(r).value, u, ToUnits(more[1..]));
    }
  }

  /**
    What the length pass reads: the text, or up to the terminating zero if the given length cuts a character of
    three.
  */
  ghost function Counted(mem: Bytes, length: nat): Bytes {
    if Cut(Text(mem, 0, length)) then Text(mem, 0, |mem|) else Text(mem, 0, length)
  }

  lemma {:induction false} TextGoesOn(mem: Bytes, length: nat, longer: nat)
    requires length <= longer
    ensures Text(mem, 0, length) <= Text(mem, 0, longer)
  {
    if length > 0 && mem != [] && mem[0] != 0 {
      TextGoesOn(mem[1..], length - 1, longer - 1);
    }
  }

  /**
    The length pass counts the units of the text if and only if no character of three is cut after its
    second byte, or a zero follows it, or the text has no unit and the bytes that follow are spoilt.
  */
  lemma CountAgrees(mem: Bytes, length: nat)
    requires Readable(mem, 0, length)
    ensures var s, t := Text(mem, 0, length), Text(mem, 0, |mem|);
            UnitCount(Counted(mem, length)) == UnitCount(s) <==>
            !Cut(s) || s == t || (UnitCount(s) == 0 && ToUnits(t) == None)
  {
    var s, t := Text(mem, 0, length), Text(mem, 0, |mem|);
    if Cut(s) && s != t {
      if length <= |mem| { TextGoesOn(mem, length, |mem|); }
      var more := t[|s|..];
      assert t == s + more;
      var _ := CutGoesOn(s, more);
    }
  }

  /** Two bytes of three, of a longer buffer: one unit is counted, and the text has none. */
  lemma CutMiscounts()
    ensures var mem: Bytes := [0xE2, 0x82, 0x41, 0];
            UnitCount(Text(mem, 0, 2)) == 0 && UnitCount(Counted(mem, 2)) == 1
  {
    var mem: Bytes := [0xE2, 0x82, 0x41, 0];
    var whole: Bytes := [0xE2, 0x82, 0x41];
    TextOf(whole, 0, 4);
    assert mem == whole + [0] && whole[3..] == [];
    assert mem[1..] == [0x82, 0x41, 0] && mem[1..][1..] == [0x41, 0];
    assert Text(mem[1..][1..], 0, 0) == [];
    assert Text(mem[1..], 0, 1) == [0x82];
    assert Text(mem, 0, 2) == [0xE2, 0x82];
  }

  /**
    _Utf8ToUtf16Len. For the third byte of a character the remaining length is not tested before it
    is counted down; from zero it wraps to more than any memory holds.
  */
  method Utf8ToUtf16Len(mem: Bytes, length: nat) returns (result: nat)
    requires Readable(mem, 0, length) && (Cut(Text(mem, 0, length)) ==> 0 in mem)
    ensures result == UnitCount(Counted(mem, length))
  {
    hide Text, ToUnits, ReadUpTo, UnitOf, Readable, Cut;
    ghost var text := Text(mem, 0, length);
    ghost var s := Counted(mem, length);
    ghost var us := [];
    var i: nat, left: nat := 0, length;
    result := 0;
    Reach(mem, length);
    ReadNone(s);
    while left > 0
      invariant i <= |s| && ReadUpTo(s, i, us) && result == |us|
      invariant InText(text, i, left, length) || (Cut(text) && left >= |mem| - i)
      decreases |s| - i
    {
      var ch0 := mem[i];
      left := left - 1;
      if ch0 == 0 {
        break;
      }
      var w := Width(ch0);
      if w == 0 {
        ReadStray(s, i, us);
        return 0;
      }
      if w >= 2 {
        if left == 0 {
          break;
        }
        left := left - 1;
        if mem[i + 1] == 0 {
          break;
        }
      }
      if w == 3 {
        if left == 0 { CutHere(text, i); }
        left := if left == 0 then |mem| else left - 1;
        if mem[i + 2] == 0 {
          break;
        }
      }
      ReadChar(s, i, us);
      if i + w <= |text| { CutFrom(text, i); }
      us := us + [UnitOf(s[i..])];
      result := result + 1;
      i := i + w;
    }
    CutEnds(text, i);
    ReadAll(s, i, us);
  }

  /** The pass is inside the text, and the counter is what is left of the length. */
  ghost predicate InText(text: Bytes, i: nat, left: nat, length: nat) {
    i <= |text| && left + i == length && (Cut(text) <==> Cut(text[i..]))
  }

  lemma CutHere(text: Bytes, i: nat)
    requires i + 2 == |text| && Width(text[i]) == 3
    ensures Cut(text[i..])
  {
  }

  lemma CutEnds(text: Bytes, i: nat)
    ensures i == |text| || (i + 1 == |text| && Width(text[i]) != 1) ==> !Cut(text[i..])
  {
  }

  /** What the length pass reads reaches at least to the end of the text, and ends at a zero if it goes further. */
  lemma Reach(mem: Bytes, length: nat)
    requires Readable(mem, 0, length) && (Cut(Text(mem, 0, length)) ==> 0 in mem)
    ensures var text, s := Text(mem, 0, length), Counted(mem, length);
            |text| <= |s| <= |mem| && |text| <= length &&
            (forall j :: 0 <= j < |s| ==> mem[j] == s[j] && mem[j] != 0) &&
            (forall j :: 0 <= j < |text| ==> mem[j] == text[j]) &&
            (|text| < length ==> |text| < |mem| && mem[|text|] == 0) &&
            (if Cut(text) then |s| < |mem| && mem[|s|] == 0 else s == text)
  {
    TextIn(mem, 0, length);
    if Cut(Text(mem, 0, length)) {
      TextIn(mem, 0, |mem|);
      TextIn(mem, 0, |mem| + 1);
      TextGoesOn(mem, |mem|, |mem| + 1);
      if length <= |mem| { TextGoesOn(mem, length, |mem|); } else { TextGoesOn(mem, |mem|, length); }
    }
  }

  /**
    _fromUtf8: a stray continuation byte gives the empty string, else the units of the text. The fill
    pass tests the length before each byte, so it stays inside the text even if the length pass did not.
  */
  method FromUtf8(mem: Bytes, length: nat) returns (buffer: array<Unit>, size: nat)
    requires Readable(mem, 0, length) && (Cut(Text(mem, 0, length)) ==> 0 in mem)
    ensures fresh(buffer) && size < buffer.Length && buffer[size] == 0
    ensures buffer.Length == UnitCount(Counted(mem, length)) + 1
    ensures size == if buffer.Length == 1 then 0 else UnitCount(Text(mem, 0, length))
    ensures size > 0 ==> ToUnits(Text(mem, 0, length)) == Some(buffer[..size])
  {
    hide Text, ToUnits, ReadUpTo, UnitOf, Readable, Cut;
    ghost var s := Text(mem, 0, length);
    var required := Utf8ToUtf16Len(mem, length);
    CountedMore(mem, length);
    buffer := new Unit[required + 1](i => 0);
    var ui, i, left := 0, 0, length;
    TextIn(mem, 0, length);
    ReadNone(s);
    assert buffer[..0] == [];
    while ui < required && left > 0
      invariant i <= |s| && left == length - i && ui <= required && ReadUpTo(s, i, buffer[..ui])
      decreases left
    {
      ghost var before := buffer[..ui];
      var ch0 := mem[i];
      var w := Width(ch0);
      if ch0 == 0 || w == 0 || left < w || (w >= 2 && mem[i + 1] == 0) || (w == 3 && mem[i + 2] == 0) {
        if ch0 != 0 && w == 0 { ReadStray(s, i, before); }
        ReadAll(s, i, before);
        break;
      }
      UnitFrom(s, i);
      ReadChar(s, i, before);
      if w == 1 {
        buffer[ui] := ch0;
      } else if w == 2 {
        buffer[ui] := Low(ch0, 0x20) * 0x40 + Low(mem[i + 1], 0x80);
      } else {
        buffer[ui] := (Low(ch0, 0x10) * 0x1000 + Low(mem[i + 1], 0x80) * 0x40 + Low(mem[i + 2], 0x80)) % 0x10000;
      }
      assert buffer[..ui + 1] == before + [buffer[ui]];
      i, left, ui := i + w, left - w, ui + 1;
    }
    assert |buffer[..ui]| == ui;
    if required > 0 {
      if left == 0 { ReadAll(s, i, buffer[..ui]); }
      Finished(s, i, buffer[..ui]);
    }
    buffer[ui] := 0;
    size := ui;
  }


  /** If the text has units, at most as many have been read, and if as many, all. */
  lemma Finished(s: Bytes, i: nat, us: seq<Unit>)
    requires ReadUpTo(s, i, us) && ToUnits(s).Some?
    ensures |us| <= UnitCount(s) && (|us| == UnitCount(s) ==> ToUnits(s) == Some(us))
  {
    var more := ToUnits(s[i..]).value;
    assert |us| == |us + more| ==> us + more == us;
  }

  /** A length pass that counted something counted all units of the text. */
  lemma CountedMore(mem: Bytes, length: nat)
    requires Readable(mem, 0, length)
    ensures var s := Text(mem, 0, length);
            UnitCount(Counted(mem, length)) > 0 ==> ToUnits(s).Some? && UnitCount(s) <= UnitCount(Counted(mem, length))
  {
    var s, t := Text(mem, 0, length), Text(mem, 0, |mem|);
    if Cut(s) && s != t {
      if length <= |mem| { TextGoesOn(mem, length, |mem|); }
      assert t == s + t[|s|..];
      var _ := CutGoesOn(s, t[|s|..]);
    }
  }

  /** The unit of a character in terms of the bytes of the text. */
  lemma UnitFrom(s: Bytes, i: nat)
    requires i < |s| && 0 < Width(s[i]) && i + Width(s[i]) <= |s|
    ensures UnitOf(s[i..]) ==
      if Width(s[i]) == 1 then s[i]
      else if Width(s[i]) == 2 then Low(s[i], 0x20) * 0x40 + Low(s[i + 1], 0x80)
      else (Low(s[i], 0x10) * 0x1000 + Low(s[i + 1], 0x80) * 0x40 + Low(s[i + 2], 0x80)) % 0x10000
  {
  }

  lemma {:induction false} TextOf<T>(s: seq<T>, zero: T, length: nat)
    requires zero !in s && |s| <= length
    ensures Text(s + [zero], zero, length) == s
  {
    if s != [] {
      TextOf(s[1..], zero, length - 1);
      assert (s + [zero])[1..] == s[1..] + [zero];
      assert s[0] in s && [s[0]] + s[1..] == s;
    }
  }

  /** Converting any text of 16-bit units to bytes, and those to units again, gives the same text. */
  method ThereAndBack(mem: seq<Unit>, length: nat) returns (buffer: array<Unit>, size: nat)
    requires Readable(mem, 0, length)
    ensures size < buffer.Length && buffer[..size] == Text(mem, 0, length)
  {
    hide ToUnits, ToBytes;
    ghost var us := Text(mem, 0, length);
    var bytes, n := FromUtf16(mem, length);
    NoZeroBytes(us);
    UnitsRoundTrip(us);
    assert bytes[..] == ToBytes(us) + [0] && bytes[n] in bytes[..];
    TextOf(ToBytes(us), 0, bytes.Length);
    CountedMore(bytes[..], bytes.Length);
    TextOf(ToBytes(us), 0, |bytes[..]|);
    buffer, size := FromUtf8(bytes[..], bytes.Length);
    if size == 0 { assert us == []; }
  }
}
