/** UTF-8 as section 4 of RFC 3629 defines it, and the library's encoder and checkers. */
module Utf8 {

  type Byte = b: int | 0 <= b < 0x100
  type Bytes = seq<Byte>

  // ---- the standard ----

  /** A Unicode scalar value. */
  predicate Scalar(v: int) {
    0 <= v < 0xD800 || 0xE000 <= v <= 0x10FFFF
  }

  type ScalarValue = v: int | 0 <= v < 0xD800 || 0xE000 <= v <= 0x10FFFF

  predicate Tail(b: Byte) {
    0x80 <= b <= 0xBF
  }

  /** UTF8-char. */
  predicate IsChar(s: Bytes) {
    if |s| == 1 then s[0] <= 0x7F
    else if |s| == 2 then 0xC2 <= s[0] <= 0xDF && Tail(s[1])
    else if |s| == 3 then
      ((s[0] == 0xE0 && 0xA0 <= s[1] <= 0xBF) || (0xE1 <= s[0] <= 0xEC && Tail(s[1])) ||
       (s[0] == 0xED && 0x80 <= s[1] <= 0x9F) || (0xEE <= s[0] <= 0xEF && Tail(s[1]))) && Tail(s[2])
    else if |s| == 4 then
      ((s[0] == 0xF0 && 0x90 <= s[1] <= 0xBF) || (0xF1 <= s[0] <= 0xF3 && Tail(s[1])) ||
       (s[0] == 0xF4 && 0x80 <= s[1] <= 0x8F)) && Tail(s[2]) && Tail(s[3])
    else false
  }

  /** UTF8-octets: a sequence of UTF8-char. */
  ghost predicate WellFormed(s: Bytes)
    decreases |s|
  {
    s == [] || exists n :: 1 <= n <= |s| && IsChar(s[..n]) && WellFormed(s[n..])
  }

  // ---- utf8_encode ----

  /** The bytes of a code point; masks and shifts written as remainders and quotients. */
  function Encode(v: int): (s: Bytes)
    requires 0 <= v <= 0x10FFFF
    ensures 1 <= |s| <= 4
  {
    if v < 0x80 then [v]
    else if v < 0x800 then [0xC0 + v / 0x40 % 0x20, 0x80 + v % 0x40]
    else if v < 0x10000 then [0xE0 + v / 0x1000 % 0x10, 0x80 + v / 0x40 % 0x40, 0x80 + v % 0x40]
    else [0xF0 + v / 0x40000 % 8, 0x80 + v / 0x1000 % 0x40, 0x80 + v / 0x40 % 0x40, 0x80 + v % 0x40]
  }

  function EncodeAll(vs: seq<ScalarValue>): Bytes
  {
    if vs == [] then [] else Encode(vs[0]) + EncodeAll(vs[1..])
  }

  /** The low bits of a byte, as a mask of m - 1 leaves them. */
  function Low(b: Byte, m: int): int
    requires 0 < m
  {
    b % m
  }

  /** The code point of a UTF8-char. */
  function Decode(s: Bytes): int
    requires IsChar(s)
  {
    if |s| == 1 then s[0]
    else if |s| == 2 then Low(s[0], 0x20) * 0x40 + Low(s[1], 0x40)
    else if |s| == 3 then (Low(s[0], 0x10) * 0x40 + Low(s[1], 0x40)) * 0x40 + Low(s[2], 0x40)
    else ((Low(s[0], 8) * 0x40 + Low(s[1], 0x40)) * 0x40 + Low(s[2], 0x40)) * 0x40 + Low(s[3], 0x40)
  }

  /** The base-64 digits of a code point. */
  lemma Digits(v: int, a: int, b: int, c: int, d: int)
    requires 0 <= a < 5 && 0 <= b < 0x40 && 0 <= c < 0x40 && 0 <= d < 0x40
    requires v == ((a * 0x40 + b) * 0x40 + c) * 0x40 + d
    ensures v % 0x40 == d && v / 0x40 == (a * 0x40 + b) * 0x40 + c
    ensures v / 0x40 % 0x40 == c && v / 0x1000 == a * 0x40 + b
    ensures v / 0x1000 % 0x40 == b && v / 0x40000 == a
  {
    assert v / 0x40 == (a * 0x40 + b) * 0x40 + c;
    assert v / 0x1000 == a * 0x40 + b;
  }

  lemma TakeDigits(v: int) returns (a: int, b: int, c: int, d: int)
    requires 0 <= v <= 0x10FFFF
    ensures 0 <= a < 5 && 0 <= b < 0x40 && 0 <= c < 0x40 && 0 <= d < 0x40
    ensures v == ((a * 0x40 + b) * 0x40 + c) * 0x40 + d
  {
    d := v % 0x40;
    var q := v / 0x40;
    c := q % 0x40;
    var r := q / 0x40;
    b := r % 0x40;
    a := r / 0x40;
  }

  /** The bytes of a code point from its base-64 digits. */
  function Spell(a: int, b: int, c: int, d: int): Bytes
    requires 0 <= a < 5 && 0 <= b < 0x40 && 0 <= c < 0x40 && 0 <= d < 0x40
  {
    var v := ((a * 0x40 + b) * 0x40 + c) * 0x40 + d;
    if v < 0x80 then [v]
    else if v < 0x800 then [0xC0 + c, 0x80 + d]
    else if v < 0x10000 then [0xE0 + b, 0x80 + c, 0x80 + d]
    else [0xF0 + a, 0x80 + b, 0x80 + c, 0x80 + d]
  }

  lemma EncodeSpells(v: int, a: int, b: int, c: int, d: int)
    requires 0 <= a < 5 && 0 <= b < 0x40 && 0 <= c < 0x40 && 0 <= d < 0x40
    requires 0 <= v == ((a * 0x40 + b) * 0x40 + c) * 0x40 + d <= 0x10FFFF
    ensures Encode(v) == Spell(a, b, c, d)
  {
    Digits(v, a, b, c, d);
  }

  /** A byte is a prefix plus a base-64 digit. */
  lemma Digit(s: Byte, base: int, d: int, m: int)
    requires s == base + d && 0 <= d < m
    requires (base == 0xC0 && m == 0x20) || (base == 0xE0 && m == 0x10) || (base == 0xF0 && m == 8) ||
      (base == 0x80 && m == 0x40)
    ensures Low(s, m) == d
  {
  }

  lemma SpellIsChar(a: int, b: int, c: int, d: int)
    requires 0 <= a < 5 && 0 <= b < 0x40 && 0 <= c < 0x40 && 0 <= d < 0x40
    requires Scalar(((a * 0x40 + b) * 0x40 + c) * 0x40 + d)
    ensures IsChar(Spell(a, b, c, d)) && Decode(Spell(a, b, c, d)) == ((a * 0x40 + b) * 0x40 + c) * 0x40 + d
  {
    var v := ((a * 0x40 + b) * 0x40 + c) * 0x40 + d;
    Digit(0x80 + d, 0x80, d, 0x40);
    Digit(0x80 + c, 0x80, c, 0x40);
    Digit(0x80 + b, 0x80, b, 0x40);
    if v < 0x800 && c < 0x20 { Digit(0xC0 + c, 0xC0, c, 0x20); }
    if v < 0x10000 && b < 0x10 { Digit(0xE0 + b, 0xE0, b, 0x10); }
    Digit(0xF0 + a, 0xF0, a, 8);
  }

  /** A scalar value's encoding is a UTF8-char, and decodes to it. */
  lemma EncodeIsChar(v: int)
    requires Scalar(v)
    ensures IsChar(Encode(v)) && Decode(Encode(v)) == v
  {
    var a, b, c, d := TakeDigits(v);
    EncodeSpells(v, a, b, c, d);
    SpellIsChar(a, b, c, d);
  }

  lemma DecodeTwo(s: Bytes)
    requires IsChar(s) && |s| == 2
    ensures Scalar(Decode(s)) && Encode(Decode(s)) == s
  {
    var c, d := s[0] - 0xC0, s[1] - 0x80;
    Digit(s[0], 0xC0, c, 0x20);
    Digit(s[1], 0x80, d, 0x40);
    EncodeSpells(Decode(s), 0, 0, c, d);
  }

  lemma DecodeThree(s: Bytes)
    requires IsChar(s) && |s| == 3
    ensures Scalar(Decode(s)) && Encode(Decode(s)) == s
  {
    var b, c, d := s[0] - 0xE0, s[1] - 0x80, s[2] - 0x80;
    Digit(s[0], 0xE0, b, 0x10);
    Digit(s[1], 0x80, c, 0x40);
    Digit(s[2], 0x80, d, 0x40);
    EncodeSpells(Decode(s), 0, b, c, d);
  }

  lemma DecodeFour(s: Bytes)
    requires IsChar(s) && |s| == 4
    ensures Scalar(Decode(s)) && Encode(Decode(s)) == s
  {
    var a, b, c, d := s[0] - 0xF0, s[1] - 0x80, s[2] - 0x80, s[3] - 0x80;
    Digit(s[0], 0xF0, a, 8);
    Digit(s[1], 0x80, b, 0x40);
    Digit(s[2], 0x80, c, 0x40);
    Digit(s[3], 0x80, d, 0x40);
    EncodeSpells(Decode(s), a, b, c, d);
  }

  /** A UTF8-char decodes to a scalar value, and is its encoding. */
  lemma DecodeIsScalar(s: Bytes)
    requires IsChar(s)
    ensures Scalar(Decode(s)) && Encode(Decode(s)) == s
  {
    if |s| == 2 {
      DecodeTwo(s);
    } else if |s| == 3 {
      DecodeThree(s);
    } else if |s| == 4 {
      DecodeFour(s);
    }
  }

  /** A byte string starts with at most one UTF8-char. */
  lemma CharUnique(s: Bytes, m: nat, n: nat)
    requires m <= |s| && n <= |s| && IsChar(s[..m]) && IsChar(s[..n])
    ensures m == n == FirstLen(s[0])
  {
    assert s[..m][0] == s[0] && s[..n][0] == s[0];
  }

  /** The well-formed strings are exactly the encodings of sequences of scalar values. */
  lemma {:induction false} EncodeAllWellFormed(vs: seq<ScalarValue>)
    ensures WellFormed(EncodeAll(vs))
  {
    if vs != [] {
      var c := Encode(vs[0]);
      var s := EncodeAll(vs);
      EncodeIsChar(vs[0]);
      EncodeAllWellFormed(vs[1..]);
      assert s[..|c|] == c && s[|c|..] == EncodeAll(vs[1..]);
    }
  }

  /** The scalar values of a byte string are unique. */
  lemma {:induction false} EncodeAllInjective(vs: seq<ScalarValue>, ws: seq<ScalarValue>)
    requires EncodeAll(vs) == EncodeAll(ws)
    ensures vs == ws
  {
    if vs != [] && ws != [] {
      var s := EncodeAll(vs);
      var c, d := Encode(vs[0]), Encode(ws[0]);
      EncodeIsChar(vs[0]);
      EncodeIsChar(ws[0]);
      assert s[..|c|] == c && s[..|d|] == d;
      CharUnique(s, |c|, |d|);
      assert EncodeAll(vs[1..]) == s[|c|..] && EncodeAll(ws[1..]) == s[|d|..];
      EncodeAllInjective(vs[1..], ws[1..]);
      assert vs == [vs[0]] + vs[1..] && ws == [ws[0]] + ws[1..];
    }
  }

  // ---- utf8_check_first ----

  /** The length announced by a first byte; 0 if no character starts with it. */
  function FirstLen(u: Byte): nat {
    if u < 0x80 then 1
    else if u <= 0xBF then 0
    else if u == 0xC0 || u == 0xC1 then 0
    else if u <= 0xDF then 2
    else if u <= 0xEF then 3
    else if u <= 0xF4 then 4
    else 0
  }

  // ---- the checkers ----

  /** A first byte announces the length of the character it starts. */
  lemma FirstAnnounces(s: Bytes, n: nat)
    requires n <= |s| && IsChar(s[..n])
    ensures 0 < |s| && FirstLen(s[0]) == n
  {
    assert s[..n][0] == s[0];
  }

  /** One character off the front. */
  lemma WellFormedStep(s: Bytes)
    requires s != []
    ensures var n := FirstLen(s[0]);
            WellFormed(s) <==> 1 <= n <= |s| && IsChar(s[..n]) && WellFormed(s[n..])
  {
    var n := FirstLen(s[0]);
    if WellFormed(s) {
      var m :| 1 <= m <= |s| && IsChar(s[..m]) && WellFormed(s[m..]);
      FirstAnnounces(s, m);
    }
  }

  /** Well-formed strings may be joined, and cut after a well-formed prefix. */
  lemma {:induction false} WellFormedConcat(s: Bytes, t: Bytes)
    requires WellFormed(s)
    ensures WellFormed(s + t) <==> WellFormed(t)
    decreases |s|
  {
    hide WellFormed, IsChar, FirstLen;
    if s == [] {
      assert s + t == t;
    } else {
      var n := FirstLen(s[0]);
      WellFormedStep(s);
      WellFormedStep(s + t);
      assert (s + t)[..n] == s[..n] && (s + t)[n..] == s[n..] + t;
      WellFormedConcat(s[n..], t);
    }
  }

  lemma CharWellFormed(s: Bytes)
    requires IsChar(s)
    ensures WellFormed(s)
  {
    assert s[..|s|] == s && WellFormed(s[|s|..]);
  }

  lemma {:induction false} AsciiWellFormed(s: Bytes)
    requires forall k :: 0 <= k < |s| ==> s[k] < 0x80
    ensures WellFormed(s)
  {
    if s != [] {
      AsciiWellFormed(s[1..]);
      WellFormedStep(s);
    }
  }

  /** The first character of a well-formed string. */
  lemma FirstScalar(s: Bytes)
    requires WellFormed(s) && s != []
    ensures var n := FirstLen(s[0]);
            1 <= n <= |s| && IsChar(s[..n]) && WellFormed(s[n..]) &&
            Scalar(Decode(s[..n])) && Encode(Decode(s[..n])) == s[..n]
  {
    hide WellFormed, IsChar, Encode, Decode, FirstLen;
    WellFormedStep(s);
    DecodeIsScalar(s[..FirstLen(s[0])]);
  }

  lemma EncodeAllFirst(v: ScalarValue, vs: seq<ScalarValue>, s: Bytes, n: nat)
    requires n <= |s| && Encode(v) == s[..n] && EncodeAll(vs) == s[n..]
    ensures EncodeAll([v] + vs) == s
  {
    hide Encode;
    assert ([v] + vs)[1..] == vs && s == s[..n] + s[n..];
  }

  /** The scalar values a well-formed string encodes. */
  ghost function ScalarsOf(s: Bytes): (vs: seq<ScalarValue>)
    requires WellFormed(s)
    ensures EncodeAll(vs) == s
    decreases |s|
  {
    if s == [] then []
    else
      FirstScalar(s);
      var n := FirstLen(s[0]);
      var rest := ScalarsOf(s[n..]);
      EncodeAllFirst(Decode(s[..n]), rest, s, n);
      [Decode(s[..n])] + rest
  }

  function LeadMask(size: nat): int {
    if size == 2 then 0x20 else if size == 3 then 0x10 else 8
  }

  /** What the loop of utf8_check_full accumulates: the lead bits, then six bits a byte. */
  function Accumulate(s: Bytes, m: int): int
    requires s != [] && 0 < m
  {
    if |s| == 1 then Low(s[0], m) else Accumulate(s[..|s| - 1], m) * 0x40 + Low(s[|s| - 1], 0x40)
  }

  lemma AccumulateFour(s: Bytes, m: int)
    requires 2 <= |s| <= 4 && 0 < m
    ensures |s| == 2 ==> Accumulate(s, m) == Low(s[0], m) * 0x40 + Low(s[1], 0x40)
    ensures |s| == 3 ==> Accumulate(s, m) == (Low(s[0], m) * 0x40 + Low(s[1], 0x40)) * 0x40 + Low(s[2], 0x40)
    ensures |s| == 4 ==>
      Accumulate(s, m) == ((Low(s[0], m) * 0x40 + Low(s[1], 0x40)) * 0x40 + Low(s[2], 0x40)) * 0x40 + Low(s[3], 0x40)
  {
    var t := s[..|s| - 1];
    if |s| >= 3 { assert t[..|t| - 1] == s[..|s| - 2]; }
    if |s| == 4 { assert s[..2][..1] == s[..1]; }
  }

  /** The final tests of utf8_check_full. */
  predicate CodeAllowed(size: nat, value: int) {
    value <= 0x10FFFF && !(0xD800 <= value <= 0xDFFF) &&
    !((size == 2 && value < 0x80) || (size == 3 && value < 0x800) || (size == 4 && value < 0x10000))
  }

  /** Range tests on the value say what the table of the standard says about the bytes. */
  lemma RangeIsTable(s: Bytes)
    requires 2 <= |s| <= 4 && FirstLen(s[0]) == |s|
    requires forall k :: 1 <= k < |s| ==> Tail(s[k])
    ensures var v := Accumulate(s, LeadMask(|s|));
            (IsChar(s) <==> CodeAllowed(|s|, v)) && (IsChar(s) ==> v == Decode(s))
  {
    AccumulateFour(s, LeadMask(|s|));
    assert Tail(s[1]);
    if |s| == 2 {
      Digit(s[0], 0xC0, s[0] - 0xC0, 0x20);
      Digit(s[1], 0x80, s[1] - 0x80, 0x40);
    } else if |s| == 3 {
      RangeThree(s);
    } else {
      RangeFour(s);
    }
  }

  lemma RangeThree(s: Bytes)
    requires |s| == 3 && FirstLen(s[0]) == 3 && Tail(s[1]) && Tail(s[2])
    ensures IsChar(s) <==> CodeAllowed(3, (Low(s[0], 0x10) * 0x40 + Low(s[1], 0x40)) * 0x40 + Low(s[2], 0x40))
  {
    Digit(s[0], 0xE0, s[0] - 0xE0, 0x10);
    Digit(s[1], 0x80, s[1] - 0x80, 0x40);
    Digit(s[2], 0x80, s[2] - 0x80, 0x40);
  }

  lemma RangeFour(s: Bytes)
    requires |s| == 4 && FirstLen(s[0]) == 4 && Tail(s[1]) && Tail(s[2]) && Tail(s[3])
    ensures IsChar(s) <==> CodeAllowed(4, ((Low(s[0], 8) * 0x40 + Low(s[1], 0x40)) * 0x40 + Low(s[2], 0x40)) * 0x40 +
      Low(s[3], 0x40))
  {
    Digit(s[0], 0xF0, s[0] - 0xF0, 8);
    Digit(s[1], 0x80, s[1] - 0x80, 0x40);
    Digit(s[2], 0x80, s[2] - 0x80, 0x40);
    Digit(s[3], 0x80, s[3] - 0x80, 0x40);
  }

  /**
    utf8_check_full. It looks at the low bits of the first byte only; after utf8_check_first
    has announced `size`, it accepts exactly the characters of the standard.
  */
  method CheckFull(buffer: Bytes, size: nat) returns (ok: bool, codepoint: int)
    requires 1 <= |buffer| && size <= |buffer|
    ensures ok ==> 2 <= size <= 4 && forall k :: 1 <= k < size ==> Tail(buffer[k])
    ensures 2 <= size && FirstLen(buffer[0]) == size ==>
      (ok <==> IsChar(buffer[..size])) && (ok ==> codepoint == Decode(buffer[..size]))
  {
    codepoint := 0;
    var value;
    if size == 2 {
      value := Low(buffer[0], 0x20);
    } else if size == 3 {
      value := Low(buffer[0], 0x10);
    } else if size == 4 {
      value := Low(buffer[0], 8);
    } else {
      return false, 0;
    }
    ghost var m := LeadMask(size);
    for i := 1 to size
      invariant forall k :: 1 <= k < i ==> Tail(buffer[k])
      invariant value == Accumulate(buffer[..i], m)
    {
      var u := buffer[i];
      if u < 0x80 || u > 0xBF {
        assert !Tail(buffer[..size][i]);
        return false, 0;
      }
      assert buffer[..i + 1][..i] == buffer[..i];
      value := value * 0x40 + Low(u, 0x40);
    }
    if FirstLen(buffer[0]) == size { RangeIsTable(buffer[..size]); }
    if value > 0x10FFFF {
      return false, 0;
    } else if 0xD800 <= value && value <= 0xDFFF {
      return false, 0;
    } else if (size == 2 && value < 0x80) || (size == 3 && value < 0x800) || (size == 4 && value < 0x10000) {
      return false, 0;
    }
    return true, value;
  }

  /** utf8_iterate: the character at the front, and how many bytes it takes. */
  method Iterate(buffer: Bytes) returns (ok: bool, count: nat, codepoint: int)
    ensures count <= |buffer|
    ensures buffer == [] ==> ok && count == 0
    ensures buffer != [] ==> (ok <==> exists n :: 1 <= n <= |buffer| && IsChar(buffer[..n]))
    ensures ok && buffer != [] ==> IsChar(buffer[..count]) && codepoint == Decode(buffer[..count])
  {
    if |buffer| == 0 {
      return true, 0, 0;
    }
    forall n | 1 <= n <= |buffer| && IsChar(buffer[..n]) ensures n == FirstLen(buffer[0]) {
      FirstAnnounces(buffer, n);
    }
    count := FirstLen(buffer[0]);
    if count <= 0 {
      return false, 0, 0;
    }
    if count == 1 {
      assert IsChar(buffer[..1]);
      codepoint := buffer[0];
    } else {
      if count > |buffer| {
        return false, 0, 0;
      }
      var full;
      full, codepoint := CheckFull(buffer, count);
      if !full {
        return false, 0, 0;
      }
    }
    return true, count, codepoint;
  }

  /** utf8_check_string accepts exactly the well-formed strings. */
  method CheckString(s: Bytes) returns (ok: bool)
    ensures ok <==> WellFormed(s)
  {
    hide WellFormed, Decode, Encode;
    NothingEncoded();
    assert s[0..] == s && s[|s|..] == [];
    var i := 0;
    while i < |s|
      invariant 0 <= i <= |s|
      invariant WellFormed(s) <==> WellFormed(s[i..])
    {
      var t := s[i..];
      WellFormedStep(t);
      var count := FirstLen(s[i]);
      if count == 0 {
        return false;
      } else if count > 1 {
        if count > |s| - i {
          return false;
        }
        var full, _ := CheckFull(t, count);
        if !full {
          return false;
        }
        assert t[count..] == s[i + count..];
        i := i + (count - 1);
      } else {
        assert t[1..] == s[i + 1..];
      }
      i := i + 1;
    }
    return true;
  }

  lemma {:induction false} EncodeAppend(vs: seq<ScalarValue>, v: int)
    requires Scalar(v)
    ensures EncodeAll(vs + [v]) == EncodeAll(vs) + Encode(v)
  {
    hide Encode;
    if vs == [] {
      assert vs + [v] == [v] && [v][1..] == [];
    } else {
      EncodeAppend(vs[1..], v);
      assert (vs + [v])[1..] == vs[1..] + [v];
    }
  }

  /** One more character of a string whose first i bytes are the encoding of vs. */
  lemma NothingEncoded()
    ensures EncodeAll([]) == [] && WellFormed([])
  {
  }

  lemma OneFurther(s: Bytes, i: nat, n: nat, vs: seq<ScalarValue>)
    requires 1 <= n && i + n <= |s| && IsChar(s[i..][..n]) && EncodeAll(vs) == s[..i]
    ensures WellFormed(s[i..]) <==> WellFormed(s[i + n..])
    ensures var v := Decode(s[i..][..n]); Scalar(v) && EncodeAll(vs + [v]) == s[..i + n]
  {
    hide WellFormed, IsChar, EncodeAll, Encode, Decode;
    var t := s[i..];
    assert t[n..] == s[i + n..] && s[..i + n] == s[..i] + t[..n];
    FirstAnnounces(t, n);
    WellFormedStep(t);
    DecodeIsScalar(t[..n]);
    EncodeAppend(vs, Decode(t[..n]));
  }

  /** Walking a string with utf8_iterate visits the scalar values it encodes, and no others. */
  method Decompose(s: Bytes) returns (ok: bool, vs: seq<ScalarValue>)
    ensures ok <==> WellFormed(s)
    ensures ok ==> EncodeAll(vs) == s
  {
    hide WellFormed, IsChar, EncodeAll, Encode, Decode, FirstLen;
    vs := [];
    var i := 0;
    NothingEncoded();
    assert s[0..] == s && s[..0] == [];
    while i < |s|
      invariant 0 <= i <= |s|
      invariant WellFormed(s) <==> WellFormed(s[i..])
      invariant EncodeAll(vs) == s[..i]
    {
      var t := s[i..];
      var found, count, codepoint := Iterate(t);
      if !found {
        WellFormedStep(t);
        return false, [];
      }
      FirstAnnounces(t, count);
      OneFurther(s, i, count, vs);
      vs := vs + [codepoint];
      i := i + count;
    }
    assert s[..|s|] == s && s[|s|..] == [];
    return true, vs;
  }

  /** utf8_encode at position `at` of a buffer. */
  method EncodeInto(codepoint: int, buffer: array<Byte>, at: nat) returns (rc: int, size: nat)
    requires 0 <= codepoint <= 0x10FFFF ==> at + |Encode(codepoint)| <= buffer.Length
    modifies buffer
    ensures rc == if 0 <= codepoint <= 0x10FFFF then 0 else -1
    ensures rc != 0 ==> buffer[..] == old(buffer[..])
    ensures rc == 0 ==> at + size <= buffer.Length && buffer[at..at + size] == Encode(codepoint)
    ensures forall k :: 0 <= k < buffer.Length && !(rc == 0 && at <= k < at + size) ==> buffer[k] == old(buffer[k])
  {
    size := 0;
    if codepoint < 0 {
      return -1, 0;
    } else if codepoint < 0x80 {
      buffer[at] := codepoint;
      size := 1;
    } else if codepoint < 0x800 {
      buffer[at] := 0xC0 + codepoint / 0x40 % 0x20;
      buffer[at + 1] := 0x80 + codepoint % 0x40;
      size := 2;
    } else if codepoint < 0x10000 {
      buffer[at] := 0xE0 + codepoint / 0x1000 % 0x10;
      buffer[at + 1] := 0x80 + codepoint / 0x40 % 0x40;
      buffer[at + 2] := 0x80 + codepoint % 0x40;
      size := 3;
    } else if codepoint <= 0x10FFFF {
      buffer[at] := 0xF0 + codepoint / 0x40000 % 8;
      buffer[at + 1] := 0x80 + codepoint / 0x1000 % 0x40;
      buffer[at + 2] := 0x80 + codepoint / 0x40 % 0x40;
      buffer[at + 3] := 0x80 + codepoint % 0x40;
      size := 4;
    } else {
      return -1, 0;
    }
    return 0, size;
  }
}
