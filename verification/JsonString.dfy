/** Escaped strings: what dump_string writes and what the two passes of lex_scan_string read. */
module JsonString {
  import opened Options
  import opened Utf8

  const QUOTE: Byte := 0x22
  const SLASH: Byte := 0x2F
  const BACKSLASH: Byte := 0x5C
  const LETTER_U: Byte := 0x75

  /** The flags of the printer that change its text. */
  datatype Flags = Flags(indent: nat, compact: bool, ensureAscii: bool, escapeSlash: bool)

  // ---- hexadecimal ----

  predicate IsHex(c: int) {
    0x30 <= c <= 0x39 || 0x41 <= c <= 0x46 || 0x61 <= c <= 0x66
  }

  function HexDigit(d: nat): (c: Byte)
    requires d < 0x10
    ensures IsHex(c)
  {
    if d < 10 then 0x30 + d else 0x41 + (d - 10)
  }

  function HexValue(c: Byte): (d: nat)
    requires IsHex(c)
    ensures d < 0x10
  {
    if c <= 0x39 then c - 0x30 else if c <= 0x46 then c - 0x41 + 10 else c - 0x61 + 10
  }

  /** Four digits, as %04X prints them. */
  function Hex4(v: nat): (s: Bytes)
    requires v < 0x10000
    ensures |s| == 4 && AllHex(s)
  {
    [HexDigit(v / 0x1000), HexDigit(v / 0x100 % 0x10), HexDigit(v / 0x10 % 0x10), HexDigit(v % 0x10)]
  }

  predicate AllHex(s: Bytes) {
    forall k :: 0 <= k < |s| ==> IsHex(s[k])
  }

  /** decode_unicode_escape, on four digits. */
  function Hex4Value(s: Bytes): (v: nat)
    requires |s| == 4 && AllHex(s)
    ensures v < 0x10000
  {
    ((HexValue(s[0]) * 0x10 + HexValue(s[1])) * 0x10 + HexValue(s[2])) * 0x10 + HexValue(s[3])
  }

  lemma DigitBack(d: nat)
    requires d < 0x10
    ensures HexValue(HexDigit(d)) == d
  {
  }

  lemma Hex4RoundTrip(v: nat)
    requires v < 0x10000
    ensures Hex4Value(Hex4(v)) == v
  {
    hide HexDigit, HexValue;
    forall d: nat | d < 0x10 ensures HexValue(HexDigit(d)) == d { DigitBack(d); }
    var q := v / 0x10;
    var r := q / 0x10;
    assert v / 0x100 == r && v / 0x1000 == r / 0x10;
    assert v == q * 0x10 + v % 0x10 && q == r * 0x10 + q % 0x10 && r == r / 0x10 * 0x10 + r % 0x10;
  }

  // ---- dump_string ----

  predicate MustEscape(v: int, f: Flags) {
    v == BACKSLASH || v == QUOTE || v < 0x20 || (f.escapeSlash && v == SLASH) || (f.ensureAscii && v > 0x7F)
  }

  /** The letter of a two-character escape, if the code point has one. */
  function ShortEscape(v: int): Option<Byte> {
    if v == BACKSLASH || v == QUOTE || v == SLASH then Some(v)
    else if v == 0x08 then Some(0x62)
    else if v == 0x0C then Some(0x66)
    else if v == 0x0A then Some(0x6E)
    else if v == 0x0D then Some(0x72)
    else if v == 0x09 then Some(0x74)
    else None
  }

  function UnicodeEscape(v: nat): (s: Bytes)
    requires v < 0x10000
    ensures |s| == 6
  {
    [BACKSLASH, LETTER_U] + Hex4(v)
  }

  function EscapeText(v: ScalarValue): Bytes {
    match ShortEscape(v)
    case Some(c) => [BACKSLASH, c]
    case None =>
      if v < 0x10000 then UnicodeEscape(v)
      else UnicodeEscape(0xD800 + (v - 0x10000) / 0x400) + UnicodeEscape(0xDC00 + (v - 0x10000) % 0x400)
  }

  function CharText(v: ScalarValue, f: Flags): Bytes {
    if MustEscape(v, f) then EscapeText(v) else Encode(v)
  }

  function Escape(vs: seq<ScalarValue>, f: Flags): Bytes {
    if vs == [] then [] else CharText(vs[0], f) + Escape(vs[1..], f)
  }

  // ---- lex_scan_string ----

  predicate IsShort(c: Byte) {
    c == QUOTE || c == BACKSLASH || c == SLASH || c == 0x62 || c == 0x66 || c == 0x6E || c == 0x72 || c == 0x74
  }

  /** What the first pass takes in one turn from text that does not start with a quote; 0 if it rejects it. */
  function UnitLen(s: Bytes): (n: nat)
    requires s != []
    ensures n <= |s|
  {
    if s[0] < 0x20 then 0
    else if s[0] != BACKSLASH then 1
    else if |s| < 2 then 0
    else if s[1] == LETTER_U then (if |s| >= 6 && AllHex(s[2..6]) then 6 else 0)
    else if IsShort(s[1]) then 2
    else 0
  }

  /** The first pass: how far the closing quote is. */
  function StringEnd(s: Bytes): Option<nat>
    decreases |s|
  {
    if s == [] then None
    else if s[0] == QUOTE then Some(0)
    else
      var n := UnitLen(s);
      if n == 0 then None else Shift(n, StringEnd(s[n..]))
  }

  function Shift(n: nat, m: Option<nat>): Option<nat> {
    match m case Some(k) => Some(n + k) case None => None
  }

  function Meaning(c: Byte): Byte
    requires IsShort(c)
  {
    if c == 0x62 then 0x08
    else if c == 0x66 then 0x0C
    else if c == 0x6E then 0x0A
    else if c == 0x72 then 0x0D
    else if c == 0x74 then 0x09
    else c
  }

  function Prepend(s: Bytes, r: Option<Bytes>): Option<Bytes> {
    match r case Some(t) => Some(s + t) case None => None
  }

  predicate HighSurrogate(v: int) { 0xD800 <= v <= 0xDBFF }
  predicate LowSurrogate(v: int) { 0xDC00 <= v <= 0xDFFF }

  function Paired(v: int, w: int): (r: int)
    requires HighSurrogate(v) && LowSurrogate(w)
    ensures 0x10000 <= r <= 0x10FFFF
  {
    (v - 0xD800) * 0x400 + (w - 0xDC00) + 0x10000
  }

  predicate StartsEscape(s: Bytes) {
    |s| >= 6 && s[0] == BACKSLASH && s[1] == LETTER_U && AllHex(s[2..6])
  }

  /** The unit a text starts with, if it starts with an escape of four digits. */
  function Unit(s: Bytes): nat
    requires StartsEscape(s)
  {
    Hex4Value(s[2..6])
  }

  /** The second pass: the bytes the text between the quotes stands for, unless a surrogate stands alone. */
  function Unescape(s: Bytes): Option<Bytes>
    decreases |s|
  {
    if s == [] then Some([])
    else if s[0] != BACKSLASH then Prepend([s[0]], Unescape(s[1..]))
    else if StartsEscape(s) then
      var v := Unit(s);
      if HighSurrogate(v) then
        if StartsEscape(s[6..]) && LowSurrogate(Unit(s[6..])) then
          Prepend(Encode(Paired(v, Unit(s[6..]))), Unescape(s[12..]))
        else None
      else if LowSurrogate(v) then None
      else Prepend(Encode(v), Unescape(s[6..]))
    else if |s| >= 2 && IsShort(s[1]) then Prepend([Meaning(s[1])], Unescape(s[2..]))
    else None
  }

  // ---- one unit at a time ----

  lemma Cut(s: Bytes, n: nat)
    requires n <= |s|
    ensures s == s[..n] + s[n..]
  {
  }

  /** Text without a backslash stands for itself. */
  lemma {:induction false} RawUnescapes(a: Bytes, s: Bytes)
    requires BACKSLASH !in a
    ensures Unescape(a + s) == Prepend(a, Unescape(s))
  {
    hide Unit, Encode, Paired, IsShort, Meaning, StartsEscape;
    if a == [] {
      assert a + s == s;
      if Unescape(s).Some? { assert [] + Unescape(s).value == Unescape(s).value; }
    } else {
      RawUnescapes(a[1..], s);
      assert (a + s)[1..] == a[1..] + s;
      if Unescape(s).Some? { assert [a[0]] + (a[1..] + Unescape(s).value) == a + Unescape(s).value; }
    }
  }

  lemma {:induction false} RawEnds(a: Bytes, s: Bytes)
    requires forall k :: 0 <= k < |a| ==> a[k] >= 0x20 && a[k] != BACKSLASH && a[k] != QUOTE
    ensures StringEnd(a + s) == Shift(|a|, StringEnd(s))
  {
    hide AllHex, IsShort;
    if a == [] {
      assert a + s == s;
    } else {
      RawEnds(a[1..], s);
      assert (a + s)[1..] == a[1..] + s;
    }
  }

  lemma EscapeUnescapes(v: nat, s: Bytes)
    requires v < 0x10000 && !HighSurrogate(v) && !LowSurrogate(v)
    ensures Unescape(UnicodeEscape(v) + s) == Prepend(Encode(v), Unescape(s))
  {
    var t := UnicodeEscape(v) + s;
    assert t[2..6] == Hex4(v) && t[6..] == s;
    Hex4RoundTrip(v);
  }

  lemma PairUnescapes(v: nat, w: nat, s: Bytes)
    requires HighSurrogate(v) && LowSurrogate(w)
    ensures Unescape(UnicodeEscape(v) + UnicodeEscape(w) + s) == Prepend(Encode(Paired(v, w)), Unescape(s))
  {
    var t := UnicodeEscape(v) + UnicodeEscape(w) + s;
    assert t[2..6] == Hex4(v) && t[6..][2..6] == Hex4(w) && t[12..] == s;
    Hex4RoundTrip(v);
    Hex4RoundTrip(w);
  }

  lemma EscapeEnds(v: nat, s: Bytes)
    requires v < 0x10000
    ensures StringEnd(UnicodeEscape(v) + s) == Shift(6, StringEnd(s))
  {
    var t := UnicodeEscape(v) + s;
    assert t[2..6] == Hex4(v) && t[6..] == s;
  }

  lemma ShortUnit(v: ScalarValue, s: Bytes)
    requires ShortEscape(v).Some?
    ensures Unescape(EscapeText(v) + s) == Prepend([v], Unescape(s))
    ensures StringEnd(EscapeText(v) + s) == Shift(2, StringEnd(s))
  {
    var t := EscapeText(v) + s;
    assert t[2..] == s;
  }

  lemma RawBytes(v: ScalarValue, f: Flags)
    requires !MustEscape(v, f)
    ensures forall k :: 0 <= k < |Encode(v)| ==>
      Encode(v)[k] >= 0x20 && Encode(v)[k] != BACKSLASH && Encode(v)[k] != QUOTE
  {
    EncodeIsChar(v);
  }

  lemma SurrogatePair(v: ScalarValue)
    requires v >= 0x10000
    ensures var h, l := 0xD800 + (v - 0x10000) / 0x400, 0xDC00 + (v - 0x10000) % 0x400;
            HighSurrogate(h) && LowSurrogate(l) && Paired(h, l) == v
  {
    var u := v - 0x10000;
    assert u == u / 0x400 * 0x400 + u % 0x400;
  }

  /** One character: the second pass reads back its bytes, and the first pass steps over its text. */
  lemma CharRoundTrip(v: ScalarValue, f: Flags, s: Bytes)
    ensures Unescape(CharText(v, f) + s) == Prepend(Encode(v), Unescape(s))
    ensures StringEnd(CharText(v, f) + s) == Shift(|CharText(v, f)|, StringEnd(s))
  {
    hide Unescape, StringEnd, UnicodeEscape;
    if !MustEscape(v, f) {
      RawBytes(v, f);
      RawUnescapes(Encode(v), s);
      RawEnds(Encode(v), s);
    } else if ShortEscape(v).Some? {
      ShortUnit(v, s);
    } else if v < 0x10000 {
      EscapeUnescapes(v, s);
      EscapeEnds(v, s);
    } else {
      var h, l := 0xD800 + (v - 0x10000) / 0x400, 0xDC00 + (v - 0x10000) % 0x400;
      SurrogatePair(v);
      PairUnescapes(h, l, s);
      EscapeEnds(l, s);
      EscapeEnds(h, UnicodeEscape(l) + s);
      assert EscapeText(v) + s == UnicodeEscape(h) + (UnicodeEscape(l) + s);
    }
  }

  lemma QuoteEnds(rest: Bytes)
    ensures StringEnd([QUOTE] + rest) == Some(0) && Unescape([]) == Some([])
  {
  }

  /** For every flag, the scanner reads back the bytes of the string the printer escaped. */
  lemma {:induction false} StringRoundTrip(vs: seq<ScalarValue>, f: Flags, rest: Bytes)
    ensures Unescape(Escape(vs, f)) == Some(EncodeAll(vs))
    ensures StringEnd(Escape(vs, f) + [QUOTE] + rest) == Some(|Escape(vs, f)|)
  {
    hide Unescape, StringEnd, CharText, Encode;
    QuoteEnds(rest);
    if vs == [] {
      assert Escape(vs, f) + [QUOTE] + rest == [QUOTE] + rest;
    } else {
      var c, t := CharText(vs[0], f), Escape(vs[1..], f);
      StringRoundTrip(vs[1..], f, rest);
      CharRoundTrip(vs[0], f, t);
      CharRoundTrip(vs[0], f, t + [QUOTE] + rest);
      assert Escape(vs, f) + [QUOTE] + rest == c + (t + [QUOTE] + rest);
    }
  }

  // ---- what the scanner accepts ----

  /** The decoded text fits the buffer of the source's length. */
  lemma {:induction false} DecodedFits(s: Bytes)
    requires Unescape(s).Some?
    ensures |Unescape(s).value| <= |s|
    decreases |s|
  {
    if s == [] {
    } else if s[0] != BACKSLASH {
      DecodedFits(s[1..]);
    } else if StartsEscape(s) {
      if HighSurrogate(Unit(s)) { DecodedFits(s[12..]); } else { DecodedFits(s[6..]); }
    } else {
      DecodedFits(s[2..]);
    }
  }

  /** The decoded text is well formed: escapes stand for scalar values only. */
  lemma {:induction false} DecodedWellFormed(s: Bytes)
    requires WellFormed(s) && Unescape(s).Some?
    ensures WellFormed(Unescape(s).value)
    decreases |s|
  {
    hide WellFormed;
    NothingEncoded();
    if s != [] {
      var n := FirstLen(s[0]);
      WellFormedStep(s);
      if s[0] != BACKSLASH {
        assert BACKSLASH !in s[..n] by { if n == 1 { assert s[..n] == [s[0]]; } }
        Cut(s, n);
        RawUnescapes(s[..n], s[n..]);
        DecodedWellFormed(s[n..]);
        CharWellFormed(s[..n]);
        WellFormedConcat(s[..n], Unescape(s[n..]).value);
      } else if StartsEscape(s) {
        DecodedEscape(s);
      } else {
        AsciiWellFormed(s[..2]);
        Cut(s, 2);
        WellFormedConcat(s[..2], s[2..]);
        DecodedWellFormed(s[2..]);
        AsciiWellFormed([Meaning(s[1])]);
        WellFormedConcat([Meaning(s[1])], Unescape(s[2..]).value);
      }
    }
  }

  lemma StartIsAscii(s: Bytes)
    requires StartsEscape(s)
    ensures forall k :: 0 <= k < 6 ==> s[k] < 0x80
  {
    assert forall k :: 2 <= k < 6 ==> s[k] == s[2..6][k - 2];
  }

  lemma {:induction false} DecodedEscape(s: Bytes)
    requires WellFormed(s) && StartsEscape(s) && Unescape(s).Some?
    ensures WellFormed(Unescape(s).value)
    decreases |s|, 0
  {
    var n, v := 6, Unit(s);
    if HighSurrogate(v) {
      n := 12;
      v := Paired(v, Unit(s[6..]));
    }
    StartIsAscii(s);
    if n == 12 {
      StartIsAscii(s[6..]);
      assert forall k :: 6 <= k < 12 ==> s[k] == s[6..][k - 6];
    }
    AsciiWellFormed(s[..n]);
    Cut(s, n);
    WellFormedConcat(s[..n], s[n..]);
    DecodedWellFormed(s[n..]);
    EncodeIsChar(v);
    CharWellFormed(Encode(v));
    WellFormedConcat(Encode(v), Unescape(s[n..]).value);
  }

  // ---- what the printer writes ----

  predicate Ascii(s: Bytes) {
    forall k :: 0 <= k < |s| ==> 0 < s[k] < 0x80
  }

  lemma EscapeTextIsAscii(v: ScalarValue, f: Flags)
    requires MustEscape(v, f)
    ensures Ascii(EscapeText(v))
  {
  }

  /** The printer writes well-formed UTF-8 without NUL, and only ASCII when asked to. */
  lemma CharTextWellFormed(v: ScalarValue, f: Flags)
    ensures WellFormed(CharText(v, f)) && 0 !in CharText(v, f)
    ensures f.ensureAscii ==> Ascii(CharText(v, f))
  {
    hide WellFormed, IsChar;
    EncodeIsChar(v);
    if MustEscape(v, f) {
      EscapeTextIsAscii(v, f);
      AsciiWellFormed(EscapeText(v));
    } else {
      CharWellFormed(Encode(v));
    }
  }

  lemma {:induction false} EscapeWellFormed(vs: seq<ScalarValue>, f: Flags)
    ensures WellFormed(Escape(vs, f)) && 0 !in Escape(vs, f)
    ensures f.ensureAscii ==> Ascii(Escape(vs, f))
  {
    hide WellFormed, CharText, MustEscape;
    NothingEncoded();
    if vs != [] {
      CharTextWellFormed(vs[0], f);
      EscapeWellFormed(vs[1..], f);
      WellFormedConcat(CharText(vs[0], f), Escape(vs[1..], f));
    }
  }
}
