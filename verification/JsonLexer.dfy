/** The second pass of the string scanner as it runs: from the saved token into a buffer. */
module JsonLexer {
  import opened Options
  import opened Utf8
  import opened JsonString
  import opened JsonText

  function Unsigned(c: int): Byte
    requires -0x80 <= c < 0x80
  {
    if c < 0 then c + 0x100 else c
  }

  // ---- the second pass of lex_scan_string ----

  function HexPrefix(d: Bytes, n: nat): int
    requires AllHex(d) && n <= |d|
  {
    if n == 0 then 0 else HexPrefix(d, n - 1) * 0x10 + HexValue(d[n - 1])
  }

  lemma FourDigits(d: Bytes)
    requires |d| == 4 && AllHex(d)
    ensures HexPrefix(d, 4) == Hex4Value(d)
  {
    assert HexPrefix(d, 1) == HexValue(d[0]);
    assert HexPrefix(d, 2) == HexValue(d[0]) * 0x10 + HexValue(d[1]);
  }

  /** decode_unicode_escape: `at` is the position of the letter u. */
  method DecodeUnicodeEscape(str: Bytes, at: nat) returns (value: int)
    requires at + 5 <= |str|
    ensures AllHex(str[at + 1..at + 5]) ==> value == Hex4Value(str[at + 1..at + 5])
  {
    ghost var d := str[at + 1..at + 5];
    value := 0;
    for i := 1 to 5
      invariant AllHex(d) ==> value == HexPrefix(d, i - 1)
    {
      var c := str[at + i];
      assert c == d[i - 1];
      value := value * 0x10;
      if IsDigit(c) {
        value := value + (c as int - 0x30);
      } else if 0x61 <= c <= 0x7A {
        value := value + (c as int - 0x61) + 10;
      } else if 0x41 <= c <= 0x5A {
        value := value + (c as int - 0x41) + 10;
      } else {
        return -1;
      }
    }
    if AllHex(d) { FourDigits(d); }
  }

  /** Where the second pass stands: n bytes are out, and the text from p on is still to be read. */
  ghost predicate Reading(saved: Bytes, p: nat, out: Bytes) {
    1 <= p < |saved| && |out| < p &&
    StringEnd(saved[p..]) == Some(|saved| - 1 - p) &&
    Unescape(saved[1..|saved| - 1]) == Prepend(out, Unescape(saved[p..|saved| - 1]))
  }

  lemma ReadStart(saved: Bytes)
    requires 2 <= |saved| && StringEnd(saved[1..]) == Some(|saved| - 2)
    ensures Reading(saved, 1, [])
  {
    var r := Unescape(saved[1..|saved| - 1]);
    if r.Some? { assert [] + r.value == r.value; }
  }

  /** The first pass has seen that the second pass meets whole units only. */
  lemma UnitAhead(saved: Bytes, p: nat, out: Bytes)
    requires Reading(saved, p, out) && saved[p] != QUOTE
    ensures var n := UnitLen(saved[p..]);
            1 <= n && p + n < |saved| && UnitLen(saved[p..|saved| - 1]) == n &&
            StringEnd(saved[p + n..]) == Some(|saved| - 1 - (p + n))
  {
    var t := saved[p..];
    var n := UnitLen(t);
    assert t[n..] == saved[p + n..];
    var u := saved[p..|saved| - 1];
    assert StringEnd(t[n..]).Some?;
    JsonText.EndInside(t[n..]);
    assert forall k :: 0 <= k < |u| ==> u[k] == t[k];
    assert n == 6 ==> u[2..6] == t[2..6];
  }

  /** One unit read. */
  lemma ReadOn(saved: Bytes, p: nat, out: Bytes, n: nat, bytes: Bytes)
    requires Reading(saved, p, out) && 1 <= n && p + n < |saved| && |bytes| <= n
    requires StringEnd(saved[p + n..]) == Some(|saved| - 1 - (p + n))
    requires Unescape(saved[p..|saved| - 1]) == Prepend(bytes, Unescape(saved[p + n..|saved| - 1]))
    ensures Reading(saved, p + n, out + bytes)
  {
    hide Unescape, StringEnd;
    var r := Unescape(saved[p + n..|saved| - 1]);
    if r.Some? { assert out + (bytes + r.value) == out + bytes + r.value; }
  }

  /** What Unescape says of one unit, in terms of positions in the saved text. */
  lemma PlainUnit(saved: Bytes, p: nat, out: Bytes)
    requires Reading(saved, p, out) && saved[p] != QUOTE && saved[p] != BACKSLASH
    ensures Reading(saved, p + 1, out + [saved[p]])
  {
    hide StringEnd, Reading;
    UnitAhead(saved, p, out);
    var u := saved[p..|saved| - 1];
    assert u[1..] == saved[p + 1..|saved| - 1];
    ReadOn(saved, p, out, 1, [saved[p]]);
  }

  lemma ShortAhead(saved: Bytes, p: nat, out: Bytes)
    requires Reading(saved, p, out) && saved[p] == BACKSLASH
    ensures p + 2 < |saved|
    ensures saved[p + 1] != LETTER_U ==> IsShort(saved[p + 1]) && Reading(saved, p + 2, out + [Meaning(saved[p + 1])])
  {
    hide StringEnd, Reading, AllHex, Meaning;
    UnitAhead(saved, p, out);
    var u := saved[p..|saved| - 1];
    assert u[1] == saved[p + 1];
    if saved[p + 1] != LETTER_U {
      assert u[2..] == saved[p + 2..|saved| - 1];
      ReadOn(saved, p, out, 2, [Meaning(saved[p + 1])]);
    }
  }

  lemma Slices(s: Bytes, a: nat, b: nat, i: nat, j: nat)
    requires i <= j && a + j <= b <= |s|
    ensures s[a..b][i..j] == s[a + i..a + j] && s[a..b][i..] == s[a + i..b]
  {
    assert forall k :: 0 <= k < j - i ==> s[a..b][i..j][k] == s[a + i + k];
    assert forall k :: 0 <= k < b - a - i ==> s[a..b][i..][k] == s[a + i + k];
  }

  lemma Suffixes(s: Bytes, a: nat, i: nat, j: nat)
    requires i <= j && a + j <= |s|
    ensures s[a..][i..j] == s[a + i..a + j] && s[a..][i..] == s[a + i..]
  {
    assert s[a..] == s[a..|s|];
    Slices(s, a, |s|, i, j);
    assert s[a + i..] == s[a + i..|s|];
  }

  /** An escape of four digits at p lies before the closing quote. */
  ghost predicate EscapeAt(saved: Bytes, p: nat) {
    p + 6 < |saved| && StartsEscape(saved[p..]) && StringEnd(saved[p + 6..]) == Some(|saved| - 1 - (p + 6))
  }

  lemma EscapeAhead(saved: Bytes, p: nat)
    requires p + 2 < |saved| && saved[p] == BACKSLASH && saved[p + 1] == LETTER_U
    requires StringEnd(saved[p..]) == Some(|saved| - 1 - p)
    ensures EscapeAt(saved, p) && AllHex(saved[p + 2..p + 6])
  {
    var t := saved[p..];
    assert t[1] == saved[p + 1];
    assert UnitLen(t) == 6;
    Suffixes(saved, p, 2, 6);
    JsonText.EndInside(t[6..]);
  }

  /** The text up to the closing quote starts with the same escape. */
  lemma EscapeInside(saved: Bytes, p: nat)
    requires EscapeAt(saved, p)
    ensures var u := saved[p..|saved| - 1];
            StartsEscape(u) && Unit(u) == Unit(saved[p..]) && u[6..] == saved[p + 6..|saved| - 1]
    ensures AllHex(saved[p + 2..p + 6]) && Unit(saved[p..]) == Hex4Value(saved[p + 2..p + 6])
  {
    Slices(saved, p, |saved| - 1, 2, 6);
    Suffixes(saved, p, 2, 6);
    assert saved[p..|saved| - 1][1] == saved[p + 1] == saved[p..][1];
  }

  lemma EscapeUnit(saved: Bytes, p: nat, out: Bytes)
    requires Reading(saved, p, out) && EscapeAt(saved, p)
    ensures var v := Unit(saved[p..]);
            (!HighSurrogate(v) && !LowSurrogate(v) ==> Reading(saved, p + 6, out + Encode(v))) &&
            (LowSurrogate(v) ==> Unescape(saved[1..|saved| - 1]) == Option.None)
  {
    var v := Unit(saved[p..]);
    EscapeInside(saved, p);
    if !HighSurrogate(v) && !LowSurrogate(v) { ReadOn(saved, p, out, 6, Encode(v)); }
  }

  lemma LoneUnit(saved: Bytes, p: nat, out: Bytes)
    requires Reading(saved, p, out) && EscapeAt(saved, p) && HighSurrogate(Unit(saved[p..]))
    requires !StartsEscape(saved[p + 6..|saved| - 1]) || !LowSurrogate(Unit(saved[p + 6..|saved| - 1]))
    ensures Unescape(saved[1..|saved| - 1]) == Option.None
  {
    EscapeInside(saved, p);
  }

  lemma PairUnit(saved: Bytes, p: nat, out: Bytes)
    requires Reading(saved, p, out) && EscapeAt(saved, p) && EscapeAt(saved, p + 6)
    requires HighSurrogate(Unit(saved[p..])) && LowSurrogate(Unit(saved[p + 6..]))
    ensures Reading(saved, p + 12, out + Encode(Paired(Unit(saved[p..]), Unit(saved[p + 6..]))))
  {
    var v, w := Unit(saved[p..]), Unit(saved[p + 6..]);
    EscapeInside(saved, p);
    EscapeInside(saved, p + 6);
    Slices(saved, p, |saved| - 1, 12, 12);
    ReadOn(saved, p, out, 12, Encode(Paired(v, w)));
  }

  lemma BackslashAhead(saved: Bytes, p: nat)
    requires EscapeAt(saved, p)
    ensures saved[p + 6] == BACKSLASH ==> p + 8 < |saved|
  {
  }

  /** A high surrogate at p needs a low one after it. */
  method LowHalf(saved: Bytes, p: nat, ghost out: Bytes, high: int) returns (found: bool, value: int)
    requires Reading(saved, p, out) && EscapeAt(saved, p) && high == Unit(saved[p..]) && HighSurrogate(high)
    ensures !found ==> Unescape(saved[1..|saved| - 1]) == Option.None
    ensures found ==> Scalar(value) && Reading(saved, p + 12, out + Encode(value))
  {
    hide Reading, Unescape, Encode, StringEnd, Unit, UnitLen, AllHex;
    BackslashAhead(saved, p);
    if saved[p + 6] == BACKSLASH && saved[p + 7] == LETTER_U {
      EscapeAhead(saved, p + 6);
      EscapeInside(saved, p + 6);
      var value2 := DecodeUnicodeEscape(saved, p + 7);
      if 0xDC00 <= value2 && value2 <= 0xDFFF {
        PairUnit(saved, p, out);
        return true, (high - 0xD800) * 0x400 + (value2 - 0xDC00) + 0x10000;
      }
    }
    LoneUnit(saved, p, out);
    return false, 0;
  }

  /** One escape of four digits, or two that pair up; `p` is the position of the first backslash. */
  method Escape(saved: Bytes, p: nat, ghost out: Bytes) returns (found: bool, p': nat, value: int)
    requires Reading(saved, p, out) && saved[p] == BACKSLASH && p + 2 < |saved| && saved[p + 1] == LETTER_U
    ensures !found ==> Unescape(saved[1..|saved| - 1]) == Option.None
    ensures found ==> Scalar(value) && p < p' && Reading(saved, p', out + Encode(value))
  {
    EscapeAhead(saved, p);
    EscapeInside(saved, p);
    EscapeUnit(saved, p, out);
    value := DecodeUnicodeEscape(saved, p + 1);
    p' := p + 6;
    if 0xD800 <= value && value <= 0xDBFF {
      found, value := LowHalf(saved, p, out, value);
      return found, p' + 6, value;
    } else if 0xDC00 <= value && value <= 0xDFFF {
      return false, p', value;
    }
    return true, p', value;
  }

  /** One turn of the second pass: reads at p, writes at n. */
  method DecodeOne(saved: Bytes, out: array<Byte>, p: nat, n: nat) returns (ok: bool, p': nat, n': nat)
    requires out.Length == |saved| + 1 && n < p < |saved| && saved[p] != QUOTE && Reading(saved, p, out[..n])
    modifies out
    ensures !ok ==> Unescape(saved[1..|saved| - 1]) == Option.None
    ensures ok ==> p < p' < |saved| && n' < p' && Reading(saved, p', out[..n'])
  {
    hide Reading, Unescape, StringEnd, Encode;
    ghost var was := out[..n];
    if saved[p] == BACKSLASH {
      ShortAhead(saved, p, was);
      if saved[p + 1] == LETTER_U {
        var value;
        ok, p', value := Escape(saved, p, was);
        if !ok {
          return false, p, n;
        }
        var _, size := EncodeInto(value, out, n);
        n' := n + size;
        assert out[..n'] == was + Encode(value);
      } else {
        out[n] := Meaning(saved[p + 1]);
        p', n' := p + 2, n + 1;
        assert out[..n'] == was + [out[n]];
      }
    } else {
      PlainUnit(saved, p, was);
      out[n] := saved[p];
      p', n' := p + 1, n + 1;
      assert out[..n'] == was + [out[n]];
    }
    ReadingBounds(saved, p', out[..n']);
    return true, p', n';
  }

  lemma ReadingBounds(saved: Bytes, p: nat, out: Bytes)
    requires Reading(saved, p, out)
    ensures |out| < p < |saved|
  {
  }

  /**
    The second pass of lex_scan_string over the saved token, quotes included, into a buffer of
    the token's length. Every write is within the buffer.
  */
  method SecondPass(saved: Bytes) returns (ok: bool, text: Bytes)
    requires 2 <= |saved| && StringEnd(saved[1..]) == Some(|saved| - 2)
    ensures ok <==> Unescape(saved[1..|saved| - 1]).Some?
    ensures ok ==> text == Unescape(saved[1..|saved| - 1]).value
  {
    var out := new Byte[|saved| + 1];
    var p, n := 1, 0;
    ReadStart(saved);
    assert out[..0] == [];
    while saved[p] != QUOTE
      invariant 0 <= n < p < |saved| && Reading(saved, p, out[..n])
      decreases |saved| - p
    {
      var found;
      found, p, n := DecodeOne(saved, out, p, n);
      if !found {
        return false, [];
      }
    }
    assert saved[p..|saved| - 1] == [] by { assert StringEnd(saved[p..]) == Some(0); }
    assert out[..n] + [] == out[..n];
    return true, out[..n];
  }
}
