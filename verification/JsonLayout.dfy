/** White space and slashes in the printer's text. */
module JsonLayout {
  // They are told from the bytes of the text alone: which brackets are open at a byte, and whether it is in a
  // string.

  import opened Utf8
  import S = JsonString
  import J = JsonText
  import R = JsonRoundTrip

  // ---- reading a text byte by byte ----

  /** Before a byte: outside strings, inside one, or inside one after a backslash that starts an escape. */
  datatype Place = Outside | Inside | Escaped

  function Turn(p: Place, c: Byte): Place {
    match p
    case Outside => if c == 0x22 then Inside else Outside
    case Inside => if c == 0x22 then Outside else if c == 0x5C then Escaped else Inside
    case Escaped => Inside
  }

  predicate Opens(c: Byte) {
    c == 0x5B || c == 0x7B
  }

  predicate Closes(c: Byte) {
    c == 0x5D || c == 0x7D
  }

  predicate IsWhite(c: Byte) {
    c == 0x20 || c == 0x09 || c == 0x0A || c == 0x0D
  }

  /** The number of open brackets after a byte. */
  function Level(p: Place, open: int, c: Byte): int {
    if p == Outside && Opens(c) then open + 1 else if p == Outside && Closes(c) then open - 1 else open
  }

  /** The place at position k of a text that starts at p. */
  function PlaceAt(s: Bytes, p: Place, k: nat): Place
    requires k <= |s|
  {
    if k == 0 then p else PlaceAt(s[1..], Turn(p, s[0]), k - 1)
  }

  function OpenAt(s: Bytes, p: Place, open: int, k: nat): int
    requires k <= |s|
  {
    if k == 0 then open else OpenAt(s[1..], Turn(p, s[0]), Level(p, open, s[0]), k - 1)
  }

  function WhiteRun(s: Bytes): (n: nat)
    ensures n <= |s| && forall k :: 0 <= k < n ==> IsWhite(s[k])
    ensures n < |s| ==> !IsWhite(s[n])
  {
    if s != [] && IsWhite(s[0]) then 1 + WhiteRun(s[1..]) else 0
  }

  /** A line break and the spaces before byte d, with `open` brackets open before it. */
  function Line(d: Byte, open: int, indent: nat): Bytes {
    [0x0A] + seq((if Closes(d) then open - 1 else open) * indent % 0x1_0000_0000, i => 0x20)
  }

  /** The white space between two bytes outside strings, c and d, with `open` brackets open after c. */
  function Gap(c: Byte, d: Byte, open: int, f: S.Flags): Bytes {
    if c == 0x3A then (if f.compact then [] else [0x20])
    else if Opens(c) && Closes(d) then []
    else if f.indent > 0 && (Opens(c) || Closes(d) || c == 0x2C) then Line(d, open, f.indent)
    else if c == 0x2C && !f.compact then [0x20]
    else []
  }

  /** A byte that is not white space outside strings is allowed where it is. */
  predicate Fitting(p: Place, c: Byte, f: S.Flags) {
    match p
    case Outside => !IsWhite(c) && c != 0x2F && c != 0x5C
    case Inside => c >= 0x20 && (c == 0x2F ==> !f.escapeSlash)
    case Escaped => c >= 0x20 && (c == 0x2F ==> f.escapeSlash)
  }

  /** From a byte that is not white space on: outside strings, white space is exactly the gaps; nothing trails. */
  predicate Neat(s: Bytes, p: Place, open: int, f: S.Flags)
    decreases |s|
  {
    s == [] ||
    (Fitting(p, s[0], f) &&
     var q, o := Turn(p, s[0]), Level(p, open, s[0]);
     if q == Outside then Spaced(s[0], s[1..], o, f) && Neat(s[1..][WhiteRun(s[1..])..], Outside, o, f)
     else Neat(s[1..], q, o, f))
  }

  /** After byte c comes its gap. */
  predicate Spaced(c: Byte, s: Bytes, open: int, f: S.Flags) {
    var t := s[WhiteRun(s)..];
    s[..WhiteRun(s)] == if t == [] then [] else Gap(c, t[0], open, f)
  }

  // ---- the printer's text is neat ----

  /** What may follow a value: its gap, and a neat text. */
  predicate Follows(s: Bytes, open: int, f: S.Flags) {
    Spaced(0x22, s, open, f) && Neat(s[WhiteRun(s)..], Outside, open, f)
  }

  /** A byte that ends a value, or stands in a number or a name. */
  predicate Solid(c: Byte) {
    !IsWhite(c) && c != 0x22 && c != 0x2C && c != 0x2F && c != 0x3A && c != 0x5C && !Opens(c) && !Closes(c)
  }

  lemma {:induction false} Runs(a: Bytes, s: Bytes)
    requires (forall k :: 0 <= k < |a| ==> IsWhite(a[k])) && (s != [] ==> !IsWhite(s[0]))
    ensures WhiteRun(a + s) == |a| && (a + s)[..|a|] == a && (a + s)[|a|..] == s
  {
    if a == [] {
      assert a + s == s;
    } else {
      Runs(a[1..], s);
      assert (a + s)[1..] == a[1..] + s;
    }
  }

  /** One byte, its gap, and what follows. */
  lemma OneByte(p: Place, c: Byte, gap: Bytes, s: Bytes, open: int, f: S.Flags)
    requires Fitting(p, c, f) && Turn(p, c) == Outside && (forall k :: 0 <= k < |gap| ==> IsWhite(gap[k]))
    requires (s != [] ==> !IsWhite(s[0])) && gap == if s == [] then [] else Gap(c, s[0], Level(p, open, c), f)
    requires Neat(s, Outside, Level(p, open, c), f)
    ensures Neat([c] + (gap + s), p, open, f)
  {
    hide Gap;
    Runs(gap, s);
    assert ([c] + (gap + s))[1..] == gap + s;
  }

  /** The last byte of a value. */
  lemma LastByte(p: Place, c: Byte, rest: Bytes, open: int, f: S.Flags)
    requires Fitting(p, c, f) && Turn(p, c) == Outside && (Solid(c) || Closes(c) || c == 0x22)
    requires Follows(rest, Level(p, open, c), f)
    ensures Neat([c] + rest, p, open, f)
  {
    hide Line;
    var w := WhiteRun(rest);
    assert rest == rest[..w] + rest[w..];
    OneByte(p, c, rest[..w], rest[w..], open, f);
  }

  lemma NoGap(c: Byte, d: Byte, open: int, f: S.Flags)
    requires Solid(c) && Solid(d)
    ensures Gap(c, d, open, f) == []
  {
  }

  /** Numbers and names. */
  lemma {:induction false} SolidNeat(a: Bytes, rest: Bytes, open: int, f: S.Flags)
    requires a != [] && (forall k :: 0 <= k < |a| ==> Solid(a[k])) && Follows(rest, open, f)
    ensures Neat(a + rest, Outside, open, f)
  {
    hide Neat, Gap, Follows;
    if |a| == 1 {
      LastByte(Outside, a[0], rest, open, f);
      assert a + rest == [a[0]] + rest;
    } else {
      SolidNeat(a[1..], rest, open, f);
      var t := a[1..] + rest;
      assert t[0] == a[1];
      NoGap(a[0], a[1], open, f);
      OneByte(Outside, a[0], [], a[1..] + rest, open, f);
      assert a + rest == [a[0]] + ([] + (a[1..] + rest));
    }
  }

  /** A byte after which the text is inside a string. */
  lemma InsideByte(p: Place, c: Byte, s: Bytes, open: int, f: S.Flags)
    requires Fitting(p, c, f) && Turn(p, c) != Outside && Neat(s, Turn(p, c), open, f)
    ensures Neat([c] + s, p, open, f)
  {
    assert ([c] + s)[1..] == s;
  }

  lemma {:induction false} RawNeat(a: Bytes, s: Bytes, open: int, f: S.Flags)
    requires forall k :: 0 <= k < |a| ==>
      a[k] >= 0x20 && a[k] != 0x22 && a[k] != 0x5C && (a[k] == 0x2F ==> !f.escapeSlash)
    requires Neat(s, Inside, open, f)
    ensures Neat(a + s, Inside, open, f)
  {
    hide Neat;
    if a == [] {
      assert a + s == s;
    } else {
      RawNeat(a[1..], s, open, f);
      InsideByte(Inside, a[0], a[1..] + s, open, f);
      assert a + s == [a[0]] + (a[1..] + s);
    }
  }

  /** A backslash and the byte after it. */
  lemma EscapeNeat(c: Byte, s: Bytes, open: int, f: S.Flags)
    requires c >= 0x20 && (c == 0x2F ==> f.escapeSlash) && Neat(s, Inside, open, f)
    ensures Neat([0x5C, c] + s, Inside, open, f)
  {
    InsideByte(Escaped, c, s, open, f);
    InsideByte(Inside, 0x5C, [c] + s, open, f);
    assert [0x5C, c] + s == [0x5C] + ([c] + s);
  }

  lemma UnitNeat(v: nat, s: Bytes, open: int, f: S.Flags)
    requires v < 0x10000 && Neat(s, Inside, open, f)
    ensures Neat(S.UnicodeEscape(v) + s, Inside, open, f)
  {
    hide Neat;
    var h := S.Hex4(v);
    assert forall k :: 0 <= k < 4 ==> S.IsHex(h[k]);
    RawNeat(h, s, open, f);
    EscapeNeat(0x75, h + s, open, f);
    assert S.UnicodeEscape(v) + s == [0x5C, 0x75] + (h + s);
  }

  lemma CharNeat(v: ScalarValue, s: Bytes, open: int, f: S.Flags)
    requires Neat(s, Inside, open, f)
    ensures Neat(S.CharText(v, f) + s, Inside, open, f)
  {
    hide Neat, Encode, S.UnicodeEscape;
    if !S.MustEscape(v, f) {
      S.RawBytes(v, f);
      SlashBytes(v, f);
      RawNeat(Encode(v), s, open, f);
    } else if S.ShortEscape(v).Some? {
      EscapeNeat(S.ShortEscape(v).value, s, open, f);
    } else if v < 0x10000 {
      UnitNeat(v, s, open, f);
    } else {
      var h, w := 0xD800 + (v - 0x10000) / 0x400, 0xDC00 + (v - 0x10000) % 0x400;
      UnitNeat(w, s, open, f);
      UnitNeat(h, S.UnicodeEscape(w) + s, open, f);
      assert S.CharText(v, f) + s == S.UnicodeEscape(h) + (S.UnicodeEscape(w) + s);
    }
  }

  lemma SlashBytes(v: ScalarValue, f: S.Flags)
    requires !S.MustEscape(v, f)
    ensures forall k :: 0 <= k < |Encode(v)| && Encode(v)[k] == 0x2F ==> !f.escapeSlash
  {
    EncodeIsChar(v);
  }

  lemma {:induction false} EscapedNeat(vs: seq<ScalarValue>, s: Bytes, open: int, f: S.Flags)
    requires Neat(s, Inside, open, f)
    ensures Neat(S.Escape(vs, f) + s, Inside, open, f)
  {
    hide Neat, S.CharText;
    if vs == [] {
      assert S.Escape(vs, f) + s == s;
    } else {
      EscapedNeat(vs[1..], s, open, f);
      CharNeat(vs[0], S.Escape(vs[1..], f) + s, open, f);
      assert S.Escape(vs, f) + s == S.CharText(vs[0], f) + (S.Escape(vs[1..], f) + s);
    }
  }

  /** A string, before what follows its closing quote. */
  lemma QuotedNeat(text: Bytes, rest: Bytes, open: int, f: S.Flags)
    requires WellFormed(text) && Neat([0x22] + rest, Inside, open, f)
    ensures Neat(J.Quoted(text, f) + rest, Outside, open, f)
  {
    hide WellFormed, S.Escape, Neat;
    var vs := ScalarsOf(text);
    var s := S.Escape(vs, f) + ([0x22] + rest);
    EscapedNeat(vs, [0x22] + rest, open, f);
    InsideByte(Outside, 0x22, s, open, f);
    assert J.Quoted(text, f) + rest == [0x22] + s;
  }

  lemma IntegerSolid(n: int)
    ensures J.PrintInteger(n) != [] && forall k :: 0 <= k < |J.PrintInteger(n)| ==> Solid(J.PrintInteger(n)[k])
  {
    var a := J.Decimal(if n < 0 then -n else n);
    R.DecimalDigits(if n < 0 then -n else n);
    assert forall k :: 0 <= k < |a| ==> J.IsDigit(a[k]);
  }

  /** A printed value starts with a byte that is neither white space nor a closing bracket. */
  lemma Starts(v: J.Value, f: S.Flags, depth: nat)
    requires J.Legal(v)
    ensures var s := J.Print(v, f, depth); s != [] && !IsWhite(s[0]) && !Closes(s[0])
  {
    if v.Integer? { IntegerSolid(v.n); assert Solid(J.PrintInteger(v.n)[0]); }
  }

  lemma IndentIsGap(c: Byte, d: Byte, open: nat, space: bool, depth: nat, f: S.Flags)
    requires Opens(c) || Closes(d) || c == 0x2C
    requires c != 0x3A && !(Opens(c) && Closes(d)) && (space <==> c == 0x2C) && (Closes(d) ==> open >= 1 && c != 0x2C)
    requires depth == if Closes(d) then open - 1 else open
    ensures J.Indent(f, depth, space) == Gap(c, d, open, f)
    ensures forall k :: 0 <= k < |J.Indent(f, depth, space)| ==> IsWhite(J.Indent(f, depth, space)[k])
  {
  }

  lemma {:induction false} PrintNeat(v: J.Value, f: S.Flags, depth: nat, rest: Bytes)
    requires J.Legal(v) && Follows(rest, depth, f)
    ensures Neat(J.Print(v, f, depth) + rest, Outside, depth, f)
    decreases v
  {
    hide Neat, Spaced, Follows;
    match v
    case Null => SolidNeat(J.TEXT_NULL, rest, depth, f);
    case True => SolidNeat(J.TEXT_TRUE, rest, depth, f);
    case False => SolidNeat(J.TEXT_FALSE, rest, depth, f);
    case Integer(n) => IntegerSolid(n); SolidNeat(J.PrintInteger(n), rest, depth, f);
    case String(text) =>
      LastByte(Inside, 0x22, rest, depth, f);
      QuotedNeat(text, rest, depth, f);
    case Array(items) =>
      if items == [] {
        EmptyNeat(0x5B, 0x5D, rest, depth, f);
      } else {
        ItemsNeat(v, 0, f, depth, rest);
        ItemsStart(v, 0, f, depth);
        OpenNeat(0x5B, J.PrintItems(v, 0, f, depth), rest, depth, f);
      }
    case Object(members) =>
      if members == [] {
        EmptyNeat(0x7B, 0x7D, rest, depth, f);
      } else {
        MembersNeat(v, 0, f, depth, rest);
        MembersStart(v, 0, f, depth);
        OpenNeat(0x7B, J.PrintMembers(v, 0, f, depth), rest, depth, f);
      }
  }

  lemma EmptyNeat(c: Byte, d: Byte, rest: Bytes, depth: nat, f: S.Flags)
    requires Opens(c) && Closes(d) && Follows(rest, depth, f)
    ensures Neat([c, d] + rest, Outside, depth, f)
  {
    hide Neat, Follows;
    LastByte(Outside, d, rest, depth + 1, f);
    OneByte(Outside, c, [], [d] + rest, depth, f);
    assert [c, d] + rest == [c] + ([] + ([d] + rest));
  }

  lemma OpenNeat(c: Byte, body: Bytes, rest: Bytes, depth: nat, f: S.Flags)
    requires Opens(c) && body != [] && !IsWhite(body[0]) && !Closes(body[0])
    requires Neat(body + rest, Outside, depth + 1, f)
    ensures Neat([c] + J.Indent(f, depth + 1, false) + body + rest, Outside, depth, f)
  {
    hide Neat, J.Indent, Gap;
    var gap := J.Indent(f, depth + 1, false);
    IndentIsGap(c, body[0], depth + 1, false, depth + 1, f);
    OneByte(Outside, c, gap, body + rest, depth, f);
    assert [c] + gap + body + rest == [c] + (gap + (body + rest));
  }

  /** After a value: a comma, and the next element. */
  lemma CommaFollows(body: Bytes, rest: Bytes, open: nat, f: S.Flags)
    requires body != [] && !IsWhite(body[0]) && !Closes(body[0]) && Neat(body + rest, Outside, open, f)
    ensures Follows([0x2C] + J.Indent(f, open, true) + body + rest, open, f)
  {
    hide Neat, J.Indent, Gap;
    var gap := J.Indent(f, open, true);
    IndentIsGap(0x2C, body[0], open, true, open, f);
    OneByte(Outside, 0x2C, gap, body + rest, open, f);
    assert [0x2C] + gap + body + rest == [0x2C] + (gap + (body + rest));
    SolidFollows([0x2C] + (gap + (body + rest)), open, f);
  }

  lemma SolidFollows(s: Bytes, open: nat, f: S.Flags)
    requires s != [] && s[0] == 0x2C && Neat(s, Outside, open, f)
    ensures Follows(s, open, f)
  {
    hide Neat, Line;
    assert WhiteRun(s) == 0;
    assert s[0..] == s && s[..0] == [];
  }

  /** After the last value: the closing bracket. */
  lemma CloseFollows(d: Byte, rest: Bytes, depth: nat, f: S.Flags)
    requires Closes(d) && Follows(rest, depth, f)
    ensures Follows(J.Indent(f, depth, false) + [d] + rest, depth + 1, f)
  {
    hide Neat, J.Indent, Gap;
    var gap := J.Indent(f, depth, false);
    var s := [d] + rest;
    LastByte(Outside, d, rest, depth + 1, f);
    IndentIsGap(0x22, d, depth + 1, false, depth, f);
    Runs(gap, s);
    assert gap + [d] + rest == gap + s;
  }

  lemma ItemsStart(v: J.Value, i: nat, f: S.Flags, depth: nat)
    requires J.Legal(v) && v.Array? && i < |v.items|
    ensures var s := J.PrintItems(v, i, f, depth); s != [] && !IsWhite(s[0]) && !Closes(s[0])
  {
    Starts(v.items[i], f, depth + 1);
  }

  lemma {:induction false} ItemsNeat(v: J.Value, i: nat, f: S.Flags, depth: nat, rest: Bytes)
    requires J.Legal(v) && v.Array? && i < |v.items| && Follows(rest, depth, f)
    ensures Neat(J.PrintItems(v, i, f, depth) + rest, Outside, depth + 1, f)
    decreases v, |v.items| - i
  {
    hide Neat, Follows, J.Print, J.Indent;
    var p := J.Print(v.items[i], f, depth + 1);
    if i < |v.items| - 1 {
      var more := J.PrintItems(v, i + 1, f, depth);
      ItemsNeat(v, i + 1, f, depth, rest);
      ItemsStart(v, i + 1, f, depth);
      CommaFollows(more, rest, depth + 1, f);
      var after := [0x2C] + J.Indent(f, depth + 1, true) + more + rest;
      PrintNeat(v.items[i], f, depth + 1, after);
      assert J.PrintItems(v, i, f, depth) + rest == p + after;
    } else {
      CloseFollows(0x5D, rest, depth, f);
      var after := J.Indent(f, depth, false) + [0x5D] + rest;
      PrintNeat(v.items[i], f, depth + 1, after);
      assert J.PrintItems(v, i, f, depth) + rest == p + after;
    }
  }

  lemma MembersStart(v: J.Value, i: nat, f: S.Flags, depth: nat)
    requires J.Legal(v) && v.Object? && i < |v.members|
    ensures var s := J.PrintMembers(v, i, f, depth); s != [] && s[0] == 0x22
  {
  }

  /** A key and its colon. */
  lemma KeyNeat(key: Bytes, p: Bytes, after: Bytes, open: nat, f: S.Flags)
    requires WellFormed(key) && p != [] && !IsWhite(p[0]) && !Closes(p[0]) && Neat(p + after, Outside, open, f)
    ensures Neat(J.Quoted(key, f) + J.Separator(f) + p + after, Outside, open, f)
  {
    hide Neat, WellFormed, J.Quoted;
    var gap := if f.compact then [] else [0x20];
    var colon := [0x3A] + (gap + (p + after));
    OneByte(Outside, 0x3A, gap, p + after, open, f);
    OneByte(Inside, 0x22, [], colon, open, f);
    assert [] + colon == colon;
    QuotedNeat(key, colon, open, f);
    assert J.Separator(f) == [0x3A] + gap;
    assert J.Quoted(key, f) + J.Separator(f) + p + after == J.Quoted(key, f) + colon;
  }

  lemma {:induction false} MembersNeat(v: J.Value, i: nat, f: S.Flags, depth: nat, rest: Bytes)
    requires J.Legal(v) && v.Object? && i < |v.members| && Follows(rest, depth, f)
    ensures Neat(J.PrintMembers(v, i, f, depth) + rest, Outside, depth + 1, f)
    decreases v, |v.members| - i
  {
    hide Neat, Follows, J.Print, J.Indent, J.Quoted, J.Separator;
    var q, p := J.Quoted(v.members[i].key, f) + J.Separator(f), J.Print(v.members[i].value, f, depth + 1);
    Starts(v.members[i].value, f, depth + 1);
    if i < |v.members| - 1 {
      var more := J.PrintMembers(v, i + 1, f, depth);
      MembersNeat(v, i + 1, f, depth, rest);
      MembersStart(v, i + 1, f, depth);
      CommaFollows(more, rest, depth + 1, f);
      var after := [0x2C] + J.Indent(f, depth + 1, true) + more + rest;
      PrintNeat(v.members[i].value, f, depth + 1, after);
      KeyNeat(v.members[i].key, p, after, depth + 1, f);
      assert J.PrintMembers(v, i, f, depth) + rest == q + p + after;
    } else {
      CloseFollows(0x7D, rest, depth, f);
      var after := J.Indent(f, depth, false) + [0x7D] + rest;
      PrintNeat(v.members[i].value, f, depth + 1, after);
      KeyNeat(v.members[i].key, p, after, depth + 1, f);
      assert J.PrintMembers(v, i, f, depth) + rest == q + p + after;
    }
  }

  // ---- what that means for each byte ----

  /** White space outside strings does not change the place. */
  lemma {:induction false} WhiteKeeps(s: Bytes, open: int, w: nat, k: nat)
    requires w <= k <= |s| && forall i :: 0 <= i < w ==> IsWhite(s[i])
    ensures PlaceAt(s, Outside, k) == PlaceAt(s[w..], Outside, k - w)
    ensures OpenAt(s, Outside, open, k) == OpenAt(s[w..], Outside, open, k - w)
  {
    if w == 0 {
      assert s[0..] == s;
    } else {
      WhiteKeeps(s[1..], open, w - 1, k - 1);
      assert s[1..][w - 1..] == s[w..];
    }
  }

  /** The number of spaces at the front. */
  function SpaceRun(s: Bytes): (n: nat)
    ensures n <= |s| && (n < |s| ==> s[n] != 0x20)
  {
    if s != [] && s[0] == 0x20 then 1 + SpaceRun(s[1..]) else 0
  }

  /** The byte at position k, given its place and the brackets open before it. */
  predicate Laid(s: Bytes, k: nat, q: Place, open: int, f: S.Flags)
    requires k < |s|
  {
    (q == Outside && s[k] == 0x0A ==>
      var n := SpaceRun(s[k + 1..]);
      f.indent > 0 && k + 1 + n < |s| && !IsWhite(s[k + 1 + n]) &&
      n == (if Closes(s[k + 1 + n]) then open - 1 else open) * f.indent % 0x1_0000_0000) &&
    (q == Outside && IsWhite(s[k]) ==> (s[k] == 0x0A || s[k] == 0x20) && (f.indent > 0 || !f.compact)) &&
    (q != Outside ==> s[k] >= 0x20) &&
    (s[k] == 0x2F ==> q != Outside && (q == Escaped <==> f.escapeSlash))
  }

  lemma {:induction false} SpacesRun(n: nat, t: Bytes)
    requires t != [] ==> t[0] != 0x20
    ensures SpaceRun(seq(n, i => 0x20) + t) == n
  {
    var s := seq(n, i => 0x20) + t;
    if n > 0 {
      SpacesRun(n - 1, t);
      assert s[1..] == seq(n - 1, i => 0x20) + t;
    } else {
      assert s == t;
    }
  }

  /** A byte of a gap. */
  lemma GapLaid(c: Byte, s: Bytes, k: nat, open: int, f: S.Flags)
    requires Spaced(c, s, open, f) && k < WhiteRun(s)
    ensures Laid(s, k, Outside, open, f)
  {
    var w := WhiteRun(s);
    var t := s[w..];
    assert s[..w][k] == s[k];
    if s[k] == 0x0A {
      var line := Line(t[0], open, f.indent);
      assert s[..w] == line && line[k] == s[k] && k == 0;
      assert s[1..] == line[1..] + t;
      assert line[1..] == seq(w - 1, i => 0x20);
      SpacesRun(w - 1, t);
      assert s[w] == t[0];
    }
  }

  lemma LaidLater(s: Bytes, n: nat, k: nat, q: Place, open: int, f: S.Flags)
    requires n <= k < |s| && Laid(s[n..], k - n, q, open, f)
    ensures Laid(s, k, q, open, f)
  {
    assert s[n..][k - n..] == s[k..] && s[n..][k - n + 1..] == s[k + 1..];
  }

  lemma NeatStep(s: Bytes, p: Place, open: int, f: S.Flags)
    requires Neat(s, p, open, f) && s != []
    ensures var q, o, t := Turn(p, s[0]), Level(p, open, s[0]), s[1..];
            Fitting(p, s[0], f) &&
            if q == Outside then Spaced(s[0], t, o, f) && Neat(t[WhiteRun(t)..], Outside, o, f) else Neat(t, q, o, f)
  {
  }

  lemma AtStep(s: Bytes, p: Place, open: int, k: nat)
    requires 0 < k <= |s|
    ensures PlaceAt(s, p, k) == PlaceAt(s[1..], Turn(p, s[0]), k - 1)
    ensures OpenAt(s, p, open, k) == OpenAt(s[1..], Turn(p, s[0]), Level(p, open, s[0]), k - 1)
  {
  }

  lemma {:induction false} NeatLaid(s: Bytes, p: Place, open: int, f: S.Flags, k: nat)
    requires Neat(s, p, open, f) && k < |s|
    ensures Laid(s, k, PlaceAt(s, p, k), OpenAt(s, p, open, k), f)
    decreases |s|, 0
  {
    hide Gap, Laid, Spaced, Neat, PlaceAt, OpenAt, Turn, Level, Fitting, IsWhite;
    NeatStep(s, p, open, f);
    if k == 0 {
      FirstLaid(s, p, open, f);
      AtStart(s, p, open);
    } else {
      var q, o := Turn(p, s[0]), Level(p, open, s[0]);
      var t := s[1..];
      AtStep(s, p, open, k);
      if q == Outside {
        SpacedLaid(s[0], t, o, f, k - 1);
      } else {
        NeatLaid(t, q, o, f, k - 1);
      }
      LaidLater(s, 1, k, PlaceAt(s, p, k), OpenAt(s, p, open, k), f);
    }
  }

  lemma AtStart(s: Bytes, p: Place, open: int)
    ensures PlaceAt(s, p, 0) == p && OpenAt(s, p, open, 0) == open
  {
  }

  /** A byte of a gap, or of the text after it. */
  lemma {:induction false} SpacedLaid(c: Byte, t: Bytes, o: int, f: S.Flags, k: nat)
    requires Spaced(c, t, o, f) && Neat(t[WhiteRun(t)..], Outside, o, f) && k < |t|
    ensures Laid(t, k, PlaceAt(t, Outside, k), OpenAt(t, Outside, o, k), f)
    decreases |t|, 1
  {
    hide Gap, Laid, Spaced, Neat, PlaceAt, OpenAt, IsWhite;
    var w := WhiteRun(t);
    if k < w {
      GapLaid(c, t, k, o, f);
      WhiteKeeps(t, o, k, k);
      AtStart(t[k..], Outside, o);
    } else {
      NeatLaid(t[w..], Outside, o, f, k - w);
      WhiteKeeps(t, o, w, k);
      LaidLater(t, w, k, PlaceAt(t, Outside, k), OpenAt(t, Outside, o, k), f);
    }
  }

  lemma FirstLaid(s: Bytes, p: Place, open: int, f: S.Flags)
    requires s != [] && Fitting(p, s[0], f)
    ensures Laid(s, 0, p, open, f)
  {
  }

  /** Outside strings the printer's text has exactly the white space that its neighbours call for. */
  lemma PrintIsNeat(v: J.Value, f: S.Flags)
    requires J.Legal(v)
    ensures Neat(J.Print(v, f, 0), Outside, 0, f)
  {
    assert Follows([], 0, f);
    PrintNeat(v, f, 0, []);
    assert J.Print(v, f, 0) + [] == J.Print(v, f, 0);
  }

  /** At every position of the printer's text: outside strings, a line break is followed by as many spaces as
      brackets are open there, less one before a closing bracket, times the indent, as a 32-bit word; without
      indent there is no line break, and if it is also compact, no white space; a slash stands inside a string,
      after a backslash exactly if that flag is given. */
  lemma PrintIsLaid(v: J.Value, f: S.Flags, k: nat)
    requires J.Legal(v) && k < |J.Print(v, f, 0)|
    ensures var s := J.Print(v, f, 0); Laid(s, k, PlaceAt(s, Outside, k), OpenAt(s, Outside, 0, k), f)
    ensures f.indent == 0 ==> J.Print(v, f, 0)[k] != 0x0A
  {
    PrintIsNeat(v, f);
    NeatLaid(J.Print(v, f, 0), Outside, 0, f, k);
  }
}
