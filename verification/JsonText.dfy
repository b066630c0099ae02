/** JSON values, the text do_dump writes for them, and what the lexer and the parser read from a text. */
module JsonText {
  import opened Options
  import opened OrderedMap
  import opened Utf8
  import opened JsonString

  datatype Value =
    | Null
    | True
    | False
    | Integer(n: int)
    | String(text: Bytes)
    | Array(items: seq<Value>)
    | Object(members: Entries<Bytes, Value>)

  const MAX_DEPTH := 2048

  /** The range of a 32-bit `long`, which strtol saturates to. */
  const LONG_MIN := -0x8000_0000
  const LONG_MAX := 0x7FFF_FFFF

  // Bytes of the grammar.
  const COMMA: Byte := 0x2C
  const COLON: Byte := 0x3A
  const SPACE: Byte := 0x20
  const NEWLINE: Byte := 0x0A
  const MINUS: Byte := 0x2D
  const OPEN_ARRAY: Byte := 0x5B
  const CLOSE_ARRAY: Byte := 0x5D
  const OPEN_OBJECT: Byte := 0x7B
  const CLOSE_OBJECT: Byte := 0x7D

  const TEXT_NULL: Bytes := [0x6E, 0x75, 0x6C, 0x6C]
  const TEXT_TRUE: Bytes := [0x74, 0x72, 0x75, 0x65]
  const TEXT_FALSE: Bytes := [0x66, 0x61, 0x6C, 0x73, 0x65]

  /** What json_string and json_object_set accept: well-formed text, and distinct keys that are C strings. */
  ghost predicate Legal(v: Value) {
    match v
    case String(text) => WellFormed(text)
    case Array(items) => forall i :: 0 <= i < |items| ==> Legal(items[i])
    case Object(members) =>
      DistinctKeys(members) &&
      forall i :: 0 <= i < |members| ==>
        WellFormed(members[i].key) && 0 !in members[i].key && Legal(members[i].value)
    case _ => true
  }

  // ---- the printer ----

  function Decimal(n: nat): (s: Bytes)
    ensures s != []
  {
    if n < 10 then [0x30 + n] else Decimal(n / 10) + [0x30 + n % 10]
  }

  function PrintInteger(n: int): Bytes {
    if n < 0 then [MINUS] + Decimal(-n) else Decimal(n)
  }

  function Spaces(n: nat): Bytes {
    seq(n, i => SPACE)
  }

  /** dump_indent; the number of spaces is a 32-bit word. */
  function Indent(f: Flags, depth: nat, space: bool): Bytes {
    if f.indent > 0 then [NEWLINE] + Spaces(depth * f.indent % 0x1_0000_0000)
    else if space && !f.compact then [SPACE]
    else []
  }

  ghost function Quoted(text: Bytes, f: Flags): Bytes
    requires WellFormed(text)
  {
    [QUOTE] + Escape(ScalarsOf(text), f) + [QUOTE]
  }

  function Separator(f: Flags): Bytes {
    if f.compact then [COLON] else [COLON, SPACE]
  }

  /** do_dump at a nesting depth. */
  ghost function Print(v: Value, f: Flags, depth: nat): Bytes
    requires Legal(v)
    decreases v
  {
    match v
    case Null => TEXT_NULL
    case True => TEXT_TRUE
    case False => TEXT_FALSE
    case Integer(n) => PrintInteger(n)
    case String(text) => Quoted(text, f)
    case Array(items) =>
      if items == [] then [OPEN_ARRAY, CLOSE_ARRAY]
      else [OPEN_ARRAY] + Indent(f, depth + 1, false) + PrintItems(v, 0, f, depth)
    case Object(members) =>
      if members == [] then [OPEN_OBJECT, CLOSE_OBJECT]
      else [OPEN_OBJECT] + Indent(f, depth + 1, false) + PrintMembers(v, 0, f, depth)
  }

  /** The elements from the i-th on, and the closing bracket. */
  ghost function PrintItems(v: Value, i: nat, f: Flags, depth: nat): Bytes
    requires Legal(v) && v.Array? && i < |v.items|
    decreases v, |v.items| - i
  {
    Print(v.items[i], f, depth + 1) +
    if i < |v.items| - 1 then [COMMA] + Indent(f, depth + 1, true) + PrintItems(v, i + 1, f, depth)
    else Indent(f, depth, false) + [CLOSE_ARRAY]
  }

  ghost function PrintMembers(v: Value, i: nat, f: Flags, depth: nat): Bytes
    requires Legal(v) && v.Object? && i < |v.members|
    decreases v, |v.members| - i
  {
    Quoted(v.members[i].key, f) + Separator(f) + Print(v.members[i].value, f, depth + 1) +
    if i < |v.members| - 1 then [COMMA] + Indent(f, depth + 1, true) + PrintMembers(v, i + 1, f, depth)
    else Indent(f, depth, false) + [CLOSE_OBJECT]
  }

  // ---- the lexer ----

  datatype Token =
    | Punct(c: Byte)
    | Text(text: Bytes)
    | Number(n: int)
    | TrueWord
    | FalseWord
    | NullWord
    | Eof
    | Invalid

  /** The bytes the stream delivers: the longest well-formed prefix of the input. */
  function Feed(src: Bytes): (s: Bytes)
    ensures |s| <= |src|
  {
    if src == [] then []
    else
      var n := FirstLen(src[0]);
      if 1 <= n <= |src| && IsChar(src[..n]) then src[..n] + Feed(src[n..]) else []
  }

  predicate IsSpace(c: Byte) {
    c == SPACE || c == 0x09 || c == NEWLINE || c == 0x0D
  }

  predicate IsDigit(c: Byte) {
    0x30 <= c <= 0x39
  }

  predicate IsAlpha(c: Byte) {
    0x41 <= c <= 0x5A || 0x61 <= c <= 0x7A
  }

  predicate IsPunct(c: Byte) {
    c == OPEN_OBJECT || c == CLOSE_OBJECT || c == OPEN_ARRAY || c == CLOSE_ARRAY || c == COLON || c == COMMA
  }

  function SkipSpace(s: Bytes): (t: Bytes)
    ensures |t| <= |s|
    ensures t != [] ==> !IsSpace(t[0])
  {
    if s != [] && IsSpace(s[0]) then SkipSpace(s[1..]) else s
  }

  function DigitRun(s: Bytes): (n: nat)
    ensures n <= |s| && forall k :: 0 <= k < n ==> IsDigit(s[k])
    ensures n < |s| ==> !IsDigit(s[n])
  {
    if s != [] && IsDigit(s[0]) then 1 + DigitRun(s[1..]) else 0
  }

  function AlphaRun(s: Bytes): (n: nat)
    ensures n <= |s| && forall k :: 0 <= k < n ==> IsAlpha(s[k])
    ensures n < |s| ==> !IsAlpha(s[n])
  {
    if s != [] && IsAlpha(s[0]) then 1 + AlphaRun(s[1..]) else 0
  }

  /** What is left after the character that ended a token has been pushed back: a NUL is lost. */
  function AfterUnget(s: Bytes): (t: Bytes)
    ensures |t| <= |s|
  {
    if s != [] && s[0] == 0 then s[1..] else s
  }

  function DecimalValue(s: Bytes): int {
    if s == [] then 0 else DecimalValue(s[..|s| - 1]) * 10 + s[|s| - 1] - 0x30
  }

  function Saturate(n: int): int {
    if n < LONG_MIN then LONG_MIN else if n > LONG_MAX then LONG_MAX else n
  }

  /** strtol on a minus sign and digits. */
  function Strtol(negative: bool, digits: Bytes): int {
    Saturate(if negative then -DecimalValue(digits) else DecimalValue(digits))
  }

  /** The digits of a number that the grammar allows: none if there is no digit, or a leading zero. */
  function NumberLen(u: Bytes): (n: nat)
    ensures n <= |u|
  {
    var n := DigitRun(u);
    if n > 1 && u[0] == 0x30 then 0 else n
  }

  predicate IsFraction(u: Bytes) {
    u != [] && (u[0] == 0x2E || u[0] == 0x45 || u[0] == 0x65)
  }

  /** lex_scan_number without its two real-number flags. */
  function ScanNumber(s: Bytes): (r: (Token, Bytes))
    requires s != [] && (IsDigit(s[0]) || s[0] == MINUS)
    ensures |r.1| <= |s| && (r.0 != Invalid ==> |r.1| < |s|)
  {
    var negative := s[0] == MINUS;
    var u := if negative then s[1..] else s;
    var n := NumberLen(u);
    if n == 0 || IsFraction(u[n..]) then (Invalid, s)
    else (Number(Strtol(negative, u[..n])), AfterUnget(u[n..]))
  }

  function ScanText(s: Bytes): (r: (Token, Bytes))
    requires s != [] && s[0] == QUOTE
    ensures |r.1| <= |s| && (r.0 != Invalid ==> |r.1| < |s|)
  {
    match StringEnd(s[1..])
    case None => (Invalid, s)
    case Some(n) =>
      EndInside(s[1..]);
      match Unescape(s[1..][..n])
      case None => (Invalid, s)
      case Some(text) => (Text(text), s[1..][n + 1..])
  }

  lemma {:induction false} EndInside(s: Bytes)
    requires StringEnd(s).Some?
    ensures StringEnd(s).value < |s| && s[StringEnd(s).value] == QUOTE
    decreases |s|
  {
    if s[0] != QUOTE {
      EndInside(s[UnitLen(s)..]);
    }
  }

  function Word(s: Bytes): Token {
    if s == TEXT_TRUE then TrueWord
    else if s == TEXT_FALSE then FalseWord
    else if s == TEXT_NULL then NullWord
    else Invalid
  }

  /**
    lex_scan on the bytes that are still to be delivered; `bad` if the stream then reports a
    decoding error instead of the end. After Invalid nothing more is read.
  */
  function Scan(s: Bytes, bad: bool): (r: (Token, Bytes))
    ensures |r.1| <= |s| && (r.0 != Invalid && r.0 != Eof ==> |r.1| < |s|)
  {
    var t := SkipSpace(s);
    if t == [] then (if bad then Invalid else Eof, t)
    else if IsPunct(t[0]) then (Punct(t[0]), t[1..])
    else if t[0] == QUOTE then ScanText(t)
    else if IsDigit(t[0]) || t[0] == MINUS then ScanNumber(t)
    else if IsAlpha(t[0]) then
      var n := AlphaRun(t);
      (Word(t[..n]), AfterUnget(t[n..]))
    else (Invalid, t)
  }

  // ---- the parser ----

  /** The flags of the parser. */
  datatype Mode = Mode(rejectDuplicates: bool, disableEofCheck: bool, decodeAny: bool, allowNul: bool)

  datatype Parsed = Fail | Done(value: Value, rest: Bytes)

  /** parse_value on a token and the bytes after it; `depth` is lex->depth before the call. */
  function ParseValue(tok: Token, s: Bytes, bad: bool, depth: nat, m: Mode): (r: Parsed)
    ensures r.Done? ==> |r.rest| <= |s|
    decreases |s|, 0
  {
    if depth + 1 > MAX_DEPTH then Fail
    else
      match tok
      case Text(text) => if !m.allowNul && 0 in text then Fail else Done(String(text), s)
      case Number(n) => Done(Integer(n), s)
      case TrueWord => Done(True, s)
      case FalseWord => Done(False, s)
      case NullWord => Done(Null, s)
      case Punct(c) =>
        if c == OPEN_OBJECT then
          var (t, r) := Scan(s, bad);
          if t == Punct(CLOSE_OBJECT) then Done(Object([]), r)
          else if t.Text? then ParseMembers(t.text, r, bad, depth + 1, m, [])
          else Fail
        else if c == OPEN_ARRAY then
          var (t, r) := Scan(s, bad);
          if t == Punct(CLOSE_ARRAY) then Done(Array([]), r)
          else if t == Eof || t == Invalid then Fail
          else ParseItems(t, r, bad, depth + 1, m, [])
        else Fail
      case _ => Fail
  }

  /** The loop of parse_array, at the first token of an element. */
  function ParseItems(tok: Token, s: Bytes, bad: bool, depth: nat, m: Mode, items: seq<Value>): (r: Parsed)
    ensures r.Done? ==> |r.rest| <= |s| && r.value.Array?
    decreases |s|, 1
  {
    match ParseValue(tok, s, bad, depth, m)
    case Fail => Fail
    case Done(v, rest) =>
      var (t, r) := Scan(rest, bad);
      if t == Punct(CLOSE_ARRAY) then Done(Array(items + [v]), r)
      else if t == Punct(COMMA) then
        var (t', r') := Scan(r, bad);
        if t' == Eof || t' == Invalid then Fail else ParseItems(t', r', bad, depth, m, items + [v])
      else Fail
  }

  /** The loop of parse_object, after the text of a key. */
  function ParseMembers(key: Bytes, s: Bytes, bad: bool, depth: nat, m: Mode,
      members: Entries<Bytes, Value>): (r: Parsed)
    ensures r.Done? ==> |r.rest| <= |s| && r.value.Object?
    decreases |s|, 1
  {
    if 0 in key || (m.rejectDuplicates && OrderedMap.Get(members, key).Some?) then Fail
    else
      var (colon, r) := Scan(s, bad);
      if colon != Punct(COLON) then Fail
      else
        var (t, r') := Scan(r, bad);
        match ParseValue(t, r', bad, depth, m)
        case Fail => Fail
        case Done(v, rest) =>
          var more := OrderedMap.Set(members, key, v);
          var (t', r'') := Scan(rest, bad);
          if t' == Punct(CLOSE_OBJECT) then Done(Object(more), r'')
          else if t' == Punct(COMMA) then
            var (t'', r3) := Scan(r'', bad);
            if t''.Text? then ParseMembers(t''.text, r3, bad, depth, m, more) else Fail
          else Fail
  }

  /** parse_json on a whole input. */
  function ParseJson(src: Bytes, m: Mode): Option<Value> {
    var s := Feed(src);
    var bad := |s| < |src|;
    var (tok, r) := Scan(s, bad);
    if !m.decodeAny && tok != Punct(OPEN_ARRAY) && tok != Punct(OPEN_OBJECT) then None
    else
      match ParseValue(tok, r, bad, 0, m)
      case Fail => None
      case Done(v, rest) =>
        if !m.disableEofCheck && Scan(rest, bad).0 != Eof then None else Some(v)
  }
}
