/** Parsing what the printer writes. */
module JsonRoundTrip {
  import Bits
  import opened Options
  import opened OrderedMap
  import opened Utf8
  import opened JsonString
  import opened JsonText

  // ---- which values survive, and how ----

  /** The value with every integer saturated to the range of strtol. */
  function Saturated(v: Value): Value
    decreases v
  {
    match v
    case Integer(n) => Integer(Saturate(n))
    case Array(items) => Array(SaturatedItems(v, 0))
    case Object(members) => Object(SaturatedMembers(v, 0))
    case _ => v
  }

  function SaturatedItems(v: Value, i: nat): seq<Value>
    requires v.Array? && i <= |v.items|
    decreases v, |v.items| - i
  {
    if i == |v.items| then [] else [Saturated(v.items[i])] + SaturatedItems(v, i + 1)
  }

  function SaturatedMembers(v: Value, i: nat): Entries<Bytes, Value>
    requires v.Object? && i <= |v.members|
    decreases v, |v.members| - i
  {
    if i == |v.members| then []
    else [Entry(v.members[i].key, Saturated(v.members[i].value))] + SaturatedMembers(v, i + 1)
  }

  /** What the parser's limits admit below a given depth: nesting, and NUL in text only if allowed. */
  ghost predicate Fits(v: Value, depth: nat, m: Mode)
    decreases v
  {
    depth + 1 <= MAX_DEPTH &&
    match v
    case String(text) => m.allowNul || 0 !in text
    case Array(items) => forall i :: 0 <= i < |items| ==> Fits(items[i], depth + 1, m)
    case Object(members) => forall i :: 0 <= i < |members| ==> Fits(members[i].value, depth + 1, m)
    case _ => true
  }

  ghost predicate ItemsFit(v: Value, i: nat, depth: nat, m: Mode)
    requires v.Array?
  {
    forall j :: i <= j < |v.items| ==> Fits(v.items[j], depth, m)
  }

  ghost predicate MembersFit(v: Value, i: nat, depth: nat, m: Mode)
    requires v.Object?
  {
    forall j :: i <= j < |v.members| ==> Fits(v.members[j].value, depth, m)
  }

  // ---- numbers ----

  lemma {:induction false} DecimalDigits(n: nat)
    ensures forall k :: 0 <= k < |Decimal(n)| ==> IsDigit(Decimal(n)[k])
    ensures Decimal(n)[0] == 0x30 ==> n == 0 && |Decimal(n)| == 1
    ensures DecimalValue(Decimal(n)) == n
  {
    if n >= 10 {
      DecimalDigits(n / 10);
      var s := Decimal(n);
      assert s[..|s| - 1] == Decimal(n / 10);
    } else {
      assert Decimal(n)[..0] == [];
    }
  }

  lemma {:induction false} DigitRunStops(a: Bytes, s: Bytes)
    requires forall k :: 0 <= k < |a| ==> IsDigit(a[k])
    requires s != [] ==> !IsDigit(s[0])
    ensures DigitRun(a + s) == |a|
  {
    if a == [] {
      assert a + s == s;
    } else {
      DigitRunStops(a[1..], s);
      assert (a + s)[1..] == a[1..] + s;
    }
  }

  /** What may follow a number or a word without becoming part of it. */
  predicate Delimited(s: Bytes) {
    s == [] || s[0] == COMMA || s[0] == COLON || s[0] == CLOSE_ARRAY || s[0] == CLOSE_OBJECT || IsSpace(s[0])
  }

  lemma DigitsScan(a: Bytes, rest: Bytes)
    requires a != [] && (forall k :: 0 <= k < |a| ==> IsDigit(a[k])) && (|a| > 1 ==> a[0] != 0x30) && Delimited(rest)
    ensures NumberLen(a + rest) == |a| && (a + rest)[..|a|] == a && (a + rest)[|a|..] == rest
    ensures !IsFraction(rest) && AfterUnget(rest) == rest && IsDigit((a + rest)[0])
  {
    DigitRunStops(a, rest);
    assert IsDigit(a[0]);
  }

  lemma SignedScans(s: Bytes, a: Bytes, rest: Bytes, bad: bool)
    requires s == [MINUS] + (a + rest) && a != []
    requires NumberLen(a + rest) == |a| && (a + rest)[..|a|] == a && (a + rest)[|a|..] == rest
    requires !IsFraction(rest) && AfterUnget(rest) == rest
    ensures Scan(s, bad) == (Number(Strtol(true, a)), rest)
  {
    assert s[1..] == a + rest;
    assert SkipSpace(s) == s;
  }

  lemma UnsignedScans(s: Bytes, a: Bytes, rest: Bytes, bad: bool)
    requires s == a + rest && a != [] && IsDigit(s[0])
    requires NumberLen(s) == |a| && s[..|a|] == a && s[|a|..] == rest
    requires !IsFraction(rest) && AfterUnget(rest) == rest
    ensures Scan(s, bad) == (Number(Strtol(false, a)), rest)
  {
    assert SkipSpace(s) == s;
  }

  lemma IntegerScans(n: int, rest: Bytes, bad: bool)
    requires Delimited(rest)
    ensures Scan(PrintInteger(n) + rest, bad) == (Number(Saturate(n)), rest)
  {
    hide Scan, DecimalValue, Decimal, DigitRun, NumberLen, IsFraction, AfterUnget, Delimited;
    var a := Decimal(if n < 0 then -n else n);
    var s := PrintInteger(n) + rest;
    DecimalDigits(if n < 0 then -n else n);
    DigitsScan(a, rest);
    if n < 0 {
      assert s == [MINUS] + (a + rest);
      SignedScans(s, a, rest, bad);
    } else {
      UnsignedScans(s, a, rest, bad);
    }
  }

  // ---- white space, punctuation, words and texts ----

  lemma {:induction false} SpacesSkipped(a: Bytes, s: Bytes)
    requires forall k :: 0 <= k < |a| ==> IsSpace(a[k])
    ensures SkipSpace(a + s) == SkipSpace(s)
  {
    if a == [] {
      assert a + s == s;
    } else {
      SpacesSkipped(a[1..], s);
      assert (a + s)[1..] == a[1..] + s;
    }
  }

  lemma IndentSkipped(f: Flags, depth: nat, space: bool, s: Bytes, bad: bool)
    ensures Scan(Indent(f, depth, space) + s, bad) == Scan(s, bad)
  {
    SpacesSkipped(Indent(f, depth, space), s);
  }

  lemma SpaceScans(s: Bytes, bad: bool)
    ensures Scan([SPACE] + s, bad) == Scan(s, bad)
  {
    SpacesSkipped([SPACE], s);
  }

  lemma PunctScans(c: Byte, s: Bytes, bad: bool)
    requires IsPunct(c)
    ensures Scan([c] + s, bad) == (Punct(c), s)
  {
    assert ([c] + s)[1..] == s;
  }

  lemma {:induction false} AlphaRunStops(a: Bytes, s: Bytes)
    requires forall k :: 0 <= k < |a| ==> IsAlpha(a[k])
    requires s != [] ==> !IsAlpha(s[0])
    ensures AlphaRun(a + s) == |a|
  {
    if a == [] {
      assert a + s == s;
    } else {
      AlphaRunStops(a[1..], s);
      assert (a + s)[1..] == a[1..] + s;
    }
  }

  lemma WordScans(a: Bytes, rest: Bytes, bad: bool)
    requires a != [] && (forall k :: 0 <= k < |a| ==> IsAlpha(a[k])) && Delimited(rest)
    ensures Scan(a + rest, bad) == (Word(a), rest)
  {
    AlphaRunStops(a, rest);
    assert IsAlpha(a[0]);
    assert (a + rest)[..|a|] == a && (a + rest)[|a|..] == rest;
  }

  lemma TextScans(text: Bytes, f: Flags, rest: Bytes, bad: bool)
    requires WellFormed(text)
    ensures Scan(Quoted(text, f) + rest, bad) == (Text(text), rest)
  {
    hide Unescape, StringEnd, Escape, EncodeAll;
    var vs := ScalarsOf(text);
    var e := Escape(vs, f);
    var s := Quoted(text, f) + rest;
    StringRoundTrip(vs, f, rest);
    assert s[1..] == e + [QUOTE] + rest;
    assert s[1..][..|e|] == e && s[1..][|e| + 1..] == rest;
  }

  // ---- values ----

  /** Scanning and parsing a text that starts with the value v. */
  ghost predicate Reads(s: Bytes, v: Value, rest: Bytes, bad: bool, depth: nat, m: Mode) {
    var (tok, r) := Scan(s, bad);
    tok != Eof && tok != Invalid && tok != Punct(CLOSE_ARRAY) &&
    (tok == Punct(OPEN_ARRAY) <==> v.Array?) && (tok == Punct(OPEN_OBJECT) <==> v.Object?) &&
    ParseValue(tok, r, bad, depth, m) == if Fits(v, depth, m) then Done(Saturated(v), rest) else Fail
  }

  lemma {:induction false} ValueRoundTrip(v: Value, f: Flags, pd: nat, rest: Bytes, bad: bool, depth: nat, m: Mode)
    requires Legal(v) && Delimited(rest)
    ensures Reads(Print(v, f, pd) + rest, v, rest, bad, depth, m)
    decreases v
  {
    match v
    case Null => WordScans(TEXT_NULL, rest, bad);
    case True => WordScans(TEXT_TRUE, rest, bad);
    case False => WordScans(TEXT_FALSE, rest, bad);
    case Integer(n) => IntegerScans(n, rest, bad);
    case String(text) => TextScans(text, f, rest, bad);
    case Array(items) =>
      if items == [] {
        EmptyArrayReads(v, rest, bad, depth, m);
      } else {
        if depth + 1 <= MAX_DEPTH { ItemsRoundTrip(v, 0, f, pd, rest, bad, depth + 1, m, []); }
        ArrayReads(v, f, pd, rest, bad, depth, m);
      }
    case Object(members) =>
      if members == [] {
        EmptyObjectReads(v, rest, bad, depth, m);
      } else {
        if depth + 1 <= MAX_DEPTH { MembersRoundTrip(v, 0, f, pd, rest, bad, depth + 1, m, []); }
        ObjectReads(v, f, pd, rest, bad, depth, m);
      }
  }

  lemma EmptyArrayReads(v: Value, rest: Bytes, bad: bool, depth: nat, m: Mode)
    requires v == Array([])
    ensures Reads([OPEN_ARRAY, CLOSE_ARRAY] + rest, v, rest, bad, depth, m)
  {
    assert [OPEN_ARRAY, CLOSE_ARRAY] + rest == [OPEN_ARRAY] + ([CLOSE_ARRAY] + rest);
    PunctScans(OPEN_ARRAY, [CLOSE_ARRAY] + rest, bad);
    PunctScans(CLOSE_ARRAY, rest, bad);
    assert Saturated(v) == Array([]);
  }

  lemma EmptyObjectReads(v: Value, rest: Bytes, bad: bool, depth: nat, m: Mode)
    requires v == Object([])
    ensures Reads([OPEN_OBJECT, CLOSE_OBJECT] + rest, v, rest, bad, depth, m)
  {
    assert [OPEN_OBJECT, CLOSE_OBJECT] + rest == [OPEN_OBJECT] + ([CLOSE_OBJECT] + rest);
    PunctScans(OPEN_OBJECT, [CLOSE_OBJECT] + rest, bad);
    PunctScans(CLOSE_OBJECT, rest, bad);
    assert Saturated(v) == Object([]);
  }

  /** The loop of parse_array reads the elements from the i-th on. */
  ghost predicate ReadsItems(s: Bytes, v: Value, i: nat, rest: Bytes, bad: bool, depth: nat, m: Mode, items: seq<Value>)
    requires v.Array? && i <= |v.items|
  {
    var (tok, r) := Scan(s, bad);
    tok != Eof && tok != Invalid && tok != Punct(CLOSE_ARRAY) &&
    ParseItems(tok, r, bad, depth, m, items) ==
      if ItemsFit(v, i, depth, m) then Done(Array(items + SaturatedItems(v, i)), rest) else Fail
  }

  lemma ArrayReads(v: Value, f: Flags, pd: nat, rest: Bytes, bad: bool, depth: nat, m: Mode)
    requires Legal(v) && v.Array? && v.items != []
    requires depth + 1 <= MAX_DEPTH ==> ReadsItems(PrintItems(v, 0, f, pd) + rest, v, 0, rest, bad, depth + 1, m, [])
    ensures Reads(Print(v, f, pd) + rest, v, rest, bad, depth, m)
  {
    var body := PrintItems(v, 0, f, pd) + rest;
    assert Print(v, f, pd) + rest == [OPEN_ARRAY] + (Indent(f, pd + 1, false) + body);
    PunctScans(OPEN_ARRAY, Indent(f, pd + 1, false) + body, bad);
    IndentSkipped(f, pd + 1, false, body, bad);
    assert [] + SaturatedItems(v, 0) == SaturatedItems(v, 0);
  }

  lemma PrintItemsMore(v: Value, i: nat, f: Flags, pd: nat, rest: Bytes)
    requires Legal(v) && v.Array? && i < |v.items| - 1
    ensures PrintItems(v, i, f, pd) + rest ==
      Print(v.items[i], f, pd + 1) + ([COMMA] + (Indent(f, pd + 1, true) + (PrintItems(v, i + 1, f, pd) + rest)))
  {
  }

  lemma PrintItemsLast(v: Value, i: nat, f: Flags, pd: nat, rest: Bytes)
    requires Legal(v) && v.Array? && i == |v.items| - 1
    ensures PrintItems(v, i, f, pd) + rest ==
      Print(v.items[i], f, pd + 1) + (Indent(f, pd, false) + ([CLOSE_ARRAY] + rest))
  {
  }

  /** The text after an element, up to the next token. */
  lemma CommaReads(f: Flags, pd: nat, s: Bytes, bad: bool)
    ensures var after := [COMMA] + (Indent(f, pd, true) + s);
            Delimited(after) && Scan(after, bad).0 == Punct(COMMA) && Scan(Scan(after, bad).1, bad) == Scan(s, bad)
  {
    PunctScans(COMMA, Indent(f, pd, true) + s, bad);
    IndentSkipped(f, pd, true, s, bad);
  }

  lemma CloseReads(c: Byte, f: Flags, pd: nat, rest: Bytes, bad: bool)
    requires c == CLOSE_ARRAY || c == CLOSE_OBJECT
    ensures var after := Indent(f, pd, false) + ([c] + rest);
            Delimited(after) && Scan(after, bad) == (Punct(c), rest)
  {
    IndentSkipped(f, pd, false, [c] + rest, bad);
    PunctScans(c, rest, bad);
  }

  lemma {:induction false} ItemsRoundTrip(v: Value, i: nat, f: Flags, pd: nat, rest: Bytes, bad: bool, depth: nat,
      m: Mode, items: seq<Value>)
    requires Legal(v) && v.Array? && i < |v.items|
    ensures ReadsItems(PrintItems(v, i, f, pd) + rest, v, i, rest, bad, depth, m, items)
    decreases v, |v.items| - i
  {
    var item := v.items[i];
    OneItem(v, i, depth, m, items);
    if i < |v.items| - 1 {
      var more := PrintItems(v, i + 1, f, pd) + rest;
      var after := [COMMA] + (Indent(f, pd + 1, true) + more);
      CommaReads(f, pd + 1, more, bad);
      ValueRoundTrip(item, f, pd + 1, after, bad, depth, m);
      ItemsRoundTrip(v, i + 1, f, pd, rest, bad, depth, m, items + [Saturated(item)]);
      PrintItemsMore(v, i, f, pd, rest);
      ItemsStep(Print(item, f, pd + 1) + after, v, i, after, more, rest, bad, depth, m, items);
    } else {
      var after := Indent(f, pd, false) + ([CLOSE_ARRAY] + rest);
      CloseReads(CLOSE_ARRAY, f, pd, rest, bad);
      ValueRoundTrip(item, f, pd + 1, after, bad, depth, m);
      PrintItemsLast(v, i, f, pd, rest);
      ItemsLast(PrintItems(v, i, f, pd) + rest, v, i, after, rest, bad, depth, m, items);
    }
  }

  lemma ItemsLast(s: Bytes, v: Value, i: nat, after: Bytes, rest: Bytes, bad: bool, depth: nat, m: Mode,
      items: seq<Value>)
    requires v.Array? && i == |v.items| - 1
    requires Reads(s, v.items[i], after, bad, depth, m)
    requires Scan(after, bad) == (Punct(CLOSE_ARRAY), rest)
    ensures ReadsItems(s, v, i, rest, bad, depth, m, items)
  {
    OneItem(v, i, depth, m, items);
    assert items + [Saturated(v.items[i])] + [] == items + [Saturated(v.items[i])];
  }

  /** One turn of the loop of parse_array. */
  lemma ItemsStep(s: Bytes, v: Value, i: nat, after: Bytes, more: Bytes, rest: Bytes, bad: bool, depth: nat, m: Mode,
                  items: seq<Value>)
    requires v.Array? && i < |v.items| - 1
    requires Reads(s, v.items[i], after, bad, depth, m)
    requires Scan(after, bad).0 == Punct(COMMA) && Scan(Scan(after, bad).1, bad) == Scan(more, bad)
    requires ReadsItems(more, v, i + 1, rest, bad, depth, m, items + [Saturated(v.items[i])])
    ensures ReadsItems(s, v, i, rest, bad, depth, m, items)
  {
    OneItem(v, i, depth, m, items);
  }

  lemma OneItem(v: Value, i: nat, depth: nat, m: Mode, items: seq<Value>)
    requires v.Array? && i < |v.items|
    ensures ItemsFit(v, i, depth, m) <==> Fits(v.items[i], depth, m) && ItemsFit(v, i + 1, depth, m)
    ensures items + SaturatedItems(v, i) == items + [Saturated(v.items[i])] + SaturatedItems(v, i + 1)
    ensures i + 1 == |v.items| ==> SaturatedItems(v, i + 1) == []
  {
  }

  /** The loop of parse_object reads the members from the i-th on. */
  ghost predicate ReadsMembers(s: Bytes, v: Value, i: nat, rest: Bytes, bad: bool, depth: nat, m: Mode,
                               members: Entries<Bytes, Value>)
    requires v.Object? && i < |v.members|
  {
    var (tok, r) := Scan(s, bad);
    tok == Text(v.members[i].key) &&
    ParseMembers(v.members[i].key, r, bad, depth, m, members) ==
      if MembersFit(v, i, depth, m) then Done(Object(members + SaturatedMembers(v, i)), rest) else Fail
  }

  lemma ObjectReads(v: Value, f: Flags, pd: nat, rest: Bytes, bad: bool, depth: nat, m: Mode)
    requires Legal(v) && v.Object? && v.members != []
    requires depth + 1 <= MAX_DEPTH ==> ReadsMembers(PrintMembers(v, 0, f, pd) + rest, v, 0, rest, bad, depth + 1, m,
      [])
    ensures Reads(Print(v, f, pd) + rest, v, rest, bad, depth, m)
  {
    var body := PrintMembers(v, 0, f, pd) + rest;
    assert Print(v, f, pd) + rest == [OPEN_OBJECT] + (Indent(f, pd + 1, false) + body);
    PunctScans(OPEN_OBJECT, Indent(f, pd + 1, false) + body, bad);
    IndentSkipped(f, pd + 1, false, body, bad);
    assert [] + SaturatedMembers(v, 0) == SaturatedMembers(v, 0);
  }

  /** The members read so far have the keys of the members before the i-th. */
  ghost predicate KeysSoFar(v: Value, i: nat, members: Entries<Bytes, Value>)
    requires v.Object? && i <= |v.members|
  {
    |members| == i && forall j :: 0 <= j < i ==> members[j].key == v.members[j].key
  }

  /** Text of the i-th member up to its value, as the parser steps through it. */
  lemma KeyReads(key: Bytes, f: Flags, s: Bytes, bad: bool)
    requires WellFormed(key)
    ensures var (tok, r) := Scan(Quoted(key, f) + (Separator(f) + s), bad);
            tok == Text(key) && Scan(r, bad).0 == Punct(COLON) && Scan(Scan(r, bad).1, bad) == Scan(s, bad)
  {
    hide Scan, Quoted, WellFormed;
    TextScans(key, f, Separator(f) + s, bad);
    if f.compact {
      PunctScans(COLON, s, bad);
    } else {
      assert Separator(f) + s == [COLON] + ([SPACE] + s);
      PunctScans(COLON, [SPACE] + s, bad);
      SpaceScans(s, bad);
    }
  }

  /** A new key is appended. */
  lemma NewKey(v: Value, i: nat, members: Entries<Bytes, Value>, value: Value)
    requires Legal(v) && v.Object? && i < |v.members| && KeysSoFar(v, i, members)
    ensures var key := v.members[i].key;
            OrderedMap.Get(members, key) == Option.None &&
            OrderedMap.Set(members, key, value) == members + [Entry(key, value)] &&
            KeysSoFar(v, i + 1, members + [Entry(key, value)])
  {
    Missing(members, v.members[i].key);
    SetMissing(members, v.members[i].key, value);
  }

  lemma OneMember(v: Value, i: nat, depth: nat, m: Mode, members: Entries<Bytes, Value>)
    requires v.Object? && i < |v.members|
    ensures MembersFit(v, i, depth, m) <==> Fits(v.members[i].value, depth, m) && MembersFit(v, i + 1, depth, m)
    ensures members + SaturatedMembers(v, i) ==
      members + [Entry(v.members[i].key, Saturated(v.members[i].value))] + SaturatedMembers(v, i + 1)
    ensures i + 1 == |v.members| ==> SaturatedMembers(v, i + 1) == []
  {
  }

  lemma Regroup(a: Bytes, b: Bytes, c: Bytes, d: Bytes, e: Bytes, p: Bytes, rest: Bytes)
    ensures (a + b + c + (d + e + p)) + rest == a + (b + (c + (d + (e + (p + rest)))))
  {
    assert (d + e + p) + rest == d + (e + (p + rest));
    assert (a + b + c) + (d + e + p + rest) == a + (b + (c + (d + e + p + rest)));
  }

  lemma PrintMembersMore(v: Value, i: nat, f: Flags, pd: nat, rest: Bytes)
    requires Legal(v) && v.Object? && i < |v.members| - 1
    ensures PrintMembers(v, i, f, pd) + rest ==
      Quoted(v.members[i].key, f) + (Separator(f) + (Print(v.members[i].value, f, pd + 1) +
        ([COMMA] + (Indent(f, pd + 1, true) + (PrintMembers(v, i + 1, f, pd) + rest)))))
  {
    Regroup(Quoted(v.members[i].key, f), Separator(f), Print(v.members[i].value, f, pd + 1), [COMMA],
            Indent(f, pd + 1, true), PrintMembers(v, i + 1, f, pd), rest);
  }

  lemma PrintMembersLast(v: Value, i: nat, f: Flags, pd: nat, rest: Bytes)
    requires Legal(v) && v.Object? && i == |v.members| - 1
    ensures PrintMembers(v, i, f, pd) + rest ==
      Quoted(v.members[i].key, f) + (Separator(f) + (Print(v.members[i].value, f, pd + 1) +
        (Indent(f, pd, false) + ([CLOSE_OBJECT] + rest))))
  {
    var q, sep, t := Quoted(v.members[i].key, f), Separator(f), Print(v.members[i].value, f, pd + 1);
    Regroup(q, sep, t, Indent(f, pd, false), [CLOSE_OBJECT], [], rest);
    assert Indent(f, pd, false) + [CLOSE_OBJECT] + [] == Indent(f, pd, false) + [CLOSE_OBJECT];
    assert [] + rest == rest;
  }

  /** The text s of the i-th member: its key, then its value, then `after`. */
  ghost predicate MemberReads(s: Bytes, v: Value, i: nat, after: Bytes, bad: bool, depth: nat, m: Mode)
    requires v.Object? && i < |v.members|
  {
    var (tok, r) := Scan(s, bad);
    tok == Text(v.members[i].key) && Scan(r, bad).0 == Punct(COLON) &&
    Reads(Scan(r, bad).1, v.members[i].value, after, bad, depth, m)
  }

  lemma MemberRoundTrip(v: Value, i: nat, f: Flags, pd: nat, after: Bytes, bad: bool, depth: nat, m: Mode)
    requires Legal(v) && v.Object? && i < |v.members|
    requires Reads(Print(v.members[i].value, f, pd) + after, v.members[i].value, after, bad, depth, m)
    ensures MemberReads(Quoted(v.members[i].key, f) + (Separator(f) + (Print(v.members[i].value, f, pd) + after)),
                        v, i, after, bad, depth, m)
  {
    KeyReads(v.members[i].key, f, Print(v.members[i].value, f, pd) + after, bad);
  }

  /** One turn of the loop of parse_object. */
  lemma MembersStep(s: Bytes, v: Value, i: nat, after: Bytes, more: Bytes, rest: Bytes, bad: bool, depth: nat, m: Mode,
                    members: Entries<Bytes, Value>)
    requires Legal(v) && v.Object? && i < |v.members| - 1 && KeysSoFar(v, i, members)
    requires MemberReads(s, v, i, after, bad, depth, m)
    requires Scan(after, bad).0 == Punct(COMMA) && Scan(Scan(after, bad).1, bad) == Scan(more, bad)
    requires ReadsMembers(more, v, i + 1, rest, bad, depth, m, members +
      [Entry(v.members[i].key, Saturated(v.members[i].value))])
    ensures ReadsMembers(s, v, i, rest, bad, depth, m, members)
  {
    OneMember(v, i, depth, m, members);
    NewKey(v, i, members, Saturated(v.members[i].value));
  }

  lemma MembersLast(s: Bytes, v: Value, i: nat, after: Bytes, rest: Bytes, bad: bool, depth: nat, m: Mode,
                    members: Entries<Bytes, Value>)
    requires Legal(v) && v.Object? && i == |v.members| - 1 && KeysSoFar(v, i, members)
    requires MemberReads(s, v, i, after, bad, depth, m)
    requires Scan(after, bad) == (Punct(CLOSE_OBJECT), rest)
    ensures ReadsMembers(s, v, i, rest, bad, depth, m, members)
  {
    var e := Entry(v.members[i].key, Saturated(v.members[i].value));
    OneMember(v, i, depth, m, members);
    NewKey(v, i, members, e.value);
    assert members + [e] + [] == members + [e];
  }

  lemma {:induction false} MembersRoundTrip(v: Value, i: nat, f: Flags, pd: nat, rest: Bytes, bad: bool, depth: nat,
      m: Mode, members: Entries<Bytes, Value>)
    requires Legal(v) && v.Object? && i < |v.members| && KeysSoFar(v, i, members)
    ensures ReadsMembers(PrintMembers(v, i, f, pd) + rest, v, i, rest, bad, depth, m, members)
    decreases v, |v.members| - i
  {
    var key, value := v.members[i].key, v.members[i].value;
    if i < |v.members| - 1 {
      var more := PrintMembers(v, i + 1, f, pd) + rest;
      var after := [COMMA] + (Indent(f, pd + 1, true) + more);
      CommaReads(f, pd + 1, more, bad);
      ValueRoundTrip(value, f, pd + 1, after, bad, depth, m);
      MemberRoundTrip(v, i, f, pd + 1, after, bad, depth, m);
      NewKey(v, i, members, Saturated(value));
      MembersRoundTrip(v, i + 1, f, pd, rest, bad, depth, m, members + [Entry(key, Saturated(value))]);
      PrintMembersMore(v, i, f, pd, rest);
      MembersStep(PrintMembers(v, i, f, pd) + rest, v, i, after, more, rest, bad, depth, m, members);
    } else {
      var after := Indent(f, pd, false) + ([CLOSE_OBJECT] + rest);
      CloseReads(CLOSE_OBJECT, f, pd, rest, bad);
      ValueRoundTrip(value, f, pd + 1, after, bad, depth, m);
      MemberRoundTrip(v, i, f, pd + 1, after, bad, depth, m);
      PrintMembersLast(v, i, f, pd, rest);
      MembersLast(PrintMembers(v, i, f, pd) + rest, v, i, after, rest, bad, depth, m, members);
    }
  }

  // ---- whole texts ----

  /** A well-formed input is delivered whole. */
  lemma {:induction false} FeedWhole(s: Bytes)
    requires WellFormed(s)
    ensures Feed(s) == s
    decreases |s|
  {
    if s != [] {
      var n := FirstLen(s[0]);
      WellFormedStep(s);
      FeedWhole(s[n..]);
      Cut(s, n);
    }
  }

  lemma QuotedPlain(text: Bytes, f: Flags)
    requires WellFormed(text)
    ensures Plain(Quoted(text, f), f)
  {
    var e := Escape(ScalarsOf(text), f);
    EscapeWellFormed(ScalarsOf(text), f);
    AsciiPlain([QUOTE], f);
    PlainConcat([QUOTE], e, f);
    PlainConcat([QUOTE] + e, [QUOTE], f);
  }

  /** Well-formed UTF-8 that a C string can hold; ASCII if the flags ask for it. */
  ghost predicate Plain(s: Bytes, f: Flags) {
    WellFormed(s) && 0 !in s && (f.ensureAscii ==> Ascii(s))
  }

  lemma PlainConcat(s: Bytes, t: Bytes, f: Flags)
    requires Plain(s, f) && Plain(t, f)
    ensures Plain(s + t, f)
  {
    WellFormedConcat(s, t);
  }

  lemma AsciiPlain(s: Bytes, f: Flags)
    requires Ascii(s)
    ensures Plain(s, f)
  {
    AsciiWellFormed(s);
  }

  lemma IndentPlain(f: Flags, depth: nat, space: bool)
    ensures Plain(Indent(f, depth, space), f)
  {
    AsciiPlain(Indent(f, depth, space), f);
  }

  lemma IntegerPlain(n: int, f: Flags)
    ensures Plain(PrintInteger(n), f)
  {
    var a := Decimal(if n < 0 then -n else n);
    DecimalDigits(if n < 0 then -n else n);
    assert forall k :: 0 <= k < |a| ==> IsDigit(a[k]);
    AsciiPlain(PrintInteger(n), f);
  }

  /** The printer writes well-formed UTF-8 without NUL bytes, and only ASCII when asked to. */
  lemma {:induction false} PrintPlain(v: Value, f: Flags, pd: nat)
    requires Legal(v)
    ensures Plain(Print(v, f, pd), f)
    decreases v
  {
    hide Plain, WellFormed, Indent, Quoted, PrintInteger, PrintItems, PrintMembers;
    match v
    case Null => AsciiPlain(TEXT_NULL, f);
    case True => AsciiPlain(TEXT_TRUE, f);
    case False => AsciiPlain(TEXT_FALSE, f);
    case Integer(n) => IntegerPlain(n, f);
    case String(text) => QuotedPlain(text, f);
    case Array(items) =>
      AsciiPlain([OPEN_ARRAY, CLOSE_ARRAY], f);
      if items != [] {
        PrintItemsPlain(v, 0, f, pd);
        AsciiPlain([OPEN_ARRAY], f);
        IndentPlain(f, pd + 1, false);
        PlainConcat([OPEN_ARRAY], Indent(f, pd + 1, false), f);
        PlainConcat([OPEN_ARRAY] + Indent(f, pd + 1, false), PrintItems(v, 0, f, pd), f);
      }
    case Object(members) =>
      AsciiPlain([OPEN_OBJECT, CLOSE_OBJECT], f);
      if members != [] {
        PrintMembersPlain(v, 0, f, pd);
        AsciiPlain([OPEN_OBJECT], f);
        IndentPlain(f, pd + 1, false);
        PlainConcat([OPEN_OBJECT], Indent(f, pd + 1, false), f);
        PlainConcat([OPEN_OBJECT] + Indent(f, pd + 1, false), PrintMembers(v, 0, f, pd), f);
      }
  }

  /** What follows an item: a comma and the rest, or the closing bracket. */
  lemma FollowPlain(f: Flags, pd: nat, close: Byte, more: Bytes)
    requires 0 < close < 0x80 && Plain(more, f)
    ensures Plain([COMMA] + Indent(f, pd + 1, true) + more, f) && Plain(Indent(f, pd, false) + [close], f)
  {
    AsciiPlain([COMMA], f);
    AsciiPlain([close], f);
    IndentPlain(f, pd + 1, true);
    IndentPlain(f, pd, false);
    PlainConcat([COMMA], Indent(f, pd + 1, true), f);
    PlainConcat([COMMA] + Indent(f, pd + 1, true), more, f);
    PlainConcat(Indent(f, pd, false), [close], f);
  }

  lemma {:induction false} PrintItemsPlain(v: Value, i: nat, f: Flags, pd: nat)
    requires Legal(v) && v.Array? && i < |v.items|
    ensures Plain(PrintItems(v, i, f, pd), f)
    decreases v, |v.items| - i
  {
    var text := Print(v.items[i], f, pd + 1);
    PrintPlain(v.items[i], f, pd + 1);
    if i < |v.items| - 1 {
      var more := PrintItems(v, i + 1, f, pd);
      PrintItemsPlain(v, i + 1, f, pd);
      FollowPlain(f, pd, CLOSE_ARRAY, more);
      PlainConcat(text, [COMMA] + Indent(f, pd + 1, true) + more, f);
    } else {
      AsciiPlain([], f);
      FollowPlain(f, pd, CLOSE_ARRAY, []);
      PlainConcat(text, Indent(f, pd, false) + [CLOSE_ARRAY], f);
    }
  }

  lemma {:induction false} PrintMembersPlain(v: Value, i: nat, f: Flags, pd: nat)
    requires Legal(v) && v.Object? && i < |v.members|
    ensures Plain(PrintMembers(v, i, f, pd), f)
    decreases v, |v.members| - i
  {
    var key, text := Quoted(v.members[i].key, f), Print(v.members[i].value, f, pd + 1);
    QuotedPlain(v.members[i].key, f);
    PrintPlain(v.members[i].value, f, pd + 1);
    AsciiPlain(Separator(f), f);
    PlainConcat(key, Separator(f), f);
    PlainConcat(key + Separator(f), text, f);
    if i < |v.members| - 1 {
      var more := PrintMembers(v, i + 1, f, pd);
      PrintMembersPlain(v, i + 1, f, pd);
      FollowPlain(f, pd, CLOSE_OBJECT, more);
      PlainConcat(key + Separator(f) + text, [COMMA] + Indent(f, pd + 1, true) + more, f);
    } else {
      AsciiPlain([], f);
      FollowPlain(f, pd, CLOSE_OBJECT, []);
      PlainConcat(key + Separator(f) + text, Indent(f, pd, false) + [CLOSE_OBJECT], f);
    }
  }

  /** A root the parser takes: an array or an object, unless every value is allowed. */
  predicate RootAllowed(v: Value, m: Mode) {
    m.decodeAny || v.Array? || v.Object?
  }

  /**
    Parsing what the printer writes, for every value, every printer flag and every parser
    flag: the value comes back with its integers saturated, unless a parser limit rejects it.
  */
  lemma ParsePrinted(v: Value, f: Flags, m: Mode)
    requires Legal(v)
    ensures ParseJson(Print(v, f, 0), m) ==
      if RootAllowed(v, m) && Fits(v, 0, m) then Some(Saturated(v)) else Option.None
  {
    var s := Print(v, f, 0);
    PrintPlain(v, f, 0);
    FeedWhole(s);
    ValueRoundTrip(v, f, 0, [], false, 0, m);
    assert s + [] == s;
  }

  // ---- when the round trip is exact ----

  /** Every integer is one that strtol returns. */
  ghost predicate InRange(v: Value)
    decreases v
  {
    match v
    case Integer(n) => LONG_MIN <= n <= LONG_MAX
    case Array(items) => forall i :: 0 <= i < |items| ==> InRange(items[i])
    case Object(members) => forall i :: 0 <= i < |members| ==> InRange(members[i].value)
    case _ => true
  }

  lemma {:induction false} SaturatedWhenInRange(v: Value)
    ensures Saturated(v) == v <==> InRange(v)
    decreases v
  {
    match v
    case Array(items) =>
      SaturatedItemsAt(v, 0);
      forall i | 0 <= i < |items| ensures Saturated(items[i]) == items[i] <==> InRange(items[i]) {
        SaturatedWhenInRange(items[i]);
      }
      assert InRange(v) ==> SaturatedItems(v, 0) == items;
    case Object(members) =>
      SaturatedMembersAt(v, 0);
      forall i | 0 <= i < |members| ensures Saturated(members[i].value) == members[i].value <==>
        InRange(members[i].value) {
        SaturatedWhenInRange(members[i].value);
      }
      assert InRange(v) ==> SaturatedMembers(v, 0) == members;
    case _ =>
  }

  lemma {:induction false} SaturatedItemsAt(v: Value, i: nat)
    requires v.Array? && i <= |v.items|
    ensures |SaturatedItems(v, i)| == |v.items| - i
    ensures forall k :: i <= k < |v.items| ==> SaturatedItems(v, i)[k - i] == Saturated(v.items[k])
    decreases |v.items| - i
  {
    if i < |v.items| { SaturatedItemsAt(v, i + 1); }
  }

  lemma {:induction false} SaturatedMembersAt(v: Value, i: nat)
    requires v.Object? && i <= |v.members|
    ensures |SaturatedMembers(v, i)| == |v.members| - i
    ensures forall k :: i <= k < |v.members| ==>
      SaturatedMembers(v, i)[k - i] == Entry(v.members[k].key, Saturated(v.members[k].value))
    decreases |v.members| - i
  {
    if i < |v.members| { SaturatedMembersAt(v, i + 1); }
  }

  /** How deep the parser goes for a value: scalars count, an empty container is one level. */
  function Depth(v: Value): nat
    decreases v
  {
    match v
    case Array(items) => 1 + ItemsDepth(v, 0)
    case Object(members) => 1 + MembersDepth(v, 0)
    case _ => 1
  }

  function ItemsDepth(v: Value, i: nat): nat
    requires v.Array? && i <= |v.items|
    decreases v, |v.items| - i
  {
    if i == |v.items| then 0 else Bits.Max(Depth(v.items[i]), ItemsDepth(v, i + 1))
  }

  function MembersDepth(v: Value, i: nat): nat
    requires v.Object? && i <= |v.members|
    decreases v, |v.members| - i
  {
    if i == |v.members| then 0 else Bits.Max(Depth(v.members[i].value), MembersDepth(v, i + 1))
  }

  /** No text value contains a NUL. */
  ghost predicate NulFree(v: Value)
    decreases v
  {
    match v
    case String(text) => 0 !in text
    case Array(items) => forall i :: 0 <= i < |items| ==> NulFree(items[i])
    case Object(members) => forall i :: 0 <= i < |members| ==> NulFree(members[i].value)
    case _ => true
  }

  lemma {:induction false} FitsByDepth(v: Value, depth: nat, m: Mode)
    ensures Fits(v, depth, m) <==> depth + Depth(v) <= MAX_DEPTH && (m.allowNul || NulFree(v))
    decreases v
  {
    match v
    case Array(items) =>
      ItemsFitByDepth(v, 0, depth + 1, m);
    case Object(members) =>
      MembersFitByDepth(v, 0, depth + 1, m);
    case _ =>
  }

  lemma {:induction false} ItemsFitByDepth(v: Value, i: nat, depth: nat, m: Mode)
    requires v.Array? && i <= |v.items|
    ensures depth <= MAX_DEPTH ==>
      (ItemsFit(v, i, depth, m) <==>
       depth + ItemsDepth(v, i) <= MAX_DEPTH && (m.allowNul || forall j :: i <= j < |v.items| ==> NulFree(v.items[j])))
    decreases v, |v.items| - i
  {
    if i < |v.items| {
      FitsByDepth(v.items[i], depth, m);
      ItemsFitByDepth(v, i + 1, depth, m);
      OneItem(v, i, depth, m, []);
    }
  }

  lemma {:induction false} MembersFitByDepth(v: Value, i: nat, depth: nat, m: Mode)
    requires v.Object? && i <= |v.members|
    ensures depth <= MAX_DEPTH ==>
      (MembersFit(v, i, depth, m) <==>
       depth + MembersDepth(v, i) <= MAX_DEPTH &&
         (m.allowNul || forall j :: i <= j < |v.members| ==> NulFree(v.members[j].value)))
    decreases v, |v.members| - i
  {
    if i < |v.members| {
      FitsByDepth(v.members[i].value, depth, m);
      MembersFitByDepth(v, i + 1, depth, m);
      OneMember(v, i, depth, m, []);
    }
  }

  /** The parser's limits: on the root, on integers, on nesting and on NUL. */
  ghost predicate InLimits(v: Value, m: Mode) {
    RootAllowed(v, m) && InRange(v) && Depth(v) <= MAX_DEPTH && (m.allowNul || NulFree(v))
  }

  /** Printing and parsing gives back the same value exactly when it keeps to the parser's limits. */
  lemma RoundTripIffInLimits(v: Value, f: Flags, m: Mode)
    requires Legal(v)
    ensures ParseJson(Print(v, f, 0), m) == Some(v) <==> InLimits(v, m)
  {
    ParsePrinted(v, f, m);
    FitsByDepth(v, 0, m);
    SaturatedWhenInRange(v);
  }
}
