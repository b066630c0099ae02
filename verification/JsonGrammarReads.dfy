/** The parser reads every text of the grammar. */
module JsonGrammarReads {
  import opened Options
  import opened OrderedMap
  import opened Utf8
  import opened JsonGrammar
  import S = JsonString
  import J = JsonText
  import R = JsonRoundTrip

  // ---- escapes ----

  lemma HexReads(d: Hex)
    requires d.value < 0x10
    ensures var c := Code(if d.upper then UPPER[d.value] else LOWER[d.value]); S.IsHex(c) && S.HexValue(c) == d.value
  {
  }

  lemma HexTextReads(ds: seq<Hex>)
    requires ProperHex(ds)
    ensures S.AllHex(HexText(ds)) && S.Hex4Value(HexText(ds)) == HexNumber(ds)
  {
    hide S.IsHex, S.HexValue;
    HexReads(ds[0]);
    HexReads(ds[1]);
    HexReads(ds[2]);
    HexReads(ds[3]);
  }

  /** An escape of four digits. */
  lemma EscapeStarts(ds: seq<Hex>, s: Bytes)
    requires ProperHex(ds)
    ensures var t := Ascii("\\u") + HexText(ds) + s;
            S.StartsEscape(t) && S.Unit(t) == HexNumber(ds) && t[6..] == s &&
            t[0] == S.BACKSLASH && S.UnitLen(t) == 6
  {
    var t := Ascii("\\u") + HexText(ds) + s;
    assert t[2..6] == HexText(ds);
    HexTextReads(ds);
  }

  lemma ShortReads(index: nat, s: Bytes)
    requires index < |SHORT|
    ensures var t := [Code('\\'), Code(SHORT[index])] + s;
            !S.StartsEscape(t) && t[0] == S.BACKSLASH && S.IsShort(t[1]) && S.Meaning(t[1]) == MEANT[index] &&
            t[2..] == s && S.UnitLen(t) == 2
  {
  }

  lemma PlainReads(v: ScalarValue, s: Bytes)
    requires v >= 0x20 && v != 0x22 && v != 0x5C
    ensures S.Unescape(Encode(v) + s) == S.Prepend(Encode(v), S.Unescape(s))
    ensures S.StringEnd(Encode(v) + s) == S.Shift(|Encode(v)|, S.StringEnd(s))
  {
    S.RawBytes(v, S.Flags(0, false, false, false));
    S.RawUnescapes(Encode(v), s);
    S.RawEnds(Encode(v), s);
  }

  lemma AsciiEncodes(v: ScalarValue)
    requires v < 0x80
    ensures Encode(v) == [v]
  {
  }

  lemma LetterReads(l: Letter, s: Bytes)
    requires ProperLetter(l)
    ensures S.Unescape(LetterText(l) + s) == S.Prepend(Encode(LetterMeaning(l)), S.Unescape(s))
    ensures S.StringEnd(LetterText(l) + s) == S.Shift(|LetterText(l)|, S.StringEnd(s))
  {
    hide Encode, HexText, HexNumber;
    var t := LetterText(l) + s;
    match l
    case Plain(v) => PlainReads(v, s);
    case Short(index) =>
      ShortReads(index, s);
      AsciiEncodes(MEANT[index]);
    case Unit(ds) =>
      EscapeStarts(ds, s);
    case Pair(h, w) =>
      PairReads(h, w, s);
  }

  /** What the two passes do with two escapes of which the first is a high surrogate. */
  lemma PairSteps(t: Bytes)
    requires S.StartsEscape(t) && S.StartsEscape(t[6..]) && t[0] == t[6..][0] == S.BACKSLASH
    requires S.HighSurrogate(S.Unit(t)) && S.LowSurrogate(S.Unit(t[6..]))
    ensures S.Unescape(t) == S.Prepend(Encode(S.Paired(S.Unit(t), S.Unit(t[6..]))), S.Unescape(t[12..]))
    ensures S.StringEnd(t) == S.Shift(12, S.StringEnd(t[12..]))
  {
    hide Encode, S.AllHex, S.Hex4Value;
    assert t[6..][6..] == t[12..];
  }

  lemma PairReads(h: seq<Hex>, w: seq<Hex>, s: Bytes)
    requires ProperLetter(Pair(h, w))
    ensures S.Unescape(LetterText(Pair(h, w)) + s) == S.Prepend(Encode(LetterMeaning(Pair(h, w))), S.Unescape(s))
    ensures S.StringEnd(LetterText(Pair(h, w)) + s) == S.Shift(|LetterText(Pair(h, w))|, S.StringEnd(s))
  {
    hide Encode, HexText, HexNumber, S.StartsEscape, S.Unit, ProperHex, S.Unescape, S.StringEnd;
    var t := LetterText(Pair(h, w)) + s;
    var u := Ascii("\\u") + HexText(w) + s;
    assert t == Ascii("\\u") + HexText(h) + u;
    EscapeStarts(h, u);
    EscapeStarts(w, s);
    assert t[12..] == u[6..] == s;
    PairSteps(t);
  }

  lemma {:induction false} LettersRead(ls: seq<Letter>, rest: Bytes)
    requires ProperLetters(ls)
    ensures S.Unescape(LettersText(ls)) == Some(TextOf(ls))
    ensures S.StringEnd(LettersText(ls) + Ascii("\"") + rest) == Some(|LettersText(ls)|)
  {
    hide S.Unescape, S.StringEnd, LetterText, Encode, LetterMeaning;
    assert Ascii("\"") == [S.QUOTE];
    S.QuoteEnds(rest);
    if ls == [] {
      assert LettersText(ls) + Ascii("\"") + rest == [S.QUOTE] + rest;
    } else {
      var c, t := LetterText(ls[0]), LettersText(ls[1..]);
      LettersRead(ls[1..], rest);
      LetterReads(ls[0], t);
      LetterReads(ls[0], t + Ascii("\"") + rest);
      assert LettersText(ls) + Ascii("\"") + rest == c + (t + Ascii("\"") + rest);
    }
  }

  // ---- tokens ----

  lemma WhiteSkipped(a: Bytes, s: Bytes, bad: bool)
    requires White(a)
    ensures J.Scan(a + s, bad) == J.Scan(s, bad)
  {
    R.SpacesSkipped(a, s);
  }

  lemma QuotesRead(ls: seq<Letter>, rest: Bytes, bad: bool)
    requires ProperLetters(ls)
    ensures J.Scan(Quotes(ls) + rest, bad) == (J.Token.Text(TextOf(ls)), rest)
  {
    hide S.Unescape, S.StringEnd, LettersText, TextOf;
    var e := LettersText(ls);
    var s := Quotes(ls) + rest;
    LettersRead(ls, rest);
    assert Ascii("\"") == [S.QUOTE];
    assert s[0] == S.QUOTE && s[1..] == e + Ascii("\"") + rest;
    assert s[1..][..|e|] == e && s[1..][|e| + 1..] == rest;
  }

  lemma KeywordBytes()
    ensures Ascii("null") == J.TEXT_NULL && Ascii("true") == J.TEXT_TRUE && Ascii("false") == J.TEXT_FALSE
  {
  }

  function TokenOf(name: Keyword): J.Token {
    match name case NullName => J.NullWord case TrueName => J.TrueWord case FalseName => J.FalseWord
  }

  lemma AlphaReads(a: Bytes, t: Bytes, rest: Bytes, bad: bool)
    requires a != [] && forall k :: 0 <= k < |a| ==> J.IsAlpha(a[k])
    requires (t != [] ==> !J.IsAlpha(t[0])) && J.AfterUnget(t) == rest
    ensures J.Scan(a + t, bad) == (J.Word(a), rest)
  {
    R.AlphaRunStops(a, t);
    assert J.IsAlpha(a[0]);
    assert (a + t)[..|a|] == a && (a + t)[|a|..] == t;
  }

  lemma SkippedUnget(nul: bool, rest: Bytes)
    requires nul || rest == [] || rest[0] != 0
    ensures J.AfterUnget(Skipped(nul) + rest) == rest
  {
    if nul { assert (Skipped(nul) + rest)[1..] == rest; } else { assert Skipped(nul) + rest == rest; }
  }

  lemma NameReads(name: Keyword, nul: bool, rest: Bytes, bad: bool)
    requires EndsClean(Name(name, nul), rest)
    ensures J.Scan(NameText(name) + Skipped(nul) + rest, bad) == (TokenOf(name), rest)
  {
    hide J.Scan, J.AfterUnget;
    KeywordBytes();
    SkippedUnget(nul, rest);
    AlphaReads(NameText(name), Skipped(nul) + rest, rest, bad);
    assert NameText(name) + Skipped(nul) + rest == NameText(name) + (Skipped(nul) + rest);
  }

  lemma DigitsAre(ds: seq<nat>)
    requires forall k :: 0 <= k < |ds| ==> ds[k] < 10
    ensures |DigitsText(ds)| == |ds|
    ensures forall k :: 0 <= k < |ds| ==> DigitsText(ds)[k] == 0x30 + ds[k] && J.IsDigit(DigitsText(ds)[k])
  {
  }

  lemma {:induction false} DigitsRead(ds: seq<nat>)
    requires forall k :: 0 <= k < |ds| ==> ds[k] < 10
    ensures J.DecimalValue(DigitsText(ds)) == Positional(ds)
  {
    hide DigitsText, J.IsDigit;
    DigitsAre(ds);
    if ds != [] {
      var front := ds[..|ds| - 1];
      DigitsAre(front);
      DigitsRead(front);
      var s := DigitsText(ds);
      assert s[..|s| - 1] == DigitsText(front);
    }
  }

  lemma DigitRunReads(a: Bytes, t: Bytes, rest: Bytes)
    requires a != [] && (forall k :: 0 <= k < |a| ==> J.IsDigit(a[k])) && (|a| > 1 ==> a[0] != 0x30)
    requires t != [] ==> !J.IsDigit(t[0]) && !J.IsFraction(t)
    requires J.AfterUnget(t) == rest
    ensures J.NumberLen(a + t) == |a| && (a + t)[..|a|] == a && (a + t)[|a|..] == t && J.IsDigit((a + t)[0])
    ensures J.Scan(a + t, false) == J.Scan(a + t, true) == (J.Token.Number(J.Strtol(false, a)), rest)
    ensures J.Scan([J.MINUS] + (a + t), false) == J.Scan([J.MINUS] + (a + t), true) ==
      (J.Token.Number(J.Strtol(true, a)), rest)
  {
    hide J.DecimalValue, J.Strtol;
    R.DigitRunStops(a, t);
    assert J.IsDigit(a[0]);
    assert (a + t)[..|a|] == a && (a + t)[|a|..] == t;
    assert ([J.MINUS] + (a + t))[1..] == a + t;
    assert J.SkipSpace(a + t) == a + t && J.SkipSpace([J.MINUS] + (a + t)) == [J.MINUS] + (a + t);
  }

  lemma NumberReads(minus: bool, ds: seq<nat>, nul: bool, rest: Bytes, bad: bool)
    requires ProperDigits(ds) && EndsClean(Number(minus, ds, nul), rest)
    ensures J.Scan(Spelled(Number(minus, ds, nul)) + rest, bad) ==
      (J.Token.Number(Word((if minus then -1 else 1) * Positional(ds))), rest)
  {
    hide J.DecimalValue, Positional, DigitsText, J.Scan, J.AfterUnget, Spelled, J.IsDigit;
    var a, t := DigitsText(ds), Skipped(nul) + rest;
    DigitsAre(ds);
    DigitsRead(ds);
    SkippedUnget(nul, rest);
    EndsNumber(minus, ds, nul, rest);
    DigitRunReads(a, t, rest);
    NumberText(minus, ds, nul, rest);
  }

  lemma EndsNumber(minus: bool, ds: seq<nat>, nul: bool, rest: Bytes)
    requires EndsClean(Number(minus, ds, nul), rest)
    ensures var t := Skipped(nul) + rest; t != [] ==> !J.IsDigit(t[0]) && !J.IsFraction(t)
  {
  }

  lemma NumberText(minus: bool, ds: seq<nat>, nul: bool, rest: Bytes)
    requires ProperDigits(ds)
    ensures var s := DigitsText(ds) + (Skipped(nul) + rest);
            Spelled(Number(minus, ds, nul)) + rest == if minus then [J.MINUS] + s else s
  {
    hide DigitsText;
    var a := DigitsText(ds);
    assert Ascii("-") == [J.MINUS];
    assert [J.MINUS] + a + Skipped(nul) + rest == [J.MINUS] + (a + (Skipped(nul) + rest));
    assert a + Skipped(nul) + rest == a + (Skipped(nul) + rest);
    assert [] + a == a;
  }

  // ---- values ----

  /** Scanning and parsing s reads the value of x, and leaves `rest`, if the limits admit it. */
  ghost predicate Reads(x: Syntax, s: Bytes, rest: Bytes, bad: bool, depth: nat, m: J.Mode)
    requires Proper(x)
  {
    var (tok, r) := J.Scan(s, bad);
    tok != J.Eof && tok != J.Invalid && tok != J.Punct(J.CLOSE_ARRAY) &&
    (tok == J.Punct(J.OPEN_ARRAY) <==> x.Array? || x.EmptyArray?) &&
    (tok == J.Punct(J.OPEN_OBJECT) <==> x.Object? || x.EmptyObject?) &&
    J.ParseValue(tok, r, bad, depth, m) == if Within(x, depth, m) then J.Done(ValueOf(x, true), rest) else J.Fail
  }

  /** The same for the loop of parse_array. */
  ghost predicate ReadsItems(xs: Items, s: Bytes, rest: Bytes, bad: bool, depth: nat, m: J.Mode, items: seq<J.Value>)
    requires ProperItems(xs)
  {
    var (tok, r) := J.Scan(s, bad);
    tok != J.Eof && tok != J.Invalid && tok != J.Punct(J.CLOSE_ARRAY) &&
    J.ParseItems(tok, r, bad, depth, m, items) ==
      if ItemsWithin(xs, depth, m) then J.Done(J.Array(items + ValuesOf(xs, true)), rest) else J.Fail
  }

  /** The same for the loop of parse_object; `seen` are the names so far. */
  ghost predicate ReadsMembers(xs: Members, s: Bytes, rest: Bytes, bad: bool, depth: nat, m: J.Mode,
                               members: Entries<Bytes, J.Value>, seen: set<Bytes>)
    requires ProperMembers(xs)
  {
    var (tok, r) := J.Scan(s, bad);
    tok == J.Token.Text(TextOf(xs.name)) &&
    J.ParseMembers(TextOf(xs.name), r, bad, depth, m, members) ==
      if MembersWithin(xs, depth, m) && NamesWithin(xs, seen, m)
      then J.Done(J.Object(Collapse(members, PairsOf(xs, true))), rest) else J.Fail
  }

  /** White space and a comma or a bracket end every value. */
  lemma EndsAt(x: Syntax, after: Bytes, s: Bytes)
    requires White(after) && s != [] && (s[0] == J.COMMA || s[0] == J.CLOSE_ARRAY || s[0] == J.CLOSE_OBJECT)
    ensures EndsClean(x, after + s)
  {
  }

  lemma Marks()
    ensures Ascii("[") == [J.OPEN_ARRAY] && Ascii("]") == [J.CLOSE_ARRAY] && Ascii(",") == [J.COMMA]
    ensures Ascii("{") == [J.OPEN_OBJECT] && Ascii("}") == [J.CLOSE_OBJECT] && Ascii(":") == [J.COLON]
  {
  }

  lemma {:induction false} SyntaxReads(x: Syntax, rest: Bytes, bad: bool, depth: nat, m: J.Mode)
    requires Proper(x) && EndsClean(x, rest)
    ensures Reads(x, Spelled(x) + rest, rest, bad, depth, m)
    decreases x
  {
    hide Spelled, EndsClean, Reads, ReadsItems, ReadsMembers;
    match x
    case Name(_, _) => ScalarReads(x, rest, bad, depth, m);
    case Number(_, _, _) => ScalarReads(x, rest, bad, depth, m);
    case Text(_) => ScalarReads(x, rest, bad, depth, m);
    case EmptyArray(white) => EmptyArrayReads(white, rest, bad, depth, m);
    case EmptyObject(white) => EmptyObjectReads(white, rest, bad, depth, m);
    case Array(items) =>
      if depth < 2048 { ItemsRead(items, rest, bad, depth + 1, m, []); }
      ArrayReads(items, rest, bad, depth, m);
    case Object(members) =>
      if depth < 2048 { MembersRead(members, rest, bad, depth + 1, m, [], {}); }
      ObjectReads(members, rest, bad, depth, m);
  }

  lemma ScalarReads(x: Syntax, rest: Bytes, bad: bool, depth: nat, m: J.Mode)
    requires (x.Name? || x.Number? || x.Text?) && Proper(x) && EndsClean(x, rest)
    ensures Reads(x, Spelled(x) + rest, rest, bad, depth, m)
  {
    hide J.Scan, EndsClean, TextOf, NameText, DigitsText, Positional, Quotes;
    match x
    case Name(name, nul) => NameReads(name, nul, rest, bad);
    case Number(minus, ds, nul) => NumberReads(minus, ds, nul, rest, bad);
    case Text(ls) => QuotesRead(ls, rest, bad);
  }

  lemma EmptyArrayReads(white: Bytes, rest: Bytes, bad: bool, depth: nat, m: J.Mode)
    requires White(white)
    ensures Reads(EmptyArray(white), Spelled(EmptyArray(white)) + rest, rest, bad, depth, m)
  {
    Marks();
    var s := white + ([J.CLOSE_ARRAY] + rest);
    assert Spelled(EmptyArray(white)) + rest == [J.OPEN_ARRAY] + s;
    R.PunctScans(J.OPEN_ARRAY, s, bad);
    WhiteSkipped(white, [J.CLOSE_ARRAY] + rest, bad);
    R.PunctScans(J.CLOSE_ARRAY, rest, bad);
  }

  lemma EmptyObjectReads(white: Bytes, rest: Bytes, bad: bool, depth: nat, m: J.Mode)
    requires White(white)
    ensures Reads(EmptyObject(white), Spelled(EmptyObject(white)) + rest, rest, bad, depth, m)
  {
    Marks();
    var s := white + ([J.CLOSE_OBJECT] + rest);
    assert Spelled(EmptyObject(white)) + rest == [J.OPEN_OBJECT] + s;
    R.PunctScans(J.OPEN_OBJECT, s, bad);
    WhiteSkipped(white, [J.CLOSE_OBJECT] + rest, bad);
    R.PunctScans(J.CLOSE_OBJECT, rest, bad);
  }

  lemma ArrayReads(items: Items, rest: Bytes, bad: bool, depth: nat, m: J.Mode)
    requires ProperItems(items)
    requires depth < 2048 ==>
      ReadsItems(items, ItemsText(items) + ([J.CLOSE_ARRAY] + rest), rest, bad, depth + 1, m, [])
    ensures Reads(Array(items), Spelled(Array(items)) + rest, rest, bad, depth, m)
  {
    Marks();
    var s := ItemsText(items) + ([J.CLOSE_ARRAY] + rest);
    assert Spelled(Array(items)) + rest == [J.OPEN_ARRAY] + s;
    R.PunctScans(J.OPEN_ARRAY, s, bad);
    assert [] + ValuesOf(items, true) == ValuesOf(items, true);
  }

  lemma ObjectReads(members: Members, rest: Bytes, bad: bool, depth: nat, m: J.Mode)
    requires ProperMembers(members)
    requires depth < 2048 ==>
      ReadsMembers(members, MembersText(members) + ([J.CLOSE_OBJECT] + rest), rest, bad, depth + 1, m, [], {})
    ensures Reads(Object(members), Spelled(Object(members)) + rest, rest, bad, depth, m)
  {
    Marks();
    var s := MembersText(members) + ([J.CLOSE_OBJECT] + rest);
    assert Spelled(Object(members)) + rest == [J.OPEN_OBJECT] + s;
    R.PunctScans(J.OPEN_OBJECT, s, bad);
  }

  /** What follows an element: the closing bracket, or a comma and more elements. */
  function ItemsTail(xs: Items, rest: Bytes): Bytes
    requires ProperItems(xs)
  {
    if xs.Item? then [J.CLOSE_ARRAY] + rest else [J.COMMA] + (ItemsText(xs.more) + ([J.CLOSE_ARRAY] + rest))
  }

  lemma ItemsCut(xs: Items, rest: Bytes)
    requires ProperItems(xs)
    ensures ItemsText(xs) + ([J.CLOSE_ARRAY] + rest) ==
      xs.before + (Spelled(xs.value) + (xs.after + ItemsTail(xs, rest)))
  {
    Marks();
  }

  lemma {:induction false} ItemsRead(xs: Items, rest: Bytes, bad: bool, depth: nat, m: J.Mode, items: seq<J.Value>)
    requires ProperItems(xs)
    ensures ReadsItems(xs, ItemsText(xs) + ([J.CLOSE_ARRAY] + rest), rest, bad, depth, m, items)
    decreases xs
  {
    hide J.Scan, J.ParseValue, ItemsText, Spelled, EndsClean, White, ValueOf, Within;
    var tail := ItemsTail(xs, rest);
    var after := xs.after + tail;
    ItemsCut(xs, rest);
    EndsAt(xs.value, xs.after, tail);
    SyntaxReads(xs.value, after, bad, depth, m);
    WhiteSkipped(xs.before, Spelled(xs.value) + after, bad);
    WhiteSkipped(xs.after, tail, bad);
    var v := ValueOf(xs.value, true);
    if xs.Item? {
      R.PunctScans(J.CLOSE_ARRAY, rest, bad);
    } else {
      var more := ItemsText(xs.more) + ([J.CLOSE_ARRAY] + rest);
      R.PunctScans(J.COMMA, more, bad);
      ItemsRead(xs.more, rest, bad, depth, m, items + [v]);
      assert items + [v] + ValuesOf(xs.more, true) == items + ValuesOf(xs, true);
    }
  }

  function MembersTail(xs: Members, rest: Bytes): Bytes
    requires ProperMembers(xs)
  {
    if xs.Member? then [J.CLOSE_OBJECT] + rest else [J.COMMA] + (MembersText(xs.more) + ([J.CLOSE_OBJECT] + rest))
  }

  /** A member's text from the colon on. */
  function ValueText(xs: Members, rest: Bytes): Bytes
    requires ProperMembers(xs)
  {
    [J.COLON] + (xs.right + (Spelled(xs.value) + (xs.after + MembersTail(xs, rest))))
  }

  lemma Regroup(b: Bytes, q: Bytes, l: Bytes, c: Bytes, r: Bytes, v: Bytes, a: Bytes, t: Bytes)
    ensures b + q + l + c + r + v + a + t == b + (q + (l + (c + (r + (v + (a + t))))))
  {
    assert b + q + l + c + r + v + a + t == b + q + l + c + r + v + (a + t);
    assert b + q + l + c + r + v + (a + t) == b + q + l + c + r + (v + (a + t));
    assert b + q + l + c + r + (v + (a + t)) == b + q + l + c + (r + (v + (a + t)));
    assert b + q + l + c + (r + (v + (a + t))) == b + q + l + (c + (r + (v + (a + t))));
    assert b + q + l + (c + (r + (v + (a + t)))) == b + q + (l + (c + (r + (v + (a + t)))));
  }

  lemma MembersCut(xs: Members, rest: Bytes)
    requires ProperMembers(xs)
    ensures MembersText(xs) + ([J.CLOSE_OBJECT] + rest) ==
      xs.before + (Quotes(xs.name) + (xs.left + ValueText(xs, rest)))
  {
    hide Quotes, Spelled, MembersText;
    Marks();
    var close := [J.CLOSE_OBJECT] + rest;
    var head := xs.before + Quotes(xs.name) + xs.left + [J.COLON] + xs.right + Spelled(xs.value) + xs.after;
    var more := if xs.Member? then [] else [J.COMMA] + MembersText(xs.more);
    MembersHead(xs);
    Joined(head, more, close);
    if xs.Members? { Joined([J.COMMA], MembersText(xs.more), close); } else { assert [] + close == close; }
    Regroup(xs.before, Quotes(xs.name), xs.left, [J.COLON], xs.right, Spelled(xs.value), xs.after, more + close);
  }

  lemma Joined(a: Bytes, b: Bytes, c: Bytes)
    ensures a + b + c == a + (b + c)
  {
  }

  lemma MembersHead(xs: Members)
    requires ProperMembers(xs)
    ensures MembersText(xs) == xs.before + Quotes(xs.name) + xs.left + [J.COLON] + xs.right + Spelled(xs.value) +
      xs.after + if xs.Member? then [] else [J.COMMA] + MembersText(xs.more)
  {
    Marks();
  }

  lemma KeysSeen(members: Entries<Bytes, J.Value>, key: Bytes, v: J.Value, seen: set<Bytes>)
    requires DistinctKeys(members) && forall k :: Get(members, k).Some? <==> k in seen
    ensures DistinctKeys(Set(members, key, v)) && forall k :: Get(Set(members, key, v), k).Some? <==> k in seen + {key}
  {
    forall k ensures DistinctKeys(Set(members, key, v)) && (Get(Set(members, key, v), k).Some? <==> k in seen + {key}) {
      GetAfterSet(members, key, v, k);
    }
    GetAfterSet(members, key, v, key);
  }

  lemma {:induction false} MembersRead(xs: Members, rest: Bytes, bad: bool, depth: nat, m: J.Mode,
      members: Entries<Bytes, J.Value>, seen: set<Bytes>)
    requires ProperMembers(xs) && DistinctKeys(members) && forall k :: Get(members, k).Some? <==> k in seen
    ensures ReadsMembers(xs, MembersText(xs) + ([J.CLOSE_OBJECT] + rest), rest, bad, depth, m, members, seen)
    decreases xs
  {
    hide J.Scan, MembersText, Spelled, EndsClean, White, Quotes, TextOf, DistinctKeys, Get, Set;
    var tail, key := MembersTail(xs, rest), TextOf(xs.name);
    var after := xs.after + tail;
    var colon := ValueText(xs, rest);
    MembersCut(xs, rest);
    WhiteSkipped(xs.before, Quotes(xs.name) + (xs.left + colon), bad);
    QuotesRead(xs.name, xs.left + colon, bad);
    WhiteSkipped(xs.left, colon, bad);
    R.PunctScans(J.COLON, xs.right + (Spelled(xs.value) + after), bad);
    WhiteSkipped(xs.right, Spelled(xs.value) + after, bad);
    EndsAt(xs.value, xs.after, tail);
    SyntaxReads(xs.value, after, bad, depth, m);
    WhiteSkipped(xs.after, tail, bad);
    var v := ValueOf(xs.value, true);
    if xs.Member? {
      R.PunctScans(J.CLOSE_OBJECT, rest, bad);
      assert PairsOf(xs, true)[1..] == [] && Collapse(Set(members, key, v), []) == Set(members, key, v);
    } else {
      var more := MembersText(xs.more) + ([J.CLOSE_OBJECT] + rest);
      R.PunctScans(J.COMMA, more, bad);
      KeysSeen(members, key, v, seen);
      MembersRead(xs.more, rest, bad, depth, m, Set(members, key, v), seen + {key});
      assert PairsOf(xs, true)[1..] == PairsOf(xs.more, true);
    }
  }
}
