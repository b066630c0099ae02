/** The parser reads nothing but texts of the grammar. */
module JsonGrammarSound {
  import opened Options
  import opened OrderedMap
  import opened Utf8
  import opened JsonGrammar
  import opened JsonGrammarReads
  import S = JsonString
  import J = JsonText
  import R = JsonRoundTrip
  import P = JsonParsed

  // ---- strings ----

  lemma HexOf(c: Byte) returns (h: Hex)
    requires S.IsHex(c)
    ensures h.value < 0x10 && Code(if h.upper then UPPER[h.value] else LOWER[h.value]) == c
  {
    h := if c <= 0x39 then Hex(c - 0x30, false) else if c <= 0x46 then Hex(c - 0x41 + 10, true)
      else Hex(c - 0x61 + 10, false);
  }

  lemma HexTextOf(s: Bytes) returns (ds: seq<Hex>)
    requires |s| == 4 && S.AllHex(s)
    ensures ProperHex(ds) && HexText(ds) == s && HexNumber(ds) == S.Hex4Value(s)
  {
    var a := HexOf(s[0]);
    var b := HexOf(s[1]);
    var c := HexOf(s[2]);
    var d := HexOf(s[3]);
    ds := [a, b, c, d];
    assert HexText(ds) == s;
    HexTextReads(ds);
  }

  lemma ShortOf(c: Byte) returns (index: nat)
    requires S.IsShort(c)
    ensures index < |SHORT| && Code(SHORT[index]) == c
  {
    index := if c == 0x22 then 0 else if c == 0x5C then 1 else if c == 0x2F then 2 else if c == 0x62 then 3
      else if c == 0x66 then 4 else if c == 0x6E then 5 else if c == 0x72 then 6 else 7;
  }

  /** The text between quotes, as both passes accept it. */
  ghost predicate Accepted(c: Bytes, rest: Bytes) {
    WellFormed(c) && S.Unescape(c).Some? && S.StringEnd(c + Ascii("\"") + rest) == Some(|c|)
  }

  lemma PlainOf(c: Bytes, rest: Bytes) returns (l: Letter)
    requires Accepted(c, rest) && c != [] && c[0] != S.BACKSLASH
    ensures ProperLetter(l) && 0 < |LetterText(l)| <= |c| && LetterText(l) == c[..|LetterText(l)|]
  {
    hide S.Unescape, WellFormed;
    FirstScalar(c);
    var t := c + Ascii("\"") + rest;
    assert t[0] == c[0] && S.UnitLen(t) > 0 && c[0] != S.QUOTE;
    var n := FirstLen(c[0]);
    var v := Decode(c[..n]);
    if v < 0x80 { AsciiEncodes(v); assert c[..n][0] == c[0]; }
    l := Plain(v);
  }

  lemma EscapeText(c: Bytes) returns (ds: seq<Hex>)
    requires S.StartsEscape(c)
    ensures ProperHex(ds) && Ascii("\\u") + HexText(ds) == c[..6] && HexNumber(ds) == S.Unit(c)
  {
    hide S.Hex4Value, HexNumber, HexText, S.AllHex;
    ds := HexTextOf(c[2..6]);
    assert Ascii("\\u") == [S.BACKSLASH, S.LETTER_U];
    assert c[..6] == [c[0], c[1]] + c[2..6];
  }

  lemma EscapeOf(c: Bytes, rest: Bytes) returns (l: Letter)
    requires Accepted(c, rest) && S.StartsEscape(c)
    ensures ProperLetter(l) && 0 < |LetterText(l)| <= |c| && LetterText(l) == c[..|LetterText(l)|]
  {
    hide S.StringEnd, WellFormed, Encode, S.Hex4Value, S.AllHex, HexText, HexNumber;
    var ds := EscapeText(c);
    if S.HighSurrogate(S.Unit(c)) {
      var es := EscapeText(c[6..]);
      l := Pair(ds, es);
      assert c[..12] == c[..6] + c[6..][..6];
    } else {
      l := Unit(ds);
    }
  }

  lemma LetterOf(c: Bytes, rest: Bytes) returns (l: Letter)
    requires Accepted(c, rest) && c != []
    ensures ProperLetter(l) && 0 < |LetterText(l)| <= |c| && LetterText(l) == c[..|LetterText(l)|]
  {
    hide WellFormed, S.StringEnd, S.AllHex, LetterText;
    if c[0] != S.BACKSLASH {
      l := PlainOf(c, rest);
    } else if S.StartsEscape(c) {
      l := EscapeOf(c, rest);
    } else {
      var index := ShortOf(c[1]);
      l := Short(index);
      ShortText(index, c);
    }
  }

  lemma ShortText(index: nat, c: Bytes)
    requires index < |SHORT| && |c| >= 2 && c[0] == S.BACKSLASH && c[1] == Code(SHORT[index])
    ensures LetterText(Short(index)) == c[..2]
  {
  }

  lemma HexAscii(ds: seq<Hex>)
    requires ProperHex(ds)
    ensures forall k :: 0 <= k < |HexText(ds)| ==> HexText(ds)[k] < 0x80
  {
    HexTextReads(ds);
  }

  lemma UnitAscii(ds: seq<Hex>)
    requires ProperHex(ds)
    ensures WellFormed(Ascii("\\u") + HexText(ds))
  {
    hide HexText, WellFormed;
    HexAscii(ds);
    AsciiWellFormed(Ascii("\\u") + HexText(ds));
  }

  lemma LetterWellFormed(l: Letter)
    requires ProperLetter(l)
    ensures WellFormed(LetterText(l))
  {
    hide WellFormed, Encode, IsChar, HexText, HexNumber, Ascii;
    match l
    case Plain(v) =>
      EncodeIsChar(v);
      CharWellFormed(Encode(v));
    case Short(_) =>
      AsciiWellFormed(LetterText(l));
    case Unit(ds) =>
      UnitAscii(ds);
    case Pair(h, w) =>
      UnitAscii(h);
      UnitAscii(w);
      WellFormedConcat(Ascii("\\u") + HexText(h), Ascii("\\u") + HexText(w));
      assert LetterText(l) == Ascii("\\u") + HexText(h) + (Ascii("\\u") + HexText(w));
  }

  lemma {:induction false} LettersOf(c: Bytes, rest: Bytes) returns (ls: seq<Letter>)
    requires Accepted(c, rest)
    ensures ProperLetters(ls) && LettersText(ls) == c
    decreases |c|
  {
    hide WellFormed, S.Unescape, S.StringEnd, LetterText, ProperLetter;
    if c == [] {
      ls := [];
    } else {
      var l := LetterOf(c, rest);
      var n := |LetterText(l)|;
      var d := c[n..];
      assert c == LetterText(l) + d;
      assert c + Ascii("\"") + rest == LetterText(l) + (d + Ascii("\"") + rest);
      LetterReads(l, d);
      LetterReads(l, d + Ascii("\"") + rest);
      LetterWellFormed(l);
      WellFormedConcat(LetterText(l), d);
      var more := LettersOf(d, rest);
      ls := [l] + more;
      assert ls[1..] == more;
    }
  }

  // ---- tokens ----

  lemma WhiteMore(c: Byte, more: Bytes)
    requires J.IsSpace(c) && White(more)
    ensures White([c] + more)
  {
  }

  lemma {:induction false} SpaceOf(s: Bytes) returns (lead: Bytes)
    ensures White(lead) && s == lead + J.SkipSpace(s)
  {
    if s != [] && J.IsSpace(s[0]) {
      hide White, J.IsSpace;
      var more := SpaceOf(s[1..]);
      lead := [s[0]] + more;
      WhiteMore(s[0], more);
      assert s == [s[0]] + s[1..];
      Joined([s[0]], more, J.SkipSpace(s));
    } else {
      lead := [];
    }
  }

  lemma QuotesOf(t: Bytes) returns (ls: seq<Letter>)
    requires WellFormed(t) && t != [] && t[0] == S.QUOTE && J.ScanText(t).0.Text?
    ensures ProperLetters(ls) && t == Quotes(ls) + J.ScanText(t).1
  {
    hide WellFormed, S.Unescape, S.StringEnd, LettersText, IsChar, FirstLen;
    var s := t[1..];
    J.EndInside(s);
    var n := S.StringEnd(s).value;
    var c, r := s[..n], s[n + 1..];
    assert Ascii("\"") == [S.QUOTE];
    assert s == c + [S.QUOTE] + r;
    P.AfterAscii(t);
    P.CutAtAscii(s, n);
    ls := LettersOf(c, r);
    assert t == [t[0]] + s;
  }

  lemma DigitsOf(a: Bytes) returns (ds: seq<nat>)
    requires forall k :: 0 <= k < |a| ==> J.IsDigit(a[k])
    ensures |ds| == |a| && (forall k :: 0 <= k < |ds| ==> ds[k] < 10 && a[k] == 0x30 + ds[k]) && DigitsText(ds) == a
  {
    ds := seq(|a|, k requires 0 <= k < |a| => a[k] - 0x30);
    DigitsAre(ds);
  }

  lemma SkippedOf(t: Bytes) returns (nul: bool)
    ensures t == Skipped(nul) + J.AfterUnget(t) && (nul <==> t != [] && t[0] == 0)
  {
    nul := t != [] && t[0] == 0;
  }

  /** The digits of a number that the scanner takes, and what follows them. */
  lemma DigitRunOf(u: Bytes)
    requires J.NumberLen(u) > 0 && !J.IsFraction(u[J.NumberLen(u)..])
    ensures var n := J.NumberLen(u); var t := u[n..];
            (forall k :: 0 <= k < n ==> J.IsDigit(u[..n][k])) && (n > 1 ==> u[..n][0] != 0x30) &&
            (t != [] ==> !J.IsDigit(t[0]))
  {
  }

  lemma NumberClean(minus: bool, ds: seq<nat>, nul: bool, t: Bytes)
    requires (nul <==> t != [] && t[0] == 0) && (t != [] ==> !J.IsDigit(t[0])) && !J.IsFraction(t)
    ensures EndsClean(Number(minus, ds, nul), J.AfterUnget(t))
  {
  }

  lemma ProperNumber(minus: bool, ds: seq<nat>, nul: bool, a: Bytes)
    requires a != [] && |ds| == |a| && (|a| > 1 ==> a[0] != 0x30)
    requires forall k :: 0 <= k < |ds| ==> ds[k] < 10 && a[k] == 0x30 + ds[k]
    ensures Proper(Number(minus, ds, nul))
  {
  }

  lemma NumberOf(t: Bytes) returns (x: Syntax)
    requires t != [] && (J.IsDigit(t[0]) || t[0] == J.MINUS) && J.ScanNumber(t).0.Number?
    ensures x.Number? && Proper(x) && t == Spelled(x) + J.ScanNumber(t).1 && EndsClean(x, J.ScanNumber(t).1)
  {
    hide J.DecimalValue, DigitsText, J.Strtol, J.NumberLen, J.DigitRun, Spelled, J.IsFraction, J.IsDigit, J.AfterUnget,
      EndsClean, Proper;
    var minus := t[0] == J.MINUS;
    var u := if minus then t[1..] else t;
    var n := J.NumberLen(u);
    DigitRunOf(u);
    var ds := DigitsOf(u[..n]);
    var nul := SkippedOf(u[n..]);
    var r := J.AfterUnget(u[n..]);
    x := Number(minus, ds, nul);
    NumberClean(minus, ds, nul, u[n..]);
    ProperNumber(minus, ds, nul, u[..n]);
    assert u == u[..n] + u[n..];
    NumberText(minus, ds, nul, r);
    if minus { assert t == [J.MINUS] + u; }
  }

  lemma NameClean(name: Keyword, nul: bool, t: Bytes)
    requires (nul <==> t != [] && t[0] == 0) && (t != [] ==> !J.IsAlpha(t[0]))
    ensures EndsClean(Name(name, nul), J.AfterUnget(t))
  {
  }

  lemma KeywordOf(a: Bytes) returns (name: Keyword)
    requires J.Word(a) != J.Invalid
    ensures NameText(name) == a
  {
    hide Ascii;
    KeywordBytes();
    name := if a == J.TEXT_TRUE then TrueName else if a == J.TEXT_FALSE then FalseName else NullName;
  }

  lemma NameOf(t: Bytes) returns (x: Syntax)
    requires t != [] && J.IsAlpha(t[0]) && J.Word(t[..J.AlphaRun(t)]) != J.Invalid
    ensures x.Name? && Proper(x) && t == Spelled(x) + J.AfterUnget(t[J.AlphaRun(t)..])
    ensures EndsClean(x, J.AfterUnget(t[J.AlphaRun(t)..]))
  {
    hide J.Word, J.AfterUnget, NameText, EndsClean;
    var n := J.AlphaRun(t);
    var name := KeywordOf(t[..n]);
    var nul := SkippedOf(t[n..]);
    NameClean(name, nul, t[n..]);
    x := Name(name, nul);
    assert t == t[..n] + t[n..];
    Joined(t[..n], Skipped(nul), J.AfterUnget(t[n..]));
  }

  /** A text, a number or a name is spelled as the grammar says. */
  lemma ScalarOf(s: Bytes, bad: bool) returns (lead: Bytes, x: Syntax)
    requires WellFormed(s)
    requires var tok := J.Scan(s, bad).0; tok != J.Invalid && tok != J.Eof && !tok.Punct?
    ensures White(lead) && Proper(x) && s == lead + Spelled(x) + J.Scan(s, bad).1 && EndsClean(x, J.Scan(s, bad).1)
    ensures J.Scan(s, bad).0.Text? ==> x.Text?
  {
    hide WellFormed, J.ScanText, J.ScanNumber, Spelled, LettersText;
    lead := SpaceOf(s);
    var t := J.SkipSpace(s);
    P.SkipSpaceWellFormed(s);
    if t[0] == S.QUOTE {
      P.TextWellFormed(t);
      var ls := QuotesOf(t);
      x := Text(ls);
      TextSpelled(ls);
    } else if J.IsDigit(t[0]) || t[0] == J.MINUS {
      P.NumberWellFormed(t);
      x := NumberOf(t);
    } else {
      x := NameOf(t);
    }
    Joined(lead, Spelled(x), J.Scan(s, bad).1);
  }

  lemma TextSpelled(ls: seq<Letter>)
    requires ProperLetters(ls)
    ensures Spelled(Text(ls)) == Quotes(ls)
  {
  }

  lemma PunctOf(s: Bytes, bad: bool) returns (lead: Bytes)
    requires J.Scan(s, bad).0.Punct?
    ensures White(lead) && s == lead + ([J.Scan(s, bad).0.c] + J.Scan(s, bad).1)
  {
    lead := SpaceOf(s);
    var t := J.SkipSpace(s);
    if J.IsPunct(t[0]) { assert t == [t[0]] + t[1..]; }
  }

  // ---- values ----

  /** s is white space, the text of x, and `rest`. */
  ghost predicate Spells(s: Bytes, lead: Bytes, x: Syntax, rest: Bytes) {
    White(lead) && Proper(x) && EndsClean(x, rest) && s == lead + (Spelled(x) + rest) && WellFormed(rest)
  }

  lemma {:induction false} ValueSpelled(s: Bytes, bad: bool, depth: nat, m: J.Mode) returns (lead: Bytes, x: Syntax)
    requires WellFormed(s)
    requires var (tok, r) := J.Scan(s, bad); J.ParseValue(tok, r, bad, depth, m).Done?
    ensures var (tok, r) := J.Scan(s, bad); Spells(s, lead, x, J.ParseValue(tok, r, bad, depth, m).rest)
    decreases |s|, 1
  {
    hide J.Scan, WellFormed, Spelled, EndsClean, White;
    var (tok, r) := J.Scan(s, bad);
    P.ScanGood(s, bad);
    if tok == J.Punct(J.OPEN_ARRAY) {
      lead, x := ArraySpelled(s, bad, depth, m);
    } else if tok == J.Punct(J.OPEN_OBJECT) {
      lead, x := ObjectSpelled(s, bad, depth, m);
    } else {
      lead, x := ScalarOf(s, bad);
      Joined(lead, Spelled(x), r);
    }
  }

  lemma EmptyArraySpelled(lead: Bytes, white: Bytes, s: Bytes, rest: Bytes) returns (x: Syntax)
    requires White(lead) && White(white) && WellFormed(rest)
    requires s == lead + ([J.OPEN_ARRAY] + (white + ([J.CLOSE_ARRAY] + rest)))
    ensures Spells(s, lead, x, rest)
  {
    Marks();
    x := EmptyArray(white);
    assert Spelled(x) + rest == [J.OPEN_ARRAY] + (white + ([J.CLOSE_ARRAY] + rest));
  }

  lemma FullArraySpelled(lead: Bytes, xs: Items, s: Bytes, rest: Bytes) returns (x: Syntax)
    requires White(lead) && ProperItems(xs) && WellFormed(rest)
    requires s == lead + ([J.OPEN_ARRAY] + (ItemsText(xs) + ([J.CLOSE_ARRAY] + rest)))
    ensures Spells(s, lead, x, rest)
  {
    hide ItemsText, WellFormed;
    Marks();
    x := Array(xs);
    assert Spelled(x) + rest == [J.OPEN_ARRAY] + (ItemsText(xs) + ([J.CLOSE_ARRAY] + rest));
  }

  lemma EmptyObjectSpelled(lead: Bytes, white: Bytes, s: Bytes, rest: Bytes) returns (x: Syntax)
    requires White(lead) && White(white) && WellFormed(rest)
    requires s == lead + ([J.OPEN_OBJECT] + (white + ([J.CLOSE_OBJECT] + rest)))
    ensures Spells(s, lead, x, rest)
  {
    Marks();
    x := EmptyObject(white);
    assert Spelled(x) + rest == [J.OPEN_OBJECT] + (white + ([J.CLOSE_OBJECT] + rest));
  }

  lemma FullObjectSpelled(lead: Bytes, xs: Members, s: Bytes, rest: Bytes) returns (x: Syntax)
    requires White(lead) && ProperMembers(xs) && WellFormed(rest)
    requires s == lead + ([J.OPEN_OBJECT] + (MembersText(xs) + ([J.CLOSE_OBJECT] + rest)))
    ensures Spells(s, lead, x, rest)
  {
    hide MembersText, WellFormed;
    Marks();
    x := Object(xs);
    assert Spelled(x) + rest == [J.OPEN_OBJECT] + (MembersText(xs) + ([J.CLOSE_OBJECT] + rest));
  }

  lemma {:induction false} ArraySpelled(s: Bytes, bad: bool, depth: nat, m: J.Mode) returns (lead: Bytes, x: Syntax)
    requires WellFormed(s) && J.Scan(s, bad).0 == J.Punct(J.OPEN_ARRAY)
    requires J.ParseValue(J.Punct(J.OPEN_ARRAY), J.Scan(s, bad).1, bad, depth, m).Done?
    ensures Spells(s, lead, x, J.ParseValue(J.Punct(J.OPEN_ARRAY), J.Scan(s, bad).1, bad, depth, m).rest)
    decreases |s|, 0
  {
    hide J.Scan, WellFormed, Spells, White, ItemsText;
    var r := J.Scan(s, bad).1;
    var p := J.ParseValue(J.Punct(J.OPEN_ARRAY), r, bad, depth, m);
    P.ScanGood(s, bad);
    P.ScanGood(r, bad);
    lead := PunctOf(s, bad);
    if J.Scan(r, bad).0 == J.Punct(J.CLOSE_ARRAY) {
      var white := PunctOf(r, bad);
      x := EmptyArraySpelled(lead, white, s, p.rest);
    } else {
      var xs := ItemsSpelled(r, bad, depth + 1, m, []);
      x := FullArraySpelled(lead, xs, s, p.rest);
    }
  }

  lemma {:induction false} ObjectSpelled(s: Bytes, bad: bool, depth: nat, m: J.Mode) returns (lead: Bytes, x: Syntax)
    requires WellFormed(s) && J.Scan(s, bad).0 == J.Punct(J.OPEN_OBJECT)
    requires J.ParseValue(J.Punct(J.OPEN_OBJECT), J.Scan(s, bad).1, bad, depth, m).Done?
    ensures Spells(s, lead, x, J.ParseValue(J.Punct(J.OPEN_OBJECT), J.Scan(s, bad).1, bad, depth, m).rest)
    decreases |s|, 0
  {
    hide J.Scan, WellFormed, Spells, White, MembersText;
    var r := J.Scan(s, bad).1;
    var p := J.ParseValue(J.Punct(J.OPEN_OBJECT), r, bad, depth, m);
    P.ScanGood(s, bad);
    P.ScanGood(r, bad);
    lead := PunctOf(s, bad);
    if J.Scan(r, bad).0 == J.Punct(J.CLOSE_OBJECT) {
      var white := PunctOf(r, bad);
      x := EmptyObjectSpelled(lead, white, s, p.rest);
    } else {
      var xs := MembersSpelled(r, bad, depth + 1, m, []);
      x := FullObjectSpelled(lead, xs, s, p.rest);
    }
  }

  lemma OneItem(before: Bytes, x: Syntax, after: Bytes, s: Bytes, rest: Bytes) returns (xs: Items)
    requires White(before) && Proper(x) && White(after)
    requires s == before + (Spelled(x) + (after + ([J.CLOSE_ARRAY] + rest)))
    ensures ProperItems(xs) && s == ItemsText(xs) + ([J.CLOSE_ARRAY] + rest)
  {
    hide Spelled;
    xs := Item(before, x, after);
    ItemsCut(xs, rest);
  }

  lemma MoreItems(before: Bytes, x: Syntax, after: Bytes, more: Items, s: Bytes, rest: Bytes) returns (xs: Items)
    requires White(before) && Proper(x) && White(after) && ProperItems(more)
    requires s == before + (Spelled(x) + (after + ([J.COMMA] + (ItemsText(more) + ([J.CLOSE_ARRAY] + rest)))))
    ensures ProperItems(xs) && s == ItemsText(xs) + ([J.CLOSE_ARRAY] + rest)
  {
    hide Spelled, ItemsText;
    xs := Items(before, x, after, more);
    ItemsCut(xs, rest);
  }

  lemma {:induction false} ItemsSpelled(s: Bytes, bad: bool, depth: nat, m: J.Mode, items: seq<J.Value>)
    returns (xs: Items)
    requires WellFormed(s)
    requires var (tok, r) := J.Scan(s, bad); J.ParseItems(tok, r, bad, depth, m, items).Done?
    ensures var (tok, r) := J.Scan(s, bad); var rest := J.ParseItems(tok, r, bad, depth, m, items).rest;
            ProperItems(xs) && s == ItemsText(xs) + ([J.CLOSE_ARRAY] + rest) && WellFormed(rest)
    decreases |s|, 2
  {
    hide J.Scan, J.ParseValue, WellFormed, White, ItemsText, ProperItems, Spelled, EndsClean;
    var (tok, r) := J.Scan(s, bad);
    var before, x := ValueSpelled(s, bad, depth, m);
    var p := J.ParseValue(tok, r, bad, depth, m);
    P.ScanGood(p.rest, bad);
    var after := PunctOf(p.rest, bad);
    var (t, r') := J.Scan(p.rest, bad);
    if t == J.Punct(J.CLOSE_ARRAY) {
      xs := OneItem(before, x, after, s, r');
    } else {
      var more := ItemsSpelled(r', bad, depth, m, items + [p.value]);
      xs := MoreItems(before, x, after, more, s, J.ParseItems(tok, r, bad, depth, m, items).rest);
    }
  }

  lemma OneMember(before: Bytes, ls: seq<Letter>, left: Bytes, right: Bytes, x: Syntax, after: Bytes, s: Bytes,
                  rest: Bytes) returns (xs: Members)
    requires White(before) && ProperLetters(ls) && White(left) && White(right) && Proper(x) && White(after)
    requires s == before + (Quotes(ls) + (left + ([J.COLON] + (right + (Spelled(x) + (after +
                    ([J.CLOSE_OBJECT] + rest)))))))
    ensures ProperMembers(xs) && s == MembersText(xs) + ([J.CLOSE_OBJECT] + rest)
  {
    hide Spelled, Quotes, MembersText;
    xs := Member(before, ls, left, right, x, after);
    MembersCut(xs, rest);
  }

  lemma MoreMembers(before: Bytes, ls: seq<Letter>, left: Bytes, right: Bytes, x: Syntax, after: Bytes, more: Members,
                    s: Bytes, rest: Bytes) returns (xs: Members)
    requires White(before) && ProperLetters(ls) && White(left) && White(right) && Proper(x) && White(after)
    requires ProperMembers(more)
    requires s == before + (Quotes(ls) + (left + ([J.COLON] + (right + (Spelled(x) + (after +
                    ([J.COMMA] + (MembersText(more) + ([J.CLOSE_OBJECT] + rest)))))))))
    ensures ProperMembers(xs) && s == MembersText(xs) + ([J.CLOSE_OBJECT] + rest)
  {
    hide Spelled, Quotes, MembersText;
    xs := Members(before, ls, left, right, x, after, more);
    MembersCut(xs, rest);
  }

  /** The name of a member. */
  lemma NameSpelled(s: Bytes, bad: bool) returns (before: Bytes, ls: seq<Letter>)
    requires WellFormed(s) && J.Scan(s, bad).0.Text?
    ensures White(before) && ProperLetters(ls) && s == before + (Quotes(ls) + J.Scan(s, bad).1)
    ensures WellFormed(J.Scan(s, bad).1)
  {
    hide J.Scan, WellFormed, Quotes;
    var x;
    before, x := ScalarOf(s, bad);
    P.ScanGood(s, bad);
    ls := x.letters;
    TextSpelled(ls);
    Joined(before, Quotes(ls), J.Scan(s, bad).1);
  }

  lemma {:induction false} MembersSpelled(s: Bytes, bad: bool, depth: nat, m: J.Mode,
      members: Entries<Bytes, J.Value>) returns (xs: Members)
    requires WellFormed(s) && J.Scan(s, bad).0.Text?
    requires var (tok, r) := J.Scan(s, bad); J.ParseMembers(tok.text, r, bad, depth, m, members).Done?
    ensures var (tok, r) := J.Scan(s, bad); var rest := J.ParseMembers(tok.text, r, bad, depth, m, members).rest;
            ProperMembers(xs) && s == MembersText(xs) + ([J.CLOSE_OBJECT] + rest) && WellFormed(rest)
    decreases |s|, 2
  {
    hide J.Scan, J.ParseValue, WellFormed, White, MembersText, ProperMembers, Spelled, EndsClean, Quotes, ProperLetters,
      Get, Set;
    var (tok, r) := J.Scan(s, bad);
    var rest := J.ParseMembers(tok.text, r, bad, depth, m, members).rest;
    var before, ls := NameSpelled(s, bad);
    var left := PunctOf(r, bad);
    P.ScanGood(r, bad);
    var colon := J.Scan(r, bad).1;
    var right, x := ValueSpelled(colon, bad, depth, m);
    var (t, r') := J.Scan(colon, bad);
    var p := J.ParseValue(t, r', bad, depth, m);
    P.ScanGood(p.rest, bad);
    var after := PunctOf(p.rest, bad);
    var (t', r'') := J.Scan(p.rest, bad);
    if t' == J.Punct(J.CLOSE_OBJECT) {
      xs := OneMember(before, ls, left, right, x, after, s, rest);
    } else {
      var more := MembersSpelled(r'', bad, depth, m, Set(members, tok.text, p.value));
      xs := MoreMembers(before, ls, left, right, x, after, more, s, rest);
    }
  }

  // ---- whole inputs ----

  lemma {:induction false} FeedOver(a: Bytes, b: Bytes)
    requires WellFormed(a)
    ensures J.Feed(a + b) == a + J.Feed(b)
    decreases |a|
  {
    hide WellFormed, IsChar, FirstLen;
    if a == [] {
      assert a + b == b;
    } else {
      var n := FirstLen(a[0]);
      WellFormedStep(a);
      assert (a + b)[..n] == a[..n] && (a + b)[n..] == a[n..] + b;
      FeedOver(a[n..], b);
      assert a == a[..n] + a[n..] && (a + b)[0] == a[0];
      Joined(a[..n], a[n..], J.Feed(b));
    }
  }

  lemma AsciiIsChar(s: Bytes)
    requires s != [] && s[0] < 0x80
    ensures FirstLen(s[0]) == 1 && IsChar(s[..1])
  {
    assert s[..1][0] == s[0];
  }

  /** The bytes behind those delivered start with no ASCII byte. */
  lemma {:induction false} FeedStops(src: Bytes)
    ensures J.Feed(src) <= src
    ensures |J.Feed(src)| < |src| ==> src[|J.Feed(src)|] >= 0x80
  {
    hide IsChar, FirstLen;
    if src != [] {
      var n := FirstLen(src[0]);
      if src[0] < 0x80 { AsciiIsChar(src); }
      if 1 <= n <= |src| && IsChar(src[..n]) {
        FeedStops(src[n..]);
        assert src == src[..n] + src[n..] && J.Feed(src) == src[..n] + J.Feed(src[n..]);
      }
    }
  }

  lemma {:induction false} SyntaxWellFormed(lead: Bytes, x: Syntax)
    requires White(lead) && Proper(x)
    ensures WellFormed(lead + Spelled(x))
  {
    AsciiWellFormed(lead);
    SpelledWellFormed(x);
    WellFormedConcat(lead, Spelled(x));
  }

  lemma {:induction false} LettersWellFormed(ls: seq<Letter>)
    requires ProperLetters(ls)
    ensures WellFormed(LettersText(ls))
  {
    hide WellFormed, LetterText, ProperLetter;
    NothingEncoded();
    if ls != [] {
      LetterWellFormed(ls[0]);
      LettersWellFormed(ls[1..]);
      WellFormedConcat(LetterText(ls[0]), LettersText(ls[1..]));
    }
  }

  lemma Both(a: Bytes, b: Bytes)
    requires WellFormed(a) && WellFormed(b)
    ensures WellFormed(a + b)
  {
    WellFormedConcat(a, b);
  }

  lemma QuotesWellFormed(ls: seq<Letter>)
    requires ProperLetters(ls)
    ensures WellFormed(Quotes(ls))
  {
    hide WellFormed, LettersText;
    LettersWellFormed(ls);
    AsciiWellFormed(Ascii("\""));
    Both(Ascii("\""), LettersText(ls));
    Both(Ascii("\"") + LettersText(ls), Ascii("\""));
  }

  lemma BracketsWellFormed(c: Byte, body: Bytes, d: Byte)
    requires c < 0x80 && d < 0x80 && WellFormed(body)
    ensures WellFormed([c] + body + [d])
  {
    hide WellFormed;
    AsciiWellFormed([c]);
    AsciiWellFormed([d]);
    Both([c], body);
    Both([c] + body, [d]);
  }

  lemma WordWellFormed(x: Syntax)
    requires Proper(x) && (x.Name? || x.Number?)
    ensures WellFormed(Spelled(x))
  {
    hide WellFormed, DigitsText, NameText;
    match x
    case Name(name, nul) =>
      KeywordBytes();
      NameAscii(name);
      AsciiWellFormed(NameText(name));
      AsciiWellFormed(Skipped(nul));
      Both(NameText(name), Skipped(nul));
    case Number(minus, ds, nul) =>
      DigitsAre(ds);
      AsciiWellFormed(DigitsText(ds));
      AsciiWellFormed(Skipped(nul));
      AsciiWellFormed(if minus then Ascii("-") else []);
      Both(if minus then Ascii("-") else [], DigitsText(ds));
      Both((if minus then Ascii("-") else []) + DigitsText(ds), Skipped(nul));
  }

  lemma NameAscii(name: Keyword)
    ensures forall k :: 0 <= k < |NameText(name)| ==> NameText(name)[k] < 0x80
  {
    KeywordBytes();
  }

  lemma {:induction false} SpelledWellFormed(x: Syntax)
    requires Proper(x)
    ensures WellFormed(Spelled(x))
    decreases x
  {
    hide WellFormed, Quotes, ItemsText, MembersText, Ascii, White;
    Marks();
    match x
    case Name(_, _) => WordWellFormed(x);
    case Number(_, _, _) => WordWellFormed(x);
    case Text(ls) => QuotesWellFormed(ls);
    case EmptyArray(white) =>
      WhiteWellFormed(white);
      BracketsWellFormed(J.OPEN_ARRAY, white, J.CLOSE_ARRAY);
    case EmptyObject(white) =>
      WhiteWellFormed(white);
      BracketsWellFormed(J.OPEN_OBJECT, white, J.CLOSE_OBJECT);
    case Array(items) =>
      ItemsWellFormed(items);
      BracketsWellFormed(J.OPEN_ARRAY, ItemsText(items), J.CLOSE_ARRAY);
    case Object(members) =>
      MembersWellFormed(members);
      BracketsWellFormed(J.OPEN_OBJECT, MembersText(members), J.CLOSE_OBJECT);
  }

  lemma WhiteWellFormed(white: Bytes)
    requires White(white)
    ensures WellFormed(white)
  {
    AsciiWellFormed(white);
  }

  lemma {:induction false} ItemsWellFormed(xs: Items)
    requires ProperItems(xs)
    ensures WellFormed(ItemsText(xs))
    decreases xs
  {
    hide WellFormed, Spelled;
    AsciiWellFormed(xs.before);
    AsciiWellFormed(xs.after);
    AsciiWellFormed(Ascii(","));
    NothingEncoded();
    SpelledWellFormed(xs.value);
    Both(xs.before, Spelled(xs.value));
    Both(xs.before + Spelled(xs.value), xs.after);
    if xs.Items? {
      ItemsWellFormed(xs.more);
      Both(Ascii(","), ItemsText(xs.more));
    }
    Both(xs.before + Spelled(xs.value) + xs.after, if xs.Item? then [] else Ascii(",") + ItemsText(xs.more));
  }

  /** Six parts, one after the other. */
  lemma AllSix(a: Bytes, b: Bytes, c: Bytes, d: Bytes, e: Bytes, g: Bytes)
    requires WellFormed(a) && WellFormed(b) && WellFormed(c) && WellFormed(d) && WellFormed(e) && WellFormed(g)
    ensures WellFormed(a + b + c + d + e + g)
  {
    hide WellFormed;
    Both(a, b);
    Both(a + b, c);
    Both(a + b + c, d);
    Both(a + b + c + d, e);
    Both(a + b + c + d + e, g);
  }

  lemma {:induction false} MembersWellFormed(xs: Members)
    requires ProperMembers(xs)
    ensures WellFormed(MembersText(xs))
    decreases xs
  {
    hide WellFormed, Spelled, Quotes, MembersText;
    var more := if xs.Member? then [] else [J.COMMA] + MembersText(xs.more);
    AsciiWellFormed(xs.before);
    AsciiWellFormed(xs.left);
    AsciiWellFormed([J.COLON]);
    AsciiWellFormed(xs.right);
    AsciiWellFormed(xs.after);
    AsciiWellFormed([J.COMMA]);
    NothingEncoded();
    QuotesWellFormed(xs.name);
    SpelledWellFormed(xs.value);
    if xs.Members? {
      MembersWellFormed(xs.more);
      Both([J.COMMA], MembersText(xs.more));
    }
    MembersHead(xs);
    AllSix(xs.before, Quotes(xs.name), xs.left, [J.COLON], xs.right, Spelled(xs.value));
    var head := xs.before + Quotes(xs.name) + xs.left + [J.COLON] + xs.right + Spelled(xs.value);
    Both(head, xs.after);
    Both(head + xs.after, more);
  }

  /** The end-of-input check: nothing but white space is left, and the input was well formed. */
  lemma EndOfInput(rest: Bytes, bad: bool)
    ensures J.Scan(rest, bad).0 == J.Eof <==> White(rest) && !bad
  {
    var lead := SpaceOf(rest);
    if White(rest) {
      WhiteSkipped(rest, [], bad);
      assert rest + [] == rest;
    } else {
      assert J.SkipSpace(rest) != [] by { assert lead + [] == lead; }
    }
  }

  /** The first byte delivered after a text is the first byte behind it, unless that is not ASCII. */
  lemma StillClean(x: Syntax, rest: Bytes)
    ensures EndsClean(x, rest) <==> EndsClean(x, J.Feed(rest))
  {
    FeedStops(rest);
  }

  /** Every text of the grammar is parsed to its value, if the limits admit it, and otherwise rejected. */
  lemma TextParses(src: Bytes, m: J.Mode, lead: Bytes, x: Syntax, rest: Bytes)
    requires White(lead) && Proper(x) && src == lead + Spelled(x) + rest && EndsClean(x, rest)
    ensures J.ParseJson(src, m) ==
      if (m.decodeAny || x.EmptyArray? || x.Array? || x.EmptyObject? || x.Object?) && Within(x, 0, m) &&
         (m.disableEofCheck || White(rest))
      then Some(ValueOf(x, true)) else None
  {
    hide WellFormed, J.Scan, Spelled, EndsClean, J.ParseValue, White, J.Feed;
    var s, more := J.Feed(src), J.Feed(rest);
    var bad := |s| < |src|;
    SyntaxWellFormed(lead, x);
    FeedOver(lead + Spelled(x), rest);
    Joined(lead, Spelled(x), more);
    StillClean(x, rest);
    WhiteSkipped(lead, Spelled(x) + more, bad);
    SyntaxReads(x, more, bad, 0, m);
    EndOfInput(more, bad);
    WhiteDelivered(rest);
  }

  lemma WhiteDelivered(rest: Bytes)
    ensures White(rest) <==> White(J.Feed(rest)) && |J.Feed(rest)| == |rest|
  {
    FeedStops(rest);
    if White(rest) {
      AsciiWellFormed(rest);
      R.FeedWhole(rest);
    } else if |J.Feed(rest)| == |rest| {
      assert J.Feed(rest) == rest;
    }
  }

  /** What the parser accepts is a text of the grammar. */
  lemma ParsedSpelled(src: Bytes, m: J.Mode) returns (lead: Bytes, x: Syntax, rest: Bytes)
    requires J.ParseJson(src, m).Some?
    ensures White(lead) && Proper(x) && src == lead + Spelled(x) + rest && EndsClean(x, rest)
  {
    hide WellFormed, J.Scan, Spelled, EndsClean, White, J.ParseValue, J.Feed;
    var s := J.Feed(src);
    var bad := |s| < |src|;
    P.FeedWellFormed(src);
    FeedStops(src);
    lead, x := ValueSpelled(s, bad, 0, m);
    var (tok, r) := J.Scan(s, bad);
    var left := J.ParseValue(tok, r, bad, 0, m).rest;
    var u := src[|s|..];
    rest := left + u;
    assert src == s + u;
    assert lead + (Spelled(x) + left) + u == lead + Spelled(x) + rest;
    CleanBefore(x, left, u);
  }

  lemma CleanBefore(x: Syntax, left: Bytes, u: Bytes)
    requires EndsClean(x, left) && (u != [] ==> u[0] >= 0x80)
    ensures EndsClean(x, left + u)
  {
  }

  /** The parser returns a value exactly for the inputs that stand for it: every flag and every limit included. */
  lemma ParsesIffStandsFor(src: Bytes, m: J.Mode, v: J.Value)
    ensures J.ParseJson(src, m) == Some(v) <==> StandsFor(src, m, v)
  {
    hide J.ParseJson, Spelled, EndsClean, White;
    if J.ParseJson(src, m) == Some(v) {
      var lead, x, rest := ParsedSpelled(src, m);
      TextParses(src, m, lead, x, rest);
      assert Reading(src, m, v, lead, x, rest);
    }
    if StandsFor(src, m, v) {
      var lead, x, rest :| Reading(src, m, v, lead, x, rest);
      TextParses(src, m, lead, x, rest);
    }
  }
}
