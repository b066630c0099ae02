/** The printer writes texts of the grammar. */
module JsonPrinted {
  import opened Options
  import opened OrderedMap
  import opened Utf8
  import opened JsonGrammar
  import opened JsonGrammarReads
  import S = JsonString
  import J = JsonText

  // ---- which way of writing a thing the printer chooses ----

  /** Hexadecimal letters are upper case. */
  predicate Upper(ds: seq<Hex>) {
    forall k :: 0 <= k < |ds| ==> ds[k].upper
  }

  /** A character stands for itself unless JSON or a flag forbids it; else it has its short escape, or four digits. */
  predicate ChosenLetter(l: Letter, f: S.Flags)
    requires ProperLetter(l)
  {
    match l
    case Plain(v) => (f.escapeSlash ==> v != 0x2F) && (f.ensureAscii ==> v < 0x80)
    case Short(index) => SHORT[index] == '/' ==> f.escapeSlash
    case Unit(ds) =>
      var v := HexNumber(ds);
      Upper(ds) && v !in MEANT && (v < 0x20 || (f.ensureAscii && v >= 0x80))
    case Pair(h, l) => Upper(h) && Upper(l) && f.ensureAscii
  }

  predicate ChosenLetters(ls: seq<Letter>, f: S.Flags)
    requires ProperLetters(ls)
  {
    forall k :: 0 <= k < |ls| ==> ChosenLetter(ls[k], f)
  }

  predicate Chosen(x: Syntax, f: S.Flags)
    requires Proper(x)
  {
    match x
    case Name(_, nul) => !nul
    case Number(minus, ds, nul) => !nul && (minus ==> Positional(ds) > 0)
    case Text(ls) => ChosenLetters(ls, f)
    case EmptyArray(white) => white == []
    case Array(items) => ChosenItems(items, f)
    case EmptyObject(white) => white == []
    case Object(members) => ChosenMembers(members, f)
  }

  predicate ChosenItems(xs: Items, f: S.Flags)
    requires ProperItems(xs)
  {
    Chosen(xs.value, f) && (xs.Items? ==> ChosenItems(xs.more, f))
  }

  predicate ChosenMembers(xs: Members, f: S.Flags)
    requires ProperMembers(xs)
  {
    ChosenLetters(xs.name, f) && Chosen(xs.value, f) && (xs.Members? ==> ChosenMembers(xs.more, f))
  }

  // ---- strings and numbers ----

  lemma HexWritten(v: nat) returns (ds: seq<Hex>)
    requires v < 0x10000
    ensures ProperHex(ds) && HexText(ds) == S.Hex4(v) && HexNumber(ds) == v && Upper(ds)
  {
    ds := [Hex(v / 0x1000, true), Hex(v / 0x100 % 0x10, true), Hex(v / 0x10 % 0x10, true), Hex(v % 0x10, true)];
    HexSame(v, ds);
    HexTextReads(ds);
    S.Hex4RoundTrip(v);
  }

  lemma HexSame(v: nat, ds: seq<Hex>)
    requires v < 0x10000
    requires ds == [Hex(v / 0x1000, true), Hex(v / 0x100 % 0x10, true), Hex(v / 0x10 % 0x10, true), Hex(v % 0x10, true)]
    ensures ProperHex(ds) && HexText(ds) == S.Hex4(v)
  {
    hide S.HexDigit;
    UpperDigit(ds[0].value);
    UpperDigit(ds[1].value);
    UpperDigit(ds[2].value);
    UpperDigit(ds[3].value);
  }

  lemma UpperDigit(d: nat)
    requires d < 0x10
    ensures Code(UPPER[d]) == S.HexDigit(d)
  {
  }

  lemma UnitWritten(v: nat) returns (ds: seq<Hex>)
    requires v < 0x10000
    ensures ProperHex(ds) && Upper(ds) && HexNumber(ds) == v && Ascii("\\u") + HexText(ds) == S.UnicodeEscape(v)
  {
    ds := HexWritten(v);
    assert Ascii("\\u") == [S.BACKSLASH, S.LETTER_U];
  }

  lemma ShortWritten(v: ScalarValue) returns (index: nat)
    requires S.ShortEscape(v).Some?
    ensures index < |SHORT| && MEANT[index] == v && Code(SHORT[index]) == S.ShortEscape(v).value
  {
    index := if v == 0x22 then 0 else if v == 0x5C then 1 else if v == 0x2F then 2 else if v == 0x08 then 3
      else if v == 0x0C then 4 else if v == 0x0A then 5 else if v == 0x0D then 6 else 7;
  }

  lemma LetterWritten(v: ScalarValue, f: S.Flags) returns (l: Letter)
    ensures ProperLetter(l) && LetterText(l) == S.CharText(v, f) && LetterMeaning(l) == v && ChosenLetter(l, f)
  {
    hide Encode, S.UnicodeEscape, HexText, HexNumber;
    if !S.MustEscape(v, f) {
      l := Plain(v);
    } else if S.ShortEscape(v).Some? {
      var index := ShortWritten(v);
      l := Short(index);
    } else if v < 0x10000 {
      var ds := UnitWritten(v);
      l := Unit(ds);
    } else {
      S.SurrogatePair(v);
      var h := UnitWritten(0xD800 + (v - 0x10000) / 0x400);
      var w := UnitWritten(0xDC00 + (v - 0x10000) % 0x400);
      l := Pair(h, w);
      assert LetterText(l) == Ascii("\\u") + HexText(h) + (Ascii("\\u") + HexText(w));
    }
  }

  lemma {:induction false} LettersWritten(vs: seq<ScalarValue>, f: S.Flags) returns (ls: seq<Letter>)
    ensures ProperLetters(ls) && LettersText(ls) == S.Escape(vs, f) && Meaning(ls) == vs && ChosenLetters(ls, f)
  {
    hide LetterText, LetterMeaning, S.CharText, ProperLetter, ChosenLetter;
    if vs == [] {
      ls := [];
    } else {
      var l := LetterWritten(vs[0], f);
      var more := LettersWritten(vs[1..], f);
      ls := [l] + more;
      assert ls[1..] == more;
    }
  }

  lemma QuotedWritten(text: Bytes, f: S.Flags) returns (ls: seq<Letter>)
    requires WellFormed(text)
    ensures ProperLetters(ls) && Quotes(ls) == J.Quoted(text, f) && TextOf(ls) == text && ChosenLetters(ls, f)
  {
    hide LettersText, S.Escape, EncodeAll, WellFormed;
    ls := LettersWritten(ScalarsOf(text), f);
    assert Ascii("\"") == [S.QUOTE];
  }

  lemma {:induction false} DecimalWritten(n: nat) returns (ds: seq<nat>)
    ensures ProperDigits(ds) && DigitsText(ds) == J.Decimal(n) && Positional(ds) == n
    ensures n > 0 ==> ds[0] != 0
  {
    if n < 10 {
      ds := [n];
      DigitsAre(ds);
      assert ds[..0] == [];
    } else {
      var front := DecimalWritten(n / 10);
      ds := front + [n % 10];
      DigitsAre(front);
      DigitsAre(ds);
      assert ds[..|ds| - 1] == front;
      assert DigitsText(ds) == DigitsText(front) + [0x30 + n % 10];
    }
  }

  /** Integers are written in decimal, without a leading zero and without minus zero. */
  lemma IntegerWritten(n: int) returns (x: Syntax)
    ensures x.Number? && Proper(x) && Spelled(x) == J.PrintInteger(n) && ValueOf(x, false) == J.Integer(n)
    ensures !x.nul && (x.minus ==> Positional(x.digits) > 0)
  {
    var ds := DecimalWritten(if n < 0 then -n else n);
    x := Number(n < 0, ds, false);
    assert Ascii("-") == [J.MINUS];
  }

  // ---- values ----

  /** x is how the printer writes v. */
  ghost predicate Writes(x: Syntax, v: J.Value, f: S.Flags, depth: nat)
    requires J.Legal(v)
  {
    Proper(x) && Spelled(x) == J.Print(v, f, depth) && ValueOf(x, false) == v && Chosen(x, f)
  }

  lemma IndentWhite(f: S.Flags, depth: nat, space: bool)
    ensures White(J.Indent(f, depth, space))
  {
  }

  lemma {:induction false} PrintWritten(v: J.Value, f: S.Flags, depth: nat) returns (x: Syntax)
    requires J.Legal(v)
    ensures Writes(x, v, f, depth)
    decreases v
  {
    match v
    case Null => x := NameWritten(v, f, depth);
    case True => x := NameWritten(v, f, depth);
    case False => x := NameWritten(v, f, depth);
    case Integer(n) => x := IntegerWritten(n);
    case String(text) =>
      var ls := QuotedWritten(text, f);
      x := Text(ls);
    case Array(items) =>
      Marks();
      if items == [] {
        x := EmptyArray([]);
        assert [J.OPEN_ARRAY] + [] + [J.CLOSE_ARRAY] == [J.OPEN_ARRAY, J.CLOSE_ARRAY];
      } else {
        IndentWhite(f, depth + 1, false);
        var xs := ItemsWritten(v, 0, f, depth, J.Indent(f, depth + 1, false));
        x := ArrayWritten(v, xs, f, depth);
      }
    case Object(members) =>
      Marks();
      if members == [] {
        x := EmptyObject([]);
        assert [J.OPEN_OBJECT] + [] + [J.CLOSE_OBJECT] == [J.OPEN_OBJECT, J.CLOSE_OBJECT];
      } else {
        IndentWhite(f, depth + 1, false);
        var xs := MembersWritten(v, 0, f, depth, J.Indent(f, depth + 1, false));
        x := ObjectWritten(v, xs, f, depth);
      }
  }

  lemma NameWritten(v: J.Value, f: S.Flags, depth: nat) returns (x: Syntax)
    requires v.Null? || v.True? || v.False?
    ensures Writes(x, v, f, depth)
  {
    KeywordBytes();
    x := Name(if v.Null? then NullName else if v.True? then TrueName else FalseName, false);
    assert Spelled(x) == NameText(x.name);
  }

  lemma ArrayText(xs: Items, body: Bytes)
    requires ProperItems(xs) && ItemsText(xs) + [J.CLOSE_ARRAY] == body
    ensures Spelled(Array(xs)) == [J.OPEN_ARRAY] + body
  {
    hide ItemsText;
    Marks();
    Joined([J.OPEN_ARRAY], ItemsText(xs), [J.CLOSE_ARRAY]);
  }

  lemma PrintArray(v: J.Value, f: S.Flags, depth: nat)
    requires J.Legal(v) && v.Array? && v.items != []
    ensures J.Print(v, f, depth) == [J.OPEN_ARRAY] + (J.Indent(f, depth + 1, false) + J.PrintItems(v, 0, f, depth))
  {
    hide J.Indent, J.PrintItems;
    Joined([J.OPEN_ARRAY], J.Indent(f, depth + 1, false), J.PrintItems(v, 0, f, depth));
  }

  lemma ArrayWritten(v: J.Value, xs: Items, f: S.Flags, depth: nat) returns (x: Syntax)
    requires J.Legal(v) && v.Array? && v.items != [] && WritesItems(xs, v, 0, f, depth, J.Indent(f, depth + 1, false))
    ensures Writes(x, v, f, depth)
  {
    hide ItemsText, J.PrintItems, J.Print, Spelled, J.Indent, ValuesOf, ChosenItems, J.Legal;
    x := Array(xs);
    ArrayText(xs, J.Indent(f, depth + 1, false) + J.PrintItems(v, 0, f, depth));
    PrintArray(v, f, depth);
    assert v.items[0..] == v.items;
  }

  lemma ObjectText(xs: Members, body: Bytes)
    requires ProperMembers(xs) && MembersText(xs) + [J.CLOSE_OBJECT] == body
    ensures Spelled(Object(xs)) == [J.OPEN_OBJECT] + body
  {
    hide MembersText;
    Marks();
    Joined([J.OPEN_OBJECT], MembersText(xs), [J.CLOSE_OBJECT]);
  }

  lemma PrintObject(v: J.Value, f: S.Flags, depth: nat)
    requires J.Legal(v) && v.Object? && v.members != []
    ensures J.Print(v, f, depth) == [J.OPEN_OBJECT] + (J.Indent(f, depth + 1, false) + J.PrintMembers(v, 0, f, depth))
  {
    hide J.Indent, J.PrintMembers;
    Joined([J.OPEN_OBJECT], J.Indent(f, depth + 1, false), J.PrintMembers(v, 0, f, depth));
  }

  lemma LegalKeys(v: J.Value)
    requires J.Legal(v) && v.Object?
    ensures DistinctKeys([] + v.members) && v.members[0..] == v.members && [] + v.members == v.members
  {
    assert [] + v.members == v.members;
  }

  lemma ObjectWritten(v: J.Value, xs: Members, f: S.Flags, depth: nat) returns (x: Syntax)
    requires J.Legal(v) && v.Object? && v.members != []
    requires WritesMembers(xs, v, 0, f, depth, J.Indent(f, depth + 1, false))
    ensures Writes(x, v, f, depth)
  {
    hide MembersText, J.PrintMembers, J.Print, Spelled, J.Indent, PairsOf, ChosenMembers, J.Legal, DistinctKeys,
      Collapse;
    x := Object(xs);
    ObjectText(xs, J.Indent(f, depth + 1, false) + J.PrintMembers(v, 0, f, depth));
    PrintObject(v, f, depth);
    LegalKeys(v);
    CollapseDistinct([], v.members);
  }

  lemma {:induction false} CollapseDistinct(seen: Entries<Bytes, J.Value>, ps: Entries<Bytes, J.Value>)
    requires DistinctKeys(seen + ps)
    ensures Collapse(seen, ps) == seen + ps
    decreases |ps|
  {
    if ps != [] {
      var es := seen + ps;
      assert !Has(seen, ps[0].key) by {
        assert es[|seen|] == ps[0] && forall i :: 0 <= i < |seen| ==> es[i] == seen[i];
      }
      SetMissing(seen, ps[0].key, ps[0].value);
      assert seen + [ps[0]] + ps[1..] == es;
      CollapseDistinct(seen + [ps[0]], ps[1..]);
    }
  }

  /** xs is how the printer writes the elements from the i-th on, after the white space `before`. */
  ghost predicate WritesItems(xs: Items, v: J.Value, i: nat, f: S.Flags, depth: nat, before: Bytes)
    requires J.Legal(v) && v.Array? && i < |v.items|
  {
    ProperItems(xs) && ItemsText(xs) + [J.CLOSE_ARRAY] == before + J.PrintItems(v, i, f, depth) &&
    ValuesOf(xs, false) == v.items[i..] && ChosenItems(xs, f)
  }

  lemma {:induction false} ItemsWritten(v: J.Value, i: nat, f: S.Flags, depth: nat, before: Bytes) returns (xs: Items)
    requires J.Legal(v) && v.Array? && i < |v.items| && White(before)
    ensures WritesItems(xs, v, i, f, depth, before)
    decreases v, |v.items| - i
  {
    hide J.Print, Spelled;
    var x := PrintWritten(v.items[i], f, depth + 1);
    Marks();
    if i < |v.items| - 1 {
      var gap := J.Indent(f, depth + 1, true);
      IndentWhite(f, depth + 1, true);
      var more := ItemsWritten(v, i + 1, f, depth, gap);
      xs := Items(before, x, [], more);
      ItemsJoined(before, J.Print(v.items[i], f, depth + 1), ItemsText(more), gap, J.PrintItems(v, i + 1, f, depth));
    } else {
      var gap := J.Indent(f, depth, false);
      IndentWhite(f, depth, false);
      xs := Item(before, x, gap);
    }
  }

  lemma ItemsJoined(before: Bytes, p: Bytes, more: Bytes, gap: Bytes, next: Bytes)
    requires more + [J.CLOSE_ARRAY] == gap + next
    ensures before + p + [] + ([J.COMMA] + more) + [J.CLOSE_ARRAY] == before + (p + ([J.COMMA] + gap + next))
  {
    assert before + p + [] + ([J.COMMA] + more) + [J.CLOSE_ARRAY] ==
      before + p + ([J.COMMA] + (more + [J.CLOSE_ARRAY]));
  }

  ghost predicate WritesMembers(xs: Members, v: J.Value, i: nat, f: S.Flags, depth: nat, before: Bytes)
    requires J.Legal(v) && v.Object? && i < |v.members|
  {
    ProperMembers(xs) && MembersText(xs) + [J.CLOSE_OBJECT] == before + J.PrintMembers(v, i, f, depth) &&
    PairsOf(xs, false) == v.members[i..] && ChosenMembers(xs, f)
  }

  function AfterColon(f: S.Flags): Bytes {
    if f.compact then [] else [J.SPACE]
  }

  lemma ColonWhite(f: S.Flags)
    ensures White([]) && White(AfterColon(f))
  {
  }

  lemma {:induction false} MembersWritten(v: J.Value, i: nat, f: S.Flags, depth: nat, before: Bytes)
    returns (xs: Members)
    requires J.Legal(v) && v.Object? && i < |v.members| && White(before)
    ensures WritesMembers(xs, v, i, f, depth, before)
    decreases v, |v.members| - i
  {
    hide J.Print, Spelled, Quotes, J.Quoted, MembersText, DistinctKeys, ChosenLetters, TextOf, ProperLetters, White,
      WellFormed, J.Indent, J.Separator, Chosen, Proper, ValueOf;
    var key, right := v.members[i].key, AfterColon(f);
    ColonWhite(f);
    var ls := QuotedWritten(key, f);
    var x := PrintWritten(v.members[i].value, f, depth + 1);
    if i < |v.members| - 1 {
      var gap := J.Indent(f, depth + 1, true);
      IndentWhite(f, depth + 1, true);
      var more := MembersWritten(v, i + 1, f, depth, gap);
      xs := Members(before, ls, [], right, x, [], more);
      MembersHead(xs);
      MemberJoined(before, Quotes(ls), right, Spelled(x), MembersText(more), gap,
        J.PrintMembers(v, i + 1, f, depth), f);
    } else {
      var gap := J.Indent(f, depth, false);
      IndentWhite(f, depth, false);
      xs := Member(before, ls, [], right, x, gap);
      MembersHead(xs);
      MemberLast(before, Quotes(ls), right, Spelled(x), gap, f);
    }
    assert v.members[i] == Entry(key, v.members[i].value);
  }

  lemma MemberLast(before: Bytes, q: Bytes, right: Bytes, p: Bytes, gap: Bytes, f: S.Flags)
    requires right == AfterColon(f)
    ensures before + q + [] + [J.COLON] + right + p + gap + [] + [J.CLOSE_OBJECT] ==
      before + (q + J.Separator(f) + p + (gap + [J.CLOSE_OBJECT]))
  {
    assert [J.COLON] + right == J.Separator(f);
    assert before + q + [] + [J.COLON] + right + p + gap + [] + [J.CLOSE_OBJECT] ==
      before + q + ([J.COLON] + right) + p + (gap + [J.CLOSE_OBJECT]);
  }

  lemma MemberJoined(before: Bytes, q: Bytes, right: Bytes, p: Bytes, more: Bytes, gap: Bytes, next: Bytes, f: S.Flags)
    requires right == AfterColon(f) && more + [J.CLOSE_OBJECT] == gap + next
    ensures before + q + [] + [J.COLON] + right + p + [] + ([J.COMMA] + more) + [J.CLOSE_OBJECT] ==
      before + (q + J.Separator(f) + p + ([J.COMMA] + gap + next))
  {
    assert [J.COLON] + right == J.Separator(f);
    assert before + q + [] + [J.COLON] + right + p + [] + ([J.COMMA] + more) + [J.CLOSE_OBJECT] ==
      before + q + ([J.COLON] + right) + p + ([J.COMMA] + (more + [J.CLOSE_OBJECT]));
  }

  /** For every value and every flag, what the printer writes is a text of the grammar and stands for that very
      value; and it chooses no escape that is not called for. */
  lemma PrintStandsFor(v: J.Value, f: S.Flags)
    requires J.Legal(v)
    ensures exists x :: Proper(x) && Spelled(x) == J.Print(v, f, 0) && ValueOf(x, false) == v && Chosen(x, f)
  {
    var x := PrintWritten(v, f, 0);
  }
}
