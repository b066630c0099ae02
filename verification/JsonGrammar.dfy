/** The grammar of RFC 8259, as the parser takes it. */
module JsonGrammar {
  import opened Options
  import opened OrderedMap
  import opened Utf8
  import J = JsonText

  /**
    What a text can consist of, one constructor for each way to write a thing. A text stands for a value if it
    is the spelling of a proper `Syntax`. Beside RFC 8259: numbers have no fraction and no exponent, and a
    number or a name swallows one NUL that follows it.
  */
  datatype Syntax =
    | Name(name: Keyword, nul: bool)
    | Number(minus: bool, digits: seq<nat>, nul: bool)
    | Text(letters: seq<Letter>)
    | EmptyArray(white: Bytes)
    | Array(items: Items)
    | EmptyObject(white: Bytes)
    | Object(members: Members)

  datatype Keyword = NullName | TrueName | FalseName

  datatype Items =
    | Item(before: Bytes, value: Syntax, after: Bytes)
    | Items(before: Bytes, value: Syntax, after: Bytes, more: Items)

  datatype Members =
    | Member(before: Bytes, name: seq<Letter>, left: Bytes, right: Bytes, value: Syntax, after: Bytes)
    | Members(before: Bytes, name: seq<Letter>, left: Bytes, right: Bytes, value: Syntax, after: Bytes, more: Members)

  /** A character of a string: itself, a backslash with one of eight letters, or one or two escapes of four digits. */
  datatype Letter =
    | Plain(v: ScalarValue)
    | Short(index: nat)
    | Unit(digits: seq<Hex>)
    | Pair(high: seq<Hex>, low: seq<Hex>)

  datatype Hex = Hex(value: nat, upper: bool)

  // ---- the spelling ----

  function Code(c: char): Byte {
    c as int % 0x100
  }

  function Ascii(s: string): Bytes {
    seq(|s|, i requires 0 <= i < |s| => Code(s[i]))
  }

  const SHORT := "\"\\/bfnrt"
  const MEANT: seq<ScalarValue> := [0x22, 0x5C, 0x2F, 0x08, 0x0C, 0x0A, 0x0D, 0x09]
  const LOWER := "0123456789abcdef"
  const UPPER := "0123456789ABCDEF"

  predicate White(s: Bytes) {
    forall k :: 0 <= k < |s| ==> s[k] == Code(' ') || s[k] == Code('\t') || s[k] == Code('\n') || s[k] == Code('\r')
  }

  predicate ProperHex(ds: seq<Hex>) {
    |ds| == 4 && forall k :: 0 <= k < |ds| ==> ds[k].value < 0x10
  }

  function HexText(ds: seq<Hex>): Bytes
    requires ProperHex(ds)
  {
    seq(4, k requires 0 <= k < 4 => Code(if ds[k].upper then UPPER[ds[k].value] else LOWER[ds[k].value]))
  }

  function HexNumber(ds: seq<Hex>): (v: nat)
    requires ProperHex(ds)
    ensures v < 0x10000
  {
    ds[0].value * 0x1000 + ds[1].value * 0x100 + ds[2].value * 0x10 + ds[3].value
  }

  predicate ProperLetter(l: Letter) {
    match l
    case Plain(v) => v >= 0x20 && v != 0x22 && v != 0x5C
    case Short(index) => index < |SHORT|
    case Unit(ds) => ProperHex(ds) && !(0xD800 <= HexNumber(ds) <= 0xDFFF)
    case Pair(h, l) =>
      ProperHex(h) && ProperHex(l) && 0xD800 <= HexNumber(h) <= 0xDBFF && 0xDC00 <= HexNumber(l) <= 0xDFFF
  }

  predicate ProperLetters(ls: seq<Letter>) {
    forall k :: 0 <= k < |ls| ==> ProperLetter(ls[k])
  }

  function LetterText(l: Letter): Bytes
    requires ProperLetter(l)
  {
    match l
    case Plain(v) => Encode(v)
    case Short(index) => [Code('\\'), Code(SHORT[index])]
    case Unit(ds) => Ascii("\\u") + HexText(ds)
    case Pair(h, l) => Ascii("\\u") + HexText(h) + Ascii("\\u") + HexText(l)
  }

  function LettersText(ls: seq<Letter>): Bytes
    requires ProperLetters(ls)
  {
    if ls == [] then [] else LetterText(ls[0]) + LettersText(ls[1..])
  }

  function Quotes(ls: seq<Letter>): Bytes
    requires ProperLetters(ls)
  {
    Ascii("\"") + LettersText(ls) + Ascii("\"")
  }

  function NameText(name: Keyword): Bytes {
    match name
    case NullName => Ascii("null")
    case TrueName => Ascii("true")
    case FalseName => Ascii("false")
  }

  /** Decimal digits, without a leading zero. */
  predicate ProperDigits(ds: seq<nat>) {
    ds != [] && (forall k :: 0 <= k < |ds| ==> ds[k] < 10) && (|ds| > 1 ==> ds[0] != 0)
  }

  function DigitsText(ds: seq<nat>): Bytes
    requires forall k :: 0 <= k < |ds| ==> ds[k] < 10
  {
    seq(|ds|, k requires 0 <= k < |ds| => Code("0123456789"[ds[k]]))
  }

  function Skipped(nul: bool): Bytes {
    if nul then [0] else []
  }

  predicate Proper(x: Syntax) {
    match x
    case Name(_, _) => true
    case Number(_, ds, _) => ProperDigits(ds)
    case Text(ls) => ProperLetters(ls)
    case EmptyArray(white) => White(white)
    case Array(items) => ProperItems(items)
    case EmptyObject(white) => White(white)
    case Object(members) => ProperMembers(members)
  }

  predicate ProperItems(xs: Items) {
    White(xs.before) && Proper(xs.value) && White(xs.after) && (xs.Items? ==> ProperItems(xs.more))
  }

  predicate ProperMembers(xs: Members) {
    White(xs.before) && ProperLetters(xs.name) && White(xs.left) && White(xs.right) && Proper(xs.value) &&
    White(xs.after) && (xs.Members? ==> ProperMembers(xs.more))
  }

  function Spelled(x: Syntax): Bytes
    requires Proper(x)
  {
    match x
    case Name(name, nul) => NameText(name) + Skipped(nul)
    case Number(minus, ds, nul) => (if minus then Ascii("-") else []) + DigitsText(ds) + Skipped(nul)
    case Text(ls) => Quotes(ls)
    case EmptyArray(white) => Ascii("[") + white + Ascii("]")
    case Array(items) => Ascii("[") + ItemsText(items) + Ascii("]")
    case EmptyObject(white) => Ascii("{") + white + Ascii("}")
    case Object(members) => Ascii("{") + MembersText(members) + Ascii("}")
  }

  function ItemsText(xs: Items): Bytes
    requires ProperItems(xs)
  {
    xs.before + Spelled(xs.value) + xs.after + if xs.Item? then [] else Ascii(",") + ItemsText(xs.more)
  }

  function MembersText(xs: Members): Bytes
    requires ProperMembers(xs)
  {
    xs.before + Quotes(xs.name) + xs.left + Ascii(":") + xs.right + Spelled(xs.value) + xs.after +
    if xs.Member? then [] else Ascii(",") + MembersText(xs.more)
  }

  // ---- the meaning ----

  function LetterMeaning(l: Letter): ScalarValue
    requires ProperLetter(l)
  {
    match l
    case Plain(v) => v
    case Short(index) => MEANT[index]
    case Unit(ds) => HexNumber(ds)
    case Pair(h, l) => 0x10000 + (HexNumber(h) - 0xD800) * 0x400 + (HexNumber(l) - 0xDC00)
  }

  function Meaning(ls: seq<Letter>): seq<ScalarValue>
    requires ProperLetters(ls)
  {
    if ls == [] then [] else [LetterMeaning(ls[0])] + Meaning(ls[1..])
  }

  /** The UTF-8 text that a string stands for. */
  function TextOf(ls: seq<Letter>): Bytes
    requires ProperLetters(ls)
  {
    EncodeAll(Meaning(ls))
  }

  function Positional(ds: seq<nat>): nat {
    if ds == [] then 0 else Positional(ds[..|ds| - 1]) * 10 + ds[|ds| - 1]
  }

  /** The nearest number that a 32-bit word holds. */
  function Word(n: int): int {
    if n < -0x8000_0000 then -0x8000_0000 else if n > 0x7FFF_FFFF then 0x7FFF_FFFF else n
  }

  /** The members set one after the other into a table: a later one with the same name takes the place of an earlier. */
  function Collapse(seen: Entries<Bytes, J.Value>, ps: Entries<Bytes, J.Value>): Entries<Bytes, J.Value>
    decreases |ps|
  {
    if ps == [] then seen else Collapse(Set(seen, ps[0].key, ps[0].value), ps[1..])
  }

  /** The value a text stands for; `word` if integers are cut to a 32-bit word. */
  function ValueOf(x: Syntax, word: bool): J.Value
    requires Proper(x)
  {
    match x
    case Name(name, _) => (match name case NullName => J.Null case TrueName => J.True case FalseName => J.False)
    case Number(minus, ds, _) =>
      var n := (if minus then -1 else 1) * Positional(ds);
      J.Integer(if word then Word(n) else n)
    case Text(ls) => J.String(TextOf(ls))
    case EmptyArray(_) => J.Array([])
    case Array(items) => J.Array(ValuesOf(items, word))
    case EmptyObject(_) => J.Object([])
    case Object(members) => J.Object(Collapse([], PairsOf(members, word)))
  }

  function ValuesOf(xs: Items, word: bool): (vs: seq<J.Value>)
    requires ProperItems(xs)
  {
    [ValueOf(xs.value, word)] + if xs.Item? then [] else ValuesOf(xs.more, word)
  }

  /** The members as they are written, names and values. */
  function PairsOf(xs: Members, word: bool): Entries<Bytes, J.Value>
    requires ProperMembers(xs)
  {
    [Entry(TextOf(xs.name), ValueOf(xs.value, word))] + if xs.Member? then [] else PairsOf(xs.more, word)
  }

  // ---- the limits ----

  /** What the parser's flags and limits admit, below a nesting depth: 2048 levels, NUL in texts only if allowed,
      none in names, and repeated names unless they are rejected. */
  predicate Within(x: Syntax, depth: nat, m: J.Mode)
    requires Proper(x)
  {
    depth < 2048 &&
    match x
    case Text(ls) => m.allowNul || 0 !in TextOf(ls)
    case Array(items) => ItemsWithin(items, depth + 1, m)
    case Object(members) => MembersWithin(members, depth + 1, m) && NamesWithin(members, {}, m)
    case _ => true
  }

  predicate ItemsWithin(xs: Items, depth: nat, m: J.Mode)
    requires ProperItems(xs)
  {
    Within(xs.value, depth, m) && (xs.Items? ==> ItemsWithin(xs.more, depth, m))
  }

  predicate MembersWithin(xs: Members, depth: nat, m: J.Mode)
    requires ProperMembers(xs)
  {
    Within(xs.value, depth, m) && (xs.Members? ==> MembersWithin(xs.more, depth, m))
  }

  /** No name has a NUL; if repetitions are rejected, no name is one of `seen` or of the names before it. */
  predicate NamesWithin(xs: Members, seen: set<Bytes>, m: J.Mode)
    requires ProperMembers(xs)
  {
    0 !in TextOf(xs.name) && (m.rejectDuplicates ==> TextOf(xs.name) !in seen) &&
    (xs.Members? ==> NamesWithin(xs.more, seen + {TextOf(xs.name)}, m))
  }

  /** What follows a number or a name is not more of it. */
  predicate EndsClean(x: Syntax, rest: Bytes) {
    rest != [] ==>
      var c := rest[0];
      match x
      case Name(_, nul) => nul || (c != 0 && !(Code('A') <= c <= Code('Z')) && !(Code('a') <= c <= Code('z')))
      case Number(_, _, nul) =>
        nul || (c != 0 && !(Code('0') <= c <= Code('9')) && c != Code('.') && c != Code('e') && c != Code('E'))
      case _ => true
  }

  /**
    The input is white space, the text of the value v, and a trailer: white space only, unless the end-of-input
    check is off. The root is an array or an object, unless any value is allowed.
  */
  ghost predicate Reading(src: Bytes, m: J.Mode, v: J.Value, lead: Bytes, x: Syntax, rest: Bytes) {
    White(lead) && Proper(x) && src == lead + Spelled(x) + rest && EndsClean(x, rest) &&
    (m.decodeAny || x.EmptyArray? || x.Array? || x.EmptyObject? || x.Object?) &&
    (m.disableEofCheck || White(rest)) && Within(x, 0, m) && v == ValueOf(x, true)
  }

  /** The input is a JSON text for v. */
  ghost predicate StandsFor(src: Bytes, m: J.Mode, v: J.Value) {
    exists lead, x, rest :: Reading(src, m, v, lead, x, rest)
  }

  // ---- repeated names ----

  /** The value of the last pair with a given name. */
  function LastValue(ps: Entries<Bytes, J.Value>, key: Bytes): Option<J.Value> {
    if ps == [] then None
    else if ps[|ps| - 1].key == key then Some(ps[|ps| - 1].value)
    else LastValue(ps[..|ps| - 1], key)
  }

  /** The names in the order in which they first appear. */
  function FirstNames(ps: Entries<Bytes, J.Value>): seq<Bytes> {
    if ps == [] then []
    else
      var ks := FirstNames(ps[..|ps| - 1]);
      if ps[|ps| - 1].key in ks then ks else ks + [ps[|ps| - 1].key]
  }

  lemma {:induction false} CollapseAppend(seen: Entries<Bytes, J.Value>, ps: Entries<Bytes, J.Value>, k: Bytes,
                                          v: J.Value)
    ensures Collapse(seen, ps + [Entry(k, v)]) == Set(Collapse(seen, ps), k, v)
    decreases |ps|
  {
    if ps == [] {
      assert ps + [Entry(k, v)] == [Entry(k, v)] && [Entry(k, v)][1..] == [];
    } else {
      assert (ps + [Entry(k, v)])[1..] == ps[1..] + [Entry(k, v)];
      CollapseAppend(Set(seen, ps[0].key, ps[0].value), ps[1..], k, v);
    }
  }

  /** Of members with the same name the last one wins, and each name keeps its first place. */
  lemma {:induction false} LastWins(ps: Entries<Bytes, J.Value>)
    ensures DistinctKeys(Collapse([], ps)) && Keys(Collapse([], ps)) == FirstNames(ps)
    ensures forall k :: Get(Collapse([], ps), k) == LastValue(ps, k)
  {
    if ps != [] {
      var front, last := ps[..|ps| - 1], ps[|ps| - 1];
      var es := Collapse([], front);
      LastWins(front);
      assert front + [last] == ps;
      CollapseAppend([], front, last.key, last.value);
      forall k ensures Get(Set(es, last.key, last.value), k) == if k == last.key then Some(last.value) else Get(es, k) {
        GetAfterSet(es, last.key, last.value, k);
      }
      GetAfterSet(es, last.key, last.value, last.key);
      KeyOrderAfterSet(es, last.key, last.value);
      KeysHave(es, last.key);
    }
  }

  lemma KeysHave(es: Entries<Bytes, J.Value>, k: Bytes)
    ensures k in Keys(es) <==> Has(es, k)
  {
    if Has(es, k) {
      var i :| 0 <= i < |es| && es[i].key == k;
      assert Keys(es)[i] == k;
    }
  }
}
