/** The printer and the parser, one after the other. */
module JsonEndToEnd {
  // Both as they run: json_dumps and json_loads.

  import opened Options
  import opened Utf8
  import opened JsonString
  import opened JsonText
  import opened JsonDump
  import opened JsonGraph
  import opened JsonRoundTrip
  import JsonGrammar
  import JsonGrammarSound
  import JsonParser

  /** What the parser's limits let come back of a value. */
  ghost function Reloaded(v: Value, m: Mode): Option<Value> {
    if RootAllowed(v, m) && Fits(v, 0, m) then Some(Saturated(v)) else None
  }

  lemma Reloads(v: Value, f: Flags, m: Mode)
    requires Legal(v)
    ensures 0 !in Print(v, f, 0) && ParseJson(Print(v, f, 0), m) == Reloaded(v, m) &&
      (Reloaded(v, m) == Some(v) <==> InLimits(v, m))
  {
    hide Print, ParseJson, InLimits, Legal, Fits, Saturated;
    PrintPlain(v, f, 0);
    ParsePrinted(v, f, m);
    RoundTripIffInLimits(v, f, m);
  }

  /** json_dumps from clear flags, when the buffer it collects the text in never fails. */
  method Dumps(root: Json?, encodeAny: bool, f: Flags, ghost g: set<Json>) returns (text: Option<Bytes>)
    requires Graph(g) && Visited(g) == {} && (root != null ==> root in g)
    modifies g`visited
    ensures Visited(g) == {}
    ensures text.Some? <==> Accepted(root, encodeAny, g)
    ensures text.Some? && Legal(ValueOf(root, {}, g)) ==> text.value == Print(ValueOf(root, {}, g), f, 0)
  {
    hide Graph, Accepted, Print, Legal, Sink.Sticky;
    var sink := new Sink((written, refused, chunk) => true);
    var rc := DumpCallback(root, encodeAny, f, sink, g);
    return if rc == 0 then Some(sink.out) else None;
  }

  /** A C string ends before its first NUL. */
  function UpToNul(text: Bytes): (s: Bytes)
    ensures s <= text && 0 !in s && (s == text <==> 0 !in text)
  {
    if text == [] || text[0] == 0 then [] else [text[0]] + UpToNul(text[1..])
  }

  /** json_loads: it returns v if and only if the bytes before the first NUL are a JSON text for v. */
  method Loads(text: Bytes, m: Mode) returns (result: Option<Value>)
    ensures result == ParseJson(UpToNul(text), m)
    ensures forall v :: result == Some(v) <==> JsonGrammar.StandsFor(UpToNul(text), m, v)
  {
    hide ParseJson, JsonGrammar.StandsFor;
    var lexer := new JsonParser.Lexer(UpToNul(text), m);
    result := lexer.ParseJson();
    forall v ensures result == Some(v) <==> JsonGrammar.StandsFor(UpToNul(text), m, v) {
      JsonGrammarSound.ParsesIffStandsFor(UpToNul(text), m, v);
    }
  }

  /**
    json_dumps, then json_loads of the text, on any graph whose flags are clear: there is no text
    exactly if the root is refused, or a container on a cycle or an ill-formed string value is in
    reach. If the keys are legal too, what comes back is the value the graph unfolds to if and only
    if that keeps to the parser's limits.
  */
  method DumpsThenLoads(root: Json?, encodeAny: bool, f: Flags, m: Mode, ghost g: set<Json>)
    returns (text: Option<Bytes>, result: Option<Value>)
    requires Graph(g) && Visited(g) == {} && (root != null ==> root in g)
    modifies g`visited
    ensures Visited(g) == {}
    ensures text.Some? <==> Accepted(root, encodeAny, g)
    ensures text.Some? && Legal(ValueOf(root, {}, g)) ==>
      0 !in text.value && result == Reloaded(ValueOf(root, {}, g), m) &&
      (result == Some(ValueOf(root, {}, g)) <==> InLimits(ValueOf(root, {}, g), m))
  {
    hide Graph, ReachesCycle, ReachesIllFormed, Clean, Unfold, Print, Legal, ParseJson, Reloaded, InLimits;
    text := Dumps(root, encodeAny, f, g);
    result := None;
    if text.Some? {
      ghost var v := ValueOf(root, {}, g);
      if Legal(v) { Reloads(v, f, m); }
      result := Loads(text.value, m);
    }
  }
}
