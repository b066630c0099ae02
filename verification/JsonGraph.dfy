/** do_dump on a graph of shared and possibly cyclic containers, with its visited flags. */
module JsonGraph {
  import opened OrderedMap
  import opened Utf8
  import opened JsonString
  import opened JsonText
  import opened JsonDump

  datatype Shape =
    | NullNode
    | TrueNode
    | FalseNode
    | IntegerNode(n: int)
    | StringNode(text: Bytes)
    | ArrayNode(items: seq<Json>)
    | ObjectNode(members: Entries<Bytes, Json>)

  class Json {
    var shape: Shape
    var visited: bool

    constructor (shape: Shape)
      ensures this.shape == shape && !visited
    {
      this.shape := shape;
      visited := false;
    }
  }

  predicate IsContainer(n: Json)
    reads n`shape
  {
    n.shape.ArrayNode? || n.shape.ObjectNode?
  }

  /** The elements of a container, in order. */
  function Children(n: Json): seq<Json>
    reads n`shape
  {
    match n.shape
    case ArrayNode(items) => items
    case ObjectNode(members) => Values(members)
    case _ => []
  }

  /** A set of nodes that contains the elements of all its containers. */
  ghost predicate Graph(g: set<Json>)
    reads g`shape
  {
    forall n, i :: n in g && 0 <= i < |Children(n)| ==> Children(n)[i] in g
  }

  /** Every string is well-formed, and keys are distinct C strings: what the value constructors check. */
  ghost predicate LegalNode(n: Json)
    reads n`shape
  {
    match n.shape
    case StringNode(text) => WellFormed(text)
    case ObjectNode(members) =>
      DistinctKeys(members) && forall i :: 0 <= i < |members| ==> WellFormed(members[i].key) && 0 !in members[i].key
    case _ => true
  }

  // ---- cycles ----

  /** A path from n: each node is an element of the one before. */
  ghost predicate PathFrom(n: Json, older p: seq<Json>, g: set<Json>)
    reads g`shape
  {
    p != [] && p[0] == n && (forall i :: 0 <= i < |p| ==> p[i] in g) &&
    forall i :: 0 <= i < |p| - 1 ==> p[i + 1] in Children(p[i])
  }

  /** Some container that can be reached from n can be reached from itself. */
  ghost predicate ReachesCycle(n: Json, g: set<Json>)
    reads g`shape
  {
    exists p, i, j :: PathFrom(n, p, g) && 0 <= i < j < |p| && p[i] == p[j]
  }

  /** The walk below n meets no container twice on one branch, nor one of those in `above`. */
  ghost predicate Clean(n: Json, above: set<Json>, g: set<Json>)
    requires Graph(g) && n in g
    reads g`shape
    decreases g - above
  {
    IsContainer(n) ==>
      n !in above && forall i :: 0 <= i < |Children(n)| ==> Clean(Children(n)[i], above + {n}, g)
  }

  /** On a clean walk no path repeats a node or enters a container of `above`. */
  lemma {:induction false} CleanPath(n: Json, above: set<Json>, g: set<Json>, p: seq<Json>)
    requires Graph(g) && n in g && Clean(n, above, g) && PathFrom(n, p, g)
    ensures forall i :: 0 <= i < |p| && IsContainer(p[i]) ==> p[i] !in above
    ensures forall i, j :: 0 <= i < j < |p| ==> p[i] != p[j]
    decreases |p|
  {
    if |p| > 1 {
      var k :| 0 <= k < |Children(n)| && Children(n)[k] == p[1];
      var q := p[1..];
      assert PathFrom(p[1], q, g) by {
        assert forall i :: 0 <= i < |q| ==> q[i] == p[i + 1];
      }
      CleanPath(p[1], above + {n}, g, q);
      forall i | 1 <= i < |p| ensures p[i] != n {
        assert p[i] == q[i - 1];
      }
      forall i, j | 1 <= i < j < |p| ensures p[i] != p[j] {
        assert p[i] == q[i - 1] && p[j] == q[j - 1];
      }
      forall i | 0 <= i < |p| && IsContainer(p[i]) ensures p[i] !in above {
        if i > 0 { assert p[i] == q[i - 1]; }
      }
    }
  }

  /** A walk that is not clean has a path that repeats a node or enters `above`. */
  lemma {:induction false} UncleanPath(n: Json, above: set<Json>, g: set<Json>) returns (p: seq<Json>, i: nat, j: nat)
    requires Graph(g) && n in g && !Clean(n, above, g)
    ensures PathFrom(n, p, g) && j < |p| && ((i < j && p[i] == p[j]) || p[j] in above)
    decreases g - above
  {
    if n in above {
      p, i, j := [n], 0, 0;
    } else {
      var k :| 0 <= k < |Children(n)| && !Clean(Children(n)[k], above + {n}, g);
      var q;
      q, i, j := UncleanPath(Children(n)[k], above + {n}, g);
      p := [n] + q;
      assert PathFrom(n, p, g) by {
        assert forall x :: 1 <= x < |p| ==> p[x] == q[x - 1];
      }
      if q[j] == n && n !in above {
        i, j := 0, j + 1;
      } else {
        i, j := i + 1, j + 1;
      }
    }
  }

  /** From a fresh start, the walk is clean exactly if no container in reach can be reached from itself. */
  lemma CleanIffNoCycle(n: Json, g: set<Json>)
    requires Graph(g) && n in g
    ensures Clean(n, {}, g) <==> !ReachesCycle(n, g)
  {
    if Clean(n, {}, g) {
      forall p, i, j | PathFrom(n, p, g) && 0 <= i < j < |p| ensures p[i] != p[j] {
        CleanPath(n, {}, g, p);
      }
    } else {
      var p, i, j := UncleanPath(n, {}, g);
    }
  }

  // ---- what a dump refuses ----

  /** The walk below n is clean and meets no ill-formed string value. Keys do not matter. */
  ghost predicate Dumpable(n: Json, above: set<Json>, g: set<Json>)
    requires Graph(g) && n in g
    reads g`shape
    decreases g - above
  {
    !IllFormed(n) &&
    (IsContainer(n) ==>
      n !in above && forall i :: 0 <= i < |Children(n)| ==> Dumpable(Children(n)[i], above + {n}, g))
  }

  ghost predicate IllFormed(n: Json)
    reads n`shape
  {
    n.shape.StringNode? && !WellFormed(n.shape.text)
  }

  ghost predicate ReachesIllFormed(n: Json, g: set<Json>)
    reads g`shape
  {
    exists p :: PathFrom(n, p, g) && IllFormed(p[|p| - 1])
  }

  /** On a dumpable walk no path leads to an ill-formed string. */
  lemma {:induction false} DumpablePath(n: Json, above: set<Json>, g: set<Json>, p: seq<Json>)
    requires Graph(g) && n in g && Dumpable(n, above, g) && PathFrom(n, p, g)
    ensures !IllFormed(p[|p| - 1])
    decreases |p|
  {
    if |p| > 1 {
      var k :| 0 <= k < |Children(n)| && Children(n)[k] == p[1];
      assert PathFrom(p[1], p[1..], g);
      DumpablePath(p[1], above + {n}, g, p[1..]);
    }
  }

  lemma {:induction false} DumpableIsClean(n: Json, above: set<Json>, g: set<Json>)
    requires Graph(g) && n in g && Dumpable(n, above, g)
    ensures Clean(n, above, g)
    decreases g - above
  {
    if IsContainer(n) {
      forall i | 0 <= i < |Children(n)| ensures Clean(Children(n)[i], above + {n}, g) {
        DumpableIsClean(Children(n)[i], above + {n}, g);
      }
    }
  }

  lemma {:induction false} CleanIsDumpable(n: Json, above: set<Json>, g: set<Json>)
    requires Graph(g) && n in g && Clean(n, above, g) && !ReachesIllFormed(n, g)
    ensures Dumpable(n, above, g)
    decreases g - above
  {
    assert PathFrom(n, [n], g);
    if IsContainer(n) {
      forall i | 0 <= i < |Children(n)| ensures Dumpable(Children(n)[i], above + {n}, g) {
        forall p | PathFrom(Children(n)[i], p, g) ensures !IllFormed(p[|p| - 1]) {
          assert PathFrom(n, [n] + p, g);
          assert ([n] + p)[|p|] == p[|p| - 1];
        }
        CleanIsDumpable(Children(n)[i], above + {n}, g);
      }
    }
  }

  /** From a fresh start: no container in reach can be reached from itself, and no string in reach is ill-formed. */
  lemma DumpableIff(n: Json, g: set<Json>)
    requires Graph(g) && n in g
    ensures Dumpable(n, {}, g) <==> !ReachesCycle(n, g) && !ReachesIllFormed(n, g)
  {
    CleanIffNoCycle(n, g);
    if Dumpable(n, {}, g) {
      DumpableIsClean(n, {}, g);
      forall p | PathFrom(n, p, g) ensures !IllFormed(p[|p| - 1]) {
        DumpablePath(n, {}, g, p);
      }
    } else if Clean(n, {}, g) && !ReachesIllFormed(n, g) {
      CleanIsDumpable(n, {}, g);
    }
  }

  // ---- the value a clean walk unfolds to ----

  /** The value below n; a shared container appears once for every way to reach it. */
  ghost function Unfold(n: Json, above: set<Json>, g: set<Json>): Value
    requires Graph(g) && n in g && Clean(n, above, g)
    reads g`shape
    decreases g - above, |Children(n)| + 1
  {
    match n.shape
    case NullNode => Null
    case TrueNode => True
    case FalseNode => False
    case IntegerNode(k) => Integer(k)
    case StringNode(text) => String(text)
    case ArrayNode(items) => Array(UnfoldFrom(n, 0, above, g))
    case ObjectNode(members) => Object(Keyed(members, UnfoldFrom(n, 0, above, g)))
  }

  /** The values of the elements from the i-th on. */
  ghost function UnfoldFrom(n: Json, i: nat, above: set<Json>, g: set<Json>): (vs: seq<Value>)
    requires Graph(g) && n in g && Clean(n, above, g) && IsContainer(n) && i <= |Children(n)|
    reads g`shape
    ensures |vs| == |Children(n)| - i
    ensures forall k :: i <= k < |Children(n)| ==> vs[k - i] == Unfold(Children(n)[k], above + {n}, g)
    decreases g - above, |Children(n)| - i
  {
    if i == |Children(n)| then []
    else [Unfold(Children(n)[i], above + {n}, g)] + UnfoldFrom(n, i + 1, above, g)
  }

  function Keyed(members: Entries<Bytes, Json>, vs: seq<Value>): (es: Entries<Bytes, Value>)
    requires |vs| == |members|
    ensures |es| == |vs|
  {
    seq(|vs|, i requires 0 <= i < |vs| => Entry(members[i].key, vs[i]))
  }

  /** Legal nodes unfold to a legal value. */
  lemma {:induction false} UnfoldLegal(n: Json, above: set<Json>, g: set<Json>)
    requires Graph(g) && n in g && Clean(n, above, g) && forall x :: x in g ==> LegalNode(x)
    ensures Legal(Unfold(n, above, g))
    decreases g - above
  {
    hide WellFormed, PathFrom;
    if IsContainer(n) {
      forall i | 0 <= i < |Children(n)| ensures Legal(UnfoldFrom(n, 0, above, g)[i]) {
        UnfoldLegal(Children(n)[i], above + {n}, g);
      }
    }
  }

  ghost predicate LegalGraph(g: set<Json>)
    reads g`shape
  {
    Graph(g) && forall n :: n in g ==> LegalNode(n)
  }

  // ---- do_dump ----

  ghost function Visited(g: set<Json>): set<Json>
    reads g`visited
  {
    set n | n in g && n.visited
  }

  /** The value below n if the walk is clean. */
  ghost function ValueOf(n: Json, above: set<Json>, g: set<Json>): (v: Value)
    requires Graph(g) && n in g
    reads g`shape
  {
    if Clean(n, above, g) then Unfold(n, above, g) else Null
  }

  /** The walk is clean and unfolds to a value with a text. */
  ghost predicate Prints(n: Json, above: set<Json>, g: set<Json>)
    requires Graph(g) && n in g
    reads g`shape
  {
    Clean(n, above, g) && Legal(ValueOf(n, above, g))
  }

  /**
    What a dump does. Into any sink it succeeds on a dumpable walk only. If the sink refused
    nothing, it succeeds on every dumpable walk, and has written the value's text if it has one.
  */
  ghost predicate Dumped(rc: int, n: Json, above: set<Json>, g: set<Json>, f: Flags, depth: nat, before: Bytes,
      sink: Sink)
    requires Graph(g) && n in g
    reads g`shape, sink
  {
    (rc == 0 ==> Dumpable(n, above, g)) &&
    (!sink.refused ==>
      (Dumpable(n, above, g) ==> rc == 0) &&
      (rc == 0 && Prints(n, above, g) ==> sink.out == before + Print(ValueOf(n, above, g), f, depth)))
  }

  /** What follows an element: a comma and an indent, or the indent before the closing bracket. */
  ghost function After(f: Flags, depth: nat, last: bool): Bytes {
    if last then Indent(f, depth, false) else [COMMA] + Indent(f, depth + 1, true)
  }

  method DumpAfter(f: Flags, depth: nat, last: bool, sink: Sink) returns (rc: int)
    modifies sink
    ensures sink.Since(old(sink.refused), rc)
    ensures !sink.refused ==> rc == 0 && sink.out == old(sink.out) + After(f, depth, last)
  {
    hide Sink.Reliable, Sink.Sticky;
    if !last {
      rc := sink.Write([COMMA]);
      if rc != 0 {
        return -1;
      }
      rc := DumpIndent(f, depth + 1, true, sink);
    } else {
      rc := DumpIndent(f, depth, false, sink);
    }
  }

  /** The opening bracket and the indent of a container, or both brackets if it is empty. */
  method DumpOpen(open: Byte, close: Byte, empty: bool, f: Flags, depth: nat, sink: Sink) returns (rc: int)
    modifies sink
    ensures sink.Since(old(sink.refused), rc)
    ensures !sink.refused ==>
      rc == 0 && sink.out == old(sink.out) + if empty then [open, close] else [open] + Indent(f, depth + 1, false)
  {
    hide Sink.Reliable, Sink.Sticky;
    rc := sink.Write([open]);
    if rc != 0 {
      return -1;
    }
    if empty {
      rc := sink.Write([close]);
    } else {
      rc := DumpIndent(f, depth + 1, false, sink);
    }
  }

  /**
    do_dump. On any graph it returns, with its result as `Dumped` says. Flags that were clear are
    clear again, and on success every flag is as before.
  */
  method Dump(n: Json, f: Flags, depth: nat, sink: Sink, ghost g: set<Json>) returns (rc: int)
    requires Graph(g) && n in g
    modifies g`visited, sink
    ensures Visited(g) <= old(Visited(g)) && (rc == 0 ==> Visited(g) == old(Visited(g)))
    ensures sink.Since(old(sink.refused), rc)
    ensures Dumped(rc, n, old(Visited(g)), g, f, depth, old(sink.out), sink)
    decreases g - Visited(g), 0
  {
    if !IsContainer(n) {
      rc := DumpScalar(n, f, depth, sink, g);
      return;
    }
    hide Sink.Reliable, Sink.Sticky, Clean, Dumpable, Prints, Graph, Print;
    ghost var above := Visited(g);
    if n.visited {
      NotTwice(n, above, g);
      n.visited := false;
      return -1;
    }
    n.visited := true;
    assert Visited(g) == above + {n};
    if n.shape.ArrayNode? {
      rc := DumpArray(n, f, depth, sink, g, above);
    } else {
      rc := DumpObject(n, f, depth, sink, g, above);
    }
    n.visited := false;
  }

  lemma NotTwice(n: Json, above: set<Json>, g: set<Json>)
    requires Graph(g) && n in g && IsContainer(n) && n in above
    ensures !Dumpable(n, above, g)
  {
  }

  method DumpScalar(n: Json, f: Flags, depth: nat, sink: Sink, ghost g: set<Json>) returns (rc: int)
    requires Graph(g) && n in g && !IsContainer(n)
    modifies sink
    ensures sink.Since(old(sink.refused), rc)
    ensures Dumped(rc, n, Visited(g), g, f, depth, old(sink.out), sink)
  {
    hide Sink.Reliable, Sink.Sticky, Quoted, WellFormed;
    match n.shape {
      case NullNode => rc := sink.Write(TEXT_NULL);
      case TrueNode => rc := sink.Write(TEXT_TRUE);
      case FalseNode => rc := sink.Write(TEXT_FALSE);
      case IntegerNode(k) => rc := sink.Write(PrintInteger(k));
      case StringNode(text) => rc := DumpString(text, f, sink);
    }
  }

  /** The elements before the i-th have been dumped, and the rest of the container's text is still to come. */
  ghost predicate DumpedUpTo(i: nat, n: Json, above: set<Json>, g: set<Json>, f: Flags, depth: nat, before: Bytes,
      sink: Sink)
    requires Graph(g) && n in g
    reads g`shape, sink
  {
    i <= |Children(n)| &&
    (forall k :: 0 <= k < i ==> Dumpable(Children(n)[k], above + {n}, g)) &&
    (!sink.refused && Prints(n, above, g) ==>
      var v := ValueOf(n, above, g);
      sink.out + ContainerRest(v, i, f, depth) == before + Print(v, f, depth))
  }

  ghost function TextOf(n: Json, above: set<Json>, g: set<Json>, f: Flags, depth: nat): (t: Bytes)
    requires Graph(g) && n in g && Prints(n, above, g)
    reads g`shape
    ensures Legal(ValueOf(n, above, g)) && t == Print(ValueOf(n, above, g), f, depth)
  {
    Print(ValueOf(n, above, g), f, depth)
  }

  /** The element of a container, and what follows it. */
  method DumpElement(child: Json, last: bool, f: Flags, depth: nat, sink: Sink, ghost g: set<Json>) returns (rc: int)
    requires Graph(g) && child in g
    modifies g`visited, sink
    ensures Visited(g) <= old(Visited(g)) && (rc == 0 ==> Visited(g) == old(Visited(g)))
    ensures sink.Since(old(sink.refused), rc)
    ensures rc == 0 ==> Dumpable(child, old(Visited(g)), g)
    ensures !sink.refused && Dumpable(child, old(Visited(g)), g) ==> rc == 0
    ensures !sink.refused && rc == 0 && Prints(child, old(Visited(g)), g) ==>
      sink.out == old(sink.out) + (Print(ValueOf(child, old(Visited(g)), g), f, depth + 1) + After(f, depth, last))
    decreases g - Visited(g), 1
  {
    hide Sink.Reliable, Sink.Sticky, Clean, Dumpable, Prints, Print, Graph, After;
    ghost var before := sink.out;
    ghost var text := if Prints(child, Visited(g), g) then TextOf(child, Visited(g), g, f, depth + 1) else [];
    rc := Dump(child, f, depth + 1, sink, g);
    if rc != 0 {
      return -1;
    }
    rc := DumpAfter(f, depth, last, sink);
    assert before + text + After(f, depth, last) == before + (text + After(f, depth, last));
  }

  /** The elements of an array, each with what follows it. */
  method DumpItems(n: Json, f: Flags, depth: nat, sink: Sink, ghost g: set<Json>, ghost above: set<Json>,
      ghost start: Bytes)
    returns (rc: int)
    requires Graph(g) && n in g && n.shape.ArrayNode? && n !in above && Visited(g) == above + {n}
    requires DumpedUpTo(0, n, above, g, f, depth, start, sink)
    modifies g`visited, sink
    ensures Visited(g) <= above + {n} && (rc == 0 ==> Visited(g) == above + {n})
    ensures sink.Since(old(sink.refused), rc)
    ensures rc == 0 ==> DumpedUpTo(|Children(n)|, n, above, g, f, depth, start, sink)
    ensures rc != 0 ==> !Dumpable(n, above, g) || sink.refused
    decreases g - Visited(g), 2
  {
    hide Sink.Reliable, Sink.Sticky, Clean, Dumpable, Prints, Print, PrintItems, Graph, Legal, After, Indent,
      ContainerRest;
    var items := n.shape.items;
    ChildrenInGraph(n, g);
    var i := 0;
    rc := 0;
    while i < |items|
      invariant 0 <= i <= |items| && Visited(g) == above + {n}
      invariant DumpedUpTo(i, n, above, g, f, depth, start, sink) && sink.Since(old(sink.refused), 0)
    {
      ghost var before := sink.out;
      rc := DumpElement(items[i], i == |items| - 1, f, depth, sink, g);
      ArrayStep(n, i, above, g, f, depth, before);
      if rc != 0 {
        return -1;
      }
      i := i + 1;
    }
  }

  method DumpArray(n: Json, f: Flags, depth: nat, sink: Sink, ghost g: set<Json>, ghost above: set<Json>)
    returns (rc: int)
    requires Graph(g) && n in g && n.shape.ArrayNode? && n !in above && Visited(g) == above + {n}
    modifies g`visited, sink
    ensures Visited(g) <= above + {n} && (rc == 0 ==> Visited(g) == above + {n})
    ensures sink.Since(old(sink.refused), rc)
    ensures Dumped(rc, n, above, g, f, depth, old(sink.out), sink)
    decreases g - Visited(g), 3
  {
    hide Sink.Reliable, Sink.Sticky, Clean, Dumpable, Prints, Print, PrintItems, Graph, Legal, After, Indent,
      ContainerRest;
    var items := n.shape.items;
    ghost var start := sink.out;
    ChildrenInGraph(n, g);
    rc := DumpOpen(OPEN_ARRAY, CLOSE_ARRAY, items == [], f, depth, sink);
    ArrayBegins(n, above, g, f, depth);
    if rc != 0 || items == [] {
      return;
    }
    Opened(start, [OPEN_ARRAY] + Indent(f, depth + 1, false), RestOf(n, above, g, f, depth));
    rc := DumpItems(n, f, depth, sink, g, above, start);
    if rc != 0 {
      return -1;
    }
    AllDumped(n, above, g, f, depth);
    rc := sink.Write([CLOSE_ARRAY]);
  }

  /** The text of a container from its i-th element on. */
  ghost function ContainerRest(v: Value, i: nat, f: Flags, depth: nat): Bytes
    requires Legal(v)
  {
    match v
    case Array(items) => if i < |items| then PrintItems(v, i, f, depth) else [CLOSE_ARRAY]
    case Object(members) => if i < |members| then PrintMembers(v, i, f, depth) else [CLOSE_OBJECT]
    case _ => []
  }

  /** The text of a container after the opening, if it has a text. */
  ghost function RestOf(n: Json, above: set<Json>, g: set<Json>, f: Flags, depth: nat): (t: Bytes)
    requires Graph(g) && n in g
    reads g`shape
    ensures Prints(n, above, g) ==> Legal(ValueOf(n, above, g)) && t == ContainerRest(ValueOf(n, above, g), 0, f, depth)
  {
    if Prints(n, above, g) then ContainerRest(ValueOf(n, above, g), 0, f, depth) else []
  }

  lemma ChildrenInGraph(n: Json, g: set<Json>)
    requires Graph(g) && n in g
    ensures Graph(g) && forall i :: 0 <= i < |Children(n)| ==> Children(n)[i] in g
  {
  }

  lemma Opened(start: Bytes, open: Bytes, rest: Bytes)
    ensures start + open + rest == start + (open + rest)
  {
  }

  lemma AllDumped(n: Json, above: set<Json>, g: set<Json>, f: Flags, depth: nat)
    requires Graph(g) && n in g && n !in above && IsContainer(n)
    ensures Dumpable(n, above, g) <==> forall i :: 0 <= i < |Children(n)| ==> Dumpable(Children(n)[i], above + {n}, g)
    ensures Prints(n, above, g) ==>
      Legal(ValueOf(n, above, g)) &&
      ContainerRest(ValueOf(n, above, g), |Children(n)|, f, depth) ==
        [if n.shape.ArrayNode? then CLOSE_ARRAY else CLOSE_OBJECT]
  {
  }

  lemma ArrayBegins(n: Json, above: set<Json>, g: set<Json>, f: Flags, depth: nat)
    requires Graph(g) && n in g && n.shape.ArrayNode? && n !in above
    ensures n.shape.items == [] ==> Dumpable(n, above, g)
    ensures Prints(n, above, g) ==>
      var v := ValueOf(n, above, g);
      Print(v, f, depth) ==
        if n.shape.items == [] then [OPEN_ARRAY, CLOSE_ARRAY]
        else [OPEN_ARRAY] + Indent(f, depth + 1, false) + ContainerRest(v, 0, f, depth)
  {
  }

  /** One element of the array in the text of the whole. */
  lemma ArrayStep(n: Json, i: nat, above: set<Json>, g: set<Json>, f: Flags, depth: nat, before: Bytes)
    requires Graph(g) && n in g && n.shape.ArrayNode? && n !in above && i < |n.shape.items|
    requires n.shape.items[i] in g
    ensures Dumpable(n, above, g) ==> Dumpable(n.shape.items[i], above + {n}, g)
    ensures Prints(n, above, g) ==> Prints(n.shape.items[i], above + {n}, g)
    ensures Prints(n, above, g) ==>
      var v := ValueOf(n, above, g);
      var last := i == |n.shape.items| - 1;
      before + ContainerRest(v, i, f, depth) ==
        before + (Print(ValueOf(n.shape.items[i], above + {n}, g), f, depth + 1) + After(f, depth, last)) +
        ContainerRest(v, i + 1, f, depth)
  {
    hide Clean, Dumpable, Print, PrintItems, Legal, ContainerRest, After;
    ItemDumpable(n, i, above, g);
    if Prints(n, above, g) {
      ItemValue(n, i, above, g);
      ItemText(ValueOf(n, above, g), i, f, depth, before);
    }
  }

  lemma ItemDumpable(n: Json, i: nat, above: set<Json>, g: set<Json>)
    requires Graph(g) && n in g && n.shape.ArrayNode? && n !in above && i < |n.shape.items| && n.shape.items[i] in g
    ensures Dumpable(n, above, g) ==> Dumpable(n.shape.items[i], above + {n}, g)
  {
    assert Children(n)[i] == n.shape.items[i];
  }

  lemma ItemValue(n: Json, i: nat, above: set<Json>, g: set<Json>)
    requires Graph(g) && n in g && n.shape.ArrayNode? && n !in above && i < |n.shape.items| && n.shape.items[i] in g
    requires Prints(n, above, g)
    ensures Prints(n.shape.items[i], above + {n}, g)
    ensures var v := ValueOf(n, above, g);
            Legal(v) && v.Array? && |v.items| == |n.shape.items| &&
            v.items[i] == ValueOf(n.shape.items[i], above + {n}, g)
  {
    assert Children(n)[i] == n.shape.items[i];
  }

  lemma ItemText(v: Value, i: nat, f: Flags, depth: nat, before: Bytes)
    requires Legal(v) && v.Array? && i < |v.items|
    ensures before + ContainerRest(v, i, f, depth) ==
      before + (Print(v.items[i], f, depth + 1) + After(f, depth, i == |v.items| - 1)) +
        ContainerRest(v, i + 1, f, depth)
  {
    hide Indent;
    var t := Print(v.items[i], f, depth + 1);
    var a, r := After(f, depth, i == |v.items| - 1), ContainerRest(v, i + 1, f, depth);
    assert ContainerRest(v, i, f, depth) == t + (a + r);
    Rejoined(before, [], t, a, r);
    assert [] + t == t && before + [] == before;
  }

  /** The i-th member of an object, and what follows it. */
  method DumpMember(n: Json, i: nat, f: Flags, depth: nat, sink: Sink, ghost g: set<Json>, ghost above: set<Json>)
    returns (rc: int)
    requires Graph(g) && n in g && n.shape.ObjectNode? && i < |n.shape.members| && n.shape.members[i].value in g
    requires Visited(g) == above + {n}
    modifies g`visited, sink
    ensures Visited(g) <= above + {n} && (rc == 0 ==> Visited(g) == above + {n})
    ensures sink.Since(old(sink.refused), rc)
    ensures rc == 0 ==> Dumpable(n.shape.members[i].value, above + {n}, g)
    ensures !sink.refused && Dumpable(n.shape.members[i].value, above + {n}, g) ==> rc == 0
    ensures !sink.refused && rc == 0 &&
            WellFormed(n.shape.members[i].key) && Prints(n.shape.members[i].value, above + {n}, g) ==>
      sink.out == old(sink.out) + (Quoted(n.shape.members[i].key, f) + Separator(f)) +
        (Print(ValueOf(n.shape.members[i].value, above + {n}, g), f, depth + 1) +
        After(f, depth, i == |n.shape.members| - 1))
    decreases g - Visited(g), 2
  {
    hide Sink.Reliable, Sink.Sticky, Clean, Dumpable, Prints, Print, Graph, After, Quoted, WellFormed;
    rc := DumpKey(n, i, f, sink);
    if rc != 0 {
      return -1;
    }
    rc := DumpElement(n.shape.members[i].value, i == |n.shape.members| - 1, f, depth, sink, g);
  }

  /** The elements of an object, each with what follows it. */
  method DumpMembers(n: Json, f: Flags, depth: nat, sink: Sink, ghost g: set<Json>, ghost above: set<Json>,
      ghost start: Bytes)
    returns (rc: int)
    requires Graph(g) && n in g && n.shape.ObjectNode? && n !in above && Visited(g) == above + {n}
    requires DumpedUpTo(0, n, above, g, f, depth, start, sink)
    modifies g`visited, sink
    ensures Visited(g) <= above + {n} && (rc == 0 ==> Visited(g) == above + {n})
    ensures sink.Since(old(sink.refused), rc)
    ensures rc == 0 ==> DumpedUpTo(|Children(n)|, n, above, g, f, depth, start, sink)
    ensures rc != 0 ==> !Dumpable(n, above, g) || sink.refused
    decreases g - Visited(g), 3
  {
    hide Sink.Reliable, Sink.Sticky, Clean, Dumpable, Prints, Print, PrintMembers, Graph, Legal, Quoted, Separator,
      After, Indent, ContainerRest;
    var members := n.shape.members;
    ChildrenInGraph(n, g);
    var i := 0;
    rc := 0;
    while i < |members|
      invariant 0 <= i <= |members| && Visited(g) == above + {n}
      invariant DumpedUpTo(i, n, above, g, f, depth, start, sink) && sink.Since(old(sink.refused), 0)
    {
      ghost var before := sink.out;
      MemberInGraph(n, i, g);
      rc := DumpMember(n, i, f, depth, sink, g, above);
      ObjectStep(n, i, above, g, f, depth, before);
      if rc != 0 {
        return -1;
      }
      i := i + 1;
    }
  }

  method DumpObject(n: Json, f: Flags, depth: nat, sink: Sink, ghost g: set<Json>, ghost above: set<Json>)
    returns (rc: int)
    requires Graph(g) && n in g && n.shape.ObjectNode? && n !in above && Visited(g) == above + {n}
    modifies g`visited, sink
    ensures Visited(g) <= above + {n} && (rc == 0 ==> Visited(g) == above + {n})
    ensures sink.Since(old(sink.refused), rc)
    ensures Dumped(rc, n, above, g, f, depth, old(sink.out), sink)
    decreases g - Visited(g), 4
  {
    hide Sink.Reliable, Sink.Sticky, Clean, Dumpable, Prints, Print, PrintMembers, Graph, Legal, Quoted, After, Indent,
      Separator, ContainerRest;
    var members := n.shape.members;
    ghost var start := sink.out;
    ChildrenInGraph(n, g);
    rc := DumpOpen(OPEN_OBJECT, CLOSE_OBJECT, members == [], f, depth, sink);
    ObjectBegins(n, above, g, f, depth);
    if rc != 0 || members == [] {
      return;
    }
    Opened(start, [OPEN_OBJECT] + Indent(f, depth + 1, false), RestOf(n, above, g, f, depth));
    rc := DumpMembers(n, f, depth, sink, g, above, start);
    if rc != 0 {
      return -1;
    }
    AllDumped(n, above, g, f, depth);
    rc := sink.Write([CLOSE_OBJECT]);
  }

  /** A key and its separator; the result of writing the key is not looked at. */
  method DumpKey(n: Json, i: nat, f: Flags, sink: Sink) returns (rc: int)
    requires n.shape.ObjectNode? && i < |n.shape.members|
    modifies sink
    ensures sink.Since(old(sink.refused), rc) && (!sink.refused ==> rc == 0)
    ensures !sink.refused && WellFormed(n.shape.members[i].key) ==>
      sink.out == old(sink.out) + (Quoted(n.shape.members[i].key, f) + Separator(f))
    ensures !sink.accepts(old(sink.out), old(sink.refused), [QUOTE]) &&
            sink.accepts(old(sink.out), true, Separator(f)) ==>
      rc == 0 && sink.out == old(sink.out) + Separator(f)
  {
    hide Sink.Reliable, Quoted, WellFormed;
    ghost var start := sink.out;
    var key := n.shape.members[i].key;
    var _ := DumpString(key, f, sink);
    rc := sink.Write(Separator(f));
    if WellFormed(key) {
      assert start + Quoted(key, f) + Separator(f) == start + (Quoted(key, f) + Separator(f));
    }
  }

  lemma MemberInGraph(n: Json, i: nat, g: set<Json>)
    requires Graph(g) && n in g && n.shape.ObjectNode? && i < |n.shape.members|
    ensures Children(n)[i] == n.shape.members[i].value && Children(n)[i] in g
  {
  }

  lemma ObjectBegins(n: Json, above: set<Json>, g: set<Json>, f: Flags, depth: nat)
    requires Graph(g) && n in g && n.shape.ObjectNode? && n !in above
    ensures n.shape.members == [] ==> Dumpable(n, above, g)
    ensures Prints(n, above, g) ==>
      var v := ValueOf(n, above, g);
      Print(v, f, depth) ==
        if n.shape.members == [] then [OPEN_OBJECT, CLOSE_OBJECT]
        else [OPEN_OBJECT] + Indent(f, depth + 1, false) + ContainerRest(v, 0, f, depth)
  {
  }

  lemma MemberText(v: Value, i: nat, f: Flags, depth: nat, before: Bytes)
    requires Legal(v) && v.Object? && i < |v.members|
    ensures before + ContainerRest(v, i, f, depth) ==
      before + (Quoted(v.members[i].key, f) + Separator(f)) +
      (Print(v.members[i].value, f, depth + 1) + After(f, depth, i == |v.members| - 1)) +
        ContainerRest(v, i + 1, f, depth)
  {
    hide Quoted, Separator, Indent;
    var q, t := Quoted(v.members[i].key, f) + Separator(f), Print(v.members[i].value, f, depth + 1);
    var a, r := After(f, depth, i == |v.members| - 1), ContainerRest(v, i + 1, f, depth);
    assert ContainerRest(v, i, f, depth) == q + t + (a + r);
    Rejoined(before, q, t, a, r);
  }

  lemma Rejoined(before: Bytes, q: Bytes, t: Bytes, a: Bytes, r: Bytes)
    ensures before + (q + t + (a + r)) == before + q + (t + a) + r
  {
  }

  lemma MemberDumpable(n: Json, i: nat, above: set<Json>, g: set<Json>)
    requires Graph(g) && n in g && n.shape.ObjectNode? && n !in above && i < |n.shape.members| &&
      n.shape.members[i].value in g
    ensures Dumpable(n, above, g) ==> Dumpable(n.shape.members[i].value, above + {n}, g)
  {
    assert Children(n)[i] == n.shape.members[i].value;
  }

  lemma MemberValue(n: Json, i: nat, above: set<Json>, g: set<Json>)
    requires Graph(g) && n in g && n.shape.ObjectNode? && n !in above && i < |n.shape.members|
    requires n.shape.members[i].value in g && Prints(n, above, g)
    ensures WellFormed(n.shape.members[i].key) && Prints(n.shape.members[i].value, above + {n}, g)
    ensures var v := ValueOf(n, above, g);
            Legal(v) && v.Object? && |v.members| == |n.shape.members| &&
            v.members[i] == Entry(n.shape.members[i].key, ValueOf(n.shape.members[i].value, above + {n}, g))
  {
    assert Children(n)[i] == n.shape.members[i].value;
    var v := ValueOf(n, above, g);
    assert Legal(v) && v.Object? && v == Object(Keyed(n.shape.members, UnfoldFrom(n, 0, above, g)));
    assert v.members[i] == Entry(n.shape.members[i].key, Unfold(Children(n)[i], above + {n}, g));
  }

  lemma ObjectStep(n: Json, i: nat, above: set<Json>, g: set<Json>, f: Flags, depth: nat, before: Bytes)
    requires Graph(g) && n in g && n.shape.ObjectNode? && n !in above && i < |n.shape.members|
    requires n.shape.members[i].value in g
    ensures Dumpable(n, above, g) ==> Dumpable(n.shape.members[i].value, above + {n}, g)
    ensures Prints(n, above, g) ==>
      WellFormed(n.shape.members[i].key) && Prints(n.shape.members[i].value, above + {n}, g)
    ensures Prints(n, above, g) ==>
      var v := ValueOf(n, above, g);
      var last := i == |n.shape.members| - 1;
      before + ContainerRest(v, i, f, depth) ==
        before + (Quoted(n.shape.members[i].key, f) + Separator(f)) +
        (Print(ValueOf(n.shape.members[i].value, above + {n}, g), f, depth + 1) + After(f, depth, last)) +
        ContainerRest(v, i + 1, f, depth)
  {
    hide Clean, Print, PrintMembers, Quoted, Legal, ContainerRest, After, Separator;
    MemberDumpable(n, i, above, g);
    if Prints(n, above, g) {
      MemberValue(n, i, above, g);
      MemberText(ValueOf(n, above, g), i, f, depth, before);
    }
  }

  /**
    json_dump_callback with every flag clear, on any graph and into any sink: it succeeds only if
    the root is allowed, no container in reach can be reached from itself and no string value in
    reach is ill-formed, and fails for another reason only if the sink refused something. On success
    a sink that refused nothing has the text, and so has any that stays refusing once it refuses.
    Every flag is clear again either way.
  */
  method DumpCallback(root: Json?, encodeAny: bool, f: Flags, sink: Sink, ghost g: set<Json>) returns (rc: int)
    requires Graph(g) && Visited(g) == {} && (root != null ==> root in g)
    modifies g`visited, sink
    ensures Visited(g) == {} && sink.Since(old(sink.refused), rc)
    ensures rc == 0 ==> Accepted(root, encodeAny, g)
    ensures !sink.refused && Accepted(root, encodeAny, g) ==> rc == 0
    ensures rc == 0 && Legal(ValueOf(root, {}, g)) && (!sink.refused || (sink.Sticky() && !old(sink.refused))) ==>
      sink.out == old(sink.out) + Print(ValueOf(root, {}, g), f, 0)
  {
    hide Sink.Reliable, Sink.Sticky, Clean, Dumpable, Print, Graph;
    if !encodeAny {
      if root == null || !IsContainer(root) {
        return -1;
      }
    }
    if root == null {
      return -1;
    }
    AcceptedIffDumpable(root, g);
    rc := Dump(root, f, 0, sink, g);
  }

  /** The root is allowed, and no cycle and no ill-formed string can be reached from it. */
  ghost predicate Accepted(root: Json?, encodeAny: bool, g: set<Json>)
    requires root != null ==> root in g
    reads g`shape
  {
    root != null && (encodeAny || IsContainer(root)) && !ReachesCycle(root, g) && !ReachesIllFormed(root, g)
  }

  lemma AcceptedIffDumpable(n: Json, g: set<Json>)
    requires Graph(g) && n in g
    ensures Dumpable(n, {}, g) <==> !ReachesCycle(n, g) && !ReachesIllFormed(n, g)
    ensures Dumpable(n, {}, g) ==> Clean(n, {}, g)
  {
    DumpableIff(n, g);
    if Dumpable(n, {}, g) { DumpableIsClean(n, {}, g); }
  }

  /** On a graph of legal nodes the value is legal and no string is ill-formed. */
  lemma LegalAccepted(n: Json, g: set<Json>)
    requires LegalGraph(g) && n in g
    ensures Legal(ValueOf(n, {}, g)) && !ReachesIllFormed(n, g)
  {
    if Clean(n, {}, g) { UnfoldLegal(n, {}, g); }
  }

  /** An ill-formed key does not make the printer fail, because its result is not looked at. */
  method IllFormedKeyDumps(f: Flags) returns (rc: int, root: Json, leaf: Json)
    ensures rc == 0 && root.shape == ObjectNode([Entry([0xFF], leaf)]) && !WellFormed([0xFF])
  {
    hide Print, Sink.Sticky, Dumpable, Clean, ReachesCycle, ReachesIllFormed, ValueOf, Legal, WellFormed, Graph;
    leaf := new Json(NullNode);
    root := new Json(ObjectNode([Entry([0xFF], leaf)]));
    var sink := new Sink((written, refused, chunk) => true);
    ghost var g := {root, leaf};
    assert Children(root) == [leaf];
    OneMember(root, leaf, g);
    rc := DumpCallback(root, false, f, sink, g);
    NoLeadByte();
  }

  lemma NoLeadByte()
    ensures !WellFormed([0xFF])
  {
    WellFormedStep([0xFF]);
  }

  lemma OneMember(root: Json, leaf: Json, g: set<Json>)
    requires root != leaf && g == {root, leaf} && leaf.shape == NullNode && root.shape.ObjectNode? &&
      Children(root) == [leaf]
    ensures Graph(g) && !ReachesCycle(root, g) && !ReachesIllFormed(root, g)
  {
    DumpableIff(root, g);
    assert Dumpable(leaf, {root}, g);
  }

  /** A sink that refuses quotes loses a key, and the printer goes on. */
  method KeyLost(n: Json, i: nat, f: Flags) returns (rc: int, sink: Sink)
    requires n.shape.ObjectNode? && i < |n.shape.members|
    ensures rc == 0 && sink.out == Separator(f)
  {
    sink := new Sink((written, refused, chunk) => chunk != [QUOTE]);
    rc := DumpKey(n, i, f, sink);
  }
}
