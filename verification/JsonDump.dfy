/** The printer as it runs: on a graph of shared, possibly cyclic containers, into a sink. */
module JsonDump {
  import opened Utf8
  import opened JsonString
  import opened JsonText

  /** A dump callback: it takes a chunk, or refuses it, by what it took before and whether it has refused one. */
  class Sink {
    var out: Bytes
    var refused: bool
    const accepts: (Bytes, bool, Bytes) -> bool

    constructor (accepts: (Bytes, bool, Bytes) -> bool)
      ensures out == [] && !refused && this.accepts == accepts
    {
      out, refused := [], false;
      this.accepts := accepts;
    }

    /** It never refuses a chunk. */
    ghost predicate Reliable() {
      forall o, r, chunk :: accepts(o, r, chunk)
    }

    /** Once it has refused a chunk, it refuses all. */
    ghost predicate Sticky() {
      forall o, chunk :: !accepts(o, true, chunk)
    }

    /** How a call that returned `rc` left the sink, which had refused a chunk before if `was`. */
    ghost predicate Since(was: bool, rc: int)
      reads this
    {
      (was ==> refused) && (!was && (Reliable() || (Sticky() && rc == 0)) ==> !refused)
    }

    method Write(chunk: Bytes) returns (rc: int)
      modifies this
      ensures rc == if accepts(old(out), old(refused), chunk) then 0 else -1
      ensures out == if rc == 0 then old(out) + chunk else old(out)
      ensures refused == (old(refused) || rc != 0)
      ensures Since(old(refused), rc) && (Sticky() && rc == 0 ==> !refused)
    {
      if !accepts(out, refused, chunk) {
        refused := true;
        return -1;
      }
      out := out + chunk;
      return 0;
    }
  }

  // ---- dump_indent and dump_string ----

  /** dump_indent: at most 32 spaces at a time. */
  method DumpIndent(f: Flags, depth: nat, space: bool, sink: Sink) returns (rc: int)
    modifies sink
    ensures sink.Since(old(sink.refused), rc)
    ensures !sink.refused ==> rc == 0 && sink.out == old(sink.out) + Indent(f, depth, space)
  {
    hide Sink.Reliable, Sink.Sticky;
    if f.indent > 0 {
      var n := depth * f.indent % 0x1_0000_0000;
      var total := n;
      rc := sink.Write([NEWLINE]);
      if rc != 0 {
        return -1;
      }
      while n > 0
        invariant 0 <= n <= total
        invariant sink.Since(old(sink.refused), 0)
        invariant !sink.refused ==> sink.out == old(sink.out) + [NEWLINE] + Spaces(total - n)
      {
        var now := if n < 32 then n else 32;
        rc := sink.Write(Spaces(now));
        if rc != 0 {
          return -1;
        }
        assert Spaces(total - n) + Spaces(now) == Spaces(total - (n - now));
        n := n - now;
      }
      rc := 0;
    } else if space && !f.compact {
      rc := sink.Write([SPACE]);
    } else {
      rc := 0;
    }
  }

  lemma {:induction false} EscapeAppend(vs: seq<ScalarValue>, v: int, f: Flags)
    requires Scalar(v)
    ensures Escape(vs + [v], f) == Escape(vs, f) + CharText(v, f)
  {
    if vs == [] {
      assert vs + [v] == [v] && [v][1..] == [];
    } else {
      EscapeAppend(vs[1..], v, f);
      assert (vs + [v])[1..] == vs[1..] + [v];
    }
  }

  /**
    The scalar values vs have been read from text[..pos]; what is written, and text[str..pos], is their escaped
    form.
  */
  ghost predicate Written(text: Bytes, str: nat, pos: nat, vs: seq<ScalarValue>, f: Flags, out: Bytes) {
    str <= pos <= |text| && EncodeAll(vs) == text[..pos] && out + text[str..pos] == [QUOTE] + Escape(vs, f)
  }

  lemma Slid(text: Bytes, str: nat, pos: nat, count: nat, out: Bytes, e: Bytes, t: Bytes)
    requires str <= pos && pos + count <= |text| && out + text[str..pos] == [QUOTE] + e
    ensures out + text[str..pos] + t == [QUOTE] + (e + t)
    ensures out + text[str..pos + count] == [QUOTE] + (e + text[pos..][..count])
    ensures text[pos + count..pos + count] == [] && forall x: Bytes :: x + [] == x
  {
    assert text[str..pos + count] == text[str..pos] + text[pos..][..count];
    assert out + text[str..pos + count] == (out + text[str..pos]) + text[pos..][..count];
  }

  lemma ReadOne(text: Bytes, str: nat, pos: nat, count: nat, vs: seq<ScalarValue>, f: Flags, out: Bytes)
    requires Written(text, str, pos, vs, f, out) && 1 <= count && pos + count <= |text| && IsChar(text[pos..][..count])
    ensures var v := Decode(text[pos..][..count]);
            Scalar(v) && EncodeAll(vs + [v]) == text[..pos + count] &&
            (!MustEscape(v, f) ==> Written(text, str, pos + count, vs + [v], f, out)) &&
            (MustEscape(v, f) ==>
              Written(text, pos + count, pos + count, vs + [v], f, out + text[str..pos] + EscapeText(v)))
    ensures WellFormed(text[pos..]) <==> WellFormed(text[pos + count..])
  {
    hide Escape, EncodeAll, WellFormed, IsChar, Encode, Decode, EscapeText;
    var v := Decode(text[pos..][..count]);
    OneFurther(text, pos, count, vs);
    DecodeIsScalar(text[pos..][..count]);
    EscapeAppend(vs, v, f);
    Slid(text, str, pos, count, out, Escape(vs, f), EscapeText(v));
  }

  lemma AllRead(text: Bytes, str: nat, vs: seq<ScalarValue>, f: Flags, out: Bytes)
    requires Written(text, str, |text|, vs, f, out) && WellFormed(text)
    ensures out + text[str..|text|] + [QUOTE] == Quoted(text, f)
  {
    assert text[..|text|] == text;
    EncodeAllInjective(vs, ScalarsOf(text));
  }

  /** The inner loop of dump_string: moves pos over characters that need no escape. */
  method SkipPlain(text: Bytes, str: nat, f: Flags, ghost vs: seq<ScalarValue>, ghost out: Bytes)
    returns (ok: bool, pos: nat, end: nat, codepoint: int, ghost vs': seq<ScalarValue>)
    requires Written(text, str, str, vs, f, out) && (WellFormed(text) <==> WellFormed(text[str..]))
    ensures !ok ==> !WellFormed(text)
    ensures ok ==>
      Written(text, str, pos, vs', f, out) && pos <= end <= |text| && (WellFormed(text) <==> WellFormed(text[end..]))
    ensures ok && pos == end ==> pos == |text|
    ensures ok && pos < end ==>
      IsChar(text[pos..][..end - pos]) && codepoint == Decode(text[pos..][..end - pos]) &&
      MustEscape(codepoint, f)
  {
    hide WellFormed, EncodeAll, Escape, IsChar, Decode, Written;
    RunBounds(text, str, str, vs, f, out);
    pos, end, codepoint, vs' := str, str, 0, vs;
    while end < |text|
      invariant pos == end <= |text| && Written(text, str, pos, vs', f, out) &&
        (WellFormed(text) <==> WellFormed(text[pos..]))
      decreases |text| - end
    {
      var found, count, v := Iterate(text[pos..]);
      if !found {
        WellFormedStep(text[pos..]);
        return false, pos, end, 0, vs';
      }
      FirstAnnounces(text[pos..], count);
      ReadOne(text, str, pos, count, vs', f, out);
      end, codepoint := pos + count, v;
      if MustEscape(codepoint, f) {
        break;
      }
      pos, vs' := end, vs' + [v];
    }
    return true, pos, end, codepoint, vs';
  }

  /** Writes a run of plain characters, if there is one. */
  method DumpPlain(text: Bytes, sink: Sink) returns (rc: int)
    modifies sink
    ensures sink.Since(old(sink.refused), rc) && (rc != 0 ==> sink.refused)
    ensures !sink.refused ==> sink.out == old(sink.out) + text
  {
    hide Sink.Reliable, Sink.Sticky;
    rc := 0;
    if text != [] {
      rc := sink.Write(text);
    }
  }

  /** One turn of dump_string: a run of plain characters, then one escape unless the text has ended. */
  method DumpRun(text: Bytes, str: nat, f: Flags, sink: Sink, ghost vs: seq<ScalarValue>, ghost out: Bytes)
    returns (rc: int, end: nat, ended: bool, ghost vs': seq<ScalarValue>, ghost out': Bytes)
    requires Written(text, str, str, vs, f, out) && (WellFormed(text) <==> WellFormed(text[str..]))
    modifies sink
    ensures sink.Since(old(sink.refused), rc)
    ensures !sink.refused && WellFormed(text) ==> rc == 0
    ensures rc == 0 && ended ==> WellFormed(text) && out' + [QUOTE] == Quoted(text, f)
    ensures rc == 0 && !ended ==>
      str < end && Written(text, end, end, vs', f, out') && (WellFormed(text) <==> WellFormed(text[end..]))
    ensures !sink.refused && rc == 0 ==> exists more :: sink.out == old(sink.out) + more && out' == out + more
  {
    hide Escape, EncodeAll, WellFormed, Sink.Reliable, Sink.Sticky, Written, IsChar, Decode, Quoted, MustEscape,
      EscapeText;
    var ok, pos, codepoint;
    ok, pos, end, codepoint, vs' := SkipPlain(text, str, f, vs, out);
    if !ok {
      return -1, end, false, vs', out;
    }
    RunBounds(text, str, pos, vs', f, out);
    rc := DumpPlain(text[str..pos], sink);
    ended := end == pos;
    out' := out + text[str..pos];
    if rc != 0 {
      return -1, end, ended, vs', out';
    }
    if ended {
      Ended(text, end);
      AllRead(text, str, vs', f, out);
      return;
    }
    ReadOne(text, str, pos, end - pos, vs', f, out);
    rc := sink.Write(EscapeText(codepoint));
    vs', out' := vs' + [codepoint], out' + EscapeText(codepoint);
    assert out' == out + (text[str..pos] + EscapeText(codepoint));
    assert !sink.refused ==> sink.out == old(sink.out) + (text[str..pos] + EscapeText(codepoint));
  }

  lemma RunBounds(text: Bytes, str: nat, pos: nat, vs: seq<ScalarValue>, f: Flags, out: Bytes)
    requires Written(text, str, pos, vs, f, out)
    ensures str <= pos <= |text|
  {
  }

  /** dump_string */
  method DumpString(text: Bytes, f: Flags, sink: Sink) returns (rc: int)
    modifies sink
    ensures sink.Since(old(sink.refused), rc)
    ensures rc == 0 ==> WellFormed(text)
    ensures !sink.refused && WellFormed(text) ==> rc == 0 && sink.out == old(sink.out) + Quoted(text, f)
    ensures !sink.accepts(old(sink.out), old(sink.refused), [QUOTE]) ==> sink.out == old(sink.out) && sink.refused
  {
    hide Escape, EncodeAll, WellFormed, Sink.Reliable, Sink.Sticky, Written, Quoted;
    ghost var start := sink.out;
    rc := sink.Write([QUOTE]);
    if rc != 0 {
      return -1;
    }
    var str, ended := 0, false;
    ghost var out, vs: seq<ScalarValue> := [QUOTE], [];
    Begun(text, f);
    while !ended
      invariant sink.Since(old(sink.refused), 0) && sink.accepts(start, old(sink.refused), [QUOTE])
      invariant !sink.refused ==> sink.out == start + out
      invariant !ended ==>
        str <= |text| && Written(text, str, str, vs, f, out) && (WellFormed(text) <==> WellFormed(text[str..]))
      invariant ended ==> WellFormed(text) && out + [QUOTE] == Quoted(text, f)
      decreases !ended, |text| - str
    {
      rc, str, ended, vs, out := DumpRun(text, str, f, sink, vs, out);
      if rc != 0 {
        return -1;
      }
      if !ended { RunBounds(text, str, str, vs, f, out); }
    }
    rc := sink.Write([QUOTE]);
    assert start + out + [QUOTE] == start + (out + [QUOTE]);
  }

  lemma Begun(text: Bytes, f: Flags)
    ensures Written(text, 0, 0, [], f, [QUOTE]) && (WellFormed(text) <==> WellFormed(text[0..]))
  {
    assert text[0..] == text && text[..0] == [] && text[0..0] == [];
  }

  lemma Ended(text: Bytes, end: nat)
    requires end == |text| && (WellFormed(text) <==> WellFormed(text[end..]))
    ensures WellFormed(text)
  {
    assert text[end..] == [];
  }
}
