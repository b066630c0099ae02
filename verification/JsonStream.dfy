/** The lexer's input stream: it validates UTF-8 a character at a time and takes one byte back. */
module JsonStream {
  import opened Utf8
  import opened JsonText

  const OK := 0
  const EOF := -1
  const ERROR := -2

  /** A byte read as a signed char. */
  function Signed(b: Byte): int {
    if b < 0x80 then b else b - 0x100
  }

  /** No byte of a well-formed string reads as one of the two sentinels. */
  lemma {:induction false} NoSentinel(s: Bytes)
    requires WellFormed(s)
    ensures forall k :: 0 <= k < |s| ==> Signed(s[k]) != EOF && Signed(s[k]) != ERROR
    decreases |s|
  {
    hide WellFormed;
    if s != [] {
      var n := FirstLen(s[0]);
      WellFormedStep(s);
      NoSentinel(s[n..]);
      assert forall k :: 0 <= k < n ==> s[k] == s[..n][k];
      assert forall k :: n <= k < |s| ==> s[k] == s[n..][k - n];
    }
  }

  /** Line, column and byte position, and the column before the last line break. */
  datatype Place = Place(line: int, column: int, lastColumn: int, position: int)

  function Forward(p: Place, b: Byte): Place {
    if b == NEWLINE then Place(p.line + 1, 0, p.column, p.position + 1)
    else if FirstLen(b) != 0 then Place(p.line, p.column + 1, p.lastColumn, p.position + 1)
    else p.(position := p.position + 1)
  }

  function Backward(p: Place, b: Byte): Place {
    var q := p.(position := p.position - 1);
    if b == NEWLINE then q.(line := q.line - 1, column := q.lastColumn)
    else if FirstLen(b) != 0 then q.(column := q.column - 1)
    else q
  }

  /** Taking a byte back restores line, column and position. */
  lemma BackAgain(p: Place, b: Byte)
    ensures var q := Backward(Forward(p, b), b); q.line == p.line && q.column == p.column && q.position == p.position
  {
  }

  /** The place after some bytes have been delivered. */
  function Walked(p: Place, s: Bytes): Place
    decreases |s|
  {
    if s == [] then p else Walked(Forward(p, s[0]), s[1..])
  }

  function LineBreaks(vs: seq<ScalarValue>): nat {
    if vs == [] then 0 else (if vs[0] == 0x0A then 1 else 0) + LineBreaks(vs[1..])
  }

  /** How many characters there are after the last line break, or `before` more than that if there is none. */
  function LineLength(before: int, vs: seq<ScalarValue>): int
    decreases |vs|
  {
    if vs == [] then before else LineLength(if vs[0] == 0x0A then 0 else before + 1, vs[1..])
  }

  lemma {:induction false} WalkedOver(p: Place, a: Bytes, s: Bytes)
    ensures Walked(p, a + s) == Walked(Walked(p, a), s)
    decreases |a|
  {
    if a == [] {
      assert a + s == s;
    } else {
      WalkedOver(Forward(p, a[0]), a[1..], s);
      assert (a + s)[1..] == a[1..] + s;
    }
  }

  /** Continuation bytes move the position only. */
  lemma {:induction false} WalkedTail(p: Place, s: Bytes)
    requires forall k :: 0 <= k < |s| ==> Tail(s[k])
    ensures Walked(p, s) == p.(position := p.position + |s|)
    decreases |s|
  {
    if s != [] { WalkedTail(Forward(p, s[0]), s[1..]); }
  }

  lemma WalkedChar(p: Place, v: ScalarValue)
    ensures var q := Walked(p, Encode(v));
            q.position == p.position + |Encode(v)| &&
            if v == 0x0A then q.line == p.line + 1 && q.column == 0 && q.lastColumn == p.column
            else q.line == p.line && q.column == p.column + 1 && q.lastColumn == p.lastColumn
  {
    var s := Encode(v);
    EncodeIsChar(v);
    FirstAnnounces(s, |s|) by { assert s[..|s|] == s; }
    WalkedTail(Forward(p, s[0]), s[1..]);
  }

  /** Lines and columns count characters, and the position counts bytes. */
  lemma {:induction false} PlaceCounts(p: Place, vs: seq<ScalarValue>)
    ensures var q := Walked(p, EncodeAll(vs));
            q.position == p.position + |EncodeAll(vs)| && q.line == p.line + LineBreaks(vs) &&
            q.column == LineLength(p.column, vs)
    decreases |vs|
  {
    hide Encode;
    if vs != [] {
      WalkedChar(p, vs[0]);
      WalkedOver(p, Encode(vs[0]), EncodeAll(vs[1..]));
      PlaceCounts(Walked(p, Encode(vs[0])), vs[1..]);
    }
  }

  function TillNul(s: Bytes): (t: Bytes)
    ensures |t| <= |s|
  {
    if s == [] || s[0] == 0 then [] else [s[0]] + TillNul(s[1..])
  }

  lemma {:induction false} TillNulStops(a: Bytes, s: Bytes)
    requires 0 !in a && s != [] && s[0] == 0
    ensures TillNul(a + s) == a
  {
    if a == [] {
      assert a + s == s;
    } else {
      TillNulStops(a[1..], s);
      assert (a + s)[1..] == a[1..] + s;
    }
  }

  /** How a source ends after its longest well-formed prefix. */
  function EndOf(s: Bytes): int {
    if |Feed(s)| < |s| then ERROR else EOF
  }

  /** One character off the front of a source. */
  lemma CharFed(s: Bytes, n: nat)
    requires 1 <= n <= |s| && IsChar(s[..n])
    ensures Feed(s) == s[..n] + Feed(s[n..]) && EndOf(s) == EndOf(s[n..])
  {
    FirstAnnounces(s, n);
  }

  class Stream {
    const src: Bytes
    var srcPos: nat
    const buffer: array<Byte>
    var bufferPos: nat
    var state: int
    var place: Place

    /** The bytes still to be delivered. */
    ghost var rest: Bytes
    /** Those of them that are still in the source. */
    ghost var ahead: Bytes
    /** What is reported once they are used up: the end, or a byte that cannot be decoded. */
    ghost const end: int

    ghost predicate Valid()
      reads `srcPos, `bufferPos, `state, `rest, `ahead, buffer
    {
      (end == EOF || end == ERROR) && if state == OK then Ahead() && Holds() else state == end && rest == []
    }

    ghost predicate Ahead()
      reads `srcPos, `ahead
    {
      srcPos <= |src| && ahead == Feed(src[srcPos..]) && end == EndOf(src[srcPos..])
    }

    /** The buffer holds the bytes that are not ahead; a NUL ends them. */
    ghost predicate Holds()
      reads `bufferPos, `rest, `ahead, buffer
    {
      buffer.Length == 5 && bufferPos < 5 &&
      rest == TillNul(buffer[bufferPos..]) + ahead &&
      (exists k :: bufferPos <= k < 5 && buffer[k] == 0) &&
      (forall k :: 0 <= k < bufferPos && buffer[k] == 0 ==> bufferPos == 1 && buffer[1] == 0)
    }

    constructor (src: Bytes)
      ensures Valid() && fresh(buffer) && this.src == src && rest == Feed(src) && end == EndOf(src)
      ensures place == Place(1, 0, 0, 0)
    {
      this.src := src;
      srcPos := 0;
      buffer := new Byte[5](i => 0);
      bufferPos := 0;
      state := OK;
      place := Place(1, 0, 0, 0);
      rest, ahead := Feed(src), Feed(src);
      end := EndOf(src);
      new;
      assert src[0..] == src && buffer[0] == 0;
    }

    /** The data source: the next byte, or EOF for ever. */
    method Fetch() returns (c: int)
      requires srcPos <= |src|
      modifies this`srcPos
      ensures srcPos == if old(srcPos) < |src| then old(srcPos) + 1 else old(srcPos)
      ensures c == if old(srcPos) < |src| then src[old(srcPos)] else EOF
    {
      if srcPos >= |src| {
        return EOF;
      }
      c := src[srcPos];
      srcPos := srcPos + 1;
    }

    /** Reads the rest of a character of `count` bytes; a missing byte becomes 0xFF. */
    method FetchTail(count: nat)
      requires 2 <= count <= 4 && buffer.Length == 5 && 1 <= srcPos <= |src| && buffer[0] == src[srcPos - 1]
      modifies this`srcPos, buffer
      ensures var at := old(srcPos) - 1;
              if at + count <= |src| then srcPos == at + count && buffer[..count] == src[at..at + count]
              else srcPos == |src| && !IsChar(buffer[..count])
      ensures buffer[0] == old(buffer[0])
    {
      ghost var at := srcPos - 1;
      for i := 1 to count
        invariant srcPos == if at + i <= |src| then at + i else |src|
        invariant at < |src| && buffer[0] == old(buffer[0])
        invariant forall k :: 0 <= k < i ==> buffer[k] == if at + k < |src| then src[at + k] else 0xFF
      {
        var c := Fetch();
        buffer[i] := if c == EOF then 0xFF else c;
      }
      if at + count > |src| { assert buffer[..count][count - 1] == 0xFF; }
    }

    /** The front byte is loaded, and `rest` starts with it. */
    ghost predicate Ready()
      reads `bufferPos, `rest, `ahead, buffer
    {
      buffer.Length == 5 && bufferPos < 4 &&
      rest == [buffer[bufferPos]] + TillNul(buffer[bufferPos + 1..]) + ahead &&
      (exists k :: bufferPos < k < 5 && buffer[k] == 0) &&
      (forall k :: 0 <= k <= bufferPos && buffer[k] == 0 ==> k == bufferPos == 0 && buffer[1] == 0)
    }

    /** A character of several bytes whose first byte is loaded; `more` is the source from that byte on. */
    method LoadChar(count: nat, ghost more: Bytes)
      requires buffer.Length == 5 && bufferPos == 0 && 1 <= srcPos <= |src| && state == OK
      requires more == src[srcPos - 1..] && buffer[0] == more[0] && 2 <= count == FirstLen(buffer[0])
      requires rest == Feed(more) && end == EndOf(more)
      modifies this`srcPos, this`state, this`ahead, buffer
      ensures state == OK ==> Ahead() && Ready()
      ensures state != OK ==> state == end && rest == []
    {
      FetchTail(count);
      var full, _ := CheckFull(buffer[..], count);
      assert buffer[..][..count] == buffer[..count];
      if !full {
        assert |more| < count || more[..count] == buffer[..count];
        state := ERROR;
        return;
      }
      ghost var a := buffer[..count];
      buffer[count] := 0;
      assert more[..count] == a && more[count..] == src[srcPos..];
      Loaded(buffer[..], a);
      CharFed(more, count);
      ahead := Feed(src[srcPos..]);
    }

    /**
      Loads the next character into the empty buffer; at the end of the input, or at an
      undecodable byte, the state says so from then on.
    */
    method Refill(ghost more: Bytes)
      requires buffer.Length == 5 && srcPos <= |src| && state == OK
      requires more == src[srcPos..] && rest == Feed(more) && end == EndOf(more)
      modifies this`srcPos, this`bufferPos, this`state, this`ahead, buffer
      ensures state == OK ==> Ahead() && Ready()
      ensures state != OK ==> state == end && rest == []
    {
      bufferPos := 0;
      var c := Fetch();
      if c == EOF {
        state := EOF;
        return;
      }
      buffer[0] := c;
      if 0x80 <= c <= 0xFF {
        var count := FirstLen(c);
        if count == 0 {
          state := ERROR;
          return;
        }
        LoadChar(count, more);
      } else {
        buffer[1] := 0;
        assert more[..1] == [buffer[0]] && more[1..] == src[srcPos..];
        CharFed(more, 1);
        ahead := Feed(src[srcPos..]);
      }
    }

    /** The part of stream_get that loads a character if the buffer is used up. */
    method Load()
      requires Valid() && state == OK
      modifies this`srcPos, this`bufferPos, this`state, this`ahead, buffer
      ensures state == OK ==> Ahead() && Ready()
      ensures state != OK ==> state == end && rest == []
    {
      if buffer[bufferPos] == 0 {
        Refill(src[srcPos..]);
      } else {
        assert buffer[bufferPos..][1..] == buffer[bufferPos + 1..];
      }
    }

    method Take() returns (c: int)
      requires Ready()
      modifies this`bufferPos, this`place, this`rest
      ensures Holds() && rest == old(rest)[1..] && bufferPos == old(bufferPos) + 1
      ensures c == Signed(old(rest)[0]) && buffer[bufferPos - 1] == old(rest)[0] &&
        place == Forward(old(place), old(rest)[0])
    {
      var b := buffer[bufferPos];
      c := Signed(b);
      bufferPos := bufferPos + 1;
      place := Forward(place, b);
      rest := rest[1..];
    }

    /** The byte delivered last can be taken back. */
    ghost predicate Last(b: Byte)
      reads `state, `bufferPos, buffer
    {
      state == OK && 0 < bufferPos <= buffer.Length && buffer[bufferPos - 1] == b
    }

    /** stream_get */
    method Get() returns (c: int)
      requires Valid()
      modifies this, buffer
      ensures Valid()
      ensures old(rest) == [] ==> c == end && rest == [] && place == old(place)
      ensures old(rest) != [] ==>
        c == Signed(old(rest)[0]) && rest == old(rest)[1..] && place == Forward(old(place), old(rest)[0]) &&
        Last(old(rest)[0])
    {
      if state != OK {
        return state;
      }
      Load();
      if state != OK {
        return state;
      }
      c := Take();
    }

    /**
      stream_unget of the byte just read. The byte is delivered again, and line, column and
      position are as before it was read; but a NUL is lost, because it also marks the end of
      the buffer.
    */
    method Unget(c: int, ghost b: Byte)
      requires Valid()
      requires c != EOF && c != ERROR ==> c == Signed(b) && Last(b)
      modifies this
      ensures Valid() && state == old(state)
      ensures c == EOF || c == ERROR ==> rest == old(rest) && place == old(place)
      ensures c != EOF && c != ERROR ==>
        rest == (if b == 0 then old(rest) else [b] + old(rest)) && place == Backward(old(place), b)
    {
      hide TillNul, Feed, EndOf, Backward, Signed;
      if c == EOF || c == ERROR {
        return;
      }
      StepPlace(c, b);
      PutBack(b);
    }

    /** The place goes back before the byte that is taken back. */
    method StepPlace(c: int, ghost b: Byte)
      requires c == Signed(b) && Last(b)
      modifies `place
      ensures place == Backward(old(place), b)
    {
      place := place.(position := place.position - 1);
      if c == NEWLINE {
        place := place.(line := place.line - 1, column := place.lastColumn);
      } else if FirstLen(buffer[bufferPos - 1]) != 0 {
        place := place.(column := place.column - 1);
      }
    }

    method PutBack(ghost b: Byte)
      requires Holds() && Last(b)
      modifies this`bufferPos, this`rest
      ensures Holds() && rest == if b == 0 then old(rest) else [b] + old(rest)
    {
      bufferPos := bufferPos - 1;
      rest := if b == 0 then rest else [b] + rest;
      assert buffer[..][bufferPos..] == buffer[bufferPos..] && buffer[..][bufferPos + 1..] == buffer[bufferPos + 1..];
      StepBack(buffer[..], bufferPos + 1, ahead, old(rest));
    }
  }

  lemma StepBack(buffer: Bytes, p: nat, more: Bytes, rest: Bytes)
    requires 0 < p <= |buffer| && rest == TillNul(buffer[p..]) + more &&
      (buffer[p - 1] == 0 ==> TillNul(buffer[p..]) == [])
    ensures TillNul(buffer[p - 1..]) + more == if buffer[p - 1] == 0 then rest else [buffer[p - 1]] + rest
  {
    assert buffer[p - 1..][1..] == buffer[p..];
    if buffer[p - 1] != 0 {
      assert [buffer[p - 1]] + TillNul(buffer[p..]) + more == [buffer[p - 1]] + (TillNul(buffer[p..]) + more);
    }
  }

  /** The buffer after a character of several bytes has been loaded. */
  lemma Loaded(buffer: Bytes, a: Bytes)
    requires |buffer| == 5 && 2 <= |a| <= 4 && buffer[..|a|] == a && buffer[|a|] == 0 && IsChar(a)
    ensures [buffer[0]] + TillNul(buffer[1..]) == a
  {
    assert buffer[1..] == a[1..] + buffer[|a|..];
    assert forall k :: 0 <= k < |a| ==> a[k] != 0;
    TillNulStops(a[1..], buffer[|a|..]);
  }
}
