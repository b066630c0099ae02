/**
  The lexer and the recursive-descent parser as they run on a stream.

  `Lexer` holds the stream, the text saved for the current token, the token and the depth. Each
  method is tied to the functions of `JsonText`: after it, the stream is at the rest which the
  function leaves, and the token, the value or the error is the one that it gives. The ghost
  arguments of the scanning methods are the bytes from the start of the token on and the place among
  them that the stream has reached.
*/
module JsonParser {
  import opened Options
  import opened OrderedMap
  import opened Utf8
  import opened JsonString
  import opened JsonText
  import opened JsonStream
  import opened JsonLexer
  import JsonParsed

  /** strtol on saved text: an optional minus sign and digits. */
  function StrtolText(s: Bytes): int {
    if s != [] && s[0] == MINUS then Strtol(true, s[1..]) else Strtol(false, s)
  }

  class Lexer {
    const stream: Stream
    const m: Mode
    var saved: Bytes
    var token: Token
    var depth: nat

    ghost predicate Valid()
      reads this, stream, stream.buffer
    {
      stream.Valid() && (stream.end == EOF || stream.end == ERROR) && forall k :: 0 <= k < |stream.rest| ==>
        stream.rest[k] < 0xFE
    }

    /** Where lex_get leaves the lexer: c is the byte at position k of s, or what follows its end. */
    ghost predicate At(s: Bytes, k: nat, c: int)
      reads this, stream, stream.buffer
    {
      Valid() && k <= |s| &&
      if k < |s| then s[k] < 0xFE && c == Signed(s[k]) && stream.rest == s[k + 1..] && stream.Last(s[k])
      else c == stream.end && stream.rest == []
    }

    constructor (src: Bytes, m: Mode)
      ensures Valid() && fresh(stream) && fresh(stream.buffer) && stream.src == src && this.m == m
      ensures stream.rest == Feed(src) && stream.end == EndOf(src)
    {
      stream := new Stream(src);
      this.m := m;
      saved, token, depth := [], Invalid, 0;
      new;
      JsonParsed.FeedWellFormed(src);
      NoSentinel(Feed(src));
    }

    /** lex_get, when the bytes from position k of s on are still to be delivered. */
    method Get(ghost s: Bytes, ghost k: nat) returns (c: int)
      requires Valid() && k <= |s| && stream.rest == s[k..]
      modifies stream, stream.buffer
      ensures At(s, k, c)
    {
      c := stream.Get();
    }

    /** lex_get_save */
    method GetSave(ghost s: Bytes, ghost k: nat) returns (c: int)
      requires Valid() && k <= |s| && stream.rest == s[k..]
      modifies this`saved, stream, stream.buffer
      ensures At(s, k, c)
      ensures saved == if k < |s| then old(saved) + [s[k]] else old(saved)
    {
      c := Get(s, k);
      if c != EOF && c != ERROR {
        saved := saved + [Unsigned(c)];
      }
    }

    /** lex_unget_unsave */
    method UngetUnsave(c: int, ghost s: Bytes, ghost k: nat)
      requires At(s, k, c) && (k < |s| ==> saved != [])
      modifies this`saved, stream
      ensures Valid() && stream.rest == AfterUnget(s[k..])
      ensures saved == if k < |s| then old(saved)[..|old(saved)| - 1] else old(saved)
    {
      hide Stream.Valid;
      if c != EOF && c != ERROR {
        stream.Unget(c, s[k]);
        saved := saved[..|saved| - 1];
      }
    }

    /** c is the byte at position k of t, and the token saved so far is t up to it. */
    ghost predicate Collected(t: Bytes, k: nat, c: int)
      reads this, stream, stream.buffer
    {
      At(t, k, c) && saved == if k < |t| then t[..k + 1] else t
    }

    method Collect(ghost t: Bytes, ghost k: nat, ghost c: int) returns (c': int)
      requires k < |t| && Collected(t, k, c)
      modifies this`saved, stream, stream.buffer
      ensures Collected(t, k + 1, c')
    {
      hide Stream.Valid;
      c' := GetSave(t, k + 1);
    }

    method Uncollect(c: int, ghost t: Bytes, ghost k: nat)
      requires Collected(t, k, c)
      modifies this`saved, stream
      ensures Valid() && stream.rest == AfterUnget(t[k..]) && saved == t[..k]
    {
      hide Stream.Valid;
      UngetUnsave(c, t, k);
    }

    // ---- lex_scan_string ----

    /** The first pass: collects the token up to the closing quote. */
    method FirstPass(ghost t: Bytes) returns (ok: bool)
      requires t != [] && Collected(t, 0, QUOTE as int)
      modifies this`saved, stream, stream.buffer
      ensures Valid() && |stream.rest| < |t|
      ensures ok <==> StringEnd(t[1..]).Some?
      ensures ok ==> var n := StringEnd(t[1..]).value; n + 2 <= |t| && saved == t[..n + 2] && stream.rest == t[n + 2..]
    {
      hide Stream.Valid, StringEnd, UnitLen;
      ghost var k := 1;
      var c := Collect(t, 0, QUOTE as int);
      while c != QUOTE as int
        invariant 1 <= k && Collected(t, k, c) && StringEnd(t[1..]) == Shift(k - 1, StringEnd(t[k..]))
        decreases |t| - k
      {
        if c == ERROR || c == EOF {
          EndMissing(t, k);
          return false;
        }
        Ahead(t, k);
        if 0 <= c && c <= 0x1F {
          Uncollect(c, t, k);
          return false;
        } else if c == BACKSLASH as int {
          ok, c, k := EscapeSequence(t, k);
          if !ok {
            return false;
          }
        } else {
          c := Collect(t, k, c);
          k := k + 1;
        }
      }
      EndHere(t, k);
      return true;
    }

    /** An escape in the first pass, after its backslash; c is then the byte after it. */
    method EscapeSequence(ghost t: Bytes, ghost k: nat) returns (ok: bool, c: int, ghost k': nat)
      requires k < |t| && t[k] == BACKSLASH && Collected(t, k, BACKSLASH as int)
      modifies this`saved, stream, stream.buffer
      ensures Valid() && |stream.rest| <= |t| - k
      ensures ok <==> UnitLen(t[k..]) != 0
      ensures ok ==> k' == k + UnitLen(t[k..]) && Collected(t, k', c)
    {
      hide Stream.Valid, UnitLen;
      k' := k + 1;
      c := Collect(t, k, BACKSLASH as int);
      EscapeLen(t, k);
      if c == LETTER_U as int {
        ok, c, k' := HexDigits(t, k, c);
        return;
      } else if c == QUOTE as int || c == BACKSLASH as int || c == SLASH as int ||
                c == 0x62 || c == 0x66 || c == 0x6E || c == 0x72 || c == 0x74 {
        c := Collect(t, k', c);
        k' := k' + 1;
      } else {
        return false, c, k';
      }
      return true, c, k';
    }

    lemma CollectedAt(t: Bytes, k: nat, c: int)
      requires Collected(t, k, c)
      ensures Valid() && k <= |t| && |stream.rest| <= |t| - k
      ensures if k < |t| then t[k] < 0xFE && c == Signed(t[k]) else c < 0
    {
    }

    /** The four digits after the letter u. */
    method HexDigits(ghost t: Bytes, ghost k: nat, ghost u: int) returns (ok: bool, c: int, ghost k': nat)
      requires k + 1 < |t| && t[k] == BACKSLASH && t[k + 1] == LETTER_U && Collected(t, k + 1, u)
      modifies this`saved, stream, stream.buffer
      ensures Valid() && |stream.rest| <= |t| - k
      ensures ok <==> UnitLen(t[k..]) != 0
      ensures ok ==> k' == k + UnitLen(t[k..]) && Collected(t, k', c)
    {
      hide Stream.Valid, UnitLen, Lexer.Collected, Lexer.Valid;
      k' := k + 2;
      c := Collect(t, k + 1, u);
      for i := 0 to 4
        invariant k' == k + 2 + i <= |t| && Collected(t, k', c)
        invariant forall j :: k + 2 <= j < k' ==> IsHex(t[j])
      {
        CollectedAt(t, k', c);
        if !IsHex(c) {
          NotHex(t, k, k');
          return false, c, k';
        }
        c := Collect(t, k', c);
        k' := k' + 1;
      }
      CollectedAt(t, k', c);
      FourHex(t, k);
      return true, c, k';
    }

    /** lex_scan_string; t is the text from the opening quote on. */
    method ScanString(ghost t: Bytes)
      requires t != [] && t[0] == QUOTE && Collected(t, 0, QUOTE as int)
      modifies this`saved, this`token, stream, stream.buffer
      ensures Valid() && |stream.rest| < |t| && token == ScanText(t).0 &&
        (token != Invalid ==> stream.rest == ScanText(t).1)
    {
      hide Stream.Valid, StringEnd, UnitLen, Unescape;
      token := Invalid;
      var ok := FirstPass(t);
      if !ok {
        return;
      }
      QuotedBody(t, saved);
      var found, text := SecondPass(saved);
      if found {
        token := Text(text);
      }
    }

    // ---- lex_scan_number ----

    /** The digits of a number, after the first: do ... while. */
    method Digits(ghost t: Bytes, ghost d: nat, ghost c: int) returns (c': int, ghost k: nat)
      requires d < |t| && IsDigit(t[d]) && Collected(t, d, c)
      modifies this`saved, stream, stream.buffer
      ensures k == d + DigitRun(t[d..]) && Collected(t, k, c')
    {
      hide Stream.Valid, DigitRun;
      k := d + 1;
      c' := Collect(t, d, c);
      while 0x30 <= c' <= 0x39
        invariant d < k && Collected(t, k, c') && forall j :: d <= j < k ==> IsDigit(t[j])
        decreases |t| - k
      {
        c' := Collect(t, k, c');
        k := k + 1;
      }
      DigitRunIs(t, d, k);
    }

    /** lex_scan_number; t is the text from the number on. */
    method ScanNumber(c: int, ghost t: Bytes) returns (rc: int)
      requires t != [] && (IsDigit(t[0]) || t[0] == MINUS) && Collected(t, 0, c)
      modifies this`saved, this`token, stream, stream.buffer
      ensures Valid() && |stream.rest| <= |t|
      ensures token == JsonText.ScanNumber(t).0 && (token != Invalid ==> stream.rest == JsonText.ScanNumber(t).1)
      ensures rc == if token == Invalid then -1 else 0
    {
      hide Stream.Valid, DigitRun, JsonText.ScanNumber, NumberLen, StrtolText;
      token := Invalid;
      ghost var k := 0;
      var next := c;
      if next == MINUS as int {
        next := Collect(t, 0, next);
        k := 1;
      }
      ghost var d := k;
      FirstDigit(t, d);
      if next == 0x30 {
        next := Collect(t, k, next);
        k := k + 1;
        LeadingZero(t, d);
        NoNumber(t, d);
        if 0x30 <= next <= 0x39 {
          Uncollect(next, t, k);
          return -1;
        }
      } else if 0x30 <= next <= 0x39 {
        next, k := Digits(t, k, next);
      } else {
        NoNumber(t, d);
        Uncollect(next, t, k);
        return -1;
      }
      NumberText(t, d, k);
      if next != 0x2E && next != 0x45 && next != 0x65 {
        Uncollect(next, t, k);
        token := Number(StrtolText(saved));
        return 0;
      }
      return -1;
    }

    // ---- lex_scan ----

    /** Skips white space; c is the first byte after it, and t is the text from there on. */
    method SkipBlanks() returns (c: int, ghost t: Bytes)
      requires Valid()
      modifies stream, stream.buffer
      ensures At(t, 0, c) && t == SkipSpace(old(stream.rest))
    {
      hide Stream.Valid;
      ghost var s := stream.rest;
      ghost var k := 0;
      assert s[0..] == s;
      c := Get(s, 0);
      while c == SPACE as int || c == 0x09 || c == NEWLINE as int || c == 0x0D
        invariant At(s, k, c) && SkipSpace(s[k..]) == SkipSpace(s)
        decreases |s| - k
      {
        Suffixes(s, k, 1, 1);
        k := k + 1;
        c := Get(s, k);
      }
      t := s[k..];
      if k < |s| { Suffixes(s, k, 1, 1); }
    }

    /** A word: letters up to the first byte that is none. */
    method ScanWord(c: int, ghost t: Bytes)
      requires t != [] && IsAlpha(t[0]) && Collected(t, 0, c)
      modifies this`saved, this`token, stream, stream.buffer
      ensures Valid() && token == Word(t[..AlphaRun(t)]) && stream.rest == AfterUnget(t[AlphaRun(t)..])
    {
      hide Stream.Valid, AlphaRun;
      ghost var k := 1;
      var next := Collect(t, 0, c);
      while 0x41 <= next <= 0x5A || 0x61 <= next <= 0x7A
        invariant 1 <= k && Collected(t, k, next) && forall j :: 0 <= j < k ==> IsAlpha(t[j])
        decreases |t| - k
      {
        next := Collect(t, k, next);
        k := k + 1;
      }
      AlphaRunIs(t, k);
      Uncollect(next, t, k);
      token := Word(saved);
    }

    /** lex_scan */
    method Scan()
      requires Valid()
      modifies this`saved, this`token, stream, stream.buffer
      ensures Valid() && |stream.rest| <= |old(stream.rest)|
      ensures var (tok, r) := JsonText.Scan(old(stream.rest), stream.end == ERROR);
              token == tok && (tok != Invalid ==> stream.rest == r)
    {
      hide Stream.Valid, JsonText.ScanNumber, ScanText, AlphaRun, SkipSpace;
      saved := [];
      var c;
      ghost var t;
      c, t := SkipBlanks();
      if c == EOF {
        token := Eof;
        return;
      }
      if c == ERROR {
        token := Invalid;
        return;
      }
      saved := [Unsigned(c)];
      if c == OPEN_OBJECT as int || c == CLOSE_OBJECT as int || c == OPEN_ARRAY as int || c == CLOSE_ARRAY as int ||
         c == COLON as int || c == COMMA as int {
        token := Punct(Unsigned(c));
      } else if c == QUOTE as int {
        ScanString(t);
      } else if 0x30 <= c <= 0x39 || c == MINUS as int {
        var _ := ScanNumber(c, t);
      } else if 0x41 <= c <= 0x5A || 0x61 <= c <= 0x7A {
        ScanWord(c, t);
      } else {
        token := Invalid;
      }
    }

    // ---- the parser ----

    /** What a call of the parser has to return, and where it leaves the stream. */
    ghost predicate Returns(json: Option<Value>, p: Parsed)
      reads stream
    {
      json == (if p.Done? then Some(p.value) else Option.None) && (p.Done? ==> stream.rest == p.rest)
    }

    /** parse_value */
    method ParseValue() returns (json: Option<Value>)
      requires Valid() && depth <= MAX_DEPTH
      modifies this, stream, stream.buffer
      ensures Valid() && (json.Some? ==> depth == old(depth))
      ensures Returns(json, JsonText.ParseValue(old(token), old(stream.rest), stream.end == ERROR, old(depth), m))
      decreases MAX_DEPTH + 1 - depth, 0
    {
      hide Stream.Valid, JsonText.Scan, JsonText.ParseItems, JsonText.ParseMembers;
      depth := depth + 1;
      if depth > MAX_DEPTH {
        return Option.None;
      }
      match token {
        case Text(text) =>
          if !m.allowNul && 0 in text {
            return Option.None;
          }
          json := Some(String(text));
        case Number(n) => json := Some(Integer(n));
        case TrueWord => json := Some(True);
        case FalseWord => json := Some(False);
        case NullWord => json := Some(Null);
        case Punct(c) =>
          if c == OPEN_OBJECT {
            json := ParseObject();
          } else if c == OPEN_ARRAY {
            json := ParseArray();
          } else {
            return Option.None;
          }
        case _ => return Option.None;
      }
      if json.Some? {
        depth := depth - 1;
      }
    }

    /** What the loop of parse_array still has to return at the token of an element. */
    ghost function ItemsLeft(items: seq<Value>): Parsed
      reads this, stream
    {
      if token == Eof || token == Invalid then Fail
      else JsonText.ParseItems(token, stream.rest, stream.end == ERROR, depth, m, items)
    }

    /** parse_array, after the opening bracket. */
    method ParseArray() returns (json: Option<Value>)
      requires Valid() && 0 < depth <= MAX_DEPTH
      modifies this, stream, stream.buffer
      ensures Valid() && (json.Some? ==> depth == old(depth))
      ensures Returns(json, JsonText.ParseValue(Punct(OPEN_ARRAY), old(stream.rest), stream.end == ERROR,
        old(depth) - 1, m))
      decreases MAX_DEPTH + 1 - depth, 1
    {
      hide Stream.Valid, JsonText.Scan, JsonText.ParseValue, JsonText.ParseItems;
      ghost var p := JsonText.ParseValue(Punct(OPEN_ARRAY), stream.rest, stream.end == ERROR, depth - 1, m);
      ArrayOpens(stream.rest, stream.end == ERROR, depth - 1, m);
      InvalidFails(stream.end == ERROR, depth, m);
      var items: seq<Value> := [];
      Scan();
      if token == Punct(CLOSE_ARRAY) {
        return Some(Array(items));
      }
      while token != Eof
        invariant Valid() && depth == old(depth)
        invariant p == ItemsLeft(items)
        decreases |stream.rest|
      {
        ghost var tok, s := token, stream.rest;
        var elem := ParseValue();
        if elem.None? {
          ItemFails(tok, s, stream.end == ERROR, old(depth), m, items);
          return Option.None;
        }
        ItemDone(tok, s, stream.end == ERROR, depth, m, items);
        items := items + [elem.value];
        Scan();
        if token != Punct(COMMA) {
          break;
        }
        Scan();
      }
      if token != Punct(CLOSE_ARRAY) {
        return Option.None;
      }
      return Some(Array(items));
    }

    /** What the loop of parse_object still has to return at the token of a key. */
    ghost function MembersLeft(members: Entries<Bytes, Value>): Parsed
      reads this, stream
    {
      if !token.Text? then Fail
      else JsonText.ParseMembers(token.text, stream.rest, stream.end == ERROR, depth, m, members)
    }

    /** parse_object, after the opening brace. */
    method ParseObject() returns (json: Option<Value>)
      requires Valid() && 0 < depth <= MAX_DEPTH
      modifies this, stream, stream.buffer
      ensures Valid() && (json.Some? ==> depth == old(depth))
      ensures Returns(json, JsonText.ParseValue(Punct(OPEN_OBJECT), old(stream.rest), stream.end == ERROR,
        old(depth) - 1, m))
      decreases MAX_DEPTH + 1 - depth, 1
    {
      hide Stream.Valid, JsonText.Scan, JsonText.ParseValue, JsonText.ParseMembers;
      ghost var p := JsonText.ParseValue(Punct(OPEN_OBJECT), stream.rest, stream.end == ERROR, depth - 1, m);
      ObjectOpens(stream.rest, stream.end == ERROR, depth - 1, m);
      InvalidFails(stream.end == ERROR, depth, m);
      var members: Entries<Bytes, Value> := [];
      Scan();
      if token == Punct(CLOSE_OBJECT) {
        return Some(Object(members));
      }
      while true
        invariant Valid() && depth == old(depth)
        invariant p == MembersLeft(members)
        decreases |stream.rest|
      {
        if !token.Text? {
          return Option.None;
        }
        var key := token.text;
        ghost var s := stream.rest;
        MemberDone(key, s, stream.end == ERROR, depth, m, members);
        if 0 in key {
          return Option.None;
        }
        if m.rejectDuplicates && OrderedMap.Get(members, key).Some? {
          return Option.None;
        }
        Scan();
        if token != Punct(COLON) {
          return Option.None;
        }
        Scan();
        var value := ParseValue();
        if value.None? {
          return Option.None;
        }
        members := OrderedMap.Set(members, key, value.value);
        Scan();
        if token != Punct(COMMA) {
          break;
        }
        Scan();
      }
      if token != Punct(CLOSE_OBJECT) {
        return Option.None;
      }
      return Some(Object(members));
    }

    /** parse_json */
    method ParseJson() returns (result: Option<Value>)
      requires Valid() && stream.rest == Feed(stream.src) && stream.end == EndOf(stream.src)
      modifies this, stream, stream.buffer
      ensures result == JsonText.ParseJson(stream.src, m)
    {
      hide Stream.Valid, JsonText.Scan, JsonText.ParseValue, Feed;
      depth := 0;
      Scan();
      if !m.decodeAny {
        if token != Punct(OPEN_ARRAY) && token != Punct(OPEN_OBJECT) {
          return Option.None;
        }
      }
      InvalidFails(stream.end == ERROR, 0, m);
      result := ParseValue();
      if result.None? {
        return Option.None;
      }
      if !m.disableEofCheck {
        Scan();
        if token != Eof {
          return Option.None;
        }
      }
    }
  }

  lemma InvalidFails(bad: bool, depth: nat, m: Mode)
    ensures forall s :: JsonText.ParseValue(Invalid, s, bad, depth, m) == Fail
  {
  }

  lemma ArrayOpens(s: Bytes, bad: bool, depth: nat, m: Mode)
    requires depth + 1 <= MAX_DEPTH
    ensures var (t, r) := JsonText.Scan(s, bad);
            JsonText.ParseValue(Punct(OPEN_ARRAY), s, bad, depth, m) ==
              if t == Punct(CLOSE_ARRAY) then Done(Array([]), r)
              else if t == Eof || t == Invalid then Fail
              else ParseItems(t, r, bad, depth + 1, m, [])
  {
  }

  lemma ItemFails(tok: Token, s: Bytes, bad: bool, depth: nat, m: Mode, items: seq<Value>)
    requires JsonText.ParseValue(tok, s, bad, depth, m).Fail?
    ensures ParseItems(tok, s, bad, depth, m, items) == Fail
  {
  }

  lemma ItemDone(tok: Token, s: Bytes, bad: bool, depth: nat, m: Mode, items: seq<Value>)
    requires JsonText.ParseValue(tok, s, bad, depth, m).Done?
    ensures tok != Eof && tok != Invalid
    ensures var p := JsonText.ParseValue(tok, s, bad, depth, m);
            var (t, r) := JsonText.Scan(p.rest, bad);
            var (t', r') := JsonText.Scan(r, bad);
            ParseItems(tok, s, bad, depth, m, items) ==
              if t == Punct(CLOSE_ARRAY) then Done(Array(items + [p.value]), r)
              else if t != Punct(COMMA) || t' == Eof || t' == Invalid then Fail
              else ParseItems(t', r', bad, depth, m, items + [p.value])
    ensures var p := JsonText.ParseValue(tok, s, bad, depth, m);
            var (t, r) := JsonText.Scan(p.rest, bad);
            t == Punct(COMMA) ==> |r| < |s|
  {
  }

  lemma ObjectOpens(s: Bytes, bad: bool, depth: nat, m: Mode)
    requires depth + 1 <= MAX_DEPTH
    ensures var (t, r) := JsonText.Scan(s, bad);
            JsonText.ParseValue(Punct(OPEN_OBJECT), s, bad, depth, m) ==
              if t == Punct(CLOSE_OBJECT) then Done(Object([]), r)
              else if t.Text? then ParseMembers(t.text, r, bad, depth + 1, m, [])
              else Fail
  {
  }

  lemma MemberDone(key: Bytes, s: Bytes, bad: bool, depth: nat, m: Mode, members: Entries<Bytes, Value>)
    ensures var p := ParseMembers(key, s, bad, depth, m, members);
            var (colon, r) := JsonText.Scan(s, bad);
            var (t, r') := JsonText.Scan(r, bad);
            var v := JsonText.ParseValue(t, r', bad, depth, m);
            if 0 in key || (m.rejectDuplicates && OrderedMap.Get(members, key).Some?) || colon != Punct(COLON) ||
              v.Fail?
            then p == Fail
            else
              var more := OrderedMap.Set(members, key, v.value);
              var (t', r'') := JsonText.Scan(v.rest, bad);
              var (t'', r3) := JsonText.Scan(r'', bad);
              (t' == Punct(COMMA) ==> |r''| < |s|) &&
              p == if t' == Punct(CLOSE_OBJECT) then Done(Object(more), r'')
                   else if t' != Punct(COMMA) || !t''.Text? then Fail
                   else ParseMembers(t''.text, r3, bad, depth, m, more)
  {
  }

  lemma AlphaRunIs(t: Bytes, k: nat)
    requires k <= |t| && (forall j :: 0 <= j < k ==> IsAlpha(t[j])) && (k < |t| ==> !IsAlpha(t[k]))
    ensures k == AlphaRun(t)
  {
  }

  lemma DigitRunIs(t: Bytes, d: nat, k: nat)
    requires d <= k <= |t| && (forall j :: d <= j < k ==> IsDigit(t[j])) && (k < |t| ==> !IsDigit(t[k]))
    ensures k == d + DigitRun(t[d..])
  {
    var n := DigitRun(t[d..]);
    assert forall j :: 0 <= j < n ==> t[d..][j] == t[d + j];
  }

  /** No digit at d: no number. */
  lemma FirstDigit(t: Bytes, d: nat)
    requires d <= |t|
    ensures (d == |t| || !IsDigit(t[d])) ==> NumberLen(t[d..]) == 0
    ensures d < |t| && IsDigit(t[d]) && t[d] != 0x30 ==> NumberLen(t[d..]) == DigitRun(t[d..])
  {
  }

  /** After a leading zero, another digit makes the number invalid. */
  lemma LeadingZero(t: Bytes, d: nat)
    requires d < |t| && t[d] == 0x30
    ensures NumberLen(t[d..]) == if d + 1 < |t| && IsDigit(t[d + 1]) then 0 else 1
  {
    var u := t[d..];
    assert DigitRun(u) == 1 + DigitRun(u[1..]);
    if d + 1 < |t| { assert u[1] == t[d + 1] == u[1..][0]; }
  }

  /** The number that starts at the sign or digit at the front of t, and whose digits are at [d, k). */
  lemma NoNumber(t: Bytes, d: nat)
    requires t != [] && (IsDigit(t[0]) || t[0] == MINUS) && d == (if t[0] == MINUS then 1 else 0)
    ensures NumberLen(t[d..]) == 0 ==> JsonText.ScanNumber(t).0 == Invalid
  {
    assert t[0..] == t;
  }

  lemma NumberText(t: Bytes, d: nat, k: nat)
    requires t != [] && (IsDigit(t[0]) || t[0] == MINUS) && d == (if t[0] == MINUS then 1 else 0)
    requires d < k <= |t| && NumberLen(t[d..]) == k - d
    ensures JsonText.ScanNumber(t) ==
      if k < |t| && (t[k] == 0x2E || t[k] == 0x45 || t[k] == 0x65) then (Invalid, t)
      else (Number(StrtolText(t[..k])), AfterUnget(t[k..]))
  {
    var u := t[d..];
    Suffixes(t, d, k - d, k - d);
    assert u[..k - d] == t[d..k] && t[..k][d..] == t[d..k];
    if d == 0 { assert t[0..] == t && t[..k][0..] == t[..k]; }
  }

  lemma AheadOf(t: Bytes)
    requires t != [] && t[0] != QUOTE
    ensures StringEnd(t) == if UnitLen(t) == 0 then Option.None else Shift(UnitLen(t), StringEnd(t[UnitLen(t)..]))
    ensures t[0] < 0x20 ==> UnitLen(t) == 0
    ensures t[0] >= 0x20 && t[0] != BACKSLASH ==> UnitLen(t) == 1
  {
  }

  /** The first pass at a byte that is not a quote: it takes one unit, or fails. */
  lemma Ahead(t: Bytes, k: nat)
    requires k < |t| && t[k] != QUOTE
    ensures var n := UnitLen(t[k..]);
            k + n <= |t| &&
            StringEnd(t[k..]) == if n == 0 then Option.None else Shift(n, StringEnd(t[k + n..]))
    ensures t[k] < 0x20 ==> UnitLen(t[k..]) == 0
    ensures t[k] >= 0x20 && t[k] != BACKSLASH ==> UnitLen(t[k..]) == 1
  {
    hide StringEnd, UnitLen;
    AheadOf(t[k..]);
    Suffixes(t, k, UnitLen(t[k..]), UnitLen(t[k..]));
  }

  lemma EndMissing(t: Bytes, k: nat)
    requires k == |t|
    ensures StringEnd(t[k..]) == Option.None
  {
  }

  lemma EndHere(t: Bytes, k: nat)
    requires k < |t| && t[k] == QUOTE
    ensures StringEnd(t[k..]) == Some(0)
  {
  }

  /** Two-character escapes, and what is not an escape. */
  lemma EscapeLen(s: Bytes, k: nat)
    requires k < |s| && s[k] == BACKSLASH
    ensures k + 1 == |s| ==> UnitLen(s[k..]) == 0
    ensures k + 1 < |s| && s[k + 1] != LETTER_U ==> UnitLen(s[k..]) == if IsShort(s[k + 1]) then 2 else 0
  {
    if k + 1 < |s| { assert s[k..][1] == s[k + 1]; }
  }

  lemma NotHex(s: Bytes, k: nat, j: nat)
    requires k + 2 <= j < k + 6 && k + 1 < |s| && j <= |s| && s[k] == BACKSLASH && s[k + 1] == LETTER_U
    requires j < |s| ==> !IsHex(s[j])
    ensures UnitLen(s[k..]) == 0
  {
    if k + 6 <= |s| { assert s[k..][2..6][j - k - 2] == s[j]; }
  }

  lemma FourHex(s: Bytes, k: nat)
    requires k + 6 <= |s| && s[k] == BACKSLASH && s[k + 1] == LETTER_U && forall j :: k + 2 <= j < k + 6 ==> IsHex(s[j])
    ensures UnitLen(s[k..]) == 6
  {
    Suffixes(s, k, 2, 6);
    assert s[k..][1] == s[k + 1];
  }

  /** The saved token: its body is what Unescape reads. */
  lemma QuotedBody(t: Bytes, saved: Bytes)
    requires t != [] && StringEnd(t[1..]).Some? && StringEnd(t[1..]).value + 2 <= |t|
    requires saved == t[..StringEnd(t[1..]).value + 2]
    ensures var n := StringEnd(t[1..]).value;
            2 <= |saved| && StringEnd(saved[1..]) == Some(|saved| - 2) &&
            saved[1..|saved| - 1] == t[1..][..n] && t[1..][n + 1..] == t[n + 2..]
  {
    var n := StringEnd(t[1..]).value;
    assert saved[1..] == t[1..][..n + 1];
    EndOnlyLooksBack(t[1..]);
  }

  /** The first pass does not look beyond the closing quote. */
  lemma {:induction false} EndOnlyLooksBack(s: Bytes)
    requires StringEnd(s).Some? && StringEnd(s).value < |s|
    ensures StringEnd(s[..StringEnd(s).value + 1]) == StringEnd(s)
    decreases |s|
  {
    if s[0] != QUOTE {
      var n := UnitLen(s);
      var t := s[..StringEnd(s).value + 1];
      JsonText.EndInside(s[n..]);
      EndOnlyLooksBack(s[n..]);
      assert t[n..] == s[n..][..StringEnd(s[n..]).value + 1];
      if n == 6 { assert t[2..6] == s[2..6]; }
      assert UnitLen(t) == n;
    }
  }
}
