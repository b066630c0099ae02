/** Every value the parser returns can be parsed again. */
module JsonParsed {
  import opened Options
  import opened OrderedMap
  import opened Utf8
  import opened JsonString
  import opened JsonText
  import opened JsonRoundTrip

  /** A value the parser may return below a given depth. */
  ghost predicate Returnable(v: Value, depth: nat, m: Mode) {
    Legal(v) && InRange(v) && Fits(v, depth, m)
  }

  // ---- tokens ----

  lemma OnlyFirstIsAscii(s: Bytes, n: nat)
    requires n <= |s| && IsChar(s[..n])
    ensures forall k :: 0 < k < n ==> s[k] >= 0x80
  {
    assert forall k :: 0 <= k < n ==> s[..n][k] == s[k];
  }

  lemma CutLater(s: Bytes, n: nat, i: nat)
    requires n <= i <= |s|
    ensures s[..i] == s[..n] + s[n..][..i - n] && s[i..] == s[n..][i - n..]
  {
  }

  /** Well-formed strings may be cut at any ASCII byte. */
  lemma {:induction false} CutAtAscii(s: Bytes, i: nat)
    requires WellFormed(s) && i < |s| && s[i] < 0x80
    ensures WellFormed(s[..i]) && WellFormed(s[i..])
    decreases i
  {
    if i == 0 {
      assert s[..0] == [] && s[0..] == s;
    } else {
      var n := FirstLen(s[0]);
      WellFormedStep(s);
      OnlyFirstIsAscii(s, n);
      CutLater(s, n, i);
      CutAtAscii(s[n..], i - n);
      CharWellFormed(s[..n]);
      WellFormedConcat(s[..n], s[n..][..i - n]);
    }
  }

  lemma AfterAscii(s: Bytes)
    requires WellFormed(s) && s != [] && s[0] < 0x80
    ensures WellFormed(s[1..])
  {
    WellFormedStep(s);
  }

  lemma {:induction false} SkipSpaceWellFormed(s: Bytes)
    requires WellFormed(s)
    ensures WellFormed(SkipSpace(s))
  {
    if s != [] && IsSpace(s[0]) {
      AfterAscii(s);
      SkipSpaceWellFormed(s[1..]);
    }
  }

  lemma {:induction false} AfterAsciiRun(s: Bytes, n: nat)
    requires WellFormed(s) && n <= |s| && forall k :: 0 <= k < n ==> s[k] < 0x80
    ensures WellFormed(s[n..])
  {
    if n > 0 {
      AfterAscii(s);
      AfterAsciiRun(s[1..], n - 1);
      assert s[1..][n - 1..] == s[n..];
    }
  }

  lemma AfterUngetWellFormed(s: Bytes)
    requires WellFormed(s)
    ensures WellFormed(AfterUnget(s))
  {
    if s != [] && s[0] == 0 { AfterAscii(s); }
  }

  lemma TextWellFormed(s: Bytes)
    requires WellFormed(s) && s != [] && s[0] == QUOTE
    ensures var (tok, r) := ScanText(s); tok != Invalid ==> tok.Text? && WellFormed(tok.text) && WellFormed(r)
  {
    hide WellFormed, StringEnd, Unescape;
    AfterAscii(s);
    var t := s[1..];
    if StringEnd(t).Some? {
      var n := StringEnd(t).value;
      EndInside(t);
      CutAtAscii(t, n);
      AfterAscii(t[n..]);
      assert t[n..][1..] == t[n + 1..];
      if Unescape(t[..n]).Some? { DecodedWellFormed(t[..n]); }
    }
  }

  lemma NumberWellFormed(s: Bytes)
    requires WellFormed(s) && s != [] && (IsDigit(s[0]) || s[0] == MINUS)
    ensures var (tok, r) := ScanNumber(s); tok != Invalid ==>
      tok.Number? && LONG_MIN <= tok.n <= LONG_MAX && WellFormed(r)
  {
    var u := if s[0] == MINUS then s[1..] else s;
    if s[0] == MINUS { AfterAscii(s); }
    assert forall k :: 0 <= k < NumberLen(u) ==> IsDigit(u[k]);
    AfterAsciiRun(u, NumberLen(u));
    AfterUngetWellFormed(u[NumberLen(u)..]);
  }

  /** Tokens of a well-formed text: texts are well formed, numbers in range, and so is what follows. */
  ghost predicate GoodToken(tok: Token, r: Bytes) {
    tok != Invalid && tok != Eof ==>
      WellFormed(r) && (tok.Text? ==> WellFormed(tok.text)) && (tok.Number? ==> LONG_MIN <= tok.n <= LONG_MAX)
  }

  lemma ScanGood(s: Bytes, bad: bool)
    requires WellFormed(s)
    ensures var (tok, r) := Scan(s, bad); GoodToken(tok, r)
  {
    var t := SkipSpace(s);
    SkipSpaceWellFormed(s);
    if t != [] {
      if IsPunct(t[0]) {
        AfterAscii(t);
      } else if t[0] == QUOTE {
        TextWellFormed(t);
      } else if IsDigit(t[0]) || t[0] == MINUS {
        NumberWellFormed(t);
      } else if IsAlpha(t[0]) {
        assert forall k :: 0 <= k < AlphaRun(t) ==> IsAlpha(t[k]);
        AfterAsciiRun(t, AlphaRun(t));
        AfterUngetWellFormed(t[AlphaRun(t)..]);
      }
    }
  }

  // ---- values ----

  ghost predicate GoodResult(p: Parsed, depth: nat, m: Mode) {
    p.Done? ==> Returnable(p.value, depth, m) && WellFormed(p.rest)
  }

  ghost predicate GoodItems(items: seq<Value>, depth: nat, m: Mode) {
    forall i :: 0 <= i < |items| ==> Returnable(items[i], depth, m)
  }

  ghost predicate GoodMembers(members: Entries<Bytes, Value>, depth: nat, m: Mode) {
    DistinctKeys(members) &&
    forall i :: 0 <= i < |members| ==>
      WellFormed(members[i].key) && 0 !in members[i].key && Returnable(members[i].value, depth, m)
  }

  lemma ParsedScalar(tok: Token, s: Bytes, bad: bool, depth: nat, m: Mode)
    requires GoodToken(tok, s) && !tok.Punct?
    ensures GoodResult(ParseValue(tok, s, bad, depth, m), depth, m)
  {
  }

  lemma ParsedEmpty(s: Bytes, depth: nat, m: Mode)
    requires WellFormed(s) && depth + 1 <= MAX_DEPTH
    ensures GoodResult(Done(Array([]), s), depth, m) && GoodResult(Done(Object([]), s), depth, m)
  {
  }

  lemma NoMembers(depth: nat, m: Mode)
    ensures GoodMembers([], depth, m)
  {
  }

  lemma {:induction false} ParsedObject(s: Bytes, bad: bool, depth: nat, m: Mode)
    requires WellFormed(s) && depth + 1 <= MAX_DEPTH
    ensures GoodResult(ParseValue(Punct(OPEN_OBJECT), s, bad, depth, m), depth, m)
    decreases |s|, 0
  {
    hide Returnable, GoodMembers, Scan;
    var p := ParseValue(Punct(OPEN_OBJECT), s, bad, depth, m);
    var (t, r) := Scan(s, bad);
    ScanGood(s, bad);
    NoMembers(depth + 1, m);
    if t == Punct(CLOSE_OBJECT) {
      ParsedEmpty(r, depth, m);
    } else if t.Text? {
      ParsedMembers(t.text, r, bad, depth + 1, m, []);
      assert p == ParseMembers(t.text, r, bad, depth + 1, m, []);
    } else {
      assert p == Fail;
    }
  }

  lemma {:induction false} ParsedArray(s: Bytes, bad: bool, depth: nat, m: Mode)
    requires WellFormed(s) && depth + 1 <= MAX_DEPTH
    ensures GoodResult(ParseValue(Punct(OPEN_ARRAY), s, bad, depth, m), depth, m)
    decreases |s|, 0
  {
    hide WellFormed, Scan;
    ScanGood(s, bad);
    var (t, r) := Scan(s, bad);
    if t == Punct(CLOSE_ARRAY) {
      ParsedEmpty(r, depth, m);
    } else if t != Eof && t != Invalid {
      ParsedItems(t, r, bad, depth + 1, m, []);
    }
  }

  lemma {:induction false} ParsedValue(tok: Token, s: Bytes, bad: bool, depth: nat, m: Mode)
    requires GoodToken(tok, s)
    ensures GoodResult(ParseValue(tok, s, bad, depth, m), depth, m)
    decreases |s|, 1
  {
    if !tok.Punct? {
      ParsedScalar(tok, s, bad, depth, m);
    } else if depth + 1 <= MAX_DEPTH {
      if tok == Punct(OPEN_OBJECT) {
        ParsedObject(s, bad, depth, m);
      } else if tok == Punct(OPEN_ARRAY) {
        ParsedArray(s, bad, depth, m);
      }
    }
  }

  lemma {:induction false} ParsedItems(tok: Token, s: Bytes, bad: bool, depth: nat, m: Mode, items: seq<Value>)
    requires GoodToken(tok, s) && 0 < depth <= MAX_DEPTH && GoodItems(items, depth, m)
    ensures GoodResult(ParseItems(tok, s, bad, depth, m, items), depth - 1, m)
    decreases |s|, 2
  {
    ParsedValue(tok, s, bad, depth, m);
    var p := ParseValue(tok, s, bad, depth, m);
    if p.Done? {
      var more := items + [p.value];
      ScanGood(p.rest, bad);
      var (t, r) := Scan(p.rest, bad);
      if t == Punct(COMMA) {
        ScanGood(r, bad);
        var (t', r') := Scan(r, bad);
        if t' != Eof && t' != Invalid { ParsedItems(t', r', bad, depth, m, more); }
      }
    }
  }

  lemma SetGood(members: Entries<Bytes, Value>, key: Bytes, v: Value, depth: nat, m: Mode)
    requires GoodMembers(members, depth, m) && WellFormed(key) && 0 !in key && Returnable(v, depth, m)
    ensures GoodMembers(OrderedMap.Set(members, key, v), depth, m)
  {
    GetAfterSet(members, key, v, key);
  }

  lemma {:induction false} ParsedMembers(key: Bytes, s: Bytes, bad: bool, depth: nat, m: Mode,
      members: Entries<Bytes, Value>)
    requires WellFormed(key) && WellFormed(s) && 0 < depth <= MAX_DEPTH && GoodMembers(members, depth, m)
    ensures GoodResult(ParseMembers(key, s, bad, depth, m, members), depth - 1, m)
    decreases |s|, 2
  {
    hide WellFormed, Scan;
    ScanGood(s, bad);
    var (colon, r) := Scan(s, bad);
    if 0 !in key && colon == Punct(COLON) {
      ScanGood(r, bad);
      var (t, r') := Scan(r, bad);
      ParsedValue(t, r', bad, depth, m);
      var p := ParseValue(t, r', bad, depth, m);
      if p.Done? {
        var more := OrderedMap.Set(members, key, p.value);
        SetGood(members, key, p.value, depth, m);
        ScanGood(p.rest, bad);
        var (t', r'') := Scan(p.rest, bad);
        if t' == Punct(COMMA) {
          ScanGood(r'', bad);
          var (t'', r3) := Scan(r'', bad);
          if t''.Text? { ParsedMembers(t''.text, r3, bad, depth, m, more); }
        }
      }
    }
  }

  lemma {:induction false} FeedWellFormed(src: Bytes)
    ensures WellFormed(Feed(src))
  {
    if src != [] {
      var n := FirstLen(src[0]);
      if 1 <= n <= |src| && IsChar(src[..n]) {
        FeedWellFormed(src[n..]);
        CharWellFormed(src[..n]);
        WellFormedConcat(src[..n], Feed(src[n..]));
      }
    }
  }

  /**
    Every value the parser returns, from any input, is legal and within its own limits;
    so printing it with any flags and parsing again returns it unchanged.
  */
  lemma ParsedRoundTrips(src: Bytes, m: Mode, f: Flags)
    requires ParseJson(src, m).Some?
    ensures var v := ParseJson(src, m).value;
            Legal(v) && InRange(v) && Depth(v) <= MAX_DEPTH && (m.allowNul || NulFree(v)) &&
            ParseJson(Print(v, f, 0), m) == Some(v)
  {
    hide Print, Legal, Scan, Feed, WellFormed, Depth, InRange, NulFree, Saturated, Fits;
    var s := Feed(src);
    var bad := |s| < |src|;
    var v := ParseJson(src, m).value;
    FeedWellFormed(src);
    ScanGood(s, bad);
    var (tok, r) := Scan(s, bad);
    ParsedValue(tok, r, bad, 0, m);
    FitsByDepth(v, 0, m);
    RoundTripIffInLimits(v, f, m);
  }
}
