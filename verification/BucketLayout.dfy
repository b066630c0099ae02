/**
  How the buckets of the hash table partition its single list: bucket b owns the positions
  [spans[b].lo, spans[b].hi) of the list, and `owners[j]` is the bucket of the pair at
  position j.
*/
module BucketLayout {

  datatype Span = Span(lo: nat, hi: nat)

  const NO_SPAN := Span(0, 0)

  /** Every bucket is one contiguous run of the list, and the runs are disjoint and cover it. */
  ghost predicate Tiles(owners: seq<nat>, spans: seq<Span>) {
    (forall b :: 0 <= b < |spans| ==> spans[b].lo <= spans[b].hi <= |owners|) &&
    (forall j :: 0 <= j < |owners| ==> owners[j] < |spans|) &&
    (forall b, j :: 0 <= b < |spans| && 0 <= j < |owners| ==>
      (spans[b].lo <= j < spans[b].hi <==> owners[j] == b))
  }

  predicate Empty(s: Span) {
    s.lo == s.hi
  }

  /** Where a new pair of bucket b goes: before the bucket's first pair, or at the end of the list. */
  function InsertPos(owners: seq<nat>, spans: seq<Span>, b: nat): nat
    requires b < |spans|
  {
    if Empty(spans[b]) then |owners| else spans[b].lo
  }

  function InsertOwner(owners: seq<nat>, p: nat, b: nat): seq<nat>
    requires p <= |owners|
  {
    owners[..p] + [b] + owners[p..]
  }

  function InsertSpans(spans: seq<Span>, p: nat, b: nat): (r: seq<Span>)
    requires b < |spans|
    ensures |r| == |spans|
  {
    seq(|spans|, i requires 0 <= i < |spans| =>
      if i == b then Span(p, if Empty(spans[i]) then p + 1 else spans[i].hi + 1)
      else if Empty(spans[i]) || spans[i].hi <= p then spans[i]
      else Span(spans[i].lo + 1, spans[i].hi + 1))
  }

  function RemoveOwner(owners: seq<nat>, p: nat): seq<nat>
    requires p < |owners|
  {
    owners[..p] + owners[p + 1..]
  }

  function RemoveSpans(spans: seq<Span>, p: nat, b: nat): (r: seq<Span>)
    requires b < |spans| && spans[b].lo <= p < spans[b].hi
    ensures |r| == |spans|
  {
    seq(|spans|, i requires 0 <= i < |spans| =>
      if i == b then (if spans[i].lo + 1 == spans[i].hi then NO_SPAN else Span(spans[i].lo, spans[i].hi - 1))
      else if Empty(spans[i]) then NO_SPAN
      else if spans[i].hi <= p then spans[i]
      else if 0 < spans[i].lo then Span(spans[i].lo - 1, spans[i].hi - 1) else NO_SPAN)
  }

  /** Two buckets never overlap. */
  lemma Apart(owners: seq<nat>, spans: seq<Span>, b: nat, c: nat)
    requires Tiles(owners, spans) && b < |spans| && c < |spans| && b != c
    requires !Empty(spans[b]) && !Empty(spans[c])
    ensures spans[b].hi <= spans[c].lo || spans[c].hi <= spans[b].lo
  {
    assert owners[spans[b].lo] == b && owners[spans[c].lo] == c;
  }

  lemma InsertTiles(owners: seq<nat>, spans: seq<Span>, b: nat)
    requires Tiles(owners, spans) && b < |spans|
    ensures var p := InsertPos(owners, spans, b);
            p <= |owners| && Tiles(InsertOwner(owners, p, b), InsertSpans(spans, p, b))
  {
    var p := InsertPos(owners, spans, b);
    var os := InsertOwner(owners, p, b);
    var ss := InsertSpans(spans, p, b);
    forall c, j | 0 <= c < |ss| && 0 <= j < |os| ensures ss[c].lo <= j < ss[c].hi <==> os[j] == c {
      if c != b && !Empty(spans[c]) && !Empty(spans[b]) { Apart(owners, spans, b, c); }
      if j < p { assert os[j] == owners[j]; }
      if j > p { assert os[j] == owners[j - 1]; }
    }
  }

  lemma RemoveTiles(owners: seq<nat>, spans: seq<Span>, p: nat)
    requires Tiles(owners, spans) && p < |owners|
    ensures Tiles(RemoveOwner(owners, p), RemoveSpans(spans, p, owners[p]))
  {
    var b := owners[p];
    var os := RemoveOwner(owners, p);
    var ss := RemoveSpans(spans, p, b);
    forall c | 0 <= c < |ss| && c != b && !Empty(spans[c])
      ensures spans[c].hi <= p || p < spans[c].lo
    {
      Apart(owners, spans, b, c);
    }
    forall c, j | 0 <= c < |ss| && 0 <= j < |os| ensures ss[c].lo <= j < ss[c].hi <==> os[j] == c {
      if j < p { assert os[j] == owners[j]; } else { assert os[j] == owners[j + 1]; }
    }
  }

  lemma NoTiles(n: nat)
    ensures Tiles([], seq(n, i => NO_SPAN))
  {
  }
}
