/**
  The ring buffer: a bounded sequence that overwrites at the far end.

  `Buffer` is the block of cells with its two cursors and its size, changed in place; `contents` is the
  sequence it stands for. `Held` ties the two: the k-th element is in the k-th cell from `first` on, with
  wrap-around, and `last` is the cell after the last element. An unconstructed cell is `None`; `Tight` says
  that exactly the cells of the elements are constructed. The lemmas before the class are about cells as a
  sequence, so that each method reasons about one step of its loop at a time.
*/
module CircularBuffer {
  import opened Options
  import opened RingView

  /** The last, and the first, c elements of a sequence. */
  function LastOf<T>(c: nat, s: seq<T>): seq<T> {
    if |s| <= c then s else s[|s| - c..]
  }

  function FirstOf<T>(c: nat, s: seq<T>): seq<T> {
    if |s| <= c then s else s[..c]
  }

  /** A line of cells holds the elements, in order, from the front. */
  ghost predicate Hold<T>(line: seq<Option<T>>, xs: seq<T>) {
    |xs| <= |line| && forall k :: 0 <= k < |xs| ==> line[k] == Some(xs[k])
  }

  /** No cell from the n-th on is constructed. */
  ghost predicate Vacant<T>(line: seq<Option<T>>, n: nat) {
    forall k :: n <= k < |line| ==> line[k] == None
  }

  /** The ring holds the elements from `first` on, and `last` is the cell after them. */
  ghost predicate Held<T>(ring: seq<Option<T>>, first: nat, last: nat, xs: seq<T>) {
    first < |ring| && |xs| <= |ring| && last == Wrap(first + |xs|, |ring|) && Hold(Line(ring, first), xs)
  }

  // ---- what one store does ----

  lemma StoredBehind<T>(ring: seq<Option<T>>, first: nat, last: nat, xs: seq<T>, x: T)
    requires Held(ring, first, last, xs) && |xs| < |ring| && last < |ring|
    ensures var ring' := ring[last := Some(x)];
            Held(ring', first, Wrap(last + 1, |ring|), xs + [x]) &&
            (Vacant(Line(ring, first), |xs|) ==> Vacant(Line(ring', first), |xs| + 1))
  {
    hide Line;
    Store(ring, first, |xs|, Some(x));
    Next(first, |xs|, |ring|);
  }

  lemma StoredOver<T>(ring: seq<Option<T>>, first: nat, last: nat, xs: seq<T>, x: T)
    requires Held(ring, first, last, xs) && |xs| == |ring|
    ensures last == first
    ensures Held(ring[first := Some(x)], Wrap(first + 1, |ring|), Wrap(first + 1, |ring|), xs[1..] + [x])
  {
    hide Line;
    Store(ring, first, 0, Some(x));
    if |ring| > 1 { Later(ring[first := Some(x)], first, 1); }
  }

  lemma StoredBefore<T>(ring: seq<Option<T>>, first: nat, last: nat, xs: seq<T>, x: T, p: nat)
    requires Held(ring, first, last, xs) && |xs| < |ring| && p == Wrap(first + |ring| - 1, |ring|)
    ensures p < |ring|
    ensures var ring' := ring[p := Some(x)];
            Held(ring', p, last, [x] + xs) && (Vacant(Line(ring, first), |xs|) ==> Vacant(Line(ring', p), |xs| + 1))
  {
    hide Line;
    Later(ring, first, |ring| - 1);
    Store(ring, p, 0, Some(x));
  }

  lemma StoredUnder<T>(ring: seq<Option<T>>, first: nat, last: nat, xs: seq<T>, x: T, p: nat)
    requires Held(ring, first, last, xs) && |xs| == |ring| && p == Wrap(first + |ring| - 1, |ring|)
    ensures p < |ring| && Held(ring[p := Some(x)], p, p, [x] + xs[..|xs| - 1])
  {
    hide Line;
    Later(ring, first, |ring| - 1);
    Store(ring, p, 0, Some(x));
  }

  lemma DestroyedLast<T>(ring: seq<Option<T>>, first: nat, last: nat, xs: seq<T>, p: nat)
    requires Held(ring, first, last, xs) && xs != [] && p == Wrap(first + |xs| - 1, |ring|)
    ensures p < |ring|
    ensures var ring' := ring[p := None];
            Held(ring', first, p, xs[..|xs| - 1]) &&
            (Vacant(Line(ring, first), |xs|) ==> Vacant(Line(ring', first), |xs| - 1))
  {
    hide Line;
    Store(ring, first, |xs| - 1, None);
  }

  lemma DestroyedFirst<T>(ring: seq<Option<T>>, first: nat, last: nat, xs: seq<T>)
    requires Held(ring, first, last, xs) && xs != []
    ensures var ring' := ring[first := None];
            var first' := Wrap(first + 1, |ring|);
            first' < |ring| && Held(ring', first', last, xs[1..]) &&
            (Vacant(Line(ring, first), |xs|) ==> Vacant(Line(ring', first'), |xs| - 1))
  {
    hide Line;
    Store(ring, first, 0, None);
    if |ring| > 1 {
      Later(ring[first := None], first, 1);
      var m := Line(ring, first)[1..] + [None];
      assert Line(ring[first := None], Wrap(first + 1, |ring|)) == m;
      forall k | 0 <= k < |xs| - 1 ensures m[k] == Some(xs[1..][k]) {
      }
    }
  }

  lemma FullyVacant<T>(line: seq<Option<T>>)
    ensures Vacant(line, |line|)
  {
  }

  /** The cell before the end is that of the last element. */
  lemma HeldEnd<T>(ring: seq<Option<T>>, first: nat, last: nat, xs: seq<T>)
    requires Held(ring, first, last, xs) && xs != []
    ensures Wrap(first + |xs| - 1, |ring|) == if last == 0 then |ring| - 1 else last - 1
  {
  }

  // ---- moving elements ----

  /** The part of the ring that is kept when the first d elements are given up. */
  lemma KeptBack<T>(ring: seq<Option<T>>, first: nat, last: nat, xs: seq<T>, d: nat)
    requires Held(ring, first, last, xs) && d <= |xs|
    ensures var f := Wrap(first + d, |ring|);
            f < |ring| && last == Wrap(f + (|xs| - d), |ring|) && Hold(Line(ring, f), xs[d..])
  {
    hide Line;
    if d < |ring| { Later(ring, first, d); }
  }

  /** A line that starts n cells before the first element. */
  lemma KeptFront<T>(ring: seq<Option<T>>, first: nat, last: nat, xs: seq<T>, n: nat, m: nat)
    requires Held(ring, first, last, xs) && 1 <= n && m <= |xs| && n + m <= |ring|
    ensures var f := Wrap(first + |ring| - n, |ring|);
            f < |ring| && first == Wrap(f + n, |ring|) && last == Wrap(first + |xs|, |ring|) &&
            Hold(Line(ring, f)[n..], xs[..m]) &&
            (n + |xs| <= |ring| && Vacant(Line(ring, first), |xs|) ==> Vacant(Line(ring, f), |xs| + n))
  {
    hide Line;
    Later(ring, first, |ring| - n);
  }

  /** Of the first m cells of a line, the last i have moved n places back. */
  ghost predicate MovedBack<T>(l0: seq<T>, l: seq<T>, m: nat, n: nat, i: nat) {
    i <= m && m + n <= |l0| == |l| &&
    (forall j :: 0 <= j < m - i ==> l[j] == l0[j]) &&
    (forall j :: m + n <= j < |l| ==> l[j] == l0[j]) &&
    (forall j :: m + n - i <= j < m + n ==> l[j] == l0[j - n])
  }

  lemma MoveBackOne<T>(ring: seq<T>, f: nat, l0: seq<T>, m: nat, n: nat, i: nat)
    requires f < |ring| && 1 <= n && i < m && MovedBack(l0, Line(ring, f), m, n, i)
    ensures var src, dest := Wrap(f + (m - i - 1), |ring|), Wrap(f + (m + n - 1 - i), |ring|);
            src < |ring| && dest < |ring| && MovedBack(l0, Line(ring[dest := ring[src]], f), m, n, i + 1)
  {
    assert Line(ring, f)[m - i - 1] == ring[Wrap(f + (m - i - 1), |ring|)];
    Store(ring, f, m + n - 1 - i, Line(ring, f)[m - i - 1]);
    hide Line;
  }

  /** The cells from n on have moved to the front, i of them so far. */
  ghost predicate MovedFront<T>(l0: seq<T>, l: seq<T>, n: nat, i: nat) {
    i + n <= |l0| == |l| && (forall j :: 0 <= j < i ==> l[j] == l0[n + j]) &&
      (forall j :: n + i <= j < |l| ==> l[j] == l0[j])
  }

  lemma MoveFrontOne<T>(ring: seq<T>, f: nat, l0: seq<T>, n: nat, i: nat)
    requires f < |ring| && 1 <= n && n + i < |ring| && MovedFront(l0, Line(ring, f), n, i)
    ensures var src, dest := Wrap(f + (n + i), |ring|), Wrap(f + i, |ring|);
            src < |ring| && dest < |ring| && MovedFront(l0, Line(ring[dest := ring[src]], f), n, i + 1)
  {
    assert Line(ring, f)[n + i] == ring[Wrap(f + (n + i), |ring|)];
    Store(ring, f, i, Line(ring, f)[n + i]);
    hide Line;
  }

  /** New items lie from place k of a line on, i of them so far. */
  ghost predicate Filled<T>(l0: seq<Option<T>>, l: seq<Option<T>>, k: nat, items: seq<T>, i: nat) {
    i <= |items| && k + |items| <= |l0| == |l| &&
    (forall j :: 0 <= j < k ==> l[j] == l0[j]) && (forall j :: k + i <= j < |l| ==> l[j] == l0[j]) &&
    (forall t :: 0 <= t < i ==> l[k + t] == Some(items[t]))
  }

  lemma FillOne<T>(ring: seq<Option<T>>, f: nat, l0: seq<Option<T>>, k: nat, items: seq<T>, i: nat)
    requires f < |ring| && i < |items| && Filled(l0, Line(ring, f), k, items, i)
    ensures var p := Wrap(f + (k + i), |ring|);
            p < |ring| && Filled(l0, Line(ring[p := Some(items[i])], f), k, items, i + 1)
  {
    Store(ring, f, k + i, Some(items[i]));
    hide Line;
  }

  lemma Joined<T>(l0: seq<Option<T>>, l1: seq<Option<T>>, l2: seq<Option<T>>, xs: seq<T>, k: nat, items: seq<T>)
    requires Hold(l0, xs) && k <= |xs| && MovedBack(l0, l1, |xs|, |items|, |xs| - k) &&
      Filled(l1, l2, k, items, |items|)
    ensures Hold(l2, xs[..k] + items + xs[k..])
    ensures Vacant(l0, |xs|) ==> Vacant(l2, |xs| + |items|)
  {
  }

  lemma JoinedFront<T>(l0: seq<Option<T>>, l1: seq<Option<T>>, l2: seq<Option<T>>, xs: seq<T>, k: nat, items: seq<T>)
    requires k <= |xs| && |items| <= |l0| && Hold(l0[|items|..], xs)
    requires MovedFront(l0, l1, |items|, k) && Filled(l1, l2, k, items, |items|)
    ensures Hold(l2, xs[..k] + items + xs[k..])
    ensures Vacant(l0, |xs| + |items|) ==> Vacant(l2, |xs| + |items|)
  {
  }

  lemma MovedNone<T>(l0: seq<T>, m: nat, n: nat)
    requires m + n <= |l0|
    ensures MovedBack(l0, l0, m, n, 0)
  {
  }

  lemma HeldFrom<T>(ring: seq<Option<T>>, first: nat, last: nat, xs: seq<T>)
    requires first < |ring| && |xs| <= |ring| && last == Wrap(first + |xs|, |ring|) && Hold(Line(ring, first), xs)
    ensures last < |ring| && Held(ring, first, last, xs)
  {
  }

  class Buffer<T> {
    var cells: array<Option<T>>
    var first: nat
    var last: nat
    var size: nat
    ghost var contents: seq<T>

    ghost predicate Valid()
      reads this, cells
    {
      |contents| == size <= cells.Length &&
      if cells.Length == 0 then first == last == 0
      else first < cells.Length && last < cells.Length && Held(cells[..], first, last, contents)
    }

    /** Exactly the cells of the elements are constructed. */
    ghost predicate Tight()
      requires Valid()
      reads this, cells
    {
      cells.Length > 0 ==> Vacant(Line(cells[..], first), size)
    }

    constructor (capacity: nat)
      ensures Valid() && Tight() && fresh(cells) && cells.Length == capacity && contents == []
    {
      cells := new Option<T>[capacity](i => None);
      first, last, size := 0, 0, 0;
      contents := [];
    }

    predicate Empty()
      reads this
    {
      size == 0
    }

    predicate Full()
      reads this
    {
      size == cells.Length
    }

    /** increment and decrement of a cell pointer */
    function Increment(p: nat): nat
      reads `cells
    {
      if p + 1 == cells.Length then 0 else p + 1
    }

    function Decrement(p: nat): nat
      requires 0 < cells.Length
      reads `cells
    {
      if p == 0 then cells.Length - 1 else p - 1
    }

    // ---- the two ends ----

    method PushBack(item: T)
      requires Valid()
      modifies this, cells
      ensures Valid() && cells == old(cells) && (old(Tight()) ==> Tight())
      ensures contents == LastOf(cells.Length, old(contents) + [item])
    {
      hide Held, Vacant, Line;
      if Full() {
        if Empty() {
          return;
        }
        StoredOver(cells[..], first, last, contents, item);
        cells[last] := Some(item);
        last := Increment(last);
        first := last;
        contents := contents[1..] + [item];
        FullyVacant(Line(cells[..], first));
      } else {
        StoredBehind(cells[..], first, last, contents, item);
        cells[last] := Some(item);
        last := Increment(last);
        size := size + 1;
        contents := contents + [item];
      }
    }

    method PushFront(item: T)
      requires Valid()
      modifies this, cells
      ensures Valid() && cells == old(cells) && (old(Tight()) ==> Tight())
      ensures contents == FirstOf(cells.Length, [item] + old(contents))
    {
      hide Held, Vacant, Line;
      if Full() {
        if Empty() {
          return;
        }
        StoredUnder(cells[..], first, last, contents, item, Decrement(first));
        first := Decrement(first);
        cells[first] := Some(item);
        last := first;
        contents := [item] + contents[..size - 1];
        FullyVacant(Line(cells[..], first));
      } else {
        StoredBefore(cells[..], first, last, contents, item, Decrement(first));
        first := Decrement(first);
        cells[first] := Some(item);
        size := size + 1;
        contents := [item] + contents;
      }
    }

    method PopBack()
      requires Valid() && !Empty()
      modifies this, cells
      ensures Valid() && cells == old(cells) && (old(Tight()) ==> Tight())
      ensures contents == old(contents)[..old(size) - 1] && first == old(first)
    {
      HeldEnd(cells[..], first, last, contents);
      hide Held, Vacant, Line;
      DestroyedLast(cells[..], first, last, contents, Decrement(last));
      last := Decrement(last);
      cells[last] := None;
      size := size - 1;
      contents := contents[..size];
    }

    method PopFront()
      requires Valid() && !Empty()
      modifies this, cells
      ensures Valid() && cells == old(cells) && (old(Tight()) ==> Tight())
      ensures contents == old(contents)[1..] && first == Increment(old(first))
    {
      hide Held, Vacant, Line;
      DestroyedFirst(cells[..], first, last, contents);
      cells[first] := None;
      first := Increment(first);
      size := size - 1;
      contents := contents[1..];
    }

    // ---- positions ----

    /** `pos` is the iterator to the k-th element; the end iterator holds no pointer. */
    ghost predicate At(pos: Option<nat>, k: nat)
      reads this
    {
      k <= size && pos == if k == size then None else Some(Wrap(first + k, cells.Length))
    }

    function Begin(): Option<nat>
      reads this
    {
      if size == 0 then None else Some(first)
    }

    /** linearize_pointer, as an offset */
    function Offset(pos: Option<nat>): int
      reads this
    {
      match pos
      case None => size
      case Some(p) => if p < first then p + (cells.Length - first) else p - first
    }

    /** add and sub of a cell pointer */
    function Add(p: nat, n: nat): int
      reads `cells
    {
      if n < cells.Length - p then p + n else p + n - cells.Length
    }

    function Sub(p: nat, n: nat): int
      reads `cells
    {
      if n > p then p - n + cells.Length else p - n
    }

    lemma AddWraps(p: nat, n: nat)
      requires p < cells.Length && n <= cells.Length
      ensures Add(p, n) == Wrap(p + n, cells.Length)
    {
    }

    lemma IncrementWraps(p: nat)
      requires p < cells.Length
      ensures Increment(p) == Wrap(p + 1, cells.Length) && Wrap(p, cells.Length) == p
    {
    }

    lemma SubWraps(p: nat, n: nat)
      requires p < cells.Length && n <= cells.Length
      ensures Sub(p, n) == Wrap(p + cells.Length - n, cells.Length)
    {
    }

    // ---- insertion ----

    /** Moves the elements from p on n places towards the back, the last one first. */
    method ShiftBack(p: nat, n: nat, ghost f: nat, ghost m: nat, ghost k: nat)
      requires f < cells.Length && 1 <= n && m + n <= cells.Length && k <= m
      requires last == Wrap(f + m, cells.Length) && p == Wrap(f + k, cells.Length)
      modifies cells
      ensures MovedBack(old(Line(cells[..], f)), Line(cells[..], f), m, n, m - k)
    {
      hide Line, MovedBack;
      ghost var l0, c := Line(cells[..], f), cells.Length;
      ghost var i := 0;
      var src, dest := last, Add(last, n - 1);
      MovedNone(l0, m, n);
      while src != p
        invariant i <= m - k && src == Wrap(f + (m - i), c) && dest == Wrap(f + (m + n - 1 - i), c)
        invariant MovedBack(l0, Line(cells[..], f), m, n, i)
        decreases m - k - i
      {
        MoveBackOne(cells[..], f, l0, m, n, i);
        src := Decrement(src);
        cells[dest] := cells[src];
        dest := Decrement(dest);
        i := i + 1;
      }
    }

    /** Writes new items from p on. */
    method Fill(p: nat, items: seq<T>, ghost f: nat, ghost k: nat)
      requires f < cells.Length && k + |items| <= cells.Length && p == Wrap(f + k, cells.Length)
      modifies cells
      ensures Filled(old(Line(cells[..], f)), Line(cells[..], f), k, items, |items|)
    {
      hide Line;
      ghost var l0 := Line(cells[..], f);
      var q := p;
      for i := 0 to |items|
        invariant q == Wrap(f + (k + i), cells.Length) && Filled(l0, Line(cells[..], f), k, items, i)
      {
        FillOne(cells[..], f, l0, k, items, i);
        cells[q] := Some(items[i]);
        q := Increment(q);
      }
    }

    /** Opens a gap before `pos`, unless that is the end, and fills it. */
    method OpenAndFill(pos: Option<nat>, items: seq<T>, ghost f: nat, ghost xs: seq<T>, ghost k: nat)
      requires f < cells.Length && 1 <= |items| && |xs| + |items| <= cells.Length && k <= |xs|
      requires last == Wrap(f + |xs|, cells.Length) && Hold(Line(cells[..], f), xs)
      requires pos == if k == |xs| then None else Some(Wrap(f + k, cells.Length))
      modifies cells
      ensures Hold(Line(cells[..], f), xs[..k] + items + xs[k..])
      ensures old(Vacant(Line(cells[..], f), |xs|)) ==> Vacant(Line(cells[..], f), |xs| + |items|)
    {
      hide Hold, Vacant, Line, MovedBack, Filled;
      ghost var l0 := Line(cells[..], f);
      ghost var l1 := l0;
      if pos == None {
        MovedNone(l0, |xs|, |items|);
        Fill(last, items, f, k);
      } else {
        ShiftBack(pos.value, |items|, f, |xs|, k);
        l1 := Line(cells[..], f);
        Fill(pos.value, items, f, k);
      }
      Joined(l0, l1, Line(cells[..], f), xs, k, items);
    }

    /** insert_n: `items` has been cut to what fits behind the elements before `pos`. */
    method InsertN(pos: Option<nat>, items: seq<T>, ghost k: nat)
      requires Valid() && At(pos, k) && 1 <= |items| <= cells.Length - (size - k)
      modifies this, cells
      ensures Valid() && cells == old(cells)
      ensures contents == LastOf(cells.Length, old(contents)[..k] + items + old(contents)[k..])
    {
      hide Held, Hold, Vacant, Line, LastOf, Wrap, Add;
      var n := |items|;
      var construct := cells.Length - size;
      if construct > n {
        construct := n;
      }
      ghost var d := n - construct;
      ghost var f, xs := Wrap(first + d, cells.Length), contents[d..];
      KeptBack(cells[..], first, last, contents, d);
      PlaceKept(first, d, k, cells.Length);
      EndMoves(f, |xs|, n, cells.Length);
      AddWraps(last, n);
      AddWraps(first, d);
      OpenAndFill(pos, items, f, xs, k - d);
      GiveUpFront(cells.Length, contents, k, items, d);
      last := Add(last, n);
      first := Add(first, n - construct);
      size := size + construct;
      contents := xs[..k - d] + items + xs[k - d..];
      HeldFrom(cells[..], first, last, contents);
    }

    lemma OffsetIsPlace(pos: Option<nat>, k: nat)
      requires Valid() && At(pos, k)
      ensures Offset(pos) == k
    {
    }

    /** insert of a forward range: what does not fit behind the elements before `pos` is skipped first. */
    method InsertRange(pos: Option<nat>, items: seq<T>, ghost k: nat)
      requires Valid() && At(pos, k)
      modifies this, cells
      ensures Valid() && cells == old(cells)
      ensures contents == LastOf(cells.Length, old(contents)[..k] + items + old(contents)[k..])
    {
      hide Held, Line;
      OffsetIsPlace(pos, k);
      var n, from := |items|, 0;
      if n == 0 {
        assert contents[..k] + items + contents[k..] == contents;
        return;
      }
      var copy := cells.Length - (size - Offset(pos));
      if copy == 0 {
        NoRoom(cells.Length, contents, k, items);
        return;
      }
      if n > copy {
        from := n - copy;
        n := copy;
      }
      CutItems(cells.Length, contents, k, items, from);
      InsertN(pos, items[from..], k);
    }

    /** insert of n copies of an item. */
    method InsertCopies(pos: Option<nat>, n: nat, item: T, ghost k: nat)
      requires Valid() && At(pos, k)
      modifies this, cells
      ensures Valid() && cells == old(cells)
      ensures contents == LastOf(cells.Length, old(contents)[..k] + seq(n, (i: nat) => item) + old(contents)[k..])
    {
      hide Held, Line;
      OffsetIsPlace(pos, k);
      ghost var items := seq(n, (i: nat) => item);
      if n == 0 {
        assert contents[..k] + items + contents[k..] == contents;
        return;
      }
      var copy := cells.Length - (size - Offset(pos));
      if copy == 0 {
        NoRoom(cells.Length, contents, k, items);
        return;
      }
      var n' := n;
      if n > copy {
        n' := copy;
      }
      CutItems(cells.Length, contents, k, items, n - n');
      assert seq(n', (i: nat) => item) == items[n - n'..];
      InsertN(pos, seq(n', (i: nat) => item), k);
    }

    /** insert_impl and insert_item */
    method Insert(pos: Option<nat>, item: T, ghost k: nat) returns (at: Option<nat>)
      requires Valid() && At(pos, k)
      modifies this, cells
      ensures Valid() && cells == old(cells) && (old(Tight()) ==> Tight())
      ensures contents == LastOf(cells.Length, old(contents)[..k] + [item] + old(contents)[k..])
      ensures At(at, if !old(Full()) then k else if k == 0 then 0 else k - 1)
    {
      hide Held, Hold, Vacant, Line, LastOf, Wrap;
      BeginIsFront(pos, k);
      if Full() && pos == Begin() {
        NoRoom(cells.Length, contents, k, [item]);
        return Begin();
      }
      ghost var d := if Full() then 1 else 0;
      ghost var f, xs := Wrap(first + d, cells.Length), contents[d..];
      KeptBack(cells[..], first, last, contents, d);
      PlaceKept(first, d, k, cells.Length);
      EndMoves(f, |xs|, 1, cells.Length);
      IncrementWraps(first);
      IncrementWraps(last);
      FullLap(f, cells.Length);
      OpenAndFill(pos, [item], f, xs, k - d);
      GiveUpFront(cells.Length, contents, k, [item], d);
      var p := match pos case None => last case Some(q) => q;
      last := Increment(last);
      if Full() {
        first := last;
      } else {
        size := size + 1;
      }
      contents := xs[..k - d] + [item] + xs[k - d..];
      HeldFrom(cells[..], first, last, contents);
      if Full() { FullyVacant(Line(cells[..], first)); }
      assert first == f && p == Wrap(f + (k - d), cells.Length);
      return Some(p);
    }

    lemma BeginIsFront(pos: Option<nat>, k: nat)
      requires Valid() && At(pos, k)
      ensures pos == Begin() <==> k == 0
    {
    }

    /**
      The flag `!full()` of the insertions of one item tells whether the cell at either end is still to be
      constructed.
    */
    lemma EndCells()
      requires Valid() && Tight() && 0 < cells.Length
      ensures last < cells.Length && (cells[last].None? <==> !Full())
      ensures Decrement(first) < cells.Length && (cells[Decrement(first)].None? <==> !Full())
    {
      var line, c := Line(cells[..], first), cells.Length;
      if Full() {
        assert line[0] == cells[first] && line[c - 1] == cells[Decrement(first)];
      } else {
        assert line[size] == cells[last] && line[c - 1] == cells[Decrement(first)];
      }
    }

    // ---- reverse insertion ----

    /** Moves the elements before p n places towards the front, the first one first. */
    method ShiftFront(p: nat, n: nat, ghost f: nat, ghost k: nat) returns (dest: nat)
      requires f < cells.Length && 1 <= n && n + k <= cells.Length
      requires first == Wrap(f + n, cells.Length) && p == Wrap(f + (n + k), cells.Length) && Sub(first, n) == f
      modifies cells
      ensures MovedFront(old(Line(cells[..], f)), Line(cells[..], f), n, k) && dest == Wrap(f + k, cells.Length)
    {
      hide Line;
      ghost var l0, c := Line(cells[..], f), cells.Length;
      ghost var i := 0;
      var src;
      src, dest := first, Sub(first, n);
      while src != p
        invariant i <= k && src == Wrap(f + (n + i), c) && dest == Wrap(f + i, c)
        invariant MovedFront(l0, Line(cells[..], f), n, i)
        decreases k - i
      {
        MoveFrontOne(cells[..], f, l0, n, i);
        cells[dest] := cells[src];
        src := Increment(src);
        dest := Increment(dest);
        i := i + 1;
      }
    }

    /** Opens a gap of |items| cells before the k-th element by moving those before it forward, and fills it. */
    method OpenFrontAndFill(pos: Option<nat>, items: seq<T>, ghost f: nat, ghost xs: seq<T>, ghost k: nat)
      requires f < cells.Length && 1 <= |items| && |xs| + |items| <= cells.Length && k <= |xs|
      requires first == Wrap(f + |items|, cells.Length) && Sub(first, |items|) == f
      requires Hold(Line(cells[..], f)[|items|..], xs)
      requires pos != None ==> pos == Some(Wrap(f + (|items| + k), cells.Length))
      requires pos == None ==> last == Wrap(f + (|items| + k), cells.Length)
      modifies cells
      ensures Hold(Line(cells[..], f), xs[..k] + items + xs[k..])
      ensures old(Vacant(Line(cells[..], f), |xs| + |items|)) ==> Vacant(Line(cells[..], f), |xs| + |items|)
    {
      hide Line, Filled, Hold, Vacant;
      ghost var l0 := Line(cells[..], f);
      var p := match pos case None => last case Some(q) => q;
      var dest := ShiftFront(p, |items|, f, k);
      ghost var l1 := Line(cells[..], f);
      Fill(dest, items, f, k);
      JoinedFront(l0, l1, Line(cells[..], f), xs, k, items);
    }

    /** rinsert_n: only the first items that leave room for the elements before `pos` go in. */
    method RInsertRange(pos: Option<nat>, all: seq<T>, ghost k: nat)
      requires Valid() && At(pos, k)
      modifies this, cells
      ensures Valid() && cells == old(cells)
      ensures contents == FirstOf(cells.Length, old(contents)[..k] + all + old(contents)[k..])
    {
      hide Held, Line;
      var n := |all|;
      NoRoomFront(cells.Length, contents, k, all);
      if n == 0 {
        return;
      }
      OffsetIsPlace(pos, k);
      var copy := cells.Length - Offset(pos);
      if copy == 0 {
        return;
      }
      if n > copy {
        n := copy;
      }
      CutBack(cells.Length, contents, k, all, n);
      RInsertN(pos, all[..n], k);
    }

    /** The items go right before `pos`. */
    method PutInFront(pos: Option<nat>, items: seq<T>, ghost f: nat, ghost xs: seq<T>, ghost k: nat)
      requires f < cells.Length && 1 <= |items| && |xs| + |items| <= cells.Length && k <= |xs|
      requires first == Wrap(f + |items|, cells.Length) && Sub(first, |items|) == f && (pos == Begin() ==> k == 0)
      requires Hold(Line(cells[..], f)[|items|..], xs)
      requires pos != None ==> pos == Some(Wrap(f + (|items| + k), cells.Length))
      requires pos == None ==> last == Wrap(f + (|items| + k), cells.Length)
      modifies cells
      ensures Hold(Line(cells[..], f), xs[..k] + items + xs[k..])
    {
      hide Line, Hold, Vacant;
      if pos == Begin() {
        FillAtFront(items, f, xs);
      } else {
        OpenFrontAndFill(pos, items, f, xs, k);
      }
    }

    /** The rest of rinsert_n: elements at the back give way. */
    method RInsertN(pos: Option<nat>, items: seq<T>, ghost k: nat)
      requires Valid() && At(pos, k) && 1 <= |items| <= cells.Length - k
      modifies this, cells
      ensures Valid() && cells == old(cells)
      ensures contents == FirstOf(cells.Length, old(contents)[..k] + items + old(contents)[k..])
    {
      hide Held, Hold, Vacant, Line, FirstOf, Wrap, Sub;
      var n := |items|;
      var construct := cells.Length - size;
      if construct > n {
        construct := n;
      }
      ghost var d := n - construct;
      ghost var f, xs := Wrap(first + cells.Length - n, cells.Length), contents[..size - d];
      KeptFront(cells[..], first, last, contents, n, size - d);
      SubWraps(first, n);
      SubWraps(last, d);
      PlaceBefore(first, n, k, size, d, cells.Length);
      BeginIsFront(pos, k);
      PutInFront(pos, items, f, xs, k);
      GiveUpBack(cells.Length, contents, k, items, d);
      first := Sub(first, n);
      last := Sub(last, n - construct);
      size := size + construct;
      contents := xs[..k] + items + xs[k..];
      HeldFrom(cells[..], first, last, contents);
    }

    /** The items go right before the first element. */
    method FillAtFront(items: seq<T>, ghost f: nat, ghost xs: seq<T>)
      requires f < cells.Length && 1 <= |items| && |xs| + |items| <= cells.Length
      requires first < cells.Length && Sub(first, |items|) == f
      requires Hold(Line(cells[..], f)[|items|..], xs)
      modifies cells
      ensures Hold(Line(cells[..], f), xs[..0] + items + xs[0..])
      ensures old(Vacant(Line(cells[..], f), |xs| + |items|)) ==> Vacant(Line(cells[..], f), |xs| + |items|)
    {
      hide Line, Sub, Vacant, Hold;
      ghost var l0 := Line(cells[..], f);
      Fill(Sub(first, |items|), items, f, 0);
      JoinedFront(l0, l0, Line(cells[..], f), xs, 0, items);
    }

    /** The item goes right before `pos`. */
    method PlaceInFront(pos: Option<nat>, item: T, ghost f: nat, ghost xs: seq<T>, ghost k: nat)
      returns (at: Option<nat>)
      requires f < cells.Length && 1 + |xs| <= cells.Length && k <= |xs| && (pos == Begin() ==> k == 0)
      requires first == Wrap(f + 1, cells.Length) && Sub(first, 1) == f
      requires Hold(Line(cells[..], f)[1..], xs)
      requires pos != None ==> pos == Some(Wrap(f + (1 + k), cells.Length))
      requires pos == None ==> last == Wrap(f + (1 + k), cells.Length)
      modifies cells
      ensures Hold(Line(cells[..], f), xs[..k] + [item] + xs[k..]) && at == Some(Wrap(f + k, cells.Length))
      ensures old(Vacant(Line(cells[..], f), |xs| + 1)) ==> Vacant(Line(cells[..], f), |xs| + 1)
    {
      hide Line, Hold, Vacant;
      if pos == Begin() {
        at := Some(Decrement(first));
        FillAtFront([item], f, xs);
      } else {
        at := Some(Decrement(match pos case None => last case Some(q) => q));
        OpenFrontAndFill(pos, [item], f, xs, k);
      }
    }

    /** rinsert_impl */
    method RInsert(pos: Option<nat>, item: T, ghost k: nat) returns (at: Option<nat>)
      requires Valid() && At(pos, k)
      modifies this, cells
      ensures Valid() && cells == old(cells) && (old(Tight()) ==> Tight())
      ensures contents == FirstOf(cells.Length, old(contents)[..k] + [item] + old(contents)[k..])
      ensures At(at, k)
    {
      hide Held, Hold, Vacant, Line, FirstOf, Wrap, Sub;
      BeginIsFront(pos, k);
      if Full() && pos == None {
        NoRoomFront(cells.Length, contents, k, [item]);
        return None;
      }
      ghost var d := if Full() then 1 else 0;
      ghost var f, xs := Wrap(first + cells.Length - 1, cells.Length), contents[..size - d];
      KeptFront(cells[..], first, last, contents, 1, size - d);
      SubWraps(first, 1);
      DecrementWraps(first);
      PlaceBefore(first, 1, k, size, d, cells.Length);
      GiveUpBack(cells.Length, contents, k, [item], d);
      at := PlaceInFront(pos, item, f, xs, k);
      first := Decrement(first);
      FullLap(f, cells.Length);
      FullLap(last, cells.Length);
      if Full() {
        last := first;
      } else {
        size := size + 1;
      }
      contents := xs[..k] + [item] + xs[k..];
      HeldFrom(cells[..], first, last, contents);
      if Full() { FullyVacant(Line(cells[..], first)); }
    }

    lemma DecrementWraps(p: nat)
      requires p < cells.Length
      ensures Decrement(p) == Wrap(p + cells.Length - 1, cells.Length)
    {
    }

    // ---- removal ----

    /** The loop of erase: the elements behind `pos` move up. */
    method CloseUp(pos: nat, ghost k: nat)
      requires Valid() && k < size && pos == Wrap(first + k, cells.Length)
      modifies this`contents, cells
      ensures Valid() && (old(Tight()) ==> Tight()) && contents == Without(old(contents), k, k + 1, size - 1 - k)
    {
      hide Held, Vacant, Line, Without, Wrap, Closing;
      ghost var tight := Tight();
      HeldBounds(cells[..], first, last, contents);
      ClosingStarts(cells[..], first, last, contents, k, k + 1, tight);
      ghost var xs, c, i := contents, cells.Length, 0;
      Steps(k);
      var p := pos;
      var next := Increment(p);
      while next != last
        invariant k + i < size && p == Wrap(first + (k + i), c) && next == Wrap(first + (k + i + 1), c)
        invariant Closing(cells[..], first, last, xs, k, k + 1, i, tight)
        decreases size - i
      {
        EndsAt(first, k + i + 1, size, c);
        Steps(k + i + 1);
        OverwriteOne(cells[..], first, last, xs, k, k + 1, i, tight);
        cells[p] := cells[next];
        p := next;
        next := Increment(next);
        i := i + 1;
      }
      EndsAt(first, k + i + 1, size, c);
      contents := Without(xs, k, k + 1, i);
      Closed(cells[..], first, last, xs, k, k + 1, i, tight);
    }

    lemma Steps(x: nat)
      requires first < cells.Length && x < cells.Length
      ensures Increment(Wrap(first + x, cells.Length)) == Wrap(first + x + 1, cells.Length)
    {
    }

    /** erase of one element. */
    method Erase(pos: nat, ghost k: nat) returns (at: Option<nat>)
      requires Valid() && k < size && pos == Wrap(first + k, cells.Length)
      modifies this, cells
      ensures Valid() && cells == old(cells) && (old(Tight()) ==> Tight())
      ensures contents == old(contents)[..k] + old(contents)[k + 1..]
      ensures At(at, k)
    {
      hide Held, Vacant, Line, Without, Wrap;
      WithoutAll(contents, k, k + 1);
      CloseUp(pos, k);
      PopBack();
      SameCell(first, k, size, cells.Length);
      LastIsEnd();
      return if last == pos then None else Some(pos);
    }

    lemma LastIsEnd()
      requires Valid() && 0 < cells.Length
      ensures last == Wrap(first + size, cells.Length)
    {
    }

    /** The loop of rerase: the elements before `pos` move down. */
    method CloseDown(pos: nat, ghost k: nat) returns (p: nat)
      requires Valid() && k < size && pos == Wrap(first + k, cells.Length)
      modifies this`contents, cells
      ensures Valid() && (old(Tight()) ==> Tight()) && contents == WithoutBack(old(contents), k, k + 1, k)
      ensures p == first
    {
      hide Held, Vacant, Line, WithoutBack, Wrap, ClosingBack;
      ghost var tight := Tight();
      ClosingBackStarts(cells[..], first, last, contents, k, k + 1, tight);
      ghost var xs, c, i := contents, cells.Length, 0;
      StepBefore(first, k, c);
      SameCell(first, k, 0, c);
      FirstCell(first, c);
      p := pos;
      var prev := Decrement(pos);
      while p != first
        invariant i <= k && p == Wrap(first + (k - i), c) && prev == Decrement(p)
        invariant ClosingBack(cells[..], first, last, xs, k, k + 1, i, tight)
        decreases k - i
      {
        SameCell(first, k - i, 0, c);
        StepBefore(first, k - i, c);
        OverwriteOneBack(cells[..], first, last, xs, k, k + 1, i, tight);
        cells[p] := cells[prev];
        p := prev;
        prev := Decrement(prev);
        i := i + 1;
      }
      SameCell(first, k - i, 0, c);
      contents := WithoutBack(xs, k, k + 1, i);
      ClosedBack(cells[..], first, last, xs, k, k + 1, i, tight);
    }

    /** rerase of one element: the elements before it move down. */
    method Rerase(pos: nat, ghost k: nat) returns (at: Option<nat>)
      requires Valid() && k < size && pos == Wrap(first + k, cells.Length)
      modifies this, cells
      ensures Valid() && cells == old(cells) && (old(Tight()) ==> Tight())
      ensures contents == old(contents)[..k] + old(contents)[k + 1..]
      ensures At(at, if k == 0 then 0 else k - 1)
    {
      hide Held, Vacant, Line, WithoutBack, Wrap;
      WithoutBackAll(contents, k, k + 1);
      HeldBounds(cells[..], first, last, contents);
      SameCell(first, k, 0, cells.Length);
      FirstCell(first, cells.Length);
      IncrementWraps(first);
      if k > 0 {
        PlaceKept(first, 1, k, cells.Length);
      }
      var p := CloseDown(pos, k);
      PopFront();
      FirstCell(first, cells.Length);
      return if p == pos then Begin() else Some(pos);
    }

    // ---- removal of ranges ----

    /** operator++ of an iterator */
    function Next(p: nat): Option<nat>
      reads this
    {
      if Increment(p) == last then None else Some(Increment(p))
    }

    lemma NextIsAt(p: nat, k: nat)
      requires k < size <= cells.Length && first < cells.Length && last == Wrap(first + size, cells.Length) &&
        At(Some(p), k)
      ensures At(Next(p), k + 1)
    {
      hide Wrap;
      Steps(k);
      EndsAt(first, k + 1, size, cells.Length);
    }

    lemma SamePlace(a: Option<nat>, b: Option<nat>, k: nat, j: nat)
      requires Valid() && At(a, k) && At(b, j)
      ensures a == b <==> k == j
    {
      hide Held, Wrap;
      if k < size && j < size { SameCell(first, k, j, cells.Length); }
    }

    /** The first loop of erase: the elements from `to` on move up to `from`. */
    method CloseRange(from: Option<nat>, to: Option<nat>, ghost k: nat, ghost j: nat) returns (f: Option<nat>)
      requires Valid() && At(from, k) && At(to, j) && k < j
      modifies this`contents, cells
      ensures Valid() && (old(Tight()) ==> Tight()) && contents == Without(old(contents), k, j, size - j)
      ensures At(f, k + (size - j))
    {
      hide Held, Vacant, Line, Without, Wrap, Closing, Next;
      ghost var tight := Tight();
      ClosingStarts(cells[..], first, last, contents, k, j, tight);
      HeldBounds(cells[..], first, last, contents);
      ghost var xs, i := contents, 0;
      f := from;
      var l := to;
      while l != None
        invariant j + i <= size && At(f, k + i) && At(l, j + i)
        invariant Closing(cells[..], first, last, xs, k, j, i, tight)
        decreases size - i
      {
        var p, q := f.value, l.value;
        NextIsAt(p, k + i);
        NextIsAt(q, j + i);
        OverwriteOne(cells[..], first, last, xs, k, j, i, tight);
        f, l := Next(p), Next(q);
        cells[p] := cells[q];
        i := i + 1;
      }
      contents := Without(xs, k, j, i);
      Closed(cells[..], first, last, xs, k, j, i, tight);
    }

    /** The second loop of erase: the elements from the n-th on are destroyed. */
    method DropBack(q: nat, ghost n: nat)
      requires Valid() && n < size && q == Wrap(first + n, cells.Length)
      modifies this, cells
      ensures Valid() && cells == old(cells) && (old(Tight()) ==> Tight())
      ensures contents == old(contents)[..n] && first == old(first)
    {
      hide Held, Vacant, Line, Wrap;
      PopBack();
      LastIsEnd();
      SameCell(first, size, n, cells.Length);
      while last != q
        invariant Valid() && cells == old(cells) && (old(Tight()) ==> Tight()) && first == old(first)
        invariant n <= size < cells.Length && (last == q <==> size == n) && contents == old(contents)[..size]
        decreases size
      {
        PopBack();
        LastIsEnd();
        SameCell(first, size, n, cells.Length);
      }
    }

    /** erase of a range */
    method EraseRange(from: Option<nat>, to: Option<nat>, ghost k: nat, ghost j: nat) returns (at: Option<nat>)
      requires Valid() && At(from, k) && At(to, j) && k <= j
      modifies this, cells
      ensures Valid() && cells == old(cells) && (old(Tight()) ==> Tight())
      ensures contents == old(contents)[..k] + old(contents)[j..]
      ensures At(at, k)
    {
      hide Held, Vacant, Line, Without, Wrap;
      SamePlace(from, to, k, j);
      if from == to {
        return from;
      }
      WithoutAll(contents, k, j);
      var p := from.value;
      var f := CloseRange(from, to, k, j);
      DropBack(f.value, k + (size - j));
      SameCell(first, k, size, cells.Length);
      LastIsEnd();
      return if last == p then None else Some(p);
    }

    /** The first loop of rerase: the elements before `from` move down to `p`. */
    method CloseRangeBack(from: nat, to: nat, ghost k: nat, ghost j: nat) returns (p: nat)
      requires Valid() && k < j <= size && from == Wrap(first + k, cells.Length) && to == Wrap(first + j, cells.Length)
      modifies this`contents, cells
      ensures Valid() && (old(Tight()) ==> Tight()) && contents == WithoutBack(old(contents), k, j, k)
      ensures p == Wrap(first + (j - k), cells.Length)
    {
      hide Held, Vacant, Line, WithoutBack, Wrap, ClosingBack;
      ghost var tight := Tight();
      ClosingBackStarts(cells[..], first, last, contents, k, j, tight);
      ghost var xs, c, i := contents, cells.Length, 0;
      FirstCell(first, c);
      SameCell(first, k, 0, c);
      p := to;
      var f := from;
      while f != first
        invariant i <= k && f == Wrap(first + (k - i), c) && p == Wrap(first + (j - i), c) && (f == first <==> i == k)
        invariant ClosingBack(cells[..], first, last, xs, k, j, i, tight)
        decreases k - i
      {
        OverwriteOneBack(cells[..], first, last, xs, k, j, i, tight);
        BackOne(first, k - i, c);
        BackOne(first, j - i, c);
        SameCell(first, k - i - 1, 0, c);
        f := Decrement(f);
        p := Decrement(p);
        cells[p] := cells[f];
        i := i + 1;
      }
      contents := WithoutBack(xs, k, j, i);
      ClosedBack(cells[..], first, last, xs, k, j, i, tight);
    }

    /** The second loop of rerase: the first n elements are destroyed. */
    method DropFront(p: nat, ghost n: nat)
      requires Valid() && 1 <= n <= size && p == Wrap(first + n, cells.Length)
      modifies this, cells
      ensures Valid() && cells == old(cells) && (old(Tight()) ==> Tight())
      ensures contents == old(contents)[n..] && first == p
    {
      hide Held, Vacant, Line, Wrap;
      ghost var f, c, i := first, cells.Length, 1;
      IncrementWraps(first);
      EndsAt(f, 1, n, c);
      PopFront();
      while first != p
        invariant Valid() && cells == old(cells) && (old(Tight()) ==> Tight())
        invariant 1 <= i <= n && first == Wrap(f + i, c) && (first == p <==> i == n) && contents == old(contents)[i..]
        decreases n - i
      {
        PlaceKept(f, i, i + 1, c);
        IncrementWraps(first);
        EndsAt(f, i + 1, n, c);
        PopFront();
        i := i + 1;
      }
    }

    /** rerase of a range */
    method ReraseRange(from: Option<nat>, to: Option<nat>, ghost k: nat, ghost j: nat) returns (at: Option<nat>)
      requires Valid() && At(from, k) && At(to, j) && k <= j
      modifies this, cells
      ensures Valid() && cells == old(cells) && (old(Tight()) ==> Tight())
      ensures contents == old(contents)[..k] + old(contents)[j..]
      ensures At(at, if k == 0 || k == j then k else k - 1)
    {
      hide Held, Vacant, Line, WithoutBack, Wrap;
      SamePlace(from, to, k, j);
      if from == to {
        return from;
      }
      ghost var f, c := first, cells.Length;
      HeldBounds(cells[..], first, last, contents);
      var l := match to case None => last case Some(q) => q;
      WithoutBackAll(contents, k, j);
      EndsAt(f, j - k, j, c);
      BackOne(f, j, c);
      PlaceKept(f, j - k, if k == 0 then j else j - 1, c);
      var p := CloseRangeBack(from.value, l, k, j);
      DropFront(p, j - k);
      FirstCell(first, c);
      if first == l {
        return Begin();
      }
      return Some(Decrement(l));
    }

    // ---- linearize ----

    /** is_uninitialized */
    predicate IsUninitialized(p: nat)
      reads this
    {
      p >= last && (first < last || p < first)
    }

    /** The cell of the k-th element. */
    ghost function CellOf(k: nat): nat
      reads this
    {
      Wrap(first + k, cells.Length)
    }

    ghost predicate Occupied(p: nat)
      reads this
    {
      exists k :: 0 <= k < size && p == CellOf(k)
    }

    /**
      is_uninitialized tells the free cells apart exactly if there is content, and p does not lie before content
      in one piece.
    */
    lemma UninitializedIffFree(p: nat)
      requires Valid() && p < cells.Length
      ensures (IsUninitialized(p) <==> !Occupied(p)) <==> 0 < size && !(first < last && p < first)
    {
      hide Held;
      HeldBounds(cells[..], first, last, contents);
      if 0 < size {
        if first <= p && p < first + size {
          assert p == CellOf(p - first);
        } else if p < first && p + cells.Length < first + size {
          assert p == CellOf(p + cells.Length - first);
        }
      }
    }

    /** One turn of the inner loop of linearize: the element at src goes to dest. */
    method MoveDown(src: nat, dest: nat, moved: T -> T, ghost image: seq<Option<T>>, ghost all: seq<Option<T>>,
        ghost f: nat, ghost tight: bool)
      returns (built: bool, ghost image': seq<Option<T>>)
      requires 0 < last <= first < cells.Length
      requires Rotated(image, all, dest, f, src) && Shadowed(cells[..], image, last, first, dest, tight)
      requires dest < f <= src < cells.Length && first <= f && dest < |all| && all[dest].Some?
      modifies cells
      ensures |image'| == |image| && Rotated(image', all, dest + 1, f, src + 1)
      ensures Shadowed(cells[..], image', last, first, dest + 1, tight)
      ensures built <==> last <= dest < first
    {
      hide Rotated, Shadowed, Built;
      ShadowSize(cells[..], image, last, first, dest, tight);
      RotateOne(image, all, dest, f, src);
      image' := image[dest := image[src]][src := image[dest]];
      if IsUninitialized(dest) {
        ShadowBuilt(cells[..], image, last, first, dest, src, tight, moved);
        var item := cells[src].value;
        cells[dest] := Some(item);
        cells[src] := Some(moved(item));
        built := true;
      } else {
        ShadowSwapped(cells[..], image, last, first, dest, src, tight);
        cells[src], cells[dest] := cells[dest], cells[src];
        built := false;
      }
    }

    /** The inner loop: moves elements until all are moved, the storage ends, or dest meets `f`. */
    method MoveRun(dest: nat, f: nat, moved: T -> T, ghost image: seq<Option<T>>, ghost all: seq<Option<T>>,
        ghost tight: bool)
      returns (dest': nat, f': nat, built: nat, done: bool, ghost image': seq<Option<T>>)
      requires 0 < last <= first <= f < cells.Length && dest < f && dest <= size
      requires Rotated(image, all, dest, f, f) && Shadowed(cells[..], image, last, first, dest, tight)
      requires size <= |all| == |image| == cells.Length && forall k :: 0 <= k < size ==> all[k].Some?
      modifies cells
      ensures dest <= dest' <= size && (done ==> dest' == f' == size) && |image'| == |all|
      ensures Shadowed(cells[..], image', last, first, dest', tight) && image'[..dest'] == all[..dest']
      ensures !done ==> first <= f' && dest < dest' <= f' < cells.Length && Rotated(image', all, dest', f', f')
      ensures built == Built(last, first, dest') - Built(last, first, dest)
    {
      hide Rotated, Shadowed;
      dest', f', built, done, image' := dest, f, 0, false, image;
      var src := f;
      while src < cells.Length
        invariant dest <= dest' <= size && f <= src <= cells.Length && dest' <= f && src - f == dest' - dest
        invariant |image'| == |all| && Rotated(image', all, dest', f, src) &&
          Shadowed(cells[..], image', last, first, dest', tight)
        invariant built == Built(last, first, dest') - Built(last, first, dest)
      {
        if dest' == size {
          RotatedFront(image', all, dest', f, src);
          f', done := dest', true;
          return;
        }
        if dest' == f {
          RotatedMeet(image', all, dest', f, src);
          f' := src;
          return;
        }
        var b;
        b, image' := MoveDown(src, dest', moved, image', all, f, tight);
        if b {
          built := built + 1;
        }
        src, dest' := src + 1, dest' + 1;
      }
      RotatedEnd(image', all, dest', f);
    }

    /** The loops of linearize, for content that wraps: afterwards the elements are at the start of storage. */
    method Rotate(moved: T -> T)
      requires Valid() && 0 < last <= first && !Empty()
      modifies cells
      ensures Hold(cells[..], contents) && (old(Tight()) ==> Vacant(cells[..], size))
    {
      hide Held, Hold, Vacant, Line, Rotated, Shadowed;
      ghost var tight := Tight();
      ghost var image := WithoutGap(cells[..], last, first);
      ghost var all := Line(image, first);
      WrappedStart(cells[..], first, last, contents, tight);
      var f, dest, constructed, done := first, 0, 0, false;
      while dest < f && !done
        invariant dest <= size && |image| == |all| == cells.Length && constructed == Built(last, first, dest) - last
        invariant Shadowed(cells[..], image, last, first, dest, tight) && image[..dest] == all[..dest]
        invariant done ==> dest == f == size
        invariant !done ==> first <= f < cells.Length && dest <= f && Rotated(image, all, dest, f, f)
        decreases !done, cells.Length - dest
      {
        var built;
        dest, f, built, done, image := MoveRun(dest, f, moved, image, all, tight);
        constructed := constructed + built;
      }
      WrappedEnd(cells[..], image, first, last, contents, all, dest, f, done, constructed, tight);
      ghost var ring := cells[..];
      DestroyTail(constructed);
      TailGone(ring, cells[..], contents, constructed, tight);
    }

    /** The last loop of linearize. */
    method DestroyTail(n: nat)
      requires n <= cells.Length
      modifies cells
      ensures cells[..] == old(cells[..cells.Length - n]) + seq(n, (i: nat) => None)
    {
      ghost var kept := cells.Length - n;
      for src := cells.Length - n to cells.Length
        invariant cells[..kept] == old(cells[..cells.Length - n])
        invariant forall i :: kept <= i < src ==> cells[i] == None
      {
        cells[src] := None;
      }
      assert cells[..] == cells[..kept] + seq(n, (i: nat) => None);
    }

    /**
      linearize. The elements lie in one piece from the returned cell on; content that wrapped
      now starts at the first cell. Exactly the cells of the elements are constructed if they were before.
    */
    method Linearize(moved: T -> T) returns (start: Option<nat>)
      requires Valid()
      modifies this, cells
      ensures Valid() && (old(Tight()) ==> Tight()) && cells == old(cells) && contents == old(contents)
      ensures start == None <==> size == 0
      ensures start != None ==>
        start.value == first && first + size <= cells.Length &&
        forall k :: 0 <= k < size ==> cells[first + k] == Some(contents[k])
      ensures old(size > 0 && !(first < last || last == 0)) ==> first == 0
      ensures old(size > 0 && (first < last || last == 0)) ==> first == old(first) && cells[..] == old(cells[..])
    {
      hide Held, Hold, Vacant, Line;
      if Empty() {
        return None;
      }
      if first < last || last == 0 {
        OnePiece(cells[..], first, last, contents);
        return Some(first);
      }
      HeldBounds(cells[..], first, last, contents);
      Rotate(moved);
      first := 0;
      last := Add(0, size);
      AtStart(cells[..], last, contents);
      FromStart(cells[..], size);
      OnePiece(cells[..], first, last, contents);
      return Some(0);
    }

    // ---- capacity ----

    /** The loop that moves the first n elements to new storage. */
    method CopyOut(from: nat, n: nat, buff: array<Option<T>>, ghost k: nat)
      requires Valid() && 0 < cells.Length && k + n <= size && from == Wrap(first + k, cells.Length)
      requires n <= buff.Length && buff != cells && forall i :: 0 <= i < buff.Length ==> buff[i] == None
      modifies buff
      ensures Hold(buff[..], contents[k..k + n]) && Vacant(buff[..], n)
    {
      var p := from;
      for i := 0 to n
        invariant p == Wrap(first + k + i, cells.Length)
        invariant forall j :: 0 <= j < i ==> buff[j] == Some(contents[k + j])
        invariant forall j :: i <= j < buff.Length ==> buff[j] == None
      {
        assert Line(cells[..], first)[k + i] == Some(contents[k + i]);
        buff[i] := cells[p];
        p := Increment(p);
      }
    }

    /** reset: the new storage takes the place of the old. */
    method Reset(buff: array<Option<T>>, n: nat, ghost xs: seq<T>)
      requires n == |xs| <= buff.Length && Hold(buff[..], xs) && Vacant(buff[..], n)
      modifies this
      ensures Valid() && Tight() && cells == buff && contents == xs
    {
      cells := buff;
      size := n;
      first := 0;
      last := if n == buff.Length then 0 else n;
      contents := xs;
      if 0 < buff.Length {
        AtStart(cells[..], last, contents);
        FromStart(cells[..], n);
      }
    }

    /** set_capacity keeps the first elements, rset_capacity the last ones. */
    method SetCapacity(capacity: nat)
      requires Valid()
      modifies this
      ensures Valid() && (old(Tight()) || capacity != old(cells.Length) ==> Tight()) && cells.Length == capacity &&
        contents == FirstOf(capacity, old(contents))
    {
      if capacity == cells.Length {
        return;
      }
      var buff := new Option<T>[capacity](i => None);
      var n := if capacity < size then capacity else size;
      if 0 < cells.Length { CopyOut(first, n, buff, 0); }
      Reset(buff, n, contents[..n]);
    }

    method RSetCapacity(capacity: nat)
      requires Valid()
      modifies this
      ensures Valid() && (old(Tight()) || capacity != old(cells.Length) ==> Tight()) && cells.Length == capacity &&
        contents == LastOf(capacity, old(contents))
    {
      hide Held, Hold, Vacant, Line, Wrap, Sub;
      if capacity == cells.Length {
        return;
      }
      var buff := new Option<T>[capacity](i => None);
      var n := if capacity < size then capacity else size;
      ghost var kept := contents[size - n..];
      if 0 < cells.Length {
        HeldBounds(cells[..], first, last, contents);
        SubWraps(last, n);
        PlaceOfLast(first, size, n, cells.Length);
        CopyOut(Sub(last, n), n, buff, size - n);
        assert contents[size - n..size - n + n] == kept;
      } else {
        NothingHeld(buff[..], kept);
      }
      Reset(buff, n, kept);
    }
  }

  lemma PlaceOfLast(first: nat, size: nat, n: nat, c: nat)
    requires first < c && n <= size <= c
    ensures Wrap(Wrap(first + size, c) + c - n, c) == Wrap(first + (size - n), c)
  {
  }

  lemma NothingHeld<T>(line: seq<Option<T>>, xs: seq<T>)
    requires xs == [] && forall k :: 0 <= k < |line| ==> line[k] == None
    ensures Hold(line, xs) && Vacant(line, 0)
  {
  }

  /** The ring without whatever lies in the gap [lo, hi). */
  ghost function WithoutGap<T>(ring: seq<Option<T>>, lo: nat, hi: nat): (image: seq<Option<T>>)
    ensures |image| == |ring|
  {
    seq(|ring|, i requires 0 <= i < |ring| => if lo <= i < hi then None else ring[i])
  }

  /** Wrapped content as the rotation finds it. */
  lemma WrappedStart<T>(ring: seq<Option<T>>, first: nat, last: nat, xs: seq<T>, tight: bool)
    requires Held(ring, first, last, xs) && xs != [] && 0 < last <= first && (tight ==> Vacant(Line(ring, first), |xs|))
    ensures var image := WithoutGap(ring, last, first);
            var all := Line(image, first);
            |xs| == |ring| - first + last && (forall k :: 0 <= k < |xs| ==> all[k] == Some(xs[k])) &&
            Rotated(image, all, 0, first, first) && Shadowed(ring, image, last, first, 0, tight)
  {
    var image := WithoutGap(ring, last, first);
    var all := Line(image, first);
    assert image[first..first] == [] && image[first..] + [] + image[0..first] == all && all[0..] == all;
    forall k | 0 <= k < |xs| ensures all[k] == Some(xs[k]) {
      assert Line(ring, first)[k] == ring[Wrap(first + k, |ring|)];
    }
    forall i | 0 <= i < |ring| ensures i < last || first <= i ==> ring[i].Some? {
      var k := if first <= i then i - first else |ring| - first + i;
      assert Line(ring, first)[k] == ring[i];
    }
    forall i | last <= i < first && tight ensures ring[i] == None {
      assert Line(ring, first)[|ring| - first + i] == ring[i];
    }
  }

  /** As the rotation leaves it: destroying as many cells at the end as were built leaves just the elements. */
  lemma WrappedEnd<T>(ring: seq<Option<T>>, image: seq<Option<T>>, first: nat, last: nat, xs: seq<T>,
      all: seq<Option<T>>, dest: nat, f: nat, done: bool, built: nat, tight: bool)
    requires 0 < last <= first < |ring| == |all| == |image| && |xs| == |ring| - first + last
    requires forall k :: 0 <= k < |xs| ==> all[k] == Some(xs[k])
    requires dest <= |xs| && built == Built(last, first, dest) - last
    requires Shadowed(ring, image, last, first, dest, tight) && image[..dest] == all[..dest]
    requires if done then dest == f == |xs| else first <= f <= dest && Rotated(image, all, dest, f, f)
    ensures built <= |ring| && |xs| <= |ring| - built
    ensures Hold(ring, xs) && (tight ==> Vacant(ring[..|ring| - built], |xs|))
  {
    forall k | 0 <= k < |xs| ensures image[k] == all[k] {
      if k < dest {
        assert image[..dest][k] == all[..dest][k];
      } else {
        assert (image[f..] + image[f..f] + image[dest..f])[k - dest] == image[k];
        assert all[dest..][k - dest] == all[k];
      }
    }
  }

  lemma TailGone<T>(ring: seq<Option<T>>, ring': seq<Option<T>>, xs: seq<T>, n: nat, tight: bool)
    requires n <= |ring| && |xs| <= |ring| - n && ring' == ring[..|ring| - n] + seq(n, (i: nat) => None)
    requires Hold(ring, xs) && (tight ==> Vacant(ring[..|ring| - n], |xs|))
    ensures Hold(ring', xs) && (tight ==> Vacant(ring', |xs|))
  {
  }

  lemma AtStart<T>(ring: seq<Option<T>>, last: nat, xs: seq<T>)
    requires 0 < |ring| && Hold(ring, xs) && last == if |xs| == |ring| then 0 else |xs|
    ensures Held(ring, 0, last, xs)
  {
    FromStart(ring, |xs|);
  }

  lemma FromStart<T>(ring: seq<Option<T>>, n: nat)
    requires 0 < |ring|
    ensures Line(ring, 0) == ring
    ensures Vacant(ring, n) ==> Vacant(Line(ring, 0), n)
  {
  }

  /** Content that does not wrap lies in one piece. */
  lemma OnePiece<T>(ring: seq<Option<T>>, first: nat, last: nat, xs: seq<T>)
    requires Held(ring, first, last, xs) && xs != [] && (first < last || last == 0)
    ensures first + |xs| <= |ring| && forall k :: 0 <= k < |xs| ==> ring[first + k] == Some(xs[k])
  {
    forall k | 0 <= k < |xs| ensures ring[first + k] == Some(xs[k]) {
      assert Line(ring, first)[k] == ring[first + k];
    }
  }

  /** How many cells below the gap, or of the gap [lo, hi) below dest, are constructed. */
  function Built(lo: nat, hi: nat, dest: nat): nat {
    if dest < lo then lo else if dest < hi then dest else hi
  }

  /**
    The rotation in progress: the first dest cells are in place, and the others are, in order,
    those from src on, those moved aside to [f, src), and those in [dest, f).
  */
  ghost predicate Rotated<T>(image: seq<T>, all: seq<T>, dest: nat, f: nat, src: nat) {
    dest <= f <= src <= |image| == |all| && image[..dest] == all[..dest] &&
    image[src..] + image[f..src] + image[dest..f] == all[dest..]
  }

  /**
    The cells show the elements of the image, which are below dest, below the gap [lo, hi) or from hi on; if
    `tight`, just these cells are constructed.
  */
  ghost predicate Shadowed<T>(cells: seq<Option<T>>, image: seq<Option<T>>, lo: nat, hi: nat, dest: nat, tight: bool) {
    |cells| == |image| &&
    (forall i :: 0 <= i < |image| && image[i].Some? ==> cells[i] == image[i] && (i < Built(lo, hi, dest) || hi <= i)) &&
    (tight ==> forall i :: 0 <= i < |cells| ==> (cells[i].Some? <==> i < Built(lo, hi, dest) || hi <= i))
  }

  lemma ShadowSize<T>(cells: seq<Option<T>>, image: seq<Option<T>>, lo: nat, hi: nat, dest: nat, tight: bool)
    requires Shadowed(cells, image, lo, hi, dest, tight)
    ensures |cells| == |image|
  {
  }

  /** A cell of the gap is constructed from the element at src. */
  lemma ShadowBuilt<T>(cells: seq<Option<T>>, image: seq<Option<T>>, lo: nat, hi: nat, dest: nat, src: nat,
      tight: bool, moved: T -> T)
    requires Shadowed(cells, image, lo, hi, dest, tight) && lo <= dest < hi <= src < |image| && image[src].Some?
    ensures cells[src].Some?
    ensures Shadowed(cells[dest := cells[src]][src := Some(moved(cells[src].value))],
                     image[dest := image[src]][src := image[dest]], lo, hi, dest + 1, tight)
  {
  }

  /** The elements at dest and src change places. */
  lemma ShadowSwapped<T>(cells: seq<Option<T>>, image: seq<Option<T>>, lo: nat, hi: nat, dest: nat, src: nat,
      tight: bool)
    requires Shadowed(cells, image, lo, hi, dest, tight) && lo <= hi <= src < |image| && dest < src
    requires dest < lo || hi <= dest
    requires image[src].Some?
    ensures Shadowed(cells[src := cells[dest]][dest := cells[src]],
                     image[dest := image[src]][src := image[dest]], lo, hi, dest + 1, tight)
  {
  }

  lemma RotateOne<T>(image: seq<T>, all: seq<T>, dest: nat, f: nat, src: nat)
    requires Rotated(image, all, dest, f, src) && dest < f && src < |image|
    ensures image[src] == all[dest]
    ensures Rotated(image[dest := image[src]][src := image[dest]], all, dest + 1, f, src + 1)
  {
    var rest := all[dest..];
    assert rest[0] == image[src];
    var next := image[dest := image[src]][src := image[dest]];
    assert next[..dest + 1] == image[..dest] + [image[src]];
    assert next[src + 1..] == image[src + 1..] && next[f..src + 1] == image[f..src] + [image[dest]];
    assert next[dest + 1..f] == image[dest + 1..f];
    assert rest[1..] == image[src + 1..] + image[f..src] + image[dest..f];
    assert image[dest..f] == [image[dest]] + image[dest + 1..f];
    assert all[dest + 1..] == rest[1..];
  }

  lemma RotatedFront<T>(image: seq<T>, all: seq<T>, dest: nat, f: nat, src: nat)
    requires Rotated(image, all, dest, f, src)
    ensures |image| == |all| && image[..dest] == all[..dest]
  {
  }

  /** dest has met f: what was moved aside starts at dest. */
  lemma RotatedMeet<T>(image: seq<T>, all: seq<T>, dest: nat, f: nat, src: nat)
    requires Rotated(image, all, dest, f, src) && dest == f
    ensures Rotated(image, all, dest, src, src) && |image| == |all| && image[..dest] == all[..dest]
  {
    assert image[src..src] == [] && image[dest..f] == [];
    assert image[src..] + image[f..src] + [] == image[src..] + [] + image[dest..src];
  }

  /** The storage has ended: what was moved aside comes next. */
  lemma RotatedEnd<T>(image: seq<T>, all: seq<T>, dest: nat, f: nat)
    requires Rotated(image, all, dest, f, |image|)
    ensures Rotated(image, all, dest, f, f) && |image| == |all| && image[..dest] == all[..dest]
  {
    assert image[|image|..] == [] && image[f..f] == [] && image[f..|image|] == image[f..];
    assert [] + image[f..] + image[dest..f] == image[f..] + [] + image[dest..f];
  }

  lemma HeldBounds<T>(ring: seq<Option<T>>, first: nat, last: nat, xs: seq<T>)
    requires Held(ring, first, last, xs)
    ensures last == Wrap(first + |xs|, |ring|)
  {
  }

  lemma EndsAt(first: nat, x: nat, size: nat, c: nat)
    requires first < c && 1 <= x <= size <= c
    ensures Wrap(first + x, c) == Wrap(first + size, c) <==> x == size
  {
  }

  /** xs with the i elements from the j-th on moved up to the k-th. */
  ghost function Without<T>(xs: seq<T>, k: nat, j: nat, i: nat): (r: seq<T>)
    requires k < j && j + i <= |xs|
    ensures |r| == |xs|
  {
    xs[..k] + xs[j..j + i] + xs[k + i..]
  }

  lemma WithoutAll<T>(xs: seq<T>, k: nat, j: nat)
    requires k < j <= |xs|
    ensures Without(xs, k, j, |xs| - j)[..k + (|xs| - j)] == xs[..k] + xs[j..]
  {
    assert xs[j..j + (|xs| - j)] == xs[j..];
  }

  /** The loop of erase has moved i elements; no more cells are constructed than before. */
  ghost predicate Closing<T>(ring: seq<Option<T>>, first: nat, last: nat, xs: seq<T>, k: nat, j: nat, i: nat,
      tight: bool)
  {
    k < j && j + i <= |xs| && Held(ring, first, last, Without(xs, k, j, i)) &&
      (tight ==> Vacant(Line(ring, first), |xs|))
  }

  lemma ClosingStarts<T>(ring: seq<Option<T>>, first: nat, last: nat, xs: seq<T>, k: nat, j: nat, tight: bool)
    requires k < j <= |xs| && Held(ring, first, last, xs) && (tight ==> Vacant(Line(ring, first), |xs|))
    ensures Closing(ring, first, last, xs, k, j, 0, tight)
  {
    assert Without(xs, k, j, 0) == xs;
  }

  /** Storing the b-th element over the a-th. */
  lemma Overwrite<T>(ring: seq<Option<T>>, first: nat, last: nat, xs: seq<T>, a: nat, b: nat, tight: bool)
    requires a < |xs| && b < |xs| && Held(ring, first, last, xs) && (tight ==> Vacant(Line(ring, first), |xs|))
    ensures var p, q := Wrap(first + a, |ring|), Wrap(first + b, |ring|);
            p < |ring| && q < |ring| && Held(ring[p := ring[q]], first, last, xs[a := xs[b]]) &&
            (tight ==> Vacant(Line(ring[p := ring[q]], first), |xs|))
  {
    hide Line;
    Store(ring, first, a, ring[Wrap(first + b, |ring|)]);
  }

  lemma OverwriteOne<T>(ring: seq<Option<T>>, first: nat, last: nat, xs: seq<T>, k: nat, j: nat, i: nat, tight: bool)
    requires j + i < |xs| && Closing(ring, first, last, xs, k, j, i, tight)
    ensures var p, q := Wrap(first + (k + i), |ring|), Wrap(first + (j + i), |ring|);
            p < |ring| && q < |ring| && Closing(ring[p := ring[q]], first, last, xs, k, j, i + 1, tight)
  {
    hide Held, Vacant, Line, Wrap;
    Overwrite(ring, first, last, Without(xs, k, j, i), k + i, j + i, tight);
    assert Without(xs, k, j, i)[k + i := Without(xs, k, j, i)[j + i]] == Without(xs, k, j, i + 1);
  }

  lemma Closed<T>(ring: seq<Option<T>>, first: nat, last: nat, xs: seq<T>, k: nat, j: nat, i: nat, tight: bool)
    requires Closing(ring, first, last, xs, k, j, i, tight)
    ensures Held(ring, first, last, Without(xs, k, j, i)) && (tight ==> Vacant(Line(ring, first), |xs|))
  {
  }

  /** xs with the i elements before the k-th moved down to the j-th. */
  ghost function WithoutBack<T>(xs: seq<T>, k: nat, j: nat, i: nat): (r: seq<T>)
    requires i <= k < j <= |xs|
    ensures |r| == |xs|
  {
    xs[..j - i] + xs[k - i..k] + xs[j..]
  }

  lemma WithoutBackAll<T>(xs: seq<T>, k: nat, j: nat)
    requires k < j <= |xs|
    ensures WithoutBack(xs, k, j, k)[j - k..] == xs[..k] + xs[j..]
  {
    assert WithoutBack(xs, k, j, k) == xs[..j - k] + (xs[..k] + xs[j..]);
  }

  /** The loop of rerase has moved i elements; no more cells are constructed than before. */
  ghost predicate ClosingBack<T>(ring: seq<Option<T>>, first: nat, last: nat, xs: seq<T>, k: nat, j: nat, i: nat,
      tight: bool)
  {
    i <= k < j <= |xs| && Held(ring, first, last, WithoutBack(xs, k, j, i)) &&
      (tight ==> Vacant(Line(ring, first), |xs|))
  }

  lemma ClosingBackStarts<T>(ring: seq<Option<T>>, first: nat, last: nat, xs: seq<T>, k: nat, j: nat, tight: bool)
    requires k < j <= |xs| && Held(ring, first, last, xs) && (tight ==> Vacant(Line(ring, first), |xs|))
    ensures ClosingBack(ring, first, last, xs, k, j, 0, tight)
  {
    assert WithoutBack(xs, k, j, 0) == xs;
  }

  lemma OverwriteOneBack<T>(ring: seq<Option<T>>, first: nat, last: nat, xs: seq<T>, k: nat, j: nat, i: nat,
      tight: bool)
    requires i < k && ClosingBack(ring, first, last, xs, k, j, i, tight)
    ensures var p, q := Wrap(first + (j - i - 1), |ring|), Wrap(first + (k - i - 1), |ring|);
            p < |ring| && q < |ring| && ClosingBack(ring[p := ring[q]], first, last, xs, k, j, i + 1, tight)
  {
    hide Held, Vacant, Line, Wrap;
    Overwrite(ring, first, last, WithoutBack(xs, k, j, i), j - i - 1, k - i - 1, tight);
    assert WithoutBack(xs, k, j, i)[j - i - 1 := WithoutBack(xs, k, j, i)[k - i - 1]] == WithoutBack(xs, k, j, i + 1);
  }

  lemma ClosedBack<T>(ring: seq<Option<T>>, first: nat, last: nat, xs: seq<T>, k: nat, j: nat, i: nat, tight: bool)
    requires ClosingBack(ring, first, last, xs, k, j, i, tight)
    ensures Held(ring, first, last, WithoutBack(xs, k, j, i)) && (tight ==> Vacant(Line(ring, first), |xs|))
  {
  }

  lemma BackOne(first: nat, k: nat, c: nat)
    requires first < c && 1 <= k <= c
    ensures Wrap(first + (k - 1), c) == (if Wrap(first + k, c) == 0 then c - 1 else Wrap(first + k, c) - 1)
  {
  }

  lemma SameCell(first: nat, i: nat, j: nat, c: nat)
    requires first < c && i < c && j < c
    ensures Wrap(first + i, c) == Wrap(first + j, c) <==> i == j
  {
  }

  lemma FirstCell(first: nat, c: nat)
    requires first < c
    ensures Wrap(first, c) == first
  {
  }

  lemma StepBefore(f: nat, k: nat, c: nat)
    requires f < c && k < c
    ensures Wrap(f + (1 + k), c) == (if Wrap(f + k, c) + 1 == c then 0 else Wrap(f + k, c) + 1)
    ensures k > 0 ==> Wrap(f + (k - 1), c) == (if Wrap(f + k, c) == 0 then c - 1 else Wrap(f + k, c) - 1)
  {
  }

  /** The k-th element seen from n cells before the first, and the new end. */
  lemma PlaceBefore(first: nat, n: nat, k: nat, size: nat, d: nat, c: nat)
    requires first < c && 1 <= n && n + k <= c && k <= size <= c && d <= size && n + (size - d) <= c
    requires d == if size + n <= c then 0 else size + n - c
    ensures var f := Wrap(first + c - n, c);
            f < c && first == Wrap(f + n, c) && Wrap(first + k, c) == Wrap(f + (n + k), c) &&
            Wrap(Wrap(first + size, c) + c - d, c) == Wrap(f + (size - d + n), c)
  {
  }

  /** With no items, or no room for any, nothing changes. */
  lemma NoRoom<T>(c: nat, xs: seq<T>, k: nat, items: seq<T>)
    requires k <= |xs| <= c && (c == |xs| - k)
    ensures LastOf(c, xs[..k] + items + xs[k..]) == xs
  {
  }

  lemma NoRoomFront<T>(c: nat, xs: seq<T>, k: nat, items: seq<T>)
    requires k <= |xs| <= c
    ensures items == [] || c == k ==> FirstOf(c, xs[..k] + items + xs[k..]) == xs
  {
  }

  /** Items that would be overwritten at once may be skipped. */
  lemma CutItems<T>(c: nat, xs: seq<T>, k: nat, items: seq<T>, from: nat)
    requires k <= |xs| <= c && from <= |items| && (from > 0 ==> |items| - from == c - (|xs| - k))
    ensures LastOf(c, xs[..k] + items[from..] + xs[k..]) == LastOf(c, xs[..k] + items + xs[k..])
  {
    if from > 0 {
      var all := xs[..k] + items + xs[k..];
      assert LastOf(c, all) == all[k + from..] == items[from..] + xs[k..];
      assert LastOf(c, xs[..k] + items[from..] + xs[k..]) == items[from..] + xs[k..];
    }
  }

  lemma CutBack<T>(c: nat, xs: seq<T>, k: nat, all: seq<T>, n: nat)
    requires k <= |xs| <= c && n <= |all| && (n < |all| ==> n == c - k)
    ensures FirstOf(c, xs[..k] + all[..n] + xs[k..]) == FirstOf(c, xs[..k] + all + xs[k..])
  {
  }

  lemma GiveUpBack<T>(c: nat, xs: seq<T>, k: nat, items: seq<T>, d: nat)
    requires k <= |xs| <= c && |items| <= c - k
    requires d == (if |xs| + |items| <= c then 0 else |xs| + |items| - c) && d <= |xs|
    ensures k <= |xs| - d
    ensures FirstOf(c, xs[..k] + items + xs[k..]) == xs[..|xs| - d][..k] + items + xs[..|xs| - d][k..]
  {
  }

  /** The k-th place after `first` is the (k-d)-th after the d-th. */
  lemma PlaceKept(first: nat, d: nat, k: nat, c: nat)
    requires first < c && d <= k <= c
    ensures Wrap(first + k, c) == Wrap(Wrap(first + d, c) + (k - d), c)
  {
  }

  lemma EndMoves(f: nat, m: nat, n: nat, c: nat)
    requires f < c && m + n <= c
    ensures Wrap(Wrap(f + m, c) + n, c) == Wrap(f + (m + n), c)
  {
  }

  lemma FullLap(f: nat, c: nat)
    requires f < c
    ensures Wrap(f + c, c) == f
  {
  }

  lemma GiveUpFront<T>(c: nat, xs: seq<T>, k: nat, items: seq<T>, d: nat)
    requires d <= k <= |xs| <= c && |items| <= c - (|xs| - k) &&
      d == if |xs| + |items| <= c then 0 else |xs| + |items| - c
    ensures LastOf(c, xs[..k] + items + xs[k..]) == xs[d..][..k - d] + items + xs[d..][k - d..]
  {
  }
}
