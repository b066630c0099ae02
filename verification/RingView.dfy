/** A ring of cells seen as a line that starts at a given cell. */
module RingView {

  /** A position at most one lap ahead, brought back onto the ring. */
  function Wrap(x: nat, c: nat): nat {
    if x < c then x else if x < 2 * c then x - c else 0
  }

  function Line<T>(ring: seq<T>, from: nat): (r: seq<T>)
    requires from < |ring|
    ensures |r| == |ring|
    ensures forall k :: 0 <= k < |ring| ==> r[k] == ring[Wrap(from + k, |ring|)]
  {
    ring[from..] + ring[..from]
  }

  /** Writing a cell of the ring writes one cell of the line. */
  lemma Store<T>(ring: seq<T>, from: nat, j: nat, x: T)
    requires from < |ring| && j < |ring|
    ensures Line(ring[Wrap(from + j, |ring|) := x], from) == Line(ring, from)[j := x]
  {
  }

  /** Starting the line d cells later rotates it. */
  lemma Later<T>(ring: seq<T>, from: nat, d: nat)
    requires from < |ring| && d < |ring|
    ensures Line(ring, Wrap(from + d, |ring|)) == Line(ring, from)[d..] + Line(ring, from)[..d]
  {
    var l := Line(ring, from);
    var m := Line(ring, Wrap(from + d, |ring|));
    forall k | 0 <= k < |ring| ensures m[k] == (l[d..] + l[..d])[k] {
    }
  }

  /** Consecutive positions. */
  lemma Next(x: nat, d: nat, c: nat)
    requires x < c && d < c
    ensures Wrap(x + d + 1, c) == if Wrap(x + d, c) + 1 == c then 0 else Wrap(x + d, c) + 1
  {
  }
}
