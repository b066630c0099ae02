/**
  The JSON object table: every pair sits in one circular doubly linked list in which each
  bucket is a contiguous run, and in a second circular list that keeps insertion order.

  The nodes are heap objects whose links are rewritten in place. `chain` and `ordered` are the
  two lists as sequences, `spans` the run of each bucket in `chain`; `Valid` says that the links,
  the bucket ends and the hashes agree with them. What a caller sees is `Contents`, the pairs in
  insertion order, and every operation is stated on it in terms of `OrderedMap`.
*/
module Hashtable {
  import opened BucketLayout
  import opened Options
  import opened OrderedMap
  import opened Bits

  type Key = string
  type Value = nat
  type Pairs = Entries<Key, Value>

  /** A pair, or the table's own sentinel: a member of both lists. */
  class Node {
    var prev: Node
    var next: Node
    var oprev: Node
    var onext: Node
    const hash: nat
    const key: Key
    var value: Value

    constructor (hash: nat, key: Key, value: Value)
      ensures this.hash == hash && this.key == key && this.value == value
      ensures prev == next == oprev == onext == this
    {
      this.hash, this.key, this.value := hash, key, value;
      prev, next, oprev, onext := this, this, this, this;
    }
  }

  ghost predicate NoDup(ns: seq<Node>) {
    forall i, j :: 0 <= i < j < |ns| ==> ns[i] != ns[j]
  }

  /** The sentinel, the pairs, and the sentinel again. */
  ghost function Ring(root: Node, ns: seq<Node>): seq<Node> {
    [root] + ns + [root]
  }

  ghost predicate Linked(r: seq<Node>)
    reads (set n | n in r)`next, (set n | n in r)`prev
  {
    forall i :: 0 <= i < |r| - 1 ==> r[i].next == r[i + 1] && r[i + 1].prev == r[i]
  }

  ghost predicate OrderLinked(r: seq<Node>)
    reads (set n | n in r)`onext, (set n | n in r)`oprev
  {
    forall i :: 0 <= i < |r| - 1 ==> r[i].onext == r[i + 1] && r[i + 1].oprev == r[i]
  }

  /** A closed ring: it ends where it begins, and nothing else repeats. */
  ghost predicate Closed(r: seq<Node>) {
    2 <= |r| && r[0] == r[|r| - 1] && forall i, j :: 0 <= i < j < |r| - 1 ==> r[i] != r[j]
  }

  /** Each node has one successor place and one predecessor place on a ring. */
  lemma ClosedPlaces(r: seq<Node>, k: nat)
    requires Closed(r) && k < |r|
    ensures forall i :: 0 <= i < |r| - 1 && i != k && k < |r| - 1 ==> r[i] != r[k]
    ensures forall i :: 1 <= i < |r| && i != k && 0 < k ==> r[i] != r[k]
  {
  }

  ghost function Insert(r: seq<Node>, k: nat, node: Node): seq<Node>
    requires k <= |r|
  {
    r[..k] + [node] + r[k..]
  }

  ghost function Remove(r: seq<Node>, k: nat): seq<Node>
    requires k < |r|
  {
    r[..k] + r[k + 1..]
  }

  lemma ClosedInsert(r: seq<Node>, k: nat, node: Node)
    requires Closed(r) && 0 < k < |r| && node !in r
    ensures Closed(Insert(r, k, node))
  {
  }

  lemma ClosedRemove(r: seq<Node>, k: nat)
    requires Closed(r) && 0 < k < |r| - 1
    ensures Closed(Remove(r, k))
  {
  }

  // ---- the two intrusive lists ----

  method ListInsert(list: Node, node: Node, ghost r: seq<Node>, ghost k: nat)
    requires Linked(r) && Closed(r) && 0 < k < |r| && r[k] == list && node !in r
    modifies node`next, node`prev, list.prev`next, list`prev
    ensures Linked(Insert(r, k, node)) && Closed(Insert(r, k, node))
  {
    ClosedPlaces(r, k);
    ClosedPlaces(r, k - 1);
    ClosedInsert(r, k, node);
    node.next := list;
    node.prev := list.prev;
    list.prev.next := node;
    list.prev := node;
  }

  method ListRemove(list: Node, ghost r: seq<Node>, ghost k: nat)
    requires Linked(r) && Closed(r) && 0 < k < |r| - 1 && r[k] == list
    modifies list.prev`next, list.next`prev
    ensures Linked(Remove(r, k)) && Closed(Remove(r, k))
  {
    ClosedPlaces(r, k - 1);
    ClosedPlaces(r, k + 1);
    ClosedRemove(r, k);
    list.prev.next := list.next;
    list.next.prev := list.prev;
  }

  method OrderInsert(list: Node, node: Node, ghost r: seq<Node>, ghost k: nat)
    requires OrderLinked(r) && Closed(r) && 0 < k < |r| && r[k] == list && node !in r
    modifies node`onext, node`oprev, list.oprev`onext, list`oprev
    ensures OrderLinked(Insert(r, k, node)) && Closed(Insert(r, k, node))
  {
    ClosedPlaces(r, k);
    ClosedPlaces(r, k - 1);
    ClosedInsert(r, k, node);
    node.onext := list;
    node.oprev := list.oprev;
    list.oprev.onext := node;
    list.oprev := node;
  }

  method OrderRemove(list: Node, ghost r: seq<Node>, ghost k: nat)
    requires OrderLinked(r) && Closed(r) && 0 < k < |r| - 1 && r[k] == list
    modifies list.oprev`onext, list.onext`oprev
    ensures OrderLinked(Remove(r, k)) && Closed(Remove(r, k))
  {
    ClosedPlaces(r, k - 1);
    ClosedPlaces(r, k + 1);
    ClosedRemove(r, k);
    list.oprev.onext := list.onext;
    list.onext.oprev := list.oprev;
  }

  // ---- the table ----

  datatype Bucket = Bucket(first: Node, last: Node)

  function Index(hash: nat, order: nat): (i: nat) {
    And(hash, Pow2(order) - 1)
  }

  lemma IndexInRange(hash: nat, order: nat)
    ensures Index(hash, order) == hash % Pow2(order) < Pow2(order)
  {
    MaskIsRemainder(hash, order);
  }

  /** The bucket of each pair of the list. */
  ghost function Owners(chain: seq<Node>, order: nat): (os: seq<nat>)
    ensures |os| == |chain|
  {
    seq(|chain|, i requires 0 <= i < |chain| => Index(chain[i].hash, order))
  }

  /** A bucket's two pointers are the ends of its run, or the sentinel twice. */
  ghost predicate BucketOf(root: Node, chain: seq<Node>, b: Bucket, s: Span) {
    if Empty(s) then b == Bucket(root, root)
    else s.lo < s.hi <= |chain| && b.first == chain[s.lo] && b.last == chain[s.hi - 1]
  }

  ghost predicate BucketsOf(root: Node, chain: seq<Node>, bs: seq<Bucket>, spans: seq<Span>) {
    |bs| == |spans| && forall b :: 0 <= b < |bs| ==> BucketOf(root, chain, bs[b], spans[b])
  }

  /** The buckets after a pair has become the first of its bucket. */
  lemma InsertBuckets(root: Node, chain: seq<Node>, bs: seq<Bucket>, order: nat, spans: seq<Span>, b: nat, node: Node)
    requires BucketsOf(root, chain, bs, spans) && Tiles(Owners(chain, order), spans)
    requires b < |bs| && Index(node.hash, order) == b
    ensures var p := InsertPos(Owners(chain, order), spans, b);
            p <= |chain| &&
            BucketsOf(root, Insert(chain, p, node), bs[b := Bucket(node, if Empty(spans[b]) then node else bs[b].last)],
                      InsertSpans(spans, p, b)) &&
            Owners(Insert(chain, p, node), order) == InsertOwner(Owners(chain, order), p, b)
  {
    var p := InsertPos(Owners(chain, order), spans, b);
    var chain' := Insert(chain, p, node);
    var bs' := bs[b := Bucket(node, if Empty(spans[b]) then node else bs[b].last)];
    var spans' := InsertSpans(spans, p, b);
    forall c | 0 <= c < |bs| ensures BucketOf(root, chain', bs'[c], spans'[c]) {
      assert BucketOf(root, chain, bs[c], spans[c]);
      if c != b && !Empty(spans[c]) && !Empty(spans[b]) { BucketLayout.Apart(Owners(chain, order), spans, b, c); }
    }
  }

  ghost function EntriesOf(ordered: seq<Node>): (es: Pairs)
    reads (set n | n in ordered)`value
    ensures |es| == |ordered|
    ensures forall i :: 0 <= i < |ordered| ==> es[i] == Entry(ordered[i].key, ordered[i].value)
  {
    if ordered == [] then [] else [Entry(ordered[0].key, ordered[0].value)] + EntriesOf(ordered[1..])
  }

  /** The second list holds the same pairs as the first; keys are hashed and distinct. */
  ghost predicate PairedOf(root: Node, chain: seq<Node>, ordered: seq<Node>, hashOf: Key -> nat) {
    Closed(Ring(root, ordered)) && |ordered| == |chain| &&
    (forall n :: n in chain ==> n in ordered) && (forall n :: n in ordered ==> n in chain) &&
    (forall n :: n in chain ==> n.hash == hashOf(n.key)) &&
    (forall i, j :: 0 <= i < j < |ordered| ==> ordered[i].key != ordered[j].key)
  }

  class Table {
    const hashOf: Key -> nat
    const root: Node
    var size: nat
    var order: nat
    var buckets: array<Bucket>
    var dropped: seq<Value>          // values whose reference the table has given up, in order
    ghost var chain: seq<Node>       // the pairs in list order
    ghost var ordered: seq<Node>     // the pairs in insertion order
    ghost var spans: seq<Span>       // each bucket's run of `chain`

    /** The main list and the buckets over it. */
    ghost predicate Bucketed()
      reads `chain, `order, `spans, `buckets, buckets
    {
      Closed(Ring(root, chain)) &&
      buckets.Length == |spans| == Pow2(order) &&
      Tiles(Owners(chain, order), spans) &&
      BucketsOf(root, chain, buckets[..], spans)
    }

    ghost predicate Paired()
      reads `chain, `ordered, `size
    {
      size == |ordered| && PairedOf(root, chain, ordered, hashOf)
    }

    ghost predicate Wired()
      reads `chain, (set n | n in Ring(root, chain))`next, (set n | n in Ring(root, chain))`prev
    {
      Linked(Ring(root, chain))
    }

    ghost predicate OrderWired()
      reads `ordered, (set n | n in Ring(root, ordered))`onext, (set n | n in Ring(root, ordered))`oprev
    {
      OrderLinked(Ring(root, ordered))
    }

    ghost predicate Valid()
      reads this, buckets, root, chain, ordered
    {
      Bucketed() && Paired() && Wired() && OrderWired()
    }

    ghost function Contents(): Pairs
      reads `ordered, (set n | n in ordered)`value
    {
      EntriesOf(ordered)
    }

    constructor (hashOf: Key -> nat)
      ensures Valid() && Contents() == [] && dropped == [] && order == 3 && this.hashOf == hashOf
      ensures fresh(buckets) && fresh(root)
    {
      var sentinel := new Node(0, "", 0);
      this.hashOf := hashOf;
      root := sentinel;
      size, order := 0, 3;
      buckets := new Bucket[8](_ => Bucket(sentinel, sentinel));
      dropped := [];
      chain, ordered := [], [];
      spans := seq(8, _ => NO_SPAN);
      new;
      assert Pow2(3) == 8 by { assert Pow2(1) == 2 && Pow2(2) == 4; }
      NoTiles(8);
    }

    /** insert_to_bucket: the new pair becomes the first of its bucket's run. */
    method InsertToBucket(b: nat, node: Node)
      requires Bucketed() && Wired()
      requires b < buckets.Length && Index(node.hash, order) == b && node !in Ring(root, chain)
      modifies this`chain, this`spans, buckets, node`next, node`prev, root`next, root`prev,
               (set n | n in chain)`next, (set n | n in chain)`prev
      ensures Bucketed() && Wired()
      ensures exists p :: 0 <= p <= |old(chain)| && chain == Insert(old(chain), p, node)
    {
      hide Tiles, BucketsOf, Closed, InsertSpans;
      ghost var r := Ring(root, chain);
      ghost var p := InsertPos(Owners(chain, order), spans, b);
      BucketAt(root, chain, buckets[..], spans, b);
      EmptyBucket(root, chain, buckets[b], spans[b]);
      InsertTiles(Owners(chain, order), spans, b);
      InsertBuckets(root, chain, buckets[..], order, spans, b, node);
      RingInsert(root, chain, p, node);
      ghost var bs := buckets[..];
      if buckets[b].first == root && buckets[b].first == buckets[b].last {
        assert r[|r| - 2].next == r[|r| - 1] == root;
        assert root.prev == r[|r| - 2];
        ListInsert(root, node, r, |r| - 1);
        buckets[b] := Bucket(node, node);
      } else {
        FrontOfRun(root, chain, buckets[b], spans[b]);
        assert r[p + 1] == buckets[b].first;
        assert r[p].next == r[p + 1];
        ListInsert(buckets[b].first, node, r, p + 1);
        buckets[b] := buckets[b].(first := node);
      }
      chain := Insert(chain, p, node);
      spans := InsertSpans(spans, p, b);
      assert buckets[..] == bs[b := buckets[b]];
    }

    /** hashtable_find_pair: walks the run of one bucket. */
    method FindPair(b: nat, key: Key, hash: nat) returns (pair: Node?)
      requires Bucketed() && Wired()
      requires forall n :: n in chain ==> n.hash == hashOf(n.key)
      requires b < buckets.Length && b == Index(hash, order) && hash == hashOf(key)
      ensures pair == null ==> forall n :: n in chain ==> n.key != key
      ensures pair != null ==> pair in chain && pair.key == key
    {
      ghost var s := spans[b];
      assert BucketOf(root, chain, buckets[..][b], s);
      EmptyBucket(root, chain, buckets[b], s);
      assert forall j :: 0 <= j < |chain| && chain[j].key == key ==> s.lo <= j < s.hi by {
        OwnedBy(chain, order, spans, b, key, hash, hashOf);
      }
      if buckets[b].first == root && buckets[b].first == buckets[b].last {
        return null;
      }
      var list := buckets[b].first;
      ghost var i := s.lo;
      while true
        invariant s.lo <= i < s.hi && list == chain[i]
        invariant forall j :: s.lo <= j < i ==> chain[j].key != key
        decreases s.hi - i
      {
        if list.hash == hash && list.key == key {
          return list;
        }
        if list == buckets[b].last {
          assert i == s.hi - 1 by { assert Ring(root, chain)[i + 1] == Ring(root, chain)[s.hi]; }
          break;
        }
        assert Ring(root, chain)[i + 1].next == Ring(root, chain)[i + 2];
        list := list.next;
        i := i + 1;
      }
      return null;
    }

    /** The key's bucket, and its pair if there is one. */
    method Locate(key: Key) returns (b: nat, pair: Node?)
      requires Valid()
      ensures b == Index(hashOf(key), order) && b < buckets.Length
      ensures pair == null ==> (forall n :: n in chain ==> n.key != key)
      ensures pair != null ==> pair in chain && pair in ordered && pair.key == key && pair.hash == hashOf(key)
      ensures Contents() == old(Contents())
      ensures OrderedMap.Get(Contents(), key) == if pair == null then None else Some(pair.value)
      ensures pair == null ==> !Has(Contents(), key) && OrderedMap.Del(Contents(), key) == Contents()
      ensures pair != null ==> Has(Contents(), key)
    {
      var hash := hashOf(key);
      b := Index(hash, order);
      IndexInRange(hash, order);
      pair := FindPair(b, key, hash);
      if pair == null {
        Missing(Contents(), key);
      } else {
        Present(Contents(), key, Place(ordered, pair));
      }
    }

    /** hashtable_get: the value stored under the key, if any. */
    method Get(key: Key) returns (value: Option<Value>)
      requires Valid()
      ensures value == OrderedMap.Get(Contents(), key)
    {
      var b, pair := Locate(key);
      if pair == null {
        value := None;
      } else {
        value := Some(pair.value);
      }
    }

    /** hashtable_do_del: unlinks the pair from both lists and gives up its value. */
    method Del(key: Key) returns (rc: int)
      requires Valid()
      modifies this, buckets, root, chain
      ensures Valid() && buckets == old(buckets) && order == old(order)
      ensures Contents() == OrderedMap.Del(old(Contents()), key)
      ensures rc == if Has(old(Contents()), key) then 0 else -1
      ensures dropped == match OrderedMap.Get(old(Contents()), key)
                         case Some(v) => old(dropped) + [v]
                         case None => old(dropped)
      ensures forall n :: n in chain ==> n in old(chain)
    {
      hide Table.Bucketed, Table.Wired, Table.OrderWired;
      var b, pair := Locate(key);
      if pair == null {
        return -1;
      }
      ghost var es := Contents();
      ghost var q := Place(ordered, pair);
      assert es[q].key == key && es[q].value == pair.value;
      Unlink(b, pair, q);
      Present(es, key, q);
      dropped := dropped + [pair.value];
      return 0;
    }

    /** Takes a pair out of its bucket, the main list and the insertion-order list. */
    method Unlink(b: nat, pair: Node, ghost q: nat)
      requires Valid() && pair in chain && b == Index(pair.hash, order) && b < buckets.Length
      requires q < |ordered| && ordered[q] == pair
      modifies this`chain, this`ordered, this`spans, this`size, buckets,
               root`next, root`prev, root`onext, root`oprev,
               (set n | n in chain)`next, (set n | n in chain)`prev, (set n | n in chain)`onext,
               (set n | n in chain)`oprev
      ensures Valid() && forall n :: n in chain ==> n in old(chain)
      ensures Contents() == old(Contents())[..q] + old(Contents())[q + 1..]
    {
      hide Table.Bucketed, Table.Wired, OrderLinked, EntriesOf, Remove;
      RingClosed();
      ghost var es := Contents();
      ghost var p := Place(chain, pair);
      RemovePaired(root, chain, p, ordered, q, hashOf);
      UnlinkFromBucket(b, pair, p);
      assert OrderWired() && Contents() == es;
      UnlinkFromOrder(pair, q);
      size := size - 1;
    }

    /** The part of deletion that works on the insertion-order list. */
    method UnlinkFromOrder(pair: Node, ghost q: nat)
      requires Closed(Ring(root, ordered)) && OrderWired() && q < |ordered| && ordered[q] == pair
      requires Bucketed() && Wired()
      modifies this`ordered, root`onext, root`oprev, (set n | n in ordered)`onext, (set n | n in ordered)`oprev
      ensures Closed(Ring(root, ordered)) && OrderWired() && ordered == Remove(old(ordered), q)
      ensures Bucketed() && Wired() && Contents() == old(Contents())[..q] + old(Contents())[q + 1..]
    {
      hide Tiles, BucketsOf;
      ghost var r := Ring(root, ordered);
      ghost var es := Contents();
      assert r[q + 1] == pair && r[q + 1].onext == r[q + 2] && r[q].onext == r[q + 1] && r[q + 1].oprev == r[q];
      RingRemove(root, ordered, q);
      OrderRemove(pair, r, q + 1);
      ordered := Remove(ordered, q);
      assert Contents() == es[..q] + es[q + 1..];
    }

    /** Moves an end of the bucket off the pair that is about to go. */
    method RetractBucket(b: nat, pair: Node)
      requires b < buckets.Length
      modifies buckets
      ensures var old_b := old(buckets[b]);
              buckets[..] == old(buckets[..])[b :=
                if pair == old_b.first && pair == old_b.last then Bucket(root, root)
                else if pair == old_b.first then old_b.(first := pair.next)
                else if pair == old_b.last then old_b.(last := pair.prev)
                else old_b]
    {
      if pair == buckets[b].first && pair == buckets[b].last {
        buckets[b] := Bucket(root, root);
      } else if pair == buckets[b].first {
        buckets[b] := buckets[b].(first := pair.next);
      } else if pair == buckets[b].last {
        buckets[b] := buckets[b].(last := pair.prev);
      }
    }

    /** The part of deletion that works on the bucket and the main list. */
    method UnlinkFromBucket(b: nat, pair: Node, ghost p: nat)
      requires Bucketed() && Wired()
      requires p < |chain| && chain[p] == pair && b == Index(pair.hash, order) && b < buckets.Length
      modifies this`chain, this`spans, buckets, root`next, root`prev, (set n | n in chain)`next,
        (set n | n in chain)`prev
      ensures Bucketed() && Wired() && chain == Remove(old(chain), p)
    {
      hide Tiles, BucketsOf, Closed, RemoveSpans;
      ghost var r := Ring(root, chain);
      ghost var bs := buckets[..];
      InRun(chain, order, spans, p, b);
      assert r[p + 1] == pair && pair.next == r[p + 2] && pair.prev == r[p];
      RemoveTiles(Owners(chain, order), spans, p);
      RemoveBuckets(root, chain, bs, order, spans, b, p, pair.next, pair.prev);
      RingRemove(root, chain, p);
      RetractBucket(b, pair);
      ListRemove(pair, r, p + 1);
      chain := Remove(chain, p);
      spans := RemoveSpans(spans, p, b);
    }

    /** The new, empty buckets and the emptied list of a rehash. */
    method StartOver()
      modifies `order, `buckets, `chain, `spans, root`next, root`prev
      ensures Bucketed() && Wired() && chain == [] && order == old(order) + 1 && fresh(buckets)
    {
      order := order + 1;
      var r := root;
      buckets := new Bucket[Pow2(order)](_ => Bucket(r, r));
      root.next, root.prev := root, root;
      chain := [];
      spans := seq(Pow2(order), _ => NO_SPAN);
      NoTiles(Pow2(order));
    }

    /** hashtable_do_rehash: doubles the buckets, or fails for lack of memory and changes nothing. */
    method Rehash(mem: bool) returns (rc: int)
      requires Valid()
      modifies `order, `buckets, `chain, `spans, root`next, root`prev, (set n | n in chain)`next,
        (set n | n in chain)`prev
      ensures Valid() && rc == if mem then 0 else -1
      ensures order == old(order) + if mem then 1 else 0
      ensures if mem then fresh(buckets) else buckets == old(buckets)
      ensures (forall n :: n in chain ==> n in old(chain)) && Contents() == old(Contents())
    {
      if !mem {
        return -1;
      }
      RehashLists();
      return 0;
    }

    /** Threads the same nodes anew, walking the old links while it overwrites them. */
    method RehashLists()
      requires Bucketed() && Wired() && PairedOf(root, chain, ordered, hashOf)
      modifies `order, `buckets, `chain, `spans, root`next, root`prev, (set n | n in chain)`next,
        (set n | n in chain)`prev
      ensures Bucketed() && Wired() && PairedOf(root, chain, ordered, hashOf)
      ensures order == old(order) + 1 && fresh(buckets) && (forall n :: n in chain ==> n in old(chain))
    {
      ghost var ns := chain;
      var list := root.next;
      RingSteps(root, ns);
      StartOver();
      Rethread(list, ns);
      PairedAgain(root, ns, chain, ordered, hashOf);
    }

    lemma RingClosed()
      requires Bucketed()
      ensures Closed(Ring(root, chain))
    {
    }

    lemma BucketCount()
      requires Bucketed()
      ensures buckets.Length == Pow2(order)
    {
    }

    /** Walks the old links from `list` and inserts each node into its new bucket. */
    method Rethread(first: Node, ghost ns: seq<Node>)
      requires Bucketed() && Wired() && chain == []
      requires NoDup(ns) && root !in ns && first == Ring(root, ns)[1]
      requires forall i :: 0 <= i < |ns| ==> ns[i].next == Ring(root, ns)[i + 2]
      modifies `chain, `spans, buckets, root`next, root`prev, (set n | n in ns)`next, (set n | n in ns)`prev
      ensures Bucketed() && Wired() && |chain| == |ns|
      ensures forall n :: n in chain ==> n in ns
      ensures forall i :: 0 <= i < |ns| ==> ns[i] in chain
    {
      hide Table.Bucketed, Table.Wired;
      var list := first;
      ghost var k := 0;
      while list != root
        invariant k <= |ns| && list == Ring(root, ns)[k + 1]
        invariant Bucketed() && Wired() && |chain| == k
        invariant forall n :: n in chain ==> n in ns
        invariant forall i :: 0 <= i < k ==> ns[i] in chain
        invariant forall i :: k <= i < |ns| ==> ns[i] !in chain && ns[i].next == Ring(root, ns)[i + 2]
        decreases |ns| - k
      {
        list := RethreadOne(list, ns, k);
        k := k + 1;
      }
    }

    /** Inserts the k-th node into its new bucket, after its old link has been read. */
    method RethreadOne(list: Node, ghost ns: seq<Node>, ghost k: nat) returns (next: Node)
      requires Bucketed() && Wired() && |chain| == k < |ns| && list == ns[k] && NoDup(ns) && root !in ns
      requires forall n :: n in chain ==> n in ns
      requires forall i :: 0 <= i < k ==> ns[i] in chain
      requires forall i :: k <= i < |ns| ==> ns[i] !in chain && ns[i].next == Ring(root, ns)[i + 2]
      modifies `chain, `spans, buckets, list`next, list`prev, root`next, root`prev,
               (set n | n in chain)`next, (set n | n in chain)`prev
      ensures Bucketed() && Wired() && |chain| == k + 1 && next == Ring(root, ns)[k + 2]
      ensures forall n :: n in chain ==> n in ns
      ensures forall i :: 0 <= i <= k ==> ns[i] in chain
      ensures forall i :: k < i < |ns| ==> ns[i] !in chain && ns[i].next == Ring(root, ns)[i + 2]
    {
      hide Table.Bucketed, Table.Wired;
      BucketCount();
      next := list.next;
      var index := list.hash % Pow2(order);
      IndexInRange(list.hash, order);
      InsertToBucket(index, list);
    }

    /** Gives a present key a new value: the old value is given up, the pair stays where it is. */
    method Overwrite(pair: Node, value: Value)
      requires Valid() && pair in ordered
      modifies pair`value, `dropped
      ensures Valid() && Contents() == OrderedMap.Set(old(Contents()), pair.key, value)
      ensures dropped == old(dropped) + [old(pair.value)]
    {
      hide Tiles, BucketsOf, Linked, OrderLinked, OrderedMap.Set;
      ghost var q := Place(ordered, pair);
      ghost var es := Contents();
      RingNoDup(root, ordered);
      SetPresent(es, pair.key, value, q);
      dropped := dropped + [pair.value];
      pair.value := value;
      assert Contents() == es[q := Entry(pair.key, value)];
    }

    /** Links a new pair at the end of the insertion-order list. */
    method AppendToOrder(pair: Node)
      requires Closed(Ring(root, ordered)) && OrderWired() && pair !in Ring(root, ordered)
      requires Bucketed() && Wired()
      modifies `ordered, pair`onext, pair`oprev, root`onext, root`oprev, (set n | n in ordered)`onext,
        (set n | n in ordered)`oprev
      ensures Closed(Ring(root, ordered)) && OrderWired() && ordered == old(ordered) + [pair]
      ensures Bucketed() && Wired() && Contents() == old(Contents()) + [Entry(pair.key, pair.value)]
    {
      hide Tiles, BucketsOf;
      ghost var r := Ring(root, ordered);
      ghost var es := Contents();
      RingInsert(root, ordered, |ordered|, pair);
      assert root.oprev == r[|r| - 2] && r[|r| - 1] == root by { assert r[|r| - 2].onext == r[|r| - 1]; }
      OrderInsert(root, pair, r, |r| - 1);
      assert Insert(ordered, |ordered|, pair) == ordered + [pair];
      ordered := ordered + [pair];
      assert Contents() == es + [Entry(pair.key, pair.value)];
    }

    /** Links a new pair into its bucket; the insertion-order list is not touched. */
    method AddToBucket(b: nat, pair: Node)
      requires Bucketed() && Wired() && OrderWired() && Closed(Ring(root, ordered))
      requires b == Index(pair.hash, order) && b < buckets.Length && pair !in Ring(root, chain)
      modifies `chain, `spans, buckets, pair`next, pair`prev, root`next, root`prev,
               (set n | n in chain)`next, (set n | n in chain)`prev
      ensures Bucketed() && Wired() && OrderWired() && Contents() == old(Contents())
      ensures |chain| == |old(chain)| + 1 && pair in chain
      ensures (forall n :: n in chain ==> n in old(chain) || n == pair) && (forall n :: n in old(chain) ==> n in chain)
    {
      ghost var ns := chain;
      InsertToBucket(b, pair);
      ghost var p :| 0 <= p <= |ns| && chain == Insert(ns, p, pair);
      InsertMembers(ns, p, pair);
    }

    /** Adds a pair for an absent key. */
    method AppendPair(b: nat, key: Key, value: Value)
      requires Valid() && (forall n :: n in chain ==> n.key != key)
      requires b == Index(hashOf(key), order) && b < buckets.Length
      modifies `chain, `spans, `ordered, `size, buckets, root, chain
      ensures Valid() && (forall n :: n in chain ==> n in old(chain) || fresh(n)) && size == old(size) + 1
      ensures Contents() == old(Contents()) + [Entry(key, value)]
    {
      var pair := new Node(hashOf(key), key, value);
      AppendNode(b, pair);
    }

    /** The pair enters its bucket and both lists. */
    method AppendLists(b: nat, pair: Node)
      requires Bucketed() && Wired() && OrderWired() && PairedOf(root, chain, ordered, hashOf)
      requires (forall n :: n in chain ==> n.key != pair.key)
      requires b == Index(pair.hash, order) && b < buckets.Length && pair.hash == hashOf(pair.key) && pair != root
      modifies `chain, `spans, `ordered, buckets, pair`next, pair`prev, pair`onext, pair`oprev,
               root`next, root`prev, root`onext, root`oprev,
               (set n | n in chain)`next, (set n | n in chain)`prev, (set n | n in chain)`onext,
               (set n | n in chain)`oprev
      ensures Bucketed() && Wired() && OrderWired() && PairedOf(root, chain, ordered, hashOf)
      ensures |ordered| == |old(ordered)| + 1 && (forall n :: n in chain ==> n in old(chain) || n == pair)
      ensures Contents() == old(Contents()) + [Entry(pair.key, pair.value)]
    {
      hide Tiles, BucketsOf;
      ghost var ns := chain;
      AddToBucket(b, pair);
      PairedGrown(root, ns, chain, ordered, pair, hashOf);
      AppendToOrder(pair);
    }

    method AppendNode(b: nat, pair: Node)
      requires Valid() && (forall n :: n in chain ==> n.key != pair.key)
      requires b == Index(pair.hash, order) && b < buckets.Length && pair.hash == hashOf(pair.key) && pair != root
      modifies `chain, `spans, `ordered, `size, buckets, pair`next, pair`prev, pair`onext, pair`oprev,
               root`next, root`prev, root`onext, root`oprev,
               (set n | n in chain)`next, (set n | n in chain)`prev, (set n | n in chain)`onext,
               (set n | n in chain)`oprev
      ensures Valid() && (forall n :: n in chain ==> n in old(chain) || n == pair) && size == old(size) + 1
      ensures Contents() == old(Contents()) + [Entry(pair.key, pair.value)]
    {
      hide Tiles, BucketsOf, Linked, OrderLinked, PairedOf;
      AppendLists(b, pair);
      size := size + 1;
    }

    /** The part of hashtable_set after the table has grown, if it had to. */
    method SetHere(key: Key, value: Value, pairMem: bool) returns (rc: int)
      requires Valid()
      modifies `chain, `spans, `ordered, `size, `dropped, buckets, root, chain
      ensures Valid() && (forall n :: n in chain ==> n in old(chain) || fresh(n))
      ensures rc == if !Has(old(Contents()), key) && !pairMem then -1 else 0
      ensures Contents() == if rc == 0 then OrderedMap.Set(old(Contents()), key, value) else old(Contents())
      ensures dropped == match OrderedMap.Get(old(Contents()), key)
                         case Some(v) => old(dropped) + [v]
                         case None => old(dropped)
      ensures rc != 0 ==> dropped == old(dropped)
      ensures size <= old(size) + 1
    {
      hide Table.Bucketed, Table.Wired, Table.OrderWired;
      var b, pair := Locate(key);
      if pair != null {
        Overwrite(pair, value);
        return 0;
      }
      if !pairMem {
        return -1;
      }
      SetMissing(Contents(), key, value);
      AppendPair(b, key, value);
      return 0;
    }

    /** The rehash of hashtable_set, when there are as many pairs as buckets. */
    method MakeRoom(mem: bool) returns (rc: int)
      requires Valid()
      modifies `order, `buckets, `chain, `spans, root`next, root`prev, (set n | n in chain)`next,
        (set n | n in chain)`prev
      ensures Valid() && rc == if old(size) >= Pow2(old(order)) && !mem then -1 else 0
      ensures order == old(order) + if old(size) >= Pow2(old(order)) && mem then 1 else 0
      ensures (buckets == old(buckets) || fresh(buckets)) && (forall n :: n in chain ==> n in old(chain)) &&
        Contents() == old(Contents())
    {
      if size >= Pow2(order) {
        rc := Rehash(mem);
      } else {
        rc := 0;
      }
    }

    /** hashtable_set. `rehashMem` and `pairMem` say whether the two allocations it may make succeed. */
    method Set(key: Key, value: Value, rehashMem: bool, pairMem: bool) returns (rc: int)
      requires Valid()
      modifies this, buckets, root, chain
      ensures Valid() && (buckets == old(buckets) || fresh(buckets)) &&
        (forall n :: n in chain ==> n in old(chain) || fresh(n))
      ensures rc == if (old(size) >= Pow2(old(order)) && !rehashMem) ||
        (!Has(old(Contents()), key) && !pairMem) then -1 else 0
      ensures Contents() == if rc == 0 then OrderedMap.Set(old(Contents()), key, value) else old(Contents())
      ensures dropped == match OrderedMap.Get(old(Contents()), key)
                         case Some(v) => if rc == 0 then old(dropped) + [v] else old(dropped)
                         case None => old(dropped)
      ensures order == old(order) + if old(size) >= Pow2(old(order)) && rehashMem then 1 else 0
      ensures old(size) <= Pow2(old(order)) ==> size <= Pow2(order)
    {
      hide Table.Valid, Table.Contents, OrderedMap.Set, OrderedMap.Get, Has, Pow2;
      rc := MakeRoom(rehashMem);
      if rc != 0 {
        return -1;
      }
      assert forall i :: 0 <= i < |chain| ==> chain[i] in old(chain);
      rc := SetHere(key, value, pairMem);
      RoomAfter(old(size), old(order), order, size);
    }

    /** One more pair fits when the table has doubled because it was full. */
    lemma RoomAfter(size: nat, order: nat, order': nat, size': nat)
      requires size' <= size + 1 && order' == order + if size >= Pow2(order) then 1 else 0
      ensures size <= Pow2(order) ==> size' <= Pow2(order')
    {
    }

    /** hashtable_do_clear: gives up every value, walking the main list. */
    method DropAll()
      requires Closed(Ring(root, chain)) && Wired()
      modifies `dropped
      ensures dropped == old(dropped + NodeValues(chain))
    {
      hide Closed, NodeValues;
      ghost var vs := NodeValues(chain);
      NodeValuesAt(chain);
      RingStart(root, chain);
      var list := root.next;
      ghost var k := 0;
      while list != root
        invariant k <= |chain| && if k < |chain| then list == chain[k] else list == root
        invariant dropped == old(dropped) + vs[..k] && forall i :: 0 <= i < |chain| ==> vs[i] == chain[i].value
        decreases |chain| - k
      {
        RingStep(root, chain, k);
        FirstPlus(vs, k);
        dropped := dropped + [list.value];
        list := list.next;
        k := k + 1;
      }
      assert vs[..k] == vs;
    }

    /** hashtable_clear. */
    method Clear()
      requires Valid()
      modifies `dropped, `size, `chain, `ordered, `spans, buckets, root`next, root`prev, root`onext, root`oprev
      ensures Valid() && Contents() == [] && order == old(order)
      ensures multiset(dropped) == multiset(old(dropped)) + multiset(Values(old(Contents())))
    {
      hide Tiles, BucketsOf, Linked, OrderLinked, EntriesOf, NodeValues;
      RingNoDup(root, chain);
      RingNoDup(root, ordered);
      SameValues(chain, ordered);
      DropAll();
      ResetBuckets();
      ResetLists();
    }

    method ResetBuckets()
      modifies buckets
      ensures forall j :: 0 <= j < buckets.Length ==> buckets[j] == Bucket(root, root)
    {
      var i := 0;
      while i < buckets.Length
        invariant i <= buckets.Length
        invariant forall j :: 0 <= j < i ==> buckets[j] == Bucket(root, root)
      {
        buckets[i] := Bucket(root, root);
        i := i + 1;
      }
    }

    method ResetLists()
      requires buckets.Length == |spans| == Pow2(order)
      requires forall j :: 0 <= j < buckets.Length ==> buckets[j] == Bucket(root, root)
      modifies `size, `chain, `ordered, `spans, root`next, root`prev, root`onext, root`oprev
      ensures Valid() && Contents() == []
    {
      root.next, root.prev := root, root;
      root.onext, root.oprev := root, root;
      size := 0;
      chain, ordered := [], [];
      spans := seq(|spans|, _ => NO_SPAN);
      NoTiles(|spans|);
    }

    /** hashtable_iter_next; given the sentinel it is hashtable_iter. */
    method IterNext(iter: Node, ghost i: nat) returns (next: Node?)
      requires Valid() && i <= |ordered| && iter == Ring(root, ordered)[i]
      ensures if i < |ordered| then next == ordered[i] else next == null
    {
      assert iter.onext == Ring(root, ordered)[i + 1];
      RingNoDup(root, ordered);
      if iter.onext == root {
        return null;
      }
      return iter.onext;
    }

    /** json_object_foreach: the iteration visits the contents in order. */
    method ForEach() returns (es: Pairs)
      requires Valid()
      ensures es == Contents()
    {
      hide Tiles, BucketsOf, Closed, Linked, OrderLinked, EntriesOf;
      es := [];
      ghost var i := 0;
      ghost var all := Contents();
      var iter := IterNext(root, 0);
      while iter != null
        invariant i <= |ordered| && es == all[..i]
        invariant if i < |ordered| then iter == ordered[i] else iter == null
        decreases |ordered| - i
      {
        es := es + [Entry(iter.key, iter.value)];
        assert all[..i + 1] == all[..i] + [all[i]];
        i := i + 1;
        iter := IterNext(iter, i);
      }
    }
  }

  ghost function NodeValues(ns: seq<Node>): (vs: seq<Value>)
    reads (set n | n in ns)`value
    ensures |vs| == |ns|
  {
    if ns == [] then [] else [ns[0].value] + NodeValues(ns[1..])
  }

  lemma {:induction false} NodeValuesAt(ns: seq<Node>)
    ensures forall i :: 0 <= i < |ns| ==> NodeValues(ns)[i] == ns[i].value
  {
    if ns != [] { NodeValuesAt(ns[1..]); }
  }

  lemma TakenOut(xs: seq<Value>, q: nat)
    requires q < |xs|
    ensures multiset(xs) == multiset{xs[q]} + multiset(xs[..q] + xs[q + 1..])
  {
    assert xs == xs[..q] + [xs[q]] + xs[q + 1..];
  }

  lemma {:induction false} NodeValuesWithout(ns: seq<Node>, q: nat)
    requires q < |ns|
    ensures NodeValues(Remove(ns, q)) == NodeValues(ns)[..q] + NodeValues(ns)[q + 1..] &&
      NodeValues(ns)[q] == ns[q].value
  {
    var vs := NodeValues(ns[1..]);
    if q == 0 {
      assert Remove(ns, 0) == ns[1..] && ([ns[0].value] + vs)[1..] == vs;
    } else {
      NodeValuesWithout(ns[1..], q - 1);
      FirstKept(ns, q);
      assert [ns[0].value] + (vs[..q - 1] + vs[q..]) == ([ns[0].value] + vs)[..q] + ([ns[0].value] + vs)[q + 1..];
    }
  }

  lemma FirstKept(ns: seq<Node>, q: nat)
    requires 0 < q < |ns|
    ensures Remove(ns, q) != [] && Remove(ns, q)[0] == ns[0] && Remove(ns, q)[1..] == Remove(ns[1..], q - 1)
  {
  }

  lemma NodeValuesRemove(ns: seq<Node>, q: nat)
    requires q < |ns|
    ensures multiset(NodeValues(ns)) == multiset{ns[q].value} + multiset(NodeValues(Remove(ns, q)))
  {
    hide NodeValues, Remove;
    NodeValuesWithout(ns, q);
    TakenOut(NodeValues(ns), q);
  }

  /** Two lists of the same distinct nodes hold the same values. */
  lemma {:induction false} SameNodeValues(xs: seq<Node>, ys: seq<Node>)
    requires NoDup(xs) && NoDup(ys) && |xs| == |ys| && forall n :: n in xs ==> n in ys
    ensures multiset(NodeValues(xs)) == multiset(NodeValues(ys))
  {
    if xs != [] {
      var q := Place(ys, xs[0]);
      RemoveMember(xs, 0, ys, q);
      assert Remove(xs, 0) == xs[1..];
      SameNodeValues(xs[1..], Remove(ys, q));
      NodeValuesRemove(ys, q);
    }
  }

  lemma {:induction false} NodeValuesAre(ns: seq<Node>)
    ensures NodeValues(ns) == Values(EntriesOf(ns))
  {
    if ns != [] { NodeValuesAre(ns[1..]); }
  }

  lemma SameValues(chain: seq<Node>, ordered: seq<Node>)
    requires NoDup(chain) && NoDup(ordered) && |chain| == |ordered| && forall n :: n in chain ==> n in ordered
    ensures multiset(NodeValues(chain)) == multiset(Values(EntriesOf(ordered)))
  {
    SameNodeValues(chain, ordered);
    NodeValuesAre(ordered);
  }

  lemma InsertMembers(ns: seq<Node>, p: nat, n: Node)
    requires p <= |ns|
    ensures n in Insert(ns, p, n)
    ensures forall m :: m in Insert(ns, p, n) ==> m in ns || m == n
    ensures forall m :: m in ns ==> m in Insert(ns, p, n)
  {
    assert Insert(ns, p, n)[p] == n;
    forall m | m in ns ensures m in Insert(ns, p, n) {
      var i := Place(ns, m);
      assert Insert(ns, p, n)[if i < p then i else i + 1] == m;
    }
  }

  lemma PairedGrown(root: Node, ns: seq<Node>, chain: seq<Node>, ordered: seq<Node>, pair: Node, hashOf: Key -> nat)
    requires PairedOf(root, ns, ordered, hashOf) && |chain| == |ns| + 1 && pair in chain
    requires forall n :: n in chain ==> n in ns || n == pair
    requires forall n :: n in ns ==> n in chain
    requires forall n :: n in ns ==> n.key != pair.key
    requires pair.hash == hashOf(pair.key) && pair != root
    ensures pair !in Ring(root, ordered) && PairedOf(root, chain, ordered + [pair], hashOf)
  {
    RingInsert(root, ordered, |ordered|, pair);
    assert ordered + [pair] == Insert(ordered, |ordered|, pair);
    ClosedInsert(Ring(root, ordered), |ordered| + 1, pair);
  }

  lemma FirstPlus(vs: seq<Value>, k: nat)
    requires k < |vs|
    ensures vs[..k + 1] == vs[..k] + [vs[k]]
  {
  }

  /** The sentinel's successor is the first node. */
  lemma RingStart(root: Node, ns: seq<Node>)
    requires Closed(Ring(root, ns)) && Linked(Ring(root, ns))
    ensures (forall i :: 0 <= i < |ns| ==> ns[i] != root) && root.next == if ns == [] then root else ns[0]
  {
    RingSteps(root, ns);
  }

  /** A node's successor is the next one, or the sentinel. */
  lemma RingStep(root: Node, ns: seq<Node>, k: nat)
    requires Closed(Ring(root, ns)) && Linked(Ring(root, ns)) && k < |ns|
    ensures ns[k].next == if k + 1 < |ns| then ns[k + 1] else root
  {
    RingSteps(root, ns);
  }

  lemma RingSteps(root: Node, ns: seq<Node>)
    requires Closed(Ring(root, ns)) && Linked(Ring(root, ns))
    ensures NoDup(ns) && root !in ns && root.next == Ring(root, ns)[1]
    ensures forall i :: 0 <= i < |ns| ==> ns[i].next == Ring(root, ns)[i + 2]
  {
    RingNoDup(root, ns);
    var r := Ring(root, ns);
    forall i | 0 <= i < |ns| ensures ns[i].next == r[i + 2] { assert r[i + 1].next == r[i + 2]; }
  }

  lemma PairedAgain(root: Node, ns: seq<Node>, chain: seq<Node>, ordered: seq<Node>, hashOf: Key -> nat)
    requires PairedOf(root, ns, ordered, hashOf) && |chain| == |ns|
    requires forall n :: n in chain ==> n in ns
    requires forall i :: 0 <= i < |ns| ==> ns[i] in chain
    ensures PairedOf(root, chain, ordered, hashOf)
  {
  }

  /** The place of a node in a list of distinct nodes. */
  ghost function Place(ns: seq<Node>, n: Node): (i: nat)
    requires n in ns
    ensures i < |ns| && ns[i] == n
  {
    var i :| 0 <= i < |ns| && ns[i] == n; i
  }

  /** Where the ends of a run are, seen from one of its pairs. */
  lemma RunEnds(root: Node, chain: seq<Node>, p: nat, s: Span)
    requires Closed(Ring(root, chain)) && s.lo <= p < s.hi <= |chain|
    ensures chain[p] == chain[s.lo] <==> p == s.lo
    ensures chain[p] == chain[s.hi - 1] <==> p == s.hi - 1
  {
    var r := Ring(root, chain);
    assert chain[p] == r[p + 1] && chain[s.lo] == r[s.lo + 1] && chain[s.hi - 1] == r[s.hi];
  }

  /** The buckets after the pair at position p of bucket b has gone. */
  lemma RemoveBuckets(root: Node, chain: seq<Node>, bs: seq<Bucket>, order: nat, spans: seq<Span>, b: nat, p: nat,
                      next: Node, prev: Node)
    requires Closed(Ring(root, chain)) && BucketsOf(root, chain, bs, spans) && Tiles(Owners(chain, order), spans)
    requires b < |bs| && p < |chain| && Owners(chain, order)[p] == b && spans[b].lo <= p < spans[b].hi
    requires next == Ring(root, chain)[p + 2] && prev == Ring(root, chain)[p]
    ensures var pair := chain[p];
            var nb := if pair == bs[b].first && pair == bs[b].last then Bucket(root, root)
                      else if pair == bs[b].first then bs[b].(first := next)
                      else if pair == bs[b].last then bs[b].(last := prev)
                      else bs[b];
            BucketsOf(root, Remove(chain, p), bs[b := nb], RemoveSpans(spans, p, b)) &&
            Owners(Remove(chain, p), order) == RemoveOwner(Owners(chain, order), p)
  {
    var spans' := RemoveSpans(spans, p, b);
    forall c | 0 <= c < |bs| && c != b ensures BucketOf(root, Remove(chain, p), bs[c], spans'[c]) {
      assert BucketOf(root, chain, bs[c], spans[c]);
      if !Empty(spans[c]) { BucketLayout.Apart(Owners(chain, order), spans, b, c); }
    }
    assert BucketOf(root, chain, bs[b], spans[b]);
    RunEnds(root, chain, p, spans[b]);
  }

  lemma BucketAt(root: Node, chain: seq<Node>, bs: seq<Bucket>, spans: seq<Span>, b: nat)
    requires BucketsOf(root, chain, bs, spans) && b < |bs|
    ensures b < |spans| && BucketOf(root, chain, bs[b], spans[b])
  {
  }

  lemma FrontOfRun(root: Node, chain: seq<Node>, b: Bucket, s: Span)
    requires BucketOf(root, chain, b, s) && !Empty(s)
    ensures s.lo < |chain| && Ring(root, chain)[s.lo + 1] == b.first
  {
  }

  /** A pair lies in the run of its bucket. */
  lemma InRun(chain: seq<Node>, order: nat, spans: seq<Span>, p: nat, b: nat)
    requires Tiles(Owners(chain, order), spans) && p < |chain| && b == Index(chain[p].hash, order) && b < |spans|
    ensures Owners(chain, order)[p] == b && spans[b].lo <= p < spans[b].hi
  {
    assert Owners(chain, order)[p] == b;
  }

  lemma RingRemove(root: Node, ns: seq<Node>, p: nat)
    requires p < |ns|
    ensures Ring(root, Remove(ns, p)) == Remove(Ring(root, ns), p + 1)
  {
  }

  lemma RingNoDup(root: Node, ns: seq<Node>)
    requires Closed(Ring(root, ns))
    ensures NoDup(ns) && root !in ns
  {
    var r := Ring(root, ns);
    assert forall i :: 0 <= i < |ns| ==> ns[i] == r[i + 1];
  }

  lemma RemoveMember(xs: seq<Node>, p: nat, ys: seq<Node>, q: nat)
    requires p < |xs| && q < |ys| && xs[p] == ys[q] && NoDup(xs) && NoDup(ys)
    requires forall n :: n in xs ==> n in ys
    ensures forall n :: n in Remove(xs, p) ==> n in Remove(ys, q)
  {
    forall n | n in Remove(xs, p) ensures n in Remove(ys, q) {
      var i := Place(Remove(xs, p), n);
      assert n in xs && n != xs[p];
      var j := Place(ys, n);
      assert Remove(ys, q)[if j < q then j else j - 1] == n;
    }
  }

  /** Removing the same pair from the two lists. */
  lemma RemovePaired(root: Node, chain: seq<Node>, p: nat, ordered: seq<Node>, q: nat, hashOf: Key -> nat)
    requires Closed(Ring(root, chain)) && PairedOf(root, chain, ordered, hashOf)
    requires p < |chain| && q < |ordered| && chain[p] == ordered[q]
    ensures PairedOf(root, Remove(chain, p), Remove(ordered, q), hashOf)
    ensures forall n :: n in Remove(chain, p) ==> n in chain
  {
    RingNoDup(root, chain);
    RingNoDup(root, ordered);
    RemoveMember(chain, p, ordered, q);
    RemoveMember(ordered, q, chain, p);
    RingRemove(root, ordered, q);
    ClosedRemove(Ring(root, ordered), q + 1);
    forall n | n in Remove(chain, p) ensures n in chain { var i := Place(Remove(chain, p), n); }
  }

  /** A key's pair can only be in the run of the key's bucket. */
  lemma OwnedBy(chain: seq<Node>, order: nat, spans: seq<Span>, b: nat, key: Key, hash: nat, hashOf: Key -> nat)
    requires Tiles(Owners(chain, order), spans) && b < |spans| && b == Index(hash, order) && hash == hashOf(key)
    requires forall n :: n in chain ==> n.hash == hashOf(n.key)
    ensures forall j :: 0 <= j < |chain| && chain[j].key == key ==> spans[b].lo <= j < spans[b].hi
  {
    forall j | 0 <= j < |chain| && chain[j].key == key ensures spans[b].lo <= j < spans[b].hi {
      assert chain[j] in chain && Owners(chain, order)[j] == b;
    }
  }

  /** bucket_is_empty tells exactly that the bucket's run is empty. */
  lemma EmptyBucket(root: Node, chain: seq<Node>, b: Bucket, s: Span)
    requires Closed(Ring(root, chain)) && BucketOf(root, chain, b, s)
    ensures Empty(s) <==> b.first == root && b.first == b.last
    ensures Empty(s) <==> b.first == root
  {
    if !Empty(s) { assert Ring(root, chain)[s.lo + 1] != Ring(root, chain)[0]; }
  }

  lemma RingInsert(root: Node, chain: seq<Node>, p: nat, node: Node)
    requires p <= |chain|
    ensures Ring(root, Insert(chain, p, node)) == Insert(Ring(root, chain), p + 1, node)
  {
  }
}
