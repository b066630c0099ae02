/**
  The specification of a JSON object's table: an association list in first-insertion order.
*/
module OrderedMap {
  import opened Options

  datatype Entry<K, V> = Entry(key: K, value: V)
  type Entries<K, V> = seq<Entry<K, V>>

  ghost predicate DistinctKeys<K, V>(es: Entries<K, V>) {
    forall i, j :: 0 <= i < j < |es| ==> es[i].key != es[j].key
  }

  ghost predicate Has<K, V>(es: Entries<K, V>, k: K) {
    exists i :: 0 <= i < |es| && es[i].key == k
  }

  function Find<K(==), V>(es: Entries<K, V>, k: K): (i: nat)
    ensures i <= |es|
    ensures i < |es| ==> es[i].key == k
    ensures forall j :: 0 <= j < i ==> es[j].key != k
  {
    if es == [] || es[0].key == k then 0 else 1 + Find(es[1..], k)
  }

  function Get<K(==), V>(es: Entries<K, V>, k: K): Option<V> {
    var i := Find(es, k);
    if i < |es| then Some(es[i].value) else None
  }

  /** Overwrite in place, or append. */
  function Set<K(==), V>(es: Entries<K, V>, k: K, v: V): Entries<K, V> {
    var i := Find(es, k);
    if i < |es| then es[i := Entry(k, v)] else es + [Entry(k, v)]
  }

  function Del<K(==), V>(es: Entries<K, V>, k: K): Entries<K, V> {
    var i := Find(es, k);
    if i < |es| then es[..i] + es[i + 1..] else es
  }

  function Keys<K, V>(es: Entries<K, V>): (ks: seq<K>)
    ensures |ks| == |es|
  {
    seq(|es|, i requires 0 <= i < |es| => es[i].key)
  }

  function Values<K, V>(es: Entries<K, V>): (vs: seq<V>)
    ensures |vs| == |es|
  {
    seq(|es|, i requires 0 <= i < |es| => es[i].value)
  }

  lemma FindUnique<K, V>(es: Entries<K, V>, k: K, i: nat)
    requires DistinctKeys(es) && i < |es| && es[i].key == k
    ensures Find(es, k) == i
  {
  }

  lemma FindAbsent<K, V>(es: Entries<K, V>, k: K)
    requires !Has(es, k)
    ensures Find(es, k) == |es|
  {
  }

  /** What the operations do with a key that is absent, and with one that is at position i. */
  lemma Missing<K, V>(es: Entries<K, V>, k: K)
    requires forall i :: 0 <= i < |es| ==> es[i].key != k
    ensures !Has(es, k) && Find(es, k) == |es| && Get(es, k) == None && Del(es, k) == es
  {
  }

  lemma Present<K, V>(es: Entries<K, V>, k: K, i: nat)
    requires DistinctKeys(es) && i < |es| && es[i].key == k
    ensures Has(es, k) && Find(es, k) == i && Get(es, k) == Some(es[i].value) && Del(es, k) == es[..i] + es[i + 1..]
  {
    FindUnique(es, k, i);
  }

  lemma SetMissing<K, V>(es: Entries<K, V>, k: K, v: V)
    requires !Has(es, k)
    ensures Set(es, k, v) == es + [Entry(k, v)]
  {
    FindAbsent(es, k);
  }

  lemma SetPresent<K, V>(es: Entries<K, V>, k: K, v: V, i: nat)
    requires DistinctKeys(es) && i < |es| && es[i].key == k
    ensures Set(es, k, v) == es[i := Entry(k, v)]
  {
    FindUnique(es, k, i);
  }

  /** Set and Del are update and removal of the map that Get reads. */
  lemma GetAfterSet<K, V>(es: Entries<K, V>, k: K, v: V, k': K)
    requires DistinctKeys(es)
    ensures DistinctKeys(Set(es, k, v))
    ensures Get(Set(es, k, v), k') == if k' == k then Some(v) else Get(es, k')
  {
    var fs := Set(es, k, v);
    var j := Find(es, k');
    if k' == k {
      FindUnique(fs, k, Find(es, k));
    } else if j < |es| {
      FindUnique(fs, k', j);
    } else {
      FindAbsent(fs, k') by { assert forall i :: 0 <= i < |es| ==> es[i].key != k'; }
    }
  }

  lemma GetAfterDel<K, V>(es: Entries<K, V>, k: K, k': K)
    requires DistinctKeys(es)
    ensures DistinctKeys(Del(es, k))
    ensures Get(Del(es, k), k') == if k' == k then None else Get(es, k')
  {
    var fs := Del(es, k);
    var i := Find(es, k);
    var j := Find(es, k');
    if k' == k || j == |es| {
      FindAbsent(fs, k') by { assert forall n :: 0 <= n < |es| && n != i ==> es[n].key != k'; }
    } else {
      FindUnique(fs, k', if j < i then j else j - 1);
    }
  }

  lemma KeysOverwritten<K, V>(es: Entries<K, V>, i: nat, v: V)
    requires i < |es|
    ensures Keys(es[i := Entry(es[i].key, v)]) == Keys(es)
  {
  }

  lemma KeysClosed<K, V>(es: Entries<K, V>, i: nat)
    requires i < |es|
    ensures Keys(es[..i] + es[i + 1..]) == Keys(es)[..i] + Keys(es)[i + 1..]
  {
  }

  lemma KeysExtended<K, V>(es: Entries<K, V>, e: Entry<K, V>)
    ensures Keys(es + [e]) == Keys(es) + [e.key]
  {
  }

  /** Overwriting keeps every key at its place; a new key goes last. */
  lemma KeyOrderAfterSet<K, V>(es: Entries<K, V>, k: K, v: V)
    ensures Keys(Set(es, k, v)) == if Has(es, k) then Keys(es) else Keys(es) + [k]
  {
    var i := Find(es, k);
    if i < |es| {
      KeysOverwritten(es, i, v);
    } else {
      KeysExtended(es, Entry(k, v));
    }
  }

  /** Deleting closes the gap. */
  lemma KeyOrderAfterDel<K, V>(es: Entries<K, V>, k: K)
    ensures Find(es, k) < |es| <==> Has(es, k)
    ensures var i := Find(es, k); i < |es| ==> Keys(Del(es, k)) == Keys(es)[..i] + Keys(es)[i + 1..]
  {
    var i := Find(es, k);
    if i < |es| { KeysClosed(es, i); }
  }
}
