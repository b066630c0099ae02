/** json_equal, which compares objects without regard to order, and json_deep_copy. */
module JsonEqual {
  import opened OrderedMap
  import opened Utf8
  import opened JsonText

  /** json_equal: for objects, equal sizes and every member of the first found in the second. */
  predicate Equal(v: Value, w: Value)
    decreases v
  {
    match (v, w)
    case (Object(members), Object(others)) => |members| == |others| && MembersEqual(v, w, 0)
    case (Array(items), Array(others)) => |items| == |others| && ItemsEqual(v, w, 0)
    case (String(text), String(other)) => text == other
    case (Integer(n), Integer(other)) => n == other
    case (Null, Null) => true
    case (True, True) => true
    case (False, False) => true
    case _ => false
  }

  predicate ItemsEqual(v: Value, w: Value, i: nat)
    requires v.Array? && w.Array? && |v.items| == |w.items| && i <= |v.items|
    decreases v, |v.items| - i
  {
    i == |v.items| || (Equal(v.items[i], w.items[i]) && ItemsEqual(v, w, i + 1))
  }

  predicate MembersEqual(v: Value, w: Value, i: nat)
    requires v.Object? && w.Object? && i <= |v.members|
    decreases v, |v.members| - i
  {
    i == |v.members| ||
    match OrderedMap.Get(w.members, v.members[i].key)
    case None => false
    case Some(other) => Equal(v.members[i].value, other) && MembersEqual(v, w, i + 1)
  }

  /** No object holds two members with one key: what the object table ensures. */
  ghost predicate KeysDiffer(v: Value) {
    match v
    case Array(items) => forall i :: 0 <= i < |items| ==> KeysDiffer(items[i])
    case Object(members) => DistinctKeys(members) && forall i :: 0 <= i < |members| ==> KeysDiffer(members[i].value)
    case _ => true
  }

  // ---- what a value means, order apart ----

  datatype Meaning =
    | Leaf(v: Value)
    | List(items: seq<Meaning>)
    | Table(members: map<Bytes, Meaning>)

  ghost function MeaningOf(v: Value): Meaning
    decreases v
  {
    match v
    case Array(_) => List(MeaningOfItems(v, 0))
    case Object(_) => Table(MeaningOfMembers(v, 0))
    case _ => Leaf(v)
  }

  ghost function MeaningOfItems(v: Value, i: nat): (ms: seq<Meaning>)
    requires v.Array? && i <= |v.items|
    ensures |ms| == |v.items| - i
    decreases v, |v.items| - i
  {
    if i == |v.items| then [] else [MeaningOf(v.items[i])] + MeaningOfItems(v, i + 1)
  }

  ghost function MeaningOfMembers(v: Value, i: nat): map<Bytes, Meaning>
    requires v.Object? && i <= |v.members|
    decreases v, |v.members| - i
  {
    if i == |v.members| then map[]
    else MeaningOfMembers(v, i + 1)[v.members[i].key := MeaningOf(v.members[i].value)]
  }

  /**
    The table of an object with distinct keys: it maps each key to its member's meaning, and has a key for each
    member.
  */
  lemma {:induction false} TableOf(v: Value, i: nat)
    requires v.Object? && i <= |v.members| && DistinctKeys(v.members)
    ensures var t := MeaningOfMembers(v, i);
            |t| == |v.members| - i &&
            (forall j :: i <= j < |v.members| ==>
              v.members[j].key in t && t[v.members[j].key] == MeaningOf(v.members[j].value)) &&
            (forall k :: k in t ==> exists j :: i <= j < |v.members| && v.members[j].key == k)
    decreases |v.members| - i
  {
    if i < |v.members| {
      TableOf(v, i + 1);
      var t := MeaningOfMembers(v, i + 1);
      assert v.members[i].key !in t;
      assert t[v.members[i].key := MeaningOf(v.members[i].value)].Keys == t.Keys + {v.members[i].key};
    }
  }

  lemma Found(members: Entries<Bytes, Value>, k: Bytes)
    requires DistinctKeys(members)
    ensures match OrderedMap.Get(members, k)
            case None => !Has(members, k)
            case Some(x) => exists j :: 0 <= j < |members| && members[j] == Entry(k, x)
  {
    var i := Find(members, k);
    if i < |members| { assert members[i] == Entry(k, members[i].value); }
  }

  lemma {:induction false} ItemsMean(v: Value, w: Value, i: nat)
    requires KeysDiffer(v) && KeysDiffer(w) && v.Array? && w.Array? && |v.items| == |w.items| && i <= |v.items|
    ensures ItemsEqual(v, w, i) <==> MeaningOfItems(v, i) == MeaningOfItems(w, i)
    decreases v, |v.items| - i
  {
    if i < |v.items| {
      EqualIffSameMeaning(v.items[i], w.items[i]);
      ItemsMean(v, w, i + 1);
      var a, b := MeaningOfItems(v, i), MeaningOfItems(w, i);
      assert a[1..] == MeaningOfItems(v, i + 1) && b[1..] == MeaningOfItems(w, i + 1);
    }
  }

  /** Each member from the i-th on is in the other object's table. */
  lemma {:induction false} MembersMean(v: Value, w: Value, i: nat)
    requires KeysDiffer(v) && KeysDiffer(w) && v.Object? && w.Object? && i <= |v.members|
    ensures MembersEqual(v, w, i) <==>
      var t := MeaningOfMembers(w, 0);
      forall j :: i <= j < |v.members| ==> v.members[j].key in t && t[v.members[j].key] == MeaningOf(v.members[j].value)
    decreases v, |v.members| - i
  {
    if i < |v.members| {
      var key := v.members[i].key;
      TableOf(w, 0);
      Found(w.members, key);
      if OrderedMap.Get(w.members, key).Some? {
        EqualIffSameMeaning(v.members[i].value, OrderedMap.Get(w.members, key).value);
      }
      MembersMean(v, w, i + 1);
    }
  }

  /** Equal sizes and inclusion one way make two maps the same. */
  lemma IncludedOfSameSize<K, V>(s: map<K, V>, t: map<K, V>)
    requires |s| == |t| && forall k :: k in s ==> k in t && t[k] == s[k]
    ensures s == t
  {
    var a, b := s.Keys, t.Keys;
    assert a <= b && |a| == |s| && |b| == |t|;
    assert b == a + (b - a) && a !! b - a;
    assert |b - a| == 0;
  }

  lemma SameTable(v: Value, w: Value)
    requires KeysDiffer(v) && KeysDiffer(w) && v.Object? && w.Object?
    ensures |v.members| == |w.members| && MembersEqual(v, w, 0) <==> MeaningOf(v) == MeaningOf(w)
    decreases v, |v.members| + 1
  {
    hide KeysDiffer, Equal, MembersEqual, MeaningOfMembers;
    var s, t := MeaningOfMembers(v, 0), MeaningOfMembers(w, 0);
    DistinctHere(v);
    DistinctHere(w);
    TableOf(v, 0);
    TableOf(w, 0);
    MembersMean(v, w, 0);
    if |v.members| == |w.members| && MembersEqual(v, w, 0) {
      IncludedOfSameSize(s, t);
    }
  }

  lemma DistinctHere(v: Value)
    requires KeysDiffer(v) && v.Object?
    ensures DistinctKeys(v.members)
  {
  }

  /** json_equal says exactly that two values mean the same; so it is reflexive, symmetric and transitive. */
  lemma {:induction false} EqualIffSameMeaning(v: Value, w: Value)
    requires KeysDiffer(v) && KeysDiffer(w)
    ensures Equal(v, w) <==> MeaningOf(v) == MeaningOf(w)
    decreases v
  {
    match (v, w)
    case (Object(_), Object(_)) => SameTable(v, w);
    case (Array(items), Array(others)) =>
      if |items| == |others| { ItemsMean(v, w, 0); }
    case _ =>
  }

  /** Symmetry and transitivity, which the code's one-way loop does not show. */
  lemma EqualIsEquivalence(u: Value, v: Value, w: Value)
    requires KeysDiffer(u) && KeysDiffer(v) && KeysDiffer(w)
    ensures Equal(u, u) && (Equal(u, v) <==> Equal(v, u)) && (Equal(u, v) && Equal(v, w) ==> Equal(u, w))
  {
    EqualIffSameMeaning(u, u);
    EqualIffSameMeaning(u, v);
    EqualIffSameMeaning(v, u);
    EqualIffSameMeaning(v, w);
    EqualIffSameMeaning(u, w);
  }

  // ---- json_deep_copy ----

  /** json_deep_copy when no allocation fails: objects are rebuilt by setting one member after the other. */
  method DeepCopy(v: Value) returns (r: Value)
    requires KeysDiffer(v)
    ensures r == v && Equal(v, r)
    decreases v
  {
    match v {
      case Object(members) =>
        var result: Entries<Bytes, Value> := [];
        for i := 0 to |members|
          invariant result == members[..i]
        {
          var value := DeepCopy(members[i].value);
          Missing(result, members[i].key);
          SetMissing(result, members[i].key, value);
          result := OrderedMap.Set(result, members[i].key, value);
        }
        r := Object(result);
      case Array(items) =>
        var result := [];
        for i := 0 to |items|
          invariant result == items[..i]
        {
          var item := DeepCopy(items[i]);
          result := result + [item];
        }
        r := Array(result);
      case _ => r := v;
    }
    EqualIffSameMeaning(v, v);
  }
}
