/**
  The element table of a JSON array: growth, insertion and removal in place, and who holds the references.

  `Elements` is the table, its entry count and its element sequence; the cells behind the last entry are
  of no account. A reference is a value of any type: `Balanced` says that what was handed in is what the
  table holds together with what it has given up, counted with multiplicity, so that no path of an
  operation, a failed one included, loses a reference or gives one up twice.
*/
module JsonArray {
  import Bits
  import opened Options

  /** Each reference handed in is in the table or given up. */
  ghost predicate Balanced<V>(items: seq<V>, dropped: multiset<V>, given: multiset<V>) {
    multiset(items) + dropped == given
  }

  /** Replacing items[a..b] by xs takes in the references xs and gives up those of items[a..b]. */
  lemma StaysBalanced<V>(items: seq<V>, a: nat, b: nat, xs: seq<V>, dropped: multiset<V>, given: multiset<V>)
    requires a <= b <= |items| && Balanced(items, dropped, given)
    ensures Balanced(items[..a] + xs + items[b..], dropped + multiset(items[a..b]), given + multiset(xs))
  {
    assert items == items[..a] + items[a..b] + items[b..];
  }

  lemma Replaced<V>(items: seq<V>, i: nat, v: V, dropped: multiset<V>, given: multiset<V>)
    requires i < |items| && Balanced(items, dropped, given)
    ensures Balanced(items[i := v], dropped + multiset{items[i]}, given + multiset{v})
  {
    StaysBalanced(items, i, i + 1, [v], dropped, given);
    assert items[..i] + [v] + items[i + 1..] == items[i := v] && items[i..i + 1] == [items[i]];
  }

  lemma Joined<V>(items: seq<V>, i: nat, xs: seq<V>, dropped: multiset<V>, given: multiset<V>)
    requires i <= |items| && Balanced(items, dropped, given)
    ensures Balanced(items[..i] + xs + items[i..], dropped, given + multiset(xs))
    ensures Balanced(items + xs, dropped, given + multiset(xs))
  {
    StaysBalanced(items, i, i, xs, dropped, given);
  }

  lemma JoinedOne<V>(items: seq<V>, i: nat, v: V, dropped: multiset<V>, given: multiset<V>)
    requires i <= |items| && Balanced(items, dropped, given)
    ensures Balanced(items[..i] + [v] + items[i..], dropped, given + multiset{v})
    ensures Balanced(items + [v], dropped, given + multiset{v})
  {
    Joined(items, i, [v], dropped, given);
  }

  lemma Removed<V>(items: seq<V>, i: nat, dropped: multiset<V>, given: multiset<V>)
    requires i < |items| && Balanced(items, dropped, given)
    ensures Balanced(items[..i] + items[i + 1..], dropped + multiset{items[i]}, given)
  {
    StaysBalanced(items, i, i + 1, [], dropped, given);
    assert items[..i] + [] == items[..i] && items[i..i + 1] == [items[i]];
  }

  /** The first cells of a table hold the items. */
  ghost predicate Holds<V>(table: seq<Option<V>>, items: seq<V>) {
    |items| <= |table| && forall i :: 0 <= i < |items| ==> table[i] == Some(items[i])
  }

  lemma HoldsJoined<V>(table: seq<Option<V>>, items: seq<V>, index: nat, value: V)
    requires index <= |items| < |table| && Holds(table, items[..index]) && Holds(table[index + 1..], items[index..])
    ensures Holds(table[index := Some(value)], items[..index] + [value] + items[index..])
  {
  }

  class Elements<V(==)> {
    const me: V                      // the array as a value
    var table: array<Option<V>>
    var entries: nat
    ghost var items: seq<V>
    ghost var given: multiset<V>     // references handed to the array so far
    ghost var dropped: multiset<V>   // references it has given up

    ghost predicate Valid()
      reads this, table
    {
      1 <= table.Length && |items| == entries && Holds(table[..], items) &&
      Balanced(items, dropped, given)
    }

    constructor (me: V)
      ensures Valid() && fresh(table) && this.me == me && items == [] && given == multiset{}
    {
      this.me := me;
      table := new Option<V>[8](i => None);
      entries, items := 0, [];
      given, dropped := multiset{}, multiset{};
    }

    /** A reference to `value` is handed in and given up at once. */
    method Refuse(value: V)
      requires Valid()
      modifies `given, `dropped
      ensures Valid() && given == old(given) + multiset{value} && dropped == old(dropped) + multiset{value}
    {
      given, dropped := given + multiset{value}, dropped + multiset{value};
    }

    /** json_array_grow: the table elements are in afterwards, if memory could be had. */
    method Grow(amount: nat, copy: bool, allocates: bool) returns (before: Option<array<Option<V>>>)
      requires Valid()
      modifies this`table
      ensures before.None? <==> entries + amount > old(table.Length) && !allocates
      ensures before.None? || entries + amount <= old(table.Length) ==> table == old(table)
      ensures entries + amount > old(table.Length) && allocates ==>
        fresh(table) && table.Length == Bits.Max(old(table.Length) + amount, old(table.Length) * 2) &&
        entries + amount <= table.Length
      ensures before.Some? ==> before.value == (if copy then table else old(table)) && (copy ==> Valid())
    {
      if entries + amount <= table.Length {
        return Some(table);
      }
      var oldTable := table;
      var newSize := Bits.Max(table.Length + amount, table.Length * 2);
      if !allocates {
        return Option.None;
      }
      table := new Option<V>[newSize](i => None);
      if copy {
        forall i | 0 <= i < entries { table[i] := oldTable[i]; }
        return Some(table);
      }
      return Some(oldTable);
    }

    /** json_array_set_new */
    method Set(index: nat, value: V) returns (rc: int)
      requires Valid()
      modifies `items, `given, `dropped, table
      ensures Valid() && rc == (if value != me && index < entries then 0 else -1)
      ensures items == if rc == 0 then old(items)[index := value] else old(items)
      ensures given == old(given) + multiset{value}
      ensures dropped == old(dropped) + multiset{if rc == 0 then old(items)[index] else value}
    {
      hide Balanced;
      if me == value || index >= entries {
        Refuse(value);
        return -1;
      }
      Replaced(items, index, value, dropped, given);
      given, dropped := given + multiset{value}, dropped + multiset{items[index]};
      items := items[index := value];
      table[index] := Some(value);
      return 0;
    }

    /** json_array_append_new */
    method Append(value: V, allocates: bool) returns (rc: int)
      requires Valid()
      modifies this, table
      ensures Valid() && (table == old(table) || fresh(table)) && rc in {0, -1}
      ensures rc == 0 <==> value != me && (old(entries) < old(table.Length) || allocates)
      ensures items == if rc == 0 then old(items) + [value] else old(items)
      ensures given == old(given) + multiset{value}
      ensures dropped == if rc == 0 then old(dropped) else old(dropped) + multiset{value}
    {
      hide Balanced;
      if me == value {
        Refuse(value);
        return -1;
      }
      var grown := Grow(1, true, allocates);
      if grown.None? {
        Refuse(value);
        return -1;
      }
      PutLast(value);
      return 0;
    }

    method PutLast(value: V)
      requires Valid() && entries < table.Length
      modifies `items, `entries, `given, table
      ensures Valid() && items == old(items) + [value] && given == old(given) + multiset{value}
    {
      hide Balanced;
      JoinedOne(items, entries, value, dropped, given);
      table[entries] := Some(value);
      entries := entries + 1;
      items, given := items + [value], given + multiset{value};
    }

    /** Elements from `index` on move one place up: within the table, or across from the old one. */
    method MakeRoom(oldTable: array<Option<V>>, index: nat)
      requires |items| == entries < table.Length && index <= entries && Holds(oldTable[..], items)
      modifies table
      ensures Holds(table[..], items[..index]) && Holds(table[index + 1..], items[index..])
    {
      if oldTable != table {
        forall i | 0 <= i < index { table[i] := oldTable[i]; }
        forall i | index <= i < entries { table[i + 1] := oldTable[i]; }
      } else {
        forall i | index <= i < entries { table[i + 1] := table[i]; }
      }
    }

    /** The value goes into the table at `index`; the elements are still in `oldTable`. */
    method PutIn(oldTable: array<Option<V>>, index: nat, value: V)
      requires |items| == entries < table.Length && index <= entries && Holds(oldTable[..], items)
      requires Balanced(items, dropped, given)
      modifies `items, `entries, `given, table
      ensures Valid() && items == old(items[..index] + [value] + items[index..]) &&
        given == old(given) + multiset{value}
    {
      hide Balanced, Holds;
      JoinedOne(items, index, value, dropped, given);
      MakeRoom(oldTable, index);
      HoldsJoined(table[..], items, index, value);
      table[index] := Some(value);
      entries := entries + 1;
      items, given := items[..index] + [value] + items[index..], given + multiset{value};
    }

    /** json_array_insert_new */
    method Insert(index: nat, value: V, allocates: bool) returns (rc: int)
      requires Valid()
      modifies this, table
      ensures Valid() && (table == old(table) || fresh(table)) && rc in {0, -1}
      ensures rc == 0 <==> value != me && index <= old(entries) && (old(entries) < old(table.Length) || allocates)
      ensures items == if rc == 0 then old(items)[..index] + [value] + old(items)[index..] else old(items)
      ensures given == old(given) + multiset{value}
      ensures dropped == if rc == 0 then old(dropped) else old(dropped) + multiset{value}
    {
      hide Balanced, Holds;
      if me == value || index > entries {
        Refuse(value);
        return -1;
      }
      var grown := Grow(1, false, allocates);
      if grown.None? {
        Refuse(value);
        return -1;
      }
      PutIn(grown.value, index, value);
      return 0;
    }

    /** json_array_remove */
    method Remove(index: nat) returns (rc: int)
      requires Valid()
      modifies this, table
      ensures Valid() && table == old(table) && given == old(given)
      ensures rc == if index < old(entries) then 0 else -1
      ensures items == if rc == 0 then old(items)[..index] + old(items)[index + 1..] else old(items)
      ensures dropped == if rc == 0 then old(dropped) + multiset{old(items)[index]} else old(dropped)
    {
      hide Balanced, Holds;
      if index >= entries {
        return -1;
      }
      Removed(items, index, dropped, given);
      CloseUp(index);
      entries := entries - 1;
      dropped := dropped + multiset{items[index]};
      items := items[..index] + items[index + 1..];
      return 0;
    }

    /** Elements behind `index` move one place down; none has to for the last one. */
    method CloseUp(index: nat)
      requires |items| == entries && index < entries && Holds(table[..], items)
      modifies table
      ensures Holds(table[..], items[..index] + items[index + 1..])
    {
      if index < entries - 1 {
        forall i | index <= i < entries - 1 { table[i] := table[i + 1]; }
      }
    }

    /** json_array_clear */
    method Clear()
      requires Valid()
      modifies this
      ensures Valid() && table == old(table) && items == [] && given == old(given)
      ensures dropped == old(dropped) + multiset(old(items))
    {
      var i := 0;
      ghost var all := dropped;
      while i < entries
        invariant entries == |items| && i <= entries && dropped == all + multiset(items[..i])
        invariant table == old(table) && items == old(items) && given == old(given)
      {
        assert items[..i + 1] == items[..i] + [items[i]];
        dropped := dropped + multiset{items[i]};
        i := i + 1;
      }
      assert items[..entries] == items;
      entries, items := 0, [];
    }

    /** The first n cells of `from`, which may be this table, are copied behind the elements. */
    method CopyBehind(from: array<Option<V>>, n: nat, ghost xs: seq<V>)
      requires |items| == entries && Holds(table[..], items) && n == |xs| && Holds(from[..], xs) &&
        entries + n <= table.Length
      requires from == table ==> n <= entries
      modifies table
      ensures Holds(table[..], items + xs)
    {
      forall i | 0 <= i < n { table[entries + i] := from[i]; }
    }

    /** The elements of `other`, which may be this array, are copied behind those of this one. */
    method AppendAll(other: Elements<V>)
      requires Valid() && other.Valid() && (other != this ==> other.table != table) &&
        entries + other.entries <= table.Length
      modifies `entries, `items, `given, table
      ensures Valid() && items == old(items) + old(other.items) && given == old(given) + multiset(old(other.items))
    {
      hide Balanced, Holds;
      ghost var xs := other.items;
      Joined(items, entries, xs, dropped, given);
      given := given + multiset(xs);
      CopyBehind(other.table, other.entries, xs);
      entries, items := entries + other.entries, items + xs;
    }

    /** json_array_extend; the other array may be this one. */
    method Extend(other: Elements<V>, allocates: bool) returns (rc: int)
      requires Valid() && other.Valid() && (other != this ==> other.table != table)
      modifies `entries, `items, `given, `table, table
      ensures Valid() && (table == old(table) || fresh(table)) && rc in {0, -1}
      ensures rc == 0 <==> old(entries) + old(other.entries) <= old(table.Length) || allocates
      ensures items == if rc == 0 then old(items) + old(other.items) else old(items)
      ensures given == if rc == 0 then old(given) + multiset(old(other.items)) else old(given)
    {
      hide Balanced, Holds;
      var grown := Grow(other.entries, true, allocates);
      if grown.None? {
        return -1;
      }
      AppendAll(other);
      return 0;
    }
  }
}
