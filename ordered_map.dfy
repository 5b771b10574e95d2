/**
 * A JavaScript `Map` keyed by strings: a lookup table together with the
 * order in which its keys were first inserted.  `set` on a present key keeps
 * that key's position; `delete` closes the gap; `size` is the number of keys.
 */
module OrderedMaps {
  import opened Seqs

  /** `CONFIG.MAX_CACHE_SIZE`: the most entries either cache of the script keeps. */
  const MaxCacheSize: nat := 20

  datatype OrderedMap<V> = OrderedMap(order: seq<string>, table: map<string, V>) {

    /** The insertion order lists each key of the table exactly once. */
    ghost predicate Valid() {
      Distinct(order) && (forall k :: k in table <==> k in order)
    }

    /** `Map.prototype.size`. */
    function Size(): nat {
      |order|
    }

    /** `Map.prototype.set`. */
    function Set(k: string, v: V): (m: OrderedMap<V>)
      ensures Valid() ==> m.Valid()
      ensures k in m.table && m.table[k] == v
      ensures forall j :: j != k ==> (j in m.table <==> j in table)
      ensures forall j :: j != k && j in table ==> m.table[j] == table[j]
      ensures k in table ==> m.order == order
      ensures k !in table ==> m.order == order + [k]
      ensures k !in table ==> m.Size() == Size() + 1 && m.order[..Size()] == order && m.order[Size()] == k
    {
      OrderedMap(if k in table then order else order + [k], table[k := v])
    }

    /** `Map.prototype.delete`. */
    function Delete(k: string): (m: OrderedMap<V>)
      ensures Valid() ==> m.Valid()
      ensures k !in m.table
      ensures forall j :: j != k ==> (j in m.table <==> j in table)
      ensures forall j :: j != k && j in table ==> m.table[j] == table[j]
      ensures m.order == Remove(order, k)
      ensures k !in order ==> m.order == order
      ensures Valid() && k in table ==>
        m.order == order[..IndexOf(order, k)] + order[IndexOf(order, k) + 1..]
      ensures Valid() ==> m.Size() == if k in table then Size() - 1 else Size()
    {
      var m := OrderedMap(Remove(order, k), table - {k});
      assert Valid() ==> m.Valid() && m.Size() == (if k in table then Size() - 1 else Size()) by {
        if Valid() { DeletePreserves(this, k); }
      }
      assert k !in order ==> m.order == order by {
        if k !in order { RemoveAbsent(order, k); }
      }
      assert Valid() && k in table ==> m.order == order[..IndexOf(order, k)] + order[IndexOf(order, k) + 1..] by {
        if Valid() && k in table { RemoveOnly(order, IndexOf(order, k)); }
      }
      m
    }
  }

  /** An empty `Map`, as `new Map()` and `Map.prototype.clear` leave it. */
  function Empty<V>(): (m: OrderedMap<V>)
    ensures m.Valid() && m.Size() == 0 && m.table == map[]
  {
    OrderedMap([], map[])
  }

  lemma DeletePreserves<V>(m: OrderedMap<V>, k: string)
    requires m.Valid()
    ensures Distinct(Remove(m.order, k))
    ensures |Remove(m.order, k)| == if k in m.table then |m.order| - 1 else |m.order|
  {
    RemoveDistinct(m.order, k);
    if k in m.table {
      RemoveOnly(m.order, IndexOf(m.order, k));
    } else {
      RemoveAbsent(m.order, k);
    }
  }

  /** The number of keys in the table is the size the order reports. */
  lemma SizeIsCardinality<V>(m: OrderedMap<V>)
    requires m.Valid()
    ensures |m.table| == m.Size()
  {
    DistinctCard(m.order);
    assert m.table.Keys == set x | x in m.order;
  }
}
