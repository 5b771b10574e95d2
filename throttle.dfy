/**
 * `throttle(fn, delay, key)`: at most one real call of `fn` per `delay`
 * milliseconds for each key, the last result served in between.  The table
 * keeps its keys in insertion order and, past `MaxCacheSize` entries, drops
 * the key inserted first.  The clock reading and the value a call of `fn`
 * would return are parameters; whether `fn` ran is an out-parameter.
 */
module Throttling {
  import opened Seqs
  import opened OrderedMaps

  datatype Throttled<R> = Throttled(lastCall: int, result: R)

  /** Records a fresh call and drops the earliest-inserted key past the cap. */
  function Record<R>(m: OrderedMap<Throttled<R>>, key: string, t: Throttled<R>): (r: OrderedMap<Throttled<R>>)
    requires m.Valid() && m.Size() <= MaxCacheSize
    ensures r.Valid() && r.Size() <= MaxCacheSize
    ensures key in r.table && r.table[key] == t
    ensures forall k :: k != key && k in r.table ==> k in m.table && r.table[k] == m.table[k]
    ensures forall k :: k != key && k in m.table && k !in r.table ==>
      key !in m.table && m.Size() == MaxCacheSize && k == m.order[0]
    ensures r.order ==
      if key in m.table then m.order
      else if m.Size() < MaxCacheSize then m.order + [key]
      else m.order[1..] + [key]
  {
    var m1 := m.Set(key, t);
    if m1.Size() > MaxCacheSize then
      DropFirstAfterSet(m, key, t);
      m1.Delete(m1.order[0])
    else m1
  }

  /** Storing a new key in a full table and dropping the first key shifts the order by one. */
  lemma DropFirstAfterSet<R>(m: OrderedMap<Throttled<R>>, key: string, t: Throttled<R>)
    requires m.Valid() && m.Size() == MaxCacheSize && key !in m.table
    ensures var m1 := m.Set(key, t);
      m1.order[0] == m.order[0] != key &&
      m1.Delete(m1.order[0]).order == m.order[1..] + [key]
  {
    var m1 := m.Set(key, t);
    var s := m.order + [key];
    assert m1.order == s && m1.Valid();
    assert s[0] == m.order[0] && s[1..] == m.order[1..] + [key];
    RemoveOnly(s, 0);
    assert m1.Delete(s[0]).order == Remove(s, s[0]);
  }

  class Throttle<R> {
    /** `state.throttledFunctions`. */
    var calls: OrderedMap<Throttled<R>>

    ghost predicate Valid()
      reads this
    {
      calls.Valid() && calls.Size() <= MaxCacheSize
    }

    constructor ()
      ensures Valid() && calls == Empty()
    {
      calls := Empty();
    }

    /** The last call under `key` happened less than `delay` ms before `now`. */
    predicate Recent(key: string, delay: int, now: int): (b: bool)
      reads this
      ensures b ==> key in calls.table
      ensures key in calls.table ==> (b <==> now < calls.table[key].lastCall + delay)
    {
      key in calls.table && now - calls.table[key].lastCall < delay
    }

    /** `throttle(fn, delay, key)` at time `now`, where `fn()` would return `outcome`. */
    method Run(key: string, delay: int, now: int, outcome: R) returns (r: R, called: bool)
      requires Valid()
      modifies this
      ensures Valid()
      ensures called == !old(Recent(key, delay, now))
      ensures !called ==> r == old(calls).table[key].result && calls == old(calls)
      ensures called ==> r == outcome && calls == Record(old(calls), key, Throttled(now, outcome))
    {
      if Recent(key, delay, now) {
        return calls.table[key].result, false;
      }
      calls := Record(calls, key, Throttled(now, outcome));
      return outcome, true;
    }
  }
}
