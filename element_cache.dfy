/**
 * `getCachedElement` and `clearElementCache`: a selector-keyed cache of
 * query results, refreshed on every hit and capped at `MaxCacheSize` by
 * evicting the least recently accessed entry.  `document.querySelector`
 * and `document.contains` are the parameters `query` and `inDocument`.
 */
module ElementCaching {
  import opened Wrappers
  import opened OrderedMaps
  import opened PageTree

  datatype Cached = Cached(element: Node, lastAccess: int)

  /**
   * The entry `[...entries].sort(by lastAccess)[0]` picks: the smallest
   * `lastAccess`, and among equal ones the earliest inserted (the sort is
   * stable).
   */
  function OldestIndex(order: seq<string>, table: map<string, Cached>): (i: nat)
    requires |order| > 0 && forall j :: 0 <= j < |order| ==> order[j] in table
    ensures i < |order|
    ensures forall j :: 0 <= j < |order| ==> table[order[i]].lastAccess <= table[order[j]].lastAccess
    ensures forall j :: 0 <= j < i ==> table[order[j]].lastAccess > table[order[i]].lastAccess
    decreases |order|
  {
    if |order| == 1 then 0
    else
      var last := |order| - 1;
      var j := OldestIndex(order[..last], table);
      if table[order[last]].lastAccess < table[order[j]].lastAccess then last else j
  }

  /** No entry was accessed after `now`. */
  ghost predicate AccessedBy(m: OrderedMap<Cached>, now: int) {
    forall k :: k in m.table ==> m.table[k].lastAccess <= now
  }

  /** Drops the least recently accessed entry when the cache has grown past its cap. */
  function Evict(m: OrderedMap<Cached>): (r: OrderedMap<Cached>)
    requires m.Valid()
    ensures r.Valid()
    ensures m.Size() <= MaxCacheSize ==> r == m
    ensures m.Size() > MaxCacheSize ==> r.Size() == m.Size() - 1
    ensures forall k :: k in r.table ==> k in m.table && r.table[k] == m.table[k]
    ensures forall k :: k in m.table && k !in r.table ==>
      forall j :: j in m.table ==> m.table[k].lastAccess <= m.table[j].lastAccess
  {
    if m.Size() > MaxCacheSize then
      var i := OldestIndex(m.order, m.table);
      assert forall j :: j in m.table ==> exists n :: 0 <= n < |m.order| && m.order[n] == j;
      m.Delete(m.order[i])
    else m
  }

  /**
   * The miss path once an element was found: store it, then evict the least
   * recently accessed entry if the cache has grown past its cap.
   */
  function Store(m: OrderedMap<Cached>, key: string, e: Cached): (r: OrderedMap<Cached>)
    requires m.Valid() && m.Size() <= MaxCacheSize
    ensures r.Valid() && r.Size() <= MaxCacheSize
    ensures key in r.table ==> r.table[key] == e
    ensures key in m.table || m.Size() < MaxCacheSize ==> r == m.Set(key, e)
    ensures forall k :: k != key && k in r.table ==> k in m.table && r.table[k] == m.table[k]
    ensures forall k :: k in m.table && k !in r.table ==>
      k != key && m.table[k].lastAccess <= e.lastAccess &&
      forall j :: j in m.table ==> m.table[k].lastAccess <= m.table[j].lastAccess
  {
    EvictedAfterSet(m, key, e);
    Evict(m.Set(key, e))
  }

  /** An entry of `m` evicted after storing `e` under `key` is an oldest one of `m`, and not `key`. */
  lemma EvictedAfterSet(m: OrderedMap<Cached>, key: string, e: Cached)
    requires m.Valid() && m.Size() <= MaxCacheSize
    ensures forall k :: k in m.table && k !in Evict(m.Set(key, e)).table ==>
      k != key && m.table[k].lastAccess <= e.lastAccess &&
      forall j :: j in m.table ==> m.table[k].lastAccess <= m.table[j].lastAccess
  {
    var m1 := m.Set(key, e);
    forall k | k in m.table && k !in Evict(m1).table
      ensures k != key && m.table[k].lastAccess <= e.lastAccess
      ensures forall j :: j in m.table ==> m.table[k].lastAccess <= m.table[j].lastAccess
    {
      assert m1.Size() > MaxCacheSize;
      assert key !in m.table;
      assert m1.table[k] == m.table[k] && m1.table[key] == e;
      forall j | j in m.table ensures m.table[k].lastAccess <= m.table[j].lastAccess {
        assert m1.table[j] == m.table[j];
      }
    }
  }

  /**
   * With a clock that never runs backwards the entry just stored is never
   * the one evicted: every other entry was accessed no later, and the
   * stable sort puts the earlier-inserted of equal entries first.
   */
  lemma StoreKeepsNewest(m: OrderedMap<Cached>, key: string, e: Cached)
    requires m.Valid() && m.Size() <= MaxCacheSize && AccessedBy(m, e.lastAccess)
    ensures key in Store(m, key, e).table && Store(m, key, e).table[key] == e
  {
    var m1 := m.Set(key, e);
    if m1.Size() > MaxCacheSize {
      assert key !in m.table;
      var last := |m1.order| - 1;
      assert m1.order[last] == key;
      var i := OldestIndex(m1.order, m1.table);
      assert m1.order[i] != key;
    }
  }

  class ElementCache {
    /** `state.cachedElements`. */
    var entries: OrderedMap<Cached>

    ghost predicate Valid()
      reads this
    {
      entries.Valid() && entries.Size() <= MaxCacheSize
    }

    constructor ()
      ensures Valid() && entries == Empty()
    {
      entries := Empty();
    }

    /** A cached element is served while the document still contains it. */
    predicate Hit(selector: string, inDocument: set<Node>): (b: bool)
      reads this
      ensures b ==> selector in entries.table
      ensures selector in entries.table ==> (b <==> entries.table[selector].element in inDocument)
    {
      selector in entries.table && entries.table[selector].element in inDocument
    }

    /** `getCachedElement(selector, useCache)` at time `now`. */
    method Get(selector: string, useCache: bool, query: Option<Node>, inDocument: set<Node>, now: int)
      returns (r: Option<Node>)
      requires Valid()
      modifies this
      ensures Valid()
      ensures !useCache ==> r == query && entries == old(entries)
      ensures useCache && old(Hit(selector, inDocument)) ==>
        r == Some(old(entries).table[selector].element) &&
        entries == old(entries).Set(selector, Cached(r.value, now))
      ensures useCache && !old(Hit(selector, inDocument)) ==>
        r == query &&
        entries == if query.Some? then Store(old(entries), selector, Cached(query.value, now)) else old(entries)
      ensures useCache && r.Some? && old(AccessedBy(entries, now)) ==>
        selector in entries.table && entries.table[selector] == Cached(r.value, now)
    {
      if !useCache {
        return query;
      }
      if Hit(selector, inDocument) {
        var element := entries.table[selector].element;
        entries := entries.Set(selector, Cached(element, now));
        return Some(element);
      }
      if query.Some? {
        if AccessedBy(entries, now) {
          StoreKeepsNewest(entries, selector, Cached(query.value, now));
        }
        entries := Store(entries, selector, Cached(query.value, now));
      }
      r := query;
    }

    /**
     * `clearElementCache(selector)`: one entry for a non-empty selector; the
     * whole cache when no selector, or the empty string, is given (the
     * script tests the selector's truthiness).
     */
    method Clear(selector: Option<string>)
      requires Valid()
      modifies this
      ensures Valid()
      ensures selector.Some? && selector.value != "" ==> entries == old(entries).Delete(selector.value)
      ensures selector.None? || selector.value == "" ==> entries == Empty()
    {
      if selector.Some? && selector.value != "" {
        entries := entries.Delete(selector.value);
      } else {
        entries := Empty();
      }
    }
  }
}
