/**
 `cache.py`: the state `create_cacher` closes over, and the three things that
 can be done with it. The dictionary is a map plus its keys in insertion order,
 since `stats()` lists the keys in that order.
 */
module Cacher {

  datatype Cache<K(==), V> = Cache(order: seq<K>, entries: map<K, V>)

  /** `order` lists every stored key exactly once. */
  ghost predicate Valid<K(!new), V>(c: Cache<K, V>) {
    && (forall i, j :: 0 <= i < j < |c.order| ==> c.order[i] != c.order[j])
    && (forall k :: k in c.entries <==> k in c.order)
  }

  /** The outcome of one `cache_result` call: the value returned, the cache
      afterwards, and whether `value_func` was invoked. */
  datatype Lookup<K(==), V> = Lookup(value: V, cache: Cache<K, V>, computed: bool)

  /** What `get_cache_stats` reports. */
  datatype CacheStats<K> = CacheStats(size: nat, keys: seq<K>)

  /** `create_cacher`: nothing stored yet. */
  function Empty<K(==, !new), V>(): (c: Cache<K, V>)
    ensures Valid(c) && c.entries == map[]
  {
    Cache([], map[])
  }

  /** `cache_result`: on a hit the stored value, without calling `valueFunc`;
      on a miss `valueFunc()` is called, stored under `key` and returned. */
  function CacheResult<K(==, !new), V>(c: Cache<K, V>, key: K, valueFunc: () -> V): (r: Lookup<K, V>)
    requires Valid(c)
    ensures Valid(r.cache)
    ensures key in c.entries ==> r.value == c.entries[key] && r.cache == c && !r.computed
    ensures key !in c.entries ==>
      && r.computed
      && r.value == valueFunc()
      && r.cache.entries == c.entries[key := r.value]
      && |r.cache.entries| == |c.entries| + 1
      && r.cache.order == c.order + [key]
    ensures key in r.cache.entries && r.cache.entries[key] == r.value
  {
    if key in c.entries then Lookup(c.entries[key], c, false)
    else
      var result := valueFunc();
      var c' := Cache(c.order + [key], c.entries[key := result]);
      assert forall k :: k in c'.order <==> k in c.order || k == key;
      Lookup(result, c', true)
  }

  /** `cache_result.clear`: the cache is emptied. */
  function Clear<K(==, !new), V>(c: Cache<K, V>): (r: Cache<K, V>)
    ensures Valid(r) && GetStats(r) == CacheStats(0, [])
  {
    Empty()
  }

  /** `cache_result.stats`: the number of entries and the keys in insertion order. */
  function GetStats<K(==, !new), V>(c: Cache<K, V>): (s: CacheStats<K>)
    requires Valid(c)
    ensures s.size == |c.entries| == |s.keys|
    ensures forall k :: k in s.keys <==> k in c.entries
    ensures s.keys == c.order
  {
    DistinctLength(c.order, c.entries.Keys);
    CacheStats(|c.entries|, c.order)
  }

  /** `stats()` lists keys in insertion order: a miss appends its key after
      all the keys listed before, and a hit leaves the listing as it was. */
  lemma StatsInInsertionOrder<K(!new), V>(c: Cache<K, V>, key: K, valueFunc: () -> V)
    requires Valid(c)
    ensures var r := CacheResult(c, key, valueFunc);
      GetStats(r.cache).keys == if key in c.entries then GetStats(c).keys else GetStats(c).keys + [key]
  {
  }

  /** A list without repeats that has exactly the elements of `s` is as long as `s` is large. */
  lemma {:induction false} DistinctLength<K(!new)>(xs: seq<K>, s: set<K>)
    requires forall i, j :: 0 <= i < j < |xs| ==> xs[i] != xs[j]
    requires forall k :: k in s <==> k in xs
    ensures |xs| == |s|
    decreases |xs|
  {
    if xs != [] {
      var last := xs[|xs| - 1];
      var init := xs[..|xs| - 1];
      assert last !in init;
      forall k ensures k in s - {last} <==> k in init {
        if k in init {
          var i :| 0 <= i < |init| && init[i] == k;
          assert xs[i] == k;
        }
        if k in xs && k != last {
          var i :| 0 <= i < |xs| && xs[i] == k;
          assert i < |xs| - 1;
          assert init[i] == k;
        }
      }
      DistinctLength(init, s - {last});
    }
  }

  /** Once a key is stored, a later call with any other `valueFunc` returns the
      first value and changes nothing: the first write wins. */
  lemma FirstWriteWins<K(!new), V>(c: Cache<K, V>, key: K, first: () -> V, later: () -> V)
    requires Valid(c)
    ensures var r1 := CacheResult(c, key, first);
      var r2 := CacheResult(r1.cache, key, later);
      r2.value == r1.value && r2.cache == r1.cache && !r2.computed
  {
  }

  /** A miss leaves every other entry as it was, and a hit on another key
      returns its old value. */
  lemma MissKeepsOthers<K(!new), V>(c: Cache<K, V>, key: K, other: K, valueFunc: () -> V)
    requires Valid(c) && other != key && other in c.entries
    ensures var r := CacheResult(c, key, valueFunc);
      other in r.cache.entries && r.cache.entries[other] == c.entries[other]
  {
  }

  /** After `clear`, every key misses again and its value is recomputed. */
  lemma ClearForcesRecompute<K(!new), V>(c: Cache<K, V>, key: K, valueFunc: () -> V)
    requires Valid(c)
    ensures var r := CacheResult(Clear(c), key, valueFunc);
      r.computed && r.value == valueFunc() && GetStats(r.cache).size == 1
  {
  }
}
