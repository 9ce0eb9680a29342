/** The older least-recently-used cache of ImageLib
    (`ImageLib.Cache.Memory.CacheImpl.LRUCache<TKey, TValue>`).

    It shares the shape of the newer cache (dictionary plus recency list) but
    `Put` does not look at the key first: it evicts the head whenever the
    dictionary is full, appends the new node, and only then calls
    `Dictionary.Add`, which throws on a duplicate key after the list has
    already been changed. There is no `Remove`, so the cache stays coherent as
    long as every `Put` is of a fresh key. */
module LegacyLruCache {
  import opened Base
  import opened LruCache

  /** `TryGetValue` (and `Get`, which runs the same code): a hit returns the
      value and makes the key most recent; a miss changes nothing. */
  function TryGetValue<K, V>(c: Cache<K, V>, k: K): (r: (Cache<K, V>, Option<V>))
    requires Coherent(c)
    ensures Coherent(r.0) && r.0.entries == c.entries && r.0.capacity == c.capacity
    ensures k in c.entries ==>
      && r.1 == Some(c.entries[k])
      && |r.0.order| == |c.order| && MostRecent(r.0.order, k)
      && Without(r.0.order, k) == Without(c.order, k)
    ensures k !in c.entries ==> r == (c, None)
  {
    if k in c.entries then
      assert k in Elems(c.order);
      var rest := Without(c.order, k);
      WithoutConcat(rest, [k], k);
      PromoteKeepsCoherent(c, k);
      (c.(order := rest + [k]), Some(c.entries[k]))
    else (c, None)
  }

  /** `RemoveFirst`: `LinkedList.RemoveFirst` throws on an empty list;
      otherwise the head leaves both the list and the dictionary. */
  function RemoveFirst<K, V>(c: Cache<K, V>): (r: Result<Cache<K, V>>)
    requires Coherent(c)
    ensures r.Throws? <==> c.order == []
    ensures r.Throws? ==> r.error == InvalidOperationException
    ensures r.Ok? ==>
      && Coherent(r.value)
      && r.value.order == c.order[1..]
      && r.value.entries == c.entries - {c.order[0]}
      && r.value.capacity == c.capacity
  {
    if c.order == [] then Throws(InvalidOperationException)
    else
      WithoutHead(c.order);
      Ok(Cache(c.entries - {c.order[0]}, c.order[1..], c.capacity))
  }

  /** `Put`: evict the head when the dictionary is full, append the key, then
      add it to the dictionary. The returned cache is the state the object is
      left in, also when the call throws. */
  function Put<K, V>(c: Cache<K, V>, k: K, v: V): (r: (Cache<K, V>, Outcome))
    requires Coherent(c)
    ensures r.1 == Raised(InvalidOperationException) <==> |c.entries| >= c.capacity && c.order == []
    ensures r.1 == Raised(InvalidOperationException) ==> r.0 == c
    ensures |c.entries| < c.capacity && k !in c.entries ==>
      && r.1 == Done && Coherent(r.0) && r.0.capacity == c.capacity
      && r.0.order == c.order + [k] && r.0.entries == c.entries[k := v]
    ensures |c.entries| >= c.capacity && c.order != [] && (k !in c.entries || k == c.order[0]) ==>
      && r.1 == Done && Coherent(r.0) && r.0.capacity == c.capacity
      && r.0.order == c.order[1..] + [k]
      && r.0.entries == (c.entries - {c.order[0]})[k := v]
  {
    var evicted :=
      if |c.entries| >= c.capacity then RemoveFirst(c) else Ok(c);
    match evicted
    case Throws(e) => (c, Raised(e))
    case Ok(c1) =>
      var order' := c1.order + [k];
      if k in c1.entries then (c1.(order := order'), Raised(ArgumentException))
      else
        assert k !in c1.order by { assert k !in Elems(c1.order); }
        (Cache(c1.entries[k := v], order', c1.capacity), Done)
  }

  /** On a coherent cache the older lookup agrees with the newer one. */
  lemma LookupAgreesWithCore<K, V>(c: Cache<K, V>, k: K)
    requires Coherent(c)
    ensures TryGetValue(c, k).0 == LruCache.TryGetValue(c, k).0
    ensures LruCache.TryGetValue(c, k).1 == Ok(TryGetValue(c, k).1)
  {
    if k in c.entries {
      assert k in Elems(c.order);
    }
  }

  /** With capacity at least one, putting a fresh key into a coherent cache
      within capacity succeeds and keeps it coherent and within capacity. */
  lemma FreshPutKeepsCount<K, V>(c: Cache<K, V>, k: K, v: V)
    requires Coherent(c) && c.capacity >= 1 && |c.entries| <= c.capacity
    requires k !in c.entries
    ensures Put(c, k, v).1 == Done
    ensures Coherent(Put(c, k, v).0)
    ensures |Put(c, k, v).0.entries| <= c.capacity
  {
    DistinctCard(c.order);
    assert |c.order| == |c.entries| by { assert |c.entries.Keys| == |c.entries|; }
  }

  /** A duplicate `Put` of a key that is not about to be evicted throws
      `ArgumentException`, but only after the key has been appended to the
      list a second time: the list then holds the key twice. */
  lemma DuplicatePutCorruptsList<K, V>(c: Cache<K, V>, k: K, v: V)
    requires Coherent(c) && k in c.entries
    requires |c.entries| < c.capacity || (c.order != [] && c.order[0] != k)
    ensures Put(c, k, v).1 == Raised(ArgumentException)
    ensures !Distinct(Put(c, k, v).0.order)
  {
    assert k in Elems(c.order);
    var o := Put(c, k, v).0.order;
    if |c.entries| >= c.capacity {
      assert c.order != [];
      var i :| 0 <= i < |c.order| && c.order[i] == k;
      assert i > 0;
      assert o == c.order[1..] + [k];
      assert o[i - 1] == k && o[|o| - 1] == k;
    } else {
      var i :| 0 <= i < |c.order| && c.order[i] == k;
      assert o[i] == k && o[|o| - 1] == k;
    }
  }

  /** A duplicate `Put` of the key at the head of a full cache succeeds: the
      head is evicted first, so the key comes back with the new value. This
      is unlike the newer cache, where the first writer wins. */
  lemma FullHeadPutReplaces<K, V>(c: Cache<K, V>, v: V)
    requires Coherent(c) && c.order != [] && |c.entries| >= c.capacity
    ensures Put(c, c.order[0], v).1 == Done
    ensures Put(c, c.order[0], v).0.entries[c.order[0]] == v
  {
  }
}
