/** The generic least-recently-used cache of ImageLib.Core
    (`ImageLib.Cache.Memory.LRUCache<TKey, TValue>`).

    The cache is a dictionary from key to value plus a recency list, least
    recently used first. `Put` of a key already present does nothing: the first
    writer wins. `Remove` unlinks the key's node from the recency list but leaves
    the key in the dictionary; such a key is called "stale" here. A stale key
    still blocks `Put`, and looking it up makes `LinkedList.Remove` throw
    because its node no longer belongs to the list. */
module LruCache {
  import opened Base

  datatype Cache<K, V> = Cache(entries: map<K, V>, order: seq<K>, capacity: int)

  /** What the code keeps true on every path: the recency list has no
      duplicates and every listed key is in the dictionary. */
  ghost predicate Valid<K, V>(c: Cache<K, V>)
  {
    Distinct(c.order) && forall i :: 0 <= i < |c.order| ==> c.order[i] in c.entries
  }

  /** No stale keys: dictionary and recency list hold the same keys. This holds
      until the first `Remove`. */
  ghost predicate Coherent<K, V>(c: Cache<K, V>)
  {
    Valid(c) && c.entries.Keys == Elems(c.order)
  }

  /** `k` is at the most-recently-used end of the recency list. */
  predicate MostRecent<K(==)>(order: seq<K>, k: K)
  {
    |order| > 0 && order[|order| - 1] == k
  }

  /** A freshly constructed cache (`new LRUCache(capacity)`, default 20). */
  function Create<K, V>(capacity: int): (c: Cache<K, V>)
    ensures Coherent(c) && |c.entries| == 0 && c.capacity == capacity
  {
    Cache(map[], [], capacity)
  }

  /** `TryGetValue` (and `Get`, which runs the same code and returns the value
      or null): a hit returns the stored value and moves the key to the
      most-recently-used end; a miss returns nothing and changes nothing. */
  function TryGetValue<K, V>(c: Cache<K, V>, k: K): (r: (Cache<K, V>, Result<Option<V>>))
    requires Valid(c)
    ensures Valid(r.0) && r.0.entries == c.entries && r.0.capacity == c.capacity
    ensures k in c.order ==>
      && r.1 == Ok(Some(c.entries[k]))
      && |r.0.order| == |c.order| && MostRecent(r.0.order, k)
      && Without(r.0.order, k) == Without(c.order, k)
    ensures k !in c.entries ==> r == (c, Ok(None))
    ensures k in c.entries && k !in c.order ==> r == (c, Throws(InvalidOperationException))
  {
    if k !in c.entries then (c, Ok(None))
    else if k !in c.order then (c, Throws(InvalidOperationException))
    else
      var order' := Without(c.order, k) + [k];
      WithoutConcat(Without(c.order, k), [k], k);
      (c.(order := order'), Ok(Some(c.entries[k])))
  }

  /** Moving a listed key to the most-recently-used end keeps a coherent
      cache coherent. */
  lemma PromoteKeepsCoherent<K, V>(c: Cache<K, V>, k: K)
    requires Coherent(c) && k in c.order
    ensures Coherent(c.(order := Without(c.order, k) + [k]))
  {
    var rest := Without(c.order, k);
    assert Elems(rest + [k]) == Elems(c.order) by {
      forall x | x in Elems(c.order) ensures x in Elems(rest + [k]) {
        if x != k { assert x in rest; }
      }
    }
    assert Distinct(rest + [k]) by {
      forall i, j | 0 <= i < j < |rest + [k]| ensures (rest + [k])[i] != (rest + [k])[j] {
        if j < |rest| { assert (rest + [k])[i] == rest[i] && (rest + [k])[j] == rest[j]; }
        else { assert (rest + [k])[i] == rest[i]; }
      }
    }
  }

  /** The indexer `cache[key]`: the value on a hit, `KeyNotFoundException` on a miss. */
  function Index<K, V>(c: Cache<K, V>, k: K): (r: (Cache<K, V>, Result<V>))
    requires Valid(c)
    ensures k !in c.entries ==> r == (c, Throws(KeyNotFoundException))
    ensures r.1.Ok? <==> k in c.order
    ensures r.1.Ok? ==> r.1.value == c.entries[k] && r == (TryGetValue(c, k).0, Ok(c.entries[k]))
  {
    match TryGetValue(c, k)
    case (c', Ok(Some(v))) => (c', Ok(v))
    case (c', Ok(None)) => (c', Throws(KeyNotFoundException))
    case (c', Throws(e)) => (c', Throws(e))
  }

  /** `ContainsKey`: answers through `TryGetValue`, so a hit also promotes the key. */
  function ContainsKey<K, V>(c: Cache<K, V>, k: K): (r: (Cache<K, V>, Result<bool>))
    requires Valid(c)
    ensures r.1 == Ok(true) <==> k in c.order
    ensures r.1 == Ok(false) <==> k !in c.entries
    ensures k in c.order ==> MostRecent(r.0.order, k)
    ensures r.0.entries == c.entries
  {
    match TryGetValue(c, k)
    case (c', Ok(Some(_))) => (c', Ok(true))
    case (c', Ok(None)) => (c', Ok(false))
    case (c', Throws(e)) => (c', Throws(e))
  }

  /** `RemoveFirst` through the base `RemoveNode`: unlinks the list head and
      drops its key. On an empty list the head is null and
      `LinkedList.Remove(null)` throws `ArgumentNullException`. */
  function RemoveFirst<K, V>(c: Cache<K, V>): (r: Result<Cache<K, V>>)
    requires Valid(c)
    ensures r.Throws? <==> c.order == []
    ensures r.Throws? ==> r.error == ArgumentNullException
    ensures r.Ok? ==>
      && Valid(r.value)
      && r.value.order == c.order[1..]
      && r.value.entries.Keys == c.entries.Keys - {c.order[0]}
      && (forall k :: k in r.value.entries ==> r.value.entries[k] == c.entries[k])
      && r.value.capacity == c.capacity
      && (Coherent(c) ==> Coherent(r.value))
  {
    if c.order == [] then Throws(ArgumentNullException)
    else
      var head := c.order[0];
      var c' := Cache(c.entries - {head}, c.order[1..], c.capacity);
      assert Without(c.order, head) == c.order[1..] by { WithoutHead(c.order); }
      Ok(c')
  }

  /** The base `CheckSize`: when the dictionary (stale keys included) has
      reached the capacity, evict the least-recently-used entry. */
  function CheckSize<K, V>(c: Cache<K, V>): (r: Result<Cache<K, V>>)
    requires Valid(c)
  {
    if |c.entries| >= c.capacity then RemoveFirst(c) else Ok(c)
  }

  /** `Put`: a no-op when the key is present (stale or not); otherwise make
      room with `CheckSize` and append the key as the most recently used. */
  function Put<K, V>(c: Cache<K, V>, k: K, v: V): (r: Result<Cache<K, V>>)
    requires Valid(c)
    ensures k in c.entries ==> r == Ok(c)
    ensures k !in c.entries ==>
      (r.Throws? <==> |c.entries| >= c.capacity && c.order == [])
    ensures k !in c.entries && r.Ok? ==>
      && Valid(r.value) && r.value.capacity == c.capacity
      && k in r.value.entries && r.value.entries[k] == v
      && MostRecent(r.value.order, k)
      && (|c.entries| < c.capacity ==>
            r.value.order == c.order + [k] && r.value.entries == c.entries[k := v])
      && (|c.entries| >= c.capacity ==>
            r.value.order == c.order[1..] + [k]
            && r.value.entries == (c.entries - {c.order[0]})[k := v])
      && (Coherent(c) ==> Coherent(r.value))
  {
    if k in c.entries then Ok(c)
    else
      match CheckSize(c)
      case Throws(e) => Throws(e)
      case Ok(c') =>
        assert k !in c'.order;
        Ok(Cache(c'.entries[k := v], c'.order + [k], c'.capacity))
  }

  /** `Remove`: unlinks the key's node from the recency list but keeps the key
      in the dictionary. Removing a key already unlinked makes
      `LinkedList.Remove` throw. */
  function Remove<K, V>(c: Cache<K, V>, k: K): (r: Result<Cache<K, V>>)
    requires Valid(c)
    ensures k !in c.entries ==> r == Ok(c)
    ensures k in c.entries && k !in c.order ==> r == Throws(InvalidOperationException)
    ensures k in c.order ==>
      && r.Ok? && Valid(r.value)
      && r.value.entries == c.entries
      && k !in r.value.order
      && r.value.order == Without(c.order, k)
      && |r.value.order| == |c.order| - 1
  {
    if k !in c.entries then Ok(c)
    else if k !in c.order then Throws(InvalidOperationException)
    else Ok(c.(order := Without(c.order, k)))
  }

  /** `Clear`: empties both the dictionary and the recency list. */
  function Clear<K, V>(c: Cache<K, V>): (r: Cache<K, V>)
    ensures Coherent(r) && |r.entries| == 0 && r.order == [] && r.capacity == c.capacity
  {
    Cache(map[], [], c.capacity)
  }

  /** With capacity at least one, a `Put` never takes the entry count above
      the capacity. */
  lemma PutKeepsCount<K, V>(c: Cache<K, V>, k: K, v: V)
    requires Coherent(c) && c.capacity >= 1 && |c.entries| <= c.capacity
    ensures Put(c, k, v).Ok?
    ensures |Put(c, k, v).value.entries| <= c.capacity
  {
    if k !in c.entries && |c.entries| >= c.capacity {
      DistinctCard(c.order);
      assert |c.order| == |c.entries| by {
        assert |c.entries.Keys| == |c.entries|;
      }
    }
  }

  /** First writer wins: once `Put(k, v1)` has stored a new key, a later
      `Put(k, v2)` changes nothing and a lookup of `k` returns `v1`. */
  lemma FirstWriterWins<K, V>(c: Cache<K, V>, k: K, v1: V, v2: V)
    requires Coherent(c) && c.capacity >= 1 && |c.entries| <= c.capacity
    requires k !in c.entries
    ensures Put(c, k, v1).Ok?
    ensures Put(Put(c, k, v1).value, k, v2) == Put(c, k, v1)
    ensures TryGetValue(Put(c, k, v1).value, k).1 == Ok(Some(v1))
  {
    PutKeepsCount(c, k, v1);
    var c1 := Put(c, k, v1).value;
    assert MostRecent(c1.order, k);
    assert k in c1.order by { assert c1.order[|c1.order| - 1] == k; }
  }

  /** A removed key stays in the dictionary, so a later `Put` of it is still
      ignored and a lookup of it throws. */
  lemma RemovedKeyBlocksPut<K, V>(c: Cache<K, V>, k: K, v: V)
    requires Valid(c) && k in c.order
    ensures Remove(c, k).Ok?
    ensures Put(Remove(c, k).value, k, v) == Remove(c, k)
    ensures TryGetValue(Remove(c, k).value, k).1 == Throws(InvalidOperationException)
  {
  }

  /** The last `n` elements of `s` (all of `s` when it is shorter). */
  function LastN<T>(s: seq<T>, n: nat): (r: seq<T>)
    ensures |r| == if |s| <= n then |s| else n
  {
    if |s| <= n then s else s[|s| - n..]
  }

  /** Puts each key in turn, each with the value `valueOf` gives it. */
  function PutAll<K, V>(c: Cache<K, V>, ks: seq<K>, valueOf: K -> V): Result<Cache<K, V>>
    requires Valid(c)
    decreases |ks|
  {
    if ks == [] then Ok(c)
    else
      match Put(c, ks[0], valueOf(ks[0]))
      case Throws(e) => Throws(e)
      case Ok(c') => PutAll(c', ks[1..], valueOf)
  }

  lemma {:induction false} LastNAppend<T>(s: seq<T>, x: T, rest: seq<T>, n: nat)
    requires n >= 1
    ensures LastN(LastN(s + [x], n) + rest, n) == LastN(s + [x] + rest, n)
  {
    var a := s + [x];
    if |a| > n {
      var b := a[|a| - n..];
      assert (a + rest)[|a + rest| - n..] == (b + rest)[|b + rest| - n..] by {
        if |rest| >= n {
          assert (a + rest)[|a + rest| - n..] == rest[|rest| - n..];
          assert (b + rest)[|b + rest| - n..] == rest[|rest| - n..];
        } else {
          assert (a + rest)[|a + rest| - n..] == a[|a| - (n - |rest|)..] + rest;
          assert (b + rest)[|b + rest| - n..] == b[|b| - (n - |rest|)..] + rest;
          assert b[|b| - (n - |rest|)..] == a[|a| - (n - |rest|)..];
        }
      }
    }
  }

  /** One `Put` of a new key into a coherent cache within capacity. */
  lemma PutNewKey<K, V>(c: Cache<K, V>, k: K, v: V)
    requires Coherent(c) && c.capacity >= 1 && |c.order| <= c.capacity
    requires k !in c.order
    ensures Put(c, k, v).Ok?
    ensures Coherent(Put(c, k, v).value)
    ensures Put(c, k, v).value.order == LastN(c.order + [k], c.capacity)
  {
    assert k !in c.entries by { assert k !in Elems(c.order); }
    CoherentCount(c);
    if |c.order| < c.capacity {
      assert Put(c, k, v).value.order == c.order + [k];
    } else {
      assert Put(c, k, v).value.order == c.order[1..] + [k];
      assert (c.order + [k])[1..] == c.order[1..] + [k];
    }
  }

  /** Without stale keys, the dictionary has one entry per listed key. */
  lemma CoherentCount<K, V>(c: Cache<K, V>)
    requires Coherent(c)
    ensures |c.entries| == |c.order|
  {
    DistinctCard(c.order);
    assert |c.entries.Keys| == |c.entries|;
  }

  /** Bookkeeping for one step of `PutAllKeepsMostRecent`: after putting the
      first of the remaining keys, the new recency list followed by the other
      keys is a duplicate-free suffix of the old list followed by all keys. */
  lemma PutAllStep<K>(order: seq<K>, ks: seq<K>, order1: seq<K>, cap: nat)
    requires |ks| > 0 && cap >= 1 && Distinct(order + ks)
    requires order1 == LastN(order + [ks[0]], cap)
    ensures Distinct(order1 + ks[1..])
    ensures ks[0] !in order
    ensures LastN(order1 + ks[1..], cap) == LastN(order + ks, cap)
  {
    var all := order + ks;
    var pre := order + [ks[0]];
    assert all[|order|] == ks[0];
    forall i | 0 <= i < |order| ensures order[i] != ks[0] {
      assert all[i] == order[i];
    }
    assert pre + ks[1..] == all;
    var j := |pre| - |order1|;
    assert order1 == pre[j..];
    assert order1 + ks[1..] == all[j..];
    DistinctSuffix(all, j);
    LastNAppend(order, ks[0], ks[1..], cap);
  }

  /** From a coherent cache with capacity C >= 1, putting keys that are all
      new leaves exactly the C most recently put keys (fewer if fewer were
      ever put), in recency order, and nothing else. */
  lemma {:induction false} PutAllKeepsMostRecent<K, V>(c: Cache<K, V>, ks: seq<K>, valueOf: K -> V)
    requires Coherent(c) && c.capacity >= 1 && |c.order| <= c.capacity
    requires Distinct(c.order + ks)
    ensures PutAll(c, ks, valueOf).Ok?
    ensures Coherent(PutAll(c, ks, valueOf).value)
    ensures PutAll(c, ks, valueOf).value.order == LastN(c.order + ks, c.capacity)
    decreases |ks|
  {
    if ks == [] {
      assert c.order + ks == c.order;
    } else {
      var k := ks[0];
      PutAllStep(c.order, ks, LastN(c.order + [k], c.capacity), c.capacity);
      PutNewKey(c, k, valueOf(k));
      var c1 := Put(c, k, valueOf(k)).value;
      PutAllKeepsMostRecent(c1, ks[1..], valueOf);
    }
  }
}
