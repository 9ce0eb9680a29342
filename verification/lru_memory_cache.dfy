/** The byte-budgeted memory cache (`LRUMemoryCache`), a subclass of the
    newer least-recently-used cache keyed by URI string and holding streams.

    Its capacity is a number of bytes. `CheckSize` first adds the incoming
    value's size to a running total, then evicts least-recently-used entries
    while the total exceeds the budget and the list is not empty; `RemoveNode`
    subtracts each evicted value's size. The base `Put` returns before
    `CheckSize` when the key is already present. */
module LruMemoryCache {
  import opened Base
  import opened LruCache

  /** The default budget: one gibibyte. */
  const DEFAULT_CAPACITY: int := 1024 * 1024 * 1024

  datatype MemCache = MemCache(cache: Cache<string, Bytes>, size: int)

  /** Total size of the values of the listed keys. */
  function SizeOf(entries: map<string, Bytes>, order: seq<string>): int
    requires forall i :: 0 <= i < |order| ==> order[i] in entries
  {
    if order == [] then 0 else |entries[order[0]]| + SizeOf(entries, order[1..])
  }

  /** The running total is the size of the listed entries and the cache has
      no stale keys. This holds from construction through `Put` and lookups. */
  ghost predicate Accounted(m: MemCache)
  {
    Coherent(m.cache) && m.size == SizeOf(m.cache.entries, m.cache.order)
  }

  /** `new LRUMemoryCache(capacity)`: empty, with a running total of 0. */
  function Create(capacity: int): (m: MemCache)
    ensures Accounted(m) && m.cache.capacity == capacity && m.cache.order == []
  {
    MemCache(LruCache.Create(capacity), 0)
  }

  /** `new LRUMemoryCache()`: the capacity left at its default of one
      gibibyte. */
  function CreateDefault(): (m: MemCache)
    ensures Accounted(m) && m.cache.capacity == 1073741824 && m.cache.order == [] && m.size == 0
  {
    Create(DEFAULT_CAPACITY)
  }

  /** Only the values of listed keys matter to `SizeOf`. */
  lemma {:induction false} SizeOfAgree(e1: map<string, Bytes>, e2: map<string, Bytes>, order: seq<string>)
    requires forall i :: 0 <= i < |order| ==> order[i] in e1 && order[i] in e2 && e1[order[i]] == e2[order[i]]
    ensures SizeOf(e1, order) == SizeOf(e2, order)
  {
    if order != [] {
      SizeOfAgree(e1, e2, order[1..]);
    }
  }

  /** `SizeOf` of a concatenation is the sum of the parts. */
  lemma {:induction false} SizeOfConcat(e: map<string, Bytes>, a: seq<string>, b: seq<string>)
    requires forall i :: 0 <= i < |a| ==> a[i] in e
    requires forall i :: 0 <= i < |b| ==> b[i] in e
    ensures SizeOf(e, a + b) == SizeOf(e, a) + SizeOf(e, b)
  {
    if a == [] {
      assert a + b == b;
    } else {
      assert (a + b)[1..] == a[1..] + b;
      SizeOfConcat(e, a[1..], b);
    }
  }

  /** Taking a listed key out of a duplicate-free list lowers `SizeOf` by
      exactly that key's value size. */
  lemma {:induction false} SizeOfWithout(e: map<string, Bytes>, order: seq<string>, k: string)
    requires forall i :: 0 <= i < |order| ==> order[i] in e
    requires Distinct(order) && k in order
    ensures SizeOf(e, order) == SizeOf(e, Without(order, k)) + |e[k]|
  {
    if order[0] == k {
      WithoutHead(order);
    } else {
      var t := order[1..];
      assert k in t;
      DistinctSuffix(order, 1);
      SizeOfWithout(e, t, k);
      assert Without(order, k) == [order[0]] + Without(t, k);
      assert ([order[0]] + Without(t, k))[1..] == Without(t, k);
    }
  }

  /** One eviction of `Put`'s loop keeps the loop's bookkeeping: the list is
      one entry shorter from the front, and the running total drops by the
      evicted value's size. */
  lemma EvictOneKeeps(m: MemCache, k: string, v: Bytes, c: Cache<string, Bytes>, evicted: nat, size: int,
                      c': Cache<string, Bytes>, size': int)
    requires Valid(m.cache) && evicted < |m.cache.order|
    requires c.order == m.cache.order[evicted..] && |c.order| > 0
    requires Valid(c) && Valid(c') && c'.order == c.order[1..]
    requires size == m.size + |v| - SizeOf(m.cache.entries, m.cache.order[..evicted])
    requires size > m.cache.capacity && size' == size - |c.entries[c.order[0]]|
    requires forall x :: x in c'.entries ==> x in c.entries && c'.entries[x] == c.entries[x]
    requires c.entries == m.cache.entries - Elems(m.cache.order[..evicted])
    requires c'.entries.Keys == c.entries.Keys - {c.order[0]}
    requires forall j :: 0 <= j < evicted ==>
      m.size + |v| - SizeOf(m.cache.entries, m.cache.order[..j]) > m.cache.capacity
    ensures c'.order == m.cache.order[evicted + 1..]
    ensures c'.entries == m.cache.entries - Elems(m.cache.order[..evicted + 1])
    ensures forall x :: x in c'.entries ==> x in m.cache.entries && c'.entries[x] == m.cache.entries[x]
    ensures size' == m.size + |v| - SizeOf(m.cache.entries, m.cache.order[..evicted + 1])
    ensures forall j :: 0 <= j < evicted + 1 ==>
      m.size + |v| - SizeOf(m.cache.entries, m.cache.order[..j]) > m.cache.capacity
  {
    var head := c.order[0];
    assert head == m.cache.order[evicted];
    SizeOfConcat(m.cache.entries, m.cache.order[..evicted], [head]);
    assert m.cache.order[..evicted + 1] == m.cache.order[..evicted] + [head];
    assert SizeOf(m.cache.entries, [head]) == |m.cache.entries[head]|;
    assert Elems(m.cache.order[..evicted + 1]) == Elems(m.cache.order[..evicted]) + {head};
  }

  /** Admitting a value the budget cannot hold: add its size, evict from the
      least-recently-used end while over budget, then append it. The second
      result is how many entries were evicted. */
  method Put(m: MemCache, k: string, v: Bytes) returns (r: MemCache, evicted: nat)
    requires Valid(m.cache)
    ensures k in m.cache.entries ==> r == m && evicted == 0
    ensures k !in m.cache.entries ==>
      && evicted <= |m.cache.order|
      && r.cache.order == m.cache.order[evicted..] + [k]
      && r.cache.capacity == m.cache.capacity
      && Valid(r.cache) && k in r.cache.entries && r.cache.entries[k] == v
      && r.cache.entries == (m.cache.entries - Elems(m.cache.order[..evicted]))[k := v]
      && (r.size <= m.cache.capacity || r.cache.order == [k])
      && (forall j :: 0 <= j < evicted ==>
            m.size + |v| - SizeOf(m.cache.entries, m.cache.order[..j]) > m.cache.capacity)
      && r.size == m.size + |v| - SizeOf(m.cache.entries, m.cache.order[..evicted])
    ensures Accounted(m) ==> Accounted(r)
  {
    if k in m.cache.entries {
      return m, 0;
    }
    var c := m.cache;
    var size := m.size + |v|;
    evicted := 0;
    while size > c.capacity && |c.order| > 0
      invariant evicted <= |m.cache.order|
      invariant Valid(c) && c.capacity == m.cache.capacity
      invariant c.order == m.cache.order[evicted..]
      invariant k !in c.entries
      invariant c.entries == m.cache.entries - Elems(m.cache.order[..evicted])
      invariant Coherent(m.cache) ==> Coherent(c)
      invariant size == m.size + |v| - SizeOf(m.cache.entries, m.cache.order[..evicted])
      invariant forall j :: 0 <= j < evicted ==>
        m.size + |v| - SizeOf(m.cache.entries, m.cache.order[..j]) > m.cache.capacity
      decreases |c.order|
    {
      var next := RemoveFirst(c);
      var size' := size - |c.entries[c.order[0]]|;
      EvictOneKeeps(m, k, v, c, evicted, size, next.value, size');
      c, evicted, size := next.value, evicted + 1, size';
    }
    assert k !in c.order;
    r := MemCache(Cache(c.entries[k := v], c.order + [k], c.capacity), size);
    if Accounted(m) {
      AppendKeepsAccounting(m, c, evicted, size, k, v);
    }
  }

  /** The state `Put` ends in is accounted when the one it started from was. */
  lemma AppendKeepsAccounting(m: MemCache, c: Cache<string, Bytes>, evicted: nat, size: int, k: string, v: Bytes)
    requires Accounted(m) && evicted <= |m.cache.order|
    requires Coherent(c) && c.order == m.cache.order[evicted..] && k !in c.entries
    requires forall x :: x in c.entries ==> x in m.cache.entries && c.entries[x] == m.cache.entries[x]
    requires size == m.size + |v| - SizeOf(m.cache.entries, m.cache.order[..evicted])
    ensures Accounted(MemCache(Cache(c.entries[k := v], c.order + [k], c.capacity), size))
  {
    AppendKeepsCoherent(c, k, v);
    var e' := c.entries[k := v];
    PrefixSize(m.cache.entries, m.cache.order, evicted);
    SizeOfAgree(m.cache.entries, e', c.order);
    AppendSize(e', c.order, k);
  }

  /** Appending a new key with its value keeps dictionary and list in step. */
  lemma AppendKeepsCoherent(c: Cache<string, Bytes>, k: string, v: Bytes)
    requires Coherent(c) && k !in c.entries
    ensures Coherent(Cache(c.entries[k := v], c.order + [k], c.capacity))
  {
    assert k !in c.order by { assert k !in Elems(c.order); }
    assert Elems(c.order + [k]) == Elems(c.order) + {k};
  }

  lemma PrefixSize(e: map<string, Bytes>, o: seq<string>, n: nat)
    requires n <= |o| && forall i :: 0 <= i < |o| ==> o[i] in e
    ensures SizeOf(e, o) == SizeOf(e, o[..n]) + SizeOf(e, o[n..])
  {
    assert o == o[..n] + o[n..];
    SizeOfConcat(e, o[..n], o[n..]);
  }

  lemma AppendSize(e: map<string, Bytes>, o: seq<string>, k: string)
    requires k in e && forall i :: 0 <= i < |o| ==> o[i] in e
    ensures SizeOf(e, o + [k]) == SizeOf(e, o) + |e[k]|
  {
    SizeOfConcat(e, o, [k]);
    assert SizeOf(e, [k]) == |e[k]| by { assert [k][1..] == []; }
  }

  /** A lookup only reorders the list, so the running total stays correct. */
  lemma LookupKeepsAccounting(m: MemCache, k: string)
    requires Accounted(m)
    ensures Accounted(MemCache(LruCache.TryGetValue(m.cache, k).0, m.size))
  {
    var c := m.cache;
    if k in c.order {
      var rest := Without(c.order, k);
      SizeOfWithout(c.entries, c.order, k);
      AppendSize(c.entries, rest, k);
      PromoteKeepsCoherent(c, k);
    } else {
      assert k !in Elems(c.order);
    }
  }

  /** The base `Remove` unlinks the node without going through `RemoveNode`,
      so the running total keeps counting the removed value. */
  lemma RemoveLeavesTotalStale(m: MemCache, k: string)
    requires Accounted(m) && k in m.cache.order && |m.cache.entries[k]| > 0
    ensures LruCache.Remove(m.cache, k).Ok?
    ensures m.size == SizeOf(m.cache.entries, LruCache.Remove(m.cache, k).value.order) + |m.cache.entries[k]|
    ensures m.size > SizeOf(m.cache.entries, LruCache.Remove(m.cache, k).value.order)
  {
    SizeOfWithout(m.cache.entries, m.cache.order, k);
  }

  /** The base `Clear` empties the cache but leaves the running total as it
      was, so a non-empty cache leaves a positive total over nothing. */
  lemma ClearLeavesTotalStale(m: MemCache)
    requires Accounted(m) && |m.cache.order| > 0 && |m.cache.entries[m.cache.order[0]]| > 0
    ensures LruCache.Clear(m.cache).order == []
    ensures m.size > 0
  {
    assert m.size >= |m.cache.entries[m.cache.order[0]]| by {
      assert SizeOf(m.cache.entries, m.cache.order[1..]) >= 0 by {
        SizeOfNonNegative(m.cache.entries, m.cache.order[1..]);
      }
    }
  }

  lemma {:induction false} SizeOfNonNegative(e: map<string, Bytes>, order: seq<string>)
    requires forall i :: 0 <= i < |order| ==> order[i] in e
    ensures SizeOf(e, order) >= 0
  {
    if order != [] {
      SizeOfNonNegative(e, order[1..]);
    }
  }
}
