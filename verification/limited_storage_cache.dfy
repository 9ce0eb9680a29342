/** `LimitedStorageCache`: a storage cache with a byte limit, evicting the
    file with the oldest recorded timestamp before each save.

    The timestamp dictionary is a sequence of (key, milliseconds) pairs in
    enumeration order with distinct keys. Two defects are kept in the
    as-written variant and repaired in the corrected one:
    - removal deletes the file at `Combine(dir, key)` but then removes the
      dictionary entry under that combined path instead of under `key`;
    - saves go through the base `InternalSaveAsync`, which always reports
      failure, so a save never records a timestamp or grows the counter.
    The corrected variant stores and removes bare file names and uses the
    documented save result. */
module LimitedStorageCache {
  import opened Base
  import opened Paths
  import opened StorageCacheBase

  type Times = seq<(string, int)>

  datatype Limited = Limited(sc: StorageCache, times: Times, counter: int, limit: int)

  /** The keys of the timestamp dictionary, in enumeration order. */
  function KeysOf(times: Times): (r: seq<string>)
    ensures |r| == |times| && forall i :: 0 <= i < |times| ==> r[i] == times[i].0
  {
    if times == [] then [] else [times[0].0] + KeysOf(times[1..])
  }

  /** A dictionary never holds a key twice. */
  predicate WellFormed(times: Times)
  {
    Distinct(KeysOf(times))
  }

  /** The initial counter value. */
  const INITIAL_COUNTER: int := -1

  /** `Enumerable.Aggregate((p1, p2) => p1.Value < p2.Value ? p1 : p2)`: the
      index of the entry the fold ends with. Folding left to right, a later
      entry replaces the current one unless the current one is strictly
      older, so the result is the last entry with the smallest timestamp. */
  function OldestIndex(times: Times): (i: nat)
    requires |times| > 0
    ensures i < |times|
    ensures forall j :: 0 <= j < |times| ==> times[i].1 <= times[j].1
    ensures forall j :: i < j < |times| ==> times[i].1 < times[j].1
  {
    if |times| == 1 then 0
    else
      var i := OldestIndex(times[..|times| - 1]);
      if times[i].1 < times[|times| - 1].1 then i else |times| - 1
  }

  /** Position of the first occurrence of `k`. */
  function IndexOf(ks: seq<string>, k: string): (i: nat)
    requires k in ks
    ensures i < |ks| && ks[i] == k
  {
    if ks[0] == k then 0 else 1 + IndexOf(ks[1..], k)
  }

  /** `dict[key] = value`: overwrite in place, or append a new entry. */
  function SetTime(times: Times, key: string, t: int): (r: Times)
    ensures WellFormed(times) ==> WellFormed(r)
    ensures key in KeysOf(r)
    ensures key !in KeysOf(times) ==> r == times + [(key, t)]
    ensures key in KeysOf(times) ==> KeysOf(r) == KeysOf(times)
    ensures WellFormed(times) ==> forall i :: 0 <= i < |r| && r[i].0 == key ==> r[i].1 == t
  {
    var ks := KeysOf(times);
    if key in ks then
      var i := IndexOf(ks, key);
      var r := times[i := (key, t)];
      assert KeysOf(r) == ks;
      r
    else
      var r := times + [(key, t)];
      assert KeysOf(r) == ks + [key];
      assert WellFormed(times) ==> Distinct(ks + [key]) by {
        if WellFormed(times) {
          forall i, j | 0 <= i < j < |ks + [key]| ensures (ks + [key])[i] != (ks + [key])[j] {
            if j == |ks| { assert (ks + [key])[i] == ks[i]; }
            else { assert (ks + [key])[i] == ks[i] && (ks + [key])[j] == ks[j]; }
          }
        }
      }
      r
  }

  /** The recursion behind `RemoveKey`, with no contract of its own. */
  function DropKey(times: Times, key: string): Times
  {
    if |times| == 0 then []
    else if times[0].0 == key then DropKey(times[1..], key)
    else [times[0]] + DropKey(times[1..], key)
  }

  /** What `DropKey` keeps, and the keys it leaves. */
  lemma {:induction false} DropKeyFacts(times: Times, key: string)
    ensures var r := DropKey(times, key);
      && (forall i :: 0 <= i < |r| ==> r[i] in times)
      && (forall i :: 0 <= i < |times| && times[i].0 != key ==> times[i] in r)
      && KeysOf(r) == Filter(KeysOf(times), key)
  {
    if |times| > 0 {
      DropKeyFacts(times[1..], key);
      var rest := DropKey(times[1..], key);
      assert KeysOf(times)[1..] == KeysOf(times[1..]);
      if times[0].0 == key {
        forall i | 0 <= i < |times| && times[i].0 != key ensures times[i] in rest {
          assert times[i] == times[1..][i - 1];
        }
      } else {
        var r := [times[0]] + rest;
        assert r[1..] == rest;
        forall i | 0 <= i < |times| && times[i].0 != key ensures times[i] in r {
          if i > 0 { assert times[i] == times[1..][i - 1]; }
        }
      }
    }
  }

  /** Setting a time adds at most its own key. */
  lemma SetTimeKeys(times: Times, key: string, t: int)
    ensures forall k :: k in KeysOf(SetTime(times, key, t)) ==> k in KeysOf(times) || k == key
  {
    var r := SetTime(times, key, t);
    forall k | k in KeysOf(r) ensures k in KeysOf(times) || k == key {
      var i :| 0 <= i < |r| && KeysOf(r)[i] == k;
      if key !in KeysOf(times) && i < |times| {
        assert r[i] == times[i] && KeysOf(times)[i] == k;
      }
    }
  }

  /** `dict.Remove(key)`: drop the entry with that key, if any. */
  function RemoveKey(times: Times, key: string): (r: Times)
    ensures forall i :: 0 <= i < |r| ==> r[i] in times
    ensures forall i :: 0 <= i < |times| && times[i].0 != key ==> times[i] in r
    ensures KeysOf(r) == Without(KeysOf(times), key)
  {
    DropKeyFacts(times, key);
    DropKey(times, key)
  }

  /** Removing a key keeps the dictionary well formed and takes out exactly
      that key's entry. */
  lemma RemoveKeyFacts(times: Times, key: string)
    requires WellFormed(times)
    ensures WellFormed(RemoveKey(times, key))
    ensures key !in KeysOf(RemoveKey(times, key))
    ensures key in KeysOf(times) ==> |RemoveKey(times, key)| == |times| - 1
    ensures key !in KeysOf(times) ==> |RemoveKey(times, key)| == |times|
  {
  }

  /** The entry the next removal targets. */
  function OldestKey(times: Times): string
    requires |times| > 0
  {
    times[OldestIndex(times)].0
  }

  /** `RemoveOldestCacheFile`: pick the oldest entry, delete the file at
      `Combine(dir, key)` and subtract its size. An empty dictionary, an
      empty key, a file that cannot be found or cannot be deleted all give
      failure and change nothing. The result names the deleted path. */
  function RemoveOldest(ls: Limited, fs: Fs, variant: Variant): (r: (Limited, Fs, Option<string>))
    ensures r.2.None? ==> r.0 == ls && r.1 == fs
    ensures r.2.None? <==>
      || |ls.times| == 0 || OldestKey(ls.times) == ""
      || Combine(ls.sc.dir, OldestKey(ls.times)) !in fs.files
      || Combine(ls.sc.dir, OldestKey(ls.times)) in fs.locked
    ensures r.2.Some? ==>
      && |ls.times| > 0
      && r.2.value == Combine(ls.sc.dir, OldestKey(ls.times))
      && r.2.value in fs.files && r.2.value !in fs.locked
      && r.1 == Fs(fs.files - {r.2.value}, fs.locked)
      && r.0.sc == ls.sc && r.0.limit == ls.limit
      && r.0.counter == ls.counter - |fs.files[r.2.value].data|
      && r.0.times == RemoveKey(ls.times, if variant.AsWritten? then r.2.value else OldestKey(ls.times))
  {
    if |ls.times| == 0 then (ls, fs, None)
    else
      var key := OldestKey(ls.times);
      if key == "" then (ls, fs, None)
      else
        var path := Combine(ls.sc.dir, key);
        if path !in fs.files || path in fs.locked then (ls, fs, None)
        else
          var size := |fs.files[path].data|;
          var removedKey := if variant.AsWritten? then path else key;
          (ls.(times := RemoveKey(ls.times, removedKey), counter := ls.counter - size),
           Fs(fs.files - {path}, fs.locked),
           Some(path))
  }

  /** Total size of the given files. */
  function DeletedSize(files: map<string, File>, paths: seq<string>): int
    requires forall i :: 0 <= i < |paths| ==> paths[i] in files
  {
    if paths == [] then 0 else DeletedSize(files, paths[..|paths| - 1]) + |files[paths[|paths| - 1]].data|
  }

  /** Bookkeeping for one successful removal inside `Evict`. */
  lemma EvictStep(files: map<string, File>, current: map<string, File>, deleted: seq<string>, p: string)
    requires Distinct(deleted) && forall i :: 0 <= i < |deleted| ==> deleted[i] in files
    requires current == files - Elems(deleted) && p in current
    ensures Distinct(deleted + [p])
    ensures forall i :: 0 <= i < |deleted + [p]| ==> (deleted + [p])[i] in files
    ensures current - {p} == files - Elems(deleted + [p])
    ensures DeletedSize(files, deleted + [p]) == DeletedSize(files, deleted) + |files[p].data|
    ensures |current - {p}| < |current|
  {
    var d := deleted + [p];
    assert p !in Elems(deleted);
    assert d[..|deleted|] == deleted;
    assert Elems(d) == Elems(deleted) + {p};
    forall i, j | 0 <= i < j < |d| ensures d[i] != d[j] {
      if j == |deleted| { assert d[i] == deleted[i]; assert deleted[i] in Elems(deleted); }
      else { assert d[i] == deleted[i] && d[j] == deleted[j]; }
    }
    assert (current - {p}).Keys + {p} == current.Keys;
  }

  /** One successful removal, of the file at `p`, keeps the eviction loop's
      bookkeeping and shrinks the folder. */
  lemma EvictKeeps(ls: Limited, fs: Fs, cur: Limited, curFs: Fs, deleted: seq<string>, p: string, next: Limited, nextFs: Fs)
    requires curFs.locked == fs.locked
    requires Distinct(deleted)
    requires forall i :: 0 <= i < |deleted| ==> deleted[i] in fs.files && deleted[i] !in fs.locked
    requires curFs.files == fs.files - Elems(deleted)
    requires cur.counter == ls.counter - DeletedSize(fs.files, deleted)
    requires p in curFs.files && p !in curFs.locked
    requires nextFs == Fs(curFs.files - {p}, curFs.locked)
    requires next.counter == cur.counter - |curFs.files[p].data|
    ensures Distinct(deleted + [p])
    ensures forall i :: 0 <= i < |deleted + [p]| ==> (deleted + [p])[i] in fs.files && (deleted + [p])[i] !in fs.locked
    ensures nextFs.files == fs.files - Elems(deleted + [p])
    ensures next.counter == ls.counter - DeletedSize(fs.files, deleted + [p])
    ensures |nextFs.files| < |curFs.files|
  {
    assert curFs.files[p] == fs.files[p];
    EvictStep(fs.files, curFs.files, deleted, p);
  }

  /** A removal only takes keys out of the dictionary. */
  lemma RemovalKeepsKeys(ls: Limited, fs: Fs, variant: Variant)
    requires RemoveOldest(ls, fs, variant).2.Some?
    ensures forall k :: k in KeysOf(RemoveOldest(ls, fs, variant).0.times) ==> k in KeysOf(ls.times)
  {
    var removed := if variant.AsWritten? then RemoveOldest(ls, fs, variant).2.value else OldestKey(ls.times);
    assert RemoveOldest(ls, fs, variant).0.times == RemoveKey(ls.times, removed);
    var w := Without(KeysOf(ls.times), removed);
    forall k | k in KeysOf(RemoveKey(ls.times, removed)) ensures k in KeysOf(ls.times) {
      var i :| 0 <= i < |w| && w[i] == k;
    }
  }

  /** Eviction order: the first deleted path is the one `RemoveOldest`
      deleted, in a removal made while the counter plus `size` was still
      over the limit, and the rest are in eviction order from the state that
      removal left. */
  predicate EvictedInOrder(ls: Limited, fs: Fs, size: int, variant: Variant, deleted: seq<string>)
    decreases |deleted|
  {
    deleted == [] ||
      var step := RemoveOldest(ls, fs, variant);
      && ls.counter + size > ls.limit
      && step.2 == Some(deleted[0])
      && EvictedInOrder(step.0, step.1, size, variant, deleted[1..])
  }

  /** The cache and folder after one removal per deleted path. */
  function AfterEvictions(ls: Limited, fs: Fs, variant: Variant, deleted: seq<string>): (r: (Limited, Fs))
    ensures r.0.sc == ls.sc && r.0.limit == ls.limit
    decreases |deleted|
  {
    if deleted == [] then (ls, fs)
    else
      var step := RemoveOldest(ls, fs, variant);
      AfterEvictions(step.0, step.1, variant, deleted[1..])
  }

  /** A further removal made while still over the limit extends the order;
      `last` is the state the earlier removals left. */
  lemma {:induction false} EvictedInOrderExtends(ls: Limited, fs: Fs, size: int, variant: Variant, deleted: seq<string>,
                                                 last: (Limited, Fs), p: string)
    requires EvictedInOrder(ls, fs, size, variant, deleted)
    requires last == AfterEvictions(ls, fs, variant, deleted)
    requires last.0.counter + size > ls.limit
    requires RemoveOldest(last.0, last.1, variant).2 == Some(p)
    ensures EvictedInOrder(ls, fs, size, variant, deleted + [p])
    decreases |deleted|
  {
    var d := deleted + [p];
    if deleted == [] {
      assert d[1..] == [];
      assert last == (ls, fs);
    } else {
      AppendSplit(deleted, p);
      var step := RemoveOldest(ls, fs, variant);
      assert step.2 == Some(deleted[0]);
      assert step.0.limit == ls.limit;
      assert AfterEvictions(step.0, step.1, variant, deleted[1..]) == last;
      EvictedInOrderExtends(step.0, step.1, size, variant, deleted[1..], last, p);
    }
  }

  /** One more deleted path means one more removal. */
  lemma {:induction false} AfterEvictionsExtends(ls: Limited, fs: Fs, variant: Variant, deleted: seq<string>, p: string)
    ensures var last := AfterEvictions(ls, fs, variant, deleted);
      AfterEvictions(ls, fs, variant, deleted + [p]) == (RemoveOldest(last.0, last.1, variant).0, RemoveOldest(last.0, last.1, variant).1)
    decreases |deleted|
  {
    if deleted == [] {
      assert ([] + [p])[1..] == [];
    } else {
      AppendSplit(deleted, p);
      var step := RemoveOldest(ls, fs, variant);
      AfterEvictionsExtends(step.0, step.1, variant, deleted[1..], p);
    }
  }

  /** The first deletion in eviction order: only when over the limit, and
      the file of the oldest entry. */
  lemma EvictedInOrderFirst(ls: Limited, fs: Fs, size: int, variant: Variant, deleted: seq<string>)
    requires EvictedInOrder(ls, fs, size, variant, deleted)
    ensures ls.counter + size <= ls.limit ==> deleted == []
    ensures deleted != [] ==> |ls.times| > 0 && deleted[0] == Combine(ls.sc.dir, OldestKey(ls.times))
  {
    if deleted != [] {
      assert RemoveOldest(ls, fs, variant).2 == Some(deleted[0]);
    }
  }

  /** One successful removal inside `Evict` keeps every loop invariant. */
  lemma EvictLoopStep(ls: Limited, fs: Fs, size: int, variant: Variant, cur: Limited, curFs: Fs, deleted: seq<string>)
    requires cur.sc == ls.sc && cur.limit == ls.limit && curFs.locked == fs.locked
    requires Distinct(deleted)
    requires forall i :: 0 <= i < |deleted| ==> deleted[i] in fs.files && deleted[i] !in fs.locked
    requires curFs.files == fs.files - Elems(deleted)
    requires cur.counter == ls.counter - DeletedSize(fs.files, deleted)
    requires forall k :: k in KeysOf(cur.times) ==> k in KeysOf(ls.times)
    requires EvictedInOrder(ls, fs, size, variant, deleted)
    requires (cur, curFs) == AfterEvictions(ls, fs, variant, deleted)
    requires cur.counter + size > cur.limit
    requires RemoveOldest(cur, curFs, variant).2.Some?
    ensures var step := RemoveOldest(cur, curFs, variant);
      var next, nextFs, d := step.0, step.1, deleted + [step.2.value];
      && next.sc == ls.sc && next.limit == ls.limit && nextFs.locked == fs.locked
      && Distinct(d)
      && (forall i :: 0 <= i < |d| ==> d[i] in fs.files && d[i] !in fs.locked)
      && nextFs.files == fs.files - Elems(d)
      && next.counter == ls.counter - DeletedSize(fs.files, d)
      && (forall k :: k in KeysOf(next.times) ==> k in KeysOf(ls.times))
      && EvictedInOrder(ls, fs, size, variant, d)
      && (next, nextFs) == AfterEvictions(ls, fs, variant, d)
      && |nextFs.files| < |curFs.files|
  {
    var step := RemoveOldest(cur, curFs, variant);
    RemovalKeepsKeys(cur, curFs, variant);
    EvictKeeps(ls, fs, cur, curFs, deleted, step.2.value, step.0, step.1);
    EvictedInOrderExtends(ls, fs, size, variant, deleted, (cur, curFs), step.2.value);
    AfterEvictionsExtends(ls, fs, variant, deleted, step.2.value);
  }

  /** The eviction loop of `SaveAsync`: remove oldest files while the counter
      plus the incoming size is over the limit, stopping at the first
      removal that fails. */
  method Evict(ls: Limited, fs: Fs, size: int, variant: Variant) returns (ls': Limited, fs': Fs, deleted: seq<string>)
    ensures ls'.sc == ls.sc && ls'.limit == ls.limit && fs'.locked == fs.locked
    ensures Distinct(deleted)
    ensures forall i :: 0 <= i < |deleted| ==> deleted[i] in fs.files && deleted[i] !in fs.locked
    ensures fs'.files == fs.files - Elems(deleted)
    ensures ls'.counter == ls.counter - DeletedSize(fs.files, deleted)
    ensures ls'.counter + size <= ls'.limit || RemoveOldest(ls', fs', variant).2.None?
    ensures deleted == [] ==> ls' == ls && fs' == fs
    ensures forall k :: k in KeysOf(ls'.times) ==> k in KeysOf(ls.times)
    ensures EvictedInOrder(ls, fs, size, variant, deleted)
    ensures (ls', fs') == AfterEvictions(ls, fs, variant, deleted)
    ensures ls.counter + size <= ls.limit ==> deleted == []
    ensures deleted != [] ==> |ls.times| > 0 && deleted[0] == Combine(ls.sc.dir, OldestKey(ls.times))
  {
    ls', fs', deleted := ls, fs, [];
    while ls'.counter + size > ls'.limit
      invariant ls'.sc == ls.sc && ls'.limit == ls.limit && fs'.locked == fs.locked
      invariant Distinct(deleted)
      invariant forall i :: 0 <= i < |deleted| ==> deleted[i] in fs.files && deleted[i] !in fs.locked
      invariant fs'.files == fs.files - Elems(deleted)
      invariant ls'.counter == ls.counter - DeletedSize(fs.files, deleted)
      invariant deleted == [] ==> ls' == ls && fs' == fs
      invariant forall k :: k in KeysOf(ls'.times) ==> k in KeysOf(ls.times)
      invariant EvictedInOrder(ls, fs, size, variant, deleted)
      invariant (ls', fs') == AfterEvictions(ls, fs, variant, deleted)
      decreases |fs'.files|
    {
      var step := RemoveOldest(ls', fs', variant);
      if step.2.None? {
        break;
      }
      EvictLoopStep(ls, fs, size, variant, ls', fs', deleted);
      ls', fs', deleted := step.0, step.1, deleted + [step.2.value];
    }
    EvictedInOrderFirst(ls, fs, size, variant, deleted);
  }

  /** `SaveAsync`: evict until the new file fits (or nothing more can be
      removed), save it at `Combine(dir, name)`, and only if the save reports
      success record its timestamp and add its size to the counter. The
      returned state is the one the cache is left in; an exception from the
      save is passed on. */
  method SaveAsync(ls: Limited, fs: Fs, key: string, data: Bytes, now: int, copy: CopyOutcome, variant: Variant)
    returns (ls': Limited, fs': Fs, deleted: seq<string>, result: Result<bool>)
    ensures ls'.sc == ls.sc && ls'.limit == ls.limit && fs'.locked == fs.locked
    ensures forall i :: 0 <= i < |deleted| ==> deleted[i] in fs.files && deleted[i] !in fs.locked
    ensures result != Ok(true) ==> ls'.counter == ls.counter - DeletedSize(fs.files, deleted)
    ensures result == Ok(true) ==> ls'.counter == ls.counter - DeletedSize(fs.files, deleted) + |data|
    ensures forall p :: p in fs'.files && p != FullPath(ls.sc, key) ==> p in fs.files && fs'.files[p] == fs.files[p]
    ensures result.Throws? <==> FullPath(ls.sc, key) in fs.locked
    ensures result == Ok(true) <==> variant.Corrected? && FullPath(ls.sc, key) !in fs.locked && copy.Copied?
    ensures variant.AsWritten? ==> result != Ok(true)
    ensures result == Ok(true) ==>
      && FullPath(ls.sc, key) in fs'.files && fs'.files[FullPath(ls.sc, key)] == File(data, now, now)
      && ls.sc.nameOf(key) in KeysOf(ls'.times)
    ensures result == Ok(true) ==> Load(ls'.sc, fs', key) == Some(data) && ExistsAndAlive(ls'.sc, fs', key, now)
    ensures Distinct(deleted)
    ensures forall i :: 0 <= i < |deleted| && deleted[i] != FullPath(ls.sc, key) ==> deleted[i] !in fs'.files
    ensures result != Ok(true) && deleted == [] ==> ls'.times == ls.times
    ensures result != Ok(true) ==> forall k :: k in KeysOf(ls'.times) ==> k in KeysOf(ls.times)
    ensures result == Ok(true) ==> forall k :: k in KeysOf(ls'.times) ==> k in KeysOf(ls.times) || k == ls.sc.nameOf(key)
    ensures EvictedInOrder(ls, fs, |data|, variant, deleted)
    ensures ls.counter + |data| <= ls.limit ==> deleted == []
    ensures deleted != [] ==> |ls.times| > 0 && deleted[0] == Combine(ls.sc.dir, OldestKey(ls.times))
    ensures var evicted := AfterEvictions(ls, fs, variant, deleted);
      evicted.0.counter + |data| <= ls.limit || RemoveOldest(evicted.0, evicted.1, variant).2.None?
  {
    var path := FullPath(ls.sc, key);
    var evicted, evictedFs;
    evicted, evictedFs, deleted := Evict(ls, fs, |data|, variant);
    var stored := Store(evicted, evictedFs, key, data, now, copy, variant);
    ls', fs', result := stored.0, stored.1, stored.2;
  }

  /** The part of `SaveAsync` after eviction: save the file, and only if the
      save reports success record its timestamp and add its size. */
  function Store(ls: Limited, fs: Fs, key: string, data: Bytes, now: int, copy: CopyOutcome, variant: Variant)
    : (r: (Limited, Fs, Result<bool>))
    ensures r.0.sc == ls.sc && r.0.limit == ls.limit && r.1.locked == fs.locked
    ensures r.2.Throws? <==> FullPath(ls.sc, key) in fs.locked
    ensures r.2 == Ok(true) <==> variant.Corrected? && FullPath(ls.sc, key) !in fs.locked && copy.Copied?
    ensures r.2 != Ok(true) ==> r.0 == ls
    ensures forall p :: p in r.1.files && p != FullPath(ls.sc, key) ==> p in fs.files && r.1.files[p] == fs.files[p]
    ensures r.2 == Ok(true) ==>
      && r.0.counter == ls.counter + |data|
      && FullPath(ls.sc, key) in r.1.files && r.1.files[FullPath(ls.sc, key)] == File(data, now, now)
      && ls.sc.nameOf(key) in KeysOf(r.0.times)
      && forall k :: k in KeysOf(r.0.times) ==> k in KeysOf(ls.times) || k == ls.sc.nameOf(key)
  {
    var path := FullPath(ls.sc, key);
    var saved := if variant.AsWritten? then InternalSave(fs, path, data, now, copy)
                 else InternalSaveFixed(fs, path, data, now, copy);
    match saved
    case Throws(e) => (ls, fs, Throws(e))
    case Ok((fs2, ok)) =>
      if ok then
        var recorded := if variant.AsWritten? then Combine(ls.sc.dir, path) else ls.sc.nameOf(key);
        SetTimeKeys(ls.times, recorded, now);
        (ls.(times := SetTime(ls.times, recorded, now), counter := ls.counter + |data|), fs2, Ok(true))
      else (ls, fs2, Ok(false))
  }

  /** The constructor's background scan of the cache directory: for every
      listed file read its properties, add its size to a running total and
      register its bare name with its modification time (a name already
      registered makes `Dictionary.Add` throw after the size was counted; the
      throw is caught); finally add the total to the counter. A listing that
      cannot be obtained (`None`) changes nothing. Reading a file's
      properties is outside the per-file guard: `fault` is the index of the
      first file whose properties cannot be read (an index past the listing
      means none). Such a fault abandons the scan: the names registered so
      far stay, and the total is never added. */
  function BeginCount(ls: Limited, listing: Option<seq<(string, File)>>, fault: nat): (r: Limited)
    requires WellFormed(ls.times)
    ensures WellFormed(r.times) && r.sc == ls.sc && r.limit == ls.limit
    ensures listing.None? ==> r == ls
    ensures listing.Some? ==>
      && |ls.times| <= |r.times| && r.times[..|ls.times|] == ls.times
      && forall i :: 0 <= i < |Scanned(listing.value, fault)| ==> Scanned(listing.value, fault)[i].0 in KeysOf(r.times)
    ensures listing.Some? ==>
      && |r.times| <= |ls.times| + |Scanned(listing.value, fault)|
      && forall i :: |ls.times| <= i < |r.times| ==> r.times[i] in Stamps(Scanned(listing.value, fault))
    ensures listing.Some? && fault < |listing.value| ==> r.counter == ls.counter
    ensures listing.Some? && fault >= |listing.value| ==>
      && r.counter == ls.counter + ListedSize(listing.value)
      && forall i :: 0 <= i < |listing.value| ==> listing.value[i].0 in KeysOf(r.times)
  {
    match listing
    case None => ls
    case Some(files) =>
      var times := Register(ls.times, Scanned(files, fault));
      if fault < |files| then ls.(times := times)
      else ls.(times := times, counter := ls.counter + ListedSize(files))
  }

  /** The files the scan gets through before a properties fault at `fault`. */
  function Scanned(files: seq<(string, File)>, fault: nat): (r: seq<(string, File)>)
    ensures |r| <= |files| && r == files[..|r|]
    ensures fault < |files| <==> |r| < |files|
    ensures fault < |files| ==> |r| == fault
  {
    if fault < |files| then files[..fault] else files
  }

  /** Sum of the sizes of listed files. */
  function ListedSize(files: seq<(string, File)>): int
  {
    if files == [] then 0 else ListedSize(files[..|files| - 1]) + |files[|files| - 1].1.data|
  }

  lemma {:induction false} KeysOfAppend(a: Times, b: Times)
    ensures KeysOf(a + b) == KeysOf(a) + KeysOf(b)
  {
    if a != [] {
      assert (a + b)[1..] == a[1..] + b;
      KeysOfAppend(a[1..], b);
    } else {
      assert a + b == b;
    }
  }

  /** `dict.Add(name, t)` inside the scan's try block: a key already present
      makes it throw, which is caught, so the dictionary is unchanged. */
  function AddNew(times: Times, name: string, t: int): (r: Times)
    requires WellFormed(times)
    ensures WellFormed(r) && |times| <= |r| && r[..|times|] == times
    ensures name in KeysOf(r)
    ensures name in KeysOf(times) ==> r == times
    ensures name !in KeysOf(times) ==> r == times + [(name, t)]
  {
    if name in KeysOf(times) then times
    else
      KeysOfAppend(times, [(name, t)]);
      var ks := KeysOf(times);
      assert KeysOf([(name, t)]) == [name];
      assert Distinct(ks + [name]) by {
        forall i, j | 0 <= i < j < |ks + [name]| ensures (ks + [name])[i] != (ks + [name])[j] {
          if j == |ks| { assert (ks + [name])[i] == ks[i]; }
          else { assert (ks + [name])[i] == ks[i] && (ks + [name])[j] == ks[j]; }
        }
      }
      assert (ks + [name])[|ks|] == name;
      times + [(name, t)]
  }

  /** The `Dictionary.Add` calls of the scan, in listing order. */
  function Register(times: Times, files: seq<(string, File)>): (r: Times)
    requires WellFormed(times)
    ensures WellFormed(r) && |times| <= |r| && r[..|times|] == times
    ensures forall i :: 0 <= i < |files| ==> files[i].0 in KeysOf(r)
    ensures forall i :: |times| <= i < |r| ==> r[i] in Stamps(files)
    ensures |r| <= |times| + |files|
    decreases |files|
  {
    if files == [] then times
    else
      var times1 := AddNew(times, files[0].0, files[0].1.modified);
      var r := Register(times1, files[1..]);
      PrefixOfPrefix(times, times1, r);
      PrefixKey(times1, r, files[0].0);
      RegisterNames(files, r);
      RegisterStamps(times, times1, files, r);
      r
  }

  /** A prefix of a prefix is a prefix. */
  lemma PrefixOfPrefix(times: Times, times1: Times, r: Times)
    requires |times| <= |times1| <= |r| && times1[..|times|] == times && r[..|times1|] == times1
    ensures r[..|times|] == times
  {
    assert r[..|times|] == r[..|times1|][..|times|];
  }

  /** A key of a prefix is a key of the whole dictionary. */
  lemma PrefixKey(times1: Times, r: Times, name: string)
    requires |times1| <= |r| && r[..|times1|] == times1 && name in KeysOf(times1)
    ensures name in KeysOf(r)
  {
    var m := IndexOf(KeysOf(times1), name);
    assert r[m] == times1[m];
    assert KeysOf(r)[m] == name;
  }

  /** After the scan every listed name is a key: the first because `AddNew`
      made it one and the prefix keeps it, the rest by the recursive call. */
  lemma RegisterNames(files: seq<(string, File)>, r: Times)
    requires files != [] && files[0].0 in KeysOf(r)
    requires forall i :: 0 <= i < |files[1..]| ==> files[1..][i].0 in KeysOf(r)
    ensures forall i :: 0 <= i < |files| ==> files[i].0 in KeysOf(r)
  {
    forall i | 0 < i < |files| ensures files[i].0 in KeysOf(r) {
      assert files[i] == files[1..][i - 1];
    }
  }

  /** After the scan every new entry is a stamp of the listing. */
  lemma RegisterStamps(times: Times, times1: Times, files: seq<(string, File)>, r: Times)
    requires files != []
    requires times1 == times || times1 == times + [(files[0].0, files[0].1.modified)]
    requires |times1| <= |r| && r[..|times1|] == times1
    requires forall i :: |times1| <= i < |r| ==> r[i] in Stamps(files[1..])
    ensures forall i :: |times| <= i < |r| ==> r[i] in Stamps(files)
  {
    assert Stamps(files) == [(files[0].0, files[0].1.modified)] + Stamps(files[1..]);
    forall i | |times| <= i < |r| ensures r[i] in Stamps(files) {
      if i < |times1| {
        assert r[i] == times1[i];
        assert times1[i] == (files[0].0, files[0].1.modified);
      }
    }
  }

  /** The (name, modification time) pairs of a listing. */
  function Stamps(files: seq<(string, File)>): (r: Times)
    ensures |r| == |files|
  {
    if files == [] then [] else [(files[0].0, files[0].1.modified)] + Stamps(files[1..])
  }

  /** The constructor: base validation, the counter at -1, then the scan. */
  function New(folder: bool, dir: Option<string>, nameOf: Option<string -> string>, limit: int, lifetime: int,
               listing: Option<seq<(string, File)>>, fault: nat): (r: Result<Limited>)
    ensures r.Ok? <==> StorageCacheBase.New(folder, dir, nameOf, lifetime).Ok?
    ensures r.Throws? ==> r == Throws(StorageCacheBase.New(folder, dir, nameOf, lifetime).error)
    ensures r.Ok? ==> r.value.limit == limit && r.value.sc == StorageCacheBase.New(folder, dir, nameOf, lifetime).value
    ensures r.Ok? && listing.None? ==> r.value.counter == INITIAL_COUNTER && r.value.times == []
    ensures r.Ok? && listing.Some? && fault >= |listing.value| ==> r.value.counter == ListedSize(listing.value) - 1
    ensures r.Ok? && listing.Some? && fault < |listing.value| ==>
      r.value.counter == INITIAL_COUNTER && |r.value.times| <= fault
  {
    match StorageCacheBase.New(folder, dir, nameOf, lifetime)
    case Throws(e) => Throws(e)
    case Ok(sc) =>
      assert KeysOf([]) == [];
      Ok(BeginCount(Limited(sc, [], INITIAL_COUNTER, limit), listing, fault))
  }

  /** As written, removal deletes the oldest entry's file but removes the
      dictionary entry under the combined path. When that path is not itself
      a key (a bare name from the startup scan, say), the entry stays, stays
      the oldest, and the next removal fails because its file is gone. */
  lemma AsWrittenRemovalSticks(ls: Limited, fs: Fs)
    requires RemoveOldest(ls, fs, AsWritten).2.Some?
    requires Combine(ls.sc.dir, OldestKey(ls.times)) !in KeysOf(ls.times)
    ensures RemoveOldest(ls, fs, AsWritten).0.times == ls.times
    ensures RemoveOldest(RemoveOldest(ls, fs, AsWritten).0, RemoveOldest(ls, fs, AsWritten).1, AsWritten).2.None?
  {
    var r := RemoveOldest(ls, fs, AsWritten);
    var p := r.2.value;
    assert Without(KeysOf(ls.times), p) == KeysOf(ls.times);
    assert r.0.times == RemoveKey(ls.times, p);
    RemoveKeyUnchanged(ls.times, p);
    assert r.0.times == ls.times;
    assert p !in r.1.files;
  }

  /** Removing a key that is absent changes nothing. */
  lemma RemoveKeyUnchanged(times: Times, key: string)
    requires key !in KeysOf(times)
    ensures RemoveKey(times, key) == times
  {
    DropKeyUnchanged(times, key);
  }

  lemma {:induction false} DropKeyUnchanged(times: Times, key: string)
    requires key !in KeysOf(times)
    ensures DropKey(times, key) == times
  {
    if times != [] {
      assert KeysOf(times) == [times[0].0] + KeysOf(times[1..]);
      DropKeyUnchanged(times[1..], key);
      assert times == [times[0]] + times[1..];
    }
  }

  /** A concrete instance: directory `\cache`, two scanned files `a` (older)
      and `b`, one byte each. The first removal deletes `\cache\a`; the
      second fails although `\cache\b` is still there. */
  lemma AsWrittenRemovalSticksExample()
    ensures var ls := Limited(StorageCache("\\cache", (k: string) => k, 0), [("a", 1), ("b", 2)], 2, 0);
            var fs := Fs(map["\\cache\\a" := File([0], 1, 1), "\\cache\\b" := File([0], 2, 2)], {});
            var first := RemoveOldest(ls, fs, AsWritten);
            && first.2 == Some("\\cache\\a")
            && "\\cache\\b" in first.1.files
            && RemoveOldest(first.0, first.1, AsWritten).2.None?
  {
    var ls := Limited(StorageCache("\\cache", (k: string) => k, 0), [("a", 1), ("b", 2)], 2, 0);
    var fs := Fs(map["\\cache\\a" := File([0], 1, 1), "\\cache\\b" := File([0], 2, 2)], {});
    assert OldestIndex(ls.times) == 0;
    assert Combine("\\cache", "a") == "\\cache\\a";
    assert KeysOf(ls.times) == ["a", "b"];
    AsWrittenRemovalSticks(ls, fs);
  }

  /** Corrected, a successful removal takes the chosen entry out of the
      dictionary, so the dictionary shrinks by one and the next removal looks
      at the next oldest entry. */
  lemma CorrectedRemovalAdvances(ls: Limited, fs: Fs)
    requires WellFormed(ls.times)
    requires RemoveOldest(ls, fs, Corrected).2.Some?
    ensures WellFormed(RemoveOldest(ls, fs, Corrected).0.times)
    ensures OldestKey(ls.times) !in KeysOf(RemoveOldest(ls, fs, Corrected).0.times)
    ensures |RemoveOldest(ls, fs, Corrected).0.times| == |ls.times| - 1
  {
    var k := OldestKey(ls.times);
    assert k in KeysOf(ls.times) by { assert KeysOf(ls.times)[OldestIndex(ls.times)] == k; }
    RemoveKeyFacts(ls.times, k);
  }

  /** Corrected, the example above evicts both files in turn. */
  lemma CorrectedRemovalExample()
    ensures var ls := Limited(StorageCache("\\cache", (k: string) => k, 0), [("a", 1), ("b", 2)], 2, 0);
            var fs := Fs(map["\\cache\\a" := File([0], 1, 1), "\\cache\\b" := File([0], 2, 2)], {});
            var first := RemoveOldest(ls, fs, Corrected);
            && first.2 == Some("\\cache\\a")
            && RemoveOldest(first.0, first.1, Corrected).2 == Some("\\cache\\b")
            && RemoveOldest(first.0, first.1, Corrected).0.counter == 0
  {
    var sc := StorageCache("\\cache", (k: string) => k, 0);
    var ls := Limited(sc, [("a", 1), ("b", 2)], 2, 0);
    var fs := Fs(map["\\cache\\a" := File([0], 1, 1), "\\cache\\b" := File([0], 2, 2)], {});
    var fs1 := Fs(map["\\cache\\b" := File([0], 2, 2)], {});
    assert fs.files - {"\\cache\\a"} == fs1.files;
    ExampleFacts();
    CorrectedStep(ls, fs, "a", "\\cache\\a");
    var first := RemoveOldest(ls, fs, Corrected);
    assert first.0.times == [("b", 2)];
    assert first.1 == fs1;
    CorrectedStep(first.0, fs1, "b", "\\cache\\b");
  }

  /** The paths, keys and removals the two examples go through. */
  lemma ExampleFacts()
    ensures Combine("\\cache", "a") == "\\cache\\a" && Combine("\\cache", "b") == "\\cache\\b"
    ensures OldestKey([("a", 1), ("b", 2)]) == "a" && OldestKey([("b", 2)]) == "b"
    ensures RemoveKey([("a", 1), ("b", 2)], "a") == [("b", 2)]
  {
    assert OldestIndex([("a", 1), ("b", 2)]) == 0;
    assert RemoveKey([("b", 2)], "a") == [("b", 2)] by { assert RemoveKey([], "a") == []; }
  }

  /** One corrected removal, with its outcome given. */
  lemma CorrectedStep(ls: Limited, fs: Fs, key: string, path: string)
    requires |ls.times| > 0 && OldestKey(ls.times) == key && key != ""
    requires Combine(ls.sc.dir, key) == path && path in fs.files && path !in fs.locked
    ensures var r := RemoveOldest(ls, fs, Corrected);
      && r.2 == Some(path) && r.1 == Fs(fs.files - {path}, fs.locked)
      && r.0.sc == ls.sc && r.0.times == RemoveKey(ls.times, key)
      && r.0.counter == ls.counter - |fs.files[path].data|
  {
  }
}
