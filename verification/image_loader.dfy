/** `ImageLoader.LoadImageStream`: which cache tiers are consulted and written
    for each `CacheMode`, in what order, and the fall-back re-check.

    The tiers and the network are not modelled as code: every call into them
    is recorded as an `Event`, and what they answer is given as parameters.
    `first` is what the tiers answer before the download and `second` what
    they answer on the re-check after a failed download (another load may
    have filled them in between). */
module ImageLoader {
  import opened Base

  /** `CacheMode`. */
  datatype CacheMode = NoCache | OnlyMemoryCache | OnlyStorageCache | MemoryAndStorageCache

  /** The modes that read and write the memory tier. */
  predicate UsesMemory(mode: CacheMode)
  {
    mode == MemoryAndStorageCache || mode == OnlyMemoryCache
  }

  /** The modes that read and write the storage tier. */
  predicate UsesStorage(mode: CacheMode)
  {
    mode == MemoryAndStorageCache || mode == OnlyStorageCache
  }

  /** A URI; only its scheme matters to the loader's decisions. */
  datatype Uri = Uri(scheme: string, absolute: string)

  /** `IsWebScheme`: only http and https resources are saved to storage. */
  predicate IsWeb(u: Uri)
  {
    u.scheme == "http" || u.scheme == "https"
  }

  /** What the tiers answer for the requested URI: the memory lookup (the
      memory tier never holds null, since both writes check for it), whether
      the storage entry exists and is alive, what loading it gives, and what
      the memory tier's `Put` does when a storage load is copied into it
      (consulted only when that copy happens). */
  datatype Tiers = Tiers(memory: Option<Bytes>, storageAlive: bool, storageLoad: Option<Bytes>, copy: Outcome)

  /** What `GetStreamFromUri` and the copy into memory give: the bytes, a
      null stream, or an exception (including cancellation). */
  datatype Fetch = Fetched(data: Bytes) | NullStream | Faulted

  /** The calls the loader makes into the tiers and the network. */
  datatype Event =
    | ProbeMemory
    | ProbeStorage
    | LoadStorage
    | PutMemory(data: Bytes)
    | FetchNetwork
    | ScheduleSave(data: Bytes)

  /** The stream returned, with the calls made on the way. */
  datatype Load = Load(stream: Option<Bytes>, events: seq<Event>)

  /** A step of the loader: the stream it gives, the calls it made, and the
      exception that escapes it, if any (the stream is then `None`). */
  datatype Answer = Answer(stream: Option<Bytes>, events: seq<Event>, escaped: Option<Exception>)

  /** Whether `mode` lets the loader touch the tier `e` belongs to. */
  predicate Permitted(mode: CacheMode, e: Event)
  {
    match e
    case ProbeMemory => UsesMemory(mode)
    case PutMemory(_) => UsesMemory(mode)
    case ProbeStorage => UsesStorage(mode)
    case LoadStorage => UsesStorage(mode)
    case ScheduleSave(_) => UsesStorage(mode)
    case FetchNetwork => true
  }

  /** Reads and copies between tiers, as opposed to the network and saves. */
  predicate IsCacheRead(e: Event)
  {
    e.ProbeMemory? || e.ProbeStorage? || e.LoadStorage? || e.PutMemory?
  }

  /** The tiers `mode` uses can give a non-null stream for this URI. */
  predicate Hit(mode: CacheMode, t: Tiers)
  {
    (UsesMemory(mode) && t.memory.Some?) || (UsesStorage(mode) && t.storageAlive && t.storageLoad.Some?)
  }

  /** A cache lookup copies a storage load into memory: `MemoryAndStorageCache`
      mode, a memory miss, and a live storage entry that loads. */
  predicate Copies(mode: CacheMode, t: Tiers)
  {
    mode == MemoryAndStorageCache && t.memory.None? && t.storageAlive && t.storageLoad.Some?
  }

  /** The copy into memory throws; nothing around it catches the exception. */
  predicate Escapes(mode: CacheMode, t: Tiers)
  {
    Copies(mode, t) && t.copy.Raised?
  }

  /** The download ends in the catch block and the URI is looked up again:
      the download throws, or the memory write after it does. */
  predicate Rechecks(mode: CacheMode, fetch: Fetch, put: Outcome)
  {
    fetch.Faulted? || (fetch.Fetched? && UsesMemory(mode) && put.Raised?)
  }

  /** `LoadImageStreamFromCache`: the memory tier first, and storage only on a
      memory miss; a live storage entry is loaded, and in
      `MemoryAndStorageCache` mode a non-null load is copied into memory,
      whose `Put` may throw out of the lookup. */
  function LoadFromCache(mode: CacheMode, t: Tiers): (r: Answer)
    ensures forall i :: 0 <= i < |r.events| ==> Permitted(mode, r.events[i]) && IsCacheRead(r.events[i])
    ensures UsesMemory(mode) <==> |r.events| > 0 && r.events[0] == ProbeMemory
    ensures UsesMemory(mode) && t.memory.Some? ==> r == Answer(t.memory, [ProbeMemory], None)
    ensures r.escaped.Some? <==> Escapes(mode, t)
    ensures r.escaped.Some? ==> r.escaped.value == t.copy.error && r.stream.None?
    ensures r.escaped.None? ==> (r.stream.Some? <==> Hit(mode, t))
    ensures LoadStorage in r.events <==>
      UsesStorage(mode) && t.storageAlive && !(UsesMemory(mode) && t.memory.Some?)
    ensures LoadStorage in r.events ==> r.events[|r.events| - 1] != ProbeStorage
    ensures LoadStorage in r.events && r.escaped.None? ==> r.stream == t.storageLoad
    ensures (exists d :: PutMemory(d) in r.events) <==> Copies(mode, t)
    ensures forall d :: PutMemory(d) in r.events ==> Some(d) == t.storageLoad
    ensures ProbeStorage in r.events <==> UsesStorage(mode) && !(UsesMemory(mode) && t.memory.Some?)
  {
    var probed := if UsesMemory(mode) then [ProbeMemory] else [];
    if UsesMemory(mode) && t.memory.Some? then
      Answer(t.memory, [ProbeMemory], None)
    else if UsesStorage(mode) then
      if t.storageAlive then
        if Copies(mode, t) then
          var events := probed + [ProbeStorage, LoadStorage, PutMemory(t.storageLoad.value)];
          if t.copy.Raised? then Answer(None, events, Some(t.copy.error)) else Answer(t.storageLoad, events, None)
        else
          Answer(t.storageLoad, probed + [ProbeStorage, LoadStorage], None)
      else
        Answer(None, probed + [ProbeStorage], None)
    else
      Answer(None, probed, None)
  }

  /** The writes after a successful download: memory when the mode has it,
      and a scheduled storage save when the mode has it and the URI is web. */
  function WritesAfterFetch(mode: CacheMode, u: Uri, d: Bytes): (r: seq<Event>)
    ensures PutMemory(d) in r <==> UsesMemory(mode)
    ensures ScheduleSave(d) in r <==> UsesStorage(mode) && IsWeb(u)
    ensures forall i :: 0 <= i < |r| ==> r[i] == PutMemory(d) || r[i] == ScheduleSave(d)
  {
    (if UsesMemory(mode) then [PutMemory(d)] else [])
    + (if UsesStorage(mode) && IsWeb(u) then [ScheduleSave(d)] else [])
  }

  /** `CheckConfig`: every entry point needs an initialized configuration. */
  function CheckConfig(config: Option<CacheMode>): (r: Outcome)
    ensures r.Raised? <==> config.None?
    ensures r.Raised? ==> r.error == InvalidOperationException
  {
    if config.None? then Raised(InvalidOperationException) else Done
  }

  /** The lookup `LoadImageStream` makes before and after a download: none
      at all in `NoCache` mode. */
  function Lookup(mode: CacheMode, t: Tiers): (r: Answer)
    ensures forall i :: 0 <= i < |r.events| ==> Permitted(mode, r.events[i]) && IsCacheRead(r.events[i])
    ensures r.escaped.Some? <==> Escapes(mode, t)
    ensures r.escaped.Some? ==> r.escaped.value == t.copy.error && r.stream.None?
    ensures r.escaped.None? ==> (r.stream.Some? <==> Hit(mode, t))
    ensures mode == NoCache ==> r == Answer(None, [], None)
  {
    if mode != NoCache then LoadFromCache(mode, t) else Answer(None, [], None)
  }

  /** The part of `LoadImageStream` after a cache miss: download and copy
      the stream, then write it to the tiers; on an exception, look the URI
      up once more. The memory write is inside the same guarded block, so
      when it throws (`put`, consulted only in modes with a memory tier) the
      storage save is skipped and the URI is looked up once more as well.
      The second lookup is outside the guarded block: an exception from its
      copy into memory escapes. */
  function Download(mode: CacheMode, u: Uri, fetch: Fetch, put: Outcome, second: Tiers): (r: Answer)
    ensures |r.events| > 0 && r.events[0] == FetchNetwork
    ensures forall i :: 1 <= i < |r.events| ==> Permitted(mode, r.events[i]) && r.events[i] != FetchNetwork
    ensures fetch.NullStream? ==> r == Answer(None, [FetchNetwork], None)
    ensures fetch.Fetched? && !(UsesMemory(mode) && put.Raised?) ==>
      && r.escaped.None?
      && r.stream == Some(fetch.data)
      && (PutMemory(fetch.data) in r.events <==> UsesMemory(mode))
      && (ScheduleSave(fetch.data) in r.events <==> UsesStorage(mode) && IsWeb(u))
    ensures fetch.Fetched? && UsesMemory(mode) && put.Raised? ==>
      |r.events| > 1 && r.events[1] == PutMemory(fetch.data)
    ensures Rechecks(mode, fetch, put) ==>
      && (r.escaped.Some? <==> Escapes(mode, second))
      && (r.escaped.Some? ==> r.escaped.value == second.copy.error)
      && (r.escaped.None? ==> (r.stream.Some? <==> Hit(mode, second)))
      && (forall i :: 1 <= i < |r.events| ==> IsCacheRead(r.events[i]))
  {
    match fetch
    case NullStream => Answer(None, [FetchNetwork], None)
    case Fetched(d) =>
      if UsesMemory(mode) && put.Raised? then
        var again := Lookup(mode, second);
        again.(events := [FetchNetwork, PutMemory(d)] + again.events)
      else
        Answer(Some(d), [FetchNetwork] + WritesAfterFetch(mode, u, d), None)
    case Faulted =>
      var again := Lookup(mode, second);
      again.(events := [FetchNetwork] + again.events)
  }

  /** `LoadImageStream(uri)`: `config` is the initialized configuration's
      mode, or `None` when `ImageConfig.Initialize` was never called. An
      exception from a copy into memory, in the first lookup or in the
      re-check, escapes to the caller. */
  function LoadImageStream(config: Option<CacheMode>, uri: Option<Uri>, first: Tiers, fetch: Fetch, put: Outcome, second: Tiers): (r: Result<Load>)
    ensures config.None? ==> r == Throws(InvalidOperationException)
    ensures r.Throws? <==> config.None? || (uri.Some? && EscapesFrom(config.value, first, fetch, put, second))
    ensures config.Some? && uri.Some? && Escapes(config.value, first) ==> r == Throws(first.copy.error)
    ensures config.Some? && uri.Some? && !Hit(config.value, first) && Rechecks(config.value, fetch, put)
      ==> (Escapes(config.value, second) ==> r == Throws(second.copy.error))
    ensures config.Some? && uri.None? ==> r == Ok(Load(None, []))
    ensures r.Ok? ==> forall i :: 0 <= i < |r.value.events| ==> Permitted(config.value, r.value.events[i])
  {
    if CheckConfig(config).Raised? then Throws(InvalidOperationException)
    else if uri.None? then Ok(Load(None, []))
    else
      var mode := config.value;
      var cached := Lookup(mode, first);
      if cached.escaped.Some? then Throws(cached.escaped.value)
      else if cached.stream.Some? then Ok(Load(cached.stream, cached.events))
      else
        var fetched := Download(mode, uri.value, fetch, put, second);
        if fetched.escaped.Some? then Throws(fetched.escaped.value)
        else Ok(Load(fetched.stream, cached.events + fetched.events))
  }

  /** A load of a URI throws out of the loader exactly when the copy into
      memory throws, in the first lookup or in the re-check after a failed
      download. */
  predicate EscapesFrom(mode: CacheMode, first: Tiers, fetch: Fetch, put: Outcome, second: Tiers)
  {
    Escapes(mode, first) || (!Hit(mode, first) && Rechecks(mode, fetch, put) && Escapes(mode, second))
  }

  /** Without a cache the loader goes straight to the network, exactly once,
      and touches no tier even when the download fails. */
  lemma NoCacheOnlyFetches(uri: Uri, first: Tiers, fetch: Fetch, put: Outcome, second: Tiers)
    ensures LoadImageStream(Some(NoCache), Some(uri), first, fetch, put, second).Ok?
    ensures LoadImageStream(Some(NoCache), Some(uri), first, fetch, put, second).value.events == [FetchNetwork]
    ensures LoadImageStream(Some(NoCache), Some(uri), first, fetch, put, second).value.stream ==
      if fetch.Fetched? then Some(fetch.data) else None
  {
    assert [FetchNetwork] + WritesAfterFetch(NoCache, uri, if fetch.Fetched? then fetch.data else []) == [FetchNetwork];
  }

  /** The load fails only through a copy into memory that throws; otherwise
      the network is used at most once, exactly when the cache tiers of the
      mode miss, and everything before the download is a cache read: the
      tiers are always consulted first. */
  lemma CacheBeforeNetwork(mode: CacheMode, uri: Uri, first: Tiers, fetch: Fetch, put: Outcome, second: Tiers)
    ensures var r := LoadImageStream(Some(mode), Some(uri), first, fetch, put, second);
      && (r.Throws? <==> EscapesFrom(mode, first, fetch, put, second))
      && (r.Ok? ==>
            && (FetchNetwork in r.value.events <==> !Hit(mode, first))
            && (forall j :: 0 <= j < |r.value.events| && r.value.events[j] == FetchNetwork ==>
                  (forall i :: 0 <= i < j ==> IsCacheRead(r.value.events[i]))
                  && (forall i :: j < i < |r.value.events| ==> r.value.events[i] != FetchNetwork)))
  {
    var cached := Lookup(mode, first);
    ReadsHaveNoFetch(cached.events);
    if !Hit(mode, first) {
      FetchAfterReads(cached.events, Download(mode, uri, fetch, put, second).events);
    }
  }

  /** A run of cache probes holds no download. */
  lemma ReadsHaveNoFetch(probes: seq<Event>)
    requires forall i :: 0 <= i < |probes| ==> IsCacheRead(probes[i])
    ensures FetchNetwork !in probes
  {
    forall i | 0 <= i < |probes| ensures probes[i] != FetchNetwork {
      assert IsCacheRead(probes[i]);
    }
  }

  /** Cache probes followed by one download and no other: the download is
      there, only probes precede it, and none follows. */
  lemma FetchAfterReads(probes: seq<Event>, fetched: seq<Event>)
    requires forall i :: 0 <= i < |probes| ==> IsCacheRead(probes[i])
    requires |fetched| > 0 && fetched[0] == FetchNetwork
    requires forall i :: 1 <= i < |fetched| ==> fetched[i] != FetchNetwork
    ensures var ev := probes + fetched;
      && FetchNetwork in ev
      && forall j :: 0 <= j < |ev| && ev[j] == FetchNetwork ==>
           (forall i :: 0 <= i < j ==> IsCacheRead(ev[i]))
           && (forall i :: j < i < |ev| ==> ev[i] != FetchNetwork)
  {
    var ev := probes + fetched;
    assert ev[|probes|] == FetchNetwork;
    forall i | 0 <= i < |ev| && i != |probes| ensures ev[i] != FetchNetwork {
      if i < |probes| { assert ev[i] == probes[i] && IsCacheRead(probes[i]); }
      else { assert ev[i] == fetched[i - |probes|]; }
    }
    assert forall i :: 0 <= i < |probes| ==> IsCacheRead(ev[i]);
  }

  /** A hit in the memory tier is returned at once: nothing but the memory
      probe happens. */
  lemma MemoryHitReturnsAtOnce(mode: CacheMode, uri: Uri, first: Tiers, fetch: Fetch, put: Outcome, second: Tiers)
    requires UsesMemory(mode) && first.memory.Some?
    ensures LoadImageStream(Some(mode), Some(uri), first, fetch, put, second) == Ok(Load(first.memory, [ProbeMemory]))
  {
  }

  /** On a memory miss, a live storage entry that loads is returned without a
      download, unless its copy into memory throws, in which case that
      exception escapes; it is copied into memory exactly in
      `MemoryAndStorageCache` mode, and storage is read only after memory was
      probed. */
  lemma StorageHitReturnsAtOnce(mode: CacheMode, uri: Uri, first: Tiers, fetch: Fetch, put: Outcome, second: Tiers)
    requires UsesStorage(mode) && !(UsesMemory(mode) && first.memory.Some?)
    requires first.storageAlive && first.storageLoad.Some?
    ensures var r := LoadImageStream(Some(mode), Some(uri), first, fetch, put, second);
      && (mode == MemoryAndStorageCache && first.copy.Raised? ==> r == Throws(first.copy.error))
      && (!(mode == MemoryAndStorageCache && first.copy.Raised?) ==>
            && r.Ok? && r.value.stream == first.storageLoad
            && FetchNetwork !in r.value.events
            && (PutMemory(first.storageLoad.value) in r.value.events <==> mode == MemoryAndStorageCache)
            && (UsesMemory(mode) ==> r.value.events[0] == ProbeMemory && ProbeStorage in r.value.events[1..]))
  {
    var r := LoadImageStream(Some(mode), Some(uri), first, fetch, put, second);
    var c := LoadFromCache(mode, first);
    if !(mode == MemoryAndStorageCache && first.copy.Raised?) {
      assert r.value.events == c.events;
      assert FetchNetwork !in c.events by {
        forall i | 0 <= i < |c.events| ensures c.events[i] != FetchNetwork {
          assert IsCacheRead(c.events[i]);
        }
      }
      if UsesMemory(mode) {
        assert c.events[1..][0] == ProbeStorage;
      }
    }
  }

  /** A storage hit whose copy into memory throws escapes the loader, in the
      first lookup or in the re-check after a failed download: the caller
      gets the exception and not the stream. */
  lemma RaisingCopyEscapes(uri: Uri, first: Tiers, fetch: Fetch, put: Outcome, second: Tiers)
    ensures Escapes(MemoryAndStorageCache, first) ==>
      LoadImageStream(Some(MemoryAndStorageCache), Some(uri), first, fetch, put, second) == Throws(first.copy.error)
    ensures !Hit(MemoryAndStorageCache, first) && Rechecks(MemoryAndStorageCache, fetch, put) && Escapes(MemoryAndStorageCache, second) ==>
      LoadImageStream(Some(MemoryAndStorageCache), Some(uri), first, fetch, put, second) == Throws(second.copy.error)
    ensures forall m: CacheMode :: m != MemoryAndStorageCache ==>
      LoadImageStream(Some(m), Some(uri), first, fetch, put, second).Ok?
  {
    forall m: CacheMode | m != MemoryAndStorageCache
      ensures LoadImageStream(Some(m), Some(uri), first, fetch, put, second).Ok?
    {
      assert !Escapes(m, first) && !Escapes(m, second);
    }
  }

  /** A download that yields a null stream gives null, and nothing is written
      to any tier after it. */
  lemma NullFetchWritesNothing(mode: CacheMode, uri: Uri, first: Tiers, put: Outcome, second: Tiers)
    requires !Hit(mode, first)
    ensures var r := LoadImageStream(Some(mode), Some(uri), first, NullStream, put, second);
      && r.Ok? && r.value.stream.None?
      && r.value.events[|r.value.events| - 1] == FetchNetwork
      && (forall i :: 0 <= i < |r.value.events| ==> !r.value.events[i].ScheduleSave?)
  {
    var cached := Lookup(mode, first);
    assert forall i :: 0 <= i < |cached.events| ==> IsCacheRead(cached.events[i]);
  }

  /** A successful download whose memory write (if any) completes is
      returned; memory gets it iff the mode has a memory tier, and a storage
      save is scheduled iff the mode has a storage tier and the URI is http
      or https. When the memory write throws, the outcome is the re-check's. */
  lemma FetchedWritesByMode(mode: CacheMode, uri: Uri, first: Tiers, d: Bytes, put: Outcome, second: Tiers)
    requires !Hit(mode, first)
    ensures var r := LoadImageStream(Some(mode), Some(uri), first, Fetched(d), put, second);
      && (!(UsesMemory(mode) && put.Raised?) ==>
            && r.Ok?
            && r.value.stream == Some(d)
            && (ScheduleSave(d) in r.value.events <==> UsesStorage(mode) && IsWeb(uri))
            && (PutMemory(d) in r.value.events <==> UsesMemory(mode)))
      && (UsesMemory(mode) && put.Raised? ==> (r.Throws? <==> Escapes(mode, second)))
  {
    var r := LoadImageStream(Some(mode), Some(uri), first, Fetched(d), put, second);
    var cached := Lookup(mode, first);
    var fetched := Download(mode, uri, Fetched(d), put, second);
    if !(UsesMemory(mode) && put.Raised?) {
      assert r.value.events == cached.events + fetched.events;
      assert PutMemory(d) !in cached.events by {
        if mode != NoCache {
          assert !Copies(mode, first);
        }
      }
      assert ScheduleSave(d) !in cached.events by {
        forall i | 0 <= i < |cached.events| ensures cached.events[i] != ScheduleSave(d) {
          assert IsCacheRead(cached.events[i]);
        }
      }
    }
  }

  /** When the download throws, the tiers are consulted once more. Unless the
      copy into memory of that re-check throws (and escapes), their answer,
      possibly null, is the result; nothing is written to storage. */
  lemma FaultRechecksOnce(mode: CacheMode, uri: Uri, first: Tiers, put: Outcome, second: Tiers)
    requires !Hit(mode, first)
    ensures var r := LoadImageStream(Some(mode), Some(uri), first, Faulted, put, second);
      && (r.Throws? <==> Escapes(mode, second))
      && (r.Throws? ==> r.error == second.copy.error)
      && (r.Ok? ==>
            && (r.value.stream.Some? <==> Hit(mode, second))
            && (forall i :: 0 <= i < |r.value.events| ==> !r.value.events[i].ScheduleSave?))
  {
    var r := LoadImageStream(Some(mode), Some(uri), first, Faulted, put, second);
    var cached := Lookup(mode, first);
    var fetched := Download(mode, uri, Faulted, put, second);
    if r.Ok? {
      assert r.value.events == cached.events + fetched.events;
      forall i | 0 <= i < |r.value.events| ensures !r.value.events[i].ScheduleSave? {
        if i < |cached.events| {
          assert IsCacheRead(cached.events[i]);
        } else if i > |cached.events| {
          assert IsCacheRead(fetched.events[i - |cached.events|]);
        }
      }
    }
  }

  /** A successful download whose memory write throws is not returned: the
      storage save is skipped and the tiers are consulted once more, so the
      result is null unless they now hit (a memory cache that cannot hold
      anything, say, gives null on a memory-only configuration), and an
      exception from the re-check's own copy into memory escapes. */
  lemma FailedMemoryPutRechecks(mode: CacheMode, uri: Uri, first: Tiers, d: Bytes, e: Exception, second: Tiers)
    requires !Hit(mode, first) && UsesMemory(mode)
    ensures var r := LoadImageStream(Some(mode), Some(uri), first, Fetched(d), Raised(e), second);
      && (r.Throws? <==> Escapes(mode, second))
      && (r.Throws? ==> r.error == second.copy.error)
      && (r.Ok? ==>
            && (r.value.stream.Some? <==> Hit(mode, second))
            && PutMemory(d) in r.value.events
            && (forall i :: 0 <= i < |r.value.events| ==> !r.value.events[i].ScheduleSave?))
  {
    var r := LoadImageStream(Some(mode), Some(uri), first, Fetched(d), Raised(e), second);
    var cached := Lookup(mode, first);
    var fetched := Download(mode, uri, Fetched(d), Raised(e), second);
    if r.Ok? {
      assert r.value.events == cached.events + fetched.events;
      assert r.value.events[|cached.events| + 1] == PutMemory(d);
      forall i | 0 <= i < |r.value.events| ensures !r.value.events[i].ScheduleSave? {
        if i < |cached.events| {
          assert IsCacheRead(cached.events[i]);
        } else if i > |cached.events| {
          assert IsCacheRead(fetched.events[i - |cached.events|]);
        }
      }
    }
  }
}
