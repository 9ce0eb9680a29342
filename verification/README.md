# ImageLib.UWP decision logic in Dafny

ImageLib.UWP loads images for Universal Windows apps. It goes through a
memory cache and a storage cache before it uses the network. It sniffs a
downloaded stream's header to choose a decoder: GIF, WebP, or the platform
bitmap. It then shows the result in a XAML `Image` control, either as a
still frame or as a timer- or storyboard-driven animation. The repository
ships two generations of the library side by side, `ImageLib` and
`ImageLib.Core`, plus GIF and WebP decoder projects.

This project models the library's decisions, apart from the platform. Each
part is a pure state machine over immutable datatypes:

- **In-memory caches.** The newer first-writer-wins LRU cache (`LruCache`),
  the older evict-then-insert one (`LegacyLruCache`), the byte-budgeted
  subclass (`LruMemoryCache`), and the ten-entry weak URI table
  (`ImagingCache`). Each is a dictionary plus a recency list.
- **Storage caches.** These run over an abstract folder: a map from path to
  (bytes, created, modified) plus the set of paths held open elsewhere.
  - `StorageCacheBase` covers construction, path joining, save, load,
    existence and lifetime.
  - `FolderCleanup` is the recursive best-effort clean-up.
  - `UnlimitedStorageCache` saves without ever evicting.
  - `LimitedStorageCache` has a byte counter and a timestamp dictionary.
    It evicts oldest-first before each save.
- **`ImageLoader`.** Which cache tiers are consulted and written for each
  `CacheMode`, and in what order. It records the calls into the tiers and
  the network as an event log.
- **Configuration.** Both `ImageConfig` classes (`LegacyImageConfig`,
  `CoreImageConfig`), sharing the order-preserving de-duplicated decoder
  registration (`DecoderRegistry`).
- **Format sniffing.** The GIF signature (GIF89a, section 17 "Header") and
  the WebP signature (RFC 9649, section 2.4 "RIFF Header") are in
  `Signatures`. They are checked on platform buffers (`ImageFormat`) and
  on streams (`ImageHelper`). `ImageHelper` also gives the file name the
  save helper picks.
- **Decoders.**
  - Both `DefaultDecoder`s and the managed WebP decoder (`decoders.dfy`).
    The two `DefaultDecoder`s share their bitmap handling
    (`BitmapImageDecoder`), which both generations write the same way.
  - The native C++ `WebPDecoder` (`NativeWebPDecoder`) with its tick
    state machine.
  - `GifDecoder`: the delay rule (GIF89a section 23, Graphic Control
    Extension), the disposal rule, the `NETSCAPE2.0` loop count (GIF89a
    section 26, Application Extension), and its tick state machine.
- **Showing results.** The storyboard `ImageAnimation`, the
  decoder-dispatching `ImagePresenter`, and `ImagePackage`.

Platform effects become parameters rather than code:

- the clock: an integer number of milliseconds, or a tick count;
- the network fetch's outcome;
- whether a file copy completes;
- which weak targets are still alive;
- what a decoder decodes;
- the cache-name generator: an uninterpreted total function of the key.

Null is `None`. An exception the code lets escape is a `Throws`/`Raised`
result naming the exception type.

The source files come from drifting versions of the library. Each file is
modelled as it stands. Where the documented behaviour and the code
disagree, the model follows the code:

- `ImagePresenter` takes the first decoder whose format test accepts the
  header. It does not pick the decoder with the highest priority.
- `InternalSaveAsync` reports `false` even after a successful save.

## Model

| member | source | states |
|---|---|---|
| LruCache.Create | ImageLib.Core/Cache/Memory/LRUCache.cs:25-28 | A new cache is empty, has no stale keys, and keeps the requested capacity. |
| LruCache.TryGetValue | ImageLib.Core/Cache/Memory/LRUCache.cs:80-95 | A hit returns the stored value and moves exactly that key to the most-recently-used end; the relative order of the other keys and the dictionary are untouched. A miss returns nothing and changes nothing. A key left stale by `Remove` makes the unlink throw `InvalidOperationException`. |
| LruCache.PromoteKeepsCoherent | ImageLib.Core/Cache/Memory/LRUCache.cs:85-90 | Moving a listed key to the most-recent end keeps dictionary and list holding the same keys. |
| LruCache.Index | ImageLib.Core/Cache/Memory/LRUCache.cs:30-39 | The indexer gives the stored value (with the same promotion as a lookup) exactly when the key is listed, and `KeyNotFoundException` on a miss. |
| LruCache.ContainsKey | ImageLib.Core/Cache/Memory/LRUCache.cs:41-45 | Answers true exactly for listed keys and false exactly for absent ones; a positive answer also makes the key most recent. |
| LruCache.RemoveFirst | ImageLib.Core/Cache/Memory/LRUCache.cs:124-139 | Fails, always with `ArgumentNullException`, exactly on an empty list; otherwise removes the least-recently-used key from both list and dictionary and leaves every other value in place. |
| LruCache.Put | ImageLib.Core/Cache/Memory/LRUCache.cs:63-78 | A key already in the dictionary (stale or not) is ignored. A new key is stored with its value as most recent; below capacity nothing else changes, at capacity exactly the least-recently-used entry is evicted first. |
| LruCache.Remove | ImageLib.Core/Cache/Memory/LRUCache.cs:115-122 | Unlinks a listed key from the recency list, leaving the other keys in their order, but keeps it and its value in the dictionary; an absent key is a no-op; a stale key throws. |
| LruCache.Clear | ImageLib.Core/Cache/Memory/LRUCache.cs:97-101 | Empties dictionary and list, keeping the capacity. The older cache's `Clear` (ImageLib/Cache/Memory/CacheImpl/LRUCache.cs, lines 71-75) is the same. |
| LruCache.PutKeepsCount | ImageLib.Core/Cache/Memory/LRUCache.cs:106-113 | With capacity at least one, a `Put` never takes the entry count above the capacity. |
| LruCache.FirstWriterWins | ImageLib.Core/Cache/Memory/LRUCache.cs:63-70 | After `Put(k, v1)` of a new key, `Put(k, v2)` changes nothing and a lookup returns `v1`. |
| LruCache.RemovedKeyBlocksPut | ImageLib.Core/Cache/Memory/LRUCache.cs:115-122 | After `Remove(k)`, putting `k` again is still ignored and looking it up throws. |
| LruCache.PutNewKey | ImageLib.Core/Cache/Memory/LRUCache.cs:63-78 | A new key put into a coherent cache within capacity leaves the list equal to the last `capacity` keys of the old list followed by the new key. |
| LruCache.PutAllKeepsMostRecent | ImageLib.Core/Cache/Memory/LRUCache.cs:63-78 | After any sequence of puts of distinct new keys, the cache holds exactly the `capacity` most recently put keys, in recency order. |
| LegacyLruCache.TryGetValue | ImageLib/Cache/Memory/CacheImpl/LRUCache.cs:54-69 | A hit returns the value and makes the key most recent, keeping the others in order; a miss returns nothing and changes nothing. |
| LegacyLruCache.RemoveFirst | ImageLib/Cache/Memory/CacheImpl/LRUCache.cs:77-84 | Throws `InvalidOperationException` exactly on an empty list; otherwise the head leaves both the list and the dictionary. |
| LegacyLruCache.Put | ImageLib/Cache/Memory/CacheImpl/LRUCache.cs:38-52 | A full cache first evicts its head whatever the key; a fresh key is then appended as most recent with its value. A full cache with an empty list throws and changes nothing. |
| LegacyLruCache.LookupAgreesWithCore | ImageLib/Cache/Memory/CacheImpl/LRUCache.cs:54-69 | On a cache without stale keys, the older lookup returns what the newer one does and reorders the list the same way. |
| LegacyLruCache.FreshPutKeepsCount | ImageLib/Cache/Memory/CacheImpl/LRUCache.cs:38-52 | With capacity at least one, putting fresh keys keeps the cache coherent and never above capacity. |
| LegacyLruCache.DuplicatePutCorruptsList | ImageLib/Cache/Memory/CacheImpl/LRUCache.cs:38-52 | A duplicate put of a key that is not evicted first throws `ArgumentException` after appending, leaving the key listed twice. |
| LegacyLruCache.FullHeadPutReplaces | ImageLib/Cache/Memory/CacheImpl/LRUCache.cs:42-50 | Re-putting the head key of a full cache succeeds and replaces its value, unlike the newer cache. |
| LruMemoryCache.Create | ImageLib/Cache/Memory/CacheImpl/LRUMemoryCache.cs:13-16 | A new byte-budgeted cache is empty with running total 0, so the total equals the size of its entries. |
| LruMemoryCache.CreateDefault | ImageLib/Cache/Memory/CacheImpl/LRUMemoryCache.cs:13 | With the capacity left out, the new cache is empty with total 0 and a budget of one gibibyte, 1073741824 bytes. |
| LruMemoryCache.Put | ImageLib/Cache/Memory/CacheImpl/LRUMemoryCache.cs:18-33 | A present key changes nothing. A new value is stored as most recent after evicting the least-recently-used entries one by one; the total grows by the new size and drops by each evicted size; afterwards the total is within budget or the new value is alone. The dictionary afterwards is the old one without exactly the evicted keys, plus the new value; every retained value is unchanged. The total stays equal to the size of the listed entries. |
| LruMemoryCache.LookupKeepsAccounting | ImageLib.Core/Cache/Memory/LRUCache.cs:80-95 | A lookup only reorders the list, so the running total stays exact. |
| LruMemoryCache.RemoveLeavesTotalStale | ImageLib.Core/Cache/Memory/LRUCache.cs:115-122 | The base `Remove` bypasses the size hook, so the running total still counts the removed value. |
| LruMemoryCache.ClearLeavesTotalStale | ImageLib.Core/Cache/Memory/LRUCache.cs:97-101 | The base `Clear` empties a non-empty cache but leaves a positive running total over nothing. |
| ImagingCache.Purge | ImageLib/Cache/Memory/ImagingCache.cs:76-92 | Keeps exactly the entries whose weak target is alive, unchanged. |
| ImagingCache.PurgeShrinks | ImageLib/Cache/Memory/ImagingCache.cs:76-97 | Purging removes at least one entry exactly when some target is dead. |
| ImagingCache.Add | ImageLib/Cache/Memory/ImagingCache.cs:65-101 | A null URI throws; a present URI is a no-op; with room the entry is added; when full, dead entries go first and the new entry is added exactly when one went. The table never grows beyond 10. |
| ImagingCache.Remove | ImageLib/Cache/Memory/ImagingCache.cs:104-114 | Removes only the given URI (no-op when absent); a null URI throws. |
| ImagingCache.Get | ImageLib/Cache/Memory/ImagingCache.cs:43-62 | Returns the target exactly when the URI is present, its target is alive and of the requested type, changing nothing; otherwise a present entry is removed and null returned; a null or absent URI changes nothing. |
| ImagingCache.AddsStayBounded | ImageLib/Cache/Memory/ImagingCache.cs:94-99 | Any sequence of adds keeps the table within 10 entries. |
| ImagingCache.AddThenGet | ImageLib/Cache/Memory/ImagingCache.cs:38-62 | An object added under a new URI while there is room is returned by a later `Get` of a type it has, as long as it is alive. |
| Paths.Combine | ImageLib/Cache/Storage/StorageCacheBase.cs:151-154 | Joining follows `Path.Combine`: an empty part yields the other, a rooted second part wins, otherwise the result starts with the directory and ends with the name. |
| Paths.CombineNotBare | ImageLib/Cache/Storage/StorageCacheBase.cs:151-154 | A non-empty directory joined with a non-empty relative name is never the bare name. |
| Paths.CombineTwiceRooted | ImageLib/Cache/Storage/StorageCacheBase.cs:151-154 | Under a rooted directory, joining an already joined path changes nothing. |
| StorageCacheBase.New | ImageLib/Cache/Storage/StorageCacheBase.cs:40-69 | A null folder, a null or empty directory and a null name generator are rejected in that order with their exception types; otherwise the cache holds exactly the given settings. |
| StorageCacheBase.Write | ImageLib/Cache/Storage/StorageCacheBase.cs:88-115 | Creating the file fails exactly when it is held open; a completed copy stores the bytes stamped with the current time; a failed copy deletes the file. |
| StorageCacheBase.InternalSave | ImageLib/Cache/Storage/StorageCacheBase.cs:88-115 | The save has `Write`'s effect on the folder and reports `false` on every path. |
| StorageCacheBase.InternalSaveFixed | ImageLib/Cache/Storage/StorageCacheBase.cs:88-115 | The corrected save has the same effect and reports true exactly when the file now holds the saved bytes. |
| StorageCacheBase.Load | ImageLib/Cache/Storage/StorageCacheBase.cs:122-144 | Returns the stored bytes exactly when the key's file exists and can be opened, and null otherwise, never throwing. |
| StorageCacheBase.Exists | ImageLib/Cache/Storage/StorageCacheBase.cs:161-175 | True exactly when the key's file exists. |
| StorageCacheBase.ExistsAndAlive | ImageLib/Cache/Storage/StorageCacheBase.cs:182-198 | False for a missing file; true for any existing file when the lifetime is not positive; otherwise true exactly when the file was created less than one lifetime ago. |
| StorageCacheBase.CompletedSaveReportsFailure | ImageLib/Cache/Storage/StorageCacheBase.cs:88-115 | As written, a save whose copy completes leaves the exact bytes in the file yet reports failure. |
| StorageCacheBase.FixedSaveReportsOutcome | ImageLib/Cache/Storage/StorageCacheBase.cs:88-115 | Corrected, a save reports success exactly when the copy completed. |
| StorageCacheBase.FailedCopyLeavesNoFile | ImageLib/Cache/Storage/StorageCacheBase.cs:94-111 | A failed copy leaves no partial file and every other file untouched. |
| StorageCacheBase.NewDefault | ImageLib/Cache/Storage/StorageCacheBase.cs:17 | With the lifetime argument left out, validation is unchanged and an accepted cache has a lifetime of one week, 604800000 ms. |
| StorageCacheBase.SavedFileAliveForLifetime | ImageLib/Cache/Storage/StorageCacheBase.cs:182-198 | A freshly saved file is alive exactly until one lifetime has passed since the save. |
| FolderCleanup.Clean | ImageLib/Cache/Storage/StorageCacheBase.cs:219-258 | An unlistable folder is untouched; otherwise exactly the locked files survive, in order, and exactly the recursively cleaned subfolders that could not be deleted remain. |
| FolderCleanup.LockedFiles | ImageLib/Cache/Storage/StorageCacheBase.cs:225-236 | The files left are exactly the locked ones. |
| FolderCleanup.Survivors | ImageLib/Cache/Storage/StorageCacheBase.cs:238-252 | The subfolders left are exactly those that are locked or kept something inside. |
| FolderCleanup.CleanEmpties | ImageLib/Cache/Storage/StorageCacheBase.cs:219-258 | With nothing locked and every folder listable, the folder ends up empty. |
| FolderCleanup.CleanIdempotent | ImageLib/Cache/Storage/StorageCacheBase.cs:219-258 | Cleaning twice is the same as cleaning once. |
| UnlimitedStorageCache.SaveAsync | ImageLib.Core/Cache/Storage/CacheImpl/UnlimitedStorageCache.cs:35-38 | The result is the base save's at the bare generated name; no other file is deleted or changed. |
| UnlimitedStorageCache.SaveAsyncFixed | ImageLib.Core/Cache/Storage/CacheImpl/UnlimitedStorageCache.cs:29-38 | Corrected, the base save at the path loads read, touching no other file. |
| UnlimitedStorageCache.SaveThenLoadMisses | ImageLib.Core/Cache/Storage/CacheImpl/UnlimitedStorageCache.cs:35-38 | As written, with a non-empty directory and a relative name, a completed save reports failure and the next load of the same key finds nothing. |
| UnlimitedStorageCache.SaveThenLoadMissesExample | ImageLib.Core/Cache/Storage/CacheImpl/UnlimitedStorageCache.cs:35-38 | Directory `cache`, name `f`: the save writes `f` while loads read `cache\f`. |
| UnlimitedStorageCache.SaveThenLoadFixed | ImageLib.Core/Cache/Storage/CacheImpl/UnlimitedStorageCache.cs:29-38 | Corrected, a completed save reports success, loads back the same bytes, and never expires under the default lifetime of 0. |
| LimitedStorageCache.OldestIndex | ImageLib/Cache/Storage/CacheImpl/LimitedStorageCache.cs:126 | The chosen entry's timestamp is no later than any other, and it is the last such entry in enumeration order. |
| LimitedStorageCache.SetTime | ImageLib/Cache/Storage/CacheImpl/LimitedStorageCache.cs:77 | Indexer assignment overwrites an existing key in place or appends a new one, keeping keys unique. |
| LimitedStorageCache.RemoveKey | ImageLib/Cache/Storage/CacheImpl/LimitedStorageCache.cs:142 | Drops the entry with that key and keeps every other entry. |
| LimitedStorageCache.RemoveKeyFacts | ImageLib/Cache/Storage/CacheImpl/LimitedStorageCache.cs:142 | Removal keeps keys unique and shrinks the dictionary by one exactly when the key was present. |
| LimitedStorageCache.RemoveOldest | ImageLib/Cache/Storage/CacheImpl/LimitedStorageCache.cs:122-158 | Fails, changing nothing, exactly when there is no entry or the oldest entry's file is missing or held open; otherwise deletes that file and lowers the counter by its size. As written, the entry removed is keyed by the combined path rather than the chosen key. |
| LimitedStorageCache.Evict | ImageLib/Cache/Storage/CacheImpl/LimitedStorageCache.cs:65-71 | The loop deletes distinct existing files, lowers the counter by exactly their sizes, and ends with the new file fitting or the next removal failing. Nothing is deleted when the file already fits. Each deletion is the removal of the oldest entry's file, made while the file still did not fit, in eviction order. |
| LimitedStorageCache.EvictedInOrderExtends | ImageLib/Cache/Storage/CacheImpl/LimitedStorageCache.cs:65-71 | A removal made while still over the limit, from the state the earlier removals left, extends the eviction order. |
| LimitedStorageCache.EvictedInOrderFirst | ImageLib/Cache/Storage/CacheImpl/LimitedStorageCache.cs:65-130 | In eviction order nothing is deleted when the file fits, and the first deletion is the file of the entry with the oldest timestamp. |
| LimitedStorageCache.SaveAsync | ImageLib/Cache/Storage/CacheImpl/LimitedStorageCache.cs:60-82 | Evicts, then saves. The counter and timestamps change only after a reported success, which as written never happens. Corrected, a completed save stores the bytes, counts them and records the key, so a load returns the bytes and the file is alive. Each evicted file is deleted once and is gone afterwards unless it was the target. No file but the target is created or changed. Without a success no key is added, and with no eviction the timestamps are unchanged. Eviction happens only while the new file does not fit, oldest entry first, and stops when it fits or a removal fails. |
| LimitedStorageCache.BeginCount | ImageLib/Cache/Storage/CacheImpl/LimitedStorageCache.cs:84-117 | The startup scan adds every listed file's size to the counter and registers every bare file name, keeping earlier entries and adding only stamps of scanned files; an unreadable folder changes nothing. A file whose properties cannot be read ends the scan: the files before it stay registered and the counter is unchanged. |
| LimitedStorageCache.Store | ImageLib/Cache/Storage/CacheImpl/LimitedStorageCache.cs:73-81 | After eviction, the save succeeds exactly for the corrected save of a completely copied, unlocked file; only then is the size counted and a timestamp recorded, under the bare name when corrected; otherwise the cache state is unchanged. |
| LimitedStorageCache.AddNew | ImageLib/Cache/Storage/CacheImpl/LimitedStorageCache.cs:105-113 | `Dictionary.Add` of a present name throws inside the scan's catch and changes nothing; a new name is appended with its time. |
| LimitedStorageCache.Register | ImageLib/Cache/Storage/CacheImpl/LimitedStorageCache.cs:101-114 | After the scan every listed name is a key, earlier entries are kept, and every new entry is one of the listing's stamps. |
| LimitedStorageCache.New | ImageLib/Cache/Storage/CacheImpl/LimitedStorageCache.cs:52-58 | Fails exactly as the base constructor does; otherwise the counter starts at -1 and then counts the scanned files; a properties fault during the scan leaves it at -1 with at most the scanned files registered. |
| LimitedStorageCache.AsWrittenRemovalSticks | ImageLib/Cache/Storage/CacheImpl/LimitedStorageCache.cs:126-145 | As written, the oldest entry stays in the dictionary after its file is deleted, so the next removal picks it again and fails. |
| LimitedStorageCache.AsWrittenRemovalSticksExample | ImageLib/Cache/Storage/CacheImpl/LimitedStorageCache.cs:126-145 | With files `a` (older) and `b`, the first removal deletes `\cache\a` and the second fails although `\cache\b` is still there. |
| LimitedStorageCache.CorrectedRemovalAdvances | ImageLib/Cache/Storage/CacheImpl/LimitedStorageCache.cs:126-145 | Corrected, a successful removal takes the chosen key out, so the next removal targets the next oldest entry. |
| LimitedStorageCache.CorrectedRemovalExample | ImageLib/Cache/Storage/CacheImpl/LimitedStorageCache.cs:126-145 | Corrected, the same example evicts `a` and then `b`, and the counter ends at 0. |
| ImageLoader.LoadFromCache | ImageLib/ImageLoader.cs:182-213 | Memory is probed first when the mode has it; storage is probed on a memory miss and loaded only if the entry is alive. A non-null storage load is copied into memory only in `MemoryAndStorageCache` mode. An exception from that copy's `Put` escapes the lookup, and only then does the lookup throw. Otherwise the result is non-null exactly on a hit in a tier the mode uses. |
| ImageLoader.WritesAfterFetch | ImageLib/ImageLoader.cs:119-153 | After a download, memory is written exactly when the mode has memory, and a save is scheduled exactly when the mode has storage and the URI is http(s). |
| ImageLoader.CheckConfig | ImageLib/ImageLoader.cs:41-47 | Raises `InvalidOperationException` exactly when no configuration was initialized. |
| ImageLoader.Lookup | ImageLib/ImageLoader.cs:87-96 | The cache lookup touches only the mode's tiers. It throws exactly when the copy into memory throws, with that exception; otherwise it hits exactly when one of the tiers yields a stream. `NoCache` does nothing. |
| ImageLoader.Download | ImageLib/ImageLoader.cs:98-174 | Fetches first. A null stream ends with null. Fetched bytes are returned with the mode's writes. A faulted download, or a memory write that throws, leads to one more cache lookup. An exception from that lookup's copy into memory escapes; otherwise its answer is the result. |
| ImageLoader.LoadImageStream | ImageLib/ImageLoader.cs:77-175 | Throws `InvalidOperationException` without a configuration. A null URI gives null with no activity. Otherwise it throws exactly when the copy into memory throws, in the first lookup or in the re-check after a failed download, and the caller gets that copy's exception. Every call touches only tiers the mode permits. |
| ImageLoader.NoCacheOnlyFetches | ImageLib/ImageLoader.cs:98-156 | In `NoCache` mode the only activity is one network fetch, whatever it gives. |
| ImageLoader.CacheBeforeNetwork | ImageLib/ImageLoader.cs:77-175 | A configured load of a URI throws exactly when a copy into memory throws. When it returns, the network was used exactly when the first cache lookup missed, at most once, and only after every cache read of that lookup. |
| ImageLoader.MemoryHitReturnsAtOnce | ImageLib/ImageLoader.cs:184-193 | A memory hit is returned after the memory probe alone. |
| ImageLoader.StorageHitReturnsAtOnce | ImageLib/ImageLoader.cs:195-210 | In `MemoryAndStorageCache` mode, a live storage hit whose copy into memory throws ends the load with that exception. Otherwise the hit is returned without the network, copied to memory exactly in `MemoryAndStorageCache` mode, and read only after memory was probed. |
| ImageLoader.RaisingCopyEscapes | ImageLib/ImageLoader.cs:87-96 | A throwing copy into memory (:206) escapes the load, in the first lookup or in the re-check at :164-171, which is outside the try block. No other mode can throw from a lookup. |
| ImageLoader.NullFetchWritesNothing | ImageLib/ImageLoader.cs:101-106 | A null download gives null and nothing is saved after it. |
| ImageLoader.FetchedWritesByMode | ImageLib/ImageLoader.cs:119-155 | A successful download whose memory write completes is returned; memory gets it exactly when the mode has memory; a save is scheduled exactly when the mode has storage and the URI is http(s). When the memory write throws, the load throws exactly when the re-check's copy into memory does. |
| ImageLoader.FailedMemoryPutRechecks | ImageLib/ImageLoader.cs:121-171 | When the memory write of a downloaded stream throws, the save is skipped and the cache is looked up once more. The load throws exactly when that lookup's copy into memory throws. Otherwise the lookup decides the result, null on a miss. |
| ImageLoader.FaultRechecksOnce | ImageLib/ImageLoader.cs:157-171 | A faulted download is followed by one cache lookup. The load throws exactly when that lookup's copy into memory throws. Otherwise the lookup's hit decides the result, and nothing is saved. |
| Signatures.IsGifHeader | ImageLib.Gif/GifHelper.cs:5-19 | True exactly when the buffer has at least six bytes and starts with `GIF87a` or `GIF89a`. |
| Signatures.IsWebPHeader | ImageLib.Support/ImageFormat.cs:31-33 | True exactly when bytes 0-3 are `RIFF` and bytes 8-11 are `WEBP`, the size field being ignored. |
| Signatures.BothGifVersionsAccepted | ImageLib.Gif/GifHelper.cs:8-17 | Both the 87a and 89a headers are accepted whatever follows them. |
| Signatures.PrefixDecides | ImageLib.Gif/GifHelper.cs:5-19 | Only the first six bytes decide the GIF test, and only bytes 0-3 and 8-11 the WebP test. |
| Signatures.SignaturesExclusive | ImageLib.Support/ImageFormat.cs:7-35 | No buffer passes both the GIF and the WebP test. |
| ImageFormat.ReadPrefix | ImageLib.Support/ImageFormat.cs:9-13 | Reading `n` bytes throws exactly when fewer are available, and otherwise gives the first `n`. |
| ImageFormat.IsGif | ImageLib.Support/ImageFormat.cs:7-22 | Throws on fewer than 6 bytes; otherwise true exactly for a GIF signature. |
| ImageFormat.IsWebP | ImageLib.Support/ImageFormat.cs:24-35 | Throws on fewer than 12 bytes; otherwise true exactly for a WebP signature. |
| ImageFormat.SharedPrefixSameAnswer | ImageLib.Support/ImageFormat.cs:7-35 | Buffers that share the six- or twelve-byte prefix get the same answer. |
| ImageHelper.ReadHeader | ImageLib.Gif/ImageHelper.cs:11-16 | The header holds the stream's first bytes and zeros where the stream ran out. |
| ImageHelper.IsGifStream | ImageLib.Gif/ImageHelper.cs:9-18 | The stream is left at position 0, and the answer is whether its data starts with a GIF signature; short streams are never GIF. |
| ImageHelper.SaveName | ImageLib.Core/Helpers/ImageHelper.cs:43-48 | The name is the tick count's digits followed by `.gif` exactly for GIF bytes and `.jpg` otherwise. |
| ImageHelper.DigitsRoundTrip | ImageLib.Core/Helpers/ImageHelper.cs:48 | The tick count can be read back from the name's digits. |
| ImagePackage.New | ImageLib.Support/ImagePackage.cs:7-13 | Stores decoder, source, width and height as given. |
| ImagePackage.UpdateSource | ImageLib.Support/ImagePackage.cs:15-18 | Replaces the source and nothing else. |
| ImagePackage.Release | ImageLib.Support/ImagePackage.cs:23-28 | Drops decoder and source and keeps the dimensions. |
| ImagePackage.ReleaseForgetsSource | ImageLib.Support/ImagePackage.cs:15-28 | A released package is a new empty package of the same size, whatever source it held; releasing is idempotent. |
| DecoderRegistry.Register | ImageLib/ImageConfig.cs:100-107 | Appends a type only when absent, keeping the list duplicate-free. |
| DecoderRegistry.RegisterAllIsFirstOccurrences | ImageLib.Core/ImageConfig.cs:75-87 | Registering a sequence equals the old list followed by each new type at its first occurrence; the result is duplicate-free and holds exactly the old and the new types. |
| LegacyImageConfig.NewBuilder | ImageLib/ImageConfig.cs:72-84 | A new builder has mode `MemoryAndStorageCache`, logging off and no caches. |
| LegacyImageConfig.Initialize | ImageLib/ImageConfig.cs:22-33 | A null configuration throws `ArgumentException`; the first configuration stays in force and later ones are ignored; the decoder list is untouched. |
| LegacyImageConfig.FirstInitializeWins | ImageLib/ImageConfig.cs:28-32 | After two initializations the first configuration is in force. |
| LegacyImageConfig.AddDecoder | ImageLib/ImageConfig.cs:100-107 | Registers a decoder type once, in registration order. |
| LegacyImageConfig.AvailableDecoders | ImageLib/ImageConfig.cs:35-46 | One decoder per non-null registered type, exactly those types, in registration order. |
| LegacyImageConfig.CheckParams | ImageLib/ImageConfig.cs:115-127 | Passes exactly when a mode that needs memory has a memory cache and a mode that needs storage has a storage cache; otherwise `ArgumentException`. |
| LegacyImageConfig.Build | ImageLib/ImageConfig.cs:109-113 | Succeeds exactly when the parameters check, copying every builder field into the configuration. |
| LegacyImageConfig.BuiltConfigHasItsTiers | ImageLib/ImageConfig.cs:109-127 | A built configuration has an implementation for every tier its mode uses. |
| LegacyImageConfig.DefaultBuilderNeedsBothTiers | ImageLib/ImageConfig.cs:115-127 | The default builder builds exactly when both cache implementations are set. |
| CoreImageConfig.NewBuilder | ImageLib.Core/ImageConfig.cs:65-73 | A new builder has the new API on, logging off, no storage and no decoders. |
| CoreImageConfig.AddDecoder | ImageLib.Core/ImageConfig.cs:75-87 | Every type, `DefaultDecoder` included, is registered once in order; nothing else changes. |
| CoreImageConfig.NewApi | ImageLib.Core/ImageConfig.cs:89-93 | Sets the new-API flag and nothing else. |
| CoreImageConfig.LogEnabled | ImageLib.Core/ImageConfig.cs:111-115 | Sets the builder's logging flag and nothing else. |
| CoreImageConfig.LimitedStorageCache | ImageLib.Core/ImageConfig.cs:100-104 | Installs the constructed storage cache, or passes its constructor's exception on. |
| CoreImageConfig.Build | ImageLib.Core/ImageConfig.cs:118-122 | The mode is `NoCache` exactly without storage and `OnlyStorageCache` otherwise. `DefaultDecoder` is appended once unless already registered. The new-API flag is copied. The logging flag is not copied and stays false. |
| CoreImageConfig.LimitedStorageGivesOnlyStorage | ImageLib.Core/ImageConfig.cs:32-46 | A builder given a limited storage cache builds an `OnlyStorageCache` configuration with the new API on. |
| CoreImageConfig.BuildAddsDefaultOnce | ImageLib.Core/ImageConfig.cs:118-122 | Whatever the user registered, the built list is duplicate-free and contains `DefaultDecoder`, last if the user did not add it; logging stays off. |
| CoreImageConfig.BuildTwiceSameDecoders | ImageLib.Core/ImageConfig.cs:75-87 | Building twice from the same builder registers the default decoder only once. |
| ImageControl.ShowIfCurrent | ImageLib.Core/DefaultDecoder.cs:84-91 | The source is replaced exactly when the control's `Tag` names the requested URI; otherwise the control is unchanged. |
| ImageControl.SupersededLoadNotShown | ImageLib.Core/DefaultDecoder.cs:84-91 | Of two loads into one control, the one its `Tag` names is shown whatever order they finish in. |
| LegacyDefaultDecoder.GetPriority | ImageLib/IO/DefaultDecoder.cs:43-57 | Records whether the header is GIF and scores `int.MaxValue` exactly for a GIF with both new-API flags, otherwise 0. |
| LegacyDefaultDecoder.PriorityNeverNegative | ImageLib/IO/DefaultDecoder.cs:43-57 | The score is never the negative "unsupported" value. |
| BitmapImageDecoder.InitializeAsync | ImageLib/IO/DefaultDecoder.cs:27-41 | Keeps the new bitmap, shows it only if the load is current, and returns a package of the decoder, the bitmap and its size. The second generation's `InitializeAsync` (ImageLib.Core/DefaultDecoder.cs, lines 78-97) does the same. |
| BitmapImageDecoder.RecreateSurfaces | ImageLib/IO/DefaultDecoder.cs:60-63 | Always null, in both generations. |
| BitmapImageDecoder.SetPlaying | ImageLib/IO/DefaultDecoder.cs:69-83 | Starts or stops the bitmap only on a platform that can animate, and dereferences null without a bitmap. The second generation's `Start` and `Stop` (ImageLib.Core/DefaultDecoder.cs, lines 49-63) are the same. |
| BitmapImageDecoder.StartStopAfterInitialize | ImageLib/IO/DefaultDecoder.cs:27-83 | Once a bitmap is created, `Start` cannot fail and `Stop` undoes it. |
| CoreDefaultDecoder.GetPriority | ImageLib.Core/DefaultDecoder.cs:65-76 | A null header scores 0; a short buffer throws; otherwise `int.MaxValue` exactly for a GIF with both new-API flags, else 0. |
| CoreDefaultDecoder.Dispose | ImageLib.Core/DefaultDecoder.cs:34-47 | Always drops the bitmap; stops it exactly when the platform can animate and it is an animated bitmap that is playing. |
| CoreDefaultDecoder.StartAfterDispose | ImageLib.Core/DefaultDecoder.cs:34-63 | Once disposed, `Start` throws on a platform that can animate and does nothing on one that cannot. |
| ManagedWebpDecoder.IsSupportedFileFormat | ImageLib.Webp/WebpDecoder.cs:67-72 | True exactly for a non-null header with a WebP signature; null and short headers are refused. |
| ManagedWebpDecoder.InitializeAsync | ImageLib.Webp/WebpDecoder.cs:47-64 | Unreadable bytes dereference null and leave the control unchanged; otherwise the control shows the bitmap and the package holds it with the reported size. |
| ManagedWebpDecoder.SupersededWebPLoadShown | ImageLib.Webp/WebpDecoder.cs:57-60 | Unlike the other decoders, a superseded WebP load still replaces the control's source. |
| ManagedWebpDecoder.RecreateSurfaces | ImageLib.Webp/WebpDecoder.cs:74-77 | Always null. |
| GifDecoder.IsSupportedFileFormat | ImageLib.Gif/GifDecoder.cs:42-51 | True exactly for a non-null header with a GIF signature. |
| GifDecoder.LoopCountField | ImageLib.Gif/GifDecoder.cs:439-441 | The loop count is the little-endian 16-bit value of the two bytes. |
| GifDecoder.LoopingOf | ImageLib.Gif/GifDecoder.cs:417-449 | Looping data is read exactly from a `NETSCAPE2.0` or `ANIMEXTS1.0` extension with at least four data bytes: animated iff byte 1 is 1, loop count from bytes 2-3. |
| GifDecoder.RetrieveImageProperties | ImageLib.Gif/GifDecoder.cs:399-452 | Keeps the screen size; without a recognised extension the image is animated and loops forever. |
| GifDecoder.DelayMs | ImageLib.Gif/GifDecoder.cs:472-493 | A stored delay of 3 or more hundredths becomes ten times that in ms, 0 becomes 100 ms, and 1 or 2 stay at 30 ms; never below 30 ms. |
| GifDecoder.RetrieveFrameProperties | ImageLib.Gif/GifDecoder.cs:454-519 | A frame requests disposal exactly for disposal value 2; a missing delay keeps 30 ms; a present one follows `DelayMs`. |
| GifDecoder.DecodeAsync | ImageLib.Gif/GifDecoder.cs:87-104 | The first call decodes and caches the pixels; later calls return the cache. |
| GifDecoder.ReleasePixels | ImageLib.Gif/GifDecoder.cs:106-109 | Drops the pixels but keeps the decoded flag. |
| GifDecoder.ReleasedFrameDecodesToNull | ImageLib.Gif/GifDecoder.cs:87-109 | Decoding after a release returns null instead of decoding again. |
| GifDecoder.New | ImageLib.Gif/GifDecoder.cs:116-132 | A new decoder is uninitialized and not animating, with no timer and no frames. |
| GifDecoder.InitializeAsync | ImageLib.Gif/GifDecoder.cs:135-167 | Stores the image and frame properties with undecoded frames and marks the decoder initialized, leaving the play state alone. |
| GifDecoder.Start | ImageLib.Gif/GifDecoder.cs:169-186 | Only an initialized decoder that is not animating starts: index, loops and dispose flag reset, timer running at interval 0. Otherwise nothing changes. |
| GifDecoder.Stop | ImageLib.Gif/GifDecoder.cs:200-204 | Stops the timer and clears the animating flag. |
| GifDecoder.Tick | ImageLib.Gif/GifDecoder.cs:220-273 | A tick draws the current frame, clearing first exactly after a disposing frame or at frame 0, and advances the index with wrap-around and loop counting. It re-arms at the frame's delay exactly while the image is animated and loops remain. It is inert without a running timer, initialization or frames. |
| GifDecoder.RecreateSurfaces | ImageLib.Gif/GifDecoder.cs:307-341 | Returns a surface exactly with a canvas, and, since `Start` is a no-op while animating, leaves the play state as it was. |
| GifDecoder.Dispose | ImageLib.Gif/GifDecoder.cs:526-553 | Uninitializes, stops, and drops canvas, frames and timer. |
| GifDecoder.DisposedIsInert | ImageLib.Gif/GifDecoder.cs:532-553 | After `Dispose`, neither `Start` nor a tick changes anything. |
| GifDecoder.TickAdvances | ImageLib.Gif/GifDecoder.cs:229-240 | Each effective tick raises loops times frames plus index by exactly one, keeping the index in range. |
| GifDecoder.TicksClosedForm | ImageLib.Gif/GifDecoder.cs:235-254 | With `n` frames and loop count `l` > 0, after `k` ≤ `l·n` ticks the count is `k`, and the timer runs exactly while `k` < `l·n`. |
| GifDecoder.EndsOnLastFrame | ImageLib.Gif/GifDecoder.cs:235-254 | The tick that stops the timer draws the last frame, and the decoder still reports itself animating. |
| GifDecoder.TicksStopAtLimit | ImageLib.Gif/GifDecoder.cs:246-254 | After `l·n` ticks further ticks change nothing. |
| GifDecoder.LoopForever | ImageLib.Gif/GifDecoder.cs:246-250 | With loop count 0 the timer never stops and the index cycles through the frames. |
| GifDecoder.StillImageStopsAfterFirstTick | ImageLib.Gif/GifDecoder.cs:246-254 | A non-animated image draws its first frame, clearing first, and then stops for good. |
| NativeWebPDecoder.New | ImageLib.WebP/WebPDecoder.cpp:17-19 | A new decoder is uninitialized and not animating, with no timer and no image. |
| NativeWebPDecoder.GetPriority | ImageLib.WebP/WebPDecoder.cpp:21-24 | 1 exactly for a WebP header, -1 otherwise; a buffer shorter than 12 bytes raises. |
| NativeWebPDecoder.InitializeAsync | ImageLib.WebP/WebPDecoder.cpp:94-167 | Marks the decoder initialized and keeps the control. It returns a package exactly for a still image or an animation with frames. The bitmap is shown only when both URIs are non-null and equal. |
| NativeWebPDecoder.ShowOnDispatcher | ImageLib.WebP/WebPDecoder.cpp:148-153 | A null `Tag` or source URI raises; otherwise the bitmap is shown exactly when the URIs are equal. |
| NativeWebPDecoder.Start | ImageLib.WebP/WebPDecoder.cpp:26-41 | Only an initialized decoder that is not animating starts, resetting index and loops with interval 0. |
| NativeWebPDecoder.Stop | ImageLib.WebP/WebPDecoder.cpp:44-54 | A no-op unless animating; otherwise stops the timer and clears animating. |
| NativeWebPDecoder.OnTick | ImageLib.WebP/WebPDecoder.cpp:56-87 | The index advances, wrapping with a loop count, before the frame is chosen. The frame is shown. The timer re-arms at its duration exactly while the loop count is 0 or loops remain. A tick is inert when stopped, uninitialized or without an image, and it raises the platform's out-of-range error (`E_BOUNDS`) on an empty frame list. |
| NativeWebPDecoder.TickAdvances | ImageLib.WebP/WebPDecoder.cpp:64-83 | Each effective tick raises loops times frames plus index by exactly one, keeping the index in range. |
| NativeWebPDecoder.TicksClosedForm | ImageLib.WebP/WebPDecoder.cpp:64-83 | With `n` frames and loop count `l` > 0, after `k` ≤ `l·n` ticks the count is `k`, and the timer runs exactly while `k` < `l·n`. |
| NativeWebPDecoder.EndsOnFirstFrame | ImageLib.WebP/WebPDecoder.cpp:64-85 | Unlike the GIF decoder, the final tick shows the first frame again, with animating still set. |
| NativeWebPDecoder.TickIgnoresTag | ImageLib.WebP/WebPDecoder.cpp:85 | A tick shows its frame whatever the control's `Tag` says. |
| ImageAnimation.New | ImageLib/ImageAnimation.cs:14-27 | A new animation is stopped with an empty storyboard. |
| ImageAnimation.Begin | ImageLib/ImageAnimation.cs:67-81 | A no-op when playing; otherwise plays exactly when the storyboard has children, else settles stopped. |
| ImageAnimation.Resume | ImageLib/ImageAnimation.cs:83-97 | Same rule as `Begin`, resuming the storyboard. |
| ImageAnimation.Pause | ImageLib/ImageAnimation.cs:99-114 | A no-op when paused; otherwise pauses exactly when there are children, else settles stopped. |
| ImageAnimation.Stop | ImageLib/ImageAnimation.cs:116-123 | Always ends stopped, sending a stop only to a non-empty storyboard that was not stopped. |
| ImageAnimation.Clear | ImageLib/ImageAnimation.cs:128-140 | Ends stopped with no children. |
| ImageAnimation.KeyFrames | ImageLib/ImageAnimation.cs:42-56 | Key frame `i` shows frame `i`'s bitmap at the sum of the delays of frames 0..i-1. |
| ImageAnimation.KeyTimesAscend | ImageLib/ImageAnimation.cs:42-56 | With non-negative delays the first key time is 0 and key times never decrease. |
| ImageAnimation.SetAnimation | ImageLib/ImageAnimation.cs:29-64 | Clears, ends stopped, and adds one key-frame animation of the target holding every frame. As written, a null list raises and an empty list still adds an animation; corrected, both leave the storyboard empty. |
| ImageAnimation.OperationsKeepValid | ImageLib/ImageAnimation.cs:67-140 | Every operation keeps the invariant that playing or paused implies at least one child. |
| ImageAnimation.NothingToPlay | ImageLib/ImageAnimation.cs:67-123 | Without children `Begin` does not start playing, and stopping twice equals stopping once. |
| ImageAnimation.EmptyFramesPlayNothing | ImageLib/ImageAnimation.cs:29-64 | As written, an empty frame list makes `Begin` report playing for an animation with no key frames. |
| ImageAnimation.NullFramesRaise | ImageLib/ImageAnimation.cs:33 | As written, a null frame list raises `NullReferenceException`. |
| ImageAnimation.CorrectedPlaysOnlyFrames | ImageLib/ImageAnimation.cs:29-64 | Corrected, nothing raises, every child has key frames, and `Begin` plays exactly when there were frames. |
| ImagePresenter.New | ImageLib/ImagePresenter.cs:22-24 | A new presenter has no cancellation source and no frames. |
| ImagePresenter.MaxHeaderSize | ImageLib/ImagePresenter.cs:74 | The largest header size over the registered decoders, attained by one of them. |
| ImagePresenter.FirstAccepting | ImageLib/ImagePresenter.cs:82 | The first decoder, in registration order, whose test accepts the header; none exactly when none accepts. |
| ImagePresenter.ChooseDecoder | ImageLib/ImagePresenter.cs:70-89 | With decoders and a positive largest header size, the first decoder accepting that many leading bytes (zero-padded); otherwise none. |
| ImagePresenter.Renew | ImageLib/ImagePresenter.cs:59-60 | Cancels the current source, if any, and installs the new one, changing nothing else. |
| ImagePresenter.BuildAsync | ImageLib/ImagePresenter.cs:57-118 | Always cancels the previous build first. A null URI or stream decodes nothing. Without an accepting decoder the platform bitmap and its size are used. Otherwise more than one frame gives an animation begun exactly on autoplay, one frame a still image, and none nothing. |
| ImagePresenter.Clear | ImageLib/ImagePresenter.cs:120-130 | Cancels and drops the source, zeroes the size and empties the frames. |
| ImagePresenter.BuildCancelsPrevious | ImageLib/ImagePresenter.cs:57-60 | With a fresh token, each build leaves only its own token live and every earlier one cancelled. |
| ImagePresenter.ClearCancelsBuild | ImageLib/ImagePresenter.cs:120-123 | Clearing after a build cancels it and leaves nothing live. |
| ImagePresenter.SameHeaderSameDecoder | ImageLib/ImagePresenter.cs:74-82 | Streams that agree on their first largest-header-size bytes go to the same decoder. |
| ImagePresenter.NoDecodersFallBack | ImageLib/ImagePresenter.cs:70-99 | With no decoder registered every stream falls back to the platform bitmap. |

## Left out

- Network and URI I/O (`GetStreamFromUri`, the HTTP client, redirects): the download's outcome, whether the memory tier's `Put` after a download throws (ImageLib/ImageLoader.cs:126), and whether each lookup's copy into memory throws (:206, the `copy` field of `ImageLoader.Tiers`) are parameters of `ImageLoader.LoadImageStream`. Only "scheme is http or https" is kept.
- The SHA/MD5 cache-name generators are calls into platform cryptography. The name generator is an uninterpreted total function.
- Concurrency is not modelled: locks, the limited-concurrency scheduler, fire-and-forget tasks, overlapping timer ticks, and the `_isInitialized` race in the native WebP `InitializeAsync`. Every operation is atomic and sequential.
- LimitedStorageCache.BeginCount: the constructor's background scan is modelled as finishing (or faulting) before any save, not interleaved with saves; a fault while obtaining the folder or the listing is the `None` listing.
- ImageControl.ShowIfCurrent: a URI is its string, and string equality stands for `Uri` equality, which also ignores the fragment and user information (ImageLib.Core/DefaultDecoder.cs:86-87, ImageLib/IO/DefaultDecoder.cs:32-33).
- ImagingCache: the table is keyed by the URI's string, standing for `Uri` equality, which also ignores the fragment and user information.
- ImageHelper.ReadHeader: a single `Stream.Read` is taken to fill the buffer whenever the stream holds enough bytes; a short read that leaves zeros before the end is not modelled. The same holds for the header read in `ImagePresenter.ChooseDecoder`.
- The weak-reference dictionaries, `WeakMemoryCache`, and the other caches not in the core. `ImagingCache` takes the set of live targets as a parameter, because garbage collection cannot be modelled.
- The native WebP codec (libwebp demux and decode) and all pixel work. This includes GIF `PrepareFrame`/`UpdateImageSource` drawing, Win2D surfaces, `BitmapDecoder` pixel extraction and `WriteableBitmap`. What a decoder decodes is a parameter, and only the flags and indices that decide what is drawn are kept.
- The clock: the current time is an integer parameter in milliseconds or `TimeSpan` ticks. Logging is dropped.
- Floating point: `TimeSpan` and double delays and dimensions are integers (milliseconds, pixels, 100-ns ticks).
- LruMemoryCache.Put: sizes and the running total are unbounded integers. The 32-bit `_currentSize` and the `(int)` casts would wrap above 2^31 bytes.
- LruCache.Put: the dictionary is a map. Which free slot `Dictionary` reuses is not observable and is not modelled.
- StorageCacheBase.InternalSave: a failure of the delete inside the failed-copy handler is not modelled. The file is always removed.
- StorageCacheBase.New: the fire-and-forget `CreateFolderAsync` is not modelled. The folder is taken as existing.
- LegacyLruCache.Put: states after a failed duplicate `Put` are characterised by `LegacyLruCache.DuplicatePutCorruptsList` only; operations on such a corrupted cache are not modelled further.
- CoreImageConfig.Build: the configuration shares the builder's decoder list in the source. The model returns the updated builder beside the configuration instead of aliasing the list.
- The first generation's `DefaultDecoder.Dispose` has an empty body and is not a separate member.
- ManagedWebpDecoder: `Start`, `Stop` and `Dispose` have empty bodies, and the decoder holds no state for them to change, so they are not separate members.
- `LoadImage(Uri)` (the `BitmapImage` path of `ImageLoader`) and the I/O of `ImageHelper.Save` (the file picker and the write). Only the name choice is modelled.
- `ImagePresenter`'s `LoadStreamAsync` and the chosen decoder's `DecodeAsync` are parameters of `ImagePresenter.BuildAsync`: the stream's bytes and the frames left in `Frames`.
- GifDecoder.RetrieveImageProperties: failures reading the required logical-screen properties are not modelled, because the platform always supplies them. The bitwise `data[2] | data[3] << 8` is written as a sum, which is equal for byte values.
- The storyboard's own playback semantics are not modelled. `ImageAnimation` records only the commands sent to it.
- The native `WebPDecoder::RecreateSurfaces` only returns null and is not a separate member.
- NativeWebPDecoder.OnTick: a tick is taken to arrive only while the timer is running, as for the GIF decoder's `Tick`.
- `ImageLib.Controls` (the `ImageView` control) and the demo application are UI code outside the core.

## Findings

| source | as written | input that shows it | evidently intended | confidence | as-written member | corrected member |
|---|---|---|---|---|---|---|
| ImageLib.Core/Cache/Storage/CacheImpl/UnlimitedStorageCache.cs:35-38 | `SaveAsync` saves at the bare generated name, while loads and existence checks read `Combine(CacheDirectory, name)`. | Directory `cache`, generated name `f`: the save writes `f`, the next load reads `cache\f` and misses. | Save at `Combine(CacheDirectory, name)`, so a saved entry can be loaded back. | not executed | UnlimitedStorageCache.SaveThenLoadMissesExample | UnlimitedStorageCache.SaveThenLoadFixed |
| ImageLib/Cache/Storage/StorageCacheBase.cs:88-115 | `InternalSaveAsync` returns `false` on every path, including a completed copy. | Any save into a writable folder whose copy completes: the file holds the bytes, and the result is `false`. | Return `true` when the copy completed. | not executed | StorageCacheBase.CompletedSaveReportsFailure | StorageCacheBase.FixedSaveReportsOutcome |
| ImageLib/Cache/Storage/CacheImpl/LimitedStorageCache.cs:126-145 | `RemoveOldestCacheFile` deletes the oldest entry's file but removes the dictionary entry under the combined path, not under the key. | Directory `\cache` with entries `a` (older) and `b`: the first removal deletes `\cache\a` but keeps `a`, so the second picks `a` again and fails, though `\cache\b` is there. | Remove the chosen key, so successive removals walk from oldest to newest. | not executed | LimitedStorageCache.AsWrittenRemovalSticksExample | LimitedStorageCache.CorrectedRemovalExample |
| ImageLib/ImageAnimation.cs:33 | The guard that should skip a null or empty frame list is `frames == null && frames.Count == 0`. | A null list dereferences null; an empty list adds an animation with no key frames, which `Begin` then reports as playing. | `frames == null \|\| frames.Count == 0`: return after clearing. | not executed | ImageAnimation.EmptyFramesPlayNothing | ImageAnimation.CorrectedPlaysOnlyFrames |
