/** Windows path joining as `System.IO.Path.Combine(string, string)` does it,
    for non-null arguments without invalid characters. */
module Paths {

  /** A path is rooted when it starts with a directory separator or names a
      drive (`C:`). */
  predicate IsPathRooted(p: string)
  {
    (|p| >= 1 && (p[0] == '\\' || p[0] == '/')) || (|p| >= 2 && p[1] == ':')
  }

  /** `Path.Combine(path1, path2)`. */
  function Combine(path1: string, path2: string): (r: string)
    ensures path2 == "" ==> r == path1
    ensures path2 != "" && path1 == "" ==> r == path2
    ensures path2 != "" && IsPathRooted(path2) ==> r == path2
    ensures path1 != "" && path2 != "" && !IsPathRooted(path2) ==>
      && |r| >= |path1| + |path2| && r[|r| - |path2|..] == path2 && r[..|path1|] == path1
  {
    if path2 == "" then path1
    else if path1 == "" then path2
    else if IsPathRooted(path2) then path2
    else
      var last := path1[|path1| - 1];
      if last != '\\' && last != '/' && last != ':' then path1 + "\\" + path2
      else path1 + path2
  }

  /** Joining a non-empty directory with a non-empty relative name never
      gives back the bare name. */
  lemma CombineNotBare(dir: string, name: string)
    requires dir != "" && name != "" && !IsPathRooted(name)
    ensures Combine(dir, name) != name
  {
  }

  /** With a rooted directory, an already combined path is returned as is,
      so combining a second time changes nothing. */
  lemma CombineTwiceRooted(dir: string, name: string)
    requires IsPathRooted(dir) && name != ""
    ensures Combine(dir, Combine(dir, name)) == Combine(dir, name)
  {
    var p := Combine(dir, name);
    if !IsPathRooted(name) {
      assert p[..|dir|] == dir;
      assert p[0] == dir[0];
      if !(|dir| >= 1 && (dir[0] == '\\' || dir[0] == '/')) {
        assert p[1] == dir[1];
      }
    }
  }
}

/** The file-system abstraction the storage caches run against, and the
    shared `StorageCacheBase` logic: constructor validation, the save
    routine, loads and existence checks. Time is integer milliseconds and
    is passed in; the cache-name generator is an arbitrary deterministic
    function. */
module StorageCacheBase {
  import opened Base
  import opened Paths

  /** `DefaultCacheMaxLifetimeInMillis`: one week. */
  const DEFAULT_MAX_LIFETIME_MS: int := 7 * 24 * 60 * 60 * 1000

  datatype File = File(data: Bytes, created: int, modified: int)

  /** The storage folder: files by path, and the paths that are held open
      elsewhere, which can be neither opened nor deleted nor replaced. */
  datatype Fs = Fs(files: map<string, File>, locked: set<string>)

  /** How copying the input stream into the new file went: completely, or
      failing after some number of bytes. */
  datatype CopyOutcome = Copied | CopyFailed(written: nat)

  datatype StorageCache = StorageCache(dir: string, nameOf: string -> string, lifetime: int)

  /** The constructor: a null folder, a null or empty directory name, or a
      null name generator is rejected, in that order. */
  function New(folder: bool, dir: Option<string>, nameOf: Option<string -> string>, lifetime: int): (r: Result<StorageCache>)
    ensures !folder ==> r == Throws(ArgumentNullException)
    ensures folder && (dir == None || dir == Some("")) ==> r == Throws(ArgumentException)
    ensures folder && dir.Some? && dir.value != "" && nameOf.None? ==> r == Throws(ArgumentNullException)
    ensures r.Ok? <==> folder && dir.Some? && dir.value != "" && nameOf.Some?
    ensures r.Ok? ==> r.value == StorageCache(dir.value, nameOf.value, lifetime)
  {
    if !folder then Throws(ArgumentNullException)
    else if dir.None? || dir.value == "" then Throws(ArgumentException)
    else if nameOf.None? then Throws(ArgumentNullException)
    else Ok(StorageCache(dir.value, nameOf.value, lifetime))
  }

  /** `GetFullFilePath(GenerateCacheName(key))`: where loads and checks look. */
  function FullPath(sc: StorageCache, key: string): string
  {
    Combine(sc.dir, sc.nameOf(key))
  }

  /** The file-system effect of `InternalSaveAsync`: create or replace the
      file (throws when the path is held open), copy the stream into it, and
      on a failed copy delete the freshly created file. */
  function Write(fs: Fs, path: string, data: Bytes, now: int, copy: CopyOutcome): (r: Result<Fs>)
    ensures r.Throws? <==> path in fs.locked
    ensures r.Ok? ==> r.value.locked == fs.locked
    ensures r.Ok? && copy.Copied? ==> r.value.files == fs.files[path := File(data, now, now)]
    ensures r.Ok? && copy.CopyFailed? ==> r.value.files == fs.files - {path}
  {
    if path in fs.locked then Throws(UnauthorizedAccessException)
    else
      var created := fs.files[path := File([], now, now)];
      match copy
      case Copied => Ok(Fs(created[path := File(data, now, now)], fs.locked))
      case CopyFailed(n) =>
        var partial := fs.files[path := File(data[..if n < |data| then n else |data|], now, now)];
        Ok(Fs(partial - {path}, fs.locked))
  }

  /** `InternalSaveAsync` as written: whatever happened to the file, it
      reports `false`. */
  function InternalSave(fs: Fs, path: string, data: Bytes, now: int, copy: CopyOutcome): (r: Result<(Fs, bool)>)
    ensures r.Throws? <==> path in fs.locked
    ensures r.Ok? ==> !r.value.1 && Ok(r.value.0) == Write(fs, path, data, now, copy)
  {
    match Write(fs, path, data, now, copy)
    case Throws(e) => Throws(e)
    case Ok(fs') => Ok((fs', false))
  }

  /** `InternalSaveAsync` as documented: `true` exactly when the file was
      written. */
  function InternalSaveFixed(fs: Fs, path: string, data: Bytes, now: int, copy: CopyOutcome): (r: Result<(Fs, bool)>)
    ensures r.Throws? <==> path in fs.locked
    ensures r.Ok? ==> Ok(r.value.0) == Write(fs, path, data, now, copy)
    ensures r.Ok? ==> (r.value.1 <==> path in r.value.0.files && r.value.0.files[path].data == data)
  {
    match Write(fs, path, data, now, copy)
    case Throws(e) => Throws(e)
    case Ok(fs') => Ok((fs', copy.Copied?))
  }

  /** `LoadCacheStreamAsync`: a copy of the stored bytes, or null when the
      file is missing or cannot be opened. */
  function Load(sc: StorageCache, fs: Fs, key: string): (r: Option<Bytes>)
    ensures r.Some? <==> FullPath(sc, key) in fs.files && FullPath(sc, key) !in fs.locked
    ensures r.Some? ==> r.value == fs.files[FullPath(sc, key)].data
  {
    var p := FullPath(sc, key);
    if p in fs.files && p !in fs.locked then Some(fs.files[p].data) else None
  }

  /** `IsCacheExists`: the file can be found. */
  function Exists(sc: StorageCache, fs: Fs, key: string): (r: bool)
    ensures r <==> FullPath(sc, key) in fs.files
  {
    FullPath(sc, key) in fs.files
  }

  /** `IsCacheExistsAndAlive`: the file exists and either lifetimes are
      disabled (lifetime <= 0) or it was created strictly less than a
      lifetime ago. */
  function ExistsAndAlive(sc: StorageCache, fs: Fs, key: string, now: int): (r: bool)
    ensures r ==> Exists(sc, fs, key)
    ensures Exists(sc, fs, key) && sc.lifetime <= 0 ==> r
    ensures Exists(sc, fs, key) && sc.lifetime > 0 ==>
      (r <==> now - fs.files[FullPath(sc, key)].created < sc.lifetime)
  {
    var p := FullPath(sc, key);
    if p !in fs.files then false
    else if sc.lifetime <= 0 then true
    else now - fs.files[p].created < sc.lifetime
  }

  /** As written, a save whose copy completes reports failure although the
      file holds exactly the saved bytes. */
  lemma CompletedSaveReportsFailure(fs: Fs, path: string, data: Bytes, now: int)
    requires path !in fs.locked
    ensures InternalSave(fs, path, data, now, Copied).Ok?
    ensures path in InternalSave(fs, path, data, now, Copied).value.0.files
    ensures InternalSave(fs, path, data, now, Copied).value.0.files[path].data == data
    ensures !InternalSave(fs, path, data, now, Copied).value.1
  {
  }

  /** Corrected, the save reports success exactly when the copy completed. */
  lemma FixedSaveReportsOutcome(fs: Fs, path: string, data: Bytes, now: int, copy: CopyOutcome)
    requires path !in fs.locked
    ensures InternalSaveFixed(fs, path, data, now, copy).Ok?
    ensures InternalSaveFixed(fs, path, data, now, copy).value.1 <==> copy.Copied?
  {
  }

  /** A failed copy leaves no file behind, and every other file untouched. */
  lemma FailedCopyLeavesNoFile(fs: Fs, path: string, data: Bytes, now: int, n: nat)
    requires path !in fs.locked
    ensures InternalSave(fs, path, data, now, CopyFailed(n)).Ok?
    ensures path !in InternalSave(fs, path, data, now, CopyFailed(n)).value.0.files
    ensures forall q :: q != path && q in fs.files ==>
      q in InternalSave(fs, path, data, now, CopyFailed(n)).value.0.files
  {
  }

  /** The constructor with the lifetime left at its default: validation is
      unchanged and an accepted cache expires files one week
      (604800000 ms) after creation. */
  function NewDefault(folder: bool, dir: Option<string>, nameOf: Option<string -> string>): (r: Result<StorageCache>)
    ensures r.Ok? <==> folder && dir.Some? && dir.value != "" && nameOf.Some?
    ensures r.Throws? ==> r.error == New(folder, dir, nameOf, 0).error
    ensures r.Ok? ==> r.value.dir == dir.value && r.value.nameOf == nameOf.value && r.value.lifetime == 604800000
  {
    New(folder, dir, nameOf, DEFAULT_MAX_LIFETIME_MS)
  }

  /** A file that was saved is alive for exactly one lifetime after the save. */
  lemma SavedFileAliveForLifetime(sc: StorageCache, fs: Fs, key: string, data: Bytes, now: int, later: int)
    requires FullPath(sc, key) !in fs.locked && sc.lifetime > 0 && later >= now
    ensures Write(fs, FullPath(sc, key), data, now, Copied).Ok?
    ensures ExistsAndAlive(sc, Write(fs, FullPath(sc, key), data, now, Copied).value, key, later)
            <==> later < now + sc.lifetime
  {
  }
}

/** `UnlimitedStorageCache`: never evicts, and by default never expires. */
module UnlimitedStorageCache {
  import opened Base
  import opened Paths
  import opened StorageCacheBase

  /** The constructor's default lifetime: 0, which disables expiry. */
  const DEFAULT_LIFETIME_MS: int := 0

  /** `SaveAsync` as written: the base save at the bare generated name, not
      under the cache directory. */
  function SaveAsync(sc: StorageCache, fs: Fs, key: string, data: Bytes, now: int, copy: CopyOutcome): (r: Result<(Fs, bool)>)
    ensures r == InternalSave(fs, sc.nameOf(key), data, now, copy)
    ensures r.Ok? ==> forall q :: q in fs.files && q != sc.nameOf(key) ==> q in r.value.0.files && r.value.0.files[q] == fs.files[q]
  {
    InternalSave(fs, sc.nameOf(key), data, now, copy)
  }

  /** `SaveAsync` as intended: the documented base save, at the path loads
      read from. */
  function SaveAsyncFixed(sc: StorageCache, fs: Fs, key: string, data: Bytes, now: int, copy: CopyOutcome): (r: Result<(Fs, bool)>)
    ensures r == InternalSaveFixed(fs, FullPath(sc, key), data, now, copy)
    ensures r.Ok? ==> forall q :: q in fs.files && q != FullPath(sc, key) ==> q in r.value.0.files && r.value.0.files[q] == fs.files[q]
  {
    InternalSaveFixed(fs, FullPath(sc, key), data, now, copy)
  }

  /** As written, a completed save is not found by the next load: with a
      non-empty cache directory and a relative generated name the file goes
      to a different path, and the save reports failure anyway. */
  lemma SaveThenLoadMisses(sc: StorageCache, fs: Fs, key: string, data: Bytes, now: int)
    requires sc.dir != "" && sc.nameOf(key) != "" && !IsPathRooted(sc.nameOf(key))
    requires sc.nameOf(key) !in fs.locked && FullPath(sc, key) !in fs.files
    ensures SaveAsync(sc, fs, key, data, now, Copied) == Ok((SaveAsync(sc, fs, key, data, now, Copied).value.0, false))
    ensures Load(sc, SaveAsync(sc, fs, key, data, now, Copied).value.0, key) == None
  {
    CombineNotBare(sc.dir, sc.nameOf(key));
  }

  /** A concrete instance: directory "cache", every key named "f", empty
      folder. The save writes "f" while loads read "cache\f". */
  lemma SaveThenLoadMissesExample()
    ensures var sc := StorageCache("cache", (k: string) => "f", DEFAULT_LIFETIME_MS);
            var fs := Fs(map[], {});
            SaveAsync(sc, fs, "k", [1], 0, Copied).Ok?
            && "f" in SaveAsync(sc, fs, "k", [1], 0, Copied).value.0.files
            && Load(sc, SaveAsync(sc, fs, "k", [1], 0, Copied).value.0, "k") == None
  {
    var sc := StorageCache("cache", (k: string) => "f", DEFAULT_LIFETIME_MS);
    assert FullPath(sc, "k") == "cache\\f";
  }

  /** Corrected, a completed save reports success and the next load returns
      the saved bytes, alive forever under the default lifetime. */
  lemma SaveThenLoadFixed(sc: StorageCache, fs: Fs, key: string, data: Bytes, now: int, later: int)
    requires FullPath(sc, key) !in fs.locked && sc.lifetime == DEFAULT_LIFETIME_MS
    ensures SaveAsyncFixed(sc, fs, key, data, now, Copied).Ok?
    ensures SaveAsyncFixed(sc, fs, key, data, now, Copied).value.1
    ensures Load(sc, SaveAsyncFixed(sc, fs, key, data, now, Copied).value.0, key) == Some(data)
    ensures ExistsAndAlive(sc, SaveAsyncFixed(sc, fs, key, data, now, Copied).value.0, key, later)
  {
  }
}
