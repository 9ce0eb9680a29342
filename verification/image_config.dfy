/** Decoder registration shared by both configuration classes: a list of
    decoder types, each registered at most once, in registration order. A
    decoder type is its name. */
module DecoderRegistry {
  import opened Base

  /** `AddDecoder<T>`: append `t` unless it is already registered. */
  function Register(types: seq<string>, t: string): (r: seq<string>)
    ensures t in r
    ensures t in types ==> r == types
    ensures t !in types ==> r == types + [t]
    ensures Distinct(types) ==> Distinct(r)
  {
    if t in types then types else types + [t]
  }

  /** Registers each type of `ts` in turn. */
  function RegisterAll(types: seq<string>, ts: seq<string>): seq<string>
    decreases |ts|
  {
    if ts == [] then types else RegisterAll(Register(types, ts[0]), ts[1..])
  }

  /** Reference definition: the elements of `ts` that are not in `seen` and
      do not occur earlier in `ts`, each at its first occurrence. */
  function FirstOccurrences(seen: seq<string>, ts: seq<string>): seq<string>
    decreases |ts|
  {
    if ts == [] then []
    else if ts[0] in seen then FirstOccurrences(seen, ts[1..])
    else [ts[0]] + FirstOccurrences(seen + [ts[0]], ts[1..])
  }

  /** Registering a sequence of types keeps what was there and appends each
      new type once, at its first occurrence: registration order is kept and
      no type is listed twice. */
  lemma RegisterAllIsFirstOccurrences(types: seq<string>, ts: seq<string>)
    requires Distinct(types)
    ensures RegisterAll(types, ts) == types + FirstOccurrences(types, ts)
    ensures Distinct(RegisterAll(types, ts))
    ensures forall t :: t in RegisterAll(types, ts) <==> t in types || t in ts
  {
    RegisterAllOrder(types, ts);
    RegisterAllMembers(types, ts);
  }

  /** The order part of `RegisterAllIsFirstOccurrences`. */
  lemma {:induction false} RegisterAllOrder(types: seq<string>, ts: seq<string>)
    ensures RegisterAll(types, ts) == types + FirstOccurrences(types, ts)
    decreases |ts|
  {
    if ts != [] {
      var next := Register(types, ts[0]);
      RegisterAllOrder(next, ts[1..]);
      if ts[0] !in types {
        assert types + [ts[0]] + FirstOccurrences(next, ts[1..]) == types + ([ts[0]] + FirstOccurrences(next, ts[1..]));
      }
    }
  }

  /** The membership part of `RegisterAllIsFirstOccurrences`. */
  lemma {:induction false} RegisterAllMembers(types: seq<string>, ts: seq<string>)
    requires Distinct(types)
    ensures Distinct(RegisterAll(types, ts))
    ensures forall t :: t in RegisterAll(types, ts) <==> t in types || t in ts
    decreases |ts|
  {
    if ts != [] {
      var next := Register(types, ts[0]);
      RegisterAllMembers(next, ts[1..]);
      assert forall t :: t in next <==> t in types || t == ts[0];
      assert forall t :: t in ts <==> t == ts[0] || t in ts[1..] by {
        assert ts == [ts[0]] + ts[1..];
      }
    }
  }
}

/** `ImageLib/ImageConfig.cs`: the configuration of the first library
    generation, with a static configuration, a static decoder list and a
    validating builder. Cache implementations are opaque and only their
    presence matters. */
module LegacyImageConfig {
  import opened Base
  import opened ImageLoader
  import DecoderRegistry

  /** A cache implementation object. */
  datatype Impl = Impl(id: nat)

  datatype Config = Config(isLogEnabled: bool, mode: CacheMode, memory: Option<Impl>, storage: Option<Impl>)

  datatype Builder = Builder(isLogEnabled: bool, mode: CacheMode, memory: Option<Impl>, storage: Option<Impl>)

  /** The static state: the configuration in force and the decoder list. The
      list is only ever appended to by `AddDecoder`, with `typeof(T)`, so its
      elements are never null; `None` models a null element all the same. */
  datatype Globals = Globals(config: Option<Config>, decoderTypes: seq<Option<string>>)

  /** `new Builder()`: logging off, `MemoryAndStorageCache`, no caches. */
  function NewBuilder(): (b: Builder)
    ensures b.mode == MemoryAndStorageCache && !b.isLogEnabled
    ensures b.memory.None? && b.storage.None?
  {
    Builder(false, MemoryAndStorageCache, None, None)
  }

  /** `Initialize(config)`: null is rejected; after that the first
      configuration stays in force and later calls are ignored. */
  function Initialize(g: Globals, c: Option<Config>): (r: Result<Globals>)
    ensures c.None? <==> r == Throws(ArgumentException)
    ensures c.Some? && g.config.Some? ==> r == Ok(g)
    ensures c.Some? && g.config.None? ==> r == Ok(g.(config := c))
    ensures r.Ok? ==> r.value.decoderTypes == g.decoderTypes && r.value.config.Some?
  {
    if c.None? then Throws(ArgumentException)
    else if g.config.Some? then Ok(g)
    else Ok(g.(config := c))
  }

  /** Only the first of two successful initializations takes effect. */
  lemma FirstInitializeWins(g: Globals, c1: Config, c2: Config)
    requires g.config.None?
    ensures Initialize(g, Some(c1)).Ok?
    ensures Initialize(Initialize(g, Some(c1)).value, Some(c2)) == Ok(g.(config := Some(c1)))
  {
  }

  /** `Builder.AddDecoder<T>()`: registers `T` in the static list once. */
  function AddDecoder(g: Globals, t: string): (r: Globals)
    ensures Some(t) in r.decoderTypes
    ensures Some(t) in g.decoderTypes ==> r == g
    ensures Some(t) !in g.decoderTypes ==> r == g.(decoderTypes := g.decoderTypes + [Some(t)])
    ensures Distinct(g.decoderTypes) ==> Distinct(r.decoderTypes)
  {
    if Some(t) in g.decoderTypes then g
    else g.(decoderTypes := g.decoderTypes + [Some(t)])
  }

  /** `GetAvailableDecoders()`: one new decoder per non-null registered type,
      in registration order (a decoder is named by its type). */
  function AvailableDecoders(types: seq<Option<string>>): (r: seq<string>)
    ensures |r| <= |types|
    ensures forall t :: t in r <==> Some(t) in types
    ensures (forall i :: 0 <= i < |types| ==> types[i].Some?) ==>
      |r| == |types| && forall i :: 0 <= i < |r| ==> types[i] == Some(r[i])
  {
    if types == [] then []
    else
      var rest := AvailableDecoders(types[1..]);
      assert forall t :: Some(t) in types <==> types[0] == Some(t) || Some(t) in types[1..] by {
        assert types == [types[0]] + types[1..];
      }
      match types[0]
      case None => rest
      case Some(t) => [t] + rest
  }

  /** `Builder.CheckParams()`: a mode that needs a memory tier needs a memory
      implementation, checked first, and a mode that needs a storage tier
      needs a storage implementation. */
  function CheckParams(b: Builder): (r: Outcome)
    ensures r.Done? <==> (UsesMemory(b.mode) ==> b.memory.Some?) && (UsesStorage(b.mode) ==> b.storage.Some?)
    ensures r.Raised? ==> r.error == ArgumentException
  {
    if UsesMemory(b.mode) && b.memory.None? then Raised(ArgumentException)
    else if UsesStorage(b.mode) && b.storage.None? then Raised(ArgumentException)
    else Done
  }

  /** `Builder.Build()`: validates, then copies every builder field. */
  function Build(b: Builder): (r: Result<Config>)
    ensures r.Ok? <==> CheckParams(b).Done?
    ensures r.Throws? ==> r.error == ArgumentException
    ensures r.Ok? ==> r.value == Config(b.isLogEnabled, b.mode, b.memory, b.storage)
  {
    match CheckParams(b)
    case Raised(e) => Throws(e)
    case Done => Ok(Config(b.isLogEnabled, b.mode, b.memory, b.storage))
  }

  /** A built configuration always has the implementations its mode uses, so
      the loader never reaches a missing tier. */
  lemma BuiltConfigHasItsTiers(b: Builder)
    requires Build(b).Ok?
    ensures UsesMemory(Build(b).value.mode) ==> Build(b).value.memory.Some?
    ensures UsesStorage(Build(b).value.mode) ==> Build(b).value.storage.Some?
  {
  }

  /** The default builder cannot be built without both implementations. */
  lemma DefaultBuilderNeedsBothTiers(memory: Option<Impl>, storage: Option<Impl>)
    ensures Build(NewBuilder().(memory := memory, storage := storage)).Ok? <==> memory.Some? && storage.Some?
  {
  }
}

/** `ImageLib.Core/ImageConfig.cs`: the configuration of the second library
    generation. The mode is derived from whether a storage cache was given,
    and `Build` registers the default decoder itself. */
module CoreImageConfig {
  import opened Base
  import opened ImageLoader
  import DecoderRegistry

  /** The type name of `DefaultDecoder`. */
  const DEFAULT_DECODER: string := "DefaultDecoder"

  /** A storage cache implementation object. */
  datatype Impl = Impl(id: nat)

  datatype Builder = Builder(storage: Option<Impl>, newApi: bool, isLogEnabled: bool, decoderTypes: seq<string>)

  datatype Config = Config(mode: CacheMode, storage: Option<Impl>, decoderTypes: seq<string>, newApi: bool, isLogEnabled: bool)

  /** `new Builder()`: new API on, logging off, no storage, no decoders. */
  function NewBuilder(): (b: Builder)
    ensures b.newApi && !b.isLogEnabled && b.storage.None? && b.decoderTypes == []
  {
    Builder(None, true, false, [])
  }

  /** `AddDecoder<T>()`: for `DefaultDecoder` an exception object is created
      but never thrown, so every type is registered the same way. */
  function AddDecoder(b: Builder, t: string): (r: Builder)
    ensures r.decoderTypes == DecoderRegistry.Register(b.decoderTypes, t)
    ensures r == b.(decoderTypes := r.decoderTypes)
  {
    b.(decoderTypes := DecoderRegistry.Register(b.decoderTypes, t))
  }

  /** `NewApi(flag)`. */
  function NewApi(b: Builder, isSupported: bool): (r: Builder)
    ensures r.newApi == isSupported && r == b.(newApi := r.newApi)
  {
    b.(newApi := isSupported)
  }

  /** `LogEnabled(flag)`. */
  function LogEnabled(b: Builder, isLogEnabled: bool): (r: Builder)
    ensures r.isLogEnabled == isLogEnabled && r == b.(isLogEnabled := r.isLogEnabled)
  {
    b.(isLogEnabled := isLogEnabled)
  }

  /** `LimitedStorageCache(folder, dir, generator, limit)`: `made` is what the
      cache constructor gives; if it throws, the exception propagates and the
      builder is unchanged. */
  function LimitedStorageCache(b: Builder, made: Result<Impl>): (r: Result<Builder>)
    ensures made.Throws? ==> r == Throws(made.error)
    ensures made.Ok? ==> r == Ok(b.(storage := Some(made.value)))
  {
    match made
    case Throws(e) => Throws(e)
    case Ok(impl) => Ok(b.(storage := Some(impl)))
  }

  /** `Build()`: registers `DefaultDecoder` in the builder's own list (the
      configuration shares that list), then derives the mode. The builder
      comes back too, since its list was changed. `IsLogEnabled` is not
      copied, so the configuration's flag keeps its default, false. */
  function Build(b: Builder): (r: (Builder, Config))
    ensures r.1.mode == (if b.storage.None? then NoCache else OnlyStorageCache)
    ensures r.1.storage == b.storage && r.1.newApi == b.newApi && !r.1.isLogEnabled
    ensures DEFAULT_DECODER in b.decoderTypes ==> r.1.decoderTypes == b.decoderTypes
    ensures DEFAULT_DECODER !in b.decoderTypes ==> r.1.decoderTypes == b.decoderTypes + [DEFAULT_DECODER]
    ensures r.0.decoderTypes == r.1.decoderTypes && r.0 == b.(decoderTypes := r.0.decoderTypes)
  {
    var b1 := AddDecoder(b, DEFAULT_DECODER);
    var mode := if b1.storage.None? then NoCache else OnlyStorageCache;
    (b1, Config(mode, b1.storage, b1.decoderTypes, b1.newApi, false))
  }

  /** A builder given a storage cache builds an `OnlyStorageCache`
      configuration; the new API is on unless switched off. */
  lemma LimitedStorageGivesOnlyStorage(impl: Impl)
    ensures LimitedStorageCache(NewBuilder(), Ok(impl)).Ok?
    ensures Build(LimitedStorageCache(NewBuilder(), Ok(impl)).value).1.mode == OnlyStorageCache
    ensures Build(LimitedStorageCache(NewBuilder(), Ok(impl)).value).1.newApi
  {
  }

  /** Whatever the user registered, the built list contains `DefaultDecoder`
      exactly once, after the user's decoders when they did not name it, and
      enabling logging on the builder never reaches the configuration. */
  lemma {:induction false} BuildAddsDefaultOnce(ts: seq<string>)
    ensures var b := Builder(None, true, false, DecoderRegistry.RegisterAll([], ts));
      var c := Build(LogEnabled(b, true)).1;
      && Distinct(c.decoderTypes)
      && DEFAULT_DECODER in c.decoderTypes
      && (DEFAULT_DECODER !in ts ==> c.decoderTypes[|c.decoderTypes| - 1] == DEFAULT_DECODER)
      && !c.isLogEnabled
      && c.mode == NoCache
  {
    DecoderRegistry.RegisterAllIsFirstOccurrences([], ts);
  }

  /** Building twice from the same builder does not register the default
      decoder twice. */
  lemma BuildTwiceSameDecoders(b: Builder)
    ensures Build(Build(b).0).1.decoderTypes == Build(b).1.decoderTypes
  {
  }
}
