/** `ImagingCache`: a static table from URI to a weak reference to a decoded
    object, capped at `MAX_CACHE_SIZE` entries.

    Garbage collection is not modelled; instead every operation that looks
    at a weak reference is given the set of objects still alive at that
    moment. A URI is the string `Uri` equality compares (it ignores the
    fragment and user information), and a null URI is `None`. */
module ImagingCache {
  import opened Base

  /** `MAX_CACHE_SIZE`. */
  const MAX_CACHE_SIZE: nat := 10

  /** A cached object: an identity and the runtime types it is an instance of
      (what `as T` tests). */
  datatype Obj = Obj(id: nat, types: set<string>)

  /** The table holds, for each URI, a weak reference to an object. */
  type Table = map<string, Obj>

  /** The table is within the cap. */
  predicate Bounded(t: Table)
  {
    |t| <= MAX_CACHE_SIZE
  }

  /** The entries whose weak target has not been collected. */
  function Purge(t: Table, alive: set<Obj>): (r: Table)
    ensures r.Keys <= t.Keys
    ensures forall u :: u in r ==> r[u] == t[u]
    ensures forall u :: u in t ==> (u in r <==> t[u] in alive)
  {
    map u | u in t && t[u] in alive :: t[u]
  }

  /** Purging removes at least one entry exactly when some target is dead. */
  lemma PurgeShrinks(t: Table, alive: set<Obj>)
    ensures |Purge(t, alive)| <= |t|
    ensures |Purge(t, alive)| < |t| <==> exists u :: u in t && t[u] !in alive
  {
    var p := Purge(t, alive);
    assert p.Keys <= t.Keys;
    var gone := t.Keys - p.Keys;
    assert t.Keys == p.Keys + gone;
    assert |t.Keys| == |p.Keys| + |gone|;
    assert |t.Keys| == |t| && |p.Keys| == |p|;
    if exists u :: u in t && t[u] !in alive {
      var u :| u in t && t[u] !in alive;
      assert u in gone;
    } else {
      assert gone == {};
    }
  }

  /** `Add(uri, obj)` through `AddToCache`: nothing if the URI is present;
      when the table is full, first drop the entries whose target is dead,
      and drop the new entry if that freed nothing. A null URI makes
      `Dictionary.ContainsKey` throw. */
  function Add(t: Table, uri: Option<string>, obj: Obj, alive: set<Obj>): (r: Result<Table>)
    ensures uri.None? <==> r == Throws(ArgumentNullException)
    ensures uri.Some? && uri.value in t ==> r == Ok(t)
    ensures uri.Some? && uri.value !in t && |t| != MAX_CACHE_SIZE ==> r == Ok(t[uri.value := obj])
    ensures uri.Some? && uri.value !in t && |t| == MAX_CACHE_SIZE ==>
      r.Ok? && r.value.Keys <= t.Keys + {uri.value}
      && (forall u :: u in t && t[u] in alive ==> u in r.value && r.value[u] == t[u])
      && (forall u :: u in t && u in r.value ==> t[u] in alive)
      && (uri.value in r.value <==> exists u :: u in t && t[u] !in alive)
      && (uri.value in r.value ==> r.value[uri.value] == obj)
    ensures Bounded(t) && r.Ok? ==> Bounded(r.value)
  {
    match uri
    case None => Throws(ArgumentNullException)
    case Some(u) =>
      if u in t then Ok(t)
      else
        if |t| == MAX_CACHE_SIZE then
          var t1 := Purge(t, alive);
          PurgeShrinks(t, alive);
          if |t1| == MAX_CACHE_SIZE then Ok(t1)
          else Ok(t1[u := obj])
        else Ok(t[u := obj])
  }

  /** `Remove(uri)`: drops only that URI, if present. A null URI throws. */
  function Remove(t: Table, uri: Option<string>): (r: Result<Table>)
    ensures uri.None? <==> r == Throws(ArgumentNullException)
    ensures uri.Some? ==> r == Ok(t - {uri.value})
    ensures uri.Some? && uri.value !in t ==> r == Ok(t)
    ensures r.Ok? ==> forall u :: u in r.value ==> u in t && r.value[u] == t[u]
  {
    match uri
    case None => Throws(ArgumentNullException)
    case Some(u) =>
      if u in t then Ok(t - {u})
      else
        assert t - {u} == t;
        Ok(t)
  }

  /** `Get<T>(uri)`: the target if it is alive and an instance of `ty`;
      otherwise an entry that is present is removed. A null URI or a missing
      entry gives null and changes nothing. */
  function Get(t: Table, uri: Option<string>, ty: string, alive: set<Obj>): (r: (Table, Option<Obj>))
    ensures uri.None? ==> r == (t, None)
    ensures uri.Some? && uri.value !in t ==> r == (t, None)
    ensures r.1.Some? <==> uri.Some? && uri.value in t && t[uri.value] in alive && ty in t[uri.value].types
    ensures r.1.Some? ==> r == (t, Some(t[uri.value]))
    ensures uri.Some? && uri.value in t && r.1.None? ==> r.0 == t - {uri.value}
  {
    match uri
    case None => (t, None)
    case Some(u) =>
      if u in t then
        var o := t[u];
        if o in alive && ty in o.types then (t, Some(o))
        else (t - {u}, None)
      else (t, None)
  }

  /** Starting from an empty table, any sequence of adds keeps the table
      within the cap. */
  lemma {:induction false} AddsStayBounded(t: Table, uris: seq<string>, objs: seq<Obj>, alive: set<Obj>)
    requires Bounded(t) && |uris| == |objs|
    ensures Bounded(AddAll(t, uris, objs, alive))
    decreases |uris|
  {
    if uris != [] {
      var r := Add(t, Some(uris[0]), objs[0], alive);
      AddsStayBounded(r.value, uris[1..], objs[1..], alive);
    }
  }

  /** Adds each URI with its object in turn. */
  function AddAll(t: Table, uris: seq<string>, objs: seq<Obj>, alive: set<Obj>): Table
    requires |uris| == |objs|
    decreases |uris|
  {
    if uris == [] then t
    else AddAll(Add(t, Some(uris[0]), objs[0], alive).value, uris[1..], objs[1..], alive)
  }

  /** Round trip: an object added under a new URI while there is room is
      returned by a later `Get` of a type it has, as long as it is alive. */
  lemma AddThenGet(t: Table, uri: string, obj: Obj, ty: string, alive: set<Obj>)
    requires uri !in t && |t| < MAX_CACHE_SIZE
    requires obj in alive && ty in obj.types
    ensures Add(t, Some(uri), obj, alive).Ok?
    ensures Get(Add(t, Some(uri), obj, alive).value, Some(uri), ty, alive).1 == Some(obj)
  {
  }
}
