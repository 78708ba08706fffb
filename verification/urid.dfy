/** URIDs (urid/src/urid.rs), the hash-map URID mapper (urid/src/mapper.rs)
    and the plugin-side URID cache (urid/src/cache.rs).

    A URID is a nonzero `u32`; the model makes it a subset type of `u32`, so
    `new_unchecked`, the dereference to `u32`, the comparisons with `u32` and
    the derived equality, ordering and hashing are all the inner value. */
module Urid {
  import opened Bytes
  import opened Wrappers

  /** `URID`: a `u32` that is never 0. */
  type Urid = x: u32 | x != 0 witness 1

  /** A URI. The model compares URIs by content. */
  type Uri = seq<char>

  /** `URID::new`: 0 is not an id. */
  function NewUrid(x: u32): (r: Option<Urid>)
    ensures r.Some? <==> x != 0
    ensures r.Some? ==> r.value as u32 == x
  {
    if x != 0 then Some(x) else None
  }

  // ---------------------------------------------------------------------
  // HashURIDMapper
  // ---------------------------------------------------------------------

  /** `HashURIDMapper`: the URI to URID table behind the mutex. A poisoned
      mutex is not modelled. */
  datatype Mapper = Mapper(ids: map<Uri, Urid>)

  /** What `map` keeps true of the table: no id is larger than the number of
      entries, and no two URIs share an id. */
  predicate Inv(m: Mapper) {
    (forall u :: u in m.ids ==> m.ids[u] as int <= |m.ids|) &&
    (forall u, v :: u in m.ids && v in m.ids && m.ids[u] == m.ids[v] ==> u == v)
  }

  /** `HashURIDMapper::new`: an empty table. */
  const EmptyMapper: Mapper := Mapper(map[])

  /** `map`: the stored id of a known URI; a new URI gets the next id, the
      table's length plus one, unless that does not fit a `u32`. */
  function Map(m: Mapper, uri: Uri): (r: (Mapper, Option<Urid>))
    requires Inv(m)
    ensures Inv(r.0)
    ensures uri in m.ids ==> r == (m, Some(m.ids[uri]))
    ensures uri !in m.ids ==> (r.1.Some? <==> |m.ids| + 1 < U32_LIMIT)
    ensures uri !in m.ids && r.1.None? ==> r.0 == m
    ensures uri !in m.ids && r.1.Some? ==>
              r.1.value as int == |m.ids| + 1 && r.0.ids == m.ids[uri := r.1.value] &&
              forall u :: u in m.ids ==> m.ids[u] != r.1.value
  {
    if uri in m.ids then (m, Some(m.ids[uri]))
    else if |m.ids| >= U32_LIMIT then (m, None)        // `try_into` of the length fails
    else if |m.ids| + 1 >= U32_LIMIT then (m, None)    // `checked_add(1)` overflows
    else
      var next: Urid := (|m.ids| + 1) as u32;
      var m' := Mapper(m.ids[uri := next]);
      assert |m'.ids| == |m.ids| + 1;
      (m', Some(next))
  }

  /** `unmap`: the URI holding an id, if any. */
  function Unmap(m: Mapper, id: Urid): (r: Option<Uri>)
    requires Inv(m)
    ensures r.Some? <==> exists u :: u in m.ids && m.ids[u] == id
    ensures r.Some? ==> r.value in m.ids && m.ids[r.value] == id
  {
    if exists u :: u in m.ids && m.ids[u] == id then
      var u :| u in m.ids && m.ids[u] == id;
      Some(u)
    else
      None
  }

  /** `extern_map`: the C interface reports a failed mapping as 0. */
  function ExternMap(m: Mapper, uri: Uri): (r: (Mapper, u32))
    requires Inv(m)
    ensures r.0 == Map(m, uri).0
    ensures r.1 == 0 <==> Map(m, uri).1.None?
    ensures r.1 != 0 ==> r.1 == Map(m, uri).1.value
  {
    var (m', id) := Map(m, uri);
    (m', match id case Some(x) => x as u32 case None => 0)
  }

  /** `extern_unmap`: id 0 and unknown ids give the null pointer, modelled
      as `None`. */
  function ExternUnmap(m: Mapper, raw: u32): (r: Option<Uri>)
    requires Inv(m)
    ensures raw == 0 ==> r.None?
    ensures r.Some? <==> raw != 0 && exists u :: u in m.ids && m.ids[u] == raw
    ensures r.Some? ==> r.value in m.ids && m.ids[r.value] == raw
  {
    match NewUrid(raw)
    case None => None
    case Some(id) => Unmap(m, id)
  }

  /** Mapping a URI twice gives the same id and leaves the table as the first
      mapping left it. */
  lemma {:induction false} MapIdempotent(m: Mapper, uri: Uri)
    requires Inv(m) && Map(m, uri).1.Some?
    ensures Map(Map(m, uri).0, uri) == Map(m, uri)
  {
  }

  /** `unmap` inverts `map`. */
  lemma {:induction false} UnmapMap(m: Mapper, uri: Uri)
    requires Inv(m) && Map(m, uri).1.Some?
    ensures Unmap(Map(m, uri).0, Map(m, uri).1.value) == Some(uri)
  {
    var (m', id) := Map(m, uri);
    assert uri in m'.ids && m'.ids[uri] == id.value;
    var r := Unmap(m', id.value);
    assert r.Some? && r.value in m'.ids && m'.ids[r.value] == m'.ids[uri];
  }

  /** Different URIs never share an id, whenever they were mapped. */
  lemma {:induction false} MapDistinct(m: Mapper, a: Uri, b: Uri)
    requires Inv(m) && a != b
    requires Map(m, a).1.Some? && Map(Map(m, a).0, b).1.Some?
    ensures Map(m, a).1.value != Map(Map(m, a).0, b).1.value
  {
  }

  /** The mapper tests: A gets 1, B gets 2, A again gets 1, and `unmap`
      gives both URIs back. */
  lemma {:induction false} MapperExample(a: Uri, b: Uri)
    requires a != b
    ensures var (m1, r1) := Map(EmptyMapper, a);
            var (m2, r2) := Map(m1, b);
            var (m3, r3) := Map(m2, a);
            r1 == Some(1) && r2 == Some(2) && r3 == Some(1) &&
            Unmap(m3, 1) == Some(a) && Unmap(m3, 2) == Some(b) && Unmap(m3, 3) == None
  {
    var (m1, r1) := Map(EmptyMapper, a);
    var (m2, r2) := Map(m1, b);
    assert m2.ids == map[a := 1 as Urid, b := 2 as Urid];
    assert Unmap(m2, 1) == Some(a);
    assert Unmap(m2, 2) == Some(b);
  }

  // ---------------------------------------------------------------------
  // CachedMap
  // ---------------------------------------------------------------------

  /** `CachedMap`: the host's map feature, modelled by the hash mapper, and
      the ids already fetched. The cache is keyed by the address of a type's
      static URI; the model keys it by the URI itself, one URI per type. */
  datatype CachedMap = CachedMap(feature: Mapper, cache: map<Uri, Urid>)

  /** Every cached id is the one the feature gave for that URI. */
  predicate CacheAgrees(c: CachedMap) {
    Inv(c.feature) &&
    forall u :: u in c.cache ==> u in c.feature.ids && c.feature.ids[u] == c.cache[u]
  }

  /** `from_feature`: an empty cache. */
  function FromFeature(f: Mapper): (c: CachedMap)
    requires Inv(f)
    ensures CacheAgrees(c) && c.cache == map[]
  {
    CachedMap(f, map[])
  }

  /** `urid_of`: a cached id without asking the feature; on a miss, the
      feature's answer, cached when there is one. */
  function UridOf(c: CachedMap, uri: Uri): (r: (CachedMap, Option<Urid>))
    requires CacheAgrees(c)
    ensures CacheAgrees(r.0)
    ensures uri in c.cache ==> r == (c, Some(c.cache[uri]))
    ensures uri !in c.cache && r.1.None? ==> r.0.cache == c.cache
    ensures uri !in c.cache ==> r.1 == Map(c.feature, uri).1 && r.0.feature == Map(c.feature, uri).0
    ensures r.1.Some? ==> r.0.cache == c.cache[uri := r.1.value]
  {
    if uri in c.cache then (c, Some(c.cache[uri]))
    else
      var (f', id) := Map(c.feature, uri);
      match id
      case Some(x) => (CachedMap(f', c.cache[uri := x]), Some(x))
      case None => (CachedMap(f', c.cache), None)
  }

  /** `try_urid_of`: the cache only. */
  function TryUridOf(c: CachedMap, uri: Uri): (r: Option<Urid>)
    ensures r.Some? <==> uri in c.cache
    ensures r.Some? ==> r.value == c.cache[uri]
  {
    if uri in c.cache then Some(c.cache[uri]) else None
  }

  /** `iter`: the cached pairs, in no particular order. */
  function Iter(c: CachedMap): (r: set<(Uri, Urid)>)
    ensures forall p :: p in r <==> p.0 in c.cache && c.cache[p.0] == p.1
  {
    set u | u in c.cache :: (u, c.cache[u])
  }

  /** After a successful `urid_of`, `try_urid_of` finds the same id, and it
      is the id the feature gives. */
  lemma {:induction false} TryAfterUridOf(c: CachedMap, uri: Uri)
    requires CacheAgrees(c) && UridOf(c, uri).1.Some?
    ensures TryUridOf(UridOf(c, uri).0, uri) == UridOf(c, uri).1
    ensures UridOf(UridOf(c, uri).0, uri) == UridOf(c, uri)
    ensures Map(UridOf(c, uri).0.feature, uri).1 == UridOf(c, uri).1
  {
  }

  /** The cache test: Map gets 1, Unmap gets 2, Map is then served from the
      cache; an unrequested URI is not cached; `iter` yields the two pairs. */
  lemma {:induction false} CachedMapExample(mapUri: Uri, unmapUri: Uri, liveUri: Uri)
    requires mapUri != unmapUri && liveUri != mapUri && liveUri != unmapUri
    ensures var (c1, r1) := UridOf(FromFeature(EmptyMapper), mapUri);
            var (c2, r2) := UridOf(c1, unmapUri);
            var (c3, r3) := UridOf(c2, mapUri);
            r1 == Some(1) && r2 == Some(2) && r3 == Some(1) &&
            TryUridOf(c3, mapUri) == Some(1) && TryUridOf(c3, unmapUri) == Some(2) &&
            TryUridOf(c3, liveUri) == None &&
            Iter(c3) == {(mapUri, 1 as Urid), (unmapUri, 2 as Urid)}
  {
    var (c1, r1) := UridOf(FromFeature(EmptyMapper), mapUri);
    var (c2, r2) := UridOf(c1, unmapUri);
    assert c2.cache == map[mapUri := 1 as Urid, unmapUri := 2 as Urid];
    var it := Iter(c2);
    assert (mapUri, 1 as Urid) in it;
    assert (unmapUri, 2 as Urid) in it;
  }
}
