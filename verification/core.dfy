/** The host-feature container (core/src/feature/container.rs): the features
    the host passes at instantiation, keyed by URI. A feature's data pointer
    is an opaque address, 0 being null. */
module Features {
  import opened Wrappers
  import opened Urid

  /** An opaque data pointer; 0 is null. */
  type Ptr = nat

  /** One `LV2_Feature` descriptor of the host's array. */
  datatype FeatureDescriptor = FeatureDescriptor(uri: Uri, data: Ptr)

  /** `FeatureContainer`: the URI to data-pointer table. */
  datatype FeatureContainer = FeatureContainer(internal: map<Uri, Ptr>)

  /** The descriptors before the array's null terminator; the end of the
      sequence stands for a terminator too. */
  function Listed(raw: seq<Option<FeatureDescriptor>>): (r: seq<FeatureDescriptor>)
    ensures |r| <= |raw|
    ensures forall i :: 0 <= i < |r| ==> raw[i] == Some(r[i])
    ensures |r| < |raw| ==> raw[|r|].None?
  {
    if raw == [] || raw[0].None? then [] else [raw[0].value] + Listed(raw[1..])
  }

  /** The loop of `from_raw`: each descriptor is inserted in turn. */
  function InsertAll(m: map<Uri, Ptr>, items: seq<FeatureDescriptor>): (r: map<Uri, Ptr>)
    decreases |items|
  {
    if items == [] then m else InsertAll(m[items[0].uri := items[0].data], items[1..])
  }

  /** The reference answer for a URI: the data of the last descriptor that
      names it. */
  function LastData(items: seq<FeatureDescriptor>, uri: Uri): (r: Option<Ptr>)
    ensures r.None? <==> forall i :: 0 <= i < |items| ==> items[i].uri != uri
    ensures r.Some? ==> exists i :: 0 <= i < |items| && items[i] == FeatureDescriptor(uri, r.value)
  {
    if items == [] then None
    else if items[|items| - 1].uri == uri then Some(items[|items| - 1].data)
    else LastData(items[..|items| - 1], uri)
  }

  /** `from_raw`: a null array gives an empty container; otherwise every
      descriptor before the terminator is inserted, later ones overwriting
      earlier ones with the same URI. */
  function FromRaw(raw: Option<seq<Option<FeatureDescriptor>>>): (c: FeatureContainer)
    ensures raw.None? ==> c.internal == map[]
    ensures raw.Some? ==> forall uri :: (uri in c.internal <==> LastData(Listed(raw.value), uri).Some?)
    ensures raw.Some? ==> forall uri :: uri in c.internal ==> Some(c.internal[uri]) == LastData(Listed(raw.value), uri)
  {
    match raw
    case None => FeatureContainer(map[])
    case Some(list) =>
      var items := Listed(list);
      InsertAllFromEmpty(items);
      FeatureContainer(InsertAll(map[], items))
  }

  /** What `InsertAll` answers for a URI: the last descriptor's data, or what
      the table held before. */
  lemma {:induction false} InsertAllLookup(m: map<Uri, Ptr>, items: seq<FeatureDescriptor>, uri: Uri)
    ensures var r := InsertAll(m, items);
            (uri in r <==> uri in m || LastData(items, uri).Some?) &&
            (LastData(items, uri).Some? ==> uri in r && Some(r[uri]) == LastData(items, uri)) &&
            (LastData(items, uri).None? && uri in m ==> r[uri] == m[uri])
    decreases |items|
  {
    if items != [] {
      InsertAllLookup(m[items[0].uri := items[0].data], items[1..], uri);
      LastDataFront(items, uri);
    }
  }

  /** `InsertAll` from an empty table holds exactly the last data of every
      listed URI. */
  lemma {:induction false} InsertAllFromEmpty(items: seq<FeatureDescriptor>)
    ensures forall uri :: (uri in InsertAll(map[], items) <==> LastData(items, uri).Some?)
    ensures forall uri :: uri in InsertAll(map[], items) ==> Some(InsertAll(map[], items)[uri]) == LastData(items, uri)
  {
    forall uri ensures (uri in InsertAll(map[], items) <==> LastData(items, uri).Some?) &&
                       (uri in InsertAll(map[], items) ==> Some(InsertAll(map[], items)[uri]) == LastData(items, uri)) {
      InsertAllLookup(map[], items, uri);
    }
  }

  /** The last descriptor naming a URI, seen from the front of the list. */
  lemma {:induction false} LastDataFront(items: seq<FeatureDescriptor>, uri: Uri)
    requires items != []
    ensures LastData(items[1..], uri).Some? ==> LastData(items, uri) == LastData(items[1..], uri)
    ensures LastData(items[1..], uri).None? ==>
              LastData(items, uri) == (if items[0].uri == uri then Some(items[0].data) else None)
    decreases |items|
  {
    if |items| > 1 {
      var n := |items| - 1;
      assert items[1..][..|items[1..]| - 1] == items[..n][1..];
      if items[n].uri != uri {
        LastDataFront(items[..n], uri);
      }
    } else {
      assert items[..0] == [];
    }
  }

  /** `contains`: whether a feature's URI is in the table. */
  function Contains(c: FeatureContainer, uri: Uri): (r: bool)
    ensures r <==> uri in c.internal
  {
    uri in c.internal
  }

  /** `retrieve_feature`: the entry is removed whatever the cast of its data
      gives, so that no second feature object with the same data exists. */
  function RetrieveFeature<T>(c: FeatureContainer, uri: Uri, cast: Ptr -> Option<T>): (r: (FeatureContainer, Option<T>))
    ensures r.0.internal == c.internal - {uri}
    ensures r.1.Some? ==> uri in c.internal
    ensures uri in c.internal ==> r.1 == cast(c.internal[uri])
  {
    if uri in c.internal then (FeatureContainer(c.internal - {uri}), cast(c.internal[uri]))
    else (c, None)
  }

  /** After a retrieval the feature is gone: it is not contained and a second
      retrieval gives nothing, and every other feature is as it was. */
  lemma {:induction false} RetrieveTwice<T>(c: FeatureContainer, uri: Uri, cast: Ptr -> Option<T>)
    ensures var c' := RetrieveFeature(c, uri, cast).0;
            !Contains(c', uri) && RetrieveFeature(c', uri, cast).1 == None &&
            forall u :: u != uri ==> (Contains(c', u) <==> Contains(c, u))
  {
  }

  /** `into_iter`: one descriptor per entry, in no particular order. */
  function IntoIter(c: FeatureContainer): (r: set<FeatureDescriptor>)
    ensures forall d :: d in r <==> d.uri in c.internal && c.internal[d.uri] == d.data
  {
    set u | u in c.internal :: FeatureDescriptor(u, c.internal[u])
  }

  /** Each URI of the container is yielded exactly once. */
  lemma {:induction false} IntoIterOnce(c: FeatureContainer)
    ensures forall u :: u in c.internal ==> FeatureDescriptor(u, c.internal[u]) in IntoIter(c)
    ensures forall d, e :: d in IntoIter(c) && e in IntoIter(c) && d.uri == e.uri ==> d == e
  {
  }

  /** `from_container`: a copy of the table; the container passed in keeps
      all its features. */
  function FromContainer(c: FeatureContainer): (r: (FeatureContainer, Option<FeatureContainer>))
    ensures r.1.Some?
    ensures forall u :: Contains(r.0, u) <==> Contains(c, u)
    ensures IntoIter(r.1.value) == IntoIter(c) && IntoIter(r.0) == IntoIter(c)
  {
    (c, Some(c))
  }

  /** The container tests: two features, both contained, each retrieved with
      its own data. */
  lemma {:induction false} ContainerExample<T>(a: Uri, b: Uri, pa: Ptr, pb: Ptr, cast: Ptr -> Option<T>)
    requires a != b
    ensures var c := FromRaw(Some([Some(FeatureDescriptor(a, pa)), Some(FeatureDescriptor(b, pb)), None]));
            Contains(c, a) && Contains(c, b) &&
            var (c1, fa) := RetrieveFeature(c, a, cast);
            var (c2, fb) := RetrieveFeature(c1, b, cast);
            fa == cast(pa) && fb == cast(pb) && c2.internal == map[]
  {
    var raw := [Some(FeatureDescriptor(a, pa)), Some(FeatureDescriptor(b, pb)), None];
    assert Listed(raw[2..]) == [];
    assert Listed(raw[1..]) == [FeatureDescriptor(b, pb)];
    var items := Listed(raw);
    assert items == [FeatureDescriptor(a, pa), FeatureDescriptor(b, pb)];
    assert items[..1] == [FeatureDescriptor(a, pa)];
    assert LastData(items, a) == Some(pa);
    assert LastData(items, b) == Some(pb);
    var c := FromRaw(Some(raw));
    assert c.internal.Keys == {a, b} by {
      forall u | u in c.internal ensures u == a || u == b {
        assert LastData(items, u).Some?;
      }
    }
  }

  /** A URI listed twice keeps the later data. */
  lemma {:induction false} LaterDuplicateWins(a: Uri, p1: Ptr, p2: Ptr)
    ensures FromRaw(Some([Some(FeatureDescriptor(a, p1)), Some(FeatureDescriptor(a, p2))])).internal[a] == p2
  {
    var raw := [Some(FeatureDescriptor(a, p1)), Some(FeatureDescriptor(a, p2))];
    assert Listed(raw[1..][1..]) == [];
    assert Listed(raw) == [FeatureDescriptor(a, p1), FeatureDescriptor(a, p2)];
  }
}

/** The port pointer cache (core/src/port_collection/pointer_cache.rs and
    ports.rs): the host connects ports one index at a time, and the cache
    routes each index to the pointer slot that will hold it.

    The generic cache types are a `CacheType` value and a cache a `Cache`
    value of that type; `set_connection` followed by the store into the
    returned slot is one step, `SetConnection`, that yields the updated cache
    or `None` when the index has no slot. The `Ins::SIZE as u32` casts and
    the `u32` arithmetic of `PortsConnections` wrap around, as in a release
    build. */
module PortCache {
  import opened Bytes
  import opened Wrappers

  /** An opaque port pointer; 0 is null. */
  type Ptr = nat

  /** The cache types: `()`, `*mut c_void`, `[T; N]` and
      `PortsConnections<Ins, Outs>`. */
  datatype CacheType =
    | UnitCache
    | PointerCache
    | ArrayCache(elem: CacheType, n: nat)
    | PortsCache(ins: CacheType, outs: CacheType)

  /** A cache value. */
  datatype Cache =
    | UnitC
    | PointerC(ptr: Ptr)
    | ArrayC(items: seq<Cache>)
    | PortsC(inputs: Cache, outputs: Cache)

  /** A cache value has a cache type. */
  predicate HasType(t: CacheType, c: Cache) {
    match t
    case UnitCache => c.UnitC?
    case PointerCache => c.PointerC?
    case ArrayCache(elem, n) => c.ArrayC? && |c.items| == n && forall i :: 0 <= i < n ==> HasType(elem, c.items[i])
    case PortsCache(ins, outs) => c.PortsC? && HasType(ins, c.inputs) && HasType(outs, c.outputs)
  }

  /** Every pointer slot of a cache is null. */
  predicate AllNull(c: Cache) {
    match c
    case UnitC => true
    case PointerC(p) => p == 0
    case ArrayC(items) => forall i :: 0 <= i < |items| ==> AllNull(items[i])
    case PortsC(ins, outs) => AllNull(ins) && AllNull(outs)
  }

  /** `SIZE`: 0, 1, N, and the sum of the two halves. */
  function Size(t: CacheType): (r: nat)
    ensures t.UnitCache? ==> r == 0
    ensures t.PointerCache? ==> r == 1
    ensures t.ArrayCache? ==> r == t.n
    ensures t.PortsCache? ==> r == Size(t.ins) + Size(t.outs)
  {
    match t
    case UnitCache => 0
    case PointerCache => 1
    case ArrayCache(_, n) => n
    case PortsCache(ins, outs) => Size(ins) + Size(outs)
  }

  /** `new`: a fresh cache of the type, every slot null; an array holds N
      fresh elements and a port pair two fresh halves. */
  function NewCache(t: CacheType): (c: Cache)
    ensures HasType(t, c) && AllNull(c)
  {
    match t
    case UnitCache => UnitC
    case PointerCache => PointerC(0)
    case ArrayCache(elem, n) => ArrayC(seq(n, i => NewCache(elem)))
    case PortsCache(ins, outs) => PortsC(NewCache(ins), NewCache(outs))
  }

  /** The slot an index is routed to, read back: the reference view of the
      routing, with the port pair routing `[0, Ins::SIZE)` to the inputs and
      the next `Outs::SIZE` indices to the outputs. */
  function Get(t: CacheType, c: Cache, index: nat): (r: Option<Ptr>)
    requires HasType(t, c)
  {
    match t
    case UnitCache => None
    case PointerCache => Some(c.ptr)
    case ArrayCache(elem, n) => if index < n then Get(elem, c.items[index], 0) else None
    case PortsCache(ins, outs) =>
      if index < Size(ins) then Get(ins, c.inputs, index)
      else if index - Size(ins) < Size(outs) then Get(outs, c.outputs, index - Size(ins))
      else None
  }

  /** `set_connection` and the store of `ptr` into the slot it returns, with
      the port pair's ranges as evidently intended. */
  function SetConnection(t: CacheType, c: Cache, index: nat, ptr: Ptr): (r: Option<Cache>)
    requires HasType(t, c)
    ensures r.Some? ==> HasType(t, r.value)
    ensures t.UnitCache? ==> r.None?
    ensures t.PointerCache? ==> r == Some(PointerC(ptr))
    ensures t.ArrayCache? && index >= t.n ==> r.None?
  {
    match t
    case UnitCache => None
    case PointerCache => Some(PointerC(ptr))
    case ArrayCache(elem, n) =>
      if index < n then
        match SetConnection(elem, c.items[index], 0, ptr)
        case Some(item) => Some(ArrayC(c.items[index := item]))
        case None => None
      else None
    case PortsCache(ins, outs) =>
      if index < Size(ins) then
        match SetConnection(ins, c.inputs, index, ptr)
        case Some(i') => Some(PortsC(i', c.outputs))
        case None => None
      else if index - Size(ins) < Size(outs) then
        match SetConnection(outs, c.outputs, index - Size(ins), ptr)
        case Some(o') => Some(PortsC(c.inputs, o'))
        case None => None
      else None
  }

  /** A type whose every index below `SIZE` reaches a pointer slot: no `()`
      inside an array or a port pair, and no empty array element type. */
  predicate Dense(t: CacheType) {
    match t
    case UnitCache => true
    case PointerCache => true
    case ArrayCache(elem, n) => Dense(elem) && Size(elem) >= 1
    case PortsCache(ins, outs) => Dense(ins) && Dense(outs)
  }

  /** Connecting a port and reading its slot back agree: an index has a slot
      exactly when it can be read, the slot then holds the pointer, and every
      other index reads as before. */
  lemma {:induction false} SetThenGet(t: CacheType, c: Cache, index: nat, ptr: Ptr)
    requires HasType(t, c)
    ensures SetConnection(t, c, index, ptr).Some? <==> Get(t, c, index).Some?
    ensures SetConnection(t, c, index, ptr).Some? ==>
              var c' := SetConnection(t, c, index, ptr).value;
              Get(t, c', index) == Some(ptr) &&
              forall j: nat :: j != index && !SharedSlot(t, index, j) ==> Get(t, c', j) == Get(t, c, j)
  {
    match t
    case UnitCache =>
    case PointerCache =>
    case ArrayCache(elem, n) =>
      if index < n {
        SetThenGet(elem, c.items[index], 0, ptr);
      }
    case PortsCache(ins, outs) =>
      if index < Size(ins) {
        SetThenGet(ins, c.inputs, index, ptr);
      } else if index - Size(ins) < Size(outs) {
        SetThenGet(outs, c.outputs, index - Size(ins), ptr);
        var r := SetConnection(t, c, index, ptr);
        if r.Some? {
          forall j: nat | j != index && !SharedSlot(t, index, j)
            ensures Get(t, r.value, j) == Get(t, c, j)
          {
            if j >= Size(ins) {
              assert j - Size(ins) != index - Size(ins);
            }
          }
        }
      }
  }

  /** Two indices that reach the same slot: a single pointer answers every
      index with its one slot. */
  predicate SharedSlot(t: CacheType, i: nat, j: nat) {
    match t
    case UnitCache => false
    case PointerCache => true
    case ArrayCache(elem, n) => i == j
    case PortsCache(ins, outs) =>
      if i < Size(ins) && j < Size(ins) then SharedSlot(ins, i, j)
      else if i >= Size(ins) && j >= Size(ins) then SharedSlot(outs, i - Size(ins), j - Size(ins))
      else false
  }

  /** On a dense type every index below `SIZE` has a slot and, but for the
      single pointer that answers any index, no other does. */
  lemma {:induction false} DenseRouting(t: CacheType, c: Cache, index: nat)
    requires HasType(t, c) && Dense(t)
    ensures index < Size(t) ==> Get(t, c, index).Some?
    ensures !t.PointerCache? && index >= Size(t) ==> Get(t, c, index).None?
  {
    match t
    case UnitCache =>
    case PointerCache =>
    case ArrayCache(elem, n) =>
      if index < n {
        DenseSlotZero(elem, c.items[index]);
      }
    case PortsCache(ins, outs) =>
      if index < Size(ins) {
        DenseRouting(ins, c.inputs, index);
      } else if index - Size(ins) < Size(outs) {
        DenseRouting(outs, c.outputs, index - Size(ins));
      }
  }

  /** Index 0 of a nonempty dense type has a slot. */
  lemma {:induction false} DenseSlotZero(t: CacheType, c: Cache)
    requires HasType(t, c) && Dense(t) && Size(t) >= 1
    ensures Get(t, c, 0).Some?
  {
    match t
    case PointerCache =>
    case ArrayCache(elem, n) =>
      DenseSlotZero(elem, c.items[0]);
    case PortsCache(ins, outs) =>
      if Size(ins) >= 1 {
        DenseSlotZero(ins, c.inputs);
      } else {
        DenseSlotZero(outs, c.outputs);
      }
  }

  /** `u32` subtraction and addition as a release build computes them. */
  function WrapU32(x: int): (r: u32)
    ensures 0 <= x < U32_LIMIT ==> r == x
    ensures x == -1 ==> r == U32_LIMIT - 1
    ensures x == U32_LIMIT ==> r == 0
  {
    x % U32_LIMIT
  }

  /** `PortsConnections::set_connection` as written: the end of each half is
      its last index, computed in wrapping `u32`, and the comparisons with it
      are strict. The halves themselves route as `SetConnection`. */
  function PortsSetConnectionAsWritten(ins: CacheType, outs: CacheType, c: Cache, index: u32, ptr: Ptr): (r: Option<Cache>)
    requires HasType(PortsCache(ins, outs), c)
    ensures r.Some? ==> HasType(PortsCache(ins, outs), r.value)
    ensures Size(ins) >= 1 && index as int == Size(ins) - 1 && Size(ins) < U32_LIMIT ==> r.None?
  {
    var insStart: u32 := 0;
    var insEnd := WrapU32(insStart + WrapU32(Size(ins)) - 1);
    var outsStart := WrapU32(insEnd + 1);
    var outsEnd := WrapU32(outsStart + WrapU32(Size(outs)) - 1);
    if index >= insStart && index < insEnd then
      match SetConnection(ins, c.inputs, index - insStart, ptr)
      case Some(i') => Some(PortsC(i', c.outputs))
      case None => None
    else if index >= outsStart && index < outsEnd then
      match SetConnection(outs, c.outputs, index - outsStart, ptr)
      case Some(o') => Some(PortsC(c.inputs, o'))
      case None => None
    else None
  }

  /** The two behave alike away from the ends of the halves: indices below
      `Ins::SIZE - 1` route to the inputs unchanged and indices from
      `Ins::SIZE` up to `SIZE - 1` route to the outputs shifted by
      `Ins::SIZE`. */
  lemma {:induction false} AsWrittenAgreesInside(ins: CacheType, outs: CacheType, c: Cache, index: u32, ptr: Ptr)
    requires HasType(PortsCache(ins, outs), c)
    requires 1 <= Size(ins) && Size(ins) + Size(outs) < U32_LIMIT
    requires index as int < Size(ins) - 1 || Size(ins) <= index as int < Size(ins) + Size(outs) - 1
    ensures PortsSetConnectionAsWritten(ins, outs, c, index, ptr) == SetConnection(PortsCache(ins, outs), c, index as nat, ptr)
  {
  }

  /** The last index of each half gets no slot as written, where the intended
      routing gives one: two inputs and two outputs lose ports 1 and 3. */
  lemma {:induction false} LastIndexDropped()
    ensures var t := PortsCache(ArrayCache(PointerCache, 2), ArrayCache(PointerCache, 2));
            var c := NewCache(t);
            PortsSetConnectionAsWritten(t.ins, t.outs, c, 1, 7).None? &&
            PortsSetConnectionAsWritten(t.ins, t.outs, c, 3, 7).None? &&
            SetConnection(t, c, 1, 7).Some? && SetConnection(t, c, 3, 7).Some?
  {
    var t := PortsCache(ArrayCache(PointerCache, 2), ArrayCache(PointerCache, 2));
    var c := NewCache(t);
    assert SetConnection(t.ins, c.inputs, 1, 7).Some?;
    assert SetConnection(t.outs, c.outputs, 1, 7).Some?;
  }

  /** With no inputs the input end underflows to `u32::MAX`: as written,
      every index but the last goes to the empty inputs, so the one output
      is never connected. */
  lemma {:induction false} EmptyInputsUnderflow(index: u32)
    ensures PortsSetConnectionAsWritten(UnitCache, PointerCache, PortsC(UnitC, PointerC(0)), index, 7).None?
    ensures SetConnection(PortsCache(UnitCache, PointerCache), PortsC(UnitC, PointerC(0)), 0, 7) == Some(PortsC(UnitC, PointerC(7)))
  {
  }
}
