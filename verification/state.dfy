/** The state extension: status codes (state/src/lib.rs), the store and
    retrieve handles a plugin saves and restores its properties through
    (state/src/raw.rs), and the in-memory host storage of the crate's tests
    (state/src/storage.rs).

    The host's store and retrieve callbacks are foreign functions; the model
    takes them as function values. The status codes and flags are those of the
    LV2 state extension's C header. */
module State {
  import opened Bytes
  import opened Wrappers
  import opened Errors
  import opened Util
  import opened Aligned
  import opened Header
  import opened Unidentified
  import opened Reader
  import opened Allocator
  import opened SpaceWriter
  import opened Urid

  const STATE_SUCCESS: u32 := 0
  const STATE_ERR_UNKNOWN: u32 := 1
  const STATE_ERR_BAD_TYPE: u32 := 2
  const STATE_ERR_BAD_FLAGS: u32 := 3
  const STATE_ERR_NO_FEATURE: u32 := 4
  const STATE_ERR_NO_PROPERTY: u32 := 5
  const STATE_ERR_NO_SPACE: u32 := 6

  const STATE_IS_POD: u32 := 1
  const STATE_IS_PORTABLE: u32 := 2
  /** `LV2_STATE_IS_POD | LV2_STATE_IS_PORTABLE`. */
  const POD_PORTABLE: u32 := 3

  datatype StateErr =
    | Unknown
    | BadCallback
    | BadData
    | BadType
    | BadFlags
    | NoFeature
    | NoProperty
    | NoSpace

  /** The seven status codes the extension names. */
  predicate IsNamedStatus(code: u32) {
    code <= STATE_ERR_NO_SPACE
  }

  /** `StateErr::from`: a status code as a result; a code the extension does
      not name is `Unknown`. */
  function FromStatus(code: u32): (r: Result<(), StateErr>)
    ensures r.Ok? <==> code == STATE_SUCCESS
    ensures !IsNamedStatus(code) ==> r == Err(Unknown)
    ensures r.Err? ==> r.error !in {BadCallback, BadData}
  {
    if code == STATE_SUCCESS then Ok(())
    else if code == STATE_ERR_BAD_TYPE then Err(BadType)
    else if code == STATE_ERR_BAD_FLAGS then Err(BadFlags)
    else if code == STATE_ERR_NO_FEATURE then Err(NoFeature)
    else if code == STATE_ERR_NO_PROPERTY then Err(NoProperty)
    else if code == STATE_ERR_NO_SPACE then Err(NoSpace)
    else Err(Unknown)
  }

  /** `StateErr::into`: a result as a status code; the errors the extension
      has no code for are `ERR_UNKNOWN`. */
  function IntoStatus(r: Result<(), StateErr>): (code: u32)
    ensures IsNamedStatus(code)
    ensures code == STATE_SUCCESS <==> r.Ok?
    ensures r.Err? && r.error in {Unknown, BadCallback, BadData} ==> code == STATE_ERR_UNKNOWN
  {
    match r
    case Ok(_) => STATE_SUCCESS
    case Err(BadType) => STATE_ERR_BAD_TYPE
    case Err(BadFlags) => STATE_ERR_BAD_FLAGS
    case Err(NoFeature) => STATE_ERR_NO_FEATURE
    case Err(NoProperty) => STATE_ERR_NO_PROPERTY
    case Err(NoSpace) => STATE_ERR_NO_SPACE
    case Err(_) => STATE_ERR_UNKNOWN
  }

  /** A result survives the trip through its status code unless it is one of
      the two errors without a code of their own, which come back as
      `Unknown`. */
  lemma {:induction false} FromIntoStatus(r: Result<(), StateErr>)
    ensures r.Err? && r.error in {BadCallback, BadData} ==> FromStatus(IntoStatus(r)) == Err(Unknown)
    ensures !(r.Err? && r.error in {BadCallback, BadData}) ==> FromStatus(IntoStatus(r)) == r
  {
    match r
    case Ok(u) => assert u == ();
    case Err(e) =>
      match e
      case Unknown =>
      case BadCallback =>
      case BadData =>
      case BadType =>
      case BadFlags =>
      case NoFeature =>
      case NoProperty =>
      case NoSpace =>
  }

  /** Each named status code survives the trip through its result. */
  lemma {:induction false} IntoFromStatus(code: u32)
    requires IsNamedStatus(code)
    ensures IntoStatus(FromStatus(code)) == code
  {
  }

  /** The conversion test: `u32::MAX` is not a status and reads as
      `Unknown`. */
  lemma {:induction false} StatusExample()
    ensures FromStatus(0xFFFF_FFFF) == Err(Unknown)
    ensures IntoStatus(Err(Unknown)) == STATE_ERR_UNKNOWN
  {
  }

  // ---------------------------------------------------------------------
  // StoreHandle
  // ---------------------------------------------------------------------

  /** The host's store callback: key, value bytes (pointer and size), type and
      flags to a status code. */
  type StoreFn = (u32, seq<byte>, u32, u32) -> u32

  /** `StoreHandle`: the drafted properties, each an `AlignedVec<AtomHeader>`
      (its bytes here; the vector's start is 8-aligned, address 0 in the
      model), and the host's optional store callback. */
  datatype StoreHandle = StoreHandle(properties: map<Urid, seq<byte>>, storeFn: Option<StoreFn>)

  /** `StatePropertyWriter`: a cursor at the start of a draft buffer and
      whether `init` was called. */
  datatype PropertyWriter = PropertyWriter(cursor: Writer, initialized: bool)

  /** `StoreHandle::new`. */
  function NewStoreHandle(storeFn: Option<StoreFn>): (h: StoreHandle)
    ensures h.properties == map[] && h.storeFn == storeFn
  {
    StoreHandle(map[], storeFn)
  }

  /** `draft(key)`: the key's existing buffer, or a new empty one, and a
      writer whose cursor starts at the buffer's beginning. Other drafts are
      untouched. */
  function Draft(h: StoreHandle, key: Urid): (r: (StoreHandle, PropertyWriter))
    requires key in h.properties ==> |h.properties[key]| <= ISIZE_MAX  // a `Vec` never holds more
    ensures key in r.0.properties
    ensures key in h.properties ==> r.0 == h
    ensures key !in h.properties ==> r.0.properties == h.properties[key := []]
    ensures r.0.storeFn == h.storeFn
    ensures !r.1.initialized && Wf(r.1.cursor) && Used(r.1.cursor) == 0
    ensures r.1.cursor == Cursor(Root(Vec(ATOM_HEADER), 0, r.0.properties[key], 0))
  {
    var h' := if key in h.properties then h else h.(properties := h.properties[key := []]);
    (h', PropertyWriter(Cursor(Root(Vec(ATOM_HEADER), 0, h'.properties[key], 0)), false))
  }

  /** The end of a draft writer's borrow: what it wrote is the key's buffer. */
  function EndDraft(h: StoreHandle, key: Urid, w: Writer): (h': StoreHandle)
    ensures h'.properties == h.properties[key := Buffer(w)] && h'.storeFn == h.storeFn
  {
    h.(properties := h.properties[key := Buffer(w)])
  }

  /** `StatePropertyWriter::init(urid)`: the first call writes the property's
      atom header; every later call fails with `Unknown`. The flag is set
      before writing, so a failed first write also blocks every retry. */
  function Init(pw: PropertyWriter, urid: Urid): (r: (PropertyWriter, Result<Writer, StateErr>))
    requires Wf(pw.cursor)
    ensures r.0.initialized && Wf(r.0.cursor)
    ensures pw.initialized ==> r == (pw, Err(Unknown))
    ensures !pw.initialized ==>
              r.0.cursor == WriteNew(pw.cursor, urid).writer &&
              (r.1.Ok? <==> WriteNew(pw.cursor, urid).result.Ok?) &&
              (r.1.Ok? ==> r.1.value == WriteNew(pw.cursor, urid).result.value) &&
              (r.1.Err? ==> r.1.error == Unknown)
  {
    if pw.initialized then (pw, Err(Unknown))
    else
      var s := WriteNew(pw.cursor, urid);
      (PropertyWriter(s.writer, true), if s.result.Ok? then Ok(s.result.value) else Err(Unknown))
  }

  /** Whatever the first `init` did, a second one fails and changes nothing. */
  lemma {:induction false} InitOnce(pw: PropertyWriter, u1: Urid, u2: Urid)
    requires Wf(pw.cursor)
    ensures var pw1 := Init(pw, u1).0;
            Init(pw1, u2) == (pw1, Err(Unknown))
  {
  }

  /** `commit_pair`: no callback is `BadCallback`, a buffer without a whole
      atom is `BadData`; otherwise the callback receives the atom's body, its
      type and the POD and portable flags, and its status is the result. */
  function CommitPair(storeFn: Option<StoreFn>, key: Urid, buf: seq<byte>): (r: Result<(), StateErr>)
    ensures storeFn.None? ==> r == Err(BadCallback)
    ensures storeFn.Some? && NextAtom(Space(0, buf)).Err? ==> r == Err(BadData)
    ensures storeFn.Some? && NextAtom(Space(0, buf)).Ok? ==>
              var a := NextAtom(Space(0, buf)).value.0;
              r == FromStatus(storeFn.value(key as u32, a.body, a.header.urid, POD_PORTABLE))
  {
    match storeFn
    case None => Err(BadCallback)
    case Some(f) =>
      match NextAtom(Space(0, buf))
      case Err(_) => Err(BadData)
      case Ok(a) => FromStatus(f(key as u32, Body(a.0).bytes, a.0.header.urid, POD_PORTABLE))
  }

  /** `commit(key)`: `None` for a key that was not drafted; otherwise the
      draft is removed and committed. */
  function Commit(h: StoreHandle, key: Urid): (r: (StoreHandle, Option<Result<(), StateErr>>))
    ensures key !in h.properties ==> r == (h, None)
    ensures key in h.properties ==>
              r.0 == h.(properties := h.properties - {key}) &&
              r.1 == Some(CommitPair(h.storeFn, key, h.properties[key]))
  {
    if key !in h.properties then (h, None)
    else (h.(properties := h.properties - {key}), Some(CommitPair(h.storeFn, key, h.properties[key])))
  }

  /** An order of the drafted keys: each key exactly once. `HashMap::drain`
      visits the keys in an order Rust leaves unspecified, so the model takes
      it as a parameter. */
  predicate IsKeyOrder(props: map<Urid, seq<byte>>, order: seq<Urid>) {
    (forall k :: k in props ==> k in order) &&
    (forall k :: k in order ==> k in props) &&
    (forall i, j :: 0 <= i < j < |order| ==> order[i] != order[j])
  }

  /** The commits of `commit_all` in the given order, stopping at the first
      error. */
  function CommitInOrder(storeFn: Option<StoreFn>, props: map<Urid, seq<byte>>, order: seq<Urid>): (r: Result<(), StateErr>)
    requires forall k :: k in order ==> k in props
  {
    if order == [] then Ok(())
    else
      var _ :- CommitPair(storeFn, order[0], props[order[0]]);
      CommitInOrder(storeFn, props, order[1..])
  }

  /** `commit_all`: the drafts are drained, even when a commit fails, and the
      first failing commit's error is the result. */
  function CommitAll(h: StoreHandle, order: seq<Urid>): (r: (StoreHandle, Result<(), StateErr>))
    requires IsKeyOrder(h.properties, order)
    ensures r.0.properties == map[] && r.0.storeFn == h.storeFn
    ensures r.1.Ok? <==> forall k :: k in h.properties ==> CommitPair(h.storeFn, k, h.properties[k]).Ok?
  {
    CommitAllOk(h.storeFn, h.properties, order);
    (h.(properties := map[]), CommitInOrder(h.storeFn, h.properties, order))
  }

  /** Committing in any order succeeds exactly when every single commit
      does. */
  lemma {:induction false} CommitAllOk(storeFn: Option<StoreFn>, props: map<Urid, seq<byte>>, order: seq<Urid>)
    requires forall k :: k in order ==> k in props
    ensures CommitInOrder(storeFn, props, order).Ok? <==>
              forall k :: k in order ==> CommitPair(storeFn, k, props[k]).Ok?
  {
    if order != [] {
      CommitAllOk(storeFn, props, order[1..]);
      assert forall k :: k in order <==> k == order[0] || k in order[1..];
    }
  }

  /** `discard(key)`: forgets the draft; a key never drafted is a no-op. */
  function Discard(h: StoreHandle, key: Urid): (h': StoreHandle)
    ensures key !in h'.properties && h'.storeFn == h.storeFn
    ensures key !in h.properties ==> h' == h
    ensures forall k :: k != key ==> (k in h'.properties <==> k in h.properties)
    ensures forall k :: k != key && k in h.properties ==> h'.properties[k] == h.properties[k]
  {
    h.(properties := h.properties - {key})
  }

  /** `discard_all`. */
  function DiscardAll(h: StoreHandle): (h': StoreHandle)
    ensures h'.properties == map[] && h'.storeFn == h.storeFn
  {
    h.(properties := map[])
  }

  // ---------------------------------------------------------------------
  // RetrieveHandle
  // ---------------------------------------------------------------------

  /** What the host's retrieve callback answers: the property's bytes with
      their address, or `None` for the null pointer, and the type it wrote
      (0 when it wrote none). */
  datatype RetrieveAnswer = RetrieveAnswer(data: Option<Space>, type_: u32)

  type RetrieveFn = u32 -> RetrieveAnswer

  /** `StatePropertyReader`: the property's type and its body. */
  datatype PropertyReader = PropertyReader(type_: Urid, body: Space)

  /** `RetrieveHandle::retrieve(key)`: checks in order for a callback, for a
      type, for a property, and for an 8-aligned body. */
  function Retrieve(retrieveFn: Option<RetrieveFn>, key: Urid): (r: Result<PropertyReader, StateErr>)
    ensures retrieveFn.None? ==> r == Err(BadCallback)
    ensures retrieveFn.Some? ==>
              var a := retrieveFn.value(key as u32);
              (a.type_ == 0 ==> r == Err(Unknown)) &&
              (a.type_ != 0 && a.data.None? ==> r == Err(NoProperty)) &&
              (a.type_ != 0 && a.data.Some? && a.data.value.addr % 8 != 0 ==> r == Err(BadData)) &&
              (r.Ok? <==> a.type_ != 0 && a.data.Some? && a.data.value.addr % 8 == 0) &&
              (r.Ok? ==> r.value == PropertyReader(a.type_, a.data.value))
  {
    match retrieveFn
    case None => Err(BadCallback)
    case Some(f) =>
      var a := f(key as u32);
      match NewUrid(a.type_)
      case None => Err(Unknown)
      case Some(t) =>
        match a.data
        case None => Err(NoProperty)
        case Some(space) =>
          match FromBytes(ATOM_HEADER, space)
          case Err(_) => Err(BadData)
          case Ok(body) => Ok(PropertyReader(t, body))
  }

  /** `StatePropertyReader::read(urid)`: the atom type's `read` on the body
      when the types agree, `BadType` otherwise; any read error is
      `Unknown`. */
  function ReadProperty<T>(pr: PropertyReader, urid: Urid, read: Space -> Result<T, AtomReadError>): (r: Result<T, StateErr>)
    ensures urid != pr.type_ ==> r == Err(BadType)
    ensures urid == pr.type_ ==> (r.Ok? <==> read(pr.body).Ok?)
    ensures urid == pr.type_ && r.Ok? ==> r.value == read(pr.body).value
    ensures r.Err? && urid == pr.type_ ==> r.error == Unknown
  {
    if urid == pr.type_ then
      match read(pr.body)
      case Ok(v) => Ok(v)
      case Err(_) => Err(Unknown)
    else Err(BadType)
  }

  // ---------------------------------------------------------------------
  // Storage
  // ---------------------------------------------------------------------

  /** `Storage`: the host side of the tests, key to type and bytes. */
  datatype Storage = Storage(items: map<Urid, (Urid, seq<byte>)>)

  /** `store`: inserts or overwrites the key. */
  function Store(st: Storage, key: Urid, type_: Urid, value: seq<byte>): (st': Storage)
    ensures key in st'.items && st'.items[key] == (type_, value)
    ensures forall k :: k != key ==> (k in st'.items <==> k in st.items)
    ensures forall k :: k != key && k in st.items ==> st'.items[k] == st.items[k]
  {
    Storage(st.items[key := (type_, value)])
  }

  /** `retrieve`: the stored type and bytes of a key. */
  function RetrieveStored(st: Storage, key: Urid): (r: Option<(Urid, seq<byte>)>)
    ensures r.Some? <==> key in st.items
    ensures r.Some? ==> r.value == st.items[key]
  {
    if key in st.items then Some(st.items[key]) else None
  }

  /** What is stored is retrieved, and storing one key leaves the others'
      answers alone. */
  lemma {:induction false} StoreRetrieve(st: Storage, key: Urid, type_: Urid, value: seq<byte>, other: Urid)
    requires other != key
    ensures RetrieveStored(Store(st, key, type_, value), key) == Some((type_, value))
    ensures RetrieveStored(Store(st, key, type_, value), other) == RetrieveStored(st, other)
  {
  }

  /** `extern_store`: unwraps the key and the type, which panics on 0
      (`None` here), and otherwise stores and reports success. */
  function ExternStore(st: Storage, key: u32, value: seq<byte>, type_: u32): (r: Option<(Storage, u32)>)
    ensures r.Some? <==> key != 0 && type_ != 0
    ensures r.Some? ==> r.value.1 == STATE_SUCCESS && r.value.0 == Store(st, key, type_, value)
  {
    if key == 0 || type_ == 0 then None
    else Some((Store(st, key, type_, value), STATE_SUCCESS))
  }

  /** What `extern_retrieve` leaves behind: the returned bytes (`None` for
      the null pointer) and the values it wrote through the size, type and
      flags pointers (`None` where it wrote nothing). */
  datatype ExternRetrieved = ExternRetrieved(data: Option<seq<byte>>, size: Option<nat>, type_: Option<u32>, flags: Option<u32>)

  /** `extern_retrieve`: writes the POD and portable flags whenever the flags
      pointer is not null, panics (`None`) on key 0, and answers the stored
      bytes with their size and type, or null. */
  function ExternRetrieve(st: Storage, key: u32, hasFlags: bool): (r: Option<ExternRetrieved>)
    ensures r.Some? <==> key != 0
    ensures r.Some? ==> (r.value.flags.Some? <==> hasFlags) && (hasFlags ==> r.value.flags == Some(POD_PORTABLE))
    ensures r.Some? ==> (r.value.data.Some? <==> key in st.items)
    ensures r.Some? && r.value.data.None? ==> r.value.size.None? && r.value.type_.None?
    ensures r.Some? && r.value.data.Some? ==>
              r.value.data.value == st.items[key].1 &&
              r.value.size == Some(|st.items[key].1|) &&
              r.value.type_ == Some(st.items[key].0 as u32)
  {
    var flags := if hasFlags then Some(POD_PORTABLE) else None;
    match NewUrid(key)
    case None => None
    case Some(k) =>
      match RetrieveStored(st, k)
      case None => Some(ExternRetrieved(None, None, None, flags))
      case Some((t, data)) => Some(ExternRetrieved(Some(data), Some(|data|), Some(t as u32), flags))
  }

  /** A value stored through the C adapter comes back through it with its
      size and type. */
  lemma {:induction false} ExternStoreRetrieve(st: Storage, key: u32, value: seq<byte>, type_: u32)
    requires key != 0 && type_ != 0
    ensures var st' := ExternStore(st, key, value, type_).value.0;
            ExternRetrieve(st', key, false) == Some(ExternRetrieved(Some(value), Some(|value|), Some(type_), None))
  {
  }
}
