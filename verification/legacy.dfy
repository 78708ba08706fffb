/** The linked-list allocator of atom/src/space/list.rs.

    A `SpaceList` element optionally owns its successor together with the
    byte chunk allocated for it. The model holds the whole list as seen from
    its first element: element `e` (0 is the first one) owns `chunks[e]` and
    element `e + 1` whenever `e < |chunks|`, and element `|chunks|` is the
    last one. A `SpaceHead` refers to one element by its position. */
module SpaceLists {
  import opened Bytes
  import opened Wrappers
  import opened Header

  datatype SpaceList = SpaceList(chunks: seq<seq<byte>>)

  /** `SpaceList::default()`: one element without a successor. */
  const Single: SpaceList := SpaceList([])

  predicate IsElement(l: SpaceList, e: nat) {
    e <= |l.chunks|
  }

  /** `SpaceList::allocate` on element `e`: an element that already has a
      successor refuses; the last element gets a successor and a zeroed chunk
      of exactly `size` bytes. The result is the new element and the index of
      the new chunk, which the caller writes through. */
  function Allocate(l: SpaceList, e: nat, size: nat): (r: Option<(SpaceList, nat, nat)>)
    requires IsElement(l, e)
    ensures r.None? <==> e < |l.chunks|
    ensures r.Some? ==> var (l', next, chunk) := r.value;
              l'.chunks == l.chunks + [Zeros(size)] &&
              next == e + 1 && next == |l'.chunks| && chunk == e
  {
    if e < |l.chunks| then None
    else Some((SpaceList(l.chunks + [Zeros(size)]), e + 1, e))
  }

  /** `iter` on element `e`: the chunks of the elements after it, in order. */
  function Iter(l: SpaceList, e: nat): (r: seq<seq<byte>>)
    requires IsElement(l, e)
    ensures |r| == |l.chunks| - e
    ensures forall i :: 0 <= i < |r| ==> r[i] == l.chunks[e + i]
  {
    l.chunks[e..]
  }

  /** The chunks' bytes one after the other. */
  function Concat(cs: seq<seq<byte>>): seq<byte>
    decreases |cs|
  {
    if cs == [] then [] else cs[0] + Concat(cs[1..])
  }

  /** `to_vec` on element `e`: the bytes of every chunk after `e`. The last
      element yields nothing; any other yields its own chunk first (and then
      what its successor yields, see `ToVecFront`). */
  function ToVec(l: SpaceList, e: nat): (r: seq<byte>)
    requires IsElement(l, e)
    ensures e == |l.chunks| ==> r == []
    ensures e < |l.chunks| ==> |l.chunks[e]| <= |r| && r[..|l.chunks[e]|] == l.chunks[e]
  {
    Concat(Iter(l, e))
  }

  lemma {:induction false} ToVecFront(l: SpaceList, e: nat)
    requires e < |l.chunks|
    ensures ToVec(l, e) == l.chunks[e] + ToVec(l, e + 1)
  {
    assert l.chunks[e..][1..] == l.chunks[e + 1..];
  }

  /** Writing through a chunk that `Allocate` handed out: its bytes become
      `data`, of the same length. */
  function WriteChunk(l: SpaceList, chunk: nat, data: seq<byte>): (r: SpaceList)
    requires chunk < |l.chunks| && |data| == |l.chunks[chunk]|
    ensures |r.chunks| == |l.chunks| && r.chunks[chunk] == data
    ensures forall i :: 0 <= i < |l.chunks| && i != chunk ==> r.chunks[i] == l.chunks[i]
  {
    SpaceList(l.chunks[chunk := data])
  }

  /** Appending a chunk appends its bytes to what every element yields. */
  lemma {:induction false} ToVecAppend(l: SpaceList, e: nat, c: seq<byte>)
    requires IsElement(l, e)
    ensures ToVec(SpaceList(l.chunks + [c]), e) == ToVec(l, e) + c
    decreases |l.chunks| - e
  {
    var l' := SpaceList(l.chunks + [c]);
    ToVecFront(l', e);
    if e == |l.chunks| {
      assert ToVec(l', e + 1) == [];
    } else {
      ToVecAppend(l, e + 1, c);
      ToVecFront(l, e);
      assert l'.chunks[e] == l.chunks[e];
    }
  }

  /** `SpaceHead`: the element it appends after (`None` once taken) and the
      number of bytes it allocated. */
  datatype SpaceHead = SpaceHead(element: Option<nat>, allocatedSpace: nat)

  /** `SpaceHead::new`. */
  function NewHead(e: nat): SpaceHead {
    SpaceHead(Some(e), 0)
  }

  predicate HeadIn(l: SpaceList, h: SpaceHead) {
    h.element.Some? ==> IsElement(l, h.element.value)
  }

  /** `allocate_unaligned`: takes the element out of the head before asking
      it to allocate, so a refusal leaves the head without an element; on
      success the head moves to the new element and counts the bytes. The
      result is the list, the head and the index of the new chunk. */
  function AllocateUnaligned(l: SpaceList, h: SpaceHead, size: nat): (r: (SpaceList, SpaceHead, Option<nat>))
    requires HeadIn(l, h)
    ensures HeadIn(r.0, r.1)
    ensures r.2.Some? <==> h.element == Some(|l.chunks|)
    ensures r.2.None? ==> r.0 == l && r.1 == SpaceHead(None, h.allocatedSpace)
    ensures r.2.Some? ==>
              r.0.chunks == l.chunks + [Zeros(size)] && r.2.value == |l.chunks| &&
              r.1 == SpaceHead(Some(|r.0.chunks|), h.allocatedSpace + size)
  {
    match h.element
    case None => (l, h, None)
    case Some(e) =>
      match Allocate(l, e, size)
      case None => (l, SpaceHead(None, h.allocatedSpace), None)
      case Some((l', next, chunk)) => (l', SpaceHead(Some(next), h.allocatedSpace + size), Some(chunk))
  }

  /** A head at the last element whose count matches the list's bytes. */
  predicate HeadAtTail(l: SpaceList, h: SpaceHead) {
    h.element == Some(|l.chunks|) && h.allocatedSpace == |ToVec(l, 0)|
  }

  /** Allocating `sizes` one after another through a head; the flag says
      whether every allocation succeeded. */
  function AllocateAll(l: SpaceList, h: SpaceHead, sizes: seq<nat>): (r: (SpaceList, SpaceHead, bool))
    requires HeadIn(l, h)
    decreases |sizes|
  {
    if sizes == [] then (l, h, true)
    else
      var (l1, h1, chunk) := AllocateUnaligned(l, h, sizes[0]);
      var (l2, h2, ok) := AllocateAll(l1, h1, sizes[1..]);
      (l2, h2, ok && chunk.Some?)
  }

  /** Zeroed chunks of the given sizes, in order. */
  function ZeroChunks(sizes: seq<nat>): (r: seq<seq<byte>>)
    ensures |r| == |sizes|
    decreases |sizes|
  {
    if sizes == [] then [] else [Zeros(sizes[0])] + ZeroChunks(sizes[1..])
  }

  /** A head at the last element never fails: every allocation appends a
      zeroed chunk of the requested size, the head stays at the last element,
      and its count stays the number of bytes the list yields. */
  lemma {:induction false} AllocateAllAtTail(l: SpaceList, h: SpaceHead, sizes: seq<nat>)
    requires HeadAtTail(l, h)
    ensures var r := AllocateAll(l, h, sizes);
            r.2 && HeadAtTail(r.0, r.1) && r.0.chunks == l.chunks + ZeroChunks(sizes)
    decreases |sizes|
  {
    if sizes != [] {
      var r1 := AllocateUnaligned(l, h, sizes[0]);
      ToVecAppend(l, 0, Zeros(sizes[0]));
      AllocateAllAtTail(r1.0, r1.1, sizes[1..]);
      AllocateAllFirst(l, h, sizes);
      assert l.chunks + [Zeros(sizes[0])] + ZeroChunks(sizes[1..]) == l.chunks + ZeroChunks(sizes);
    }
  }

  /** The first allocation of a successful run is the head's own. */
  lemma {:induction false} AllocateAllFirst(l: SpaceList, h: SpaceHead, sizes: seq<nat>)
    requires HeadIn(l, h) && sizes != [] && h.element == Some(|l.chunks|)
    ensures var r1 := AllocateUnaligned(l, h, sizes[0]);
            AllocateAll(l, h, sizes) == AllocateAll(r1.0, r1.1, sizes[1..])
  {
  }

  /** The usage example: a head on a new list allocates an atom header and
      then a 4-byte body, the caller writes an `Int` atom through the two
      chunks, and `to_vec` on the first element holds that atom. */
  lemma {:induction false} HeadWriteExample(urid: u32, v: u32)
    ensures var h0 := NewHead(0);
            var (l1, h1, c1) := AllocateUnaligned(Single, h0, HEADER_SIZE);
            c1 == Some(0) &&
            var l2 := WriteChunk(l1, 0, Encode(AtomHeader(4, urid)));
            var (l3, h3, c2) := AllocateUnaligned(l2, h1, 4);
            c2 == Some(1) &&
            var l4 := WriteChunk(l3, 1, EncodeU32(v));
            var bytes := ToVec(l4, 0);
            |bytes| == 12 && h3.allocatedSpace == 12 &&
            Decode(bytes[..8]) == AtomHeader(4, urid) && DecodeU32(bytes[8..]) == v
  {
    var l1 := SpaceList([Zeros(HEADER_SIZE)]);
    var l2 := WriteChunk(l1, 0, Encode(AtomHeader(4, urid)));
    var l3 := SpaceList(l2.chunks + [Zeros(4)]);
    var l4 := WriteChunk(l3, 1, EncodeU32(v));
    assert l4.chunks == [Encode(AtomHeader(4, urid)), EncodeU32(v)];
    assert ToVec(l4, 2) == [];
    ToVecFront(l4, 1);
    ToVecFront(l4, 0);
    var bytes := ToVec(l4, 0);
    assert bytes == Encode(AtomHeader(4, urid)) + EncodeU32(v);
    assert bytes[..8] == Encode(AtomHeader(4, urid));
    assert bytes[8..] == EncodeU32(v);
    DecodeEncode(AtomHeader(4, urid));
    U32RoundTrip(v);
  }
}

/** The legacy atom spaces of atom/src/atomspace.rs: `AtomSpace`, a shared
    slice that atoms are read from, and `MutAtomSpace`, a mutable slice that
    data is written into. Both must start at a multiple of 8, and both skip
    to the next multiple of 8 after every item. */
module LegacyAtomSpace {
  import opened Bytes
  import opened Wrappers
  import opened Util
  import opened Aligned
  import opened Header

  /** The padding after `n` bytes, computed as the source does. It is the
      general padding towards an 8-aligned address. */
  function Pad8(n: nat): (p: nat)
    ensures p == Padding(n, 8)
  {
    if n % 8 == 0 then 0 else 8 - n % 8
  }

  /** The invariant both `new`s establish. */
  predicate Valid(s: Space) {
    s.addr % 8 == 0
  }

  /** `AtomSpace::new` and `MutAtomSpace::new`: `None` stands for the panic
      on a start address that is not a multiple of 8. */
  function New(s: Space): (r: Option<Space>)
    ensures r.Some? <==> Valid(s)
    ensures r.Some? ==> r.value == s
  {
    if s.addr % 8 != 0 then None else Some(s)
  }

  lemma {:induction false} AlignedAfter(addr: nat, n: nat)
    requires addr % 8 == 0
    ensures (addr + n + Pad8(n)) % 8 == 0
  {
    var q := addr / 8;
    assert addr == 8 * q;
    var k := (n + Pad8(n)) / 8;
    assert n + Pad8(n) == 8 * k;
    assert addr + n + Pad8(n) == 8 * (q + k);
  }

  /** `retrieve_raw(size)`: the first `size` bytes and, past the padding that
      follows them, the rest as a new space. The rest is missing when the
      padding runs past the end; a rest of zero bytes is still a space. */
  function RetrieveRaw(s: Space, size: nat): (r: Option<(seq<byte>, Option<Space>)>)
    requires Valid(s)
    ensures r.None? <==> size > |s.bytes|
    ensures r.Some? ==> r.value.0 == s.bytes[..size]
    ensures r.Some? ==> (r.value.1.Some? <==> size + Pad8(size) <= |s.bytes|)
    ensures r.Some? && r.value.1.Some? ==>
              var u := r.value.1.value;
              Valid(u) && u.addr == s.addr + size + Pad8(size) &&
              s.bytes == r.value.0 + s.bytes[size..size + Pad8(size)] + u.bytes
  {
    if size > |s.bytes| then None
    else
      var lower := s.bytes[..size];
      var upper := s.bytes[size..];
      var padding := Pad8(size);
      if padding <= |upper| then
        AlignedAfter(s.addr, size);
        assert s.bytes == lower + upper[..padding] + upper[padding..];
        Some((lower, Some(Space(s.addr + size + padding, upper[padding..]))))
      else Some((lower, None))
  }

  /** `retrieve_space(size)`: `retrieve_raw` with the lower part as a space
      of its own, starting where `s` starts. */
  function RetrieveSpace(s: Space, size: nat): (r: Option<(Space, Option<Space>)>)
    requires Valid(s)
    ensures r.None? <==> size > |s.bytes|
    ensures r.Some? ==> r.value.0 == Space(s.addr, s.bytes[..size]) && Valid(r.value.0)
    ensures r.Some? ==> r.value.1 == RetrieveRaw(s, size).value.1
  {
    match RetrieveRaw(s, size)
    case None => None
    case Some((lower, upper)) => Some((Space(s.addr, lower), upper))
  }

  /** What the `retrieve_type` family returns: the panic of a failed
      assertion, no result, or a result and the space after it. */
  datatype Retrieved<T> = Panicked | Missing | Found(value: T, upper: Option<Space>)

  /** `retrieve_type::<T>`: asserts that 8 is a multiple of `T`'s alignment,
      then retrieves `size_of::<T>()` bytes; the value is those bytes. */
  function RetrieveType(s: Space, l: Layout): (r: Retrieved<seq<byte>>)
    requires Valid(s)
    ensures r.Panicked? <==> 8 % l.align != 0
    ensures r.Missing? <==> 8 % l.align == 0 && l.size > |s.bytes|
    ensures r.Found? ==> r.value == s.bytes[..l.size] && r.upper == RetrieveRaw(s, l.size).value.1
  {
    if 8 % l.align != 0 then Panicked
    else match RetrieveRaw(s, l.size)
      case None => Missing
      case Some((lower, upper)) => Found(lower, upper)
  }

  /** `sys::LV2_Atom`: two `u32`s. */
  const LV2_ATOM: Layout := Layout(8, 4)

  /** `retrieve_atom::<T>`: reads a header, requires its type to be `urid`,
      retrieves `size` body bytes as a space and lets `T::create_ref` (a
      parameter, as the body type is not known here) interpret them. */
  function RetrieveAtom<T>(s: Space, urid: u32, createRef: Space -> Option<T>): (r: Option<(T, Option<Space>)>)
    requires Valid(s)
    ensures r.Some? <==>
              HEADER_SIZE <= |s.bytes| && HeaderAt(s.bytes, 0).urid == urid &&
              HEADER_SIZE + HeaderAt(s.bytes, 0).size <= |s.bytes| &&
              createRef(Space(s.addr + HEADER_SIZE, s.bytes[HEADER_SIZE..HEADER_SIZE + HeaderAt(s.bytes, 0).size])).Some?
    ensures r.Some? ==>
              var n := HeaderAt(s.bytes, 0).size;
              r.value.0 == createRef(Space(s.addr + HEADER_SIZE, s.bytes[HEADER_SIZE..HEADER_SIZE + n])).value &&
              (r.value.1.Some? <==> HEADER_SIZE + n + Pad8(n) <= |s.bytes|) &&
              (r.value.1.Some? ==> r.value.1.value == Space(s.addr + HEADER_SIZE + n + Pad8(n), s.bytes[HEADER_SIZE + n + Pad8(n)..]))
  {
    match RetrieveType(s, LV2_ATOM)
    case Panicked => None
    case Missing => None
    case Found(headerBytes, next) =>
      var header := Decode(headerBytes);
      if header.urid != urid || next.None? then None
      else
        var upper := next.value;
        assert upper == Space(s.addr + HEADER_SIZE, s.bytes[HEADER_SIZE..]);
        assert header == HeaderAt(s.bytes, 0);
        match RetrieveSpace(upper, header.size)
        case None => None
        case Some((body, rest)) =>
          assert body.bytes == s.bytes[HEADER_SIZE..HEADER_SIZE + header.size];
          assert rest.Some? ==> rest.value.bytes == s.bytes[HEADER_SIZE + header.size + Pad8(header.size)..];
          match createRef(body)
          case None => None
          case Some(atom) => Some((atom, rest))
  }

  /** An encoded atom of type `urid` is retrieved whole: `create_ref` sees
      exactly its body, and the space after it starts past the body's
      padding. */
  lemma {:induction false} RetrieveEncodedAtom<T>(addr: nat, urid: u32, body: seq<byte>, rest: seq<byte>, createRef: Space -> Option<T>)
    requires addr % 8 == 0 && |body| < U32_LIMIT
    requires createRef(Space(addr + HEADER_SIZE, body)).Some?
    ensures var s := Space(addr, Encode(AtomHeader(|body|, urid)) + body + Zeros(Pad8(|body|)) + rest);
            var end := addr + HEADER_SIZE + |body| + Pad8(|body|);
            RetrieveAtom(s, urid, createRef) == Some((createRef(Space(addr + HEADER_SIZE, body)).value, Some(Space(end, rest))))
  {
    var h := AtomHeader(|body|, urid);
    var bytes := Encode(h) + body + Zeros(Pad8(|body|)) + rest;
    assert bytes[..HEADER_SIZE] == Encode(h);
    DecodeEncode(h);
    assert HeaderAt(bytes, 0) == h;
    assert bytes[HEADER_SIZE..HEADER_SIZE + |body|] == body;
    assert bytes[HEADER_SIZE + |body| + Pad8(|body|)..] == rest;
  }

  /** The test: 128 bytes counting up, then the u32 0x42424242, read back as
      a 128-byte slice and a `u32` from the space after it. */
  lemma {:induction false} RetrieveRawExample(addr: nat, b: seq<byte>)
    requires addr % 8 == 0 && |b| == 256
    requires forall i :: 0 <= i < 128 ==> b[i] == i
    requires b[128..132] == EncodeU32(0x4242_4242)
    ensures var r := RetrieveRaw(Space(addr, b), 128);
            r.Some? && (forall i :: 0 <= i < 128 ==> r.value.0[i] == i) &&
            r.value.1.Some? &&
            var t := RetrieveType(r.value.1.value, U32);
            t.Found? && DecodeU32(t.value) == 0x4242_4242
  {
    var u := Space(addr + 128, b[128..]);
    assert u.bytes[..4] == EncodeU32(0x4242_4242);
    U32RoundTrip(0x4242_4242);
  }

  /** A `MutAtomSpace` after a write: the whole space's new contents, the
      written lower part and the space after it. */
  datatype Written = Written(memory: Space, lower: seq<byte>, upper: Option<Space>)

  /** `MutAtomSpace::write_raw`: gives the space back when the data does not
      fit; otherwise copies the data to its start and keeps the rest past the
      padding, but only when at least one byte is left after the padding. */
  function WriteRaw(s: Space, raw: seq<byte>): (r: Result<Written, Space>)
    requires Valid(s)
    ensures r.Err? <==> |raw| > |s.bytes|
    ensures r.Err? ==> r.error == s
    ensures r.Ok? ==> r.value.memory == Space(s.addr, raw + s.bytes[|raw|..]) && r.value.lower == raw
    ensures r.Ok? ==> (r.value.upper.Some? <==> |raw| + Pad8(|raw|) < |s.bytes|)
    ensures r.Ok? && r.value.upper.Some? ==>
              var u := r.value.upper.value;
              Valid(u) && u.addr == s.addr + |raw| + Pad8(|raw|) && u.bytes == s.bytes[|raw| + Pad8(|raw|)..]
  {
    if |raw| > |s.bytes| then Err(s)
    else
      var memory := Space(s.addr, raw + s.bytes[|raw|..]);
      var upper := s.bytes[|raw|..];
      var padding := Pad8(|raw|);
      if padding < |upper| then
        AlignedAfter(s.addr, |raw|);
        Ok(Written(memory, raw, Some(Space(s.addr + |raw| + padding, upper[padding..]))))
      else Ok(Written(memory, raw, None))
  }

  /** Reading back what `write_raw` wrote gives the data, and the writer's
      rest is the reader's rest whenever that holds a byte: the writer's
      strict bound drops exactly the empty rest the reader would keep. */
  lemma {:induction false} WriteThenRetrieve(s: Space, raw: seq<byte>)
    requires Valid(s) && |raw| <= |s.bytes|
    ensures var w := WriteRaw(s, raw).value;
            var r := RetrieveRaw(w.memory, |raw|);
            r.Some? && r.value.0 == raw &&
            (w.upper.Some? <==> r.value.1.Some? && |r.value.1.value.bytes| > 0) &&
            (w.upper.Some? ==> r.value.1 == w.upper)
  {
    var w := WriteRaw(s, raw).value;
    var n := |raw| + Pad8(|raw|);
    if n <= |s.bytes| {
      assert w.memory.bytes[n..] == s.bytes[n..];
    }
  }

  /** The test: 24 bytes fill the start of a 256-byte space, and an
      `LV2_Atom {size: 42, type: 1}` written into the rest reads back. */
  lemma {:induction false} WriteRawExample(addr: nat, b: seq<byte>, data: seq<byte>)
    requires addr % 8 == 0 && |b| == 256 && |data| == 24
    ensures var w := WriteRaw(Space(addr, b), data);
            w.Ok? && w.value.lower == data && w.value.upper.Some? &&
            var u := w.value.upper.value;
            u.addr == addr + 24 &&
            var w2 := WriteRaw(u, Encode(AtomHeader(42, 1)));
            w2.Ok? && Decode(w2.value.lower) == AtomHeader(42, 1)
  {
    DecodeEncode(AtomHeader(42, 1));
  }
}

/** The legacy writing frames of atom/src/frame.rs.

    A `RootWritingFrame` owns the free part of a buffer; an
    `AtomWritingFrame` writes through its parent and adds every written
    length to the body size of the atom header it created. Rust nests these
    by borrowing; the model holds the buffer and the root's free offset
    together with the header offsets of the atom frames, outermost first,
    and a write goes through the innermost frame: the root writes, and each
    atom frame then adds the length to its header on the way back. */
module LegacyFrame {
  import opened Bytes
  import opened Wrappers
  import opened Header
  import opened Allocator
  import opened LegacyAtomSpace

  /** A root frame: the buffer's address and contents and the offset of the
      free space, `None` once the frame gave its space away. */
  datatype RootFrame = RootFrame(addr: nat, buf: seq<byte>, free: Option<nat>)

  /** A chain of frames: the root and the header offsets of the atom frames. */
  datatype Frames = Frames(root: RootFrame, headers: seq<nat>)

  /** What the frames keep: an 8-aligned free space inside the buffer, and
      ordered headers that lie before it. */
  predicate RootOk(f: RootFrame) {
    f.addr % 8 == 0 &&
    (f.free.Some? ==> f.free.value % 8 == 0 && f.free.value <= |f.buf|)
  }

  predicate FramesOk(f: Frames) {
    RootOk(f.root) && Ascending(f.headers) &&
    (forall k :: 0 <= k < |f.headers| ==> f.headers[k] + HEADER_SIZE <= |f.root.buf|) &&
    (f.root.free.Some? ==> forall k :: 0 <= k < |f.headers| ==> f.headers[k] + HEADER_SIZE <= f.root.free.value)
  }

  /** `RootWritingFrame::new`: `None` stands for the panic on a buffer that
      does not start at a multiple of 8. */
  function NewRoot(addr: nat, buf: seq<byte>): (r: Option<Frames>)
    ensures r.Some? <==> addr % 8 == 0
    ensures r.Some? ==> FramesOk(r.value) && r.value == Frames(RootFrame(addr, buf, Some(0)), [])
  {
    if addr % 8 != 0 then None else Some(Frames(RootFrame(addr, buf, Some(0)), []))
  }

  /** `RootWritingFrame::write_raw` as written: the free space is taken out
      of the frame before the length check, so data that does not fit leaves
      the frame without any space. On success the data lands at the free
      offset, and the frame keeps the part past the padding when at least one
      byte is left there. The result is the new frame and where the data was
      written. */
  function RootWriteRawAsWritten(f: RootFrame, data: seq<byte>): (r: (RootFrame, Option<nat>))
    requires RootOk(f)
    ensures RootOk(r.0)
    ensures r.1.Some? <==> f.free.Some? && |data| <= |f.buf| - f.free.value
    ensures r.1.None? ==> r.0 == f.(free := None)
  {
    if f.free.None? then (f, None)
    else
      var at := f.free.value;
      var taken := f.(free := None);
      if |data| > |f.buf| - at then (taken, None)
      else WriteAt(f, at, data)
  }

  /** The success path of a root write: copy `data` to `at` and keep the
      space past the padding if any byte is left there. */
  function WriteAt(f: RootFrame, at: nat, data: seq<byte>): (r: (RootFrame, Option<nat>))
    requires RootOk(f) && f.free == Some(at) && at + |data| <= |f.buf|
    ensures RootOk(r.0) && r.1 == Some(at) && r.0.addr == f.addr
    ensures r.0.buf == Overwrite(f.buf, at, data)
    ensures r.0.free.Some? <==> at + |data| + Pad8(|data|) < |f.buf|
    ensures r.0.free.Some? ==> r.0.free.value == at + |data| + Pad8(|data|)
  {
    var buf := Overwrite(f.buf, at, data);
    var end := at + |data|;
    var padding := Pad8(|data|);
    if padding < |f.buf| - end then
      AlignedAfter(at, |data|);
      (RootFrame(f.addr, buf, Some(end + padding)), Some(at))
    else (RootFrame(f.addr, buf, None), Some(at))
  }

  /** The root write as intended: data that does not fit is refused and the
      frame keeps its space for a later, smaller write. */
  function RootWriteRaw(f: RootFrame, data: seq<byte>): (r: (RootFrame, Option<nat>))
    requires RootOk(f)
    ensures RootOk(r.0)
    ensures r.1.Some? <==> f.free.Some? && |data| <= |f.buf| - f.free.value
    ensures r.1.None? ==> r.0 == f
  {
    if f.free.None? || |data| > |f.buf| - f.free.value then (f, None)
    else WriteAt(f, f.free.value, data)
  }

  /** The two root writes agree whenever the data fits or the frame is
      already exhausted; they differ only in what a refused write leaves. */
  lemma {:induction false} AsWrittenAgreesWhenFits(f: RootFrame, data: seq<byte>)
    requires RootOk(f)
    requires f.free.None? || |data| <= |f.buf| - f.free.value
    ensures RootWriteRawAsWritten(f, data) == RootWriteRaw(f, data)
  {
  }

  /** A 24-byte write into a frame with 16 free bytes fails, and as written
      it takes the 16 bytes with it: an 8-byte write that fits is refused
      afterwards. The intended write accepts it. */
  lemma {:induction false} OversizedWriteExhausts(addr: nat, buf: seq<byte>, at: nat, big: seq<byte>, small: seq<byte>)
    requires addr % 8 == 0 && at % 8 == 0 && at + 16 == |buf|
    requires |big| == 24 && |small| == 8
    ensures var (f1, r1) := RootWriteRawAsWritten(RootFrame(addr, buf, Some(at)), big);
            r1.None? && RootWriteRawAsWritten(f1, small).1.None?
    ensures var (f1, r1) := RootWriteRaw(RootFrame(addr, buf, Some(at)), big);
            r1.None? && RootWriteRaw(f1, small).1 == Some(at)
  {
  }

  /** `write_raw` through the innermost frame: the root writes, then every
      atom frame adds the written length, truncated to u32, to its header.
      The root write is the one the source makes, so a write that does not
      fit leaves the root without free space. */
  function WriteRaw(f: Frames, data: seq<byte>): (r: (Frames, Option<nat>))
    requires FramesOk(f)
    ensures FramesOk(r.0) && r.0.headers == f.headers && |r.0.root.buf| == |f.root.buf|
    ensures r.1.Some? <==> f.root.free.Some? && |data| <= |f.root.buf| - f.root.free.value
    ensures r.1.None? ==> r.0 == f.(root := f.root.(free := None))
  {
    var (root, at) := RootWriteRawAsWritten(f.root, data);
    if at.None? then (f.(root := root), None)
    else
      var buf := AddToSizes(root.buf, f.headers, |data|);
      (Frames(root.(buf := buf), f.headers), at)
  }

  /** `write_raw` over the intended root write: a write that does not fit
      changes nothing. */
  function IntendedWriteRaw(f: Frames, data: seq<byte>): (r: (Frames, Option<nat>))
    requires FramesOk(f)
    ensures FramesOk(r.0) && r.0.headers == f.headers && |r.0.root.buf| == |f.root.buf|
    ensures r.1.Some? <==> f.root.free.Some? && |data| <= |f.root.buf| - f.root.free.value
    ensures r.1.None? ==> r.0 == f
  {
    var (root, at) := RootWriteRaw(f.root, data);
    if at.None? then (f, None)
    else
      var buf := AddToSizes(root.buf, f.headers, |data|);
      (Frames(root.(buf := buf), f.headers), at)
  }

  /** The two frame writes agree on every write that fits, and on every
      write into an exhausted root. */
  lemma {:induction false} WriteRawAgreesWhenFits(f: Frames, data: seq<byte>)
    requires FramesOk(f)
    requires f.root.free.None? || |data| <= |f.root.buf| - f.root.free.value
    ensures WriteRaw(f, data) == IntendedWriteRaw(f, data)
  {
    AsWrittenAgreesWhenFits(f.root, data);
  }

  /** Through any chain of frames, a write that does not fit makes every
      later write fail as written, while the intended write still accepts a
      later write that fits in the same free space. */
  lemma {:induction false} OversizedWriteRawExhausts(f: Frames, big: seq<byte>, small: seq<byte>)
    requires FramesOk(f) && f.root.free.Some?
    requires |small| <= |f.root.buf| - f.root.free.value < |big|
    ensures var (f1, r1) := WriteRaw(f, big);
            r1.None? && WriteRaw(f1, small).1.None?
    ensures var (f1, r1) := IntendedWriteRaw(f, big);
            r1.None? && IntendedWriteRaw(f1, small).1 == f.root.free
  {
  }

  /** A header whose body grew by `n` bytes, its size wrapping around at
      2^32 as `+=` on the `u32` field does (in a release build) after
      `len() as u32`. */
  function Grown(h: AtomHeader, n: nat): AtomHeader {
    AtomHeader((h.size + n) % U32_LIMIT, h.urid)
  }

  /** A successful write stores the data at the free offset it reports. */
  lemma {:induction false} WriteRawLands(f: Frames, data: seq<byte>)
    requires FramesOk(f) && f.root.free.Some? && |data| <= |f.root.buf| - f.root.free.value
    ensures WriteRaw(f, data).1 == f.root.free
    ensures WriteRaw(f, data).0.root.buf[f.root.free.value..f.root.free.value + |data|] == data
  {
    var at := f.root.free.value;
    assert RootWriteRawAsWritten(f.root, data).0.buf == Overwrite(f.root.buf, at, data);
    WriteRawData(f.root.buf, f.headers, at, data);
  }

  /** A successful write grows the body size of every enclosing header by
      the data's length, truncated to u32, and keeps the headers' types. */
  lemma {:induction false} WriteRawGrows(f: Frames, data: seq<byte>)
    requires FramesOk(f) && f.root.free.Some? && |data| <= |f.root.buf| - f.root.free.value
    ensures forall k :: 0 <= k < |f.headers| ==>
              HeaderAt(WriteRaw(f, data).0.root.buf, f.headers[k]) ==
                Grown(HeaderAt(f.root.buf, f.headers[k]), |data|)
  {
    var at := f.root.free.value;
    var buf := RootWriteRawAsWritten(f.root, data).0.buf;
    assert buf == Overwrite(f.root.buf, at, data);
    assert WriteRaw(f, data).0.root.buf == AddToSizes(buf, f.headers, |data|);
    HeadersBeforeWrite(f.root.buf, f.headers, at, data);
    HeadersGrown(f.root.buf, buf, f.headers, |data|);
  }

  /** The data stays where it was copied after the headers are patched. */
  lemma {:induction false} WriteRawData(buf: seq<byte>, hs: seq<nat>, at: nat, data: seq<byte>)
    requires at + |data| <= |buf|
    requires forall k :: 0 <= k < |hs| ==> hs[k] + HEADER_SIZE <= at
    ensures AddToSizes(Overwrite(buf, at, data), hs, |data|)[at..at + |data|] == data
  {
    OverwriteSlice(buf, at, data);
    AddToSizesOther(Overwrite(buf, at, data), hs, |data|, at, at + |data|);
  }

  /** Copying data at `at` leaves the headers before it alone. */
  lemma {:induction false} HeadersBeforeWrite(buf: seq<byte>, hs: seq<nat>, at: nat, data: seq<byte>)
    requires at + |data| <= |buf|
    requires forall k :: 0 <= k < |hs| ==> hs[k] + HEADER_SIZE <= at
    ensures forall k :: 0 <= k < |hs| ==>
              Overwrite(buf, at, data)[hs[k]..hs[k] + HEADER_SIZE] == buf[hs[k]..hs[k] + HEADER_SIZE]
  {
    var w := Overwrite(buf, at, data);
    assert w[..at] == buf[..at];
    forall k | 0 <= k < |hs|
      ensures w[hs[k]..hs[k] + HEADER_SIZE] == buf[hs[k]..hs[k] + HEADER_SIZE]
    {
      assert w[hs[k]..hs[k] + HEADER_SIZE] == w[..at][hs[k]..hs[k] + HEADER_SIZE];
      assert buf[hs[k]..hs[k] + HEADER_SIZE] == buf[..at][hs[k]..hs[k] + HEADER_SIZE];
    }
  }

  /** Headers the write left alone have their body sizes grown by
      `AddToSizes`, and keep their types. */
  lemma {:induction false} HeadersGrown(before: seq<byte>, buf: seq<byte>, hs: seq<nat>, n: nat)
    requires Ascending(hs) && |before| == |buf|
    requires forall j :: 0 <= j < |hs| ==> hs[j] + HEADER_SIZE <= |buf|
    requires forall j :: 0 <= j < |hs| ==> buf[hs[j]..hs[j] + HEADER_SIZE] == before[hs[j]..hs[j] + HEADER_SIZE]
    ensures forall k :: 0 <= k < |hs| ==>
              HeaderAt(AddToSizes(buf, hs, n), hs[k]) ==
                Grown(HeaderAt(before, hs[k]), n)
  {
    forall k | 0 <= k < |hs|
      ensures HeaderAt(AddToSizes(buf, hs, n), hs[k]) ==
                Grown(HeaderAt(before, hs[k]), n)
    {
      HeaderGrown(before, buf, hs, n, k);
    }
  }

  /** A header the write left alone has its body size grown by
      `AddToSizes`, and keeps its type. */
  lemma {:induction false} HeaderGrown(before: seq<byte>, buf: seq<byte>, hs: seq<nat>, n: nat, k: nat)
    requires Ascending(hs) && k < |hs| && |before| == |buf|
    requires forall j :: 0 <= j < |hs| ==> hs[j] + HEADER_SIZE <= |buf|
    requires buf[hs[k]..hs[k] + HEADER_SIZE] == before[hs[k]..hs[k] + HEADER_SIZE]
    ensures HeaderAt(AddToSizes(buf, hs, n), hs[k]) ==
              Grown(HeaderAt(before, hs[k]), n)
  {
    var h := hs[k];
    assert HeaderAt(buf, h) == HeaderAt(before, h);
    HeaderFieldsGrown(buf, hs, n, k);
  }

  /** The header of `hs[k]` after `AddToSizes`, field by field. */
  lemma {:induction false} HeaderFieldsGrown(buf: seq<byte>, hs: seq<nat>, n: nat, k: nat)
    requires Ascending(hs) && k < |hs|
    requires forall j :: 0 <= j < |hs| ==> hs[j] + HEADER_SIZE <= |buf|
    ensures HeaderAt(AddToSizes(buf, hs, n), hs[k]) == Grown(HeaderAt(buf, hs[k]), n)
  {
    var h := hs[k];
    var after := AddToSizes(buf, hs, n);
    var size, urid := GetU32(buf, h), GetU32(buf, h + 4);
    HeaderAtFields(buf, h);
    assert HeaderAt(buf, h) == AtomHeader(size, urid);
    AddToSizesEffect(buf, hs, n, k);
    AddToSizesType(buf, hs, n, k);
    HeaderAtFields(after, h);
    assert HeaderAt(after, h) == AtomHeader((size + n) % U32_LIMIT, urid);
  }

  /** `AddToSizes` leaves a header's type field alone. */
  lemma {:induction false} AddToSizesType(buf: seq<byte>, hs: seq<nat>, n: nat, k: nat)
    requires Ascending(hs) && k < |hs|
    requires forall j :: 0 <= j < |hs| ==> hs[j] + HEADER_SIZE <= |buf|
    ensures GetU32(AddToSizes(buf, hs, n), hs[k] + 4) == GetU32(buf, hs[k] + 4)
  {
    var h := hs[k];
    forall j | 0 <= j < |hs|
      ensures hs[j] + 4 <= h + 4 || h + 8 <= hs[j]
    {
      if j < k {
        assert hs[j] + HEADER_SIZE <= h;
      } else if j > k {
        assert h + HEADER_SIZE <= hs[j];
      }
    }
    AddToSizesOther(buf, hs, n, h + 4, h + 8);
  }

  /** `create_atom_frame`: writes the header `{size: 0, type: urid}` through
      the current frame and, when that succeeds, opens an atom frame on it.
      The result is the frames after the header write and the new atom
      frame; a header that does not fit leaves the root without free
      space. */
  function CreateAtomFrame(f: Frames, urid: u32): (r: (Frames, Option<Frames>))
    requires FramesOk(f)
    ensures FramesOk(r.0) && r.0.headers == f.headers && |r.0.root.buf| == |f.root.buf|
    ensures r.1.Some? <==> f.root.free.Some? && HEADER_SIZE <= |f.root.buf| - f.root.free.value
    ensures r.1.None? ==> r.0 == f.(root := f.root.(free := None))
    ensures r.1.Some? ==>
              FramesOk(r.1.value) && r.1.value.root == r.0.root &&
              r.1.value.headers == f.headers + [f.root.free.value] &&
              HeaderAt(r.0.root.buf, f.root.free.value) == AtomHeader(0, urid)
  {
    var w := WriteRaw(f, Encode(AtomHeader(0, urid)));
    if w.1.None? then (w.0, None)
    else
      NewHeaderWritten(f, urid);
      (w.0, Some(Frames(w.0.root, f.headers + [w.1.value])))
  }

  /** `create_atom_frame` over the intended root write: a header that does
      not fit changes nothing; one that fits opens the same frame as
      written. */
  function IntendedCreateAtomFrame(f: Frames, urid: u32): (r: (Frames, Option<Frames>))
    requires FramesOk(f)
    ensures r.1.None? ==> r.0 == f
    ensures r.1.Some? ==> r == CreateAtomFrame(f, urid)
  {
    var w := IntendedWriteRaw(f, Encode(AtomHeader(0, urid)));
    if w.1.None? then (w.0, None)
    else
      WriteRawAgreesWhenFits(f, Encode(AtomHeader(0, urid)));
      (w.0, Some(Frames(w.0.root, f.headers + [w.1.value])))
  }

  /** The header a successful `create_atom_frame` writes reads back, and
      the frames with it added keep their invariant. */
  lemma {:induction false} NewHeaderWritten(f: Frames, urid: u32)
    requires FramesOk(f) && f.root.free.Some? && HEADER_SIZE <= |f.root.buf| - f.root.free.value
    ensures var w := WriteRaw(f, Encode(AtomHeader(0, urid)));
            w.1 == f.root.free &&
            HeaderAt(w.0.root.buf, w.1.value) == AtomHeader(0, urid) &&
            FramesOk(Frames(w.0.root, f.headers + [w.1.value]))
  {
    var at := f.root.free.value;
    var w := WriteRaw(f, Encode(AtomHeader(0, urid)));
    WriteRawLands(f, Encode(AtomHeader(0, urid)));
    DecodeEncode(AtomHeader(0, urid));
    assert HeaderAt(w.0.root.buf, at) == AtomHeader(0, urid);
    PushHeader(w.0, at);
  }

  /** A header written at the old free offset can join the chain. */
  lemma {:induction false} PushHeader(f: Frames, at: nat)
    requires FramesOk(f) && at + HEADER_SIZE <= |f.root.buf|
    requires forall k :: 0 <= k < |f.headers| ==> f.headers[k] + HEADER_SIZE <= at
    requires f.root.free.Some? ==> at + HEADER_SIZE <= f.root.free.value
    ensures FramesOk(Frames(f.root, f.headers + [at]))
  {
    var hs := f.headers + [at];
    assert forall k :: 0 <= k < |f.headers| ==> hs[k] == f.headers[k];
  }

  /** The test: an `Int` atom frame on a fresh 2048-byte root, 24 bytes
      written through it and then an `LV2_Atom {size: 42, type: 1}`. The
      atom frame's header ends with body size 24 + 8 = 32 and its type, and
      both writes read back where they were reported. */
  lemma {:induction false} AtomFrameExample(addr: nat, buf: seq<byte>, intUrid: u32, data: seq<byte>)
    requires addr % 8 == 0 && |buf| == 2048 && |data| == 24
    ensures var (_, child) := CreateAtomFrame(Frames(RootFrame(addr, buf, Some(0)), []), intUrid);
            child.Some? &&
            var (f1, at1) := WriteRaw(child.value, data);
            at1 == Some(8) && f1.root.buf[8..32] == data &&
            HeaderAt(f1.root.buf, 0) == AtomHeader(24, intUrid) &&
            var (f2, at2) := WriteRaw(f1, Encode(AtomHeader(42, 1)));
            at2 == Some(32) && HeaderAt(f2.root.buf, 32) == AtomHeader(42, 1) &&
            HeaderAt(f2.root.buf, 0) == AtomHeader(32, intUrid)
  {
    var c := FrameOnFreshRoot(addr, buf, intUrid);
    var f1 := WriteData(c, intUrid, data);
    WriteHeaderAfter(f1, intUrid);
  }

  /** First step of the test: the atom frame sits at offset 0 and the free
      space starts after its header. */
  lemma {:induction false} FrameOnFreshRoot(addr: nat, buf: seq<byte>, intUrid: u32) returns (c: Frames)
    requires addr % 8 == 0 && |buf| == 2048
    ensures CreateAtomFrame(Frames(RootFrame(addr, buf, Some(0)), []), intUrid).1 == Some(c)
    ensures FramesOk(c) && c.headers == [0] && c.root.free == Some(8) && |c.root.buf| == 2048
    ensures HeaderAt(c.root.buf, 0) == AtomHeader(0, intUrid)
  {
    var root := Frames(RootFrame(addr, buf, Some(0)), []);
    c := CreateAtomFrame(root, intUrid).1.value;
    assert RootWriteRawAsWritten(root.root, Encode(AtomHeader(0, intUrid))).0.free == Some(8);
  }

  /** Second step: 24 bytes land at offset 8 and the header counts them. */
  lemma {:induction false} WriteData(c: Frames, intUrid: u32, data: seq<byte>) returns (f1: Frames)
    requires FramesOk(c) && c.headers == [0] && c.root.free == Some(8) && |c.root.buf| == 2048
    requires HeaderAt(c.root.buf, 0) == AtomHeader(0, intUrid) && |data| == 24
    ensures WriteRaw(c, data) == (f1, Some(8))
    ensures FramesOk(f1) && f1.headers == [0] && f1.root.free == Some(32) && |f1.root.buf| == 2048
    ensures f1.root.buf[8..32] == data && HeaderAt(f1.root.buf, 0) == AtomHeader(24, intUrid)
  {
    f1 := WriteRaw(c, data).0;
    WriteRawLands(c, data);
    WriteRawGrows(c, data);
    assert RootWriteRawAsWritten(c.root, data).0.free == Some(32);
  }

  /** Third step: an 8-byte atom header lands at offset 32 and the frame's
      header now counts 32 bytes. */
  lemma {:induction false} WriteHeaderAfter(f1: Frames, intUrid: u32)
    requires FramesOk(f1) && f1.headers == [0] && f1.root.free == Some(32) && |f1.root.buf| == 2048
    requires HeaderAt(f1.root.buf, 0) == AtomHeader(24, intUrid)
    ensures var (f2, at2) := WriteRaw(f1, Encode(AtomHeader(42, 1)));
            at2 == Some(32) && HeaderAt(f2.root.buf, 32) == AtomHeader(42, 1) &&
            HeaderAt(f2.root.buf, 0) == AtomHeader(32, intUrid)
  {
    var atom := Encode(AtomHeader(42, 1));
    assert |atom| == HEADER_SIZE;
    var buf := WriteRaw(f1, atom).0.root.buf;
    WriteRawLands(f1, atom);
    assert buf[32..32 + HEADER_SIZE] == atom;
    DecodeEncode(AtomHeader(42, 1));
    assert HeaderAt(buf, 32) == AtomHeader(42, 1);
    WriteRawGrows(f1, atom);
    assert HeaderAt(buf, f1.headers[0]) == Grown(AtomHeader(24, intUrid), HEADER_SIZE);
  }
}
