/** The provided methods of the `SpaceWriter` trait (atom/src/space/allocator.rs)
    and `AtomWriter::write_new` (atom/src/space/atom_writer.rs), over the
    writer stacks of `Allocator`. */
module SpaceWriter {
  import opened Bytes
  import opened Wrappers
  import opened Errors
  import opened Util
  import opened Aligned
  import opened Header
  import opened Allocator

  /** Bytes of the root buffer handed out by an allocation: their offset from
      the buffer's start and their number. */
  datatype Region = Region(offset: nat, length: nat)

  /** A run of `count` value slots starting at `offset`. */
  datatype Slots = Slots(offset: nat, count: nat)

  /** `allocate(size)`: `allocate_and_split` without the bytes before the
      allocation. */
  function Allocate(w: Writer, size: nat): (s: Step<nat>)
    requires Wf(w)
    ensures Wf(s.writer) && Addr(s.writer) == Addr(w)
    ensures s.result.Ok? ==> s.result.value + size <= Used(s.writer)
  {
    AllocateAndSplit(w, size)
  }

  /** `allocate_aligned::<T>(byte_size)`: allocates the padding that
      `remaining_bytes()` needs to reach a `T`-aligned address together with
      `byte_size` bytes, then realigns the allocated bytes. */
  function AllocateAligned(w: Writer, l: Layout, byteSize: nat): (s: Step<Region>)
    requires Wf(w)
    ensures Wf(s.writer) && Addr(s.writer) == Addr(w)
    ensures s.result.Ok? ==> (Addr(w) + s.result.value.offset) % l.align == 0
    ensures s.result.Ok? ==> s.result.value.offset + s.result.value.length <= Used(s.writer)
  {
    match TryPaddingFor(l, RemainingBytes(w).0)
    case Err(e) => Step(w, Err(WriteAlignment(e)))
    case Ok(padding) => Realign(Allocate(w, byteSize + padding), Addr(w), l, byteSize + padding)
  }

  /** The second half of `allocate_aligned`: the `total` bytes just allocated
      (in a buffer starting at address `base`) realigned for `T`. */
  function Realign(s: Step<nat>, base: nat, l: Layout, total: nat): (s': Step<Region>)
    requires Wf(s.writer)
    requires s.result.Ok? ==> s.result.value + total <= Used(s.writer)
    ensures s'.writer == s.writer
    ensures s'.result.Ok? ==> (base + s'.result.value.offset) % l.align == 0
    ensures s'.result.Ok? ==> s'.result.value.offset + s'.result.value.length <= Used(s.writer)
  {
    if s.result.Err? then Step(s.writer, Err(s.result.error))
    else
      var start := s.result.value;
      var raw := Space(base + start, Buffer(s.writer)[start..start + total]);
      match AlignFromBytes(l, raw)
      case Err(e) => Step(s.writer, Err(WriteAlignment(e)))
      case Ok(space) => Step(s.writer, Ok(Region(space.addr - base, |space.bytes|)))
  }

  /** `allocate_value::<T>()`: room for one `T`, as the offset of its first
      byte. Taking the first slot of a region too short for a `T`
      (`get_unchecked_mut(0)`) is undefined behaviour. */
  function AllocateValue(w: Writer, l: Layout): (s: Step<nat>)
    requires Wf(w)
    ensures Wf(s.writer) && Addr(s.writer) == Addr(w)
    ensures s.result.Ok? ==> (Addr(w) + s.result.value) % l.align == 0
    ensures s.result.Ok? ==> s.result.value + l.size <= Used(s.writer)
  {
    var s := AllocateAligned(w, l, l.size);
    if s.result.Err? then Step(s.writer, Err(s.result.error))
    else if s.result.value.length < l.size then Step(s.writer, Err(Panic))
    else Step(s.writer, Ok(s.result.value.offset))
  }

  /** `allocate_values::<T>(count)`: room for `count` values of `T`: the
      whole `T` slots of the aligned space, as the offset of the first and
      their number. */
  function AllocateValues(w: Writer, l: Layout, count: nat): (s: Step<Slots>)
    requires Wf(w) && l.size > 0
    ensures Wf(s.writer) && Addr(s.writer) == Addr(w)
    ensures s.result.Ok? ==> (Addr(w) + s.result.value.offset) % l.align == 0
    ensures s.result.Ok? ==> s.result.value.offset + s.result.value.count * l.size <= Used(s.writer)
  {
    var s := AllocateAligned(w, l, count * l.size);
    if s.result.Err? then Step(s.writer, Err(s.result.error))
    else
      var reg := s.result.value;
      var n := ValuesLen(l, Space(Addr(w) + reg.offset, Buffer(s.writer)[reg.offset..reg.offset + reg.length]));
      Step(s.writer, Ok(Slots(reg.offset, n)))
  }

  /** `write_bytes(bytes)`: allocates `|bytes|` bytes and copies `bytes`
      into them. */
  function WriteBytes(w: Writer, bytes: seq<byte>): (s: Step<nat>)
    requires Wf(w)
    ensures Wf(s.writer) && Addr(s.writer) == Addr(w)
    ensures s.result.Ok? ==> s.result.value + |bytes| <= Used(s.writer)
    ensures s.result.Ok? ==>
              Buffer(s.writer)[s.result.value..s.result.value + |bytes|] == bytes
  {
    var s := Allocate(w, |bytes|);
    if s.result.Err? then s
    else
      var start := s.result.value;
      OverwriteSlice(Buffer(s.writer), start, bytes);
      Step(WithBuffer(s.writer, Overwrite(Buffer(s.writer), start, bytes)), Ok(start))
  }

  /** `write_value(value)`: allocates an aligned `T` slot and stores the bytes
      of `value` in it. A slot too short for the value is undefined
      behaviour. */
  function WriteValue(w: Writer, l: Layout, value: seq<byte>): (s: Step<nat>)
    requires Wf(w) && |value| == l.size
    ensures Wf(s.writer) && Addr(s.writer) == Addr(w)
    ensures s.result.Ok? ==> (Addr(w) + s.result.value) % l.align == 0
    ensures s.result.Ok? ==> s.result.value + l.size <= Used(s.writer)
    ensures s.result.Ok? ==>
              Buffer(s.writer)[s.result.value..s.result.value + l.size] == value
  {
    var s := AllocateValue(w, l);
    if s.result.Err? then s
    else
      var at := s.result.value;
      OverwriteSlice(Buffer(s.writer), at, value);
      Step(WithBuffer(s.writer, Overwrite(Buffer(s.writer), at, value)), Ok(at))
  }

  /** `write_values(values)`: allocates an aligned run of `T` slots for the
      values and stores as many of them as the run holds (the `zip` stops at
      the shorter side). */
  function WriteValues(w: Writer, l: Layout, values: seq<seq<byte>>): (s: Step<Slots>)
    requires Wf(w) && l.size > 0 && AllOfSize(values, l.size)
    ensures Wf(s.writer) && Addr(s.writer) == Addr(w)
    ensures s.result.Ok? ==> s.result.value.offset + s.result.value.count * l.size <= Used(s.writer)
    ensures s.result.Ok? && s.result.value.count == |values| ==>
              var at := s.result.value.offset;
              Buffer(s.writer)[at..at + s.result.value.count * l.size] == Flatten(values)
  {
    var a := AllocateValues(w, l, |values|);
    StoreValues(a, l, values)
  }

  /** The second half of `write_values`: the values copied into the slots
      just allocated, as many as fit. */
  function StoreValues(s: Step<Slots>, l: Layout, values: seq<seq<byte>>): (s': Step<Slots>)
    requires Wf(s.writer) && l.size > 0 && AllOfSize(values, l.size)
    requires s.result.Ok? ==> s.result.value.offset + s.result.value.count * l.size <= Used(s.writer)
    ensures Wf(s'.writer) && Addr(s'.writer) == Addr(s.writer) && Used(s'.writer) == Used(s.writer)
    ensures s'.result == s.result
    ensures s.result.Ok? && s.result.value.count == |values| ==>
              var at := s.result.value.offset;
              Buffer(s'.writer)[at..at + s.result.value.count * l.size] == Flatten(values)
  {
    if s.result.Err? then s
    else
      var slots := s.result.value;
      var written := if slots.count < |values| then values[..slots.count] else values;
      FlattenLength(written, l.size);
      MulMonotone(|written|, slots.count, l.size);
      var flat := Flatten(written);
      OverwriteSlice(Buffer(s.writer), slots.offset, flat);
      Step(WithBuffer(s.writer, Overwrite(Buffer(s.writer), slots.offset, flat)), Ok(slots))
  }

  /** `write_values` hands out the slots `allocate_values` found, so they
      start at an aligned address. */
  lemma {:induction false} WriteValuesSlots(w: Writer, l: Layout, values: seq<seq<byte>>)
    requires Wf(w) && l.size > 0 && AllOfSize(values, l.size)
    ensures WriteValues(w, l, values).result == AllocateValues(w, l, |values|).result
    ensures var s := WriteValues(w, l, values);
            s.result.Ok? ==> (Addr(w) + s.result.value.offset) % l.align == 0
  {
  }

  lemma {:induction false} MulMonotone(a: nat, b: nat, c: nat)
    requires a <= b
    ensures a * c <= b * c
  {
  }

  /** `copy_atom(atom)`: allocates an 8-aligned region of the atom's size and
      copies the whole atom, header included, into it. `copy_from_slice`
      panics when the realigned region is not exactly as long as the atom. */
  function CopyAtom(w: Writer, atom: seq<byte>): (s: Step<nat>)
    requires Wf(w)
    ensures Wf(s.writer) && Addr(s.writer) == Addr(w)
    ensures s.result.Ok? ==> (Addr(w) + s.result.value) % ATOM_HEADER.align == 0
    ensures s.result.Ok? ==> s.result.value + |atom| <= Used(s.writer)
    ensures s.result.Ok? ==>
              Buffer(s.writer)[s.result.value..s.result.value + |atom|] == atom
  {
    var s := AllocateAligned(w, ATOM_HEADER, |atom|);
    if s.result.Err? then Step(s.writer, Err(s.result.error))
    else if s.result.value.length != |atom| then Step(s.writer, Err(Panic))
    else
      var at := s.result.value.offset;
      OverwriteSlice(Buffer(s.writer), at, atom);
      Step(WithBuffer(s.writer, Overwrite(Buffer(s.writer), at, atom)), Ok(at))
  }

  /** `terminated(t)`: wraps a writer so that every allocation ends with the
      byte `t`. */
  function MakeTerminated(w: Writer, t: byte): (w': Writer)
    ensures w'.Terminated? && w'.inner == w && w'.terminator == t && !w'.wroteTerminator
    ensures RootOf(w') == RootOf(w)
  {
    Terminated(w, t, false)
  }

  /** `AtomWriter::write_new(parent, urid)`: writes the header
      `{size: 0, type: urid}` as an aligned value and returns an atom writer
      over `parent` that tracks it, at eight bytes before the end of the
      allocated bytes. */
  function WriteNew(w: Writer, urid: u32): (s: Step<Writer>)
    requires Wf(w)
    ensures Wf(s.writer) && Addr(s.writer) == Addr(w)
    ensures s.result.Ok? ==>
              Used(s.writer) >= HEADER_SIZE &&
              s.result.value == AtomWriter(s.writer, Used(s.writer) - HEADER_SIZE)
  {
    var s := WriteValue(w, ATOM_HEADER, Encode(New(urid)));
    if s.result.Err? then Step(s.writer, Err(s.result.error))
    else Step(s.writer, Ok(AtomWriter(s.writer, Used(s.writer) - HEADER_SIZE)))
  }

  // ---------------------------------------------------------------------
  // Writing through a stack of atom writers

  /** Through a stack of atom writers, `allocate_aligned` allocates exactly
      the padding up to the next aligned address plus the requested bytes, and
      hands out the requested bytes right after the padding. */
  lemma {:induction false} AllocateAlignedInFrames(w: Writer, l: Layout, n: nat, pad: nat, total: nat)
    requires Wf(w) && FrameChain(w) && HeadersFit(w)
    requires pad == Padding(Addr(w) + Used(w), l.align) && total == n + pad
    ensures AllocateAligned(w, l, n).writer == AllocateAndSplit(w, total).writer
    ensures AllocateAligned(w, l, n).result.Ok? <==> AllocateAndSplit(w, total).result.Ok?
    ensures AllocateAndSplit(w, total).result.Err? ==>
              AllocateAligned(w, l, n).result.error == AllocateAndSplit(w, total).result.error
    ensures AllocateAligned(w, l, n).result.Ok? ==>
              AllocateAligned(w, l, n).result.value == Region(Used(w) + pad, n)
  {
    var a := AllocateAndSplit(w, total);
    AlignedIsRealigned(w, l, n, pad, total);
    AllocateInFramesResult(w, total);
    if a.result.Ok? {
      RealignPadded(a, Addr(w), l, n, pad, total);
    }
  }

  /** `allocate_aligned` is the allocation of the padding and the bytes,
      realigned. */
  lemma {:induction false} AlignedIsRealigned(w: Writer, l: Layout, n: nat, pad: nat, total: nat)
    requires Wf(w)
    requires pad == Padding(Addr(w) + Used(w), l.align) && total == n + pad
    ensures AllocateAligned(w, l, n) == Realign(AllocateAndSplit(w, total), Addr(w), l, total)
  {
    TryPaddingForIsPadding(l, RemainingBytes(w).0);
  }

  /** Realigning an allocation that starts where the padding was computed
      drops exactly the padding. */
  lemma {:induction false} RealignPadded(s: Step<nat>, base: nat, l: Layout, n: nat, pad: nat, total: nat)
    requires Wf(s.writer) && s.result.Ok? && s.result.value + total <= Used(s.writer)
    requires pad == Padding(base + s.result.value, l.align) && total == n + pad
    ensures Realign(s, base, l, total) == Step(s.writer, Ok(Region(s.result.value + pad, n)))
  {
    var start := s.result.value;
    var raw := Space(base + start, Buffer(s.writer)[start..start + total]);
    AlignFromBytesPadding(l, raw);
  }

  /** `write_bytes` through a stack of atom writers: no padding; the bytes land
      at the end of the allocated bytes and every tracked header grows by their
      number. */
  lemma {:induction false} WriteBytesInFrames(w: Writer, bytes: seq<byte>)
    requires Wf(w) && FrameChain(w) && HeadersFit(w)
    ensures var root := RootAllocate(RootOf(w), |bytes|);
            var s := WriteBytes(w, bytes);
            (s.result.Ok? <==> root.1.Ok?) &&
            (root.1.Err? ==> s == Step(w, Err(root.1.error))) &&
            (root.1.Ok? ==>
               s.result.value == Used(w) &&
               s.writer == WithRoot(w, root.0.(buf := Overwrite(AddToSizes(root.0.buf, Headers(w), |bytes|),
                                                                  Used(w), bytes))))
  {
    var root := RootAllocate(RootOf(w), |bytes|);
    AllocateInFrames(w, |bytes|);
    if root.1.Ok? {
      var r2 := root.0.(buf := AddToSizes(root.0.buf, Headers(w), |bytes|));
      WithRootTwice(w, r2, r2.(buf := Overwrite(r2.buf, Used(w), bytes)));
    }
  }
}
