/** The `Vector` atom (atom/src/atoms/vector.rs): a header `{child_size,
    child_type}` (the field order of `LV2_Atom_Vector_Body`) naming a scalar atom type and its size, then a packed run of
    values of that type. */
module Vector {
  import opened Bytes
  import opened Wrappers
  import opened Util
  import opened Aligned
  import opened Header
  import opened Allocator
  import opened SpaceWriter
  import opened Appending
  import opened Reader
  import opened Unidentified
  import opened Frames
  import opened Scalar

  /** `LV2_Atom_Vector_Body`: two `u32`s, the child size first. */
  const VECTOR_BODY: Layout := Layout(8, 4)

  datatype VectorBody = VectorBody(childType: u32, childSize: u32)

  /** The header a vector of `k` values of type `urid` carries. */
  function ChildBody(urid: u32, k: ScalarKind): VectorBody {
    VectorBody(urid, InternalType(k).size)
  }

  function EncodeBody(b: VectorBody): (r: seq<byte>)
    ensures |r| == VECTOR_BODY.size
  {
    EncodeU32(b.childSize) + EncodeU32(b.childType)
  }

  function DecodeBody(bytes: seq<byte>): VectorBody
    requires |bytes| == VECTOR_BODY.size
  {
    VectorBody(DecodeU32(bytes[4..]), DecodeU32(bytes[..4]))
  }

  /** Decoding an encoded vector header gives both fields back. */
  lemma {:induction false} BodyRoundTrip(b: VectorBody)
    ensures DecodeBody(EncodeBody(b)) == b
  {
    var e := EncodeBody(b);
    assert e[..4] == EncodeU32(b.childSize) && e[4..] == EncodeU32(b.childType);
    U32RoundTrip(b.childType);
    U32RoundTrip(b.childSize);
  }

  // ---------------------------------------------------------------------
  // Reading

  /** `VectorReader`: the header and the reader over the values. */
  datatype VectorReader = VectorReader(reader: Space, header: VectorBody)

  /** `Vector::read`: the header as the next value of the body; a body too
      short for it gives nothing. */
  function Read(body: Space): (r: Option<VectorReader>)
    ensures var p := Padding(body.addr, VECTOR_BODY.align);
            (r.Some? <==> p + VECTOR_BODY.size <= |body.bytes|) &&
            (r.Some? ==> r.value.header == DecodeBody(body.bytes[p..p + VECTOR_BODY.size]) &&
                         r.value.reader == Space(body.addr + p + VECTOR_BODY.size, body.bytes[p + VECTOR_BODY.size..]))
  {
    match NextValue(body, VECTOR_BODY)
    case Err(_) => None
    case Ok(v) => Some(VectorReader(v.1, DecodeBody(v.0)))
  }

  /** `VectorReader::of_type`: the values, if the header names `urid` and the
      size of the internal type of `k`; otherwise nothing. The values are the
      whole slots of the realigned rest of the body (`as_slice`); a rest too
      short to realign gives nothing. */
  function OfType(v: VectorReader, urid: u32, k: ScalarKind): (r: Option<seq<seq<byte>>>)
    ensures r.Some? ==> v.header == ChildBody(urid, k)
    ensures v.header == ChildBody(urid, k) ==>
              (r.Some? <==> Padding(v.reader.addr, InternalType(k).align) <= |v.reader.bytes|)
    ensures r.Some? ==> AllOfSize(r.value, InternalType(k).size) &&
                        Flatten(r.value) <= v.reader.bytes[Padding(v.reader.addr, InternalType(k).align)..]
  {
    var l := InternalType(k);
    if v.header.childType != urid || v.header.childSize as nat != l.size then None
    else
      match AlignFromBytes(l, v.reader)
      case Err(_) => None
      case Ok(a) =>
        AlignFromBytesPadding(l, v.reader);
        Some(AsUninitSlice(l, a))
  }

  // ---------------------------------------------------------------------
  // Writing

  /** `VectorTypeWriter`: the writer and where the reserved header is. */
  datatype VectorTypeWriter = VectorTypeWriter(writer: Writer, header: nat)

  /** `VectorWriter` for values of the internal type of `kind`. */
  datatype VectorWriter = VectorWriter(writer: Writer, kind: ScalarKind)

  /** `Vector::init`: reserves the header as an uninitialised value (the
      model writes zeros); nothing if that fails. */
  function Init(w: Writer): (r: Option<VectorTypeWriter>)
    requires Wf(w)
    ensures r.Some? ==> Wf(r.value.writer) && Addr(r.value.writer) == Addr(w) &&
                        r.value.header + VECTOR_BODY.size <= Used(r.value.writer)
  {
    var s := WriteValue(w, VECTOR_BODY, Zeros(VECTOR_BODY.size));
    if s.result.Err? then None else Some(VectorTypeWriter(s.writer, s.result.value))
  }

  /** `VectorTypeWriter::of_type`: fills in the reserved header with the
      child type and size, and hands out the writer for the values. */
  function OfTypeWriter(t: VectorTypeWriter, urid: u32, k: ScalarKind): (r: VectorWriter)
    requires Wf(t.writer) && t.header + VECTOR_BODY.size <= Used(t.writer)
    ensures Wf(r.writer) && r.kind == k && Addr(r.writer) == Addr(t.writer) && Used(r.writer) == Used(t.writer)
    ensures Buffer(r.writer)[t.header..t.header + VECTOR_BODY.size] == EncodeBody(ChildBody(urid, k))
  {
    var buf := Overwrite(Buffer(t.writer), t.header, EncodeBody(ChildBody(urid, k)));
    OverwriteSlice(Buffer(t.writer), t.header, EncodeBody(ChildBody(urid, k)));
    VectorWriter(WithBuffer(t.writer, buf), k)
  }

  /** `push`: one more value; nothing if it does not fit. */
  function Push(v: VectorWriter, value: seq<byte>): (r: (VectorWriter, Option<nat>))
    requires Wf(v.writer) && |value| == InternalType(v.kind).size
    ensures Wf(r.0.writer) && r.0.kind == v.kind && Addr(r.0.writer) == Addr(v.writer)
    ensures r.1.Some? ==> r.1.value + |value| <= Used(r.0.writer) &&
                          Buffer(r.0.writer)[r.1.value..r.1.value + |value|] == value
  {
    var s := WriteValue(v.writer, InternalType(v.kind), value);
    (VectorWriter(s.writer, v.kind), s.result.ToOption())
  }

  /** `allocate_uninit`: room for `count` more values. */
  function AllocateUninit(v: VectorWriter, count: nat): (r: (VectorWriter, Option<Slots>))
    requires Wf(v.writer)
    ensures Wf(r.0.writer) && r.0.kind == v.kind && Addr(r.0.writer) == Addr(v.writer)
    ensures r.1.Some? ==> r.1.value.offset + r.1.value.count * InternalType(v.kind).size <= Used(r.0.writer)
  {
    var s := AllocateValues(v.writer, InternalType(v.kind), count);
    (VectorWriter(s.writer, v.kind), s.result.ToOption())
  }

  /** `append`: the values, in order; nothing if they do not fit. */
  function Append(v: VectorWriter, values: seq<seq<byte>>): (r: (VectorWriter, Option<Slots>))
    requires Wf(v.writer) && AllOfSize(values, InternalType(v.kind).size)
    ensures Wf(r.0.writer) && r.0.kind == v.kind && Addr(r.0.writer) == Addr(v.writer)
    ensures r.1.Some? ==> r.1.value.offset + r.1.value.count * InternalType(v.kind).size <= Used(r.0.writer)
  {
    var s := WriteValues(v.writer, InternalType(v.kind), values);
    (VectorWriter(s.writer, v.kind), s.result.ToOption())
  }

  /** A whole vector atom: `write_atom(urid)`, `init`, `of_type(childUrid)`
      and `append(values)`; the vector writer if every step succeeded. */
  function WriteVectorAtom(w: Writer, urid: u32, childUrid: u32, k: ScalarKind, values: seq<seq<byte>>): (r: Option<VectorWriter>)
    requires Wf(w) && AllOfSize(values, InternalType(k).size)
    ensures r.Some? ==> Wf(r.value.writer) && r.value.kind == k
  {
    var n := WriteNew(w, urid);
    if n.result.Err? then None
    else
      match Init(n.result.value)
      case None => None
      case Some(t) =>
        var (v, slots) := Append(OfTypeWriter(t, childUrid, k), values);
        if slots.None? then None else Some(v)
  }

  // ---------------------------------------------------------------------
  // Round trip

  /** The bytes of a vector's body: the header, then the values. */
  function VectorBytes(childUrid: u32, k: ScalarKind, values: seq<seq<byte>>): seq<byte> {
    EncodeBody(ChildBody(childUrid, k)) + Flatten(values)
  }

  /** Writing a vector atom through a stack appends, after the padding to 8,
      a header announcing the vector's body, the vector header naming the
      child type and size, and then the values; nothing else changes. */
  lemma {:induction false} VectorAtomWritten(w: Writer, urid: u32, childUrid: u32, k: ScalarKind, values: seq<seq<byte>>)
    requires Stack(w) && AllOfSize(values, InternalType(k).size)
    requires WriteVectorAtom(w, urid, childUrid, k, values).Some?
    ensures var top := WriteVectorAtom(w, urid, childUrid, k, values).value.writer;
            top.AtomWriter? &&
            AtomLaidOut(Since(w, top.parent), PadFor(w, ATOM_HEADER), urid, VectorBytes(childUrid, k, values)) &&
            Appended(w, top.parent, Since(w, top.parent))
  {
    VectorBodyAppended(w, urid, childUrid, k, values);
    var top := WriteVectorAtom(w, urid, childUrid, k, values).value.writer;
    AtomAppended(w, urid, top, VectorBytes(childUrid, k, values));
  }

  /** Inside the atom, the vector writer has appended the vector header and
      the values, and its end is aligned for one more value. */
  lemma {:induction false} VectorBodyAppended(w: Writer, urid: u32, childUrid: u32, k: ScalarKind, values: seq<seq<byte>>)
    requires Stack(w) && AllOfSize(values, InternalType(k).size)
    requires WriteVectorAtom(w, urid, childUrid, k, values).Some?
    ensures WriteNew(w, urid).result.Ok?
    ensures var top := WriteVectorAtom(w, urid, childUrid, k, values).value.writer;
            Appended(WriteNew(w, urid).result.value, top, VectorBytes(childUrid, k, values)) &&
            PadFor(top, InternalType(k)) == 0
  {
    var aw := WriteNew(w, urid).result.value;
    WriteNewAppended(w, urid);
    ValueAfterHeader(w, urid);
    var tw := OfTypeWriter(Init(aw).value, childUrid, k).writer;
    var l := InternalType(k);
    VectorHeaderWritten(aw, childUrid, k);
    WriteValuesAppended(tw, l, values);
    var s := WriteValues(tw, l, values);
    var c2 := Buffer(s.writer)[Used(tw)..Used(s.writer)];
    assert c2 == c2[0..] == Flatten(values);
    AppendedTrans(aw, tw, s.writer, EncodeBody(ChildBody(childUrid, k)), c2);
    PadAfterValues(tw, s.writer, l, values);
  }

  /** Values whose size is their alignment keep an aligned end aligned. */
  lemma {:induction false} AlignedAfterValues(x: nat, l: Layout, values: seq<seq<byte>>)
    requires Padding(x, l.align) == 0 && l.size == l.align && AllOfSize(values, l.size)
    ensures Padding(x + |Flatten(values)|, l.align) == 0
  {
    FlattenLength(values, l.size);
    AlignedAfter(x, l.align, |values|);
  }

  /** One value after an end aligned for it, the end is aligned again. */
  lemma {:induction false} PadAfterValue(w: Writer, w': Writer, l: Layout)
    requires l.size == l.align && PadFor(w, l) == 0
    requires Addr(w') == Addr(w) && Used(w') == Used(w) + l.size
    ensures PadFor(w', l) == 0
  {
    AlignedAfter(Addr(w) + Used(w), l.align, 1);
  }

  /** Whole values after an end aligned for them, the end is aligned again. */
  lemma {:induction false} PadAfterValues(w: Writer, w': Writer, l: Layout, values: seq<seq<byte>>)
    requires l.size == l.align && PadFor(w, l) == 0 && AllOfSize(values, l.size)
    requires Addr(w') == Addr(w) && Used(w') == Used(w) + |Flatten(values)|
    ensures PadFor(w', l) == 0
  {
    AlignedAfterValues(Addr(w) + Used(w), l, values);
  }

  /** `n` strides of an alignment from an aligned address. */
  lemma {:induction false} AlignedAfter(x: nat, a: Align, n: nat)
    requires Padding(x, a) == 0
    ensures Padding(x + n * a, a) == 0
  {
    PaddingFacts(x, a);
    DivModUnique(x + n * a, a, x / a + n, 0);
    PaddingUnique(x + n * a, a, 0);
  }

  /** `push` fails, changing nothing, exactly when the root cannot make room
      for the value (at an end aligned for it, no padding is needed). */
  lemma {:induction false} PushFits(v: VectorWriter, value: seq<byte>)
    requires Stack(v.writer) && |value| == InternalType(v.kind).size && PadFor(v.writer, InternalType(v.kind)) == 0
    ensures var r := Push(v, value);
            (r.1.Some? <==> RootAllocate(RootOf(v.writer), |value|).1.Ok?) &&
            (r.1.None? ==> r.0.writer == v.writer)
  {
    WriteValueAppended(v.writer, InternalType(v.kind), value);
  }

  /** `push` at an end aligned for the values appends exactly the value, with
      no padding, and leaves the end aligned. */
  lemma {:induction false} PushAppended(v: VectorWriter, value: seq<byte>)
    requires Stack(v.writer) && |value| == InternalType(v.kind).size && PadFor(v.writer, InternalType(v.kind)) == 0
    requires Push(v, value).1.Some?
    ensures var r := Push(v, value);
            r.1.value == Used(v.writer) && Appended(v.writer, r.0.writer, value) &&
            PadFor(r.0.writer, InternalType(v.kind)) == 0
  {
    var l := InternalType(v.kind);
    WriteValueAppended(v.writer, l, value);
    var s := WriteValue(v.writer, l, value);
    var c := Buffer(s.writer)[Used(v.writer)..Used(s.writer)];
    assert c == c[0..] == value;
    PadAfterValue(v.writer, s.writer, l);
  }

  /** `append` fails, changing nothing, exactly when the root cannot make
      room for the values (at an end aligned for them, no padding is
      needed). */
  lemma {:induction false} AppendFits(v: VectorWriter, values: seq<seq<byte>>)
    requires Stack(v.writer) && AllOfSize(values, InternalType(v.kind).size) && PadFor(v.writer, InternalType(v.kind)) == 0
    ensures var r := Append(v, values);
            (r.1.Some? <==> RootAllocate(RootOf(v.writer), |Flatten(values)|).1.Ok?) &&
            (r.1.None? ==> r.0.writer == v.writer)
  {
    WriteValuesAppended(v.writer, InternalType(v.kind), values);
  }

  /** `append` at an end aligned for the values appends exactly their bytes,
      in order, and leaves the end aligned. */
  lemma {:induction false} AppendAppended(v: VectorWriter, values: seq<seq<byte>>)
    requires Stack(v.writer) && AllOfSize(values, InternalType(v.kind).size) && PadFor(v.writer, InternalType(v.kind)) == 0
    requires Append(v, values).1.Some?
    ensures var r := Append(v, values);
            r.1.value == Slots(Used(v.writer), |values|) &&
            Appended(v.writer, r.0.writer, Flatten(values)) &&
            PadFor(r.0.writer, InternalType(v.kind)) == 0
  {
    var l := InternalType(v.kind);
    WriteValuesAppended(v.writer, l, values);
    var s := WriteValues(v.writer, l, values);
    var c := Buffer(s.writer)[Used(v.writer)..Used(s.writer)];
    assert c == c[0..] == Flatten(values);
    PadAfterValues(v.writer, s.writer, l, values);
  }

  /** `init` then `of_type` right after `write_new` append the vector header,
      after which the values need no padding. */
  lemma {:induction false} VectorHeaderWritten(aw: Writer, childUrid: u32, k: ScalarKind)
    requires Stack(aw) && PadFor(aw, SCALAR_VALUE) == 0 && Init(aw).Some?
    ensures var tw := OfTypeWriter(Init(aw).value, childUrid, k).writer;
            Appended(aw, tw, EncodeBody(ChildBody(childUrid, k))) &&
            PadFor(tw, InternalType(k)) == 0
  {
    var t := Init(aw).value;
    InitAppended(aw);
    HeaderFilledIn(aw, t, childUrid, k);
    var tw := OfTypeWriter(t, childUrid, k).writer;
    ValuesAfterVectorHeader(Addr(aw) + Used(aw), Addr(tw) + Used(tw), InternalType(k));
  }

  /** Filling in the reserved header turns the appended placeholder into the
      encoded vector header. */
  lemma {:induction false} HeaderFilledIn(aw: Writer, t: VectorTypeWriter, childUrid: u32, k: ScalarKind)
    requires Wf(t.writer) && t.header == Used(aw) && Used(t.writer) == Used(aw) + VECTOR_BODY.size
    requires Appended(aw, t.writer, Buffer(t.writer)[Used(aw)..Used(t.writer)])
    ensures Appended(aw, OfTypeWriter(t, childUrid, k).writer, EncodeBody(ChildBody(childUrid, k)))
  {
    var enc := EncodeBody(ChildBody(childUrid, k));
    var c1 := Buffer(t.writer)[Used(aw)..Used(t.writer)];
    OverwriteAppended(aw, t.writer, c1, Used(aw), 0, enc, Overwrite(c1, 0, enc));
    assert Overwrite(c1, 0, enc) == enc;
  }

  /** `init` right after `write_new` appends the eight bytes of the reserved
      header with no padding, and hands them out first. */
  lemma {:induction false} InitAppended(aw: Writer)
    requires Stack(aw) && PadFor(aw, SCALAR_VALUE) == 0 && Init(aw).Some?
    ensures var t := Init(aw).value;
            t.header == Used(aw) && Used(t.writer) == Used(aw) + VECTOR_BODY.size &&
            Appended(aw, t.writer, Buffer(t.writer)[Used(aw)..Used(t.writer)])
  {
    DivisibleBy4(Addr(aw) + Used(aw), VECTOR_BODY.align);
    PaddingUnique(Addr(aw) + Used(aw), VECTOR_BODY.align, 0);
    WriteValueAppended(aw, VECTOR_BODY, Zeros(VECTOR_BODY.size));
  }

  /** The values start eight bytes after an 8-aligned address, so they need
      no padding whatever their type. */
  lemma {:induction false} ValuesAfterVectorHeader(x: nat, y: nat, l: Layout)
    requires Padding(x, SCALAR_VALUE.align) == 0 && y == x + VECTOR_BODY.size
    requires l.size == l.align && (l.size == 4 || l.size == 8)
    ensures y % l.align == 0 && Padding(y, l.align) == 0
  {
    AlignedAfterHeader(x, y);
    DivisibleBy4(y, l.align);
    PaddingUnique(y, l.align, 0);
  }

  /** Reading the body of a vector at a 4-aligned address: `read` takes the
      vector header off the front and leaves a reader over the rest. */
  lemma {:induction false} VectorBodyRead(x: nat, b: VectorBody, rest: seq<byte>)
    requires x % VECTOR_BODY.align == 0
    ensures Read(Space(x, EncodeBody(b) + rest)) == Some(VectorReader(Space(x + VECTOR_BODY.size, rest), b))
  {
    var bytes := EncodeBody(b) + rest;
    PaddingUnique(x, VECTOR_BODY.align, 0);
    assert bytes[0..VECTOR_BODY.size] == EncodeBody(b) && bytes[VECTOR_BODY.size..] == rest;
    BodyRoundTrip(b);
  }

  /** `of_type` with the type the header names, over values starting at an
      address aligned for them, gives the values back, in order. */
  lemma {:induction false} ValuesOfType(y: nat, childUrid: u32, k: ScalarKind, values: seq<seq<byte>>)
    requires y % InternalType(k).align == 0 && AllOfSize(values, InternalType(k).size)
    ensures OfType(VectorReader(Space(y, Flatten(values)), ChildBody(childUrid, k)), childUrid, k) == Some(values)
  {
    var l := InternalType(k);
    var rest := Space(y, Flatten(values));
    assert rest == FromSlice(l, y, values);
    AlignFromAligned(l, rest);
    FromSliceRoundTrip(l, y, values);
  }

  /** Reading the body of a vector at an 8-aligned address: the header names
      the child type and size, and `of_type` with that type gives the values
      back, in order. */
  lemma {:induction false} VectorBytesRead(x: nat, childUrid: u32, k: ScalarKind, values: seq<seq<byte>>)
    requires x % 8 == 0 && AllOfSize(values, InternalType(k).size)
    ensures var r := Read(Space(x, VectorBytes(childUrid, k, values)));
            r == Some(VectorReader(Space(x + VECTOR_BODY.size, Flatten(values)), ChildBody(childUrid, k))) &&
            OfType(r.value, childUrid, k) == Some(values)
  {
    DivisibleBy4(x, VECTOR_BODY.align);
    VectorBodyRead(x, ChildBody(childUrid, k), Flatten(values));
    DivisibleBy4(x + VECTOR_BODY.size, InternalType(k).align);
    ValuesOfType(x + VECTOR_BODY.size, childUrid, k, values);
  }

  /** Reading back a vector atom laid out at `addr`: `next_atom` finds a
      header of the atom's type announcing the vector's body, `read` finds the
      vector header, and `of_type` with the child type gives the values. */
  lemma {:induction false} VectorAtomRead(addr: nat, c: seq<byte>, pad: nat, urid: u32, childUrid: u32, k: ScalarKind, values: seq<seq<byte>>)
    requires pad == Padding(addr, 8) && AllOfSize(values, InternalType(k).size)
    requires |VectorBytes(childUrid, k, values)| < U32_LIMIT
    requires AtomLaidOut(c, pad, urid, VectorBytes(childUrid, k, values))
    ensures NextAtom(Space(addr, c)).Ok?
    ensures var a := NextAtom(Space(addr, c)).value.0;
            a.header == AtomHeader(|VectorBytes(childUrid, k, values)|, urid) &&
            Read(Body(a)).Some? && Read(Body(a)).value.header == ChildBody(childUrid, k) &&
            OfType(Read(Body(a)).value, childUrid, k) == Some(values)
  {
    var vb := VectorBytes(childUrid, k, values);
    var h := AtomHeader(|vb|, urid);
    assert c[pad..] == Encode(h) + vb + c[|c|..];
    ReadPaddedAtom(addr, pad, c, h, vb, |c|);
    var a := NextAtom(Space(addr, c)).value.0;
    assert a == UnidentifiedAtom(addr + pad, h, vb);
    var y := addr + pad + HEADER_SIZE;
    assert Body(a) == Space(y, vb);
    VectorBytesRead(y, childUrid, k, values);
  }

  /** On a fixed buffer, writing a vector atom succeeds exactly when the
      padding, the atom header, the vector header and the values fit in what
      is left. */
  lemma {:induction false} VectorAtomFits(w: Writer, urid: u32, childUrid: u32, k: ScalarKind, values: seq<seq<byte>>)
    requires Stack(w) && RootOf(w).backing.Slice? && AllOfSize(values, InternalType(k).size)
    ensures WriteVectorAtom(w, urid, childUrid, k, values).Some?
            <==> Used(w) + PadFor(w, ATOM_HEADER) + HEADER_SIZE + VECTOR_BODY.size + |Flatten(values)| <= |Buffer(w)|
  {
    var ok := VectorAtomSteps(w, urid, childUrid, k, values);
    NewFits(w, urid);
    if WriteNew(w, urid).result.Ok? {
      var aw := WriteNew(w, urid).result.value;
      HeaderFits(aw, childUrid, k);
      if Init(aw).Some? {
        ValuesFit(OfTypeWriter(Init(aw).value, childUrid, k).writer, InternalType(k), values);
      }
    }
  }

  /** `WriteVectorAtom` succeeds exactly when each of its three steps does. */
  lemma {:induction false} VectorAtomSteps(w: Writer, urid: u32, childUrid: u32, k: ScalarKind, values: seq<seq<byte>>)
    returns (ok: bool)
    requires Wf(w) && AllOfSize(values, InternalType(k).size)
    ensures ok == WriteVectorAtom(w, urid, childUrid, k, values).Some?
    ensures ok <==> WriteNew(w, urid).result.Ok? && Init(WriteNew(w, urid).result.value).Some? &&
                    WriteValues(OfTypeWriter(Init(WriteNew(w, urid).result.value).value, childUrid, k).writer,
                                InternalType(k), values).result.Ok?
  {
    ok := WriteVectorAtom(w, urid, childUrid, k, values).Some?;
  }

  /** On a fixed buffer, `write_new` succeeds exactly when the padding and
      the header fit; the atom writer it hands out then needs no padding for
      an 8-aligned value. */
  lemma {:induction false} NewFits(w: Writer, urid: u32)
    requires Stack(w) && RootOf(w).backing.Slice?
    ensures var n := WriteNew(w, urid);
            var end := Used(w) + PadFor(w, ATOM_HEADER) + HEADER_SIZE;
            (n.result.Ok? <==> end <= |Buffer(w)|) &&
            (n.result.Ok? ==> var aw := n.result.value;
                              Stack(aw) && RootOf(aw).backing.Slice? && Used(aw) == end &&
                              |Buffer(aw)| == |Buffer(w)| && PadFor(aw, SCALAR_VALUE) == 0)
  {
    WriteNewAppended(w, urid);
    SliceAllocate(w, HEADER_SIZE + PadFor(w, ATOM_HEADER));
    if WriteNew(w, urid).result.Ok? {
      ValueAfterHeader(w, urid);
    }
  }

  /** On a fixed buffer, `init` right after `write_new` succeeds exactly when
      the vector header fits; after `of_type` the values need no padding. */
  lemma {:induction false} HeaderFits(aw: Writer, childUrid: u32, k: ScalarKind)
    requires Stack(aw) && RootOf(aw).backing.Slice? && PadFor(aw, SCALAR_VALUE) == 0
    ensures Init(aw).Some? <==> Used(aw) + VECTOR_BODY.size <= |Buffer(aw)|
    ensures Init(aw).Some? ==>
              var tw := OfTypeWriter(Init(aw).value, childUrid, k).writer;
              Stack(tw) && RootOf(tw).backing.Slice? && Used(tw) == Used(aw) + VECTOR_BODY.size &&
              |Buffer(tw)| == |Buffer(aw)| && PadFor(tw, InternalType(k)) == 0
  {
    InitFits(aw);
    if Init(aw).Some? {
      VectorHeaderWritten(aw, childUrid, k);
    }
  }

  /** On a fixed buffer, writing values with no padding succeeds exactly when
      they fit. */
  lemma {:induction false} ValuesFit(tw: Writer, l: Layout, values: seq<seq<byte>>)
    requires Stack(tw) && RootOf(tw).backing.Slice? && l.size > 0 && AllOfSize(values, l.size)
    requires PadFor(tw, l) == 0
    ensures WriteValues(tw, l, values).result.Ok? <==> Used(tw) + |Flatten(values)| <= |Buffer(tw)|
  {
    WriteValuesAppended(tw, l, values);
    SliceAllocate(tw, |Flatten(values)|);
  }

  /** On a fixed buffer, `init` right after `write_new` succeeds exactly when
      the vector header fits. */
  lemma {:induction false} InitFits(aw: Writer)
    requires Stack(aw) && RootOf(aw).backing.Slice? && PadFor(aw, SCALAR_VALUE) == 0
    ensures Init(aw).Some? <==> Used(aw) + VECTOR_BODY.size <= |Buffer(aw)|
  {
    DivisibleBy4(Addr(aw) + Used(aw), VECTOR_BODY.align);
    PaddingUnique(Addr(aw) + Used(aw), VECTOR_BODY.align, 0);
    WriteValueAppended(aw, VECTOR_BODY, Zeros(VECTOR_BODY.size));
    SliceAllocate(aw, VECTOR_BODY.size);
  }

  /** Pushing one more value after the vector atom was written keeps it a
      well-formed atom whose body grew by the value. */
  lemma {:induction false} PushedIntoAtom(w: Writer, urid: u32, v: VectorWriter, body: seq<byte>, value: seq<byte>)
    requires Stack(w) && WriteNew(w, urid).result.Ok?
    requires Appended(WriteNew(w, urid).result.value, v.writer, body)
    requires |value| == InternalType(v.kind).size && PadFor(v.writer, InternalType(v.kind)) == 0
    requires Push(v, value).1.Some?
    ensures var top := Push(v, value).0.writer;
            top.AtomWriter? &&
            AtomLaidOut(Since(w, top.parent), PadFor(w, ATOM_HEADER), urid, body + value) &&
            Appended(w, top.parent, Since(w, top.parent))
  {
    var aw := WriteNew(w, urid).result.value;
    PushAppended(v, value);
    var top := Push(v, value).0.writer;
    AppendedTrans(aw, v.writer, top, body, value);
    AtomAppended(w, urid, top, body + value);
  }

  /** The values the vector test appends: sixteen `Int`s holding 42. */
  function TestAppended(): (vs: seq<seq<byte>>)
    ensures |vs| == 16 && AllOfSize(vs, 4)
    ensures forall i :: 0 <= i < 16 ==> DecodeI32(vs[i]) == 42
  {
    I32RoundTrip(42);
    seq(16, _ => EncodeI32(42))
  }

  /** All the values of the vector test: the appended ones, then the pushed
      1. */
  function TestValues(): (vs: seq<seq<byte>>)
    ensures |vs| == 17 && AllOfSize(vs, 4)
    ensures (forall i :: 0 <= i < 16 ==> DecodeI32(vs[i]) == 42) && DecodeI32(vs[16]) == 1
  {
    I32RoundTrip(1);
    TestAppended() + [EncodeI32(1)]
  }

  /** The bytes of the test vector's body: those of the appended values,
      then the pushed one. */
  lemma {:induction false} TestBytes(intUrid: u32)
    ensures VectorBytes(intUrid, Int, TestAppended()) + EncodeI32(1) == VectorBytes(intUrid, Int, TestValues())
    ensures |VectorBytes(intUrid, Int, TestValues())| == VECTOR_BODY.size + 4 * 17
  {
    FlattenConcat(TestAppended(), [EncodeI32(1)]);
    assert Flatten([EncodeI32(1)]) == EncodeI32(1) + Flatten([]);
    FlattenLength(TestValues(), 4);
  }

  /** The writing half of the vector test: `init_atom(vector, int)` on an
      aligned 512-byte buffer and `append` of the sixteen 42s succeed, and
      leave the end 80 bytes in, aligned for one more `Int`. */
  lemma {:induction false} TestAppendWritten(addr: nat, vectorUrid: u32, intUrid: u32)
    requires addr % 8 == 0
    ensures var w := SliceCursor(addr, Zeros(512));
            var r := WriteVectorAtom(w, vectorUrid, intUrid, Int, TestAppended());
            r.Some? && WriteNew(w, vectorUrid).result.Ok? &&
            var top := r.value.writer;
            r.value.kind == Int && Stack(top) && RootOf(top).backing.Slice? &&
            Used(top) == 80 && |Buffer(top)| == 512 && PadFor(top, I32) == 0 &&
            Appended(WriteNew(w, vectorUrid).result.value, top, VectorBytes(intUrid, Int, TestAppended()))
  {
    var w := SliceCursor(addr, Zeros(512));
    PaddingUnique(addr, 8, 0);
    FlattenLength(TestAppended(), 4);
    VectorAtomFits(w, vectorUrid, intUrid, Int, TestAppended());
    NewFits(w, vectorUrid);
    VectorBodyAppended(w, vectorUrid, intUrid, Int, TestAppended());
  }

  /** The writing half of the vector test, with the `push(1)`: the buffer
      holds, from its start, an atom of the vector type whose body is the
      vector header and the seventeen values. */
  lemma {:induction false} TestWritten(addr: nat, vectorUrid: u32, intUrid: u32)
    requires addr % 8 == 0
    ensures var w := SliceCursor(addr, Zeros(512));
            var r := WriteVectorAtom(w, vectorUrid, intUrid, Int, TestAppended());
            r.Some? &&
            var p := Push(r.value, EncodeI32(1));
            p.1.Some? && p.0.writer.AtomWriter? &&
            AtomLaidOut(Since(w, p.0.writer.parent), 0, vectorUrid, VectorBytes(intUrid, Int, TestValues()))
  {
    var w := SliceCursor(addr, Zeros(512));
    PaddingUnique(addr, 8, 0);
    assert PadFor(w, ATOM_HEADER) == 0;
    TestAppendWritten(addr, vectorUrid, intUrid);
    var v := WriteVectorAtom(w, vectorUrid, intUrid, Int, TestAppended()).value;
    PushFits(v, EncodeI32(1));
    SliceAllocate(v.writer, 4);
    PushedIntoAtom(w, vectorUrid, v, VectorBytes(intUrid, Int, TestAppended()), EncodeI32(1));
    TestBytes(intUrid);
  }

  /** The vector test (vector.rs): on an aligned 512-byte buffer,
      `init_atom(vector, int)`, `append` of sixteen 42s and `push(1)` make an
      atom of the vector type whose size is the vector header plus seventeen
      four-byte values; reading it back, its header names `Int` and four-byte
      children, and `of_type(int)` gives sixteen 42s and then 1. */
  lemma {:induction false} VectorExample(addr: nat, vectorUrid: u32, intUrid: u32)
    requires addr % 8 == 0
    ensures var w := SliceCursor(addr, Zeros(512));
            var r := WriteVectorAtom(w, vectorUrid, intUrid, Int, TestAppended());
            r.Some? &&
            var p := Push(r.value, EncodeI32(1));
            p.1.Some? && p.0.writer.AtomWriter? &&
            var c := Since(w, p.0.writer.parent);
            NextAtom(Space(addr, c)).Ok? &&
            var a := NextAtom(Space(addr, c)).value.0;
            a.header == AtomHeader(VECTOR_BODY.size + 4 * 17, vectorUrid) &&
            Read(Body(a)).Some? && Read(Body(a)).value.header == VectorBody(intUrid, 4) &&
            OfType(Read(Body(a)).value, intUrid, Int) == Some(TestValues())
  {
    PaddingUnique(addr, 8, 0);
    TestWritten(addr, vectorUrid, intUrid);
    TestBytes(intUrid);
    var w := SliceCursor(addr, Zeros(512));
    var v := WriteVectorAtom(w, vectorUrid, intUrid, Int, TestAppended()).value;
    var top := Push(v, EncodeI32(1)).0.writer;
    VectorAtomRead(addr, Since(w, top.parent), 0, vectorUrid, intUrid, Int, TestValues());
  }
}
