/** Atom ports (atom/src/port.rs): the `AtomPort` port type, whose input side
    reads the one atom the host placed at the port's pointer and whose output
    side writes one atom into the body of the atom the host placed there.

    The host's memory at the pointer is a `Space`. An output port's cursor
    runs over a copy of the body bytes; `WriteBack` puts them back where they
    alias the host's memory, which in Rust happens by writing through the
    same pointer. The `sample_count` argument is unused by the source and
    left out. */
module Port {
  import opened Bytes
  import opened Wrappers
  import opened Errors
  import opened Util
  import opened Aligned
  import opened Header
  import opened Allocator
  import opened SpaceWriter
  import opened Appending
  import opened Reader
  import opened Frames
  import opened Scalar
  import Unidentified
  import Chunk

  /** What `assume_full_atom` takes for granted about the memory at a port's
      pointer: an 8-aligned header followed by at least the body it
      announces. */
  predicate FullAtomAt(mem: Space) {
    mem.addr % 8 == 0 && HEADER_SIZE <= |mem.bytes| &&
    HEADER_SIZE + Decode(mem.bytes[..HEADER_SIZE]).size <= |mem.bytes|
  }

  /** `AtomHeader::from_raw` at the pointer. */
  function HeaderOf(mem: Space): AtomHeader
    requires HEADER_SIZE <= |mem.bytes|
  {
    Decode(mem.bytes[..HEADER_SIZE])
  }

  /** `PortReader`: the atom found at an input port. */
  datatype PortReader = PortReader(atom: Unidentified.UnidentifiedAtom)

  /** `PortWriter`: a cursor over the body of the atom at an output port, and
      whether an atom was started there. */
  datatype PortWriter = PortWriter(space: Writer, hasBeenWritten: bool)

  /** `input_from_raw`: the header at the pointer and the body it announces.
      The atom's own bytes are the memory's first `size_of_atom` bytes. */
  function InputFromRaw(mem: Space): (r: PortReader)
    requires FullAtomAt(mem)
    ensures Unidentified.Valid(r.atom) && r.atom.addr == mem.addr && r.atom.header == HeaderOf(mem)
    ensures Unidentified.AtomSpace(r.atom).bytes == mem.bytes[..Unidentified.SizeOfAtom(r.atom.header)]
  {
    var h := HeaderOf(mem);
    var r := PortReader(Unidentified.UnidentifiedAtom(mem.addr, h, mem.bytes[HEADER_SIZE..HEADER_SIZE + h.size]));
    EncodeDecode(mem.bytes[..HEADER_SIZE]);
    assert mem.bytes[..HEADER_SIZE + h.size] == mem.bytes[..HEADER_SIZE] + mem.bytes[HEADER_SIZE..HEADER_SIZE + h.size];
    r
  }

  /** `PortReader::read`: the atom's own `read`, which checks the type and
      hands the body to the atom type's reader (a parameter of the model). */
  function Read<T>(r: PortReader, urid: u32, read: Space -> Result<T, AtomReadError>): (res: Result<T, AtomReadError>)
    requires Unidentified.Valid(r.atom)
    ensures r.atom.header.urid != urid ==> res == Err(InvalidAtomUrid(urid, r.atom.header.urid))
    ensures r.atom.header.urid == urid ==> res == read(Space(r.atom.addr + HEADER_SIZE, r.atom.body))
  {
    Unidentified.Read(r.atom, urid, read)
  }

  /** `output_from_raw`: a fresh cursor over the body of the atom at the
      pointer, starting right after its header, with nothing written yet. */
  function OutputFromRaw(mem: Space): (w: PortWriter)
    requires FullAtomAt(mem)
    ensures Stack(w.space) && w.space.Cursor? && RootOf(w.space).backing.Slice? && !w.hasBeenWritten
    ensures Used(w.space) == 0 && Addr(w.space) == mem.addr + HEADER_SIZE
    ensures |Buffer(w.space)| == HeaderOf(mem).size
    ensures Buffer(w.space) == mem.bytes[HEADER_SIZE..HEADER_SIZE + HeaderOf(mem).size]
  {
    var h := HeaderOf(mem);
    PortWriter(SliceCursor(mem.addr + HEADER_SIZE, mem.bytes[HEADER_SIZE..HEADER_SIZE + h.size]), false)
  }

  /** The memory at the pointer once the body bytes the port's cursor ran
      over are as the writer left them. */
  function WriteBack(mem: Space, body: seq<byte>): (r: Space)
    requires FullAtomAt(mem) && |body| == HeaderOf(mem).size
    ensures FullAtomAt(r) && r.addr == mem.addr && |r.bytes| == |mem.bytes| && HeaderOf(r) == HeaderOf(mem)
    ensures r.bytes[HEADER_SIZE..HEADER_SIZE + |body|] == body
    ensures r.bytes[HEADER_SIZE + |body|..] == mem.bytes[HEADER_SIZE + |body|..]
  {
    var r := Space(mem.addr, mem.bytes[..HEADER_SIZE] + body + mem.bytes[HEADER_SIZE + |body|..]);
    assert r.bytes[..HEADER_SIZE] == mem.bytes[..HEADER_SIZE];
    r
  }

  /** `PortWriter::init`: the first call marks the port as written, before
      the atom is started, and starts it with `init_atom` on the cursor; the
      port is marked even when that fails. Every later call fails with
      `AtomAlreadyWritten` and changes nothing. */
  function Init(pw: PortWriter, urid: u32): (r: (PortWriter, Result<Writer, AtomWriteError>))
    requires Wf(pw.space)
    ensures r.0.hasBeenWritten && Wf(r.0.space) && Addr(r.0.space) == Addr(pw.space)
    ensures pw.hasBeenWritten ==> r == (pw, Err(AtomAlreadyWritten))
    ensures !pw.hasBeenWritten && r.1.Ok? ==>
              r.1.value.AtomWriter? && r.1.value.parent == r.0.space &&
              r.1.value.headerIndex + HEADER_SIZE == Used(r.0.space)
  {
    if !pw.hasBeenWritten then
      var s := WriteNew(pw.space, urid);
      (PortWriter(s.writer, true), s.result)
    else
      (pw, Err(AtomAlreadyWritten))
  }

  /** `init(urid)` for a scalar type, then `set(value)` on the handle, as the
      port test does: the stack after `set` (whose buffer is the port's body)
      and the handle, or the first error. On a fresh port it is `write_atom`
      of the scalar on the port's cursor. */
  function InitScalar(pw: PortWriter, urid: u32, k: ScalarKind, value: seq<byte>): (s: Step<Writer>)
    requires Wf(pw.space) && |value| == InternalType(k).size
    ensures pw.hasBeenWritten ==> s.result == Err(AtomAlreadyWritten)
    ensures !pw.hasBeenWritten ==> s == WriteScalarAtom(pw.space, urid, k, value)
  {
    var i := Init(pw, urid);
    if i.1.Err? then Step(i.0.space, Err(i.1.error))
    else
      var t := Set(i.1.value, k, value);
      if t.result.Err? then Step(t.writer, Err(t.result.error))
      else if t.writer.AtomWriter? then Step(t.writer, Ok(t.writer))
      else Step(t.writer, Err(Panic))
  }

  /** Starting an atom at a fresh output port succeeds exactly when the body
      of the atom at the pointer has room for a header: the body starts
      8-aligned, so no padding goes before it. */
  lemma {:induction false} PortInitFits(mem: Space, urid: u32)
    requires FullAtomAt(mem)
    ensures Init(OutputFromRaw(mem), urid).1.Ok? <==> HEADER_SIZE <= HeaderOf(mem).size
  {
    var w := OutputFromRaw(mem).space;
    BodyUnpadded(mem, w);
    WriteNewAppended(w, urid);
    SliceAllocate(w, HEADER_SIZE);
  }

  /** A port's cursor starts 8-aligned, so it needs no padding before a
      header or a scalar value. */
  lemma {:induction false} BodyUnpadded(mem: Space, w: Writer)
    requires FullAtomAt(mem) && w == OutputFromRaw(mem).space
    ensures PadFor(w, ATOM_HEADER) == 0
  {
    var x := mem.addr + HEADER_SIZE;
    DivModUnique(x, 8, mem.addr / 8 + 1, 0);
    PaddingUnique(x, 8, 0);
  }

  /** Writing a scalar atom to a fresh output port succeeds exactly when the
      body of the atom at the pointer holds a header and an eight-byte
      value. */
  lemma {:induction false} PortScalarFits(mem: Space, urid: u32, k: ScalarKind, value: seq<byte>)
    requires FullAtomAt(mem) && |value| == InternalType(k).size
    ensures InitScalar(OutputFromRaw(mem), urid, k, value).result.Ok?
            <==> HEADER_SIZE + SCALAR_VALUE.size <= HeaderOf(mem).size
  {
    var w := OutputFromRaw(mem).space;
    BodyUnpadded(mem, w);
    ScalarAtomFits(w, urid, k, value);
  }

  /** What a scalar written to an output port leaves in the port's body
      reads back through an input port at the body: a full atom of the
      scalar's type holding eight body bytes, and reading it gives the
      value. */
  lemma {:induction false} PortScalarRoundTrip(mem: Space, urid: u32, k: ScalarKind, value: seq<byte>)
    requires FullAtomAt(mem) && |value| == InternalType(k).size
    requires InitScalar(OutputFromRaw(mem), urid, k, value).result.Ok?
    ensures var b := Space(mem.addr + HEADER_SIZE, Buffer(InitScalar(OutputFromRaw(mem), urid, k, value).writer));
            FullAtomAt(b) && HeaderOf(b) == AtomHeader(SCALAR_VALUE.size as u32, urid) &&
            Read(InputFromRaw(b), urid, body => ReadScalar(k, body)) == Ok(value)
  {
    var w := OutputFromRaw(mem).space;
    var top := WriteScalarAtom(w, urid, k, value).writer;
    BodyUnpadded(mem, w);
    ScalarAtomWritten(w, urid, k, value);
    var c := Since(w, top.parent);
    var at := mem.addr + HEADER_SIZE;
    assert at % 8 == 0 by {
      DivModUnique(at, 8, mem.addr / 8 + 1, 0);
    }
    ScalarLaidAtStart(at, Buffer(top), c, urid, k, value);
  }

  /** A scalar atom laid out at the start of `buf`, at an 8-aligned address,
      is a full atom there that reads back as its value. */
  lemma {:induction false} ScalarLaidAtStart(at: nat, buf: seq<byte>, c: seq<byte>, urid: u32, k: ScalarKind, value: seq<byte>)
    requires at % 8 == 0 && |value| == InternalType(k).size
    requires |c| <= |buf| && buf[..|c|] == c && AtomLaidOut(c, 0, urid, ScalarValue(value))
    ensures var b := Space(at, buf);
            FullAtomAt(b) && HeaderOf(b) == AtomHeader(SCALAR_VALUE.size as u32, urid) &&
            Read(InputFromRaw(b), urid, body => ReadScalar(k, body)) == Ok(value)
  {
    var h := AtomHeader(SCALAR_VALUE.size as u32, urid);
    var v := ScalarValue(value);
    assert c == c[0..] == Encode(h) + v;
    assert buf[..HEADER_SIZE] == c[..HEADER_SIZE] == Encode(h);
    assert buf[HEADER_SIZE..HEADER_SIZE + SCALAR_VALUE.size] == c[HEADER_SIZE..] == v;
    DecodeEncode(h);
    ScalarRoundTrip(k, at + HEADER_SIZE, value);
  }

  /** The chunk the port test writes first: 256 bytes less a header of
      uninitialised bytes, which the model holds as zeros. */
  const TEST_CHUNK: nat := 256 - HEADER_SIZE

  /** The first block of the port test: a chunk of `TEST_CHUNK` bytes at the
      start of an aligned 512-byte buffer, which leaves a full atom of the
      chunk's type at the start. */
  lemma {:induction false} PortTestChunk(addr: nat, chunkUrid: u32)
    requires addr % 8 == 0
    ensures var s := Chunk.WriteChunk(SliceCursor(addr, Zeros(512)), chunkUrid, Zeros(TEST_CHUNK));
            s.result.Ok? &&
            var mem := Space(addr, Buffer(s.writer));
            FullAtomAt(mem) && HeaderOf(mem) == AtomHeader(TEST_CHUNK as u32, chunkUrid) && |mem.bytes| == 512
  {
    var w := SliceCursor(addr, Zeros(512));
    var data := Zeros(TEST_CHUNK);
    PaddingUnique(addr, 8, 0);
    assert PadFor(w, ATOM_HEADER) == 0;
    Chunk.ChunkFits(w, chunkUrid, data);
    Chunk.ChunkWritten(w, chunkUrid, data);
    var top := Chunk.WriteChunk(w, chunkUrid, data).writer;
    var c := Since(w, top.parent);
    LaidHeader(c, chunkUrid, data);
    var h := AtomHeader(TEST_CHUNK as u32, chunkUrid);
    assert Buffer(top)[..HEADER_SIZE] == c[..HEADER_SIZE];
    DecodeEncode(h);
  }

  /** An atom laid out without padding starts with its header. */
  lemma {:induction false} LaidHeader(c: seq<byte>, urid: u32, body: seq<byte>)
    requires AtomLaidOut(c, 0, urid, body) && |body| < U32_LIMIT
    ensures |c| == HEADER_SIZE + |body| && c[..HEADER_SIZE] == Encode(AtomHeader(|body|, urid))
  {
    assert |body| % U32_LIMIT == |body|;
    assert c == c[0..];
  }

  /** The port test (port.rs): over the chunk, an output port writes an `Int`
      42 into the chunk's body; the chunk then still reads back, its body is
      what the port wrote, and an input port at the chunk's body reads the
      `Int` 42. */
  lemma {:induction false} PortExample(addr: nat, chunkUrid: u32, intUrid: u32)
    requires addr % 8 == 0
    ensures var s := Chunk.WriteChunk(SliceCursor(addr, Zeros(512)), chunkUrid, Zeros(TEST_CHUNK));
            s.result.Ok? &&
            var mem := Space(addr, Buffer(s.writer));
            FullAtomAt(mem) && PortOverChunk(mem, chunkUrid, intUrid, Int, EncodeI32(42))
  {
    PortTestChunk(addr, chunkUrid);
    var s := Chunk.WriteChunk(SliceCursor(addr, Zeros(512)), chunkUrid, Zeros(TEST_CHUNK));
    PortWritesOverChunk(Space(addr, Buffer(s.writer)), chunkUrid, intUrid, Int, EncodeI32(42));
  }

  /** After a scalar went through the output port at the chunk in `mem`,
      the chunk reads back with the port's body, and an input port at that
      body reads the scalar. */
  predicate PortOverChunk(mem: Space, chunkUrid: u32, urid: u32, k: ScalarKind, value: seq<byte>)
    requires FullAtomAt(mem) && |value| == InternalType(k).size
  {
    var t := InitScalar(OutputFromRaw(mem), urid, k, value);
    t.result.Ok? &&
    var body := Buffer(t.writer);
    |body| == HeaderOf(mem).size &&
    Chunk.ReadChunk(WriteBack(mem, body), chunkUrid) == Some(body) &&
    var b := Space(mem.addr + HEADER_SIZE, body);
    FullAtomAt(b) && Read(InputFromRaw(b), urid, v => ReadScalar(k, v)) == Ok(value)
  }

  /** A scalar written to an output port whose atom is a chunk with room for
      it reads back through the chunk and through an input port. */
  lemma {:induction false} PortWritesOverChunk(mem: Space, chunkUrid: u32, urid: u32, k: ScalarKind, value: seq<byte>)
    requires FullAtomAt(mem) && |value| == InternalType(k).size
    requires HeaderOf(mem).urid == chunkUrid && HEADER_SIZE + SCALAR_VALUE.size <= HeaderOf(mem).size
    ensures PortOverChunk(mem, chunkUrid, urid, k, value)
  {
    PortScalarFits(mem, urid, k, value);
    PortScalarRoundTrip(mem, urid, k, value);
    var w := OutputFromRaw(mem).space;
    var top := WriteScalarAtom(w, urid, k, value).writer;
    ScalarAtomWritten(w, urid, k, value);
    assert Buffer(top) == Buffer(top.parent);
    ChunkReadBack(mem, Buffer(top), chunkUrid);
  }

  /** The chunk at the port's pointer reads back with the body the port's
      writer left. */
  lemma {:induction false} ChunkReadBack(mem: Space, body: seq<byte>, urid: u32)
    requires FullAtomAt(mem) && |body| == HeaderOf(mem).size && HeaderOf(mem).urid == urid
    ensures Chunk.ReadChunk(WriteBack(mem, body), urid) == Some(body)
  {
    var r := WriteBack(mem, body);
    var h := HeaderOf(mem);
    var n := HEADER_SIZE + |body|;
    EncodeDecode(mem.bytes[..HEADER_SIZE]);
    assert r.bytes[..HEADER_SIZE] == mem.bytes[..HEADER_SIZE] == Encode(AtomHeader(|body| % U32_LIMIT, urid));
    var c := r.bytes[..n];
    assert c[0..] == Encode(AtomHeader(|body| % U32_LIMIT, urid)) + body;
    assert r.bytes == c + r.bytes[n..];
    PaddingUnique(mem.addr, 8, 0);
    Chunk.ChunkRead(mem.addr, c, 0, urid, body, r.bytes[n..]);
  }
}
