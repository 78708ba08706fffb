/** Chunks (atom/src/atoms/chunk.rs): an atom whose body is raw memory of no
    particular type. Reading hands out the body as it is; writing hands out
    the chunk's own atom writer, through which bytes are allocated and filled
    in. */
module Chunk {
  import opened Bytes
  import opened Wrappers
  import opened Aligned
  import opened Util
  import opened Header
  import opened Allocator
  import opened SpaceWriter
  import opened Appending
  import opened Reader
  import opened Unidentified
  import opened Frames

  /** `Chunk::read`: the body, unchanged; it never fails. */
  function Read(body: Space): (r: Option<Space>)
    ensures r.Some? && r.value.addr == body.addr && r.value.bytes == body.bytes
  {
    Some(body)
  }

  /** `Chunk::init`: the frame itself is the writing handle; it never
      fails. */
  function Init(frame: Writer): (r: Option<Writer>)
    ensures r.Some? && r.value == frame
  {
    Some(frame)
  }

  /** `init_atom(chunk_urid)`, then `allocate(|data|)` through the handle and
      filling the bytes in, which is what `write_bytes(data)` does: the
      chunk's writer after the data went in, or the first error. */
  function WriteChunk(w: Writer, urid: u32, data: seq<byte>): (s: Step<Writer>)
    requires Wf(w)
    ensures Wf(s.writer) && Addr(s.writer) == Addr(w)
    ensures s.result.Ok? ==> s.result.value == s.writer
  {
    var n := WriteNew(w, urid);
    if n.result.Err? then Step(n.writer, Err(n.result.error))
    else
      var frame := Init(n.result.value).value;
      var t := WriteBytes(frame, data);
      if t.result.Err? then Step(t.writer, Err(t.result.error))
      else Step(t.writer, Ok(t.writer))
  }

  /** What a reader of chunks sees in `s`: `next_atom`, then the body of an
      atom of type `urid`, as bytes. */
  function ReadChunk(s: Space, urid: u32): (r: Option<seq<byte>>)
    ensures r.Some? ==> NextAtom(s).Ok? && NextAtom(s).value.0.header.urid == urid &&
                        |r.value| == NextAtom(s).value.0.header.size
  {
    match NextAtom(s)
    case Err(_) => None
    case Ok(v) =>
      if v.0.header.urid != urid then None
      else
        match Read(Body(v.0))
        case None => None
        case Some(b) => Some(b.bytes)
  }

  /** Writing a chunk through a stack appends, after the padding to 8, a
      header announcing `|data|` bytes of the chunk's type, then the data;
      nothing else changes. */
  lemma {:induction false} ChunkWritten(w: Writer, urid: u32, data: seq<byte>)
    requires Stack(w) && WriteChunk(w, urid, data).result.Ok?
    ensures var top := WriteChunk(w, urid, data).writer;
            top.AtomWriter? &&
            AtomLaidOut(Since(w, top.parent), PadFor(w, ATOM_HEADER), urid, data) &&
            Appended(w, top.parent, Since(w, top.parent))
  {
    var aw := WriteNew(w, urid).result.value;
    WriteNewAppended(w, urid);
    WriteBytesAppended(aw, data);
    AtomAppended(w, urid, WriteBytes(aw, data).writer, data);
  }

  /** On a fixed buffer, writing a chunk succeeds exactly when the padding,
      the header and the data fit in what is left. */
  lemma {:induction false} ChunkFits(w: Writer, urid: u32, data: seq<byte>)
    requires Stack(w) && RootOf(w).backing.Slice?
    ensures WriteChunk(w, urid, data).result.Ok?
            <==> Used(w) + PadFor(w, ATOM_HEADER) + HEADER_SIZE + |data| <= |Buffer(w)|
  {
    var pad := PadFor(w, ATOM_HEADER);
    WriteNewAppended(w, urid);
    SliceAllocate(w, HEADER_SIZE + pad);
    var n := WriteNew(w, urid);
    if n.result.Ok? {
      var aw := n.result.value;
      WriteBytesAppended(aw, data);
      SliceAllocate(aw, |data|);
    }
  }

  /** Reading back a chunk laid out at `addr`, whatever follows it:
      `next_atom` finds a header of the chunk's type announcing `|data|`
      bytes, and the chunk's body is the data, byte for byte. */
  lemma {:induction false} ChunkRead(addr: nat, c: seq<byte>, pad: nat, urid: u32, data: seq<byte>, rest: seq<byte>)
    requires pad == Padding(addr, 8) && AtomLaidOut(c, pad, urid, data) && |data| < U32_LIMIT
    ensures NextAtom(Space(addr, c + rest)).Ok?
    ensures NextAtom(Space(addr, c + rest)).value.0.header == AtomHeader(|data|, urid)
    ensures ReadChunk(Space(addr, c + rest), urid) == Some(data)
  {
    var h := AtomHeader(|data|, urid);
    var bytes := c + rest;
    assert |data| % U32_LIMIT == |data|;
    assert bytes[pad..] == Encode(h) + data + bytes[|c|..];
    ReadPaddedAtom(addr, pad, bytes, h, data, |c|);
  }

  /** A write through the parent after the chunk is finished goes after the
      chunk and leaves the chunk's bytes, and so the size its header
      announces, as they were. */
  lemma {:induction false} LaterWriteAfterChunk(w: Writer, urid: u32, data: seq<byte>, w2: Writer, c2: seq<byte>)
    requires Stack(w) && WriteChunk(w, urid, data).result.Ok?
    requires WriteChunk(w, urid, data).writer.AtomWriter?
    requires Appended(WriteChunk(w, urid, data).writer.parent, w2, c2)
    ensures var p := WriteChunk(w, urid, data).writer.parent;
            Since(w, w2) == Since(w, p) + c2
  {
    var p := WriteChunk(w, urid, data).writer.parent;
    ChunkWritten(w, urid, data);
    AppendedTrans(w, p, w2, Since(w, p), c2);
    AppendedChunk(w, w2, Since(w, p) + c2);
  }

  /** The bytes 0, 1, ..., n - 1. */
  function Counting(n: nat): (r: seq<byte>)
    requires n <= 256
    ensures |r| == n && forall i :: 0 <= i < n ==> r[i] == i
  {
    seq(n, i requires 0 <= i < n => i)
  }

  /** The test of chunk.rs, before the reader takes over: a chunk of the 42
      bytes 0..41 at the start of an aligned 512-byte buffer, then the byte
      41 written through the parent cursor. What the parent received is the
      chunk followed by the later byte, and the chunk reads back whole. */
  lemma {:induction false} ChunkExampleWritten(addr: nat, urid: u32)
    requires addr % 8 == 0
    ensures var w := SliceCursor(addr, Zeros(512));
            var s := WriteChunk(w, urid, Counting(42));
            s.result.Ok? && s.writer.AtomWriter? &&
            var p := s.writer.parent;
            var t := WriteValue(p, Layout(1, 1), [41]);
            t.result.Ok? &&
            Since(w, t.writer) == Since(w, p) + Since(p, t.writer) &&
            ChunkReadsBack(addr, Since(w, p) + Since(p, t.writer), urid, Counting(42))
  {
    var w := SliceCursor(addr, Zeros(512));
    var data := Counting(42);
    PaddingUnique(addr, 8, 0);
    ChunkFits(w, urid, data);
    ChunkWritten(w, urid, data);
    var p := WriteChunk(w, urid, data).writer.parent;
    ChunkRead(addr, Since(w, p), 0, urid, data, [41]);
    PaddingUnique(Addr(p) + Used(p), 1, 0);
    WriteValueAppended(p, Layout(1, 1), [41]);
    SliceAllocate(p, 1);
    var t := WriteValue(p, Layout(1, 1), [41]);
    AppendedChunk(p, t.writer, Buffer(t.writer)[Used(p)..Used(t.writer)]);
    LaterWriteAfterChunk(w, urid, data, t.writer, Since(p, t.writer));
  }

  /** `next_atom` on `c` at `addr` finds a header of type `urid` announcing
      `|data|` bytes, and the chunk's body is `data`. */
  predicate ChunkReadsBack(addr: nat, c: seq<byte>, urid: u32, data: seq<byte>) {
    |data| < U32_LIMIT && NextAtom(Space(addr, c)).Ok? &&
    NextAtom(Space(addr, c)).value.0.header == AtomHeader(|data|, urid) &&
    ReadChunk(Space(addr, c), urid) == Some(data)
  }

  /** The test of chunk.rs: the chunk reads back with a body size of 42, the
      chunk's type, and the bytes 0..41, although the parent was written to
      after it. */
  lemma {:induction false} ChunkExample(addr: nat, urid: u32)
    requires addr % 8 == 0
    ensures var w := SliceCursor(addr, Zeros(512));
            var s := WriteChunk(w, urid, Counting(42));
            s.result.Ok? && s.writer.AtomWriter? &&
            var t := WriteValue(s.writer.parent, Layout(1, 1), [41]);
            t.result.Ok? && ChunkReadsBack(addr, Since(w, t.writer), urid, Counting(42))
  {
    ChunkExampleWritten(addr, urid);
  }
}
