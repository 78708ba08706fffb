/** Scalar atoms (atom/src/atoms/scalar.rs): `Double`, `Float`, `Long`, `Int`,
    `Bool` and `AtomURID`, whose body is one value of the internal type padded
    to eight bytes.

    A value is held as its bytes, in the byte order of `Bytes`; the model does
    not interpret floating-point bit patterns. The padding bytes of the written
    struct are unspecified in Rust; the model writes zeros there. */
module Scalar {
  import opened Bytes
  import opened Wrappers
  import opened Errors
  import opened Util
  import opened Aligned
  import opened Header
  import opened Allocator
  import opened SpaceWriter
  import opened Appending
  import opened Reader
  import opened Unidentified
  import opened Frames

  /** The scalar atom types. */
  datatype ScalarKind = Double | Float | Long | Int | Bool | AtomUrid

  /** `ScalarAtom::InternalType`: `f64`, `f32`, `i64`, `i32`, `i32` (0 is
      false) and `URID` (a `u32`). */
  function InternalType(k: ScalarKind): (l: Layout)
    ensures l.size == l.align && (l.size == 4 || l.size == 8)
    ensures l.size == 8 <==> k.Double? || k.Long?
  {
    match k
    case Double => Layout(8, 8)
    case Float => Layout(4, 4)
    case Long => I64
    case Int => I32
    case Bool => I32
    case AtomUrid => U32
  }

  /** The `ScalarValue(T, Padder)` struct `set` writes: `repr(C)` with an
      8-aligned zero-sized tail, so eight bytes aligned to 8 for every
      internal type. */
  const SCALAR_VALUE: Layout := Layout(8, 8)

  /** The bytes of a `ScalarValue`: the value, then padding up to eight
      bytes. */
  function ScalarValue(value: seq<byte>): (v: seq<byte>)
    requires |value| <= SCALAR_VALUE.size
    ensures |v| == SCALAR_VALUE.size && v[..|value|] == value
  {
    value + Zeros(SCALAR_VALUE.size - |value|)
  }

  /** `ScalarWriter::set`: writes the padded value through the atom's
      writer. */
  function Set(w: Writer, k: ScalarKind, value: seq<byte>): (s: Step<nat>)
    requires Wf(w) && |value| == InternalType(k).size
    ensures Wf(s.writer) && Addr(s.writer) == Addr(w)
    ensures s.result.Ok? ==> s.result.value + SCALAR_VALUE.size <= Used(s.writer)
  {
    WriteValue(w, SCALAR_VALUE, ScalarValue(value))
  }

  /** `write_atom(urid)` for a scalar type, then `set(value)`: the atom
      writer the value went through, or the first error. */
  function WriteScalarAtom(w: Writer, urid: u32, k: ScalarKind, value: seq<byte>): (s: Step<Writer>)
    requires Wf(w) && |value| == InternalType(k).size
    ensures Wf(s.writer)
    ensures s.result.Ok? ==> s.writer.AtomWriter? && s.result.value == s.writer
  {
    var n := WriteNew(w, urid);
    if n.result.Err? then Step(n.writer, Err(n.result.error))
    else
      var t := Set(n.result.value, k, value);
      if t.result.Err? then Step(t.writer, Err(t.result.error))
      else if t.writer.AtomWriter? then Step(t.writer, Ok(t.writer))
      else Step(t.writer, Err(Panic))
  }

  /** `read_scalar`: `next_value` of the internal type on the body, which
      fails when the body is too short for it. */
  function ReadScalar(k: ScalarKind, body: Space): (r: Result<seq<byte>, AtomReadError>)
    ensures var l := InternalType(k);
            var p := Padding(body.addr, l.align);
            (r.Ok? <==> p + l.size <= |body.bytes|) &&
            (r.Ok? ==> r.value == body.bytes[p..p + l.size])
  {
    var v :- NextValue(body, InternalType(k));
    Ok(v.0)
  }

  /** Reading an 8-aligned scalar body gives back the value it was written
      with, whatever the scalar type. */
  lemma {:induction false} ScalarRoundTrip(k: ScalarKind, addr: nat, value: seq<byte>)
    requires addr % 8 == 0 && |value| == InternalType(k).size
    ensures ReadScalar(k, Space(addr, ScalarValue(value))) == Ok(value)
  {
    var l := InternalType(k);
    DivisibleBy4(addr, l.align);
    PaddingUnique(addr, l.align, 0);
  }

  /** An address aligned to 8 is aligned to 4. */
  lemma {:induction false} DivisibleBy4(addr: nat, a: Align)
    requires addr % 8 == 0 && (a == 4 || a == 8)
    ensures addr % a == 0
  {
    var q := addr / 8;
    DivModUnique(addr, a, q * (8 / a), 0);
  }

  /** Writing a scalar atom through a stack appends, after the padding to 8,
      a header announcing eight body bytes of the atom's type, then the padded
      value; nothing else changes. */
  lemma {:induction false} ScalarAtomWritten(w: Writer, urid: u32, k: ScalarKind, value: seq<byte>)
    requires Stack(w) && |value| == InternalType(k).size
    requires WriteScalarAtom(w, urid, k, value).result.Ok?
    ensures var top := WriteScalarAtom(w, urid, k, value).writer;
            top.AtomWriter? &&
            AtomLaidOut(Since(w, top.parent), PadFor(w, ATOM_HEADER), urid, ScalarValue(value)) &&
            Appended(w, top.parent, Since(w, top.parent))
  {
    var aw := WriteNew(w, urid).result.value;
    WriteNewAppended(w, urid);
    var t := WriteValue(aw, SCALAR_VALUE, ScalarValue(value));
    ValueAfterHeader(w, urid);
    WriteValueAppended(aw, SCALAR_VALUE, ScalarValue(value));
    var c := Buffer(t.writer)[Used(aw)..Used(t.writer)];
    assert c == c[0..] == ScalarValue(value);
    AtomAppended(w, urid, t.writer, ScalarValue(value));
  }

  /** Right after `write_new`, the writer's end is 8-aligned, so an 8-aligned
      value needs no padding. */
  lemma {:induction false} ValueAfterHeader(w: Writer, urid: u32)
    requires Stack(w) && WriteNew(w, urid).result.Ok?
    ensures PadFor(WriteNew(w, urid).result.value, SCALAR_VALUE) == 0
  {
    WriteNewAppended(w, urid);
    var s := WriteNew(w, urid);
    var aw := s.result.value;
    var x := Addr(w) + Used(w) + PadFor(w, ATOM_HEADER);
    assert Addr(aw) + Used(aw) == Addr(s.writer) + Used(s.writer) == x + HEADER_SIZE;
    AlignedAfterHeader(x, Addr(aw) + Used(aw));
  }

  /** Eight bytes after an 8-aligned address is 8-aligned again. */
  lemma {:induction false} AlignedAfterHeader(x: nat, y: nat)
    requires x % 8 == 0 && y == x + HEADER_SIZE
    ensures Padding(y, SCALAR_VALUE.align) == 0
  {
    DivModUnique(y, 8, x / 8 + 1, 0);
    PaddingUnique(y, 8, 0);
  }

  /** On a fixed buffer, writing a scalar atom succeeds exactly when the
      padding, the header and the eight body bytes fit in what is left. */
  lemma {:induction false} ScalarAtomFits(w: Writer, urid: u32, k: ScalarKind, value: seq<byte>)
    requires Stack(w) && RootOf(w).backing.Slice? && |value| == InternalType(k).size
    ensures WriteScalarAtom(w, urid, k, value).result.Ok?
            <==> Used(w) + PadFor(w, ATOM_HEADER) + HEADER_SIZE + SCALAR_VALUE.size <= |Buffer(w)|
  {
    var pad := PadFor(w, ATOM_HEADER);
    WriteNewAppended(w, urid);
    SliceAllocate(w, HEADER_SIZE + pad);
    var n := WriteNew(w, urid);
    if n.result.Ok? {
      var aw := n.result.value;
      ValueAfterHeader(w, urid);
      WriteValueAppended(aw, SCALAR_VALUE, ScalarValue(value));
      SliceAllocate(aw, SCALAR_VALUE.size);
      var t := WriteValue(aw, SCALAR_VALUE, ScalarValue(value));
      if t.result.Ok? {
        TopStaysAtomWriter(aw, t.writer, Buffer(t.writer)[Used(aw)..Used(t.writer)]);
      }
    }
  }

  /** Appending through an atom writer leaves an atom writer. */
  lemma {:induction false} TopStaysAtomWriter(a: Writer, a': Writer, c: seq<byte>)
    requires Appended(a, a', c) && a.AtomWriter?
    ensures a'.AtomWriter?
  {
    TopOfStack(a', Headers(a.parent), a.headerIndex);
  }

  /** Reading back a scalar atom laid out at `addr`: `next_atom` finds a
      header of the atom's type announcing eight bytes, and `read_scalar` on
      its body gives the value. */
  lemma {:induction false} ScalarAtomRead(addr: nat, c: seq<byte>, pad: nat, urid: u32, k: ScalarKind, value: seq<byte>)
    requires pad == Padding(addr, 8) && |value| == InternalType(k).size
    requires AtomLaidOut(c, pad, urid, ScalarValue(value))
    ensures NextAtom(Space(addr, c)).Ok?
    ensures var a := NextAtom(Space(addr, c)).value.0;
            a.header == AtomHeader(SCALAR_VALUE.size, urid) &&
            ReadScalar(k, Body(a)) == Ok(value)
  {
    var h := AtomHeader(SCALAR_VALUE.size, urid);
    assert |c| == pad + HEADER_SIZE + SCALAR_VALUE.size;
    assert c[pad..] == Encode(h) + ScalarValue(value) + c[|c|..];
    ReadPaddedAtom(addr, pad, c, h, ScalarValue(value), |c|);
    ScalarRoundTrip(k, addr + pad + HEADER_SIZE, value);
  }

  /** The write test of `write_atom` (allocator.rs): an `Int` atom holding
      69, of type 5, written into an aligned 32-byte buffer, puts the body
      size 8 in bytes 0..4, the type in bytes 4..8 and the value in bytes
      8..12, and leaves 16 bytes. */
  lemma {:induction false} WriteIntAtomExample(addr: nat)
    requires addr % 8 == 0
    ensures var w := SliceCursor(addr, Zeros(32));
            var s := WriteScalarAtom(w, 5, Int, EncodeI32(69));
            s.result.Ok? &&
            var b := Buffer(s.writer.parent);
            DecodeU32(b[0..4]) == 8 && DecodeU32(b[4..8]) == 5 && DecodeI32(b[8..12]) == 69 &&
            |b| - Used(s.writer.parent) == 16
  {
    var w := SliceCursor(addr, Zeros(32));
    PaddingUnique(addr, 8, 0);
    assert PadFor(w, ATOM_HEADER) == 0;
    ScalarAtomFits(w, 5, Int, EncodeI32(69));
    ScalarAtomWritten(w, 5, Int, EncodeI32(69));
    var top := WriteScalarAtom(w, 5, Int, EncodeI32(69)).writer;
    ExampleBytes(Buffer(top.parent), Since(w, top.parent));
  }

  /** The fields of the example's buffer. */
  lemma {:induction false} ExampleBytes(b: seq<byte>, c: seq<byte>)
    requires |c| <= |b| && b[..|c|] == c
    requires AtomLaidOut(c, 0, 5, ScalarValue(EncodeI32(69)))
    ensures |b| >= 12
    ensures DecodeU32(b[0..4]) == 8 && DecodeU32(b[4..8]) == 5 && DecodeI32(b[8..12]) == 69
  {
    var h := Encode(AtomHeader(8, 5));
    var v := ScalarValue(EncodeI32(69));
    assert c == c[0..] == h + v;
    assert b[0..4] == c[0..4] == h[..4];
    assert b[4..8] == c[4..8] == h[4..];
    assert b[8..12] == c[8..12] == v[..4] == EncodeI32(69);
    assert h[..4] == EncodeU32(8) && h[4..] == EncodeU32(5);
    U32RoundTrip(8);
    U32RoundTrip(5);
    I32RoundTrip(69);
  }
}
