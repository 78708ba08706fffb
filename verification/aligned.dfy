/** `AlignedSpace<T>` (atom/src/space/aligned.rs): a byte slice whose start is
    aligned for `T`. The model keeps the slice's bytes together with the address
    of its first byte; an aligned space is a `Space` whose address is a multiple
    of the layout's alignment. */
module Aligned {
  import opened Bytes
  import opened Wrappers
  import opened Errors
  import opened Util

  /** A byte slice and the address of its first byte. */
  datatype Space = Space(addr: nat, bytes: seq<byte>)

  predicate IsAligned(l: Layout, s: Space) {
    s.addr % l.align == 0
  }

  /** `check_alignment::<T>`. */
  function CheckAlignment(l: Layout, s: Space): Result<(), AlignmentError> {
    if s.addr % l.align != 0 then Err(UnalignedBuffer(s.addr)) else Ok(())
  }

  /** `AlignedSpace::<T>::from_bytes` (and `from_bytes_mut`): accepts the slice
      unchanged when its start is aligned for `T`. */
  function FromBytes(l: Layout, s: Space): (r: Result<Space, AlignmentError>)
    ensures r.Ok? <==> IsAligned(l, s)
    ensures r.Ok? ==> r.value == s
    ensures r.Err? ==> r.error == UnalignedBuffer(s.addr)
  {
    var _ :- CheckAlignment(l, s);
    Ok(s)
  }

  /** `AlignedSpace::<T>::align_from_bytes` (and `_mut`): skips the padding up
      to the first `T`-aligned address, failing when the slice is shorter than
      that padding. */
  function AlignFromBytes(l: Layout, s: Space): (r: Result<Space, AlignmentError>)
    ensures r.Ok? <==> Padding(s.addr, l.align) <= |s.bytes|
    ensures r.Ok? ==> IsAligned(l, r.value)
    ensures r.Ok? ==> s.addr <= r.value.addr < s.addr + l.align
    ensures r.Ok? ==> r.value.addr + |r.value.bytes| == s.addr + |s.bytes|
    ensures r.Ok? ==> r.value.bytes == s.bytes[|s.bytes| - |r.value.bytes|..]
    ensures r.Err? ==>
              r.error == NotEnoughSpaceToRealign(s.addr, |s.bytes|, Padding(s.addr, l.align) + 1)
  {
    match TryPaddingFor(l, s.addr)
    case Err(e) => Err(e)
    case Ok(padding) =>
      if padding > |s.bytes| then
        Err(NotEnoughSpaceToRealign(s.addr, |s.bytes|, padding + 1))
      else
        Ok(Space(s.addr + padding, s.bytes[padding..]))
  }

  /** A slice long enough for its padding is realigned by dropping exactly the
      padding. */
  lemma {:induction false} AlignFromBytesPadding(l: Layout, s: Space)
    requires Padding(s.addr, l.align) <= |s.bytes|
    ensures var p := Padding(s.addr, l.align);
            AlignFromBytes(l, s) == Ok(Space(s.addr + p, s.bytes[p..]))
  {
    TryPaddingForIsPadding(l, s.addr);
  }

  /** Realigning an already aligned slice changes nothing. */
  lemma {:induction false} AlignFromAligned(l: Layout, s: Space)
    requires IsAligned(l, s)
    ensures AlignFromBytes(l, s) == Ok(s)
  {
    PaddingUnique(s.addr, l.align, 0);
  }

  /** The realigned slice starts at the only aligned address less than one
      alignment past the original start. */
  lemma {:induction false} AlignFromBytesStart(l: Layout, s: Space)
    requires AlignFromBytes(l, s).Ok?
    ensures AlignFromBytes(l, s).value.addr == s.addr + Padding(s.addr, l.align)
  {
    var r := AlignFromBytes(l, s).value;
    PaddingUnique(s.addr, l.align, r.addr - s.addr);
  }

  /** `AlignedSpace::split_at`: `None` past the end, otherwise an aligned head
      of `mid` bytes and the unaligned rest. */
  function SplitAt(s: Space, mid: nat): (r: Option<(Space, Space)>)
    ensures r.None? <==> mid > |s.bytes|
    ensures r.Some? ==> r.value.0.addr == s.addr && |r.value.0.bytes| == mid
    ensures r.Some? ==> r.value.0.bytes + r.value.1.bytes == s.bytes
    ensures r.Some? ==> r.value.1.addr == s.addr + mid
  {
    if mid > |s.bytes| then None
    else
      assert s.bytes[..mid] + s.bytes[mid..] == s.bytes;
      Some((Space(s.addr, s.bytes[..mid]), Space(s.addr + mid, s.bytes[mid..])))
  }

  /** `values_len`: how many whole `T` values the space holds, `usize::MAX` for
      a zero-sized `T` (the division is a `checked_div`). */
  function ValuesLen(l: Layout, s: Space): (n: nat)
    ensures l.size == 0 ==> n == USIZE_MAX
    ensures l.size > 0 ==> n * l.size <= |s.bytes| < (n + 1) * l.size
  {
    if l.size == 0 then USIZE_MAX
    else
      var n := |s.bytes| / l.size;
      assert |s.bytes| == n * l.size + |s.bytes| % l.size;
      n
  }

  /** Consecutive `size`-byte chunks of `b`; a trailing partial chunk is dropped. */
  function Chunks(b: seq<byte>, size: nat): (r: seq<seq<byte>>)
    requires size > 0
    ensures forall i :: 0 <= i < |r| ==> |r[i]| == size
    decreases |b|
  {
    if |b| < size then [] else [b[..size]] + Chunks(b[size..], size)
  }

  /** The concatenation of a sequence of byte strings. */
  function Flatten(vs: seq<seq<byte>>): seq<byte> {
    if |vs| == 0 then [] else vs[0] + Flatten(vs[1..])
  }

  predicate AllOfSize(vs: seq<seq<byte>>, size: nat) {
    forall i :: 0 <= i < |vs| ==> |vs[i]| == size
  }

  lemma {:induction false} FlattenLength(vs: seq<seq<byte>>, size: nat)
    requires AllOfSize(vs, size)
    ensures |Flatten(vs)| == |vs| * size
  {
    if |vs| > 0 {
      FlattenLength(vs[1..], size);
    }
  }

  /** Flattening distributes over concatenation. */
  lemma {:induction false} FlattenConcat(a: seq<seq<byte>>, b: seq<seq<byte>>)
    ensures Flatten(a + b) == Flatten(a) + Flatten(b)
  {
    if |a| > 0 {
      assert (a + b)[0] == a[0] && (a + b)[1..] == a[1..] + b;
      FlattenConcat(a[1..], b);
    } else {
      assert a + b == b;
    }
  }

  /** Cutting a flattened sequence back into chunks recovers it. */
  lemma {:induction false} ChunksOfFlatten(vs: seq<seq<byte>>, size: nat)
    requires size > 0 && AllOfSize(vs, size)
    ensures Chunks(Flatten(vs), size) == vs
  {
    if |vs| > 0 {
      var f := Flatten(vs);
      FlattenLength(vs[1..], size);
      assert f[..size] == vs[0];
      assert f[size..] == Flatten(vs[1..]);
      ChunksOfFlatten(vs[1..], size);
    }
  }

  lemma {:induction false} ChunksLength(b: seq<byte>, size: nat)
    requires size > 0
    ensures |Chunks(b, size)| == |b| / size
    decreases |b|
  {
    if |b| < size {
      DivModUnique(|b|, size, 0, |b|);
    } else {
      ChunksLength(b[size..], size);
      var m := |b| - size;
      assert m == size * (m / size) + m % size;
      DivModUnique(|b|, size, m / size + 1, m % size);
    }
  }

  /** The chunks of `b` cover all of `b` except fewer than `size` trailing bytes. */
  lemma {:induction false} FlattenOfChunks(b: seq<byte>, size: nat)
    requires size > 0
    ensures Flatten(Chunks(b, size)) <= b
    ensures |b| - |Flatten(Chunks(b, size))| < size
    decreases |b|
  {
    if |b| >= size {
      FlattenOfChunks(b[size..], size);
      assert b == b[..size] + b[size..];
    }
  }

  /** `as_uninit_slice`: the space read as whole `T` values: the values, in
      order, make up the space apart from a trailing remainder shorter than one
      value. The division by `size_of::<T>()` panics for a zero-sized `T`, so
      callers need a sized `T`. */
  function AsUninitSlice(l: Layout, s: Space): (vs: seq<seq<byte>>)
    requires l.size > 0
    ensures |vs| == ValuesLen(l, s)
    ensures AllOfSize(vs, l.size)
    ensures Flatten(vs) <= s.bytes
    ensures |s.bytes| - |Flatten(vs)| < l.size
  {
    ChunksLength(s.bytes, l.size);
    FlattenOfChunks(s.bytes, l.size);
    Chunks(s.bytes, l.size)
  }

  /** `AlignedSpace::from_slice`: the bytes of a slice of `T` values, which start
      at a `T`-aligned address. */
  function FromSlice(l: Layout, addr: nat, values: seq<seq<byte>>): (s: Space)
    requires addr % l.align == 0 && AllOfSize(values, l.size)
    ensures IsAligned(l, s)
    ensures |s.bytes| == |values| * l.size
  {
    FlattenLength(values, l.size);
    Space(addr, Flatten(values))
  }

  /** Reading the values back out of `from_slice` gives the slice. */
  lemma {:induction false} FromSliceRoundTrip(l: Layout, addr: nat, values: seq<seq<byte>>)
    requires l.size > 0 && addr % l.align == 0 && AllOfSize(values, l.size)
    ensures AsUninitSlice(l, FromSlice(l, addr, values)) == values
  {
    ChunksOfFlatten(values, l.size);
  }

  /** The tests of `from_bytes` (aligned.rs) on two u64 values: the aligned
      slice is accepted with all 16 bytes, the slice from byte 1 is rejected. */
  lemma {:induction false} FromBytesExample(base: nat, b: seq<byte>)
    requires base % 8 == 0 && |b| == 16
    ensures FromBytes(U64, Space(base, b)) == Ok(Space(base, b))
    ensures |FromBytes(U64, Space(base, b)).value.bytes| == 2 * U64.size
    ensures FromBytes(U64, Space(base + 1, b[1..])) == Err(UnalignedBuffer(base + 1))
  {
  }

  /** The tests of `align_from_bytes` (aligned.rs) on two u64 values. */
  lemma {:induction false} AlignFromBytesExample(base: nat, b: seq<byte>)
    requires base % 8 == 0 && |b| == 16
    ensures |AlignFromBytes(U64, Space(base, b)).value.bytes| == 16
    ensures |AlignFromBytes(U64, Space(base + 1, b[1..])).value.bytes| == 8
    ensures |AlignFromBytes(U64, Space(base + 9, b[9..])).value.bytes| == 0
    ensures AlignFromBytes(U64, Space(base + 9, b[9..11]))
            == Err(NotEnoughSpaceToRealign(base + 9, 2, 8))
  {
    AlignFromAligned(U64, Space(base, b));
    PaddingUnique(base + 1, 8, 7);
    PaddingUnique(base + 9, 8, 7);
  }
}
