/** `SpaceReader` (atom/src/space/reader.rs): a cursor over a shared byte
    slice. The model's reader is the `Space` still to be read. Every read
    answers the value and the reader after it; a failing read leaves the
    reader where it was, which the `Result` shape makes explicit. No read
    changes a byte: the reader after a read is always a suffix of the reader
    before it. */
module Reader {
  import opened Bytes
  import opened Wrappers
  import opened Errors
  import opened Util
  import opened Aligned
  import opened Header
  import opened Unidentified

  /** `rest` is what is left of `s` after some bytes were consumed from its
      front. */
  predicate SuffixOf(rest: Space, s: Space) {
    |rest.bytes| <= |s.bytes| &&
    rest.addr == s.addr + (|s.bytes| - |rest.bytes|) &&
    rest.bytes == s.bytes[|s.bytes| - |rest.bytes|..]
  }

  lemma {:induction false} SuffixOfTrans(a: Space, b: Space, c: Space)
    requires SuffixOf(b, a) && SuffixOf(c, b)
    ensures SuffixOf(c, a)
  {
    var k := |a.bytes| - |b.bytes|;
    assert c.bytes == b.bytes[|b.bytes| - |c.bytes|..] == a.bytes[k..][|b.bytes| - |c.bytes|..];
  }

  /** `split_space`: `split_at` with the error a reader reports. */
  function SplitSpace(s: Space, n: nat): (r: Result<(Space, Space), AtomReadError>)
    ensures r.Ok? <==> n <= |s.bytes|
    ensures r.Err? ==> r.error == ReadingOutOfBounds(|s.bytes|, n)
    ensures r.Ok? ==> r.value.0 == Space(s.addr, s.bytes[..n])
    ensures r.Ok? ==> r.value.1 == Space(s.addr + n, s.bytes[n..])
  {
    match SplitAt(s, n)
    case None => Err(ReadingOutOfBounds(|s.bytes|, n))
    case Some(parts) =>
      assert parts.0.bytes == s.bytes[..n];
      Ok(parts)
  }

  /** `align_from_bytes` as a read: an alignment failure is a read error. */
  function Realign(l: Layout, s: Space): (r: Result<Space, AtomReadError>)
    ensures r.Ok? <==> Padding(s.addr, l.align) <= |s.bytes|
    ensures r.Ok? ==> r.value == Space(s.addr + Padding(s.addr, l.align), s.bytes[Padding(s.addr, l.align)..])
    ensures r.Err? ==>
              r.error == ReadAlignment(NotEnoughSpaceToRealign(s.addr, |s.bytes|, Padding(s.addr, l.align) + 1))
  {
    match AlignFromBytes(l, s)
    case Err(e) => Err(ReadAlignment(e))
    case Ok(a) =>
      AlignFromBytesPadding(l, s);
      Ok(a)
  }

  /** `next_bytes(n)`: the next `n` bytes, without realignment. */
  function NextBytes(s: Space, n: nat): (r: Result<(seq<byte>, Space), AtomReadError>)
    ensures r.Ok? <==> n <= |s.bytes|
    ensures r.Err? ==> r.error == ReadingOutOfBounds(|s.bytes|, n)
    ensures r.Ok? ==> |r.value.0| == n && r.value.0 + r.value.1.bytes == s.bytes
    ensures r.Ok? ==> r.value.1.addr == s.addr + n && SuffixOf(r.value.1, s)
  {
    if n > |s.bytes| then Err(ReadingOutOfBounds(|s.bytes|, n))
    else
      assert s.bytes[..n] + s.bytes[n..] == s.bytes;
      Ok((s.bytes[..n], Space(s.addr + n, s.bytes[n..])))
  }

  /** `next_value::<T>()`: realigns for `T`, then takes `size_of::<T>()`
      bytes. Splitting off exactly one value's bytes leaves one value in the
      slot, so the `expect` on its first element never fires; a zero-sized
      `T` would divide by zero in `as_uninit_slice`. */
  function NextValue(s: Space, l: Layout): (r: Result<(seq<byte>, Space), AtomReadError>)
    requires l.size > 0
    ensures var p := Padding(s.addr, l.align);
            r.Ok? <==> p + l.size <= |s.bytes|
    ensures var p := Padding(s.addr, l.align);
            r.Ok? ==> r.value.0 == s.bytes[p..p + l.size] &&
                      r.value.1 == Space(s.addr + p + l.size, s.bytes[p + l.size..])
    ensures r.Ok? ==> SuffixOf(r.value.1, s)
    ensures var p := Padding(s.addr, l.align);
            r.Err? && p <= |s.bytes| ==> r.error == ReadingOutOfBounds(|s.bytes| - p, l.size)
  {
    var p := Padding(s.addr, l.align);
    if p > |s.bytes| then Err(ReadAlignment(NotEnoughSpaceToRealign(s.addr, |s.bytes|, p + 1)))
    else if p + l.size > |s.bytes| then Err(ReadingOutOfBounds(|s.bytes| - p, l.size))
    else Ok((s.bytes[p..p + l.size], Space(s.addr + p + l.size, s.bytes[p + l.size..])))
  }

  /** `next_value` as the source composes it: `align_from_bytes`, then
      `split_space` over one value. */
  function NextValueStepwise(s: Space, l: Layout): Result<(seq<byte>, Space), AtomReadError>
    requires l.size > 0
  {
    var a :- Realign(l, s);
    var parts :- SplitSpace(a, l.size);
    Ok((parts.0.bytes, parts.1))
  }

  /** The direct reading of `next_value` is the source's composition of
      realignment and split, error for error. */
  lemma {:induction false} NextValueIsStepwise(s: Space, l: Layout)
    requires l.size > 0
    ensures NextValue(s, l) == NextValueStepwise(s, l)
  {
    var p := Padding(s.addr, l.align);
    if p + l.size <= |s.bytes| {
      assert s.bytes[p..][..l.size] == s.bytes[p..p + l.size];
      assert s.bytes[p..][l.size..] == s.bytes[p + l.size..];
    }
  }

  /** `next_values::<T>(len)`: realigns for `T`, then takes `len` values. */
  function NextValues(s: Space, l: Layout, len: nat): (r: Result<(seq<seq<byte>>, Space), AtomReadError>)
    requires l.size > 0
    ensures var p := Padding(s.addr, l.align);
            r.Ok? <==> p + len * l.size <= |s.bytes|
    ensures var p := Padding(s.addr, l.align);
            r.Ok? ==> |r.value.0| == len && AllOfSize(r.value.0, l.size) &&
                      Flatten(r.value.0) == s.bytes[p..p + len * l.size] &&
                      r.value.1 == Space(s.addr + p + len * l.size, s.bytes[p + len * l.size..])
    ensures r.Ok? ==> SuffixOf(r.value.1, s)
  {
    var a :- Realign(l, s);
    var parts :- SplitSpace(a, ValueIndexToByteIndex(l, len));
    ValuesOfExactSpace(l, parts.0, len);
    Ok((AsUninitSlice(l, parts.0), parts.1))
  }

  /** A space of exactly `len` values reads as `len` values covering it. */
  lemma {:induction false} ValuesOfExactSpace(l: Layout, s: Space, len: nat)
    requires l.size > 0 && |s.bytes| == len * l.size
    ensures |AsUninitSlice(l, s)| == len
    ensures Flatten(AsUninitSlice(l, s)) == s.bytes
  {
    var vs := AsUninitSlice(l, s);
    DivModUnique(len * l.size, l.size, len, 0);
    FlattenLength(vs, l.size);
  }

  /** `next_atom()`: realigns to 8, reads the header and takes header and
      body together. */
  function NextAtom(s: Space): (r: Result<(UnidentifiedAtom, Space), AtomReadError>)
    ensures r.Ok? ==> Valid(r.value.0) && SuffixOf(r.value.1, s)
  {
    var p := Padding(s.addr, 8);
    if p > |s.bytes| then Err(ReadAlignment(NotEnoughSpaceToRealign(s.addr, |s.bytes|, p + 1)))
    else if p + HEADER_SIZE > |s.bytes| then Err(ReadingOutOfBounds(|s.bytes| - p, HEADER_SIZE))
    else
      var h := Decode(s.bytes[p..p + HEADER_SIZE]);
      if p + SizeOfAtom(h) > |s.bytes| then Err(ReadingOutOfBounds(|s.bytes| - p, SizeOfAtom(h)))
      else Ok((UnidentifiedAtom(s.addr + p, h, s.bytes[p + HEADER_SIZE..p + SizeOfAtom(h)]),
               Space(s.addr + p + SizeOfAtom(h), s.bytes[p + SizeOfAtom(h)..])))
  }

  /** `next_atom` as the source composes it: `align_from_bytes` for the
      header, a header read, then `split_space` over header and body. */
  function NextAtomStepwise(s: Space): Result<(UnidentifiedAtom, Space), AtomReadError> {
    var a :- Realign(ATOM_HEADER, s);
    if |a.bytes| < HEADER_SIZE then Err(ReadingOutOfBounds(|a.bytes|, HEADER_SIZE))
    else
      var h := Decode(a.bytes[..HEADER_SIZE]);
      var parts :- SplitSpace(a, SizeOfAtom(h));
      Ok((UnidentifiedAtom(a.addr, h, a.bytes[HEADER_SIZE..SizeOfAtom(h)]), parts.1))
  }

  /** The direct reading of `next_atom` is the source's composition of
      realignment, header read and split, error for error. */
  lemma {:induction false} NextAtomIsStepwise(s: Space)
    ensures NextAtom(s) == NextAtomStepwise(s)
  {
    var p := Padding(s.addr, 8);
    if p + HEADER_SIZE <= |s.bytes| {
      assert s.bytes[p..][..HEADER_SIZE] == s.bytes[p..p + HEADER_SIZE];
      var h := Decode(s.bytes[p..p + HEADER_SIZE]);
      if p + SizeOfAtom(h) <= |s.bytes| {
        assert s.bytes[p..][HEADER_SIZE..SizeOfAtom(h)] == s.bytes[p + HEADER_SIZE..p + SizeOfAtom(h)];
        assert s.bytes[p..][SizeOfAtom(h)..] == s.bytes[p + SizeOfAtom(h)..];
      }
    }
  }

  /** `next_atom` succeeds exactly when, after the padding, a header fits and
      the body it announces fits; the reader then moves past both. */
  lemma {:induction false} NextAtomSpec(s: Space)
    ensures var p := Padding(s.addr, 8);
            var r := NextAtom(s);
            r.Ok? <==> p + HEADER_SIZE <= |s.bytes| &&
                       p + SizeOfAtom(Decode(s.bytes[p..p + HEADER_SIZE])) <= |s.bytes|
    ensures var p := Padding(s.addr, 8);
            var r := NextAtom(s);
            r.Ok? ==> var h := Decode(s.bytes[p..p + HEADER_SIZE]);
                      r.value.0 == UnidentifiedAtom(s.addr + p, h, s.bytes[p + HEADER_SIZE..p + SizeOfAtom(h)]) &&
                      r.value.1 == Space(s.addr + p + SizeOfAtom(h), s.bytes[p + SizeOfAtom(h)..])
  {
    var p := Padding(s.addr, 8);
    if p + HEADER_SIZE <= |s.bytes| {
      assert s.bytes[p..][..HEADER_SIZE] == s.bytes[p..p + HEADER_SIZE];
    }
  }

  /** Reading an atom from its own bytes gives back its header and body, and
      leaves the reader right after the body. */
  lemma {:induction false} NextAtomOfEncoded(addr: nat, h: AtomHeader, body: seq<byte>, rest: seq<byte>)
    requires addr % 8 == 0 && |body| == h.size
    ensures NextAtom(Space(addr, Encode(h) + body + rest))
            == Ok((UnidentifiedAtom(addr, h, body), Space(addr + SizeOfAtom(h), rest)))
  {
    var s := Space(addr, Encode(h) + body + rest);
    PaddingUnique(addr, 8, 0);
    NextAtomSpec(s);
    assert s.bytes[0..HEADER_SIZE] == Encode(h);
    DecodeEncode(h);
    assert s.bytes[HEADER_SIZE..SizeOfAtom(h)] == body;
    assert s.bytes[SizeOfAtom(h)..] == rest;
  }

  /** `remaining_bytes()`. */
  function RemainingBytes(s: Space): seq<byte> {
    s.bytes
  }

  /** `try_read(handler)`: runs a read on a copy of the reader and moves the
      reader only when the read succeeds. */
  function TryRead<U>(s: Space, handler: Space -> Result<(U, Space), AtomReadError>): (r: (Space, Result<U, AtomReadError>))
    ensures handler(s).Err? ==> r == (s, Err(handler(s).error))
    ensures handler(s).Ok? ==> r == (handler(s).value.1, Ok(handler(s).value.0))
  {
    match handler(s)
    case Err(e) => (s, Err(e))
    case Ok(v) => (v.1, Ok(v.0))
  }

  /** The reader test (reader.rs): an Int atom of size 4 holding 42 at the
      start of a 64-byte aligned buffer reads back a 4-byte body holding 42. */
  lemma {:induction false} ReadIntAtomExample(addr: nat, urid: u32)
    requires addr % 8 == 0
    ensures var h := AtomHeader(4, urid);
            var r := NextAtom(Space(addr, Encode(h) + EncodeI32(42) + Zeros(52)));
            r.Ok? && |r.value.0.body| == 4 && DecodeI32(r.value.0.body) == 42
  {
    NextAtomOfEncoded(addr, AtomHeader(4, urid), EncodeI32(42), Zeros(52));
    I32RoundTrip(42);
  }
}
