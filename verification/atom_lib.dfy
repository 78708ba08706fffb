/** The constructors of `UnidentifiedAtom` over an atom space (atom/src/lib.rs).
    Both are `unsafe`: their caller promises that a header in the space is
    followed by the whole body it announces, which the model states as a
    precondition. */
module AtomLib {
  import opened Bytes
  import opened Wrappers
  import opened Errors
  import opened Util
  import opened Aligned
  import opened Header
  import opened Unidentified
  import opened Reader

  /** The promise of the `unsafe` constructors: an 8-aligned space in which a
      complete header is followed by its complete body. */
  predicate HoldsAtom(s: Space) {
    s.addr % 8 == 0 &&
    (|s.bytes| >= HEADER_SIZE ==> SizeOfAtom(Decode(s.bytes[..HEADER_SIZE])) <= |s.bytes|)
  }

  /** `from_space`: reads the header with `next_value`, which fails on a space
      shorter than a header. */
  function FromSpace(s: Space): (r: Result<UnidentifiedAtom, AtomReadError>)
    requires HoldsAtom(s)
    ensures r.Ok? <==> |s.bytes| >= HEADER_SIZE
    ensures r.Err? ==> r.error == ReadingOutOfBounds(|s.bytes|, HEADER_SIZE)
    ensures r.Ok? ==> Valid(r.value) && r.value == HeldAtom(s)
  {
    NextHeaderAligned(s);
    var v :- NextValue(s, ATOM_HEADER);
    var h := Decode(v.0);
    Ok(UnidentifiedAtom(s.addr, h, s.bytes[HEADER_SIZE..SizeOfAtom(h)]))
  }

  /** The atom an aligned space holds: the header at its start and the body
      after it. */
  function HeldAtom(s: Space): (a: UnidentifiedAtom)
    requires HoldsAtom(s) && |s.bytes| >= HEADER_SIZE
    ensures Valid(a)
  {
    var h := Decode(s.bytes[..HEADER_SIZE]);
    UnidentifiedAtom(s.addr, h, s.bytes[HEADER_SIZE..SizeOfAtom(h)])
  }

  /** On an aligned space `next_value` of a header needs no padding. */
  lemma {:induction false} NextHeaderAligned(s: Space)
    requires s.addr % 8 == 0
    ensures |s.bytes| >= HEADER_SIZE ==>
              NextValue(s, ATOM_HEADER) == Ok((s.bytes[..HEADER_SIZE], Space(s.addr + HEADER_SIZE, s.bytes[HEADER_SIZE..])))
    ensures |s.bytes| < HEADER_SIZE ==>
              NextValue(s, ATOM_HEADER) == Err(ReadingOutOfBounds(|s.bytes|, HEADER_SIZE))
  {
    PaddingUnique(s.addr, 8, 0);
  }

  /** `atom_space` of the atom read from a space is the space's first
      `size_of_atom` bytes. */
  lemma {:induction false} HeldAtomSpace(s: Space)
    requires HoldsAtom(s) && |s.bytes| >= HEADER_SIZE
    ensures AtomSpace(HeldAtom(s)) == Space(s.addr, s.bytes[..SizeOfAtom(HeldAtom(s).header)])
  {
    var h := HeldAtom(s).header;
    EncodeDecode(s.bytes[..HEADER_SIZE]);
    assert s.bytes[..SizeOfAtom(h)] == s.bytes[..HEADER_SIZE] + s.bytes[HEADER_SIZE..SizeOfAtom(h)];
  }

  /** `from_space_mut`: the same atom, with a write error for a space shorter
      than a header. */
  function FromSpaceMut(s: Space): (r: Result<UnidentifiedAtom, AtomWriteError>)
    requires HoldsAtom(s)
    ensures r.Ok? <==> |s.bytes| >= HEADER_SIZE
    ensures r.Err? ==> r.error == WritingOutOfBounds(|s.bytes|, HEADER_SIZE)
    ensures r.Ok? ==> FromSpace(s).Ok? && r.value == FromSpace(s).value
  {
    if |s.bytes| < HEADER_SIZE then Err(WritingOutOfBounds(|s.bytes|, HEADER_SIZE))
    else
      Ok(HeldAtom(s))
  }

  /** An aligned space holding an atom is read the same way by `from_space`
      and by a reader's `next_atom`. */
  lemma {:induction false} FromSpaceIsNextAtom(s: Space)
    requires HoldsAtom(s) && |s.bytes| >= HEADER_SIZE
    ensures NextAtom(s).Ok? && NextAtom(s).value.0 == FromSpace(s).value
  {
    PaddingUnique(s.addr, 8, 0);
    NextAtomSpec(s);
  }
}
