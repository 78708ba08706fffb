/** `UnidentifiedAtom` (atom/src/lib.rs): an atom whose type is not yet known,
    that is a header in memory followed by the body it announces. The model
    keeps the header's address, the decoded header and the body bytes. */
module Unidentified {
  import opened Bytes
  import opened Wrappers
  import opened Errors
  import opened Aligned
  import opened Header

  datatype UnidentifiedAtom = UnidentifiedAtom(addr: nat, header: AtomHeader, body: seq<byte>)

  /** What the constructors of `UnidentifiedAtom` guarantee: the header is
      8-aligned and followed by exactly `size` body bytes. */
  predicate Valid(a: UnidentifiedAtom) {
    a.addr % 8 == 0 && |a.body| == a.header.size
  }

  /** `size_of_atom`: header and body. */
  function SizeOfAtom(h: AtomHeader): nat {
    HEADER_SIZE + h.size
  }

  /** `AtomHeader::check_urid`: the header's type must be the expected one. */
  function CheckUrid(h: AtomHeader, urid: u32): (r: Result<(), AtomReadError>)
    ensures r.Ok? <==> h.urid == urid
    ensures r.Err? ==> r.error == InvalidAtomUrid(urid, h.urid)
  {
    if h.urid != urid then Err(InvalidAtomUrid(urid, h.urid)) else Ok(())
  }

  /** `body_bytes`: nothing for an empty body, otherwise the `size` bytes
      right after the header. */
  function BodyBytes(a: UnidentifiedAtom): (b: seq<byte>)
    requires Valid(a)
    ensures |b| == a.header.size
    ensures b == a.body
  {
    if a.header.size == 0 then [] else a.body
  }

  /** `body`: the body bytes as an aligned space right after the header. */
  function Body(a: UnidentifiedAtom): (s: Space)
    requires Valid(a)
    ensures s.addr == a.addr + HEADER_SIZE && s.addr % 8 == 0
    ensures s.bytes == a.body && |s.bytes| == a.header.size
  {
    Space(a.addr + HEADER_SIZE, BodyBytes(a))
  }

  /** `atom_space`: header and body together, `size_of_atom` bytes from the
      header's address. */
  function AtomSpace(a: UnidentifiedAtom): (s: Space)
    requires Valid(a)
    ensures s.addr == a.addr && s.addr % 8 == 0
    ensures |s.bytes| == SizeOfAtom(a.header)
    ensures s.bytes[..HEADER_SIZE] == Encode(a.header) && s.bytes[HEADER_SIZE..] == a.body
  {
    Space(a.addr, Encode(a.header) + a.body)
  }

  /** `read::<A>(urid)`: checks the type and hands the body to the atom type's
      `read`, which is a parameter of the model. */
  function Read<T>(a: UnidentifiedAtom, urid: u32, read: Space -> Result<T, AtomReadError>): (r: Result<T, AtomReadError>)
    requires Valid(a)
    ensures a.header.urid != urid ==> r == Err(InvalidAtomUrid(urid, a.header.urid))
    ensures a.header.urid == urid ==> r == read(Space(a.addr + HEADER_SIZE, a.body))
  {
    var _ :- CheckUrid(a.header, urid);
    read(Body(a))
  }

  /** The header decoded from an atom's own bytes is the atom's header, and
      the rest of its bytes are the body. */
  lemma {:induction false} AtomSpaceRoundTrip(a: UnidentifiedAtom)
    requires Valid(a)
    ensures var s := AtomSpace(a);
            Decode(s.bytes[..HEADER_SIZE]) == a.header &&
            s.bytes[HEADER_SIZE..HEADER_SIZE + a.header.size] == BodyBytes(a)
  {
    DecodeEncode(a.header);
  }
}
