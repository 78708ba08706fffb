/** `AtomHeader` (atom/src/header.rs): the 8-byte, 8-aligned `LV2_Atom` record
    `{size: u32, type: u32}` that starts every atom. `size` counts the body
    bytes only, not the header. */
module Header {
  import opened Bytes

  datatype AtomHeader = AtomHeader(size: u32, urid: u32)

  /** The byte length of an encoded header, `size_of::<AtomHeader>()`. */
  const HEADER_SIZE: nat := 8

  /** `AtomHeader::new(urid)`: an empty body of the given type. */
  function New(urid: u32): AtomHeader {
    AtomHeader(0, urid)
  }

  /** `size_of_body`/`size()`: the body length as a `usize`. */
  function SizeOfBody(h: AtomHeader): nat {
    h.size
  }

  /** `set_size_of_body(n)`: stores `n as u32`, truncating. */
  function SetSizeOfBody(h: AtomHeader, n: nat): AtomHeader {
    AtomHeader(n % U32_LIMIT, h.urid)
  }

  /** The in-memory bytes of a header. */
  function Encode(h: AtomHeader): (b: seq<byte>)
    ensures |b| == HEADER_SIZE
  {
    EncodeU32(h.size) + EncodeU32(h.urid)
  }

  /** `from_raw` over the bytes of an `LV2_Atom`. */
  function Decode(b: seq<byte>): AtomHeader
    requires |b| == HEADER_SIZE
  {
    AtomHeader(DecodeU32(b[..4]), DecodeU32(b[4..]))
  }

  /** Decoding the bytes of a header gives back both of its fields. */
  lemma {:induction false} DecodeEncode(h: AtomHeader)
    ensures Decode(Encode(h)) == h
  {
    var b := Encode(h);
    assert b[..4] == EncodeU32(h.size);
    assert b[4..] == EncodeU32(h.urid);
    U32RoundTrip(h.size);
    U32RoundTrip(h.urid);
  }

  /** Every 8 bytes are the encoding of the header they decode to. */
  lemma {:induction false} EncodeDecode(b: seq<byte>)
    requires |b| == HEADER_SIZE
    ensures Encode(Decode(b)) == b
  {
    U32Bytes(b[..4]);
    U32Bytes(b[4..]);
    assert b == b[..4] + b[4..];
  }

  /** The header stored at byte offset `at` of a buffer. */
  function HeaderAt(buf: seq<byte>, at: nat): AtomHeader
    requires at + HEADER_SIZE <= |buf|
  {
    Decode(buf[at..at + HEADER_SIZE])
  }

  /** The header's fields are the two u32 words at its offset. */
  lemma {:induction false} HeaderAtFields(buf: seq<byte>, at: nat)
    requires at + HEADER_SIZE <= |buf|
    ensures HeaderAt(buf, at).size == GetU32(buf, at)
    ensures HeaderAt(buf, at).urid == GetU32(buf, at + 4)
  {
    var b := buf[at..at + HEADER_SIZE];
    assert b[..4] == buf[at..at + 4];
    assert b[4..] == buf[at + 4..at + 8];
  }
}
