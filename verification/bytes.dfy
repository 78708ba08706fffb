/** Bytes, fixed-width integers and their little-endian encodings.

    The library reads and writes integers in the host's native byte order; the
    model fixes that order to little-endian. */
module Bytes {

  type byte = b: int | 0 <= b < 256

  const U32_LIMIT: int := 0x1_0000_0000
  const U64_LIMIT: int := 0x1_0000_0000_0000_0000
  /** `usize::MAX` on a 64-bit host. */
  const USIZE_MAX: int := U64_LIMIT - 1
  /** `isize::MAX`: no Rust slice or `Vec` holds more bytes than this. */
  const ISIZE_MAX: int := 0x7FFF_FFFF_FFFF_FFFF

  type u32 = x: int | 0 <= x < U32_LIMIT
  type i32 = x: int | -0x8000_0000 <= x < 0x8000_0000
  type u64 = x: int | 0 <= x < U64_LIMIT
  type i64 = x: int | -0x8000_0000_0000_0000 <= x < 0x8000_0000_0000_0000

  function Pow256(n: nat): (r: nat)
    ensures r >= 1
  {
    if n == 0 then 1 else 256 * Pow256(n - 1)
  }

  function Zeros(n: nat): (r: seq<byte>)
    ensures |r| == n
    ensures forall i :: 0 <= i < n ==> r[i] == 0
  {
    seq(n, _ => 0)
  }

  /** The bytes of a string of ASCII characters, one byte per character,
      as a Rust byte string literal holds them. */
  function Ascii(s: string): (b: seq<byte>)
    requires forall i :: 0 <= i < |s| ==> s[i] as int < 128
    ensures |b| == |s| && forall i :: 0 <= i < |s| ==> b[i] == s[i] as int
    ensures forall i :: 0 <= i < |b| ==> b[i] < 128
  {
    seq(|s|, i requires 0 <= i < |s| => s[i] as int)
  }

  /** The `n`-byte little-endian encoding of `x`. */
  function EncodeLE(x: nat, n: nat): (r: seq<byte>)
    requires x < Pow256(n)
    ensures |r| == n
  {
    if n == 0 then [] else [x % 256] + EncodeLE(x / 256, n - 1)
  }

  /** The number whose little-endian encoding is `b`. */
  function DecodeLE(b: seq<byte>): (r: nat)
    ensures r < Pow256(|b|)
  {
    if |b| == 0 then 0 else b[0] + 256 * DecodeLE(b[1..])
  }

  /** Decoding inverts encoding. */
  lemma {:induction false} DecodeEncodeLE(x: nat, n: nat)
    requires x < Pow256(n)
    ensures DecodeLE(EncodeLE(x, n)) == x
  {
    if n > 0 {
      var e := EncodeLE(x, n);
      assert e[1..] == EncodeLE(x / 256, n - 1);
      DecodeEncodeLE(x / 256, n - 1);
    }
  }

  /** Encoding inverts decoding: every byte string is the encoding of its value. */
  lemma {:induction false} EncodeDecodeLE(b: seq<byte>)
    ensures EncodeLE(DecodeLE(b), |b|) == b
  {
    if |b| > 0 {
      var d := DecodeLE(b[1..]);
      assert DecodeLE(b) == b[0] + 256 * d;
      assert DecodeLE(b) % 256 == b[0];
      assert DecodeLE(b) / 256 == d;
      EncodeDecodeLE(b[1..]);
    }
  }

  /** Encoding is injective, so two equal encodings carry the same number. */
  lemma {:induction false} EncodeLEInjective(x: nat, y: nat, n: nat)
    requires x < Pow256(n) && y < Pow256(n)
    requires EncodeLE(x, n) == EncodeLE(y, n)
    ensures x == y
  {
    DecodeEncodeLE(x, n);
    DecodeEncodeLE(y, n);
  }

  lemma {:induction false} Pow256Values()
    ensures Pow256(1) == 0x100
    ensures Pow256(2) == 0x1_0000
    ensures Pow256(4) == U32_LIMIT
    ensures Pow256(8) == U64_LIMIT
  {
    assert Pow256(2) == 256 * Pow256(1);
    assert Pow256(4) == 256 * 256 * Pow256(2);
    assert Pow256(8) == 256 * 256 * 256 * 256 * Pow256(4);
  }

  function EncodeU32(x: u32): (r: seq<byte>)
    ensures |r| == 4
  {
    Pow256Values();
    EncodeLE(x, 4)
  }

  function DecodeU32(b: seq<byte>): (r: u32)
    requires |b| == 4
  {
    Pow256Values();
    DecodeLE(b)
  }

  function EncodeU64(x: u64): (r: seq<byte>)
    ensures |r| == 8
  {
    Pow256Values();
    EncodeLE(x, 8)
  }

  function DecodeU64(b: seq<byte>): (r: u64)
    requires |b| == 8
  {
    Pow256Values();
    DecodeLE(b)
  }

  /** Two's complement reinterpretation of a signed 32-bit value. */
  function I32ToU32(x: i32): u32 {
    if x < 0 then x + U32_LIMIT else x
  }

  function U32ToI32(x: u32): i32 {
    if x >= 0x8000_0000 then x - U32_LIMIT else x
  }

  function I64ToU64(x: i64): u64 {
    if x < 0 then x + U64_LIMIT else x
  }

  function U64ToI64(x: u64): i64 {
    if x >= 0x8000_0000_0000_0000 then x - U64_LIMIT else x
  }

  function EncodeI32(x: i32): (r: seq<byte>)
    ensures |r| == 4
  {
    EncodeU32(I32ToU32(x))
  }

  function DecodeI32(b: seq<byte>): i32
    requires |b| == 4
  {
    U32ToI32(DecodeU32(b))
  }

  function EncodeI64(x: i64): (r: seq<byte>)
    ensures |r| == 8
  {
    EncodeU64(I64ToU64(x))
  }

  function DecodeI64(b: seq<byte>): i64
    requires |b| == 8
  {
    U64ToI64(DecodeU64(b))
  }

  lemma {:induction false} U32RoundTrip(x: u32)
    ensures DecodeU32(EncodeU32(x)) == x
  {
    Pow256Values();
    DecodeEncodeLE(x, 4);
  }

  lemma {:induction false} U32Bytes(b: seq<byte>)
    requires |b| == 4
    ensures EncodeU32(DecodeU32(b)) == b
  {
    Pow256Values();
    EncodeDecodeLE(b);
  }

  lemma {:induction false} U64RoundTrip(x: u64)
    ensures DecodeU64(EncodeU64(x)) == x
  {
    Pow256Values();
    DecodeEncodeLE(x, 8);
  }

  lemma {:induction false} I32RoundTrip(x: i32)
    ensures DecodeI32(EncodeI32(x)) == x
  {
    U32RoundTrip(I32ToU32(x));
  }

  lemma {:induction false} I64RoundTrip(x: i64)
    ensures DecodeI64(EncodeI64(x)) == x
  {
    U64RoundTrip(I64ToU64(x));
  }

  /** `buf` with `data` copied over it at `at`, the model of `copy_from_slice` into a sub-slice. */
  function Overwrite(buf: seq<byte>, at: nat, data: seq<byte>): (r: seq<byte>)
    requires at + |data| <= |buf|
    ensures |r| == |buf|
    ensures forall i :: 0 <= i < |data| ==> r[at + i] == data[i]
    ensures forall i :: 0 <= i < |buf| && !(at <= i < at + |data|) ==> r[i] == buf[i]
  {
    buf[..at] + data + buf[at + |data|..]
  }

  lemma {:induction false} OverwriteSlice(buf: seq<byte>, at: nat, data: seq<byte>)
    requires at + |data| <= |buf|
    ensures Overwrite(buf, at, data)[at..at + |data|] == data
  {
  }

  /** The u32 stored at byte offset `at`. */
  function GetU32(buf: seq<byte>, at: nat): u32
    requires at + 4 <= |buf|
  {
    DecodeU32(buf[at..at + 4])
  }

  function SetU32(buf: seq<byte>, at: nat, v: u32): (r: seq<byte>)
    requires at + 4 <= |buf|
    ensures |r| == |buf|
  {
    Overwrite(buf, at, EncodeU32(v))
  }

  /** Reading a patched field gives the patched value; every other byte is unchanged. */
  lemma {:induction false} GetSetU32(buf: seq<byte>, at: nat, v: u32)
    requires at + 4 <= |buf|
    ensures GetU32(SetU32(buf, at, v), at) == v
    ensures forall i :: 0 <= i < |buf| && !(at <= i < at + 4) ==> SetU32(buf, at, v)[i] == buf[i]
  {
    OverwriteSlice(buf, at, EncodeU32(v));
    U32RoundTrip(v);
  }

  /** A field at a disjoint offset is not affected by a patch. */
  lemma {:induction false} GetSetU32Other(buf: seq<byte>, at: nat, v: u32, other: nat)
    requires at + 4 <= |buf| && other + 4 <= |buf|
    requires other + 4 <= at || at + 4 <= other
    ensures GetU32(SetU32(buf, at, v), other) == GetU32(buf, other)
  {
    var r := SetU32(buf, at, v);
    assert r[other..other + 4] == buf[other..other + 4];
  }
}
