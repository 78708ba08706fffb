/** Type layouts and the index arithmetic of atom/src/util.rs.

    A Rust type `T` is represented by its layout: `size_of::<T>()` and
    `align_of::<T>()`. Pointers are plain addresses, so `align_offset` is
    arithmetic on the address. */
module Util {
  import opened Bytes
  import opened Wrappers
  import opened Errors

  /** An alignment: Rust bounds every alignment by 2^29. */
  type Align = a: nat | 0 < a <= 0x2000_0000 witness 1

  datatype Layout = Layout(size: nat, align: Align)

  const U8: Layout := Layout(1, 1)
  const U32: Layout := Layout(4, 4)
  const I32: Layout := Layout(4, 4)
  const U64: Layout := Layout(8, 8)
  const I64: Layout := Layout(8, 8)
  /** `AtomHeader` (`LV2_Atom`): `{size: u32, type: u32}`, `repr(C, align(8))`. */
  const ATOM_HEADER: Layout := Layout(8, 8)
  /** A zero-sized type such as `()`. */
  const UNIT: Layout := Layout(0, 1)

  /** The distance from `addr` to the next multiple of `align`, the model of
      `<*const u8>::align_offset`. Only one number below `align` takes `addr`
      to a multiple of `align` (see `PaddingUnique`), so the contract pins the
      result down. */
  function Padding(addr: nat, align: Align): (p: nat)
    ensures p < align
    ensures (addr + p) % align == 0
  {
    PaddingFacts(addr, align);
    (align - addr % align) % align
  }

  /** Euclidean division is unique: the quotient and remainder are determined. */
  lemma {:induction false} DivModUnique(x: int, a: int, q: int, r: int)
    requires a > 0 && x == a * q + r && 0 <= r < a
    ensures x / a == q && x % a == r
  {
    var q0 := x / a;
    var r0 := x % a;
    assert x == a * q0 + r0;
    var d := q - q0;
    assert a * d == r0 - r;
    if d >= 1 {
      MulAtLeast(a, d);
    }
  }

  lemma {:induction false} MulAtLeast(a: nat, d: nat)
    requires d >= 1
    ensures a * d >= a
  {
    var e: nat := d - 1;
    assert a * d == a * e + a;
  }

  lemma {:induction false} PaddingFacts(addr: nat, align: Align)
    ensures var p := (align - addr % align) % align;
            p < align && (addr + p) % align == 0
  {
    var k := addr / align;
    var m := addr % align;
    assert addr == align * k + m;
    if m == 0 {
      DivModUnique(align - m, align, 1, 0);
    } else {
      DivModUnique(align - m, align, 0, align - m);
      DivModUnique(addr + (align - m), align, k + 1, 0);
    }
  }

  /** The padding is the only offset below the alignment that reaches an
      aligned address. */
  lemma {:induction false} PaddingUnique(addr: nat, align: Align, q: nat)
    requires q < align && (addr + q) % align == 0
    ensures q == Padding(addr, align)
  {
    var p := Padding(addr, align);
    var k := (addr + p) / align;
    var j := (addr + q) / align;
    assert addr + p == align * k;
    assert addr + q == align * j;
    if j > k {
      MulAtLeast(align, j - k);
    } else if k > j {
      MulAtLeast(align, k - j);
    }
  }

  /** `value_index_to_byte_index::<T>(n)`: the byte length of `n` values. */
  function ValueIndexToByteIndex(l: Layout, n: nat): nat {
    n * l.size
  }

  /** `byte_index_to_value_index::<T>(b)`: the number of values needed to cover
      `b` bytes, rounding up; zero for a zero-sized type. */
  function ByteIndexToValueIndex(l: Layout, b: nat): (n: nat)
    ensures l.size == 0 ==> n == 0
    ensures l.size > 0 ==> n * l.size >= b
    ensures l.size > 0 && n > 0 ==> (n - 1) * l.size < b
  {
    if l.size == 0 then 0
    else
      var n := b / l.size + if b % l.size > 0 then 1 else 0;
      CeilDivFacts(b, l.size);
      n
  }

  lemma {:induction false} CeilDivFacts(b: nat, s: nat)
    requires s > 0
    ensures var n := b / s + (if b % s > 0 then 1 else 0);
            n * s >= b && (n > 0 ==> (n - 1) * s < b)
  {
    var q := b / s;
    var m := b % s;
    assert b == q * s + m;
    var n := q + (if m > 0 then 1 else 0);
    if m > 0 {
      assert n * s == q * s + s;
      assert (n - 1) * s == q * s;
    } else {
      assert n * s == q * s;
      if n > 0 {
        assert (n - 1) * s == q * s - s;
      }
    }
  }

  /** Counting the values of a byte length that was computed from a value count
      gives the count back. */
  lemma {:induction false} ValueByteRoundTrip(l: Layout, n: nat)
    requires l.size > 0
    ensures ByteIndexToValueIndex(l, ValueIndexToByteIndex(l, n)) == n
  {
    DivModUnique(n * l.size, l.size, n, 0);
  }

  /** `try_padding_for::<T>`: the padding in front of the first `T`-aligned
      address of a slice. `align_offset` on a byte pointer never answers
      `usize::MAX`, so the `CannotComputeAlignment` branch is unreachable here. */
  function TryPaddingFor(l: Layout, addr: nat): (r: Result<nat, AlignmentError>)
    ensures r.Ok?
    ensures r.value < l.align && (addr + r.value) % l.align == 0
  {
    var value := Padding(addr, l.align);
    if value == USIZE_MAX then Err(CannotComputeAlignment(addr)) else Ok(value)
  }

  /** The padding `try_padding_for` answers is the distance to the next
      aligned address. */
  lemma {:induction false} TryPaddingForIsPadding(l: Layout, addr: nat)
    ensures TryPaddingFor(l, addr) == Ok(Padding(addr, l.align))
  {
  }
}
