/** Writing atoms through a stack of `AtomWriter`s, seen from the bytes.

    Every atom type's writer appends to the allocated bytes of a stack built by
    `AtomWriter::write_new` over a cursor, and every such append also grows the
    body size of each header the stack tracks (atom/src/space/atom_writer.rs).
    `Appended(w, w', chunk)` states exactly that: `w'` is `w` with `chunk`
    appended and every tracked header grown by `|chunk|`. The lemmas below show
    that `write_bytes`, `write_value` and `write_new` append, that appends
    compose, and that an atom written through a nested writer appears in its
    parent as a header announcing its body, followed by that body. */
module Appending {
  import opened Bytes
  import opened Wrappers
  import opened Errors
  import opened Util
  import opened Aligned
  import opened Header
  import opened Allocator
  import opened SpaceWriter

  // ---------------------------------------------------------------------
  // How growing the tracked headers acts on bytes

  /** Bytes after every tracked header are not touched. */
  lemma {:induction false} AddToSizesAppend(a: seq<byte>, c: seq<byte>, hs: seq<nat>, n: nat)
    requires forall k :: 0 <= k < |hs| ==> hs[k] + HEADER_SIZE <= |a|
    ensures AddToSizes(a + c, hs, n) == AddToSizes(a, hs, n) + c
    decreases |hs|
  {
    if |hs| > 0 {
      var init := hs[..|hs| - 1];
      var h := hs[|hs| - 1];
      var b := AddToSizes(a, init, n);
      calc {
        AddToSizes(a + c, hs, n);
        GrowBody(AddToSizes(a + c, init, n), h, n);
        { AddToSizesAppend(a, c, init, n); }
        GrowBody(b + c, h, n);
        { GrowBodyLeft(b, c, h, n); }
        GrowBody(b, h, n) + c;
        AddToSizes(a, hs, n) + c;
      }
    }
  }

  /** Growing a header inside the first part of a byte string. */
  lemma {:induction false} GrowBodyLeft(b: seq<byte>, c: seq<byte>, h: nat, n: nat)
    requires h + HEADER_SIZE <= |b|
    ensures GrowBody(b + c, h, n) == GrowBody(b, h, n) + c
  {
    var bc := b + c;
    var x := GetU32(b, h);
    var y := (x + n) % U32_LIMIT;
    assert bc[h..h + 4] == b[h..h + 4];
    GrowBodyIs(bc, h, n, x, y);
    GrowBodyIs(b, h, n, x, y);
    SetU32Left(b, c, h, y);
  }

  /** Setting a field inside the first part of a byte string. */
  lemma {:induction false} SetU32Left(b: seq<byte>, c: seq<byte>, h: nat, v: u32)
    requires h + 4 <= |b|
    ensures SetU32(b + c, h, v) == SetU32(b, h, v) + c
  {
    var l := SetU32(b + c, h, v);
    var r := SetU32(b, h, v) + c;
    forall i | 0 <= i < |l| ensures l[i] == r[i] {
      if h <= i < h + 4 {
        assert l[i] == EncodeU32(v)[i - h] == r[i];
      } else if i < |b| {
        assert l[i] == b[i] == r[i];
      } else {
        assert l[i] == c[i - |b|] == r[i];
      }
    }
  }

  /** Setting a field inside the second part of a byte string. */
  lemma {:induction false} SetU32Right(a: seq<byte>, c: seq<byte>, k: nat, v: u32)
    requires k + 4 <= |c|
    ensures SetU32(a + c, |a| + k, v) == a + SetU32(c, k, v)
  {
    var l := SetU32(a + c, |a| + k, v);
    var r := a + SetU32(c, k, v);
    forall i | 0 <= i < |l| ensures l[i] == r[i] {
      if |a| + k <= i < |a| + k + 4 {
        assert l[i] == EncodeU32(v)[i - |a| - k] == r[i];
      } else if i < |a| {
        assert l[i] == a[i] == r[i];
      } else {
        assert l[i] == c[i - |a|] == r[i];
      }
    }
  }

  /** Growing a header inside the second part of a byte string. */
  lemma {:induction false} GrowBodyRight(a: seq<byte>, c: seq<byte>, k: nat, n: nat, h: nat)
    requires k + HEADER_SIZE <= |c| && h == |a| + k
    ensures GrowBody(a + c, h, n) == a + GrowBody(c, k, n)
  {
    var ac := a + c;
    var x := GetU32(c, k);
    var y := (x + n) % U32_LIMIT;
    assert ac[h..h + 4] == c[k..k + 4];
    GrowBodyIs(ac, h, n, x, y);
    GrowBodyIs(c, k, n, x, y);
    SetU32Right(a, c, k, y);
  }

  /** Two size fields that do not overlap can be grown in either order. */
  lemma {:induction false} GrowBodyCommute(b: seq<byte>, h1: nat, n1: nat, h2: nat, n2: nat)
    requires h1 + HEADER_SIZE <= |b| && h2 + HEADER_SIZE <= |b|
    requires h1 + 4 <= h2 || h2 + 4 <= h1
    ensures GrowBody(GrowBody(b, h1, n1), h2, n2) == GrowBody(GrowBody(b, h2, n2), h1, n1)
  {
    var x1 := GetU32(b, h1);
    var x2 := GetU32(b, h2);
    var v1 := (x1 + n1) % U32_LIMIT;
    var v2 := (x2 + n2) % U32_LIMIT;
    GrowBodyIs(b, h1, n1, x1, v1);
    GrowBodyIs(b, h2, n2, x2, v2);
    GetSetU32Other(b, h1, v1, h2);
    GetSetU32Other(b, h2, v2, h1);
    GrowBodyIs(SetU32(b, h1, v1), h2, n2, x2, v2);
    GrowBodyIs(SetU32(b, h2, v2), h1, n1, x1, v1);
    SetU32Commute(b, h1, v1, h2, v2);
  }

  /** Two disjoint fields can be set in either order. */
  lemma {:induction false} SetU32Commute(b: seq<byte>, h1: nat, v1: u32, h2: nat, v2: u32)
    requires h1 + 4 <= |b| && h2 + 4 <= |b|
    requires h1 + 4 <= h2 || h2 + 4 <= h1
    ensures SetU32(SetU32(b, h1, v1), h2, v2) == SetU32(SetU32(b, h2, v2), h1, v1)
  {
    var x := SetU32(SetU32(b, h1, v1), h2, v2);
    var y := SetU32(SetU32(b, h2, v2), h1, v1);
    forall i | 0 <= i < |b|
      ensures x[i] == y[i]
    {
      if h1 <= i < h1 + 4 {
        assert x[i] == EncodeU32(v1)[i - h1] == y[i];
      } else if h2 <= i < h2 + 4 {
        assert x[i] == EncodeU32(v2)[i - h2] == y[i];
      }
    }
  }

  /** Growing one header twice grows it by the sum. */
  lemma {:induction false} GrowBodyTwice(b: seq<byte>, h: nat, n1: nat, n2: nat, n: nat)
    requires h + HEADER_SIZE <= |b| && n == n1 + n2
    ensures GrowBody(GrowBody(b, h, n1), h, n2) == GrowBody(b, h, n)
  {
    var x := GetU32(b, h);
    var v1 := (x + n1) % U32_LIMIT;
    var v2 := (x + n) % U32_LIMIT;
    GetSetU32(b, h, v1);
    ModAddTwice(x, n1, n2, U32_LIMIT);
    calc {
      GrowBody(GrowBody(b, h, n1), h, n2);
      { GrowBodyIs(b, h, n1, x, v1); }
      GrowBody(SetU32(b, h, v1), h, n2);
      { GrowBodyIs(SetU32(b, h, v1), h, n2, v1, v2); }
      SetU32(SetU32(b, h, v1), h, v2);
      { SetU32Twice(b, h, v1, v2); }
      SetU32(b, h, v2);
      { GrowBodyIs(b, h, n, x, v2); }
      GrowBody(b, h, n);
    }
  }

  /** A second `SetU32` at the same place replaces the first. */
  lemma {:induction false} SetU32Twice(b: seq<byte>, h: nat, v1: u32, v2: u32)
    requires h + HEADER_SIZE <= |b|
    ensures SetU32(SetU32(b, h, v1), h, v2) == SetU32(b, h, v2)
  {
    var l := SetU32(SetU32(b, h, v1), h, v2);
    var r := SetU32(b, h, v2);
    forall i | 0 <= i < |b| ensures l[i] == r[i] {
      if h <= i < h + 4 {
        assert l[i] == EncodeU32(v2)[i - h] == r[i];
      }
    }
  }

  /** A header after all of `hs` can be grown before or after them. */
  lemma {:induction false} AddToSizesGrowBody(b: seq<byte>, hs: seq<nat>, n: nat, h: nat, m: nat)
    requires h + HEADER_SIZE <= |b|
    requires forall k :: 0 <= k < |hs| ==> hs[k] + HEADER_SIZE <= h
    ensures AddToSizes(GrowBody(b, h, m), hs, n) == GrowBody(AddToSizes(b, hs, n), h, m)
    decreases |hs|
  {
    if |hs| > 0 {
      var init := hs[..|hs| - 1];
      var last := hs[|hs| - 1];
      AddToSizesGrowBody(b, init, n, h, m);
      GrowBodyCommute(AddToSizes(b, init, n), h, m, last, n);
    }
  }

  /** Growing all headers twice grows them by the sum. */
  lemma {:induction false} AddToSizesTwice(b: seq<byte>, hs: seq<nat>, n1: nat, n2: nat, n: nat)
    requires Ascending(hs) && n == n1 + n2
    requires forall k :: 0 <= k < |hs| ==> hs[k] + HEADER_SIZE <= |b|
    ensures AddToSizes(AddToSizes(b, hs, n1), hs, n2) == AddToSizes(b, hs, n)
    decreases |hs|
  {
    if |hs| > 0 {
      var init := hs[..|hs| - 1];
      var last := hs[|hs| - 1];
      AscendingPrefix(hs, init);
      var y := AddToSizes(b, init, n1);
      AddToSizesGrowBody(y, init, n2, last, n1);
      GrowBodyTwice(AddToSizes(y, init, n2), last, n1, n2, n);
      AddToSizesTwice(b, init, n1, n2, n);
    }
  }

  /** One more tracked header: the new one is grown after the others. */
  lemma {:induction false} AddToSizesSnoc(b: seq<byte>, hs: seq<nat>, h: nat, n: nat)
    requires h + HEADER_SIZE <= |b|
    ensures AddToSizes(b, hs + [h], n) == GrowBody(AddToSizes(b, hs, n), h, n)
  {
    assert (hs + [h])[..|hs|] == hs;
  }

  // ---------------------------------------------------------------------
  // Appending through a stack

  /** A stack of atom writers over a cursor, as `write_new` builds them. */
  predicate Stack(w: Writer) {
    Wf(w) && FrameChain(w) && HeadersFit(w)
  }

  /** `w'` is `w` after `chunk` was appended through it: the same writers
      over the same buffer address and backing, `chunk` after the bytes `w`
      had allocated, and every header `w` tracks grown by `|chunk|`. A fixed
      buffer keeps its length. */
  predicate Appended(w: Writer, w': Writer, chunk: seq<byte>) {
    Stack(w) && Stack(w') &&
    Headers(w') == Headers(w) && Addr(w') == Addr(w) &&
    RootOf(w').backing == RootOf(w).backing &&
    Used(w') == Used(w) + |chunk| &&
    (RootOf(w).backing.Slice? ==> |Buffer(w')| == |Buffer(w)|) &&
    AllocatedBytes(w') == AddToSizes(AllocatedBytes(w), Headers(w), |chunk|) + chunk
  }

  /** The headers a stack tracks lie inside its allocated bytes, in order. */
  lemma {:induction false} StackHeaders(w: Writer)
    requires Stack(w)
    ensures Ascending(Headers(w))
    ensures forall k :: 0 <= k < |Headers(w)| ==> Headers(w)[k] + HEADER_SIZE <= Used(w)
  {
    HeadersAscending(w);
    HeadersWithin(w, Used(w));
  }

  /** Appending nothing. */
  lemma {:induction false} AppendedNothing(w: Writer)
    requires Stack(w)
    ensures Appended(w, w, [])
  {
    AddToSizesZero(AllocatedBytes(w), Headers(w));
  }

  /** Growing by zero bytes changes nothing. */
  lemma {:induction false} AddToSizesZero(b: seq<byte>, hs: seq<nat>)
    ensures AddToSizes(b, hs, 0) == b
    decreases |hs|
  {
    if |hs| > 0 {
      var init := hs[..|hs| - 1];
      var h := hs[|hs| - 1];
      AddToSizesZero(b, init);
      if h + HEADER_SIZE <= |b| {
        var x := GetU32(b, h);
        assert (x + 0) % U32_LIMIT == x;
        U32Bytes(b[h..h + 4]);
        assert SetU32(b, h, x) == b;
      }
    }
  }

  /** Two appends in a row are one append of both chunks. */
  lemma {:induction false} AppendedTrans(w1: Writer, w2: Writer, w3: Writer, c1: seq<byte>, c2: seq<byte>)
    requires Appended(w1, w2, c1) && Appended(w2, w3, c2)
    ensures Appended(w1, w3, c1 + c2)
  {
    StackHeaders(w1);
    ChunksTrans(AllocatedBytes(w1), Headers(w1), c1, c2, AllocatedBytes(w2), AllocatedBytes(w3));
  }

  /** The bytes of two appends in a row. */
  lemma {:induction false} ChunksTrans(a1: seq<byte>, hs: seq<nat>, c1: seq<byte>, c2: seq<byte>, a2: seq<byte>, a3: seq<byte>)
    requires Ascending(hs) && forall k :: 0 <= k < |hs| ==> hs[k] + HEADER_SIZE <= |a1|
    requires a2 == AddToSizes(a1, hs, |c1|) + c1
    requires a3 == AddToSizes(a2, hs, |c2|) + c2
    ensures a3 == AddToSizes(a1, hs, |c1 + c2|) + (c1 + c2)
  {
    var g := AddToSizes(a1, hs, |c1|);
    var g2 := AddToSizes(g, hs, |c2|);
    AddToSizesAppend(g, c1, hs, |c2|);
    AddToSizesTwice(a1, hs, |c1|, |c2|, |c1 + c2|);
    ConcatAssoc(AddToSizes(g + c1, hs, |c2|), g2, c1, c2, a3);
  }

  /** `a3 == (x + c1) + c2` once `x` is known to be `g + c1`. */
  lemma {:induction false} ConcatAssoc(x: seq<byte>, g: seq<byte>, c1: seq<byte>, c2: seq<byte>, a3: seq<byte>)
    requires x == g + c1 && a3 == x + c2
    ensures a3 == g + (c1 + c2)
  {
  }

  /** What a successful root allocation leaves in the stack: the new bytes as
      the root found them (or zeros where it grew), after the old ones. */
  lemma {:induction false} AllocateAppended(w: Writer, n: nat)
    requires Stack(w)
    ensures var s := AllocateAndSplit(w, n);
            var root := RootAllocate(RootOf(w), n);
            (s.result.Ok? <==> root.1.Ok?) &&
            (s.result.Err? ==> s.writer == w && s.result == root.1) &&
            (s.result.Ok? ==> s.result.value == Used(w) && Used(s.writer) == Used(w) + n &&
                              Appended(w, s.writer, Buffer(s.writer)[Used(w)..Used(w) + n]))
  {
    var root := RootAllocate(RootOf(w), n);
    AllocateInFrames(w, n);
    AllocateInFramesResult(w, n);
    if root.1.Ok? {
      AppendedByRoot(w, root.0, n);
    }
  }

  /** A root that allocated `n` more bytes, with every header the stack tracks
      grown by `n`, under the same writers: an append of the new bytes. */
  lemma {:induction false} AppendedByRoot(w: Writer, r: Root, n: nat)
    requires Stack(w)
    requires r.backing == RootOf(w).backing && r.addr == Addr(w)
    requires r.used == Used(w) + n && r.used <= |r.buf| <= ISIZE_MAX
    requires Buffer(w) <= r.buf
    requires r.backing.Slice? ==> r.buf == Buffer(w)
    ensures var w' := WithRoot(w, r.(buf := AddToSizes(r.buf, Headers(w), n)));
            Appended(w, w', r.buf[Used(w)..Used(w) + n]) &&
            Buffer(w')[Used(w)..Used(w) + n] == r.buf[Used(w)..Used(w) + n]
  {
    var w' := WithRoot(w, r.(buf := AddToSizes(r.buf, Headers(w), n)));
    var hs := Headers(w);
    var u := Used(w);
    var chunk := r.buf[u..u + n];
    GrownRootShape(w, r, n);
    assert Buffer(w')[..u + n] == AddToSizes(AllocatedBytes(w), hs, |chunk|) + chunk &&
           Buffer(w')[u..u + n] == chunk by {
      StackHeaders(w);
      GrownBytes(AllocatedBytes(w), r.buf, hs, u, n, chunk);
      assert Buffer(w') == AddToSizes(r.buf, hs, n);
    }
    AppendedIntro(w, w', chunk);
  }

  /** The writers over a grown root: a stack with the same headers, address
      and backing, `n` more bytes allocated. */
  lemma {:induction false} GrownRootShape(w: Writer, r: Root, n: nat)
    requires Stack(w)
    requires r.backing == RootOf(w).backing && r.addr == Addr(w)
    requires r.used == Used(w) + n && r.used <= |r.buf| <= ISIZE_MAX
    requires Buffer(w) <= r.buf
    requires r.backing.Slice? ==> r.buf == Buffer(w)
    ensures var w' := WithRoot(w, r.(buf := AddToSizes(r.buf, Headers(w), n)));
            Stack(w') && Headers(w') == Headers(w) && Addr(w') == Addr(w) &&
            RootOf(w').backing == RootOf(w).backing && Used(w') == Used(w) + n &&
            (RootOf(w).backing.Slice? ==> |Buffer(w')| == |Buffer(w)|)
  {
    GrownRoot(w, r, n);
    WithRootShape(w, r.(buf := AddToSizes(r.buf, Headers(w), n)));
  }

  /** `Appended`, one conjunct at a time. */
  lemma {:induction false} AppendedIntro(w: Writer, w': Writer, chunk: seq<byte>)
    requires Stack(w) && Stack(w') && Headers(w') == Headers(w) && Addr(w') == Addr(w)
    requires RootOf(w').backing == RootOf(w).backing && Used(w') == Used(w) + |chunk|
    requires RootOf(w).backing.Slice? ==> |Buffer(w')| == |Buffer(w)|
    requires Buffer(w')[..Used(w')] == AddToSizes(AllocatedBytes(w), Headers(w), |chunk|) + chunk
    ensures Appended(w, w', chunk)
  {
  }

  /** The bytes of a grown root: the old allocated bytes with every tracked
      header grown, then the newly allocated bytes as they were. */
  lemma {:induction false} GrownBytes(prev: seq<byte>, buf: seq<byte>, hs: seq<nat>, u: nat, n: nat, chunk: seq<byte>)
    requires u + n <= |buf| && prev == buf[..u] && chunk == buf[u..u + n]
    requires forall k :: 0 <= k < |hs| ==> hs[k] + HEADER_SIZE <= u
    ensures |chunk| == n
    ensures AddToSizes(buf, hs, n)[..u + n] == AddToSizes(prev, hs, |chunk|) + chunk
    ensures AddToSizes(buf, hs, n)[u..u + n] == chunk
  {
    var front := buf[..u + n];
    var back := buf[u + n..];
    assert front == prev + chunk;
    assert buf == front + back;
    AddToSizesAppend(front, back, hs, n);
    AddToSizesAppend(prev, chunk, hs, n);
    var g := AddToSizes(prev, hs, n);
    assert AddToSizes(buf, hs, n) == g + chunk + back;
    assert (g + chunk + back)[..u + n] == g + chunk;
    assert (g + chunk + back)[u..u + n] == chunk;
  }

  /** Overwriting appended bytes keeps the stack appended, with the chunk
      overwritten. */
  lemma {:induction false} OverwriteAppended(w: Writer, w1: Writer, c: seq<byte>, at: nat, off: nat, data: seq<byte>,
                                             c2: seq<byte>)
    requires Appended(w, w1, c)
    requires at == Used(w) + off && at + |data| <= Used(w1) && c2 == Overwrite(c, off, data)
    ensures Appended(w, WithBuffer(w1, Overwrite(Buffer(w1), at, data)), c2)
  {
    var r := RootOf(w1).(buf := Overwrite(Buffer(w1), at, data));
    var w2 := WithRoot(w1, r);
    WithRootShape(w1, r);
    HeadersFitGrow(w1, r);
    assert RootOf(w2) == r;
    var g := AddToSizes(AllocatedBytes(w), Headers(w), |c|);
    OverwriteAllocated(Buffer(w1), Used(w1), at, data, g, c, off);
  }

  /** The bytes side of `OverwriteAppended`. */
  lemma {:induction false} OverwriteAllocated(buf: seq<byte>, used: nat, at: nat, data: seq<byte>, g: seq<byte>, c: seq<byte>, off: nat)
    requires used <= |buf| && buf[..used] == g + c
    requires at == |g| + off && at + |data| <= used
    ensures Overwrite(buf, at, data)[..used] == g + Overwrite(c, off, data)
  {
    var l := Overwrite(buf, at, data)[..used];
    var r := g + Overwrite(c, off, data);
    forall i | 0 <= i < used ensures l[i] == r[i] {
      OverwriteAllocatedAt(buf, used, at, data, g, c, off, i);
    }
    assert l == r;
  }

  /** `OverwriteAllocated` at one index. */
  lemma {:induction false} OverwriteAllocatedAt(buf: seq<byte>, used: nat, at: nat, data: seq<byte>, g: seq<byte>,
                                                c: seq<byte>, off: nat, i: nat)
    requires used <= |buf| && buf[..used] == g + c
    requires at == |g| + off && at + |data| <= used && i < used
    ensures Overwrite(buf, at, data)[i] == (g + Overwrite(c, off, data))[i]
  {
    var o := Overwrite(c, off, data);
    if i < |g| {
      assert buf[i] == (g + c)[i];
    } else if at <= i < at + |data| {
      assert Overwrite(buf, at, data)[at + (i - at)] == data[i - at];
      assert o[off + (i - at)] == data[i - at];
    } else {
      assert buf[i] == (g + c)[i] == c[i - |g|];
      assert o[i - |g|] == c[i - |g|];
    }
  }

  /** `write_bytes` through a stack: on success it appends exactly the bytes;
      on failure the stack is unchanged and the root's error is reported. */
  lemma {:induction false} WriteBytesAppended(w: Writer, bytes: seq<byte>)
    requires Stack(w)
    ensures var s := WriteBytes(w, bytes);
            var root := RootAllocate(RootOf(w), |bytes|);
            (s.result.Ok? <==> root.1.Ok?) &&
            (s.result.Err? ==> s.writer == w && s.result == root.1) &&
            (s.result.Ok? ==> s.result.value == Used(w) && Appended(w, s.writer, bytes))
  {
    var a := AllocateAndSplit(w, |bytes|);
    AllocateAppended(w, |bytes|);
    if a.result.Ok? {
      var c := Buffer(a.writer)[Used(w)..Used(w) + |bytes|];
      OverwriteAppended(w, a.writer, c, Used(w), 0, bytes, Overwrite(c, 0, bytes));
      assert Overwrite(c, 0, bytes) == bytes;
    }
  }

  /** The padding an aligned allocation of `l` puts before its value. */
  function PadFor(w: Writer, l: Layout): (p: nat)
    ensures p < l.align && (Addr(w) + Used(w) + p) % l.align == 0
  {
    Padding(Addr(w) + Used(w), l.align)
  }

  /** `write_value` through a stack: on success it appends the padding to the
      value's alignment and then the value; on failure the stack is
      unchanged. */
  lemma {:induction false} WriteValueAppended(w: Writer, l: Layout, value: seq<byte>)
    requires Stack(w) && |value| == l.size
    ensures var s := WriteValue(w, l, value);
            var pad := PadFor(w, l);
            var root := RootAllocate(RootOf(w), l.size + pad);
            (s.result.Ok? <==> root.1.Ok?) &&
            (s.result.Err? ==> s.writer == w && s.result == root.1) &&
            (s.result.Ok? ==>
               s.result.value == Used(w) + pad &&
               var c := Buffer(s.writer)[Used(w)..Used(s.writer)];
               |c| == l.size + pad && c[pad..] == value && Appended(w, s.writer, c))
  {
    var pad := PadFor(w, l);
    var total := l.size + pad;
    WriteValueErrCase(w, l, value, pad, total);
    if WriteValue(w, l, value).result.Ok? {
      WriteValueOkCase(w, l, value, pad, total);
    }
  }

  /** Whether `write_value` through a stack fails, and how. */
  lemma {:induction false} WriteValueErrCase(w: Writer, l: Layout, value: seq<byte>, pad: nat, total: nat)
    requires Stack(w) && |value| == l.size && pad == PadFor(w, l) && total == l.size + pad
    ensures var s := WriteValue(w, l, value);
            var root := RootAllocate(RootOf(w), total);
            (s.result.Ok? <==> root.1.Ok?) &&
            (s.result.Err? ==> s.writer == w && s.result == root.1)
  {
    AllocateValueIs(w, l, pad, total);
    WriteValueIs(w, l, value);
    AllocateAppended(w, total);
  }

  /** What a successful `write_value` through a stack appends. */
  lemma {:induction false} WriteValueOkCase(w: Writer, l: Layout, value: seq<byte>, pad: nat, total: nat)
    requires Stack(w) && |value| == l.size && pad == PadFor(w, l) && total == l.size + pad
    requires WriteValue(w, l, value).result.Ok?
    ensures var s := WriteValue(w, l, value);
            s.result.value == Used(w) + pad &&
            var c := Buffer(s.writer)[Used(w)..Used(s.writer)];
            |c| == total && c[pad..] == value && Appended(w, s.writer, c)
  {
    WriteValueAllocates(w, l, value, pad, total);
    AllocateAppended(w, total);
    WrittenAfterPadding(w, AllocateAndSplit(w, total).writer, pad, value, total);
  }

  /** A successful `write_value` through a stack is the allocation of the
      padding and the value, with the value written after the padding. */
  lemma {:induction false} WriteValueAllocates(w: Writer, l: Layout, value: seq<byte>, pad: nat, total: nat)
    requires Stack(w) && |value| == l.size && pad == PadFor(w, l) && total == l.size + pad
    requires WriteValue(w, l, value).result.Ok?
    ensures var s := WriteValue(w, l, value);
            var a := AllocateAndSplit(w, total);
            a.result.Ok? && a.result.value == Used(w) && s.result.value == Used(w) + pad &&
            s.writer == WithBuffer(a.writer, Overwrite(Buffer(a.writer), Used(w) + pad, value))
  {
    AllocateValueIs(w, l, pad, total);
    WriteValueIs(w, l, value);
    AllocateInFramesResult(w, total);
  }

  /** Writing `value` after `pad` bytes of an appended chunk: the chunk with the
      value in place, still appended. */
  lemma {:induction false} WrittenAfterPadding(w: Writer, aw: Writer, pad: nat, value: seq<byte>, total: nat)
    requires Used(aw) == Used(w) + total <= |Buffer(aw)| && total == pad + |value|
    requires Appended(w, aw, Buffer(aw)[Used(w)..Used(w) + total])
    ensures var sw := WithBuffer(aw, Overwrite(Buffer(aw), Used(w) + pad, value));
            var c := Buffer(sw)[Used(w)..Used(sw)];
            |c| == total && c[pad..] == value && Appended(w, sw, c)
  {
    var u := Used(w);
    var c := Buffer(aw)[u..u + total];
    var sw := WithBuffer(aw, Overwrite(Buffer(aw), u + pad, value));
    var c' := Buffer(sw)[u..Used(sw)];
    WrittenBytes(aw, u, total, pad, value, c, c');
    OverwriteAppended(w, aw, c, u + pad, pad, value, c');
  }

  /** The bytes side of `WrittenAfterPadding`. */
  lemma {:induction false} WrittenBytes(aw: Writer, u: nat, total: nat, pad: nat, value: seq<byte>,
                                        c: seq<byte>, c': seq<byte>)
    requires Used(aw) == u + total && Used(aw) <= |Buffer(aw)| && total == pad + |value|
    requires c == Buffer(aw)[u..u + total]
    requires var sw := WithBuffer(aw, Overwrite(Buffer(aw), u + pad, value));
             u <= Used(sw) <= |Buffer(sw)| && c' == Buffer(sw)[u..Used(sw)]
    ensures |c'| == total && c' == Overwrite(c, pad, value) && c'[pad..] == value
  {
    var sw := WithBuffer(aw, Overwrite(Buffer(aw), u + pad, value));
    assert Used(sw) == Used(aw);
    OverwrittenChunk(Buffer(aw), u, pad, value, Used(aw), Buffer(sw), c);
  }

  /** `allocate_value` through a stack: the allocation of the padding and
      the value, whose offset follows the padding. */
  lemma {:induction false} AllocateValueIs(w: Writer, l: Layout, pad: nat, total: nat)
    requires Stack(w) && pad == PadFor(w, l) && total == l.size + pad
    ensures var a := AllocateAndSplit(w, total);
            var s := AllocateValue(w, l);
            s.writer == a.writer && (s.result.Ok? <==> a.result.Ok?) &&
            (s.result.Err? ==> a.result.Err? && s.result.error == a.result.error) &&
            (s.result.Ok? ==> s.result.value == Used(w) + pad)
  {
    AllocateAlignedInFrames(w, l, l.size, pad, total);
    var al := AllocateAligned(w, l, l.size);
    var s := AllocateValue(w, l);
    if al.result.Err? {
      assert s == Step(al.writer, Err(al.result.error));
      var e := al.result.error;
      assert s.result.error == e;
    }
  }

  /** `write_value` through a stack: the allocation, then the value written
      after the padding. */
  lemma {:induction false} WriteValueIs(w: Writer, l: Layout, value: seq<byte>)
    requires Stack(w) && |value| == l.size
    ensures var a := AllocateValue(w, l);
            var s := WriteValue(w, l, value);
            (s.result.Ok? <==> a.result.Ok?) &&
            (s.result.Err? ==> a.result.Err? && s.writer == a.writer && s.result.error == a.result.error) &&
            (a.result.Ok? ==> s.result.value == a.result.value &&
                              a.result.value + |value| <= |Buffer(a.writer)| &&
                              s.writer == WithBuffer(a.writer, Overwrite(Buffer(a.writer), a.result.value, value)))
  {
  }

  /** The chunk an allocation left, once the value is written after the
      padding. */
  lemma {:induction false} OverwrittenChunk(buf: seq<byte>, u: nat, pad: nat, value: seq<byte>, end: nat, buf': seq<byte>, c: seq<byte>)
    requires end == u + (|value| + pad) && end <= |buf| && c == buf[u..end]
    requires buf' == Overwrite(buf, u + pad, value)
    ensures buf'[u..end] == Overwrite(c, pad, value)
    ensures Overwrite(c, pad, value)[pad..] == value
  {
  }

  /** `write_values(values)` through a stack: on success it appends the
      padding to the values' alignment and then every value, in order; on
      failure the stack is unchanged. */
  lemma {:induction false} WriteValuesAppended(w: Writer, l: Layout, values: seq<seq<byte>>)
    requires Stack(w) && l.size > 0 && AllOfSize(values, l.size)
    ensures var s := WriteValues(w, l, values);
            var pad := PadFor(w, l);
            var root := RootAllocate(RootOf(w), |Flatten(values)| + pad);
            (s.result.Ok? <==> root.1.Ok?) &&
            (s.result.Err? ==> s.writer == w && s.result.error == root.1.error) &&
            (s.result.Ok? ==>
               s.result.value == Slots(Used(w) + pad, |values|) &&
               Used(w) + |Flatten(values)| + pad == Used(s.writer) <= |Buffer(s.writer)| &&
               var c := Buffer(s.writer)[Used(w)..Used(s.writer)];
               |c| == |Flatten(values)| + pad && c[pad..] == Flatten(values) && Appended(w, s.writer, c))
  {
    var pad := PadFor(w, l);
    var total := |Flatten(values)| + pad;
    WriteValuesErrCase(w, l, values, pad, total);
    if WriteValues(w, l, values).result.Ok? {
      WriteValuesOkCase(w, l, values, pad, total);
    }
  }

  /** Whether `write_values` through a stack fails, and how. */
  lemma {:induction false} WriteValuesErrCase(w: Writer, l: Layout, values: seq<seq<byte>>, pad: nat, total: nat)
    requires Stack(w) && l.size > 0 && AllOfSize(values, l.size)
    requires pad == PadFor(w, l) && total == |Flatten(values)| + pad
    ensures var s := WriteValues(w, l, values);
            var root := RootAllocate(RootOf(w), total);
            (s.result.Ok? <==> root.1.Ok?) &&
            (s.result.Err? ==> s.writer == w && s.result.error == root.1.error)
  {
    FlattenLength(values, l.size);
    AllocateValuesIs(w, l, |values|, pad, total);
    AllocateAppended(w, total);
  }

  /** What a successful `write_values` through a stack appends. */
  lemma {:induction false} WriteValuesOkCase(w: Writer, l: Layout, values: seq<seq<byte>>, pad: nat, total: nat)
    requires Stack(w) && l.size > 0 && AllOfSize(values, l.size)
    requires pad == PadFor(w, l) && total == |Flatten(values)| + pad
    requires WriteValues(w, l, values).result.Ok?
    ensures var s := WriteValues(w, l, values);
            s.result.value == Slots(Used(w) + pad, |values|) &&
            Used(w) + total == Used(s.writer) <= |Buffer(s.writer)| &&
            var c := Buffer(s.writer)[Used(w)..Used(s.writer)];
            |c| == total && c[pad..] == Flatten(values) && Appended(w, s.writer, c)
  {
    WriteValuesAllocates(w, l, values, pad, total);
    AllocateAppended(w, total);
    WrittenAfterPadding(w, AllocateAndSplit(w, total).writer, pad, Flatten(values), total);
  }

  /** A successful `write_values` through a stack is the allocation of the
      padding and the values, with the values written after the padding. */
  lemma {:induction false} WriteValuesAllocates(w: Writer, l: Layout, values: seq<seq<byte>>, pad: nat, total: nat)
    requires Stack(w) && l.size > 0 && AllOfSize(values, l.size)
    requires pad == PadFor(w, l) && total == |Flatten(values)| + pad
    requires WriteValues(w, l, values).result.Ok?
    ensures var s := WriteValues(w, l, values);
            var a := AllocateAndSplit(w, total);
            a.result.Ok? && a.result.value == Used(w) && s.result.value == Slots(Used(w) + pad, |values|) &&
            s.writer == WithBuffer(a.writer, Overwrite(Buffer(a.writer), Used(w) + pad, Flatten(values)))
  {
    var v := AllocateValues(w, l, |values|);
    assert WriteValues(w, l, values) == StoreValues(v, l, values);
    FlattenLength(values, l.size);
    AllocateValuesIs(w, l, |values|, pad, total);
    StoreAllValues(v, l, values);
    assert AllocateAndSplit(w, total).result.value == Used(w) by {
      AllocateInFramesResult(w, total);
    }
  }

  /** Storing into exactly as many slots as there are values writes all of
      them, flattened, at the first slot. */
  lemma {:induction false} StoreAllValues(s: Step<Slots>, l: Layout, values: seq<seq<byte>>)
    requires Wf(s.writer) && l.size > 0 && AllOfSize(values, l.size)
    requires s.result.Ok? && s.result.value.offset + s.result.value.count * l.size <= Used(s.writer)
    requires s.result.value.count == |values|
    ensures StoreValues(s, l, values)
            == Step(WithBuffer(s.writer, Overwrite(Buffer(s.writer), s.result.value.offset, Flatten(values))), s.result)
  {
  }

  /** `allocate_values` through a stack: the allocation of the padding and
      the values, whose slots follow the padding, exactly `count` of them. */
  lemma {:induction false} AllocateValuesIs(w: Writer, l: Layout, count: nat, pad: nat, total: nat)
    requires Stack(w) && l.size > 0 && pad == PadFor(w, l) && total == count * l.size + pad
    ensures var a := AllocateAndSplit(w, total);
            var s := AllocateValues(w, l, count);
            s.writer == a.writer && (s.result.Ok? <==> a.result.Ok?) &&
            (s.result.Err? ==> s.result.error == a.result.error) &&
            (s.result.Ok? ==> s.result.value == Slots(Used(w) + pad, count))
  {
    AllocateAlignedInFrames(w, l, count * l.size, pad, total);
    var al := AllocateAligned(w, l, count * l.size);
    if al.result.Ok? {
      var reg := al.result.value;
      ValuesLenExact(l, Space(Addr(w) + reg.offset, Buffer(al.writer)[reg.offset..reg.offset + reg.length]), count);
    }
  }

  /** A space of exactly `count` values holds `count` values. */
  lemma {:induction false} ValuesLenExact(l: Layout, s: Space, count: nat)
    requires l.size > 0 && |s.bytes| == count * l.size
    ensures ValuesLen(l, s) == count
  {
    DivModUnique(|s.bytes|, l.size, count, 0);
  }

  /** `write_new(urid)` through a stack: on success it appends the padding to
      8 and the header `{size: 0, type: urid}`, and the new atom writer tracks
      that header on top of the stack. */
  lemma {:induction false} WriteNewAppended(w: Writer, urid: u32)
    requires Stack(w)
    ensures var s := WriteNew(w, urid);
            var pad := PadFor(w, ATOM_HEADER);
            var root := RootAllocate(RootOf(w), HEADER_SIZE + pad);
            (s.result.Ok? <==> root.1.Ok?) &&
            (s.result.Err? ==> root.1.Err? && s.writer == w && s.result.error == root.1.error) &&
            (s.result.Ok? ==>
               s.result.value == AtomWriter(s.writer, Used(w) + pad) &&
               var c := Buffer(s.writer)[Used(w)..Used(s.writer)];
               |c| == HEADER_SIZE + pad && c[pad..] == Encode(New(urid)) &&
               Appended(w, s.writer, c) && Stack(s.result.value))
  {
    var pad := PadFor(w, ATOM_HEADER);
    var total := HEADER_SIZE + pad;
    if WriteValue(w, ATOM_HEADER, Encode(New(urid))).result.Ok? {
      WriteNewOk(w, urid, pad, total);
    } else {
      WriteNewErr(w, urid, pad, total);
    }
  }

  /** The failing case of `WriteNewAppended`. */
  lemma {:induction false} WriteNewErr(w: Writer, urid: u32, pad: nat, total: nat)
    requires Stack(w) && pad == PadFor(w, ATOM_HEADER) && total == HEADER_SIZE + pad
    requires WriteValue(w, ATOM_HEADER, Encode(New(urid))).result.Err?
    ensures var s := WriteNew(w, urid);
            var root := RootAllocate(RootOf(w), total);
            s.result.Err? && root.1.Err? && s.writer == w && s.result.error == root.1.error
  {
    assert total == ATOM_HEADER.size + pad;
    WriteValueAppended(w, ATOM_HEADER, Encode(New(urid)));
  }

  /** The successful case of `WriteNewAppended`. */
  lemma {:induction false} WriteNewOk(w: Writer, urid: u32, pad: nat, total: nat)
    requires Stack(w) && pad == PadFor(w, ATOM_HEADER) && total == HEADER_SIZE + pad
    requires WriteValue(w, ATOM_HEADER, Encode(New(urid))).result.Ok?
    ensures RootAllocate(RootOf(w), total).1.Ok?
    ensures var s := WriteNew(w, urid);
            s.result.Ok? && s.result.value == AtomWriter(s.writer, Used(w) + pad) &&
            var c := Buffer(s.writer)[Used(w)..Used(s.writer)];
            |c| == total && c[pad..] == Encode(New(urid)) &&
            Appended(w, s.writer, c) && Stack(s.result.value)
  {
    var v := WriteValue(w, ATOM_HEADER, Encode(New(urid)));
    assert total == ATOM_HEADER.size + pad;
    WriteValueErrCase(w, ATOM_HEADER, Encode(New(urid)), pad, total);
    WriteValueOkCase(w, ATOM_HEADER, Encode(New(urid)), pad, total);
    StackPush(w, v.writer, Buffer(v.writer)[Used(w)..Used(v.writer)], pad);
  }

  /** An atom writer over the header a stack just appended after `pad`
      bytes of padding to 8 is itself a stack. */
  lemma {:induction false} StackPush(w: Writer, p: Writer, c: seq<byte>, pad: nat)
    requires Appended(w, p, c) && |c| == HEADER_SIZE + pad
    requires (Addr(w) + Used(w) + pad) % 8 == 0
    ensures Stack(AtomWriter(p, Used(w) + pad))
  {
    var h := Used(w) + pad;
    StackHeaders(w);
    forall k | k in Headers(p)
      ensures k + HEADER_SIZE <= h
    {
      var i :| 0 <= i < |Headers(p)| && Headers(p)[i] == k;
    }
    assert HeadersFit(AtomWriter(p, h));
  }

  /** A stack whose headers are those of `w` plus one on top is an atom
      writer over a stack with the headers of `w`. */
  lemma {:induction false} TopOfStack(w: Writer, hs: seq<nat>, h: nat)
    requires Stack(w) && Headers(w) == hs + [h]
    ensures w.AtomWriter? && w.headerIndex == h && Headers(w.parent) == hs
    ensures Stack(w.parent) && RootOf(w.parent) == RootOf(w)
  {
    assert Headers(w)[..|hs|] == hs;
  }

  /** An atom written through a nested writer: `write_new` appended the
      padding and an empty header to `w`, and the atom writer then appended
      `body`. Then its parent is `w` with the padding, a header announcing
      `|body|` bytes (truncated to u32) and the body appended. */
  lemma {:induction false} NestedAppended(w: Writer, p: Writer, c: seq<byte>, pad: nat, urid: u32, top: Writer, body: seq<byte>)
    requires Appended(w, p, c) && |c| == HEADER_SIZE + pad && c[pad..] == Encode(New(urid))
    requires Appended(AtomWriter(p, Used(w) + pad), top, body)
    ensures top.AtomWriter? && top.headerIndex == Used(w) + pad
    ensures Appended(w, top.parent, c[..pad] + Encode(AtomHeader(|body| % U32_LIMIT, urid)) + body)
  {
    var h := Used(w) + pad;
    var hs := Headers(w);
    TopOfStack(top, hs, h);
    StackHeaders(w);
    var chunk := c[..pad] + Encode(AtomHeader(|body| % U32_LIMIT, urid)) + body;
    NestedBytes(AllocatedBytes(w), hs, c, pad, urid, body, h, AllocatedBytes(p), AllocatedBytes(top), chunk);
  }

  /** The bytes side of `NestedAppended`. */
  lemma {:induction false} NestedBytes(a0: seq<byte>, hs: seq<nat>, c: seq<byte>, pad: nat, urid: u32, body: seq<byte>,
                    h: nat, ap: seq<byte>, atop: seq<byte>, chunk: seq<byte>)
    requires Ascending(hs) && forall k :: 0 <= k < |hs| ==> hs[k] + HEADER_SIZE <= |a0|
    requires h == |a0| + pad && |c| == HEADER_SIZE + pad && c[pad..] == Encode(New(urid))
    requires ap == AddToSizes(a0, hs, |c|) + c
    requires atop == AddToSizes(ap, hs + [h], |body|) + body
    requires chunk == c[..pad] + Encode(AtomHeader(|body| % U32_LIMIT, urid)) + body
    ensures atop == AddToSizes(a0, hs, |chunk|) + chunk
  {
    var n := |body|;
    var m := |chunk|;
    assert m == |c| + n;
    var g := AddToSizes(a0, hs, |c|);
    var gm := AddToSizes(a0, hs, m);
    var gc := g + c;
    assert ap == gc;
    AddToSizesSnoc(gc, hs, h, n);
    AddToSizesAppend(g, c, hs, n);
    AddToSizesTwice(a0, hs, |c|, n, m);
    assert AddToSizes(gc, hs, n) == gm + c;
    var gmc := gm + c;
    assert h == |gm| + pad;
    GrowBodyRight(gm, c, pad, n, h);
    GrowEmptyHeader(c, pad, urid, n);
    var e := c[..pad] + Encode(AtomHeader(n % U32_LIMIT, urid));
    assert GrowBody(gmc, h, n) == gm + e;
    assert atop == gm + e + body;
    assert chunk == e + body;
  }

  /** Growing the empty header `write_new` wrote by `n`. */
  lemma {:induction false} GrowEmptyHeader(c: seq<byte>, pad: nat, urid: u32, n: nat)
    requires |c| == HEADER_SIZE + pad && c[pad..] == Encode(New(urid))
    ensures GrowBody(c, pad, n) == c[..pad] + Encode(AtomHeader(n % U32_LIMIT, urid))
  {
    assert c[pad..pad + 4] == EncodeU32(0);
    U32RoundTrip(0);
    assert c[pad + 4..] == EncodeU32(urid);
  }

  // ---------------------------------------------------------------------
  // Fixed buffers

  /** A cursor over a fixed buffer allocates exactly when the request fits in
      what is left. */
  lemma {:induction false} SliceAllocate(w: Writer, n: nat)
    requires Wf(w) && RootOf(w).backing.Slice?
    ensures RootAllocate(RootOf(w), n).1.Ok? <==> Used(w) + n <= |Buffer(w)|
  {
  }

  /** `allocate(size)` through a stack hands out `size` fresh bytes at the
      old end and appends them; it fails, changing nothing, exactly when the
      root cannot grow, which on a fixed buffer is exactly when they do not
      fit. */
  lemma {:induction false} AllocateAppends(w: Writer, size: nat)
    requires Stack(w)
    ensures var s := Allocate(w, size);
            (RootOf(w).backing.Slice? ==> (s.result.Ok? <==> Used(w) + size <= |Buffer(w)|)) &&
            (s.result.Err? ==> s.writer == w) &&
            (s.result.Ok? ==> s.result.value == Used(w) && Used(s.writer) == Used(w) + size &&
                              Appended(w, s.writer, Buffer(s.writer)[Used(w)..Used(w) + size]))
  {
    AllocateAppended(w, size);
    if RootOf(w).backing.Slice? {
      SliceAllocate(w, size);
    }
  }

  /** A fresh cursor over a fixed buffer of `len` bytes at address `addr`. */
  function SliceCursor(addr: nat, buf: seq<byte>): (w: Writer)
    requires |buf| <= ISIZE_MAX
    ensures Stack(w) && Used(w) == 0 && Headers(w) == [] && RootOf(w).backing.Slice?
  {
    Cursor(Root(Slice, addr, buf, 0))
  }
}
