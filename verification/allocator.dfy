/** The `SpaceAllocator` implementations (atom/src/space/allocator.rs,
    cursor.rs, vec.rs, atom_writer.rs, terminated.rs).

    Rust stacks allocators by borrowing: an `AtomWriter` holds `&mut` to its
    parent, a `Terminated` owns its inner writer, and at the bottom sits a
    cursor over a byte buffer. The model is that stack as one value, a
    `Writer`, whose innermost node is the root cursor holding the buffer. An
    operation returns the whole new stack together with its result, because the
    Rust code can change the buffer or a header before a later `?` returns an
    error. */
module Allocator {
  import opened Bytes
  import opened Wrappers
  import opened Errors
  import opened Util
  import opened Header

  /** What the root cursor writes into. */
  datatype Backing =
    | Slice            // `SpaceCursor`: a caller's fixed `&mut [u8]`
    | Vec(item: Layout) // `AlignedVecCursor<T>`: an `AlignedVec<T>` that grows on demand

  /** The root cursor: the buffer, the address of its first byte and the number
      of bytes allocated from its start (`index` / `allocated_length`). */
  datatype Root = Root(backing: Backing, addr: nat, buf: seq<byte>, used: nat)

  datatype Writer =
    | Cursor(root: Root)
    | AtomWriter(parent: Writer, headerIndex: nat)
    | Terminated(inner: Writer, terminator: byte, wroteTerminator: bool)

  /** The state of a stack after an operation, and what the operation returned. */
  datatype Step<+T> = Step(writer: Writer, result: Result<T, AtomWriteError>)

  /** The number of nodes in the stack. */
  function Depth(w: Writer): nat {
    match w
    case Cursor(_) => 1
    case AtomWriter(p, _) => Depth(p) + 1
    case Terminated(i, _, _) => Depth(i) + 1
  }

  function RootOf(w: Writer): Root {
    match w
    case Cursor(r) => r
    case AtomWriter(p, _) => RootOf(p)
    case Terminated(i, _, _) => RootOf(i)
  }

  function Buffer(w: Writer): seq<byte> {
    RootOf(w).buf
  }

  function Used(w: Writer): nat {
    RootOf(w).used
  }

  function Addr(w: Writer): nat {
    RootOf(w).addr
  }

  /** The root cursor of `w` replaced by `r`; every other node is kept. */
  function WithRoot(w: Writer, r: Root): (w': Writer)
    ensures RootOf(w') == r
    ensures Depth(w') == Depth(w)
  {
    match w
    case Cursor(_) => Cursor(r)
    case AtomWriter(p, h) => AtomWriter(WithRoot(p, r), h)
    case Terminated(i, t, b) => Terminated(WithRoot(i, r), t, b)
  }

  function WithBuffer(w: Writer, buf: seq<byte>): Writer {
    WithRoot(w, RootOf(w).(buf := buf))
  }

  /** What Rust's types guarantee of every root cursor: the allocated bytes lie
      inside the buffer, no buffer is longer than `isize::MAX` bytes, and an
      `AlignedVec<T>` has a sized, non-zero `T` so that it can grow. */
  predicate Wf(w: Writer) {
    var r := RootOf(w);
    r.used <= |r.buf| <= ISIZE_MAX &&
    (r.backing.Vec? ==> r.backing.item.size > 0)
  }

  /** `allocated_bytes()`: the allocated prefix of the buffer. Every node of the
      stack delegates to its root. */
  function AllocatedBytes(w: Writer): (b: seq<byte>)
    requires Wf(w)
    ensures |b| == Used(w)
    ensures b == Buffer(w)[..Used(w)]
  {
    Buffer(w)[..Used(w)]
  }

  /** `remaining_bytes()`: the unallocated rest of the buffer, with the address
      of its first byte. */
  function RemainingBytes(w: Writer): (s: (nat, seq<byte>))
    requires Wf(w)
    ensures s.0 == Addr(w) + Used(w)
    ensures AllocatedBytes(w) + s.1 == Buffer(w)
  {
    (Addr(w) + Used(w), Buffer(w)[Used(w)..])
  }

  /** The byte length to which `AlignedVec<T>::reallocate_bytes_mut` grows a
      buffer that has to hold `end` bytes: whole `T` items, zero-filled. */
  function GrownLength(item: Layout, end: nat): (n: nat)
    requires item.size > 0
    ensures n >= end
    ensures n < end + item.size
  {
    var k := ByteIndexToValueIndex(item, end);
    if k == 0 then 0
    else
      assert (k - 1) * item.size == k * item.size - item.size;
      k * item.size
  }

  /** `allocate_and_split` of the root cursor: the allocation starts at the
      current end of the allocated bytes. A slice cursor fails when the rest of
      the buffer is too short; a vec cursor panics when the end overflows
      `usize` and otherwise grows its buffer, which panics past `isize::MAX`
      bytes (`Vec::resize`). */
  function RootAllocate(r: Root, size: nat): (s: (Root, Result<nat, AtomWriteError>))
    requires r.used <= |r.buf| <= ISIZE_MAX
    requires r.backing.Vec? ==> r.backing.item.size > 0
    ensures s.0.backing == r.backing && s.0.addr == r.addr
    ensures s.0.used <= |s.0.buf| <= ISIZE_MAX
    ensures s.1.Ok? ==> s.1.value == r.used && s.0.used == r.used + size
    ensures r.buf <= s.0.buf
    ensures s.1.Err? ==> s.0 == r
    ensures r.backing.Slice? ==> (s.1.Ok? <==> r.used + size <= |r.buf|)
    ensures r.backing.Slice? && s.1.Ok? ==> s.0.buf == r.buf
  {
    match r.backing
    case Slice =>
      if size > |r.buf| - r.used then (r, Err(OutOfSpace(r.used, |r.buf|, size)))
      else (r.(used := r.used + size), Ok(r.used))
    case Vec(item) =>
      var end := r.used + size;
      if end > USIZE_MAX then (r, Err(Panic))
      else if end <= |r.buf| then (r.(used := end), Ok(r.used))
      else
        var n := GrownLength(item, end);
        if n > ISIZE_MAX then (r, Err(Panic))
        else (r.(buf := r.buf + Zeros(n - |r.buf|), used := end), Ok(r.used))
  }

  /** `rewind` of the root cursor: gives back the last `n` allocated bytes. */
  function RootRewind(r: Root, n: nat): (s: (Root, Result<(), AtomWriteError>))
    ensures s.1.Ok? <==> n <= r.used
    ensures s.1.Ok? ==> s.0 == r.(used := r.used - n)
    ensures s.1.Err? ==> s.0 == r && s.1.error == RewindError(r.used, n)
  {
    if r.used < n then (r, Err(RewindError(r.used, n)))
    else (r.(used := r.used - n), Ok(()))
  }

  /** Where an `AtomWriter` finds its header: `allocated_bytes()[index..]` as an
      `AtomSpace`, then its first `AtomHeader`. Fails (with the error the Rust
      code raises) when the index is past the allocated bytes, the address is
      not 8-aligned or fewer than 8 bytes follow. */
  function LocateHeader(w: Writer, index: nat): (r: Result<nat, AtomWriteError>)
    requires Wf(w)
    ensures r.Ok? <==> index + HEADER_SIZE <= Used(w) && (Addr(w) + index) % 8 == 0
    ensures r.Ok? ==> r.value == index
  {
    if index > Used(w) then Err(Panic)
    else if (Addr(w) + index) % 8 != 0 then
      Err(WriteAlignment(UnalignedBuffer(Addr(w) + index)))
    else if Used(w) - index < HEADER_SIZE then Err(Panic)
    else Ok(index)
  }

  /** Adds `n` to the body size of the header at offset `h`, truncated to u32
      as `set_size_of_body` does. */
  function GrowBody(buf: seq<byte>, h: nat, n: nat): (r: seq<byte>)
    requires h + HEADER_SIZE <= |buf|
    ensures |r| == |buf|
  {
    SetU32(buf, h, (GetU32(buf, h) + n) % U32_LIMIT)
  }

  /** `GrowBody` with the old and the new size named. */
  lemma {:induction false} GrowBodyIs(b: seq<byte>, h: nat, n: nat, x: u32, y: u32)
    requires h + HEADER_SIZE <= |b| && GetU32(b, h) == x && y == (x + n) % U32_LIMIT
    ensures GrowBody(b, h, n) == SetU32(b, h, y)
  {
  }

  /** `allocate_and_split(size)`: allocates `size` bytes at the end of the
      allocated bytes and returns the offset of their first byte.

      - A cursor allocates from its buffer.
      - An `AtomWriter` lets its parent allocate, then adds `size` to the body
        size of the header it tracks, truncated to u32 by `set_size_of_body`.
        An unaligned header is an error reported after the parent's allocation
        stays done.
      - A `Terminated` first gives back the terminator byte it wrote last
        time, allocates one more byte than asked and stores the terminator in
        it. */
  function AllocateAndSplit(w: Writer, size: nat): (s: Step<nat>)
    requires Wf(w)
    ensures Wf(s.writer)
    ensures Addr(s.writer) == Addr(w)
    ensures Depth(s.writer) == Depth(w)
    ensures s.result.Ok? ==> s.result.value + size <= Used(s.writer)
    decreases Depth(w)
  {
    match w
    case Cursor(r) =>
      var (r', res) := RootAllocate(r, size);
      Step(Cursor(r'), res)
    case AtomWriter(parent, h) =>
      TrackAllocation(AllocateAndSplit(parent, size), h, size)
    case Terminated(inner, t, wrote) =>
      var s1 := if wrote then Rewind(inner, 1) else Step(inner, Ok(()));
      if s1.result.Err? then Step(Terminated(s1.writer, t, wrote), Err(s1.result.error))
      else TerminateAllocation(AllocateAndSplit(s1.writer, size + 1), t, wrote, size)
  }

  /** The `AtomWriter` half of `allocate_and_split`, given what the parent's
      allocation left: `alloc.previous[h..]` only sees the bytes before the new
      allocation, must start 8-aligned and hold a whole header, whose body size
      then grows by `size`. */
  function TrackAllocation(s: Step<nat>, h: nat, size: nat): (s': Step<nat>)
    requires Wf(s.writer)
    requires s.result.Ok? ==> s.result.value + size <= Used(s.writer)
    ensures s'.writer.AtomWriter? && s'.writer.headerIndex == h
    ensures Wf(s'.writer.parent)
    ensures RootOf(s'.writer.parent).(buf := Buffer(s.writer)) == RootOf(s.writer)
    ensures Depth(s'.writer.parent) == Depth(s.writer)
    ensures s'.result == s.result || s'.result.Err?
    ensures s'.result.Ok? <==>
              s.result.Ok? && h + HEADER_SIZE <= s.result.value &&
              (Addr(s.writer) + h) % 8 == 0
  {
    if s.result.Err? then Step(AtomWriter(s.writer, h), s.result)
    else
      var start := s.result.value;
      if h > start then Step(AtomWriter(s.writer, h), Err(Panic))
      else if (Addr(s.writer) + h) % 8 != 0 then
        Step(AtomWriter(s.writer, h), Err(WriteAlignment(UnalignedBuffer(Addr(s.writer) + h))))
      else if start - h < HEADER_SIZE then Step(AtomWriter(s.writer, h), Err(Panic))
      else Step(AtomWriter(WithBuffer(s.writer, GrowBody(Buffer(s.writer), h, size)), h), Ok(start))
  }

  /** When the header is where `write_new` put it, the parent's successful
      allocation goes through and grows the header's body size. */
  lemma {:induction false} TrackAllocationOk(s: Step<nat>, h: nat, size: nat)
    requires Wf(s.writer) && s.result.Ok? && s.result.value + size <= Used(s.writer)
    requires h + HEADER_SIZE <= s.result.value && (Addr(s.writer) + h) % 8 == 0
    ensures TrackAllocation(s, h, size)
            == Step(AtomWriter(WithBuffer(s.writer, GrowBody(Buffer(s.writer), h, size)), h), s.result)
  {
  }

  /** The `Terminated` half of `allocate_and_split`, given what the inner
      allocation of `size + 1` bytes left: the last byte receives the
      terminator and the caller gets the first `size`. */
  function TerminateAllocation(s: Step<nat>, t: byte, wrote: bool, size: nat): (s': Step<nat>)
    requires Wf(s.writer)
    requires s.result.Ok? ==> s.result.value + size + 1 <= Used(s.writer)
    ensures s'.writer.Terminated? && s'.writer.terminator == t
    ensures s'.writer.wroteTerminator == (wrote || s.result.Ok?)
    ensures Wf(s'.writer.inner)
    ensures RootOf(s'.writer.inner).(buf := Buffer(s.writer)) == RootOf(s.writer)
    ensures Depth(s'.writer.inner) == Depth(s.writer)
    ensures s'.result == s.result
    ensures s.result.Ok? ==> Buffer(s'.writer) == Buffer(s.writer)[s.result.value + size := t]
  {
    if s.result.Err? then Step(Terminated(s.writer, t, wrote), s.result)
    else
      var start := s.result.value;
      Step(Terminated(WithBuffer(s.writer, Buffer(s.writer)[start + size := t]), t, true), Ok(start))
  }

  /** `rewind(n)`: gives back the last `n` allocated bytes. The root fails when
      fewer are allocated; an `AtomWriter` then subtracts `n` from its header's
      body size, which panics if the header is not found or is smaller than
      `n`. */
  function Rewind(w: Writer, n: nat): (s: Step<()>)
    requires Wf(w)
    ensures Wf(s.writer)
    ensures Addr(s.writer) == Addr(w)
    ensures |Buffer(s.writer)| == |Buffer(w)|
    ensures Depth(s.writer) == Depth(w)
    ensures s.result.Ok? ==> Used(s.writer) + n == Used(w)
    decreases w
  {
    match w
    case Cursor(r) =>
      var (r', res) := RootRewind(r, n);
      Step(Cursor(r'), res)
    case AtomWriter(parent, h) =>
      var s := Rewind(parent, n);
      if s.result.Err? then Step(AtomWriter(s.writer, h), s.result)
      else
        if LocateHeader(s.writer, h).Err? then Step(AtomWriter(s.writer, h), Err(Panic))
        else
          var buf := Buffer(s.writer);
          var body := GetU32(buf, h);
          if body < n then Step(AtomWriter(s.writer, h), Err(Panic))
          else Step(AtomWriter(WithBuffer(s.writer, SetU32(buf, h, body - n)), h), Ok(()))
    case Terminated(inner, t, wrote) =>
      var s := Rewind(inner, n);
      Step(Terminated(s.writer, t, wrote), s.result)
  }

  /** `AtomWriter::atom_header`: a copy of the tracked header, or a panic when
      it cannot be found. */
  function AtomHeaderOf(w: Writer): (r: Result<AtomHeader, AtomWriteError>)
    requires Wf(w) && w.AtomWriter?
    ensures r.Ok? <==> LocateHeader(w.parent, w.headerIndex).Ok?
    ensures r.Ok? ==> r.value == HeaderAt(Buffer(w), w.headerIndex)
  {
    match LocateHeader(w.parent, w.headerIndex)
    case Err(_) => Err(Panic)
    case Ok(h) => Ok(HeaderAt(Buffer(w), h))
  }

  // ---------------------------------------------------------------------
  // Stacks of atom writers over a cursor

  /** The header offsets tracked by the `AtomWriter`s of a stack, the one
      nearest the root first. */
  function Headers(w: Writer): seq<nat> {
    match w
    case Cursor(_) => []
    case AtomWriter(p, h) => Headers(p) + [h]
    case Terminated(i, _, _) => Headers(i)
  }

  /** A stack built from a cursor by `AtomWriter::write_new` alone. */
  predicate FrameChain(w: Writer) {
    match w
    case Cursor(_) => true
    case AtomWriter(p, _) => FrameChain(p)
    case Terminated(_, _, _) => false
  }

  /** What `write_new` establishes for every `AtomWriter` of a stack: its header
      is 8-aligned, lies inside the allocated bytes, and follows every header of
      the writers beneath it (a nested atom lives in its parent's body). */
  predicate HeadersFit(w: Writer) {
    match w
    case Cursor(_) => true
    case AtomWriter(p, h) =>
      HeadersFit(p) &&
      (Addr(p) + h) % 8 == 0 &&
      h + HEADER_SIZE <= Used(p) &&
      forall k :: k in Headers(p) ==> k + HEADER_SIZE <= h
    case Terminated(i, _, _) => HeadersFit(i)
  }

  /** Header offsets in increasing order, eight bytes apart at least. */
  predicate Ascending(hs: seq<nat>) {
    forall a, b :: 0 <= a < b < |hs| ==> hs[a] + HEADER_SIZE <= hs[b]
  }

  /** The body size of every header at the offsets `hs` increased by `n`,
      truncated to u32, one header after another. */
  function AddToSizes(buf: seq<byte>, hs: seq<nat>, n: nat): (r: seq<byte>)
    ensures |r| == |buf|
    decreases |hs|
  {
    if |hs| == 0 then buf
    else
      var b := AddToSizes(buf, hs[..|hs| - 1], n);
      var h := hs[|hs| - 1];
      if h + HEADER_SIZE > |b| then b else GrowBody(b, h, n)
  }

  lemma {:induction false} WithRootTwice(w: Writer, r1: Root, r2: Root)
    ensures WithRoot(WithRoot(w, r1), r2) == WithRoot(w, r2)
  {
    match w
    case Cursor(_) =>
    case AtomWriter(p, _) => WithRootTwice(p, r1, r2);
    case Terminated(i, _, _) => WithRootTwice(i, r1, r2);
  }

  lemma {:induction false} WithRootShape(w: Writer, r: Root)
    ensures Headers(WithRoot(w, r)) == Headers(w)
    ensures FrameChain(WithRoot(w, r)) == FrameChain(w)
  {
    match w
    case Cursor(_) =>
    case AtomWriter(p, _) => WithRootShape(p, r);
    case Terminated(i, _, _) => WithRootShape(i, r);
  }

  /** Every tracked header lies inside the allocated bytes. */
  lemma {:induction false} HeadersBelow(w: Writer)
    requires HeadersFit(w)
    ensures forall k :: k in Headers(w) ==> k + HEADER_SIZE <= Used(w)
  {
    match w
    case Cursor(_) =>
    case AtomWriter(p, h) => HeadersBelow(p);
    case Terminated(i, _, _) => HeadersBelow(i);
  }

  /** The tracked headers are in increasing order and do not overlap. */
  lemma {:induction false} HeadersAscending(w: Writer)
    requires HeadersFit(w)
    ensures Ascending(Headers(w))
  {
    match w
    case Cursor(_) =>
    case AtomWriter(p, h) =>
      HeadersAscending(p);
      var hs := Headers(w);
      forall a, b | 0 <= a < b < |hs|
        ensures hs[a] + HEADER_SIZE <= hs[b]
      {
        if b == |hs| - 1 {
          assert hs[a] in Headers(p);
        } else {
          assert hs[a] == Headers(p)[a] && hs[b] == Headers(p)[b];
        }
      }
    case Terminated(i, _, _) => HeadersAscending(i);
  }

  /** The fit of the headers survives a new root that keeps the address and
      allocates at least as much. */
  lemma {:induction false} HeadersFitGrow(w: Writer, r: Root)
    requires HeadersFit(w)
    requires r.addr == Addr(w) && r.used >= Used(w)
    ensures HeadersFit(WithRoot(w, r))
  {
    match w
    case Cursor(_) =>
    case AtomWriter(p, h) =>
      HeadersFitGrow(p, r);
      WithRootShape(p, r);
    case Terminated(i, _, _) => HeadersFitGrow(i, r);
  }

  /** `allocate_and_split` through a stack of atom writers: the root allocates
      exactly as it would alone, and on success every tracked header's body
      size grows by the allocated size while nothing else in the stack
      changes; on failure the stack is left as it was. */
  lemma {:induction false} AllocateInFrames(w: Writer, n: nat)
    requires Wf(w) && FrameChain(w) && HeadersFit(w)
    ensures AllocateAndSplit(w, n).result == RootAllocate(RootOf(w), n).1
    ensures RootAllocate(RootOf(w), n).1.Err? ==> AllocateAndSplit(w, n).writer == w
    ensures RootAllocate(RootOf(w), n).1.Ok? ==>
              var r' := RootAllocate(RootOf(w), n).0;
              AllocateAndSplit(w, n).writer == WithRoot(w, r'.(buf := AddToSizes(r'.buf, Headers(w), n)))
  {
    match w
    case Cursor(r) =>
    case AtomWriter(p, h) =>
      AllocateInFrames(p, n);
      if RootAllocate(RootOf(p), n).1.Ok? {
        AllocateInFramesStep(p, h, n);
      }
  }

  /** The result part of `AllocateInFrames`: through atom writers the root
      decides, and the allocation starts at the end of the allocated bytes. */
  lemma {:induction false} AllocateInFramesResult(w: Writer, n: nat)
    requires Wf(w) && FrameChain(w) && HeadersFit(w)
    ensures AllocateAndSplit(w, n).result == RootAllocate(RootOf(w), n).1
    ensures AllocateAndSplit(w, n).result.Ok? ==> AllocateAndSplit(w, n).result.value == Used(w)
  {
    AllocateInFrames(w, n);
  }

  /** The inductive step of `AllocateInFrames`: one more atom writer on top of
      a stack for which the property holds. */
  lemma {:induction false} AllocateInFramesStep(p: Writer, h: nat, n: nat)
    requires Wf(p) && HeadersFit(AtomWriter(p, h))
    requires RootAllocate(RootOf(p), n).1.Ok?
    requires var r' := RootAllocate(RootOf(p), n).0;
             AllocateAndSplit(p, n)
             == Step(WithRoot(p, r'.(buf := AddToSizes(r'.buf, Headers(p), n))), Ok(Used(p)))
    ensures var r' := RootAllocate(RootOf(p), n).0;
            AllocateAndSplit(AtomWriter(p, h), n)
            == Step(WithRoot(AtomWriter(p, h), r'.(buf := AddToSizes(r'.buf, Headers(AtomWriter(p, h)), n))),
                    Ok(Used(p)))
  {
    var r' := RootAllocate(RootOf(p), n).0;
    TrackGrownRoot(p, h, n, r');
  }

  /** `TrackAllocation` of an atom writer's header over a parent whose root
      allocated `n` bytes and grew the parent's headers: the header grows
      too. */
  lemma {:induction false} TrackGrownRoot(p: Writer, h: nat, n: nat, r': Root)
    requires Wf(p) && HeadersFit(AtomWriter(p, h))
    requires r'.used == Used(p) + n && r'.used <= |r'.buf| <= ISIZE_MAX && r'.addr == Addr(p)
    requires r'.backing == RootOf(p).backing
    ensures var rp := r'.(buf := AddToSizes(r'.buf, Headers(p), n));
            var w := AtomWriter(p, h);
            TrackAllocation(Step(WithRoot(p, rp), Ok(Used(p))), h, n)
            == Step(WithRoot(w, r'.(buf := AddToSizes(r'.buf, Headers(w), n))), Ok(Used(p)))
  {
    var w := AtomWriter(p, h);
    var rp := r'.(buf := AddToSizes(r'.buf, Headers(p), n));
    var rw := rp.(buf := GrowBody(rp.buf, h, n));
    var sp := Step(WithRoot(p, rp), Ok(Used(p)));
    assert Addr(sp.writer) == Addr(p) && Buffer(sp.writer) == rp.buf;
    TrackAllocationOk(sp, h, n);
    assert WithBuffer(sp.writer, GrowBody(rp.buf, h, n)) == WithRoot(p, rw) by {
      WithRootTwice(p, rp, rw);
    }
    assert AddToSizes(r'.buf, Headers(w), n) == rw.buf by {
      var hs := Headers(w);
      assert hs[..|hs| - 1] == Headers(p);
    }
  }

  /** Dropping the last offset keeps the order; all others precede it. */
  lemma {:induction false} AscendingPrefix(hs: seq<nat>, init: seq<nat>)
    requires |hs| > 0 && Ascending(hs) && init == hs[..|hs| - 1]
    ensures Ascending(init)
    ensures forall k :: 0 <= k < |init| ==> init[k] + HEADER_SIZE <= hs[|hs| - 1]
  {
    forall a, c | 0 <= a < c < |init|
      ensures init[a] + HEADER_SIZE <= init[c]
    {
      assert init[a] == hs[a] && init[c] == hs[c];
    }
  }

  /** After `AddToSizes` over non-overlapping headers, each header's body size
      is its old size plus `n`, truncated to u32. */
  lemma {:induction false} AddToSizesEffect(buf: seq<byte>, hs: seq<nat>, n: nat, i: nat)
    requires Ascending(hs)
    requires forall k :: 0 <= k < |hs| ==> hs[k] + HEADER_SIZE <= |buf|
    requires i < |hs|
    ensures GetU32(AddToSizes(buf, hs, n), hs[i]) == (GetU32(buf, hs[i]) + n) % U32_LIMIT
    decreases |hs|
  {
    var init := hs[..|hs| - 1];
    AscendingPrefix(hs, init);
    if i < |hs| - 1 {
      AddToSizesEarlier(buf, hs, n, i, init);
      AddToSizesEffect(buf, init, n, i);

    } else {
      AddToSizesLast(buf, hs, n, init, i);
    }
  }

  /** Growing the last header leaves the size fields of the earlier ones
      alone. */
  lemma {:induction false} AddToSizesEarlier(buf: seq<byte>, hs: seq<nat>, n: nat, i: nat, init: seq<nat>)
    requires Ascending(hs)
    requires forall k :: 0 <= k < |hs| ==> hs[k] + HEADER_SIZE <= |buf|
    requires i < |hs| - 1 && init == hs[..|hs| - 1]
    ensures init[i] == hs[i]
    ensures GetU32(AddToSizes(buf, hs, n), hs[i]) == GetU32(AddToSizes(buf, init, n), init[i])
  {
    var b := AddToSizes(buf, init, n);
    var h := hs[|hs| - 1];
    var v := (GetU32(b, h) + n) % U32_LIMIT;
    assert AddToSizes(buf, hs, n) == GrowBody(b, h, n);
    GrowBodyIs(b, h, n, GetU32(b, h), v);
    GetSetU32Other(b, h, v, hs[i]);
  }

  /** The last header's size field grows by `n`: the earlier headers lie
      before it. */
  lemma {:induction false} AddToSizesLast(buf: seq<byte>, hs: seq<nat>, n: nat, init: seq<nat>, i: nat)
    requires Ascending(hs) && i == |hs| - 1
    requires forall k :: 0 <= k < |hs| ==> hs[k] + HEADER_SIZE <= |buf|
    requires init == hs[..i]
    ensures GetU32(AddToSizes(buf, hs, n), hs[i]) == (GetU32(buf, hs[i]) + n) % U32_LIMIT
  {
    var b := AddToSizes(buf, init, n);
    var h := hs[i];
    var x := GetU32(buf, h);
    var v := (x + n) % U32_LIMIT;
    AscendingPrefix(hs, init);
    AddToSizesOther(buf, init, n, h, h + 4);
    assert GetU32(b, h) == x;
    assert AddToSizes(buf, hs, n) == GrowBody(b, h, n);
    GrowBodyIs(b, h, n, x, v);
    GetSetU32(b, h, v);
  }

  /** `AddToSizes` leaves the byte range `[lo, hi)` alone when it overlaps no
      size field of the headers. */
  lemma {:induction false} AddToSizesOther(buf: seq<byte>, hs: seq<nat>, n: nat, lo: nat, hi: nat)
    requires lo <= hi <= |buf|
    requires forall k :: 0 <= k < |hs| ==> hs[k] + 4 <= lo || hi <= hs[k]
    ensures AddToSizes(buf, hs, n)[lo..hi] == buf[lo..hi]
    decreases |hs|
  {
    if |hs| > 0 {
      var init := hs[..|hs| - 1];
      var b := AddToSizes(buf, init, n);
      var h := hs[|hs| - 1];
      AddToSizesOther(buf, init, n, lo, hi);
      if h + HEADER_SIZE <= |b| {
        var r := SetU32(b, h, (GetU32(b, h) + n) % U32_LIMIT);
        GetSetU32(b, h, (GetU32(b, h) + n) % U32_LIMIT);
        assert r[lo..hi] == b[lo..hi];
      }
    }
  }

  /** `w'` is `w` after `k` more bytes were allocated through it: the same
      atom writers over the same buffer address, `k` more bytes allocated, and
      every tracked header's body size `k` larger (truncated to u32). */
  predicate FramesGrown(w: Writer, w': Writer, k: nat) {
    Wf(w') && FrameChain(w') && HeadersFit(w') &&
    Headers(w') == Headers(w) && Addr(w') == Addr(w) &&
    Used(w') == Used(w) + k && |Buffer(w)| <= |Buffer(w')| &&
    SizesGrown(Buffer(w), Buffer(w'), Headers(w), k)
  }

  /** Every header of `hs` that fits in `buf` has its body size `k` larger
      (truncated to u32) in `buf'`. */
  predicate SizesGrown(buf: seq<byte>, buf': seq<byte>, hs: seq<nat>, k: nat)
    requires |buf| <= |buf'|
  {
    forall i :: 0 <= i < |hs| && hs[i] + HEADER_SIZE <= |buf| ==>
      GetU32(buf', hs[i]) == (GetU32(buf, hs[i]) + k) % U32_LIMIT
  }

  /** Two bytes strings that agree on a prefix agree on every u32 inside it. */
  lemma {:induction false} GetU32Prefix(a: seq<byte>, b: seq<byte>, n: nat, at: nat)
    requires n <= |a| && n <= |b| && a[..n] == b[..n] && at + 4 <= n
    ensures GetU32(a, at) == GetU32(b, at)
  {
    assert a[at..at + 4] == a[..n][at..at + 4];
    assert b[at..at + 4] == b[..n][at..at + 4];
  }

  /** A successful allocation through a stack of atom writers grows every
      tracked header by the allocated size and keeps the stack writable. */
  lemma {:induction false} AllocateGrowsFrames(w: Writer, n: nat)
    requires Wf(w) && FrameChain(w) && HeadersFit(w)
    requires AllocateAndSplit(w, n).result.Ok?
    ensures FramesGrown(w, AllocateAndSplit(w, n).writer, n)
  {
    AllocateInFrames(w, n);
    var root := RootAllocate(RootOf(w), n).0;
    GrownRoot(w, root, n);
  }

  /** `w` over a root that allocated `n` more bytes and whose headers grew by
      `n` is `w` grown by `n`. */
  lemma {:induction false} GrownRoot(w: Writer, root: Root, n: nat)
    requires Wf(w) && FrameChain(w) && HeadersFit(w)
    requires root.backing == RootOf(w).backing && root.addr == Addr(w)
    requires root.used == Used(w) + n && root.used <= |root.buf| <= ISIZE_MAX
    requires Buffer(w) <= root.buf
    ensures FramesGrown(w, WithRoot(w, root.(buf := AddToSizes(root.buf, Headers(w), n))), n)
  {
    var r2 := root.(buf := AddToSizes(root.buf, Headers(w), n));
    var w' := WithRoot(w, r2);
    WithRootShape(w, r2);
    HeadersFitGrow(w, r2);
    var hs := Headers(w);
    assert RootOf(w') == r2;
    assert Wf(w');
    assert FrameChain(w') && HeadersFit(w');
    assert Headers(w') == hs && Addr(w') == Addr(w);
    assert Used(w') == Used(w) + n && |Buffer(w)| <= |Buffer(w')|;
    forall i | 0 <= i < |hs| && hs[i] + HEADER_SIZE <= |Buffer(w)|
      ensures GetU32(r2.buf, hs[i]) == (GetU32(Buffer(w), hs[i]) + n) % U32_LIMIT
    {
      GrownHeader(w, root, n, i);
    }
    assert SizesGrown(Buffer(w), r2.buf, hs, n);
  }

  /** One header of `AllocateGrowsFrames`. */
  lemma {:induction false} GrownHeader(w: Writer, root: Root, n: nat, i: nat)
    requires HeadersFit(w) && Buffer(w) <= root.buf && Used(w) <= |Buffer(w)|
    requires i < |Headers(w)| && Headers(w)[i] + HEADER_SIZE <= |Buffer(w)|
    ensures GetU32(AddToSizes(root.buf, Headers(w), n), Headers(w)[i])
            == (GetU32(Buffer(w), Headers(w)[i]) + n) % U32_LIMIT
  {
    var hs := Headers(w);
    HeadersWithin(w, |root.buf|);
    HeadersAscending(w);
    AddToSizesEffect(root.buf, hs, n, i);
    GetU32Prefix(root.buf, Buffer(w), |Buffer(w)|, hs[i]);
  }

  /** Every tracked header fits in a buffer that covers the allocated bytes. */
  lemma {:induction false} HeadersWithin(w: Writer, len: nat)
    requires HeadersFit(w) && Used(w) <= len
    ensures forall k :: 0 <= k < |Headers(w)| ==> Headers(w)[k] + HEADER_SIZE <= len
  {
    HeadersBelow(w);
    var hs := Headers(w);
    forall k | 0 <= k < |hs|
      ensures hs[k] + HEADER_SIZE <= len
    {
      assert hs[k] in hs;
    }
  }

  /** Growing twice is growing by the sum. */
  lemma {:induction false} FramesGrownTrans(w1: Writer, w2: Writer, w3: Writer, k1: nat, k2: nat)
    requires HeadersFit(w1) && FramesGrown(w1, w2, k1) && FramesGrown(w2, w3, k2)
    ensures FramesGrown(w1, w3, k1 + k2)
  {
    var hs := Headers(w1);
    HeadersBelow(w1);
    forall i | 0 <= i < |hs| && hs[i] + HEADER_SIZE <= |Buffer(w1)|
      ensures GetU32(Buffer(w3), hs[i]) == (GetU32(Buffer(w1), hs[i]) + k1 + k2) % U32_LIMIT
    {
      assert hs[i] + HEADER_SIZE <= |Buffer(w2)|;
      var x := GetU32(Buffer(w1), hs[i]);
      ModAddTwice(x, k1, k2, U32_LIMIT);
    }
    assert SizesGrown(Buffer(w1), Buffer(w3), hs, k1 + k2);
  }

  lemma {:induction false} ModAddTwice(x: nat, a: nat, b: nat, m: nat)
    requires m > 0
    ensures ((x + a) % m + b) % m == (x + a + b) % m
  {
    var q := (x + a) / m;
    var r := (x + a) % m;
    assert x + a + b == (r + b) + m * q;
    DivModAddMultiple(r + b, m, q);
  }

  lemma {:induction false} DivModAddMultiple(y: nat, m: nat, q: nat)
    requires m > 0
    ensures (y + m * q) % m == y % m
  {
    var z := y % m;
    assert y == m * (y / m) + z;
    assert y + m * q == m * (y / m + q) + z;
    DivModUnique(y + m * q, m, y / m + q, z);
  }
}
