/** `Terminated` (atom/src/space/terminated.rs) straight over a root cursor:
    every allocation ends with the terminator byte, and the next allocation
    first gives that byte back so that the data continues where it stopped.

    As written, a write that fails after the terminator was given back keeps
    the flag saying a terminator was written, so the next write gives back
    one data byte instead. The corrected writer leaves everything as it was
    when a write fails. */
module TerminatedWrites {
  import opened Bytes
  import opened Wrappers
  import opened Errors
  import opened Allocator
  import opened SpaceWriter
  import opened Appending

  /** A terminated writer over a fixed buffer. */
  predicate OverSlice(w: Writer) {
    w.Terminated? && w.inner.Cursor? && Wf(w) && RootOf(w).backing.Slice?
  }

  /** Where the next allocation of `w` starts: before the terminator when
      the flag says one was written. */
  function Base(w: Writer): nat
    requires OverSlice(w)
  {
    if w.wroteTerminator && Used(w) >= 1 then Used(w) - 1 else Used(w)
  }

  /** `w` holds `data`: its allocated bytes are `data`, followed by the
      terminator once one was written. */
  predicate Holds(w: Writer, data: seq<byte>) {
    OverSlice(w) &&
    AllocatedBytes(w) == data + (if w.wroteTerminator then [w.terminator] else [])
  }

  /** `write_bytes` through a terminated writer, as written: it succeeds
      exactly when the flag's rewind succeeds and the bytes and one more fit
      after `Base`; the allocated bytes are then what lay before `Base`, the
      bytes and the terminator. A failure leaves the cursor at `Base`, with
      the flag as it was. */
  lemma {:induction false} TerminatedWrite(w: Writer, bytes: seq<byte>)
    requires OverSlice(w)
    ensures var s := WriteBytes(w, bytes);
            var b := Base(w);
            (s.result.Ok? <==> (w.wroteTerminator ==> Used(w) >= 1) && b + |bytes| + 1 <= |Buffer(w)|) &&
            (s.result.Ok? ==>
               s.result.value == b && OverSlice(s.writer) && s.writer.wroteTerminator &&
               s.writer.terminator == w.terminator && |Buffer(s.writer)| == |Buffer(w)| &&
               AllocatedBytes(s.writer) == Buffer(w)[..b] + bytes + [w.terminator]) &&
            (s.result.Err? ==> s.writer == w.(inner := Cursor(RootOf(w).(used := b))))
  {
    var r := RootOf(w);
    var b := Base(w);
    var t := w.terminator;
    TerminatedAllocate(w, |bytes|);
    var a := AllocateAndSplit(w, |bytes|);
    if a.result.Ok? {
      var buf := r.buf[b + |bytes| := t];
      var buf' := Overwrite(buf, b, bytes);
      var w1 := a.writer;
      assert Allocate(w, |bytes|) == a && Buffer(w1) == buf;
      var r1 := r.(buf := buf, used := b + |bytes| + 1);
      var r2 := r1.(buf := buf');
      assert w1 == Terminated(Cursor(r1), t, true);
      assert WithRoot(Cursor(r1), r2) == Cursor(r2);
      assert WithBuffer(w1, buf') == Terminated(Cursor(r2), t, true);
      WrittenThenTerminated(r.buf, b, bytes, t);
    }
  }

  /** `allocate_and_split` of a terminated writer, as written: the
      allocation starts at `Base`, one byte longer than asked, and that byte
      receives the terminator. */
  lemma {:induction false} TerminatedAllocate(w: Writer, size: nat)
    requires OverSlice(w)
    ensures var a := AllocateAndSplit(w, size);
            var b := Base(w);
            var r := RootOf(w);
            (a.result.Ok? <==> (w.wroteTerminator ==> Used(w) >= 1) && b + size + 1 <= |r.buf|) &&
            (a.result.Ok? ==>
               b + size < |r.buf| &&
               a == Step(Terminated(Cursor(r.(buf := r.buf[b + size := w.terminator], used := b + size + 1)),
                                    w.terminator, true), Ok(b))) &&
            (a.result.Err? ==> a.writer == w.(inner := Cursor(r.(used := b))))
  {
    var r := RootOf(w);
    var b := Base(w);
    if w.wroteTerminator && Used(w) == 0 {
      assert Rewind(w.inner, 1).result.Err?;
    } else {
      var s1 := if w.wroteTerminator then Rewind(w.inner, 1) else Step(w.inner, Ok(()));
      assert s1 == Step(Cursor(r.(used := b)), Ok(()));
      var s2 := AllocateAndSplit(Cursor(r.(used := b)), size + 1);
      if b + size + 1 <= |r.buf| {
        assert s2 == Step(Cursor(r.(used := b + size + 1)), Ok(b));
      } else {
        assert s2 == Step(Cursor(r.(used := b)), s2.result) && s2.result.Err?;
      }
    }
  }

  /** The bytes before `b`, then the data, then the terminator. */
  lemma {:induction false} WrittenThenTerminated(buf: seq<byte>, b: nat, bytes: seq<byte>, t: byte)
    requires b + |bytes| + 1 <= |buf|
    ensures Overwrite(buf[b + |bytes| := t], b, bytes)[..b + |bytes| + 1] == buf[..b] + bytes + [t]
  {
    var x := Overwrite(buf[b + |bytes| := t], b, bytes)[..b + |bytes| + 1];
    var y := buf[..b] + bytes + [t];
    assert forall i :: 0 <= i < |y| ==> x[i] == y[i];
  }

  /** A writer that holds `data` keeps holding what it is given: a write
      that succeeds leaves `data`, the bytes and the terminator. */
  lemma {:induction false} SuccessfulWriteHolds(w: Writer, data: seq<byte>, bytes: seq<byte>)
    requires Holds(w, data)
    ensures var s := WriteBytes(w, bytes);
            (s.result.Ok? <==> |data| + |bytes| + 1 <= |Buffer(w)|) &&
            (s.result.Ok? ==> s.result.value == |data| && Holds(s.writer, data + bytes) && s.writer.wroteTerminator &&
                              s.writer.terminator == w.terminator && |Buffer(s.writer)| == |Buffer(w)|)
  {
    TerminatedWrite(w, bytes);
    assert Base(w) == |data|;
    assert Buffer(w)[..|data|] == AllocatedBytes(w)[..|data|] == data;
  }

  /** As written, a write that fails after a terminator was written leaves
      exactly the data allocated, without the terminator, yet the flag still
      says the terminator is there. */
  lemma {:induction false} FailedWriteKeepsFlag(w: Writer, data: seq<byte>, bytes: seq<byte>)
    requires Holds(w, data) && w.wroteTerminator
    requires WriteBytes(w, bytes).result.Err?
    ensures var s := WriteBytes(w, bytes);
            OverSlice(s.writer) && s.writer.wroteTerminator && AllocatedBytes(s.writer) == data &&
            s.writer.terminator == w.terminator && |Buffer(s.writer)| == |Buffer(w)|
  {
    TerminatedWrite(w, bytes);
    assert Base(w) == |data|;
    assert Buffer(w)[..|data|] == AllocatedBytes(w)[..|data|] == data;
  }

  // ---------------------------------------------------------------------
  // The corrected writer

  /** `allocate_and_split` of a terminated writer as intended: a failure
      leaves the writer as it was, terminator and flag included. */
  function IntendedAllocate(w: Writer, size: nat): (s: Step<nat>)
    requires Wf(w) && w.Terminated?
    ensures Wf(s.writer)
    ensures s.result.Err? ==> s.writer == w
    ensures s.result.Ok? ==> s == AllocateAndSplit(w, size)
  {
    var s := AllocateAndSplit(w, size);
    if s.result.Err? then Step(w, s.result) else s
  }

  /** `write_bytes` over the corrected allocation. */
  function IntendedWriteBytes(w: Writer, bytes: seq<byte>): (s: Step<nat>)
    requires Wf(w) && w.Terminated?
    ensures Wf(s.writer)
    ensures s.result.Err? ==> s.writer == w
    ensures s.result.Ok? ==> s == WriteBytes(w, bytes)
  {
    var s := IntendedAllocate(w, |bytes|);
    if s.result.Err? then s
    else
      var start := s.result.value;
      Step(WithBuffer(s.writer, Overwrite(Buffer(s.writer), start, bytes)), Ok(start))
  }

  /** The corrected writer keeps holding its data whatever happens: a
      failing write changes nothing, a successful one appends the bytes
      before the terminator. */
  lemma {:induction false} IntendedWriteHolds(w: Writer, data: seq<byte>, bytes: seq<byte>)
    requires Holds(w, data)
    ensures var s := IntendedWriteBytes(w, bytes);
            (s.result.Ok? <==> |data| + |bytes| + 1 <= |Buffer(w)|) &&
            (s.result.Ok? ==> s.result.value == |data| && Holds(s.writer, data + bytes) &&
                              s.writer.terminator == w.terminator && |Buffer(s.writer)| == |Buffer(w)|) &&
            (s.result.Err? ==> Holds(s.writer, data))
  {
    SuccessfulWriteHolds(w, data, bytes);
  }

  // ---------------------------------------------------------------------
  // The documented example

  const HELLO: seq<byte> := Ascii("Hello, world!")
  const BOOP: seq<byte> := Ascii(" Boop!")

  /** A 20-byte buffer and the terminator `0x42`. */
  function Fresh(addr: nat): (w: Writer)
    ensures Holds(w, []) && |Buffer(w)| == 20 && !w.wroteTerminator
  {
    MakeTerminated(SliceCursor(addr, Zeros(20)), 0x42)
  }

  /** The example of terminated.rs: after "Hello, world!" the allocated
      bytes are the text and `0x42`; after " Boop!" the whole buffer is
      "Hello, world! Boop!" and `0x42`. */
  lemma {:induction false} HelloBoopExample(addr: nat)
    ensures var s1 := WriteBytes(Fresh(addr), HELLO);
            s1.result.Ok? && AllocatedBytes(s1.writer) == HELLO + [0x42] &&
            var s2 := WriteBytes(s1.writer, BOOP);
            s2.result.Ok? && Buffer(s2.writer) == HELLO + BOOP + [0x42]
  {
    var w := Fresh(addr);
    assert |HELLO| == 13 && |BOOP| == 6;
    SuccessfulWriteHolds(w, [], HELLO);
    assert [] + HELLO == HELLO;
    var w1 := WriteBytes(w, HELLO).writer;
    SuccessfulWriteHolds(w1, HELLO, BOOP);
    var w2 := WriteBytes(w1, BOOP).writer;
    assert Buffer(w2) == Buffer(w2)[..Used(w2)] == AllocatedBytes(w2);
  }

  /** As written, a ten-byte write that does not fit between the two writes
      of the example costs the '!': the buffer then starts with
      "Hello, world Boop!" and `0x42`. */
  lemma {:induction false} LostByteExample(addr: nat, ten: seq<byte>)
    requires |ten| == 10
    ensures var s1 := WriteBytes(Fresh(addr), HELLO);
            s1.result.Ok? &&
            var s2 := WriteBytes(s1.writer, ten);
            s2.result.Err? &&
            var s3 := WriteBytes(s2.writer, BOOP);
            s3.result.Ok? && AllocatedBytes(s3.writer) == HELLO[..12] + BOOP + [0x42]
  {
    var w := Fresh(addr);
    assert |HELLO| == 13 && |BOOP| == 6;
    SuccessfulWriteHolds(w, [], HELLO);
    assert [] + HELLO == HELLO;
    var w1 := WriteBytes(w, HELLO).writer;
    SuccessfulWriteHolds(w1, HELLO, ten);
    FailedWriteKeepsFlag(w1, HELLO, ten);
    var w2 := WriteBytes(w1, ten).writer;
    TerminatedWrite(w2, BOOP);
    assert Buffer(w2)[..12] == AllocatedBytes(w2)[..12] == HELLO[..12];
  }

  /** The corrected writer, on the same writes, ends with the whole text:
      "Hello, world! Boop!" and `0x42`. */
  lemma {:induction false} IntendedExample(addr: nat, ten: seq<byte>)
    requires |ten| == 10
    ensures var s1 := IntendedWriteBytes(Fresh(addr), HELLO);
            s1.result.Ok? &&
            var s2 := IntendedWriteBytes(s1.writer, ten);
            s2.result.Err? &&
            var s3 := IntendedWriteBytes(s2.writer, BOOP);
            s3.result.Ok? && Buffer(s3.writer) == HELLO + BOOP + [0x42]
  {
    var w := Fresh(addr);
    assert |HELLO| == 13 && |BOOP| == 6;
    IntendedWriteHolds(w, [], HELLO);
    assert [] + HELLO == HELLO;
    var w1 := IntendedWriteBytes(w, HELLO).writer;
    IntendedWriteHolds(w1, HELLO, ten);
    IntendedWriteHolds(w1, HELLO, BOOP);
    var w3 := IntendedWriteBytes(w1, BOOP).writer;
    assert Buffer(w3) == Buffer(w3)[..Used(w3)] == AllocatedBytes(w3);
  }
}
