/** What every atom type builds on. Writing an atom through `write_atom`
    (atom/src/space/allocator.rs) pushes an `AtomWriter` on the stack, lets
    the atom type append its body through it and pops it again. Reading walks
    a run of atoms laid out one after another, each starting at the next
    multiple of 8, the way `SpaceReader::next_atom` does
    (atom/src/space/reader.rs). */
module Frames {
  import opened Bytes
  import opened Wrappers
  import opened Errors
  import opened Util
  import opened Aligned
  import opened Header
  import opened Allocator
  import opened SpaceWriter
  import opened Appending
  import opened Reader
  import opened Unidentified

  // ---------------------------------------------------------------------
  // The body an atom writer has appended

  /** The bytes an atom writer has allocated after its header: the body
      written so far. */
  function BodySoFar(a: Writer): (b: seq<byte>)
    requires Stack(a) && a.AtomWriter?
  {
    Buffer(a)[a.headerIndex + HEADER_SIZE..Used(a)]
  }

  /** A freshly written header has an empty body. */
  lemma {:induction false} FreshBodyEmpty(w: Writer, urid: u32)
    requires Stack(w) && WriteNew(w, urid).result.Ok?
    ensures Stack(WriteNew(w, urid).result.value) && BodySoFar(WriteNew(w, urid).result.value) == []
  {
    WriteNewAppended(w, urid);
  }

  /** Appending through an atom writer adds exactly the chunk to its body:
      growing the sizes of the headers on the stack touches no body byte. */
  lemma {:induction false} BodyGrows(a: Writer, a': Writer, c: seq<byte>)
    requires Appended(a, a', c) && a.AtomWriter?
    ensures a'.AtomWriter? && a'.headerIndex == a.headerIndex
    ensures BodySoFar(a') == BodySoFar(a) + c
  {
    var h := a.headerIndex;
    var hs := Headers(a.parent);
    assert Headers(a) == hs + [h];
    TopOfStack(a', hs, h);
    StackHeaders(a);
    BodyUntouched(AllocatedBytes(a), hs + [h], |c|, h);
    assert AllocatedBytes(a')[h + HEADER_SIZE..] == AddToSizes(AllocatedBytes(a), hs + [h], |c|)[h + HEADER_SIZE..] + c;
  }

  /** Growing headers at or below `h` leaves everything after the header at
      `h` alone. */
  lemma {:induction false} BodyUntouched(b: seq<byte>, hs: seq<nat>, n: nat, h: nat)
    requires |hs| > 0 && hs[|hs| - 1] == h && h + HEADER_SIZE <= |b|
    requires Ascending(hs)
    ensures AddToSizes(b, hs, n)[h + HEADER_SIZE..] == b[h + HEADER_SIZE..]
  {
    forall k | 0 <= k < |hs|
      ensures hs[k] + 4 <= h + HEADER_SIZE || |b| <= hs[k]
    {
      if k < |hs| - 1 {
        assert hs[k] + HEADER_SIZE <= hs[|hs| - 1];
      }
    }
    AddToSizesOther(b, hs, n, h + HEADER_SIZE, |b|);
  }

  // ---------------------------------------------------------------------
  // A whole atom in the parent

  /** `c` is `pad` bytes of padding (whatever the buffer held there), a
      header announcing the body's length (truncated to u32, as
      `set_size_of_body` does) and the body. */
  predicate AtomLaidOut(c: seq<byte>, pad: nat, urid: u32, body: seq<byte>) {
    pad <= |c| && c[pad..] == Encode(AtomHeader(|body| % U32_LIMIT, urid)) + body
  }

  /** The bytes `w'` has allocated beyond those of `w`. */
  function Since(w: Writer, w': Writer): seq<byte> {
    if Used(w) <= Used(w') <= |Buffer(w')| then Buffer(w')[Used(w)..Used(w')] else []
  }

  /** The chunk an append added is the tail of the allocated bytes. */
  lemma {:induction false} AppendedChunk(w: Writer, w': Writer, c: seq<byte>)
    requires Appended(w, w', c)
    ensures Since(w, w') == c
  {
    assert AllocatedBytes(w')[Used(w)..] == c;
  }

  /** An atom written through `write_atom`: once the atom writer that
      `write_new` pushed has appended `body`, its parent holds the padding to
      8, the header announcing `|body|` bytes, and the body. */
  lemma {:induction false} AtomAppended(w: Writer, urid: u32, top: Writer, body: seq<byte>)
    requires Stack(w) && WriteNew(w, urid).result.Ok?
    requires Appended(WriteNew(w, urid).result.value, top, body)
    ensures top.AtomWriter?
    ensures AtomLaidOut(Since(w, top.parent), PadFor(w, ATOM_HEADER), urid, body)
    ensures Appended(w, top.parent, Since(w, top.parent))
  {
    var s := WriteNew(w, urid);
    HeaderAppended(w, urid);
    AtomAppendedFrom(w, s.writer, Since(w, s.writer), PadFor(w, ATOM_HEADER), urid, top, body);
  }

  /** `write_new` appends the padding to 8 and the new header, and the atom
      writer it returns tracks that header. */
  lemma {:induction false} HeaderAppended(w: Writer, urid: u32)
    requires Stack(w) && WriteNew(w, urid).result.Ok?
    ensures var s := WriteNew(w, urid);
            var pad := PadFor(w, ATOM_HEADER);
            var c := Since(w, s.writer);
            s.result.value == AtomWriter(s.writer, Used(w) + pad) &&
            Appended(w, s.writer, c) && |c| == HEADER_SIZE + pad && c[pad..] == Encode(New(urid))
  {
    var s := WriteNew(w, urid);
    WriteNewAppended(w, urid);
    AppendedChunk(w, s.writer, Buffer(s.writer)[Used(w)..Used(s.writer)]);
  }

  /** `AtomAppended` once the header is known to be appended. */
  lemma {:induction false} AtomAppendedFrom(w: Writer, p: Writer, c0: seq<byte>, pad: nat, urid: u32, top: Writer, body: seq<byte>)
    requires Appended(w, p, c0) && |c0| == HEADER_SIZE + pad && c0[pad..] == Encode(New(urid))
    requires Appended(AtomWriter(p, Used(w) + pad), top, body)
    ensures top.AtomWriter?
    ensures AtomLaidOut(Since(w, top.parent), pad, urid, body)
    ensures Appended(w, top.parent, Since(w, top.parent))
  {
    NestedAppended(w, p, c0, pad, urid, top, body);
    var c := c0[..pad] + Encode(AtomHeader(|body| % U32_LIMIT, urid)) + body;
    AppendedChunk(w, top.parent, c);
    LaidOutParts(c0[..pad], urid, body, c);
  }

  /** Padding, header and body concatenated are laid out as an atom. */
  lemma {:induction false} LaidOutParts(pre: seq<byte>, urid: u32, body: seq<byte>, c: seq<byte>)
    requires c == pre + Encode(AtomHeader(|body| % U32_LIMIT, urid)) + body
    ensures AtomLaidOut(c, |pre|, urid, body)
  {
  }

  // ---------------------------------------------------------------------
  // Runs of atoms

  /** An element of a run: an optional 8-aligned record of 8 bytes before
      the atom (a property's key and context, an event's time stamp; empty
      in a tuple), then the atom's type and body. */
  datatype Item = Item(prefix: seq<byte>, urid: u32, body: seq<byte>)

  /** Where the element `it` starting at address `addr` ends: the padding to
      8, the record, the header and the body. */
  function ItemEnd(addr: nat, it: Item): nat {
    Padding(addr, 8) + |it.prefix| + HEADER_SIZE + |it.body|
  }

  /** The bytes of an element after its padding. */
  function ItemBytes(it: Item): seq<byte>
    requires |it.body| < U32_LIMIT
  {
    it.prefix + Encode(AtomHeader(|it.body|, it.urid)) + it.body
  }

  /** `c`, at address `addr`, is exactly the element `it`: the padding to 8
      (whatever the buffer held there), then the element's bytes. */
  predicate ItemAt(addr: nat, c: seq<byte>, it: Item) {
    var p := Padding(addr, 8);
    (|it.prefix| == 0 || |it.prefix| == 8) && |it.body| < U32_LIMIT &&
    p <= |c| && c[p..] == ItemBytes(it)
  }

  /** `bytes`, at address `addr`, are the elements `items` one after another
      and nothing else. */
  predicate Laid(addr: nat, bytes: seq<byte>, items: seq<Item>)
    decreases |items|
  {
    if items == [] then bytes == []
    else
      var n := ItemEnd(addr, items[0]);
      n <= |bytes| && ItemAt(addr, bytes[..n], items[0]) && Laid(addr + n, bytes[n..], items[1..])
  }

  /** An element's bytes end where `ItemEnd` says. */
  lemma {:induction false} ItemAtLength(addr: nat, c: seq<byte>, it: Item)
    requires ItemAt(addr, c, it)
    ensures |c| == ItemEnd(addr, it)
  {
    assert |c[Padding(addr, 8)..]| == |ItemBytes(it)|;
  }

  /** An element in front of a run is a longer run. */
  lemma {:induction false} LaidCons(addr: nat, c: seq<byte>, it: Item, rest: seq<byte>, items: seq<Item>)
    requires ItemAt(addr, c, it) && Laid(addr + |c|, rest, items)
    ensures Laid(addr, c + rest, [it] + items)
  {
    ItemAtLength(addr, c, it);
    var all := [it] + items;
    assert all[0] == it && all[1..] == items;
    assert (c + rest)[..|c|] == c;
    assert (c + rest)[|c|..] == rest;
  }

  /** The first element of a run and the run after it. */
  lemma {:induction false} LaidFront(addr: nat, bytes: seq<byte>, items: seq<Item>)
    requires Laid(addr, bytes, items) && items != []
    ensures var n := ItemEnd(addr, items[0]);
            n <= |bytes| && ItemAt(addr, bytes[..n], items[0]) && Laid(addr + n, bytes[n..], items[1..])
  {
  }

  /** One more element after a run extends the run. */
  lemma {:induction false} LaidSnoc(addr: nat, bytes: seq<byte>, items: seq<Item>, c: seq<byte>, it: Item)
    requires Laid(addr, bytes, items) && ItemAt(addr + |bytes|, c, it)
    ensures Laid(addr, bytes + c, items + [it])
    decreases |items|
  {
    if items == [] {
      LaidOne(addr, c, it);
      assert bytes + c == c && items + [it] == [it];
    } else {
      var n := ItemEnd(addr, items[0]);
      LaidFront(addr, bytes, items);
      LaidSnoc(addr + n, bytes[n..], items[1..], c, it);
      LaidSnocStep(addr, bytes, items, c, it, n);
    }
  }

  /** The step of `LaidSnoc`: the first element, then the longer rest. */
  lemma {:induction false} LaidSnocStep(addr: nat, bytes: seq<byte>, items: seq<Item>, c: seq<byte>, it: Item, n: nat)
    requires items != [] && n <= |bytes| && ItemAt(addr, bytes[..n], items[0])
    requires Laid(addr + n, bytes[n..] + c, items[1..] + [it])
    ensures Laid(addr, bytes + c, items + [it])
  {
    LaidCons(addr, bytes[..n], items[0], bytes[n..] + c, items[1..] + [it]);
    SplitConcat(bytes, c, n);
    ConsSnoc(items, it);
  }

  /** A run of one element. */
  lemma {:induction false} LaidOne(addr: nat, c: seq<byte>, it: Item)
    requires ItemAt(addr, c, it)
    ensures Laid(addr, c, [it])
  {
    ItemAtLength(addr, c, it);
    var n := ItemEnd(addr, it);
    assert c[..n] == c && c[n..] == [];
    assert [it][1..] == [];
  }

  /** The front of a run after the first element's padding: its bytes, then
      the rest of the run. */
  lemma {:induction false} LaidFrontBytes(addr: nat, bytes: seq<byte>, items: seq<Item>, it: Item, n: nat)
    requires Laid(addr, bytes, items) && items != [] && it == items[0] && n == ItemEnd(addr, it)
    ensures |it.body| < U32_LIMIT && (|it.prefix| == 0 || |it.prefix| == 8)
    ensures Padding(addr, 8) <= n <= |bytes|
    ensures bytes[Padding(addr, 8)..] == ItemBytes(it) + bytes[n..]
    ensures Laid(addr + n, bytes[n..], items[1..])
  {
    LaidFront(addr, bytes, items);
    FrontConcat(bytes, n, Padding(addr, 8), ItemBytes(it));
  }

  /** A prefix of `bytes` that ends in `x` leaves `x` and the rest. */
  lemma {:induction false} FrontConcat(bytes: seq<byte>, n: nat, p: nat, x: seq<byte>)
    requires p <= n <= |bytes| && bytes[..n][p..] == x
    ensures bytes[p..] == x + bytes[n..]
  {
    assert bytes[p..] == bytes[..n][p..] + bytes[n..];
  }

  /** What `next_atom` reads at the front of a run whose first element has
      no record: that element's atom, and the reader moves to the rest of the
      run. */
  lemma {:induction false} ReadLaidAtom(addr: nat, bytes: seq<byte>, items: seq<Item>, it: Item, n: nat)
    requires Laid(addr, bytes, items) && items != [] && it == items[0] && it.prefix == [] && n == ItemEnd(addr, it)
    ensures |it.body| < U32_LIMIT
    ensures NextAtom(Space(addr, bytes))
            == Ok((UnidentifiedAtom(addr + Padding(addr, 8), AtomHeader(|it.body|, it.urid), it.body),
                   Space(addr + n, bytes[n..])))
  {
    LaidFrontBytes(addr, bytes, items, it, n);
    ReadFrontAtom(addr, bytes, it, n);
  }

  /** `ReadLaidAtom` once the front element's bytes are known. */
  lemma {:induction false} ReadFrontAtom(addr: nat, bytes: seq<byte>, it: Item, n: nat)
    requires |it.body| < U32_LIMIT && it.prefix == [] && n == ItemEnd(addr, it)
    requires Padding(addr, 8) <= n <= |bytes| && bytes[Padding(addr, 8)..] == ItemBytes(it) + bytes[n..]
    ensures NextAtom(Space(addr, bytes))
            == Ok((UnidentifiedAtom(addr + Padding(addr, 8), AtomHeader(|it.body|, it.urid), it.body),
                   Space(addr + n, bytes[n..])))
  {
    var h := AtomHeader(|it.body|, it.urid);
    assert ItemBytes(it) == Encode(h) + it.body;
    ReadPaddedAtom(addr, Padding(addr, 8), bytes, h, it.body, n);
  }

  /** What a record read followed by `next_atom` finds at the front of a run
      whose first element has a record: the record, then the atom, and the
      reader moves to the rest of the run. */
  lemma {:induction false} ReadLaidRecord(addr: nat, bytes: seq<byte>, items: seq<Item>, it: Item, p: nat, n: nat)
    requires Laid(addr, bytes, items) && items != [] && it == items[0] && |it.prefix| == 8
    requires p == Padding(addr, 8) && n == ItemEnd(addr, it)
    ensures |it.body| < U32_LIMIT
    ensures NextValue(Space(addr, bytes), Layout(8, 8)) == Ok((it.prefix, Space(addr + p + 8, bytes[p + 8..])))
    ensures NextAtom(Space(addr + p + 8, bytes[p + 8..]))
            == Ok((UnidentifiedAtom(addr + p + 8, AtomHeader(|it.body|, it.urid), it.body), Space(addr + n, bytes[n..])))
  {
    LaidFrontBytes(addr, bytes, items, it, n);
    ReadRecordThenAtom(addr, p, bytes, it.prefix, AtomHeader(|it.body|, it.urid), it.body, n);
  }

  /** A record read then `next_atom` on bytes holding, after `p` bytes of
      padding to 8, an 8-byte record, a header, the body it announces and then
      anything. */
  lemma {:induction false} ReadRecordThenAtom(addr: nat, p: nat, bytes: seq<byte>, record: seq<byte>, h: AtomHeader, body: seq<byte>, n: nat)
    requires p == Padding(addr, 8) && |record| == 8 && |body| == h.size
    requires n == p + 8 + HEADER_SIZE + |body| && n <= |bytes|
    requires bytes[p..] == record + Encode(h) + body + bytes[n..]
    ensures NextValue(Space(addr, bytes), Layout(8, 8)) == Ok((record, Space(addr + p + 8, bytes[p + 8..])))
    ensures NextAtom(Space(addr + p + 8, bytes[p + 8..]))
            == Ok((UnidentifiedAtom(addr + p + 8, h, body), Space(addr + n, bytes[n..])))
  {
    RecordFields(bytes, p, record, Encode(h) + body + bytes[n..]);
    AtomAtAligned(addr + p + 8, bytes[p + 8..], h, body, bytes[n..], addr + n);
  }

  /** `next_atom` at an 8-aligned address on a header, the body it announces
      and then anything. */
  lemma {:induction false} AtomAtAligned(at: nat, tail: seq<byte>, h: AtomHeader, body: seq<byte>, rest: seq<byte>, end: nat)
    requires at % 8 == 0 && |body| == h.size && tail == Encode(h) + body + rest
    requires end == at + HEADER_SIZE + |body|
    ensures NextAtom(Space(at, tail)) == Ok((UnidentifiedAtom(at, h, body), Space(end, rest)))
  {
    NextAtomOfEncoded(at, h, body, rest);
  }

  /** The record and what follows it. */
  lemma {:induction false} RecordFields(bytes: seq<byte>, p: nat, record: seq<byte>, rest: seq<byte>)
    requires |record| == 8 && p <= |bytes| && bytes[p..] == record + rest
    ensures bytes[p..p + 8] == record && bytes[p + 8..] == rest
  {
    assert bytes[p..p + 8] == bytes[p..][..8];
    assert bytes[p + 8..] == bytes[p..][8..];
  }

  /** `next_atom` on bytes holding, after `p` bytes of padding to 8, a header,
      the body it announces and then anything. */
  lemma {:induction false} ReadPaddedAtom(addr: nat, p: nat, bytes: seq<byte>, h: AtomHeader, body: seq<byte>, n: nat)
    requires p == Padding(addr, 8) && |body| == h.size
    requires n == p + HEADER_SIZE + |body| && n <= |bytes|
    requires bytes[p..] == Encode(h) + body + bytes[n..]
    ensures NextAtom(Space(addr, bytes))
            == Ok((UnidentifiedAtom(addr + p, h, body), Space(addr + n, bytes[n..])))
  {
    PaddedFields(bytes, p, Encode(h), body, bytes[n..]);
    NextAtomSpec(Space(addr, bytes));
    DecodeEncode(h);
  }

  /** The header, body and rest after the padding. */
  lemma {:induction false} PaddedFields(bytes: seq<byte>, p: nat, head: seq<byte>, body: seq<byte>, rest: seq<byte>)
    requires |head| == HEADER_SIZE && p <= |bytes| && bytes[p..] == head + body + rest
    ensures p + HEADER_SIZE + |body| <= |bytes|
    ensures bytes[p..p + HEADER_SIZE] == head
    ensures bytes[p + HEADER_SIZE..p + HEADER_SIZE + |body|] == body
    ensures bytes[p + HEADER_SIZE + |body|..] == rest
  {
    var t := bytes[p..];
    assert bytes[p..p + HEADER_SIZE] == t[..HEADER_SIZE];
    assert bytes[p + HEADER_SIZE..p + HEADER_SIZE + |body|] == t[HEADER_SIZE..HEADER_SIZE + |body|];
    assert bytes[p + HEADER_SIZE + |body|..] == t[HEADER_SIZE + |body|..];
  }

  /** Reading past the end of a run fails, for atoms and for records alike. */
  lemma {:induction false} NothingPastRun(addr: nat, l: Layout)
    requires l.size > 0
    ensures NextAtom(Space(addr, [])).Err?
    ensures NextValue(Space(addr, []), l).Err?
  {
    NextAtomSpec(Space(addr, []));
  }

  /** Splitting a sequence and putting it back together. */
  lemma {:induction false} SplitConcat<T>(b: seq<T>, c: seq<T>, n: nat)
    requires n <= |b|
    ensures b[..n] + (b[n..] + c) == b + c
  {
    assert b == b[..n] + b[n..];
  }

  /** A non-empty sequence is its head before its tail. */
  lemma {:induction false} ConsSnoc<T>(xs: seq<T>, x: T)
    requires xs != []
    ensures [xs[0]] + (xs[1..] + [x]) == xs + [x]
  {
    assert xs == [xs[0]] + xs[1..];
  }

  // ---------------------------------------------------------------------
  // Building a run through a writer

  /** Since `start`, the writer `w` has appended exactly the elements
      `items`, laid out one after another from where `start` ended. */
  predicate RunSince(start: Writer, w: Writer, items: seq<Item>) {
    Appended(start, w, Since(start, w)) && Laid(Addr(start) + Used(start), Since(start, w), items)
  }

  /** A writer has appended the empty run since itself. */
  lemma {:induction false} RunStart(w: Writer)
    requires Stack(w)
    ensures RunSince(w, w, [])
  {
    AppendedNothing(w);
    AppendedChunk(w, w, []);
  }

  /** Appending one more element after a run extends the run. */
  lemma {:induction false} RunGrows(start: Writer, w: Writer, w': Writer, c: seq<byte>, items: seq<Item>, it: Item)
    requires RunSince(start, w, items)
    requires Appended(w, w', c)
    requires ItemAt(Addr(w) + Used(w), c, it)
    ensures RunSince(start, w', items + [it])
  {
    var c0 := Since(start, w);
    RunAppended(start, w, w', c0, c);
    RunBytes(Addr(start) + Used(start), c0, items, Addr(w) + Used(w), c, it);
  }

  /** An atom laid out after the end of `w` extends a run by one element
      without a record. */
  lemma {:induction false} RunGrowsAtom(start: Writer, w: Writer, w': Writer, c: seq<byte>, items: seq<Item>, urid: u32, body: seq<byte>)
    requires RunSince(start, w, items) && Appended(w, w', c)
    requires AtomLaidOut(c, PadFor(w, ATOM_HEADER), urid, body) && |body| < U32_LIMIT
    ensures RunSince(start, w', items + [Item([], urid, body)])
  {
    AtomItem(w, c, urid, body);
    RunGrows(start, w, w', c, items, Item([], urid, body));
  }

  /** The writer side of `RunGrows`: the two appends are one, and the second
      starts where the first ended. */
  lemma {:induction false} RunAppended(start: Writer, w: Writer, w': Writer, c0: seq<byte>, c: seq<byte>)
    requires Appended(start, w, c0) && Appended(w, w', c)
    ensures Appended(start, w', c0 + c) && Since(start, w') == c0 + c
    ensures Addr(w) + Used(w) == Addr(start) + Used(start) + |c0|
  {
    AppendedTrans(start, w, w', c0, c);
    AppendedChunk(start, w', c0 + c);
  }

  /** The byte side of `RunGrows`. */
  lemma {:induction false} RunBytes(a: nat, c0: seq<byte>, items: seq<Item>, a1: nat, c: seq<byte>, it: Item)
    requires Laid(a, c0, items) && a1 == a + |c0| && ItemAt(a1, c, it)
    ensures Laid(a, c0 + c, items + [it])
  {
    LaidSnoc(a, c0, items, c, it);
  }

  /** An atom laid out after the padding to 8 is an element without a
      record. */
  lemma {:induction false} LaidOutItem(addr: nat, c: seq<byte>, pad: nat, urid: u32, body: seq<byte>)
    requires pad == Padding(addr, 8) && AtomLaidOut(c, pad, urid, body) && |body| < U32_LIMIT
    ensures ItemAt(addr, c, Item([], urid, body))
  {
    assert |body| % U32_LIMIT == |body|;
    assert ItemBytes(Item([], urid, body)) == Encode(AtomHeader(|body|, urid)) + body;
  }

  /** `LaidOutItem` at the end of a writer. */
  lemma {:induction false} AtomItem(w: Writer, c: seq<byte>, urid: u32, body: seq<byte>)
    requires AtomLaidOut(c, PadFor(w, ATOM_HEADER), urid, body) && |body| < U32_LIMIT
    ensures ItemAt(Addr(w) + Used(w), c, Item([], urid, body))
  {
    LaidOutItem(Addr(w) + Used(w), c, PadFor(w, ATOM_HEADER), urid, body);
  }

  /** The 8-byte, 8-aligned record in front of a property's or an event's
      atom (`StrippedPropertyHeader`, `TimestampBody`). */
  const RECORD: Layout := Layout(8, 8)

  /** `c` is `pad` bytes of padding (whatever the buffer held there), an
      8-byte record, a header announcing the body's length (truncated to u32)
      and the body. */
  predicate RecordLaidOut(c: seq<byte>, pad: nat, record: seq<byte>, urid: u32, body: seq<byte>) {
    pad <= |c| && c[pad..] == record + Encode(AtomHeader(|body| % U32_LIMIT, urid)) + body
  }

  /** A record written with `write_value`, then an atom written through
      `write_atom` with the body `body`: the parent holds the padding to 8,
      the record, and the atom right after it. */
  lemma {:induction false} RecordChildLaidOut(w: Writer, record: seq<byte>, urid: u32, top: Writer, body: seq<byte>)
    requires Stack(w) && |record| == RECORD.size
    requires WriteValue(w, RECORD, record).result.Ok?
    requires WriteNew(WriteValue(w, RECORD, record).writer, urid).result.Ok?
    requires Appended(WriteNew(WriteValue(w, RECORD, record).writer, urid).result.value, top, body)
    ensures top.AtomWriter? && Appended(w, top.parent, Since(w, top.parent))
    ensures RecordLaidOut(Since(w, top.parent), PadFor(w, RECORD), record, urid, body)
  {
    var w1 := WriteValue(w, RECORD, record).writer;
    RecordAppended(w, record);
    AtomAppended(w1, urid, top, body);
    RecordThenAtom(w, w1, top.parent, Since(w, w1), Since(w1, top.parent), record, urid, body);
  }

  /** `write_value` of a record appends the padding to 8 and the record. */
  lemma {:induction false} RecordAppended(w: Writer, record: seq<byte>)
    requires Stack(w) && |record| == RECORD.size && WriteValue(w, RECORD, record).result.Ok?
    ensures var w1 := WriteValue(w, RECORD, record).writer;
            var c := Since(w, w1);
            Stack(w1) && Appended(w, w1, c) && |c| == PadFor(w, RECORD) + RECORD.size && c[PadFor(w, RECORD)..] == record
  {
    var w1 := WriteValue(w, RECORD, record).writer;
    WriteValueAppended(w, RECORD, record);
    AppendedChunk(w, w1, Buffer(w1)[Used(w)..Used(w1)]);
  }

  /** A record appended, then an atom: the record with the atom right after
      it. */
  lemma {:induction false} RecordThenAtom(w: Writer, w1: Writer, w2: Writer, c0: seq<byte>, c1: seq<byte>,
                                          record: seq<byte>, urid: u32, body: seq<byte>)
    requires Appended(w, w1, c0) && |c0| == PadFor(w, RECORD) + 8 && c0[PadFor(w, RECORD)..] == record
    requires Appended(w1, w2, c1) && AtomLaidOut(c1, PadFor(w1, ATOM_HEADER), urid, body)
    ensures Appended(w, w2, Since(w, w2)) && RecordLaidOut(Since(w, w2), PadFor(w, RECORD), record, urid, body)
  {
    RunAppended(w, w1, w2, c0, c1);
    RecordBytes(Addr(w) + Used(w), PadFor(w, RECORD), c0, record, c1, urid, body, Addr(w1) + Used(w1), PadFor(w1, ATOM_HEADER));
  }

  /** The bytes of a record followed by an atom: the atom starts 8-aligned,
      so it has no padding of its own. */
  lemma {:induction false} RecordBytes(x: nat, pad: nat, c0: seq<byte>, record: seq<byte>, c1: seq<byte>, urid: u32, body: seq<byte>,
                                       y: nat, q: nat)
    requires pad == Padding(x, 8) && |record| == 8 && |c0| == pad + 8 && c0[pad..] == record
    requires y == x + |c0| && q == Padding(y, 8) && AtomLaidOut(c1, q, urid, body)
    ensures RecordLaidOut(c0 + c1, pad, record, urid, body)
  {
    DivModUnique(y, 8, (x + pad) / 8 + 1, 0);
    PaddingUnique(y, 8, 0);
    assert c1 == c1[0..];
    assert (c0 + c1)[pad..] == c0[pad..] + c1;
  }

  /** A record and an atom laid out after the padding to 8 are an element
      with that record. */
  lemma {:induction false} RecordItem(x: nat, c: seq<byte>, pad: nat, record: seq<byte>, urid: u32, body: seq<byte>)
    requires pad == Padding(x, 8) && |record| == 8 && |body| < U32_LIMIT
    requires RecordLaidOut(c, pad, record, urid, body)
    ensures ItemAt(x, c, Item(record, urid, body))
  {
    assert |body| % U32_LIMIT == |body|;
  }

  /** A record and an atom laid out after the end of `w` extend a run by one
      element with that record. */
  lemma {:induction false} RunGrowsRecord(start: Writer, w: Writer, w': Writer, c: seq<byte>, items: seq<Item>,
                                          record: seq<byte>, urid: u32, body: seq<byte>)
    requires RunSince(start, w, items) && Appended(w, w', c)
    requires RecordLaidOut(c, PadFor(w, RECORD), record, urid, body) && |record| == 8 && |body| < U32_LIMIT
    ensures RunSince(start, w', items + [Item(record, urid, body)])
  {
    RecordItem(Addr(w) + Used(w), c, PadFor(w, RECORD), record, urid, body);
    RunGrows(start, w, w', c, items, Item(record, urid, body));
  }

  /** `next_atom` on an atom laid out after the padding to 8: the atom, with
      its body right after the header, and nothing left. */
  lemma {:induction false} ReadLaidOut(addr: nat, c: seq<byte>, pad: nat, urid: u32, body: seq<byte>)
    requires pad == Padding(addr, 8) && AtomLaidOut(c, pad, urid, body) && |body| < U32_LIMIT
    ensures NextAtom(Space(addr, c))
            == Ok((UnidentifiedAtom(addr + pad, AtomHeader(|body|, urid), body), Space(addr + |c|, [])))
    ensures Body(UnidentifiedAtom(addr + pad, AtomHeader(|body|, urid), body)) == Space(addr + pad + HEADER_SIZE, body)
  {
    var h := AtomHeader(|body|, urid);
    assert |body| % U32_LIMIT == |body|;
    assert c[pad..] == Encode(h) + body + c[|c|..];
    ReadPaddedAtom(addr, pad, c, h, body, |c|);
  }

  /** Where a run appended since `start` begins, for the atom `write_new`
      started: right after the padding to 8 and the header. */
  lemma {:induction false} BodyStart(w: Writer, urid: u32)
    requires Stack(w) && WriteNew(w, urid).result.Ok?
    ensures var aw := WriteNew(w, urid).result.value;
            Stack(aw) && Addr(aw) + Used(aw) == Addr(w) + Used(w) + PadFor(w, ATOM_HEADER) + HEADER_SIZE &&
            (Addr(aw) + Used(aw)) % 8 == 0
  {
    WriteNewAppended(w, urid);
    var s := WriteNew(w, urid);
    var aw := s.result.value;
    var x := Addr(w) + Used(w) + PadFor(w, ATOM_HEADER);
    assert Addr(aw) + Used(aw) == Addr(s.writer) + Used(s.writer) == x + HEADER_SIZE;
    EightAfter(x, Addr(aw) + Used(aw));
  }

  /** Eight bytes after an 8-aligned address. */
  lemma {:induction false} EightAfter(x: nat, y: nat)
    requires x % 8 == 0 && y == x + HEADER_SIZE
    ensures y % 8 == 0
  {
    DivModUnique(y, 8, x / 8 + 1, 0);
  }
}
