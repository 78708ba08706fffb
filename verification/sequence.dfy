/** Sequences (atom/src/atoms/sequence.rs): an atom whose body is a header
    `{unit, pad}` followed by a run of events, each an 8-aligned time stamp
    and then an atom. A time stamp is a frame count (`i64`) or a beat
    position (`f64`); the header's unit says which, and the writer refuses a
    time stamp that is in the wrong unit or older than the last one.

    An `f64` is held as its bit pattern; the writer's `>` on beats is
    IEEE 754's ordering, written out on those bits. */
module Sequence {
  import opened Bytes
  import opened Wrappers
  import opened Errors
  import opened Aligned
  import opened Util
  import opened Header
  import opened Allocator
  import opened SpaceWriter
  import opened Appending
  import opened Reader
  import opened Unidentified
  import opened Frames
  import opened Urid

  // ---------------------------------------------------------------------
  // Time stamps

  /** The sign bit of an `f64`. */
  const F64_SIGN: nat := 0x8000_0000_0000_0000

  /** One more than the largest fraction of an `f64`: the fraction is the
      low 52 bits. */
  const F64_FRACTION: nat := 0x10_0000_0000_0000

  /** An `f64` is not a number when its exponent bits are all set and its
      fraction is not 0. */
  predicate IsNaN(x: u64) {
    (x % F64_SIGN) / F64_FRACTION == 0x7FF && x % F64_FRACTION != 0
  }

  /** Where a number lies on the real line, as an integer: the magnitude
      bits, negated for a set sign bit, so that both zeros are 0. */
  function OrderKey(x: u64): int {
    if x >= F64_SIGN then -(x - F64_SIGN) else x
  }

  /** `a > b` on `f64`: false whenever either side is not a number. */
  predicate F64Greater(a: u64, b: u64) {
    !IsNaN(a) && !IsNaN(b) && OrderKey(a) > OrderKey(b)
  }

  /** The bits of 0.5, 1.0 and -1.0. */
  const F64_HALF: u64 := 0x3FE0_0000_0000_0000
  const F64_ONE: u64 := 0x3FF0_0000_0000_0000
  const F64_MINUS_ONE: u64 := 0xBFF0_0000_0000_0000
  /** The bits of the quiet not-a-number Rust writes as `f64::NAN`. */
  const F64_NAN: u64 := 0x7FF8_0000_0000_0000

  /** `>` on `f64` is irreflexive, never holds with a not-a-number on either
      side, and orders 1.0 above 0.5, 0.5 above both zeros, the zeros above
      -1.0, and neither zero above the other. */
  lemma {:induction false} F64GreaterFacts(a: u64)
    ensures !F64Greater(a, a)
    ensures IsNaN(a) ==> forall b: u64 :: !F64Greater(a, b) && !F64Greater(b, a)
    ensures F64Greater(F64_ONE, F64_HALF) && F64Greater(F64_HALF, 0) && F64Greater(0, F64_MINUS_ONE)
    ensures !F64Greater(0, F64_SIGN) && !F64Greater(F64_SIGN, 0) && F64Greater(F64_HALF, F64_SIGN)
    ensures IsNaN(F64_NAN) && !IsNaN(F64_ONE) && !IsNaN(F64_MINUS_ONE)
  {
  }

  /** `TimeStampUnit`. */
  datatype TimeStampUnit = InFrames | InBeats

  /** `TimeStamp`: a frame count, or beats as the bits of an `f64`. */
  datatype TimeStamp = Frames(frames: i64) | BeatsPerMinute(beats: u64)

  /** `TimeStampURID`: the unit, with the URID the header stores. */
  datatype TimeStampUrid = FramesUrid(frameUrid: Urid) | BeatsUrid(beatUrid: Urid)

  /** `From<TimeStampURID> for TimeStampUnit`. */
  function UnitOf(u: TimeStampUrid): (unit: TimeStampUnit)
    ensures unit == InBeats <==> u.BeatsUrid?
  {
    if u.FramesUrid? then InFrames else InBeats
  }

  /** The URID `with_unit` stores for a unit. */
  function UnitUrid(u: TimeStampUrid): Urid {
    if u.FramesUrid? then u.frameUrid else u.beatUrid
  }

  /** A time stamp is measured in `unit`: `as_frames` or `as_bpm` yields a
      value. */
  predicate InUnit(t: TimeStamp, unit: TimeStampUnit) {
    t.Frames? <==> unit == InFrames
  }

  /** `last > stamp` in `write_time_stamp`, for two time stamps of the same
      unit. */
  predicate Older(last: TimeStamp, stamp: TimeStamp)
    requires last.Frames? == stamp.Frames?
  {
    if last.Frames? then last.frames > stamp.frames else F64Greater(last.beats, stamp.beats)
  }

  /** The `RawTimeStamp` union's eight bytes, aligned to 8 like a record of
      an object. */
  function StampBytes(t: TimeStamp): (b: seq<byte>)
    ensures |b| == RECORD.size
  {
    match t
    case Frames(f) => EncodeI64(f)
    case BeatsPerMinute(x) => EncodeU64(x)
  }

  /** The time stamp the iterator makes of a `RawTimeStamp`: its `frames` or
      its `beats` field, as the unit says. */
  function DecodeStamp(unit: TimeStampUnit, b: seq<byte>): (t: TimeStamp)
    requires |b| == RECORD.size
    ensures InUnit(t, unit)
  {
    if unit == InFrames then Frames(DecodeI64(b)) else BeatsPerMinute(DecodeU64(b))
  }

  /** A time stamp stored and read back in its own unit is the same time
      stamp. */
  lemma {:induction false} StampRoundTrip(t: TimeStamp, unit: TimeStampUnit)
    requires InUnit(t, unit)
    ensures DecodeStamp(unit, StampBytes(t)) == t
  {
    if t.Frames? {
      I64RoundTrip(t.frames);
    } else {
      U64RoundTrip(t.beats);
    }
  }

  // ---------------------------------------------------------------------
  // Reading

  /** `LV2_Atom_Sequence_Body` as the reader takes it: two `u32`s, aligned
      to 4. */
  const RAW_SEQUENCE_BODY: Layout := Layout(8, 4)

  /** The bytes of a sequence header: the unit's URID, then a 0 pad. */
  function SequenceBody(unit: u32): (b: seq<byte>)
    ensures |b| == RAW_SEQUENCE_BODY.size
  {
    EncodeU32(unit) + EncodeU32(0)
  }

  /** `SequenceHeaderReader`: the stored unit and a reader over the events. */
  datatype SequenceHeaderReader = SequenceHeaderReader(unit: u32, reader: Space)

  /** `Sequence::read`: `next_value` of the header; nothing when the body is
      too short for it. The stored unit is not checked here. */
  function Read(body: Space): (r: Option<SequenceHeaderReader>)
    ensures var p := Padding(body.addr, RAW_SEQUENCE_BODY.align);
            r.Some? <==> p + RAW_SEQUENCE_BODY.size <= |body.bytes|
    ensures var p := Padding(body.addr, RAW_SEQUENCE_BODY.align);
            r.Some? ==> r.value.unit == DecodeU32(body.bytes[p..p + 4]) &&
                        r.value.reader == Space(body.addr + p + 8, body.bytes[p + 8..])
  {
    var p := Padding(body.addr, RAW_SEQUENCE_BODY.align);
    match NextValue(body, RAW_SEQUENCE_BODY)
    case Err(_) => None
    case Ok(v) =>
      assert v.0[..4] == body.bytes[p..p + 4];
      Some(SequenceHeaderReader(DecodeU32(v.0[..4]), v.1))
  }

  /** `SequenceIterator`: a reader over what is left of the events, and the
      unit in which to read their time stamps. */
  datatype SequenceIterator = SequenceIterator(reader: Space, unit: TimeStampUnit)

  /** `SequenceHeaderReader::read(bpm_urid)`: the time stamps are beats
      exactly when the stored unit is the beat URID, and frames for any other
      stored value. */
  function HeaderRead(h: SequenceHeaderReader, bpm: Urid): (it: SequenceIterator)
    ensures it.reader == h.reader
    ensures it.unit == InBeats <==> h.unit == bpm
  {
    SequenceIterator(h.reader, if h.unit == bpm then InBeats else InFrames)
  }

  /** The read `next` tries: the time stamp by `next_value`, read in the
      iterator's unit, then the event's atom by `next_atom`. On success the
      reader moves strictly forward. */
  function ReadEvent(unit: TimeStampUnit, s: Space): (r: Result<((TimeStamp, UnidentifiedAtom), Space), AtomReadError>)
    ensures r.Ok? ==> Valid(r.value.0.1) && InUnit(r.value.0.0, unit) &&
                      SuffixOf(r.value.1, s) && |r.value.1.bytes| < |s.bytes|
  {
    match NextValue(s, RECORD)
    case Err(e) => Err(e)
    case Ok(v) =>
      match NextAtom(v.1)
      case Err(e) => Err(e)
      case Ok(a) =>
        SuffixOfTrans(s, v.1, a.1);
        assert |a.1.bytes| <= |v.1.bytes| < |s.bytes|;
        Ok(((DecodeStamp(unit, v.0), a.0), a.1))
  }

  /** An event read succeeds exactly when, after the padding to 8, the time
      stamp fits and an atom follows it; the time stamp is then the stored
      one, read in the iterator's unit. */
  lemma {:induction false} ReadEventSpec(unit: TimeStampUnit, s: Space)
    ensures var p := Padding(s.addr, RECORD.align);
            ReadEvent(unit, s).Ok? <==> p + RECORD.size <= |s.bytes| &&
                                        NextAtom(Space(s.addr + p + 8, s.bytes[p + 8..])).Ok?
    ensures var p := Padding(s.addr, RECORD.align);
            var r := ReadEvent(unit, s);
            r.Ok? ==> p + 8 <= |s.bytes| && r.value.0.0 == DecodeStamp(unit, s.bytes[p..p + 8]) &&
                      var n := NextAtom(Space(s.addr + p + 8, s.bytes[p + 8..]));
                      n.Ok? && (r.value.0.1, r.value.1) == n.value
  {
    var p := Padding(s.addr, RECORD.align);
    if p + RECORD.size <= |s.bytes| {
      var rest := Space(s.addr + p + 8, s.bytes[p + 8..]);
      assert NextValue(s, RECORD) == Ok((s.bytes[p..p + 8], rest));
    }
  }

  /** `SequenceIterator::next`: the next event, or nothing once an event
      read fails, in which case the reader stays where it was. */
  function Next(it: SequenceIterator): (r: (SequenceIterator, Option<(TimeStamp, UnidentifiedAtom)>))
    ensures r.1.Some? <==> ReadEvent(it.unit, it.reader).Ok?
    ensures r.1.None? ==> r.0 == it
    ensures r.1.Some? ==> Valid(r.1.value.1) && r.0.unit == it.unit && |r.0.reader.bytes| < |it.reader.bytes|
  {
    var (s, res) := TryRead(it.reader, s => ReadEvent(it.unit, s));
    if res.Ok? then (SequenceIterator(s, it.unit), Some(res.value)) else (SequenceIterator(s, it.unit), None)
  }

  /** `collect()`: the events `next` yields until it yields nothing. */
  function Collect(it: SequenceIterator): (es: seq<(TimeStamp, UnidentifiedAtom)>)
    ensures forall i :: 0 <= i < |es| ==> Valid(es[i].1)
    decreases |it.reader.bytes|
  {
    var (it', e) := Next(it);
    match e
    case None => []
    case Some(ev) => [ev] + Collect(it')
  }

  /** An event as the model compares it: its time stamp, and the type and
      body of its atom. */
  datatype Event = Event(stamp: TimeStamp, urid: u32, body: seq<byte>)

  /** The events an iteration yielded, as time stamps, types and bodies. */
  function Views(es: seq<(TimeStamp, UnidentifiedAtom)>): (r: seq<Event>)
    ensures |r| == |es|
    ensures forall i :: 0 <= i < |es| ==> r[i] == Event(es[i].0, es[i].1.header.urid, es[i].1.body)
  {
    if es == [] then [] else [Event(es[0].0, es[0].1.header.urid, es[0].1.body)] + Views(es[1..])
  }

  /** An event as an element of a run: its time stamp's bytes, then its
      atom. */
  function EventItem(e: Event): (it: Item)
    ensures |it.prefix| == RECORD.size
  {
    Item(StampBytes(e.stamp), e.urid, e.body)
  }

  /** The run `items` holds the events `events`, one element each, every
      time stamp in `unit`. */
  predicate Describes(items: seq<Item>, events: seq<Event>, unit: TimeStampUnit)
    decreases |items|
  {
    |items| == |events| &&
    (items != [] ==> items[0] == EventItem(events[0]) && InUnit(events[0].stamp, unit) &&
                     Describes(items[1..], events[1..], unit))
  }

  /** Iterating over a run of events gives back every event, with its time
      stamp, type and body, in the order they were laid out, and then
      stops. */
  lemma {:induction false} CollectLaid(addr: nat, bytes: seq<byte>, items: seq<Item>, events: seq<Event>, unit: TimeStampUnit)
    requires Laid(addr, bytes, items) && Describes(items, events, unit)
    ensures Views(Collect(SequenceIterator(Space(addr, bytes), unit))) == events
    decreases |items|, 1
  {
    if items == [] {
      NothingPastRun(addr, RECORD);
    } else {
      var n := ItemEnd(addr, items[0]);
      FrontEvent(addr, bytes, items, events, unit, n);
      CollectRest(addr, bytes, items, events, unit, n);
    }
  }

  /** The step of `CollectLaid`: the first event, then the rest. */
  lemma {:induction false} CollectRest(addr: nat, bytes: seq<byte>, items: seq<Item>, events: seq<Event>, unit: TimeStampUnit, n: nat)
    requires events != [] && |events[0].body| < U32_LIMIT && InUnit(events[0].stamp, unit)
    requires var p := Padding(addr, 8);
             n == p + 8 + HEADER_SIZE + |events[0].body| && n <= |bytes| &&
             bytes[p..] == StampBytes(events[0].stamp) + Encode(AtomHeader(|events[0].body|, events[0].urid)) + events[0].body + bytes[n..]
    requires |items| == |events| && Laid(addr + n, bytes[n..], items[1..]) && Describes(items[1..], events[1..], unit)
    ensures Views(Collect(SequenceIterator(Space(addr, bytes), unit))) == events
    decreases |items|, 0
  {
    CollectLaid(addr + n, bytes[n..], items[1..], events[1..], unit);
    HeadStep(addr, bytes, events[0], unit, Padding(addr, 8), n);
    assert events == [events[0]] + events[1..];
  }

  /** The bytes of the first event of a run of events, and the run after
      it. */
  lemma {:induction false} FrontEvent(addr: nat, bytes: seq<byte>, items: seq<Item>, events: seq<Event>, unit: TimeStampUnit, n: nat)
    requires Laid(addr, bytes, items) && Describes(items, events, unit) && items != [] && n == ItemEnd(addr, items[0])
    ensures events != [] && |events[0].body| < U32_LIMIT && InUnit(events[0].stamp, unit)
    ensures var p := Padding(addr, 8);
            n == p + 8 + HEADER_SIZE + |events[0].body| && n <= |bytes| &&
            bytes[p..] == StampBytes(events[0].stamp) + Encode(AtomHeader(|events[0].body|, events[0].urid)) + events[0].body + bytes[n..]
    ensures Laid(addr + n, bytes[n..], items[1..]) && Describes(items[1..], events[1..], unit)
  {
    LaidFrontBytes(addr, bytes, items, items[0], n);
  }

  /** What the iterator yields first, on bytes holding after the padding an
      event's time stamp, its atom and then anything. */
  lemma {:induction false} HeadStep(addr: nat, bytes: seq<byte>, e: Event, unit: TimeStampUnit, p: nat, n: nat)
    requires p == Padding(addr, 8) && |e.body| < U32_LIMIT && InUnit(e.stamp, unit)
    requires n == p + 8 + HEADER_SIZE + |e.body| && n <= |bytes|
    requires bytes[p..] == StampBytes(e.stamp) + Encode(AtomHeader(|e.body|, e.urid)) + e.body + bytes[n..]
    ensures Views(Collect(SequenceIterator(Space(addr, bytes), unit)))
            == [e] + Views(Collect(SequenceIterator(Space(addr + n, bytes[n..]), unit)))
  {
    var first := (e.stamp, UnidentifiedAtom(addr + p + 8, AtomHeader(|e.body|, e.urid), e.body));
    var rest := Space(addr + n, bytes[n..]);
    ReadRecordThenAtom(addr, p, bytes, StampBytes(e.stamp), AtomHeader(|e.body|, e.urid), e.body, n);
    FrontRead(addr, bytes, e, unit, p, n);
    CollectStep(Space(addr, bytes), unit, first, rest);
    ViewsCons(first, Collect(SequenceIterator(rest, unit)));
  }

  /** The event read on a time stamp followed by an atom, once both reads
      are known. */
  lemma {:induction false} FrontRead(addr: nat, bytes: seq<byte>, e: Event, unit: TimeStampUnit, p: nat, n: nat)
    requires p == Padding(addr, 8) && |e.body| < U32_LIMIT && InUnit(e.stamp, unit) && p + 8 <= n <= |bytes|
    requires NextValue(Space(addr, bytes), Layout(8, 8)) == Ok((StampBytes(e.stamp), Space(addr + p + 8, bytes[p + 8..])))
    requires NextAtom(Space(addr + p + 8, bytes[p + 8..]))
             == Ok((UnidentifiedAtom(addr + p + 8, AtomHeader(|e.body|, e.urid), e.body), Space(addr + n, bytes[n..])))
    ensures ReadEvent(unit, Space(addr, bytes))
            == Ok(((e.stamp, UnidentifiedAtom(addr + p + 8, AtomHeader(|e.body|, e.urid), e.body)),
                   Space(addr + n, bytes[n..])))
  {
    StampRoundTrip(e.stamp, unit);
  }

  /** When an event read succeeds, the iterator yields that event first. */
  lemma {:induction false} CollectStep(s: Space, unit: TimeStampUnit, first: (TimeStamp, UnidentifiedAtom), rest: Space)
    requires ReadEvent(unit, s) == Ok((first, rest))
    ensures Collect(SequenceIterator(s, unit)) == [first] + Collect(SequenceIterator(rest, unit))
  {
    assert Next(SequenceIterator(s, unit)) == (SequenceIterator(rest, unit), Some(first));
  }

  /** The views of an event in front of others. */
  lemma {:induction false} ViewsCons(first: (TimeStamp, UnidentifiedAtom), tail: seq<(TimeStamp, UnidentifiedAtom)>)
    ensures Views([first] + tail) == [Event(first.0, first.1.header.urid, first.1.body)] + Views(tail)
  {
    assert ([first] + tail)[1..] == tail;
  }

  /** What a reader of sequences sees in `s`: `next_atom`, then `read` of the
      atom as a sequence of type `urid`, then `read(bpm)` of its header, then
      every event the iterator yields. */
  function ReadSequence(s: Space, urid: u32, bpm: Urid): (r: Option<(TimeStampUnit, seq<Event>)>)
    ensures r.Some? ==> NextAtom(s).Ok? && NextAtom(s).value.0.header.urid == urid
  {
    match NextAtom(s)
    case Err(_) => None
    case Ok(v) =>
      if CheckUrid(v.0.header, urid).Err? then None
      else
        match Read(Body(v.0))
        case None => None
        case Some(h) =>
          var it := HeaderRead(h, bpm);
          Some((it.unit, Views(Collect(it))))
  }

  // ---------------------------------------------------------------------
  // Writing

  /** `SequenceBody` on the writing side: aligned to 8. */
  const SEQUENCE_BODY: Layout := Layout(8, 8)

  /** `SequenceHeaderWriter`: the sequence's atom writer, after the header's
      room, and where that room starts in the buffer. */
  datatype SequenceHeaderWriter = SequenceHeaderWriter(frame: Writer, header: nat)

  /** `Sequence::init`: `write_value` of an uninitialised header, which the
      model fills with zeros. */
  function Init(frame: Writer): (s: Step<SequenceHeaderWriter>)
    requires Wf(frame)
    ensures Wf(s.writer) && Addr(s.writer) == Addr(frame)
    ensures s.result.Ok? ==> s.result.value.frame == s.writer &&
                             s.result.value.header + SEQUENCE_BODY.size <= Used(s.writer)
  {
    var t := WriteValue(frame, SEQUENCE_BODY, Zeros(SEQUENCE_BODY.size));
    if t.result.Err? then Step(t.writer, Err(t.result.error))
    else Step(t.writer, Ok(SequenceHeaderWriter(t.writer, t.result.value)))
  }

  /** `SequenceWriter`: the sequence's atom writer, the unit of its time
      stamps, and the last time stamp accepted. */
  datatype SequenceWriter = SequenceWriter(frame: Writer, unit: TimeStampUnit, last: Option<TimeStamp>)

  /** What the writer keeps true: the last time stamp, if any, is in the
      writer's unit, so that `unwrap` on it never panics. */
  predicate Inv(sw: SequenceWriter) {
    sw.last.Some? ==> InUnit(sw.last.value, sw.unit)
  }

  /** `with_unit`: the header `{unit, 0}` goes into the room `init` left,
      and the writer starts with no last time stamp. */
  function WithUnit(hw: SequenceHeaderWriter, u: TimeStampUrid): (sw: SequenceWriter)
    requires Wf(hw.frame) && hw.header + SEQUENCE_BODY.size <= Used(hw.frame)
    ensures Wf(sw.frame) && Addr(sw.frame) == Addr(hw.frame) && Used(sw.frame) == Used(hw.frame)
    ensures Inv(sw) && sw.unit == UnitOf(u) && sw.last.None?
    ensures Buffer(sw.frame)[hw.header..hw.header + 8] == SequenceBody(UnitUrid(u))
  {
    var body := SequenceBody(UnitUrid(u));
    OverwriteSlice(Buffer(hw.frame), hw.header, body);
    SequenceWriter(WithBuffer(hw.frame, Overwrite(Buffer(hw.frame), hw.header, body)), UnitOf(u), None)
  }

  /** A step of the sequence writer: the writer afterwards, and the result,
      `None` for every failure. */
  datatype SeqStep<T> = SeqStep(sw: SequenceWriter, result: Option<T>)

  /** `write_time_stamp` takes `stamp` after `last`: it is in the writer's
      unit and `last`, if any, is not later. */
  predicate Accepts(unit: TimeStampUnit, last: Option<TimeStamp>, stamp: TimeStamp)
    requires last.Some? ==> InUnit(last.value, unit)
  {
    InUnit(stamp, unit) && !(last.Some? && Older(last.value, stamp))
  }

  /** `write_time_stamp`: a time stamp in the wrong unit, or older than the
      last one, is refused and changes nothing. Otherwise it becomes the
      last time stamp before `write_value` stores it, so it stays the last
      one even when there is no room for it. */
  function WriteTimeStamp(sw: SequenceWriter, stamp: TimeStamp): (r: SeqStep<()>)
    requires Wf(sw.frame) && Inv(sw)
    ensures Wf(r.sw.frame) && Addr(r.sw.frame) == Addr(sw.frame) && Inv(r.sw) && r.sw.unit == sw.unit
    ensures !Accepts(sw.unit, sw.last, stamp) ==> r == SeqStep(sw, None)
    ensures Accepts(sw.unit, sw.last, stamp) ==>
              r.sw.last == Some(stamp) &&
              var t := WriteValue(sw.frame, RECORD, StampBytes(stamp));
              r.sw.frame == t.writer && (r.result.Some? <==> t.result.Ok?)
  {
    if !InUnit(stamp, sw.unit) then SeqStep(sw, None)
    else if sw.last.Some? && Older(sw.last.value, stamp) then SeqStep(sw, None)
    else
      var t := WriteValue(sw.frame, RECORD, StampBytes(stamp));
      SeqStep(SequenceWriter(t.writer, sw.unit, Some(stamp)), if t.result.Ok? then Some(()) else None)
  }

  /** `SequenceWriter::init`: the time stamp, then `init_atom` of the event,
      which hands out the event's atom writer on top of the sequence's
      frame. */
  function InitEvent(sw: SequenceWriter, stamp: TimeStamp, urid: u32): (r: SeqStep<Writer>)
    requires Wf(sw.frame) && Inv(sw)
    ensures Wf(r.sw.frame) && Addr(r.sw.frame) == Addr(sw.frame) && Inv(r.sw) && r.sw.unit == sw.unit
    ensures r.result.Some? ==> r.result.value.AtomWriter? && r.result.value.parent == r.sw.frame
    ensures r.result.Some? ==> Accepts(sw.unit, sw.last, stamp)
    ensures r.sw.last == if Accepts(sw.unit, sw.last, stamp) then Some(stamp) else sw.last
  {
    var t := WriteTimeStamp(sw, stamp);
    if t.result.None? then SeqStep(t.sw, None)
    else
      var n := WriteNew(t.sw.frame, urid);
      SeqStep(t.sw.(frame := n.writer), if n.result.Ok? then Some(n.result.value) else None)
  }

  /** `SequenceWriter::forward`: the time stamp, then a copy of the whole
      atom, header included, aligned to 8. */
  function Forward(sw: SequenceWriter, stamp: TimeStamp, atom: UnidentifiedAtom): (r: SeqStep<()>)
    requires Wf(sw.frame) && Inv(sw) && Valid(atom)
    ensures Wf(r.sw.frame) && Addr(r.sw.frame) == Addr(sw.frame) && Inv(r.sw) && r.sw.unit == sw.unit
    ensures r.result.Some? ==> r.sw.last == Some(stamp)
  {
    var t := WriteTimeStamp(sw, stamp);
    if t.result.None? then SeqStep(t.sw, None)
    else
      var c := CopyAtom(t.sw.frame, AtomSpace(atom).bytes);
      SeqStep(t.sw.(frame := c.writer), if c.result.Ok? then Some(()) else None)
  }

  // ---------------------------------------------------------------------
  // The order of time stamps

  /** Where a time stamp lies in time, when it can be compared at all. */
  function Key(t: TimeStamp): int {
    if t.Frames? then t.frames else OrderKey(t.beats)
  }

  /** Every frame count, and every beat position that is a number, can be
      compared. */
  predicate Comparable(t: TimeStamp) {
    t.Frames? || !IsNaN(t.beats)
  }

  /** For time stamps that can be compared, `write_time_stamp`'s `>` is the
      order of `Key`. */
  lemma {:induction false} OlderIsKey(last: TimeStamp, stamp: TimeStamp)
    requires last.Frames? == stamp.Frames? && Comparable(last) && Comparable(stamp)
    ensures Older(last, stamp) <==> Key(last) > Key(stamp)
  {
  }

  /** The time stamps of `events` never go back in time, and none is later
      than `last`. */
  predicate Ordered(events: seq<Event>, last: Option<TimeStamp>) {
    (forall i, j :: 0 <= i < j < |events| ==> Key(events[i].stamp) <= Key(events[j].stamp)) &&
    (events != [] ==> last.Some? && Key(events[|events| - 1].stamp) <= Key(last.value))
  }

  /** The writer keeps its events in time order: after an event is written
      through `init`, the events so far with the new one appended never go
      back in time; after a refused or failed `init`, the old events still
      are in order with respect to whatever the last time stamp now is. This
      needs every time stamp involved to be comparable. */
  lemma {:induction false} InitKeepsOrder(sw: SequenceWriter, events: seq<Event>, stamp: TimeStamp, urid: u32, body: seq<byte>)
    requires Wf(sw.frame) && Inv(sw) && Ordered(events, sw.last)
    requires Comparable(stamp) && (sw.last.Some? ==> Comparable(sw.last.value))
    ensures var r := InitEvent(sw, stamp, urid);
            (r.result.Some? ==> Ordered(events + [Event(stamp, urid, body)], r.sw.last)) &&
            Ordered(events, r.sw.last)
  {
    var r := InitEvent(sw, stamp, urid);
    if Accepts(sw.unit, sw.last, stamp) {
      OrderStep(sw.unit, sw.last, events, stamp, urid, body);
    }
  }

  /** `InitKeepsOrder` on the time stamps alone. */
  lemma {:induction false} OrderStep(unit: TimeStampUnit, last: Option<TimeStamp>, events: seq<Event>, stamp: TimeStamp,
                                     urid: u32, body: seq<byte>)
    requires (last.Some? ==> InUnit(last.value, unit) && Comparable(last.value)) && Comparable(stamp)
    requires Ordered(events, last) && Accepts(unit, last, stamp)
    ensures Ordered(events + [Event(stamp, urid, body)], Some(stamp)) && Ordered(events, Some(stamp))
  {
    if last.Some? {
      OlderIsKey(last.value, stamp);
    }
    var es := events + [Event(stamp, urid, body)];
    assert forall i :: 0 <= i < |events| ==> es[i] == events[i];
  }

  /** A beat position that is not a number slips past the order check and
      lets an earlier time stamp follow it: after 1.0, a not-a-number and
      then 0.5 are both accepted. */
  lemma {:induction false} NaNBreaksOrder(sw: SequenceWriter)
    requires Wf(sw.frame) && sw.unit == InBeats && sw.last == Some(BeatsPerMinute(F64_ONE))
    ensures var r1 := WriteTimeStamp(sw, BeatsPerMinute(F64_NAN));
            r1.sw.last == Some(BeatsPerMinute(F64_NAN)) &&
            WriteTimeStamp(r1.sw, BeatsPerMinute(F64_HALF)).sw.last == Some(BeatsPerMinute(F64_HALF))
  {
    F64GreaterFacts(F64_NAN);
  }

  // ---------------------------------------------------------------------
  // Writing, through a stack

  /** `write_time_stamp` then `write_new`, which `init` does, is the record
      then the atom writer of `RecordChildLaidOut`. */
  lemma {:induction false} InitEventSteps(sw: SequenceWriter, stamp: TimeStamp, urid: u32)
    requires Wf(sw.frame) && Inv(sw) && InitEvent(sw, stamp, urid).result.Some?
    ensures var t := WriteValue(sw.frame, RECORD, StampBytes(stamp));
            t.result.Ok? && WriteNew(t.writer, urid).result.Ok? &&
            InitEvent(sw, stamp, urid).result.value == WriteNew(t.writer, urid).result.value &&
            InitEvent(sw, stamp, urid).sw.last == Some(stamp)
  {
  }

  /** An event written through `init`, whatever its atom, extends the
      sequence's run by one event with that time stamp, type and body. */
  lemma {:induction false} EventGrows(start: Writer, sw: SequenceWriter, items: seq<Item>, stamp: TimeStamp, urid: u32,
                                      top: Writer, body: seq<byte>)
    requires RunSince(start, sw.frame, items) && Inv(sw) && |body| < U32_LIMIT
    requires InitEvent(sw, stamp, urid).result.Some?
    requires Appended(InitEvent(sw, stamp, urid).result.value, top, body)
    ensures top.AtomWriter?
    ensures RunSince(start, top.parent, items + [EventItem(Event(stamp, urid, body))])
  {
    EventChild(sw, stamp, urid, top, body);
    RunGrowsRecord(start, sw.frame, top.parent, Since(sw.frame, top.parent), items, StampBytes(stamp), urid, body);
  }

  /** An event written through `init` is its time stamp and its atom
      appended to the sequence's frame. */
  lemma {:induction false} EventChild(sw: SequenceWriter, stamp: TimeStamp, urid: u32, top: Writer, body: seq<byte>)
    requires Stack(sw.frame) && Inv(sw)
    requires InitEvent(sw, stamp, urid).result.Some?
    requires Appended(InitEvent(sw, stamp, urid).result.value, top, body)
    ensures top.AtomWriter? && Appended(sw.frame, top.parent, Since(sw.frame, top.parent))
    ensures RecordLaidOut(Since(sw.frame, top.parent), PadFor(sw.frame, RECORD), StampBytes(stamp), urid, body)
  {
    InitEventSteps(sw, stamp, urid);
    RecordChildLaidOut(sw.frame, StampBytes(stamp), urid, top, body);
  }

  /** `init` then `with_unit` right after `write_atom`: the header
      `{unit, 0}` goes right after the sequence's atom header, with no
      padding. */
  lemma {:induction false} HeaderWritten(w: Writer, urid: u32, u: TimeStampUrid)
    requires Stack(w) && WriteNew(w, urid).result.Ok?
    requires Init(WriteNew(w, urid).result.value).result.Ok?
    ensures var aw := WriteNew(w, urid).result.value;
            var sw := WithUnit(Init(aw).result.value, u);
            Appended(aw, sw.frame, SequenceBody(UnitUrid(u))) &&
            Addr(aw) + Used(aw) == Addr(w) + Used(w) + PadFor(w, ATOM_HEADER) + HEADER_SIZE
  {
    var aw := WriteNew(w, urid).result.value;
    HeaderPadding(w, urid);
    ReservedAppended(aw, u);
  }

  /** `with_unit` over the room `init` appended: the header replaces the
      zeros. */
  lemma {:induction false} ReservedAppended(aw: Writer, u: TimeStampUrid)
    requires Stack(aw) && PadFor(aw, SEQUENCE_BODY) == 0 && Init(aw).result.Ok?
    ensures Appended(aw, WithUnit(Init(aw).result.value, u).frame, SequenceBody(UnitUrid(u)))
  {
    var zeros := Zeros(SEQUENCE_BODY.size);
    var body := SequenceBody(UnitUrid(u));
    WriteValueAppended(aw, SEQUENCE_BODY, zeros);
    var t := WriteValue(aw, SEQUENCE_BODY, zeros);
    var c := Buffer(t.writer)[Used(aw)..Used(t.writer)];
    OverwriteAppended(aw, t.writer, c, Used(aw), 0, body, Overwrite(c, 0, body));
    OverwriteWhole(c, body);
  }

  /** Overwriting all of a chunk gives the new bytes. */
  lemma {:induction false} OverwriteWhole(c: seq<byte>, data: seq<byte>)
    requires |c| == |data|
    ensures Overwrite(c, 0, data) == data
  {
    assert Overwrite(c, 0, data) == c[..0] + data + c[|data|..];
  }

  /** Right after `write_new` the sequence's header needs no padding, and it
      starts right after the atom's header. */
  lemma {:induction false} HeaderPadding(w: Writer, urid: u32)
    requires Stack(w) && WriteNew(w, urid).result.Ok?
    ensures var aw := WriteNew(w, urid).result.value;
            Stack(aw) && PadFor(aw, SEQUENCE_BODY) == 0 &&
            Addr(aw) + Used(aw) == Addr(w) + Used(w) + PadFor(w, ATOM_HEADER) + HEADER_SIZE
  {
    var aw := WriteNew(w, urid).result.value;
    BodyStart(w, urid);
    PaddingUnique(Addr(aw) + Used(aw), 8, 0);
  }

  /** Round trip, writer side: a sequence written with `write_atom`, `init`
      and `with_unit`, whose writer then appended anything: the parent holds,
      after the padding to 8, the sequence's header announcing the header
      bytes and what followed, and the events start 16 bytes after the
      padding. `SequenceRead` reads it back. */
  lemma {:induction false} SequenceWritten(w: Writer, urid: u32, u: TimeStampUrid, tw: Writer)
    requires Stack(w) && WriteNew(w, urid).result.Ok?
    requires Init(WriteNew(w, urid).result.value).result.Ok?
    requires var sw := WithUnit(Init(WriteNew(w, urid).result.value).result.value, u);
             Appended(sw.frame, tw, Since(sw.frame, tw))
    ensures var sw := WithUnit(Init(WriteNew(w, urid).result.value).result.value, u);
            tw.AtomWriter? &&
            AtomLaidOut(Since(w, tw.parent), PadFor(w, ATOM_HEADER), urid, SequenceBody(UnitUrid(u)) + Since(sw.frame, tw)) &&
            Addr(sw.frame) + Used(sw.frame) == Addr(w) + Used(w) + PadFor(w, ATOM_HEADER) + HEADER_SIZE + SEQUENCE_BODY.size
  {
    var aw := WriteNew(w, urid).result.value;
    var sw := WithUnit(Init(aw).result.value, u);
    var head := SequenceBody(UnitUrid(u));
    HeaderWritten(w, urid, u);
    AppendedTrans(aw, sw.frame, tw, head, Since(sw.frame, tw));
    AtomAppended(w, urid, tw, head + Since(sw.frame, tw));
  }

  /** Round trip, read side: a sequence atom laid out after the padding to
      8, whose body is a header storing the unit's URID and then a run of
      events in that unit, reads back in that unit, with exactly those
      events, in order. */
  lemma {:induction false} SequenceRead(x: nat, c: seq<byte>, pad: nat, urid: u32, u: TimeStampUrid, bpm: Urid, run: seq<byte>,
                                        items: seq<Item>, events: seq<Event>, start: nat)
    requires pad == Padding(x, 8) && AtomLaidOut(c, pad, urid, SequenceBody(UnitUrid(u)) + run)
    requires |SequenceBody(UnitUrid(u)) + run| < U32_LIMIT
    requires u.BeatsUrid? <==> UnitUrid(u) == bpm
    requires start == x + pad + HEADER_SIZE + SEQUENCE_BODY.size && Laid(start, run, items) && Describes(items, events, UnitOf(u))
    ensures ReadSequence(Space(x, c), urid, bpm) == Some((UnitOf(u), events))
  {
    CollectLaid(start, run, items, events, UnitOf(u));
    ReadBack(x, c, pad, urid, u, bpm, run, events, start);
  }

  /** `SequenceRead` once the events are known to read back. */
  lemma {:induction false} ReadBack(x: nat, c: seq<byte>, pad: nat, urid: u32, u: TimeStampUrid, bpm: Urid, run: seq<byte>,
                                    events: seq<Event>, start: nat)
    requires pad == Padding(x, 8) && AtomLaidOut(c, pad, urid, SequenceBody(UnitUrid(u)) + run)
    requires |SequenceBody(UnitUrid(u)) + run| < U32_LIMIT
    requires u.BeatsUrid? <==> UnitUrid(u) == bpm
    requires start == x + pad + HEADER_SIZE + SEQUENCE_BODY.size
    requires Views(Collect(SequenceIterator(Space(start, run), UnitOf(u)))) == events
    ensures ReadSequence(Space(x, c), urid, bpm) == Some((UnitOf(u), events))
  {
    var body := SequenceBody(UnitUrid(u)) + run;
    var a := UnidentifiedAtom(x + pad, AtomHeader(|body|, urid), body);
    var h := SequenceHeaderReader(UnitUrid(u), Space(start, run));
    ReadLaidOut(x, c, pad, urid, body);
    BodyRead(x + pad + HEADER_SIZE, UnitUrid(u), run);
    assert HeaderRead(h, bpm) == SequenceIterator(Space(start, run), UnitOf(u));
    ReadSequenceOf(Space(x, c), a, Space(x + |c|, []), urid, bpm, h);
  }

  /** `ReadSequence` once `next_atom` and `Sequence::read` are known. */
  lemma {:induction false} ReadSequenceOf(s: Space, a: UnidentifiedAtom, rest: Space, urid: u32, bpm: Urid, h: SequenceHeaderReader)
    requires NextAtom(s) == Ok((a, rest)) && Valid(a) && a.header.urid == urid && Read(Body(a)) == Some(h)
    ensures ReadSequence(s, urid, bpm) == Some((HeaderRead(h, bpm).unit, Views(Collect(HeaderRead(h, bpm)))))
  {
  }

  /** `Sequence::read` on an 8-aligned body: the stored unit, and a reader
      over what follows the header. */
  lemma {:induction false} BodyRead(at: nat, unit: u32, run: seq<byte>)
    requires at % 8 == 0
    ensures Read(Space(at, SequenceBody(unit) + run)) == Some(SequenceHeaderReader(unit, Space(at + 8, run)))
  {
    DivModUnique(at, 4, (at / 8) * 2, 0);
    PaddingUnique(at, 4, 0);
    var b := SequenceBody(unit) + run;
    assert b[0..4] == EncodeU32(unit) && b[8..] == run;
    U32RoundTrip(unit);
  }

  /** The size test of sequence.rs: a header and two events whose atoms have
      8-byte bodies (an `Int` and a `Long`) make a sequence body of
      8 + (8 + 8 + 8) + (8 + 8 + 8) = 56 bytes, with no padding. */
  lemma {:induction false} SequenceSizeExample(at: nat, first: Event, second: Event)
    requires at % 8 == 0 && |first.body| == 8 && |second.body| == 8
    ensures var a := at + SEQUENCE_BODY.size;
            var n1 := ItemEnd(a, EventItem(first));
            n1 == 24 && SEQUENCE_BODY.size + n1 + ItemEnd(a + n1, EventItem(second)) == 56
  {
    EightAfter(at, at + 8);
    PaddingUnique(at + 8, 8, 0);
    DivModUnique(at + 32, 8, at / 8 + 4, 0);
    PaddingUnique(at + 32, 8, 0);
  }

  /** The writing test of sequence.rs, as far as the time stamps go: in a
      frame-measured sequence, the events at frames 0 and then 1 are both
      accepted, and a later event at frame 0 would be refused. */
  lemma {:induction false} StampOrderExample(hw: SequenceHeaderWriter, frameUrid: Urid)
    requires Wf(hw.frame) && hw.header + SEQUENCE_BODY.size <= Used(hw.frame)
    ensures var sw := WithUnit(hw, FramesUrid(frameUrid));
            var r0 := WriteTimeStamp(sw, Frames(0));
            var r1 := WriteTimeStamp(r0.sw, Frames(1));
            r0.sw.last == Some(Frames(0)) && r1.sw.last == Some(Frames(1)) &&
            WriteTimeStamp(r1.sw, Frames(0)) == SeqStep(r1.sw, None) &&
            WriteTimeStamp(r1.sw, BeatsPerMinute(F64_ONE)) == SeqStep(r1.sw, None)
  {
  }
}
