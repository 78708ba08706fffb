/** Objects and properties (atom/src/atoms/object.rs): an object's body is a
    header `{id, otype}` followed by a run of properties, each an 8-aligned
    record `{key, context}` and then an atom. An absent id or context is
    stored as 0; an object type or property key of 0 is rejected when read.
    `Blank` reads and writes exactly as `Object` does, so the model has no
    separate members for it. */
module Object {
  import opened Bytes
  import opened Wrappers
  import opened Errors
  import opened Aligned
  import opened Util
  import opened Header
  import opened Allocator
  import opened SpaceWriter
  import opened Appending
  import opened Reader
  import opened Unidentified
  import opened Frames
  import opened Urid

  // ---------------------------------------------------------------------
  // Headers and their bytes

  /** `ObjectHeader`: an optional id and the object's type. */
  datatype ObjectHeader = ObjectHeader(id: Option<Urid>, otype: Urid)

  /** `PropertyHeader`: the key and an optional context. */
  datatype PropertyHeader = PropertyHeader(key: Urid, context: Option<Urid>)

  /** `LV2_Atom_Object_Body`: two `u32`s, aligned to 4. */
  const OBJECT_BODY: Layout := Layout(8, 4)

  /** `map(URID::get).unwrap_or(0)`: an optional URID as it is stored. */
  function OrZero(o: Option<Urid>): (x: u32)
    ensures x == 0 <==> o.None?
  {
    if o.Some? then o.value else 0
  }

  /** `URID::try_from(x).ok()` undoes `OrZero`, and `OrZero` undoes it. */
  lemma {:induction false} OrZeroRoundTrip(o: Option<Urid>, x: u32)
    ensures NewUrid(OrZero(o)) == o
    ensures OrZero(NewUrid(x)) == x
  {
  }

  /** The bytes `write_header` stores: the id (0 for none), then the type. */
  function ObjectBody(h: ObjectHeader): (b: seq<byte>)
    ensures |b| == OBJECT_BODY.size
  {
    EncodeU32(OrZero(h.id)) + EncodeU32(h.otype)
  }

  /** The header `Object::read` makes of the stored bytes: an id of 0 is no
      id, and a type of 0 is an invalid value. */
  function DecodeObjectBody(b: seq<byte>): (r: Result<ObjectHeader, AtomReadError>)
    requires |b| == OBJECT_BODY.size
    ensures r.Err? <==> DecodeU32(b[4..]) == 0
    ensures r.Err? ==> r.error == InvalidAtomValue
    ensures r.Ok? ==> OrZero(r.value.id) == DecodeU32(b[..4]) && r.value.otype == DecodeU32(b[4..])
  {
    var id := NewUrid(DecodeU32(b[..4]));
    match NewUrid(DecodeU32(b[4..]))
    case None => Err(InvalidAtomValue)
    case Some(otype) => Ok(ObjectHeader(id, otype))
  }

  /** An object header survives being stored and read back, and stored
      bytes that read as a header are that header's bytes. */
  lemma {:induction false} ObjectBodyRoundTrip(h: ObjectHeader, b: seq<byte>)
    requires |b| == OBJECT_BODY.size
    ensures DecodeObjectBody(ObjectBody(h)) == Ok(h)
    ensures DecodeObjectBody(b).Ok? ==> ObjectBody(DecodeObjectBody(b).value) == b
  {
    var e := ObjectBody(h);
    assert e[..4] == EncodeU32(OrZero(h.id)) && e[4..] == EncodeU32(h.otype);
    U32RoundTrip(OrZero(h.id));
    U32RoundTrip(h.otype);
    OrZeroRoundTrip(h.id, 0);
    U32Bytes(b[..4]);
    U32Bytes(b[4..]);
    assert b == b[..4] + b[4..];
  }

  /** The bytes `Property::write_header` stores, a `StrippedPropertyHeader`:
      the key, then the context (0 for none). */
  function PropertyRecord(h: PropertyHeader): (b: seq<byte>)
    ensures |b| == RECORD.size
  {
    EncodeU32(h.key) + EncodeU32(OrZero(h.context))
  }

  /** The header `Property::read_body` makes of the stored record: a key of
      0 is an invalid value, and a context of 0 is no context. */
  function DecodePropertyRecord(b: seq<byte>): (r: Result<PropertyHeader, AtomReadError>)
    requires |b| == RECORD.size
    ensures r.Err? <==> DecodeU32(b[..4]) == 0
    ensures r.Err? ==> r.error == InvalidAtomValue
    ensures r.Ok? ==> r.value.key == DecodeU32(b[..4]) && OrZero(r.value.context) == DecodeU32(b[4..])
  {
    match NewUrid(DecodeU32(b[..4]))
    case None => Err(InvalidAtomValue)
    case Some(key) => Ok(PropertyHeader(key, NewUrid(DecodeU32(b[4..]))))
  }

  /** A property header survives being stored and read back, and a stored
      record that reads as a header is that header's bytes. */
  lemma {:induction false} PropertyRecordRoundTrip(h: PropertyHeader, b: seq<byte>)
    requires |b| == RECORD.size
    ensures DecodePropertyRecord(PropertyRecord(h)) == Ok(h)
    ensures DecodePropertyRecord(b).Ok? ==> PropertyRecord(DecodePropertyRecord(b).value) == b
  {
    var e := PropertyRecord(h);
    assert e[..4] == EncodeU32(h.key) && e[4..] == EncodeU32(OrZero(h.context));
    U32RoundTrip(h.key);
    U32RoundTrip(OrZero(h.context));
    OrZeroRoundTrip(h.context, 0);
    U32Bytes(b[..4]);
    U32Bytes(b[4..]);
    assert b == b[..4] + b[4..];
  }

  // ---------------------------------------------------------------------
  // Reading

  /** `ObjectReader`: a reader over the properties still to come. */
  datatype ObjectReader = ObjectReader(reader: Space)

  /** `Object::read`: the header by `next_value`, then a reader over the
      rest of the body. It fails when the body is too short for the header
      or the type is 0. */
  function Read(body: Space): (r: Result<(ObjectHeader, ObjectReader), AtomReadError>)
    ensures var p := Padding(body.addr, OBJECT_BODY.align);
            r.Ok? <==> p + OBJECT_BODY.size <= |body.bytes| && DecodeU32(body.bytes[p + 4..p + 8]) != 0
    ensures var p := Padding(body.addr, OBJECT_BODY.align);
            r.Ok? ==> ObjectBody(r.value.0) == body.bytes[p..p + 8] &&
                      r.value.1.reader == Space(body.addr + p + 8, body.bytes[p + 8..])
  {
    var p := Padding(body.addr, OBJECT_BODY.align);
    match NextValue(body, OBJECT_BODY)
    case Err(e) => Err(e)
    case Ok(v) =>
      assert v.0[4..] == body.bytes[p + 4..p + 8];
      match DecodeObjectBody(v.0)
      case Err(e) => Err(e)
      case Ok(h) =>
        ObjectBodyRoundTrip(h, v.0);
        Ok((h, ObjectReader(v.1)))
  }

  /** `Property::read_body`: the record by `next_value`, then the value atom
      by `next_atom`. It fails when either does not fit or the key is 0; on
      success the reader moves strictly forward. */
  function ReadBody(s: Space): (r: Result<((PropertyHeader, UnidentifiedAtom), Space), AtomReadError>)
    ensures r.Ok? ==> Valid(r.value.0.1) && SuffixOf(r.value.1, s) && |r.value.1.bytes| < |s.bytes|
  {
    match NextValue(s, RECORD)
    case Err(e) => Err(e)
    case Ok(v) =>
      match DecodePropertyRecord(v.0)
      case Err(e) => Err(e)
      case Ok(h) =>
        match NextAtom(v.1)
        case Err(e) => Err(e)
        case Ok(a) =>
          SuffixOfTrans(s, v.1, a.1);
          assert |a.1.bytes| <= |v.1.bytes| < |s.bytes|;
          Ok(((h, a.0), a.1))
  }

  /** A property read succeeds exactly when, after the padding to 8, the
      record fits, its key is not 0 and an atom follows; it then yields the
      record's header and that atom. */
  lemma {:induction false} ReadBodySpec(s: Space)
    ensures var p := Padding(s.addr, RECORD.align);
            ReadBody(s).Ok? <==> p + RECORD.size <= |s.bytes| && DecodeU32(s.bytes[p..p + 4]) != 0 &&
                                 NextAtom(Space(s.addr + p + 8, s.bytes[p + 8..])).Ok?
    ensures var p := Padding(s.addr, RECORD.align);
            var r := ReadBody(s);
            r.Ok? ==> p + 8 <= |s.bytes| && PropertyRecord(r.value.0.0) == s.bytes[p..p + 8] &&
                      var n := NextAtom(Space(s.addr + p + 8, s.bytes[p + 8..]));
                      n.Ok? && (r.value.0.1, r.value.1) == n.value
  {
    var p := Padding(s.addr, RECORD.align);
    if p + RECORD.size <= |s.bytes| {
      var rest := Space(s.addr + p + 8, s.bytes[p + 8..]);
      var b := s.bytes[p..p + 8];
      assert NextValue(s, RECORD) == Ok((b, rest));
      assert b[..4] == s.bytes[p..p + 4];
      PropertyRecordRoundTrip(PropertyHeader(1, None), b);
      if DecodeU32(b[..4]) != 0 && NextAtom(rest).Ok? {
        var h := DecodePropertyRecord(b).value;
        var n := NextAtom(rest).value;
        assert ReadBody(s) == Ok(((h, n.0), n.1));
      }
    }
  }

  /** `ObjectReader::next`: the next property, or nothing once a property
      read fails, in which case the reader stays where it was. */
  function Next(it: ObjectReader): (r: (ObjectReader, Option<(PropertyHeader, UnidentifiedAtom)>))
    ensures r.1.Some? <==> ReadBody(it.reader).Ok?
    ensures r.1.None? ==> r.0 == it
    ensures r.1.Some? ==> Valid(r.1.value.1) && |r.0.reader.bytes| < |it.reader.bytes|
  {
    var (s, res) := TryRead(it.reader, ReadBody);
    if res.Ok? then (ObjectReader(s), Some(res.value)) else (ObjectReader(s), None)
  }

  /** `collect()`: the properties `next` yields until it yields nothing. */
  function Collect(it: ObjectReader): (ps: seq<(PropertyHeader, UnidentifiedAtom)>)
    ensures forall i :: 0 <= i < |ps| ==> Valid(ps[i].1)
    decreases |it.reader.bytes|
  {
    var (it', p) := Next(it);
    match p
    case None => []
    case Some(prop) => [prop] + Collect(it')
  }

  /** A property as the model compares it: its header, and the type and body
      of its value atom. */
  datatype Property = Property(header: PropertyHeader, urid: u32, body: seq<byte>)

  /** The properties an iteration yielded, as headers, types and bodies. */
  function Views(ps: seq<(PropertyHeader, UnidentifiedAtom)>): (r: seq<Property>)
    ensures |r| == |ps|
    ensures forall i :: 0 <= i < |ps| ==> r[i] == Property(ps[i].0, ps[i].1.header.urid, ps[i].1.body)
  {
    if ps == [] then [] else [Property(ps[0].0, ps[0].1.header.urid, ps[0].1.body)] + Views(ps[1..])
  }

  /** A property as an element of a run: its record, then its value atom. */
  function PropertyItem(p: Property): (it: Item)
    ensures |it.prefix| == RECORD.size
  {
    Item(PropertyRecord(p.header), p.urid, p.body)
  }

  /** The run `items` holds the properties `props`, one element each. */
  predicate Describes(items: seq<Item>, props: seq<Property>)
    decreases |items|
  {
    |items| == |props| &&
    (items != [] ==> items[0] == PropertyItem(props[0]) && Describes(items[1..], props[1..]))
  }

  /** Reading a run of properties gives back every property, with its key,
      context, type and body, in the order they were laid out, and then
      stops. */
  lemma {:induction false} CollectLaid(addr: nat, bytes: seq<byte>, items: seq<Item>, props: seq<Property>)
    requires Laid(addr, bytes, items) && Describes(items, props)
    ensures Views(Collect(ObjectReader(Space(addr, bytes)))) == props
    decreases |items|, 1
  {
    if items == [] {
      NothingPastRun(addr, RECORD);
    } else {
      var n := ItemEnd(addr, items[0]);
      FrontProperty(addr, bytes, items, props, n);
      CollectRest(addr, bytes, items, props, n);
    }
  }

  /** The step of `CollectLaid`: the first property, then the rest. */
  lemma {:induction false} CollectRest(addr: nat, bytes: seq<byte>, items: seq<Item>, props: seq<Property>, n: nat)
    requires props != [] && |props[0].body| < U32_LIMIT
    requires var p := Padding(addr, 8);
             n == p + 8 + HEADER_SIZE + |props[0].body| && n <= |bytes| &&
             bytes[p..] == PropertyRecord(props[0].header) + Encode(AtomHeader(|props[0].body|, props[0].urid)) + props[0].body + bytes[n..]
    requires |items| == |props| && Laid(addr + n, bytes[n..], items[1..]) && Describes(items[1..], props[1..])
    ensures Views(Collect(ObjectReader(Space(addr, bytes)))) == props
    decreases |items|, 0
  {
    CollectLaid(addr + n, bytes[n..], items[1..], props[1..]);
    HeadStep(addr, bytes, props[0], Padding(addr, 8), n);
    assert props == [props[0]] + props[1..];
  }

  /** The bytes of the first property of a run of properties, and the run
      after it. */
  lemma {:induction false} FrontProperty(addr: nat, bytes: seq<byte>, items: seq<Item>, props: seq<Property>, n: nat)
    requires Laid(addr, bytes, items) && Describes(items, props) && items != [] && n == ItemEnd(addr, items[0])
    ensures props != [] && |props[0].body| < U32_LIMIT
    ensures var p := Padding(addr, 8);
            n == p + 8 + HEADER_SIZE + |props[0].body| && n <= |bytes| &&
            bytes[p..] == PropertyRecord(props[0].header) + Encode(AtomHeader(|props[0].body|, props[0].urid)) + props[0].body + bytes[n..]
    ensures Laid(addr + n, bytes[n..], items[1..]) && Describes(items[1..], props[1..])
  {
    LaidFrontBytes(addr, bytes, items, items[0], n);
  }

  /** What the reader yields first, on bytes holding after the padding a
      property's record, its value atom and then anything. */
  lemma {:induction false} HeadStep(addr: nat, bytes: seq<byte>, prop: Property, p: nat, n: nat)
    requires p == Padding(addr, 8) && |prop.body| < U32_LIMIT
    requires n == p + 8 + HEADER_SIZE + |prop.body| && n <= |bytes|
    requires bytes[p..] == PropertyRecord(prop.header) + Encode(AtomHeader(|prop.body|, prop.urid)) + prop.body + bytes[n..]
    ensures Views(Collect(ObjectReader(Space(addr, bytes)))) == [prop] + Views(Collect(ObjectReader(Space(addr + n, bytes[n..]))))
  {
    var first := (prop.header, UnidentifiedAtom(addr + p + 8, AtomHeader(|prop.body|, prop.urid), prop.body));
    var rest := Space(addr + n, bytes[n..]);
    ReadRecordThenAtom(addr, p, bytes, PropertyRecord(prop.header), AtomHeader(|prop.body|, prop.urid), prop.body, n);
    FrontRead(addr, bytes, prop, p, n);
    CollectStep(Space(addr, bytes), first, rest);
    ViewsCons(first, Collect(ObjectReader(rest)));
  }

  /** `read_body` on a record followed by an atom, once both reads are
      known. */
  lemma {:induction false} FrontRead(addr: nat, bytes: seq<byte>, prop: Property, p: nat, n: nat)
    requires p == Padding(addr, 8) && |prop.body| < U32_LIMIT && p + 8 <= n <= |bytes|
    requires NextValue(Space(addr, bytes), Layout(8, 8)) == Ok((PropertyRecord(prop.header), Space(addr + p + 8, bytes[p + 8..])))
    requires NextAtom(Space(addr + p + 8, bytes[p + 8..]))
             == Ok((UnidentifiedAtom(addr + p + 8, AtomHeader(|prop.body|, prop.urid), prop.body), Space(addr + n, bytes[n..])))
    ensures ReadBody(Space(addr, bytes))
            == Ok(((prop.header, UnidentifiedAtom(addr + p + 8, AtomHeader(|prop.body|, prop.urid), prop.body)),
                   Space(addr + n, bytes[n..])))
  {
    PropertyRecordRoundTrip(prop.header, PropertyRecord(prop.header));
  }

  /** When a property read succeeds, the reader yields that property
      first. */
  lemma {:induction false} CollectStep(s: Space, first: (PropertyHeader, UnidentifiedAtom), rest: Space)
    requires ReadBody(s) == Ok((first, rest))
    ensures Collect(ObjectReader(s)) == [first] + Collect(ObjectReader(rest))
  {
    assert TryRead(s, ReadBody) == (rest, Ok(first));
    assert Next(ObjectReader(s)) == (ObjectReader(rest), Some(first));
  }

  /** The views of a property in front of others. */
  lemma {:induction false} ViewsCons(first: (PropertyHeader, UnidentifiedAtom), tail: seq<(PropertyHeader, UnidentifiedAtom)>)
    ensures Views([first] + tail) == [Property(first.0, first.1.header.urid, first.1.body)] + Views(tail)
  {
    assert ([first] + tail)[1..] == tail;
  }

  // ---------------------------------------------------------------------
  // Writing

  /** `ObjectHeaderWriter`: the object's atom writer before the header. */
  datatype ObjectHeaderWriter = ObjectHeaderWriter(frame: Writer)

  /** `ObjectWriter`: the object's atom writer after the header. */
  datatype ObjectWriter = ObjectWriter(frame: Writer)

  /** `Object::write`: wraps the frame; it never fails. */
  function Write(frame: Writer): (r: Result<ObjectHeaderWriter, AtomWriteError>)
    ensures r.Ok? && r.value.frame == frame
  {
    Ok(ObjectHeaderWriter(frame))
  }

  /** `ObjectHeaderWriter::write_header`: the header's bytes by
      `write_value`, then the property writer over the same frame. */
  function WriteHeader(hw: ObjectHeaderWriter, h: ObjectHeader): (s: Step<ObjectWriter>)
    requires Wf(hw.frame)
    ensures Wf(s.writer) && Addr(s.writer) == Addr(hw.frame)
    ensures s.result.Ok? ==> s.result.value.frame == s.writer
  {
    var t := WriteValue(hw.frame, OBJECT_BODY, ObjectBody(h));
    if t.result.Err? then Step(t.writer, Err(t.result.error))
    else Step(t.writer, Ok(ObjectWriter(t.writer)))
  }

  /** `Property::write_header`: the record by `write_value`. */
  function WritePropertyHeader(frame: Writer, h: PropertyHeader): (s: Step<()>)
    requires Wf(frame)
    ensures Wf(s.writer) && Addr(s.writer) == Addr(frame)
  {
    var t := WriteValue(frame, RECORD, PropertyRecord(h));
    if t.result.Err? then Step(t.writer, Err(t.result.error)) else Step(t.writer, Ok(()))
  }

  /** `new_property` (context `None`) and `new_property_with_context`: the
      record, then `write_atom` of the value, which hands out the value's
      atom writer on top of the object's frame. */
  function NewProperty(ow: ObjectWriter, key: Urid, context: Option<Urid>, urid: u32): (s: Step<Writer>)
    requires Wf(ow.frame)
    ensures Wf(s.writer) && Addr(s.writer) == Addr(ow.frame)
    ensures s.result.Ok? ==> s.result.value.AtomWriter? && s.result.value.parent == s.writer
  {
    var t := WritePropertyHeader(ow.frame, PropertyHeader(key, context));
    if t.result.Err? then Step(t.writer, Err(t.result.error))
    else WriteNew(t.writer, urid)
  }

  /** A property written through `new_property`, whatever its value,
      extends the object's run by one property with that key, context, type
      and body. */
  lemma {:induction false} PropertyGrows(start: Writer, ow: ObjectWriter, items: seq<Item>, key: Urid, context: Option<Urid>,
                                         urid: u32, top: Writer, body: seq<byte>)
    requires RunSince(start, ow.frame, items) && |body| < U32_LIMIT
    requires NewProperty(ow, key, context, urid).result.Ok?
    requires Appended(NewProperty(ow, key, context, urid).result.value, top, body)
    ensures top.AtomWriter?
    ensures RunSince(start, top.parent, items + [PropertyItem(Property(PropertyHeader(key, context), urid, body))])
  {
    var record := PropertyRecord(PropertyHeader(key, context));
    PropertyChild(ow, key, context, urid, top, body);
    RunGrowsRecord(start, ow.frame, top.parent, Since(ow.frame, top.parent), items, record, urid, body);
  }

  /** A property written through `new_property` is its record and its value
      atom appended to the object's frame. */
  lemma {:induction false} PropertyChild(ow: ObjectWriter, key: Urid, context: Option<Urid>, urid: u32, top: Writer, body: seq<byte>)
    requires Stack(ow.frame)
    requires NewProperty(ow, key, context, urid).result.Ok?
    requires Appended(NewProperty(ow, key, context, urid).result.value, top, body)
    ensures top.AtomWriter? && Appended(ow.frame, top.parent, Since(ow.frame, top.parent))
    ensures RecordLaidOut(Since(ow.frame, top.parent), PadFor(ow.frame, RECORD), PropertyRecord(PropertyHeader(key, context)), urid, body)
  {
    RecordChildLaidOut(ow.frame, PropertyRecord(PropertyHeader(key, context)), urid, top, body);
  }

  /** `write_header` right after `write_atom`: the header goes right after
      the object's atom header, with no padding. */
  lemma {:induction false} HeaderWritten(w: Writer, urid: u32, h: ObjectHeader)
    requires Stack(w) && WriteNew(w, urid).result.Ok?
    requires WriteHeader(ObjectHeaderWriter(WriteNew(w, urid).result.value), h).result.Ok?
    ensures var aw := WriteNew(w, urid).result.value;
            var of := WriteHeader(ObjectHeaderWriter(aw), h).writer;
            Appended(aw, of, ObjectBody(h)) &&
            Addr(aw) + Used(aw) == Addr(w) + Used(w) + PadFor(w, ATOM_HEADER) + HEADER_SIZE
  {
    var aw := WriteNew(w, urid).result.value;
    HeaderPadding(w, urid);
    WriteValueAppended(aw, OBJECT_BODY, ObjectBody(h));
    var of := WriteHeader(ObjectHeaderWriter(aw), h).writer;
    NoPadding(Buffer(of)[Used(aw)..Used(of)], PadFor(aw, OBJECT_BODY), ObjectBody(h));
  }

  /** A chunk that is its value after no padding is its value. */
  lemma {:induction false} NoPadding(c: seq<byte>, pad: nat, value: seq<byte>)
    requires pad == 0 && pad <= |c| && c[pad..] == value
    ensures c == value
  {
    assert c == c[0..];
  }

  /** Right after `write_new` the object's header needs no padding, and it
      starts right after the atom's header. */
  lemma {:induction false} HeaderPadding(w: Writer, urid: u32)
    requires Stack(w) && WriteNew(w, urid).result.Ok?
    ensures var aw := WriteNew(w, urid).result.value;
            Stack(aw) && PadFor(aw, OBJECT_BODY) == 0 &&
            Addr(aw) + Used(aw) == Addr(w) + Used(w) + PadFor(w, ATOM_HEADER) + HEADER_SIZE
  {
    var aw := WriteNew(w, urid).result.value;
    BodyStart(w, urid);
    var y := Addr(aw) + Used(aw);
    Scalar4(y);
  }

  /** An 8-aligned address needs no padding for alignment 4. */
  lemma {:induction false} Scalar4(y: nat)
    requires y % 8 == 0
    ensures Padding(y, OBJECT_BODY.align) == 0
  {
    DivModUnique(y, 4, (y / 8) * 2, 0);
    PaddingUnique(y, 4, 0);
  }

  /** Round trip, writer side: an object written with `write_atom` and
      `write_header`, whose property writer then appended anything: the
      parent holds, after the padding to 8, the object's header announcing
      the header bytes and what followed, and the properties start 16 bytes
      after the padding. `ObjectRead` reads it back. */
  lemma {:induction false} ObjectWritten(w: Writer, urid: u32, h: ObjectHeader, tw: Writer)
    requires Stack(w) && WriteNew(w, urid).result.Ok?
    requires WriteHeader(ObjectHeaderWriter(WriteNew(w, urid).result.value), h).result.Ok?
    requires var of := WriteHeader(ObjectHeaderWriter(WriteNew(w, urid).result.value), h).writer;
             Appended(of, tw, Since(of, tw))
    ensures var of := WriteHeader(ObjectHeaderWriter(WriteNew(w, urid).result.value), h).writer;
            tw.AtomWriter? &&
            AtomLaidOut(Since(w, tw.parent), PadFor(w, ATOM_HEADER), urid, ObjectBody(h) + Since(of, tw)) &&
            Addr(of) + Used(of) == Addr(w) + Used(w) + PadFor(w, ATOM_HEADER) + HEADER_SIZE + OBJECT_BODY.size
  {
    var aw := WriteNew(w, urid).result.value;
    var of := WriteHeader(ObjectHeaderWriter(aw), h).writer;
    HeaderWritten(w, urid, h);
    AppendedTrans(aw, of, tw, ObjectBody(h), Since(of, tw));
    AtomAppended(w, urid, tw, ObjectBody(h) + Since(of, tw));
  }

  /** What a reader of objects sees in `s`: `next_atom`, then `read` of the
      atom as an object of type `urid`, then every property the reader
      yields. */
  function ReadObject(s: Space, urid: u32): (r: Option<(ObjectHeader, seq<Property>)>)
    ensures r.Some? ==> NextAtom(s).Ok? && NextAtom(s).value.0.header.urid == urid
  {
    match NextAtom(s)
    case Err(_) => None
    case Ok(v) =>
      match Unidentified.Read(v.0, urid, Read)
      case Err(_) => None
      case Ok(o) => Some((o.0, Views(Collect(o.1))))
  }

  /** Round trip, read side: an object atom laid out after the padding to 8,
      whose body is a header and then a run of properties, reads back with
      that header and exactly those properties, in order. */
  lemma {:induction false} ObjectRead(x: nat, c: seq<byte>, pad: nat, urid: u32, h: ObjectHeader, run: seq<byte>,
                                      items: seq<Item>, props: seq<Property>, start: nat)
    requires pad == Padding(x, 8) && AtomLaidOut(c, pad, urid, ObjectBody(h) + run)
    requires |ObjectBody(h) + run| < U32_LIMIT
    requires start == x + pad + HEADER_SIZE + OBJECT_BODY.size && Laid(start, run, items) && Describes(items, props)
    ensures ReadObject(Space(x, c), urid) == Some((h, props))
  {
    CollectLaid(start, run, items, props);
    ReadBack(x, c, pad, urid, h, run, props, start);
  }

  /** `ObjectRead` once the properties are known to read back. */
  lemma {:induction false} ReadBack(x: nat, c: seq<byte>, pad: nat, urid: u32, h: ObjectHeader, run: seq<byte>,
                                    props: seq<Property>, start: nat)
    requires pad == Padding(x, 8) && AtomLaidOut(c, pad, urid, ObjectBody(h) + run)
    requires |ObjectBody(h) + run| < U32_LIMIT
    requires start == x + pad + HEADER_SIZE + OBJECT_BODY.size && Views(Collect(ObjectReader(Space(start, run)))) == props
    ensures ReadObject(Space(x, c), urid) == Some((h, props))
  {
    var body := ObjectBody(h) + run;
    ReadLaidOut(x, c, pad, urid, body);
    BodyRead(x + pad + HEADER_SIZE, h, run);
    var a := UnidentifiedAtom(x + pad, AtomHeader(|body|, urid), body);
    assert Unidentified.Read(a, urid, Read) == Ok((h, ObjectReader(Space(start, run))));
  }

  /** `Object::read` on an 8-aligned body: the header, and a reader over
      what follows it. */
  lemma {:induction false} BodyRead(at: nat, h: ObjectHeader, run: seq<byte>)
    requires at % 8 == 0
    ensures Read(Space(at, ObjectBody(h) + run)) == Ok((h, ObjectReader(Space(at + OBJECT_BODY.size, run))))
  {
    Scalar4(at);
    var b := ObjectBody(h) + run;
    assert b[0..8] == ObjectBody(h) && b[8..] == run;
    ObjectBodyRoundTrip(h, ObjectBody(h));
  }

  /** The size test of object.rs: an object header and two properties whose
      values have 8-byte bodies (an `Int` and a `Float`) make an object body
      of 8 + (8 + 8 + 8) + (8 + 8 + 8) = 56 bytes, with no padding. */
  lemma {:induction false} ObjectSizeExample(at: nat, first: Property, second: Property)
    requires at % 8 == 0 && |first.body| == 8 && |second.body| == 8
    ensures var a := at + OBJECT_BODY.size;
            var n1 := ItemEnd(a, PropertyItem(first));
            n1 == 24 && OBJECT_BODY.size + n1 + ItemEnd(a + n1, PropertyItem(second)) == 56
  {
    EightAfter(at, at + 8);
    PaddingUnique(at + 8, 8, 0);
    DivModUnique(at + 32, 8, at / 8 + 4, 0);
    PaddingUnique(at + 32, 8, 0);
  }
}
