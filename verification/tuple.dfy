/** Tuples (atom/src/atoms/tuple.rs): an atom whose body is a run of atoms of
    any type, each aligned to 8, one after another. Reading iterates over the
    body with `next_atom`; writing hands out the tuple's atom writer, through
    which each element is written with `write_atom`. */
module Tuple {
  import opened Bytes
  import opened Wrappers
  import opened Errors
  import opened Aligned
  import opened Util
  import opened Header
  import opened Allocator
  import opened SpaceWriter
  import opened Appending
  import opened Reader
  import opened Unidentified
  import opened Frames

  // ---------------------------------------------------------------------
  // Reading

  /** `TupleIterator`: a reader over what is left of the body. */
  datatype TupleIterator = TupleIterator(reader: Space)

  /** `Tuple::read`: an iterator over the whole body; it never fails. */
  function Read(body: Space): (r: Result<TupleIterator, AtomReadError>)
    ensures r.Ok? && r.value.reader.addr == body.addr && Reader.RemainingBytes(r.value.reader) == body.bytes
  {
    Ok(TupleIterator(body))
  }

  /** `TupleIterator::next`: the next atom, or nothing once `next_atom`
      fails, in which case the reader stays where it was. A successful step
      moves strictly forward. */
  function Next(it: TupleIterator): (r: (TupleIterator, Option<UnidentifiedAtom>))
    ensures r.1.Some? <==> NextAtom(it.reader).Ok?
    ensures r.1.None? ==> r.0 == it
    ensures r.1.Some? ==> Valid(r.1.value) && |r.0.reader.bytes| < |it.reader.bytes|
  {
    NextAtomSpec(it.reader);
    match NextAtom(it.reader)
    case Err(_) => (it, None)
    case Ok(v) => (TupleIterator(v.1), Some(v.0))
  }

  /** `collect()`: the atoms `next` yields until it yields nothing. */
  function Collect(it: TupleIterator): (atoms: seq<UnidentifiedAtom>)
    ensures forall i :: 0 <= i < |atoms| ==> Valid(atoms[i])
    decreases |it.reader.bytes|
  {
    var (it', a) := Next(it);
    match a
    case None => []
    case Some(atom) => [atom] + Collect(it')
  }

  /** The type and body of each atom, as elements without a record. */
  function Shapes(atoms: seq<UnidentifiedAtom>): (items: seq<Item>)
    ensures |items| == |atoms|
    ensures forall i :: 0 <= i < |atoms| ==> items[i] == Item([], atoms[i].header.urid, atoms[i].body)
  {
    if atoms == [] then [] else [Item([], atoms[0].header.urid, atoms[0].body)] + Shapes(atoms[1..])
  }

  /** No element of the run carries a record: a tuple's body is atoms only. */
  predicate AtomsOnly(items: seq<Item>) {
    forall i :: 0 <= i < |items| ==> items[i].prefix == []
  }

  /** Iterating over a run of atoms gives back every atom, with its type and
      body, in the order they were laid out, and then stops. */
  lemma {:induction false} CollectLaid(addr: nat, bytes: seq<byte>, items: seq<Item>)
    requires Laid(addr, bytes, items) && AtomsOnly(items)
    ensures Shapes(Collect(TupleIterator(Space(addr, bytes)))) == items
    decreases |items|, 1
  {
    if items == [] {
      NothingPastRun(addr, RECORD);
    } else {
      var n := ItemEnd(addr, items[0]);
      FrontAtom(addr, bytes, items, n);
      CollectRest(addr, bytes, items, n);
    }
  }

  /** The step of `CollectLaid`: the first atom, then the rest of the run. */
  lemma {:induction false} CollectRest(addr: nat, bytes: seq<byte>, items: seq<Item>, n: nat)
    requires items != [] && n <= |bytes| && |items[0].body| < U32_LIMIT
    requires NextAtom(Space(addr, bytes))
             == Ok((UnidentifiedAtom(addr + Padding(addr, 8), AtomHeader(|items[0].body|, items[0].urid), items[0].body),
                    Space(addr + n, bytes[n..])))
    requires items[0] == Item([], items[0].urid, items[0].body)
    requires Laid(addr + n, bytes[n..], items[1..]) && AtomsOnly(items[1..])
    ensures Shapes(Collect(TupleIterator(Space(addr, bytes)))) == items
    decreases |items|, 0
  {
    CollectLaid(addr + n, bytes[n..], items[1..]);
    CollectFront(addr, bytes, items[0], n, items);
  }

  /** The first atom of a run of atoms, and the run after it. */
  lemma {:induction false} FrontAtom(addr: nat, bytes: seq<byte>, items: seq<Item>, n: nat)
    requires Laid(addr, bytes, items) && AtomsOnly(items) && items != [] && n == ItemEnd(addr, items[0])
    ensures n <= |bytes| && |items[0].body| < U32_LIMIT
    ensures NextAtom(Space(addr, bytes))
            == Ok((UnidentifiedAtom(addr + Padding(addr, 8), AtomHeader(|items[0].body|, items[0].urid), items[0].body),
                   Space(addr + n, bytes[n..])))
    ensures items[0] == Item([], items[0].urid, items[0].body)
    ensures Laid(addr + n, bytes[n..], items[1..]) && AtomsOnly(items[1..])
  {
    ReadLaidAtom(addr, bytes, items, items[0], n);
    LaidFront(addr, bytes, items);
    AtomsOnlyTail(items);
  }

  /** The elements after the first of a run of atoms are atoms only. */
  lemma {:induction false} AtomsOnlyTail(items: seq<Item>)
    requires AtomsOnly(items) && items != []
    ensures AtomsOnly(items[1..]) && items[0] == Item([], items[0].urid, items[0].body)
  {
    forall i | 0 <= i < |items[1..]| ensures items[1..][i].prefix == [] {
      assert items[1..][i] == items[i + 1];
    }
  }

  /** The shapes of what the iterator yields, from its first step. */
  lemma {:induction false} CollectFront(addr: nat, bytes: seq<byte>, it: Item, n: nat, items: seq<Item>)
    requires n <= |bytes| && |it.body| < U32_LIMIT
    requires NextAtom(Space(addr, bytes))
             == Ok((UnidentifiedAtom(addr + Padding(addr, 8), AtomHeader(|it.body|, it.urid), it.body),
                    Space(addr + n, bytes[n..])))
    requires items != [] && items[0] == Item([], it.urid, it.body)
    requires Shapes(Collect(TupleIterator(Space(addr + n, bytes[n..])))) == items[1..]
    ensures Shapes(Collect(TupleIterator(Space(addr, bytes)))) == items
  {
    var a := UnidentifiedAtom(addr + Padding(addr, 8), AtomHeader(|it.body|, it.urid), it.body);
    var rest := Space(addr + n, bytes[n..]);
    CollectStep(Space(addr, bytes), a, rest);
    ShapesCons(a, Collect(TupleIterator(rest)), items);
  }

  /** When `next_atom` succeeds, the iterator yields that atom first. */
  lemma {:induction false} CollectStep(s: Space, a: UnidentifiedAtom, rest: Space)
    requires NextAtom(s) == Ok((a, rest))
    ensures Collect(TupleIterator(s)) == [a] + Collect(TupleIterator(rest))
  {
  }

  /** The shapes of an atom in front of others. */
  lemma {:induction false} ShapesCons(a: UnidentifiedAtom, atoms: seq<UnidentifiedAtom>, items: seq<Item>)
    requires items != [] && items[0] == Item([], a.header.urid, a.body) && Shapes(atoms) == items[1..]
    ensures Shapes([a] + atoms) == items
  {
    assert ([a] + atoms)[1..] == atoms;
  }

  // ---------------------------------------------------------------------
  // Writing

  /** `TupleWriter`: the tuple's own atom writer. */
  datatype TupleWriter = TupleWriter(frame: Writer)

  /** `Tuple::write`: wraps the frame; it never fails. */
  function Write(frame: Writer): (r: Result<TupleWriter, AtomWriteError>)
    ensures r.Ok? && r.value.frame == frame
  {
    Ok(TupleWriter(frame))
  }

  /** `TupleWriter::init`: `write_atom` of the element inside the tuple's
      frame, which hands out the element's atom writer on top of the frame. */
  function Init(t: TupleWriter, urid: u32): (s: Step<Writer>)
    requires Wf(t.frame)
    ensures Wf(s.writer) && Addr(s.writer) == Addr(t.frame)
    ensures s.result.Ok? ==> s.result.value.AtomWriter? && s.result.value.parent == s.writer
  {
    WriteNew(t.frame, urid)
  }

  /** An element written through `init`, whatever its type, extends the
      tuple's run by one atom with that type and the body written. */
  lemma {:induction false} InitGrows(start: Writer, t: TupleWriter, items: seq<Item>, urid: u32, top: Writer, body: seq<byte>)
    requires RunSince(start, t.frame, items) && |body| < U32_LIMIT
    requires Init(t, urid).result.Ok? && Appended(Init(t, urid).result.value, top, body)
    ensures top.AtomWriter? && RunSince(start, top.parent, items + [Item([], urid, body)])
  {
    AtomAppended(t.frame, urid, top, body);
    RunGrowsAtom(start, t.frame, top.parent, Since(t.frame, top.parent), items, urid, body);
  }

  /** What a reader of tuples sees in `s`: `next_atom`, then `read` of the
      atom as a tuple of type `urid`, then every element the iterator
      yields. */
  function ReadTuple(s: Space, urid: u32): (r: Option<seq<Item>>)
    ensures r.Some? ==> NextAtom(s).Ok? && NextAtom(s).value.0.header.urid == urid
  {
    match NextAtom(s)
    case Err(_) => None
    case Ok(v) =>
      match Unidentified.Read(v.0, urid, Read)
      case Err(_) => None
      case Ok(it) => Some(Shapes(Collect(it)))
  }

  /** A tuple written with `write_atom`, whose frame then holds a run of
      elements (`RunSince` from the atom writer `write_new` handed out): the
      parent holds, after the padding to 8, the tuple's header announcing the
      run's length, then the run, which starts right after the header.
      `TupleRead` reads it back. */
  lemma {:induction false} TupleWritten(w: Writer, urid: u32, tw: Writer)
    requires Stack(w) && WriteNew(w, urid).result.Ok?
    requires Appended(WriteNew(w, urid).result.value, tw, Since(WriteNew(w, urid).result.value, tw))
    ensures var aw := WriteNew(w, urid).result.value;
            tw.AtomWriter? &&
            AtomLaidOut(Since(w, tw.parent), PadFor(w, ATOM_HEADER), urid, Since(aw, tw)) &&
            Addr(aw) + Used(aw) == Addr(w) + Used(w) + PadFor(w, ATOM_HEADER) + HEADER_SIZE
  {
    var aw := WriteNew(w, urid).result.value;
    AtomAppended(w, urid, tw, Since(aw, tw));
    BodyStart(w, urid);
  }

  /** Round trip, read side: a tuple atom laid out after the padding to 8,
      whose body is a run of atoms, reads back with `next_atom` as a tuple
      atom whose iterator yields exactly those atoms, in order. */
  lemma {:induction false} TupleRead(x: nat, c: seq<byte>, pad: nat, urid: u32, body: seq<byte>, items: seq<Item>, start: nat)
    requires pad == Padding(x, 8) && AtomLaidOut(c, pad, urid, body) && |body| < U32_LIMIT
    requires start == x + pad + HEADER_SIZE && Laid(start, body, items) && AtomsOnly(items)
    ensures ReadTuple(Space(x, c), urid) == Some(items)
  {
    ReadLaidOut(x, c, pad, urid, body);
    var a := UnidentifiedAtom(x + pad, AtomHeader(|body|, urid), body);
    assert Read(Body(a)).value == TupleIterator(Space(start, body));
    CollectLaid(start, body, items);
  }

  /** The size test of tuple.rs: a vector of nine `Int`s (a 44-byte body)
      and then an `Int` (an 8-byte body) make a tuple body of 72 bytes, that
      is 8 + 8 + 36, four bytes of padding before the `Int`, and 16. */
  lemma {:induction false} TupleSizeExample(addr: nat, vector: Item, scalar: Item)
    requires addr % 8 == 0 && vector.prefix == [] && |vector.body| == 44 && scalar.prefix == [] && |scalar.body| == 8
    ensures ItemEnd(addr, vector) == 52 && Padding(addr + 52, 8) == 4
    ensures ItemEnd(addr, vector) + ItemEnd(addr + ItemEnd(addr, vector), scalar) == 8 + 8 + 36 + 4 + 16
  {
    PaddingUnique(addr, 8, 0);
    DivModUnique(addr + 56, 8, addr / 8 + 7, 0);
    PaddingUnique(addr + 52, 8, 4);
  }
}
