/** Strings and literals (atom/src/atoms/string.rs).

    A string atom's body is UTF-8 text followed by one nul byte. A literal's
    body starts with an `LV2_Atom_Literal_Body`, the language or the datatype
    of the text (the other field 0), and goes on like a string. Reading
    strips the nul and checks the text; writing goes through a
    `StringWriter`, whose every `append` gives back the nul the previous one
    wrote and writes its text and a new nul.

    Text is kept as the bytes of its UTF-8 encoding. */
module Strings {
  import opened Bytes
  import opened Wrappers
  import opened Util
  import opened Header
  import opened Allocator
  import opened SpaceWriter
  import opened Appending
  import opened Aligned
  import opened Reader
  import opened Unidentified
  import opened Frames
  import opened Urid
  import Utf8

  // ---------------------------------------------------------------------
  // Literal info

  /** `LiteralInfo`: what a literal's text is in. */
  datatype LiteralInfo = Language(lang: Urid) | Datatype(dtype: Urid)

  /** `LV2_Atom_Literal_Body`: the two u32 fields `lang` and `datatype`. */
  const LITERAL_BODY: Layout := Layout(8, 4)

  /** The `LV2_Atom_Literal_Body` `write_info` stores for `info`. */
  function InfoBytes(info: LiteralInfo): (b: seq<byte>)
    ensures |b| == LITERAL_BODY.size
  {
    match info
    case Language(lang) => EncodeU32(lang) + EncodeU32(0)
    case Datatype(dtype) => EncodeU32(0) + EncodeU32(dtype)
  }

  /** What `Literal::read` makes of the two fields: a language when only
      `lang` is set, a datatype when only `datatype` is, nothing otherwise. */
  function DecodeInfo(lang: u32, dtype: u32): (r: Option<LiteralInfo>)
    ensures (r.Some? && r.value.Language?) <==> lang != 0 && dtype == 0
    ensures (r.Some? && r.value.Datatype?) <==> lang == 0 && dtype != 0
    ensures r.Some? && r.value.Language? ==> r.value.lang == lang
    ensures r.Some? && r.value.Datatype? ==> r.value.dtype == dtype
  {
    if lang != 0 && dtype == 0 then Some(Language(lang))
    else if lang == 0 && dtype != 0 then Some(Datatype(dtype))
    else None
  }

  /** The info `write_info` stores is the info `read` finds. */
  lemma {:induction false} InfoRoundTrip(info: LiteralInfo)
    ensures var b := InfoBytes(info);
            DecodeInfo(DecodeU32(b[..4]), DecodeU32(b[4..])) == Some(info)
  {
    var b := InfoBytes(info);
    U32RoundTrip(0);
    match info
    case Language(lang) =>
      assert b[..4] == EncodeU32(lang) && b[4..] == EncodeU32(0);
      U32RoundTrip(lang);
    case Datatype(dtype) =>
      assert b[..4] == EncodeU32(0) && b[4..] == EncodeU32(dtype);
      U32RoundTrip(dtype);
  }

  // ---------------------------------------------------------------------
  // Reading

  /** `String::read`: the body without its last byte, the nul, when that is
      valid UTF-8. An empty body gives nothing: `data.len() - 1` wraps to
      `usize::MAX` and `get` refuses the range. */
  function ReadStringBody(body: Space): (r: Option<seq<byte>>)
    ensures r.Some? <==> |body.bytes| > 0 && Utf8.Valid(body.bytes[..|body.bytes| - 1])
    ensures r.Some? ==> Utf8.Valid(r.value) && r.value + [body.bytes[|body.bytes| - 1]] == body.bytes
  {
    var data := body.bytes;
    if |data| == 0 then None
    else
      var text := data[..|data| - 1];
      assert text + [data[|data| - 1]] == data;
      if Utf8.Valid(text) then Some(text) else None
  }

  /** `Literal::read`: the info from the `LV2_Atom_Literal_Body` at the start,
      then the rest without its last byte, cut back to its longest valid
      UTF-8 prefix when it is not valid as a whole. A body that ends right
      after the info makes the slice index panic, modelled as nothing. */
  function ReadLiteralBody(body: Space): (r: Option<(LiteralInfo, seq<byte>)>)
    ensures r.Some? ==> Utf8.Valid(r.value.1)
  {
    match NextValue(body, LITERAL_BODY)
    case Err(_) => None
    case Ok(v) => LiteralText(DecodeInfo(DecodeU32(v.0[..4]), DecodeU32(v.0[4..])), v.1.bytes)
  }

  /** What `Literal::read` makes of the info it found and the bytes after
      it. */
  function LiteralText(info: Option<LiteralInfo>, data: seq<byte>): (r: Option<(LiteralInfo, seq<byte>)>)
    ensures r.Some? ==> Utf8.Valid(r.value.1)
  {
    if info.None? || |data| == 0 then None
    else
      var d := data[..|data| - 1];
      Utf8.ValidPrefixLongest(d, |d|);
      Some((info.value, if Utf8.Valid(d) then d else d[..Utf8.ValidPrefix(d)]))
  }

  /** The literal body splits after its 8-byte info, which needs no padding
      at a 4-aligned address. */
  lemma {:induction false} LiteralHead(addr: nat, f: seq<byte>, rest: seq<byte>)
    requires addr % 4 == 0 && |f| == LITERAL_BODY.size
    ensures ReadLiteralBody(Space(addr, f + rest))
            == LiteralText(DecodeInfo(DecodeU32(f[..4]), DecodeU32(f[4..])), rest)
  {
    PaddingUnique(addr, 4, 0);
    assert (f + rest)[0..8] == f && (f + rest)[8..] == rest;
  }

  /** After the info, the text and one more byte: the longest valid UTF-8
      prefix of the text. */
  lemma {:induction false} LiteralTextRead(info: LiteralInfo, text: seq<byte>, last: byte)
    ensures LiteralText(Some(info), text + [last]) == Some((info, text[..Utf8.ValidPrefix(text)]))
  {
    assert (text + [last])[..|text|] == text;
    assert text[..|text|] == text;
  }

  /** A reader's next atom, read as a string of type `urid`. */
  function ReadString(s: Space, urid: u32): (r: Option<seq<byte>>)
    ensures r.Some? ==> NextAtom(s).Ok? && NextAtom(s).value.0.header.urid == urid &&
                        ReadStringBody(Body(NextAtom(s).value.0)) == r
  {
    match NextAtom(s)
    case Err(_) => None
    case Ok(v) => if v.0.header.urid != urid then None else ReadStringBody(Body(v.0))
  }

  /** A reader's next atom, read as a literal of type `urid`. */
  function ReadLiteral(s: Space, urid: u32): (r: Option<(LiteralInfo, seq<byte>)>)
    ensures r.Some? ==> NextAtom(s).Ok? && NextAtom(s).value.0.header.urid == urid &&
                        ReadLiteralBody(Body(NextAtom(s).value.0)) == r
  {
    match NextAtom(s)
    case Err(_) => None
    case Ok(v) => if v.0.header.urid != urid then None else ReadLiteralBody(Body(v.0))
  }

  /** A string body is its text and one more byte: reading gives back the
      text exactly when it is valid UTF-8. */
  lemma {:induction false} StringBodyRead(addr: nat, text: seq<byte>, last: byte)
    ensures ReadStringBody(Space(addr, text + [last])) == if Utf8.Valid(text) then Some(text) else None
  {
    assert (text + [last])[..|text|] == text;
  }

  /** A literal body at a 4-aligned address is its info, its text and one
      more byte: reading gives the info and the longest valid UTF-8 prefix of
      the text, which is the whole text when it is valid. */
  lemma {:induction false} LiteralBodyRead(addr: nat, info: LiteralInfo, text: seq<byte>, last: byte)
    requires addr % 4 == 0
    ensures ReadLiteralBody(Space(addr, InfoBytes(info) + text + [last])) == Some((info, text[..Utf8.ValidPrefix(text)]))
    ensures Utf8.Valid(text) ==> ReadLiteralBody(Space(addr, InfoBytes(info) + text + [last])) == Some((info, text))
  {
    assert InfoBytes(info) + text + [last] == InfoBytes(info) + (text + [last]);
    LiteralHead(addr, InfoBytes(info), text + [last]);
    InfoRoundTrip(info);
    LiteralTextRead(info, text, last);
    assert text[..|text|] == text;
  }

  /** A literal whose two fields are both set or both 0 reads as nothing. */
  lemma {:induction false} BadInfoUnreadable(addr: nat, lang: u32, dtype: u32, rest: seq<byte>)
    requires addr % 4 == 0 && (lang == 0 <==> dtype == 0)
    ensures ReadLiteralBody(Space(addr, EncodeU32(lang) + EncodeU32(dtype) + rest)) == None
  {
    var f := EncodeU32(lang) + EncodeU32(dtype);
    LiteralHead(addr, f, rest);
    assert f[..4] == EncodeU32(lang) && f[4..] == EncodeU32(dtype);
    U32RoundTrip(lang);
    U32RoundTrip(dtype);
  }

  /** A string atom laid out at `addr`, whatever follows it, reads back as
      its body without the last byte, which is the nul a writer puts
      there. */
  lemma {:induction false} StringRead(addr: nat, c: seq<byte>, pad: nat, urid: u32, text: seq<byte>, last: byte,
                                      rest: seq<byte>)
    requires pad == Padding(addr, 8) && AtomLaidOut(c, pad, urid, text + [last])
    requires |text| + 1 < U32_LIMIT && Utf8.Valid(text)
    ensures ReadString(Space(addr, c + rest), urid) == Some(text)
  {
    var at := addr + pad + HEADER_SIZE;
    LaidAtomBody(addr, c, pad, urid, text + [last], rest, at);
    StringBodyRead(at, text, last);
  }

  /** The next atom of a space that starts with an atom laid out after the
      padding to 8 has that atom's type, and its body. */
  lemma {:induction false} LaidAtomBody(addr: nat, c: seq<byte>, pad: nat, urid: u32, body: seq<byte>, rest: seq<byte>, at: nat)
    requires pad == Padding(addr, 8) && AtomLaidOut(c, pad, urid, body) && |body| < U32_LIMIT
    requires at == addr + pad + HEADER_SIZE
    ensures NextAtom(Space(addr, c + rest)).Ok?
    ensures NextAtom(Space(addr, c + rest)).value.0.header == AtomHeader(|body|, urid)
    ensures Body(NextAtom(Space(addr, c + rest)).value.0) == Space(at, body)
    ensures at % 4 == 0
  {
    var h := AtomHeader(|body|, urid);
    var bytes := c + rest;
    assert |body| % U32_LIMIT == |body|;
    assert bytes[pad..] == Encode(h) + body + bytes[|c|..];
    ReadPaddedAtom(addr, pad, bytes, h, body, |c|);
    EightIsFour(at);
  }

  lemma {:induction false} EightIsFour(x: nat)
    requires x % 8 == 0
    ensures x % 4 == 0
  {
    assert x == 4 * (2 * (x / 8));
  }

  /** A literal atom laid out at `addr`, whatever follows it, reads back as
      its info and text. */
  lemma {:induction false} LiteralRead(addr: nat, c: seq<byte>, pad: nat, urid: u32, info: LiteralInfo,
                                       text: seq<byte>, rest: seq<byte>)
    requires pad == Padding(addr, 8) && AtomLaidOut(c, pad, urid, InfoBytes(info) + text + [0])
    requires |text| + 9 < U32_LIMIT && Utf8.Valid(text)
    ensures ReadLiteral(Space(addr, c + rest), urid) == Some((info, text))
  {
    var s := Space(addr, c + rest);
    var at := addr + pad + HEADER_SIZE;
    LaidAtomBody(addr, c, pad, urid, InfoBytes(info) + text + [0], rest, at);
    assert ReadLiteral(s, urid) == ReadLiteralBody(Body(NextAtom(s).value.0));
    LiteralBodyRead(at, info, text, 0);
  }

  // ---------------------------------------------------------------------
  // Writing

  /** `StringWriter`: the atom's writer, and whether a nul was written
      last. */
  datatype StringWriter = StringWriter(frame: Writer, hasNul: bool)

  /** `LiteralInfoWriter`: the atom's writer, and where `init` reserved the
      `LV2_Atom_Literal_Body`. */
  datatype LiteralInfoWriter = LiteralInfoWriter(body: nat, frame: Writer)

  /** `String::init`: the frame, with no nul written yet; it never fails. */
  function InitString(frame: Writer): (r: Option<StringWriter>)
    ensures r.Some? && r.value.frame == frame && !r.value.hasNul
  {
    Some(StringWriter(frame, false))
  }

  /** `Literal::init`: reserves an `LV2_Atom_Literal_Body` with
      `write_value`; its bytes are left uninitialised, which the model makes
      zeros. */
  function InitLiteral(frame: Writer): (s: Step<LiteralInfoWriter>)
    requires Wf(frame)
    ensures Wf(s.writer) && Addr(s.writer) == Addr(frame)
    ensures s.result.Ok? ==> s.result.value.frame == s.writer &&
                             s.result.value.body + LITERAL_BODY.size <= Used(s.writer)
  {
    var t := WriteValue(frame, LITERAL_BODY, Zeros(LITERAL_BODY.size));
    if t.result.Err? then Step(t.writer, Err(t.result.error))
    else Step(t.writer, Ok(LiteralInfoWriter(t.result.value, t.writer)))
  }

  /** `write_info` as written: a second `write_value` of the info after the
      body `init` reserved, whose result is dropped. The reserved body keeps
      its uninitialised bytes. */
  function WriteInfoAsWritten(lw: LiteralInfoWriter, info: LiteralInfo): (sw: StringWriter)
    requires Wf(lw.frame)
    ensures Wf(sw.frame) && Addr(sw.frame) == Addr(lw.frame) && !sw.hasNul
  {
    var t := WriteValue(lw.frame, LITERAL_BODY, InfoBytes(info));
    StringWriter(t.writer, false)
  }

  /** `write_info` as intended: the info goes into the body `init`
      reserved. */
  function WriteInfo(lw: LiteralInfoWriter, info: LiteralInfo): (sw: StringWriter)
    requires Wf(lw.frame) && lw.body + LITERAL_BODY.size <= Used(lw.frame)
    ensures Wf(sw.frame) && Addr(sw.frame) == Addr(lw.frame) && Used(sw.frame) == Used(lw.frame) && !sw.hasNul
    ensures Buffer(sw.frame)[lw.body..lw.body + LITERAL_BODY.size] == InfoBytes(info)
  {
    var b := InfoBytes(info);
    OverwriteSlice(Buffer(lw.frame), lw.body, b);
    StringWriter(WithBuffer(lw.frame, Overwrite(Buffer(lw.frame), lw.body, b)), false)
  }

  /** The copy `append` makes once any earlier nul is given back: `|text| + 1`
      bytes, the text in them and a 0 after it. Its offset is returned. A
      failed allocation keeps the flag as it was. */
  function CopyWithNul(hasNul: bool, frame: Writer, text: seq<byte>): (r: (StringWriter, Option<nat>))
    requires Wf(frame)
    ensures Wf(r.0.frame) && Addr(r.0.frame) == Addr(frame)
    ensures r.1.None? ==> r.0.hasNul == hasNul
    ensures r.1.Some? ==> r.0.hasNul &&
                          r.1.value + |text| + 1 <= Used(r.0.frame) &&
                          Buffer(r.0.frame)[r.1.value..r.1.value + |text| + 1] == text + [0]
  {
    var a := Allocate(frame, |text| + 1);
    if a.result.Err? then (StringWriter(a.writer, hasNul), None)
    else
      var at := a.result.value;
      OverwriteSlice(Buffer(a.writer), at, text + [0]);
      (StringWriter(WithBuffer(a.writer, Overwrite(Buffer(a.writer), at, text + [0])), true), Some(at))
  }

  /** `append` as written: rewinds one byte when a nul was written, then
      copies. When the copy cannot be allocated after the rewind went
      through, the flag still says a nul was written although it was given
      back. */
  function AppendAsWritten(sw: StringWriter, text: seq<byte>): (r: (StringWriter, Option<nat>))
    requires Wf(sw.frame)
    ensures Wf(r.0.frame) && Addr(r.0.frame) == Addr(sw.frame)
    ensures r.1.Some? ==> r.0.hasNul
    ensures r.1.None? ==> r.0.hasNul == sw.hasNul
  {
    if sw.hasNul then
      var rw := Rewind(sw.frame, 1);
      if rw.result.Err? then (StringWriter(rw.writer, true), None)
      else CopyWithNul(true, rw.writer, text)
    else CopyWithNul(false, sw.frame, text)
  }

  /** `append` as intended: a call that fails leaves the writer, and so the
      string, as it was. */
  function Append(sw: StringWriter, text: seq<byte>): (r: (StringWriter, Option<nat>))
    requires Wf(sw.frame)
    ensures Wf(r.0.frame) && Addr(r.0.frame) == Addr(sw.frame)
    ensures r.1.None? ==> r.0 == sw
    ensures r.1.Some? ==> r.0.hasNul && r == AppendAsWritten(sw, text)
  {
    var r := AppendAsWritten(sw, text);
    if r.1.None? then (sw, None) else r
  }

  /** One `append` after another, stopping at the first that fails: the
      writer, and whether all went through. */
  function AppendAll(sw: StringWriter, texts: seq<seq<byte>>): (r: (StringWriter, bool))
    requires Wf(sw.frame)
    ensures Wf(r.0.frame) && Addr(r.0.frame) == Addr(sw.frame)
    ensures r.1 && texts != [] ==> r.0.hasNul
    decreases |texts|
  {
    if texts == [] then (sw, true)
    else
      var (sw1, res) := Append(sw, texts[0]);
      if res.None? then (sw1, false) else AppendAll(sw1, texts[1..])
  }

  /** `init_atom(string)`, then an `append` of each text: the string's
      writer, or nothing when a step fails. */
  function WriteString(w: Writer, urid: u32, texts: seq<seq<byte>>): (r: Option<StringWriter>)
    requires Wf(w)
    ensures r.Some? ==> Wf(r.value.frame) && Addr(r.value.frame) == Addr(w)
    ensures r.Some? && texts != [] ==> r.value.hasNul
  {
    var n := WriteNew(w, urid);
    if n.result.Err? then None
    else
      var r := AppendAll(InitString(n.result.value).value, texts);
      if r.1 then Some(r.0) else None
  }

  /** `init_atom(literal)`, `write_info(info)` as intended, then an `append`
      of each text. */
  function WriteLiteral(w: Writer, urid: u32, info: LiteralInfo, texts: seq<seq<byte>>): (r: Option<StringWriter>)
    requires Wf(w)
    ensures r.Some? ==> Wf(r.value.frame) && Addr(r.value.frame) == Addr(w)
  {
    var n := WriteNew(w, urid);
    if n.result.Err? then None
    else
      var i := InitLiteral(n.result.value);
      if i.result.Err? then None
      else
        var r := AppendAll(WriteInfo(i.result.value, info), texts);
        if r.1 then Some(r.0) else None
  }

  /** `init_atom(literal)`, `write_info(info)` as written, then an `append`
      of each text. */
  function WriteLiteralAsWritten(w: Writer, urid: u32, info: LiteralInfo, texts: seq<seq<byte>>): (r: Option<StringWriter>)
    requires Wf(w)
    ensures r.Some? ==> Wf(r.value.frame) && Addr(r.value.frame) == Addr(w)
  {
    var n := WriteNew(w, urid);
    if n.result.Err? then None
    else
      var i := InitLiteral(n.result.value);
      if i.result.Err? then None
      else
        var r := AppendAll(WriteInfoAsWritten(i.result.value, info), texts);
        if r.1 then Some(r.0) else None
  }

  // ---------------------------------------------------------------------
  // What the writers append

  /** The nul a writer has written last, if any. */
  function Nul(hasNul: bool): (b: seq<byte>)
    ensures |b| == if hasNul then 1 else 0
  {
    if hasNul then [0] else []
  }

  /** An atom writer straight over a cursor, as `init_atom` on a
      `SpaceCursor` makes it. */
  predicate TopLevel(aw: Writer) {
    aw.AtomWriter? && aw.parent.Cursor?
  }

  /** The body size the header of a top-level atom writer holds. */
  function SizeField(aw: Writer): (n: u32)
    requires Stack(aw) && TopLevel(aw)
  {
    GetU32(Buffer(aw), aw.headerIndex)
  }

  /** Two stacks with the same single header are both atom writers straight
      over a cursor. */
  lemma {:induction false} TopLevelShape(w1: Writer, h: nat)
    requires Stack(w1) && Headers(w1) == [h]
    ensures TopLevel(w1) && w1.headerIndex == h
  {
    TopOfStack(w1, [], h);
  }

  /** Rewinding the last byte of what a top-level atom writer appended gives
      back exactly that byte: the stack is the atom writer with the rest
      appended. */
  lemma {:induction false} RewindAppended(aw: Writer, w1: Writer, c: seq<byte>, b: byte)
    requires Appended(aw, w1, c + [b]) && TopLevel(aw)
    requires SizeField(aw) + |c| + 1 < U32_LIMIT
    ensures Rewind(w1, 1).result.Ok? && Appended(aw, Rewind(w1, 1).writer, c)
  {
    var a := AllocatedBytes(aw);
    var h := aw.headerIndex;
    var x := SizeField(aw);
    assert TopLevel(w1) && w1.headerIndex == h && h + HEADER_SIZE <= |a|
        && AllocatedBytes(w1) == SetU32(a, h, x + |c| + 1) + c + [b] by {
      AppendedTop(aw, w1, c + [b]);
      assert SetU32(a, h, x + |c| + 1) + (c + [b]) == SetU32(a, h, x + |c| + 1) + c + [b];
    }
    RewindTopAppended(aw, w1, a, h, x, c, b);
  }

  lemma {:induction false} RewindTopAppended(aw: Writer, w1: Writer, a: seq<byte>, h: nat, x: u32, c: seq<byte>, b: byte)
    requires Stack(aw) && TopLevel(aw) && aw.headerIndex == h && SizeField(aw) == x && AllocatedBytes(aw) == a
    requires Stack(w1) && Headers(w1) == Headers(aw) && Addr(w1) == Addr(aw) && RootOf(w1).backing == RootOf(aw).backing
    requires RootOf(aw).backing.Slice? ==> |Buffer(w1)| == |Buffer(aw)|
    requires TopLevel(w1) && w1.headerIndex == h
    requires h + HEADER_SIZE <= |a| && x + |c| + 1 < U32_LIMIT
    requires AllocatedBytes(w1) == SetU32(a, h, x + |c| + 1) + c + [b]
    ensures Rewind(w1, 1).result.Ok? && Appended(aw, Rewind(w1, 1).writer, c)
  {
    var w2 := RewoundWriter(w1, a, h, x, c, b);
    AppendedTopIntro(aw, w2, a, h, x, c);
  }

  /** The writer `rewind(1)` leaves on a top-level atom writer that has
      allocated `a` with its header grown, then `c + [b]`: the last byte
      given back and the header set one smaller. */
  lemma {:induction false} RewoundWriter(w1: Writer, a: seq<byte>, h: nat, x: u32, c: seq<byte>, b: byte)
    returns (w2: Writer)
    requires Stack(w1) && TopLevel(w1) && w1.headerIndex == h
    requires h + HEADER_SIZE <= |a| && x + |c| + 1 < U32_LIMIT
    requires AllocatedBytes(w1) == SetU32(a, h, x + |c| + 1) + c + [b]
    ensures Rewind(w1, 1) == Step(w2, Ok(()))
    ensures Stack(w2) && Headers(w2) == Headers(w1) && Addr(w2) == Addr(w1) && RootOf(w2).backing == RootOf(w1).backing
    ensures Used(w2) + 1 == Used(w1) && |Buffer(w2)| == |Buffer(w1)|
    ensures AllocatedBytes(w2) == SetU32(a, h, x + |c|) + c
  {
    var r1 := w1.parent.root;
    RewoundBytes(r1.buf, a, h, x, c, b);
    w2 := AtomWriter(Cursor(r1.(used := |a| + |c|, buf := SetU32(r1.buf, h, x + |c|))), h);
    RewindTop(w1, x + |c| + 1, w2);
    assert AllocatedBytes(w2) == SetU32(r1.buf, h, x + |c|)[..|a| + |c|];
  }

  /** What a top-level atom writer appended: its header set to the grown
      size, then the chunk. */
  lemma {:induction false} AppendedTop(aw: Writer, w1: Writer, chunk: seq<byte>)
    requires Stack(aw) && TopLevel(aw) && Stack(w1) && Headers(w1) == Headers(aw)
    requires AllocatedBytes(w1) == AddToSizes(AllocatedBytes(aw), Headers(aw), |chunk|) + chunk
    requires SizeField(aw) + |chunk| < U32_LIMIT
    ensures TopLevel(w1) && w1.headerIndex == aw.headerIndex && aw.headerIndex + HEADER_SIZE <= Used(aw)
    ensures AllocatedBytes(w1) == SetU32(AllocatedBytes(aw), aw.headerIndex, SizeField(aw) + |chunk|) + chunk
  {
    TopGrown(aw, |chunk|);
    TopLevelShape(w1, aw.headerIndex);
  }

  /** Growing the sizes a top-level atom writer tracks sets its one
      header. */
  lemma {:induction false} TopGrown(aw: Writer, n: nat)
    requires Stack(aw) && TopLevel(aw) && SizeField(aw) + n < U32_LIMIT
    ensures Headers(aw) == [aw.headerIndex] && aw.headerIndex + HEADER_SIZE <= Used(aw)
    ensures AddToSizes(AllocatedBytes(aw), Headers(aw), n) == SetU32(AllocatedBytes(aw), aw.headerIndex, SizeField(aw) + n)
  {
    TopFacts(aw);
    AddToSizesOne(AllocatedBytes(aw), aw.headerIndex, n, SizeField(aw));
  }

  /** The converse of `AppendedTop`, for a writer that has allocated `a`
      with `x` in its header at `h`. */
  lemma {:induction false} AppendedTopIntro(aw: Writer, w2: Writer, a: seq<byte>, h: nat, x: u32, chunk: seq<byte>)
    requires Stack(aw) && TopLevel(aw) && aw.headerIndex == h && SizeField(aw) == x && AllocatedBytes(aw) == a
    requires Stack(w2) && Headers(w2) == Headers(aw) && Addr(w2) == Addr(aw)
    requires RootOf(w2).backing == RootOf(aw).backing && Used(w2) == |a| + |chunk|
    requires RootOf(aw).backing.Slice? ==> |Buffer(w2)| == |Buffer(aw)|
    requires x + |chunk| < U32_LIMIT
    requires AllocatedBytes(w2) == SetU32(a, h, x + |chunk|) + chunk
    ensures Appended(aw, w2, chunk)
  {
    TopGrown(aw, |chunk|);
    AppendedIntro(aw, w2, chunk);
  }

  /** A top-level atom writer's only header lies within what is
      allocated, and holds its size field there too. */
  lemma {:induction false} TopFacts(aw: Writer)
    requires Stack(aw) && TopLevel(aw)
    ensures Headers(aw) == [aw.headerIndex] && aw.headerIndex + HEADER_SIZE <= Used(aw)
    ensures GetU32(AllocatedBytes(aw), aw.headerIndex) == SizeField(aw)
  {
    assert Headers(aw) == Headers(aw.parent) + [aw.headerIndex];
    var a := AllocatedBytes(aw);
    GetU32Prefix(a, Buffer(aw), Used(aw), aw.headerIndex);
  }

  /** Adding to the sizes of a single header is setting it. */
  lemma {:induction false} AddToSizesOne(a: seq<byte>, h: nat, n: nat, x: u32)
    requires h + HEADER_SIZE <= |a| && GetU32(a, h) == x && x + n < U32_LIMIT
    ensures AddToSizes(a, [h], n) == SetU32(a, h, x + n)
  {
    assert [h][..0] == [];
    GrowBodyIs(a, h, n, x, x + n);
  }

  /** The bytes side of `RewindAppended`: one byte fewer allocated, with the
      header set one smaller. */
  lemma {:induction false} RewoundBytes(buf: seq<byte>, a: seq<byte>, h: nat, x: u32, c: seq<byte>, b: byte)
    requires h + HEADER_SIZE <= |a| && x + |c| + 1 < U32_LIMIT
    requires |a| + |c| + 1 <= |buf| && buf[..|a| + |c| + 1] == SetU32(a, h, x + |c| + 1) + c + [b]
    ensures GetU32(buf, h) == x + |c| + 1
    ensures SetU32(buf, h, x + |c|)[..|a| + |c|] == SetU32(a, h, x + |c|) + c
  {
    var g := SetU32(a, h, x + |c| + 1);
    var e := g + c + [b];
    assert buf[..|g|] == buf[..|a| + |c| + 1][..|g|] == e[..|g|];
    GetU32Prefix(buf, e, |g|, h);
    assert e[..|g|] == g[..|g|];
    GetU32Prefix(e, g, |g|, h);
    GetSetU32(a, h, x + |c| + 1);
    var front := buf[..|a| + |c|];
    assert front == g + c;
    assert buf == front + buf[|a| + |c|..];
    SetU32Left(front, buf[|a| + |c|..], h, x + |c|);
    SetU32Left(g, c, h, x + |c|);
    SetU32Twice(a, h, x + |c| + 1, x + |c|);
  }

  /** `rewind(1)` on a top-level atom writer whose header holds `size`:
      the cursor gives back a byte and the header is set one smaller. */
  lemma {:induction false} RewindTop(w1: Writer, size: nat, w2: Writer)
    requires Stack(w1) && TopLevel(w1) && Used(w1) >= 1
    requires w1.headerIndex + HEADER_SIZE < Used(w1) && GetU32(Buffer(w1), w1.headerIndex) == size && size >= 1
    requires var r1 := w1.parent.root;
             w2 == AtomWriter(Cursor(r1.(used := r1.used - 1, buf := SetU32(r1.buf, w1.headerIndex, size - 1))),
                              w1.headerIndex)
    ensures Rewind(w1, 1) == Step(w2, Ok(()))
    ensures Stack(w2) && Headers(w2) == Headers(w1) && Addr(w2) == Addr(w1) && RootOf(w2).backing == RootOf(w1).backing
    ensures Used(w2) == Used(w1) - 1 && |Buffer(w2)| == |Buffer(w1)|
  {
  }

  /** A fresh atom writer over a cursor is top-level and its header holds
      the body size 0. */
  lemma {:induction false} FreshTopLevel(w: Writer, urid: u32)
    requires Stack(w) && w.Cursor? && WriteNew(w, urid).result.Ok?
    ensures var aw := WriteNew(w, urid).result.value;
            Stack(aw) && TopLevel(aw) && SizeField(aw) == 0
  {
    var s := WriteNew(w, urid);
    var aw := s.result.value;
    var pad := PadFor(w, ATOM_HEADER);
    HeaderAppended(w, urid);
    WriteNewAppended(w, urid);
    TopLevelShape(aw, Used(w) + pad);
    HeaderSizeZero(Buffer(s.writer), Used(w), Since(w, s.writer), pad, urid);
  }

  /** The header `write_new` wrote holds the body size 0. */
  lemma {:induction false} HeaderSizeZero(buf: seq<byte>, u: nat, c: seq<byte>, pad: nat, urid: u32)
    requires u + |c| <= |buf| && buf[u..u + |c|] == c
    requires pad + HEADER_SIZE == |c| && c[pad..] == Encode(New(urid))
    ensures GetU32(buf, u + pad) == 0
  {
    assert buf[u + pad..u + pad + 4] == c[pad..][..4] == EncodeU32(0);
    U32RoundTrip(0);
  }

  /** One `append` through a top-level atom writer that has appended
      `content` and possibly a nul: it goes through exactly when the text
      and a nul fit after `content` (on a fixed buffer); the writer has then
      appended `content`, the text and one nul, and the copy starts right
      after `content`. */
  lemma {:induction false} AppendStep(aw: Writer, sw: StringWriter, content: seq<byte>, text: seq<byte>)
    requires Appended(aw, sw.frame, content + Nul(sw.hasNul)) && TopLevel(aw)
    requires SizeField(aw) + |content| + |text| + 1 < U32_LIMIT
    ensures var r := Append(sw, text);
            (RootOf(aw).backing.Slice? ==>
               (r.1.Some? <==> Used(aw) + |content| + |text| + 1 <= |Buffer(aw)|)) &&
            (r.1.Some? ==> r.1.value == Used(aw) + |content| &&
                           Appended(aw, r.0.frame, content + text + Nul(r.0.hasNul)))
  {
    var f := if sw.hasNul then Rewind(sw.frame, 1).writer else sw.frame;
    if sw.hasNul {
      RewindAppended(aw, sw.frame, content, 0);
    } else {
      assert content + Nul(sw.hasNul) == content;
    }
    assert AppendAsWritten(sw, text) == CopyWithNul(sw.hasNul, f, text);
    CopyAppended(aw, f, content, sw.hasNul, text);
  }

  /** The copy of `append` after `content` was appended. */
  lemma {:induction false} CopyAppended(aw: Writer, f: Writer, content: seq<byte>, hasNul: bool, text: seq<byte>)
    requires Appended(aw, f, content)
    ensures var r := CopyWithNul(hasNul, f, text);
            (RootOf(aw).backing.Slice? ==>
               (r.1.Some? <==> Used(aw) + |content| + |text| + 1 <= |Buffer(aw)|)) &&
            (r.1.None? ==> r.0 == StringWriter(f, hasNul)) &&
            (r.1.Some? ==> r.1.value == Used(aw) + |content| &&
                           Appended(aw, r.0.frame, content + text + [0]))
  {
    var data := text + [0];
    AllocateAppends(f, |data|);
    if Allocate(f, |data|).result.Ok? {
      CopyLaid(f, hasNul, text);
      AppendedTrans(aw, f, CopyWithNul(hasNul, f, text).0.frame, content, data);
      assert content + data == content + text + [0];
    }
  }

  /** A copy that could be allocated appends the text and a 0. */
  lemma {:induction false} CopyLaid(f: Writer, hasNul: bool, text: seq<byte>)
    requires Stack(f) && Allocate(f, |text| + 1).result.Ok?
    ensures var r := CopyWithNul(hasNul, f, text);
            r.1 == Some(Used(f)) && Appended(f, r.0.frame, text + [0])
  {
    CopyWithNulOk(hasNul, f, text);
    AllocateOverwrite(f, text + [0]);
  }

  /** Allocating `data`'s length and overwriting all of it appends `data`. */
  lemma {:induction false} AllocateOverwrite(f: Writer, data: seq<byte>)
    requires Stack(f) && Allocate(f, |data|).result.Ok?
    ensures var a := Allocate(f, |data|);
            a.result.value == Used(f) &&
            Appended(f, WithBuffer(a.writer, Overwrite(Buffer(a.writer), a.result.value, data)), data)
  {
    var a := Allocate(f, |data|);
    var at := Used(f);
    assert a.result.value == at && at + |data| <= |Buffer(a.writer)|
        && Appended(f, a.writer, Buffer(a.writer)[at..at + |data|]) by {
      AllocateAppends(f, |data|);
    }
    OverwriteAll(f, a.writer, at, data);
  }

  /** A copy that could be allocated overwrites what was allocated. */
  lemma {:induction false} CopyWithNulOk(hasNul: bool, f: Writer, text: seq<byte>)
    requires Wf(f) && Allocate(f, |text| + 1).result.Ok?
    ensures var a := Allocate(f, |text| + 1);
            CopyWithNul(hasNul, f, text)
              == (StringWriter(WithBuffer(a.writer, Overwrite(Buffer(a.writer), a.result.value, text + [0])), true),
                  Some(a.result.value))
  {
  }

  /** Overwriting all of a freshly allocated chunk appends the new bytes. */
  lemma {:induction false} OverwriteAll(f: Writer, w1: Writer, at: nat, data: seq<byte>)
    requires Stack(f) && at == Used(f) && at + |data| <= |Buffer(w1)|
    requires Appended(f, w1, Buffer(w1)[at..at + |data|])
    ensures Appended(f, WithBuffer(w1, Overwrite(Buffer(w1), at, data)), data)
  {
    var g := Buffer(w1)[at..at + |data|];
    OverwriteAppended(f, w1, g, at, 0, data, Overwrite(g, 0, data));
    assert Overwrite(g, 0, data) == g[..0] + data + g[|data|..] == data;
  }

  /** `append` of each text in turn through a top-level atom writer: all go
      through exactly when the last nul fits (on a fixed buffer), and the
      writer has then appended `content`, every text and one nul. */
  lemma {:induction false} AppendAllLaid(aw: Writer, sw: StringWriter, content: seq<byte>, texts: seq<seq<byte>>)
    requires Appended(aw, sw.frame, content + Nul(sw.hasNul)) && TopLevel(aw)
    requires SizeField(aw) + |content| + |Flatten(texts)| + 1 < U32_LIMIT
    ensures var r := AppendAll(sw, texts);
            (RootOf(aw).backing.Slice? && texts != [] ==>
               (r.1 <==> Used(aw) + |content| + |Flatten(texts)| + 1 <= |Buffer(aw)|)) &&
            (r.1 ==> r.0.hasNul == (sw.hasNul || texts != []) &&
                     Appended(aw, r.0.frame, content + Flatten(texts) + Nul(r.0.hasNul)))
    decreases |texts|
  {
    if texts == [] {
      assert content + Flatten(texts) == content;
    } else {
      var t := texts[0];
      assert Flatten(texts) == t + Flatten(texts[1..]);
      AppendStep(aw, sw, content, t);
      var (sw1, res) := Append(sw, t);
      if res.Some? {
        AppendAllLaid(aw, sw1, content + t, texts[1..]);
        FlattenStep(content, texts);
      }
    }
  }

  /** The first text goes onto the content, and the rest after it. */
  lemma {:induction false} FlattenStep(content: seq<byte>, texts: seq<seq<byte>>)
    requires texts != []
    ensures content + texts[0] + Flatten(texts[1..]) == content + Flatten(texts)
  {
    assert Flatten(texts) == texts[0] + Flatten(texts[1..]);
  }

  /** Writing a string atom with at least one `append`, straight into a
      cursor: the cursor receives, after the padding to 8, a header
      announcing the texts and one nul, then the texts and the nul. */
  lemma {:induction false} StringWritten(w: Writer, urid: u32, texts: seq<seq<byte>>)
    requires Stack(w) && w.Cursor? && texts != [] && |Flatten(texts)| + 1 < U32_LIMIT
    requires WriteString(w, urid, texts).Some?
    ensures var top := WriteString(w, urid, texts).value.frame;
            top.AtomWriter? &&
            AtomLaidOut(Since(w, top.parent), PadFor(w, ATOM_HEADER), urid, Flatten(texts) + [0]) &&
            Appended(w, top.parent, Since(w, top.parent))
  {
    var aw := WriteNew(w, urid).result.value;
    FreshTopLevel(w, urid);
    AppendedNothing(aw);
    var sw := InitString(aw).value;
    assert [] + Nul(sw.hasNul) == [];
    AppendAllLaid(aw, sw, [], texts);
    var top := AppendAll(sw, texts).0.frame;
    assert [] + Flatten(texts) + Nul(true) == Flatten(texts) + [0];
    AtomAppended(w, urid, top, Flatten(texts) + [0]);
  }

  /** On a fixed buffer, writing a string atom straight into a cursor
      succeeds exactly when the padding, the header, the texts and the nul
      fit. */
  lemma {:induction false} StringFits(w: Writer, urid: u32, texts: seq<seq<byte>>)
    requires Stack(w) && w.Cursor? && RootOf(w).backing.Slice? && texts != []
    requires |Flatten(texts)| + 1 < U32_LIMIT
    ensures WriteString(w, urid, texts).Some?
            <==> Used(w) + PadFor(w, ATOM_HEADER) + HEADER_SIZE + |Flatten(texts)| + 1 <= |Buffer(w)|
  {
    WriteNewAppended(w, urid);
    SliceAllocate(w, HEADER_SIZE + PadFor(w, ATOM_HEADER));
    var n := WriteNew(w, urid);
    if n.result.Ok? {
      var aw := n.result.value;
      FreshTopLevel(w, urid);
      AppendedNothing(aw);
      assert [] + Nul(false) == [];
      AppendAllLaid(aw, InitString(aw).value, [], texts);
    }
  }

  /** The next byte written through `w` lands on an 8-aligned address. */
  predicate EightAligned(w: Writer)
    requires Wf(w)
  {
    (Addr(w) + Used(w)) % 8 == 0
  }

  /** `init` of a literal right after `write_new`: the reserved body needs
      no padding, and it is appended as zeros. */
  lemma {:induction false} ReservedBody(w: Writer, urid: u32)
    requires Stack(w) && WriteNew(w, urid).result.Ok?
    ensures var aw := WriteNew(w, urid).result.value;
            var i := InitLiteral(aw);
            Stack(aw) && EightAligned(aw) && PadFor(aw, LITERAL_BODY) == 0 &&
            (i.result.Err? ==> i.writer == aw) &&
            (i.result.Ok? ==> i.result.value.body == Used(aw) &&
                              Appended(aw, i.writer, Zeros(LITERAL_BODY.size)))
  {
    var aw := WriteNew(w, urid).result.value;
    BodyStart(w, urid);
    EightIsFour(Addr(aw) + Used(aw));
    PaddingUnique(Addr(aw) + Used(aw), 4, 0);
    var zeros := Zeros(LITERAL_BODY.size);
    WriteValueAppended(aw, LITERAL_BODY, zeros);
    var t := WriteValue(aw, LITERAL_BODY, zeros);
    if t.result.Ok? {
      var c := Buffer(t.writer)[Used(aw)..Used(t.writer)];
      assert c == c[0..] == zeros;
    }
  }

  /** `write_info` as intended fills the reserved body with the info. */
  lemma {:induction false} InfoFilled(aw: Writer, lw: LiteralInfoWriter, info: LiteralInfo)
    requires Appended(aw, lw.frame, Zeros(LITERAL_BODY.size)) && lw.body == Used(aw)
    ensures Appended(aw, WriteInfo(lw, info).frame, InfoBytes(info))
  {
    var b := InfoBytes(info);
    var z := Zeros(LITERAL_BODY.size);
    OverwriteAppended(aw, lw.frame, z, lw.body, 0, b, Overwrite(z, 0, b));
    assert Overwrite(z, 0, b) == z[..0] + b + z[|b|..] == b;
  }

  /** `write_info` as written appends the info after the reserved body, or
      changes nothing when it does not fit. */
  lemma {:induction false} InfoAppendedAgain(lw: LiteralInfoWriter, info: LiteralInfo)
    requires Stack(lw.frame) && PadFor(lw.frame, LITERAL_BODY) == 0
    ensures var t := WriteValue(lw.frame, LITERAL_BODY, InfoBytes(info));
            var sw := WriteInfoAsWritten(lw, info);
            (t.result.Err? ==> sw.frame == lw.frame) &&
            (t.result.Ok? ==> Appended(lw.frame, sw.frame, InfoBytes(info)))
  {
    var b := InfoBytes(info);
    WriteValueAppended(lw.frame, LITERAL_BODY, b);
    var t := WriteValue(lw.frame, LITERAL_BODY, b);
    if t.result.Ok? {
      var c := Buffer(t.writer)[Used(lw.frame)..Used(t.writer)];
      assert c == c[0..] == b;
    }
  }

  /** Writing a literal straight into a cursor: the cursor receives, after
      the padding to 8, a header announcing the info, the texts and one nul,
      then the info, the texts and the nul. */
  lemma {:induction false} LiteralWritten(w: Writer, urid: u32, info: LiteralInfo, texts: seq<seq<byte>>)
    requires Stack(w) && w.Cursor? && texts != [] && |Flatten(texts)| + 9 < U32_LIMIT
    requires WriteLiteral(w, urid, info, texts).Some?
    ensures var top := WriteLiteral(w, urid, info, texts).value.frame;
            top.AtomWriter? &&
            AtomLaidOut(Since(w, top.parent), PadFor(w, ATOM_HEADER), urid, InfoBytes(info) + Flatten(texts) + [0]) &&
            Appended(w, top.parent, Since(w, top.parent))
  {
    var aw := WriteNew(w, urid).result.value;
    FreshTopLevel(w, urid);
    ReservedBody(w, urid);
    var lw := InitLiteral(aw).result.value;
    InfoFilled(aw, lw, info);
    var sw := WriteInfo(lw, info);
    assert InfoBytes(info) + Nul(sw.hasNul) == InfoBytes(info);
    AppendAllLaid(aw, sw, InfoBytes(info), texts);
    var top := AppendAll(sw, texts).0.frame;
    AtomAppended(w, urid, top, InfoBytes(info) + Flatten(texts) + [0]);
  }

  /** Writing a literal as written, when the second `write_value` of the
      info goes through: the atom's body is the reserved, uninitialised
      body, then the info, the texts and one nul. */
  lemma {:induction false} LiteralWrittenAsWritten(w: Writer, urid: u32, info: LiteralInfo, texts: seq<seq<byte>>)
    requires Stack(w) && w.Cursor? && texts != [] && |Flatten(texts)| + 17 < U32_LIMIT
    requires WriteNew(w, urid).result.Ok? && InitLiteral(WriteNew(w, urid).result.value).result.Ok?
    requires WriteValue(InitLiteral(WriteNew(w, urid).result.value).writer, LITERAL_BODY, InfoBytes(info)).result.Ok?
    requires WriteLiteralAsWritten(w, urid, info, texts).Some?
    ensures var top := WriteLiteralAsWritten(w, urid, info, texts).value.frame;
            top.AtomWriter? &&
            AtomLaidOut(Since(w, top.parent), PadFor(w, ATOM_HEADER), urid,
                        Zeros(LITERAL_BODY.size) + InfoBytes(info) + Flatten(texts) + [0])
  {
    var aw := WriteNew(w, urid).result.value;
    var z := Zeros(LITERAL_BODY.size);
    InfoAsWrittenAfterHeader(w, urid, info);
    var sw := WriteInfoAsWritten(InitLiteral(aw).result.value, info);
    assert z + InfoBytes(info) + Nul(sw.hasNul) == z + InfoBytes(info);
    AppendAllLaid(aw, sw, z + InfoBytes(info), texts);
    var top := AppendAll(sw, texts).0.frame;
    AtomAppended(w, urid, top, z + InfoBytes(info) + Flatten(texts) + [0]);
  }

  /** `init_atom(literal)` and `write_info` as written straight into a
      cursor, when both go through: the reserved body and then the info. */
  lemma {:induction false} InfoAsWrittenAfterHeader(w: Writer, urid: u32, info: LiteralInfo)
    requires Stack(w) && w.Cursor?
    requires WriteNew(w, urid).result.Ok? && InitLiteral(WriteNew(w, urid).result.value).result.Ok?
    requires WriteValue(InitLiteral(WriteNew(w, urid).result.value).writer, LITERAL_BODY, InfoBytes(info)).result.Ok?
    ensures var aw := WriteNew(w, urid).result.value;
            var sw := WriteInfoAsWritten(InitLiteral(aw).result.value, info);
            Stack(aw) && TopLevel(aw) && SizeField(aw) == 0 && !sw.hasNul &&
            Appended(aw, sw.frame, Zeros(LITERAL_BODY.size) + InfoBytes(info))
  {
    var aw := WriteNew(w, urid).result.value;
    var lw := InitLiteral(aw).result.value;
    assert Appended(aw, lw.frame, Zeros(LITERAL_BODY.size)) && EightAligned(aw) by {
      ReservedBody(w, urid);
    }
    InfoAsWrittenAppended(aw, lw, info);
    FreshTopLevel(w, urid);
  }

  /** `write_info` as written, when its `write_value` goes through, appends
      the info after the reserved body. */
  lemma {:induction false} InfoAsWrittenAppended(aw: Writer, lw: LiteralInfoWriter, info: LiteralInfo)
    requires Appended(aw, lw.frame, Zeros(LITERAL_BODY.size)) && EightAligned(aw)
    requires WriteValue(lw.frame, LITERAL_BODY, InfoBytes(info)).result.Ok?
    ensures Appended(aw, WriteInfoAsWritten(lw, info).frame, Zeros(LITERAL_BODY.size) + InfoBytes(info))
  {
    InfoUnpadded(aw, lw.frame);
    InfoAppendedAgain(lw, info);
    AppendedTrans(aw, lw.frame, WriteInfoAsWritten(lw, info).frame, Zeros(LITERAL_BODY.size), InfoBytes(info));
  }

  /** A writer eight bytes past an eight-aligned address needs no padding
      before a literal body. */
  lemma {:induction false} InfoUnpadded(aw: Writer, f: Writer)
    requires Wf(aw) && EightAligned(aw) && Wf(f)
    requires Addr(f) == Addr(aw) && Used(f) == Used(aw) + LITERAL_BODY.size
    ensures PadFor(f, LITERAL_BODY) == 0
  {
    var y := Addr(f) + Used(f);
    EightAfter(Addr(aw) + Used(aw), y);
    EightIsFour(y);
    PaddingUnique(y, 4, 0);
  }

  /** A literal body that starts with a reserved body of zeros reads as
      nothing. */
  lemma {:induction false} ZeroInfoUnreadable(addr: nat, info: LiteralInfo, text: seq<byte>)
    requires addr % 4 == 0
    ensures ReadLiteralBody(Space(addr, Zeros(LITERAL_BODY.size) + InfoBytes(info) + text + [0])) == None
  {
    var tail := InfoBytes(info) + text + [0];
    U32Zero();
    assert Zeros(LITERAL_BODY.size) == EncodeU32(0) + EncodeU32(0);
    assert Zeros(LITERAL_BODY.size) + InfoBytes(info) + text + [0] == EncodeU32(0) + EncodeU32(0) + tail;
    BadInfoUnreadable(addr, 0, 0, tail);
  }

  /** A literal written as written reads as nothing: its first eight body
      bytes, where `read` looks for the info, are the reserved body's zeros,
      which name neither a language nor a datatype. */
  lemma {:induction false} LiteralAsWrittenUnreadable(addr: nat, c: seq<byte>, pad: nat, urid: u32, info: LiteralInfo,
                                                      text: seq<byte>, rest: seq<byte>)
    requires pad == Padding(addr, 8)
    requires AtomLaidOut(c, pad, urid, Zeros(LITERAL_BODY.size) + InfoBytes(info) + text + [0])
    requires |text| + 17 < U32_LIMIT
    ensures NextAtom(Space(addr, c + rest)).Ok?
    ensures NextAtom(Space(addr, c + rest)).value.0.header == AtomHeader(2 * LITERAL_BODY.size + |text| + 1, urid)
    ensures Body(NextAtom(Space(addr, c + rest)).value.0).bytes[..LITERAL_BODY.size] == EncodeU32(0) + EncodeU32(0)
    ensures ReadLiteral(Space(addr, c + rest), urid) == None
  {
    var z := Zeros(LITERAL_BODY.size);
    var body := z + InfoBytes(info) + text + [0];
    var s := Space(addr, c + rest);
    var at := addr + pad + HEADER_SIZE;
    LaidAtomBody(addr, c, pad, urid, body, rest, at);
    assert ReadLiteral(s, urid) == ReadLiteralBody(Body(NextAtom(s).value.0));
    ZeroInfoUnreadable(at, info, text);
    assert body[..LITERAL_BODY.size] == EncodeU32(0) + EncodeU32(0) by {
      U32Zero();
      assert body[..LITERAL_BODY.size] == z;
    }
  }

  /** The bytes of the u32 0. */
  lemma {:induction false} U32Zero()
    ensures EncodeU32(0) == [0, 0, 0, 0]
  {
    U32Bytes([0, 0, 0, 0]);
  }

  // ---------------------------------------------------------------------
  // Room

  /** On a fixed buffer, writing a literal straight into a cursor succeeds
      exactly when the padding, the header, the info, the texts and the nul
      fit. */
  lemma {:induction false} LiteralFits(w: Writer, urid: u32, info: LiteralInfo, texts: seq<seq<byte>>)
    requires Stack(w) && w.Cursor? && RootOf(w).backing.Slice? && texts != []
    requires |Flatten(texts)| + 9 < U32_LIMIT
    ensures WriteLiteral(w, urid, info, texts).Some?
            <==> Used(w) + PadFor(w, ATOM_HEADER) + HEADER_SIZE + LITERAL_BODY.size + |Flatten(texts)| + 1 <= |Buffer(w)|
  {
    assert WriteNew(w, urid).result.Ok? <==> Used(w) + PadFor(w, ATOM_HEADER) + HEADER_SIZE <= |Buffer(w)| by {
      WriteNewAppended(w, urid);
      SliceAllocate(w, HEADER_SIZE + PadFor(w, ATOM_HEADER));
    }
    var n := WriteNew(w, urid);
    if n.result.Ok? {
      var aw := n.result.value;
      ReservedFits(w, urid);
      var i := InitLiteral(aw);
      if i.result.Ok? {
        FreshTopLevel(w, urid);
        TextsFit(aw, i.result.value, info, texts);
      }
    }
  }

  /** After the reserved body is filled with the info, the texts and the
      nul fit exactly when there is room for them. */
  lemma {:induction false} TextsFit(aw: Writer, lw: LiteralInfoWriter, info: LiteralInfo, texts: seq<seq<byte>>)
    requires Appended(aw, lw.frame, Zeros(LITERAL_BODY.size)) && lw.body == Used(aw)
    requires TopLevel(aw) && SizeField(aw) == 0 && RootOf(aw).backing.Slice? && texts != []
    requires |Flatten(texts)| + 9 < U32_LIMIT
    ensures AppendAll(WriteInfo(lw, info), texts).1
            <==> Used(aw) + LITERAL_BODY.size + |Flatten(texts)| + 1 <= |Buffer(aw)|
  {
    InfoFilled(aw, lw, info);
    var sw := WriteInfo(lw, info);
    assert InfoBytes(info) + Nul(sw.hasNul) == InfoBytes(info);
    AppendAllLaid(aw, sw, InfoBytes(info), texts);
  }

  /** On a fixed buffer, the body `init` reserves right after `write_new`
      fits exactly when its eight bytes do. */
  lemma {:induction false} ReservedFits(w: Writer, urid: u32)
    requires Stack(w) && RootOf(w).backing.Slice? && WriteNew(w, urid).result.Ok?
    ensures var aw := WriteNew(w, urid).result.value;
            Stack(aw) && EightAligned(aw) && RootOf(aw).backing.Slice? && |Buffer(aw)| == |Buffer(w)| &&
            Used(aw) == Used(w) + PadFor(w, ATOM_HEADER) + HEADER_SIZE &&
            (InitLiteral(aw).result.Ok? <==> Used(aw) + LITERAL_BODY.size <= |Buffer(aw)|) &&
            (InitLiteral(aw).result.Ok? ==> Appended(aw, InitLiteral(aw).writer, Zeros(LITERAL_BODY.size)) &&
                                            InitLiteral(aw).result.value.body == Used(aw))
  {
    var aw := WriteNew(w, urid).result.value;
    HeaderAppended(w, urid);
    ReservedBody(w, urid);
    WriteValueAppended(aw, LITERAL_BODY, Zeros(LITERAL_BODY.size));
    SliceAllocate(aw, LITERAL_BODY.size);
  }

  /** On a fixed buffer with room for the reserved body, the info written a
      second time, the texts and the nul, every step of writing a literal as
      written goes through. */
  lemma {:induction false} LiteralAsWrittenFits(w: Writer, urid: u32, info: LiteralInfo, texts: seq<seq<byte>>)
    requires Stack(w) && w.Cursor? && RootOf(w).backing.Slice? && texts != []
    requires |Flatten(texts)| + 17 < U32_LIMIT
    requires Used(w) + PadFor(w, ATOM_HEADER) + HEADER_SIZE + 2 * LITERAL_BODY.size + |Flatten(texts)| + 1 <= |Buffer(w)|
    ensures WriteNew(w, urid).result.Ok? && InitLiteral(WriteNew(w, urid).result.value).result.Ok?
    ensures WriteValue(InitLiteral(WriteNew(w, urid).result.value).writer, LITERAL_BODY, InfoBytes(info)).result.Ok?
    ensures WriteLiteralAsWritten(w, urid, info, texts).Some?
  {
    InfoStepsFit(w, urid, info, |Flatten(texts)| + 1);
    var aw := WriteNew(w, urid).result.value;
    var lw := InitLiteral(aw).result.value;
    InfoAsWrittenAfterHeader(w, urid, info);
    SecondTextsFit(aw, WriteInfoAsWritten(lw, info), info, texts);
  }

  /** On a fixed buffer with room for the reserved body, the info written a
      second time and `room` bytes more, `write_new`, `init` and the second
      `write_value` all go through, and the `room` bytes are still free. */
  lemma {:induction false} InfoStepsFit(w: Writer, urid: u32, info: LiteralInfo, room: nat)
    requires Stack(w) && RootOf(w).backing.Slice?
    requires Used(w) + PadFor(w, ATOM_HEADER) + HEADER_SIZE + 2 * LITERAL_BODY.size + room <= |Buffer(w)|
    ensures WriteNew(w, urid).result.Ok? && InitLiteral(WriteNew(w, urid).result.value).result.Ok?
    ensures WriteValue(InitLiteral(WriteNew(w, urid).result.value).writer, LITERAL_BODY, InfoBytes(info)).result.Ok?
    ensures var aw := WriteNew(w, urid).result.value;
            RootOf(aw).backing.Slice? && Used(aw) + 2 * LITERAL_BODY.size + room <= |Buffer(aw)|
  {
    assert WriteNew(w, urid).result.Ok? by {
      WriteNewAppended(w, urid);
      SliceAllocate(w, HEADER_SIZE + PadFor(w, ATOM_HEADER));
    }
    var aw := WriteNew(w, urid).result.value;
    ReservedFits(w, urid);
    SecondInfoFits(aw, InitLiteral(aw).result.value, info);
  }

  /** After the info written a second time, the texts and the nul fit when
      there is room for them. */
  lemma {:induction false} SecondTextsFit(aw: Writer, sw: StringWriter, info: LiteralInfo, texts: seq<seq<byte>>)
    requires Appended(aw, sw.frame, Zeros(LITERAL_BODY.size) + InfoBytes(info)) && !sw.hasNul
    requires TopLevel(aw) && SizeField(aw) == 0 && RootOf(aw).backing.Slice? && texts != []
    requires |Flatten(texts)| + 17 < U32_LIMIT
    requires Used(aw) + 2 * LITERAL_BODY.size + |Flatten(texts)| + 1 <= |Buffer(aw)|
    ensures AppendAll(sw, texts).1
  {
    var z := Zeros(LITERAL_BODY.size);
    assert z + InfoBytes(info) + Nul(sw.hasNul) == z + InfoBytes(info);
    AppendAllLaid(aw, sw, z + InfoBytes(info), texts);
  }

  /** The second `write_value` of the info fits when eight more bytes do:
      it needs no padding. */
  lemma {:induction false} SecondInfoFits(aw: Writer, lw: LiteralInfoWriter, info: LiteralInfo)
    requires Appended(aw, lw.frame, Zeros(LITERAL_BODY.size)) && EightAligned(aw)
    requires RootOf(aw).backing.Slice? && Used(aw) + 2 * LITERAL_BODY.size <= |Buffer(aw)|
    ensures WriteValue(lw.frame, LITERAL_BODY, InfoBytes(info)).result.Ok?
  {
    var x := Addr(lw.frame) + Used(lw.frame);
    EightAfter(Addr(aw) + Used(aw), x);
    EightIsFour(x);
    PaddingUnique(x, 4, 0);
    WriteValueAppended(lw.frame, LITERAL_BODY, InfoBytes(info));
    SliceAllocate(lw.frame, LITERAL_BODY.size);
  }

  // ---------------------------------------------------------------------
  // The flag `append` keeps

  /** `append` as written, when the text and its nul do not fit after the
      rewind: it fails, the atom has lost its nul, and the writer still
      claims one. The next `append` rewinds again and so eats the last byte
      of the text before it. */
  lemma {:induction false} FailedAppendDropsNul(aw: Writer, sw: StringWriter, content: seq<byte>, text: seq<byte>)
    requires Appended(aw, sw.frame, content + [0]) && sw.hasNul && TopLevel(aw)
    requires SizeField(aw) + |content| + |text| + 1 < U32_LIMIT
    requires RootOf(aw).backing.Slice? && |Buffer(aw)| < Used(aw) + |content| + |text| + 1
    ensures var r := AppendAsWritten(sw, text);
            r.1.None? && r.0.hasNul && Appended(aw, r.0.frame, content)
  {
    RewindAppended(aw, sw.frame, content, 0);
    CopyAppended(aw, Rewind(sw.frame, 1).writer, content, true, text);
  }

  // ---------------------------------------------------------------------
  // The tests

  /** The two texts of the tests, in ASCII. */
  const SAMPLE0: seq<byte> := Ascii("Da steh ich nun, ich armer Tor! ")
  const SAMPLE1: seq<byte> := Ascii("Und bin so klug als wie zuvor;")

  /** Both samples one after the other, and valid UTF-8. */
  lemma {:induction false} Samples()
    ensures Flatten([SAMPLE0, SAMPLE1]) == SAMPLE0 + SAMPLE1
    ensures |SAMPLE0| == 32 && |SAMPLE1| == 30
    ensures Utf8.Valid(SAMPLE0 + SAMPLE1)
  {
    assert Flatten([SAMPLE1]) == SAMPLE1 + Flatten([]);
    assert [SAMPLE0, SAMPLE1][1..] == [SAMPLE1];
    Utf8.AsciiValid(SAMPLE0 + SAMPLE1);
  }

  /** The test of `String`: two appends into a 512-byte buffer at an
      8-aligned address give an atom of type `urid` announcing 63 bytes, and
      it reads back as both samples. */
  lemma {:induction false} StringExample(addr: nat, urid: u32)
    requires addr % 8 == 0
    ensures var w := SliceCursor(addr, Zeros(512));
            var r := WriteString(w, urid, [SAMPLE0, SAMPLE1]);
            r.Some? && r.value.frame.AtomWriter? &&
            var c := Since(w, r.value.frame.parent);
            NextAtom(Space(addr, c)).Ok? &&
            NextAtom(Space(addr, c)).value.0.header == AtomHeader(|SAMPLE0| + |SAMPLE1| + 1, urid) &&
            ReadString(Space(addr, c), urid) == Some(SAMPLE0 + SAMPLE1)
  {
    var w := SliceCursor(addr, Zeros(512));
    var texts := [SAMPLE0, SAMPLE1];
    Samples();
    PaddingUnique(addr, 8, 0);
    StringFits(w, urid, texts);
    StringWritten(w, urid, texts);
    var c := Since(w, WriteString(w, urid, texts).value.frame.parent);
    assert c + [] == c;
    LaidAtomBody(addr, c, 0, urid, SAMPLE0 + SAMPLE1 + [0], [], addr + HEADER_SIZE);
    StringRead(addr, c, 0, urid, SAMPLE0 + SAMPLE1, 0, []);
  }

  /** The test of `Literal`, with `write_info` as intended: the atom
      announces 71 bytes, its body starts with the German language and a
      zero datatype, and it reads back as that language and both samples. */
  lemma {:induction false} LiteralExample(addr: nat, urid: u32, german: Urid)
    requires addr % 8 == 0
    ensures var w := SliceCursor(addr, Zeros(512));
            var r := WriteLiteral(w, urid, Language(german), [SAMPLE0, SAMPLE1]);
            r.Some? && r.value.frame.AtomWriter? &&
            var c := Since(w, r.value.frame.parent);
            NextAtom(Space(addr, c)).Ok? &&
            NextAtom(Space(addr, c)).value.0.header == AtomHeader(LITERAL_BODY.size + |SAMPLE0| + |SAMPLE1| + 1, urid) &&
            Body(NextAtom(Space(addr, c)).value.0).bytes[..LITERAL_BODY.size] == EncodeU32(german) + EncodeU32(0) &&
            ReadLiteral(Space(addr, c), urid) == Some((Language(german), SAMPLE0 + SAMPLE1))
  {
    var w := SliceCursor(addr, Zeros(512));
    var texts := [SAMPLE0, SAMPLE1];
    var info := Language(german);
    Samples();
    PaddingUnique(addr, 8, 0);
    LiteralFits(w, urid, info, texts);
    LiteralWritten(w, urid, info, texts);
    var c := Since(w, WriteLiteral(w, urid, info, texts).value.frame.parent);
    var body := InfoBytes(info) + (SAMPLE0 + SAMPLE1) + [0];
    assert c + [] == c;
    assert body[..LITERAL_BODY.size] == InfoBytes(info);
    LaidAtomBody(addr, c, 0, urid, body, [], addr + HEADER_SIZE);
    LiteralRead(addr, c, 0, urid, info, SAMPLE0 + SAMPLE1, []);
  }

  /** The test of `Literal`, with `write_info` as written: the atom
      announces 79 bytes instead of 71, its body starts with a zero language
      and datatype instead of the German language, and it does not read
      back. */
  lemma {:induction false} LiteralExampleAsWritten(addr: nat, urid: u32, german: Urid)
    requires addr % 8 == 0
    ensures var w := SliceCursor(addr, Zeros(512));
            var r := WriteLiteralAsWritten(w, urid, Language(german), [SAMPLE0, SAMPLE1]);
            r.Some? && r.value.frame.AtomWriter? &&
            var c := Since(w, r.value.frame.parent);
            NextAtom(Space(addr, c)).Ok? &&
            NextAtom(Space(addr, c)).value.0.header == AtomHeader(2 * LITERAL_BODY.size + |SAMPLE0| + |SAMPLE1| + 1, urid) &&
            Body(NextAtom(Space(addr, c)).value.0).bytes[..LITERAL_BODY.size] == EncodeU32(0) + EncodeU32(0) &&
            ReadLiteral(Space(addr, c), urid) == None
  {
    var w := SliceCursor(addr, Zeros(512));
    var texts := [SAMPLE0, SAMPLE1];
    var info := Language(german);
    Samples();
    PaddingUnique(addr, 8, 0);
    LiteralAsWrittenFits(w, urid, info, texts);
    LiteralWrittenAsWritten(w, urid, info, texts);
    var c := Since(w, WriteLiteralAsWritten(w, urid, info, texts).value.frame.parent);
    assert c + [] == c;
    LiteralAsWrittenUnreadable(addr, c, 0, urid, info, SAMPLE0 + SAMPLE1, []);
  }

  /** `append` as written losing a byte: "ab" fills an 11-byte buffer with
      its header and nul, an `append` of "xyz" then fails, and the string
      now reads "a". With `append` as intended the failed call changes
      nothing and the string still reads "ab". */
  lemma {:induction false} LostByteExample(addr: nat, urid: u32)
    requires addr % 8 == 0
    ensures var w := SliceCursor(addr, Zeros(11));
            var r := WriteString(w, urid, [[0x61, 0x62]]);
            r.Some? &&
            var bad := AppendAsWritten(r.value, [0x78, 0x79, 0x7A]);
            var good := Append(r.value, [0x78, 0x79, 0x7A]);
            bad.1.None? && bad.0.frame.AtomWriter? && good.1.None? && good.0.frame.AtomWriter? &&
            ReadString(Space(addr, Since(w, bad.0.frame.parent)), urid) == Some([0x61]) &&
            ReadString(Space(addr, Since(w, good.0.frame.parent)), urid) == Some([0x61, 0x62])
  {
    var w := SliceCursor(addr, Zeros(11));
    var ab: seq<byte> := [0x61, 0x62];
    PaddingUnique(addr, 8, 0);
    assert Flatten([ab]) == ab by {
      assert Flatten([ab]) == ab + Flatten([]);
    }
    StringFits(w, urid, [ab]);
    LostByteAsWritten(addr, urid, w, ab);
    LostByteIntended(addr, urid, w, ab);
  }

  /** The as-written half of `LostByteExample`. */
  lemma {:induction false} LostByteAsWritten(addr: nat, urid: u32, w: Writer, ab: seq<byte>)
    requires addr % 8 == 0 && Padding(addr, 8) == 0 && w == SliceCursor(addr, Zeros(11)) && ab == [0x61, 0x62]
    requires WriteString(w, urid, [ab]).Some?
    ensures var bad := AppendAsWritten(WriteString(w, urid, [ab]).value, [0x78, 0x79, 0x7A]);
            bad.1.None? && bad.0.frame.AtomWriter? &&
            ReadString(Space(addr, Since(w, bad.0.frame.parent)), urid) == Some([0x61])
  {
    var xyz: seq<byte> := [0x78, 0x79, 0x7A];
    var aw := WriteNew(w, urid).result.value;
    var sw := WriteString(w, urid, [ab]).value;
    AbWritten(w, urid, ab);
    FailedAppendDropsNul(aw, sw, ab, xyz);
    var bad := AppendAsWritten(sw, xyz);
    Utf8.AsciiValid([0x61]);
    assert ab == [0x61] + [0x62];
    AtomAppended(w, urid, bad.0.frame, [0x61] + [0x62]);
    var c1 := Since(w, bad.0.frame.parent);
    assert c1 + [] == c1;
    StringRead(addr, c1, 0, urid, [0x61], 0x62, []);
  }

  /** The intended half of `LostByteExample`. */
  lemma {:induction false} LostByteIntended(addr: nat, urid: u32, w: Writer, ab: seq<byte>)
    requires addr % 8 == 0 && Padding(addr, 8) == 0 && w == SliceCursor(addr, Zeros(11)) && ab == [0x61, 0x62]
    requires WriteString(w, urid, [ab]).Some? && Flatten([ab]) == ab
    ensures var good := Append(WriteString(w, urid, [ab]).value, [0x78, 0x79, 0x7A]);
            good.1.None? && good.0.frame.AtomWriter? &&
            ReadString(Space(addr, Since(w, good.0.frame.parent)), urid) == Some([0x61, 0x62])
  {
    var xyz: seq<byte> := [0x78, 0x79, 0x7A];
    var aw := WriteNew(w, urid).result.value;
    var sw := WriteString(w, urid, [ab]).value;
    assert AppendAsWritten(sw, xyz).1.None? by {
      AbWritten(w, urid, ab);
      FailedAppendDropsNul(aw, sw, ab, xyz);
    }
    Utf8.AsciiValid(ab);
    StringWritten(w, urid, [ab]);
    var c2 := Since(w, sw.frame.parent);
    assert c2 + [] == c2;
    StringRead(addr, c2, 0, urid, ab, 0, []);
  }

  /** The string writer of a single text straight over a cursor, as
      `AppendAllLaid` describes it. */
  lemma {:induction false} AbWritten(w: Writer, urid: u32, text: seq<byte>)
    requires Stack(w) && w.Cursor? && |text| + 1 < U32_LIMIT
    requires WriteString(w, urid, [text]).Some?
    ensures var aw := WriteNew(w, urid).result.value;
            var sw := WriteString(w, urid, [text]).value;
            Stack(aw) && TopLevel(aw) && SizeField(aw) == 0 && sw.hasNul &&
            Appended(aw, sw.frame, text + [0])
  {
    var aw := WriteNew(w, urid).result.value;
    FreshTopLevel(w, urid);
    AppendedNothing(aw);
    var sw := InitString(aw).value;
    assert [] + Nul(sw.hasNul) == [];
    assert Flatten([text]) == text + Flatten([]);
    AppendAllLaid(aw, sw, [], [text]);
    assert [] + Flatten([text]) + [0] == text + [0];
  }
}
