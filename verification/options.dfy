/** The options extension (options/src): status codes, option subjects, the
    options a host sends and the requests it makes, the null-terminated lists
    that carry both, and the serialization contexts that look an option up in
    such a list.

    An option's value is an atom body whose type is a URID; reading it is the
    atom type's `read` followed by the option type's `from_option_value`, both
    function parameters of the model. The status and context codes are those
    of the LV2 options extension's C header. */
module Options {
  import opened Bytes
  import opened Wrappers
  import opened Errors
  import opened Aligned
  import opened Urid

  const OPTIONS_SUCCESS: u32 := 0
  const OPTIONS_ERR_UNKNOWN: u32 := 1
  const OPTIONS_ERR_BAD_SUBJECT: u32 := 2
  const OPTIONS_ERR_BAD_KEY: u32 := 4
  const OPTIONS_ERR_BAD_VALUE: u32 := 8

  const OPTIONS_INSTANCE: u32 := 0
  const OPTIONS_RESOURCE: u32 := 1
  const OPTIONS_BLANK: u32 := 2
  const OPTIONS_PORT: u32 := 3

  // ---------------------------------------------------------------------
  // OptionsError (option/error.rs)
  // ---------------------------------------------------------------------

  datatype OptionsError = Unknown | BadSubject | BadKey | BadValue

  /** The enum's discriminants, which are the status codes. */
  function Discriminant(e: OptionsError): u32 {
    match e
    case Unknown => OPTIONS_ERR_UNKNOWN
    case BadSubject => OPTIONS_ERR_BAD_SUBJECT
    case BadKey => OPTIONS_ERR_BAD_KEY
    case BadValue => OPTIONS_ERR_BAD_VALUE
  }

  /** `result_into_raw`. */
  function ResultIntoRaw(r: Result<(), OptionsError>): (code: u32)
    ensures code == OPTIONS_SUCCESS <==> r.Ok?
    ensures r.Err? ==> code == Discriminant(r.error)
  {
    match r
    case Ok(_) => OPTIONS_SUCCESS
    case Err(BadSubject) => OPTIONS_ERR_BAD_SUBJECT
    case Err(BadKey) => OPTIONS_ERR_BAD_KEY
    case Err(BadValue) => OPTIONS_ERR_BAD_VALUE
    case Err(_) => OPTIONS_ERR_UNKNOWN
  }

  /** The five codes the extension names. */
  predicate IsNamedOptionsStatus(code: u32) {
    code in {OPTIONS_SUCCESS, OPTIONS_ERR_UNKNOWN, OPTIONS_ERR_BAD_SUBJECT, OPTIONS_ERR_BAD_KEY, OPTIONS_ERR_BAD_VALUE}
  }

  /** `from_raw`: a code the extension does not name is `Unknown`. */
  function FromRaw(code: u32): (r: Result<(), OptionsError>)
    ensures r.Ok? <==> code == OPTIONS_SUCCESS
    ensures !IsNamedOptionsStatus(code) ==> r == Err(Unknown)
    ensures r.Err? && IsNamedOptionsStatus(code) ==> Discriminant(r.error) == code
  {
    if code == OPTIONS_SUCCESS then Ok(())
    else if code == OPTIONS_ERR_BAD_SUBJECT then Err(BadSubject)
    else if code == OPTIONS_ERR_BAD_KEY then Err(BadKey)
    else if code == OPTIONS_ERR_BAD_VALUE then Err(BadValue)
    else Err(Unknown)
  }

  /** Every result survives the trip through its status code. */
  lemma {:induction false} FromRawIntoRaw(r: Result<(), OptionsError>)
    ensures FromRaw(ResultIntoRaw(r)) == r
  {
    match r
    case Ok(u) => assert u == ();
    case Err(e) =>
  }

  /** Each named code survives the trip through its result. */
  lemma {:induction false} IntoRawFromRaw(code: u32)
    requires IsNamedOptionsStatus(code)
    ensures ResultIntoRaw(FromRaw(code)) == code
  {
  }

  // ---------------------------------------------------------------------
  // Subject (option/subject.rs)
  // ---------------------------------------------------------------------

  datatype Subject = Instance | Resource(urid: Urid) | Blank(blank: u32) | Port(port: u32)

  /** `Subject::from_raw`: the context selects the kind of subject; a
      resource needs a nonzero URID and an unknown context is no subject. */
  function SubjectFromRaw(context: u32, subject: u32): (r: Option<Subject>)
    ensures context == OPTIONS_INSTANCE ==> r == Some(Instance)
    ensures context == OPTIONS_RESOURCE ==> (r.Some? <==> subject != 0)
    ensures context == OPTIONS_RESOURCE && r.Some? ==> r.value.Resource? && r.value.urid as u32 == subject
    ensures context == OPTIONS_BLANK ==> r == Some(Blank(subject))
    ensures context == OPTIONS_PORT ==> r == Some(Port(subject))
    ensures context > OPTIONS_PORT ==> r.None?
  {
    if context == OPTIONS_INSTANCE then Some(Instance)
    else if context == OPTIONS_RESOURCE then
      var u :- NewUrid(subject);
      Some(Resource(u))
    else if context == OPTIONS_BLANK then Some(Blank(subject))
    else if context == OPTIONS_PORT then Some(Port(subject))
    else None
  }

  /** The raw context and subject of a subject; an instance carries no
      subject of its own. */
  function SubjectToRaw(s: Subject): (r: (u32, u32)) {
    match s
    case Instance => (OPTIONS_INSTANCE, 0)
    case Resource(u) => (OPTIONS_RESOURCE, u as u32)
    case Blank(b) => (OPTIONS_BLANK, b)
    case Port(p) => (OPTIONS_PORT, p)
  }

  /** Every subject is read back from its raw form, and an instance from any
      subject value. */
  lemma {:induction false} SubjectRoundTrip(s: Subject, anySubject: u32)
    ensures SubjectFromRaw(SubjectToRaw(s).0, SubjectToRaw(s).1) == Some(s)
    ensures SubjectFromRaw(OPTIONS_INSTANCE, anySubject) == Some(Instance)
  {
  }

  // ---------------------------------------------------------------------
  // OptionValue and OptionRequest (option/value.rs, option/request.rs)
  // ---------------------------------------------------------------------

  /** `LV2_Options_Option`: one entry of a host's list. `value` is the memory
      the value pointer points at (`None` for null). */
  datatype RawOption = RawOption(context: u32, subject: u32, key: u32, size: u32, type_: u32, value: Option<Space>)

  /** What the host promises of an entry: a value pointer covers `size`
      bytes. */
  predicate HostEntry(o: RawOption) {
    o.value.Some? ==> o.size as int <= |o.value.value.bytes|
  }

  /** `OptionValue::is` and `OptionRequest::is`: the key is the URID. */
  predicate Is(o: RawOption, urid: Urid) {
    o.key == urid as u32
  }

  /** `OptionValue::subject`. */
  function OptionSubject(o: RawOption): (r: Option<Subject>)
    ensures r == SubjectFromRaw(o.context, o.subject)
  {
    SubjectFromRaw(o.context, o.subject)
  }

  /** `OptionValue::data`: nothing for a null pointer, otherwise the `size`
      bytes it points at. */
  function Data(o: RawOption): (r: Option<Space>)
    requires HostEntry(o)
    ensures r.Some? <==> o.value.Some?
    ensures r.Some? ==> r.value.addr == o.value.value.addr && |r.value.bytes| == o.size as int &&
                        r.value.bytes == o.value.value.bytes[..o.size]
  {
    match o.value
    case None => None
    case Some(s) => Some(Space(s.addr, s.bytes[..o.size]))
  }

  /** `OptionValue::read`: the key first (`BadKey`), then the value's type,
      then the atom read and the conversion, all three `BadValue`. The value
      is handed to the atom type without an alignment check. */
  function ReadOption<A, T>(o: RawOption, optionUrid: Urid, dataUrid: Urid,
                            atomRead: Space -> Result<A, AtomReadError>, fromValue: A -> Option<T>): (r: Result<T, OptionsError>)
    requires HostEntry(o)
    ensures !Is(o, optionUrid) ==> r == Err(BadKey)
    ensures Is(o, optionUrid) && o.type_ != dataUrid as u32 ==> r == Err(BadValue)
    ensures r.Err? && Is(o, optionUrid) ==> r.error == BadValue
    ensures r.Ok? <==> Is(o, optionUrid) && o.type_ == dataUrid as u32 && o.value.Some? &&
                       atomRead(Data(o).value).Ok? && fromValue(atomRead(Data(o).value).value).Some?
    ensures r.Ok? ==> r.value == fromValue(atomRead(Data(o).value).value).value
  {
    if !Is(o, optionUrid) then Err(BadKey)
    else if o.type_ != dataUrid as u32 then Err(BadValue)
    else
      match Data(o)
      case None => Err(BadValue)
      case Some(d) =>
        match atomRead(d)
        case Err(_) => Err(BadValue)
        case Ok(a) =>
          match fromValue(a)
          case None => Err(BadValue)
          case Some(v) => Ok(v)
  }

  /** `OptionRequest::option_type`: the requested key, if it is a URID. */
  function RequestOptionType(req: RawOption): (r: Option<Urid>)
    ensures r.Some? <==> req.key != 0
    ensures r.Some? ==> r.value as u32 == req.key
  {
    NewUrid(req.key)
  }

  /** `has_response`: a response sets a type. */
  predicate HasResponse(req: RawOption) {
    req.type_ != 0
  }

  /** `try_respond`: a request for another key is `BadKey` and unchanged;
      otherwise the response's type, its size (as a `u32`) and its bytes are
      set. */
  function TryRespond(req: RawOption, optionUrid: Urid, atomUrid: Urid, data: Space): (r: (RawOption, Result<(), OptionsError>))
    ensures !Is(req, optionUrid) ==> r == (req, Err(BadKey))
    ensures Is(req, optionUrid) ==> r.1 == Ok(())
    ensures Is(req, optionUrid) ==>
              HasResponse(r.0) && r.0.type_ == atomUrid as u32 &&
              r.0.size as int == |data.bytes| % U32_LIMIT && r.0.value == Some(data) &&
              r.0.key == req.key && r.0.context == req.context && r.0.subject == req.subject
  {
    if !Is(req, optionUrid) then (req, Err(BadKey))
    else (req.(type_ := atomUrid as u32, size := (|data.bytes| % U32_LIMIT) as u32, value := Some(data)), Ok(()))
  }

  /** A response the option type can read back: the answered request, seen
      as an option, reads as the value the bytes encode. */
  lemma {:induction false} RespondThenRead<A, T>(req: RawOption, optionUrid: Urid, atomUrid: Urid, data: Space,
                              atomRead: Space -> Result<A, AtomReadError>, fromValue: A -> Option<T>)
    requires Is(req, optionUrid) && |data.bytes| < U32_LIMIT
    requires atomRead(data).Ok? && fromValue(atomRead(data).value).Some?
    ensures var answered := TryRespond(req, optionUrid, atomUrid, data).0;
            HostEntry(answered) &&
            ReadOption(answered, optionUrid, atomUrid, atomRead, fromValue) == Ok(fromValue(atomRead(data).value).value)
  {
    var answered := TryRespond(req, optionUrid, atomUrid, data).0;
    assert Data(answered).value == data;
  }

  // ---------------------------------------------------------------------
  // Lists (list.rs and the request list of option/request.rs)
  // ---------------------------------------------------------------------

  /** The entries of a null-terminated list: those before the first entry
      with key 0, which is the terminator and not an entry. */
  function Entries(list: seq<RawOption>): (r: seq<RawOption>)
    ensures r <= list
    ensures forall i :: 0 <= i < |r| ==> r[i].key != 0
    ensures |r| < |list| ==> list[|r|].key == 0
  {
    if list == [] || list[0].key == 0 then []
    else [list[0]] + Entries(list[1..])
  }

  /** `OptionsListIter::next` and `OptionRequestListIter::next`: the entry at
      the iterator's position, moving on only after yielding it; the
      terminator is never yielded. */
  function ListNext(list: seq<RawOption>, pos: nat): (r: Option<(RawOption, nat)>)
    ensures r.Some? <==> pos < |list| && list[pos].key != 0
    ensures r.Some? ==> r.value == (list[pos], pos + 1)
  {
    if pos >= |list| || list[pos].key == 0 then None
    else Some((list[pos], pos + 1))
  }

  /** Everything an iterator at `pos` yields. */
  function Collect(list: seq<RawOption>, pos: nat): seq<RawOption>
    decreases |list| - pos
  {
    match ListNext(list, pos)
    case None => []
    case Some((o, next)) => [o] + Collect(list, next)
  }

  /** Iterating a list yields its entries, in order. */
  lemma {:induction false} CollectIsEntries(list: seq<RawOption>)
    ensures Collect(list, 0) == Entries(list)
  {
    CollectFrom(list, 0);
  }

  lemma {:induction false} CollectFrom(list: seq<RawOption>, pos: nat)
    requires pos <= |list|
    ensures Collect(list, pos) == Entries(list[pos..])
    decreases |list| - pos
  {
    if pos < |list| && list[pos].key != 0 {
      CollectFrom(list, pos + 1);
      assert list[pos..][1..] == list[pos + 1..];
    }
  }

  /** `OptionsList::from_feature_ptr`: a list exactly when the pointer is not
      null. */
  function ListFromFeaturePtr(ptr: Option<seq<RawOption>>): (r: Option<seq<RawOption>>)
    ensures r.Some? <==> ptr.Some?
    ensures r.Some? ==> r.value == ptr.value
  {
    match ptr
    case None => None
    case Some(l) => Some(l)
  }

  // ---------------------------------------------------------------------
  // Serialization contexts (collection/option_value.rs, collection/option.rs)
  // ---------------------------------------------------------------------

  /** `OptionTypeSerializationContext`: the option's key and its atom
      type. */
  datatype Context = Context(optionUrid: Urid, atomUrid: Urid)

  predicate HostEntries(items: seq<RawOption>) {
    forall i :: 0 <= i < |items| ==> HostEntry(items[i])
  }

  /** `deserialize_new`: the first entry that reads, skipping entries for
      other keys; any other error ends the search; no entry is `BadKey`. */
  function DeserializeNew<A, T>(ctx: Context, items: seq<RawOption>,
                                atomRead: Space -> Result<A, AtomReadError>, fromValue: A -> Option<T>): (r: Result<T, OptionsError>)
    requires HostEntries(items)
    ensures r == Err(BadKey) <==>
              forall i :: 0 <= i < |items| ==> ReadOption(items[i], ctx.optionUrid, ctx.atomUrid, atomRead, fromValue) == Err(BadKey)
    ensures r != Err(BadKey) ==>
              exists i :: 0 <= i < |items| &&
                          ReadOption(items[i], ctx.optionUrid, ctx.atomUrid, atomRead, fromValue) == r &&
                          forall j :: 0 <= j < i ==> ReadOption(items[j], ctx.optionUrid, ctx.atomUrid, atomRead, fromValue) == Err(BadKey)
  {
    if items == [] then Err(BadKey)
    else
      match ReadOption(items[0], ctx.optionUrid, ctx.atomUrid, atomRead, fromValue)
      case Ok(v) => Ok(v)
      case Err(BadKey) =>
        var r := DeserializeNew(ctx, items[1..], atomRead, fromValue);
        assert forall i :: 1 <= i < |items| ==> items[i] == items[1..][i - 1];
        r
      case Err(e) => Err(e)
  }

  /** `deserialize_to`: the same search, assigning the value it finds; on any
      error the destination is unchanged. */
  function DeserializeTo<A, T>(ctx: Context, dest: T, items: seq<RawOption>,
                               atomRead: Space -> Result<A, AtomReadError>, fromValue: A -> Option<T>): (r: (T, Result<(), OptionsError>))
    requires HostEntries(items)
    ensures var n := DeserializeNew(ctx, items, atomRead, fromValue);
            (r.1.Ok? <==> n.Ok?) && (r.1.Err? ==> r.1.error == n.error) &&
            r.0 == (if n.Ok? then n.value else dest)
  {
    if items == [] then (dest, Err(BadKey))
    else
      match ReadOption(items[0], ctx.optionUrid, ctx.atomUrid, atomRead, fromValue)
      case Ok(v) => (v, Ok(()))
      case Err(BadKey) => DeserializeTo(ctx, dest, items[1..], atomRead, fromValue)
      case Err(e) => (dest, Err(e))
  }

  /** `respond_to_request`: `try_respond` with the context's URIDs. */
  function RespondToRequest(ctx: Context, value: Space, req: RawOption): (r: (RawOption, Result<(), OptionsError>))
    ensures r == TryRespond(req, ctx.optionUrid, ctx.atomUrid, value)
    ensures r.1.Ok? <==> Is(req, ctx.optionUrid)
  {
    TryRespond(req, ctx.optionUrid, ctx.atomUrid, value)
  }

  /** `deserialize_new` of an optional option: a missing option is `None`,
      not an error. */
  function OptionalDeserializeNew<A, T>(ctx: Context, items: seq<RawOption>,
                                        atomRead: Space -> Result<A, AtomReadError>, fromValue: A -> Option<T>): (r: Result<Option<T>, OptionsError>)
    requires HostEntries(items)
    ensures var n := DeserializeNew(ctx, items, atomRead, fromValue);
            (n.Ok? ==> r == Ok(Some(n.value))) &&
            (n == Err(BadKey) ==> r == Ok(None)) &&
            (n.Err? && n.error != BadKey ==> r == Err(n.error))
  {
    match DeserializeNew(ctx, items, atomRead, fromValue)
    case Ok(v) => Ok(Some(v))
    case Err(BadKey) => Ok(None)
    case Err(e) => Err(e)
  }

  /** `deserialize_to` of an optional option: a present destination is
      updated in place, an absent one receives a fresh value; a missing
      option is not an error and leaves the destination as it was. */
  function OptionalDeserializeTo<A, T>(ctx: Context, dest: Option<T>, items: seq<RawOption>,
                                       atomRead: Space -> Result<A, AtomReadError>, fromValue: A -> Option<T>): (r: (Option<T>, Result<(), OptionsError>))
    requires HostEntries(items)
    ensures var n := DeserializeNew(ctx, items, atomRead, fromValue);
            (r.1.Ok? <==> n.Ok? || n == Err(BadKey)) &&
            (r.1.Err? ==> r.1.error == n.error) &&
            r.0 == (if n.Ok? then Some(n.value) else dest)
  {
    var (dest', result) :=
      match dest
      case Some(v) =>
        var (v', res) := DeserializeTo(ctx, v, items, atomRead, fromValue);
        (Some(v'), res)
      case None =>
        match DeserializeNew(ctx, items, atomRead, fromValue)
        case Ok(v) => (Some(v), Ok(()))
        case Err(e) => (None, Err(e));
    match result
    case Ok(_) => (dest', Ok(()))
    case Err(BadKey) => (dest', Ok(()))
    case Err(e) => (dest', Err(e))
  }

  /** `respond_to_request` of an optional option: nothing to answer for
      `None`. */
  function OptionalRespondToRequest(ctx: Context, value: Option<Space>, req: RawOption): (r: (RawOption, Result<(), OptionsError>))
    ensures value.None? ==> r == (req, Ok(()))
    ensures value.Some? ==> r == RespondToRequest(ctx, value.value, req)
  {
    match value
    case None => (req, Ok(()))
    case Some(v) => RespondToRequest(ctx, v, req)
  }

  /** A list holding the option under another key only is `BadKey` for the
      plain context and `None` for the optional one; once the option is
      present, both find it. */
  lemma {:induction false} OptionalExample<A, T>(ctx: Context, other: RawOption, mine: RawOption,
                              atomRead: Space -> Result<A, AtomReadError>, fromValue: A -> Option<T>)
    requires HostEntry(other) && HostEntry(mine)
    requires !Is(other, ctx.optionUrid)
    requires ReadOption(mine, ctx.optionUrid, ctx.atomUrid, atomRead, fromValue).Ok?
    ensures DeserializeNew(ctx, [other], atomRead, fromValue) == Err(BadKey)
    ensures OptionalDeserializeNew(ctx, [other], atomRead, fromValue) == Ok(None)
    ensures var v := ReadOption(mine, ctx.optionUrid, ctx.atomUrid, atomRead, fromValue).value;
            DeserializeNew(ctx, [other, mine], atomRead, fromValue) == Ok(v) &&
            OptionalDeserializeNew(ctx, [other, mine], atomRead, fromValue) == Ok(Some(v))
  {
    assert [other, mine][1..] == [mine];
  }
}
