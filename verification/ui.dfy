/** `SelfAllocatingSpace` (ui/src/space.rs): the growable byte buffer a plugin
    UI uses to exchange atoms with its plugin. */
module UiSpace {
  import opened Bytes
  import opened Wrappers

  /** The buffer and whether its contents were already handed out. */
  datatype SelfAllocatingSpace = SelfAllocatingSpace(data: seq<byte>, alreadyRead: bool)

  /** `new`: empty and not read. */
  const EmptySpace: SelfAllocatingSpace := SelfAllocatingSpace([], false)

  /** `len`: the number of bytes held. */
  function Len(s: SelfAllocatingSpace): (r: nat)
    ensures r == |s.data|
  {
    |s.data|
  }

  /** `put_buffer`: the contents become a copy of the first `size` bytes the
      host points at, and they count as unread again. The caller of this
      `unsafe` function promises that `size` bytes are readable. */
  function PutBuffer(s: SelfAllocatingSpace, buffer: seq<byte>, size: nat): (r: SelfAllocatingSpace)
    requires size <= |buffer|
    ensures Len(r) == size && !r.alreadyRead
    ensures forall i :: 0 <= i < size ==> r.data[i] == buffer[i]
  {
    SelfAllocatingSpace(buffer[..size], false)
  }

  /** `take`: the contents, once; an empty or already read space gives
      nothing and is left as it is. */
  function Take(s: SelfAllocatingSpace): (r: (SelfAllocatingSpace, Option<seq<byte>>))
    ensures r.1.None? <==> |s.data| == 0 || s.alreadyRead
    ensures r.1.None? ==> r.0 == s
    ensures r.1.Some? ==> r.1.value == s.data && r.0.data == s.data && r.0.alreadyRead
  {
    if |s.data| == 0 || s.alreadyRead then (s, None)
    else (SelfAllocatingSpace(s.data, true), Some(s.data))
  }

  /** The padding a padded allocation puts in front: the zero bytes up to
      the next multiple of 8. */
  function PaddingTo8(len: nat): (r: nat)
    ensures r < 8 && (len + r) % 8 == 0
  {
    (8 - len % 8) % 8
  }

  /** `allocate`: optionally zero-pads to a multiple of 8, then appends
      `size` zero bytes; it never fails. The result is the padding and the
      start of the new bytes, which the caller writes through. */
  function Allocate(s: SelfAllocatingSpace, size: nat, applyPadding: bool): (r: (SelfAllocatingSpace, nat, nat))
    ensures var (s', padding, start) := r;
            (applyPadding ==> padding < 8 && start % 8 == 0) &&
            (!applyPadding ==> padding == 0) &&
            start == |s.data| + padding &&
            s'.data == s.data + Zeros(padding + size) &&
            |s'.data| == start + size &&
            s'.alreadyRead == s.alreadyRead
  {
    var padding := if applyPadding then PaddingTo8(|s.data|) else 0;
    var padded := s.data + Zeros(padding);
    var start := |padded|;
    var grown := padded + Zeros(size);
    assert grown == s.data + Zeros(padding + size);
    (SelfAllocatingSpace(grown, s.alreadyRead), padding, start)
  }

  /** A buffer the host puts is what `take` hands out next, and only once. */
  lemma {:induction false} PutThenTake(s: SelfAllocatingSpace, buffer: seq<byte>, size: nat)
    requires 0 < size <= |buffer|
    ensures var (s1, r1) := Take(PutBuffer(s, buffer, size));
            r1 == Some(buffer[..size]) && Take(s1).1.None?
  {
  }

  /** Allocating keeps what was there and starts the new bytes where they
      are handed out: the space grows by the padding and the request, and
      the allocated bytes are zero. */
  lemma {:induction false} AllocateKeepsPrefix(s: SelfAllocatingSpace, size: nat, applyPadding: bool)
    ensures var (s', padding, start) := Allocate(s, size, applyPadding);
            s'.data[..|s.data|] == s.data &&
            s'.data[start..start + size] == Zeros(size) &&
            Len(s') == Len(s) + padding + size
  {
    var (s', padding, start) := Allocate(s, size, applyPadding);
    assert s'.data[start..start + size] == Zeros(padding + size)[padding..];
  }
}

/** The UI ports (ui/src/port.rs): control ports that hold one value and a
    pending-change flag, atom ports that exchange atoms through two
    `SelfAllocatingSpace`s, and the dispatch of the host's `port_event`.

    A control value is an `f32`; the model holds its bit pattern as a `u32`
    (0.0 is all zero bits), which is all that the port stores and hands
    back. */
module UiPort {
  import opened Bytes
  import opened Wrappers
  import opened UiSpace

  /** `UIControlPort`. */
  datatype UIControlPort = UIControlPort(value: u32, changed: bool, index: u32)

  /** `UIAtomPort`: the space towards the plugin, the space towards the UI,
      the event-transfer URID and the port index. */
  datatype UIAtomPort = UIAtomPort(toPlugin: SelfAllocatingSpace, toUi: SelfAllocatingSpace, urid: u32, index: u32)

  /** `UIControlPort::new`: value 0.0 and no pending change. */
  function NewControlPort(index: u32): (p: UIControlPort)
    ensures p.value == 0 && !p.changed && p.index == index
  {
    UIControlPort(0, false, index)
  }

  /** `set_value`: stores the value and marks it changed. */
  function SetValue(p: UIControlPort, v: u32): (r: UIControlPort)
    ensures r.value == v && r.changed && r.index == p.index
  {
    UIControlPort(v, true, p.index)
  }

  /** `changed_value`: the value when it changed since the last call, which
      clears the flag; otherwise nothing, and the port is left as it is. */
  function ChangedValue(p: UIControlPort): (r: (UIControlPort, Option<u32>))
    ensures r.1.Some? <==> p.changed
    ensures r.1.Some? ==> r.1.value == p.value
    ensures !r.0.changed && r.0.value == p.value && r.0.index == p.index
  {
    if p.changed then (p.(changed := false), Some(p.value)) else (p, None)
  }

  /** A new port has no change to report; a set value is reported once, and
      a second call reports nothing. */
  lemma {:induction false} ChangedOnce(index: u32, v: u32)
    ensures ChangedValue(NewControlPort(index)).1 == None
    ensures var (p1, r1) := ChangedValue(SetValue(NewControlPort(index), v));
            r1 == Some(v) && ChangedValue(p1).1 == None
  {
  }

  /** The metadata a port reports to the host. */
  datatype PortInfo = PortInfo(index: u32, protocol: u32, size: nat)

  /** A control port: protocol 0 and the 4 bytes of an `f32`. */
  function ControlInfo(p: UIControlPort): (r: PortInfo)
    ensures r.protocol == 0 && r.size == 4 && r.index == p.index
  {
    PortInfo(p.index, 0, 4)
  }

  /** `UIAtomPort::new`: both spaces empty. */
  function NewAtomPort(urid: u32, index: u32): (p: UIAtomPort)
    ensures p.toPlugin == EmptySpace && p.toUi == EmptySpace
    ensures p.urid == urid && p.index == index
  {
    UIAtomPort(EmptySpace, EmptySpace, urid, index)
  }

  /** An atom port: its URID as the protocol and the length of what it has
      written for the plugin as the size. */
  function AtomInfo(p: UIAtomPort): (r: PortInfo)
    ensures r.protocol == p.urid && r.size == Len(p.toPlugin) && r.index == p.index
  {
    PortInfo(p.index, p.urid, Len(p.toPlugin))
  }

  /** A UI's ports, found by index the way `map_control_port` and
      `map_atom_port` find them. */
  datatype UIPorts = UIPorts(controls: map<u32, UIControlPort>, atoms: map<u32, UIAtomPort>)

  /** What `port_event` needs of its buffer: a control event points at an
      `f32`, and a non-null atom buffer holds `bufferSize` bytes. */
  predicate EventBufferOk(bufferSize: u32, format: u32, buffer: Option<seq<byte>>) {
    (format == 0 ==> buffer.Some? && |buffer.value| >= 4) &&
    (format != 0 && buffer.Some? ==> bufferSize as int <= |buffer.value|)
  }

  /** `port_event`: format 0 sets the addressed control port's value; any
      other format is a URID, and a matching atom port copies a non-null
      buffer into its space towards the UI. An unknown port, a URID that does
      not match, or a null buffer changes nothing (the messages printed then
      are not modelled). */
  function PortEvent(ports: UIPorts, portIndex: u32, bufferSize: u32, format: u32, buffer: Option<seq<byte>>): (r: UIPorts)
    requires EventBufferOk(bufferSize, format, buffer)
    ensures format == 0 && portIndex in ports.controls ==>
              r == ports.(controls := ports.controls[portIndex := SetValue(ports.controls[portIndex], DecodeU32(buffer.value[..4]))])
    ensures format != 0 && portIndex in ports.atoms && ports.atoms[portIndex].urid == format && buffer.Some? ==>
              r.controls == ports.controls && r.atoms.Keys == ports.atoms.Keys &&
              r.atoms[portIndex].toUi == PutBuffer(ports.atoms[portIndex].toUi, buffer.value, bufferSize as nat) &&
              r.atoms[portIndex].toPlugin == ports.atoms[portIndex].toPlugin &&
              forall i :: i in ports.atoms && i != portIndex ==> r.atoms[i] == ports.atoms[i]
    ensures (format == 0 && portIndex !in ports.controls) ||
            (format != 0 && (portIndex !in ports.atoms || ports.atoms[portIndex].urid != format || buffer.None?)) ==>
              r == ports
  {
    if format == 0 then
      if portIndex in ports.controls then
        var value := DecodeU32(buffer.value[..4]);
        ports.(controls := ports.controls[portIndex := SetValue(ports.controls[portIndex], value)])
      else ports
    else if portIndex in ports.atoms then
      var port := ports.atoms[portIndex];
      if port.urid == format && buffer.Some? then
        var port' := port.(toUi := PutBuffer(port.toUi, buffer.value, bufferSize as nat));
        ports.(atoms := ports.atoms[portIndex := port'])
      else ports
    else ports
  }

  /** A control event is reported by the addressed port's next
      `changed_value`, with the value's bits as the host sent them. */
  lemma {:induction false} ControlEventReported(ports: UIPorts, portIndex: u32, v: u32)
    requires portIndex in ports.controls
    ensures var r := PortEvent(ports, portIndex, 4, 0, Some(EncodeU32(v)));
            portIndex in r.controls && ChangedValue(r.controls[portIndex]).1 == Some(v)
  {
    U32RoundTrip(v);
    assert EncodeU32(v)[..4] == EncodeU32(v);
  }

  /** An atom event with a matching URID is what the port's next `take`
      hands out. */
  lemma {:induction false} AtomEventTaken(ports: UIPorts, portIndex: u32, format: u32, buffer: seq<byte>)
    requires format != 0 && portIndex in ports.atoms && ports.atoms[portIndex].urid == format
    requires 0 < |buffer| < U32_LIMIT
    ensures var r := PortEvent(ports, portIndex, |buffer| as u32, format, Some(buffer));
            portIndex in r.atoms && Take(r.atoms[portIndex].toUi).1 == Some(buffer)
  {
    assert buffer[..|buffer|] == buffer;
  }
}
