/** The Rust-side logic of the JACK host in examples/lv2jack.rs: sorting a plugin's
    ports into audio outputs, control inputs and the MIDI input by their classes,
    wiring them to buffers, and the fixed-size atom sequence and event records. The
    JACK client and the atom utilities that append events are not part of this model. */
module JackHost {
  import opened Common
  import UridMap
  import ValueNode

  const MidiEventUri: UridMap.Uri := "http://lv2plug.in/ns/ext/midi#MidiEvent"

  /** The port classes the host asks about with `is_a`. */
  datatype PortClass = AudioPort | InputPort | OutputPort | ControlPort | AtomPort

  /** What the host learns about one port: its classes and its range default. */
  datatype PortInfo = PortInfo(classes: set<PortClass>, default: Option<ValueNode.Node>)

  /** The branch a port takes in the classification loop. */
  datatype Role = OutputAudio | ControlInput | AtomInput | Unhandled

  /** The class pair each role asks for; the last role takes anything. */
  predicate Matches(role: Role, p: PortInfo) {
    match role
    case OutputAudio => OutputPort in p.classes && AudioPort in p.classes
    case ControlInput => ControlPort in p.classes && InputPort in p.classes
    case AtomInput => AtomPort in p.classes && InputPort in p.classes
    case Unhandled => true
  }

  /** The order in which the loop tries the roles. */
  function Rank(role: Role): nat {
    match role
    case OutputAudio => 0
    case ControlInput => 1
    case AtomInput => 2
    case Unhandled => 3
  }

  /** The `if` / `else if` chain: the role of a port is the first, in priority order,
      whose classes it has. */
  function Classify(p: PortInfo): (r: Role)
    ensures Matches(r, p)
  {
    if OutputPort in p.classes && AudioPort in p.classes then OutputAudio
    else if ControlPort in p.classes && InputPort in p.classes then ControlInput
    else if AtomPort in p.classes && InputPort in p.classes then AtomInput
    else Unhandled
  }

  /** No role ranked before the chosen one matches the port. */
  lemma ClassifyPriority(p: PortInfo)
    ensures forall q: Role :: Rank(q) < Rank(Classify(p)) ==> !Matches(q, p)
  {
  }

  /** Roles are tried in a fixed order and one is always chosen, so whatever classes a
      port has it lands in exactly one branch, and an output audio port is an output
      even when it also carries input or control classes. */
  lemma ClassifyIsFirstMatch(p: PortInfo, q: Role)
    ensures Classify(p) == q <==> Matches(q, p) && forall o: Role :: Rank(o) < Rank(q) ==> !Matches(o, p)
  {
    var r := Classify(p);
    ClassifyPriority(p);
    if Matches(q, p) && forall o: Role :: Rank(o) < Rank(q) ==> !Matches(o, p) {
      assert !(Rank(r) < Rank(q));
      assert !(Rank(q) < Rank(r));
    }
  }

  /** A control input's value: the range default when it is a float, else 0.0. */
  function DefaultValue(d: Option<ValueNode.Node>): (v: ValueNode.F32)
    ensures d.Some? && ValueNode.IsFloat(d.value) ==> ValueNode.FloatKind(v) == d.value.value.kind
    ensures (d.None? || !ValueNode.IsFloat(d.value)) ==> v == ValueNode.Zero
  {
    match d
    case None => ValueNode.Zero
    case Some(n) =>
      match ValueNode.AsFloat(n)
      case Some(f) => f
      case None => ValueNode.Zero
  }

  // ---------------------------------------------------------------------------
  // The atom sequence and the atom event

  /** `size_of::<LV2AtomSequence>()`: an atom header of two `u32`s and a body of two
      `u32`s. */
  const SequenceElementSize: nat := 16

  /** The length of `Lv2AtomEventBuffer`. */
  const EventBufferLen: nat := 16

  /** `LV2AtomSequence { buffer }`, by the number of elements in the buffer. */
  datatype AtomSequence = AtomSequence(len: nat)

  /** `LV2AtomSequence::new`: as many whole elements as fit in the desired byte count. */
  function NewSequence(desiredCapacity: usize): (s: AtomSequence)
    ensures s.len * SequenceElementSize <= desiredCapacity < (s.len + 1) * SequenceElementSize
  {
    AtomSequence(desiredCapacity / SequenceElementSize)
  }

  /** `capacity`: the buffer's size in bytes. */
  function Capacity(s: AtomSequence): (bytes: nat)
    ensures bytes % SequenceElementSize == 0
    ensures bytes / SequenceElementSize == s.len
  {
    s.len * SequenceElementSize
  }

  /** A new sequence holds "about" the bytes asked for: never more, and less by under
      one element; a multiple of the element size is met exactly, as 8192 is. */
  lemma SequenceCapacityNearDesired(desired: usize)
    ensures Capacity(NewSequence(desired)) <= desired < Capacity(NewSequence(desired)) + SequenceElementSize
    ensures desired % SequenceElementSize == 0 ==> Capacity(NewSequence(desired)) == desired
    ensures Capacity(NewSequence(8192)) == 8192
  {
  }

  /** `LV2AtomEvent { header, buffer }`: the header's time, atom size and atom type, and
      the payload bytes. */
  datatype AtomEvent = AtomEvent(timeInFrames: int, size: u32, atomType: u32, buffer: seq<u8>)

  /** `LV2AtomEvent::new`: the given time and type, size 0, a zeroed payload. */
  function NewEvent(timeInFrames: int, atomType: u32): (e: AtomEvent)
    ensures e.timeInFrames == timeInFrames && e.atomType == atomType && e.size == 0
    ensures |e.buffer| == EventBufferLen && forall k :: 0 <= k < |e.buffer| ==> e.buffer[k] == 0
  {
    AtomEvent(timeInFrames, 0, atomType, seq(EventBufferLen, _ => 0))
  }

  /** How handling an event can panic: a failed `debug_assert!`, or a slice range past
      the end of the payload. */
  datatype EventPanic = DebugAssertion | SliceOutOfRange

  /** `set_size` as written: with debug assertions on, the size must be strictly below
      the buffer length; the header size is then `size as u32`. */
  function SetSizeAsWritten(e: AtomEvent, size: usize, debugAssertions: bool): (r: Result<AtomEvent, EventPanic>)
    ensures r.Err? <==> debugAssertions && size >= |e.buffer|
    ensures r.Ok? ==> r.value == e.(size := size % U32Limit)
  {
    if debugAssertions && !(size < |e.buffer|) then Err(DebugAssertion)
    else Ok(e.(size := size % U32Limit))
  }

  /** `set_size` as its comment describes it: any size up to the buffer length. */
  function SetSize(e: AtomEvent, size: usize, debugAssertions: bool): (r: Result<AtomEvent, EventPanic>)
    ensures r.Err? <==> debugAssertions && size > |e.buffer|
    ensures r.Ok? ==> r.value == e.(size := size % U32Limit)
  {
    if debugAssertions && !(size <= |e.buffer|) then Err(DebugAssertion)
    else Ok(e.(size := size % U32Limit))
  }

  /** The host's handling of one MIDI message: a new event of the MIDI type, its size
      set to the message length, then the message copied into the front of the
      payload (a slice copy that panics when the message does not fit). */
  function MidiEventWith(time: u32, midiUrid: u32, bytes: seq<u8>, debugAssertions: bool, strict: bool)
    : (r: Result<AtomEvent, EventPanic>)
    ensures r.Ok? ==> r.value.atomType == midiUrid && r.value.timeInFrames == time && |r.value.buffer| == EventBufferLen
    ensures |bytes| > EventBufferLen ==> r.Err?
  {
    var e := NewEvent(time, midiUrid);
    var sized := if strict then SetSizeAsWritten(e, |bytes| % UsizeLimit, debugAssertions)
                 else SetSize(e, |bytes| % UsizeLimit, debugAssertions);
    if sized.Err? then sized
    else if |bytes| > EventBufferLen then Err(SliceOutOfRange)
    else Ok(sized.value.(buffer := bytes + sized.value.buffer[|bytes|..]))
  }

  /** As written, a message that fills the payload exactly is refused in a debug build,
      although the copy after it fits. */
  lemma FullMessageRejectedAsWritten(time: u32, midiUrid: u32, bytes: seq<u8>)
    requires |bytes| == EventBufferLen
    ensures MidiEventWith(time, midiUrid, bytes, true, true).Err?
    ensures MidiEventWith(time, midiUrid, bytes, true, false).Ok?
  {
  }

  /** With the size check as documented, every message that fits becomes an event of
      the MIDI type whose size is the message length and whose payload starts with the
      message, in debug and release builds alike; longer messages are refused. */
  lemma MidiEventHoldsMessage(time: u32, midiUrid: u32, bytes: seq<u8>, debugAssertions: bool)
    ensures var r := MidiEventWith(time, midiUrid, bytes, debugAssertions, false);
            && (r.Ok? <==> |bytes| <= EventBufferLen)
            && (r.Ok? ==> r.value.size == |bytes| && r.value.atomType == midiUrid
                          && r.value.timeInFrames == time
                          && |r.value.buffer| == EventBufferLen
                          && r.value.buffer[..|bytes|] == bytes)
  {
    var r := MidiEventWith(time, midiUrid, bytes, debugAssertions, false);
    if r.Ok? {
      assert |bytes| <= EventBufferLen < U32Limit;
      assert |bytes| % UsizeLimit == |bytes|;
      assert (bytes + NewEvent(time, midiUrid).buffer[|bytes|..])[..|bytes|] == bytes;
    }
  }

  // ---------------------------------------------------------------------------
  // Ports::new

  /** `Ports { output_port_indexes, midi_port_index, midi_urid, midi, control }`. */
  datatype Ports = Ports(outputs: seq<nat>, midi: Option<nat>, midiUrid: u32,
                         sequence: AtomSequence, control: seq<(nat, ValueNode.F32)>)

  /** The two `panic!`s of the classification loop, with the index of the port. */
  datatype HostPanic = MultipleMidiInputs(index: nat) | UnhandledPort(index: nat)

  /** The indexes, in order, of the output audio ports among the first `n`. */
  function Outputs(ports: seq<PortInfo>, n: nat): seq<nat>
    requires n <= |ports|
  {
    if n == 0 then []
    else Outputs(ports, n - 1) + (if Classify(ports[n - 1]) == OutputAudio then [n - 1] else [])
  }

  /** The control inputs among the first `n`, each with its default value. */
  function Controls(ports: seq<PortInfo>, n: nat): seq<(nat, ValueNode.F32)>
    requires n <= |ports|
  {
    if n == 0 then []
    else Controls(ports, n - 1)
         + (if Classify(ports[n - 1]) == ControlInput then [(n - 1, DefaultValue(ports[n - 1].default))] else [])
  }

  predicate Increasing(xs: seq<nat>) {
    forall j, k :: 0 <= j < k < |xs| ==> xs[j] < xs[k]
  }

  /** The output list holds every output audio port and nothing else, in port order. */
  lemma {:induction false} OutputsExact(ports: seq<PortInfo>, n: nat)
    requires n <= |ports|
    ensures forall x: nat :: x in Outputs(ports, n) <==> x < n && Classify(ports[x]) == OutputAudio
    ensures Increasing(Outputs(ports, n))
  {
    if n > 0 {
      OutputsExact(ports, n - 1);
      var prev := Outputs(ports, n - 1);
      forall j | 0 <= j < |prev|
        ensures prev[j] < n - 1
      {
        assert prev[j] in prev;
      }
      if Classify(ports[n - 1]) == OutputAudio {
        assert Outputs(ports, n) == prev + [n - 1];
      } else {
        assert Outputs(ports, n) == prev;
      }
    }
  }

  predicate ControlEntryOk(ports: seq<PortInfo>, n: nat, e: (nat, ValueNode.F32))
    requires n <= |ports|
  {
    e.0 < n && Classify(ports[e.0]) == ControlInput && e.1 == DefaultValue(ports[e.0].default)
  }

  /** Each control entry names an earlier control input and carries that port's default value,
      and the entries are in port order. */
  lemma {:induction false} ControlsInOrder(ports: seq<PortInfo>, n: nat)
    requires n <= |ports|
    ensures forall k :: 0 <= k < |Controls(ports, n)| ==> ControlEntryOk(ports, n, Controls(ports, n)[k])
    ensures forall j, k :: 0 <= j < k < |Controls(ports, n)| ==> Controls(ports, n)[j].0 < Controls(ports, n)[k].0
  {
    if n > 0 {
      ControlsInOrder(ports, n - 1);
      var prev := Controls(ports, n - 1);
      var c := Controls(ports, n);
      if Classify(ports[n - 1]) == ControlInput {
        assert c == prev + [(n - 1, DefaultValue(ports[n - 1].default))];
        assert forall k :: 0 <= k < |prev| ==> c[k] == prev[k];
      } else {
        assert c == prev;
      }
    }
  }

  /** Every control input among the first `n` ports has an entry in the control list. */
  lemma {:induction false} ControlsComplete(ports: seq<PortInfo>, n: nat, x: nat)
    requires n <= |ports|
    requires x < n && Classify(ports[x]) == ControlInput
    ensures exists k :: 0 <= k < |Controls(ports, n)| && Controls(ports, n)[k].0 == x
  {
    var prev := Controls(ports, n - 1);
    var c := Controls(ports, n);
    if x == n - 1 {
      assert c == prev + [(n - 1, DefaultValue(ports[n - 1].default))];
      assert c[|c| - 1].0 == x;
    } else {
      ControlsComplete(ports, n - 1, x);
      var k :| 0 <= k < |prev| && prev[k].0 == x;
      assert c[..|prev|] == prev;
      assert c[k].0 == x;
    }
  }

  predicate Handled(ports: seq<PortInfo>, n: nat)
    requires n <= |ports|
  {
    forall k :: 0 <= k < n ==> Classify(ports[k]) != Unhandled
  }

  /** No two atom inputs among the first `n` ports. */
  predicate OneAtomAtMost(ports: seq<PortInfo>, n: nat)
    requires n <= |ports|
  {
    forall j, k :: 0 <= j < k < n && Classify(ports[j]) == AtomInput ==> Classify(ports[k]) != AtomInput
  }

  /** `e` is the panic the loop raises: every port before it was handled without a
      second atom input, and the port at its index is the unhandled one or the second
      atom input. */
  predicate PanicsAt(ports: seq<PortInfo>, e: HostPanic) {
    && e.index < |ports|
    && Handled(ports, e.index)
    && OneAtomAtMost(ports, e.index)
    && match e
       case UnhandledPort(i) => Classify(ports[i]) == Unhandled
       case MultipleMidiInputs(i) =>
         Classify(ports[i]) == AtomInput && exists k :: 0 <= k < i && Classify(ports[k]) == AtomInput
  }

  /** `Ports::new`, over the plugin's ports in enumeration order. The MIDI event type is
      mapped first, through whichever URID map the host was given. */
  method NewPorts(store: UridMap.Store, urids: UridMap.UridMapFeature, ports: seq<PortInfo>)
    returns (r: Result<Ports, HostPanic>, store': UridMap.Store)
    requires UridMap.Live(store, urids)
    ensures store' == UridMap.FeatureMap(store, urids, MidiEventUri).0
    ensures r.Ok? <==> Handled(ports, |ports|) && OneAtomAtMost(ports, |ports|)
    ensures r.Ok? ==> r.value.midiUrid == UridMap.FeatureMap(store, urids, MidiEventUri).1
    ensures r.Ok? ==> r.value.outputs == Outputs(ports, |ports|)
                      && r.value.control == Controls(ports, |ports|)
                      && r.value.sequence == NewSequence(8192)
    ensures r.Ok? && r.value.midi.Some? ==>
              r.value.midi.value < |ports| && Classify(ports[r.value.midi.value]) == AtomInput
    ensures r.Ok? && r.value.midi.None? ==> forall k :: 0 <= k < |ports| ==> Classify(ports[k]) != AtomInput
    ensures r.Err? ==> PanicsAt(ports, r.error)
  {
    var midiUrid;
    store', midiUrid := UridMap.FeatureMap(store, urids, MidiEventUri).0, UridMap.FeatureMap(store, urids, MidiEventUri).1;
    var outputs: seq<nat> := [];
    var midi: Option<nat> := None;
    var control: seq<(nat, ValueNode.F32)> := [];
    var i := 0;
    while i < |ports|
      invariant 0 <= i <= |ports|
      invariant outputs == Outputs(ports, i) && control == Controls(ports, i)
      invariant Handled(ports, i) && OneAtomAtMost(ports, i)
      invariant midi.None? ==> forall k :: 0 <= k < i ==> Classify(ports[k]) != AtomInput
      invariant midi.Some? ==> midi.value < i && Classify(ports[midi.value]) == AtomInput
      invariant midi.Some? ==> forall k :: 0 <= k < i && k != midi.value ==> Classify(ports[k]) != AtomInput
    {
      var role := Classify(ports[i]);
      if role == OutputAudio {
        outputs := outputs + [i];
      } else if role == ControlInput {
        control := control + [(i, DefaultValue(ports[i].default))];
      } else if role == AtomInput {
        if midi.Some? {
          r := Err(MultipleMidiInputs(i));
          return;
        }
        midi := Some(i);
      } else {
        r := Err(UnhandledPort(i));
        return;
      }
      i := i + 1;
    }
    r := Ok(Ports(outputs, midi, midiUrid, NewSequence(8192), control));
  }

  // ---------------------------------------------------------------------------
  // Ports::connect

  /** One `connect_port` call the host makes: the port index and the data pointer. */
  datatype Connection = Connection(port: nat, data: Ptr)

  /** Output wiring: the i-th output port gets the i-th buffer, null once the buffers
      run out; surplus buffers are never used. */
  function PairOutputs(indexes: seq<nat>, buffers: seq<nat>): (r: seq<Connection>)
    ensures |r| == |indexes|
    ensures forall k :: 0 <= k < |r| ==>
              r[k].port == indexes[k] && r[k].data == (if k < |buffers| then At(buffers[k]) else Null)
  {
    if |indexes| == 0 then []
    else
      [Connection(indexes[0], if |buffers| > 0 then At(buffers[0]) else Null)]
      + PairOutputs(indexes[1..], if |buffers| > 0 then buffers[1..] else [])
  }

  /** Only as many buffers as there are outputs are consumed: appending more changes
      nothing. */
  lemma {:induction false} ExtraBuffersIgnored(indexes: seq<nat>, buffers: seq<nat>, extra: seq<nat>)
    requires |buffers| >= |indexes|
    ensures PairOutputs(indexes, buffers + extra) == PairOutputs(indexes, buffers)
  {
    if |indexes| > 0 {
      assert (buffers + extra)[1..] == buffers[1..] + extra;
      ExtraBuffersIgnored(indexes[1..], buffers[1..], extra);
    }
  }

  /** How many MIDI connections `connect` makes: one when the plugin has an atom input. */
  function MidiCount(p: Ports): nat {
    if p.midi.Some? then 1 else 0
  }

  /** The k-th `connect_port` call, read off the layout directly: the outputs with the
      output buffers (null once they run out), then the MIDI port with the sequence
      buffer, then every control port with the address of its stored value (`slot(j)`
      for the j-th). */
  function ConnectionAt(p: Ports, buffers: seq<nat>, sequenceBuffer: nat, slot: nat -> nat, k: nat): Connection
    requires k < |p.outputs| + MidiCount(p) + |p.control|
  {
    if k < |p.outputs| then Connection(p.outputs[k], if k < |buffers| then At(buffers[k]) else Null)
    else if k < |p.outputs| + MidiCount(p) then Connection(p.midi.value, At(sequenceBuffer))
    else Connection(p.control[k - |p.outputs| - MidiCount(p)].0, At(slot(k - |p.outputs| - MidiCount(p))))
  }

  /** The MIDI port's connection, if the plugin has one, to the sequence buffer. */
  function MidiConnection(p: Ports, sequenceBuffer: nat): (r: seq<Connection>)
    ensures |r| == MidiCount(p)
    ensures p.midi.Some? ==> r[0] == Connection(p.midi.value, At(sequenceBuffer))
  {
    if p.midi.Some? then [Connection(p.midi.value, At(sequenceBuffer))] else []
  }

  /** `connect`, as the three loops build it, one call per handled port. */
  function Connect(p: Ports, buffers: seq<nat>, sequenceBuffer: nat, slot: nat -> nat): (r: seq<Connection>)
    ensures |r| == |p.outputs| + MidiCount(p) + |p.control|
  {
    PairOutputs(p.outputs, buffers) + MidiConnection(p, sequenceBuffer) + ControlConnections(p.control, slot, 0)
  }

  /** The control ports' connections, numbered from `first`: the k-th goes to
      `slot(first + k)`. */
  function ControlConnections(control: seq<(nat, ValueNode.F32)>, slot: nat -> nat, first: nat): (r: seq<Connection>)
    ensures |r| == |control|
    ensures forall k :: 0 <= k < |r| ==> r[k] == Connection(control[k].0, At(slot(first + k)))
  {
    if |control| == 0 then []
    else [Connection(control[0].0, At(slot(first)))] + ControlConnections(control[1..], slot, first + 1)
  }

  /** Indexing into three concatenated sequences. */
  lemma ConcatAt<T>(a: seq<T>, b: seq<T>, c: seq<T>, k: nat)
    requires k < |a| + |b| + |c|
    ensures (a + b + c)[k] == if k < |a| then a[k] else if k < |a| + |b| then b[k - |a|] else c[k - |a| - |b|]
  {
  }

  /** The calls `connect` makes, in order, are exactly the layout above. */
  lemma ConnectMatchesLayout(p: Ports, buffers: seq<nat>, sequenceBuffer: nat, slot: nat -> nat, k: nat)
    requires k < |Connect(p, buffers, sequenceBuffer, slot)|
    ensures Connect(p, buffers, sequenceBuffer, slot)[k] == ConnectionAt(p, buffers, sequenceBuffer, slot, k)
  {
    var outs := PairOutputs(p.outputs, buffers);
    var midi := MidiConnection(p, sequenceBuffer);
    var controls := ControlConnections(p.control, slot, 0);
    ConcatAt(outs, midi, controls, k);
    if k < |outs| {
      assert outs[k] == ConnectionAt(p, buffers, sequenceBuffer, slot, k);
    } else if k < |outs| + |midi| {
      assert midi[k - |outs|] == ConnectionAt(p, buffers, sequenceBuffer, slot, k);
    } else {
      var j := k - |outs| - |midi|;
      assert controls[j] == Connection(p.control[j].0, At(slot(0 + j)));
    }
  }

  /** The outputs and controls of a `Ports` are exactly the output audio and control
      input ports, and its MIDI index, if any, is an atom input. */
  predicate BuiltFrom(p: Ports, ports: seq<PortInfo>) {
    && p.outputs == Outputs(ports, |ports|)
    && p.control == Controls(ports, |ports|)
    && (p.midi.Some? ==> p.midi.value < |ports| && Classify(ports[p.midi.value]) == AtomInput)
    && (p.midi.None? ==> forall k :: 0 <= k < |ports| ==> Classify(ports[k]) != AtomInput)
    && OneAtomAtMost(ports, |ports|)
  }

  /** Every call of the layout is one of the calls `connect` makes. */
  lemma ConnectMakesCall(p: Ports, buffers: seq<nat>, sequenceBuffer: nat, slot: nat -> nat, k: nat)
    requires k < |p.outputs| + MidiCount(p) + |p.control|
    ensures exists i :: 0 <= i < |Connect(p, buffers, sequenceBuffer, slot)|
                        && Connect(p, buffers, sequenceBuffer, slot)[i] == ConnectionAt(p, buffers, sequenceBuffer, slot, k)
  {
    ConnectMatchesLayout(p, buffers, sequenceBuffer, slot, k);
  }

  /** The position in the layout of a port `Ports::new` kept. */
  lemma LayoutIndexOf(ports: seq<PortInfo>, p: Ports, x: nat) returns (k: nat)
    requires BuiltFrom(p, ports)
    requires x < |ports| && Classify(ports[x]) != Unhandled
    ensures k < |p.outputs| + MidiCount(p) + |p.control|
    ensures k < |p.outputs| ==> p.outputs[k] == x
    ensures |p.outputs| <= k < |p.outputs| + MidiCount(p) ==> p.midi.value == x
    ensures |p.outputs| + MidiCount(p) <= k ==> p.control[k - |p.outputs| - MidiCount(p)].0 == x
  {
    if Classify(ports[x]) == OutputAudio {
      OutputsExact(ports, |ports|);
      var j :| 0 <= j < |p.outputs| && p.outputs[j] == x;
      k := j;
    } else if Classify(ports[x]) == ControlInput {
      ControlsComplete(ports, |ports|, x);
      var j :| 0 <= j < |p.control| && p.control[j].0 == x;
      k := |p.outputs| + MidiCount(p) + j;
    } else {
      assert p.midi.Some? && x == p.midi.value;
      k := |p.outputs|;
    }
  }

  /** `connect` wires every port `Ports::new` kept. */
  lemma ConnectWiresEveryHandledPort(ports: seq<PortInfo>, p: Ports, buffers: seq<nat>,
                                     sequenceBuffer: nat, slot: nat -> nat, x: nat)
    requires BuiltFrom(p, ports)
    requires x < |ports| && Classify(ports[x]) != Unhandled
    ensures exists k :: 0 <= k < |Connect(p, buffers, sequenceBuffer, slot)|
                        && Connect(p, buffers, sequenceBuffer, slot)[k].port == x
  {
    var k := LayoutIndexOf(ports, p, x);
    assert ConnectionAt(p, buffers, sequenceBuffer, slot, k).port == x;
    ConnectMakesCall(p, buffers, sequenceBuffer, slot, k);
  }

  /** `connect` wires nothing but the plugin's ports. */
  lemma ConnectWiresOnlyPorts(ports: seq<PortInfo>, p: Ports, buffers: seq<nat>,
                              sequenceBuffer: nat, slot: nat -> nat, k: nat)
    requires BuiltFrom(p, ports)
    requires k < |Connect(p, buffers, sequenceBuffer, slot)|
    ensures Connect(p, buffers, sequenceBuffer, slot)[k].port < |ports|
  {
    ConnectMatchesLayout(p, buffers, sequenceBuffer, slot, k);
    if k < |p.outputs| {
      OutputsExact(ports, |ports|);
      assert p.outputs[k] in p.outputs;
    } else if k >= |p.outputs| + MidiCount(p) {
      ControlsInOrder(ports, |ports|);
      assert ControlEntryOk(ports, |ports|, p.control[k - |p.outputs| - MidiCount(p)]);
    }
  }
}
