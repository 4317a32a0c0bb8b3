/** The bare three-byte remote commands of GhostDrive/RemoteManager.cs and
    of its older copy RemoteManager.cs.

    Each call on the remote voice writes `[0x65, type, data]` to the serial
    port. The GhostDrive copy takes its type codes from the shared
    `FrameType` enumeration of CommonSource/FrameType.cs; the older copy
    declares a private enumeration with the first seven of those codes.
    The port is modelled as the sequence of bytes written to it so far. */
module Remote {
  import opened Common

  const Magic: byte := 0x65

  /** The members of the shared `FrameType` enumeration. */
  datatype FrameType =
    | NoteOn | NoteOff | Enable | Disable | SetModulation | SetLocation | ResetLocation
    | PlaySong | StopSong

  /** Which of the two managers sends the frame. */
  datatype Variant = Shared | Private

  /** The codes of the shared enumeration. */
  function SharedCode(t: FrameType): byte
  {
    match t
    case NoteOn => 0x10
    case NoteOff => 0x11
    case Enable => 0x12
    case Disable => 0x13
    case SetModulation => 0x20
    case SetLocation => 0x21
    case ResetLocation => 0x22
    case PlaySong => 0x30
    case StopSong => 0x31
  }

  /** The older manager's private enumeration, which has no song codes. */
  function PrivateCode(t: FrameType): byte
    requires t != PlaySong && t != StopSong
  {
    match t
    case NoteOn => 0x10
    case NoteOff => 0x11
    case Enable => 0x12
    case Disable => 0x13
    case SetModulation => 0x20
    case SetLocation => 0x21
    case ResetLocation => 0x22
  }

  /** A call on the remote voice. */
  datatype Call =
    | PlayNote(note: int)
    | StopNote
    | EnableVoice
    | DisableVoice
    | SetOctaveModulation(modulation: int)
    | SetLocation(location: byte)
    | ResetLocation

  /** The frame type each method sends. */
  function TypeOf(c: Call): (t: FrameType)
    ensures t != PlaySong && t != StopSong
  {
    match c
    case PlayNote(_) => NoteOn
    case StopNote => NoteOff
    case EnableVoice => Enable
    case DisableVoice => Disable
    case SetOctaveModulation(_) => SetModulation
    case SetLocation(_) => FrameType.SetLocation
    case ResetLocation => FrameType.ResetLocation
  }

  /** The data byte: an int argument cut to its low eight bits by the
      `(byte)` cast, a byte argument as it is, and 0 for the calls that go
      through the one-argument `SendFrame`. */
  function DataOf(c: Call): byte
  {
    match c
    case PlayNote(note) => Lo8(note)
    case SetOctaveModulation(m) => Lo8(m)
    case SetLocation(location) => location
    case _ => 0
  }

  /** `SendFrame(type, data)`: the send buffer after its two writes. */
  function SendFrame(code: byte, data: byte): (r: seq<byte>)
    ensures |r| == 3 && r[0] == Magic && r[1..] == [code, data]
  {
    [Magic, code, data]
  }

  function Code(v: Variant, t: FrameType): byte
    requires t != PlaySong && t != StopSong
  {
    if v == Shared then SharedCode(t) else PrivateCode(t)
  }

  /** The bytes one call writes. */
  function Encode(v: Variant, c: Call): (r: seq<byte>)
    ensures |r| == 3 && r[0] == Magic
  {
    SendFrame(Code(v, TypeOf(c)), DataOf(c))
  }

  /** The two managers write identical bytes for identical calls. */
  lemma VariantsAgree(c: Call)
    ensures Encode(Shared, c) == Encode(Private, c)
  {
  }

  /** A call with its int argument replaced by the byte that is sent. */
  function Normal(c: Call): Call
  {
    match c
    case PlayNote(note) => PlayNote(Lo8(note))
    case SetOctaveModulation(m) => SetOctaveModulation(Lo8(m))
    case _ => c
  }

  /** Different calls give different frames, except that int arguments
      are told apart only by their low eight bits: -1 and 255 are the same
      note. */
  lemma EncodeInjective(v: Variant, c1: Call, c2: Call)
    ensures Encode(v, c1) == Encode(v, c2) <==> Normal(c1) == Normal(c2)
  {
    if Encode(v, c1) == Encode(v, c2) {
      assert Encode(v, c1)[1] == Encode(v, c2)[1];
      assert Encode(v, c1)[2] == Encode(v, c2)[2];
    }
  }

  /** The concrete mapping from methods to bytes. */
  lemma EncodeExamples(v: Variant)
    ensures Encode(v, PlayNote(60)) == [0x65, 0x10, 60]
    ensures Encode(v, PlayNote(-1)) == [0x65, 0x10, 0xFF]
    ensures Encode(v, StopNote) == [0x65, 0x11, 0]
    ensures Encode(v, EnableVoice) == [0x65, 0x12, 0]
    ensures Encode(v, DisableVoice) == [0x65, 0x13, 0]
    ensures Encode(v, SetOctaveModulation(-2)) == [0x65, 0x20, 0xFE]
    ensures Encode(v, Call.SetLocation(7)) == [0x65, 0x21, 7]
    ensures Encode(v, Call.ResetLocation) == [0x65, 0x22, 0]
  {
  }

  // ---------------------------------------------------------------------
  // The manager and its one remote voice

  /** The voice keeps the last modulation set, as an untruncated int. */
  datatype Synth = Synth(octaveModulation: int)

  /** A manager: its voice, if created yet, and the bytes written. */
  datatype Manager = Manager(variant: Variant, synth: Option<Synth>, sent: seq<byte>)

  function NewManager(v: Variant): (r: Manager)
    ensures r.variant == v && r.sent == [] && r.synth.None?
    ensures RemoteSynth(r).synth == Some(Synth(0))
  {
    Manager(v, None, [])
  }

  /** The `RemoteSynth` property: the voice is created on first access
      with modulation 0, and the same voice is returned afterwards. Nothing
      is written. */
  function RemoteSynth(m: Manager): (r: Manager)
    ensures r.synth.Some? && r.sent == m.sent && r.variant == m.variant
    ensures m.synth.Some? ==> r == m
    ensures m.synth.None? ==> r.synth == Some(Synth(0))
  {
    if m.synth.Some? then m else m.(synth := Some(Synth(0)))
  }

  /** A call on the voice writes its frame; setting the modulation also
      stores the int. */
  function Perform(m: Manager, c: Call): (r: Manager)
    requires m.synth.Some?
    ensures r.synth.Some? && r.variant == m.variant
    ensures r.sent == m.sent + Encode(m.variant, c)
    ensures r.synth.value.octaveModulation
            == (if c.SetOctaveModulation? then c.modulation else m.synth.value.octaveModulation)
  {
    var m' := m.(sent := m.sent + Encode(m.variant, c));
    if c.SetOctaveModulation? then m'.(synth := Some(Synth(c.modulation))) else m'
  }

  function PerformAll(m: Manager, calls: seq<Call>): (r: Manager)
    requires m.synth.Some?
    ensures r.synth.Some? && r.variant == m.variant
    ensures m.sent <= r.sent && |r.sent| == |m.sent| + 3 * |calls|
    decreases |calls|
  {
    if |calls| == 0 then m else PerformAll(Perform(m, calls[0]), calls[1..])
  }

  /** The frames of a sequence of calls, one after another. */
  function Frames(v: Variant, calls: seq<Call>): seq<byte>
    decreases |calls|
  {
    if |calls| == 0 then [] else Encode(v, calls[0]) + Frames(v, calls[1..])
  }

  /** The modulation after a sequence of calls: the last one set, or the
      one before them if none is set. */
  function LastModulation(prior: int, calls: seq<Call>): int
    decreases |calls|
  {
    if |calls| == 0 then prior
    else LastModulation(if calls[0].SetOctaveModulation? then calls[0].modulation else prior, calls[1..])
  }

  /** A sequence of calls writes exactly three bytes per call, the frames
      in call order, and leaves the getter returning the last modulation
      set. */
  lemma {:induction false} PerformAllEffect(m: Manager, calls: seq<Call>)
    requires m.synth.Some?
    ensures PerformAll(m, calls).sent == m.sent + Frames(m.variant, calls)
    ensures |Frames(m.variant, calls)| == 3 * |calls|
    ensures PerformAll(m, calls).synth.value.octaveModulation
            == LastModulation(m.synth.value.octaveModulation, calls)
    decreases |calls|
  {
    if |calls| > 0 {
      var m1 := Perform(m, calls[0]);
      PerformAllEffect(m1, calls[1..]);
      assert m.sent + Frames(m.variant, calls)
          == m.sent + Encode(m.variant, calls[0]) + Frames(m.variant, calls[1..]);
    }
  }

  /** Each set of the modulation writes one frame, and the getter returns
      the int that was set, untruncated. */
  lemma SetThenGet(m: Manager, value: int)
    requires m.synth.Some?
    ensures Perform(m, SetOctaveModulation(value)).synth.value.octaveModulation == value
    ensures Perform(m, SetOctaveModulation(value)).sent == m.sent + [Magic, 0x20, Lo8(value)]
  {
  }
}
