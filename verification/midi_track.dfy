/** Track cursors of CommonSource/MidiCore.cs: the packed event header, the
    raw-event decoder and `Track.MoveNext`, the skip loop that yields the next
    note-on, note-off or tempo event of one track chunk.

    All cursors share one file; each keeps its own position `pos`, the
    position `start` of its first event, its running event type `run` and its
    accumulated tick count. The source keeps that count in a `uint`; the
    model keeps the unbounded sum `ticks` and exposes the source's value as
    `Time(t) == t.ticks % 2^32`, which is the same number. */
module MidiTrack {
  import opened Common
  import opened MidiStream

  type nibble = x: int | 0 <= x < 16

  // MidiEventType (the high nibble of a status byte)
  const NoteOffType: nibble := 0x8
  const NoteOnType: nibble := 0x9
  const NoteAftertouchType: nibble := 0xA
  const ControllerType: nibble := 0xB
  const ProgramChangeType: nibble := 0xC
  const ChannelAftertouchType: nibble := 0xD
  const PitchBendType: nibble := 0xE
  const MetaType: nibble := 0xF

  // MetaEventType
  const EndTrackMeta: byte := 0x2F
  const SetTempoMeta: byte := 0x51

  /** `EventHeader`: the delta time and the packed status byte. */
  datatype EventHeader = EventHeader(deltaTime: u32, packed: byte)

  function Channel(h: EventHeader): nibble
  {
    h.packed % 16
  }

  function EventType(h: EventHeader): nibble
  {
    h.packed / 16
  }

  /** A header is running (its byte is a data byte) iff bit 7 is clear. */
  function IsRunningEvent(h: EventHeader): bool
  {
    h.packed < 0x80
  }

  /** The `EventType` setter: `packed & 0xf | value << 4`, which replaces the
      high nibble and keeps the channel. */
  function WithEventType(h: EventHeader, t: nibble): (r: EventHeader)
    ensures EventType(r) == t && Channel(r) == Channel(h)
    ensures r.deltaTime == h.deltaTime
  {
    h.(packed := t * 16 + h.packed % 16)
  }

  /** `EventHeader.ReadFrom`: a delta time, then one byte; a running header
      un-reads its byte, so the next read starts at that byte again. */
  function ReadEventHeader(data: seq<byte>, pos: nat): (r: Result<(EventHeader, nat)>)
    ensures r.Ok? ==> pos < r.value.1 <= |data|
    ensures r.Ok? ==> ReadVarUInt32(data, pos).Ok?
    ensures r.Ok? ==>
      var (delta, p) := ReadVarUInt32(data, pos).value;
      && p < |data|
      && r.value.0 == EventHeader(delta, data[p])
      && r.value.1 == (if data[p] < 0x80 then p else p + 1)
    ensures r.Err? ==> r.error == Truncated
  {
    match ReadVarUInt32(data, pos)
    case Err(e) => Err(e)
    case Ok((delta, p)) =>
      if p >= |data| then Err(Truncated)
      else
        var h := EventHeader(delta, data[p]);
        Ok((h, if IsRunningEvent(h) then p else p + 1))
  }

  // ---------------------------------------------------------------------
  // Events and cursors

  datatype NoteKind = NoteOff | NoteOn

  /** The events a cursor can hold as `Current`. `SetTempoEvent` never has
      its `Time` or `TrackId` assigned, so both stay 0. */
  datatype Event =
    | NoteEvent(kind: NoteKind, trackId: u16, time: u32, note: byte)
    | SetTempoEvent(trackId: u16, time: u32, tempo: u32)

  datatype Track = Track(id: u16, start: nat, pos: nat, ticks: nat, run: nibble, current: Option<Event>)

  /** The source's `uint time` of a cursor. */
  function Time(t: Track): u32
  {
    t.ticks % U32
  }

  /** What one raw event contributes once decoded. */
  datatype Emit = Skip | EmitNote(kind: NoteKind, note: byte) | EmitTempo(tempo: u32) | EmitEnd

  datatype RawEvent = RawEvent(delta: u32, eventType: nibble, next: nat, emit: Emit)

  /** `ParseMetaEvent`, entered after a status whose type nibble is 0xF.
      A channel nibble of 0 or 7 (0xF0, 0xF7) is a system-exclusive event:
      a length and that many bytes are skipped. Otherwise a meta type byte
      and a length follow; end-of-track and set-tempo are recognised, and
      every other meta event is skipped by its length. Set-tempo reads
      exactly three bytes whatever its length says. */
  function ParseMetaEvent(data: seq<byte>, pos: nat, channel: nibble): (r: Result<(Emit, nat)>)
    ensures r.Ok? ==> r.value.1 > pos
    ensures r.Ok? && r.value.0 != Skip ==> r.value.1 <= |data|
    ensures r.Ok? ==> r.value.0.Skip? || r.value.0.EmitTempo? || r.value.0.EmitEnd?
    ensures r.Ok? && (channel == 0 || channel == 7) ==> r.value.0 == Skip
    ensures r.Err? ==> r.error == Truncated
  {
    if channel == 0 || channel == 7 then
      match ReadVarUInt32(data, pos)
      case Err(e) => Err(e)
      case Ok((length, q)) => Ok((Skip, q + length))
    else if pos >= |data| then Err(Truncated)
    else
      var metaType := data[pos];
      match ReadVarUInt32(data, pos + 1)
      case Err(e) => Err(e)
      case Ok((length, q)) =>
        if metaType == EndTrackMeta then Ok((EmitEnd, q))
        else if metaType == SetTempoMeta then
          if q + 3 > |data| then Err(Truncated)
          else Ok((EmitTempo(BE24(data[q], data[q + 1], data[q + 2])), q + 3))
        else Ok((Skip, q + length))
  }

  /** One pass of the body of the `MoveNext` loop: read a header, resolve a
      running header to the previous type, and consume the event's bytes. */
  function ReadRawEvent(data: seq<byte>, pos: nat, run: nibble): (r: Result<RawEvent>)
    ensures r.Ok? ==> pos < |data| && pos < r.value.next
    ensures r.Ok? && r.value.emit != Skip ==> r.value.next <= |data|
    ensures r.Ok? ==> r.value.eventType >= 8
    ensures r.Ok? && r.value.emit.EmitNote? ==>
              r.value.eventType == (if r.value.emit.kind == NoteOff then NoteOffType else NoteOnType)
    ensures r.Ok? && (r.value.emit.EmitTempo? || r.value.emit.EmitEnd?) ==> r.value.eventType == MetaType
    ensures r.Err? ==> r.error == Truncated || r.error == DecodeError
  {
    match ReadEventHeader(data, pos)
    case Err(e) => Err(e)
    case Ok((h0, p)) =>
      var h := if IsRunningEvent(h0) then WithEventType(h0, run) else h0;
      var ty := EventType(h);
      if ty == MetaType then
        match ParseMetaEvent(data, p, Channel(h))
        case Err(e) => Err(e)
        case Ok((emit, next)) => Ok(RawEvent(h.deltaTime, ty, next, emit))
      else if ty == NoteOffType || ty == NoteOnType then
        if p + 2 > |data| then Err(Truncated)
        else
          var kind := if ty == NoteOffType then NoteOff else NoteOn;
          Ok(RawEvent(h.deltaTime, ty, p + 2, EmitNote(kind, data[p])))
      else if ty == NoteAftertouchType || ty == ControllerType || ty == PitchBendType then
        if p + 2 > |data| then Err(Truncated) else Ok(RawEvent(h.deltaTime, ty, p + 2, Skip))
      else if ty < 8 then Err(DecodeError)
      else if p + 1 > |data| then Err(Truncated)
      else Ok(RawEvent(h.deltaTime, ty, p + 1, Skip))
  }

  /** The reference meaning of `MoveNext`: decode raw events until one
      yields something. Every raw event's delta is added to the tick count,
      the skipped ones included; the running type becomes the resolved type
      of every raw event, meta events included. End-of-track answers false
      and leaves `Current` as it was. */
  function Advance(data: seq<byte>, t: Track): (r: Result<(Track, bool)>)
    ensures r.Ok? ==> && r.value.0.id == t.id && r.value.0.start == t.start
                      && r.value.0.ticks >= t.ticks
                      && t.pos < r.value.0.pos <= |data|
    ensures r.Ok? && !r.value.1 ==> r.value.0.current == t.current
    ensures r.Ok? && r.value.1 ==> r.value.0.current.Some?
    ensures r.Ok? && r.value.1 && r.value.0.current.value.NoteEvent? ==>
              r.value.0.current.value.trackId == t.id && r.value.0.current.value.time == Time(r.value.0)
    ensures r.Ok? && r.value.1 && r.value.0.current.value.SetTempoEvent? ==>
              r.value.0.current.value.trackId == 0 && r.value.0.current.value.time == 0
    ensures r.Err? ==> r.error == Truncated || r.error == DecodeError
    decreases |data| - t.pos
  {
    match ReadRawEvent(data, t.pos, t.run)
    case Err(e) => Err(e)
    case Ok(raw) =>
      var t1 := t.(pos := raw.next, run := raw.eventType, ticks := t.ticks + raw.delta);
      match raw.emit
      case Skip => Advance(data, t1)
      case EmitNote(kind, note) => Ok((t1.(current := Some(NoteEvent(kind, t.id, Time(t1), note))), true))
      case EmitTempo(tempo) => Ok((t1.(current := Some(SetTempoEvent(0, 0, tempo))), true))
      case EmitEnd => Ok((t1, false))
  }

  /** `Track.MoveNext`: the explicit skip loop. */
  method MoveNext(data: seq<byte>, t: Track) returns (r: Result<(Track, bool)>)
    ensures r == Advance(data, t)
  {
    var cur := t;
    while true
      invariant Advance(data, cur) == Advance(data, t)
      decreases |data| - cur.pos
    {
      var raw := ReadRawEvent(data, cur.pos, cur.run);
      if raw.Err? {
        return Err(raw.error);
      }
      var ev := raw.value;
      cur := cur.(pos := ev.next, run := ev.eventType, ticks := cur.ticks + ev.delta);
      match ev.emit {
        case Skip =>
        case EmitNote(kind, note) =>
          return Ok((cur.(current := Some(NoteEvent(kind, cur.id, Time(cur), note))), true));
        case EmitTempo(tempo) =>
          return Ok((cur.(current := Some(SetTempoEvent(0, 0, tempo))), true));
        case EmitEnd =>
          return Ok((cur, false));
      }
    }
  }

  /** `Track.Reset` rewinds the position only: the tick count, the running
      type and the current event are kept. */
  function Reset(t: Track): (r: Track)
    ensures r.pos == r.start == t.start
    ensures r.ticks == t.ticks && r.run == t.run && r.current == t.current && r.id == t.id
  {
    t.(pos := t.start)
  }

  /** Because `Reset` keeps the tick count, the replayed first event is
      stamped no earlier than the last event before the reset. */
  lemma ReplayAfterResetKeepsTime(data: seq<byte>, t: Track)
    requires Advance(data, Reset(t)).Ok?
    ensures Advance(data, Reset(t)).value.0.ticks >= t.ticks
  {
  }

  // ---------------------------------------------------------------------
  // What MoveNext does with each kind of raw event

  /** A note event with an explicit status 0x8n or 0x9n: two data bytes are
      consumed, the first is the note, and a velocity of 0 does not turn a
      note-on into a note-off. */
  lemma {:induction false} NoteEventDecoded(data: seq<byte>, t: Track, delta: u32, p: nat)
    requires ReadVarUInt32(data, t.pos) == Ok((delta, p))
    requires p + 3 <= |data| && data[p] / 16 in {NoteOffType, NoteOnType}
    ensures Advance(data, t).Ok? && Advance(data, t).value.1
    ensures var t' := Advance(data, t).value.0;
      && t'.pos == p + 3 && t'.ticks == t.ticks + delta && t'.run == data[p] / 16
      && t'.current == Some(NoteEvent(if data[p] / 16 == NoteOffType then NoteOff else NoteOn,
                                       t.id, (t.ticks + delta) % U32, data[p + 1]))
  {
  }

  /** A running-status data byte reuses the previous type; with no note or
      channel type before it (a fresh cursor has type 0) it is an error. */
  lemma {:induction false} RunningStatusResolved(data: seq<byte>, t: Track, delta: u32, p: nat)
    requires ReadVarUInt32(data, t.pos) == Ok((delta, p))
    requires p + 2 <= |data| && data[p] < 0x80
    ensures t.run < 8 ==> Advance(data, t) == Err(DecodeError)
    ensures t.run in {NoteOffType, NoteOnType} ==>
      && Advance(data, t).Ok? && Advance(data, t).value.1
      && Advance(data, t).value.0.pos == p + 2
      && Advance(data, t).value.0.current ==
           Some(NoteEvent(if t.run == NoteOffType then NoteOff else NoteOn, t.id, (t.ticks + delta) % U32, data[p]))
  {
  }

  /** End of track: `MoveNext` answers false and `Current` is unchanged. */
  lemma {:induction false} EndOfTrackDecoded(data: seq<byte>, t: Track, delta: u32, p: nat)
    requires ReadVarUInt32(data, t.pos) == Ok((delta, p))
    requires p + 3 <= |data| && data[p] == 0xFF && data[p + 1] == EndTrackMeta && data[p + 2] < 0x80
    ensures Advance(data, t) == Ok((t.(pos := p + 3, run := MetaType, ticks := t.ticks + delta), false))
  {
    VarLoopReads(data, p + 2, 0, 0, 1);
  }

  /** Set tempo: three big-endian bytes, and the event's time stays 0. */
  lemma SetTempoDecoded(data: seq<byte>, t: Track, delta: u32, p: nat)
    requires ReadVarUInt32(data, t.pos) == Ok((delta, p))
    requires p + 6 <= |data| && data[p] == 0xFF && data[p + 1] == SetTempoMeta && data[p + 2] == 3
    ensures Advance(data, t).Ok? && Advance(data, t).value.1
    ensures Advance(data, t).value.0.current == Some(SetTempoEvent(0, 0, BE24(data[p + 3], data[p + 4], data[p + 5])))
    ensures Advance(data, t).value.0.pos == p + 6
  {
    SetTempoRead(data, t, delta, p);
  }

  /** The raw event a set-tempo meta event reads as. */
  lemma SetTempoRead(data: seq<byte>, t: Track, delta: u32, p: nat)
    requires ReadVarUInt32(data, t.pos) == Ok((delta, p))
    requires p + 6 <= |data| && data[p] == 0xFF && data[p + 1] == SetTempoMeta && data[p + 2] == 3
    ensures ReadRawEvent(data, t.pos, t.run)
            == Ok(RawEvent(delta, MetaType, p + 6, EmitTempo(BE24(data[p + 3], data[p + 4], data[p + 5]))))
  {
    VarLoopReads(data, p + 2, 0, 0, 1);
    assert ReadVarUInt32(data, p + 2) == Ok((3, p + 3)) by {
      assert data[p + 2..p + 3] == [3];
    }
    var tempo := BE24(data[p + 3], data[p + 4], data[p + 5]);
    assert ReadEventHeader(data, t.pos) == Ok((EventHeader(delta, 0xFF), p + 1));
    assert ParseMetaEvent(data, p + 1, 0xF) == Ok((EmitTempo(tempo), p + 6));
  }

  /** A skipped raw event (system exclusive, an unrecognised meta event, or
      a channel event other than a note) still adds its delta. */
  lemma {:induction false} SkippedEventCountsTime(data: seq<byte>, t: Track)
    requires ReadRawEvent(data, t.pos, t.run).Ok? && ReadRawEvent(data, t.pos, t.run).value.emit == Skip
    ensures var raw := ReadRawEvent(data, t.pos, t.run).value;
      Advance(data, t) == Advance(data, t.(pos := raw.next, run := raw.eventType, ticks := t.ticks + raw.delta))
  {
  }

  /** Concrete decodes: a controller change skipped before a note (its delta
      counted), then a note-on with velocity 0 through running status. */
  lemma MoveNextExample()
    ensures var data := ExampleTrack;
      var t := Track(3, 0, 0, 0, 0, None);
      && Advance(data, t) == Ok((Track(3, 0, 8, 0x30, NoteOnType, Some(NoteEvent(NoteOn, 3, 0x30, 0x3C))), true))
      && Advance(data, Advance(data, t).value.0)
           == Ok((Track(3, 0, 11, 0x35, NoteOnType, Some(NoteEvent(NoteOn, 3, 0x35, 0x3C))), true))
  {
    var data := ExampleTrack;
    var t := Track(3, 0, 0, 0, 0, None);
    ExampleRawEvents();
    var t1 := Track(3, 0, 4, 0x10, ControllerType, None);
    assert Advance(data, t) == Advance(data, t1);
    var t2 := Track(3, 0, 8, 0x30, NoteOnType, Some(NoteEvent(NoteOn, 3, 0x30, 0x3C)));
    assert Advance(data, t1) == Ok((t2, true));
  }

  /** A controller change, then two note-ons, the second in running status. */
  const ExampleTrack: seq<byte> := [0x10, 0xB0, 0x07, 0x64, 0x20, 0x90, 0x3C, 0x40, 0x05, 0x3C, 0x00]

  lemma ExampleRawEvents()
    ensures ReadRawEvent(ExampleTrack, 0, 0) == Ok(RawEvent(0x10, ControllerType, 4, Skip))
    ensures ReadRawEvent(ExampleTrack, 4, ControllerType) == Ok(RawEvent(0x20, NoteOnType, 8, EmitNote(NoteOn, 0x3C)))
    ensures ReadRawEvent(ExampleTrack, 8, NoteOnType) == Ok(RawEvent(0x05, NoteOnType, 11, EmitNote(NoteOn, 0x3C)))
  {
    ExampleDelta(0);
    ExampleDelta(4);
    ExampleDelta(8);
  }

  lemma ExampleDelta(pos: nat)
    requires pos in {0, 4, 8}
    ensures ReadVarUInt32(ExampleTrack, pos) == Ok((ExampleTrack[pos], pos + 1))
  {
    VarLoopReads(ExampleTrack, pos, 0, 0, 1);
    assert ExampleTrack[pos..pos + 1] == [ExampleTrack[pos]];
  }


}
