/** `MIDIFileParser` (MIDIFileParser.cs), the older single-track decoder:
    it checks the header chunk, skips the first track chunk, and collects
    the note-on and note-off events of the second one into an array of 500
    slots, dropping whatever does not fit.

    The file stream is an immutable byte sequence and a position. A read
    that comes up short raises "Read past EOF" in the source; here it is
    `Err(Truncated)`. A seek may move the position past the end of the
    file; only the next read fails. The parser object's fields outlive a
    call, so `ParseFile` takes and returns them. */
module LegacyParser {
  import opened Common
  import opened MidiStream
  import MidiTrack
  import MidiFile

  const Slots: nat := 500
  const DefaultTempo: u32 := 500000
  const SetTempoMeta: byte := 0x51

  /** `NoteEvent`: the event's own delta time, its full status byte and its
      first parameter. */
  datatype NoteEvent = NoteEvent(deltaTime: u32, eventType: byte, noteNumber: byte)

  /** The default value of the struct, which fills a new array. */
  const Blank: NoteEvent := NoteEvent(0, 0, 0)

  /** The fields of a parser object. `running` is `_RunningStatus`, which
      only ever holds a byte read from the file. */
  datatype Parser = Parser(format: u32, trackCount: u32, ticksPerBeat: u32, tempo: u32,
                           noteEvents: Option<seq<NoteEvent>>, noteCount: nat, running: byte)

  /** A new parser object: every field zero, no array yet. */
  function NewParser(): (r: Parser)
    ensures Valid(r) && r.noteEvents.None? && r.noteCount == 0 && r.running == 0
  {
    Parser(0, 0, 0, 0, None, 0, 0)
  }

  /** The count never exceeds the array. */
  predicate Valid(p: Parser)
  {
    p.noteEvents.Some? ==> p.noteCount <= |p.noteEvents.value|
  }

  // ---------------------------------------------------------------------
  // The read buffer

  /** `r` is `length` doubled zero or more times. */
  predicate Doubles(length: nat, r: nat)
    decreases r
  {
    r == length || (r > length && r % 2 == 0 && Doubles(length, r / 2))
  }

  /** `EnsureBuffer`: the buffer is doubled until it holds `required` bytes;
      it never shrinks, and it is not grown further than needed. */
  method EnsureBuffer(length: nat, required: nat) returns (r: nat)
    requires length >= 1
    ensures r >= length && r >= required
    ensures length >= required ==> r == length
    ensures r > length ==> r < 2 * required
    ensures Doubles(length, r)
  {
    r := length;
    if r < required {
      while r < required
        invariant length <= r && Doubles(length, r)
        invariant r > length ==> r < 2 * required
        decreases required - r
      {
        r := r * 2;
      }
    }
  }

  /** The buffer starts with four bytes, and no read asks for more. */
  const BufferLength: nat := 4

  /** `FillBuffer`: exactly `n` bytes from the stream, or "Read past EOF". */
  function FillBuffer(data: seq<byte>, pos: nat, n: nat): (r: Result<(seq<byte>, nat)>)
    ensures r.Ok? <==> pos + n <= |data|
    ensures r.Ok? ==> r.value.0 == data[pos..pos + n] && r.value.1 == pos + n
    ensures r.Err? ==> r.error == Truncated
  {
    if pos + n > |data| then Err(Truncated) else Ok((data[pos..pos + n], pos + n))
  }

  function ReadByte(data: seq<byte>, pos: nat): (r: Result<(byte, nat)>)
    ensures r.Ok? <==> pos < |data|
    ensures r.Ok? ==> r.value == (data[pos], pos + 1)
    ensures r.Err? ==> r.error == Truncated
  {
    match FillBuffer(data, pos, 1)
    case Err(e) => Err(e)
    case Ok((b, q)) => Ok((b[0], q))
  }

  /** `ReadWord`: big-endian. */
  function ReadWord(data: seq<byte>, pos: nat): (r: Result<(u32, nat)>)
    ensures r.Ok? <==> pos + 2 <= |data|
    ensures r.Ok? ==> r.value == (BE16(data[pos], data[pos + 1]), pos + 2)
    ensures r.Err? ==> r.error == Truncated
  {
    match FillBuffer(data, pos, 2)
    case Err(e) => Err(e)
    case Ok((b, q)) => Ok((BE16(b[0], b[1]), q))
  }

  /** `ReadDWord`: big-endian. The source shifts in `int` and casts the
      wrapped sum to `uint`, which gives the same 32-bit value. */
  function ReadDWord(data: seq<byte>, pos: nat): (r: Result<(u32, nat)>)
    ensures r.Ok? <==> pos + 4 <= |data|
    ensures r.Ok? ==> r.value == (BE32(data[pos], data[pos + 1], data[pos + 2], data[pos + 3]), pos + 4)
    ensures r.Err? ==> r.error == Truncated
  {
    match FillBuffer(data, pos, 4)
    case Err(e) => Err(e)
    case Ok((b, q)) => Ok((BE32(b[0], b[1], b[2], b[3]), q))
  }

  // ---------------------------------------------------------------------
  // Variable-length quantities

  /** The loop of `ReadVLength` from pass `i` on, with `value` the `uint`
      accumulated so far: the low seven bits of each byte are added, and
      the value is shifted left by seven after every byte with bit 7 set,
      the fourth one included; the shift wraps at 32 bits. */
  function VLoop(data: seq<byte>, pos: nat, i: nat, value: u32): (r: Result<(u32, nat)>)
    requires i < 4
    ensures r.Ok? ==> pos < r.value.1 <= pos + 4 - i && r.value.1 <= |data|
    ensures r.Err? ==> r.error == Truncated
    decreases 4 - i
  {
    if pos >= |data| then Err(Truncated)
    else
      var b := data[pos];
      var v := (value + b % 128) % U32;
      if b < 0x80 then Ok((v, pos + 1))
      else
        var shifted := (v * 128) % U32;
        if i == 3 then Ok((shifted, pos + 1))
        else VLoop(data, pos + 1, i + 1, shifted)
  }

  function ReadVLength(data: seq<byte>, pos: nat): (r: Result<(u32, nat)>)
    ensures r.Ok? ==> pos < r.value.1 <= pos + 4 && r.value.1 <= |data|
    ensures r.Err? ==> r.error == Truncated
  {
    VLoop(data, pos, 0, 0)
  }

  /** Pass by pass, the legacy loop holds 128 times the core's
      accumulator, so both read the same bytes; they give the same value
      when a byte with bit 7 clear ends the quantity, and the legacy value
      is shifted once more (and cut to 32 bits) when all four bytes carry
      the continuation bit. */
  lemma {:induction false} VLoopAgrees(data: seq<byte>, pos: nat, i: nat, acc: nat)
    requires i < 4 && acc < Pow128(i)
    ensures acc * 128 < U32
    ensures VLoop(data, pos, i, acc * 128).Err? <==> VarLoop(data, pos, i, acc).Err?
    ensures VarLoop(data, pos, i, acc).Ok? ==>
      var q := VarLoop(data, pos, i, acc).value.1;
      VLoop(data, pos, i, acc * 128) == Ok((Widened(data, VarLoop(data, pos, i, acc).value.0, q), q))
    decreases 4 - i
  {
    AccBound(i, acc, 0);
    if pos < |data| {
      var b := data[pos];
      var acc' := acc * 128 + b % 128;
      LegacyStep(data, pos, i, acc);
      CoreStep(data, pos, i, acc);
      if b >= 0x80 && i < 3 {
        VLoopAgrees(data, pos + 1, i + 1, acc');
      }
    }
  }

  /** The legacy value for a quantity the core reads as `v` ending before
      `q`: the same, or shifted once more when the last byte read still
      carries the continuation bit. */
  function Widened(data: seq<byte>, v: nat, q: nat): u32
    requires 0 < q <= |data|
  {
    (if data[q - 1] < 0x80 then v else v * 128) % U32
  }

  /** One pass of the legacy loop, with the value 128 times a small
      accumulator: no wrap-around happens before the last shift. */
  lemma LegacyStep(data: seq<byte>, pos: nat, i: nat, acc: nat)
    requires i < 4 && acc < Pow128(i) && pos < |data|
    ensures acc * 128 < U32
    ensures var b := data[pos];
      var acc' := acc * 128 + b % 128;
      && acc' < Pow128(i + 1)
      && VLoop(data, pos, i, acc * 128)
         == if b < 0x80 then Ok((acc' % U32, pos + 1))
            else if i == 3 then Ok(((acc' * 128) % U32, pos + 1))
            else VLoop(data, pos + 1, i + 1, acc' * 128)
  {
    var b := data[pos];
    AccBound(i, acc, b % 128);
    var acc' := acc * 128 + b % 128;
    assert (acc * 128 + b % 128) % U32 == acc';
    if b >= 0x80 && i < 3 {
      AccBound(i + 1, acc', 0);
      assert (acc' * 128) % U32 == acc' * 128;
    }
  }

  /** One pass of the core loop. */
  lemma CoreStep(data: seq<byte>, pos: nat, i: nat, acc: nat)
    requires i < 4 && pos < |data|
    ensures var b := data[pos];
      var acc' := acc * 128 + b % 128;
      VarLoop(data, pos, i, acc)
        == if b < 0x80 || i == 3 then Ok((acc', pos + 1)) else VarLoop(data, pos + 1, i + 1, acc')
  {
  }

  /** The accumulator of a quantity of at most four bytes stays far below
      2^32 until the last shift. */
  lemma AccBound(i: nat, acc: nat, g: nat)
    requires i < 4 && acc < Pow128(i) && g < 128
    ensures acc * 128 + g < Pow128(i + 1) <= 0x1000_0000
  {
    Pow128Mono(i + 1, 4);
    assert Pow128(4) == 0x1000_0000 by {
      assert Pow128(1) == 128;
      assert Pow128(2) == 0x4000;
      assert Pow128(3) == 0x20_0000;
    }
  }

  /** `ReadVLength` against `ReadVarUInt32` of CommonSource/MidiCore.cs: the
      same bytes are read and the same error raised; the value agrees
      whenever a byte with bit 7 clear ends the quantity, and otherwise
      (four bytes, all with bit 7 set) the legacy value is the core's
      shifted left by seven more bits, modulo 2^32. */
  lemma VLengthAgrees(data: seq<byte>, pos: nat)
    ensures ReadVLength(data, pos).Err? <==> ReadVarUInt32(data, pos).Err?
    ensures ReadVarUInt32(data, pos).Ok? ==>
      var (v, q) := ReadVarUInt32(data, pos).value;
      && (data[q - 1] < 0x80 ==> ReadVLength(data, pos) == Ok((v, q)))
      && (data[q - 1] >= 0x80 ==> q == pos + 4 && ReadVLength(data, pos) == Ok(((v * 128) % U32, q)))
  {
    VLoopAgrees(data, pos, 0, 0);
    assert ReadVLength(data, pos) == VLoop(data, pos, 0, 0 * 128);
    var c := ReadVarUInt32(data, pos);
    if c.Ok? {
      var (v, q) := c.value;
      assert VarLoop(data, pos, 0, 0) == Ok((v, q));
      assert ReadVLength(data, pos) == Ok((Widened(data, v, q), q));
      if data[q - 1] < 0x80 {
        assert v % U32 == v;
      }
    }
  }

  /** The two readers part ways on four continuation bytes: 0x81 0x80 0x80
      0x80 is 2^21 to the core and 2^28 to the legacy reader. */
  lemma VLengthDiverges()
    ensures ReadVarUInt32([0x81, 0x80, 0x80, 0x80], 0) == Ok((0x20_0000, 4))
    ensures ReadVLength([0x81, 0x80, 0x80, 0x80], 0) == Ok((0x1000_0000, 4))
  {
    CoreReadsLong();
    VLengthAgrees([0x81, 0x80, 0x80, 0x80], 0);
    assert (0x20_0000 * 128) % U32 == 0x1000_0000;
  }

  lemma CoreReadsLong()
    ensures ReadVarUInt32([0x81, 0x80, 0x80, 0x80], 0) == Ok((0x20_0000, 4))
  {
    var a: seq<byte> := [0x81, 0x80, 0x80, 0x80];
    assert VarLoop(a, 3, 3, 0x4000) == Ok((0x20_0000, 4));
    assert VarLoop(a, 2, 2, 0x80) == Ok((0x20_0000, 4));
    assert VarLoop(a, 1, 1, 1) == Ok((0x20_0000, 4));
    assert VarLoop(a, 0, 0, 0) == Ok((0x20_0000, 4));
  }

  /** Four bytes 0xFF are 2^28 - 1 to the core and 2^32 - 128 to the
      legacy reader, the shift having carried bits out of the word. */
  lemma VLengthWraps()
    ensures ReadVarUInt32([0xFF, 0xFF, 0xFF, 0xFF], 0) == Ok((0xFFF_FFFF, 4))
    ensures ReadVLength([0xFF, 0xFF, 0xFF, 0xFF], 0) == Ok((0xFFFF_FF80, 4))
  {
    CoreReadsFull();
    VLengthAgrees([0xFF, 0xFF, 0xFF, 0xFF], 0);
    assert (0xFFF_FFFF * 128) % U32 == 0xFFFF_FF80;
  }

  lemma CoreReadsFull()
    ensures ReadVarUInt32([0xFF, 0xFF, 0xFF, 0xFF], 0) == Ok((0xFFF_FFFF, 4))
  {
    var a: seq<byte> := [0xFF, 0xFF, 0xFF, 0xFF];
    assert VarLoop(a, 3, 3, 0x1F_FFFF) == Ok((0xFFF_FFFF, 4));
    assert VarLoop(a, 2, 2, 0x3FFF) == Ok((0xFFF_FFFF, 4));
    assert VarLoop(a, 1, 1, 0x7F) == Ok((0xFFF_FFFF, 4));
    assert VarLoop(a, 0, 0, 0) == Ok((0xFFF_FFFF, 4));
  }

  // ---------------------------------------------------------------------
  // Chunks

  const MThdBytes: seq<byte> := [0x4D, 0x54, 0x68, 0x64]
  const MTrkBytes: seq<byte> := [0x4D, 0x54, 0x72, 0x6B]

  /** The magic-word test `ReadByte() == m0 && ReadByte() == m1 && ...`:
      bytes are read one at a time and reading stops after the first one
      that does not match. The answer is true iff the whole word matched. */
  function ReadMagic(data: seq<byte>, pos: nat, magic: seq<byte>): (r: Result<(bool, nat)>)
    requires |magic| >= 1
    ensures MagicRead(data, pos, magic, r)
    decreases |magic|
  {
    match ReadByte(data, pos)
    case Err(e) => Err(e)
    case Ok((b, q)) =>
      if b != magic[0] then
        assert data[pos..pos] == magic[..0];
        Ok((false, q))
      else if |magic| == 1 then
        assert data[pos..q] == magic;
        Ok((true, q))
      else
        var r := ReadMagic(data, q, magic[1..]);
        MagicCons(data, pos, magic, r);
        r
  }

  /** What the magic-word test reports: true iff the whole word is there;
      false after the first mismatching byte, everything before it having
      matched; "Read past EOF" only when the file ends before a mismatch. */
  predicate MagicRead(data: seq<byte>, pos: nat, magic: seq<byte>, r: Result<(bool, nat)>)
  {
    && (pos + |magic| <= |data| ==> r.Ok?)
    && (r.Ok? && r.value.0 ==> r.value.1 == pos + |magic| <= |data| && data[pos..r.value.1] == magic)
    && (r.Ok? && !r.value.0 ==>
          var k := r.value.1 - pos - 1;
          && 0 <= k < |magic| && r.value.1 <= |data|
          && data[pos..pos + k] == magic[..k] && data[pos + k] != magic[k])
    && (r.Err? ==> r.error == Truncated)
  }

  /** A matching first byte passes the rest of the test on. */
  lemma MagicCons(data: seq<byte>, pos: nat, magic: seq<byte>, r: Result<(bool, nat)>)
    requires |magic| >= 2 && pos < |data| && data[pos] == magic[0]
    requires MagicRead(data, pos + 1, magic[1..], r)
    ensures MagicRead(data, pos, magic, r)
  {
    if r.Ok? && !r.value.0 {
      var k := r.value.1 - pos - 2;
      assert data[pos..pos + k + 1] == [data[pos]] + data[pos + 1..pos + 1 + k];
      assert magic[..k + 1] == [magic[0]] + magic[1..][..k];
    } else if r.Ok? {
      assert data[pos..r.value.1] == [data[pos]] + data[pos + 1..r.value.1];
    }
  }

  /** `ReadHeaderChunk`: "MThd", a length that must be 6, then format,
      track count and ticks per beat. The three fields are set only when
      the answer is true; a mismatch leaves them as they were. */
  function ReadHeaderChunk(p: Parser, data: seq<byte>, pos: nat): (r: Result<(Parser, bool, nat)>)
    ensures r.Ok? && r.value.1 <==>
      && pos + 14 <= |data| && data[pos..pos + 4] == MThdBytes
      && BE32(data[pos + 4], data[pos + 5], data[pos + 6], data[pos + 7]) == 6
    ensures r.Ok? && r.value.1 ==>
      r.value.0 == p.(format := BE16(data[pos + 8], data[pos + 9]),
                      trackCount := BE16(data[pos + 10], data[pos + 11]),
                      ticksPerBeat := BE16(data[pos + 12], data[pos + 13]))
      && r.value.2 == pos + 14
    ensures r.Ok? && !r.value.1 ==> r.value.0 == p && pos < r.value.2 <= |data|
    ensures r.Err? ==> r.error == Truncated
  {
    match ReadMagic(data, pos, MThdBytes)
    case Err(e) => Err(e)
    case Ok((false, q)) =>
      NotMagic(data, pos, MThdBytes, q);
      Ok((p, false, q))
    case Ok((true, q)) =>
      match ReadDWord(data, q)
      case Err(e) => Err(e)
      case Ok((length, q1)) =>
        if length != 6 then Ok((p, false, q1))
        else
          match ReadWord(data, q1)
          case Err(e) => Err(e)
          case Ok((format, q2)) =>
            match ReadWord(data, q2)
            case Err(e) => Err(e)
            case Ok((trackCount, q3)) =>
              match ReadWord(data, q3)
              case Err(e) => Err(e)
              case Ok((ticksPerBeat, q4)) =>
                Ok((p.(format := format, trackCount := trackCount, ticksPerBeat := ticksPerBeat), true, q4))
  }

  /** The two decoders accept the same header chunks at the start of a
      file of at least 14 bytes, and read the same three fields. */
  lemma HeaderAgrees(p: Parser, data: seq<byte>)
    requires |data| >= 14
    ensures ReadHeaderChunk(p, data, 0).Ok?
    ensures ReadHeaderChunk(p, data, 0).value.1 <==>
      MidiFile.ReadChunkHeader(data, 0).value.0 == MidiFile.ChunkHeader(MidiFile.MThd, MidiFile.HeaderSize)
    ensures MidiFile.Open(data).Ok? ==>
      var f := MidiFile.Open(data).value;
      var h := ReadHeaderChunk(p, data, 0).value;
      h.1 && h.0.format == f.format && h.0.trackCount == f.trackCount && h.0.ticksPerBeat == f.ticksPerBeat
  {
    assert data[0..4] == [data[0], data[1], data[2], data[3]];
    MagicWord(data[0], data[1], data[2], data[3]);
  }

  /** 'MThd' as a big-endian word and as bytes. */
  lemma MagicWord(a: byte, b: byte, c: byte, d: byte)
    ensures BE32(a, b, c, d) == MidiFile.MThd <==> [a, b, c, d] == MThdBytes
  {
  }

  /** `BurnTrackChunk`: "MTrk" and a length, then a seek past the body.
      The position may end up past the end of the file. */
  function BurnTrackChunk(data: seq<byte>, pos: nat): (r: Result<(bool, nat)>)
    ensures r.Ok? && r.value.0 <==>
      pos + 8 <= |data| && data[pos..pos + 4] == MTrkBytes
    ensures r.Ok? && r.value.0 ==>
      r.value.1 == pos + 8 + BE32(data[pos + 4], data[pos + 5], data[pos + 6], data[pos + 7])
    ensures r.Ok? ==> r.value.1 > pos
    ensures r.Err? ==> r.error == Truncated
  {
    match ReadMagic(data, pos, MTrkBytes)
    case Err(e) => Err(e)
    case Ok((false, q)) =>
      NotMagic(data, pos, MTrkBytes, q);
      Ok((false, q))
    case Ok((true, q)) =>
      match ReadDWord(data, q)
      case Err(e) => Err(e)
      case Ok((length, q1)) => Ok((true, q1 + length))
  }

  /** A failed magic test means the bytes there are not the magic word. */
  lemma NotMagic(data: seq<byte>, pos: nat, magic: seq<byte>, q: nat)
    requires |magic| >= 1 && ReadMagic(data, pos, magic) == Ok((false, q))
    ensures pos + |magic| <= |data| ==> data[pos..pos + |magic|] != magic
  {
    var k := q - pos - 1;
    if pos + |magic| <= |data| {
      assert data[pos..pos + |magic|][k] == data[pos + k];
    }
  }

  // ---------------------------------------------------------------------
  // Events

  /** What one track event leaves behind: the note to store (if any), the
      running status, the tempo, and the position after the event. */
  datatype Outcome = Outcome(note: Option<NoteEvent>, running: byte, tempo: u32, next: nat)

  /** `ReadSysExEvent`: a length and a seek past that many bytes. */
  function ReadSysExEvent(data: seq<byte>, pos: nat): (r: Result<nat>)
    ensures r.Ok? ==> ReadVLength(data, pos).Ok? && r.value == ReadVLength(data, pos).value.1 + ReadVLength(data, pos).value.0
    ensures r.Ok? ==> r.value > pos
    ensures r.Err? ==> r.error == Truncated
  {
    match ReadVLength(data, pos)
    case Err(e) => Err(e)
    case Ok((len, q)) => Ok(q + len)
  }

  /** `ReadMetaEvent`: a type byte and a length. Set-tempo reads three
      bytes (whatever the length says) as the new tempo; every other meta
      event, end-of-track included, is skipped by its length. */
  function ReadMetaEvent(tempo: u32, data: seq<byte>, pos: nat): (r: Result<(u32, nat)>)
    ensures r.Ok? ==> pos < |data| && ReadVLength(data, pos + 1).Ok?
    ensures r.Ok? && data[pos] == SetTempoMeta ==>
      var q := ReadVLength(data, pos + 1).value.1;
      q + 3 <= |data| && r.value == (BE24(data[q], data[q + 1], data[q + 2]), q + 3)
    ensures r.Ok? && data[pos] != SetTempoMeta ==>
      r.value == (tempo, ReadVLength(data, pos + 1).value.1 + ReadVLength(data, pos + 1).value.0)
    ensures r.Ok? ==> r.value.1 > pos
    ensures r.Err? ==> r.error == Truncated
  {
    match ReadByte(data, pos)
    case Err(e) => Err(e)
    case Ok((metaType, q0)) =>
      match ReadVLength(data, q0)
      case Err(e) => Err(e)
      case Ok((len, q)) =>
        if metaType == SetTempoMeta then
          if q + 3 > |data| then Err(Truncated)
          else Ok((BE24(data[q], data[q + 1], data[q + 2]), q + 3))
        else Ok((tempo, q + len))
  }

  /** `ReadMidiEvent`, entered after a byte `statusIn` that is not 0xF0,
      0xF7 or 0xFF. A byte with bit 7 set is the status and becomes the
      running status, and the next byte is the first parameter; a data byte
      reuses the running status and is itself the first parameter. Note-off
      and note-on (0x8n, 0x9n) read a second parameter and are stored with
      the event's own delta; 0xCn and 0xDn have no second parameter; every
      other status reads one. */
  function ReadMidiEvent(running: byte, tempo: u32, data: seq<byte>, pos: nat, statusIn: byte, delta: u32)
    : (r: Result<Outcome>)
    requires pos <= |data|
    ensures r.Ok? ==> r.value.tempo == tempo && r.value.next >= pos
    ensures r.Ok? ==> r.value.running == (if statusIn >= 0x80 then statusIn else running)
    ensures r.Ok? ==>
      var status := r.value.running;
      var param := if statusIn >= 0x80 then pos + 1 else pos;
      && (statusIn >= 0x80 ==> pos < |data|)
      && r.value.next == (if status / 16 == 0xC || status / 16 == 0xD then param else param + 1)
      && r.value.next <= |data|
      && (r.value.note.Some? <==> status / 16 == 8 || status / 16 == 9)
      && (r.value.note.Some? ==>
            r.value.note.value == NoteEvent(delta, status, if statusIn >= 0x80 then data[pos] else statusIn))
    ensures r.Err? ==> r.error == Truncated
  {
    var first := if statusIn >= 0x80 then ReadByte(data, pos) else Ok((statusIn, pos));
    match first
    case Err(e) => Err(e)
    case Ok((parm1, q)) =>
      var status := if statusIn >= 0x80 then statusIn else running;
      var kind := status / 16;
      if kind == 8 || kind == 9 then
        match ReadByte(data, q)
        case Err(e) => Err(e)
        case Ok((_, q1)) => Ok(Outcome(Some(NoteEvent(delta, status, parm1)), status, tempo, q1))
      else if kind == 0xC || kind == 0xD then Ok(Outcome(None, status, tempo, q))
      else
        match ReadByte(data, q)
        case Err(e) => Err(e)
        case Ok((_, q1)) => Ok(Outcome(None, status, tempo, q1))
  }

  /** `ReadTrackEvent`: a delta time and a status byte, then a system
      exclusive event, a meta event or a MIDI event. */
  function ReadTrackEvent(running: byte, tempo: u32, data: seq<byte>, pos: nat): (r: Result<Outcome>)
    ensures r.Ok? ==> r.value.next > pos
    ensures r.Ok? && r.value.note.Some? ==> r.value.note.value.eventType / 16 in {8, 9}
    ensures r.Err? ==> r.error == Truncated
  {
    match ReadVLength(data, pos)
    case Err(e) => Err(e)
    case Ok((delta, q)) =>
      match ReadByte(data, q)
      case Err(e) => Err(e)
      case Ok((status, q1)) =>
        if status == 0xF0 || status == 0xF7 then
          match ReadSysExEvent(data, q1)
          case Err(e) => Err(e)
          case Ok(next) => Ok(Outcome(None, running, tempo, next))
        else if status == 0xFF then
          match ReadMetaEvent(tempo, data, q1)
          case Err(e) => Err(e)
          case Ok((tempo', next)) => Ok(Outcome(None, running, tempo', next))
        else ReadMidiEvent(running, tempo, data, q1, status, delta)
  }

  /** `AddNoteEvent`: the note goes into the next free slot; when the array
      is full it is dropped and nothing changes. */
  function AddNoteEvent(p: Parser, ev: NoteEvent): (r: Parser)
    requires Valid(p) && p.noteEvents.Some?
    ensures Valid(r) && r.noteEvents.Some? && |r.noteEvents.value| == |p.noteEvents.value|
    ensures r.(noteEvents := p.noteEvents, noteCount := p.noteCount) == p
    ensures p.noteCount == |p.noteEvents.value| ==> r == p
    ensures p.noteCount < |p.noteEvents.value| ==>
              r.noteCount == p.noteCount + 1
              && r.noteEvents.value[..r.noteCount] == p.noteEvents.value[..p.noteCount] + [ev]
              && r.noteEvents.value[r.noteCount..] == p.noteEvents.value[r.noteCount..]
  {
    var a := p.noteEvents.value;
    if |a| <= p.noteCount then p
    else
      var a' := a[p.noteCount := ev];
      assert a'[..p.noteCount + 1] == a[..p.noteCount] + [ev];
      p.(noteEvents := Some(a'), noteCount := p.noteCount + 1)
  }

  /** The state after one event. */
  function Apply(p: Parser, o: Outcome): (r: Parser)
    requires Valid(p) && p.noteEvents.Some?
    ensures Valid(r) && r.noteEvents.Some?
    ensures r.(noteEvents := p.noteEvents, noteCount := p.noteCount, running := p.running, tempo := p.tempo) == p
  {
    var p1 := p.(running := o.running, tempo := o.tempo);
    if o.note.Some? then AddNoteEvent(p1, o.note.value) else p1
  }

  /** Two parser states that agree on the three header fields. */
  predicate SameHeader(a: Parser, b: Parser)
  {
    a.format == b.format && a.trackCount == b.trackCount && a.ticksPerBeat == b.ticksPerBeat
  }

  /** The `while (_File.Position < _TrackEnd)` loop of `ReadTrackChunk`.
      Every event moves the position forward, and the loop ends as soon as
      it reaches or passes the end of the chunk. */
  function TrackEvents(p: Parser, data: seq<byte>, pos: nat, end: nat): (r: Result<(Parser, nat)>)
    requires Valid(p) && p.noteEvents.Some?
    ensures r.Ok? ==> Valid(r.value.0) && r.value.0.noteEvents.Some?
    ensures r.Ok? ==> r.value.1 >= end && r.value.1 >= pos
    ensures r.Ok? ==> SameHeader(r.value.0, p)
    ensures r.Err? ==> r.error == Truncated
    decreases end - pos
  {
    if pos >= end then Ok((p, pos))
    else
      match ReadTrackEvent(p.running, p.tempo, data, pos)
      case Err(e) => Err(e)
      case Ok(o) => TrackEvents(Apply(p, o), data, o.next, end)
  }

  /** The reference: every note event of the chunk, in order, with no
      bound on how many. */
  function AllNotes(running: byte, tempo: u32, data: seq<byte>, pos: nat, end: nat): Result<seq<NoteEvent>>
    decreases end - pos
  {
    if pos >= end then Ok([])
    else
      match ReadTrackEvent(running, tempo, data, pos)
      case Err(e) => Err(e)
      case Ok(o) =>
        match AllNotes(o.running, o.tempo, data, o.next, end)
        case Err(e) => Err(e)
        case Ok(rest) => Ok((if o.note.Some? then [o.note.value] else []) + rest)
  }

  /** The tempo the event at `pos` sets: for a 0xFF 0x51 meta event, the
      three bytes after its length; none for any other event. */
  function TempoSet(data: seq<byte>, pos: nat): Option<u32>
  {
    match ReadVLength(data, pos)
    case Err(_) => None
    case Ok((_, q)) =>
      if q + 1 < |data| && data[q] == 0xFF && data[q + 1] == SetTempoMeta then
        match ReadVLength(data, q + 2)
        case Err(_) => None
        case Ok((_, q2)) => if q2 + 3 <= |data| then Some(BE24(data[q2], data[q2 + 1], data[q2 + 2])) else None
      else None
  }

  /** Only a set-tempo meta event changes the tempo, and it changes it to
      the value it carries. */
  lemma EventTempo(running: byte, tempo: u32, data: seq<byte>, pos: nat)
    ensures ReadTrackEvent(running, tempo, data, pos).Ok? ==>
      ReadTrackEvent(running, tempo, data, pos).value.tempo
        == (if TempoSet(data, pos).Some? then TempoSet(data, pos).value else tempo)
  {
    if ReadTrackEvent(running, tempo, data, pos).Ok? {
      var q := ReadVLength(data, pos).value.1;
      assert ReadByte(data, q) == Ok((data[q], q + 1));
    }
  }

  /** The reference: the tempo of the chunk's last set-tempo event, or
      `tempo` when it has none. */
  function LastTempo(running: byte, tempo: u32, data: seq<byte>, pos: nat, end: nat): Result<u32>
    decreases end - pos
  {
    if pos >= end then Ok(tempo)
    else
      match ReadTrackEvent(running, tempo, data, pos)
      case Err(e) => Err(e)
      case Ok(o) =>
        LastTempo(o.running, if TempoSet(data, pos).Some? then TempoSet(data, pos).value else tempo, data, o.next, end)
  }

  /** The events loop leaves `Tempo` at the value of the chunk's last
      set-tempo event, or where it was when the chunk has none. */
  lemma {:induction false} TrackEventsTempo(p: Parser, data: seq<byte>, pos: nat, end: nat)
    requires Valid(p) && p.noteEvents.Some?
    ensures TrackEvents(p, data, pos, end).Ok? ==>
      LastTempo(p.running, p.tempo, data, pos, end) == Ok(TrackEvents(p, data, pos, end).value.0.tempo)
    decreases end - pos
  {
    if pos < end {
      var e := ReadTrackEvent(p.running, p.tempo, data, pos);
      if e.Ok? {
        var o := e.value;
        var p1 := Apply(p, o);
        EventTempo(p.running, p.tempo, data, pos);
        ApplyNotes(p, o);
        TrackEventsTempo(p1, data, o.next, end);
        assert TrackEvents(p, data, pos, end) == TrackEvents(p1, data, o.next, end);
      }
    }
  }

  /** A chunk whose one event sets the tempo to 1000000 microseconds per
      beat leaves that tempo. */
  lemma TempoExample()
    ensures LastTempo(0, DefaultTempo, [0x00, 0xFF, 0x51, 0x03, 0x0F, 0x42, 0x40], 0, 7) == Ok(1000000)
  {
    var data: seq<byte> := [0x00, 0xFF, 0x51, 0x03, 0x0F, 0x42, 0x40];
    assert ReadVLength(data, 0) == Ok((0, 1));
    assert ReadVLength(data, 3) == Ok((3, 4));
    assert TempoSet(data, 0) == Some(1000000);
    assert ReadMetaEvent(DefaultTempo, data, 2) == Ok((1000000, 7));
    assert ReadTrackEvent(0, DefaultTempo, data, 0) == Ok(Outcome(None, 0, 1000000, 7));
  }

  function Min(a: nat, b: nat): nat
  {
    if a <= b then a else b
  }

  /** `r` with `m` slots filled is the array `a` with `n` slots filled,
      followed by the notes `all`, as many as fit. */
  predicate KeptFirst(a: seq<NoteEvent>, n: nat, all: seq<NoteEvent>, r: seq<NoteEvent>, m: nat)
  {
    && n <= |a| && |r| == |a|
    && m == Min(|a|, n + |all|)
    && r[..m] == (a[..n] + all)[..m]
  }

  /** The loop stores the chunk's notes until the array is full and drops
      the rest: the filled part of the array is what was there followed by
      the first notes of the chunk, as many as fit, and the array keeps its
      length. */
  lemma {:induction false} TrackEventsKeepFirst(p: Parser, data: seq<byte>, pos: nat, end: nat)
    requires Valid(p) && p.noteEvents.Some?
    ensures TrackEvents(p, data, pos, end).Ok? <==> AllNotes(p.running, p.tempo, data, pos, end).Ok?
    ensures TrackEvents(p, data, pos, end).Ok? ==>
      var r := TrackEvents(p, data, pos, end).value.0;
      KeptFirst(p.noteEvents.value, p.noteCount, AllNotes(p.running, p.tempo, data, pos, end).value,
                r.noteEvents.value, r.noteCount)
    decreases end - pos
  {
    if pos < end {
      var e := ReadTrackEvent(p.running, p.tempo, data, pos);
      if e.Ok? {
        var o := e.value;
        var p1 := Apply(p, o);
        var t := TrackEvents(p1, data, o.next, end);
        var n := AllNotes(o.running, o.tempo, data, o.next, end);
        TrackEventsKeepFirst(p1, data, o.next, end);
        assert TrackEvents(p, data, pos, end) == t;
        if t.Ok? {
          var mine: seq<NoteEvent> := if o.note.Some? then [o.note.value] else [];
          assert AllNotes(p.running, p.tempo, data, pos, end) == Ok(mine + n.value);
          ApplyNotes(p, o);
          KeepFirstStep(p.noteEvents.value, p.noteCount, p1.noteEvents.value, p1.noteCount, mine, n.value,
                        t.value.0.noteEvents.value, t.value.0.noteCount);
        } else {
          assert AllNotes(p.running, p.tempo, data, pos, end).Err?;
        }
      }
    }
  }

  /** What one event does to the array: a note goes into the next slot if
      there is one; nothing else changes it. */
  lemma ApplyNotes(p: Parser, o: Outcome)
    requires Valid(p) && p.noteEvents.Some?
    ensures var r := Apply(p, o);
      var a := p.noteEvents.value;
      var mine: seq<NoteEvent> := if o.note.Some? then [o.note.value] else [];
      && r.running == o.running && r.tempo == o.tempo
      && |r.noteEvents.value| == |a|
      && (p.noteCount < |a| ==> r.noteCount == p.noteCount + |mine|
                                && r.noteEvents.value[..r.noteCount] == a[..p.noteCount] + mine)
      && (p.noteCount == |a| ==> r.noteCount == p.noteCount && r.noteEvents.value == a)
  {
    var a := p.noteEvents.value;
    if o.note.None? {
      assert a[..p.noteCount] + [] == a[..p.noteCount];
    }
  }

  /** The sequence arithmetic of one step of `TrackEventsKeepFirst`. */
  lemma KeepFirstStep(a: seq<NoteEvent>, n: nat, a1: seq<NoteEvent>, n1: nat, mine: seq<NoteEvent>,
                      rest: seq<NoteEvent>, r: seq<NoteEvent>, m: nat)
    requires n <= |a| && |mine| <= 1 && |a1| == |a|
    requires n < |a| ==> n1 == n + |mine| && a1[..n1] == a[..n] + mine
    requires n == |a| ==> n1 == n && a1 == a
    requires KeptFirst(a1, n1, rest, r, m)
    ensures KeptFirst(a, n, mine + rest, r, m)
  {
    if n < |a| {
      assert a1[..n1] + rest == a[..n] + (mine + rest);
    } else {
      assert (a[..n] + (mine + rest))[..m] == a[..n];
      assert (a1[..n1] + rest)[..m] == a1[..n1];
    }
  }

  /** `ReadTrackChunk`: "MTrk" and a length, then the events of the body. */
  function ReadTrackChunk(p: Parser, data: seq<byte>, pos: nat): (r: Result<(Parser, bool, nat)>)
    requires Valid(p) && p.noteEvents.Some?
    ensures r.Ok? ==> Valid(r.value.0) && r.value.0.noteEvents.Some?
    ensures r.Ok? && r.value.1 <==> (r.Ok? && pos + 8 <= |data| && data[pos..pos + 4] == MTrkBytes)
    ensures r.Ok? && !r.value.1 ==> r.value.0 == p
    ensures r.Ok? && r.value.1 ==>
      var end := pos + 8 + BE32(data[pos + 4], data[pos + 5], data[pos + 6], data[pos + 7]);
      TrackEvents(p, data, pos + 8, end) == Ok((r.value.0, r.value.2))
    ensures r.Err? ==> r.error == Truncated
  {
    match ReadMagic(data, pos, MTrkBytes)
    case Err(e) => Err(e)
    case Ok((false, q)) =>
      NotMagic(data, pos, MTrkBytes, q);
      Ok((p, false, q))
    case Ok((true, q)) =>
      match ReadDWord(data, q)
      case Err(e) => Err(e)
      case Ok((length, q1)) =>
        match TrackEvents(p, data, q1, q1 + length)
        case Err(e) => Err(e)
        case Ok((p', q2)) => Ok((p', true, q2))
  }

  // ---------------------------------------------------------------------
  // ParseFile

  /** The array `ParseFile` fills: the one already there, or a new one of
      500 slots. */
  function Slots0(p: Parser): seq<NoteEvent>
  {
    if p.noteEvents.Some? then p.noteEvents.value else seq(Slots, _ => Blank)
  }

  /** `ParseFile`: reset the count and the tempo, read the header (whose
      answer is ignored), skip the first track chunk and decode the
      second. */
  function ParseFile(p: Parser, data: seq<byte>): (r: Result<Parser>)
    ensures r.Ok? ==> Valid(r.value) && r.value.noteEvents.Some?
    ensures r.Ok? ==> |r.value.noteEvents.value| == |Slots0(p)|
    ensures p.noteEvents.None? && r.Ok? ==> r.value.noteCount <= Slots
    ensures r.Err? ==> r.error == Truncated
  {
    var p0 := p.(noteEvents := Some(Slots0(p)), noteCount := 0, tempo := DefaultTempo);
    match ReadHeaderChunk(p0, data, 0)
    case Err(e) => Err(e)
    case Ok((p1, _, q1)) =>
      match BurnTrackChunk(data, q1)
      case Err(e) => Err(e)
      case Ok((_, q2)) =>
        match ReadTrackChunk(p1, data, q2)
        case Err(e) => Err(e)
        case Ok((p3, _, _)) =>
          TrackEventsNoteArray(p1, data, q2);
          Ok(p3)
  }

  /** The track loop never changes the array's length. */
  lemma TrackEventsNoteArray(p: Parser, data: seq<byte>, pos: nat)
    requires Valid(p) && p.noteEvents.Some?
    ensures ReadTrackChunk(p, data, pos).Ok? ==>
              |ReadTrackChunk(p, data, pos).value.0.noteEvents.value| == |p.noteEvents.value|
  {
    var t := ReadTrackChunk(p, data, pos);
    if t.Ok? && t.value.1 {
      var end := pos + 8 + BE32(data[pos + 4], data[pos + 5], data[pos + 6], data[pos + 7]);
      assert TrackEvents(p, data, pos + 8, end) == Ok((t.value.0, t.value.2));
      TrackEventsKeepFirst(p, data, pos + 8, end);
    }
  }

  /** The start of a well-formed file: a header chunk of length 6, a first
      track chunk, and the "MTrk" tag of a second one at `second`. */
  predicate WellFormedStart(data: seq<byte>, second: nat)
  {
    && 22 <= |data| && data[0..4] == MThdBytes && BE32(data[4], data[5], data[6], data[7]) == 6
    && data[14..18] == MTrkBytes && second == 22 + BE32(data[18], data[19], data[20], data[21])
    && second + 8 <= |data| && data[second..second + 4] == MTrkBytes
  }

  /** The parser state `ParseFile` carries into the second track chunk of
      a well-formed file. */
  function HeaderRead(p: Parser, data: seq<byte>): (r: Parser)
    requires 14 <= |data|
    ensures Valid(r) && r.noteEvents.Some? && r.noteCount == 0
  {
    p.(noteEvents := Some(Slots0(p)), noteCount := 0, tempo := DefaultTempo,
       format := BE16(data[8], data[9]), trackCount := BE16(data[10], data[11]),
       ticksPerBeat := BE16(data[12], data[13]))
  }

  /** On a well-formed start, `ParseFile` reads the header, skips the first
      track chunk and leaves its answer to the second. */
  lemma ParseFileReachesSecond(p: Parser, data: seq<byte>, second: nat)
    requires WellFormedStart(data, second)
    ensures var t := ReadTrackChunk(HeaderRead(p, data), data, second);
      ParseFile(p, data) == (if t.Ok? then Ok(t.value.0) else Err(t.error))
  {
    var p0 := p.(noteEvents := Some(Slots0(p)), noteCount := 0, tempo := DefaultTempo);
    var h := ReadHeaderChunk(p0, data, 0);
    assert h.Ok? && h.value.1 && h.value.2 == 14;
    assert h.value.0 == HeaderRead(p, data);
    assert BurnTrackChunk(data, 14) == Ok((true, second));
  }

  /** A track chunk read into an empty array keeps the chunk's first notes,
      as many as the array holds, and leaves the header fields alone. */
  lemma TrackChunkKeepsFirst(p: Parser, data: seq<byte>, pos: nat, size: nat)
    requires Valid(p) && p.noteEvents.Some? && p.noteCount == 0
    requires pos + 8 <= |data| && data[pos..pos + 4] == MTrkBytes
    requires size == BE32(data[pos + 4], data[pos + 5], data[pos + 6], data[pos + 7])
    ensures ReadTrackChunk(p, data, pos).Ok? <==> AllNotes(p.running, p.tempo, data, pos + 8, pos + 8 + size).Ok?
    ensures ReadTrackChunk(p, data, pos).Ok? ==>
      FirstNotes(p, ReadTrackChunk(p, data, pos).value.0, AllNotes(p.running, p.tempo, data, pos + 8, pos + 8 + size).value)
  {
    var t := ReadTrackChunk(p, data, pos);
    var te := TrackEvents(p, data, pos + 8, pos + 8 + size);
    ChunkIsEvents(p, data, pos, size);
    EventsFromEmpty(p, data, pos + 8, pos + 8 + size);
    if t.Ok? {
      assert te.Ok? && t.value.0 == te.value.0;
    }
  }

  /** `r` read into `p`'s empty array the first notes of `all`, as many as
      the array holds, and kept the header fields. */
  predicate FirstNotes(p: Parser, r: Parser, all: seq<NoteEvent>)
    requires p.noteEvents.Some?
  {
    && SameHeader(r, p)
    && r.noteEvents.Some? && r.noteCount <= |r.noteEvents.value|
    && r.noteCount == Min(|p.noteEvents.value|, |all|)
    && r.noteEvents.value[..r.noteCount] == all[..r.noteCount]
  }

  /** The events loop run on an empty array keeps the first notes. */
  lemma EventsFromEmpty(p: Parser, data: seq<byte>, pos: nat, end: nat)
    requires Valid(p) && p.noteEvents.Some? && p.noteCount == 0
    ensures TrackEvents(p, data, pos, end).Ok? <==> AllNotes(p.running, p.tempo, data, pos, end).Ok?
    ensures TrackEvents(p, data, pos, end).Ok? ==>
      FirstNotes(p, TrackEvents(p, data, pos, end).value.0, AllNotes(p.running, p.tempo, data, pos, end).value)
  {
    TrackEventsKeepFirst(p, data, pos, end);
    var te := TrackEvents(p, data, pos, end);
    if te.Ok? {
      var an := AllNotes(p.running, p.tempo, data, pos, end).value;
      var r := te.value.0;
      var a := p.noteEvents.value;
      assert KeptFirst(a, 0, an, r.noteEvents.value, r.noteCount);
      assert a[..0] + an == an;
    }
  }

  /** A track chunk with its tag in place is its events loop over the
      length the header gives. */
  lemma ChunkIsEvents(p: Parser, data: seq<byte>, pos: nat, size: nat)
    requires Valid(p) && p.noteEvents.Some?
    requires pos + 8 <= |data| && data[pos..pos + 4] == MTrkBytes
    requires size == BE32(data[pos + 4], data[pos + 5], data[pos + 6], data[pos + 7])
    ensures ReadTrackChunk(p, data, pos).Ok? <==> TrackEvents(p, data, pos + 8, pos + 8 + size).Ok?
    ensures ReadTrackChunk(p, data, pos).Ok? ==>
      ReadTrackChunk(p, data, pos).value.0 == TrackEvents(p, data, pos + 8, pos + 8 + size).value.0
  {
    assert data[pos..pos + 4] == [data[pos], data[pos + 1], data[pos + 2], data[pos + 3]];
    assert ReadMagic(data, pos, MTrkBytes) == Ok((true, pos + 4));
    assert ReadDWord(data, pos + 4) == Ok((size, pos + 8));
  }

  /** On a well-formed file (header, a first track chunk, a second track
      chunk of `size` bytes starting at `second`), `ParseFile` stores the
      first notes of the second chunk, as many as the array holds, and
      reads the header's three fields. */
  lemma ParseFileKeepsFirstNotes(p: Parser, data: seq<byte>, second: nat, size: nat)
    requires WellFormedStart(data, second)
    requires size == BE32(data[second + 4], data[second + 5], data[second + 6], data[second + 7])
    ensures ParseFile(p, data).Ok? <==> AllNotes(p.running, DefaultTempo, data, second + 8, second + 8 + size).Ok?
    ensures ParseFile(p, data).Ok? ==>
      var r := ParseFile(p, data).value;
      var all := AllNotes(p.running, DefaultTempo, data, second + 8, second + 8 + size).value;
      && r.format == BE16(data[8], data[9]) && r.trackCount == BE16(data[10], data[11])
      && r.ticksPerBeat == BE16(data[12], data[13])
      && r.noteCount == Min(|Slots0(p)|, |all|)
      && r.noteEvents.value[..r.noteCount] == all[..r.noteCount]
    ensures ParseFile(p, data).Ok? ==>
      LastTempo(p.running, DefaultTempo, data, second + 8, second + 8 + size) == Ok(ParseFile(p, data).value.tempo)
  {
    ParseFileReachesSecond(p, data, second);
    TrackChunkKeepsFirst(HeaderRead(p, data), data, second, size);
    ParseFileTempo(p, data, second, size);
  }

  /** `ParseFile` resets `Tempo` to 500000, and the second chunk's
      set-tempo events then set it: it ends at the last one's value. */
  lemma ParseFileTempo(p: Parser, data: seq<byte>, second: nat, size: nat)
    requires WellFormedStart(data, second)
    requires size == BE32(data[second + 4], data[second + 5], data[second + 6], data[second + 7])
    ensures ParseFile(p, data).Ok? ==>
      LastTempo(p.running, DefaultTempo, data, second + 8, second + 8 + size) == Ok(ParseFile(p, data).value.tempo)
  {
    var h := HeaderRead(p, data);
    assert h.running == p.running && h.tempo == DefaultTempo;
    ParseFileReachesSecond(p, data, second);
    TrackChunkTempo(h, data, second, size);
  }

  /** A track chunk leaves `Tempo` at the value of its last set-tempo
      event, or where it was. */
  lemma TrackChunkTempo(p: Parser, data: seq<byte>, pos: nat, size: nat)
    requires Valid(p) && p.noteEvents.Some?
    requires pos + 8 <= |data| && data[pos..pos + 4] == MTrkBytes
    requires size == BE32(data[pos + 4], data[pos + 5], data[pos + 6], data[pos + 7])
    ensures ReadTrackChunk(p, data, pos).Ok? ==>
      LastTempo(p.running, p.tempo, data, pos + 8, pos + 8 + size) == Ok(ReadTrackChunk(p, data, pos).value.0.tempo)
  {
    var t := ReadTrackChunk(p, data, pos);
    if t.Ok? {
      var te := TrackEvents(p, data, pos + 8, pos + 8 + size);
      ChunkIsEvents(p, data, pos, size);
      assert te.Ok? && t.value.0 == te.value.0;
      TrackEventsTempo(p, data, pos + 8, pos + 8 + size);
      assert LastTempo(p.running, p.tempo, data, pos + 8, pos + 8 + size) == Ok(te.value.0.tempo);
    }
  }
}
