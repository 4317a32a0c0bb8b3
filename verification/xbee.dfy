/** The XBee API frame codec of GhostDrive/XBee.cs.

    On the wire a frame is the delimiter 0x7E, a big-endian 16-bit length
    that counts the API identifier and the payload, the identifier, the
    payload, and a checksum byte chosen so that the identifier, the payload
    and the checksum add up to 0xFF modulo 256 (the "API frame
    specifications" of the Digi XBee ZB product manual).

    The writer is a method that mirrors the source's loop over a 512-byte
    buffer and returns the bytes handed to the serial port. The reader is a
    function over the bytes the port will deliver; running out of input
    stands for the source's blocking wait. The reader's one piece of state
    between calls is the byte left in `Buffer[0]`, which it inspects before
    reading anything new. */
module XBee {
  import opened Common

  /** The `CommandId` values of the source. Requests are written by the
      host; the rest are responses and indications the module sends. */
  const AtCommand: byte := 0x08
  const AtCommandQueue: byte := 0x09
  const TxRequest: byte := 0x10
  const ExplicitTxRequest: byte := 0x11
  const RemoteCommandRequest: byte := 0x17
  const CreateSourceRoute: byte := 0x18
  const AtCommandResponse: byte := 0x88
  const ModemStatus: byte := 0x8A
  const TxStatus: byte := 0x8B
  const RxPacket: byte := 0x90
  const ExplicitRxPacket: byte := 0x91
  const DataSampleRx: byte := 0x92
  const SensorRead: byte := 0x93
  const NodeIdentify: byte := 0x94
  const RemoteCommandResponse: byte := 0x95
  const FirmwareUpdateStatus: byte := 0xA0
  const RouteRecord: byte := 0xA1
  const RouteRequest: byte := 0xA2

  const Delimiter: byte := 0x7E

  /** Both the read and the write buffer hold 512 bytes. */
  const BufferSize: nat := 512

  /** The longest payload `WriteFrame` can send: the checksum of a frame
      with `length` payload bytes goes to index `length + 4`. */
  const MaxPayload: nat := BufferSize - 5

  /** The source's `Frame`: an identifier, a length and a buffer of which
      the first `length` bytes are the payload. */
  datatype Frame = Frame(commandId: byte, length: int, buffer: seq<byte>)

  /** `CheckId`: the reader accepts the identifiers of frames a module
      sends to its host, which fall in three runs of byte values. */
  predicate CheckId(id: byte)
  {
    id == 0x88 || 0x8A <= id <= 0x8B || 0x90 <= id <= 0x95 || 0xA0 <= id <= 0xA2
  }

  /** The accepted identifiers are exactly the twelve responses and
      indications the source's `switch` lists, and every request
      identifier is refused. */
  lemma CheckIdListed(id: byte)
    ensures CheckId(id) <==> id in {AtCommandResponse, ModemStatus, TxStatus, RxPacket, ExplicitRxPacket,
                                    DataSampleRx, SensorRead, NodeIdentify, RemoteCommandResponse,
                                    FirmwareUpdateStatus, RouteRecord, RouteRequest}
    ensures (id in {AtCommand, AtCommandQueue, TxRequest, ExplicitTxRequest, RemoteCommandRequest,
                    CreateSourceRoute, Delimiter}) ==> !CheckId(id)
  {
  }

  // ---------------------------------------------------------------------
  // Writing

  /** The checksum byte that completes `id` and `payload` to 0xFF. */
  function Trailer(id: byte, payload: seq<byte>): byte
  {
    0xFF - (id + Sum(payload)) % U8
  }

  /** The bytes the source puts in its write buffer for a frame of the
      given identifier and length field, before deciding how many of them
      to send: the length field is `length + 1`, split into its high and
      low byte by a shift and two truncating casts. */
  function Wire(id: byte, length: int, payload: seq<byte>): (r: seq<byte>)
    ensures |r| == |payload| + 5 && r[0] == Delimiter && r[3] == id && r[4..|r| - 1] == payload
    ensures (r[3] + Sum(r[4..|r| - 1]) + r[|r| - 1]) % U8 == 0xFF
    ensures 0 <= length + 1 < U16 ==> r[1] as int * U8 + r[2] as int == length + 1
  {
    [Delimiter, Lo8((length + 1) / U8), Lo8(length + 1), id] + payload + [Trailer(id, payload)]
  }

  /** The frame for a payload of its own length. */
  function Encode(id: byte, payload: seq<byte>): (r: seq<byte>)
    ensures |r| == |payload| + 5 && r[0] == Delimiter && r[3] == id && r[4..|r| - 1] == payload
    ensures |payload| + 1 < U16 ==> r[1] as int * U8 + r[2] as int == |payload| + 1
  {
    Wire(id, |payload|, payload)
  }

  /** The loop of `WriteFrame`: add the first `n` bytes of the frame's
      buffer into an 8-bit checksum that starts at the identifier. Reading
      past the frame's buffer, or writing past index 511 of the write
      buffer (the copy of byte `i` goes to index `i + 4`), faults. */
  method AddPayload(id: byte, buffer: seq<byte>, n: nat) returns (r: Result<byte>)
    ensures r.Err? <==> n > |buffer| || n > MaxPayload + 1
    ensures r.Err? ==> r.error == CapacityError
    ensures r.Ok? ==> r.value == (id + Sum(buffer[..n])) % U8
  {
    var ck: byte := id;
    var i: nat := 0;
    while i < n
      invariant i <= n && i <= |buffer| && i <= MaxPayload + 1
      invariant ck == (id + Sum(buffer[..i])) % U8
    {
      if i >= |buffer| || i + 4 >= BufferSize {
        return Err(CapacityError);
      }
      var d := buffer[i];
      SumPrefix(buffer, i);
      AddMod(id + Sum(buffer[..i]), d);
      ck := (ck + d) % U8;
      i := i + 1;
    }
    r := Ok(ck);
  }

  /** One more byte of a prefix adds that byte to its sum. */
  lemma SumPrefix(s: seq<byte>, i: nat)
    requires i < |s|
    ensures Sum(s[..i + 1]) == Sum(s[..i]) + s[i]
  {
    assert s[..i + 1][..i] == s[..i];
  }

  /** Reducing modulo 256 before an addition does not change the result. */
  lemma AddMod(a: nat, d: nat)
    ensures (a % U8 + d) % U8 == (a + d) % U8
  {
    assert a == (a / U8) * U8 + a % U8;
  }

  /** `WriteFrame`: the four header bytes, the payload, and the complement
      of the checksum; `Length + 5` bytes are sent. Indexing past the
      frame's buffer or the 512-byte write buffer faults before anything
      is sent, and so does a negative count for the port. */
  method WriteFrame(f: Frame) returns (r: Result<seq<byte>>)
    ensures r.Err? <==> f.length < -5 || f.length > MaxPayload || f.length > |f.buffer|
    ensures r.Err? && f.length >= -5 ==> r.error == CapacityError
    ensures r.Err? && f.length < -5 ==> r.error == ArgumentError
    ensures r.Ok? && f.length >= 0 ==> r.value == Encode(f.commandId, f.buffer[..f.length])
    ensures r.Ok? && f.length < 0 ==> r.value == Wire(f.commandId, f.length, [])[..f.length + 5]
    ensures r.Ok? ==> |r.value| == f.length + 5
  {
    var length := f.length + 1;
    var n: nat := if f.length < 0 then 0 else f.length;
    var ck := AddPayload(f.commandId, f.buffer, n);
    if ck.Err? {
      return Err(ck.error);
    }
    if n + 4 >= BufferSize {
      return Err(CapacityError);
    }
    var payload := f.buffer[..n];
    assert Lo8(0xFF - ck.value) == Trailer(f.commandId, payload);
    var out := Wire(f.commandId, f.length, payload);
    if length + 4 < 0 {
      return Err(ArgumentError);
    }
    r := Ok(out[..length + 4]);
  }

  /** Every frame written adds up, from the identifier to the checksum, to
      0xFF modulo 256. */
  lemma WrittenChecksum(id: byte, payload: seq<byte>)
    ensures var w := Encode(id, payload);
      |w| == |payload| + 5 && (w[3] + Sum(w[4..])) % U8 == 0xFF
  {
    var w := Encode(id, payload);
    assert w[4..] == payload + [Trailer(id, payload)];
    SumAppend(payload, [Trailer(id, payload)]);
    assert Sum([Trailer(id, payload)]) == Trailer(id, payload);
  }

  // ---------------------------------------------------------------------
  // Reading

  /** What one call of `EnsureReadFrame` ends with: a frame and the input
      left over; or the input runs out before a frame is accepted (the
      source waits for ever); or a length larger than the read buffer makes
      the payload read fault. */
  datatype ReadOutcome = Received(frame: Frame, rest: seq<byte>) | Starved | Failed(error: Error)

  /** `EnsureReadFrame`, starting with `stale` in `Buffer[0]`. While
      `Buffer[0]` is not the delimiter, one byte is read into it. Then come
      two length bytes, the identifier, and `L` bytes: the payload and the
      checksum. A refused identifier or a wrong sum drops the attempt and
      the hunt for a delimiter restarts from whatever is now in
      `Buffer[0]`: the identifier, or the first of the `L` bytes. An
      accepted frame reports `Length = L - 1`. */
  function ReadFrame(stale: byte, input: seq<byte>): (r: ReadOutcome)
    ensures r.Received? ==> CheckId(r.frame.commandId) && r.frame.length >= 0
    ensures r.Received? ==> |r.frame.buffer| == r.frame.length + 1 <= BufferSize
    ensures r.Received? ==> (r.frame.commandId + Sum(r.frame.buffer)) % U8 == 0xFF
    ensures r.Failed? ==> r.error == CapacityError
    decreases |input|
  {
    if stale != Delimiter then
      if |input| == 0 then Starved else ReadFrame(input[0], input[1..])
    else if |input| < 3 then Starved
    else
      var length := BE16(input[0], input[1]);
      var id := input[2];
      if !CheckId(id) then ReadFrame(id, input[3..])
      else if |input| < 3 + length then Starved
      else if length > BufferSize then Failed(CapacityError)
      else
        var body := input[3..3 + length];
        var next := if length == 0 then id else body[0];
        if (id + Sum(body)) % U8 == 0xFF then
          assert length != 0 by {
            assert length == 0 ==> body == [];
          }
          Received(Frame(id, length - 1, body), input[3 + length..])
        else ReadFrame(next, input[3 + length..])
  }

  /** Every accepted frame was read from the front of the input: what is
      left over is a proper suffix, so no byte is read twice. */
  lemma {:induction false} ReadConsumes(stale: byte, input: seq<byte>)
    ensures var r := ReadFrame(stale, input);
      r.Received? ==> |r.rest| < |input| && r.rest == input[|input| - |r.rest|..]
    decreases |input|
  {
    if stale != Delimiter {
      if |input| > 0 {
        ReadConsumes(input[0], input[1..]);
      }
    } else if |input| >= 3 {
      var length := BE16(input[0], input[1]);
      var id := input[2];
      if !CheckId(id) {
        ReadConsumes(id, input[3..]);
      } else if 3 + length <= |input| && length <= BufferSize {
        var body := input[3..3 + length];
        var next := if length == 0 then id else body[0];
        ReadConsumes(next, input[3 + length..]);
      }
    }
  }

  /** The two header bytes of the writer are the big-endian length the
      reader reassembles. */
  lemma LengthBytes(n: nat)
    requires n < U16
    ensures BE16(Lo8(n / U8), Lo8(n)) == n
  {
    assert n / U8 < U8;
  }

  /** Sum of one byte changed. */
  lemma SumUpdate(s: seq<byte>, k: nat, b: byte)
    requires k < |s|
    ensures Sum(s[k := b]) == Sum(s) - s[k] + b
  {
    assert s == s[..k] + [s[k]] + s[k + 1..];
    assert s[k := b] == s[..k] + [b] + s[k + 1..];
    SumAppend(s[..k] + [s[k]], s[k + 1..]);
    SumAppend(s[..k] + [b], s[k + 1..]);
    SumAppend(s[..k], [s[k]]);
    SumAppend(s[..k], [b]);
    assert Sum([s[k]]) == s[k];
    assert Sum([b]) == b;
  }

  /** With the delimiter already in `Buffer[0]`, a frame written by
      `Encode` is read back whole. */
  lemma ReadEncoded(id: byte, payload: seq<byte>, rest: seq<byte>)
    requires CheckId(id) && |payload| <= MaxPayload
    ensures ReadFrame(Delimiter, Encode(id, payload)[1..] + rest)
            == Received(Frame(id, |payload|, payload + [Trailer(id, payload)]), rest)
  {
    var w := Encode(id, payload);
    var input := w[1..] + rest;
    LengthBytes(|payload| + 1);
    assert BE16(input[0], input[1]) == |payload| + 1;
    assert input[2] == id;
    var body := payload + [Trailer(id, payload)];
    assert input[3..3 + |payload| + 1] == body;
    assert input[3 + |payload| + 1..] == rest;
    WrittenChecksum(id, payload);
    assert w[4..] == body;
  }

  /** Round trip: after noise that holds no delimiter, and with a stale
      `Buffer[0]` that is not one either, the reader returns exactly the
      frame the writer encoded, and the input after it. */
  lemma {:induction false} RoundTrip(stale: byte, noise: seq<byte>, id: byte, payload: seq<byte>, rest: seq<byte>)
    requires stale != Delimiter && Delimiter !in noise
    requires CheckId(id) && |payload| <= MaxPayload
    ensures var r := ReadFrame(stale, noise + Encode(id, payload) + rest);
      && r == Received(Frame(id, |payload|, payload + [Trailer(id, payload)]), rest)
      && r.frame.buffer[..r.frame.length] == payload
    decreases |noise|
  {
    var w := Encode(id, payload);
    if |noise| == 0 {
      assert noise + w + rest == [Delimiter] + (w[1..] + rest);
      ReadEncoded(id, payload, rest);
    } else {
      assert (noise + w + rest)[1..] == noise[1..] + w + rest;
      RoundTrip(noise[0], noise[1..], id, payload, rest);
    }
  }

  /** A frame with one byte of its payload or checksum changed is refused
      whole, and the hunt goes on from the byte after its identifier. */
  lemma DamagedRefused(id: byte, payload: seq<byte>, j: nat, b: byte, tail: seq<byte>)
    requires CheckId(id) && |payload| <= MaxPayload
    requires 4 <= j < |Encode(id, payload)| && b != Encode(id, payload)[j]
    ensures var bad := Encode(id, payload)[j := b];
      ReadFrame(Delimiter, bad[1..] + tail) == ReadFrame(bad[4], tail)
  {
    var w := Encode(id, payload);
    var bad := w[j := b];
    var input := bad[1..] + tail;
    var length := |payload| + 1;
    LengthBytes(length);
    assert BE16(input[0], input[1]) == length;
    assert input[2] == id;
    var body := w[4..];
    var body' := input[3..3 + length];
    assert body' == body[j - 4 := b];
    WrittenChecksum(id, payload);
    SumUpdate(body, j - 4, b);
    assert (id + Sum(body')) % U8 != 0xFF;
    assert body'[0] == bad[4];
    assert input[3 + length..] == tail;
  }

  /** A damaged frame is skipped; if the byte after its identifier is not
      a delimiter, the frame that follows is read as if the damaged one had
      been noise. */
  lemma CorruptionSkipped(id: byte, payload: seq<byte>, j: nat, b: byte,
                          id2: byte, payload2: seq<byte>, rest: seq<byte>)
    requires CheckId(id) && |payload| <= MaxPayload
    requires CheckId(id2) && |payload2| <= MaxPayload
    requires 4 <= j < |Encode(id, payload)| && b != Encode(id, payload)[j]
    requires Encode(id, payload)[j := b][4] != Delimiter
    ensures ReadFrame(Delimiter, Encode(id, payload)[j := b][1..] + Encode(id2, payload2) + rest)
            == Received(Frame(id2, |payload2|, payload2 + [Trailer(id2, payload2)]), rest)
  {
    var bad := Encode(id, payload)[j := b];
    var tail := Encode(id2, payload2) + rest;
    DamagedRefused(id, payload, j, b, tail);
    assert bad[1..] + Encode(id2, payload2) + rest == bad[1..] + tail;
    assert tail[0] == Delimiter && tail[1..] == Encode(id2, payload2)[1..] + rest;
    ReadEncoded(id2, payload2, rest);
  }

  /** A refused identifier that happens to be the delimiter is itself
      taken as the start of the next frame: it is the byte left in
      `Buffer[0]`. */
  lemma RefusedIdResynchronises(payload: seq<byte>, rest: seq<byte>)
    requires |payload| <= MaxPayload
    ensures ReadFrame(Delimiter, [0x00, 0x05, Delimiter] + Encode(RxPacket, payload)[1..] + rest)
            == Received(Frame(RxPacket, |payload|, payload + [Trailer(RxPacket, payload)]), rest)
  {
    var input := [0x00, 0x05, Delimiter] + Encode(RxPacket, payload)[1..] + rest;
    assert !CheckId(Delimiter);
    assert input[3..] == Encode(RxPacket, payload)[1..] + rest;
    ReadEncoded(RxPacket, payload, rest);
  }

  // ---------------------------------------------------------------------
  // The byte left behind between calls

  /** As written, the next call starts with the accepted frame's first
      buffer byte in `Buffer[0]`. When a payload begins with 0x7E, the next
      call takes that byte for a delimiter, reads the real delimiter as a
      length byte and loses the frame that follows. */
  lemma StaleDelimiterLosesFrame()
    ensures var first := ReadFrame(0, Encode(RxPacket, [Delimiter]) + Encode(RxPacket, [0x01]));
      && first == Received(Frame(RxPacket, 1, [Delimiter, Trailer(RxPacket, [Delimiter])]), Encode(RxPacket, [0x01]))
      && ReadFrame(first.frame.buffer[0], first.rest) == Starved
  {
    RoundTrip(0, [], RxPacket, [Delimiter], Encode(RxPacket, [0x01]));
    assert [] + Encode(RxPacket, [Delimiter]) + Encode(RxPacket, [0x01])
        == Encode(RxPacket, [Delimiter]) + Encode(RxPacket, [0x01]);
    FrameTakenForLength();
  }

  /** With a stale delimiter in hand, the frame `7E 00 02 90 01 6E` is
      misread: its delimiter and first length byte make the length 0x7E00,
      the identifier slot holds 0x02, which is refused, and the three bytes
      left never complete a frame. */
  lemma FrameTakenForLength()
    ensures ReadFrame(Delimiter, Encode(RxPacket, [0x01])) == Starved
  {
    var second := Encode(RxPacket, [0x01]);
    assert Sum([0x01]) == 1;
    assert second == [0x7E, 0x00, 0x02, 0x90, 0x01, 0x6E];
    assert BE16(second[0], second[1]) == 0x7E00;
    assert !CheckId(0x02);
    assert second[3..] == [0x90, 0x01, 0x6E];
    assert ReadFrame(0x6E, []) == Starved;
    assert ReadFrame(0x01, [0x6E]) == Starved;
    assert ReadFrame(0x90, [0x01, 0x6E]) == Starved;
    assert ReadFrame(0x02, [0x90, 0x01, 0x6E]) == Starved;
  }

  /** The intended reader: every call hunts for a fresh delimiter, whatever
      the previous frame left in `Buffer[0]`. Inside one call a refused
      attempt still leaves its byte to be reconsidered, as in the source. */
  function Receive(input: seq<byte>): (r: ReadOutcome)
    ensures r.Received? ==> |r.rest| < |input| && r.rest == input[|input| - |r.rest|..]
    ensures r.Received? ==> CheckId(r.frame.commandId) && (r.frame.commandId + Sum(r.frame.buffer)) % U8 == 0xFF
  {
    ReadConsumes(0x00, input);
    ReadFrame(0x00, input)
  }

  /** With the hunt restarted on every call, consecutive frames are each
      received in turn, whatever their payloads start with. */
  lemma ReceiveInTurn(id1: byte, payload1: seq<byte>, id2: byte, payload2: seq<byte>, rest: seq<byte>)
    requires CheckId(id1) && |payload1| <= MaxPayload
    requires CheckId(id2) && |payload2| <= MaxPayload
    ensures Receive(Encode(id1, payload1) + Encode(id2, payload2) + rest)
            == Received(Frame(id1, |payload1|, payload1 + [Trailer(id1, payload1)]), Encode(id2, payload2) + rest)
    ensures Receive(Encode(id2, payload2) + rest)
            == Received(Frame(id2, |payload2|, payload2 + [Trailer(id2, payload2)]), rest)
  {
    var tail := Encode(id2, payload2) + rest;
    assert Encode(id1, payload1) + Encode(id2, payload2) + rest == Encode(id1, payload1) + tail;
    ReceiveOne(id1, payload1, tail);
    ReceiveOne(id2, payload2, rest);
  }

  /** One frame at the head of the input is received whatever it holds. */
  lemma ReceiveOne(id: byte, payload: seq<byte>, rest: seq<byte>)
    requires CheckId(id) && |payload| <= MaxPayload
    ensures Receive(Encode(id, payload) + rest)
            == Received(Frame(id, |payload|, payload + [Trailer(id, payload)]), rest)
  {
    RoundTrip(0, [], id, payload, rest);
    assert [] + Encode(id, payload) + rest == Encode(id, payload) + rest;
  }

  // ---------------------------------------------------------------------
  // Open, Close and Dispose

  datatype DeviceState = Opened | Closed | Disposed

  /** The device's guards: its state, whether the serial port is open or
      disposed, and whether the reader thread has been created. */
  datatype Device = Device(state: DeviceState, portOpen: bool, portDisposed: bool, threadStarted: bool)

  /** A new device is Closed, over a port that may already be open. */
  function NewDevice(portOpen: bool): (r: Device)
    ensures r.state == Closed && r.portOpen == portOpen && Consistent(r)
    ensures Open(r).state == Opened
  {
    Device(Closed, portOpen, false, false)
  }

  /** What the guards promise: an Opened device has an open port and a
      reader thread, and only a Disposed device can have a disposed port. */
  predicate Consistent(d: Device)
  {
    && (d.state == Opened ==> d.portOpen && d.threadStarted)
    && (d.portDisposed ==> d.state == Disposed)
  }

  /** `Open` acts only from Closed: it opens the port if needed, starts the
      reader thread the first time, and moves to Opened. */
  function Open(d: Device): (r: Device)
    ensures Consistent(d) ==> Consistent(r)
    ensures d.state == Closed ==> r.state == Opened && r.portOpen && r.threadStarted
    ensures d.state != Closed ==> r == d
  {
    if d.state == Closed then d.(state := Opened, portOpen := true, threadStarted := true) else d
  }

  /** `Close` acts only from Opened: it closes the port and moves to
      Closed; the reader thread is kept. */
  function Close(d: Device): (r: Device)
    ensures Consistent(d) ==> Consistent(r)
    ensures d.state == Opened ==> r.state == Closed && !r.portOpen && r.threadStarted == d.threadStarted
    ensures d.state != Opened ==> r == d
  {
    if d.state == Opened then d.(state := Closed, portOpen := false) else d
  }

  /** `Dispose` as written: it marks the device Disposed and then joins the
      reader thread, which does not exist if the device was never opened;
      the null reference faults before the port is disposed. */
  function Dispose(d: Device): (r: (Device, Option<Error>))
    ensures d.state != Disposed ==> r.0.state == Disposed
    ensures d.state == Disposed ==> r == (d, None)
    ensures r.1.Some? <==> d.state != Disposed && !d.threadStarted
    ensures r.1.None? && d.state != Disposed ==> r.0.portDisposed && !r.0.portOpen
  {
    if d.state == Disposed then (d, None)
    else if !d.threadStarted then (d.(state := Disposed), Some(NullReference))
    else (d.(state := Disposed, portOpen := false, portDisposed := true), None)
  }

  /** Disposing a device that was never opened faults. */
  lemma DisposeUnopenedFaults(portOpen: bool)
    ensures Dispose(NewDevice(portOpen)).1 == Some(NullReference)
    ensures !Dispose(NewDevice(portOpen)).0.portDisposed
  {
  }

  /** The intended `Dispose`: join the reader thread only if there is one.
      It never faults, always disposes the port, and a second call changes
      nothing. */
  function DisposeChecked(d: Device): (r: Device)
    ensures Consistent(d) ==> Consistent(r)
    ensures r.state == Disposed && r.portDisposed == (d.state != Disposed || d.portDisposed)
    ensures d.state != Disposed ==> !r.portOpen
    ensures d.state == Disposed ==> r == d
  {
    if d.state == Disposed then d
    else d.(state := Disposed, portOpen := false, portDisposed := true)
  }

  /** The lifecycle: opening twice is opening once, closing twice is closing
      once, and a Disposed device ignores `Open` and `Close`. Closing what
      was just opened gives back a Closed device with a closed port that
      keeps its reader thread, and disposing twice is disposing once. */
  lemma Lifecycle(d: Device)
    ensures Open(Open(d)) == Open(d) && Close(Close(d)) == Close(d)
    ensures DisposeChecked(DisposeChecked(d)) == DisposeChecked(d)
    ensures Dispose(Dispose(d).0) == (Dispose(d).0, None)
    ensures var x := DisposeChecked(d); Open(x) == x && Close(x) == x
    ensures d.state == Closed ==> Close(Open(d)) == d.(portOpen := false, threadStarted := true)
  {
  }
}
