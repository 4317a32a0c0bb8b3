/** `WriteAtCommand` of CommonSource/Extensions.cs: the payload of an XBee
    API "AT Command" frame (identifier 0x08) is the frame id 1, the two
    characters of the command, each cut to its low eight bits, and the
    parameter bytes; a missing parameter array counts as an empty one. */
module AtCommand {
  import opened Common
  import XBee

  /** The frame id the source always sends. */
  const FrameId: byte := 0x01

  /** The parameter bytes, with a null array read as empty. */
  function Parameters(data: Option<seq<byte>>): seq<byte>
  {
    if data.Some? then data.value else []
  }

  /** The payload: refused unless the command has exactly two characters. */
  function AtPayload(command: string, data: Option<seq<byte>>): (r: Result<seq<byte>>)
    ensures r.Err? <==> |command| != 2
    ensures r.Err? ==> r.error == ArgumentError
    ensures r.Ok? ==> |r.value| == |Parameters(data)| + 3
  {
    if |command| != 2 then Err(ArgumentError)
    else Ok([FrameId, Lo8(command[0] as int), Lo8(command[1] as int)] + Parameters(data))
  }

  /** Reading a payload back: the frame id must be 1; then the two command
      bytes and the parameters. */
  function ParsePayload(p: seq<byte>): (r: Option<(byte, byte, seq<byte>)>)
    ensures r.Some? <==> |p| >= 3 && p[0] == FrameId
    ensures r.Some? ==> [FrameId, r.value.0, r.value.1] + r.value.2 == p
  {
    if |p| < 3 || p[0] != FrameId then None else Some((p[1], p[2], p[3..]))
  }

  /** The payload keeps everything it was given, up to the low eight bits
      of each command character: parsing it gives back the command bytes
      and the parameters. */
  lemma PayloadRoundTrip(command: string, data: Option<seq<byte>>)
    requires |command| == 2
    ensures ParsePayload(AtPayload(command, data).value)
            == Some((Lo8(command[0] as int), Lo8(command[1] as int), Parameters(data)))
  {
    var p := AtPayload(command, data).value;
    assert p[3..] == Parameters(data);
  }

  /** Two calls build the same payload exactly when their commands agree
      in the low eight bits of each character and their parameters are
      equal; a null parameter array and an empty one are the same. */
  lemma PayloadInjective(c1: string, d1: Option<seq<byte>>, c2: string, d2: Option<seq<byte>>)
    requires |c1| == 2 && |c2| == 2
    ensures AtPayload(c1, d1) == AtPayload(c2, d2) <==>
      && Lo8(c1[0] as int) == Lo8(c2[0] as int) && Lo8(c1[1] as int) == Lo8(c2[1] as int)
      && Parameters(d1) == Parameters(d2)
    ensures AtPayload(c1, None) == AtPayload(c1, Some([]))
  {
    if AtPayload(c1, d1) == AtPayload(c2, d2) {
      PayloadRoundTrip(c1, d1);
      PayloadRoundTrip(c2, d2);
    }
  }

  /** `WriteAtCommand`: the payload sent as an AT Command frame whose
      length is the payload's length. The bytes on the wire are the
      parameters plus eight; parameters that do not fit the 512-byte write
      buffer fault before anything is sent. */
  method WriteAtCommand(command: string, data: Option<seq<byte>>) returns (r: Result<seq<byte>>)
    ensures r.Err? <==> |command| != 2 || |Parameters(data)| + 3 > XBee.MaxPayload
    ensures |command| != 2 ==> r == Err(ArgumentError)
    ensures r.Err? && |command| == 2 ==> r.error == CapacityError
    ensures r.Ok? ==> r.value == XBee.Encode(XBee.AtCommand, AtPayload(command, data).value)
    ensures r.Ok? ==> |r.value| == |Parameters(data)| + 8
  {
    var payload := AtPayload(command, data);
    if payload.Err? {
      return Err(payload.error);
    }
    var p := payload.value;
    r := XBee.WriteFrame(XBee.Frame(XBee.AtCommand, |p|, p));
    assert p[..|p|] == p;
  }

  /** A host's own AT Command frame, echoed back, is never taken for a
      frame by the reader: its identifier is refused and the hunt goes on
      from the byte after it. */
  lemma EchoRefused(payload: seq<byte>, rest: seq<byte>)
    ensures XBee.ReadFrame(XBee.Delimiter, XBee.Encode(XBee.AtCommand, payload)[1..] + rest)
            == XBee.ReadFrame(XBee.AtCommand, payload + [XBee.Trailer(XBee.AtCommand, payload)] + rest)
  {
    var input := XBee.Encode(XBee.AtCommand, payload)[1..] + rest;
    assert input[2] == XBee.AtCommand;
    assert !XBee.CheckId(XBee.AtCommand);
    assert input[3..] == payload + [XBee.Trailer(XBee.AtCommand, payload)] + rest;
  }
}
