/** The stream readers of CommonSource/MidiCore.cs (`StreamExtensions`):
    fixed-width integers in either byte order and the variable-length
    quantity of the Standard MIDI Files 1.0 specification ("Conventions").

    The stream is an immutable byte sequence and a position; a reader returns
    the value and the position after it. The source ignores short reads (a
    `Read` at the end of the file leaves its buffer stale and `ReadByte`
    returns -1); the model reports `Truncated` instead. */
module MidiStream {
  import opened Common

  datatype Endianness = Little | Big

  function ReadUInt16(data: seq<byte>, pos: nat, en: Endianness): (r: Result<(u16, nat)>)
    ensures r.Ok? <==> pos + 2 <= |data|
    ensures r.Ok? ==> r.value.1 == pos + 2
    ensures r.Ok? && en == Big ==> r.value.0 / U8 == data[pos] && r.value.0 % U8 == data[pos + 1]
    ensures r.Ok? && en == Little ==> r.value.0 % U8 == data[pos] && r.value.0 / U8 == data[pos + 1]
    ensures r.Err? ==> r.error == Truncated
  {
    if pos + 2 > |data| then Err(Truncated)
    else if en == Big then Ok((BE16(data[pos], data[pos + 1]), pos + 2))
    else Ok((BE16(data[pos + 1], data[pos]), pos + 2))
  }

  function ReadUInt32(data: seq<byte>, pos: nat, en: Endianness): (r: Result<(u32, nat)>)
    ensures r.Ok? <==> pos + 4 <= |data|
    ensures r.Ok? ==> r.value.1 == pos + 4
    ensures r.Ok? && en == Big ==> r.value.0 == BE32(data[pos], data[pos + 1], data[pos + 2], data[pos + 3])
    ensures r.Ok? && en == Little ==> r.value.0 == BE32(data[pos + 3], data[pos + 2], data[pos + 1], data[pos])
    ensures r.Err? ==> r.error == Truncated
  {
    if pos + 4 > |data| then Err(Truncated)
    else if en == Big then Ok((BE32(data[pos], data[pos + 1], data[pos + 2], data[pos + 3]), pos + 4))
    else Ok((BE32(data[pos + 3], data[pos + 2], data[pos + 1], data[pos]), pos + 4))
  }

  // ---------------------------------------------------------------------
  // Variable-length quantities

  function Pow128(k: nat): (r: nat)
    ensures r >= 1
  {
    if k == 0 then 1 else 128 * Pow128(k - 1)
  }

  /** The value of a run of VLQ bytes: the low seven bits of each byte,
      most significant group first (the reference definition). */
  function Groups(s: seq<byte>): nat
  {
    if |s| == 0 then 0 else (s[0] % 128) * Pow128(|s| - 1) + Groups(s[1..])
  }

  lemma {:induction false} GroupsBound(s: seq<byte>)
    ensures Groups(s) < Pow128(|s|)
    decreases |s|
  {
    if |s| > 0 {
      GroupsBound(s[1..]);
      var p := Pow128(|s| - 1);
      var d := s[0] % 128;
      assert d * p <= 127 * p by { MulLeq(d, 127, p); }
      assert Pow128(|s|) == 128 * p;
    }
  }

  lemma MulLeq(a: nat, b: nat, c: nat)
    requires a <= b
    ensures a * c <= b * c
  {
  }

  /** Appending a byte shifts the value up by one group. */
  lemma {:induction false} GroupsSnoc(s: seq<byte>, b: byte)
    ensures Groups(s + [b]) == Groups(s) * 128 + b % 128
    decreases |s|
  {
    if |s| == 0 {
      assert s + [b] == [b];
    } else {
      assert (s + [b])[1..] == s[1..] + [b];
      GroupsSnoc(s[1..], b);
      calc {
        Groups(s + [b]);
        (s[0] % 128) * Pow128(|s|) + Groups(s[1..] + [b]);
        (s[0] % 128) * (128 * Pow128(|s| - 1)) + Groups(s[1..]) * 128 + b % 128;
        { assert (s[0] % 128) * (128 * Pow128(|s| - 1)) == ((s[0] % 128) * Pow128(|s| - 1)) * 128; }
        ((s[0] % 128) * Pow128(|s| - 1) + Groups(s[1..])) * 128 + b % 128;
      }
    }
  }

  /** The loop of `ReadVarUInt32` from its `i`-th iteration on, with `acc`
      the value gathered so far: at most four bytes are read, and the loop
      stops after the first byte whose bit 7 is clear. */
  function VarLoop(data: seq<byte>, pos: nat, i: nat, acc: nat): (r: Result<(nat, nat)>)
    requires i < 4
    ensures r.Ok? ==> pos < r.value.1 <= pos + 4 - i && r.value.1 <= |data|
    ensures r.Ok? ==> r.value.0 == acc * Pow128(r.value.1 - pos) + Groups(data[pos..r.value.1])
    ensures r.Err? ==> r.error == Truncated
    decreases 4 - i
  {
    if pos >= |data| then Err(Truncated)
    else
      var b := data[pos];
      var acc' := acc * 128 + b % 128;
      if b < 128 || i == 3 then
        assert data[pos..pos + 1] == [b];
        Ok((acc', pos + 1))
      else
        var r := VarLoop(data, pos + 1, i + 1, acc');
        if r.Ok? then
          VarLoopShift(data, pos, acc, r.value.1);
          r
        else r
  }

  lemma VarLoopShift(data: seq<byte>, pos: nat, acc: nat, next: nat)
    requires pos < next <= |data|
    ensures (acc * 128 + data[pos] % 128) * Pow128(next - pos - 1) + Groups(data[pos + 1..next])
         == acc * Pow128(next - pos) + Groups(data[pos..next])
  {
    assert data[pos..next][1..] == data[pos + 1..next];
    var k := next - pos - 1;
    assert (acc * 128 + data[pos] % 128) * Pow128(k)
        == acc * (128 * Pow128(k)) + (data[pos] % 128) * Pow128(k);
  }

  /** `ReadVarUInt32`: the value of the bytes read, taken MSB-first; it
      reads one to four bytes, all but the last with bit 7 set, and the last
      with bit 7 clear unless all four were read. */
  function ReadVarUInt32(data: seq<byte>, pos: nat): (r: Result<(u32, nat)>)
    ensures r.Ok? ==> pos < r.value.1 <= pos + 4 && r.value.1 <= |data|
    ensures r.Ok? ==> r.value.0 == Groups(data[pos..r.value.1]) && r.value.0 < 0x1000_0000
    ensures r.Ok? ==> forall j :: pos <= j < r.value.1 - 1 ==> data[j] >= 0x80
    ensures r.Ok? ==> data[r.value.1 - 1] < 0x80 || r.value.1 == pos + 4
    ensures r.Err? ==> r.error == Truncated
  {
    var r := VarLoop(data, pos, 0, 0);
    if r.Ok? then
      GroupsBound(data[pos..r.value.1]);
      assert Pow128(r.value.1 - pos) <= Pow128(4) by { Pow128Mono(r.value.1 - pos, 4); }
      VarLoopStops(data, pos, 0, 0);
      Ok((r.value.0, r.value.1))
    else Err(r.error)
  }

  lemma {:induction false} Pow128Mono(a: nat, b: nat)
    requires a <= b
    ensures Pow128(a) <= Pow128(b)
    decreases b
  {
    if a < b {
      Pow128Mono(a, b - 1);
    }
  }

  lemma {:induction false} VarLoopStops(data: seq<byte>, pos: nat, i: nat, acc: nat)
    requires i < 4 && VarLoop(data, pos, i, acc).Ok?
    ensures var next := VarLoop(data, pos, i, acc).value.1;
      && (forall j :: pos <= j < next - 1 ==> data[j] >= 0x80)
      && (data[next - 1] < 0x80 || next == pos + 4 - i)
    decreases 4 - i
  {
    if !(data[pos] < 128 || i == 3) {
      VarLoopStops(data, pos + 1, i + 1, acc * 128 + data[pos] % 128);
    }
  }

  /** Conversely, a run of at most four bytes whose last byte is the first
      with bit 7 clear is read whole. */
  lemma {:induction false} VarLoopReads(data: seq<byte>, pos: nat, i: nat, acc: nat, k: nat)
    requires i < 4 && 1 <= k <= 4 - i && pos + k <= |data|
    requires forall j :: pos <= j < pos + k - 1 ==> data[j] >= 0x80
    requires data[pos + k - 1] < 0x80 || i + k == 4
    ensures VarLoop(data, pos, i, acc).Ok?
    ensures VarLoop(data, pos, i, acc).value.1 == pos + k
    decreases k
  {
    if k > 1 {
      VarLoopReads(data, pos + 1, i + 1, acc * 128 + data[pos] % 128, k - 1);
    }
  }

  // ---------------------------------------------------------------------
  // The minimal encoding, the decoder's partner

  /** The leading groups of a value, each with the continuation bit set. */
  function EncodeHigh(v: nat): (r: seq<byte>)
    ensures forall j :: 0 <= j < |r| ==> r[j] >= 0x80
    ensures Groups(r) == v
  {
    if v == 0 then []
    else
      var high := EncodeHigh(v / 128);
      var b: byte := v % 128 + 128;
      GroupsSnoc(high, b);
      assert b % 128 == v % 128 && v == (v / 128) * 128 + v % 128;
      assert forall j :: 0 <= j < |high| ==> (high + [b])[j] == high[j];
      high + [b]
  }

  /** The minimal big-endian base-128 encoding of `v`. */
  function EncodeVarUInt32(v: nat): (r: seq<byte>)
    requires v < 0x1000_0000
    ensures 1 <= |r| <= 4
    ensures forall j :: 0 <= j < |r| - 1 ==> r[j] >= 0x80
    ensures r[|r| - 1] < 0x80
    ensures Groups(r) == v
  {
    var hi := EncodeHigh(v / 128);
    EncodeHighLength(v / 128, 3);
    GroupsSnoc(hi, v % 128);
    hi + [v % 128]
  }

  lemma {:induction false} EncodeHighLength(v: nat, k: nat)
    requires v < Pow128(k)
    ensures |EncodeHigh(v)| <= k
    decreases k
  {
    if v > 0 {
      assert k > 0;
      EncodeHighLength(v / 128, k - 1);
    }
  }

  /** Decoding the minimal encoding of any 28-bit value gives the value back
      and stops exactly at its end, whatever follows. */
  lemma VarUInt32RoundTrip(v: nat, rest: seq<byte>)
    requires v < 0x1000_0000
    ensures ReadVarUInt32(EncodeVarUInt32(v) + rest, 0) == Ok((v, |EncodeVarUInt32(v)|))
  {
    var e := EncodeVarUInt32(v);
    var data := e + rest;
    VarLoopReads(data, 0, 0, 0, |e|);
    assert data[0..|e|] == e;
  }

  /** The five values of the MIDI file specification's examples decode from
      their minimal encodings. */
  lemma VarUInt32Examples()
    ensures ReadVarUInt32([0x00], 0) == Ok((0, 1))
    ensures ReadVarUInt32([0x7F], 0) == Ok((127, 1))
    ensures ReadVarUInt32([0x81, 0x00], 0) == Ok((128, 2))
    ensures ReadVarUInt32([0xFF, 0x7F], 0) == Ok((16383, 2))
    ensures ReadVarUInt32([0xFF, 0xFF, 0x7F], 0) == Ok((2097151, 3))
    ensures ReadVarUInt32([0xFF, 0xFF, 0xFF, 0x7F], 0) == Ok((0xFFF_FFFF, 4))
  {
    assert [0x00] == EncodeVarUInt32(0) + [];
    VarUInt32RoundTrip(0, []);
    assert [0x7F] == EncodeVarUInt32(127) + [];
    VarUInt32RoundTrip(127, []);
    assert [0x81, 0x00] == EncodeVarUInt32(128) + [];
    VarUInt32RoundTrip(128, []);
    assert [0xFF, 0x7F] == EncodeVarUInt32(16383) + [];
    VarUInt32RoundTrip(16383, []);
    assert [0xFF, 0xFF, 0x7F] == EncodeVarUInt32(2097151) + [];
    VarUInt32RoundTrip(2097151, []);
    assert [0xFF, 0xFF, 0xFF, 0x7F] == EncodeVarUInt32(0xFFF_FFFF) + [];
    VarUInt32RoundTrip(0xFFF_FFFF, []);
  }
}
