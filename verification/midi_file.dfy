/** The `MidiFile` constructor of CommonSource/MidiCore.cs: the header chunk
    and one cursor per track chunk, following the chunk layout of the
    Standard MIDI Files 1.0 specification. */
module MidiFile {
  import opened Common
  import opened MidiStream
  import opened MidiTrack

  const MThd: u32 := 0x4d546864
  const MTrk: u32 := 0x4d54726b
  const HeaderSize: u32 := 6
  /** Microseconds per quarter note until a set-tempo event says otherwise. */
  const DefaultTempo: u32 := 500000

  datatype ChunkHeader = ChunkHeader(id: u32, size: u32)

  /** `ChunkHeader.ReadFrom`: two big-endian 32-bit words. */
  function ReadChunkHeader(data: seq<byte>, pos: nat): (r: Result<(ChunkHeader, nat)>)
    ensures r.Ok? <==> pos + 8 <= |data|
    ensures r.Ok? ==> && r.value.1 == pos + 8
                      && r.value.0.id == BE32(data[pos], data[pos + 1], data[pos + 2], data[pos + 3])
                      && r.value.0.size == BE32(data[pos + 4], data[pos + 5], data[pos + 6], data[pos + 7])
  {
    match ReadUInt32(data, pos, Big)
    case Err(e) => Err(e)
    case Ok((id, p)) =>
      match ReadUInt32(data, p, Big)
      case Err(e) => Err(e)
      case Ok((size, q)) => Ok((ChunkHeader(id, size), q))
  }

  datatype MidiFile = MidiFile(format: u16, trackCount: u16, ticksPerBeat: u16, tempo: u32, tracks: seq<Track>)

  /** A cursor as `Track.ReadFrom` creates it: at the start of its events,
      no ticks, running type 0, no current event. */
  predicate Fresh(t: Track, id: u16)
  {
    t == Track(id, t.start, t.start, 0, 0, None)
  }

  /** `Track.ReadFrom`: the chunk must be tagged 'MTrk'; the cursor starts
      after the chunk header and the stream moves past `Size` bytes. */
  function ReadTrack(id: u16, data: seq<byte>, pos: nat): (r: Result<(Track, nat)>)
    ensures pos + 8 > |data| ==> r == Err(Truncated)
    ensures (pos + 8 <= |data| && BE32(data[pos], data[pos + 1], data[pos + 2], data[pos + 3]) != MTrk)
              ==> r == Err(FormatError)
    ensures r.Ok? ==> && pos + 8 <= |data|
                      && data[pos..pos + 4] == MTrkBytes
                      && Fresh(r.value.0, id) && r.value.0.start == pos + 8
                      && r.value.1 == pos + 8 + BE32(data[pos + 4], data[pos + 5], data[pos + 6], data[pos + 7])
  {
    match ReadChunkHeader(data, pos)
    case Err(e) => Err(e)
    case Ok((ch, p)) =>
      if ch.id != MTrk then Err(FormatError)
      else
        TagBytes(data[pos], data[pos + 1], data[pos + 2], data[pos + 3]);
        assert data[pos..pos + 4] == [data[pos], data[pos + 1], data[pos + 2], data[pos + 3]];
        Ok((Track(id, p, p, 0, 0, None), p + ch.size))
  }

  /** The tag 'MTrk' as a big-endian word and as bytes. */
  lemma TagBytes(a: byte, b: byte, c: byte, d: byte)
    ensures BE32(a, b, c, d) == MTrk <==> [a, b, c, d] == MTrkBytes
  {
  }

  /** The cursor position `start` lies just after a chunk header tagged
      'MTrk'. */
  predicate Tagged(data: seq<byte>, start: nat)
  {
    8 <= start <= |data| && data[start - 8..start - 4] == MTrkBytes
  }

  /** The constructor's loop `for (i = 0; i < TrackCount; i++)`. */
  function ReadTracks(data: seq<byte>, pos: nat, i: nat, count: nat): (r: Result<seq<Track>>)
    requires i <= count <= 0xFFFF
    ensures r.Ok? ==> |r.value| == count - i
    ensures r.Ok? ==> forall k :: 0 <= k < |r.value| ==>
              Fresh(r.value[k], i + k) && Tagged(data, r.value[k].start)
    decreases count - i
  {
    if i == count then Ok([])
    else
      match ReadTrack(i, data, pos)
      case Err(e) => Err(e)
      case Ok((t, next)) =>
        match ReadTracks(data, next, i + 1, count)
        case Err(e) => Err(e)
        case Ok(rest) =>
          var r := [t] + rest;
          assert Tagged(data, t.start);
          assert forall k :: 0 < k < |r| ==> r[k] == rest[k - 1];
          Ok(r)
  }

  /** `new MidiFile(path)`: the header chunk must be 'MThd' of size 6; then
      format, track count and division as big-endian 16-bit words, the
      default tempo, and one cursor per track chunk, numbered from 0. */
  function Open(data: seq<byte>): (r: Result<MidiFile>)
    ensures (|data| >= 8 && (BE32(data[0], data[1], data[2], data[3]) != MThd
                             || BE32(data[4], data[5], data[6], data[7]) != HeaderSize))
              ==> r == Err(FormatError)
    ensures r.Ok? ==> && |data| >= 14
                      && BE32(data[0], data[1], data[2], data[3]) == MThd
                      && BE32(data[4], data[5], data[6], data[7]) == HeaderSize
                      && r.value.format == BE16(data[8], data[9])
                      && r.value.trackCount == BE16(data[10], data[11])
                      && r.value.ticksPerBeat == BE16(data[12], data[13])
                      && r.value.tempo == DefaultTempo
                      && |r.value.tracks| == r.value.trackCount
    ensures r.Ok? ==> forall k :: 0 <= k < |r.value.tracks| ==> Fresh(r.value.tracks[k], k) && Tagged(data, r.value.tracks[k].start)
  {
    match ReadChunkHeader(data, 0)
    case Err(e) => Err(e)
    case Ok((ch, p)) =>
      if ch.id != MThd || ch.size != HeaderSize then Err(FormatError)
      else
        match ReadUInt16(data, p, Big)
        case Err(e) => Err(e)
        case Ok((format, p1)) =>
          match ReadUInt16(data, p1, Big)
          case Err(e) => Err(e)
          case Ok((trackCount, p2)) =>
            match ReadUInt16(data, p2, Big)
            case Err(e) => Err(e)
            case Ok((division, p3)) =>
              match ReadTracks(data, p3, 0, trackCount)
              case Err(e) => Err(e)
              case Ok(tracks) => Ok(MidiFile(format, trackCount, division, DefaultTempo, tracks))
  }

  // ---------------------------------------------------------------------
  // The container layout, the constructor's partner

  function U16Bytes(v: u16): seq<byte>
  {
    [v / U8, v % U8]
  }

  function U32Bytes(v: u32): (r: seq<byte>)
    ensures |r| == 4 && BE32(r[0], r[1], r[2], r[3]) == v
  {
    var q1 := v / 256;
    var q2 := q1 / 256;
    assert v == q1 * 256 + v % 256;
    assert q1 == q2 * 256 + q1 % 256;
    assert q2 == (q2 / 256) * 256 + q2 % 256;
    assert q2 / 256 < 256;
    [q2 / 256, q2 % 256, q1 % 256, v % 256]
  }

  const MThdBytes: seq<byte> := [0x4d, 0x54, 0x68, 0x64]
  const MTrkBytes: seq<byte> := [0x4d, 0x54, 0x72, 0x6b]

  predicate ChunksFit(chunks: seq<seq<byte>>)
  {
    forall k :: 0 <= k < |chunks| ==> |chunks[k]| < U32
  }

  /** Track chunks laid end to end, each behind its 'MTrk' header. */
  function EncodeChunks(chunks: seq<seq<byte>>): seq<byte>
    requires ChunksFit(chunks)
  {
    if |chunks| == 0 then []
    else MTrkBytes + U32Bytes(|chunks[0]|) + chunks[0] + EncodeChunks(chunks[1..])
  }

  /** A whole file: the 'MThd' chunk and the track chunks. */
  function EncodeFile(format: u16, division: u16, chunks: seq<seq<byte>>): (r: seq<byte>)
    requires |chunks| < U16 && ChunksFit(chunks)
    ensures |r| == 14 + |EncodeChunks(chunks)| && r[..4] == MThdBytes && r[14..] == EncodeChunks(chunks)
    ensures BE32(r[4], r[5], r[6], r[7]) == HeaderSize
    ensures r[10] as int * U8 + r[11] as int == |chunks|
  {
    MThdBytes + U32Bytes(HeaderSize) + U16Bytes(format) + U16Bytes(|chunks|) + U16Bytes(division)
      + EncodeChunks(chunks)
  }

  /** The bytes of the first encoded chunk in place: its header, its
      events, and the remaining chunks after them. */
  lemma EncodedChunkSplit(data: seq<byte>, pos: nat, chunks: seq<seq<byte>>)
    requires ChunksFit(chunks) && |chunks| > 0
    requires At(data, pos, EncodeChunks(chunks))
    ensures At(data, pos, MTrkBytes) && At(data, pos + 4, U32Bytes(|chunks[0]|))
    ensures At(data, pos + 8, chunks[0])
    ensures ChunksFit(chunks[1..]) && At(data, pos + 8 + |chunks[0]|, EncodeChunks(chunks[1..]))
  {
    var c := chunks[0];
    var rest := EncodeChunks(chunks[1..]);
    var h := U32Bytes(|c|);
    assert EncodeChunks(chunks) == (MTrkBytes + h) + (c + rest);
    AtParts(data, pos, MTrkBytes + h, c + rest);
    AtParts(data, pos, MTrkBytes, h);
    AtParts(data, pos + 8, c, rest);
  }

  /** A chunk header laid out as bytes reads back as its tag and size. */
  lemma HeaderBytes(data: seq<byte>, pos: nat, size: u32)
    requires At(data, pos, MTrkBytes) && At(data, pos + 4, U32Bytes(size))
    ensures pos + 8 <= |data|
    ensures BE32(data[pos], data[pos + 1], data[pos + 2], data[pos + 3]) == MTrk
    ensures BE32(data[pos + 4], data[pos + 5], data[pos + 6], data[pos + 7]) == size
  {
    assert data[pos..pos + 4][0] == data[pos] && data[pos..pos + 4][1] == data[pos + 1];
    assert data[pos..pos + 4][2] == data[pos + 2] && data[pos..pos + 4][3] == data[pos + 3];
    assert data[pos + 4..pos + 8][0] == data[pos + 4] && data[pos + 4..pos + 8][1] == data[pos + 5];
    assert data[pos + 4..pos + 8][2] == data[pos + 6] && data[pos + 4..pos + 8][3] == data[pos + 7];
  }

  /** Bytes holding a concatenation hold each part in place. */
  lemma AtParts(data: seq<byte>, pos: nat, a: seq<byte>, b: seq<byte>)
    requires At(data, pos, a + b)
    ensures At(data, pos, a) && At(data, pos + |a|, b)
  {
    assert data[pos..pos + |a|] == data[pos..pos + |a + b|][..|a|];
    assert data[pos + |a|..pos + |a| + |b|] == data[pos..pos + |a + b|][|a|..];
  }

  /** The bytes `s` lie in `data` from `pos` on. */
  predicate At(data: seq<byte>, pos: nat, s: seq<byte>)
  {
    pos + |s| <= |data| && data[pos..pos + |s|] == s
  }

  /** Cursor k starts at the bytes of chunk k. */
  predicate InPlace(data: seq<byte>, ts: seq<Track>, chunks: seq<seq<byte>>)
  {
    && |ts| == |chunks|
    && forall k :: 0 <= k < |chunks| ==> At(data, ts[k].start, chunks[k])
  }

  lemma InPlaceCons(data: seq<byte>, t: Track, ts: seq<Track>, chunks: seq<seq<byte>>)
    requires |chunks| > 0 && InPlace(data, ts, chunks[1..])
    requires At(data, t.start, chunks[0])
    ensures InPlace(data, [t] + ts, chunks)
  {
    var ts2 := [t] + ts;
    forall k | 0 <= k < |chunks|
      ensures At(data, ts2[k].start, chunks[k])
    {
      if k > 0 {
        assert ts2[k] == ts[k - 1];
        assert chunks[k] == chunks[1..][k - 1];
      }
    }
  }

  /** The first encoded chunk reads as a fresh cursor over its events,
      and the stream moves to the chunk after it. */
  lemma FirstChunkRead(data: seq<byte>, pos: nat, i: u16, chunks: seq<seq<byte>>)
    requires ChunksFit(chunks) && |chunks| > 0
    requires At(data, pos, EncodeChunks(chunks))
    ensures ReadTrack(i, data, pos) == Ok((Track(i, pos + 8, pos + 8, 0, 0, None), pos + 8 + |chunks[0]|))
  {
    EncodedChunkSplit(data, pos, chunks);
    HeaderBytes(data, pos, |chunks[0]|);
    ReadTrackTagged(i, data, pos, |chunks[0]|);
  }

  /** A chunk tagged 'MTrk' reads as a fresh cursor after its header, and
      the stream moves past its size. */
  lemma ReadTrackTagged(i: u16, data: seq<byte>, pos: nat, size: u32)
    requires pos + 8 <= |data|
    requires BE32(data[pos], data[pos + 1], data[pos + 2], data[pos + 3]) == MTrk
    requires BE32(data[pos + 4], data[pos + 5], data[pos + 6], data[pos + 7]) == size
    ensures ReadTrack(i, data, pos) == Ok((Track(i, pos + 8, pos + 8, 0, 0, None), pos + 8 + size))
  {
    assert ReadChunkHeader(data, pos) == Ok((ChunkHeader(MTrk, size), pos + 8));
  }

  /** Reading encoded track chunks gives one fresh cursor per chunk whose
      events are exactly that chunk's bytes. */
  lemma {:induction false} ReadTracksEncoded(data: seq<byte>, pos: nat, i: nat, count: nat, chunks: seq<seq<byte>>)
    requires ChunksFit(chunks) && count == i + |chunks| <= 0xFFFF
    requires At(data, pos, EncodeChunks(chunks))
    ensures ReadTracks(data, pos, i, count).Ok?
    ensures InPlace(data, ReadTracks(data, pos, i, count).value, chunks)
    decreases |chunks|
  {
    if |chunks| > 0 {
      var next := pos + 8 + |chunks[0]|;
      EncodedChunkSplit(data, pos, chunks);
      ReadTracksEncoded(data, next, i + 1, count, chunks[1..]);
      var rest := ReadTracks(data, next, i + 1, count).value;
      ReadTracksStep(data, pos, i, count, chunks, next, rest);
      InPlaceCons(data, Track(i, pos + 8, pos + 8, 0, 0, None), rest, chunks);
    }
  }

  /** One chunk of `ReadTracksEncoded`: the first cursor goes in front of
      the ones the remaining chunks give. */
  lemma ReadTracksStep(data: seq<byte>, pos: nat, i: nat, count: nat, chunks: seq<seq<byte>>,
                       next: nat, rest: seq<Track>)
    requires ChunksFit(chunks) && count == i + |chunks| <= 0xFFFF && |chunks| > 0
    requires At(data, pos, EncodeChunks(chunks))
    requires next == pos + 8 + |chunks[0]|
    requires ReadTracks(data, next, i + 1, count) == Ok(rest)
    ensures ReadTracks(data, pos, i, count) == Ok([Track(i, pos + 8, pos + 8, 0, 0, None)] + rest)
  {
    FirstChunkRead(data, pos, i, chunks);
    ReadTracksCons(data, pos, i, count, Track(i, pos + 8, pos + 8, 0, 0, None), next);
  }

  lemma ReadTracksCons(data: seq<byte>, pos: nat, i: nat, count: nat, t: Track, next: nat)
    requires i < count <= 0xFFFF
    requires ReadTrack(i, data, pos) == Ok((t, next))
    requires ReadTracks(data, next, i + 1, count).Ok?
    ensures ReadTracks(data, pos, i, count) == Ok([t] + ReadTracks(data, next, i + 1, count).value)
  {
  }

  /** Opening an encoded file recovers its format, division and track
      count, with track i reading exactly the bytes of chunk i. */
  lemma OpenEncoded(format: u16, division: u16, chunks: seq<seq<byte>>)
    requires |chunks| < U16 && ChunksFit(chunks)
    ensures var r := Open(EncodeFile(format, division, chunks));
      && r.Ok?
      && r.value.format == format && r.value.ticksPerBeat == division
      && r.value.trackCount == |chunks| && r.value.tempo == DefaultTempo
      && (forall k :: 0 <= k < |chunks| ==> Fresh(r.value.tracks[k], k))
      && InPlace(EncodeFile(format, division, chunks), r.value.tracks, chunks)
  {
    var data := EncodeFile(format, division, chunks);
    var e := EncodeChunks(chunks);
    assert data == MThdBytes + U32Bytes(HeaderSize) + U16Bytes(format) + U16Bytes(|chunks|)
                   + U16Bytes(division) + e;
    assert At(data, 14, e) by {
      assert data[14..14 + |e|] == e;
    }
    assert BE32(data[0], data[1], data[2], data[3]) == MThd;
    assert BE32(data[4], data[5], data[6], data[7]) == HeaderSize by {
      assert data[4..8] == U32Bytes(HeaderSize);
    }
    assert BE16(data[8], data[9]) == format;
    assert BE16(data[10], data[11]) == |chunks|;
    assert BE16(data[12], data[13]) == division;
    ReadTracksEncoded(data, 14, 0, |chunks|, chunks);
  }
}
