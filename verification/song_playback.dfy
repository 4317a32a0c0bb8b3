/** The pure parts of `PlaySong` in GhostDrive/Program.cs: reading a song
    descriptor, the wait before each note event, and the routing of note
    events to the local and the remote voice.

    A descriptor is a text file. Its first line names the MIDI file,
    relative to the card root; each following line, up to the first blank
    line, is `voice,track[,octave]` and assigns a track of the MIDI file,
    with an octave shift, to one of the two voices. The events the handlers
    receive are the dispatches `MidiFile.Play` delivers; the voices are
    sinks that record the calls made on them. */
module SongPlayback {
  import opened Common
  import opened SongFiles
  import opened MidiTrack
  import MidiPlayer
  import MidiPlayerProofs
  import Remote

  // ---------------------------------------------------------------------
  // Splitting a line at commas

  /** `String.Split(',')`: the pieces between commas, empty ones included;
      a string without commas is one piece. */
  function Split(s: string): (r: seq<string>)
    ensures |r| > 0
    decreases |s|
  {
    if |s| == 0 then [""]
    else
      var rest := Split(s[1..]);
      if s[0] == ',' then [""] + rest else [[s[0]] + rest[0]] + rest[1..]
  }

  /** The pieces joined back with commas between them. */
  function Join(parts: seq<string>): string
    requires |parts| > 0
    decreases |parts|
  {
    if |parts| == 1 then parts[0] else parts[0] + "," + Join(parts[1..])
  }

  predicate NoComma(s: string)
  {
    ',' !in s
  }

  /** Splitting loses nothing: the pieces are comma-free and joining them
      gives back the line. */
  lemma SplitJoin(s: string)
    ensures Join(Split(s)) == s
    ensures forall i :: 0 <= i < |Split(s)| ==> NoComma(Split(s)[i])
  {
    JoinOfSplit(s);
    SplitCommaFree(s);
  }

  lemma {:induction false} JoinOfSplit(s: string)
    ensures Join(Split(s)) == s
    decreases |s|
  {
    if |s| > 0 {
      var rest := Split(s[1..]);
      JoinOfSplit(s[1..]);
      var r := Split(s);
      if s[0] == ',' {
        assert r == [""] + rest;
        assert ("" + "," + Join(rest)) == [s[0]] + s[1..];
      } else {
        assert r == [[s[0]] + rest[0]] + rest[1..];
        if |rest| == 1 {
          assert Join(r) == [s[0]] + rest[0];
        } else {
          assert Join(rest) == rest[0] + "," + Join(rest[1..]);
          assert r[1..] == rest[1..];
          assert Join(r) == [s[0]] + rest[0] + "," + Join(rest[1..]);
        }
      }
      assert [s[0]] + s[1..] == s;
    }
  }

  lemma {:induction false} SplitCommaFree(s: string)
    ensures forall i :: 0 <= i < |Split(s)| ==> NoComma(Split(s)[i])
    decreases |s|
  {
    if |s| > 0 {
      var rest := Split(s[1..]);
      SplitCommaFree(s[1..]);
      var r := Split(s);
      if s[0] == ',' {
        assert r == [""] + rest;
        forall i | 0 < i < |r|
          ensures NoComma(r[i])
        {
          assert r[i] == rest[i - 1];
        }
      } else {
        assert r == [[s[0]] + rest[0]] + rest[1..];
        assert NoComma(rest[0]);
        forall i | 0 < i < |r|
          ensures NoComma(r[i])
        {
          assert r[i] == rest[i];
        }
      }
    }
  }

  /** Pieces without commas come back unchanged from splitting their
      join. */
  lemma {:induction false} JoinSplit(parts: seq<string>)
    requires |parts| > 0
    requires forall i :: 0 <= i < |parts| ==> NoComma(parts[i])
    ensures Split(Join(parts)) == parts
    decreases |parts|, |parts[0]|
  {
    if |parts| == 1 {
      SplitPlain(parts[0]);
    } else {
      var tail := parts[1..];
      assert forall i :: 0 <= i < |tail| ==> NoComma(tail[i]) by {
        forall i | 0 <= i < |tail| ensures NoComma(tail[i]) { assert tail[i] == parts[i + 1]; }
      }
      JoinSplit(tail);
      SplitAfterPiece(parts[0], Join(tail));
      assert [parts[0]] + tail == parts;
    }
  }

  /** A comma-free string is one piece. */
  lemma {:induction false} SplitPlain(s: string)
    requires NoComma(s)
    ensures Split(s) == [s]
    decreases |s|
  {
    if |s| > 0 {
      assert NoComma(s[1..]) by { assert forall c :: c in s[1..] ==> c in s; }
      SplitPlain(s[1..]);
      assert [s[0]] + s[1..] == s;
    }
  }

  /** A comma-free piece followed by a comma is split off the front. */
  lemma {:induction false} SplitAfterPiece(p: string, t: string)
    requires NoComma(p)
    ensures Split(p + "," + t) == [p] + Split(t)
    decreases |p|
  {
    if |p| == 0 {
      assert p + "," + t == [','] + t;
      assert (p + "," + t)[1..] == t;
    } else {
      var s := p + "," + t;
      assert s[1..] == p[1..] + "," + t;
      assert NoComma(p[1..]) by { assert forall c :: c in p[1..] ==> c in p; }
      SplitAfterPiece(p[1..], t);
      assert s[0] == p[0] && s[0] != ',';
      assert [p[0]] + p[1..] == p;
    }
  }

  // ---------------------------------------------------------------------
  // Numbers

  const Int32Min: int := -0x8000_0000
  const Int32Max: int := 0x7FFF_FFFF

  /** `ushort.Parse`: digits whose value fits sixteen bits. */
  function ParseUShort(s: string): (r: Option<u16>)
    ensures r.Some? <==> ParseNat(s).Some? && ParseNat(s).value < U16
    ensures r.Some? ==> r.value == ParseNat(s).value
  {
    var n := ParseNat(s);
    if n.Some? && n.value < U16 then Some(n.value) else None
  }

  /** `int.Parse`: an optional minus sign and digits, within the 32-bit
      signed range. */
  function ParseInt(s: string): (r: Option<int>)
    ensures r.Some? ==> Int32Min <= r.value <= Int32Max
  {
    if |s| > 0 && s[0] == '-' then
      var n := ParseNat(s[1..]);
      if n.Some? && n.value <= -Int32Min then Some(0 - n.value as int) else None
    else
      var n := ParseNat(s);
      if n.Some? && n.value <= Int32Max then Some(n.value) else None
  }

  /** The decimal rendering of a signed number. */
  function ShowInt(i: int): string
  {
    if i < 0 then "-" + Show(-i) else Show(i)
  }

  /** Every 32-bit value survives rendering and parsing. */
  lemma IntRoundTrip(i: int)
    requires Int32Min <= i <= Int32Max
    ensures ParseInt(ShowInt(i)) == Some(i)
  {
    if i < 0 {
      NegativeRoundTrip(i);
    } else {
      ShowParses(i);
      assert IsDigit(Show(i)[0]);
    }
  }

  lemma NegativeRoundTrip(i: int)
    requires Int32Min <= i < 0
    ensures ParseInt(ShowInt(i)) == Some(i)
  {
    var s := ShowInt(i);
    ShowParses(-i);
    assert s[0] == '-' && s[1..] == Show(-i);
  }

  // ---------------------------------------------------------------------
  // The song descriptor

  /** The voices the track table has room for: the local one, 0, and the
      remote one, 1. */
  const VoiceCount: nat := 2

  /** One entry of the track table. */
  datatype SynthInfo = SynthInfo(trackId: u16, octaveModulation: int)

  /** The descriptor after reading: the MIDI file and the two table
      entries, `None` for a voice no line assigned. */
  datatype Descriptor = Descriptor(file: string, trackMap: seq<Option<SynthInfo>>)

  /** One table line, in the order the statement evaluates it: the voice
      is parsed; the track field is indexed and parsed; the octave is
      parsed when present and 0 otherwise; only then is the voice checked
      against the table's two slots. */
  function ParseEntry(line: string): (r: Result<(nat, SynthInfo)>)
    ensures r.Ok? ==> r.value.0 < VoiceCount
    ensures r.Err? ==> r.error == ParseError || r.error == CapacityError
  {
    var e := Split(line);
    var voice := ParseByte(e[0]);
    if voice.None? then Err(ParseError)
    else if |e| < 2 then Err(CapacityError)
    else
      var track := ParseUShort(e[1]);
      if track.None? then Err(ParseError)
      else
        var octave := if |e| > 2 then ParseInt(e[2]) else Some(0);
        if octave.None? then Err(ParseError)
        else if voice.value >= VoiceCount then Err(CapacityError)
        else Ok((voice.value, SynthInfo(track.value, octave.value)))
  }

  /** A table line as an author writes it, with or without the octave
      field. */
  function EntryLine(voice: nat, info: SynthInfo, withOctave: bool): string
  {
    Join([Show(voice), Show(info.trackId)] + (if withOctave then [ShowInt(info.octaveModulation)] else []))
  }

  lemma ShowNoComma(n: nat)
    ensures NoComma(Show(n))
  {
    ShowParses(n);
    assert forall i :: 0 <= i < |Show(n)| ==> Show(n)[i] != ',' by {
      forall i | 0 <= i < |Show(n)| ensures Show(n)[i] != ',' { assert IsDigit(Show(n)[i]); }
    }
  }

  /** Every well-formed line reads back as the entry it was written from;
      a line without the octave field gives octave 0. */
  lemma EntryRoundTrip(voice: nat, info: SynthInfo, withOctave: bool)
    requires voice < VoiceCount
    requires Int32Min <= info.octaveModulation <= Int32Max
    requires !withOctave ==> info.octaveModulation == 0
    ensures ParseEntry(EntryLine(voice, info, withOctave)) == Ok((voice, info))
  {
    var parts := [Show(voice), Show(info.trackId)] + (if withOctave then [ShowInt(info.octaveModulation)] else []);
    ShowNoComma(voice);
    ShowNoComma(info.trackId);
    if withOctave {
      var m := info.octaveModulation;
      ShowNoComma(if m < 0 then -m else m);
      assert NoComma(ShowInt(m)) by {
        if m < 0 {
          assert forall c :: c in ShowInt(m) ==> c == '-' || c in Show(-m);
        }
      }
      IntRoundTrip(m);
    }
    assert forall i :: 0 <= i < |parts| ==> NoComma(parts[i]);
    JoinSplit(parts);
    ShowParses(voice);
    ShowParses(info.trackId);
  }

  /** The order of evaluation decides the exception: a voice out of
      range is noticed only after the track field parses, and a line
      without a track field faults on the index. */
  lemma EntryErrors()
    ensures ParseEntry("2,5") == Err(CapacityError)
    ensures ParseEntry("2,x") == Err(ParseError)
    ensures ParseEntry("0") == Err(CapacityError)
  {
    DigitParses('2');
    DigitParses('5');
    DigitParses('0');
    assert ParseNat("x") == None by { assert !IsDigit("x"[0]); }
    SplitTwo("2", "5");
    SplitTwo("2", "x");
    SplitPlain("0");
  }

  lemma DigitParses(c: char)
    requires IsDigit(c)
    ensures ParseNat([c]) == Some(c as int - '0' as int)
  {
    var s := [c];
    assert AllDigits(s);
    assert s[..0] == [];
    assert DigitsValue(s) == DigitsValue(s[..0]) * 10 + (c as int - '0' as int);
  }

  lemma SplitTwo(a: string, b: string)
    requires NoComma(a) && NoComma(b)
    ensures Split(a + "," + b) == [a, b]
  {
    SplitAfterPiece(a, b);
    SplitPlain(b);
  }

  /** The table lines after the first, up to a blank line or the end of
      the file; each entry overwrites its voice's slot. */
  function ReadEntries(lines: seq<string>, table: seq<Option<SynthInfo>>): (r: Result<seq<Option<SynthInfo>>>)
    requires |table| == VoiceCount
    ensures r.Ok? ==> |r.value| == VoiceCount
    decreases |lines|
  {
    if |lines| == 0 || |lines[0]| == 0 then Ok(table)
    else
      match ParseEntry(lines[0])
      case Err(e) => Err(e)
      case Ok(entry) => ReadEntries(lines[1..], table[entry.0 := Some(entry.1)])
  }

  /** The descriptor: an empty file has no first line, and `Path.Combine`
      refuses the null it reads instead. */
  function ReadDescriptor(root: string, lines: seq<string>): (r: Result<Descriptor>)
    ensures |lines| == 0 ==> r == Err(ArgumentError)
    ensures r.Ok? ==> r.value.file == Combine(root, lines[0]) && |r.value.trackMap| == VoiceCount
  {
    if |lines| == 0 then Err(ArgumentError)
    else
      match ReadEntries(lines[1..], [None, None])
      case Err(e) => Err(e)
      case Ok(table) => Ok(Descriptor(Combine(root, lines[0]), table))
  }

  predicate NoBlank(lines: seq<string>)
  {
    forall i :: 0 <= i < |lines| ==> |lines[i]| > 0
  }

  /** A blank line ends the table: nothing after it is read, not even a
      line that would not parse. */
  lemma {:induction false} BlankEnds(a: seq<string>, b: seq<string>, table: seq<Option<SynthInfo>>)
    requires |table| == VoiceCount && NoBlank(a)
    ensures ReadEntries(a + [""] + b, table) == ReadEntries(a, table)
    decreases |a|
  {
    var s := a + [""] + b;
    if |a| == 0 {
      assert s[0] == "";
    } else {
      assert s[0] == a[0] && s[1..] == a[1..] + [""] + b;
      assert NoBlank(a[1..]) by {
        forall i | 0 <= i < |a| - 1 ensures |a[1..][i]| > 0 { assert a[1..][i] == a[i + 1]; }
      }
      assert |a[0]| > 0;
      var e := ParseEntry(a[0]);
      if e.Ok? {
        BlankEnds(a[1..], b, table[e.value.0 := Some(e.value.1)]);
      }
    }
  }

  /** Reading fails exactly when one of the lines does not parse. */
  lemma {:induction false} ReadEntriesFails(lines: seq<string>, table: seq<Option<SynthInfo>>)
    requires |table| == VoiceCount && NoBlank(lines)
    ensures ReadEntries(lines, table).Err? <==> exists i :: 0 <= i < |lines| && ParseEntry(lines[i]).Err?
    decreases |lines|
  {
    if |lines| > 0 {
      assert |lines[0]| > 0;
      assert NoBlank(lines[1..]) by {
        forall i | 0 <= i < |lines| - 1 ensures |lines[1..][i]| > 0 { assert lines[1..][i] == lines[i + 1]; }
      }
      var e := ParseEntry(lines[0]);
      if e.Ok? {
        ReadEntriesFails(lines[1..], table[e.value.0 := Some(e.value.1)]);
        if exists i :: 0 <= i < |lines| && ParseEntry(lines[i]).Err? {
          var i :| 0 <= i < |lines| && ParseEntry(lines[i]).Err?;
          assert i > 0 && lines[1..][i - 1] == lines[i];
        }
        if exists j :: 0 <= j < |lines| - 1 && ParseEntry(lines[1..][j]).Err? {
          var j :| 0 <= j < |lines| - 1 && ParseEntry(lines[1..][j]).Err?;
          assert lines[1..][j] == lines[j + 1];
        }
      }
    }
  }

  /** The reference reading of one slot: the entry of the last line that
      names the voice, found scanning backwards, or the slot's earlier
      value when no line names it. */
  function LastFor(lines: seq<string>, voice: nat, prior: Option<SynthInfo>): Option<SynthInfo>
    decreases |lines|
  {
    if |lines| == 0 then prior
    else
      var e := ParseEntry(lines[|lines| - 1]);
      if e.Ok? && e.value.0 == voice then Some(e.value.1)
      else LastFor(lines[..|lines| - 1], voice, prior)
  }

  lemma {:induction false} LastForAppend(a: seq<string>, b: seq<string>, voice: nat, prior: Option<SynthInfo>)
    ensures LastFor(a + b, voice, prior) == LastFor(b, voice, LastFor(a, voice, prior))
    decreases |b|
  {
    if |b| == 0 {
      assert a + b == a;
    } else {
      var s := a + b;
      assert s[|s| - 1] == b[|b| - 1];
      assert s[..|s| - 1] == a + b[..|b| - 1];
      LastForAppend(a, b[..|b| - 1], voice, prior);
    }
  }

  /** The last line for a voice wins: every slot of the table read is
      what the backward scan finds. */
  lemma {:induction false} LastWins(lines: seq<string>, table: seq<Option<SynthInfo>>)
    requires |table| == VoiceCount && NoBlank(lines)
    requires ReadEntries(lines, table).Ok?
    ensures forall v :: 0 <= v < VoiceCount ==> ReadEntries(lines, table).value[v] == LastFor(lines, v, table[v])
    decreases |lines|
  {
    if |lines| > 0 {
      assert |lines[0]| > 0;
      assert NoBlank(lines[1..]) by {
        forall i | 0 <= i < |lines| - 1 ensures |lines[1..][i]| > 0 { assert lines[1..][i] == lines[i + 1]; }
      }
      var e := ParseEntry(lines[0]).value;
      var t1 := table[e.0 := Some(e.1)];
      LastWins(lines[1..], t1);
      forall v | 0 <= v < VoiceCount
        ensures ReadEntries(lines, table).value[v] == LastFor(lines, v, table[v])
      {
        LastForAppend([lines[0]], lines[1..], v, table[v]);
        assert [lines[0]] + lines[1..] == lines;
        assert LastFor([lines[0]], v, table[v]) == t1[v] by {
          assert [lines[0]][..0] == [];
        }
      }
    }
  }

  /** The table lines a descriptor has: those before the first blank
      line. */
  function Body(lines: seq<string>): (r: seq<string>)
    ensures NoBlank(r) && |r| <= |lines| && r == lines[..|r|]
    ensures |r| < |lines| ==> lines[|r|] == ""
    decreases |lines|
  {
    if |lines| == 0 || |lines[0]| == 0 then []
    else
      var rest := Body(lines[1..]);
      [lines[0]] + rest
  }

  /** Reading stops at the first blank line. */
  lemma ReadsBody(lines: seq<string>, table: seq<Option<SynthInfo>>)
    requires |table| == VoiceCount
    ensures ReadEntries(lines, table) == ReadEntries(Body(lines), table)
  {
    var b := Body(lines);
    if |b| < |lines| {
      assert lines == b + [""] + lines[|b| + 1..];
      BlankEnds(b, lines[|b| + 1..], table);
    } else {
      assert lines == b;
    }
  }

  /** A descriptor read in full: it fails exactly when a table line does
      not parse, and otherwise each voice's entry is that of the last
      table line naming it, or null when none does. */
  lemma DescriptorTable(root: string, lines: seq<string>)
    requires |lines| > 0
    ensures var body := Body(lines[1..]);
      && (ReadDescriptor(root, lines).Err? <==> exists i :: 0 <= i < |body| && ParseEntry(body[i]).Err?)
      && (ReadDescriptor(root, lines).Ok? ==>
            forall v :: 0 <= v < VoiceCount ==> ReadDescriptor(root, lines).value.trackMap[v] == LastFor(body, v, None))
  {
    var body := Body(lines[1..]);
    ReadsBody(lines[1..], [None, None]);
    ReadEntriesFails(body, [None, None]);
    if ReadEntries(body, [None, None]).Ok? {
      LastWins(body, [None, None]);
    }
  }

  // ---------------------------------------------------------------------
  // The wait before a note event

  /** `TimeSpan.TicksPerMillisecond`: a tick is 100 ns. */
  const TicksPerMs: nat := 10000

  /** `evt.Time - lastTime` in unsigned 32-bit arithmetic. */
  function Elapsed(time: u32, last: u32): (r: u32)
    ensures time >= last ==> r == time - last
    ensures time < last ==> r == time - last + U32
  {
    (time - last) % U32
  }

  /** The wait in 100 ns ticks as the handlers compute it: the elapsed
      MIDI ticks times the tempo is a `uint` product, so it wraps before it
      is widened to `long` for the rest of the formula. */
  function WaitTicksAsWritten(time: u32, last: u32, tempo: u32, tpb: u16): (r: Result<nat>)
    ensures r.Err? <==> tpb == 0
    ensures r.Err? ==> r.error == DivideByZero
  {
    if tpb == 0 then Err(DivideByZero)
    else Ok((Elapsed(time, last) * tempo) % U32 * TicksPerMs / 1000 / tpb)
  }

  /** The wait in ticks with the product formed without wrap-around: the
      elapsed time in microseconds, `Elapsed * tempo / tpb`, counted in
      tenths of a microsecond. */
  function WaitTicks(time: u32, last: u32, tempo: u32, tpb: u16): (r: Result<nat>)
    ensures r.Err? <==> tpb == 0
    ensures r.Err? ==> r.error == DivideByZero
    ensures r.Ok? ==> r.value * tpb <= Elapsed(time, last) * tempo * 10 < (r.value + 1) * tpb
  {
    if tpb == 0 then Err(DivideByZero)
    else
      var p := Elapsed(time, last) * tempo;
      assert p * TicksPerMs / 1000 == p * 10 by {
        assert p * TicksPerMs == (p * 10) * 1000;
      }
      Ok(p * TicksPerMs / 1000 / tpb)
  }

  /** `(int)(timeToWait.Ticks / TimeSpan.TicksPerMillisecond)`: whole
      milliseconds. */
  function Millis(ticks: nat): nat
  {
    ticks / TicksPerMs
  }

  /** The sleep before a note event: the whole milliseconds of the
      microseconds that `Elapsed` MIDI ticks last at `tempo` microseconds
      per beat and `tpb` ticks per beat. */
  function WaitMs(time: u32, last: u32, tempo: u32, tpb: u16): (r: Result<nat>)
    ensures r.Err? <==> tpb == 0
    ensures r.Ok? ==> r.value * 1000 * tpb <= Elapsed(time, last) * tempo < (r.value + 1) * 1000 * tpb
  {
    var t := WaitTicks(time, last, tempo, tpb);
    if t.Err? then Err(t.error)
    else
      var ms := Millis(t.value);
      MillisBounds(t.value, ms, tpb, Elapsed(time, last) * tempo);
      Ok(ms)
  }

  /** The sleep the handlers make before a note event: the whole
      milliseconds of `WaitTicksAsWritten`. It is the wait of the wrapped
      product, so it is never longer than the intended `WaitMs`. */
  function SleepMs(time: u32, last: u32, tempo: u32, tpb: u16): (r: Result<nat>)
    ensures r.Err? <==> tpb == 0
    ensures r.Err? ==> r.error == DivideByZero
    ensures r.Ok? ==> r.value * 1000 * tpb <= (Elapsed(time, last) * tempo) % U32 < (r.value + 1) * 1000 * tpb
    ensures r.Ok? ==> r.value <= WaitMs(time, last, tempo, tpb).value
  {
    var t := WaitTicksAsWritten(time, last, tempo, tpb);
    if t.Err? then Err(t.error)
    else
      var p := Elapsed(time, last) * tempo;
      var pw := p % U32;
      assert pw * TicksPerMs / 1000 == pw * 10 by {
        assert pw * TicksPerMs == (pw * 10) * 1000;
      }
      assert t.value == pw * 10 / tpb;
      var ms := Millis(t.value);
      MillisBounds(t.value, ms, tpb, pw);
      NoLonger(ms, WaitMs(time, last, tempo, tpb).value, tpb, pw, p);
      Ok(ms)
  }

  /** A wait computed from a smaller product is no longer. */
  lemma NoLonger(ms: nat, wm: nat, tpb: nat, pw: nat, p: nat)
    requires tpb > 0 && pw <= p
    requires ms * 1000 * tpb <= pw && p < (wm + 1) * 1000 * tpb
    ensures ms <= wm
  {
  }

  lemma MillisBounds(ticks: nat, ms: nat, tpb: nat, p: nat)
    requires ms == ticks / TicksPerMs && tpb > 0
    requires ticks * tpb <= p * 10 < (ticks + 1) * tpb
    ensures ms * 1000 * tpb <= p < (ms + 1) * 1000 * tpb
  {
    assert ms * TicksPerMs <= ticks < ms * TicksPerMs + TicksPerMs;
    assert ms * TicksPerMs * tpb <= ticks * tpb by {
      MulLe(ms * TicksPerMs, ticks, tpb);
    }
    assert (ticks + 1) * tpb <= (ms * TicksPerMs + TicksPerMs) * tpb by {
      MulLe(ticks + 1, ms * TicksPerMs + TicksPerMs, tpb);
    }
    assert (ms * TicksPerMs + TicksPerMs) * tpb == (ms + 1) * 1000 * tpb * 10;
    assert ms * TicksPerMs * tpb == ms * 1000 * tpb * 10;
  }

  lemma MulLe(a: nat, b: nat, c: nat)
    requires a <= b
    ensures a * c <= b * c
  {
  }

  /** Without wrap-around the handlers' formula is the intended one, and
      so is their sleep. */
  lemma WaitAgreesWithoutWrap(time: u32, last: u32, tempo: u32, tpb: u16)
    requires Elapsed(time, last) * tempo < U32
    ensures WaitTicksAsWritten(time, last, tempo, tpb) == WaitTicks(time, last, tempo, tpb)
    ensures SleepMs(time, last, tempo, tpb) == WaitMs(time, last, tempo, tpb)
  {
    var p := Elapsed(time, last) * tempo;
    assert p % U32 == p;
    if tpb > 0 {
      assert WaitTicksAsWritten(time, last, tempo, tpb) == Ok(p * TicksPerMs / 1000 / tpb);
      assert WaitTicks(time, last, tempo, tpb) == Ok(p * TicksPerMs / 1000 / tpb);
    }
  }

  /** Half a beat at 480 ticks per beat and 120 beats a minute is a
      quarter of a second; a note at the time of the previous one does not
      wait. */
  lemma WaitExamples(t: u32)
    ensures WaitTicks(240, 0, 500000, 480) == Ok(2500000)
    ensures WaitMs(240, 0, 500000, 480) == Ok(250)
    ensures WaitTicksAsWritten(240, 0, 500000, 480) == Ok(2500000)
    ensures SleepMs(240, 0, 500000, 480) == Ok(250)
    ensures WaitMs(t, t, 500000, 480) == Ok(0)
  {
    assert Elapsed(240, 0) * 500000 == 120000000;
    assert 120000000 * TicksPerMs / 1000 / 480 == 2500000;
  }

  /** A gap of 9000 ticks at tempo 500000 (18.75 beats at 480 ticks per
      beat, 9.375 seconds) overflows the `uint` product: the handlers wait
      427 ms instead of 9375 ms. */
  lemma WaitWrapShortens()
    ensures WaitTicksAsWritten(9000, 0, 500000, 480) == Ok(4271514)
    ensures Millis(4271514) == 427
    ensures SleepMs(9000, 0, 500000, 480) == Ok(427)
    ensures WaitTicks(9000, 0, 500000, 480) == Ok(93750000)
    ensures WaitMs(9000, 0, 500000, 480) == Ok(9375)
  {
    assert Elapsed(9000, 0) * 500000 == 4500000000;
    assert 4500000000 % U32 == 205032704;
    assert 205032704 * TicksPerMs / 1000 / 480 == 4271514;
    assert 4500000000 * TicksPerMs / 1000 / 480 == 93750000;
  }

  // ---------------------------------------------------------------------
  // The note handlers

  datatype VoiceId = LocalVoice | RemoteVoice

  /** What a handler does: sleep, or call a voice. Both voices take the
      calls of `IFloppySynth`, which are those of the remote voice's
      frames. */
  datatype Action = Sleep(ms: nat) | Invoke(voice: VoiceId, call: Remote.Call)

  /** The voice call for a note event. */
  function NoteCall(d: MidiPlayer.Dispatch): Remote.Call
  {
    if d.kind == NoteOn then Remote.PlayNote(d.note) else Remote.StopNote
  }

  /** The state the two handlers share: `lastTime` and what they did. */
  datatype Handlers = Handlers(lastTime: u32, actions: seq<Action>)

  /** One NoteOn or NoteOff handler call: sleep, remember the event's
      time, then play or stop the note on the remote voice if the event's
      track is the remote one, and on the local voice if it is the local
      one. */
  function Handle(h: Handlers, local: SynthInfo, remote: SynthInfo, d: MidiPlayer.Dispatch, tpb: u16): (r: Result<Handlers>)
    ensures r.Err? <==> tpb == 0
    ensures r.Ok? ==> r.value.lastTime == d.time
  {
    match SleepMs(d.time, h.lastTime, d.tempo, tpb)
    case Err(e) => Err(e)
    case Ok(ms) => Ok(Handlers(d.time, h.actions + [Sleep(ms)] + Routing(local, remote, d)))
  }

  /** The note calls one event makes: the remote voice first, then the
      local one. */
  function Routing(local: SynthInfo, remote: SynthInfo, d: MidiPlayer.Dispatch): (r: seq<Action>)
    ensures |r| <= 2
    ensures forall a :: a in r ==> a == Invoke(RemoteVoice, NoteCall(d)) || a == Invoke(LocalVoice, NoteCall(d))
    ensures Invoke(RemoteVoice, NoteCall(d)) in r <==> d.trackId == remote.trackId
    ensures Invoke(LocalVoice, NoteCall(d)) in r <==> d.trackId == local.trackId
    ensures |r| == 2 ==> r[0] == Invoke(RemoteVoice, NoteCall(d))
  {
    (if d.trackId == remote.trackId then [Invoke(RemoteVoice, NoteCall(d))] else [])
    + (if d.trackId == local.trackId then [Invoke(LocalVoice, NoteCall(d))] else [])
  }

  /** The handlers over every event `Play` delivers, in order. */
  function HandleAll(h: Handlers, local: SynthInfo, remote: SynthInfo, trace: seq<MidiPlayer.Dispatch>, tpb: u16): (r: Result<Handlers>)
    ensures r.Err? <==> tpb == 0 && |trace| > 0
    ensures r.Err? ==> r.error == DivideByZero
    ensures r.Ok? ==> h.actions <= r.value.actions
    ensures r.Ok? ==> r.value.lastTime == if |trace| == 0 then h.lastTime else trace[|trace| - 1].time
    decreases |trace|
  {
    if |trace| == 0 then Ok(h)
    else
      match Handle(h, local, remote, trace[0], tpb)
      case Err(e) => Err(e)
      case Ok(h1) => HandleAll(h1, local, remote, trace[1..], tpb)
  }

  /** The calls made on one voice, in order. */
  function CallsTo(actions: seq<Action>, v: VoiceId): seq<Remote.Call>
    decreases |actions|
  {
    if |actions| == 0 then []
    else
      var rest := CallsTo(actions[1..], v);
      if actions[0].Invoke? && actions[0].voice == v then [actions[0].call] + rest else rest
  }

  /** The sleeps, in order. */
  function Sleeps(actions: seq<Action>): seq<nat>
    decreases |actions|
  {
    if |actions| == 0 then []
    else
      var rest := Sleeps(actions[1..]);
      if actions[0].Sleep? then [actions[0].ms] + rest else rest
  }

  /** The reference routing: the note calls of the events of one track. */
  function Routed(trace: seq<MidiPlayer.Dispatch>, trackId: u16): seq<Remote.Call>
    decreases |trace|
  {
    if |trace| == 0 then []
    else (if trace[0].trackId == trackId then [NoteCall(trace[0])] else []) + Routed(trace[1..], trackId)
  }

  lemma {:induction false} CallsToAppend(a: seq<Action>, b: seq<Action>, v: VoiceId)
    ensures CallsTo(a + b, v) == CallsTo(a, v) + CallsTo(b, v)
    decreases |a|
  {
    if |a| == 0 {
      assert a + b == b;
    } else {
      assert (a + b)[1..] == a[1..] + b;
      CallsToAppend(a[1..], b, v);
    }
  }

  lemma {:induction false} SleepsAppend(a: seq<Action>, b: seq<Action>)
    ensures Sleeps(a + b) == Sleeps(a) + Sleeps(b)
    decreases |a|
  {
    if |a| == 0 {
      assert a + b == b;
    } else {
      assert (a + b)[1..] == a[1..] + b;
      SleepsAppend(a[1..], b);
    }
  }

  /** The time the wait before event `i` is measured from: the previous
      event's, or the starting `lastTime` for the first. */
  function Before(last: u32, trace: seq<MidiPlayer.Dispatch>, i: nat): u32
    requires i < |trace|
  {
    if i == 0 then last else trace[i - 1].time
  }

  /** The track a voice plays. */
  function TrackOf(v: VoiceId, local: SynthInfo, remote: SynthInfo): u16
  {
    if v == LocalVoice then local.trackId else remote.trackId
  }

  /** What one handler call adds: one sleep, and the note call to each
      voice whose track the event belongs to. */
  lemma HandleAdds(h: Handlers, local: SynthInfo, remote: SynthInfo, d: MidiPlayer.Dispatch, tpb: u16, v: VoiceId)
    requires tpb > 0
    ensures var r := Handle(h, local, remote, d, tpb).value;
      && Sleeps(r.actions) == Sleeps(h.actions) + [SleepMs(d.time, h.lastTime, d.tempo, tpb).value]
      && CallsTo(r.actions, v) == CallsTo(h.actions, v) + Routed([d], TrackOf(v, local, remote))
  {
    var ms := SleepMs(d.time, h.lastTime, d.tempo, tpb).value;
    var added := [Sleep(ms)] + Routing(local, remote, d);
    assert Handle(h, local, remote, d, tpb).value.actions == h.actions + added;
    assert added[1..] == Routing(local, remote, d);
    SleepsAppend(h.actions, added);
    RoutingSleepsNot(local, remote, d);
    CallsToAppend(h.actions, added, v);
    RoutingCalls(local, remote, d, v);
  }

  /** The routing makes no sleep. */
  lemma RoutingSleepsNot(local: SynthInfo, remote: SynthInfo, d: MidiPlayer.Dispatch)
    ensures Sleeps(Routing(local, remote, d)) == []
  {
    var toRemote := if d.trackId == remote.trackId then [Invoke(RemoteVoice, NoteCall(d))] else [];
    var toLocal := if d.trackId == local.trackId then [Invoke(LocalVoice, NoteCall(d))] else [];
    SleepsAppend(toRemote, toLocal);
  }

  /** The routing calls a voice exactly when the event is on its track. */
  lemma RoutingCalls(local: SynthInfo, remote: SynthInfo, d: MidiPlayer.Dispatch, v: VoiceId)
    ensures CallsTo(Routing(local, remote, d), v) == Routed([d], TrackOf(v, local, remote))
  {
    var toRemote := if d.trackId == remote.trackId then [Invoke(RemoteVoice, NoteCall(d))] else [];
    var toLocal := if d.trackId == local.trackId then [Invoke(LocalVoice, NoteCall(d))] else [];
    CallsToAppend(toRemote, toLocal, v);
    assert Routed([d], TrackOf(v, local, remote))
        == (if d.trackId == TrackOf(v, local, remote) then [NoteCall(d)] else []);
  }

  /** The handlers fail exactly when there is an event to wait for and
      the file has zero ticks per beat. */
  lemma {:induction false} HandleAllFails(h: Handlers, local: SynthInfo, remote: SynthInfo, trace: seq<MidiPlayer.Dispatch>, tpb: u16)
    ensures HandleAll(h, local, remote, trace, tpb).Err? <==> tpb == 0 && |trace| > 0
    ensures HandleAll(h, local, remote, trace, tpb).Err? ==> HandleAll(h, local, remote, trace, tpb).error == DivideByZero
    decreases |trace|
  {
    if |trace| > 0 && tpb > 0 {
      HandleAllFails(Handle(h, local, remote, trace[0], tpb).value, local, remote, trace[1..], tpb);
    }
  }

  /** `lastTime` ends at the time of the last event handled. */
  lemma {:induction false} HandleAllLast(h: Handlers, local: SynthInfo, remote: SynthInfo, trace: seq<MidiPlayer.Dispatch>, tpb: u16)
    requires tpb > 0
    ensures var r := HandleAll(h, local, remote, trace, tpb);
      && r.Ok?
      && r.value.lastTime == (if |trace| == 0 then h.lastTime else trace[|trace| - 1].time)
    decreases |trace|
  {
    if |trace| > 0 {
      HandleAllLast(Handle(h, local, remote, trace[0], tpb).value, local, remote, trace[1..], tpb);
    }
  }

  /** Each voice receives the note calls of exactly the events of its
      track, in delivery order. */
  lemma {:induction false} HandleAllRoutes(h: Handlers, local: SynthInfo, remote: SynthInfo, trace: seq<MidiPlayer.Dispatch>, tpb: u16, v: VoiceId)
    requires tpb > 0
    ensures var r := HandleAll(h, local, remote, trace, tpb);
      && r.Ok?
      && CallsTo(r.value.actions, v) == CallsTo(h.actions, v) + Routed(trace, TrackOf(v, local, remote))
    decreases |trace|
  {
    if |trace| > 0 {
      var h1 := Handle(h, local, remote, trace[0], tpb).value;
      HandleAdds(h, local, remote, trace[0], tpb, v);
      HandleAllRoutes(h1, local, remote, trace[1..], tpb, v);
      var r := HandleAll(h1, local, remote, trace[1..], tpb);
      assert HandleAll(h, local, remote, trace, tpb) == r;
      var id := TrackOf(v, local, remote);
      assert Routed(trace, id) == Routed([trace[0]], id) + Routed(trace[1..], id);
    }
  }

  /** The handlers sleep once per event, and the sleep before each event
      is the wait from the event before it (from the starting `lastTime`
      for the first): delays are measured between consecutive note events
      only. */
  lemma {:induction false} HandleAllWaits(h: Handlers, local: SynthInfo, remote: SynthInfo, trace: seq<MidiPlayer.Dispatch>, tpb: u16)
    requires tpb > 0
    ensures var r := HandleAll(h, local, remote, trace, tpb);
      && r.Ok?
      && Waits(Sleeps(h.actions), Sleeps(r.value.actions), h.lastTime, trace, tpb)
    decreases |trace|
  {
    if |trace| > 0 {
      var h1 := Handle(h, local, remote, trace[0], tpb).value;
      HandleAdds(h, local, remote, trace[0], tpb, LocalVoice);
      HandleAllWaits(h1, local, remote, trace[1..], tpb);
      var r := HandleAll(h1, local, remote, trace[1..], tpb);
      assert HandleAll(h, local, remote, trace, tpb) == r;
      WaitsStep(Sleeps(h.actions), Sleeps(r.value.actions), h.lastTime, trace, tpb);
    }
  }

  /** The sleeps `s` start with the sleeps `prior` and then hold one sleep
      per event of `trace`, each the wait from the event before it (from
      `last` for the first). */
  predicate Waits(prior: seq<nat>, s: seq<nat>, last: u32, trace: seq<MidiPlayer.Dispatch>, tpb: u16)
    requires tpb > 0
  {
    && |s| == |prior| + |trace|
    && s[..|prior|] == prior
    && forall i :: 0 <= i < |trace| ==>
         s[|prior| + i] == SleepMs(trace[i].time, Before(last, trace, i), trace[i].tempo, tpb).value
  }

  /** One event of `HandleAllWaits`. */
  lemma WaitsStep(prior: seq<nat>, s: seq<nat>, last: u32, trace: seq<MidiPlayer.Dispatch>, tpb: u16)
    requires tpb > 0 && |trace| > 0
    requires Waits(prior + [SleepMs(trace[0].time, last, trace[0].tempo, tpb).value], s, trace[0].time, trace[1..], tpb)
    ensures Waits(prior, s, last, trace, tpb)
  {
    var n := |prior|;
    var ms := SleepMs(trace[0].time, last, trace[0].tempo, tpb).value;
    assert s[..n + 1] == prior + [ms];
    assert s[..n] == prior by {
      assert s[..n] == s[..n + 1][..n];
    }
    forall i | 0 <= i < |trace|
      ensures s[n + i] == SleepMs(trace[i].time, Before(last, trace, i), trace[i].tempo, tpb).value
    {
      if i == 0 {
        assert s[n] == s[..n + 1][n];
      } else {
        assert trace[1..][i - 1] == trace[i];
        assert Before(trace[0].time, trace[1..], i - 1) == Before(last, trace, i);
      }
    }
  }

  function Total(s: seq<nat>): nat
    decreases |s|
  {
    if |s| == 0 then 0 else s[0] + Total(s[1..])
  }

  lemma {:induction false} TotalAppend(a: seq<nat>, b: seq<nat>)
    ensures Total(a + b) == Total(a) + Total(b)
    decreases |a|
  {
    if |a| == 0 {
      assert a + b == b;
    } else {
      assert (a + b)[1..] == a[1..] + b;
      TotalAppend(a[1..], b);
    }
  }

  /** The sleeps added between handler states `h` and `r` come to no
      more, in milliseconds, than the ticks from `h`'s last event to `last`
      at the given tempo. */
  predicate SpanBound(h: Handlers, r: Handlers, last: int, tpb: u16, tempo: u32)
  {
    Total(Sleeps(r.actions)) * 1000 * tpb <= Total(Sleeps(h.actions)) * 1000 * tpb + (last - h.lastTime) * tempo
  }

  /** At a steady tempo, over events in time order, the handlers never
      sleep longer in all than the events span: every wait rounds down, and
      the waits add up the gaps between consecutive events. */
  lemma {:induction false} SleepWithinSpan(h: Handlers, local: SynthInfo, remote: SynthInfo, trace: seq<MidiPlayer.Dispatch>, tpb: u16, tempo: u32)
    requires tpb > 0
    requires MidiPlayerProofs.Chronological(trace)
    requires |trace| > 0 ==> h.lastTime <= trace[0].time
    requires forall i :: 0 <= i < |trace| ==> trace[i].tempo == tempo
    ensures var r := HandleAll(h, local, remote, trace, tpb);
      var last := if |trace| == 0 then h.lastTime else trace[|trace| - 1].time;
      r.Ok? && SpanBound(h, r.value, last, tpb, tempo)
    decreases |trace|
  {
    if |trace| > 0 {
      var d := trace[0];
      var h1 := Handle(h, local, remote, d, tpb).value;
      var rest := trace[1..];
      ChronologicalTail(trace);
      SleepWithinSpan(h1, local, remote, rest, tpb, tempo);
      var r := HandleAll(h1, local, remote, rest, tpb);
      assert HandleAll(h, local, remote, trace, tpb) == r;
      var last := trace[|trace| - 1].time;
      assert (if |rest| == 0 then h1.lastTime else rest[|rest| - 1].time) == last;
      SleepStep(h, local, remote, d, tpb, tempo, r.value, last);
    } else {
      assert HandleAll(h, local, remote, trace, tpb) == Ok(h);
    }
  }

  /** One handler call within `SleepWithinSpan`. */
  lemma SleepStep(h: Handlers, local: SynthInfo, remote: SynthInfo, d: MidiPlayer.Dispatch, tpb: u16, tempo: u32, r: Handlers, last: u32)
    requires tpb > 0 && d.tempo == tempo && h.lastTime <= d.time <= last
    requires SpanBound(Handle(h, local, remote, d, tpb).value, r, last, tpb, tempo)
    ensures SpanBound(h, r, last, tpb, tempo)
  {
    var ms := SleepMs(d.time, h.lastTime, d.tempo, tpb).value;
    var p := Elapsed(d.time, h.lastTime) * tempo;
    assert p % U32 <= p;
    HandleAdds(h, local, remote, d, tpb, LocalVoice);
    TotalAppend(Sleeps(h.actions), [ms]);
    assert Total([ms]) == ms;
    var s0 := Total(Sleeps(h.actions));
    assert Total(Sleeps(Handle(h, local, remote, d, tpb).value.actions)) == s0 + ms;
    assert Elapsed(d.time, h.lastTime) == d.time - h.lastTime;
    SpanStep(s0, ms, Total(Sleeps(r.actions)), tpb, h.lastTime, d.time, last, tempo);
  }

  lemma ChronologicalTail(trace: seq<MidiPlayer.Dispatch>)
    requires |trace| > 0 && MidiPlayerProofs.Chronological(trace)
    ensures MidiPlayerProofs.Chronological(trace[1..])
    ensures trace[0].time <= trace[|trace| - 1].time
    ensures |trace| > 1 ==> trace[0].time <= trace[1..][0].time
  {
    var rest := trace[1..];
    forall j, k | 0 <= j < k < |rest| ensures rest[j].time <= rest[k].time {
      assert rest[j] == trace[j + 1] && rest[k] == trace[k + 1];
    }
  }

  /** The arithmetic of one step of `SleepWithinSpan`. */
  lemma SpanStep(s0: nat, ms: nat, total: nat, tpb: nat, a: nat, b: nat, c: nat, tempo: nat)
    requires a <= b <= c
    requires ms * 1000 * tpb <= (b - a) * tempo
    requires total * 1000 * tpb <= (s0 + ms) * 1000 * tpb + (c - b) * tempo
    ensures total * 1000 * tpb <= s0 * 1000 * tpb + (c - a) * tempo
  {
    assert (s0 + ms) * 1000 * tpb == s0 * 1000 * tpb + ms * 1000 * tpb;
    assert (b - a) * tempo + (c - b) * tempo == (c - a) * tempo;
  }

  // ---------------------------------------------------------------------
  // A playback session

  /** How the playback thread ends: what it did, and the exception that
      ended it, if any. */
  datatype Outcome = Outcome(actions: seq<Action>, fault: Option<Error>)

  /** The playback thread after the descriptor is read and the MIDI file
      loaded: the two modulations are set and the voices enabled (a table
      slot no line assigned is a null reference here), `Play` delivers
      `trace` to the handlers, and the voices are disabled at the end. A
      handler's exception ends the thread with the voices left enabled. */
  function Session(table: seq<Option<SynthInfo>>, trace: seq<MidiPlayer.Dispatch>, tpb: u16): (r: Outcome)
    requires |table| == VoiceCount
    ensures r.fault.Some? ==> r.fault.value in {NullReference, DivideByZero}
    ensures r.fault == Some(NullReference) ==> |r.actions| <= 1
    ensures r.fault.None? ==>
              && |r.actions| >= 6
              && r.actions[|r.actions| - 2..] == [Invoke(LocalVoice, Remote.DisableVoice), Invoke(RemoteVoice, Remote.DisableVoice)]
  {
    if table[0].None? then Outcome([], Some(NullReference))
    else
      var setLocal := [Invoke(LocalVoice, Remote.SetOctaveModulation(table[0].value.octaveModulation))];
      if table[1].None? then Outcome(setLocal, Some(NullReference))
      else
        var start := setLocal + [Invoke(RemoteVoice, Remote.SetOctaveModulation(table[1].value.octaveModulation)),
                                 Invoke(LocalVoice, Remote.EnableVoice), Invoke(RemoteVoice, Remote.EnableVoice)];
        match HandleAll(Handlers(0, []), table[0].value, table[1].value, trace, tpb)
        case Err(e) => Outcome(start, Some(e))
        case Ok(h) =>
          Outcome(start + h.actions + [Invoke(LocalVoice, Remote.DisableVoice), Invoke(RemoteVoice, Remote.DisableVoice)], None)
  }

  /** The session fails with a null reference exactly when a voice has no
      table entry, and otherwise with a division by zero exactly when there
      is a note event and the file has zero ticks per beat. */
  lemma SessionFaults(table: seq<Option<SynthInfo>>, trace: seq<MidiPlayer.Dispatch>, tpb: u16)
    requires |table| == VoiceCount
    ensures Session(table, trace, tpb).fault == Some(NullReference) <==> table[0].None? || table[1].None?
    ensures Session(table, trace, tpb).fault == Some(DivideByZero)
            <==> table[0].Some? && table[1].Some? && tpb == 0 && |trace| > 0
    ensures Session(table, trace, tpb).fault.None?
            <==> table[0].Some? && table[1].Some? && (tpb > 0 || |trace| == 0)
  {
    if table[0].Some? && table[1].Some? {
      HandleAllFails(Handlers(0, []), table[0].value, table[1].value, trace, tpb);
    }
  }

  lemma CallsToOne(x: Action, v: VoiceId)
    ensures CallsTo([x], v) == if x.Invoke? && x.voice == v then [x.call] else []
  {
    assert [x][1..] == [];
  }

  /** The calls on one voice of a session that runs to the end. */
  lemma SessionCallsTo(table: seq<Option<SynthInfo>>, trace: seq<MidiPlayer.Dispatch>, tpb: u16, v: VoiceId)
    requires |table| == VoiceCount && table[0].Some? && table[1].Some? && tpb > 0
    ensures var info := if v == LocalVoice then table[0].value else table[1].value;
      var r := Session(table, trace, tpb);
      && r.fault.None?
      && CallsTo(r.actions, v)
         == [Remote.SetOctaveModulation(info.octaveModulation), Remote.EnableVoice]
            + Routed(trace, info.trackId) + [Remote.DisableVoice]
  {
    var local := table[0].value;
    var remote := table[1].value;
    var info := if v == LocalVoice then local else remote;
    HandleAllRoutes(Handlers(0, []), local, remote, trace, tpb, v);
    var h := HandleAll(Handlers(0, []), local, remote, trace, tpb).value;
    assert CallsTo(h.actions, v) == Routed(trace, info.trackId);
    var a := Invoke(LocalVoice, Remote.SetOctaveModulation(local.octaveModulation));
    var b := Invoke(RemoteVoice, Remote.SetOctaveModulation(remote.octaveModulation));
    var c := Invoke(LocalVoice, Remote.EnableVoice);
    var d := Invoke(RemoteVoice, Remote.EnableVoice);
    var e := Invoke(LocalVoice, Remote.DisableVoice);
    var f := Invoke(RemoteVoice, Remote.DisableVoice);
    assert Session(table, trace, tpb).actions == [a, b, c, d] + h.actions + [e, f];
    CallsToSession(a, b, c, d, h.actions, e, f, v);
  }

  /** The calls on one voice of the four calls before the handlers, the
      handlers' calls and the two after them. */
  lemma CallsToSession(a: Action, b: Action, c: Action, d: Action, mid: seq<Action>, e: Action, f: Action, v: VoiceId)
    requires a.Invoke? && b.Invoke? && c.Invoke? && d.Invoke?
    requires a.voice == LocalVoice && b.voice == RemoteVoice && c.voice == LocalVoice && d.voice == RemoteVoice
    requires e.Invoke? && f.Invoke? && e.voice == LocalVoice && f.voice == RemoteVoice
    ensures CallsTo([a, b, c, d] + mid + [e, f], v)
            == (if v == LocalVoice then [a.call, c.call] else [b.call, d.call]) + CallsTo(mid, v)
               + (if v == LocalVoice then [e.call] else [f.call])
  {
    CallsToAppend([a, b, c, d] + mid, [e, f], v);
    CallsToAppend([a, b, c, d], mid, v);
    CallsToStart(a, b, c, d, v);
    CallsToStop(e, f, v);
  }

  lemma CallsToStart(a: Action, b: Action, c: Action, d: Action, v: VoiceId)
    requires a.Invoke? && b.Invoke? && c.Invoke? && d.Invoke?
    requires a.voice == LocalVoice && b.voice == RemoteVoice && c.voice == LocalVoice && d.voice == RemoteVoice
    ensures CallsTo([a, b, c, d], v) == if v == LocalVoice then [a.call, c.call] else [b.call, d.call]
  {
    assert [a, b, c, d] == [a] + [b] + [c] + [d];
    CallsToAppend([a] + [b] + [c], [d], v);
    CallsToAppend([a] + [b], [c], v);
    CallsToAppend([a], [b], v);
    CallsToOne(a, v);
    CallsToOne(b, v);
    CallsToOne(c, v);
    CallsToOne(d, v);
  }

  lemma CallsToStop(e: Action, f: Action, v: VoiceId)
    requires e.Invoke? && f.Invoke? && e.voice == LocalVoice && f.voice == RemoteVoice
    ensures CallsTo([e, f], v) == if v == LocalVoice then [e.call] else [f.call]
  {
    assert [e, f] == [e] + [f];
    CallsToAppend([e], [f], v);
    CallsToOne(e, v);
    CallsToOne(f, v);
  }

  /** A session that runs to the end sets each voice's modulation from
      its entry, enables it, plays on it exactly the note events of its
      track in delivery order, and disables it. */
  lemma SessionCalls(table: seq<Option<SynthInfo>>, trace: seq<MidiPlayer.Dispatch>, tpb: u16)
    requires |table| == VoiceCount && table[0].Some? && table[1].Some? && tpb > 0
    ensures var r := Session(table, trace, tpb);
      && r.fault.None?
      && CallsTo(r.actions, LocalVoice)
         == [Remote.SetOctaveModulation(table[0].value.octaveModulation), Remote.EnableVoice]
            + Routed(trace, table[0].value.trackId) + [Remote.DisableVoice]
      && CallsTo(r.actions, RemoteVoice)
         == [Remote.SetOctaveModulation(table[1].value.octaveModulation), Remote.EnableVoice]
            + Routed(trace, table[1].value.trackId) + [Remote.DisableVoice]
  {
    SessionCallsTo(table, trace, tpb, LocalVoice);
    SessionCallsTo(table, trace, tpb, RemoteVoice);
  }
}
