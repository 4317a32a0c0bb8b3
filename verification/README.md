# GhostDrive core, modelled in Dafny

GhostDrive is a .NET Micro Framework program that plays MIDI songs on
floppy-drive "voices": one on the board itself, and one on a slave board
reached over a serial link, either bare or through an XBee radio module in
API mode. This project models the parts of it that decide what gets played,
in which order, when, and which bytes cross the wire:

- **PriorityQueue** (`priority_queue.dfy`). The fixed-capacity binary min-heap
  of CommonSource/PriorityQueue.cs. Its weight function is read afresh at
  every comparison, and null slots sort last.
- **MidiStream, MidiTrack, MidiFile** (`midi_stream.dfy`, `midi_track.dfy`,
  `midi_file.dfy`). The decoder of CommonSource/MidiCore.cs:
  - the stream readers and the variable-length quantity;
  - the packed event header with running status;
  - `Track.MoveNext` with its skip loop and the meta and system-exclusive events;
  - `Track.Reset`;
  - the `MidiFile` constructor.
- **MidiPlayer, MidiPlayerProofs** (`midi_player.dfy`, `midi_player_proofs.dfy`).
  `MidiFile.Play`, `Pause`, `Resume` and `Stop`. The tracks are merged
  through the priority queue, keyed by the time of each track's current
  event. The note handlers are a trace of dispatches. The calls that other
  threads make form a schedule: one lands before each guard check, and
  one more between the last guard and the final `switch`.
- **LegacyParser** (`legacy_parser.dfy`). The older MIDIFileParser.cs:
  - the header, then one skipped track chunk, then a fixed array of at most
    500 note events taken from the second track chunk;
  - its own variable-length reader, which is compared against the core one.
- **XBee, AtCommand** (`xbee.dfy`, `at_command.dfy`). The API-mode frame
  writer and reader of GhostDrive/XBee.cs, the device lifecycle, and
  `WriteAtCommand` of CommonSource/Extensions.cs.
- **Remote** (`remote.dfy`). The bare three-byte remote protocol of both
  copies of RemoteManager.cs, with the frame type codes of
  CommonSource/FrameType.cs.
- **SongFiles, SongPlayback** (`song_files.dfy`, `song_playback.dfy`). The
  pure parts of GhostDrive/Program.cs:
  - choosing the song to play from the card;
  - the path of a requested song;
  - reading a song descriptor (`voice,track[,octave]` lines);
  - the wait before each note;
  - routing note events to the two voices;
  - the calls a whole playback session makes on each voice.
- **Common** (`common.dfy`). Byte, 16-bit and 32-bit integers, `Option` and
  `Result`, and one `Error` constructor per exception the source can raise.

Integers are unbounded in Dafny. Wherever C#'s `byte`, `ushort`, `uint` or
`int` arithmetic wraps, the model does the wrap-around explicitly. Examples
are the 32-bit absolute tick count of a track, the legacy reader's shift,
the `uint` product in the delay formula, and `(byte)` casts. The inputs a
thread would read from a file, a serial port or a clock are parameters:
- a file's bytes are a `seq<byte>`;
- a serial port's input is a `seq<byte>`, and what is written to it is returned;
- the `Pause`/`Resume`/`Stop` calls of other threads are a schedule;
- the note handlers and the voices are traces of calls and sleeps.

Behaviours of the code that the model keeps as written:
- `Track.Reset` rewinds the read position only. It keeps the absolute tick
  count, the running type and the current event, so it does not restart
  the track from its first event.
- The reader does not drop a refused or damaged frame as a whole. It
  restarts its hunt for a delimiter from the byte left in its one-byte
  buffer: the identifier, or the first byte after the length.
- The wait before a note is an uninterruptible `Thread.Sleep`. Its `uint`
  product wraps.
- A `Pause`, `Resume` or `Stop` call from another thread lands before one
  of the loop's guard checks, or after the last one and before the final
  `switch`.
- `Play` while already Playing runs the loop again rather than doing nothing.
- The shared `FrameType` enumeration has nine codes, with no SaveSong or
  RandomWalk.
- Popping an empty queue and pushing onto a full one are array faults, not
  dedicated errors.

## Model

| member | source | states |
|---|---|---|
| PriorityQueue.New | CommonSource/PriorityQueue.cs:12-17 | A new queue of size `n` has capacity `n`, every slot null, nothing held, and is empty. |
| PriorityQueue.IsEmptyIffNothingHeld | CommonSource/PriorityQueue.cs:10 | `IsEmpty` (bottom is 0) holds exactly when the multiset of held items is empty. |
| PriorityQueue.Swap | CommonSource/PriorityQueue.cs:78-84 | The two slots trade contents and every other slot is unchanged. |
| PriorityQueue.SwapPrefixMultiset | CommonSource/PriorityQueue.cs:78-84 | Swapping inside the occupied prefix permutes it and leaves the rest of the store alone. |
| PriorityQueue.SiftUp | CommonSource/PriorityQueue.cs:21-24 | The push loop permutes the occupied prefix, keeps every slot past it, and restores heap order when only the new item was out of place. |
| PriorityQueue.SiftUpStep | CommonSource/PriorityQueue.cs:23-24 | Swapping a strictly lighter item with its parent moves the single order defect one level up. |
| PriorityQueue.SiftUpDone | CommonSource/PriorityQueue.cs:23 | When the loop guard fails, the heap is ordered. |
| PriorityQueue.MinSlot | CommonSource/PriorityQueue.cs:37-40 | The pop loop's pick is the item's own slot or one of its two children, within the store. |
| PriorityQueue.MinSlotFacts | CommonSource/PriorityQueue.cs:37-41 | The pick is never a null slot, is no heavier than either child, and moves only to a strictly lighter child. |
| PriorityQueue.SiftDown | CommonSource/PriorityQueue.cs:35-44 | The pop loop permutes the occupied prefix, keeps the rest, and restores heap order when only the root was out of place. |
| PriorityQueue.SiftDownStep | CommonSource/PriorityQueue.cs:37-43 | Swapping with the picked child moves the single order defect one level down. |
| PriorityQueue.SiftDownDone | CommonSource/PriorityQueue.cs:41-42 | When the pick is the item itself, the heap is ordered. |
| PriorityQueue.Push | CommonSource/PriorityQueue.cs:19-26 | Fails (array fault) exactly at full capacity. Otherwise it holds exactly one more item, the pushed one, in the same capacity, and keeps heap order. |
| PriorityQueue.PushShape | CommonSource/PriorityQueue.cs:19-26 | Inserting keeps the occupied slots a gap-free prefix and the capacity unchanged. |
| PriorityQueue.PushHeld | CommonSource/PriorityQueue.cs:19-26 | Inserting adds exactly the new item to the multiset held. |
| PriorityQueue.PushOrdered | CommonSource/PriorityQueue.cs:19-26 | Inserting into an ordered heap leaves it ordered. |
| PriorityQueue.PushOrders | CommonSource/PriorityQueue.cs:21-22 | The item written at `bottom` can be out of order only with its parent. |
| PriorityQueue.Pop | CommonSource/PriorityQueue.cs:28-47 | On a non-empty queue: the returned item plus what remains is what was held, one slot is freed, and heap order is kept. In an ordered heap the returned item is no heavier than any held item. |
| PriorityQueue.PopShape | CommonSource/PriorityQueue.cs:30-32 | Moving the last item to the root and nulling its slot keeps the occupied slots a prefix, one shorter. |
| PriorityQueue.PopHeld | CommonSource/PriorityQueue.cs:30-44 | Removing the root takes exactly the root out of the multiset held. |
| PriorityQueue.PopMultiset | CommonSource/PriorityQueue.cs:30-32 | The root's removal and the move of the last item account for the prefix's multiset. |
| PriorityQueue.PopOrdered | CommonSource/PriorityQueue.cs:28-47 | Removing the root of an ordered heap leaves it ordered. |
| PriorityQueue.PopReorders | CommonSource/PriorityQueue.cs:31-35 | After the move to the root, only the root can be out of order. |
| PriorityQueue.RootIsLightestAt | CommonSource/PriorityQueue.cs:30 | In an ordered heap the root is no heavier than the item in any occupied slot. |
| PriorityQueue.RootIsLightest | CommonSource/PriorityQueue.cs:30 | In an ordered heap the root is no heavier than any held item. |
| PriorityQueue.OrderedSameWeights | CommonSource/PriorityQueue.cs:49-61 | Order depends only on the weights of held items, so changing the weight of an item outside the queue keeps the queue ordered. |
| MidiStream.ReadUInt16 | CommonSource/MidiCore.cs:16-21 | Reads two bytes exactly when two remain. The value's high and low bytes are the first and second byte (big-endian) or the reverse (little-endian). |
| MidiStream.ReadUInt32 | CommonSource/MidiCore.cs:27-32 | Reads four bytes exactly when four remain, assembled in the requested byte order. |
| MidiStream.VarLoop | CommonSource/MidiCore.cs:39-43 | From iteration `i`, the loop reads at most `4 - i` bytes. The result is the accumulator shifted by seven bits per byte plus the bytes' 7-bit groups. |
| MidiStream.ReadVarUInt32 | CommonSource/MidiCore.cs:38-45 | Reads one to four bytes, all but the last with bit 7 set, the last clear unless four were read. The value is their 7-bit groups MSB-first, below 2^28. |
| MidiStream.VarLoopReads | CommonSource/MidiCore.cs:40-43 | Conversely, a run of continuation bytes ended by a clear byte (or by the fourth byte) is read whole. |
| MidiStream.EncodeVarUInt32 | CommonSource/MidiCore.cs:38-45 | A reference encoder: one to four bytes, continuation bits on all but the last, whose groups spell `v`. |
| MidiStream.VarUInt32RoundTrip | CommonSource/MidiCore.cs:38-45 | Decoding the encoding of any 28-bit value gives the value back and stops at its end, whatever follows. |
| MidiStream.VarUInt32Examples | CommonSource/MidiCore.cs:38-45 | The example quantities of the Standard MIDI Files specification decode as tabulated there. |
| MidiTrack.WithEventType | CommonSource/MidiCore.cs:79-82 | The setter replaces the type nibble and keeps the channel and the delta time. |
| MidiTrack.ReadEventHeader | CommonSource/MidiCore.cs:84-89 | A delta time, then one byte. A byte with bit 7 clear is un-read, so the next read starts at it again. |
| MidiTrack.ParseMetaEvent | CommonSource/MidiCore.cs:208-228 | Channels 0 and 7 are system exclusive and are skipped. Otherwise the result is end-of-track, a tempo, or a skip, and the position always moves forward. |
| MidiTrack.ReadRawEvent | CommonSource/MidiCore.cs:162-194 | One pass of the skip loop. Running status is resolved to the previous type. Notes carry type 8 or 9 and meta results type 0xF. Types below 8 are a decode error. |
| MidiTrack.Advance | CommonSource/MidiCore.cs:158-202 | The cursor moves forward and the tick count never decreases. End-of-track answers false and keeps `Current`. A note carries the track id and the 32-bit clock. A tempo event carries id 0 and time 0. |
| MidiTrack.MoveNext | CommonSource/MidiCore.cs:158-202 | The explicit skip loop computes exactly the reference decoding `Advance`. |
| MidiTrack.Reset | CommonSource/MidiCore.cs:204-206 | Rewinds the position to the chunk start and keeps the tick count, running type and current event. |
| MidiTrack.ReplayAfterResetKeepsTime | CommonSource/MidiCore.cs:204-206 | After a reset the replayed events are stamped no earlier than before it. |
| MidiTrack.NoteEventDecoded | CommonSource/MidiCore.cs:173-179 | An explicit 0x8n/0x9n status consumes two data bytes; the note is the first. Velocity 0 does not turn a note-on into a note-off. |
| MidiTrack.RunningStatusResolved | CommonSource/MidiCore.cs:163-189 | A data byte reuses the previous type. With no previous note or channel type it is a decode error. |
| MidiTrack.EndOfTrackDecoded | CommonSource/MidiCore.cs:196-219 | End-of-track answers false, keeps `Current`, and still counts its delta and moves the cursor. |
| MidiTrack.SetTempoDecoded | CommonSource/MidiCore.cs:221-222 | Set-tempo yields the 24-bit big-endian value with event time 0 and consumes exactly three data bytes. |
| MidiTrack.SetTempoRead | CommonSource/MidiCore.cs:208-222 | The raw event a set-tempo meta event decodes to. |
| MidiTrack.SkippedEventCountsTime | CommonSource/MidiCore.cs:166 | A skipped event still adds its delta to the clock. |
| MidiTrack.MoveNextExample | CommonSource/MidiCore.cs:158-202 | Concrete: a skipped controller's delta is counted in the next note's time, and a running-status note-on with velocity 0 is a note-on. |
| MidiTrack.ExampleRawEvents | CommonSource/MidiCore.cs:162-194 | Concrete raw decodes of a controller change, a note-on and a running-status note-on. |
| MidiFile.ReadChunkHeader | CommonSource/MidiCore.cs:66-72 | Eight bytes as two big-endian words: tag and size. |
| MidiFile.ReadTrack | CommonSource/MidiCore.cs:140-153 | Too few bytes is Truncated. A wrong tag is a format error. Otherwise a fresh cursor starts after the header and the stream moves past `Size` bytes. |
| MidiFile.TagBytes | CommonSource/MidiCore.cs:142 | The word 0x4d54726b is exactly the bytes 'M' 'T' 'r' 'k'. |
| MidiFile.ReadTracks | CommonSource/MidiCore.cs:261-263 | The loop yields one fresh, correctly tagged cursor per track, numbered in order. |
| MidiFile.Open | CommonSource/MidiCore.cs:250-264 | A wrong 'MThd' tag or size is a format error. Otherwise the header fields are the three big-endian words, the tempo is 500000, and there is one fresh cursor per declared track. |
| MidiFile.EncodeFile | CommonSource/MidiCore.cs:250-264 | The file layout the constructor reads: 'MThd', header size 6, the big-endian track count, then the track chunks. |
| MidiFile.OpenEncoded | CommonSource/MidiCore.cs:250-264 | Round trip: opening an encoded file recovers format, division and track count, and track `i` reads exactly the bytes of chunk `i`. |
| MidiFile.ReadTrackTagged | CommonSource/MidiCore.cs:140-153 | A chunk tagged 'MTrk' reads as a fresh cursor after its header, and the stream moves past its size. |
| MidiFile.FirstChunkRead | CommonSource/MidiCore.cs:140-153 | The first encoded chunk reads as a fresh cursor over its events. |
| MidiFile.ReadTracksEncoded | CommonSource/MidiCore.cs:261-263 | Reading encoded chunks yields cursors whose events are exactly the chunks' bytes. |
| MidiFile.ReadTracksStep | CommonSource/MidiCore.cs:262-263 | One iteration of the constructor loop puts the chunk's cursor in front of the rest. |
| MidiPlayer.Load | CommonSource/MidiCore.cs:234-259 | A freshly opened file is Stopped, with no queue and no calls delivered, holding the file's tracks and tempo. |
| MidiPlayer.NamesAfterAdvance | CommonSource/MidiCore.cs:302-303 | Moving a cursor on keeps the queue naming only tracks with an event. |
| MidiPlayer.NamesAfterPush | CommonSource/MidiCore.cs:280-281 | Pushing a track that holds an event keeps that invariant. |
| MidiPlayer.Deliver | CommonSource/MidiCore.cs:295-300 | A note is appended to the trace with the tempo current at that moment. A set-tempo replaces the tempo and delivers nothing. |
| MidiPlayer.Next | CommonSource/MidiCore.cs:292 | The popped index names a track holding an event and is held in the queue. |
| MidiPlayer.Step | CommonSource/MidiCore.cs:292-303 | One iteration delivers the popped track's event and changes only that track, moving its clock forward. It strictly decreases the bytes left to read. Only the decoder can fail. |
| MidiPlayer.Requeue | CommonSource/MidiCore.cs:302-303 | Re-pushing after the pop cannot overflow. The rest of the step keeps the scheduler invariant and the delivery. |
| MidiPlayer.PopFromSched | CommonSource/MidiCore.cs:292 | The pop yields an index naming a track with an event, frees a slot, and leaves a subset of what was held. |
| MidiPlayer.QueueAfterStep | CommonSource/MidiCore.cs:302-303 | Whether or not the track is re-queued, the queue still names only tracks holding an event. |
| MidiPlayer.Pause | CommonSource/MidiCore.cs:318-321 | The player is Paused afterwards exactly when it was Playing or Paused; a Stopped player stays Stopped. Nothing but the state changes. |
| MidiPlayer.Resume | CommonSource/MidiCore.cs:323-326 | The player is Playing afterwards exactly when it was Playing or Paused; a Stopped player stays Stopped. Nothing but the state changes. |
| MidiPlayer.Stop | CommonSource/MidiCore.cs:328-330 | From any state the player is Stopped, and nothing else changes. |
| MidiPlayer.Call | CommonSource/MidiCore.cs:318-330 | A control call changes nothing but the state. |
| MidiPlayer.Loop | CommonSource/MidiCore.cs:290-304 | The loop ends only with the queue empty or the state not Playing. It keeps the scheduler invariant and only appends to the trace. |
| MidiPlayer.PrimeFrom | CommonSource/MidiCore.cs:278-282 | Priming keeps the tracks before `i`, keeps the queue naming tracks with events, and cannot overflow a queue that was empty at the start. |
| MidiPlayer.Prime | CommonSource/MidiCore.cs:276-284 | From Stopped: the queue exists, the state is Playing, and nothing is delivered yet. Starting from an empty queue it never overflows. |
| MidiPlayer.PrimeOne | CommonSource/MidiCore.cs:279-281 | One pass of the `foreach`: the track moves to its first event and is pushed exactly when `MoveNext` answers true; priming goes on from the next track. |
| MidiPlayer.PrimeQueuesEvery | CommonSource/MidiCore.cs:278-282 | From track `i` on, every track has moved to its first event and is queued once more than before exactly when it has one; earlier tracks are queued as before. |
| MidiPlayer.PrimeQueuesStep | CommonSource/MidiCore.cs:279-281 | One track of that induction. |
| MidiPlayer.PrimedFromStep | CommonSource/MidiCore.cs:279-281 | Priming track `i` leaves the later tracks' counts alone. |
| MidiPlayer.PrimeQueuesAll | CommonSource/MidiCore.cs:276-282 | From Stopped with an empty queue, every track is queued exactly once if its first `MoveNext` answers true and not at all otherwise. |
| MidiPlayer.Finish | CommonSource/MidiCore.cs:306-313 | Answers true exactly when not Paused, leaving Stopped, or false leaving Paused. Nothing else changes. |
| MidiPlayer.PlaySpec | CommonSource/MidiCore.cs:272-316 | From Paused it answers false at once and changes nothing. Otherwise true means Stopped and false means Paused, and the trace only grows. With no Pause or Stop before any guard, and no Pause or Stop after the last guard, it answers true with the queue empty. |
| MidiPlayer.Run | CommonSource/MidiCore.cs:290-313 | The loop, one call landing after its last guard, and the final switch: true means Stopped, false means Paused. Without Pause or Stop the queue runs dry. |
| MidiPlayer.LoopWithoutPauseRunsDry | CommonSource/MidiCore.cs:290-304 | With only Resume calls landing, the loop leaves only when the queue is empty, still Playing. |
| MidiPlayer.RunsDryStep | CommonSource/MidiCore.cs:290-304 | One iteration of that induction. |
| MidiPlayer.Drive | CommonSource/MidiCore.cs:290-304 | The imperative `while` loop, taking one scheduled call before each guard, ends as the recursive `Loop` does. |
| MidiPlayer.Play | CommonSource/MidiCore.cs:272-316 | The imperative `Play` (state switch, while loop, the late call, final switch) computes `PlaySpec`. |
| MidiPlayerProofs.StampedTime | CommonSource/MidiCore.cs:166-178 | A note's time is its track's tick count cut to 32 bits, equal to it below 2^32. |
| MidiPlayerProofs.PoppedIsDue | CommonSource/MidiCore.cs:292-293 | The popped event is not earlier than the last one delivered, and no queued track is earlier than it. |
| MidiPlayerProofs.DueBefore | CommonSource/MidiCore.cs:292 | Every track still queued after the pop is at least as late as the popped one. |
| MidiPlayerProofs.Rekey | CommonSource/MidiCore.cs:277 | Because weights are read at comparison time, moving on a track that is out of the queue keeps the queue invariant. |
| MidiPlayerProofs.Enqueue | CommonSource/MidiCore.cs:303 | Re-queueing a stamped track not behind the last delivery keeps the invariant. |
| MidiPlayerProofs.QueueAfterTimely | CommonSource/MidiCore.cs:302-303 | After a step the queue invariant holds with the last delivered time moved on. |
| MidiPlayerProofs.StepTimely | CommonSource/MidiCore.cs:292-303 | One iteration keeps the queue invariant and keeps the delivered notes in order. |
| MidiPlayerProofs.TraceAppend | CommonSource/MidiCore.cs:295-298 | Delivering a note no earlier than the last keeps the trace chronological. |
| MidiPlayerProofs.LoopTicks | CommonSource/MidiCore.cs:290-304 | The loop never moves any track's clock back. |
| MidiPlayerProofs.LoopTicksStep | CommonSource/MidiCore.cs:290-304 | One iteration of that induction. |
| MidiPlayerProofs.StepKeepsTicks | CommonSource/MidiCore.cs:292-303 | A step moves only the popped track's clock, and only forward. |
| MidiPlayerProofs.LoopTimely | CommonSource/MidiCore.cs:290-304 | Whatever calls land meanwhile, the loop delivers notes in order unless a clock wrapped past 2^32. |
| MidiPlayerProofs.StepBeforeNoWrap | CommonSource/MidiCore.cs:292-303 | A step followed by a loop in which no clock wraps keeps the invariant. |
| MidiPlayerProofs.LoopTimelyStep | CommonSource/MidiCore.cs:290-304 | One iteration of the `LoopTimely` induction. |
| MidiPlayerProofs.PrimeTimely | CommonSource/MidiCore.cs:276-284 | Priming an empty queue establishes the invariant: each track queued at most once, in heap order, stamped. |
| MidiPlayerProofs.PrimeDone | CommonSource/MidiCore.cs:278-282 | Priming stops at the last track or at the first decode failure. |
| MidiPlayerProofs.PrimePass | CommonSource/MidiCore.cs:280 | A track with no first event is left out and priming goes on with the invariant intact. |
| MidiPlayerProofs.PrimeEnqueue | CommonSource/MidiCore.cs:280-281 | Queueing a primed track keeps the invariant. |
| MidiPlayerProofs.PlayInOrder | CommonSource/MidiCore.cs:272-316 | From Stopped with an empty queue, `Play` delivers its notes in non-decreasing time, whatever Pause/Resume/Stop calls land, while no clock reaches 2^32. |
| MidiPlayerProofs.PauseResumeInverse | CommonSource/MidiCore.cs:318-326 | Resume undoes a Pause taken while playing, and Pause undoes a Resume taken while paused. Both do nothing when Stopped. |
| MidiPlayerProofs.LoopResumes | CommonSource/MidiCore.cs:290-304 | Without Stop, a loop paused and later resumed ends where the uninterrupted loop ends, and fails as it fails. |
| MidiPlayerProofs.LoopResumesHalt | CommonSource/MidiCore.cs:290 | The case in which the loop leaves at once. |
| MidiPlayerProofs.LoopResumesStep | CommonSource/MidiCore.cs:290-304 | The case in which both loops continue from the state after one step. |
| MidiPlayerProofs.RunResumes | CommonSource/MidiCore.cs:290-313 | Without Stop: a failure is the uninterrupted run's failure. A true answer is the uninterrupted run's answer unless a Resume landed after the last guard. A false answer, then a Resume and an uninterrupted run, end exactly as one uninterrupted run does. |
| MidiPlayerProofs.RunResumesDry | CommonSource/MidiCore.cs:290-313 | The case in which the loop ran dry: a late Pause is undone by the Resume. |
| MidiPlayerProofs.RunResumesPaused | CommonSource/MidiCore.cs:290-313 | The case in which a Pause ended the loop: resuming continues where the uninterrupted loop would. |
| MidiPlayerProofs.PlayResumes | CommonSource/MidiCore.cs:272-326 | Without Stop: `Play` answering false, then `Resume` and `Play` again, ends exactly as one uninterrupted `Play` does. A failing answer already agrees with it, and so does a true one unless a Resume landed after the last guard. |
| MidiPlayerProofs.LateResumeLosesEvents | CommonSource/MidiCore.cs:290-313 | As written: a loop ended by a Pause with events queued, followed by a Resume before the switch, answers true and leaves the player Stopped with the events still queued. |
| MidiPlayerProofs.PauseResumeAtGuardEndsSong | CommonSource/MidiCore.cs:272-313 | Concretely: from any playing state with an event queued, a Pause at the first guard and a Resume before the switch make `Play` answer true having delivered nothing. |
| MidiPlayerProofs.RunSeen | CommonSource/MidiCore.cs:306-313 | The corrected switch, on the state the guard saw: it keeps the scheduler invariant and only appends to the trace. |
| MidiPlayerProofs.RunSeenEndsSong | CommonSource/MidiCore.cs:290-313 | With the corrected switch and no Stop, a true answer means nothing is left queued, and a false answer keeps every queued event. |
| LegacyParser.NewParser | MIDIFileParser.cs:16-21 | A new parser has no array and no notes, and satisfies the count invariant. |
| LegacyParser.EnsureBuffer | MIDIFileParser.cs:52-63 | The buffer only doubles, never shrinks, reaches the required size, and grows less than twice past it. |
| LegacyParser.FillBuffer | MIDIFileParser.cs:103-108 | Exactly `n` bytes from the stream, or "Read past EOF" exactly when fewer remain. |
| LegacyParser.ReadByte | MIDIFileParser.cs:93-97 | The next byte, failing exactly at the end. |
| LegacyParser.ReadWord | MIDIFileParser.cs:79-83 | Two bytes big-endian, failing exactly when fewer remain. |
| LegacyParser.ReadDWord | MIDIFileParser.cs:69-73 | Four bytes big-endian; the `int` shift and `uint` cast give the same 32-bit value. |
| LegacyParser.VLoop | MIDIFileParser.cs:375-387 | The legacy loop reads at most four bytes and moves forward. |
| LegacyParser.ReadVLength | MIDIFileParser.cs:370-390 | Reads one to four bytes, failing only when the input runs out. |
| LegacyParser.VLoopAgrees | MIDIFileParser.cs:375-387 | Pass by pass, the legacy value is 128 times the core's accumulator. Both read the same bytes and raise the same error. |
| LegacyParser.LegacyStep | MIDIFileParser.cs:377-386 | One legacy pass: no wrap-around before the final shift. |
| LegacyParser.VLengthAgrees | MIDIFileParser.cs:370-390 | Against the core reader: the same bytes and the same error. The same value when a clear byte ends the quantity. Otherwise the legacy value is the core's shifted seven more bits, mod 2^32. |
| LegacyParser.VLengthDiverges | MIDIFileParser.cs:370-390 | 0x81 0x80 0x80 0x80 is 2^21 to the core reader and 2^28 to the legacy one. |
| LegacyParser.CoreReadsLong | CommonSource/MidiCore.cs:38-45 | The core reader's value for 0x81 0x80 0x80 0x80. |
| LegacyParser.VLengthWraps | MIDIFileParser.cs:370-390 | Four 0xFF bytes are 2^28-1 to the core reader and 2^32-128 to the legacy one. |
| LegacyParser.CoreReadsFull | CommonSource/MidiCore.cs:38-45 | The core reader's value for four 0xFF bytes. |
| LegacyParser.ReadMagic | MIDIFileParser.cs:117-120 | The short-circuit magic test reads up to the first mismatching byte. It answers true iff the whole word matched, and fails only when the input runs out first. |
| LegacyParser.MagicWord | MIDIFileParser.cs:117-120 | 'MThd' as a big-endian word and as bytes agree. |
| LegacyParser.NotMagic | MIDIFileParser.cs:164-167 | A false answer means the bytes there are not the magic word. |
| LegacyParser.ReadHeaderChunk | MIDIFileParser.cs:114-151 | True iff 'MThd' and length 6. The three fields are then the big-endian words; a false answer leaves them as they were. |
| LegacyParser.HeaderAgrees | MIDIFileParser.cs:114-151 | The legacy and core decoders accept the same header chunks and read the same three fields. |
| LegacyParser.BurnTrackChunk | MIDIFileParser.cs:194-218 | True iff 'MTrk'; the position then moves past the declared length. |
| LegacyParser.ReadSysExEvent | MIDIFileParser.cs:353-357 | A length, then a seek past that many bytes. |
| LegacyParser.ReadMetaEvent | MIDIFileParser.cs:329-351 | Set-tempo reads three bytes as the tempo, whatever its length says. Every other meta event, end-of-track included, is skipped by its length. |
| LegacyParser.ReadMidiEvent | MIDIFileParser.cs:253-311 | A status byte becomes the running status. Note-off and note-on become a stored note with the event's own delta and the first parameter. Other events store nothing. |
| LegacyParser.ReadTrackEvent | MIDIFileParser.cs:223-245 | Dispatches on 0xF0/0xF7, 0xFF or otherwise. Always moves forward. Stored notes have type 8n or 9n. |
| LegacyParser.AddNoteEvent | MIDIFileParser.cs:317-327 | Appends into the next slot, or drops the note when the array is full. The array keeps its length. |
| LegacyParser.Apply | MIDIFileParser.cs:223-245 | The state after one event keeps the header fields and the array length. |
| LegacyParser.ApplyNotes | MIDIFileParser.cs:317-327 | One event fills at most the next slot with its note. |
| LegacyParser.TrackEvents | MIDIFileParser.cs:175-178 | The loop ends at or past the chunk end, keeping the header fields. |
| LegacyParser.TrackEventsKeepFirst | MIDIFileParser.cs:175-178 | The loop succeeds iff decoding every event does. The array then holds what it held followed by the chunk's first notes, as many as fit. |
| LegacyParser.ReadTrackChunk | MIDIFileParser.cs:159-188 | True iff the tag is 'MTrk'; false leaves the parser unchanged. |
| LegacyParser.TrackEventsNoteArray | MIDIFileParser.cs:159-188 | Reading a track chunk never changes the array's length. |
| LegacyParser.EventsFromEmpty | MIDIFileParser.cs:175-178 | Into an empty array, the loop stores the chunk's first notes. |
| LegacyParser.TrackChunkKeepsFirst | MIDIFileParser.cs:159-188 | A chunk read into an empty array keeps its first notes, up to the array size. |
| LegacyParser.ParseFile | MIDIFileParser.cs:30-44 | Reuses or allocates the 500-slot array, never stores more than fits, and fails only on a short read. |
| LegacyParser.HeaderRead | MIDIFileParser.cs:30-39 | The state carried into the track chunks: count reset, array present. |
| LegacyParser.ParseFileReachesSecond | MIDIFileParser.cs:30-42 | On a well-formed start the header is read, the first track skipped, and the answer comes from the second track. |
| LegacyParser.ParseFileKeepsFirstNotes | MIDIFileParser.cs:30-42 | On a well-formed file: the header's three fields, exactly the first `min(500, n)` notes of the second track chunk, and the tempo of the chunk's last set-tempo event, or 500000 if it has none. |
| LegacyParser.EventTempo | MIDIFileParser.cs:223-245 | One event leaves the tempo alone unless it is a set-tempo meta event, which sets it to its three bytes. |
| LegacyParser.TrackEventsTempo | MIDIFileParser.cs:175-178 | The events loop ends with the tempo of the last set-tempo event it read, or the tempo it started with. |
| LegacyParser.TrackChunkTempo | MIDIFileParser.cs:159-188 | The same for a whole track chunk. |
| LegacyParser.ParseFileTempo | MIDIFileParser.cs:30-42 | `ParseFile` resets the tempo to 500000 and the second chunk's set-tempo events then set it. |
| LegacyParser.TempoExample | MIDIFileParser.cs:329-337 | A chunk with one set-tempo of 0x0F4240 ends at tempo 1000000. |
| XBee.CheckIdListed | GhostDrive/XBee.cs:101-120 | Exactly the twelve listed responses are accepted. Every request identifier and the delimiter are refused. |
| XBee.Wire | GhostDrive/XBee.cs:170-187 | The write buffer: delimiter, the two length bytes, the identifier, the payload, and a checksum byte that brings identifier, payload and checksum to 0xFF mod 256; the length bytes are `length + 1` big-endian when it fits in 16 bits. |
| XBee.Encode | GhostDrive/XBee.cs:170-187 | A frame for a payload is five bytes longer than it, holds it after the identifier, and carries `|payload| + 1` as its big-endian length. |
| XBee.AddPayload | GhostDrive/XBee.cs:177-183 | The checksum loop is the identifier plus the payload's byte sum mod 256. Reading past the frame buffer or the 512-byte write buffer faults. |
| XBee.WriteFrame | GhostDrive/XBee.cs:170-187 | The frame is the delimiter, big-endian `Length+1`, the id, the payload and the complement checksum, `Length+5` bytes. It fails exactly when it would index past a buffer or pass a negative count. |
| XBee.WrittenChecksum | GhostDrive/XBee.cs:170-187 | Every written frame sums, identifier through checksum, to 0xFF mod 256. |
| XBee.LengthBytes | GhostDrive/XBee.cs:173-174 | The writer's two length bytes are the big-endian length the reader reassembles. |
| XBee.ReadFrame | GhostDrive/XBee.cs:122-154 | An accepted frame has a listed identifier, sums to 0xFF, reports `Length = L-1`, and fits the 512-byte buffer. |
| XBee.ReadConsumes | GhostDrive/XBee.cs:122-154 | What remains after a frame is a proper suffix of the input: no byte is read twice. |
| XBee.ReadEncoded | GhostDrive/XBee.cs:122-154 | With the delimiter in hand, a frame from the writer is read back whole. |
| XBee.RoundTrip | GhostDrive/XBee.cs:122-187 | After delimiter-free noise, the reader returns exactly the frame the writer encoded, then the rest. |
| XBee.DamagedRefused | GhostDrive/XBee.cs:138-151 | A frame with one payload or checksum byte changed is refused, and the hunt resumes from the byte after its identifier. |
| XBee.CorruptionSkipped | GhostDrive/XBee.cs:125-152 | A damaged frame is skipped and the next good frame is read. |
| XBee.RefusedIdResynchronises | GhostDrive/XBee.cs:128-139 | A refused identifier equal to 0x7E is itself taken as the next frame's delimiter. |
| XBee.Receive | GhostDrive/XBee.cs:122-154 | The corrected reader: a received frame is listed, checksummed, and taken from the front of the input. |
| XBee.ReceiveInTurn | GhostDrive/XBee.cs:156-166 | With the corrected reader, consecutive frames are each received in turn, whatever their payloads begin with. |
| XBee.ReceiveOne | GhostDrive/XBee.cs:122-154 | One frame at the head of the input is received whatever it holds. |
| XBee.NewDevice | GhostDrive/XBee.cs:43-50 | A new device is Closed over its port, satisfies the guards' invariant, and can be opened. |
| XBee.Open | GhostDrive/XBee.cs:66-84 | Acts only from Closed: the port is open, the reader started, and the state Opened. It keeps the guards consistent. |
| XBee.Close | GhostDrive/XBee.cs:86-99 | Acts only from Opened: the port is closed and the reader kept. |
| XBee.Dispose | GhostDrive/XBee.cs:52-64 | Marks Disposed. It faults with a null reference exactly when no reader was ever started, before the port is disposed. |
| XBee.DisposeUnopenedFaults | GhostDrive/XBee.cs:52-64 | Disposing a never-opened device faults and leaves the port undisposed. |
| XBee.DisposeChecked | GhostDrive/XBee.cs:52-64 | The corrected Dispose never faults, always disposes the port, and is idempotent. |
| XBee.Lifecycle | GhostDrive/XBee.cs:52-99 | Open and Close are idempotent and ignored once Disposed. Close after Open gives back a closed device that keeps its reader. |
| AtCommand.AtPayload | CommonSource/Extensions.cs:43-52 | Refused with an argument error exactly unless the command has two characters. Otherwise three header bytes plus the parameters. |
| AtCommand.ParsePayload | CommonSource/Extensions.cs:46-52 | A payload parses exactly when it has the three header bytes and frame id 1; the parts then reassemble to the payload. |
| AtCommand.PayloadRoundTrip | CommonSource/Extensions.cs:46-52 | Parsing the payload gives back frame id 1, the low bytes of the two characters, and the parameters. |
| AtCommand.PayloadInjective | CommonSource/Extensions.cs:46-52 | Two payloads are equal iff the commands agree in their low bytes and the parameters are equal. A null and an empty array are the same. |
| AtCommand.WriteAtCommand | CommonSource/Extensions.cs:42-59 | The bytes sent are an AT Command frame of the payload, `|data| + 8` bytes. Too many parameters fault before anything is sent. |
| AtCommand.EchoRefused | GhostDrive/XBee.cs:136-139 | An echoed AT Command frame is never accepted by the reader: its identifier is refused. |
| Remote.Encode | GhostDrive/RemoteManager.cs:27-37 | Every call writes three bytes, beginning with the magic 0x65. |
| Remote.VariantsAgree | RemoteManager.cs:14-40 | The older manager's private enumeration writes the same bytes as the shared one. |
| Remote.EncodeInjective | GhostDrive/RemoteManager.cs:63-99 | Two calls write the same frame iff they agree up to the `(byte)` cast of their int argument. |
| Remote.EncodeExamples | CommonSource/FrameType.cs:11-19 | The concrete codes: NoteOn 0x10 … ResetLocation 0x22, with casts wrapping negative arguments. |
| Remote.RemoteSynth | GhostDrive/RemoteManager.cs:39-46 | The voice is created once, on first access, with modulation 0, and writes nothing. |
| Remote.SendFrame | GhostDrive/RemoteManager.cs:19-37 | The three bytes sent: the magic 0x65, the frame type, the data byte. |
| Remote.NewManager | GhostDrive/RemoteManager.cs:18-46 | A new manager has written nothing and has no voice yet; its first access creates one with modulation 0. |
| Remote.Perform | GhostDrive/RemoteManager.cs:56-99 | A call appends exactly its encoded frame to the bytes written. Setting the modulation stores the untruncated int, and every other call keeps it. |
| Remote.PerformAll | GhostDrive/RemoteManager.cs:56-99 | A sequence of calls only appends to the bytes written, three bytes per call. |
| Remote.PerformAllEffect | GhostDrive/RemoteManager.cs:32-68 | A sequence of calls writes three bytes per call, in call order. The getter returns the last modulation set. |
| Remote.SetThenGet | GhostDrive/RemoteManager.cs:56-68 | Setting the modulation writes one frame with the truncated byte, but the getter returns the untruncated int. |
| SongFiles.ParseByte | GhostDrive/Program.cs:61 | Succeeds exactly on digit strings whose value is below 256. |
| SongFiles.ShowParses | GhostDrive/Program.cs:40 | Parsing a rendered number gives it back. |
| SongFiles.FileName | GhostDrive/Program.cs:61 | The file name is a separator-free suffix of the path. |
| SongFiles.LastDot | GhostDrive/Program.cs:61-64 | The position of the last dot, or none when there is no dot. |
| SongFiles.Lower | GhostDrive/Program.cs:64 | Lower-casing keeps the length and maps each character. |
| SongFiles.LowerKeeps | GhostDrive/Program.cs:64 | A string without capitals is its own lower case. |
| SongFiles.CombineFileName | GhostDrive/Program.cs:40 | Combining a root with a plain name gives a path whose file name is that name. |
| SongFiles.SongRequest | GhostDrive/Program.cs:37-41 | A request is ignored exactly while no card root is known. |
| SongFiles.SongName | GhostDrive/Program.cs:40 | In `n.song` the last dot is the one after the number. |
| SongFiles.RequestIsSong | GhostDrive/Program.cs:37-64 | A requested song is a `.song` file whose stem parses back to the number asked for. |
| SongFiles.Songs | GhostDrive/Program.cs:62-69 | The songs are exactly the files with a `.song` extension, in any case. |
| SongFiles.QueueAll | GhostDrive/Program.cs:62-69 | Pushing every song keeps the queue well formed. |
| SongFiles.QueueAllFacts | GhostDrive/Program.cs:62-69 | Fails exactly when the songs outnumber the free slots. Otherwise it adds exactly the songs and keeps heap order. |
| SongFiles.QueuedSongs | GhostDrive/Program.cs:60-69 | A queue as large as the directory never overflows and holds exactly its songs, ordered. |
| SongFiles.ChooseSong | GhostDrive/Program.cs:60-76 | The handler's only failure is `byte.Parse`'s: the queue, as large as the directory, never overflows. |
| SongFiles.ChooseSongFails | GhostDrive/Program.cs:61-76 | The handler throws exactly when two or more songs include one whose stem is not a byte number. |
| SongFiles.ChooseSongNone | GhostDrive/Program.cs:71-76 | Nothing is played exactly when there is no song. |
| SongFiles.ChooseSongLightest | GhostDrive/Program.cs:71-76 | The song played is a song of the directory of least weight. |
| SongFiles.ChooseSongByNumber | GhostDrive/Program.cs:61-76 | With every stem a byte number, the song played has the smallest number. |
| SongPlayback.Split | GhostDrive/Program.cs:125 | Splitting gives at least one piece. |
| SongPlayback.SplitJoin | GhostDrive/Program.cs:125 | The pieces are comma-free and joining them with commas gives back the line. |
| SongPlayback.JoinSplit | GhostDrive/Program.cs:125 | Comma-free pieces come back unchanged from splitting their join. |
| SongPlayback.ParseUShort | GhostDrive/Program.cs:129 | Succeeds exactly on digit strings below 2^16. |
| SongPlayback.ParseInt | GhostDrive/Program.cs:130 | Any value parsed is in the 32-bit signed range. |
| SongPlayback.IntRoundTrip | GhostDrive/Program.cs:130 | Every 32-bit value survives rendering and parsing. |
| SongPlayback.ParseEntry | GhostDrive/Program.cs:125-131 | A parsed voice is 0 or 1. Failures are a parse error or an index fault. |
| SongPlayback.EntryRoundTrip | GhostDrive/Program.cs:125-131 | Every well-formed line reads back as its entry; no octave field gives octave 0. |
| SongPlayback.EntryErrors | GhostDrive/Program.cs:125-131 | Evaluation order decides the exception: a voice out of range is caught only after the track field parses. |
| SongPlayback.ReadEntries | GhostDrive/Program.cs:121-132 | The table keeps its two slots. |
| SongPlayback.ReadDescriptor | GhostDrive/Program.cs:115-133 | An empty file is an argument error. Otherwise the MIDI path is the root combined with the first line. |
| SongPlayback.BlankEnds | GhostDrive/Program.cs:124 | Nothing after a blank line is read, not even a line that would not parse. |
| SongPlayback.ReadEntriesFails | GhostDrive/Program.cs:121-132 | Reading fails exactly when some table line does not parse. |
| SongPlayback.LastWins | GhostDrive/Program.cs:127-131 | Each voice's slot holds the entry of the last line naming it. |
| SongPlayback.Body | GhostDrive/Program.cs:121-124 | The table lines are the blank-free prefix ended by the first blank line. |
| SongPlayback.ReadsBody | GhostDrive/Program.cs:121-124 | Reading stops at the first blank line. |
| SongPlayback.DescriptorTable | GhostDrive/Program.cs:115-133 | A descriptor fails exactly when a table line does not parse. Otherwise each voice's entry comes from the last table line naming it, or is null. |
| SongPlayback.Elapsed | GhostDrive/Program.cs:140 | `evt.Time - lastTime` wraps modulo 2^32 when the time is earlier. |
| SongPlayback.WaitTicksAsWritten | GhostDrive/Program.cs:140 | The handlers' formula fails with a division by zero exactly at zero ticks per beat. |
| SongPlayback.WaitTicks | GhostDrive/Program.cs:140 | The corrected wait is the floor of elapsed × tempo × 10 / ticks-per-beat, or a division by zero. |
| SongPlayback.WaitMs | GhostDrive/Program.cs:140-142 | The corrected sleep, with the product formed in 64 bits: the whole milliseconds of elapsed × tempo / ticks-per-beat microseconds. |
| SongPlayback.SleepMs | GhostDrive/Program.cs:140-142 | The sleep as written: the whole milliseconds of the wrapped `uint` product elapsed × tempo over ticks-per-beat microseconds, never longer than the corrected wait; a division by zero exactly at zero ticks per beat. |
| SongPlayback.WaitAgreesWithoutWrap | GhostDrive/Program.cs:140 | Without overflow of the `uint` product, the as-written and the corrected formulas agree. |
| SongPlayback.WaitExamples | GhostDrive/Program.cs:140-142 | 240 ticks at 480 ticks per beat and 500000 µs per beat wait 250 ms. A note at the previous time waits 0. |
| SongPlayback.WaitWrapShortens | GhostDrive/Program.cs:140-142 | A 9000-tick gap at 500000 µs per beat waits 427 ms as written instead of 9375 ms. |
| SongPlayback.Handle | GhostDrive/Program.cs:138-161 | A handler call fails exactly at zero ticks per beat. Otherwise `lastTime` becomes the event's time. |
| SongPlayback.Routing | GhostDrive/Program.cs:145-160 | Each voice is called with the event's note call exactly when the event is on its track, the remote voice first; nothing else is called. |
| SongPlayback.HandleAdds | GhostDrive/Program.cs:138-161 | One call adds one sleep, of the as-written wait, and the note call to each voice whose track the event is on. |
| SongPlayback.RoutingSleepsNot | GhostDrive/Program.cs:145-148 | Routing makes no sleep. |
| SongPlayback.RoutingCalls | GhostDrive/Program.cs:145-160 | A voice is called exactly when the event is on its track. |
| SongPlayback.HandleAll | GhostDrive/Program.cs:138-161 | The handlers over a trace fail, with a division by zero, exactly when there is an event and zero ticks per beat; otherwise they only append actions and end with `lastTime` at the last event's time. |
| SongPlayback.HandleAllFails | GhostDrive/Program.cs:138-161 | The handlers fail exactly when there is an event and zero ticks per beat. |
| SongPlayback.HandleAllLast | GhostDrive/Program.cs:144 | `lastTime` ends at the time of the last event. |
| SongPlayback.HandleAllRoutes | GhostDrive/Program.cs:145-160 | Each voice gets the note calls of exactly its track's events, in delivery order. |
| SongPlayback.HandleAllWaits | GhostDrive/Program.cs:140-144 | One sleep per event, each the as-written wait from the previous event (or from the initial `lastTime`). |
| SongPlayback.WaitsStep | GhostDrive/Program.cs:140-144 | One event of that induction. |
| SongPlayback.SleepWithinSpan | GhostDrive/Program.cs:138-156 | At a steady tempo over events in time order, the total sleep as written never exceeds the span of the events: the wrapped product only shortens a wait. |
| SongPlayback.SleepStep | GhostDrive/Program.cs:140-144 | One handler call, its wrapped product no larger than the true one, within that bound. |
| SongPlayback.Session | GhostDrive/Program.cs:162-168 | A session ends with a null reference, a division by zero, or no fault; a null reference comes before any enable call, and a complete session ends by disabling both voices. |
| SongPlayback.SessionFaults | GhostDrive/Program.cs:162-168 | A session faults with a null reference exactly when a voice has no entry. It faults with a division by zero exactly when there is a note and zero ticks per beat. |
| SongPlayback.SessionCallsTo | GhostDrive/Program.cs:162-168 | A complete session sets one voice's modulation, enables it, plays exactly its track's notes in order, and disables it. |
| SongPlayback.CallsToSession | GhostDrive/Program.cs:162-168 | The calls on one voice of the set-up calls, the handlers' calls and the closing calls. |
| SongPlayback.SessionCalls | GhostDrive/Program.cs:162-168 | The calls on both voices of a complete session. |

## Left out

- The reader thread of `XBeeDevice`, its `AutoResetEvent`, `Monitor` locking, and the `Close` spin on the thread state: concurrency. Each call of the reader is modelled as one `EnsureReadFrame` over the input it sees.
- `GuaranteedRead`'s polling wait: timing only. The input is a byte sequence, and "Starved" stands for waiting forever.
- The bytes of the reader's 512-byte buffer past the current frame: the model reports only the frame's `Length + 1` bytes.
- XBee.ReadFrame: a declared length above 512 is modelled as a fault (`Failed(CapacityError)`), where the source's array read would throw.
- `Path.Combine` forms with drive letters or rooted second arguments: the card root and file names are plain.
- SongPlayback.ParseInt: .NET's leading and trailing whitespace and a leading '+' are not accepted.
- SongFiles.ParseByte: accepts ASCII digits only. .NET's leading and trailing whitespace and a leading sign are not accepted, and an overflowing number and a malformed one are the same failure; song file stems on the card are plain numbers.
- SongPlayback.ParseUShort: accepts ASCII digits only. .NET's leading and trailing whitespace and a leading sign are not accepted; descriptor fields are plain numbers.
- SongFiles.Lower: lower-cases ASCII letters only, with no culture rules.
- `StreamReader.ReadLine`, `File.OpenRead` and `Directory.GetFiles`: the descriptor's lines and the directory listing are parameters.
- The FloppySynth hardware voice and `IFloppySynth`: voices are sinks that record the calls made on them.
- `Thread.Abort` in `StopSong`, the `OnPlaySong`/`OnStopSong` events, and the SD card insert/eject plumbing in `Main`: threads and hardware.
- CommonSource/Control.cs, CommonSource/Test.cs and the GhostSlave program: context, not part of this model.
- `Debug.Print` and `Util.DebugPrint`: logging only.
- The inbound decoder of 0x65 sub-frames on the slave side: it is not in the modelled files.
- LegacyParser.BurnTrackChunk: a seek past the end of the file is kept as a position beyond the data; later reads then fail as short reads.
- A C# exception part-way through an operation leaves partly updated fields. The model returns an error and drops the partial state.
- SongPlayback.WaitTicks: the `long` part of the delay formula is exact integer arithmetic; it cannot overflow for 32-bit inputs.
- The evaluation order of a C# array store (`trackMap[synth] = …` evaluates the index before the right-hand side, faulting later): only the resulting exception is modelled, in `SongPlayback.ParseEntry`.
- MidiStream.ReadUInt16: a short read is `Err(Truncated)`. The source ignores the count `Read` returns and reuses stale buffer bytes.
- MidiStream.ReadUInt32: a short read is `Err(Truncated)`, as for the 16-bit reader.
- MidiStream.ReadVarUInt32: reading at the end of the stream is `Err(Truncated)`. The source's `ReadByte` returns -1 there, which casts to 0xFFFFFFFF.
- MidiPlayerProofs.PlayInOrder: proved only for a `Play` that starts from Stopped with an empty queue, and only while every tick count stays below 2^32. After a `Stop` mid-song the tracks are still queued when `Play` primes them again.
- MidiPlayerProofs.RunResumes: the true-answer clause excludes a Resume landing after the last guard, because the code as written then ends the song early (see Findings).
- MidiPlayerProofs.PlayResumes: the true-answer clause excludes a Resume landing after the last guard, for the same reason.
- Calls from other threads land only between the steps of the model: before a guard check, or between the last guard and the `switch`. A call landing inside an iteration takes effect at the next guard, which the schedule expresses.
- PriorityQueue.Pop: requires a non-empty queue. The source faults on `store[-1]` there, and no caller pops an empty queue.

## Findings

| source | as written | input that shows it | evidently intended | confidence | as-written member | corrected member |
|---|---|---|---|---|---|---|
| GhostDrive/XBee.cs:128-163 | `EnsureReadFrame` starts its delimiter hunt with `Buffer[0]` as the previous frame left it, which is the first payload byte. | Frames `7E 00 02 90 7E F1` then `7E 00 02 90 01 6E`: the second call takes the stale 0x7E for a delimiter, reads the real delimiter as a length byte, and loses the second frame. | Each call hunts for a fresh delimiter. | not executed | XBee.StaleDelimiterLosesFrame | XBee.ReceiveInTurn |
| GhostDrive/XBee.cs:52-64 | `Dispose` joins `thread` without a null check. | `Dispose` on a device that was never opened throws a null reference after the state is set to Disposed, so the port is never disposed. | Join the reader only if it was started, then dispose the port. | not executed | XBee.DisposeUnopenedFaults | XBee.DisposeChecked |
| CommonSource/MidiCore.cs:290-313 | The final `switch` reads `state` afresh after the loop's guard. | A `Pause` lands before a guard while events are queued, so the loop ends; a `Resume` lands before the `switch`, which finds Playing, sets Stopped and answers true with the events undelivered. A caller looping `while (!midi.Play())` stops the song early. | The switch acts on the state the guard saw, so a true answer means the song was played to its end. | not executed | MidiPlayerProofs.PauseResumeAtGuardEndsSong | MidiPlayerProofs.RunSeenEndsSong |
| GhostDrive/Program.cs:140 | `(evt.Time - lastTime) * midi.Tempo` is a `uint` product and wraps before widening to `long`. | A gap of 9000 ticks at tempo 500000 and 480 ticks per beat sleeps 427 ms instead of 9375 ms. | The product is formed in 64 bits. | not executed | SongPlayback.WaitWrapShortens | SongPlayback.WaitMs |
