/** `MidiFile.Play`, `Pause`, `Resume` and `Stop` of CommonSource/MidiCore.cs:
    a merge of the track cursors through the priority queue, keyed by the
    time of each cursor's current event.

    The note handlers are a trace: every NoteOn or NoteOff the loop delivers
    is appended together with the tempo a handler would read at that moment.
    `Pause`, `Resume` and `Stop` are called from other threads; they only
    write `state`, which the loop reads at its guard and again in the
    `switch` after it, so a schedule gives the call (if any) that lands
    before each evaluation of the guard, and one more call may land between
    the guard that ends the loop and the `switch`. */
module MidiPlayer {
  import opened Common
  import opened PriorityQueue
  import opened MidiTrack
  import MidiFile

  datatype State = Stopped | Playing | Paused

  /** One handler call: the note event delivered, and the file's tempo at
      that moment. */
  datatype Dispatch = Dispatch(kind: NoteKind, trackId: u16, time: u32, note: byte, tempo: u32)

  datatype Player = Player(data: seq<byte>, tracks: seq<Track>, state: State,
                           queue: Option<Heap<nat>>, tempo: u32, trace: seq<Dispatch>)

  /** `Current.Time` of a cursor (0 before its first event). */
  function EventTime(t: Track): nat
  {
    if t.current.Some? then t.current.value.time else 0
  }

  /** The weight the queue is created with: the time of the current event
      of the track at that index, read afresh on every comparison. */
  function Weight(tracks: seq<Track>): nat -> nat
  {
    (i: nat) => if i < |tracks| then EventTime(tracks[i]) else 0
  }

  /** The queue has one slot per track and every queued index names a
      track that holds an event. */
  predicate Names(q: Heap<nat>, tracks: seq<Track>)
  {
    && WellFormed(q) && Capacity(q) == |tracks|
    && forall x :: x in Held(q) ==> x.Some? && x.value < |tracks| && tracks[x.value].current.Some?
  }

  /** The scheduler's invariant: outside the Stopped state the queue
      exists, and it names only tracks that hold an event. */
  predicate Sched(p: Player)
  {
    && (p.state != Stopped ==> p.queue.Some?)
    && (p.queue.Some? ==> Names(p.queue.value, p.tracks))
  }

  /** A cursor that held an event still holds one after it moves on, so the
      queue keeps naming only tracks with events. */
  lemma NamesAfterAdvance(q: Heap<nat>, tracks: seq<Track>, i: nat, t: Track)
    requires Names(q, tracks) && i < |tracks|
    requires tracks[i].current.Some? ==> t.current.Some?
    ensures Names(q, tracks[i := t])
  {
  }

  /** Queueing a track that holds an event keeps the queue naming only such
      tracks. */
  lemma NamesAfterPush(q: Heap<nat>, q': Heap<nat>, tracks: seq<Track>, i: nat, weight: nat -> nat)
    requires Names(q, tracks) && i < |tracks| && tracks[i].current.Some?
    requires Push(q, i, weight) == Ok(q')
    ensures Names(q', tracks)
  {
  }

  /** A player for a freshly opened file: stopped, no queue yet, no calls
      delivered. */
  function Load(data: seq<byte>, f: MidiFile.MidiFile): (p: Player)
    ensures Sched(p) && p.state == Stopped && p.trace == []
    ensures p.tracks == f.tracks && p.tempo == f.tempo
  {
    Player(data, f.tracks, Stopped, None, f.tempo, [])
  }

  // ---------------------------------------------------------------------
  // Progress measure

  /** Bytes a cursor has still to read. */
  function Left(data: seq<byte>, t: Track): nat
  {
    if t.pos < |data| then |data| - t.pos else 0
  }

  function Remaining(data: seq<byte>, tracks: seq<Track>): nat
  {
    if |tracks| == 0 then 0 else Left(data, tracks[0]) + Remaining(data, tracks[1..])
  }

  lemma {:induction false} RemainingUpdate(data: seq<byte>, tracks: seq<Track>, i: nat, t: Track)
    requires i < |tracks|
    ensures Remaining(data, tracks[i := t]) + Left(data, tracks[i]) == Remaining(data, tracks) + Left(data, t)
    decreases |tracks|
  {
    if i == 0 {
      assert tracks[i := t][1..] == tracks[1..];
    } else {
      assert tracks[i := t][1..] == tracks[1..][i - 1 := t];
      RemainingUpdate(data, tracks[1..], i - 1, t);
    }
  }

  // ---------------------------------------------------------------------
  // The loop body

  /** Deliver an event: a note goes to its handler (the trace), a set-tempo
      event replaces `Tempo`. */
  function Deliver(p: Player, ev: Event): (r: Player)
    ensures r.data == p.data && r.tracks == p.tracks && r.state == p.state && r.queue == p.queue
    ensures ev.NoteEvent? ==> r.trace == p.trace + [Dispatch(ev.kind, ev.trackId, ev.time, ev.note, p.tempo)]
                              && r.tempo == p.tempo
    ensures ev.SetTempoEvent? ==> r.trace == p.trace && r.tempo == ev.tempo
  {
    match ev
    case NoteEvent(kind, id, time, note) => p.(trace := p.trace + [Dispatch(kind, id, time, note, p.tempo)])
    case SetTempoEvent(_, _, tempo) => p.(tempo := tempo)
  }

  /** The track the next step pops: the root of the queue. */
  function Next(p: Player): (i: nat)
    requires Sched(p) && p.queue.Some? && !IsEmpty(p.queue.value)
    ensures i < |p.tracks| && p.tracks[i].current.Some?
    ensures Some(i) in Held(p.queue.value)
  {
    PopFromSched(p);
    Pop(p.queue.value, Weight(p.tracks)).0
  }

  /** One iteration of the `while` loop in `Play`: pop the earliest track,
      deliver its event, move it on, and queue it again if it has another
      event. Pushing back cannot overflow, because the pop freed a slot;
      only the decoder can fail. */
  function Step(p: Player): (r: Result<Player>)
    requires Sched(p) && p.queue.Some? && !IsEmpty(p.queue.value)
    ensures r.Ok? ==> && Sched(r.value) && r.value.queue.Some?
                      && r.value.data == p.data && r.value.state == p.state
                      && |r.value.tracks| == |p.tracks|
                      && Remaining(r.value.data, r.value.tracks) < Remaining(p.data, p.tracks)
                      && p.trace <= r.value.trace
    ensures r.Ok? ==> forall k :: 0 <= k < |p.tracks| && k != Next(p) ==> r.value.tracks[k] == p.tracks[k]
    ensures r.Ok? ==> && r.value.tracks[Next(p)].ticks >= p.tracks[Next(p)].ticks
                      && r.value.tracks[Next(p)].id == p.tracks[Next(p)].id
    ensures r.Ok? ==> var ev := p.tracks[Next(p)].current.value;
      if ev.NoteEvent? then
        r.value.trace == p.trace + [Dispatch(ev.kind, ev.trackId, ev.time, ev.note, p.tempo)]
        && r.value.tempo == p.tempo
      else r.value.trace == p.trace && r.value.tempo == ev.tempo
    ensures r.Err? ==> r.error == Truncated || r.error == DecodeError
  {
    PopFromSched(p);
    match Advance(p.data, p.tracks[Next(p)])
    case Err(e) => Err(e)
    case Ok((t, more)) => Ok(Requeue(p, t, more))
  }

  /** The rest of a step once the popped track has moved on to `t`. The
      push cannot overflow: the pop has just freed a slot. */
  function Requeue(p: Player, t: Track, more: bool): (r: Player)
    requires Sched(p) && p.queue.Some? && !IsEmpty(p.queue.value)
    requires Advance(p.data, p.tracks[Next(p)]) == Ok((t, more))
    ensures && Sched(r) && r.queue.Some?
            && r.data == p.data && r.state == p.state
            && |r.tracks| == |p.tracks|
            && Remaining(r.data, r.tracks) < Remaining(p.data, p.tracks)
            && p.trace <= r.trace
    ensures forall k :: 0 <= k < |p.tracks| && k != Next(p) ==> r.tracks[k] == p.tracks[k]
    ensures && r.tracks[Next(p)].ticks >= p.tracks[Next(p)].ticks
            && r.tracks[Next(p)].id == p.tracks[Next(p)].id
    ensures var ev := p.tracks[Next(p)].current.value;
      if ev.NoteEvent? then
        r.trace == p.trace + [Dispatch(ev.kind, ev.trackId, ev.time, ev.note, p.tempo)]
        && r.tempo == p.tempo
      else r.trace == p.trace && r.tempo == ev.tempo
  {
    var i := Next(p);
    var q1 := Pop(p.queue.value, Weight(p.tracks)).1;
    PopFromSched(p);
    var p1 := Deliver(p, p.tracks[i].current.value);
    var ts := p.tracks[i := t];
    RemainingUpdate(p.data, p.tracks, i, t);
    var q2 := if more then Push(q1, i, Weight(ts)).value else q1;
    QueueAfterStep(p, t, more, q2);
    p1.(tracks := ts, queue := Some(q2))
  }

  /** What the pop at the head of a step leaves: an index naming a track
      with an event, a free slot, and a subset of what was held. */
  lemma PopFromSched(p: Player)
    requires Sched(p) && p.queue.Some? && !IsEmpty(p.queue.value)
    ensures var popped := Pop(p.queue.value, Weight(p.tracks));
      && popped.0 < |p.tracks| && p.tracks[popped.0].current.Some?
      && Names(popped.1, p.tracks) && popped.1.bottom < |p.tracks|
  {
    var popped := Pop(p.queue.value, Weight(p.tracks));
    assert Some(popped.0) in Held(p.queue.value);
  }

  /** The queue after a step, whether or not the track was queued again,
      still names only tracks that hold an event. */
  lemma QueueAfterStep(p: Player, t: Track, more: bool, q2: Heap<nat>)
    requires Sched(p) && p.queue.Some? && !IsEmpty(p.queue.value)
    requires Advance(p.data, p.tracks[Next(p)]) == Ok((t, more))
    requires more ==> Push(Pop(p.queue.value, Weight(p.tracks)).1, Next(p), Weight(p.tracks[Next(p) := t])) == Ok(q2)
    requires !more ==> q2 == Pop(p.queue.value, Weight(p.tracks)).1
    ensures Names(q2, p.tracks[Next(p) := t])
  {
    PopFromSched(p);
    var q1 := Pop(p.queue.value, Weight(p.tracks)).1;
    NamesAfterAdvance(q1, p.tracks, Next(p), t);
    if more {
      NamesAfterPush(q1, q2, p.tracks[Next(p) := t], Next(p), Weight(p.tracks[Next(p) := t]));
    }
  }

  // ---------------------------------------------------------------------
  // Calls from other threads

  datatype Control = NoCall | PauseCall | ResumeCall | StopCall

  /** `Pause` acts only while playing. */
  function Pause(p: Player): (r: Player)
    ensures r.state == Paused <==> p.state in {Playing, Paused}
    ensures r.(state := p.state) == p
  {
    if p.state == Playing then p.(state := Paused) else p
  }

  /** `Resume` acts only while paused. */
  function Resume(p: Player): (r: Player)
    ensures r.state == Playing <==> p.state in {Playing, Paused}
    ensures r.(state := p.state) == p
  {
    if p.state == Paused then p.(state := Playing) else p
  }

  /** `Stop` is unconditional. */
  function Stop(p: Player): (r: Player)
    ensures r.state == Stopped && r.(state := p.state) == p
  {
    p.(state := Stopped)
  }

  function Call(p: Player, c: Control): (r: Player)
    ensures r.(state := p.state) == p
    ensures r.data == p.data && r.tracks == p.tracks && r.queue == p.queue && r.trace == p.trace
    ensures Sched(p) && p.queue.Some? ==> Sched(r)
  {
    match c
    case NoCall => p
    case PauseCall => Pause(p)
    case ResumeCall => Resume(p)
    case StopCall => Stop(p)
  }

  /** The `while` loop of `Play` under a schedule of calls: before each
      evaluation of the guard the next call of the schedule (if any) takes
      effect; the loop runs while the queue is not empty and the state is
      Playing. */
  function Loop(p: Player, sched: seq<Control>): (r: Result<Player>)
    requires Sched(p) && p.queue.Some?
    ensures r.Ok? ==> && Sched(r.value) && r.value.queue.Some?
                      && r.value.data == p.data && |r.value.tracks| == |p.tracks|
                      && (r.value.state != Playing || IsEmpty(r.value.queue.value))
                      && p.trace <= r.value.trace
    ensures r.Err? ==> r.error == Truncated || r.error == DecodeError
    decreases Remaining(p.data, p.tracks)
  {
    var p1 := if |sched| > 0 then Call(p, sched[0]) else p;
    var rest := if |sched| > 0 then sched[1..] else [];
    if IsEmpty(p1.queue.value) || p1.state != Playing then Ok(p1)
    else
      match Step(p1)
      case Err(e) => Err(e)
      case Ok(p2) => Loop(p2, rest)
  }

  /** The loop with nobody calling in. */
  function Drain(p: Player): Result<Player>
    requires Sched(p) && p.queue.Some?
  {
    Loop(p, [])
  }

  // ---------------------------------------------------------------------
  // Play

  /** The `foreach` over the tracks when playing starts: each track moves
      to its first event and is queued if it has one. */
  function PrimeFrom(data: seq<byte>, tracks: seq<Track>, q: Heap<nat>, i: nat): (r: Result<(seq<Track>, Heap<nat>)>)
    requires i <= |tracks| && Names(q, tracks)
    ensures r.Ok? ==> && |r.value.0| == |tracks| && Names(r.value.1, r.value.0)
                      && (forall k :: 0 <= k < i ==> r.value.0[k] == tracks[k])
    ensures r.Err? ==> r.error in {Truncated, DecodeError, CapacityError}
    ensures r.Err? && q.bottom <= i ==> r.error != CapacityError
    decreases |tracks| - i
  {
    if i == |tracks| then Ok((tracks, q))
    else
      match Advance(data, tracks[i])
      case Err(e) => Err(e)
      case Ok((t, more)) =>
        var ts := tracks[i := t];
        NamesAfterAdvance(q, tracks, i, t);
        if more then
          match Push(q, i, Weight(ts))
          case Err(e) => Err(e)
          case Ok(q') =>
            NamesAfterPush(q, q', ts, i, Weight(ts));
            PrimeFrom(data, ts, q', i + 1)
        else PrimeFrom(data, ts, q, i + 1)
  }

  /** The Stopped case of `Play`: the queue is created on first use only,
      then every track is primed and the state becomes Playing. */
  function Prime(p: Player): (r: Result<Player>)
    requires Sched(p) && p.state == Stopped
    ensures r.Ok? ==> && Sched(r.value) && r.value.state == Playing && r.value.queue.Some?
                      && r.value.data == p.data && |r.value.tracks| == |p.tracks|
                      && r.value.trace == p.trace && r.value.tempo == p.tempo
    ensures p.queue.None? || IsEmpty(p.queue.value) ==> r.Err? ==> r.error != CapacityError
  {
    var q := if p.queue.Some? then p.queue.value else New(|p.tracks|);
    match PrimeFrom(p.data, p.tracks, q, 0)
    case Err(e) => Err(e)
    case Ok((ts, q')) => Ok(p.(tracks := ts, queue := Some(q'), state := Playing))
  }

  /** What priming from index `i` leaves, as the tracks `rt` and the
      queued multiset `hr` against the queued multiset `hq` before: the
      tracks before `i` are queued as often as before, and every track from
      `i` on has moved to its first event and is queued once more than
      before if it has one. */
  predicate Primed(data: seq<byte>, tracks: seq<Track>, hq: multiset<Option<nat>>, i: nat,
                   rt: seq<Track>, hr: multiset<Option<nat>>)
    requires i <= |tracks| == |rt|
  {
    && (forall k :: 0 <= k < i ==> hr[Some(k)] == hq[Some(k)])
    && PrimedFrom(data, tracks, hq, i, rt, hr)
  }

  /** The second half of `Primed`. */
  predicate PrimedFrom(data: seq<byte>, tracks: seq<Track>, hq: multiset<Option<nat>>, i: nat,
                       rt: seq<Track>, hr: multiset<Option<nat>>)
    requires i <= |tracks| == |rt|
  {
    forall k :: i <= k < |tracks| ==> PrimedAt(data, tracks[k], hq[Some(k)], rt[k], hr[Some(k)])
  }

  /** One track primed: `t` has moved to `r`, its first event, and is
      queued `after` times, once more than `before` if it has one. */
  predicate PrimedAt(data: seq<byte>, t: Track, before: nat, r: Track, after: nat)
  {
    && Advance(data, t).Ok?
    && r == Advance(data, t).value.0
    && after == before + (if Advance(data, t).value.1 then 1 else 0)
  }

  /** Priming queues exactly the tracks whose first `MoveNext` answers
      true, and leaves every track at its first event. */
  lemma {:induction false} PrimeQueuesEvery(data: seq<byte>, tracks: seq<Track>, q: Heap<nat>, i: nat)
    requires i <= |tracks| && Names(q, tracks)
    ensures PrimeFrom(data, tracks, q, i).Ok? ==>
              var r := PrimeFrom(data, tracks, q, i).value;
              Primed(data, tracks, Held(q), i, r.0, Held(r.1))
    decreases |tracks| - i
  {
    if i < |tracks| && PrimeFrom(data, tracks, q, i).Ok? {
      var t, more, q' := PrimeOne(data, tracks, q, i);
      var ts := tracks[i := t];
      PrimeQueuesEvery(data, ts, q', i + 1);
      var r := PrimeFrom(data, ts, q', i + 1).value;
      assert r.0[i] == ts[i];
      PrimeQueuesStep(data, tracks, Held(q), i, t, more, Held(q'), r.0, Held(r.1));
    }
  }

  /** The first step of `PrimeFrom` that succeeds: track `i` advances to
      `t`, and is pushed if `more`. */
  lemma PrimeOne(data: seq<byte>, tracks: seq<Track>, q: Heap<nat>, i: nat) returns (t: Track, more: bool, q': Heap<nat>)
    requires i < |tracks| && Names(q, tracks) && PrimeFrom(data, tracks, q, i).Ok?
    ensures Advance(data, tracks[i]) == Ok((t, more))
    ensures Names(q', tracks[i := t])
    ensures Held(q') == Held(q) + (if more then multiset{Some(i)} else multiset{})
    ensures PrimeFrom(data, tracks, q, i) == PrimeFrom(data, tracks[i := t], q', i + 1)
  {
    t := Advance(data, tracks[i]).value.0;
    more := Advance(data, tracks[i]).value.1;
    var ts := tracks[i := t];
    NamesAfterAdvance(q, tracks, i, t);
    q' := if more then Push(q, i, Weight(ts)).value else q;
    if more {
      NamesAfterPush(q, q', ts, i, Weight(ts));
    }
  }

  /** One track of `PrimeQueuesEvery`: what priming from the next track
      gives, with this track's own push, is what priming from this track
      gives. */
  lemma PrimeQueuesStep(data: seq<byte>, tracks: seq<Track>, hq: multiset<Option<nat>>, i: nat, t: Track, more: bool,
                        hq': multiset<Option<nat>>, rt: seq<Track>, hr: multiset<Option<nat>>)
    requires i < |tracks| == |rt| && rt[i] == t
    requires Advance(data, tracks[i]) == Ok((t, more))
    requires hq' == hq + (if more then multiset{Some(i)} else multiset{})
    requires Primed(data, tracks[i := t], hq', i + 1, rt, hr)
    ensures Primed(data, tracks, hq, i, rt, hr)
  {
    forall k | 0 <= k < |tracks| && k != i
      ensures hq'[Some(k)] == hq[Some(k)]
    {
    }
    assert hr[Some(i)] == hq'[Some(i)] == hq[Some(i)] + (if more then 1 else 0);
    PrimedFromStep(data, tracks, hq, i, t, more, hq', rt, hr);
  }

  /** Track `i` primed, the tracks after `i` untouched by its push. */
  lemma PrimedFromStep(data: seq<byte>, tracks: seq<Track>, hq: multiset<Option<nat>>, i: nat, t: Track, more: bool,
                       hq': multiset<Option<nat>>, rt: seq<Track>, hr: multiset<Option<nat>>)
    requires i < |tracks| == |rt| && rt[i] == t
    requires Advance(data, tracks[i]) == Ok((t, more))
    requires hr[Some(i)] == hq[Some(i)] + (if more then 1 else 0)
    requires forall k :: i < k < |tracks| ==> hq'[Some(k)] == hq[Some(k)]
    requires PrimedFrom(data, tracks[i := t], hq', i + 1, rt, hr)
    ensures PrimedFrom(data, tracks, hq, i, rt, hr)
  {
    forall k | i <= k < |tracks|
      ensures PrimedAt(data, tracks[k], hq[Some(k)], rt[k], hr[Some(k)])
    {
      if k > i {
        assert tracks[i := t][k] == tracks[k];
        assert PrimedAt(data, tracks[i := t][k], hq'[Some(k)], rt[k], hr[Some(k)]);
      }
    }
  }

  /** Started with an empty queue, priming moves every track to its first
      event and queues, once each, exactly the tracks that have one. */
  lemma PrimeQueuesAll(p: Player)
    requires Sched(p) && p.state == Stopped && (p.queue.None? || IsEmpty(p.queue.value))
    ensures Prime(p).Ok? ==>
      var r := Prime(p).value;
      forall k :: 0 <= k < |p.tracks| ==>
        && Advance(p.data, p.tracks[k]).Ok?
        && r.tracks[k] == Advance(p.data, p.tracks[k]).value.0
        && Held(r.queue.value)[Some(k)] == (if Advance(p.data, p.tracks[k]).value.1 then 1 else 0)
  {
    var q := if p.queue.Some? then p.queue.value else New(|p.tracks|);
    IsEmptyIffNothingHeld(q);
    PrimeQueuesEvery(p.data, p.tracks, q, 0);
    if Prime(p).Ok? {
      var r := PrimeFrom(p.data, p.tracks, q, 0).value;
      forall k | 0 <= k < |p.tracks|
        ensures PrimedAt(p.data, p.tracks[k], 0, r.0[k], Held(r.1)[Some(k)])
      {
        assert PrimedAt(p.data, p.tracks[k], Held(q)[Some(k)], r.0[k], Held(r.1)[Some(k)]);
      }
    }
  }

  /** The `switch` after the loop. */
  function Finish(p: Player): (r: (Player, bool))
    ensures r.1 <==> p.state != Paused
    ensures r.0.state == (if p.state == Paused then Paused else Stopped)
    ensures r.0.(state := p.state) == p
  {
    match p.state
    case Stopped => (p, true)
    case Paused => (p, false)
    case Playing => (p.(state := Stopped), true)
  }

  /** `Play` under a schedule of calls from other threads, `sched` before
      each evaluation of the loop guard and `late` between the last guard
      and the final `switch`. From Paused it returns false at once; from
      Stopped it primes the tracks first; it answers true (and leaves the
      player Stopped) unless the `switch` finds it Paused, and false
      (Paused) then. */
  function PlaySpec(p: Player, sched: seq<Control>, late: Control): (r: Result<(Player, bool)>)
    requires Sched(p)
    ensures p.state == Paused ==> r == Ok((p, false))
    ensures r.Ok? ==> && Sched(r.value.0) && r.value.0.data == p.data
                      && |r.value.0.tracks| == |p.tracks| && p.trace <= r.value.0.trace
    ensures r.Ok? ==> (r.value.1 <==> r.value.0.state == Stopped)
    ensures r.Ok? ==> (!r.value.1 <==> r.value.0.state == Paused)
    ensures (r.Ok? && NoPause(sched) && late in {NoCall, ResumeCall} && p.state != Paused)
              ==> r.value.1 && r.value.0.queue.Some? && IsEmpty(r.value.0.queue.value)
  {
    match p.state
    case Paused => Ok((p, false))
    case Stopped =>
      (match Prime(p)
       case Err(e) => Err(e)
       case Ok(p1) => Run(p1, sched, late))
    case Playing => Run(p, sched, late)
  }

  /** The loop of `Play`, the call that lands after its last guard, and
      the `switch` after it. */
  function Run(p: Player, sched: seq<Control>, late: Control): (r: Result<(Player, bool)>)
    requires Sched(p) && p.state == Playing
    ensures r.Ok? ==> && Sched(r.value.0) && r.value.0.data == p.data
                      && |r.value.0.tracks| == |p.tracks| && p.trace <= r.value.0.trace
    ensures r.Ok? ==> (r.value.1 <==> r.value.0.state == Stopped)
    ensures r.Ok? ==> (!r.value.1 <==> r.value.0.state == Paused)
    ensures (r.Ok? && NoPause(sched) && late in {NoCall, ResumeCall})
              ==> r.value.1 && r.value.0.queue.Some? && IsEmpty(r.value.0.queue.value)
  {
    LoopWithoutPauseRunsDry(p, sched);
    match Loop(p, sched)
    case Err(e) => Err(e)
    case Ok(p2) => Ok(Finish(Call(p2, late)))
  }

  /** Only calls that change nothing while playing. */
  predicate NoPause(sched: seq<Control>)
  {
    forall k :: 0 <= k < |sched| ==> sched[k] in {NoCall, ResumeCall}
  }

  lemma NoPauseTail(sched: seq<Control>)
    requires NoPause(sched)
    ensures NoPause(if |sched| > 0 then sched[1..] else [])
  {
    if |sched| > 0 {
      assert forall k :: 0 <= k < |sched| - 1 ==> sched[1..][k] == sched[k + 1];
    }
  }

  /** A loop started while playing under such calls that ends ends still
      playing, with the queue empty. */
  predicate RunsDry(p: Player, sched: seq<Control>)
    requires Sched(p) && p.queue.Some?
  {
    (NoPause(sched) && p.state == Playing && Loop(p, sched).Ok?) ==>
      Loop(p, sched).value.state == Playing && IsEmpty(Loop(p, sched).value.queue.value)
  }

  /** With only Resume calls (which do nothing while playing), the loop
      leaves only when the queue is empty, still Playing. */
  lemma {:induction false} LoopWithoutPauseRunsDry(p: Player, sched: seq<Control>)
    requires Sched(p) && p.queue.Some?
    ensures RunsDry(p, sched)
    decreases Remaining(p.data, p.tracks)
  {
    if NoPause(sched) && p.state == Playing {
      var p1 := if |sched| > 0 then Call(p, sched[0]) else p;
      var rest := if |sched| > 0 then sched[1..] else [];
      assert p1 == p;
      if !IsEmpty(p.queue.value) && Step(p).Ok? {
        var p2 := Step(p).value;
        NoPauseTail(sched);
        LoopWithoutPauseRunsDry(p2, rest);
        RunsDryStep(p, sched, p2, rest);
      }
    }
  }

  /** One event of `LoopWithoutPauseRunsDry`: the loop ends as the loop
      after the step does. */
  lemma RunsDryStep(p: Player, sched: seq<Control>, p2: Player, rest: seq<Control>)
    requires Sched(p) && p.queue.Some? && p.state == Playing && !IsEmpty(p.queue.value)
    requires (if |sched| > 0 then Call(p, sched[0]) else p) == p
    requires rest == if |sched| > 0 then sched[1..] else []
    requires NoPause(rest)
    requires Step(p) == Ok(p2) && Sched(p2) && p2.queue.Some? && p2.state == Playing
    requires RunsDry(p2, rest)
    ensures RunsDry(p, sched)
  {
    assert Loop(p, sched) == Loop(p2, rest);
  }

  /** `Play` as the source writes it: the state switch, the `while` loop
      with the calls of the schedule landing before each guard, the call
      that lands after the last guard, and the final switch. */
  /** The `while` loop of `Play`, each pass taking the next call of the
      schedule before its guard. */
  method Drive(start: Player, sched: seq<Control>) returns (r: Result<Player>)
    requires Sched(start) && start.queue.Some?
    ensures r == Loop(start, sched)
  {
    var cur := start;
    var rest := sched;
    while true
      invariant Sched(cur) && cur.queue.Some?
      invariant Loop(cur, rest) == Loop(start, sched)
      decreases Remaining(cur.data, cur.tracks)
    {
      ghost var before := Loop(cur, rest);
      if |rest| > 0 {
        cur := Call(cur, rest[0]);
        rest := rest[1..];
      }
      if IsEmpty(cur.queue.value) || cur.state != Playing {
        assert before == Ok(cur);
        break;
      }
      var next := Step(cur);
      if next.Err? {
        return Err(next.error);
      }
      cur := next.value;
    }
    return Ok(cur);
  }

  method Play(p: Player, sched: seq<Control>, late: Control) returns (r: Result<(Player, bool)>)
    requires Sched(p)
    ensures r == PlaySpec(p, sched, late)
  {
    if p.state == Paused {
      return Ok((p, false));
    }
    var cur := p;
    if p.state == Stopped {
      var primed := Prime(p);
      if primed.Err? {
        return Err(primed.error);
      }
      cur := primed.value;
    }
    var ended := Drive(cur, sched);
    if ended.Err? {
      return Err(ended.error);
    }
    cur := ended.value;
    cur := Call(cur, late);
    return Ok(Finish(cur));
  }
}
