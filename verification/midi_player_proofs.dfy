/** Properties of `MidiFile.Play` (CommonSource/MidiCore.cs) that relate
    many iterations: the notes reach the handlers in time order, and a run
    that is paused and resumed delivers what an uninterrupted run does. */
module MidiPlayerProofs {
  import opened Common
  import opened PriorityQueue
  import opened MidiTrack
  import opened MidiPlayer

  // ---------------------------------------------------------------------
  // Time order

  /** Note times never decrease along a stretch of trace. */
  predicate Chronological(trace: seq<Dispatch>)
  {
    forall j, k :: 0 <= j < k < |trace| ==> trace[j].time <= trace[k].time
  }

  /** A cursor's event carries the cursor's clock: a note the low 32 bits
      of the tick count, a tempo change time 0. */
  predicate Stamped(t: Track)
  {
    && t.current.Some?
    && (t.current.value.NoteEvent? ==> t.current.value.time == Time(t))
    && (t.current.value.SetTempoEvent? ==> t.current.value.time == 0)
  }

  /** No track is queued twice. */
  predicate Distinct(q: Heap<nat>)
    requires q.bottom <= |q.store|
  {
    forall x :: x in Held(q) ==> Held(q)[x] <= 1
  }

  /** The queue invariant of the merge: heap order under the current
      weights, each track at most once, and every queued cursor stamped
      and not behind `last`. */
  predicate QueueTimely(q: Heap<nat>, tracks: seq<Track>, last: nat)
  {
    && Names(q, tracks) && Ordered(q, Weight(tracks)) && Distinct(q)
    && forall x :: x in Held(q) ==> Stamped(tracks[x.value]) && tracks[x.value].ticks >= last
  }

  /** The notes delivered from index `n` on are in order, none later than
      `last`. */
  predicate TraceTimely(trace: seq<Dispatch>, n: nat, last: nat)
  {
    && n <= |trace| && Chronological(trace[n..])
    && forall k :: n <= k < |trace| ==> trace[k].time <= last
  }

  /** The time of the last note once the next step is taken. */
  function NextLast(p: Player, last: nat): nat
    requires Sched(p) && p.queue.Some? && !IsEmpty(p.queue.value)
  {
    var ev := p.tracks[Next(p)].current.value;
    if ev.NoteEvent? then ev.time else last
  }

  /** A stamped cursor's event time is its tick count cut to 32 bits. */
  lemma StampedTime(t: Track)
    requires Stamped(t)
    ensures EventTime(t) <= t.ticks
    ensures t.current.value.NoteEvent? && t.ticks < U32 ==> EventTime(t) == t.ticks
  {
  }

  /** Taking one item out of a multiset without repeats leaves a multiset
      without repeats that lacks the item. */
  lemma TakeDistinct<T>(m: multiset<T>, m1: multiset<T>, e: T)
    requires m == m1 + multiset{e}
    requires forall x :: x in m ==> m[x] <= 1
    ensures e !in m1
    ensures forall x :: x in m1 ==> x in m && m1[x] <= 1
  {
    assert m[e] == m1[e] + 1;
    forall x | x in m1 ensures x in m && m1[x] <= 1 {
      assert m[x] >= m1[x];
    }
  }

  /** The popped track is due: provided its clock has not wrapped, its
      event is not earlier than `last`, and every track left in the queue
      is at least as late. */
  lemma PoppedIsDue(p: Player, last: nat)
    requires Sched(p) && p.queue.Some? && !IsEmpty(p.queue.value)
    requires QueueTimely(p.queue.value, p.tracks, last)
    requires p.tracks[Next(p)].ticks < U32
    ensures last <= NextLast(p, last) <= p.tracks[Next(p)].ticks
    ensures var q1 := Pop(p.queue.value, Weight(p.tracks)).1;
      && Some(Next(p)) !in Held(q1) && Distinct(q1) && Ordered(q1, Weight(p.tracks))
      && forall y :: y in Held(q1) ==> NextLast(p, last) <= p.tracks[y.value].ticks
  {
    var q := p.queue.value;
    var i := Next(p);
    var w := Weight(p.tracks);
    var q1 := Pop(q, w).1;
    TakeDistinct(Held(q), Held(q1), Some(i));
    StampedTime(p.tracks[i]);
    forall y | y in Held(q1) ensures NextLast(p, last) <= p.tracks[y.value].ticks {
      DueBefore(p, last, y);
    }
  }

  /** A track still queued after the pop is not earlier than the popped one. */
  lemma DueBefore(p: Player, last: nat, y: Option<nat>)
    requires Sched(p) && p.queue.Some? && !IsEmpty(p.queue.value)
    requires QueueTimely(p.queue.value, p.tracks, last)
    requires y in Held(p.queue.value)
    ensures NextLast(p, last) <= p.tracks[y.value].ticks
  {
    var ty := p.tracks[y.value];
    StampedTime(ty);
    assert Weight(p.tracks)(Next(p)) <= Weight(p.tracks)(y.value);
  }

  /** Moving on a track that is not queued leaves the invariant of the
      queue intact. */
  lemma Rekey(q: Heap<nat>, tracks: seq<Track>, i: nat, t: Track, last: nat)
    requires QueueTimely(q, tracks, last) && i < |tracks| && Some(i) !in Held(q)
    ensures QueueTimely(q, tracks[i := t], last)
  {
    var ts := tracks[i := t];
    forall x | x in Held(q) ensures x.Some? && x.value < |ts| && ts[x.value] == tracks[x.value] {
    }
    OrderedSameWeights(q, Weight(tracks), Weight(ts));
  }

  /** Queueing a stamped track that is not queued yet and is not behind
      `last` keeps the invariant. */
  lemma Enqueue(q: Heap<nat>, q': Heap<nat>, tracks: seq<Track>, i: nat, last: nat)
    requires QueueTimely(q, tracks, last) && i < |tracks| && Some(i) !in Held(q)
    requires Stamped(tracks[i]) && tracks[i].ticks >= last
    requires Push(q, i, Weight(tracks)) == Ok(q')
    ensures QueueTimely(q', tracks, last)
  {
    NamesAfterPush(q, q', tracks, i, Weight(tracks));
    assert Held(q') == Held(q) + multiset{Some(i)};
    forall x | x in Held(q') ensures Held(q')[x] <= 1 {
      if x != Some(i) {
        assert Held(q')[x] == Held(q)[x];
      }
    }
  }

  /** After a step the queue invariant holds with `last` moved on. */
  lemma QueueAfterTimely(p: Player, last: nat, t: Track, more: bool, q2: Heap<nat>)
    requires Sched(p) && p.queue.Some? && !IsEmpty(p.queue.value)
    requires QueueTimely(p.queue.value, p.tracks, last)
    requires Advance(p.data, p.tracks[Next(p)]) == Ok((t, more)) && t.ticks < U32
    requires more ==> Push(Pop(p.queue.value, Weight(p.tracks)).1, Next(p), Weight(p.tracks[Next(p) := t])) == Ok(q2)
    requires !more ==> q2 == Pop(p.queue.value, Weight(p.tracks)).1
    ensures QueueTimely(q2, p.tracks[Next(p) := t], NextLast(p, last))
  {
    var i := Next(p);
    var q1 := Pop(p.queue.value, Weight(p.tracks)).1;
    PoppedIsDue(p, last);
    var l' := NextLast(p, last);
    assert QueueTimely(q1, p.tracks, l') by {
      assert Names(q1, p.tracks) by { PopFromSched(p); }
    }
    Rekey(q1, p.tracks, i, t, l');
    if more {
      Enqueue(q1, q2, p.tracks[i := t], i, l');
    }
  }

  /** One step keeps both halves of the invariant. */
  lemma StepTimely(p: Player, n: nat, last: nat)
    requires Sched(p) && p.queue.Some? && !IsEmpty(p.queue.value)
    requires QueueTimely(p.queue.value, p.tracks, last) && TraceTimely(p.trace, n, last)
    requires Step(p).Ok? && Step(p).value.tracks[Next(p)].ticks < U32
    ensures last <= NextLast(p, last)
    ensures QueueTimely(Step(p).value.queue.value, Step(p).value.tracks, NextLast(p, last))
    ensures TraceTimely(Step(p).value.trace, n, NextLast(p, last))
  {
    var i := Next(p);
    var r := Advance(p.data, p.tracks[i]);
    assert r.Ok?;
    var t := r.value.0;
    var more := r.value.1;
    assert Step(p) == Ok(Requeue(p, t, more));
    var q1 := Pop(p.queue.value, Weight(p.tracks)).1;
    var q2 := if more then Push(q1, i, Weight(p.tracks[i := t])).value else q1;
    assert Step(p).value.queue == Some(q2) && Step(p).value.tracks == p.tracks[i := t];
    PoppedIsDue(p, last);
    QueueAfterTimely(p, last, t, more, q2);
    var ev := p.tracks[i].current.value;
    if ev.NoteEvent? {
      TraceAppend(p.trace, n, last, Dispatch(ev.kind, ev.trackId, ev.time, ev.note, p.tempo));
    }
  }

  /** Appending a note not earlier than `last` keeps the trace in order. */
  lemma TraceAppend(trace: seq<Dispatch>, n: nat, last: nat, d: Dispatch)
    requires TraceTimely(trace, n, last) && last <= d.time
    ensures TraceTimely(trace + [d], n, d.time)
  {
    assert (trace + [d])[n..] == trace[n..] + [d];
  }

  /** Track for track, no clock of `b` is behind the one of `a`. */
  predicate TicksKept(a: seq<Track>, b: seq<Track>)
  {
    |a| == |b| && forall k :: 0 <= k < |a| ==> a[k].ticks <= b[k].ticks
  }

  /** The loop never moves a clock back. */
  lemma {:induction false} LoopTicks(p: Player, sched: seq<Control>)
    requires Sched(p) && p.queue.Some?
    ensures Loop(p, sched).Ok? ==> TicksKept(p.tracks, Loop(p, sched).value.tracks)
    decreases Remaining(p.data, p.tracks)
  {
    var p1 := if |sched| > 0 then Call(p, sched[0]) else p;
    var rest := if |sched| > 0 then sched[1..] else [];
    if !(IsEmpty(p1.queue.value) || p1.state != Playing) && Step(p1).Ok? {
      var p2 := Step(p1).value;
      LoopTicks(p2, rest);
      LoopTicksStep(p, sched, p1, p2, rest);
    }
  }

  /** One event of `LoopTicks`: the step keeps every clock, and so does
      the loop after it. */
  lemma LoopTicksStep(p: Player, sched: seq<Control>, p1: Player, p2: Player, rest: seq<Control>)
    requires Sched(p) && p.queue.Some?
    requires p1 == (if |sched| > 0 then Call(p, sched[0]) else p)
    requires rest == if |sched| > 0 then sched[1..] else []
    requires !IsEmpty(p1.queue.value) && p1.state == Playing && Step(p1) == Ok(p2)
    requires Sched(p2) && p2.queue.Some?
    requires Loop(p2, rest).Ok? ==> TicksKept(p2.tracks, Loop(p2, rest).value.tracks)
    ensures Loop(p, sched).Ok? ==> TicksKept(p.tracks, Loop(p, sched).value.tracks)
  {
    assert Loop(p, sched) == Loop(p2, rest);
    StepKeepsTicks(p1);
    if Loop(p2, rest).Ok? {
      TicksTrans(p1.tracks, p2.tracks, Loop(p2, rest).value.tracks);
    }
  }

  /** A step moves only the popped track's clock, and only forward. */
  lemma StepKeepsTicks(p: Player)
    requires Sched(p) && p.queue.Some? && !IsEmpty(p.queue.value) && Step(p).Ok?
    ensures TicksKept(p.tracks, Step(p).value.tracks)
  {
    var r := Step(p).value;
    forall k | 0 <= k < |p.tracks|
      ensures p.tracks[k].ticks <= r.tracks[k].ticks
    {
      if k != Next(p) {
        assert r.tracks[k] == p.tracks[k];
      }
    }
  }

  lemma TicksTrans(a: seq<Track>, b: seq<Track>, c: seq<Track>)
    requires TicksKept(a, b) && TicksKept(b, c)
    ensures TicksKept(a, c)
  {
  }

  /** If the loop from `p` ends with no clock at 2^32 or beyond, the notes
      it has delivered from index `n` on are in order. */
  predicate InOrderUnlessWrapped(p: Player, sched: seq<Control>, n: nat)
    requires Sched(p) && p.queue.Some? && n <= |p.trace|
  {
    (Loop(p, sched).Ok? && forall k :: 0 <= k < |p.tracks| ==> Loop(p, sched).value.tracks[k].ticks < U32)
      ==> Chronological(Loop(p, sched).value.trace[n..])
  }

  /** Whatever calls land in between, the loop keeps the invariant, so the
      notes it delivers are in order unless some clock wrapped. */
  lemma {:induction false} LoopTimely(p: Player, sched: seq<Control>, n: nat, last: nat)
    requires Sched(p) && p.queue.Some?
    requires QueueTimely(p.queue.value, p.tracks, last) && TraceTimely(p.trace, n, last)
    ensures InOrderUnlessWrapped(p, sched, n)
    decreases Remaining(p.data, p.tracks)
  {
    var p1 := if |sched| > 0 then Call(p, sched[0]) else p;
    var rest := if |sched| > 0 then sched[1..] else [];
    if !(IsEmpty(p1.queue.value) || p1.state != Playing) && Step(p1).Ok? {
      var p2 := Step(p1).value;
      var r := Loop(p2, rest);
      if r.Ok? && forall k :: 0 <= k < |p.tracks| ==> r.value.tracks[k].ticks < U32 {
        StepBeforeNoWrap(p1, n, last, p2, rest);
        LoopTimely(p2, rest, n, NextLast(p1, last));
      }
      LoopTimelyStep(p, sched, n, p1, p2, rest);
    }
  }

  /** A step followed by a loop that ends without any clock wrapping
      keeps the invariant: the stepped track's clock has not wrapped either. */
  lemma StepBeforeNoWrap(p: Player, n: nat, last: nat, p2: Player, rest: seq<Control>)
    requires Sched(p) && p.queue.Some? && !IsEmpty(p.queue.value)
    requires QueueTimely(p.queue.value, p.tracks, last) && TraceTimely(p.trace, n, last)
    requires Step(p) == Ok(p2) && Sched(p2) && p2.queue.Some?
    requires Loop(p2, rest).Ok? && forall k :: 0 <= k < |p.tracks| ==> Loop(p2, rest).value.tracks[k].ticks < U32
    ensures QueueTimely(p2.queue.value, p2.tracks, NextLast(p, last))
    ensures TraceTimely(p2.trace, n, NextLast(p, last))
  {
    LoopTicks(p2, rest);
    assert p2.tracks[Next(p)].ticks <= Loop(p2, rest).value.tracks[Next(p)].ticks;
    StepTimely(p, n, last);
  }

  /** One event of `LoopTimely`: the loop from `p` ends as the loop after
      the step does. */
  lemma LoopTimelyStep(p: Player, sched: seq<Control>, n: nat, p1: Player, p2: Player, rest: seq<Control>)
    requires Sched(p) && p.queue.Some? && n <= |p.trace|
    requires p1 == (if |sched| > 0 then Call(p, sched[0]) else p)
    requires rest == if |sched| > 0 then sched[1..] else []
    requires !IsEmpty(p1.queue.value) && p1.state == Playing && Step(p1) == Ok(p2)
    requires Sched(p2) && p2.queue.Some?
    requires (Loop(p2, rest).Ok? && forall k :: 0 <= k < |p.tracks| ==> Loop(p2, rest).value.tracks[k].ticks < U32)
               ==> Chronological(Loop(p2, rest).value.trace[n..])
    ensures InOrderUnlessWrapped(p, sched, n)
  {
    assert Loop(p, sched) == Loop(p2, rest);
  }

  /** Priming an empty queue sets the invariant up: every track is
      queued at most once, in heap order, with its first event stamped. */
  lemma {:induction false} PrimeTimely(data: seq<byte>, tracks: seq<Track>, q: Heap<nat>, i: nat)
    requires i <= |tracks| && QueueTimely(q, tracks, 0)
    requires forall x :: x in Held(q) ==> x.value < i
    ensures PrimeFrom(data, tracks, q, i).Ok? ==>
      QueueTimely(PrimeFrom(data, tracks, q, i).value.1, PrimeFrom(data, tracks, q, i).value.0, 0)
    decreases |tracks| - i, 1
  {
    if i == |tracks| || Advance(data, tracks[i]).Err? {
      PrimeDone(data, tracks, q, i);
    } else if Advance(data, tracks[i]).value.1 {
      PrimeEnqueue(data, tracks, q, i);
    } else {
      PrimePass(data, tracks, q, i);
    }
  }

  /** Priming stops at the last track or at the first that fails. */
  lemma PrimeDone(data: seq<byte>, tracks: seq<Track>, q: Heap<nat>, i: nat)
    requires i <= |tracks| && QueueTimely(q, tracks, 0)
    requires i == |tracks| || Advance(data, tracks[i]).Err?
    ensures PrimeFrom(data, tracks, q, i).Ok? ==>
      QueueTimely(PrimeFrom(data, tracks, q, i).value.1, PrimeFrom(data, tracks, q, i).value.0, 0)
  {
  }

  /** The priming step that leaves track `i` out of the queue. */
  lemma {:induction false} PrimePass(data: seq<byte>, tracks: seq<Track>, q: Heap<nat>, i: nat)
    requires i < |tracks| && QueueTimely(q, tracks, 0)
    requires forall x :: x in Held(q) ==> x.value < i
    requires Advance(data, tracks[i]).Ok? && !Advance(data, tracks[i]).value.1
    ensures PrimeFrom(data, tracks, q, i).Ok? ==>
      QueueTimely(PrimeFrom(data, tracks, q, i).value.1, PrimeFrom(data, tracks, q, i).value.0, 0)
    decreases |tracks| - i, 0
  {
    var t := Advance(data, tracks[i]).value.0;
    var ts := tracks[i := t];
    assert Some(i) !in Held(q);
    Rekey(q, tracks, i, t, 0);
    PrimeSkip(data, tracks, q, i, t);
    PrimeTimely(data, ts, q, i + 1);
  }

  /** A track that has run dry is left out of the queue. */
  lemma PrimeSkip(data: seq<byte>, tracks: seq<Track>, q: Heap<nat>, i: nat, t: Track)
    requires i < |tracks| && Names(q, tracks) && Advance(data, tracks[i]) == Ok((t, false))
    requires Names(q, tracks[i := t])
    ensures PrimeFrom(data, tracks, q, i) == PrimeFrom(data, tracks[i := t], q, i + 1)
  {
  }

  /** A track with an event pending is queued before priming goes on. */
  lemma PrimeQueued(data: seq<byte>, tracks: seq<Track>, q: Heap<nat>, i: nat, t: Track, q': Heap<nat>)
    requires i < |tracks| && Names(q, tracks) && Advance(data, tracks[i]) == Ok((t, true))
    requires Names(q, tracks[i := t]) && Push(q, i, Weight(tracks[i := t])) == Ok(q')
    requires Names(q', tracks[i := t])
    ensures PrimeFrom(data, tracks, q, i) == PrimeFrom(data, tracks[i := t], q', i + 1)
  {
  }

  /** The priming step that queues track `i`. */
  lemma {:induction false} PrimeEnqueue(data: seq<byte>, tracks: seq<Track>, q: Heap<nat>, i: nat)
    requires i < |tracks| && QueueTimely(q, tracks, 0)
    requires forall x :: x in Held(q) ==> x.value < i
    requires Advance(data, tracks[i]).Ok? && Advance(data, tracks[i]).value.1
    ensures PrimeFrom(data, tracks, q, i).Ok? ==>
      QueueTimely(PrimeFrom(data, tracks, q, i).value.1, PrimeFrom(data, tracks, q, i).value.0, 0)
    decreases |tracks| - i, 0
  {
    var t := Advance(data, tracks[i]).value.0;
    var ts := tracks[i := t];
    assert Some(i) !in Held(q);
    Rekey(q, tracks, i, t, 0);
    if Push(q, i, Weight(ts)).Ok? {
      var q' := Push(q, i, Weight(ts)).value;
      Enqueue(q, q', ts, i, 0);
      PrimeTimely(data, ts, q', i + 1);
      PrimeQueued(data, tracks, q, i, t, q');
    } else {
      assert PrimeFrom(data, tracks, q, i).Err?;
    }
  }

  /** Started from Stopped with an empty (or not yet created) queue,
      `Play` delivers its notes in non-decreasing time, whatever Pause,
      Resume and Stop calls land meanwhile, as long as no track's tick count
      reaches 2^32 (beyond that the 32-bit event time wraps). */
  lemma PlayInOrder(p: Player, sched: seq<Control>, late: Control)
    requires Sched(p) && p.state == Stopped && (p.queue.None? || IsEmpty(p.queue.value))
    ensures (PlaySpec(p, sched, late).Ok? &&
             forall k :: 0 <= k < |p.tracks| ==> PlaySpec(p, sched, late).value.0.tracks[k].ticks < U32)
              ==> Chronological(PlaySpec(p, sched, late).value.0.trace[|p.trace|..])
  {
    var q := if p.queue.Some? then p.queue.value else New(|p.tracks|);
    if PrimeFrom(p.data, p.tracks, q, 0).Ok? {
      PrimeTimely(p.data, p.tracks, q, 0);
      var p1 := Prime(p).value;
      assert TraceTimely(p1.trace, |p.trace|, 0);
      LoopTimely(p1, sched, |p.trace|, 0);
      assert InOrderUnlessWrapped(p1, sched, |p.trace|);
    }
  }

  // ---------------------------------------------------------------------
  // Pause and resume

  /** Resuming undoes a pause taken while playing, and pausing undoes a
      resume taken while paused. */
  lemma PauseResumeInverse(p: Player)
    ensures p.state == Playing ==> Resume(Pause(p)) == p
    ensures p.state == Paused ==> Pause(Resume(p)) == p
    ensures p.state == Stopped ==> Pause(p) == p && Resume(p) == p
  {
  }

  predicate NoStop(sched: seq<Control>)
  {
    forall k :: 0 <= k < |sched| ==> sched[k] != StopCall
  }

  /** A loop from `p` under `sched` that fails fails as the uninterrupted
      loop does, and one that ends has not stopped and, resumed, ends
      where the uninterrupted loop ends. */
  predicate Resumes(p: Player, sched: seq<Control>)
    requires Sched(p) && p.queue.Some?
  {
    && (Loop(p, sched).Err? ==> Drain(p) == Loop(p, sched))
    && (Loop(p, sched).Ok? ==> Drain(Loop(p, sched).value.(state := Playing)) == Drain(p))
    && (Loop(p, sched).Ok? ==> Loop(p, sched).value.state != Stopped)
  }

  /** Without a Stop, a loop that was paused and is then resumed ends
      where the uninterrupted loop ends, and a loop that fails fails as the
      uninterrupted one does. */
  lemma {:induction false} LoopResumes(p: Player, sched: seq<Control>)
    requires Sched(p) && p.queue.Some? && p.state == Playing && NoStop(sched)
    ensures Resumes(p, sched)
    decreases Remaining(p.data, p.tracks)
  {
    var p1 := if |sched| > 0 then Call(p, sched[0]) else p;
    var rest := if |sched| > 0 then sched[1..] else [];
    if p1.state != Playing || IsEmpty(p.queue.value) {
      LoopResumesHalt(p, sched);
    } else {
      assert p1 == p;
      if Step(p).Ok? {
        var p2 := Step(p).value;
        assert NoStop(rest) by {
          assert forall k :: 0 <= k < |rest| ==> rest[k] == sched[k + 1];
        }
        LoopResumes(p2, rest);
        LoopResumesStep(p, sched, p2, rest);
      } else {
        assert Loop(p, sched) == Drain(p);
      }
    }
  }

  /** The loop leaves at once, paused by the first call or with nothing
      queued. */
  lemma LoopResumesHalt(p: Player, sched: seq<Control>)
    requires Sched(p) && p.queue.Some? && p.state == Playing && NoStop(sched)
    requires (if |sched| > 0 then Call(p, sched[0]) else p).state != Playing || IsEmpty(p.queue.value)
    ensures Resumes(p, sched)
  {
    var p1 := if |sched| > 0 then Call(p, sched[0]) else p;
    if p1.state != Playing {
      assert Loop(p, sched) == Ok(p1);
      assert p1.(state := Playing) == p;
    } else {
      assert p1 == p;
    }
  }

  /** One event of `LoopResumes`: when the first call leaves the loop
      playing, the interrupted and the uninterrupted loop both continue
      from the state after the step. */
  lemma LoopResumesStep(p: Player, sched: seq<Control>, p2: Player, rest: seq<Control>)
    requires Sched(p) && p.queue.Some? && p.state == Playing && !IsEmpty(p.queue.value)
    requires (if |sched| > 0 then Call(p, sched[0]) else p) == p
    requires rest == if |sched| > 0 then sched[1..] else []
    requires Step(p) == Ok(p2) && Sched(p2) && p2.queue.Some?
    requires Resumes(p2, rest)
    ensures Resumes(p, sched)
  {
    assert Loop(p, sched) == Loop(p2, rest);
    assert Drain(p) == Drain(p2);
  }

  /** The loop, the late call and the switch, paused and resumed: a
      false answer followed by a resumed uninterrupted run ends as one
      uninterrupted run does; so does a true answer, unless a Resume landed
      after the last guard (see `LateResumeLosesEvents`). */
  lemma RunResumes(s: Player, sched: seq<Control>, late: Control)
    requires Sched(s) && s.state == Playing && NoStop(sched) && late != StopCall
    ensures RunResumed(s, sched, late)
  {
    LoopResumes(s, sched);
    var l := Loop(s, sched);
    if l.Err? {
      assert Drain(s) == l;
    } else if l.value.state == Playing {
      RunResumesDry(s, sched, late, l.value);
    } else {
      RunResumesPaused(s, sched, late, l.value);
    }
  }

  /** What `RunResumes` states: a failure is the uninterrupted run's
      failure; a true answer, unless a Resume landed after the last guard,
      is the uninterrupted run's answer; a false answer, resumed, ends as
      the uninterrupted run. */
  predicate RunResumed(s: Player, sched: seq<Control>, late: Control)
    requires Sched(s) && s.state == Playing
  {
    && (Run(s, sched, late).Err? ==> Run(s, [], NoCall) == Run(s, sched, late))
    && ((Run(s, sched, late).Ok? && Run(s, sched, late).value.1 && late != ResumeCall)
          ==> Run(s, [], NoCall) == Run(s, sched, late))
    && ((Run(s, sched, late).Ok? && !Run(s, sched, late).value.1) ==>
          Run(Resume(Run(s, sched, late).value.0), [], NoCall) == Run(s, [], NoCall))
  }

  /** The loop ran dry, still playing: it ended where the uninterrupted
      loop ends, and a late Pause is undone by the Resume. */
  lemma RunResumesDry(s: Player, sched: seq<Control>, late: Control, f: Player)
    requires Sched(s) && s.state == Playing && late != StopCall
    requires Loop(s, sched) == Ok(f) && f.state == Playing && Resumes(s, sched)
    ensures RunResumed(s, sched, late)
  {
    assert Drain(s) == Ok(f);
    assert Run(s, [], NoCall) == Ok(Finish(f));
    assert Run(s, sched, late) == Ok(Finish(Call(f, late)));
    if late == PauseCall {
      assert Resume(Finish(Call(f, late)).0) == f;
      assert Loop(f, []) == Ok(f);
    }
  }

  /** The loop was paused: unless a Resume lands before the switch, `Play`
      answers false, and resuming continues where the uninterrupted loop
      would. */
  lemma RunResumesPaused(s: Player, sched: seq<Control>, late: Control, f: Player)
    requires Sched(s) && s.state == Playing && late != StopCall
    requires Loop(s, sched) == Ok(f) && f.state == Paused && Resumes(s, sched)
    ensures RunResumed(s, sched, late)
  {
    var g := f.(state := Playing);
    assert Run(s, sched, late) == Ok(Finish(Call(f, late)));
    if late != ResumeCall {
      assert Resume(Finish(Call(f, late)).0) == g;
      assert Loop(g, []) == Loop(s, []);
      RunFollowsLoop(g, s);
    }
  }

  /** Two runs without calls whose loops agree end alike. */
  lemma RunFollowsLoop(a: Player, b: Player)
    requires Sched(a) && a.state == Playing && Sched(b) && b.state == Playing
    requires Loop(a, []) == Loop(b, [])
    ensures Run(a, [], NoCall) == Run(b, [], NoCall)
  {
  }

  /** `Play` called with Pause and Resume calls landing meanwhile (but no
      Stop): if it returns false (paused), resuming and calling `Play`
      again ends exactly as one uninterrupted `Play` does; if it returns
      true it already has, unless a Resume landed after the last guard;
      and if it fails, so does the uninterrupted one. */
  lemma PlayResumes(p: Player, sched: seq<Control>, late: Control)
    requires Sched(p) && p.state != Paused && NoStop(sched) && late != StopCall
    ensures PlaySpec(p, sched, late).Err? ==> PlaySpec(p, [], NoCall) == PlaySpec(p, sched, late)
    ensures (PlaySpec(p, sched, late).Ok? && PlaySpec(p, sched, late).value.1 && late != ResumeCall)
              ==> PlaySpec(p, [], NoCall) == PlaySpec(p, sched, late)
    ensures (PlaySpec(p, sched, late).Ok? && !PlaySpec(p, sched, late).value.1) ==>
              PlaySpec(Resume(PlaySpec(p, sched, late).value.0), [], NoCall) == PlaySpec(p, [], NoCall)
  {
    var p1 := if p.state == Stopped then Prime(p) else Ok(p);
    if p1.Ok? {
      var s := p1.value;
      assert PlaySpec(p, sched, late) == Run(s, sched, late) && PlaySpec(p, [], NoCall) == Run(s, [], NoCall);
      RunResumes(s, sched, late);
      assert RunResumed(s, sched, late);
      if Run(s, sched, late).Ok? && !Run(s, sched, late).value.1 {
        var g := Resume(Run(s, sched, late).value.0);
        assert g.state == Playing;
        assert PlaySpec(g, [], NoCall) == Run(g, [], NoCall);
      }
    }
  }

  // ---------------------------------------------------------------------
  // A Resume between the last guard and the switch

  /** As written: when a Pause ends the loop with events still queued and
      a Resume lands before the `switch`, the switch finds Playing, so
      `Play` answers true and leaves the player Stopped with the rest of the
      song undelivered. A caller that plays on until `Play` answers true
      (as `while (!midi.Play())` does) then ends the song early. */
  lemma LateResumeLosesEvents(p: Player, sched: seq<Control>)
    requires Sched(p) && p.state == Playing
    requires Loop(p, sched).Ok? && Loop(p, sched).value.state == Paused
    requires !IsEmpty(Loop(p, sched).value.queue.value)
    ensures Run(p, sched, ResumeCall) == Ok((Loop(p, sched).value.(state := Stopped), true))
    ensures !IsEmpty(Run(p, sched, ResumeCall).value.0.queue.value)
  {
  }

  /** The race needs nothing but a Pause at the first guard: from any
      playing state with an event queued, `Play` with a Pause landing at
      its guard and a Resume before its `switch` answers true without
      delivering anything, leaving the event queued. */
  lemma PauseResumeAtGuardEndsSong(p: Player)
    requires Sched(p) && p.state == Playing && !IsEmpty(p.queue.value)
    ensures PlaySpec(p, [PauseCall], ResumeCall) == Ok((p.(state := Stopped), true))
    ensures !IsEmpty(PlaySpec(p, [PauseCall], ResumeCall).value.0.queue.value)
  {
    assert Loop(p, [PauseCall]) == Ok(p.(state := Paused));
  }

  /** The `switch` on the state the loop guard saw (read once into a
      local), with the late call landing after it: a Resume that arrives
      too late is kept for the next `Play` instead of being mistaken for
      the end of the song. */
  function RunSeen(p: Player, sched: seq<Control>, late: Control): (r: Result<(Player, bool)>)
    requires Sched(p) && p.state == Playing
    ensures r.Ok? ==> Sched(r.value.0) && r.value.0.data == p.data && p.trace <= r.value.0.trace
  {
    match Loop(p, sched)
    case Err(e) => Err(e)
    case Ok(p2) =>
      var (f, answer) := Finish(p2);
      Ok((Call(f, late), answer))
  }

  /** With the corrected switch, and no Stop called, a true answer means
      the song has been played to its end: nothing is left queued. A false
      answer leaves every queued event for the next `Play`. */
  lemma RunSeenEndsSong(p: Player, sched: seq<Control>, late: Control)
    requires Sched(p) && p.state == Playing && NoStop(sched) && late != StopCall
    ensures (RunSeen(p, sched, late).Ok? && RunSeen(p, sched, late).value.1)
              ==> IsEmpty(RunSeen(p, sched, late).value.0.queue.value)
    ensures (RunSeen(p, sched, late).Ok? && !RunSeen(p, sched, late).value.1)
              ==> RunSeen(p, sched, late).value.0.queue == Loop(p, sched).value.queue
  {
    LoopResumes(p, sched);
  }
}
