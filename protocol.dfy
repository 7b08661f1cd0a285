/** The protocol `gst_vaapi_window_wayland_sync` follows on the display
    connection, as a function of the replies its calls receive: the loop while
    frames are pending, the inner loop that prepares the read, the flush, the
    poll wait retried after EAGAIN and EINTR, and the read and dispatch. The
    lemmas sort every outcome by the call and reply it ended on. */
module SyncProtocol {
  import opened Types
  import Frames

  /** How a wait ended: TRUE after seeing no frame pending (`Synced`), FALSE
      with `sync_failed` left alone (`Busy`), FALSE on the error path
      (`SyncFailed`), or not yet: the replies ran out while a call was
      still waiting for one (`Blocked`). */
  datatype SyncResult = Synced | Busy | SyncFailed | Blocked

  /** Where the wait is: at the head of the outer loop, in the prepare-read
      loop, about to flush, at the `again:` poll, about to read. */
  datatype Phase = LoopHead | Preparing | Flushing | Polling | Reading

  /** A finished wait: its result, the calls made (call `k` took reply `k`),
      the events whose listeners ran, and whether the read is still prepared. */
  datatype Outcome = Outcome(r: SyncResult, trace: seq<Call>, evs: seq<Event>, reading: bool)

  /** One step of the wait: finish, or go on in a phase, with the frame table
      and the calls made so far, after running the listeners of `evs`. */
  datatype Move = Done(o: Outcome) | Go(phase: Phase, t: Frames.Table, trace: seq<Call>, evs: seq<Event>)

  /** A poll error that makes the wait poll again. */
  predicate IsTransient(r: Reply)
  {
    r == Err(EAGAIN) || r == Err(EINTR)
  }

  /** The events whose listeners a reply to a dispatch ran. */
  function EventsOf(r: Reply): seq<Event>
  {
    if r.Dispatched? then r.events else []
  }

  /** An outcome reached after the listeners of `evs` already ran. */
  function Prepend(evs: seq<Event>, o: Outcome): Outcome
  {
    o.(evs := evs + o.evs)
  }

  function Rank(ph: Phase): nat
  {
    if ph == LoopHead then 1 else 0
  }

  /** One step of the wait from `ph`, with the table `t` and the calls `trace`
      made so far; the next call takes reply `script[|trace|]`. */
  ghost function Next(ph: Phase, t: Frames.Table, flushing: bool, script: seq<Reply>, trace: seq<Call>): (m: Move)
    requires |trace| <= |script|
    // every step but the loop head's test makes a call, and calls are only appended
    ensures m.Go? ==> trace <= m.trace && |m.trace| <= |script|
    ensures m.Go? ==> |trace| < |m.trace| || (m.trace == trace && ph == LoopHead && m.phase == Preparing)
    ensures m.Done? ==> trace <= m.o.trace && |m.o.trace| <= |script|
  {
    var i := |trace|;
    match ph
    case LoopHead =>
      if t.pending == 0 then Done(Outcome(Synced, trace, [], false))
      else Go(Preparing, t, trace, [])
    case Preparing =>
      // while prepare_read_queue fails, dispatch what is queued
      if i == |script| then Done(Outcome(Blocked, trace, [], false))
      else if !script[i].Err? then Go(Flushing, t, trace + [PrepareRead], [])
      else if i + 1 == |script| then Done(Outcome(Blocked, trace + [PrepareRead], [], false))
      else if script[i + 1].Err? then Done(Outcome(SyncFailed, trace + [PrepareRead] + [DispatchPending], [], false))
      else Go(Preparing, Frames.Deliver(t, EventsOf(script[i + 1])), trace + [PrepareRead] + [DispatchPending],
              EventsOf(script[i + 1]))
    case Flushing =>
      // a failed flush keeps the read; no frame pending cancels it and succeeds
      if i == |script| then Done(Outcome(Blocked, trace, [], true))
      else if script[i].Err? then Done(Outcome(SyncFailed, trace + [Flush], [], true))
      else if t.pending == 0 then Done(Outcome(Synced, trace + [Flush], [], false))
      else Go(Polling, t, trace + [Flush], [])
    case Polling =>
      // a flushing poll set fails at once with EBUSY
      if flushing then Done(Outcome(Busy, trace, [], false))
      else if i == |script| then Done(Outcome(Blocked, trace, [], true))
      else if IsTransient(script[i]) then Go(Polling, t, trace + [PollWait], [])
      else if !script[i].Err? then Go(Reading, t, trace + [PollWait], [])
      else if script[i].errno == EBUSY then Done(Outcome(Busy, trace + [PollWait], [], false))
      else Done(Outcome(SyncFailed, trace + [PollWait], [], false))
    case Reading =>
      if i == |script| then Done(Outcome(Blocked, trace, [], true))
      else if script[i].Err? then Done(Outcome(SyncFailed, trace + [ReadEvents], [], false))
      else if i + 1 == |script| then Done(Outcome(Blocked, trace + [ReadEvents], [], false))
      else if script[i + 1].Err? then Done(Outcome(SyncFailed, trace + [ReadEvents] + [DispatchPending], [], false))
      else Go(LoopHead, Frames.Deliver(t, EventsOf(script[i + 1])), trace + [ReadEvents] + [DispatchPending],
              EventsOf(script[i + 1]))
  }

  /** The wait from `ph` to its end. */
  ghost function Run(ph: Phase, t: Frames.Table, flushing: bool, script: seq<Reply>, trace: seq<Call>): (o: Outcome)
    requires |trace| <= |script|
    ensures trace <= o.trace && |o.trace| <= |script|
    decreases |script| - |trace|, Rank(ph)
  {
    match Next(ph, t, flushing, script, trace)
    case Done(o) => o
    case Go(ph', t', trace', evs) => Prepend(evs, Run(ph', t', flushing, script, trace'))
  }

  /** A whole wait on a window that has not failed, from the table `t`. */
  ghost function Waited(t: Frames.Table, flushing: bool, script: seq<Reply>): Outcome
  {
    Run(LoopHead, t, flushing, script, [])
  }

  /** `gst_vaapi_window_wayland_sync`: a window that has failed returns FALSE at
      once, without a call, and keeps whatever read it holds. */
  ghost function SyncSpec(t: Frames.Table, failed: bool, reading: bool, flushing: bool, script: seq<Reply>): Outcome
  {
    if failed then Outcome(SyncFailed, [], [], reading) else Waited(t, flushing, script)
  }

  /** Whether a part of the wait lets it go on, or ends it with a result. */
  datatype Step = Continue | Stop(r: SyncResult)

  /** Where the wait ended, or the phase it goes on with: the outcome of a
      part of sync that was entered with the calls `trace0` made, in terms of
      the calls `trace` it made and the listeners `evs` it ran. */
  ghost function Then(s: Step, ph: Phase, t: Frames.Table, flushing: bool, script: seq<Reply>, trace: seq<Call>,
                      evs: seq<Event>, reading: bool): Outcome
    requires |trace| <= |script|
  {
    if s == Continue then Prepend(evs, Run(ph, t, flushing, script, trace)) else Outcome(s.r, trace, evs, reading)
  }

  /** A wait that ran the listeners of `evs` and went on from `ph1`, where the
      next part of it ended as `Then(s, ph2, …)`, ends as that part, with
      `evs` run first. */
  lemma Chain(o: Outcome, evs: seq<Event>, ph1: Phase, t1: Frames.Table, flushing: bool, script: seq<Reply>,
              trace1: seq<Call>, s: Step, ph2: Phase, t2: Frames.Table, trace2: seq<Call>, more: seq<Event>, reading: bool)
    requires |trace1| <= |script| && |trace2| <= |script|
    requires o == Prepend(evs, Run(ph1, t1, flushing, script, trace1))
    requires Run(ph1, t1, flushing, script, trace1) == Then(s, ph2, t2, flushing, script, trace2, more, reading)
    ensures o == Then(s, ph2, t2, flushing, script, trace2, evs + more, reading)
  {
    if s == Continue {
      var rest := Run(ph2, t2, flushing, script, trace2);
      assert evs + (more + rest.evs) == (evs + more) + rest.evs;
    }
  }

  /** At the head of the outer loop of sync with a frame pending, the wait
      goes on with a round that starts by preparing the read. */
  lemma HeadRound(o: Outcome, evs: seq<Event>, t: Frames.Table, flushing: bool, script: seq<Reply>, trace: seq<Call>)
    requires |trace| <= |script| && t.pending > 0
    requires o == Prepend(evs, Run(LoopHead, t, flushing, script, trace))
    ensures o == Prepend(evs, Run(Preparing, t, flushing, script, trace))
  {
    assert Run(LoopHead, t, flushing, script, trace) == Prepend([], Run(Preparing, t, flushing, script, trace));
  }

  /** A step of the prepare-read loop whose dispatch succeeded: a wait that
      already ran the listeners of `evs` goes on in the loop, after the
      listeners of the dispatched events. */
  lemma PrepareAgain(o: Outcome, evs: seq<Event>, t: Frames.Table, flushing: bool, script: seq<Reply>, trace: seq<Call>)
    requires |trace| + 1 < |script| && script[|trace|].Err? && !script[|trace| + 1].Err?
    requires o == Prepend(evs, Run(Preparing, t, flushing, script, trace))
    ensures var e := EventsOf(script[|trace| + 1]);
      o == Prepend(evs + e, Run(Preparing, Frames.Deliver(t, e), flushing, script, trace + [PrepareRead] + [DispatchPending]))
  {
  }

  /** The prepare-read loop ends when a read is prepared, going on to the flush. */
  lemma PrepareReady(o: Outcome, evs: seq<Event>, t: Frames.Table, flushing: bool, script: seq<Reply>, trace: seq<Call>)
    requires |trace| < |script| && !script[|trace|].Err?
    requires o == Prepend(evs, Run(Preparing, t, flushing, script, trace))
    ensures o == Then(Continue, Flushing, t, flushing, script, trace + [PrepareRead], evs, true)
  {
  }

  /** The prepare-read loop ends the wait when its dispatch fails. */
  lemma PrepareFailed(o: Outcome, evs: seq<Event>, t: Frames.Table, flushing: bool, script: seq<Reply>, trace: seq<Call>)
    requires |trace| + 1 < |script| && script[|trace|].Err? && script[|trace| + 1].Err?
    requires o == Prepend(evs, Run(Preparing, t, flushing, script, trace))
    ensures o == Then(Stop(SyncFailed), Flushing, t, flushing, script, trace + [PrepareRead] + [DispatchPending], evs, false)
  {
  }

  /** The prepare-read loop is left waiting when the replies run out before
      the preparation, or before the dispatch after a failed one. */
  lemma PrepareBlocked(o: Outcome, evs: seq<Event>, t: Frames.Table, flushing: bool, script: seq<Reply>, trace: seq<Call>)
    requires |trace| <= |script| && o == Prepend(evs, Run(Preparing, t, flushing, script, trace))
    ensures |trace| == |script| ==> o == Then(Stop(Blocked), Flushing, t, flushing, script, trace, evs, false)
    ensures |trace| + 1 == |script| && script[|trace|].Err? ==>
      o == Then(Stop(Blocked), Flushing, t, flushing, script, trace + [PrepareRead], evs, false)
  {
  }

  // ---------------------------------------------------------------------------
  // Reading a trace

  /** The last call of `trace` was `c`, and it succeeded. */
  ghost predicate EndsWith(script: seq<Reply>, trace: seq<Call>, c: Call)
  {
    0 < |trace| <= |script| && trace[|trace| - 1] == c && !script[|trace| - 1].Err?
  }

  /** The wait is at a test of the outer loop: no call made yet, or a read and
      the dispatch after it just succeeded. */
  ghost predicate AtHead(script: seq<Reply>, trace: seq<Call>)
  {
    trace == [] || (1 < |trace| && EndsWith(script, trace, DispatchPending) && trace[|trace| - 2] == ReadEvents)
  }

  /** The last call failed and the failure is an error: not a failed
      `prepare_read_queue` (which only means "dispatch first") and not a
      transient or flushing poll error. */
  ghost predicate FailedCall(script: seq<Reply>, trace: seq<Call>)
  {
    var n := |trace|;
    && 0 < n <= |script| && script[n - 1].Err? && trace[n - 1] != PrepareRead
    && !(trace[n - 1] == PollWait && script[n - 1].errno in {EAGAIN, EINTR, EBUSY})
  }

  /** The last call was a poll wait that failed with EBUSY. */
  ghost predicate BusyPoll(script: seq<Reply>, trace: seq<Call>)
  {
    0 < |trace| <= |script| && trace[|trace| - 1] == PollWait && script[|trace| - 1] == Err(EBUSY)
  }

  /** The last call was a poll wait that failed with EAGAIN or EINTR. */
  ghost predicate EndsTransient(script: seq<Reply>, trace: seq<Call>)
  {
    0 < |trace| <= |script| && trace[|trace| - 1] == PollWait && IsTransient(script[|trace| - 1])
  }

  /** Every transient poll error, except possibly the last call, was followed by another poll wait. */
  ghost predicate Retried(script: seq<Reply>, trace: seq<Call>)
  {
    forall i :: 0 <= i && i + 1 < |trace| && i < |script| && trace[i] == PollWait && IsTransient(script[i])
      ==> trace[i + 1] == PollWait
  }

  /** Every transient poll error was followed by another poll wait. */
  ghost predicate AllRetried(script: seq<Reply>, trace: seq<Call>)
  {
    forall i :: 0 <= i < |trace| && i < |script| && trace[i] == PollWait && IsTransient(script[i])
      ==> i + 1 < |trace| && trace[i + 1] == PollWait
  }

  /** The events of the replies to the dispatches among the calls `trace`, in order. */
  ghost function DispatchedEvents(script: seq<Reply>, trace: seq<Call>): seq<Event>
    requires |trace| <= |script|
    decreases |trace|
  {
    if trace == [] then []
    else
      var n := |trace| - 1;
      DispatchedEvents(script, trace[..n]) + (if trace[n] == DispatchPending then EventsOf(script[n]) else [])
  }

  /** How the wait can have arrived at `ph` with the calls `trace`. */
  ghost predicate Entry(ph: Phase, t: Frames.Table, flushing: bool, script: seq<Reply>, trace: seq<Call>)
  {
    && |trace| <= |script| && Retried(script, trace)
    && match ph
       case LoopHead => AtHead(script, trace)
       case Preparing =>
         || (AtHead(script, trace) && t.pending > 0)
         || (1 < |trace| && EndsWith(script, trace, DispatchPending) && trace[|trace| - 2] == PrepareRead)
       case Flushing => EndsWith(script, trace, PrepareRead)
       case Polling => t.pending > 0 && (EndsWith(script, trace, Flush) || (!flushing && EndsTransient(script, trace)))
       case Reading => EndsWith(script, trace, PollWait)
  }

  /** The sorting of outcomes: each result is told by the call and reply the
      wait ended on and the frames still pending (`pending`) at the end. */
  ghost predicate Sorted(flushing: bool, script: seq<Reply>, o: Outcome, pending: nat)
  {
    var n := |o.trace|;
    // the error path is taken exactly on a failing call
    && (o.r == SyncFailed <==> FailedCall(script, o.trace))
    // FALSE without failure exactly on EBUSY, or on a flushing poll set when
    // a frame is still pending after the flush
    && (o.r == Busy <==> BusyPoll(script, o.trace) || (flushing && EndsWith(script, o.trace, Flush) && pending > 0))
    // TRUE exactly when a test of the counter saw no frame pending
    && (o.r == Synced <==> pending == 0 && (AtHead(script, o.trace) || EndsWith(script, o.trace, Flush)))
    && (o.r == Blocked ==> n == |script|)
    // a finished wait retried every transient poll error, and holds the read
    // only after a failed flush
    && (o.r != Blocked ==> AllRetried(script, o.trace) && (o.reading <==> o.r == SyncFailed && 0 < n && o.trace[n - 1] == Flush))
  }

  // ---------------------------------------------------------------------------
  // Proofs

  lemma RetriedExtend(script: seq<Reply>, trace: seq<Call>, c: Call)
    requires |trace| < |script| && Retried(script, trace)
    requires EndsTransient(script, trace) ==> c == PollWait
    ensures Retried(script, trace + [c])
  {
    var u := trace + [c];
    forall i | 0 <= i && i + 1 < |u| && i < |script| && u[i] == PollWait && IsTransient(script[i])
      ensures u[i + 1] == PollWait
    {
      assert u[i] == trace[i];
      if i + 1 < |trace| {
        assert u[i + 1] == trace[i + 1];
      }
    }
  }

  lemma AllRetriedAt(script: seq<Reply>, trace: seq<Call>)
    requires |trace| <= |script| && Retried(script, trace) && !EndsTransient(script, trace)
    ensures AllRetried(script, trace)
  {
  }

  /** A step keeps the ways the wait can arrive at a phase, and the table it
      goes on with is the old one after the listeners of the step's events. */
  lemma NextEntry(ph: Phase, t: Frames.Table, flushing: bool, script: seq<Reply>, trace: seq<Call>)
    requires Entry(ph, t, flushing, script, trace)
    requires Next(ph, t, flushing, script, trace).Go?
    ensures var m := Next(ph, t, flushing, script, trace);
      Entry(m.phase, m.t, flushing, script, m.trace) && m.t == Frames.Deliver(t, m.evs)
  {
    var i := |trace|;
    var m := Next(ph, t, flushing, script, trace);
    assert Frames.Deliver(t, []) == t;
    match ph
    case LoopHead =>
    case Preparing =>
      RetriedExtend(script, trace, PrepareRead);
      if script[i].Err? {
        RetriedExtend(script, trace + [PrepareRead], DispatchPending);
      }
    case Flushing =>
      RetriedExtend(script, trace, Flush);
    case Polling =>
      RetriedExtend(script, trace, PollWait);
    case Reading =>
      RetriedExtend(script, trace, ReadEvents);
      RetriedExtend(script, trace + [ReadEvents], DispatchPending);
  }

  /** A final step gives a sorted outcome. */
  lemma DoneSorted(ph: Phase, t: Frames.Table, flushing: bool, script: seq<Reply>, trace: seq<Call>)
    requires Entry(ph, t, flushing, script, trace)
    requires Next(ph, t, flushing, script, trace).Done?
    ensures var o := Next(ph, t, flushing, script, trace).o;
      o.evs == [] && Sorted(flushing, script, o, t.pending)
  {
    match ph
    case LoopHead => AllRetriedAt(script, trace);
    case Preparing => DoneSortedPreparing(ph, t, flushing, script, trace);
    case Flushing => DoneSortedFlushing(ph, t, flushing, script, trace);
    case Polling => DoneSortedPolling(ph, t, flushing, script, trace);
    case Reading => DoneSortedReading(ph, t, flushing, script, trace);
  }

  /** A final step of the prepare-read loop gives a sorted outcome. */
  lemma DoneSortedPreparing(ph: Phase, t: Frames.Table, flushing: bool, script: seq<Reply>, trace: seq<Call>)
    requires ph == Preparing && Entry(ph, t, flushing, script, trace)
    requires Next(ph, t, flushing, script, trace).Done?
    ensures var o := Next(ph, t, flushing, script, trace).o;
      o.evs == [] && Sorted(flushing, script, o, t.pending)
  {
    var i := |trace|;
    var o := Next(ph, t, flushing, script, trace).o;
    if i < |script| {
      RetriedExtend(script, trace, PrepareRead);
      if i + 1 < |script| {
        RetriedExtend(script, trace + [PrepareRead], DispatchPending);
        AllRetriedAt(script, o.trace);
      }
    }
  }

  /** A final step of the flush gives a sorted outcome. */
  lemma DoneSortedFlushing(ph: Phase, t: Frames.Table, flushing: bool, script: seq<Reply>, trace: seq<Call>)
    requires ph == Flushing && Entry(ph, t, flushing, script, trace)
    requires Next(ph, t, flushing, script, trace).Done?
    ensures var o := Next(ph, t, flushing, script, trace).o;
      o.evs == [] && Sorted(flushing, script, o, t.pending)
  {
    var i := |trace|;
    var o := Next(ph, t, flushing, script, trace).o;
    if i < |script| {
      RetriedExtend(script, trace, Flush);
      AllRetriedAt(script, o.trace);
    }
  }

  /** A final step of the poll wait gives a sorted outcome. */
  lemma DoneSortedPolling(ph: Phase, t: Frames.Table, flushing: bool, script: seq<Reply>, trace: seq<Call>)
    requires ph == Polling && Entry(ph, t, flushing, script, trace)
    requires Next(ph, t, flushing, script, trace).Done?
    ensures var o := Next(ph, t, flushing, script, trace).o;
      o.evs == [] && Sorted(flushing, script, o, t.pending)
  {
    var i := |trace|;
    var o := Next(ph, t, flushing, script, trace).o;
    if flushing {
      AllRetriedAt(script, trace);
    } else if i < |script| {
      RetriedExtend(script, trace, PollWait);
      AllRetriedAt(script, o.trace);
    }
  }

  /** A final step of the read and its dispatch gives a sorted outcome. */
  lemma DoneSortedReading(ph: Phase, t: Frames.Table, flushing: bool, script: seq<Reply>, trace: seq<Call>)
    requires ph == Reading && Entry(ph, t, flushing, script, trace)
    requires Next(ph, t, flushing, script, trace).Done?
    ensures var o := Next(ph, t, flushing, script, trace).o;
      o.evs == [] && Sorted(flushing, script, o, t.pending)
  {
    var i := |trace|;
    var o := Next(ph, t, flushing, script, trace).o;
    if i < |script| {
      RetriedExtend(script, trace, ReadEvents);
      if i + 1 < |script| && script[i + 1].Err? {
        RetriedExtend(script, trace + [ReadEvents], DispatchPending);
      }
      if o.r != Blocked {
        AllRetriedAt(script, o.trace);
      }
    }
  }

  /** Every wait that can arrive at `ph` ends sorted. */
  lemma {:induction false} RunSorted(ph: Phase, t: Frames.Table, flushing: bool, script: seq<Reply>, trace: seq<Call>)
    requires Entry(ph, t, flushing, script, trace)
    ensures var o := Run(ph, t, flushing, script, trace);
      Sorted(flushing, script, o, Frames.Deliver(t, o.evs).pending)
    decreases |script| - |trace|, Rank(ph)
  {
    match Next(ph, t, flushing, script, trace)
    case Done(o) =>
      DoneSorted(ph, t, flushing, script, trace);
      assert Frames.Deliver(t, []) == t;
    case Go(ph', t', trace', evs) =>
      NextEntry(ph, t, flushing, script, trace);
      RunSorted(ph', t', flushing, script, trace');
      Frames.DeliverAppend(t, evs, Run(ph', t', flushing, script, trace').evs);
  }

  /** The events of a step are those of the dispatches it made. */
  lemma NextEvents(ph: Phase, t: Frames.Table, flushing: bool, script: seq<Reply>, trace: seq<Call>)
    requires |trace| <= |script|
    ensures var m := Next(ph, t, flushing, script, trace);
      && (m.Go? ==> DispatchedEvents(script, m.trace) == DispatchedEvents(script, trace) + m.evs)
      && (m.Done? ==> m.o.evs == [] && DispatchedEvents(script, m.o.trace) == DispatchedEvents(script, trace))
  {
    var i := |trace|;
    if ph == Preparing && i < |script| {
      PrepareEvents(t, flushing, script, trace);
    } else if ph == Reading && i < |script| {
      ReadStepEvents(t, flushing, script, trace);
    } else if ph == Flushing && i < |script| {
      DispatchedStep(script, trace, Flush);
    } else if ph == Polling && !flushing && i < |script| {
      DispatchedStep(script, trace, PollWait);
    }
  }

  /** The events of a step of the prepare-read loop. */
  lemma PrepareEvents(t: Frames.Table, flushing: bool, script: seq<Reply>, trace: seq<Call>)
    requires |trace| < |script|
    ensures var m := Next(Preparing, t, flushing, script, trace);
      && (m.Go? ==> DispatchedEvents(script, m.trace) == DispatchedEvents(script, trace) + m.evs)
      && (m.Done? ==> m.o.evs == [] && DispatchedEvents(script, m.o.trace) == DispatchedEvents(script, trace))
  {
    var i := |trace|;
    var d0 := DispatchedEvents(script, trace);
    var a := trace + [PrepareRead];
    DispatchedStep(script, trace, PrepareRead);
    assert DispatchedEvents(script, a) == d0;
    if script[i].Err? && i + 1 < |script| {
      DispatchedStep(script, a, DispatchPending);
      assert DispatchedEvents(script, a + [DispatchPending]) == d0 + EventsOf(script[i + 1]);
    }
  }

  /** The events of a read and the dispatch after it. */
  lemma ReadStepEvents(t: Frames.Table, flushing: bool, script: seq<Reply>, trace: seq<Call>)
    requires |trace| < |script|
    ensures var m := Next(Reading, t, flushing, script, trace);
      && (m.Go? ==> DispatchedEvents(script, m.trace) == DispatchedEvents(script, trace) + m.evs)
      && (m.Done? ==> m.o.evs == [] && DispatchedEvents(script, m.o.trace) == DispatchedEvents(script, trace))
  {
    var i := |trace|;
    var d0 := DispatchedEvents(script, trace);
    var a := trace + [ReadEvents];
    DispatchedStep(script, trace, ReadEvents);
    assert DispatchedEvents(script, a) == d0;
    if !script[i].Err? && i + 1 < |script| {
      DispatchedStep(script, a, DispatchPending);
      assert DispatchedEvents(script, a + [DispatchPending]) == d0 + EventsOf(script[i + 1]);
    }
  }

  lemma DispatchedStep(script: seq<Reply>, trace: seq<Call>, c: Call)
    requires |trace| < |script|
    ensures DispatchedEvents(script, trace + [c])
         == DispatchedEvents(script, trace) + (if c == DispatchPending then EventsOf(script[|trace|]) else [])
  {
    assert (trace + [c])[..|trace|] == trace;
  }

  /** The events a wait ran are those of the dispatches it made. */
  lemma {:induction false} RunEvents(ph: Phase, t: Frames.Table, flushing: bool, script: seq<Reply>, trace: seq<Call>)
    requires |trace| <= |script|
    ensures var o := Run(ph, t, flushing, script, trace);
      DispatchedEvents(script, trace) + o.evs == DispatchedEvents(script, o.trace)
    decreases |script| - |trace|, Rank(ph)
  {
    var m := Next(ph, t, flushing, script, trace);
    if m.Go? {
      RunEvents(m.phase, m.t, flushing, script, m.trace);
    }
    StepEvents(ph, t, flushing, script, trace);
  }

  /** The events of a wait are those of its first step and of the rest. */
  lemma StepEvents(ph: Phase, t: Frames.Table, flushing: bool, script: seq<Reply>, trace: seq<Call>)
    requires |trace| <= |script|
    requires var m := Next(ph, t, flushing, script, trace);
      m.Go? ==> var rest := Run(m.phase, m.t, flushing, script, m.trace);
        DispatchedEvents(script, m.trace) + rest.evs == DispatchedEvents(script, rest.trace)
    ensures var o := Run(ph, t, flushing, script, trace);
      DispatchedEvents(script, trace) + o.evs == DispatchedEvents(script, o.trace)
  {
    var m := Next(ph, t, flushing, script, trace);
    NextEvents(ph, t, flushing, script, trace);
    if m.Go? {
      var rest := Run(m.phase, m.t, flushing, script, m.trace);
      RunGo(ph, t, flushing, script, trace);
      var before := DispatchedEvents(script, trace);
      assert before + (m.evs + rest.evs) == (before + m.evs) + rest.evs;
    }
  }

  /** A wait whose first step goes on is that step's events before the rest. */
  lemma RunGo(ph: Phase, t: Frames.Table, flushing: bool, script: seq<Reply>, trace: seq<Call>)
    requires |trace| <= |script| && Next(ph, t, flushing, script, trace).Go?
    ensures var m := Next(ph, t, flushing, script, trace);
      var o := Run(ph, t, flushing, script, trace);
      var rest := Run(m.phase, m.t, flushing, script, m.trace);
      o.evs == m.evs + rest.evs && o.trace == rest.trace
  {
  }

  /** A step that is not left waiting for a reply is the same with more
      replies; one that is makes a further call when given one. */
  lemma NextMore(ph: Phase, t: Frames.Table, flushing: bool, script: seq<Reply>, more: seq<Reply>, trace: seq<Call>)
    requires |trace| <= |script|
    ensures var m := Next(ph, t, flushing, script, trace);
      var m' := Next(ph, t, flushing, script + more, trace);
      && (!(m.Done? && m.o.r == Blocked) ==> m' == m)
      && (m.Done? && m.o.r == Blocked && more != [] ==>
            if m'.Go? then m.o.trace < m'.trace else m.o.trace < m'.o.trace)
  {
    var s := script + more;
    var i := |trace|;
    assert forall k :: 0 <= k < |script| ==> s[k] == script[k];
  }

  /** A finished wait does not depend on replies it did not use; a blocked
      one goes on with further calls once more replies arrive. */
  lemma {:induction false} RunMore(ph: Phase, t: Frames.Table, flushing: bool, script: seq<Reply>, more: seq<Reply>,
                                   trace: seq<Call>)
    requires |trace| <= |script|
    ensures var o := Run(ph, t, flushing, script, trace);
      var o' := Run(ph, t, flushing, script + more, trace);
      && (o.r != Blocked ==> o' == o)
      && (o.r == Blocked && more != [] ==> o.trace < o'.trace)
    decreases |script| - |trace|, Rank(ph)
  {
    NextMore(ph, t, flushing, script, more, trace);
    match Next(ph, t, flushing, script, trace)
    case Done(o) =>
    case Go(ph', t', trace', evs) =>
      RunMore(ph', t', flushing, script, more, trace');
  }

  // ---------------------------------------------------------------------------
  // The properties of a whole wait

  /** Sorting of failures in sync: the error path (`sync_failed` set) is taken
      exactly on a failing flush, read or dispatch or a poll error other than
      EAGAIN, EINTR and EBUSY; EBUSY or a flushing poll set returns FALSE and
      leaves `sync_failed` alone; success comes exactly from a test of the
      counter that saw no frame pending; transient poll errors are retried;
      the read stays prepared only after a failed flush. */
  lemma WaitSorted(t: Frames.Table, flushing: bool, script: seq<Reply>)
    ensures var o := Waited(t, flushing, script);
      Sorted(flushing, script, o, Frames.Deliver(t, o.evs).pending)
  {
    RunSorted(LoopHead, t, flushing, script, []);
  }

  /** The listeners that ran are exactly those of the events the dispatches
      returned, in order. */
  lemma WaitEvents(t: Frames.Table, flushing: bool, script: seq<Reply>)
    ensures var o := Waited(t, flushing, script);
      o.evs == DispatchedEvents(script, o.trace)
  {
    RunEvents(LoopHead, t, flushing, script, []);
  }

  /** `Blocked` is exactly a wait that ran out of replies in the middle of the
      protocol: any other outcome stays the same when more replies are given,
      and a blocked wait makes a further call as soon as one is. */
  lemma WaitOnline(t: Frames.Table, flushing: bool, script: seq<Reply>, more: seq<Reply>)
    ensures var o := Waited(t, flushing, script);
      && (o.r != Blocked ==> Waited(t, flushing, script + more) == o)
      && (o.r == Blocked ==> |o.trace| == |script| && (more != [] ==> o.trace < Waited(t, flushing, script + more).trace))
  {
    RunMore(LoopHead, t, flushing, script, more, []);
    WaitSorted(t, flushing, script);
  }
}
