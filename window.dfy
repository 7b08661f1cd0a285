/** GstVaapiWindowWayland: the private state of one Wayland window and the
    operations the window class dispatches to (create, show, hide, resize,
    set_fullscreen, render, unblock, unblock_cancel), the wait for the previous
    frame (sync), and the two listeners the compositor's events run. */
module WaylandWindow {
  import opened Types
  import Frames
  import Binder
  import opened SyncProtocol

  /** Which exit of render was taken. */
  datatype RenderResult =
    | NoBuffer                   // no wl_buffer could be obtained
    | Dropped(sync: SyncResult)  // the wait failed; the buffer was discarded
    | Presented(frame: FrameId)  // the buffer was attached and committed
    | StillWaiting               // the wait did not finish within the reply script


  /** The exit render takes after its wait for the previous frame ended as
      `w`, presenting in the record `frame` when it presents. */
  function AfterWait(w: SyncResult, frame: FrameId): RenderResult
  {
    match w
    case Synced => Presented(frame)
    case Blocked => StillWaiting
    case _ => Dropped(w)
  }

  /** The VPP output an acquisition exported, if it exported one. */
  function VppOutput(a: Binder.Acquisition): Option<SurfaceId>
  {
    if a.Acquired? && a.path == Binder.Converted then Some(a.exported) else None
  }

  /** What handing a frame's VPP surface back gives: the surface into `pool`, or nothing. */
  function PoolBack(vpp: Option<SurfaceId>, pool: PoolId): Option<PoolReturn>
  {
    if vpp.Some? then Some(PoolReturn(pool, vpp.value)) else None
  }

  /** The pool a frame holding `vpp` keeps a reference to. */
  function PoolOf(vpp: Option<SurfaceId>, pool: PoolId): Option<PoolId>
  {
    if vpp.Some? then Some(pool) else None
  }

  /** The requests a presented frame issues, in order. */
  function PresentRequests(buffer: BufferId, frame: FrameId, width: nat, height: nat, hadRegion: bool): seq<Request>
  {
    [SurfaceAttach(buffer), SurfaceDamage(0, 0, width, height)]
    + (if hadRegion then [SetOpaqueRegion, RegionDestroy] else [])
    + [FrameCallback(frame), SurfaceCommit, DisplayFlush]
  }

  class Window {
    // Fields of the generic window used here: its size, and the VPP filter
    // and surface pool render converts with, which are fixed at creation.
    var width: nat
    var height: nat
    const hasVpp: bool
    const vppPool: PoolId

    // GstVaapiWindowWaylandPrivate; a protocol object is a flag: present or not.
    var eventQueue: bool
    var surface: bool
    var xdgSurface: bool
    var xdgToplevel: bool
    var wlShellSurface: bool
    var opaqueRegion: Option<Size>            // the region and the size it covers
    var isShown: bool
    var fullscreenOnShow: bool
    var syncFailed: bool
    var needVpp: bool
    var pending: nat                          // num_frames_pending
    var lastFrame: Option<FrameId>            // last_frame
    var frames: map<FrameId, Frames.FrameState>  // the live FrameState records
    var fdRegistered: bool                    // pollfd added to the poll set
    var flushing: bool                        // the poll set is flushing
    var readPrepared: bool                    // this thread holds a prepared read on the display

    // What left the window: frames freed, surfaces put back, buffers
    // destroyed, and requests issued, in order; `nextFrame` names the next record.
    var nextFrame: FrameId
    var freed: seq<FrameId>
    var returned: seq<PoolReturn>
    var destroyed: seq<BufferId>
    var requests: seq<Request>

    /** The frame-related fields as one value of the frame specification. */
    function Table(): Frames.Table
      reads this`frames, this`lastFrame, this`pending, this`nextFrame, this`freed, this`returned, this`destroyed
    {
      Frames.Table(frames, lastFrame, pending, nextFrame, freed, returned, destroyed)
    }

    /** The frame fields satisfy the lifecycle invariant. */
    ghost predicate FramesOk()
      reads this`frames, this`lastFrame, this`pending, this`nextFrame, this`freed, this`returned, this`destroyed
    {
      Frames.Inv(Table())
    }

    /** A toplevel is only ever made from an xdg surface, and a window has one
        shell surface or the other, never both. */
    predicate ShellsOk()
      reads this`xdgSurface, this`xdgToplevel, this`wlShellSurface
    {
      (xdgToplevel ==> xdgSurface) && !(xdgSurface && wlShellSurface)
    }

    /** This thread holds no prepared read on the display unless the window
        has already failed: true between calls, false only inside a wait. */
    predicate NoReadHeld()
      reads this`readPrepared, this`syncFailed
    {
      readPrepared ==> syncFailed
    }

    /** How sync ends on this window, given the replies `script`. */
    ghost function Wait(script: seq<Reply>): Outcome
      reads this`frames, this`lastFrame, this`pending, this`nextFrame, this`freed, this`returned, this`destroyed
      reads this`syncFailed, this`readPrepared, this`flushing
    {
      SyncSpec(Table(), syncFailed, readPrepared, flushing, script)
    }

    /** A window of the given size whose private part is zero-initialised. */
    constructor (w: nat, h: nat, vpp: bool, pool: PoolId)
      ensures FramesOk() && ShellsOk() && NoReadHeld()
      ensures Table() == Frames.EmptyTable() && requests == []
      ensures width == w && height == h && hasVpp == vpp && vppPool == pool
      ensures !eventQueue && !surface && !xdgSurface && !xdgToplevel && !wlShellSurface && opaqueRegion == None
      ensures !isShown && !fullscreenOnShow && !syncFailed && !needVpp
      ensures !fdRegistered && !flushing && !readPrepared
    {
      width, height, hasVpp, vppPool := w, h, vpp, pool;
      eventQueue, surface, xdgSurface, xdgToplevel, wlShellSurface := false, false, false, false, false;
      opaqueRegion := None;
      isShown, fullscreenOnShow, syncFailed, needVpp := false, false, false, false;
      pending, lastFrame, frames := 0, None, map[];
      fdRegistered, flushing, readPrepared := false, false, false;
      nextFrame, freed, returned, destroyed, requests := 0, [], [], [], [];
      Frames.EmptyTableInv();
    }

    // -------------------------------------------------------------------------
    // The frame listeners

    /** `frame_done`: mark the frame done, and only if it is still the
        outstanding frame, clear `last_frame` and decrement the counter.
        Returns whether the counter reached zero. */
    method FrameDone(id: FrameId) returns (emptied: bool)
      requires FramesOk() && id in frames
      modifies this`frames, this`lastFrame, this`pending
      ensures FramesOk()
      ensures Table() == Frames.FrameDone(old(Table()), id)
      ensures emptied == Frames.FrameDoneEmptied(old(Table()), id)
      ensures old(lastFrame) == Some(id) ==> lastFrame == None && pending == 0 && emptied
      ensures old(lastFrame) != Some(id) ==> lastFrame == old(lastFrame) && pending == old(pending) && !emptied
    {
      ghost var t := Table();
      Frames.FrameDoneKeepsInv(t, id);
      frames := frames[id := frames[id].(done := true)];
      if lastFrame == Some(id) {
        // the compare-and-exchange on last_frame succeeded
        assert pending == 1;
        lastFrame := None;
        pending := Frames.DecU32(pending);
        emptied := pending == 0;
      } else {
        emptied := false;
      }
      assert Table() == Frames.FrameDone(t, id);
    }

    /** `frame_done_callback`: the compositor displayed the frame. */
    method FrameDoneCallback(id: FrameId)
      requires FramesOk() && id in frames
      modifies this`frames, this`lastFrame, this`pending
      ensures FramesOk()
      ensures Table() == Frames.FrameDone(old(Table()), id)
      ensures id in frames && frames[id].done
    {
      var _ := FrameDone(id);
    }

    /** `frame_state_free`: nothing for NULL; otherwise put the VPP surface back
        into its pool when both are set, drop the pool reference and the frame
        callback with the record. */
    method FreeFrame(f: Option<FrameId>)
      requires f.Some? ==> f.value in frames
      modifies this`frames, this`freed, this`returned
      ensures Table() == Frames.Free(old(Table()), f)
    {
      if f.Some? {
        var fr := frames[f.value];
        if fr.surface.Some? {
          if fr.pool.Some? {
            returned := returned + [PoolReturn(fr.pool.value, fr.surface.value)];
          }
        }
        frames := frames - {f.value};
        freed := freed + [f.value];
      }
    }

    /** `frame_release_callback`: the compositor released the buffer presented
        with the frame (the listener carrying the frame is registered on that
        buffer). Runs `frame_done` unless the frame is already done, destroys
        that buffer and frees the frame; this is the only place a frame is freed. */
    method FrameReleaseCallback(id: FrameId)
      requires FramesOk() && id in frames
      modifies this`frames, this`lastFrame, this`pending, this`freed, this`returned, this`destroyed
      ensures FramesOk()
      ensures Table() == Frames.Release(old(Table()), id)
      ensures id !in frames && freed == old(freed) + [id] && destroyed == old(destroyed) + [old(frames[id].buffer.value)]
      ensures old(lastFrame) == Some(id) ==> lastFrame == None && pending == 0
    {
      Frames.ReleaseKeepsInv(Table(), id);
      var buffer := frames[id].buffer.value;
      if !frames[id].done {
        var _ := FrameDone(id);
      }
      destroyed := destroyed + [buffer];
      FreeFrame(Some(id));
    }

    /** The listeners a dispatch of the window's event queue runs, in queue order.
        Events of frames already freed do not arrive: their proxies are gone. */
    method Dispatch(evs: seq<Event>)
      requires FramesOk()
      modifies this`frames, this`lastFrame, this`pending, this`freed, this`returned, this`destroyed
      ensures FramesOk()
      ensures Table() == Frames.Deliver(old(Table()), evs)
    {
      var i := 0;
      while i < |evs|
        invariant 0 <= i <= |evs|
        invariant FramesOk()
        invariant Table() == Frames.Deliver(old(Table()), evs[..i])
      {
        var e := evs[i];
        ghost var before := Table();
        Frames.DeliverAppend(old(Table()), evs[..i], [e]);
        Frames.DeliverOne(before, e);
        assert evs[..i + 1] == evs[..i] + [e];
        match e {
          case FrameCallbackDone(id) =>
            if id in frames {
              FrameDoneCallback(id);
            }
          case BufferReleased(id) =>
            if id in frames {
              FrameReleaseCallback(id);
            }
        }
        assert Table() == Frames.Apply(before, e);
        i := i + 1;
      }
      assert evs[..i] == evs;
    }

    // -------------------------------------------------------------------------
    // Waiting for the previous frame
    //
    // Each connection call takes the next reply of `script`; `trace` records
    // which call took each, and `evs` the events whose listeners ran. Every
    // part of the wait is proved equal to the protocol's `Run` over the
    // phases it covers.

    /** The inner loop of sync that prepares a read on the window's queue:
        while `wl_display_prepare_read_queue` fails, dispatch what is queued. */
    method PrepareReadQueue(script: seq<Reply>, trace0: seq<Call>)
      returns (s: Step, trace: seq<Call>, ghost evs: seq<Event>)
      requires FramesOk() && !syncFailed && !readPrepared && |trace0| <= |script|
      modifies this`frames, this`lastFrame, this`pending, this`freed, this`returned, this`destroyed
      modifies this`readPrepared, this`syncFailed
      ensures FramesOk() && |trace0| <= |trace| <= |script|
      ensures Table() == Frames.Deliver(old(Table()), evs)
      ensures Run(Preparing, old(Table()), flushing, script, trace0)
           == Then(s, Flushing, Table(), flushing, script, trace, evs, readPrepared)
      ensures syncFailed == (s == Stop(SyncFailed))
      ensures s == Continue ==> readPrepared
    {
      trace, evs := trace0, [];
      ghost var t0 := Table();
      ghost var t := t0;
      while true
        invariant FramesOk() && !syncFailed && !readPrepared
        invariant |trace0| <= |trace| <= |script|
        invariant Table() == t == Frames.Deliver(t0, evs)
        invariant Run(Preparing, t0, flushing, script, trace0) == Prepend(evs, Run(Preparing, t, flushing, script, trace))
        decreases |script| - |trace|
      {
        ghost var o := Run(Preparing, t0, flushing, script, trace0);
        PrepareBlocked(o, evs, t, flushing, script, trace);
        if |trace| == |script| {
          return Stop(Blocked), trace, evs;
        }
        var reply := script[|trace|];
        if !reply.Err? {
          PrepareReady(o, evs, t, flushing, script, trace);
          trace := trace + [PrepareRead];
          readPrepared := true;
          return Continue, trace, evs;
        }
        if |trace| + 1 == |script| {
          return Stop(Blocked), trace + [PrepareRead], evs;
        }
        var dispatched := script[|trace| + 1];
        if dispatched.Err? {
          PrepareFailed(o, evs, t, flushing, script, trace);
          syncFailed := true;
          return Stop(SyncFailed), trace + [PrepareRead] + [DispatchPending], evs;
        }
        PrepareAgain(o, evs, t, flushing, script, trace);
        Frames.DeliverAppend(t0, evs, EventsOf(dispatched));
        Dispatch(EventsOf(dispatched));
        trace, evs := trace + [PrepareRead] + [DispatchPending], evs + EventsOf(dispatched);
        t := Table();
      }
    }

    /** The middle of a round of sync, with the read prepared: flush the
        display, then end the wait (cancelling the read) if no frame is pending
        any more. A failed flush marks failure but keeps the read prepared. */
    method FlushAndCheck(script: seq<Reply>, trace0: seq<Call>) returns (s: Step, trace: seq<Call>)
      requires !syncFailed && readPrepared && |trace0| <= |script|
      modifies this`readPrepared, this`syncFailed
      ensures |trace0| <= |trace| <= |script|
      ensures Run(Flushing, Table(), flushing, script, trace0)
           == Then(s, Polling, Table(), flushing, script, trace, [], readPrepared)
      ensures syncFailed == (s == Stop(SyncFailed))
      ensures s == Continue ==> readPrepared
    {
      trace := trace0;
      if |trace| == |script| {
        return Stop(Blocked), trace;
      }
      var reply := script[|trace|];
      trace := trace + [Flush];
      if reply.Err? {
        // the prepared read is not cancelled on this path
        syncFailed := true;
        return Stop(SyncFailed), trace;
      }
      if pending == 0 {
        readPrepared := false;  // wl_display_cancel_read
        return Stop(Synced), trace;
      }
      return Continue, trace;
    }

    /** The `again:` loop of sync: wait for the display fd with no timeout,
        retrying after EAGAIN and EINTR. A flushing poll set fails at once with
        EBUSY; EBUSY cancels the read and ends the wait without marking failure;
        any other error cancels the read and marks failure. */
    method WaitReadable(script: seq<Reply>, trace0: seq<Call>) returns (s: Step, trace: seq<Call>)
      requires !syncFailed && readPrepared && |trace0| <= |script|
      modifies this`readPrepared, this`syncFailed
      ensures |trace0| <= |trace| <= |script|
      ensures Run(Polling, Table(), flushing, script, trace0)
           == Then(s, Reading, Table(), flushing, script, trace, [], readPrepared)
      ensures syncFailed == (s == Stop(SyncFailed))
      ensures s == Continue ==> readPrepared
    {
      trace := trace0;
      while true
        invariant !syncFailed && readPrepared
        invariant |trace0| <= |trace| <= |script|
        invariant Run(Polling, Table(), flushing, script, trace0) == Run(Polling, Table(), flushing, script, trace)
        decreases |script| - |trace|
      {
        if flushing {
          readPrepared := false;
          return Stop(Busy), trace;
        }
        if |trace| == |script| {
          return Stop(Blocked), trace;
        }
        var reply := script[|trace|];
        trace := trace + [PollWait];
        if IsTransient(reply) {
          continue;  // goto again
        }
        if !reply.Err? {
          return Continue, trace;
        }
        readPrepared := false;
        if reply.errno == EBUSY {
          return Stop(Busy), trace;
        }
        syncFailed := true;
        return Stop(SyncFailed), trace;
      }
    }

    /** The end of a round of sync, once the fd is readable: read the events
        (which gives up the prepared read) and dispatch the window's queue. */
    method ReadAndDispatch(script: seq<Reply>, trace0: seq<Call>)
      returns (s: Step, trace: seq<Call>, ghost evs: seq<Event>)
      requires FramesOk() && !syncFailed && readPrepared && |trace0| <= |script|
      modifies this`frames, this`lastFrame, this`pending, this`freed, this`returned, this`destroyed
      modifies this`readPrepared, this`syncFailed
      ensures FramesOk() && |trace0| <= |trace| <= |script|
      ensures Table() == Frames.Deliver(old(Table()), evs)
      ensures Run(Reading, old(Table()), flushing, script, trace0)
           == Then(s, LoopHead, Table(), flushing, script, trace, evs, readPrepared)
      ensures syncFailed == (s == Stop(SyncFailed))
      ensures s == Continue ==> |trace0| < |trace| && !readPrepared
    {
      trace, evs := trace0, [];
      if |trace| == |script| {
        return Stop(Blocked), trace, evs;
      }
      var reply := script[|trace|];
      trace := trace + [ReadEvents];
      readPrepared := false;
      if reply.Err? {
        syncFailed := true;
        return Stop(SyncFailed), trace, evs;
      }
      if |trace| == |script| {
        return Stop(Blocked), trace, evs;
      }
      reply := script[|trace|];
      trace := trace + [DispatchPending];
      if reply.Err? {
        syncFailed := true;
        return Stop(SyncFailed), trace, evs;
      }
      Dispatch(EventsOf(reply));
      return Continue, trace, EventsOf(reply);
    }

    /** The first half of a round of sync: prepare the read, then flush. */
    method PrepareAndFlush(script: seq<Reply>, trace0: seq<Call>)
      returns (s: Step, trace: seq<Call>, ghost evs: seq<Event>)
      requires FramesOk() && !syncFailed && !readPrepared && |trace0| <= |script|
      modifies this`frames, this`lastFrame, this`pending, this`freed, this`returned, this`destroyed
      modifies this`readPrepared, this`syncFailed
      ensures FramesOk() && |trace0| <= |trace| <= |script|
      ensures Table() == Frames.Deliver(old(Table()), evs)
      ensures Run(Preparing, old(Table()), flushing, script, trace0)
           == Then(s, Polling, Table(), flushing, script, trace, evs, readPrepared)
      ensures syncFailed == (s == Stop(SyncFailed))
      ensures s == Continue ==> readPrepared
    {
      var step;
      step, trace, evs := PrepareReadQueue(script, trace0);
      if step.Stop? {
        return step, trace, evs;
      }
      ghost var mid := trace;
      s, trace := FlushAndCheck(script, trace);
      Chain(Run(Preparing, old(Table()), flushing, script, trace0), evs, Flushing, Table(), flushing, script, mid,
            s, Polling, Table(), trace, [], readPrepared);
      assert evs + [] == evs;
    }

    /** The second half of a round of sync, with the read prepared: wait for
        the fd, then read and dispatch. */
    method WaitAndRead(script: seq<Reply>, trace0: seq<Call>)
      returns (s: Step, trace: seq<Call>, ghost evs: seq<Event>)
      requires FramesOk() && !syncFailed && readPrepared && |trace0| <= |script|
      modifies this`frames, this`lastFrame, this`pending, this`freed, this`returned, this`destroyed
      modifies this`readPrepared, this`syncFailed
      ensures FramesOk() && |trace0| <= |trace| <= |script|
      ensures Table() == Frames.Deliver(old(Table()), evs)
      ensures Run(Polling, old(Table()), flushing, script, trace0)
           == Then(s, LoopHead, Table(), flushing, script, trace, evs, readPrepared)
      ensures syncFailed == (s == Stop(SyncFailed))
      ensures s == Continue ==> |trace0| < |trace| && !readPrepared
    {
      var step;
      evs := [];
      step, trace := WaitReadable(script, trace0);
      if step.Stop? {
        return step, trace, evs;
      }
      ghost var mid := trace;
      s, trace, evs := ReadAndDispatch(script, trace);
      Chain(Run(Polling, old(Table()), flushing, script, trace0), [], Reading, old(Table()), flushing, script, mid,
            s, LoopHead, Table(), trace, evs, readPrepared);
      assert [] + evs == evs;
    }

    /** One round of the outer loop of sync, entered with a frame pending:
        prepare the read (dispatching what is queued), flush, stop if the
        frame already completed, wait for the fd, read and dispatch. */
    method SyncRound(script: seq<Reply>, trace0: seq<Call>)
      returns (s: Step, trace: seq<Call>, ghost evs: seq<Event>)
      requires FramesOk() && !syncFailed && !readPrepared && |trace0| <= |script|
      modifies this`frames, this`lastFrame, this`pending, this`freed, this`returned, this`destroyed
      modifies this`readPrepared, this`syncFailed
      ensures FramesOk() && |trace0| <= |trace| <= |script|
      ensures Table() == Frames.Deliver(old(Table()), evs)
      ensures Run(Preparing, old(Table()), flushing, script, trace0)
           == Then(s, LoopHead, Table(), flushing, script, trace, evs, readPrepared)
      ensures syncFailed == (s == Stop(SyncFailed))
      ensures s == Continue ==> |trace0| < |trace| && !readPrepared
    {
      var step;
      step, trace, evs := PrepareAndFlush(script, trace0);
      if step.Stop? {
        return step, trace, evs;
      }
      ghost var first, mid, t1 := evs, trace, Table();
      ghost var more;
      step, trace, more := WaitAndRead(script, trace);
      Frames.DeliverAppend(old(Table()), first, more);
      Chain(Run(Preparing, old(Table()), flushing, script, trace0), first, Polling, t1, flushing, script, mid,
            step, LoopHead, Table(), trace, more, readPrepared);
      return step, trace, first + more;
    }

    /** `gst_vaapi_window_wayland_sync`: drain the window's event queue until no
        frame is pending. */
    method Sync(script: seq<Reply>) returns (r: SyncResult, trace: seq<Call>, ghost evs: seq<Event>)
      requires FramesOk() && NoReadHeld()
      modifies this`frames, this`lastFrame, this`pending, this`freed, this`returned, this`destroyed
      modifies this`readPrepared, this`syncFailed, this`fdRegistered
      ensures FramesOk()
      // the result, the calls, the events and the prepared read are the protocol's
      ensures Outcome(r, trace, evs, readPrepared) == old(Wait(script))
      // frames change only through the listeners of dispatched events
      ensures Table() == Frames.Deliver(old(Table()), evs)
      // a window that has failed does not touch the poll set; otherwise the
      // display fd is in it from now on
      ensures fdRegistered == (old(fdRegistered) || !old(syncFailed))
      // sync_failed is only ever set, and set exactly on the error path
      ensures syncFailed == (old(syncFailed) || r == SyncFailed)
      // success only after observing that no frame is pending
      ensures r == Synced ==> pending == 0 && lastFrame == None
      ensures r != Blocked ==> NoReadHeld()
    {
      trace, evs := [], [];
      if syncFailed {
        return SyncFailed, trace, evs;
      }
      fdRegistered := true;
      r, trace, evs := DrainQueue(script);
      WaitSorted(old(Table()), flushing, script);
    }

    /** The outer loop of sync, on a window that has not failed: run rounds
        while a frame is pending. */
    method DrainQueue(script: seq<Reply>) returns (r: SyncResult, trace: seq<Call>, ghost evs: seq<Event>)
      requires FramesOk() && !syncFailed && !readPrepared
      modifies this`frames, this`lastFrame, this`pending, this`freed, this`returned, this`destroyed
      modifies this`readPrepared, this`syncFailed
      ensures FramesOk()
      ensures Table() == Frames.Deliver(old(Table()), evs)
      ensures Waited(old(Table()), flushing, script) == Outcome(r, trace, evs, readPrepared)
      ensures syncFailed == (r == SyncFailed)
    {
      trace, evs := [], [];
      ghost var t0 := Table();
      ghost var o := Waited(t0, flushing, script);
      while pending > 0
        invariant FramesOk() && !syncFailed && !readPrepared && |trace| <= |script|
        invariant Table() == Frames.Deliver(t0, evs)
        invariant o == Prepend(evs, Run(LoopHead, Table(), flushing, script, trace))
        decreases |script| - |trace|
      {
        var step;
        ghost var more;
        ghost var t, before := Table(), trace;
        HeadRound(o, evs, t, flushing, script, trace);
        step, trace, more := SyncRound(script, trace);
        Frames.DeliverAppend(t0, evs, more);
        Chain(o, evs, Preparing, t, flushing, script, before, step, LoopHead, Table(), trace, more, readPrepared);
        evs := evs + more;
        if step.Stop? {
          return step.r, trace, evs;
        }
      }
      assert Run(LoopHead, Table(), flushing, script, trace) == Outcome(Synced, trace, [], false);
      assert evs + [] == evs;
      return Synced, trace, evs;
    }

    // -------------------------------------------------------------------------
    // Rendering

    /** `gst_vaapi_window_wayland_render`. The oracles: `native` is the size of
        `surf`, `direct` the status of the export without VPP, `converted` the
        output of the VPP conversion, `second` the status of the export on the
        VPP path, `buffer` the wl_buffer the export produced, `script` the
        replies the wait for the previous frame receives. `a` is the outcome of
        the acquisition rule render follows; `wait` is how the wait for the
        previous frame ends on these replies; `evs` are the events dispatched
        while waiting. */
    method Render(surf: SurfaceId, native: Size, src: Rect, dst: Rect, direct: VaStatus,
                  converted: Option<SurfaceId>, second: VaStatus, buffer: BufferId, script: seq<Reply>)
      returns (ok: bool, res: RenderResult, ghost a: Binder.Acquisition, ghost wait: Outcome, ghost evs: seq<Event>)
      requires FramesOk() && NoReadHeld()
      modifies this`frames, this`lastFrame, this`pending, this`nextFrame, this`freed, this`returned, this`destroyed
      modifies this`readPrepared, this`syncFailed, this`fdRegistered, this`needVpp, this`opaqueRegion, this`requests
      ensures FramesOk()
      ensures wait == old(Wait(script))
      ensures a == Binder.Acquire(old(needVpp), Binder.NeedsConversion(src, dst, native, old(Size(width, height))),
                                  hasVpp, surf, native, old(Size(width, height)), direct, converted, second)
      // need_vpp keeps the value the acquisition leaves, whatever happens next
      ensures needVpp == a.needVpp
      // no buffer: render fails before waiting and nothing else changes
      ensures res == NoBuffer <==> a.ExportFailed?
      // with a buffer, the exit taken and the listeners run are those of the wait
      ensures a.Acquired? ==> res == AfterWait(wait.r, old(nextFrame)) && evs == wait.evs
      // with a buffer, the read, the fd and `sync_failed` are as the wait leaves them
      ensures a.Acquired? ==>
        && readPrepared == wait.reading && fdRegistered == (old(fdRegistered) || !old(syncFailed))
        && syncFailed == (old(syncFailed) || wait.r == SyncFailed)
      ensures res == NoBuffer ==>
        && !ok && evs == [] && Table() == old(Table()) && requests == old(requests)
        && opaqueRegion == old(opaqueRegion) && syncFailed == old(syncFailed)
        && readPrepared == old(readPrepared) && fdRegistered == old(fdRegistered)
      // the wait failed: the VPP surface goes back to the pool, the buffer is
      // destroyed, no frame is installed, and render reports !sync_failed
      ensures res.Dropped? ==>
        && ok == !syncFailed && (res.sync == Busy <==> ok)
        && requests == old(requests) && opaqueRegion == old(opaqueRegion)
        && Table() == Frames.Drop(Frames.Deliver(old(Table()), evs), PoolBack(VppOutput(a), vppPool), buffer)
      // the frame is presented: a new frame becomes the outstanding one, holding
      // the VPP surface if one was produced, and the exported buffer is attached
      // and damaged at the size the acquisition chose
      ensures res.Presented? ==>
        && ok && !syncFailed && lastFrame == Some(res.frame) && pending == 1
        && Table() == Frames.Install(Frames.Deliver(old(Table()), evs), VppOutput(a), PoolOf(VppOutput(a), vppPool), buffer)
        && requests == old(requests) + PresentRequests(buffer, res.frame, a.width, a.height, old(opaqueRegion).Some?)
        && opaqueRegion == None
      ensures res == StillWaiting ==>
        && !ok && Table() == Frames.Deliver(old(Table()), evs)
        && requests == old(requests) && opaqueRegion == old(opaqueRegion)
      // a window whose wait has failed never presents again
      ensures old(syncFailed) ==> !ok && !res.Presented?
      ensures res != StillWaiting ==> NoReadHeld()
    {
      var got, exported, w, h;
      var vpp;
      wait := Wait(script);
      got, exported, w, h, vpp, a := AcquireBuffer(surf, native, src, dst, direct, converted, second);
      if !got {
        return false, NoBuffer, a, wait, [];
      }
      ok, res, evs := PresentOrDrop(vpp, buffer, w, h, script, wait);
    }

    /** The second half of render, once a buffer was obtained: wait for the
        previous frame, then either drop the buffer (the wait failed) or present
        it in a new frame. `vppSurface` is the VPP output the buffer was made
        from, if any. */
    method PresentOrDrop(vppSurface: Option<SurfaceId>, buffer: BufferId, w: nat, h: nat, script: seq<Reply>,
                         ghost wait: Outcome)
      returns (ok: bool, res: RenderResult, ghost evs: seq<Event>)
      requires FramesOk() && NoReadHeld() && wait == Wait(script)
      modifies this`frames, this`lastFrame, this`pending, this`nextFrame, this`freed, this`returned, this`destroyed
      modifies this`readPrepared, this`syncFailed, this`fdRegistered, this`opaqueRegion, this`requests
      ensures FramesOk()
      // the exit taken and the listeners run are those of the wait
      ensures res == AfterWait(wait.r, old(nextFrame)) && evs == wait.evs
      // the read, the fd and `sync_failed` are as the wait leaves them
      ensures readPrepared == wait.reading && fdRegistered == (old(fdRegistered) || !old(syncFailed))
      ensures syncFailed == (old(syncFailed) || wait.r == SyncFailed)
      ensures res.Dropped? ==>
        && ok == !syncFailed && (res.sync == Busy <==> ok)
        && requests == old(requests) && opaqueRegion == old(opaqueRegion)
        && Table() == Frames.Drop(Frames.Deliver(old(Table()), evs), PoolBack(vppSurface, vppPool), buffer)
      ensures res.Presented? ==>
        && ok && !syncFailed && lastFrame == Some(res.frame) && pending == 1
        && Table() == Frames.Install(Frames.Deliver(old(Table()), evs), vppSurface, PoolOf(vppSurface, vppPool), buffer)
        && requests == old(requests) + PresentRequests(buffer, res.frame, w, h, old(opaqueRegion).Some?)
        && opaqueRegion == None
      ensures res == StillWaiting ==>
        && !ok && Table() == Frames.Deliver(old(Table()), evs)
        && requests == old(requests) && opaqueRegion == old(opaqueRegion)
      ensures old(syncFailed) ==> !ok && !res.Presented?
      ensures res != StillWaiting ==> NoReadHeld()
    {
      var r, trace;
      r, trace, evs := Sync(script);
      if r == Blocked {
        ok, res := false, StillWaiting;
      } else if r != Synced {
        // put the VPP surface back if one was produced, destroy the buffer
        DropBuffer(PoolBack(vppSurface, vppPool), buffer);
        ok, res := !syncFailed, Dropped(r);
      } else {
        var id := InstallFrame(vppSurface, buffer);
        PresentBuffer(buffer, id, w, h);
        ok, res := true, Presented(id);
      }
    }

    /** The buffer acquisition of render: the geometry checks, the direct
        export, and the VPP path with its second export. `a` is the outcome of
        the acquisition rule; `got` says whether a wl_buffer was obtained, from
        `exported` at size `w` x `h`; `vpp` is that surface when it is the VPP output. */
    method AcquireBuffer(surf: SurfaceId, native: Size, src: Rect, dst: Rect, direct: VaStatus,
                         converted: Option<SurfaceId>, second: VaStatus)
      returns (got: bool, exported: SurfaceId, w: nat, h: nat, vpp: Option<SurfaceId>, ghost a: Binder.Acquisition)
      modifies this`needVpp
      ensures a == Binder.Acquire(old(needVpp), Binder.NeedsConversion(src, dst, native, old(Size(width, height))),
                                  hasVpp, surf, native, old(Size(width, height)), direct, converted, second)
      ensures needVpp == a.needVpp
      ensures got <==> a.Acquired?
      ensures got ==> exported == a.exported && w == a.width && h == a.height
      ensures got ==> (a.path == Binder.Converted <==> needVpp && hasVpp)
      // the surface the frame will hold and hand back: the VPP output, if one was produced
      ensures got ==> vpp == VppOutput(a)
    {
      ghost var window := Size(width, height);
      a := Binder.Acquire(needVpp, Binder.NeedsConversion(src, dst, native, window),
                          hasVpp, surf, native, window, direct, converted, second);
      // the source must be the whole surface
      if src.x != 0 || src.y != 0 {
        needVpp := true;
      }
      if src.width != native.width || src.height != native.height {
        needVpp := true;
      }
      // the destination must be the whole window
      if dst.x != 0 || dst.y != 0 {
        needVpp := true;
      }
      if dst.width != width || dst.height != height {
        needVpp := true;
      }
      exported, w, h := surf, native.width, native.height;
      if !needVpp {
        if Binder.IsSoftExportFailure(direct) {
          needVpp := true;
        } else if direct != Success {
          return false, exported, w, h, None, a;
        }
      }
      if needVpp {
        if hasVpp {
          if converted.None? {
            needVpp := false;
          } else {
            exported, w, h := converted.value, width, height;
          }
        }
        if second != Success {
          return false, exported, w, h, None, a;
        }
      }
      vpp := if needVpp && hasVpp then Some(exported) else None;
      return true, exported, w, h, vpp, a;
    }

    /** The cleanup of render after a failed wait: hand the VPP surface back to
        the window's pool, if there is one, and destroy the buffer. */
    method DropBuffer(back: Option<PoolReturn>, buffer: BufferId)
      requires FramesOk()
      modifies this`returned, this`destroyed
      ensures FramesOk()
      ensures Table() == Frames.Drop(old(Table()), back, buffer)
    {
      Frames.DropKeepsInv(Table(), back, buffer);
      if back.Some? {
        returned := returned + [back.value];
      }
      destroyed := destroyed + [buffer];
    }

    /** The frame half of a presenting render, entered when no frame is
        pending: a new FrameState becomes `last_frame` and the counter is
        incremented; the frame keeps the VPP surface (and a reference to the
        window's pool) if one was produced, its frame callback, and the release
        listener registered on the presented `buffer`. */
    method InstallFrame(vppSurface: Option<SurfaceId>, buffer: BufferId) returns (id: FrameId)
      requires FramesOk() && pending == 0
      modifies this`frames, this`lastFrame, this`pending, this`nextFrame
      ensures FramesOk()
      ensures id == old(nextFrame) && lastFrame == Some(id) && pending == 1
      ensures Table() == Frames.Install(old(Table()), vppSurface, PoolOf(vppSurface, vppPool), buffer)
    {
      ghost var t := Table();
      id := nextFrame;
      var fr := Frames.NewFrame();  // frame_state_new
      lastFrame := Some(id);
      pending := Frames.IncU32(pending);
      if vppSurface.Some? {
        fr := fr.(surface := vppSurface, pool := Some(vppPool));
      }
      fr := fr.(buffer := Some(buffer));  // wl_buffer_add_listener
      fr := fr.(callback := true);  // wl_surface_frame
      frames := frames[id := fr];
      nextFrame := nextFrame + 1;
      Frames.InstallKeepsInv(t, fr.surface, fr.pool, buffer);
      assert Table() == Frames.Install(t, fr.surface, fr.pool, buffer);
    }

    /** The request half of a presenting render: attach the buffer, damage
        `w` x `h`, apply and destroy the opaque region if one is set, request
        the frame callback, commit and flush. */
    method PresentBuffer(buffer: BufferId, id: FrameId, w: nat, h: nat)
      modifies this`opaqueRegion, this`requests
      ensures requests == old(requests) + PresentRequests(buffer, id, w, h, old(opaqueRegion).Some?)
      ensures opaqueRegion == None
    {
      requests := requests + [SurfaceAttach(buffer), SurfaceDamage(0, 0, w, h)];
      if opaqueRegion.Some? {
        requests := requests + [SetOpaqueRegion, RegionDestroy];
        opaqueRegion := None;
      }
      requests := requests + [FrameCallback(id), SurfaceCommit, DisplayFlush];
    }

    // -------------------------------------------------------------------------
    // Window management

    /** `gst_vaapi_window_wayland_set_fullscreen`. Before the window is shown
        the request is only recorded; afterwards it goes to the xdg toplevel if
        there is one, else to the wl_shell surface. */
    method SetFullscreen(fullscreen: bool) returns (ok: bool)
      modifies this`fullscreenOnShow, this`requests
      ensures ok
      ensures !isShown ==> fullscreenOnShow == fullscreen && requests == old(requests)
      ensures isShown && xdgToplevel ==>
        && fullscreenOnShow == old(fullscreenOnShow)
        && requests == old(requests) + [if fullscreen then XdgSetFullscreen else XdgUnsetFullscreen]
      ensures isShown && !xdgToplevel ==>
        && fullscreenOnShow == old(fullscreenOnShow)
        && requests == old(requests)
           + [if fullscreen then ShellSetFullscreen(wlShellSurface) else ShellSetToplevel(wlShellSurface)]
    {
      if !isShown {
        fullscreenOnShow := fullscreen;
        return true;
      }
      if xdgToplevel {
        requests := requests + [if fullscreen then XdgSetFullscreen else XdgUnsetFullscreen];
        return true;
      }
      // the wl_shell fallback, taken whenever there is no toplevel, even on an
      // xdg window whose wl_shell surface is NULL
      if !fullscreen {
        requests := requests + [ShellSetToplevel(wlShellSurface)];
      } else {
        requests := requests + [ShellSetFullscreen(wlShellSurface)];
      }
      return true;
    }

    /** `gst_vaapi_window_wayland_create`. The oracles say whether the display
        has a compositor, an xdg_wm_base and a wl_shell, and whether creating the
        event queue, the surface and the shell surface succeeds. */
    method Create(hasCompositor: bool, hasXdgWmBase: bool, hasWlShell: bool,
                  queueOk: bool, surfaceOk: bool, shellOk: bool) returns (ok: bool)
      requires !eventQueue && !surface && !xdgSurface && !xdgToplevel && !wlShellSurface && !isShown
      modifies this`eventQueue, this`surface, this`xdgSurface, this`wlShellSurface
      modifies this`fdRegistered, this`flushing, this`isShown, this`fullscreenOnShow, this`requests
      ensures ShellsOk()
      ensures ok <==> hasCompositor && (hasXdgWmBase || hasWlShell) && queueOk && surfaceOk && shellOk
      ensures eventQueue <==> hasCompositor && (hasXdgWmBase || hasWlShell) && queueOk
      ensures surface <==> eventQueue && surfaceOk
      // xdg-shell is preferred; wl_shell only when there is no xdg_wm_base
      ensures xdgSurface <==> surface && hasXdgWmBase && shellOk
      ensures wlShellSurface <==> surface && !hasXdgWmBase && shellOk
      ensures requests == old(requests) + (if wlShellSurface then [ShellSetToplevel(true)] else [])
      // a successful create shows the window and starts a fresh poll set; the
      // recorded fullscreen request is kept but not sent
      ensures ok ==> isShown && !fdRegistered && !flushing && fullscreenOnShow == old(fullscreenOnShow)
      ensures !ok ==>
        && isShown == old(isShown) && fdRegistered == old(fdRegistered)
        && flushing == old(flushing) && fullscreenOnShow == old(fullscreenOnShow)
    {
      ok := false;
      if hasCompositor && (hasXdgWmBase || hasWlShell) {
        eventQueue := queueOk;
        if eventQueue {
          surface := surfaceOk;
          if surface {
            if hasXdgWmBase {
              xdgSurface := shellOk;
            } else {
              wlShellSurface := shellOk;
              if wlShellSurface {
                requests := requests + [ShellSetToplevel(true)];
              }
            }
            ok := shellOk;
          }
        }
      }
      if ok {
        fdRegistered, flushing := false, false;  // gst_poll_new, gst_poll_fd_init
        if fullscreenOnShow {
          // is_shown is still FALSE here: this only records the request again
          var _ := SetFullscreen(true);
        }
        isShown := true;
      }
    }

    /** `gst_vaapi_window_wayland_show`: on an xdg window without a toplevel,
        make the toplevel, title it and commit. `toplevelOk` says whether
        `xdg_surface_get_toplevel` returns an object. */
    method Show(toplevelOk: bool) returns (ok: bool)
      requires ShellsOk()
      modifies this`xdgToplevel, this`requests
      ensures ShellsOk()
      ensures ok <==> !(xdgSurface && !old(xdgToplevel) && !toplevelOk)
      ensures !xdgSurface || old(xdgToplevel) ==> xdgToplevel == old(xdgToplevel) && requests == old(requests)
      ensures xdgSurface && !old(xdgToplevel) ==>
        && xdgToplevel == toplevelOk
        && requests == old(requests) + (if toplevelOk then [GetToplevel, SetTitle, SurfaceCommit] else [])
    {
      if !xdgSurface {
        return true;  // not implemented for wl_shell
      }
      if xdgToplevel {
        return true;  // already mapped
      }
      xdgToplevel := toplevelOk;
      if !xdgToplevel {
        return false;
      }
      requests := requests + [GetToplevel, SetTitle, SurfaceCommit];
      return true;
    }

    /** `gst_vaapi_window_wayland_hide`: destroy the xdg toplevel, if any, and commit. */
    method Hide() returns (ok: bool)
      requires ShellsOk()
      modifies this`xdgToplevel, this`requests
      ensures ShellsOk() && ok && !xdgToplevel
      ensures old(xdgToplevel) ==> requests == old(requests) + [ToplevelDestroy, SurfaceCommit]
      ensures !old(xdgToplevel) ==> requests == old(requests)
    {
      if !xdgSurface {
        return true;  // not implemented for wl_shell
      }
      if xdgToplevel {
        xdgToplevel := false;
        requests := requests + [ToplevelDestroy, SurfaceCommit];
      }
      return true;
    }

    /** `gst_vaapi_window_wayland_resize`: replace the opaque region by one
        covering the new size; the next presented frame applies it. */
    method Resize(w: nat, h: nat) returns (ok: bool)
      modifies this`opaqueRegion, this`requests
      ensures ok && opaqueRegion == Some(Size(w, h))
      ensures requests == old(requests) + (if old(opaqueRegion).Some? then [RegionDestroy] else [])
                                        + [RegionCreate, RegionAdd(0, 0, w, h)]
    {
      if opaqueRegion.Some? {
        requests := requests + [RegionDestroy];
      }
      requests := requests + [RegionCreate, RegionAdd(0, 0, w, h)];
      opaqueRegion := Some(Size(w, h));
      return true;
    }

    /** `handle_xdg_toplevel_configure`: adopt the size the compositor proposes
        when both dimensions are positive; zero means "you decide". */
    method HandleToplevelConfigure(w: int, h: int)
      modifies this`width, this`height
      ensures w > 0 && h > 0 ==> width == w && height == h
      ensures !(w > 0 && h > 0) ==> width == old(width) && height == old(height)
    {
      if w > 0 && h > 0 {
        width, height := w, h;
      }
    }

    /** `gst_vaapi_window_wayland_unblock`: set the poll set flushing, so a
        wait that reaches the poll with a frame pending ends there as FALSE
        without failure, as on EBUSY. */
    method Unblock() returns (ok: bool)
      modifies this`flushing
      ensures ok && flushing
    {
      flushing := true;
      return true;
    }

    /** `gst_vaapi_window_wayland_unblock_cancel`: waits block again. */
    method UnblockCancel() returns (ok: bool)
      modifies this`flushing
      ensures ok && !flushing
    {
      flushing := false;
      return true;
    }
  }
}
