/** The frame lifecycle of a Wayland window: the FrameState records that are
    alive, the single outstanding frame (`last_frame`), the pending-frame counter,
    and what freeing a frame hands back (pool surfaces, destroyed buffers).
    The functions here are the specification the window's callbacks and render
    are proved against; the lemmas are the lifecycle properties. */
module Frames {
  import opened Types

  const U32_MOD: nat := 0x1_0000_0000

  /** `g_atomic_int_inc` on a guint. */
  function IncU32(x: nat): nat
  {
    (x + 1) % U32_MOD
  }

  /** The decrement inside `g_atomic_int_dec_and_test` on a guint. */
  function DecU32(x: nat): nat
  {
    (x + U32_MOD - 1) % U32_MOD
  }

  /** On guint values the decrement undoes the increment and the increment
      undoes the decrement; both wrap at 2^32, and the decrement reaches zero
      (the "test" of `g_atomic_int_dec_and_test`) exactly from 1. */
  lemma U32Wrap(x: nat)
    requires x < U32_MOD
    ensures IncU32(x) < U32_MOD && DecU32(x) < U32_MOD
    ensures DecU32(IncU32(x)) == x && IncU32(DecU32(x)) == x
    ensures IncU32(x) == 0 <==> x == U32_MOD - 1
    ensures DecU32(x) == 0 <==> x == 1
  {
  }

  /** One FrameState record: `done`, the VPP surface and its pool (set only when
      render converted the surface), whether it holds a frame callback, and the
      wl_buffer whose release listener carries this frame as its data (none
      until render registers the listener). */
  datatype FrameState = FrameState(done: bool, surface: Option<SurfaceId>, pool: Option<PoolId>, callback: bool,
                                   buffer: Option<BufferId>)

  /** The frame-related part of the window state plus three logs:
      `freed` (frames given to `frame_state_free`, in order), `returned`
      (surfaces put back into a pool) and `destroyed` (wl_buffers destroyed). */
  datatype Table = Table(
    live: map<FrameId, FrameState>,
    last: Option<FrameId>,
    pending: nat,
    next: FrameId,
    freed: seq<FrameId>,
    returned: seq<PoolReturn>,
    destroyed: seq<BufferId>)

  function EmptyTable(): Table
  {
    Table(map[], None, 0, 0, [], [], [])
  }

  /** The lifecycle invariant. */
  ghost predicate Inv(t: Table)
  {
    // num_frames_pending is 1 exactly when last_frame is set, else 0
    && t.pending == (if t.last.Some? then 1 else 0)
    // the outstanding frame is alive and not yet done
    && (t.last.Some? ==> t.last.value in t.live && !t.live[t.last.value].done)
    // every other live frame has already been marked done; a frame holds a
    // VPP surface exactly when it holds the pool to return it to
    && (forall id :: id in t.live ==>
          && (Some(id) != t.last ==> t.live[id].done)
          && (t.live[id].surface.Some? <==> t.live[id].pool.Some?)
          && t.live[id].buffer.Some?
          && id < t.next)
    // freed frames are gone and each was freed once
    && (forall i :: 0 <= i < |t.freed| ==> t.freed[i] < t.next && t.freed[i] !in t.live)
    && (forall i, j :: 0 <= i < j < |t.freed| ==> t.freed[i] != t.freed[j])
  }

  /** `frame_state_new`: a zero-initialised record. */
  function NewFrame(): FrameState
  {
    FrameState(false, None, None, false, None)
  }

  /** `frame_done`: mark the frame done; only if it is still `last_frame`,
      clear `last_frame` and decrement the counter. */
  function FrameDone(t: Table, id: FrameId): Table
    requires id in t.live
  {
    var marked := t.(live := t.live[id := t.live[id].(done := true)]);
    if t.last == Some(id) then marked.(last := None, pending := DecU32(t.pending)) else marked
  }

  /** The value `frame_done` returns: whether its decrement brought the counter to zero. */
  function FrameDoneEmptied(t: Table, id: FrameId): bool
  {
    t.last == Some(id) && DecU32(t.pending) == 0
  }

  /** `frame_state_free`: NULL is ignored; otherwise the VPP surface goes back
      to its pool when both are set, the record (with its callback) is dropped. */
  function Free(t: Table, f: Option<FrameId>): Table
    requires f.Some? ==> f.value in t.live
  {
    if f.None? then t
    else
      var fr := t.live[f.value];
      var back := if fr.surface.Some? && fr.pool.Some? then [PoolReturn(fr.pool.value, fr.surface.value)] else [];
      t.(live := t.live - {f.value}, freed := t.freed + [f.value], returned := t.returned + back)
  }

  /** The wl_buffer a frame's release listener is registered on, as a log entry. */
  function BufferOf(fr: FrameState): seq<BufferId>
  {
    if fr.buffer.Some? then [fr.buffer.value] else []
  }

  /** `frame_release_callback`: run `frame_done` unless the frame is already
      done, destroy the released wl_buffer (the one the listener carrying this
      frame is registered on), free the frame. */
  function Release(t: Table, id: FrameId): Table
    requires id in t.live
  {
    var t1 := if !t.live[id].done then FrameDone(t, id) else t;
    Free(t1.(destroyed := t1.destroyed + BufferOf(t.live[id])), Some(id))
  }

  /** The frame part of a successful render: a new record becomes `last_frame`,
      the counter is incremented, the VPP surface and pool (if any) are attached,
      the release listener is registered on the presented `buffer` and the
      frame callback is requested. */
  function Install(t: Table, surface: Option<SurfaceId>, pool: Option<PoolId>, buffer: BufferId): Table
  {
    var fr := NewFrame().(surface := surface, pool := pool, buffer := Some(buffer), callback := true);
    t.(live := t.live[t.next := fr], last := Some(t.next), pending := IncU32(t.pending), next := t.next + 1)
  }

  /** The cleanup of a render whose wait failed: the VPP surface (if any) goes
      back to the pool and the buffer is destroyed; no frame is created. */
  function Drop(t: Table, back: Option<PoolReturn>, buffer: BufferId): Table
  {
    t.(returned := t.returned + (if back.Some? then [back.value] else []), destroyed := t.destroyed + [buffer])
  }

  /** One listener run by a dispatch. Events for objects that no longer exist are
      never delivered (their proxies were destroyed with the frame). */
  function Apply(t: Table, e: Event): Table
  {
    match e
    case FrameCallbackDone(id) => if id in t.live then FrameDone(t, id) else t
    case BufferReleased(id) => if id in t.live then Release(t, id) else t
  }

  /** The listeners of a sequence of events, in queue order. */
  function Deliver(t: Table, evs: seq<Event>): Table
    decreases |evs|
  {
    if evs == [] then t else Deliver(Apply(t, evs[0]), evs[1..])
  }

  /** Whether the event sequence holds a buffer release of frame `id`. */
  ghost predicate ReleasedIn(id: FrameId, evs: seq<Event>)
  {
    exists i :: 0 <= i < |evs| && evs[i].BufferReleased? && evs[i].frame == id
  }

  // ---------------------------------------------------------------------------
  // Lifecycle properties

  /** The empty table (a freshly initialised window) satisfies the invariant. */
  lemma EmptyTableInv()
    ensures Inv(EmptyTable()) && EmptyTable().pending == 0 && EmptyTable().last == None
  {
  }

  /** `frame_done` keeps the invariant, clears `last_frame` when it was this
      frame, and lowers the counter from 1 to 0 in that case only. */
  lemma FrameDoneKeepsInv(t: Table, id: FrameId)
    requires Inv(t) && id in t.live
    ensures var u := FrameDone(t, id);
      && Inv(u)
      && u.live.Keys == t.live.Keys && u.live[id].done
      && u.next == t.next && u.freed == t.freed && u.returned == t.returned && u.destroyed == t.destroyed
      && (t.last == Some(id) ==> u.last == None && u.pending == 0 && FrameDoneEmptied(t, id))
      && (t.last != Some(id) ==> u.last == t.last && u.pending == t.pending && !FrameDoneEmptied(t, id))
  {
  }

  /** `frame_done` applied twice to a frame changes nothing the second time:
      the counter drops at most once per frame. */
  lemma FrameDoneOnce(t: Table, id: FrameId)
    requires Inv(t) && id in t.live
    ensures FrameDone(FrameDone(t, id), id) == FrameDone(t, id)
  {
  }

  /** The release callback keeps the invariant, frees the frame, and leaves no
      outstanding frame behind if the released frame was the outstanding one. */
  lemma ReleaseKeepsInv(t: Table, id: FrameId)
    requires Inv(t) && id in t.live
    ensures var u := Release(t, id);
      && Inv(u)
      && u.live.Keys == t.live.Keys - {id}
      && (forall k :: k in u.live ==> u.live[k].buffer == t.live[k].buffer)
      && u.freed == t.freed + [id]
      && u.destroyed == t.destroyed + [t.live[id].buffer.value]
      && u.next == t.next
      && (t.last == Some(id) ==> u.last == None && u.pending == 0)
      && (t.last != Some(id) ==> u.last == t.last && u.pending == t.pending)
  {
  }

  /** A surface handed back by the release callback is exactly the frame's VPP
      surface, returned to the frame's pool, and nothing is returned for a frame
      that holds none. */
  lemma ReleaseReturnsSurface(t: Table, id: FrameId)
    requires Inv(t) && id in t.live
    ensures var fr := t.live[id];
      Release(t, id).returned ==
        t.returned + (if fr.surface.Some? then [PoolReturn(fr.pool.value, fr.surface.value)] else [])
  {
  }

  /** A successful render installs the new frame as the only outstanding one;
      render only gets there after the wait saw no pending frame. */
  lemma InstallKeepsInv(t: Table, surface: Option<SurfaceId>, pool: Option<PoolId>, buffer: BufferId)
    requires Inv(t) && t.pending == 0
    requires surface.Some? <==> pool.Some?
    ensures var u := Install(t, surface, pool, buffer);
      && Inv(u)
      && u.last == Some(t.next) && u.pending == 1
      && u.live[t.next] == FrameState(false, surface, pool, true, Some(buffer))
      && u.live.Keys == t.live.Keys + {t.next}
      && u.freed == t.freed && u.returned == t.returned && u.destroyed == t.destroyed
  {
  }

  /** The cleanup of a failed wait keeps the invariant and creates no frame. */
  lemma DropKeepsInv(t: Table, back: Option<PoolReturn>, b: BufferId)
    requires Inv(t)
    ensures var u := Drop(t, back, b);
      Inv(u) && u.live == t.live && u.last == t.last && u.pending == t.pending && u.next == t.next && u.freed == t.freed
  {
  }

  lemma ApplyKeepsInv(t: Table, e: Event)
    requires Inv(t)
    ensures Inv(Apply(t, e)) && Apply(t, e).next == t.next
  {
  }

  /** Whatever events arrive, in whatever order, the invariant holds afterwards:
      the counter stays in {0, 1} and matches `last_frame`, and no frame is freed twice. */
  lemma {:induction false} DeliverKeepsInv(t: Table, evs: seq<Event>)
    requires Inv(t)
    ensures Inv(Deliver(t, evs)) && Deliver(t, evs).next == t.next
    decreases |evs|
  {
    if evs != [] {
      ApplyKeepsInv(t, evs[0]);
      DeliverKeepsInv(Apply(t, evs[0]), evs[1..]);
    }
  }

  /** Delivering two batches is delivering their concatenation. */
  lemma {:induction false} DeliverAppend(t: Table, a: seq<Event>, b: seq<Event>)
    ensures Deliver(t, a + b) == Deliver(Deliver(t, a), b)
    decreases |a|
  {
    if a == [] {
      assert a + b == b;
    } else {
      assert (a + b)[0] == a[0] && (a + b)[1..] == a[1..] + b;
      DeliverAppend(Apply(t, a[0]), a[1..], b);
    }
  }

  /** Events never create frames, never raise the counter, and only ever extend
      the logs. */
  lemma {:induction false} DeliverMonotone(t: Table, evs: seq<Event>)
    requires Inv(t)
    ensures var u := Deliver(t, evs);
      && u.pending <= t.pending
      && u.live.Keys <= t.live.Keys
      && t.freed <= u.freed && t.returned <= u.returned && t.destroyed <= u.destroyed
    decreases |evs|
  {
    if evs != [] {
      var e := evs[0];
      ApplyKeepsInv(t, e);
      DeliverMonotone(Apply(t, e), evs[1..]);
      match e
      case FrameCallbackDone(id) =>
        if id in t.live { FrameDoneKeepsInv(t, id); }
      case BufferReleased(id) =>
        if id in t.live { ReleaseKeepsInv(t, id); }
    }
  }

  /** A frame is freed only by the release of its buffer: every frame freed
      while delivering `evs` has a buffer release in `evs`. */
  lemma {:induction false} FreedOnlyOnRelease(t: Table, evs: seq<Event>)
    requires Inv(t)
    ensures var u := Deliver(t, evs);
      t.freed <= u.freed && forall i :: |t.freed| <= i < |u.freed| ==> ReleasedIn(u.freed[i], evs)
    decreases |evs|
  {
    if evs != [] {
      var e := evs[0];
      var t1 := Apply(t, e);
      ApplyKeepsInv(t, e);
      FreedOnlyOnRelease(t1, evs[1..]);
      var u := Deliver(t, evs);
      match e
      case FrameCallbackDone(id) =>
        if id in t.live { FrameDoneKeepsInv(t, id); }
        assert t1.freed == t.freed;
        forall i | |t.freed| <= i < |u.freed|
          ensures ReleasedIn(u.freed[i], evs)
        {
          var k :| 0 <= k < |evs[1..]| && evs[1..][k].BufferReleased? && evs[1..][k].frame == u.freed[i];
          assert evs[k + 1] == evs[1..][k];
        }
      case BufferReleased(id) =>
        if id in t.live { ReleaseKeepsInv(t, id); }
        forall i | |t.freed| <= i < |u.freed|
          ensures ReleasedIn(u.freed[i], evs)
        {
          if i < |t1.freed| {
            assert id in t.live && t1.freed == t.freed + [id];
            assert u.freed[i] == t1.freed[i] == id;
            assert evs[0].BufferReleased? && evs[0].frame == id;
          } else {
            var k :| 0 <= k < |evs[1..]| && evs[1..][k].BufferReleased? && evs[1..][k].frame == u.freed[i];
            assert evs[k + 1] == evs[1..][k];
          }
        }
    }
  }

  /** The two listeners of a frame may arrive in either order: "frame done then
      buffer released" ends in exactly the state "buffer released" alone ends in.
      Either way the frame is freed once and the counter drops once. */
  lemma CallbacksCommute(t: Table, id: FrameId)
    requires Inv(t) && id in t.live
    ensures Deliver(t, [FrameCallbackDone(id), BufferReleased(id)]) == Deliver(t, [BufferReleased(id)])
    ensures Deliver(t, [BufferReleased(id)]) == Release(t, id)
  {
    FrameDoneKeepsInv(t, id);
    var d := FrameDone(t, id);
    DeliverOne(t, BufferReleased(id));
    DeliverOne(d, BufferReleased(id));
    assert [FrameCallbackDone(id), BufferReleased(id)][1..] == [BufferReleased(id)];
    assert Deliver(t, [FrameCallbackDone(id), BufferReleased(id)]) == Release(d, id);
    if t.live[id].done {
      assert t.last != Some(id);
      assert d == t.(live := t.live[id := t.live[id]]);
      assert t.live[id := t.live[id]] == t.live;
    }
  }

  /** Delivering a single event runs its listener. */
  lemma DeliverOne(t: Table, e: Event)
    ensures Deliver(t, [e]) == Apply(t, e)
  {
  }

  /** Once a frame's buffer has been released, the frame is freed exactly once,
      whatever events follow. */
  lemma FreedExactlyOnce(t: Table, id: FrameId, evs: seq<Event>)
    requires Inv(t) && id in t.live
    ensures var u := Deliver(Release(t, id), evs);
      && id !in u.live
      && (exists i :: 0 <= i < |u.freed| && u.freed[i] == id)
      && (forall i, j :: 0 <= i < |u.freed| && 0 <= j < |u.freed| && u.freed[i] == id && u.freed[j] == id ==> i == j)
  {
    ReleaseKeepsInv(t, id);
    var r := Release(t, id);
    DeliverKeepsInv(r, evs);
    DeliverMonotone(r, evs);
    var u := Deliver(r, evs);
    var k := |r.freed| - 1;
    assert r.freed[k] == id;
    assert u.freed[k] == id;
  }

  /** The wl_buffers of the frames `ids`, in order, as `live` records them. */
  function BuffersOf(live: map<FrameId, FrameState>, ids: seq<FrameId>): seq<BufferId>
    decreases |ids|
  {
    if ids == [] then [] else (if ids[0] in live then BufferOf(live[ids[0]]) else []) + BuffersOf(live, ids[1..])
  }

  /** Two maps that agree on the buffers of the frames `ids` give those frames
      the same buffers. */
  lemma {:induction false} BuffersOfAgree(m1: map<FrameId, FrameState>, m2: map<FrameId, FrameState>, ids: seq<FrameId>)
    requires forall i :: 0 <= i < |ids| ==> ids[i] in m1
    requires forall k :: k in m1 ==> k in m2 && m1[k].buffer == m2[k].buffer
    ensures BuffersOf(m1, ids) == BuffersOf(m2, ids)
    decreases |ids|
  {
    if ids != [] {
      BuffersOfAgree(m1, m2, ids[1..]);
    }
  }

  lemma BuffersOfCons(live: map<FrameId, FrameState>, id: FrameId, ids: seq<FrameId>)
    ensures BuffersOf(live, [id] + ids) == BuffersOf(live, [id]) + BuffersOf(live, ids)
  {
    assert ([id] + ids)[1..] == ids;
    assert [id][1..] == [];
  }

  /** One listener keeps the buffers of the frames it leaves alive, and either
      frees nothing and destroys nothing, or frees one live frame and destroys
      exactly that frame's buffer. */
  lemma ApplyDestroysOwnBuffer(t: Table, e: Event)
    requires Inv(t)
    ensures var u := Apply(t, e);
      && (forall k :: k in u.live ==> k in t.live && u.live[k].buffer == t.live[k].buffer)
      && ((u.freed == t.freed && u.destroyed == t.destroyed)
          || (e.frame in t.live && u.freed == t.freed + [e.frame]
              && u.destroyed == t.destroyed + BuffersOf(t.live, [e.frame])))
  {
    match e
    case FrameCallbackDone(id) =>
    case BufferReleased(id) =>
      if id in t.live {
        ReleaseKeepsInv(t, id);
        assert BuffersOf(t.live, [id]) == BufferOf(t.live[id]) + BuffersOf(t.live, []);
        assert Apply(t, e).freed == t.freed + [id];
      }
  }

  /** Each release destroys the buffer its own frame was presented with and no
      other: the buffers destroyed while delivering `evs` are exactly the
      buffers of the frames freed meanwhile, in the same order, and only frames
      alive beforehand are freed. As no frame is freed twice, no frame's buffer
      is destroyed twice. */
  lemma {:induction false} DestroysOwnBuffers(t: Table, evs: seq<Event>)
    requires Inv(t)
    ensures var u := Deliver(t, evs);
      && |t.freed| <= |u.freed|
      && (forall i :: |t.freed| <= i < |u.freed| ==> u.freed[i] in t.live)
      && u.destroyed == t.destroyed + BuffersOf(t.live, u.freed[|t.freed|..])
    decreases |evs|
  {
    if evs == [] {
      assert Deliver(t, evs).freed[|t.freed|..] == [];
    } else {
      var e := evs[0];
      var t1 := Apply(t, e);
      ApplyKeepsInv(t, e);
      ApplyDestroysOwnBuffer(t, e);
      DestroysOwnBuffers(t1, evs[1..]);
      DeliverMonotone(t1, evs[1..]);
      var u := Deliver(t1, evs[1..]);
      assert u == Deliver(t, evs);
      if t1.freed == t.freed {
        ComposeKept(t.live, t1.live, t.freed, u.freed, t.destroyed, u.destroyed);
      } else {
        ComposeFreed(t.live, t1.live, t.freed, e.frame, u.freed, t.destroyed, u.destroyed);
      }
    }
  }

  /** The step of DestroysOwnBuffers on the logs alone, when the first
      listener frees nothing. */
  lemma ComposeKept(m: map<FrameId, FrameState>, m1: map<FrameId, FrameState>,
                    f0: seq<FrameId>, fu: seq<FrameId>, d0: seq<BufferId>, du: seq<BufferId>)
    requires forall k :: k in m1 ==> k in m && m1[k].buffer == m[k].buffer
    requires |f0| <= |fu| && forall i :: |f0| <= i < |fu| ==> fu[i] in m1
    requires du == d0 + BuffersOf(m1, fu[|f0|..])
    ensures forall i :: |f0| <= i < |fu| ==> fu[i] in m
    ensures du == d0 + BuffersOf(m, fu[|f0|..])
  {
    BuffersOfAgree(m1, m, fu[|f0|..]);
  }

  /** The step of DestroysOwnBuffers on the logs alone, when the first
      listener frees the live frame `id` and destroys its buffer. */
  lemma ComposeFreed(m: map<FrameId, FrameState>, m1: map<FrameId, FrameState>,
                     f0: seq<FrameId>, id: FrameId, fu: seq<FrameId>, d0: seq<BufferId>, du: seq<BufferId>)
    requires forall k :: k in m1 ==> k in m && m1[k].buffer == m[k].buffer
    requires id in m && f0 + [id] <= fu
    requires forall i :: |f0| + 1 <= i < |fu| ==> fu[i] in m1
    requires du == (d0 + BuffersOf(m, [id])) + BuffersOf(m1, fu[|f0| + 1..])
    ensures forall i :: |f0| <= i < |fu| ==> fu[i] in m
    ensures du == d0 + BuffersOf(m, fu[|f0|..])
  {
    var later := fu[|f0| + 1..];
    BuffersOfAgree(m1, m, later);
    assert fu[|f0|] == (f0 + [id])[|f0|] == id;
    assert fu[|f0|..] == [id] + later;
    BuffersOfCons(m, id, later);
  }
}
