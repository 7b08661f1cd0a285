# GstVaapiWindowWayland, modelled in Dafny

This project models the private state machine of the Wayland window of
gstreamer-vaapi (`gstvaapiwindow_wayland.c`): the state a window keeps
between calls, and the operations that change it. That state is the
`need_vpp` latch, the sticky `sync_failed` flag, the pending-frame counter and
`last_frame`, the opaque region, the shell objects, `is_shown`,
`fullscreen_on_show` and the flushing poll set.

- **Types** (`types.dfy`) holds identifiers, rectangles, and the values the
  outside world answers with. These are a VA status, a poll errno, a reply of
  a Wayland connection call, and the events a dispatch delivers. It also holds
  the requests the window sends to the compositor.
- **Frames** (`frames.dfy`) holds the `FrameState` record and the frame
  table: the live records, `last_frame`, `num_frames_pending`, and logs of
  frames freed, surfaces returned to a pool and buffers destroyed. Pure
  functions give the effect of `frame_done`, the release listener, frame
  installation and the failed-wait cleanup. Lemmas prove the lifecycle
  invariant and that each frame is freed exactly once.
- **Binder** (`binder.dfy`) holds the geometry test and the
  buffer-acquisition rule of render. The rule says which surface is exported,
  at which size, and what `need_vpp` becomes.
- **SyncProtocol** (`protocol.dfy`) states the wait of `sync` as a step
  function over its phases: the head of the outer loop, the prepare-read loop,
  the flush, the `again:` poll and the read. `Run` follows the steps to the
  end of the wait, given the replies. Lemmas sort every outcome by the call and
  reply it ended on. They also prove that the listeners run are exactly those
  of the dispatched events, and that `Blocked` means the replies ran out.
- **WaylandWindow** (`window.dfy`) has class `Window`. Its fields are the
  private fields; a protocol object is a present-or-absent flag. Its methods
  are the window operations and the two listeners. Each frame and render
  method is proved against the Frames functions. Each part of `sync` is proved
  equal to `Run` over the phases it covers. Each window-management
  method states the whole new state it leaves.

Everything outside the file is an input of the method that needs it:

- the status of `vaGetSurfaceBufferWl` for each export;
- the output of the VPP conversion;
- the success of each object creation;
- a script of replies for the connection calls of `sync`.

A reply is taken one per call and may carry the events a dispatch runs.
`sync` has no bound on how long it waits, so a wait that uses up its script
ends as `Blocked` and a render in that state as `StillWaiting`. Both mean
"still waiting", not an outcome of the source. `SyncProtocol.WaitOnline`
proves that this is all they mean. Any other outcome stays the same when more
replies are given, and a blocked wait makes a further call as soon as it gets
one.

Behaviour the model keeps as the code has it:

- `set_fullscreen` on a shown window without an xdg toplevel sends the
  wl_shell request. This happens even on an xdg window, where the wl_shell
  surface is NULL. The request is then recorded with `proxy` false.
- `create` calls `set_fullscreen` before it sets `is_shown`. That call takes
  the "not shown" branch and only records the request again.
- Render can take the VPP path because of the latch, the geometry or a soft
  failure of the direct export. On that path, when the conversion succeeds
  but the second export fails (line 588), render returns FALSE. The converted
  surface is not put back into the pool. `Window.AcquireBuffer` and
  `Window.Render` return no buffer and leave the returned-surface log
  unchanged.
- The geometry test compares the source with the surface and the destination
  with the window, never the surface with the window. So a 640x480 surface
  drawn whole into a window resized to 320x240 needs no conversion.
- A flush failure in `sync` marks failure without cancelling the prepared
  read.

## Model

| member | source | states |
|---|---|---|
| Frames.EmptyTableInv | gst-libs/gst/vaapi/gstvaapiwindow_wayland.c:99-115 | the zero-initialised frame fields satisfy the lifecycle invariant, with no frame pending and no `last_frame` |
| Frames.U32Wrap | gst-libs/gst/vaapi/gstvaapiwindow_wayland.c:113 | the `guint` counter's increment and decrement stay below 2^32, undo each other and wrap at 2^32. The decrement that `g_atomic_int_dec_and_test` tests reaches zero exactly from 1 |
| Frames.FrameDoneKeepsInv | gst-libs/gst/vaapi/gstvaapiwindow_wayland.c:485-495 | `frame_done` keeps the invariant and marks the frame done. If the frame is `last_frame`, it clears `last_frame`, drops the counter from 1 to 0 and returns TRUE. Otherwise it leaves both alone and returns FALSE |
| Frames.FrameDoneOnce | gst-libs/gst/vaapi/gstvaapiwindow_wayland.c:485-495 | a second `frame_done` on the same frame changes nothing, so the counter drops at most once per frame |
| Frames.ReleaseKeepsInv | gst-libs/gst/vaapi/gstvaapiwindow_wayland.c:508-518 | the release listener keeps the invariant. It frees the frame, appends it once to the freed log and destroys exactly the buffer the frame was presented with. It clears `last_frame` and the counter exactly when the frame was outstanding |
| Frames.ReleaseReturnsSurface | gst-libs/gst/vaapi/gstvaapiwindow_wayland.c:82-97 | freeing a frame returns its VPP surface to the frame's pool if it has one, and returns nothing otherwise |
| Frames.InstallKeepsInv | gst-libs/gst/vaapi/gstvaapiwindow_wayland.c:601-627 | installing a frame when none is pending keeps the invariant. The new frame becomes `last_frame` with the counter at 1, holding the given surface and pool, a callback, and the presented buffer its release listener is registered on |
| Frames.DropKeepsInv | gst-libs/gst/vaapi/gstvaapiwindow_wayland.c:592-599 | the failed-wait cleanup keeps the invariant and creates no frame |
| Frames.ApplyKeepsInv | gst-libs/gst/vaapi/gstvaapiwindow_wayland.c:497-518 | either listener keeps the invariant |
| Frames.DeliverKeepsInv | gst-libs/gst/vaapi/gstvaapiwindow_wayland.c:497-518 | any sequence of frame-done and release events keeps the counter in {0, 1}, matching `last_frame`, and frees no frame twice |
| Frames.DeliverMonotone | gst-libs/gst/vaapi/gstvaapiwindow_wayland.c:497-518 | events never create frames and never raise the counter, and the freed, returned and destroyed logs only grow |
| Frames.FreedOnlyOnRelease | gst-libs/gst/vaapi/gstvaapiwindow_wayland.c:508-518 | every frame freed while events are delivered had its buffer released among those events |
| Frames.CallbacksCommute | gst-libs/gst/vaapi/gstvaapiwindow_wayland.c:497-518 | "frame done, then buffer released" ends in the same state as "buffer released" alone, and that state is the release listener's result |
| Frames.FreedExactlyOnce | gst-libs/gst/vaapi/gstvaapiwindow_wayland.c:508-518 | once a frame's buffer is released, the frame is gone and appears exactly once in the freed log, whatever events follow |
| Frames.DestroysOwnBuffers | gst-libs/gst/vaapi/gstvaapiwindow_wayland.c:508-518 | the buffers destroyed while events are delivered are exactly the buffers of the frames freed meanwhile, in the same order, and only frames alive beforehand are freed; as no frame is freed twice, no frame's buffer is destroyed twice |
| Binder.NeedsConversion | gst-libs/gst/vaapi/gstvaapiwindow_wayland.c:541-551 | the geometry requires VPP exactly when the source is not the whole surface or the destination is not the whole window |
| Binder.AcquireRule | gst-libs/gst/vaapi/gstvaapiwindow_wayland.c:541-590 | the direct export is used exactly when nothing requires VPP and it succeeds. It exports the surface itself at its native size and leaves the latch clear. A hard direct failure fails with the latch clear. On the VPP path, render fails exactly when the second export fails. A conversion is damaged at the window size. A failed conversion clears the latch and uses the native size. The latch is set only by the geometry or a soft failure, and cleared only by a failed conversion |
| Binder.DirectScenario | gst-libs/gst/vaapi/gstvaapiwindow_wayland.c:553-567 | a 640x480 surface drawn whole into a 640x480 window is exported directly at 640x480 |
| Binder.LatchScenario | gst-libs/gst/vaapi/gstvaapiwindow_wayland.c:541-590 | a sub-rectangle destination latches `need_vpp`, and a later exact-match call still converts |
| Binder.ResizedWindowScenario | gst-libs/gst/vaapi/gstvaapiwindow_wayland.c:541-551 | after a resize to 320x240, a whole 640x480 surface drawn to 320x240 needs no conversion from the geometry |
| WaylandWindow.Window.constructor | gst-libs/gst/vaapi/gstvaapiwindow_wayland.c:680-682 | a new window has zeroed private state, an empty frame table and both invariants |
| WaylandWindow.Window.FrameDone | gst-libs/gst/vaapi/gstvaapiwindow_wayland.c:485-495 | the frame fields become `Frames.FrameDone` of the old ones, and the result is TRUE exactly when the outstanding frame completed |
| WaylandWindow.Window.FrameDoneCallback | gst-libs/gst/vaapi/gstvaapiwindow_wayland.c:497-502 | the frame is marked done and the invariant holds |
| WaylandWindow.Window.FreeFrame | gst-libs/gst/vaapi/gstvaapiwindow_wayland.c:82-97 | NULL changes nothing. Otherwise the record is dropped, logged as freed, and its surface is returned when surface and pool are both set |
| WaylandWindow.Window.FrameReleaseCallback | gst-libs/gst/vaapi/gstvaapiwindow_wayland.c:508-518 | the frame is freed and logged once, and the buffer it was presented with (the one its release listener is registered on) is destroyed. An outstanding frame also clears `last_frame` and the counter. The invariant holds |
| WaylandWindow.Window.Dispatch | gst-libs/gst/vaapi/gstvaapiwindow_wayland.c:283-284 | running the listeners of the dispatched events changes the frame fields exactly as `Frames.Deliver` says and keeps the invariant |
| SyncProtocol.Next | gst-libs/gst/vaapi/gstvaapiwindow_wayland.c:255-285 | a step that goes on only appends calls, at least one (two when a dispatch follows a failed prepare-read or a read), except the loop head's counter test, which makes none. No step uses more replies than calls |
| SyncProtocol.Run | gst-libs/gst/vaapi/gstvaapiwindow_wayland.c:255-294 | a wait only appends calls, and takes at most one reply per call |
| SyncProtocol.Chain | gst-libs/gst/vaapi/gstvaapiwindow_wayland.c:255-285 | two parts of the wait compose: the listeners of the first run before those of the second |
| SyncProtocol.HeadRound | gst-libs/gst/vaapi/gstvaapiwindow_wayland.c:255 | with a frame pending, the loop head goes on to prepare the read without a call |
| SyncProtocol.PrepareAgain | gst-libs/gst/vaapi/gstvaapiwindow_wayland.c:256-259 | a failed prepare-read followed by a successful dispatch runs its listeners and prepares again |
| SyncProtocol.PrepareReady | gst-libs/gst/vaapi/gstvaapiwindow_wayland.c:256 | a successful prepare-read holds the read and goes on to the flush |
| SyncProtocol.PrepareFailed | gst-libs/gst/vaapi/gstvaapiwindow_wayland.c:257-258 | a failed prepare-read followed by a failed dispatch ends on the error path |
| SyncProtocol.PrepareBlocked | gst-libs/gst/vaapi/gstvaapiwindow_wayland.c:256-258 | a prepare-read, or the dispatch after a failed one, left without a reply ends the wait as `Blocked` |
| SyncProtocol.NextEntry | gst-libs/gst/vaapi/gstvaapiwindow_wayland.c:255-285 | each step reaches its next phase only by the calls and replies the code allows there, and transient poll errors are followed by another poll. The table it goes on with is the old one after the listeners of the step |
| SyncProtocol.DoneSorted | gst-libs/gst/vaapi/gstvaapiwindow_wayland.c:255-294 | a final step ends with the result its last call and reply, and the frames still pending, call for |
| SyncProtocol.DoneSortedPreparing | gst-libs/gst/vaapi/gstvaapiwindow_wayland.c:256-259 | the same, for a wait that ends in the prepare-read loop |
| SyncProtocol.DoneSortedFlushing | gst-libs/gst/vaapi/gstvaapiwindow_wayland.c:261-267 | the same, for a wait that ends at the flush or the counter test after it |
| SyncProtocol.DoneSortedPolling | gst-libs/gst/vaapi/gstvaapiwindow_wayland.c:269-279 | the same, for a wait that ends at the poll wait |
| SyncProtocol.DoneSortedReading | gst-libs/gst/vaapi/gstvaapiwindow_wayland.c:281-284 | the same, for a wait that ends at the read or the dispatch after it |
| SyncProtocol.RunSorted | gst-libs/gst/vaapi/gstvaapiwindow_wayland.c:255-294 | from every phase the wait can arrive at, the outcome is sorted by the call and reply it ended on |
| SyncProtocol.NextEvents | gst-libs/gst/vaapi/gstvaapiwindow_wayland.c:256-285 | the events of a step are those of the dispatches it made |
| SyncProtocol.PrepareEvents | gst-libs/gst/vaapi/gstvaapiwindow_wayland.c:256-259 | a step of the prepare-read loop runs exactly the events of the dispatch it made, if it made one |
| SyncProtocol.ReadStepEvents | gst-libs/gst/vaapi/gstvaapiwindow_wayland.c:281-284 | the read step runs exactly the events of the dispatch after the read, if it made one |
| SyncProtocol.DispatchedStep | gst-libs/gst/vaapi/gstvaapiwindow_wayland.c:257-283 | one more call adds the events of its reply exactly when it is a dispatch |
| SyncProtocol.RunEvents | gst-libs/gst/vaapi/gstvaapiwindow_wayland.c:255-285 | the listeners a wait runs are exactly those of the events its dispatches returned, in order |
| SyncProtocol.NextMore | gst-libs/gst/vaapi/gstvaapiwindow_wayland.c:255-285 | a step that was not left waiting for a reply is unchanged by more replies. One that was makes a further call when given one |
| SyncProtocol.RunMore | gst-libs/gst/vaapi/gstvaapiwindow_wayland.c:255-294 | the same, for the whole rest of the wait from any phase |
| SyncProtocol.WaitSorted | gst-libs/gst/vaapi/gstvaapiwindow_wayland.c:255-294 | the error path is taken exactly on a failing flush, read or dispatch, or on a poll error other than EAGAIN, EINTR and EBUSY. FALSE without failure comes exactly from EBUSY, or from a flushing poll set with a frame pending after the flush. TRUE comes exactly from a counter test that saw no frame pending. A finished wait retried every transient poll error, and holds the read only after a failed flush. `Blocked` has used every reply |
| SyncProtocol.WaitEvents | gst-libs/gst/vaapi/gstvaapiwindow_wayland.c:255-285 | the listeners of a whole wait are those of the dispatched events, in order |
| SyncProtocol.WaitOnline | gst-libs/gst/vaapi/gstvaapiwindow_wayland.c:255-294 | `Blocked` is exactly a wait that ran out of replies in the middle of the protocol. Any other outcome is unchanged by more replies, and a blocked wait makes a further call once it gets one |
| WaylandWindow.Window.PrepareReadQueue | gst-libs/gst/vaapi/gstvaapiwindow_wayland.c:256-259 | the loop makes the calls and runs the listeners that `Run` prescribes from the prepare-read phase up to the flush. It sets `sync_failed` exactly when a dispatch fails, and holds the read when it goes on |
| WaylandWindow.Window.FlushAndCheck | gst-libs/gst/vaapi/gstvaapiwindow_wayland.c:261-267 | the flush and the counter test follow `Run` from the flush to the poll. A flush failure sets `sync_failed` and keeps the read |
| WaylandWindow.Window.WaitReadable | gst-libs/gst/vaapi/gstvaapiwindow_wayland.c:269-279 | the poll loop follows `Run` from the `again:` label to the read, retrying EAGAIN and EINTR. `sync_failed` is set exactly on the error path |
| WaylandWindow.Window.ReadAndDispatch | gst-libs/gst/vaapi/gstvaapiwindow_wayland.c:281-284 | the read and dispatch follow `Run` back to the loop head, running the dispatched listeners. They give up the prepared read and set `sync_failed` exactly on a failure |
| WaylandWindow.Window.PrepareAndFlush | gst-libs/gst/vaapi/gstvaapiwindow_wayland.c:256-267 | the first half of a round follows `Run` from the prepare-read loop to the poll |
| WaylandWindow.Window.WaitAndRead | gst-libs/gst/vaapi/gstvaapiwindow_wayland.c:269-284 | the second half of a round follows `Run` from the poll back to the loop head |
| WaylandWindow.Window.SyncRound | gst-libs/gst/vaapi/gstvaapiwindow_wayland.c:256-284 | one round follows `Run` from the prepare-read loop back to the loop head, and keeps the frame invariant |
| WaylandWindow.Window.DrainQueue | gst-libs/gst/vaapi/gstvaapiwindow_wayland.c:255-294 | the outer loop ends with the result, calls, listeners and read that `Waited` gives for the replies. `sync_failed` is set exactly on the error path |
| WaylandWindow.Window.Sync | gst-libs/gst/vaapi/gstvaapiwindow_wayland.c:238-295 | result, calls, listeners and held read equal `SyncSpec` of the old state and the replies: a failed window returns FALSE without a call. Otherwise the fd is registered and the frame fields change only through the dispatched listeners. `sync_failed` is only ever set, and set exactly on the error path. TRUE leaves no frame pending |
| WaylandWindow.Window.AcquireBuffer | gst-libs/gst/vaapi/gstvaapiwindow_wayland.c:541-590 | the buffer, its size and the new `need_vpp` follow `Binder.Acquire`. The VPP surface is the conversion's output exactly when `need_vpp && has_vpp` |
| WaylandWindow.Window.Render | gst-libs/gst/vaapi/gstvaapiwindow_wayland.c:524-633 | the acquisition follows `Binder.Acquire`, and no buffer means FALSE with nothing else changed. With a buffer, the exit follows the result of `SyncSpec`: it presents exactly when the wait returned TRUE, drops the buffer exactly when it returned FALSE, and is still waiting exactly when the replies ran out. The listeners are those of that wait, and the prepared read, the fd registration and `sync_failed` are as the wait leaves them. A failed wait returns the VPP surface, destroys the buffer, installs no frame and returns `!sync_failed` (TRUE on EBUSY). Success installs the frame, tied to the presented buffer, as `last_frame` with the counter at 1. It sends attach, damage at the acquired size, the opaque region if any, the frame callback, commit and flush. A failed window never presents |
| WaylandWindow.Window.PresentOrDrop | gst-libs/gst/vaapi/gstvaapiwindow_wayland.c:592-633 | the exit follows the result of `SyncSpec`: a wait that returned FALSE drops the buffer, a successful one installs the frame, tied to the presented buffer, and sends the present requests, and one whose replies ran out leaves both alone. The prepared read, the fd registration and `sync_failed` are as the wait leaves them |
| WaylandWindow.Window.DropBuffer | gst-libs/gst/vaapi/gstvaapiwindow_wayland.c:592-599 | the VPP surface, if any, goes back to the pool and the buffer is destroyed, keeping the invariant |
| WaylandWindow.Window.InstallFrame | gst-libs/gst/vaapi/gstvaapiwindow_wayland.c:601-627 | a new frame becomes `last_frame` with the counter at 1, holds the VPP surface and pool when there is one, and records the presented buffer as the one its release listener is registered on |
| WaylandWindow.Window.PresentBuffer | gst-libs/gst/vaapi/gstvaapiwindow_wayland.c:612-631 | attach, damage, opaque region (then destroyed), frame callback, commit and flush, in that order |
| WaylandWindow.Window.SetFullscreen | gst-libs/gst/vaapi/gstvaapiwindow_wayland.c:332-362 | before show only the request is recorded. With a toplevel the xdg request is sent, otherwise the wl_shell one |
| WaylandWindow.Window.Create | gst-libs/gst/vaapi/gstvaapiwindow_wayland.c:364-429 | success exactly when every object is created. xdg-shell is preferred and wl_shell only gets toplevel. Success shows the window, resets the poll set, and keeps the recorded fullscreen request without sending it |
| WaylandWindow.Window.Show | gst-libs/gst/vaapi/gstvaapiwindow_wayland.c:187-217 | only an xdg window without a toplevel gets one, with title and commit. Failure is only a failed toplevel creation. `is_shown` is untouched |
| WaylandWindow.Window.Hide | gst-libs/gst/vaapi/gstvaapiwindow_wayland.c:219-236 | the toplevel, if any, is destroyed and the surface committed; `is_shown` is untouched |
| WaylandWindow.Window.Resize | gst-libs/gst/vaapi/gstvaapiwindow_wayland.c:464-483 | the old opaque region is destroyed and a new one covers 0,0 to the new size |
| WaylandWindow.Window.HandleToplevelConfigure | gst-libs/gst/vaapi/gstvaapiwindow_wayland.c:151-175 | the proposed size is taken exactly when both dimensions are positive |
| WaylandWindow.Window.Unblock | gst-libs/gst/vaapi/gstvaapiwindow_wayland.c:635-644 | the poll set becomes flushing, so a wait that reaches the poll with a frame pending ends there as FALSE without failure, as on EBUSY |
| WaylandWindow.Window.UnblockCancel | gst-libs/gst/vaapi/gstvaapiwindow_wayland.c:646-655 | the poll set stops flushing |

## Left out

- The Wayland, VA-API, GstPoll and VPP calls themselves are inputs, not code: export statuses, the conversion output, creation results and a reply script. Requests sent to the compositor are recorded as a sequence.
- Display locking, atomics and cross-thread delivery are modelled sequentially. The compare-and-exchange in `frame_done` is a check-and-assign, and listeners run only inside a dispatch. `Unblock` racing with a wait is modelled as an EBUSY reply.
- `finalize` (lines 431-462) is not modelled. Its only state effect of interest is that it sets the poll set flushing.
- The poll fd registration (lines 249-253) is a flag. The fd number and the poll set's contents are not modelled.
- `frame_state_new` returning NULL (lines 602-603) is not modelled, since a slice allocation does not fail.
- Pool and surface reference counts are not modelled. A frame records the pool it returns to, and returning logs the pool and surface.
- The size-changed signal, logging, the ping and xdg-surface configure replies, and the proxy-queue calls are left out. Of the listener registrations, only the buffer release listener's is kept, as the buffer recorded on its frame. So is the GObject class setup.
- `HandleToplevelConfigure` sets the size directly. The generic window's `set_size`, which also resizes the window, is not part of this model.
- The damage and region arguments are kept as natural numbers. Their conversion to `int32_t` is not modelled.
- `has_vpp` and the surface pool are constructor parameters, since the generic window sets them outside this file.
- `Window.Sync` and `Window.Render` work from a finite reply script. A wait the script does not finish ends as `Blocked` / `StillWaiting`. What follows once more replies arrive is stated only by `SyncProtocol.WaitOnline`.
- `Window.Create` requires a fresh window with no shell objects and not yet shown, which is how it is called. Create on a window already created is not modelled.
- The frame callback object is marked on the frame when the frame is installed. The source creates it a few requests later in the same locked section (line 626), with nothing observable in between.
- The release listener's buffer is recorded on the frame when the frame is installed; the source registers it a few requests later (line 624) in the same locked section. The exported buffer is an input of render, so the model does not prove that two frames are presented with different buffers; it proves that each frame's release destroys that frame's own buffer and that a frame is released at most once.
