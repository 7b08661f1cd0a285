/** Values shared by the whole Wayland window model: handles, rectangles,
    the VA-API export status and the replies of the display connection. */
module Types {

  datatype Option<+T> = None | Some(value: T)

  /** Opaque handles of objects the window does not own the code of. */
  type FrameId = nat
  type SurfaceId = nat
  type PoolId = nat
  type BufferId = nat

  /** GstVaapiRectangle: origin and extent, all four unsigned. */
  datatype Rect = Rect(x: nat, y: nat, width: nat, height: nat)

  datatype Size = Size(width: nat, height: nat)

  /** The rectangle that covers a whole area of the given size. */
  function FullRect(s: Size): Rect
  {
    Rect(0, 0, s.width, s.height)
  }

  /** The statuses `vaGetSurfaceBufferWl` can report, as far as render tells them apart. */
  datatype VaStatus =
    | Success
    | FlagNotSupported
    | Unimplemented
    | InvalidImageFormat
    | OtherError(code: int)

  /** The errno values `sync` tells apart after a failed poll wait. */
  datatype Errno = EAGAIN | EINTR | EBUSY | OtherErrno(code: int)

  /** What the compositor delivers on the window's private event queue. */
  datatype Event =
    | FrameCallbackDone(frame: FrameId)            // wl_callback::done of a frame
    | BufferReleased(frame: FrameId)               // wl_buffer::release of the buffer presented with a frame

  /** The reply of one call on the display connection:
      `Ok` is a non-negative return, `Err` a negative one with its errno,
      `Dispatched` a successful dispatch that ran the listeners of these events. */
  datatype Reply = Ok | Err(errno: Errno) | Dispatched(events: seq<Event>)

  /** The connection calls that consume a reply, in the order `sync` makes them. */
  datatype Call = PrepareRead | DispatchPending | Flush | PollWait | ReadEvents

  /** A surface handed back to the pool it came from. */
  datatype PoolReturn = PoolReturn(pool: PoolId, surface: SurfaceId)

  /** Requests the window issues to the compositor, in issue order. A wl_shell
      request records whether the wl_shell surface it goes to exists (`proxy`):
      it is sent to NULL when it does not. */
  datatype Request =
    | ShellSetToplevel(proxy: bool)
    | ShellSetFullscreen(proxy: bool)
    | GetToplevel
    | SetTitle
    | ToplevelDestroy
    | XdgSetFullscreen
    | XdgUnsetFullscreen
    | SurfaceCommit
    | SurfaceAttach(buffer: BufferId)
    | SurfaceDamage(x: int, y: int, width: nat, height: nat)
    | SetOpaqueRegion
    | RegionCreate
    | RegionAdd(x: int, y: int, width: nat, height: nat)
    | RegionDestroy
    | FrameCallback(frame: FrameId)
    | DisplayFlush
}
