/** How render turns a VA surface into a wl_buffer: the geometry test that
    latches `need_vpp`, the direct export, the VPP conversion and its fallback,
    and which width and height end up damaged. */
module Binder {
  import opened Types

  /** The geometry checks of render: a crop of the source, a source that is not
      the whole surface, or a destination that is not the whole window, all
      require a VPP pass. Conversion is unnecessary exactly when the source is
      the full surface and the destination the full window. */
  function NeedsConversion(src: Rect, dst: Rect, native: Size, window: Size): (r: bool)
    ensures r <==> !(src == FullRect(native) && dst == FullRect(window))
  {
    src.x != 0 || src.y != 0
    || src.width != native.width || src.height != native.height
    || dst.x != 0 || dst.y != 0
    || dst.width != window.width || dst.height != window.height
  }

  /** The three statuses of the direct export that switch render to the VPP path. */
  predicate IsSoftExportFailure(s: VaStatus)
  {
    s == FlagNotSupported || s == Unimplemented || s == InvalidImageFormat
  }

  /** Which surface was exported: the caller's surface as is (Direct), the VPP
      output (Converted), or the caller's surface after the VPP path was taken
      but produced nothing or was unavailable (Native). */
  datatype Path = Direct | Converted | Native

  /** The outcome of buffer acquisition, with the value `need_vpp` keeps. */
  datatype Acquisition =
    | Acquired(needVpp: bool, path: Path, exported: SurfaceId, width: nat, height: nat)
    | ExportFailed(needVpp: bool)

  /** Whether render goes down the VPP path: the latch was already set, the
      geometry requires it, or the direct export failed softly. */
  predicate TakesVppPath(needVpp: bool, geometry: bool, direct: VaStatus)
  {
    needVpp || geometry || IsSoftExportFailure(direct)
  }

  /** The buffer-acquisition rule of render. `needVpp` is the latch before the
      call, `geometry` the result of NeedsConversion, `direct` and `second` the
      statuses of the first and second export, `converted` the VPP output. */
  function Acquire(needVpp: bool, geometry: bool, hasVpp: bool, surface: SurfaceId, native: Size, window: Size,
                   direct: VaStatus, converted: Option<SurfaceId>, second: VaStatus): (a: Acquisition)
  {
    if !(needVpp || geometry) && direct == Success then
      Acquired(false, Direct, surface, native.width, native.height)
    else if !(needVpp || geometry) && !IsSoftExportFailure(direct) then
      ExportFailed(false)
    else
      // from here on need_vpp is TRUE until a failed conversion clears it
      var latch := !(hasVpp && converted.None?);
      if second != Success then ExportFailed(latch)
      else if hasVpp && converted.Some? then Acquired(true, Converted, converted.value, window.width, window.height)
      else Acquired(latch, Native, surface, native.width, native.height)
  }

  /** The properties of the acquisition rule, for every input. */
  lemma AcquireRule(needVpp: bool, geometry: bool, hasVpp: bool, surface: SurfaceId, native: Size, window: Size,
                    direct: VaStatus, converted: Option<SurfaceId>, second: VaStatus, a: Acquisition)
    requires a == Acquire(needVpp, geometry, hasVpp, surface, native, window, direct, converted, second)
    // the direct export is used exactly when nothing requires VPP and it succeeds
    ensures (a.Acquired? && a.path == Direct) <==> (!needVpp && !geometry && direct == Success)
    // the direct export is the surface itself, damaged at its native size, and the latch stays clear
    ensures !needVpp && !geometry && direct == Success ==> a == Acquired(false, Direct, surface, native.width, native.height)
    // a hard failure of the direct export fails render and leaves the latch clear
    ensures !needVpp && !geometry && direct.OtherError? ==> a == ExportFailed(false)
    // on the VPP path, render fails exactly when the second export fails
    ensures TakesVppPath(needVpp, geometry, direct) ==> (a.ExportFailed? <==> second != Success)
    // a successful conversion is exported and damaged at the window size
    ensures TakesVppPath(needVpp, geometry, direct) && hasVpp && converted.Some? && second == Success
      ==> a == Acquired(true, Converted, converted.value, window.width, window.height)
    // a failed conversion clears the latch; the original surface is used at its native size
    ensures TakesVppPath(needVpp, geometry, direct) && hasVpp && converted.None?
      ==> !a.needVpp && (a.Acquired? ==> a == Acquired(false, Native, surface, native.width, native.height))
    // without a VPP filter the latch stays set and the original surface is used
    ensures TakesVppPath(needVpp, geometry, direct) && !hasVpp
      ==> a.needVpp && (a.Acquired? ==> a == Acquired(true, Native, surface, native.width, native.height))
    // the latch is only ever set by the geometry or a soft failure, and only cleared by a failed conversion
    ensures a.needVpp ==> TakesVppPath(needVpp, geometry, direct)
    ensures (needVpp || geometry) && !a.needVpp ==> hasVpp && converted.None?
    // `need_vpp && has_vpp` afterwards holds exactly when a VPP surface was produced
    ensures (a.needVpp && hasVpp) <==> (TakesVppPath(needVpp, geometry, direct) && hasVpp && converted.Some?)
    ensures a.Acquired? ==> (a.path == Converted <==> a.needVpp && hasVpp)
  {
  }

  /** A 640x480 surface shown whole in a 640x480 window takes the direct path
      and is damaged at 640x480. */
  lemma DirectScenario(surface: SurfaceId, converted: Option<SurfaceId>, second: VaStatus)
    ensures var s := Size(640, 480);
      var g := NeedsConversion(Rect(0, 0, 640, 480), Rect(0, 0, 640, 480), s, s);
      !g && Acquire(false, g, true, surface, s, s, Success, converted, second) == Acquired(false, Direct, surface, 640, 480)
  {
  }

  /** The latch scenario: drawing the whole 640x480 surface into a 320x240
      sub-rectangle of a 640x480 window latches `need_vpp`; a later call whose
      rectangles match exactly still takes the VPP path because the latch stays set. */
  lemma LatchScenario(surface: SurfaceId, out: SurfaceId)
    ensures var s := Size(640, 480);
      var g1 := NeedsConversion(Rect(0, 0, 640, 480), Rect(0, 0, 320, 240), s, s);
      var a1 := Acquire(false, g1, true, surface, s, s, Success, Some(out), Success);
      var g2 := NeedsConversion(Rect(0, 0, 640, 480), Rect(0, 0, 640, 480), s, s);
      var a2 := Acquire(a1.needVpp, g2, true, surface, s, s, Success, Some(out), Success);
      && g1 && a1 == Acquired(true, Converted, out, 640, 480)
      && !g2 && a2 == Acquired(true, Converted, out, 640, 480)
  {
  }

  /** A window resized to 320x240 and drawn whole with a 320x240 destination
      needs no conversion from its geometry: only the destination's relation to
      the window size counts, not the surface's. */
  lemma ResizedWindowScenario()
    ensures !NeedsConversion(Rect(0, 0, 640, 480), Rect(0, 0, 320, 240), Size(640, 480), Size(320, 240))
  {
  }
}
