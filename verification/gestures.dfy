/**
 * The gesture decisions of `DragPinchManager`: pinch zoom limits, the
 * double-tap zoom cycle, and the page fling that moves to a neighbouring
 * page. Touch events are reduced to the numbers these decisions read.
 */
module Gestures {
  import opened JavaLang
  import NativeUtil
  import PdfFile
  import Viewport

  /**
   * The ratio `onScale` passes to `zoomCenteredRelativeTo`: the detector's
   * factor, replaced when it would take the zoom outside the limits by the
   * ratio that lands exactly on the limit.
   */
  function ScaleRatio(zoom: real, factor: real, minZoom: real, maxZoom: real): (dr: real)
    requires zoom != 0.0
    ensures zoom * dr == NativeUtil.Clamp(zoom * factor, minZoom, maxZoom)
  {
    var wanted := zoom * factor;
    if wanted < minZoom then minZoom / zoom
    else if wanted > maxZoom then maxZoom / zoom
    else factor
  }

  /**
   * `onScale`: the zoom limits are the smaller of the library constant and
   * the view's setting (for both ends), and the view zooms about the focus.
   * The constants `MINIMUM_ZOOM` and `MAXIMUM_ZOOM` are parameters here.
   */
  function OnScale(v: Viewport.View, f: PdfFile.PdfFile, factor: real, viewMinZoom: real, viewMaxZoom: real,
                   minimumZoom: real, maximumZoom: real, focusX: real, focusY: real): (w: Viewport.View)
    requires v.zoom != 0.0
    ensures w.zoom == NativeUtil.Clamp(v.zoom * factor, MinReal(minimumZoom, viewMinZoom), MinReal(maximumZoom, viewMaxZoom))
    ensures w.swipeVertical == v.swipeVertical
  {
    var lo := MinReal(minimumZoom, viewMinZoom);
    var hi := MinReal(maximumZoom, viewMaxZoom);
    var dr := ScaleRatio(v.zoom, factor, lo, hi);
    var newZoom := v.zoom * dr;
    assert newZoom == NativeUtil.Clamp(v.zoom * factor, lo, hi);
    Viewport.ZoomCenteredTo(v, f, newZoom, focusX, focusY, true)
  }

  /**
   * Pinching never leaves the limits, and a pinch that stays inside them
   * zooms by exactly the detector's factor.
   */
  lemma OnScaleStaysInLimits(v: Viewport.View, f: PdfFile.PdfFile, factor: real, viewMinZoom: real, viewMaxZoom: real,
                             minimumZoom: real, maximumZoom: real, focusX: real, focusY: real)
    requires v.zoom != 0.0
    requires MinReal(minimumZoom, viewMinZoom) <= MinReal(maximumZoom, viewMaxZoom)
    ensures var w := OnScale(v, f, factor, viewMinZoom, viewMaxZoom, minimumZoom, maximumZoom, focusX, focusY);
      MinReal(minimumZoom, viewMinZoom) <= w.zoom <= MinReal(maximumZoom, viewMaxZoom)
      && (MinReal(minimumZoom, viewMinZoom) <= v.zoom * factor <= MinReal(maximumZoom, viewMaxZoom) ==> w.zoom == v.zoom * factor)
  {
  }

  /** What a double tap starts: nothing, an animated zoom to a level, or an animated reset. */
  datatype TapAction = NotHandled | ZoomTo(level: real) | ResetZoom

  /**
   * `onDoubleTap`: below the middle zoom go to it, below the maximum go to
   * the maximum, otherwise reset to the minimum.
   */
  function OnDoubleTap(enabled: bool, zoom: real, midZoom: real, maxZoom: real): (a: TapAction)
    ensures a == NotHandled <==> !enabled
    ensures a.ZoomTo? ==> a.level > zoom && (a.level == midZoom || a.level == maxZoom)
    ensures a.ZoomTo? && a.level == maxZoom && midZoom != maxZoom ==> zoom >= midZoom
    ensures a == ResetZoom <==> enabled && zoom >= midZoom && zoom >= maxZoom
  {
    if !enabled then NotHandled
    else if zoom < midZoom then ZoomTo(midZoom)
    else if zoom < maxZoom then ZoomTo(maxZoom)
    else ResetZoom
  }

  /** The zoom an action ends at once its animation finishes (`resetZoomWithAnimation` goes to the minimum). */
  function ZoomAfter(zoom: real, a: TapAction, minZoom: real): real
  {
    match a
    case NotHandled => zoom
    case ZoomTo(level) => level
    case ResetZoom => minZoom
  }

  /** With ordered levels, three double taps from the minimum zoom visit the middle, the maximum, and come back. */
  lemma DoubleTapCycle(minZoom: real, midZoom: real, maxZoom: real)
    requires minZoom < midZoom < maxZoom
    ensures var z1 := ZoomAfter(minZoom, OnDoubleTap(true, minZoom, midZoom, maxZoom), minZoom);
      var z2 := ZoomAfter(z1, OnDoubleTap(true, z1, midZoom, maxZoom), minZoom);
      var z3 := ZoomAfter(z2, OnDoubleTap(true, z2, midZoom, maxZoom), minZoom);
      z1 == midZoom && z2 == maxZoom && z3 == minZoom
  {
  }

  /** `checkDoPageFling`: the fling is a page fling when it is faster along the scroll axis than across it. */
  function CheckDoPageFling(swipeVertical: bool, velocityX: real, velocityY: real): (r: bool)
    ensures r && swipeVertical ==> velocityY != 0.0
    ensures r && !swipeVertical ==> velocityX != 0.0
    ensures swipeVertical ==>
      (r <==> (velocityY > velocityX && velocityY > -velocityX) || (velocityY < velocityX && velocityY < -velocityX))
    ensures !swipeVertical ==>
      (r <==> (velocityX > velocityY && velocityX > -velocityY) || (velocityX < velocityY && velocityX < -velocityY))
  {
    if swipeVertical then AbsReal(velocityY) > AbsReal(velocityX) else AbsReal(velocityX) > AbsReal(velocityY)
  }

  /** A fling cannot be a page fling for both orientations at once. */
  lemma PageFlingOneAxis(velocityX: real, velocityY: real)
    ensures !(CheckDoPageFling(true, velocityX, velocityY) && CheckDoPageFling(false, velocityX, velocityY))
  {
  }

  /** The test for a vertical layout is the horizontal one with the axes swapped. */
  lemma PageFlingAxesSwap(velocityX: real, velocityY: real)
    ensures CheckDoPageFling(true, velocityX, velocityY) == CheckDoPageFling(false, velocityY, velocityX)
  {
  }

  /** The page a page fling starts from, the page it goes to, and the offset it animates to. */
  datatype Fling = Fling(startingPage: int, targetPage: int, animateTo: real)

  /**
   * `startPageFling`: the focus page is taken where the view was at the
   * down event (`delta` is the pointer's travel along the scroll axis),
   * the target is the next page against the fling's direction, kept in
   * range, and the animation goes to that page's snap offset.
   */
  function StartPageFling(v: Viewport.View, f: PdfFile.PdfFile, velocityX: real, velocityY: real, delta: real): (r: Option<Fling>)
    requires PdfFile.Valid(f)
    ensures r.None? <==> !CheckDoPageFling(v.swipeVertical, velocityX, velocityY)
    ensures r.Some? ==> (r.value.startingPage ==
      Viewport.FindFocusPage(v, f, v.currentXOffset - delta * v.zoom, v.currentYOffset - delta * v.zoom))
    ensures r.Some? && f.pagesCount > 0 ==> 0 <= r.value.targetPage < f.pagesCount
    ensures r.Some? && f.pagesCount > 0 ==>
      var forward := if v.swipeVertical then velocityY <= 0.0 else velocityX <= 0.0;
      (forward ==> r.value.targetPage == Min(r.value.startingPage + 1, f.pagesCount - 1))
      && (!forward ==> r.value.targetPage == Max(r.value.startingPage - 1, 0))
    ensures r.Some? ==> (r.value.animateTo ==
      -Viewport.SnapOffsetForPage(v, f, r.value.targetPage, Viewport.FindSnapEdge(v, f, r.value.targetPage)))
  {
    if !CheckDoPageFling(v.swipeVertical, velocityX, velocityY) then None
    else
      var direction := if (if v.swipeVertical then velocityY else velocityX) > 0.0 then -1 else 1;
      var offsetX := v.currentXOffset - delta * v.zoom;
      var offsetY := v.currentYOffset - delta * v.zoom;
      var startingPage := Viewport.FindFocusPage(v, f, offsetX, offsetY);
      var targetPage := Max(0, Min(f.pagesCount - 1, startingPage + direction));
      var edge := Viewport.FindSnapEdge(v, f, targetPage);
      var offset := Viewport.SnapOffsetForPage(v, f, targetPage, edge);
      Some(Fling(startingPage, targetPage, -offset))
  }

  /**
   * A page fling moves at most one page, and on a page-aligned start it
   * lands on a neighbour unless it is already at the matching end.
   */
  lemma PageFlingMovesOnePage(v: Viewport.View, f: PdfFile.PdfFile, velocityX: real, velocityY: real, delta: real)
    requires PdfFile.Valid(f) && f.pagesCount > 0
    requires CheckDoPageFling(v.swipeVertical, velocityX, velocityY)
    ensures var r := StartPageFling(v, f, velocityX, velocityY, delta).value;
      -1 <= r.targetPage - r.startingPage <= 1
      && (0 < r.startingPage < f.pagesCount - 1 ==> r.targetPage != r.startingPage)
  {
  }
}
