/**
 * The viewport arithmetic of `PDFView`: clamping the scroll offsets, the
 * scroll direction, the relative position, zooming about a pivot, page
 * snapping and the page in focus. Offsets are the view's `currentXOffset`
 * and `currentYOffset`: 0 when the document start is at the view start,
 * negative further into the document.
 */
module Viewport {
  import opened JavaLang
  import NativeUtil
  import PdfFile

  datatype ScrollDir = NoScroll | Start | End

  datatype SnapEdge = SnapNone | SnapStart | SnapEnd | SnapCenter

  datatype View = View(
    swipeVertical: bool,
    width: real,
    height: real,
    currentXOffset: real,
    currentYOffset: real,
    zoom: real,
    lockHorizontalScroll: bool,
    lockVerticalScroll: bool,
    scrollDir: ScrollDir,
    pageSnap: bool)

  /**
   * One axis of `moveTo`: content shorter than the view is centred;
   * otherwise the offset may not leave a gap at either end.
   */
  function ClampAxis(offset: real, content: real, viewLength: real): (r: real)
    ensures content < viewLength ==> r == (viewLength - content) / 2.0
    ensures content >= viewLength ==> viewLength - content <= r <= 0.0
    ensures content >= viewLength && viewLength - content <= offset <= 0.0 ==> r == offset
    ensures content >= viewLength && offset > 0.0 ==> r == 0.0
    ensures content >= viewLength && offset + content < viewLength ==> r == viewLength - content
  {
    if content < viewLength then (viewLength - content) / 2.0
    else if offset > 0.0 then 0.0
    else if offset + content < viewLength then viewLength - content
    else offset
  }

  /** An offset `moveTo` produced is left where it is by the next `moveTo`. */
  lemma ClampAxisIdempotent(offset: real, content: real, viewLength: real)
    ensures ClampAxis(ClampAxis(offset, content, viewLength), content, viewLength) == ClampAxis(offset, content, viewLength)
  {
  }

  /** The direction of a move along the scroll axis. */
  function DirectionOf(newOffset: real, oldOffset: real): (d: ScrollDir)
    ensures d == End <==> newOffset < oldOffset
    ensures d == Start <==> newOffset > oldOffset
    ensures d == NoScroll <==> newOffset == oldOffset
  {
    if newOffset < oldOffset then End else if newOffset > oldOffset then Start else NoScroll
  }

  /** The document's length along the scroll axis, scaled (`getDocLen`). */
  function DocLen(f: PdfFile.PdfFile, zoom: real): real
  {
    f.documentLength * zoom
  }

  /** The widest (vertical scrolling) or tallest (horizontal) page across the scroll axis, scaled. */
  function MaxSecondary(f: PdfFile.PdfFile, zoom: real): real
  {
    if f.config.isVertical then f.maxWidthPageSize.width * zoom else f.maxHeightPageSize.height * zoom
  }

  /**
   * `moveTo`: a locked axis keeps its offset unless a pinch is in progress;
   * both offsets are clamped, the direction is taken from the clamped offset
   * on the scroll axis even when that axis is locked, and only unlocked axes
   * (or any during a pinch) are stored; the locks and page snapping stay.
   */
  function MoveTo(v: View, f: PdfFile.PdfFile, offsetX: real, offsetY: real, scaling: bool): (w: View)
    ensures var x := if v.lockHorizontalScroll && !scaling then v.currentXOffset else offsetX;
      var clampedX := if v.swipeVertical then ClampAxis(x, MaxSecondary(f, v.zoom), v.width)
                      else ClampAxis(x, DocLen(f, v.zoom), v.width);
      w.currentXOffset == (if !v.lockHorizontalScroll || scaling then clampedX else v.currentXOffset)
    ensures var y := if v.lockVerticalScroll && !scaling then v.currentYOffset else offsetY;
      var clampedY := if v.swipeVertical then ClampAxis(y, DocLen(f, v.zoom), v.height)
                      else ClampAxis(y, MaxSecondary(f, v.zoom), v.height);
      w.currentYOffset == (if !v.lockVerticalScroll || scaling then clampedY else v.currentYOffset)
    ensures var y := if v.lockVerticalScroll && !scaling then v.currentYOffset else offsetY;
      v.swipeVertical ==> w.scrollDir == DirectionOf(ClampAxis(y, DocLen(f, v.zoom), v.height), v.currentYOffset)
    ensures var x := if v.lockHorizontalScroll && !scaling then v.currentXOffset else offsetX;
      !v.swipeVertical ==> w.scrollDir == DirectionOf(ClampAxis(x, DocLen(f, v.zoom), v.width), v.currentXOffset)
    ensures v.swipeVertical && (!v.lockVerticalScroll || scaling) ==> w.scrollDir == DirectionOf(w.currentYOffset, v.currentYOffset)
    ensures !v.swipeVertical && (!v.lockHorizontalScroll || scaling) ==> w.scrollDir == DirectionOf(w.currentXOffset, v.currentXOffset)
    ensures w.zoom == v.zoom && w.width == v.width && w.height == v.height && w.swipeVertical == v.swipeVertical
    ensures w.pageSnap == v.pageSnap && w.lockHorizontalScroll == v.lockHorizontalScroll && w.lockVerticalScroll == v.lockVerticalScroll
  {
    var x := if v.lockHorizontalScroll && !scaling then v.currentXOffset else offsetX;
    var y := if v.lockVerticalScroll && !scaling then v.currentYOffset else offsetY;
    var (cx, cy) :=
      if v.swipeVertical then (ClampAxis(x, MaxSecondary(f, v.zoom), v.width), ClampAxis(y, DocLen(f, v.zoom), v.height))
      else (ClampAxis(x, DocLen(f, v.zoom), v.width), ClampAxis(y, MaxSecondary(f, v.zoom), v.height));
    var dir := if v.swipeVertical then DirectionOf(cy, v.currentYOffset) else DirectionOf(cx, v.currentXOffset);
    v.(currentXOffset := if !v.lockHorizontalScroll || scaling then cx else v.currentXOffset,
       currentYOffset := if !v.lockVerticalScroll || scaling then cy else v.currentYOffset,
       scrollDir := dir)
  }

  /** After a move, the offset along the scroll axis keeps the document on screen (or centred). */
  lemma MoveToKeepsDocumentInView(v: View, f: PdfFile.PdfFile, offsetX: real, offsetY: real, scaling: bool)
    requires v.swipeVertical && !v.lockVerticalScroll && DocLen(f, v.zoom) >= v.height
    ensures var w := MoveTo(v, f, offsetX, offsetY, scaling);
      v.height - DocLen(f, v.zoom) <= w.currentYOffset <= 0.0
      && (v.height - DocLen(f, v.zoom) <= offsetY <= 0.0 ==> w.currentYOffset == offsetY)
  {
  }

  /** The offset along the scroll axis. */
  function ScrollOffset(v: View): real
  {
    if v.swipeVertical then v.currentYOffset else v.currentXOffset
  }

  /** The view's length along the scroll axis. */
  function ViewLength(v: View): real
  {
    if v.swipeVertical then v.height else v.width
  }

  /**
   * `getPositionOffset`: how far through the scrollable range the view is,
   * limited to [0, 1]. When the document is exactly as long as the view the
   * division is by zero: a zero offset gives NaN (`None`), any other offset
   * an infinity that the limit turns into 0 or 1.
   */
  function GetPositionOffset(v: View, f: PdfFile.PdfFile): (r: Option<real>)
    ensures r.Some? ==> 0.0 <= r.value <= 1.0
    ensures r.None? <==> DocLen(f, v.zoom) == ViewLength(v) && ScrollOffset(v) == 0.0
    ensures DocLen(f, v.zoom) != ViewLength(v) ==>
      r == Some(NativeUtil.Clamp(-ScrollOffset(v) / (DocLen(f, v.zoom) - ViewLength(v)), 0.0, 1.0))
  {
    var range := DocLen(f, v.zoom) - ViewLength(v);
    var current := ScrollOffset(v);
    if range == 0.0 then
      if current == 0.0 then None
      else if -current > 0.0 then Some(1.0) else Some(0.0)
    else Some(NativeUtil.Clamp(-current / range, 0.0, 1.0))
  }

  /** The document start gives 0 and the document end gives 1. */
  lemma PositionOffsetEnds(v: View, f: PdfFile.PdfFile)
    requires DocLen(f, v.zoom) > ViewLength(v)
    ensures ScrollOffset(v) == 0.0 ==> GetPositionOffset(v, f) == Some(0.0)
    ensures ScrollOffset(v) == ViewLength(v) - DocLen(f, v.zoom) ==> GetPositionOffset(v, f) == Some(1.0)
  {
    var range := DocLen(f, v.zoom) - ViewLength(v);
    assert 0.0 / range == 0.0;
    assert range / range == 1.0;
  }

  /**
   * The offset `zoomCenteredTo` moves to on one axis: scaled by the zoom
   * ratio and shifted so that the pivot stays put.
   */
  function ZoomCenteredBase(current: real, pivot: real, dZoom: real): (base: real)
    ensures pivot - base == (pivot - current) * dZoom
  {
    current * dZoom + (pivot - pivot * dZoom)
  }

  /** The document point under the pivot is the same before and after the zoom. */
  lemma ZoomKeepsPivot(current: real, pivot: real, zoom: real, newZoom: real)
    requires zoom > 0.0 && newZoom > 0.0
    ensures (pivot - ZoomCenteredBase(current, pivot, newZoom / zoom)) / newZoom == (pivot - current) / zoom
  {
    var d := newZoom / zoom;
    assert newZoom == zoom * d;
    assert (pivot - current) * d / (zoom * d) == (pivot - current) / zoom;
  }

  /** `zoomCenteredTo`: set the zoom, then move to the pivot-preserving offsets. */
  function ZoomCenteredTo(v: View, f: PdfFile.PdfFile, newZoom: real, pivotX: real, pivotY: real, scaling: bool): (w: View)
    requires v.zoom != 0.0
    ensures w.zoom == newZoom && w.swipeVertical == v.swipeVertical
  {
    var dZoom := newZoom / v.zoom;
    MoveTo(v.(zoom := newZoom), f, ZoomCenteredBase(v.currentXOffset, pivotX, dZoom),
           ZoomCenteredBase(v.currentYOffset, pivotY, dZoom), scaling)
  }

  /**
   * When the zoomed document is longer than the view and the pivot-preserving
   * offset needs no clamping, the document point under the pivot stays under it.
   */
  lemma ZoomCenteredKeepsPivot(v: View, f: PdfFile.PdfFile, newZoom: real, pivotX: real, pivotY: real, scaling: bool)
    requires v.zoom > 0.0 && newZoom > 0.0 && v.swipeVertical && !v.lockVerticalScroll
    requires DocLen(f, newZoom) >= v.height
    requires v.height - DocLen(f, newZoom) <= ZoomCenteredBase(v.currentYOffset, pivotY, newZoom / v.zoom) <= 0.0
    ensures var w := ZoomCenteredTo(v, f, newZoom, pivotX, pivotY, scaling);
      (pivotY - w.currentYOffset) / newZoom == (pivotY - v.currentYOffset) / v.zoom
  {
    ZoomKeepsPivot(v.currentYOffset, pivotY, v.zoom, newZoom);
  }

  /**
   * `findSnapEdge`: centre a page that fits in the view; otherwise snap its
   * start when the view begins at or before it, its end when the view runs
   * past it, and nothing in between.
   */
  function FindSnapEdge(v: View, f: PdfFile.PdfFile, page: int): (edge: SnapEdge)
    requires PdfFile.Valid(f)
    ensures !v.pageSnap || page < 0 ==> edge == SnapNone
    ensures v.pageSnap && page >= 0 ==>
      (edge == SnapCenter <==> ViewLength(v) >= PdfFile.GetPageLength(f, page, v.zoom))
    ensures v.pageSnap && page >= 0 && ViewLength(v) < PdfFile.GetPageLength(f, page, v.zoom) ==>
      (edge == SnapStart <==> ScrollOffset(v) >= -PdfFile.GetPageOffset(f, page, v.zoom))
    ensures v.pageSnap && page >= 0 && ViewLength(v) < PdfFile.GetPageLength(f, page, v.zoom)
            && ScrollOffset(v) < -PdfFile.GetPageOffset(f, page, v.zoom) ==>
      (edge == SnapEnd <==>
         -PdfFile.GetPageOffset(f, page, v.zoom) - PdfFile.GetPageLength(f, page, v.zoom) > ScrollOffset(v) - ViewLength(v))
      && (edge == SnapNone <==>
         -PdfFile.GetPageOffset(f, page, v.zoom) - PdfFile.GetPageLength(f, page, v.zoom) <= ScrollOffset(v) - ViewLength(v))
    ensures edge == SnapEnd ==>
      -PdfFile.GetPageOffset(f, page, v.zoom) - PdfFile.GetPageLength(f, page, v.zoom) > ScrollOffset(v) - ViewLength(v)
  {
    if !v.pageSnap || page < 0 then SnapNone
    else
      var current := ScrollOffset(v);
      var offset := -PdfFile.GetPageOffset(f, page, v.zoom);
      var viewLength := ViewLength(v);
      var pageLength := PdfFile.GetPageLength(f, page, v.zoom);
      if viewLength >= pageLength then SnapCenter
      else if current >= offset then SnapStart
      else if offset - pageLength > current - viewLength then SnapEnd
      else SnapNone
  }

  /** `snapOffsetForPage`: the (positive) offset to scroll to for the chosen edge. */
  function SnapOffsetForPage(v: View, f: PdfFile.PdfFile, page: int, edge: SnapEdge): (offset: real)
    requires PdfFile.Valid(f)
    ensures var pageStart := PdfFile.GetPageOffset(f, page, v.zoom);
      var pageLength := PdfFile.GetPageLength(f, page, v.zoom);
      (edge == SnapCenter ==> offset + ViewLength(v) / 2.0 == pageStart + pageLength / 2.0)
      && (edge == SnapEnd ==> offset + ViewLength(v) == pageStart + pageLength)
      && (edge == SnapStart || edge == SnapNone ==> offset == pageStart)
  {
    var offset := PdfFile.GetPageOffset(f, page, v.zoom);
    var viewLength := ViewLength(v);
    var pageLength := PdfFile.GetPageLength(f, page, v.zoom);
    if edge == SnapCenter then offset - viewLength / 2.0 + pageLength / 2.0
    else if edge == SnapEnd then offset - viewLength + pageLength
    else offset
  }

  /** The view moved to the snap offset on the scroll axis (`performPageSnap` animates to its negation). */
  function SnapTo(v: View, offset: real): View
  {
    if v.swipeVertical then v.(currentYOffset := -offset) else v.(currentXOffset := -offset)
  }

  /**
   * Snapping a page longer than the view to its start leaves the view
   * aligned with the page start, where `findSnapEdge` keeps answering
   * `START` (the comparison is `>=`), rather than reporting that no snap
   * is needed.
   */
  lemma SnapStartIsStable(v: View, f: PdfFile.PdfFile, page: int)
    requires PdfFile.Valid(f) && v.pageSnap && page >= 0
    requires ViewLength(v) < PdfFile.GetPageLength(f, page, v.zoom)
    ensures var w := SnapTo(v, SnapOffsetForPage(v, f, page, SnapStart));
      ScrollOffset(w) == -PdfFile.GetPageOffset(f, page, v.zoom) && FindSnapEdge(w, f, page) == SnapStart
  {
  }

  /**
   * Snapping a page longer than the view to its end aligns the view's end
   * with the page's end, after which `findSnapEdge` reports that no snap is
   * needed: the `END` test is strict.
   */
  lemma SnapEndSettles(v: View, f: PdfFile.PdfFile, page: int)
    requires PdfFile.Valid(f) && v.pageSnap && page >= 0
    requires ViewLength(v) < PdfFile.GetPageLength(f, page, v.zoom)
    ensures var w := SnapTo(v, SnapOffsetForPage(v, f, page, SnapEnd));
      ScrollOffset(w) - ViewLength(w) == -PdfFile.GetPageOffset(f, page, v.zoom) - PdfFile.GetPageLength(f, page, v.zoom)
      && FindSnapEdge(w, f, page) == SnapNone
  {
  }

  /**
   * `findFocusPage`: the first page near the document start, the last page
   * near its end, otherwise the page at the view's centre.
   */
  function FindFocusPage(v: View, f: PdfFile.PdfFile, xOffset: real, yOffset: real): (page: int)
    requires PdfFile.Valid(f)
    ensures f.pagesCount > 0 ==> 0 <= page < f.pagesCount
    ensures f.pagesCount == 0 ==> page == 0 || page == -1
    ensures var current := if v.swipeVertical then yOffset else xOffset;
      (current > -1.0 ==> page == 0)
      && (current <= -1.0 && current < -DocLen(f, v.zoom) + ViewLength(v) + 1.0 ==> page == f.pagesCount - 1)
      && (current <= -1.0 && current >= -DocLen(f, v.zoom) + ViewLength(v) + 1.0 ==>
            page == PdfFile.GetPageAtOffset(f, -(current - ViewLength(v) / 2.0), v.zoom))
  {
    var current := if v.swipeVertical then yOffset else xOffset;
    var viewLength := ViewLength(v);
    if current > -1.0 then 0
    else if current < -DocLen(f, v.zoom) + viewLength + 1.0 then f.pagesCount - 1
    else
      var center := current - viewLength / 2.0;
      PdfFile.GetPageAtOffset(f, -center, v.zoom)
  }

  /** Scrolling further into the document never moves the focus to an earlier page. */
  lemma FocusPageMonotone(v: View, f: PdfFile.PdfFile, a: real, b: real)
    requires PdfFile.Valid(f) && f.pagesCount > 0 && a <= b
    ensures v.swipeVertical ==> FindFocusPage(v, f, 0.0, a) >= FindFocusPage(v, f, 0.0, b)
    ensures !v.swipeVertical ==> FindFocusPage(v, f, a, 0.0) >= FindFocusPage(v, f, b, 0.0)
  {
    PdfFile.PageAtOffsetMonotone(f, -(b - ViewLength(v) / 2.0), -(a - ViewLength(v) / 2.0), v.zoom);
  }
}
