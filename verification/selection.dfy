/**
 * Text selection: the endpoints `PDFView` keeps (`selPageSt`, `selPageEd`,
 * `selStart`, `selEnd`), how `PDocSelection.resetSel` normalises them and
 * splits them into per-page character ranges, where `recalcHandles` puts
 * the handles, how `DragPinchManager` asks for the highlight rectangles,
 * moves an endpoint and ends a selection, and the text `getSelection`
 * returns.
 */
module TextSelection {
  import opened JavaLang
  import Util

  /** The selection fields of `PDFView`. Character indices are Java `int`s. */
  datatype Selection = Selection(
    hasSelection: bool,
    selPageSt: int,
    selPageEd: int,
    selStart: Int32,
    selEnd: Int32)

  /**
   * `isNotCurrentPage`: a text handle is stale when a current text page is
   * set and the handle is a different one.
   */
  predicate IsNotCurrentPage(currentTextPtr: Int64, tid: Int64)
  {
    currentTextPtr != 0 && tid != currentTextPtr
  }

  /**
   * The normalisation in `resetSel`. Its "swaps" assign each field from a
   * field that was just overwritten, so a selection whose pages are
   * reversed collapses onto the old start page, and reversed characters
   * (reversed pages included) collapse onto the old end character.
   */
  function Normalize(s: Selection): (r: Selection)
    ensures r.hasSelection == s.hasSelection
    ensures r.selPageSt <= r.selPageEd
    ensures r.selPageSt == r.selPageEd ==> r.selStart <= r.selEnd
    ensures s.selPageEd < s.selPageSt ==>
      r.selPageSt == s.selPageSt && r.selPageEd == s.selPageSt && r.selStart == s.selEnd && r.selEnd == s.selEnd
    ensures s.selPageSt == s.selPageEd && s.selEnd < s.selStart ==>
      r.selPageSt == s.selPageSt && r.selPageEd == s.selPageEd && r.selStart == s.selEnd && r.selEnd == s.selEnd
    ensures s.selPageSt < s.selPageEd || (s.selPageSt == s.selPageEd && s.selStart <= s.selEnd) ==> r == s
  {
    var reversedPages := s.selPageEd < s.selPageSt;
    var pages := if reversedPages then s.(selPageEd := s.selPageSt) else s;
    if reversedPages || (pages.selPageEd == pages.selPageSt && pages.selEnd < pages.selStart) then
      pages.(selStart := pages.selEnd)
    else pages
  }

  /** Normalising twice changes nothing more. */
  lemma NormalizeIdempotent(s: Selection)
    ensures Normalize(Normalize(s)) == Normalize(s)
  {
  }

  /**
   * A reversed selection is not swapped: the text between the two
   * endpoints is lost and an empty selection remains.
   */
  lemma NormalizeCollapsesReversedPages()
    ensures var r := Normalize(Selection(true, 3, 1, 5, 9));
      r == Selection(true, 3, 3, 9, 9) && r != Selection(true, 1, 3, 9, 5)
  {
  }

  /**
   * The character range `resetSel` asks for on one page: `last == -1`
   * stands for "to the end of the page text".
   */
  datatype PageRange = PageRange(first: int, last: int)

  /**
   * The ranges for slots `i..pageCount`: the first slot starts at
   * `selStart`, the last ends at `selEnd`, and every slot in between
   * covers its page from 0 to the end.
   */
  function PageRanges(pageCount: nat, selStart: int, selEnd: int, i: nat): (r: seq<PageRange>)
    requires i <= pageCount + 1
    ensures |r| == pageCount + 1 - i
    ensures forall k :: 0 <= k < |r| ==>
      r[k].first == (if i + k == 0 then selStart else 0) && r[k].last == (if i + k == pageCount then selEnd else -1)
    decreases pageCount + 1 - i
  {
    if i == pageCount + 1 then []
    else [PageRange(if i == 0 then selStart else 0, if i == pageCount then selEnd else -1)]
         + PageRanges(pageCount, selStart, selEnd, i + 1)
  }

  /** What `resetSel` leaves behind in `PDocSelection`: the number of per-page rect lists and how many are in use. */
  datatype Paint = Paint(rectPoolLength: nat, rectPoolSize: int)

  /**
   * `resetSel`'s effect: the (possibly) normalised selection, the paint
   * state, the ranges handed to `getSelRects` in slot order, and whether
   * `recalcHandles` runs.
   */
  datatype Reset = Reset(sel: Selection, paint: Paint, requests: seq<PageRange>, recalc: bool)

  /**
   * `resetSel`. `ready` says that the view and its document exist; `tid`
   * is the text page `loadText` returns. Without a selection only the
   * pool size is zeroed; with a stale handle nothing changes at all;
   * otherwise the selection is normalised, one range per page of the
   * selection is requested, the pool grows to hold them and
   * `rectPoolSize` becomes the number of pages.
   */
  function ResetSel(s: Selection, paint: Paint, ready: bool, currentTextPtr: Int64, tid: Int64): (r: Reset)
    ensures !(ready && s.hasSelection) ==>
      r.sel == s && r.paint == paint.(rectPoolSize := 0) && r.requests == [] && !r.recalc
    ensures ready && s.hasSelection && IsNotCurrentPage(currentTextPtr, tid) ==>
      r.sel == s && r.paint == paint && r.requests == [] && !r.recalc
    ensures ready && s.hasSelection && !IsNotCurrentPage(currentTextPtr, tid) ==>
      var n := Normalize(s);
      var pageCount := n.selPageEd - n.selPageSt;
      r.sel == n && r.recalc
      && r.paint.rectPoolSize == pageCount + 1
      && r.paint.rectPoolLength == Max(paint.rectPoolLength, pageCount + 1)
      && |r.requests| == pageCount + 1
      && r.requests[0].first == n.selStart && r.requests[pageCount].last == n.selEnd
      && (forall k :: 0 < k < |r.requests| ==> r.requests[k].first == 0)
      && (forall k :: 0 <= k < pageCount ==> r.requests[k].last == -1)
    ensures r.paint.rectPoolLength >= paint.rectPoolLength
  {
    if !(ready && s.hasSelection) then Reset(s, paint.(rectPoolSize := 0), [], false)
    else if IsNotCurrentPage(currentTextPtr, tid) then Reset(s, paint, [], false)
    else
      var n := Normalize(s);
      var pageCount := n.selPageEd - n.selPageSt;
      var length := if paint.rectPoolLength > pageCount + 1 then paint.rectPoolLength else pageCount + 1;
      Reset(n, Paint(length, pageCount + 1), PageRanges(pageCount, n.selStart, n.selEnd, 0), true)
  }

  /**
   * Resetting a selection that was just reset requests the same ranges
   * again and leaves the selection and the pool as they are.
   */
  lemma ResetSelStable(s: Selection, paint: Paint, ready: bool, currentTextPtr: Int64, tid: Int64)
    requires ready && s.hasSelection && !IsNotCurrentPage(currentTextPtr, tid)
    ensures var r := ResetSel(s, paint, ready, currentTextPtr, tid);
      var again := ResetSel(r.sel, r.paint, ready, currentTextPtr, tid);
      again.sel == r.sel && again.paint == r.paint && again.requests == r.requests
  {
    NormalizeIdempotent(s);
  }

  /**
   * The signed step of the handle walk: toward the later endpoint, by
   * pages when the selection spans pages and by characters otherwise.
   */
  function Direction(s: Selection): (dir: int)
    ensures dir == -1 || dir == 0 || dir == 1
    ensures dir == 0 <==> s.selPageEd == s.selPageSt && s.selEnd == s.selStart
    ensures dir == 1 <==> s.selPageEd > s.selPageSt || (s.selPageEd == s.selPageSt && s.selEnd > s.selStart)
  {
    var d := if s.selPageEd - s.selPageSt == 0 then s.selEnd - s.selStart else s.selPageEd - s.selPageSt;
    if d > 0 then 1 else if d < 0 then -1 else 0
  }

  predicate IsLineBreak(c: char)
  {
    c == '\r' || c == '\n'
  }

  /**
   * The newline walk of `recalcHandles`: step by `dir` while the index sits
   * on a line break and the next index is still inside the text.
   */
  function WalkLineBreaks(text: string, i: int, dir: int): (j: int)
    requires 0 <= i < |text| && (dir == 1 || dir == -1)
    ensures 0 <= j < |text|
    ensures dir == 1 ==> i <= j && forall k :: i <= k < j ==> IsLineBreak(text[k])
    ensures dir == -1 ==> j <= i && forall k :: j < k <= i ==> IsLineBreak(text[k])
    ensures !IsLineBreak(text[j]) || j + dir < 0 || j + dir >= |text|
    decreases if dir == 1 then |text| - i else i
  {
    if IsLineBreak(text[i]) && 0 <= i + dir < |text| then WalkLineBreaks(text, i + dir, dir) else i
  }

  /** A walk ends where a second walk would not move. */
  lemma WalkLineBreaksIdempotent(text: string, i: int, dir: int)
    requires 0 <= i < |text| && (dir == 1 || dir == -1)
    ensures WalkLineBreaks(text, WalkLineBreaks(text, i, dir), dir) == WalkLineBreaks(text, i, dir)
  {
  }

  /** Where `recalcHandles` anchors the two handles (`getCharPos` of the start handle and of the end handle). */
  datatype Handles = Handles(startIndex: int, endAnchor: int)

  /**
   * `recalcHandles`. With a stale text page, or an empty selection
   * (direction 0), no handle is placed. The start index walks over line
   * breaks toward the end of the selection; the end index walks back
   * toward the start, and the end handle sits on the walked index when the
   * walk moved and on the character before the end otherwise.
   */
  function RecalcHandles(s: Selection, text: string, currentTextPtr: Int64, tid: Int64): (r: Option<Handles>)
    ensures r.None? <==> IsNotCurrentPage(currentTextPtr, tid) || Direction(s) == 0
    ensures r.Some? && 0 <= s.selStart < |text| ==>
      0 <= r.value.startIndex < |text| && r.value.startIndex == WalkLineBreaks(text, s.selStart, Direction(s))
    ensures r.Some? && !(0 <= s.selStart < |text|) ==> r.value.startIndex == s.selStart
    ensures r.Some? && 0 <= s.selEnd < |text| ==> -1 <= r.value.endAnchor < |text|
    ensures r.Some? && 0 <= s.selEnd < |text| && !IsLineBreak(text[s.selEnd]) ==> r.value.endAnchor == s.selEnd - 1
    ensures r.Some? && !(0 <= s.selEnd < |text|) ==> r.value.endAnchor == s.selEnd - 1
    ensures r.Some? && 0 <= s.selEnd < |text| ==>
      var ed := WalkLineBreaks(text, s.selEnd, -Direction(s));
      r.value.endAnchor == (if ed != s.selEnd then ed else ed - 1)
    ensures r.Some? && 0 <= s.selEnd < |text| && IsLineBreak(text[s.selEnd])
            && 0 <= s.selEnd - Direction(s) < |text| ==>
      r.value.endAnchor == WalkLineBreaks(text, s.selEnd, -Direction(s)) != s.selEnd
  {
    if IsNotCurrentPage(currentTextPtr, tid) then None
    else
      var dir := Direction(s);
      if dir == 0 then None
      else
        var st := if 0 <= s.selStart < |text| then WalkLineBreaks(text, s.selStart, dir) else s.selStart as int;
        var anchor :=
          if 0 <= s.selEnd < |text| then
            var ed := WalkLineBreaks(text, s.selEnd, -dir);
            if ed != s.selEnd then ed else ed - 1
          else s.selEnd - 1;
        Some(Handles(st, anchor))
  }

  /**
   * When the selection ends just before a run of line breaks, the end
   * handle skips back over the run to the last character before it.
   */
  lemma EndHandleSkipsLineBreaks()
    ensures RecalcHandles(Selection(true, 0, 0, 0, 3), "ab\n\nc", 0, 0) == Some(Handles(0, 1))
  {
    var text := "ab\n\nc";
    assert IsLineBreak(text[3]) && IsLineBreak(text[2]) && !IsLineBreak(text[1]);
    assert WalkLineBreaks(text, 2, -1) == 1;
    assert WalkLineBreaks(text, 3, -1) == 1;
  }

  /** What `getSelRects(pool, page, selSt, selEd)` asks the native layer for: the first character and the count. */
  datatype RectQuery = RectQuery(start: int, count: int)

  /**
   * `getSelRects(pool, page, selSt, selEd)`. A stale text page leaves the
   * pool untouched; otherwise the pool is cleared and, for a loaded text
   * page with a positive span whose page is open, refilled with the rects
   * the native call produced, cut to the count it returned.
   */
  function GetSelRects<R>(pool: seq<R>, currentTextPtr: Int64, tid: Int64, textLength: nat, selSt: int, selEd: int,
                          pageOpen: bool, nativeRects: seq<R>, rectCount: int): (r: (seq<R>, Option<RectQuery>))
    ensures IsNotCurrentPage(currentTextPtr, tid) ==> r.0 == pool && r.1.None?
    ensures r.1.Some? <==>
      !IsNotCurrentPage(currentTextPtr, tid) && tid != 0 && pageOpen
      && (if selEd == -1 then textLength else selEd) != selSt
    ensures r.1.Some? ==>
      var ed := if selEd == -1 then textLength else selEd;
      r.1.value == RectQuery(if ed < selSt then ed else selSt, if ed < selSt then selSt - ed else ed - selSt)
      && r.1.value.count > 0
    ensures !IsNotCurrentPage(currentTextPtr, tid) && r.1.None? ==> r.0 == []
    ensures r.1.Some? && 0 <= rectCount < |nativeRects| ==> r.0 == nativeRects[..rectCount]
    ensures r.1.Some? && !(0 <= rectCount < |nativeRects|) ==> r.0 == nativeRects
  {
    if IsNotCurrentPage(currentTextPtr, tid) then (pool, None)
    else if tid == 0 then ([], None)
    else
      var ed := if selEd == -1 then textLength else selEd;
      var (lo, hi) := if ed < selSt then (ed, selSt) else (selSt, ed);
      var span := hi - lo;
      if span <= 0 || !pageOpen then ([], None)
      else
        var filled := if rectCount >= 0 && |nativeRects| > rectCount then nativeRects[..rectCount] else nativeRects;
        (filled, Some(RectQuery(lo, span)))
  }

  /** The two endpoints may be given in either order. */
  lemma GetSelRectsSymmetric<R>(pool: seq<R>, currentTextPtr: Int64, tid: Int64, textLength: nat, a: int, b: int,
                                pageOpen: bool, nativeRects: seq<R>, rectCount: int)
    requires a != -1 && b != -1
    ensures GetSelRects(pool, currentTextPtr, tid, textLength, a, b, pageOpen, nativeRects, rectCount)
         == GetSelRects(pool, currentTextPtr, tid, textLength, b, a, pageOpen, nativeRects, rectCount)
  {
  }

  /**
   * `dragHandle` once the character under the handle is known: nothing
   * happens when no character was found; the start handle moves
   * (`selPageSt`, `selStart`), the end handle moves (`selPageEd`,
   * `selEnd`) to just after the character, and `resetSel` runs only when
   * the endpoint actually changed.
   */
  function DragHandle(s: Selection, isStart: bool, pageIndex: int, charIdx: Int32): (r: (Selection, bool))
    ensures charIdx < 0 ==> r == (s, false)
    ensures charIdx >= 0 && isStart ==>
      r.0 == s.(selPageSt := pageIndex, selStart := charIdx)
      && (r.1 <==> (pageIndex, charIdx) != (s.selPageSt, s.selStart))
    ensures charIdx >= 0 && !isStart ==>
      r.0 == s.(selPageEd := pageIndex, selEnd := ToInt32(charIdx + 1))
      && (r.1 <==> (pageIndex, ToInt32(charIdx + 1)) != (s.selPageEd, s.selEnd))
    ensures isStart ==> r.0.selPageEd == s.selPageEd && r.0.selEnd == s.selEnd
    ensures !isStart ==> r.0.selPageSt == s.selPageSt && r.0.selStart == s.selStart
  {
    if charIdx < 0 then (s, false)
    else if isStart then
      if pageIndex != s.selPageSt || charIdx != s.selStart then (s.(selPageSt := pageIndex, selStart := charIdx), true)
      else (s, false)
    else
      var end := ToInt32(charIdx + 1);
      if pageIndex != s.selPageEd || end != s.selEnd then (s.(selPageEd := pageIndex, selEnd := end), true)
      else (s, false)
  }

  /** Dragging a handle to where it already is does not reset the selection a second time. */
  lemma DragHandleSettles(s: Selection, isStart: bool, pageIndex: int, charIdx: Int32)
    ensures var once := DragHandle(s, isStart, pageIndex, charIdx).0;
      DragHandle(once, isStart, pageIndex, charIdx) == (once, false)
  {
  }

  /**
   * `stopTextSelection`: the character endpoints are put in order, and a
   * listener with a selection to report receives their packed pair as
   * the selection id.
   */
  function StopTextSelection(s: Selection, hasListener: bool): (r: (Selection, Option<Int64>))
    ensures r.0.selStart <= r.0.selEnd
    ensures {r.0.selStart, r.0.selEnd} == {s.selStart, s.selEnd}
    ensures r.0.hasSelection == s.hasSelection && r.0.selPageSt == s.selPageSt && r.0.selPageEd == s.selPageEd
    ensures r.1.Some? <==> s.hasSelection && hasListener
    ensures r.1.Some? ==> Util.UnpackHigh(r.1.value) == r.0.selStart && Util.UnpackLow(r.1.value) == r.0.selEnd
  {
    var lo: Int32 := if s.selStart <= s.selEnd then s.selStart else s.selEnd;
    var hi: Int32 := if s.selStart <= s.selEnd then s.selEnd else s.selStart;
    var t := s.(selStart := lo, selEnd := hi);
    if s.hasSelection && hasListener then
      Util.UnpackHighOfPack(lo, hi);
      Util.UnpackLowOfPack(lo, hi);
      (t, Some(Util.PackIntegers(lo, hi)))
    else (t, None)
  }

  /**
   * `jumpAndHighlightArea`'s effect on the selection: an id whose
   * endpoints are out of order or negative, or a page without text, is
   * ignored; otherwise the range becomes the selection on that page.
   */
  function JumpAndHighlightArea(page: int, selectionId: Int64, textPtr: Int64): (r: Option<Selection>)
    ensures r.None? <==>
      Util.UnpackHigh(selectionId) < 0 || Util.UnpackLow(selectionId) <= Util.UnpackHigh(selectionId) || textPtr == 0
    ensures r.Some? ==>
      r.value.hasSelection && r.value.selPageSt == page && r.value.selPageEd == page
      && 0 <= r.value.selStart < r.value.selEnd
      && Util.PackIntegers(r.value.selStart, r.value.selEnd) == selectionId
  {
    var startIndex := Util.UnpackHigh(selectionId);
    var endIndex := Util.UnpackLow(selectionId);
    if startIndex < 0 || endIndex <= startIndex then None
    else if textPtr == 0 then None
    else
      Util.PackOfUnpack(selectionId);
      Some(Selection(true, page, page, startIndex, endIndex))
  }

  /**
   * The id a finished, non-empty selection reports brings the same range
   * back when it is highlighted again.
   */
  lemma SelectionIdRoundTrip(s: Selection, page: int, textPtr: Int64)
    requires s.hasSelection && textPtr != 0
    requires 0 <= s.selStart && 0 <= s.selEnd && s.selStart != s.selEnd
    ensures var (t, id) := StopTextSelection(s, true);
      JumpAndHighlightArea(page, id.value, textPtr) == Some(Selection(true, page, page, t.selStart, t.selEnd))
  {
  }

  /** `n` copies of `text` one after another. */
  function Copies(text: string, n: nat): (r: string)
    ensures |r| == n * |text|
  {
    if n == 0 then "" else text + Copies(text, n - 1)
  }

  /**
   * The pieces of a multi-page selection for slots `i..pageCount`; slot
   * `k` is cut from `textOf(k)`, from `start` (first slot) or 0, to `end`
   * (last slot) or the end of that text. Any cut out of bounds throws.
   */
  function JoinPieces(textOf: int -> string, pageCount: nat, start: int, end: int, i: nat): (r: Outcome<string>)
    requires i <= pageCount + 1
    decreases pageCount + 1 - i
  {
    if i == pageCount + 1 then Ok("")
    else
      var text := textOf(i);
      var piece :- Substring(text, if i == 0 then start else 0, if i == pageCount then end else |text|);
      var rest :- JoinPieces(textOf, pageCount, start, end, i + 1);
      Ok(piece + rest)
  }

  /**
   * `getSelection`. `pageText(p)` is the text `prepareText(p)` loads. On
   * one page the range is cut from that page's text, its end limited to
   * the text length. Across pages the first loop prepares every page in
   * turn, but the second loop cuts every piece from the text left loaded,
   * which is the last page's. A thrown exception, or no selection, gives
   * the empty string.
   */
  function GetSelection(hasPaintView: bool, s: Selection, pageText: int -> string): (r: string)
    ensures !hasPaintView || !s.hasSelection || s.selPageEd < s.selPageSt ==> r == ""
    ensures hasPaintView && s.hasSelection && s.selPageEd == s.selPageSt ==>
      var text := pageText(s.selPageSt);
      var lo := Min(s.selStart, s.selEnd);
      var hi := Min(Max(s.selStart, s.selEnd), |text|);
      (0 <= lo <= hi ==> r == text[lo..hi]) && (!(0 <= lo <= hi) ==> r == "")
  {
    if !hasPaintView || !s.hasSelection then ""
    else
      var pageCount := s.selPageEd - s.selPageSt;
      var startCharIndex := Min(s.selStart, s.selEnd);
      var endCharIndex := Max(s.selStart, s.selEnd);
      if pageCount == 0 then
        var text := pageText(s.selPageSt);
        var newSelEnd := Min(endCharIndex, |text|);
        match Substring(text, startCharIndex, newSelEnd)
        case Ok(t) => t
        case Throws(_) => ""
      else if pageCount < 0 then ""
      else
        var last := pageText(s.selPageSt + pageCount);
        match JoinPieces(_ => last, pageCount, startCharIndex, endCharIndex, 0)
        case Ok(t) => t
        case Throws(_) => ""
  }

  /** From slot `i >= 1` on, pieces cut from one text are whole copies of it and then its head. */
  lemma {:induction false} JoinPiecesOfOneText(text: string, pageCount: nat, start: int, end: int, i: nat)
    requires 1 <= i <= pageCount && 0 <= end <= |text|
    ensures JoinPieces(_ => text, pageCount, start, end, i) == Ok(Copies(text, pageCount - i) + text[..end])
    decreases pageCount - i
  {
    if i == pageCount {
      assert Substring(text, 0, end) == Ok(text[..end]);
      assert JoinPieces(_ => text, pageCount, start, end, i + 1) == Ok("");
      assert text[..end] + "" == Copies(text, 0) + text[..end];
    } else {
      assert text[0..|text|] == text;
      assert Substring(text, 0, |text|) == Ok(text);
      JoinPiecesOfOneText(text, pageCount, start, end, i + 1);
      assert text + (Copies(text, pageCount - (i + 1)) + text[..end]) == Copies(text, pageCount - i) + text[..end];
    }
  }

  /**
   * Across pages, `getSelection` returns the tail of the last page's text,
   * whole copies of it for the pages in between, and its head up to the
   * end character.
   */
  lemma GetSelectionAcrossPages(hasPaintView: bool, s: Selection, pageText: int -> string)
    requires hasPaintView && s.hasSelection && s.selPageEd > s.selPageSt
    requires var last := pageText(s.selPageEd);
      0 <= Min(s.selStart, s.selEnd) && Max(s.selStart, s.selEnd) <= |last|
    ensures var last := pageText(s.selPageEd);
      GetSelection(hasPaintView, s, pageText)
      == last[Min(s.selStart, s.selEnd)..] + Copies(last, s.selPageEd - s.selPageSt - 1) + last[..Max(s.selStart, s.selEnd)]
  {
    var pageCount := s.selPageEd - s.selPageSt;
    var last := pageText(s.selPageSt + pageCount);
    var lo := Min(s.selStart, s.selEnd);
    var hi := Max(s.selStart, s.selEnd);
    assert last[lo..|last|] == last[lo..];
    assert Substring(last, lo, |last|) == Ok(last[lo..]);
    JoinPiecesOfOneText(last, pageCount, lo, hi, 1);
    assert JoinPieces(_ => last, pageCount, lo, hi, 0)
        == Ok(last[lo..] + (Copies(last, pageCount - 1) + last[..hi]));
    assert last[lo..] + (Copies(last, pageCount - 1) + last[..hi]) == last[lo..] + Copies(last, pageCount - 1) + last[..hi];
  }

  /**
   * `getSelection` as its first loop suggests it was meant: every piece cut
   * from its own page's text.
   */
  function GetSelectionPerPage(hasPaintView: bool, s: Selection, pageText: int -> string): (r: string)
    ensures !hasPaintView || !s.hasSelection || s.selPageEd < s.selPageSt ==> r == ""
    ensures s.selPageEd == s.selPageSt ==> r == GetSelection(hasPaintView, s, pageText)
  {
    if !hasPaintView || !s.hasSelection || s.selPageEd <= s.selPageSt then GetSelection(hasPaintView, s, pageText)
    else
      var pageCount := s.selPageEd - s.selPageSt;
      match JoinPieces(k => pageText(s.selPageSt + k), pageCount, Min(s.selStart, s.selEnd), Max(s.selStart, s.selEnd), 0)
      case Ok(t) => t
      case Throws(_) => ""
  }

  /** Across two pages, the intended text is the tail of the first page followed by the head of the second. */
  lemma GetSelectionPerPageTwoPages(s: Selection, pageText: int -> string)
    requires s.hasSelection && s.selPageEd == s.selPageSt + 1
    requires 0 <= Min(s.selStart, s.selEnd) <= |pageText(s.selPageSt)|
    requires 0 <= Max(s.selStart, s.selEnd) <= |pageText(s.selPageEd)|
    ensures GetSelectionPerPage(true, s, pageText)
         == pageText(s.selPageSt)[Min(s.selStart, s.selEnd)..] + pageText(s.selPageEd)[..Max(s.selStart, s.selEnd)]
  {
    var first := pageText(s.selPageSt);
    var second := pageText(s.selPageEd);
    var lo := Min(s.selStart, s.selEnd);
    var hi := Max(s.selStart, s.selEnd);
    var textOf := k => pageText(s.selPageSt + k);
    assert textOf(0) == first && textOf(1) == second;
    assert first[lo..|first|] == first[lo..];
    assert Substring(first, lo, |first|) == Ok(first[lo..]);
    assert Substring(second, 0, hi) == Ok(second[..hi]);
    assert JoinPieces(textOf, 1, lo, hi, 2) == Ok("");
    assert JoinPieces(textOf, 1, lo, hi, 1) == Ok(second[..hi] + "");
    assert second[..hi] + "" == second[..hi];
  }

  /**
   * Selecting all of page 0 ("ab") and page 1 ("cd"): the code returns the
   * second page twice, where the pages' own texts give "abcd".
   */
  lemma GetSelectionRepeatsLastPage()
    ensures var s := Selection(true, 0, 1, 0, 2);
      var pageText := (p: int) => if p == 0 then "ab" else "cd";
      GetSelection(true, s, pageText) == "cdcd" && GetSelectionPerPage(true, s, pageText) == "abcd"
  {
    var s := Selection(true, 0, 1, 0, 2);
    var pageText := (p: int) => if p == 0 then "ab" else "cd";
    GetSelectionAcrossPages(true, s, pageText);
    assert Copies("cd", 0) == "";
    GetSelectionPerPageTwoPages(s, pageText);
  }
}
