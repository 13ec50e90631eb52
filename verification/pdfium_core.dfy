/**
 * The Java side of the PDFium binding: the document handle with its maps
 * from page index to native page and text-page pointers, and the small
 * pieces of logic around the native calls. Every native call is a
 * parameter: its result is supplied by the caller of the model.
 */
module PdfiumCore {
  import opened JavaLang
  import PdfiumJni

  /**
   * `PdfDocument`: the native document pointer, the opened pages and text
   * pages by page index, and whether a file descriptor is still held.
   */
  datatype PdfDocument = PdfDocument(docPtr: Int64, pages: map<int, Int64>, texts: map<int, Int64>, holdsFd: bool)

  /** `newDocument`: a zero native pointer means the document could not be opened. */
  function NewDocument(nativeDocPtr: Int64, fromFd: bool): (r: Outcome<PdfDocument>)
    ensures r.Throws? <==> nativeDocPtr == 0
    ensures r.Throws? ==> r.exception == IOError("Cannot open document")
    ensures r.Ok? ==> r.value.docPtr == nativeDocPtr && r.value.pages == map[] && r.value.texts == map[]
  {
    if nativeDocPtr == 0 then Throws(IOError("Cannot open document"))
    else Ok(PdfDocument(nativeDocPtr, map[], map[], fromFd))
  }

  /**
   * `openPage(doc, pageIndex)`: the outcome of `nativeLoadPage` is `loaded`;
   * a loaded pointer is remembered under the page index and returned, and an
   * exception escapes before anything is stored.
   */
  function OpenPage(doc: PdfDocument, pageIndex: int, loaded: Outcome<Int64>): (r: Outcome<(PdfDocument, Int64)>)
    ensures r.Throws? <==> loaded.Throws?
    ensures r.Throws? ==> r.exception == loaded.exception
    ensures r.Ok? ==> r.value.1 == loaded.value
    ensures r.Ok? ==> r.value.0.pages.Keys == doc.pages.Keys + {pageIndex} && r.value.0.pages[pageIndex] == loaded.value
    ensures r.Ok? ==> forall k :: k in doc.pages && k != pageIndex ==> r.value.0.pages[k] == doc.pages[k]
    ensures r.Ok? ==> r.value.0.texts == doc.texts && r.value.0.docPtr == doc.docPtr
    ensures r.Ok? ==> r.value.0 == doc.(pages := r.value.0.pages)
  {
    var pagePtr :- loaded;
    Ok((doc.(pages := doc.pages[pageIndex := pagePtr]), pagePtr))
  }

  /**
   * The loop of the range `openPage`: stores `ptrs[k]` under `pageIndex + k`,
   * leaving the loop once the index passes `toIndex`.
   */
  function StoreRange(pages: map<int, Int64>, pageIndex: int, toIndex: int, ptrs: seq<Int64>): (r: map<int, Int64>)
    ensures forall key :: key in r ==> key in pages || (pageIndex <= key <= toIndex && key - pageIndex < |ptrs|)
    ensures forall key :: key in pages && !(pageIndex <= key <= toIndex && key - pageIndex < |ptrs|) ==> key in r && r[key] == pages[key]
    decreases |ptrs|
  {
    if |ptrs| == 0 || pageIndex > toIndex then pages
    else StoreRange(pages[pageIndex := ptrs[0]], pageIndex + 1, toIndex, ptrs[1..])
  }

  /** The k-th pointer of the array ends up under `pageIndex + k` as long as that is not past `toIndex`. */
  lemma {:induction false} StoreRangeStores(pages: map<int, Int64>, pageIndex: int, toIndex: int, ptrs: seq<Int64>, k: nat)
    requires k < |ptrs| && pageIndex + k <= toIndex
    ensures pageIndex + k in StoreRange(pages, pageIndex, toIndex, ptrs)
    ensures StoreRange(pages, pageIndex, toIndex, ptrs)[pageIndex + k] == ptrs[k]
    decreases |ptrs|
  {
    var next := pages[pageIndex := ptrs[0]];
    if k > 0 {
      StoreRangeStores(next, pageIndex + 1, toIndex, ptrs[1..], k - 1);
      assert ptrs[1..][k - 1] == ptrs[k];
    }
  }

  /** Every pointer of the array whose index does not pass `toIndex` is stored. */
  lemma StoreRangeStoresAll(pages: map<int, Int64>, pageIndex: int, toIndex: int, ptrs: seq<Int64>)
    ensures forall key :: pageIndex <= key <= toIndex && key - pageIndex < |ptrs| ==>
      key in StoreRange(pages, pageIndex, toIndex, ptrs)
      && StoreRange(pages, pageIndex, toIndex, ptrs)[key] == ptrs[key - pageIndex]
  {
    var stored := StoreRange(pages, pageIndex, toIndex, ptrs);
    forall key | pageIndex <= key <= toIndex && key - pageIndex < |ptrs|
      ensures key in stored && stored[key] == ptrs[key - pageIndex]
    {
      StoreRangeStores(pages, pageIndex, toIndex, ptrs, key - pageIndex);
    }
  }

  /**
   * `openPage(doc, fromIndex, toIndex)`: an exception of `nativeLoadPages`
   * escapes before anything is stored; the array is walked with a for-each,
   * so a `null` array raises a NullPointerException.
   */
  function OpenPageRange(doc: PdfDocument, fromIndex: int, toIndex: int, loaded: Outcome<Option<seq<Int64>>>): (r: Outcome<(PdfDocument, seq<Int64>)>)
    ensures r.Throws? <==> loaded.Throws? || loaded.value.None?
    ensures loaded.Throws? ==> r.exception == loaded.exception
    ensures loaded.Ok? && loaded.value.None? ==> r.exception == NullPointer
    ensures r.Ok? ==> r.value.1 == loaded.value.value && r.value.0.texts == doc.texts
    ensures r.Ok? ==> r.value.0 == doc.(pages := r.value.0.pages)
    ensures r.Ok? ==> r.value.0.pages == StoreRange(doc.pages, fromIndex, toIndex, loaded.value.value)
    ensures r.Ok? ==> forall key :: fromIndex <= key <= toIndex && key - fromIndex < |loaded.value.value| ==>
      key in r.value.0.pages && r.value.0.pages[key] == loaded.value.value[key - fromIndex]
    ensures r.Ok? ==> forall key :: key in doc.pages && !(fromIndex <= key <= toIndex && key - fromIndex < |loaded.value.value|) ==>
      key in r.value.0.pages && r.value.0.pages[key] == doc.pages[key]
  {
    match loaded
    case Throws(e) => Throws(e)
    case Ok(None) => Throws(NullPointer)
    case Ok(Some(ptrs)) =>
      var pages := StoreRange(doc.pages, fromIndex, toIndex, ptrs);
      StoreRangeStoresAll(doc.pages, fromIndex, toIndex, ptrs);
      Ok((doc.(pages := pages), ptrs))
  }

  /**
   * With the native loader's own result, an inverted range raises a
   * NullPointerException and a page that fails to load an
   * IllegalStateException; otherwise exactly the pages `fromIndex..toIndex`
   * are (re)stored, each with the pointer its load gave.
   */
  lemma OpenPageRangeWithLoader(doc: PdfDocument, fromIndex: int, toIndex: int, loadPage: int -> Option<Int64>)
    ensures var r := OpenPageRange(doc, fromIndex, toIndex, PdfiumJni.NativeLoadPages(fromIndex, toIndex, loadPage));
      (r.Throws? <==> toIndex < fromIndex || exists k :: fromIndex <= k <= toIndex && loadPage(k).None?)
      && (r.Throws? ==> r.exception == if toIndex < fromIndex then NullPointer else IllegalState("cannot load page"))
      && (r.Ok? ==> forall k :: k in r.value.0.pages <==> k in doc.pages || fromIndex <= k <= toIndex)
      && (r.Ok? ==> forall k :: fromIndex <= k <= toIndex ==> loadPage(k) == Some(r.value.0.pages[k]))
  {
    var loaded := PdfiumJni.NativeLoadPages(fromIndex, toIndex, loadPage);
    if loaded.Ok? && loaded.value.Some? {
      var ptrs := loaded.value.value;
      var m := StoreRange(doc.pages, fromIndex, toIndex, ptrs);
      forall k | fromIndex <= k <= toIndex ensures k in m && loadPage(k) == Some(m[k]) {
        StoreRangeStores(doc.pages, fromIndex, toIndex, ptrs, k - fromIndex);
        assert loadPage(fromIndex + (k - fromIndex)) == Some(ptrs[k - fromIndex]);
      }
    }
  }

  /** A three-page document asked for pages 0 to 5 raises: pages 3 to 5 do not load. */
  lemma OpenPageRangePastEnd(doc: PdfDocument, loadPage: int -> Option<Int64>)
    requires forall k :: loadPage(k).Some? <==> 0 <= k < 3
    ensures OpenPageRange(doc, 0, 5, PdfiumJni.NativeLoadPages(0, 5, loadPage)) == Throws(IllegalState("cannot load page"))
  {
    assert loadPage(3).None?;
  }

  /**
   * The four size getters (`getPageWidth`, `getPageHeight`, `getPageWidthPoint`,
   * `getPageHeightPoint`): the native metric of the opened page, 0 when the
   * page has not been opened.
   */
  function PageMetric(doc: PdfDocument, index: int, nativeMetric: Int64 -> Int32): (r: Int32)
    ensures index !in doc.pages ==> r == 0
    ensures index in doc.pages ==> r == nativeMetric(doc.pages[index])
  {
    if index in doc.pages then nativeMetric(doc.pages[index]) else 0
  }

  /** A page opened by `openPage` reports its native metric; other pages keep theirs. */
  lemma MetricAfterOpen(doc: PdfDocument, pageIndex: int, pagePtr: Int64, other: int, nativeMetric: Int64 -> Int32)
    ensures OpenPage(doc, pageIndex, Ok(pagePtr)).Ok?
    ensures PageMetric(OpenPage(doc, pageIndex, Ok(pagePtr)).value.0, pageIndex, nativeMetric) == nativeMetric(pagePtr)
    ensures other != pageIndex ==> PageMetric(OpenPage(doc, pageIndex, Ok(pagePtr)).value.0, other, nativeMetric) == PageMetric(doc, other, nativeMetric)
  {
  }

  /** The native calls made while closing a document. */
  datatype CloseEvent = CloseTextPage(textPtr: Int64) | ClosePage(pagePtr: Int64) | CloseDocument(docPtr: Int64)

  /**
   * `closeDocument`: closes every text page, clears the text map, closes
   * every page, clears the page map, closes the document, then releases the
   * file descriptor. Map iteration order is not specified, so the handles
   * of each map are closed in some order.
   */
  method CloseDocumentHandles(doc: PdfDocument) returns (closed: PdfDocument, events: seq<CloseEvent>)
    ensures closed.pages == map[] && closed.texts == map[] && !closed.holdsFd && closed.docPtr == doc.docPtr
    ensures |events| == |doc.texts| + |doc.pages| + 1
    ensures forall i :: 0 <= i < |doc.texts| ==> events[i].CloseTextPage?
    ensures forall i :: |doc.texts| <= i < |doc.texts| + |doc.pages| ==> events[i].ClosePage?
    ensures events[|events| - 1] == CloseDocument(doc.docPtr)
    ensures forall k :: k in doc.texts ==> CloseTextPage(doc.texts[k]) in events
    ensures forall k :: k in doc.pages ==> ClosePage(doc.pages[k]) in events
  {
    events := [];
    var remaining := doc.texts.Keys;
    while remaining != {}
      invariant remaining <= doc.texts.Keys
      invariant |events| + |remaining| == |doc.texts|
      invariant forall i :: 0 <= i < |events| ==> events[i].CloseTextPage?
      invariant forall k :: k in doc.texts && k !in remaining ==> CloseTextPage(doc.texts[k]) in events
      decreases |remaining|
    {
      HasMember(remaining);
      var k :| k in remaining;
      events := events + [CloseTextPage(doc.texts[k])];
      remaining := remaining - {k};
    }
    var textCount := |events|;
    remaining := doc.pages.Keys;
    while remaining != {}
      invariant remaining <= doc.pages.Keys
      invariant |events| + |remaining| == textCount + |doc.pages|
      invariant forall i :: 0 <= i < textCount ==> events[i].CloseTextPage?
      invariant forall i :: textCount <= i < |events| ==> events[i].ClosePage?
      invariant forall k :: k in doc.texts ==> CloseTextPage(doc.texts[k]) in events
      invariant forall k :: k in doc.pages && k !in remaining ==> ClosePage(doc.pages[k]) in events
      decreases |remaining|
    {
      HasMember(remaining);
      var k :| k in remaining;
      events := events + [ClosePage(doc.pages[k])];
      remaining := remaining - {k};
    }
    events := events + [CloseDocument(doc.docPtr)];
    closed := PdfDocument(doc.docPtr, map[], map[], false);
  }

  lemma HasMember(s: set<int>)
    requires s != {}
    ensures exists x :: x in s
  {
    if forall x :: x !in s {
      assert false;
    }
  }

  /** `getTextImages`: the extracted texts, then the found images; a `null` array counts as empty. */
  function GetTextImages<T>(texts: Option<seq<T>>, images: Option<seq<T>>): (r: seq<T>)
    ensures |r| == |texts.GetOr([])| + |images.GetOr([])|
    ensures r[..|texts.GetOr([])|] == texts.GetOr([])
    ensures r[|texts.GetOr([])|..] == images.GetOr([])
  {
    texts.GetOr([]) + images.GetOr([])
  }

  datatype RectF = RectF(left: real, top: real, right: real, bottom: real)

  /** What the native calls report for one link pointer: rect, destination page and URI, each possibly `null`. */
  datatype RawLink = RawLink(rect: Option<RectF>, destPageIndex: Option<Int32>, uri: Option<string>)

  /** `PdfDocument.Link`. */
  datatype Link = Link(bounds: RectF, destPageIndex: Option<Int32>, uri: Option<string>)

  /** A link is kept when it has a rect and leads somewhere. */
  predicate IsUsable(raw: RawLink)
  {
    raw.rect.Some? && (raw.destPageIndex.Some? || raw.uri.Some?)
  }

  function ToLink(raw: RawLink): Link
    requires raw.rect.Some?
  {
    Link(raw.rect.value, raw.destPageIndex, raw.uri)
  }

  function KeepUsable(raws: seq<RawLink>): (links: seq<Link>)
    ensures |links| <= |raws|
    ensures forall i :: 0 <= i < |raws| && IsUsable(raws[i]) ==> ToLink(raws[i]) in links
    ensures forall l :: l in links ==> exists i :: 0 <= i < |raws| && IsUsable(raws[i]) && l == ToLink(raws[i])
  {
    if |raws| == 0 then []
    else
      var rest := KeepUsable(raws[1..]);
      assert forall i :: 1 <= i < |raws| ==> raws[i] == raws[1..][i - 1];
      if IsUsable(raws[0]) then [ToLink(raws[0])] + rest else rest
  }

  /** Filtering distributes over concatenation, so the kept links stay in native order. */
  lemma {:induction false} KeepUsableAppend(a: seq<RawLink>, b: seq<RawLink>)
    ensures KeepUsable(a + b) == KeepUsable(a) + KeepUsable(b)
    decreases |a|
  {
    if |a| > 0 {
      assert (a + b)[1..] == a[1..] + b;
      KeepUsableAppend(a[1..], b);
    } else {
      assert a + b == b;
    }
  }

  /** One native link is kept, converted, exactly when it is usable. */
  lemma KeepUsableSingle(raw: RawLink)
    ensures KeepUsable([raw]) == (if IsUsable(raw) then [ToLink(raw)] else [])
  {
  }

  /** `getPageLinks`: nothing for an unopened page, otherwise the usable links in native order. */
  function GetPageLinks(doc: PdfDocument, pageIndex: int, nativeLinks: Int64 -> seq<RawLink>): (links: seq<Link>)
    ensures pageIndex !in doc.pages ==> links == []
    ensures pageIndex in doc.pages ==> forall l :: l in links ==> l.destPageIndex.Some? || l.uri.Some?
    ensures pageIndex in doc.pages ==> forall raw :: raw in nativeLinks(doc.pages[pageIndex]) && IsUsable(raw) ==> ToLink(raw) in links
    ensures pageIndex in doc.pages ==> links == KeepUsable(nativeLinks(doc.pages[pageIndex]))
  {
    if pageIndex !in doc.pages then [] else KeepUsable(nativeLinks(doc.pages[pageIndex]))
  }

  /** The two native rectangle queries `getTextRects` chooses between. */
  datatype TextRectsCall =
    | CountAndGetRects(selStart: Int32, selEnd: Int32, verticalExpandPercent: real)
    | CountAndGetLineRects(selStart: Int32, selEnd: Int32, lineThresholdPt: real, verticalExpandPercent: real)

  /** `getTextRects`: the line-merging native query exactly when line merging is asked for. */
  function GetTextRectsCall(selStart: Int32, selEnd: Int32, isSelectionLineMerged: bool, lineThresholdPt: real,
                            verticalExpandPercent: real): (call: TextRectsCall)
    ensures call.CountAndGetLineRects? <==> isSelectionLineMerged
    ensures call.selStart == selStart && call.selEnd == selEnd && call.verticalExpandPercent == verticalExpandPercent
    ensures call.CountAndGetLineRects? ==> call.lineThresholdPt == lineThresholdPt
  {
    if !isSelectionLineMerged then CountAndGetRects(selStart, selEnd, verticalExpandPercent)
    else CountAndGetLineRects(selStart, selEnd, lineThresholdPt, verticalExpandPercent)
  }
}
