/**
 * `PdfFile`: the page layout of the document along the scroll axis (page
 * sizes, spacing, offsets and document length), the mapping from the
 * pages the user asked for to document pages, and the cache of opened
 * pages. Sizes are `real`; the fitted page sizes are supplied by the
 * caller, as `PageSizeCalculator` is not part of this model.
 */
module PdfFile {
  import opened JavaLang
  import ArrayUtils
  import PdfiumCore
  import PdfiumJni

  datatype SizeF = SizeF(width: real, height: real)

  /** The layout options fixed at construction. */
  datatype Spacing = Spacing(isVertical: bool, spacingPx: int, spacingTopPx: int, spacingBottomPx: int, autoSpacing: bool)

  datatype PdfFile = PdfFile(
    config: Spacing,
    pagesCount: int,
    /** `originalUserPages`: the document pages to show, in order; `None` shows every page. */
    userPages: Option<seq<int>>,
    pageSizes: seq<SizeF>,
    maxWidthPageSize: SizeF,
    maxHeightPageSize: SizeF,
    pageSpacing: seq<real>,
    pageOffsets: seq<real>,
    documentLength: real,
    /** `openedPages`: document page -> whether opening it succeeded. */
    openedPages: map<int, bool>,
    document: PdfiumCore.PdfDocument)

  /** The shape every `PdfFile` has once set up: one size, offset (and auto spacing) per page. */
  predicate Valid(f: PdfFile)
  {
    && f.pagesCount >= 0
    && |f.pageSizes| == f.pagesCount
    && |f.pageOffsets| == f.pagesCount
    && (f.config.autoSpacing ==> |f.pageSpacing| == f.pagesCount)
    && (f.userPages.Some? ==> |f.userPages.value| == f.pagesCount)
  }

  /** The length of a page along the scroll axis. */
  function Primary(size: SizeF, isVertical: bool): real
  {
    if isVertical then size.height else size.width
  }

  /** The length of a page across the scroll axis. */
  function Secondary(size: SizeF, isVertical: bool): real
  {
    if isVertical then size.width else size.height
  }

  function Lengths(sizes: seq<SizeF>, isVertical: bool): (r: seq<real>)
    ensures |r| == |sizes|
    ensures forall i :: 0 <= i < |sizes| ==> r[i] == Primary(sizes[i], isVertical)
  {
    seq(|sizes|, i requires 0 <= i < |sizes| => Primary(sizes[i], isVertical))
  }

  /**
   * `prepareAutoSpacing`: each page gets whatever is left of the viewport
   * around it (never negative), plus the fixed spacing after every page but
   * the last.
   */
  function AutoSpacing(lengths: seq<real>, viewLength: real, spacingPx: int): (r: seq<real>)
    ensures |r| == |lengths|
    ensures forall i :: 0 <= i < |r| ==> r[i] == MaxReal(0.0, viewLength - lengths[i]) + (if i < |r| - 1 then spacingPx as real else 0.0)
    ensures spacingPx >= 0 ==> forall i :: 0 <= i < |r| ==> r[i] >= 0.0 && lengths[i] + r[i] >= viewLength
  {
    seq(|lengths|, i requires 0 <= i < |lengths| =>
      MaxReal(0.0, viewLength - lengths[i]) + (if i < |lengths| - 1 then spacingPx as real else 0.0))
  }

  /** Sum of `lengths[i..j]`. */
  function SumRange(lengths: seq<real>, i: nat, j: nat): real
    requires i <= j <= |lengths|
    decreases j - i
  {
    if i == j then 0.0 else lengths[i] + SumRange(lengths, i + 1, j)
  }

  lemma {:induction false} SumRangeSplitLast(lengths: seq<real>, i: nat, j: nat)
    requires i < j <= |lengths|
    ensures SumRange(lengths, i, j) == SumRange(lengths, i, j - 1) + lengths[j - 1]
    decreases j - i
  {
    if i + 1 < j {
      SumRangeSplitLast(lengths, i + 1, j);
    }
  }

  /**
   * `prepareDocLen`: the page lengths, the fixed spacing between pages and
   * the top and bottom spacing. Automatic spacing is not included.
   */
  function DocLen(lengths: seq<real>, config: Spacing): real
  {
    SumRange(lengths, 0, |lengths|) + (config.spacingPx * (|lengths| - 1) + config.spacingTopPx + config.spacingBottomPx) as real
  }

  /** Where page `i` is placed by `preparePagesOffset`, given the running offset before it. */
  function PlaceAt(config: Spacing, spacing: seq<real>, n: nat, i: nat, running: real): real
    requires i < n && (config.autoSpacing ==> |spacing| == n)
  {
    if config.autoSpacing then
      var centred := running + spacing[i] / 2.0;
      if i == 0 then centred - config.spacingPx as real / 2.0
      else if i == n - 1 then centred + config.spacingPx as real / 2.0
      else centred
    else running
  }

  /** The running offset of `preparePagesOffset` before its `k`-th iteration. */
  function Running(config: Spacing, lengths: seq<real>, spacing: seq<real>, k: nat): real
    requires k <= |lengths| && (config.autoSpacing ==> |spacing| == |lengths|)
  {
    if k == 0 then config.spacingTopPx as real
    else
      var i := k - 1;
      var at := PlaceAt(config, spacing, |lengths|, i, Running(config, lengths, spacing, i));
      if config.autoSpacing then at + lengths[i] + spacing[i] / 2.0
      else at + lengths[i] + config.spacingPx as real
  }

  /** `preparePagesOffset`: the offset of every page along the scroll axis. */
  function PagesOffset(config: Spacing, lengths: seq<real>, spacing: seq<real>): (offsets: seq<real>)
    requires config.autoSpacing ==> |spacing| == |lengths|
    ensures |offsets| == |lengths|
  {
    seq(|lengths|, k requires 0 <= k < |lengths| =>
      PlaceAt(config, spacing, |lengths|, k, Running(config, lengths, spacing, k)))
  }

  /** With fixed spacing, the offsets are prefix sums of page length plus spacing, after the top spacing. */
  lemma {:induction false} FixedOffsetsArePrefixSums(config: Spacing, lengths: seq<real>, spacing: seq<real>, k: nat)
    requires !config.autoSpacing && k <= |lengths|
    ensures Running(config, lengths, spacing, k) == config.spacingTopPx as real + SumRange(lengths, 0, k) + (k * config.spacingPx) as real
    ensures k < |lengths| ==> PagesOffset(config, lengths, spacing)[k] == Running(config, lengths, spacing, k)
  {
    if k > 0 {
      FixedOffsetsArePrefixSums(config, lengths, spacing, k - 1);
      SumRangeSplitLast(lengths, 0, k);
    }
  }

  /** With fixed spacing, the first page sits at the top spacing and each next page one length plus spacing further. */
  lemma FixedOffsetsStep(config: Spacing, lengths: seq<real>, spacing: seq<real>, i: nat)
    requires !config.autoSpacing && i + 1 < |lengths|
    ensures PagesOffset(config, lengths, spacing)[0] == config.spacingTopPx as real
    ensures PagesOffset(config, lengths, spacing)[i + 1] == PagesOffset(config, lengths, spacing)[i] + lengths[i] + config.spacingPx as real
  {
  }

  /**
   * With fixed spacing, the end of the last page plus the bottom spacing is
   * the document length.
   */
  lemma FixedLastPageEndsDocument(config: Spacing, lengths: seq<real>, spacing: seq<real>)
    requires !config.autoSpacing && |lengths| > 0
    ensures PagesOffset(config, lengths, spacing)[|lengths| - 1] + lengths[|lengths| - 1] + config.spacingBottomPx as real
      == DocLen(lengths, config)
  {
    var n := |lengths|;
    FixedOffsetsArePrefixSums(config, lengths, spacing, n - 1);
    SumRangeSplitLast(lengths, 0, n);
  }

  /**
   * With automatic spacing, each page is centred in its share: the first one
   * half a spacing early, the last one half a spacing late.
   */
  lemma AutoOffsetsStep(config: Spacing, lengths: seq<real>, spacing: seq<real>, i: nat)
    requires config.autoSpacing && |spacing| == |lengths| && i + 1 < |lengths|
    ensures PagesOffset(config, lengths, spacing)[0] == config.spacingTopPx as real + spacing[0] / 2.0 - config.spacingPx as real / 2.0
    ensures PagesOffset(config, lengths, spacing)[i + 1] == PagesOffset(config, lengths, spacing)[i] + lengths[i]
      + spacing[i] / 2.0 + spacing[i + 1] / 2.0 + (if i + 1 == |lengths| - 1 then config.spacingPx as real / 2.0 else 0.0)
  {
  }

  /**
   * The document length ignores automatic spacing: two pages 100 long in a
   * 400 long viewport are laid out up to 650, yet the document is 200 long.
   */
  lemma AutoSpacingDocLenShortfall()
    ensures var config := Spacing(true, 0, 0, 0, true);
      var lengths := [100.0, 100.0];
      var spacing := AutoSpacing(lengths, 400.0, 0);
      spacing == [300.0, 300.0]
      && PagesOffset(config, lengths, spacing) == [150.0, 550.0]
      && DocLen(lengths, config) == 200.0
  {
    var config := Spacing(true, 0, 0, 0, true);
    var lengths := [100.0, 100.0];
    var spacing := AutoSpacing(lengths, 400.0, 0);
    assert spacing == [300.0, 300.0];
    assert Running(config, lengths, spacing, 0) == 0.0;
    assert PlaceAt(config, spacing, 2, 0, 0.0) == 150.0;
    assert Running(config, lengths, spacing, 1) == 400.0;
    assert PlaceAt(config, spacing, 2, 1, 400.0) == 550.0;
    var offsets := PagesOffset(config, lengths, spacing);
    assert offsets[0] == 150.0 && offsets[1] == 550.0;
    assert SumRange(lengths, 2, 2) == 0.0;
    assert SumRange(lengths, 1, 2) == 100.0;
    assert SumRange(lengths, 0, 2) == 200.0;
  }

  /**
   * `recalculatePageSizes`: takes the fitted sizes, then recomputes the
   * automatic spacing (when enabled), the document length and the offsets.
   */
  function RecalculatePageSizes(f: PdfFile, fitted: seq<SizeF>, maxWidth: SizeF, maxHeight: SizeF, viewSize: SizeF): (g: PdfFile)
    requires f.pagesCount >= 0 && |fitted| == f.pagesCount
    requires f.userPages.Some? ==> |f.userPages.value| == f.pagesCount
    ensures Valid(g)
    ensures g.pageSizes == fitted && g.pagesCount == f.pagesCount && g.openedPages == f.openedPages
    ensures g.documentLength == DocLen(Lengths(fitted, f.config.isVertical), f.config)
    ensures g.maxWidthPageSize == maxWidth && g.maxHeightPageSize == maxHeight && g.config == f.config
    ensures g.userPages == f.userPages && g.document == f.document
    ensures f.config.autoSpacing ==>
      g.pageSpacing == AutoSpacing(Lengths(fitted, f.config.isVertical), Primary(viewSize, f.config.isVertical), f.config.spacingPx)
    ensures !f.config.autoSpacing ==> g.pageSpacing == f.pageSpacing
    ensures g.pageOffsets ==
      PagesOffset(f.config, Lengths(fitted, f.config.isVertical), if f.config.autoSpacing then g.pageSpacing else [])
  {
    var lengths := Lengths(fitted, f.config.isVertical);
    var spacing := if f.config.autoSpacing then AutoSpacing(lengths, Primary(viewSize, f.config.isVertical), f.config.spacingPx)
                   else f.pageSpacing;
    f.(pageSizes := fitted, maxWidthPageSize := maxWidth, maxHeightPageSize := maxHeight,
       pageSpacing := spacing,
       documentLength := DocLen(lengths, f.config),
       pageOffsets := if f.config.autoSpacing then PagesOffset(f.config, lengths, spacing)
                      else PagesOffset(f.config, lengths, []))
  }

  /**
   * `documentPage`: the document page shown as user page `userPage`, or -1
   * when there is none.
   */
  function DocumentPage(f: PdfFile, userPage: int): (r: int)
    ensures r == -1 || (0 <= userPage < f.pagesCount && r >= 0)
    ensures f.userPages.None? && 0 <= userPage < f.pagesCount ==> r == userPage
    ensures (f.userPages.Some? && 0 <= userPage < |f.userPages.value| && userPage < f.pagesCount
             && f.userPages.value[userPage] >= 0) ==> r == f.userPages.value[userPage]
    ensures f.userPages.Some? && !(0 <= userPage < |f.userPages.value|) ==> r == -1
    ensures f.userPages.Some? && 0 <= userPage < |f.userPages.value| && f.userPages.value[userPage] < 0 ==> r == -1
    ensures r != -1 <==>
      (0 <= userPage < f.pagesCount
       && (f.userPages.None? || (userPage < |f.userPages.value| && f.userPages.value[userPage] >= 0)))
  {
    var documentPage :=
      if f.userPages.Some? then
        if userPage < 0 || userPage >= |f.userPages.value| then -1 else f.userPages.value[userPage]
      else userPage;
    if documentPage < 0 || userPage >= f.pagesCount then -1 else documentPage
  }

  /** The number of pages `determineValidPageNumberFrom` clamps to. */
  function UserPageCount(f: PdfFile): int
  {
    if f.userPages.Some? then |f.userPages.value| else f.pagesCount
  }

  /** `determineValidPageNumberFrom`: clamps a page number into the pages there are. */
  function DetermineValidPageNumberFrom(f: PdfFile, userPage: int): (r: int)
    ensures userPage <= 0 ==> r == 0
    ensures userPage > 0 && userPage >= UserPageCount(f) ==> r == UserPageCount(f) - 1
    ensures 0 < userPage < UserPageCount(f) ==> r == userPage
    ensures UserPageCount(f) > 0 ==> 0 <= r < UserPageCount(f)
  {
    if userPage <= 0 then 0
    else if f.userPages.Some? && userPage >= |f.userPages.value| then |f.userPages.value| - 1
    else if f.userPages.None? && userPage >= f.pagesCount then f.pagesCount - 1
    else userPage
  }

  /** Clamping twice is clamping once, when there is at least one page. */
  lemma ValidPageNumberIdempotent(f: PdfFile, userPage: int)
    requires UserPageCount(f) > 0
    ensures DetermineValidPageNumberFrom(f, DetermineValidPageNumberFrom(f, userPage)) == DetermineValidPageNumberFrom(f, userPage)
  {
  }

  /** `getPageSize`: the fitted size, or an empty size when there is no such page. */
  function GetPageSize(f: PdfFile, pageIndex: int): (r: SizeF)
    ensures DocumentPage(f, pageIndex) < 0 ==> r == SizeF(0.0, 0.0)
    ensures DocumentPage(f, pageIndex) >= 0 && Valid(f) ==> r == f.pageSizes[pageIndex]
  {
    if DocumentPage(f, pageIndex) < 0 then SizeF(0.0, 0.0)
    else if !ArrayUtils.IsValidIndex(Some(f.pageSizes), pageIndex) then SizeF(0.0, 0.0)
    else f.pageSizes[pageIndex]
  }

  /** `getPageLength`: the page's length along the scroll axis at `zoom`. */
  function GetPageLength(f: PdfFile, pageIndex: int, zoom: real): (r: real)
    ensures DocumentPage(f, pageIndex) < 0 ==> r == 0.0
    ensures DocumentPage(f, pageIndex) >= 0 && Valid(f) ==> r == Primary(f.pageSizes[pageIndex], f.config.isVertical) * zoom
  {
    Primary(GetPageSize(f, pageIndex), f.config.isVertical) * zoom
  }

  /**
   * `getPageSpacing`: the page's automatic spacing or the fixed spacing, at
   * `zoom`; the automatic spacing list is indexed without a check.
   */
  function GetPageSpacing(f: PdfFile, pageIndex: int, zoom: real): (r: Outcome<real>)
    ensures r.Throws? <==> f.config.autoSpacing && !(0 <= pageIndex < |f.pageSpacing|)
    ensures r.Ok? && !f.config.autoSpacing ==> r.value == f.config.spacingPx as real * zoom
    ensures r.Ok? && f.config.autoSpacing ==> r.value == f.pageSpacing[pageIndex] * zoom
  {
    if !f.config.autoSpacing then Ok(f.config.spacingPx as real * zoom)
    else if 0 <= pageIndex < |f.pageSpacing| then Ok(f.pageSpacing[pageIndex] * zoom)
    else Throws(IndexOutOfBounds)
  }

  /** `getPageOffset`: the page's offset along the scroll axis at `zoom`, 0 when there is no such page. */
  function GetPageOffset(f: PdfFile, pageIndex: int, zoom: real): (r: real)
    requires Valid(f)
    ensures DocumentPage(f, pageIndex) < 0 ==> r == 0.0
    ensures DocumentPage(f, pageIndex) >= 0 ==> r == f.pageOffsets[pageIndex] * zoom
  {
    if DocumentPage(f, pageIndex) < 0 then 0.0 else f.pageOffsets[pageIndex] * zoom
  }

  /** `getSecondaryPageOffset`: the offset that centres the page across the scroll axis. */
  function GetSecondaryPageOffset(f: PdfFile, pageIndex: int, zoom: real): (r: real)
    ensures var maxSize := if f.config.isVertical then f.maxWidthPageSize else f.maxHeightPageSize;
      2.0 * r + zoom * Secondary(GetPageSize(f, pageIndex), f.config.isVertical) == zoom * Secondary(maxSize, f.config.isVertical)
  {
    var size := GetPageSize(f, pageIndex);
    if f.config.isVertical then zoom * (f.maxWidthPageSize.width - size.width) / 2.0
    else zoom * (f.maxHeightPageSize.height - size.height) / 2.0
  }

  /** Where `getPageAtOffset` considers page `i` to begin: its offset minus half its spacing. */
  function Threshold(f: PdfFile, i: nat, zoom: real): real
    requires Valid(f) && i < f.pagesCount
  {
    var spacing := if f.config.autoSpacing then f.pageSpacing[i] else f.config.spacingPx as real;
    f.pageOffsets[i] * zoom - spacing * zoom / 2.0
  }

  /** How many pages from `i` on, in order, begin before `offset`. */
  function LeadingBelow(f: PdfFile, offset: real, zoom: real, i: nat): (c: nat)
    requires Valid(f) && i <= f.pagesCount
    ensures i + c <= f.pagesCount
    ensures forall j :: i <= j < i + c ==> Threshold(f, j, zoom) < offset
    ensures i + c < f.pagesCount ==> Threshold(f, i + c, zoom) >= offset
    decreases f.pagesCount - i
  {
    if i == f.pagesCount || Threshold(f, i, zoom) >= offset then 0
    else 1 + LeadingBelow(f, offset, zoom, i + 1)
  }

  /**
   * `getPageAtOffset`: the last page, in the leading run of pages that begin
   * before `offset`, or page 0 when none does.
   */
  function GetPageAtOffset(f: PdfFile, offset: real, zoom: real): (r: int)
    requires Valid(f)
    ensures 0 <= r && (f.pagesCount == 0 ==> r == 0) && (f.pagesCount > 0 ==> r < f.pagesCount)
    ensures forall j :: 0 <= j < r ==> Threshold(f, j, zoom) < offset
    ensures r > 0 ==> Threshold(f, r, zoom) < offset
    ensures r + 1 < f.pagesCount && Threshold(f, r, zoom) < offset ==> Threshold(f, r + 1, zoom) >= offset
  {
    var c := LeadingBelow(f, offset, zoom, 0);
    if c == 0 then 0 else c - 1
  }

  lemma {:induction false} LeadingBelowMonotone(f: PdfFile, a: real, b: real, zoom: real, i: nat)
    requires Valid(f) && i <= f.pagesCount && a <= b
    ensures LeadingBelow(f, a, zoom, i) <= LeadingBelow(f, b, zoom, i)
    decreases f.pagesCount - i
  {
    if i < f.pagesCount && Threshold(f, i, zoom) < a {
      LeadingBelowMonotone(f, a, b, zoom, i + 1);
    }
  }

  /** A larger offset never maps to an earlier page, whatever the layout. */
  lemma PageAtOffsetMonotone(f: PdfFile, a: real, b: real, zoom: real)
    requires Valid(f) && a <= b
    ensures GetPageAtOffset(f, a, zoom) <= GetPageAtOffset(f, b, zoom)
  {
    LeadingBelowMonotone(f, a, b, zoom, 0);
  }

  /**
   * A layout with fixed spacing, no user page list and pages of positive
   * length, whose offsets step by one page length plus the spacing.
   */
  predicate FixedLayout(f: PdfFile)
  {
    && Valid(f)
    && !f.config.autoSpacing
    && f.userPages.None?
    && (forall k :: 0 <= k < f.pagesCount ==> Primary(f.pageSizes[k], f.config.isVertical) > 0.0)
    && (forall k :: 0 <= k < f.pagesCount - 1 ==>
          f.pageOffsets[k + 1] == f.pageOffsets[k] + Primary(f.pageSizes[k], f.config.isVertical) + f.config.spacingPx as real)
  }

  /** `recalculatePageSizes` with fixed spacing and positive page lengths yields such a layout. */
  lemma RecalculateFixedLayout(f: PdfFile, fitted: seq<SizeF>, maxWidth: SizeF, maxHeight: SizeF, viewSize: SizeF)
    requires f.pagesCount >= 0 && |fitted| == f.pagesCount && f.userPages.None? && !f.config.autoSpacing
    requires forall k :: 0 <= k < |fitted| ==> Primary(fitted[k], f.config.isVertical) > 0.0
    ensures FixedLayout(RecalculatePageSizes(f, fitted, maxWidth, maxHeight, viewSize))
  {
    var g := RecalculatePageSizes(f, fitted, maxWidth, maxHeight, viewSize);
    var lengths := Lengths(fitted, f.config.isVertical);
    assert g.pageOffsets == PagesOffset(f.config, lengths, []);
    forall k | 0 <= k < g.pagesCount - 1
      ensures g.pageOffsets[k + 1] == g.pageOffsets[k] + Primary(g.pageSizes[k], g.config.isVertical) + g.config.spacingPx as real
    {
      FixedOffsetsStep(f.config, lengths, [], k);
    }
  }

  lemma FixedRunningStep(config: Spacing, lengths: seq<real>, k: nat)
    requires !config.autoSpacing && k < |lengths|
    ensures Running(config, lengths, [], k + 1) == Running(config, lengths, [], k) + lengths[k] + config.spacingPx as real
    ensures PagesOffset(config, lengths, [])[k] == Running(config, lengths, [], k)
  {
  }

  lemma {:induction false} FixedRunningIncrease(config: Spacing, lengths: seq<real>, j: nat, i: nat)
    requires !config.autoSpacing && config.spacingPx >= 0 && j < i <= |lengths|
    requires forall k :: 0 <= k < |lengths| ==> lengths[k] > 0.0
    ensures Running(config, lengths, [], j) < Running(config, lengths, [], i)
    decreases i - j
  {
    FixedRunningStep(config, lengths, j);
    if j + 1 < i {
      FixedRunningIncrease(config, lengths, j + 1, i);
    }
  }

  /** With fixed non-negative spacing and positive page lengths, later pages sit strictly further along. */
  lemma FixedOffsetsIncrease(config: Spacing, lengths: seq<real>, j: nat, i: nat)
    requires !config.autoSpacing && config.spacingPx >= 0 && j < i < |lengths|
    requires forall k :: 0 <= k < |lengths| ==> lengths[k] > 0.0
    ensures PagesOffset(config, lengths, [])[j] < PagesOffset(config, lengths, [])[i]
  {
    FixedRunningIncrease(config, lengths, j, i);
    FixedRunningStep(config, lengths, j);
    FixedRunningStep(config, lengths, i);
  }

  /** A threshold below an offset: the page starts earlier, or as early with some spacing to halve. */
  lemma ThresholdArithBelow(a: real, b: real, spacing: real, zoom: real)
    requires zoom > 0.0 && spacing >= 0.0 && (a < b || (a == b && spacing > 0.0))
    ensures a * zoom - spacing * zoom / 2.0 < b * zoom
  {
    assert a * zoom <= b * zoom;
    assert a < b ==> a * zoom < b * zoom;
    assert spacing > 0.0 ==> spacing * zoom > 0.0;
  }

  /** A threshold at or beyond an offset: the page starts at least a spacing later. */
  lemma ThresholdArithAbove(a: real, b: real, spacing: real, zoom: real)
    requires zoom > 0.0 && spacing >= 0.0 && a + spacing <= b
    ensures b * zoom - spacing * zoom / 2.0 >= a * zoom
  {
    assert (a + spacing) * zoom <= b * zoom;
  }

  /** `getPageAtOffset` is pinned down by where the leading run of thresholds below the offset stops. */
  lemma PageAtOffsetExact(f: PdfFile, offset: real, zoom: real, k: nat)
    requires Valid(f) && k <= f.pagesCount
    requires forall j :: 0 <= j < k ==> Threshold(f, j, zoom) < offset
    requires k < f.pagesCount ==> Threshold(f, k, zoom) >= offset
    ensures GetPageAtOffset(f, offset, zoom) == if k == 0 then 0 else k - 1
  {
    var c := LeadingBelow(f, offset, zoom, 0);
  }

  /** In a fixed layout every threshold is the offset less half the fixed spacing. */
  lemma FixedThreshold(f: PdfFile, j: nat, zoom: real)
    requires Valid(f) && !f.config.autoSpacing && j < f.pagesCount
    ensures Threshold(f, j, zoom) == f.pageOffsets[j] * zoom - f.config.spacingPx as real * zoom / 2.0
  {
  }

  /** In a fixed layout, pages are strictly further along the later they come. */
  lemma {:induction false} FixedLayoutOffsets(f: PdfFile, j: nat, i: nat)
    requires FixedLayout(f) && f.config.spacingPx >= 0 && j < i < f.pagesCount
    ensures f.pageOffsets[j] < f.pageOffsets[i]
    decreases i - j
  {
    assert f.pageOffsets[j + 1] == f.pageOffsets[j] + Primary(f.pageSizes[j], f.config.isVertical) + f.config.spacingPx as real;
    if j + 1 < i {
      FixedLayoutOffsets(f, j + 1, i);
    }
  }

  /**
   * With fixed positive spacing, the offset of a page maps back to that page:
   * its own threshold lies half a spacing before it, the next page's after it.
   */
  lemma PageAtOwnOffset(f: PdfFile, i: nat, zoom: real)
    requires FixedLayout(f) && f.config.spacingPx > 0 && zoom > 0.0 && i < f.pagesCount
    ensures GetPageAtOffset(f, GetPageOffset(f, i, zoom), zoom) == i
  {
    var offset := GetPageOffset(f, i, zoom);
    assert offset == f.pageOffsets[i] * zoom;
    var spacing := f.config.spacingPx as real;
    forall j | 0 <= j <= i ensures Threshold(f, j, zoom) < offset {
      FixedThreshold(f, j, zoom);
      if j < i {
        FixedLayoutOffsets(f, j, i);
      }
      ThresholdArithBelow(f.pageOffsets[j], f.pageOffsets[i], spacing, zoom);
    }
    if i + 1 < f.pagesCount {
      FixedThreshold(f, i + 1, zoom);
      assert f.pageOffsets[i + 1] == f.pageOffsets[i] + Primary(f.pageSizes[i], f.config.isVertical) + spacing;
      ThresholdArithAbove(f.pageOffsets[i], f.pageOffsets[i + 1], spacing, zoom);
    }
    PageAtOffsetExact(f, offset, zoom, i + 1);
  }

  /**
   * Without spacing, the offset of a page maps to the page before it: its
   * own threshold equals its offset and the comparison is `>=`.
   */
  lemma PageAtOwnOffsetWithoutSpacing(f: PdfFile, i: nat, zoom: real)
    requires FixedLayout(f) && f.config.spacingPx == 0 && zoom > 0.0 && 0 < i < f.pagesCount
    ensures GetPageAtOffset(f, GetPageOffset(f, i, zoom), zoom) == i - 1
  {
    var offset := GetPageOffset(f, i, zoom);
    assert offset == f.pageOffsets[i] * zoom;
    forall j | 0 <= j < i ensures Threshold(f, j, zoom) < offset {
      FixedThreshold(f, j, zoom);
      FixedLayoutOffsets(f, j, i);
      ThresholdArithBelow(f.pageOffsets[j], f.pageOffsets[i], 0.0, zoom);
    }
    FixedThreshold(f, i, zoom);
    PageAtOffsetExact(f, offset, zoom, i);
  }

  /**
   * `openPage`: the first request for a document page asks the native
   * library (`nativeLoad`, `None` when the page does not load, so that
   * `PdfiumCore.openPage` throws) and records the outcome;
   * later requests answer from the pointer map, 0 when the page is missing.
   */
  function OpenPage(f: PdfFile, pageIndex: int, nativeLoad: Option<Int64>): (r: (PdfFile, Outcome<Int64>))
    ensures DocumentPage(f, pageIndex) < 0 ==> r == (f, Ok(0))
    ensures var d := DocumentPage(f, pageIndex);
      d >= 0 && d !in f.openedPages ==> d in r.0.openedPages && (r.0.openedPages[d] <==> nativeLoad.Some?)
    ensures var d := DocumentPage(f, pageIndex);
      d >= 0 && d !in f.openedPages && nativeLoad.None? ==> r.1 == Throws(PageRendering(pageIndex)) && r.0.document == f.document
    ensures var d := DocumentPage(f, pageIndex);
      d >= 0 && d !in f.openedPages && nativeLoad.Some? ==> r.1 == Ok(nativeLoad.value) && d in r.0.document.pages && r.0.document.pages[d] == nativeLoad.value
    ensures var d := DocumentPage(f, pageIndex);
      d >= 0 && d in f.openedPages ==> r.0 == f && r.1 == Ok(if d in f.document.pages then f.document.pages[d] else 0)
    ensures r.0.pagesCount == f.pagesCount && r.0.userPages == f.userPages
    ensures var d := DocumentPage(f, pageIndex);
      d >= 0 && d !in f.openedPages && nativeLoad.Some? ==>
        r.0 == f.(openedPages := f.openedPages[d := true], document := f.document.(pages := f.document.pages[d := nativeLoad.value]))
    ensures var d := DocumentPage(f, pageIndex);
      d >= 0 && d !in f.openedPages && nativeLoad.None? ==> r.0 == f.(openedPages := f.openedPages[d := false])
  {
    var docPage := DocumentPage(f, pageIndex);
    if docPage < 0 then (f, Ok(0))
    else if docPage !in f.openedPages then
      match PdfiumCore.OpenPage(f.document, docPage, PdfiumJni.NativeLoadPage(nativeLoad))
      case Ok((document, pagePtr)) =>
        (f.(document := document, openedPages := f.openedPages[docPage := true]), Ok(pagePtr))
      case Throws(_) =>
        (f.(openedPages := f.openedPages[docPage := false]), Throws(PageRendering(pageIndex)))
    else
      var asOptions := map k | k in f.document.pages :: Some(f.document.pages[k]);
      (f, Ok(ArrayUtils.GetOrDefault(asOptions, docPage, 0)))
  }

  /** `pageHasError`: no successful opening of the page has been recorded. */
  function PageHasError(f: PdfFile, pageIndex: int): (r: bool)
    ensures r <==> !(DocumentPage(f, pageIndex) in f.openedPages && f.openedPages[DocumentPage(f, pageIndex)])
  {
    var docPage := DocumentPage(f, pageIndex);
    !(if docPage in f.openedPages then f.openedPages[docPage] else false)
  }

  /**
   * A page is opened at most once: a second request does not consult the
   * native library, changes nothing, and answers with the pointer of the
   * first success or 0 after a failure; `pageHasError` reports the failure.
   */
  lemma OpenPageOnce(f: PdfFile, pageIndex: int, first: Option<Int64>, second: Option<Int64>)
    requires DocumentPage(f, pageIndex) >= 0 && DocumentPage(f, pageIndex) !in f.openedPages
    requires first.None? ==> DocumentPage(f, pageIndex) !in f.document.pages
    ensures var once := OpenPage(f, pageIndex, first).0;
      var twice := OpenPage(once, pageIndex, second);
      twice.0 == once && twice.1 == Ok(if first.Some? then first.value else 0)
    ensures PageHasError(OpenPage(f, pageIndex, first).0, pageIndex) <==> first.None?
  {
    var once := OpenPage(f, pageIndex, first).0;
    assert DocumentPage(once, pageIndex) == DocumentPage(f, pageIndex);
  }

  /**
   * Opening another page in between does not disturb a page already opened:
   * opening `pageIndex` again still answers from the first opening and
   * changes nothing.
   */
  lemma OpenPageOnceAcrossOthers(f: PdfFile, pageIndex: int, otherIndex: int,
                                 first: Option<Int64>, other: Option<Int64>, again: Option<Int64>)
    requires DocumentPage(f, pageIndex) >= 0 && DocumentPage(f, pageIndex) !in f.openedPages
    requires first.None? ==> DocumentPage(f, pageIndex) !in f.document.pages
    ensures var once := OpenPage(f, pageIndex, first).0;
      var between := OpenPage(once, otherIndex, other).0;
      var third := OpenPage(between, pageIndex, again);
      third.0 == between && third.1 == Ok(if first.Some? then first.value else 0)
  {
    var once := OpenPage(f, pageIndex, first).0;
    var between := OpenPage(once, otherIndex, other).0;
    assert DocumentPage(once, pageIndex) == DocumentPage(f, pageIndex);
    assert DocumentPage(once, otherIndex) == DocumentPage(f, otherIndex);
    assert DocumentPage(between, pageIndex) == DocumentPage(f, pageIndex);
  }
}
