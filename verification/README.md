# AndroidPdfViewer core, modelled in Dafny

This project models the logic core of AndroidPdfViewer and proves properties about it. AndroidPdfViewer is an Android PDF viewer built on PDFium. Its Java layer handles page layout, scrolling, zoom, text selection and search. A JNI layer sits over PDFium.

The model keeps the arithmetic and sequence handling of that core. Everything else becomes a parameter:
- PDFium and JNI calls are inputs: a page pointer, a loaded array, a native key, rects returned by the native side.
- Android views become plain numbers: width, height, zoom, offsets.
- Java `float`s become `real`s.
- Java `int` and `long` are subset types. The `(int)` casts and 64-bit packing are written out.

Each module follows one source component:
- `PdfFile`: page sizes, spacing, page offsets, offset-to-page lookup, user-page mapping and the open-once page cache.
- `Viewport` and `Gestures`: `moveTo` clamping, snapping, the focus page, zoom about a pivot, pinch limits, the double-tap cycle and page flings.
- `TextSelection`: the selection model spread over `PDocSelection`, `DragPinchManager` and `PDFView`.
- `SearchSession` and `SearchTask`: search state, navigation between hits, and the page scan of the background search.
- `SearchUtils` and `SentencedSearchResult`: sentence context around a hit, and the result object with its record id and `Parcel` form.
- `Util` and `ArrayUtils`: `long` packing, page de-duplication, and the null-tolerant list and map lookups.
- `TocHelper` and `TocEntry`: the stack walk of the native bookmark outline, and its Java entry type.
- `PdfiumCore`, `PdfiumJni`, `Pixels` and `TextEncoding`: handle bookkeeping, library reference counting, pixel packing and UTF-16 to UTF-8 encoding.
- `NativeUtil`: the native `clamp`.
- `TextImages`: the box comparator of `TextImage`.
- `BookmarkAdapter`: the sample app's expandable table of contents.

`JavaLang` holds the shared Java value types: `null` as `Option`, thrown exceptions as `Outcome`, `int`/`long` ranges, the narrowing cast and `substring`. `Parcel` is the typed value stream that `Parcelable` classes write and read. `SearchRecords` holds the search record types.

Some behaviours of the code differ from what its names suggest. The model follows the code:
- `resetSel` does not swap reversed endpoints. Its "swaps" assign a field to itself, so a reversed selection collapses onto one endpoint.
- `findSnapEdge` answers START, not NONE, when the view is exactly aligned with the page start. The test is `>=`.
- `resetSel` asks for each page's rects through the three-argument `getSelRects`. That overload uses the page under the last touch for every slot, not page `selPageSt + i`. `TextSelection.ResetSel` therefore records only the requested ranges.
- `navigateToSearchItem(page, item)` looks the item up under the clamped page, but jumps to the unclamped page index.
- Some call sites do not match the signature they call:
  - `PDocSearchTask` calls `notifyItemAdded` with four arguments;
  - `SearchUtils` builds a `SentencedSearchResult` with six;
  - `PDocSelection` uses field names that `PDFView` does not declare.
  
  Each method body is modelled on its own terms.

## Model

| member | source | states |
|---|---|---|
| Util.UnpackHighOfPack | android-pdf-viewer/src/main/java/com/github/barteksc/pdfviewer/util/Util.java:57-63 | the high word of `packIntegers(h, l)` is `h`, for every pair of Java ints |
| Util.UnpackLowOfPack | android-pdf-viewer/src/main/java/com/github/barteksc/pdfviewer/util/Util.java:57-67 | the low word comes back as `l`, negative or not, and a negative low word does not disturb the high word |
| Util.PackOfUnpack | android-pdf-viewer/src/main/java/com/github/barteksc/pdfviewer/util/Util.java:57-67 | every `long` is the packing of its two unpacked halves |
| Util.IndexExistsAgree | android-pdf-viewer/src/main/java/com/github/barteksc/pdfviewer/util/Util.java:38-44 | the list and count overloads of `indexExists` give the same answer whenever the count is the list's size |
| ArrayUtils.DeleteDuplicatedPages | android-pdf-viewer/src/main/java/com/github/barteksc/pdfviewer/util/ArrayUtils.java:29-46 | the loop computes the reference de-duplication seeded with `lastInt = -1`; the result is no longer than the input, and empty input gives an empty result |
| ArrayUtils.Dedup | android-pdf-viewer/src/main/java/com/github/barteksc/pdfviewer/util/ArrayUtils.java:34-44 | the reference de-duplication never lengthens its input |
| ArrayUtils.DedupNoAdjacent | android-pdf-viewer/src/main/java/com/github/barteksc/pdfviewer/util/ArrayUtils.java:34-40 | no two neighbours of the result are equal, and its first element differs from the seed, so a leading -1 is dropped |
| ArrayUtils.DedupSameValues | android-pdf-viewer/src/main/java/com/github/barteksc/pdfviewer/util/ArrayUtils.java:29-46 | the result holds exactly the input's values, except the seed |
| ArrayUtils.DedupExamples | android-pdf-viewer/src/main/java/com/github/barteksc/pdfviewer/util/ArrayUtils.java:29-46 | (0,1,2,2,3) becomes (0,1,2,3), and (-1,-1,5) becomes (5) |
| ArrayUtils.CalculateIndexesInDuplicateArray | android-pdf-viewer/src/main/java/com/github/barteksc/pdfviewer/util/ArrayUtils.java:48-67 | the result has the input's length and starts at 0; it steps by exactly 1 where neighbours differ and by 0 where they are equal |
| ArrayUtils.IndexesExample | android-pdf-viewer/src/main/java/com/github/barteksc/pdfviewer/util/ArrayUtils.java:48-67 | (0,4,4,6,6,6,3) maps to (0,1,1,2,2,2,3) |
| ArrayUtils.IntToString | android-pdf-viewer/src/main/java/com/github/barteksc/pdfviewer/util/ArrayUtils.java:73-75 | an appended int is a non-empty, comma-free numeral that starts with '-' exactly for negative values and whose decimal value is the int |
| ArrayUtils.NatToString | android-pdf-viewer/src/main/java/com/github/barteksc/pdfviewer/util/ArrayUtils.java:73-75 | a non-negative int renders as decimal digits without a leading zero, whose decimal value is the int |
| ArrayUtils.JoinWithCommas | android-pdf-viewer/src/main/java/com/github/barteksc/pdfviewer/util/ArrayUtils.java:69-79 | the comma-joined elements are empty exactly for an empty array, and splitting them at the commas and reading each numeral gives the array back |
| ArrayUtils.ArrayToString | android-pdf-viewer/src/main/java/com/github/barteksc/pdfviewer/util/ArrayUtils.java:69-79 | the rendering is bracketed, and the text between the brackets reads back as the array |
| ArrayUtils.ArrayToStringExample | android-pdf-viewer/src/main/java/com/github/barteksc/pdfviewer/util/ArrayUtils.java:69-79 | (12, -3) renders as "[12,-3]" |
| ArrayUtils.CommaCount | android-pdf-viewer/src/main/java/com/github/barteksc/pdfviewer/util/ArrayUtils.java:69-79 | a non-empty array renders with exactly one comma fewer than it has elements |
| ArrayUtils.NoCommaInInt | android-pdf-viewer/src/main/java/com/github/barteksc/pdfviewer/util/ArrayUtils.java:73-75 | an int's rendering contains no comma |
| ArrayUtils.GetElementSafe | android-pdf-viewer/src/main/java/com/github/barteksc/pdfviewer/util/ArrayUtils.java:89-107 | the element is returned iff the list is non-null and the index is in range, and then it is `list[i]`; otherwise the result is null |
| ArrayUtils.IsValidIndexMatchesIndexExists | android-pdf-viewer/src/main/java/com/github/barteksc/pdfviewer/util/ArrayUtils.java:89-91 | `isValidIndex` is false on a null list, and on a present list it is `Util.indexExists` |
| ArrayUtils.GetOrDefault | android-pdf-viewer/src/main/java/com/github/barteksc/pdfviewer/util/MapUtil.java:11-14 | a key mapped to a non-null value gives that value; an absent key or a null value gives the default |
| NativeUtil.Clamp | pdfium/src/main/jni/util.hpp:21-24 | `clamp` gives lo below lo, hi above hi (when not below lo) and the value in between; with lo <= hi the result lies in [lo, hi] |
| NativeUtil.ClampIdempotent | pdfium/src/main/jni/util.hpp:21-24 | clamping twice equals clamping once |
| NativeUtil.ClampMonotone | pdfium/src/main/jni/util.hpp:21-24 | clamping preserves order |
| SentencedSearchResult.RecordId | android-pdf-viewer/src/main/java/com/github/barteksc/pdfviewer/model/SentencedSearchResult.java:69-79 | unpacking the record id gives back the page index and the search item index, negative ones included |
| SentencedSearchResult.RecordIdInjective | android-pdf-viewer/src/main/java/com/github/barteksc/pdfviewer/model/SentencedSearchResult.java:69-71 | two results with the same record id have the same page and item indices |
| SentencedSearchResult.WriteToParcel | android-pdf-viewer/src/main/java/com/github/barteksc/pdfviewer/model/SentencedSearchResult.java:43-50 | writing puts five values into the parcel |
| SentencedSearchResult.ReadFromParcel | android-pdf-viewer/src/main/java/com/github/barteksc/pdfviewer/model/SentencedSearchResult.java:35-41 | a successful read consumes exactly five values |
| SentencedSearchResult.ParcelRoundTrip | android-pdf-viewer/src/main/java/com/github/barteksc/pdfviewer/model/SentencedSearchResult.java:35-50 | reading back what was written, wherever it sits in a parcel, reproduces the same result and stops right after it |
| SentencedSearchResult.EqualsIffSameFields | android-pdf-viewer/src/main/java/com/github/barteksc/pdfviewer/model/SentencedSearchResult.java:111-116 | `equals` holds iff all five fields are equal |
| SentencedSearchResult.GetSpannedText | android-pdf-viewer/src/main/java/com/github/barteksc/pdfviewer/model/SentencedSearchResult.java:123-137 | a cached span is returned as is; otherwise the span is built from the text, highlighted exactly when 0 <= start < end <= length, and cached; a null text throws |
| SentencedSearchResult.SpannedTextCached | android-pdf-viewer/src/main/java/com/github/barteksc/pdfviewer/model/SentencedSearchResult.java:123-124 | a second call returns the first call's span, whatever colour it asks for |
| TocEntry.WriteToParcel | pdfium/src/main/java/com/vivlio/android/pdfium/TOCEntry.java:43-51 | writing puts seven values into the parcel |
| TocEntry.ReadFromParcel | pdfium/src/main/java/com/vivlio/android/pdfium/TOCEntry.java:32-40 | a successful read consumes exactly seven values |
| TocEntry.ParcelRoundTrip | pdfium/src/main/java/com/vivlio/android/pdfium/TOCEntry.java:32-51 | reading back what was written, wherever it sits in a parcel, reproduces the same entry and stops right after it |
| SearchUtils.LastDelimiterAtOrBefore | android-pdf-viewer/src/main/java/com/github/barteksc/pdfviewer/util/SearchUtils.java:148-155 | the result is the largest index <= i that holds one of `. \n ? !`, or -1 when there is none |
| SearchUtils.FirstDelimiterAtOrAfter | android-pdf-viewer/src/main/java/com/github/barteksc/pdfviewer/util/SearchUtils.java:165-172 | the result is the smallest index >= i that holds a delimiter, or -1 when there is none |
| SearchUtils.LastIndexOfAny | android-pdf-viewer/src/main/java/com/github/barteksc/pdfviewer/util/SearchUtils.java:148-155 | `lastIndexOfAny` is the last delimiter at or before `fromIndex`, or -1; `charAt` throws when `fromIndex` is past the end |
| SearchUtils.IndexOfAny | android-pdf-viewer/src/main/java/com/github/barteksc/pdfviewer/util/SearchUtils.java:165-172 | `indexOfAny` is the first delimiter at or after `fromIndex`, or -1; `charAt` throws for a negative `fromIndex` |
| SearchUtils.TrimStart | android-pdf-viewer/src/main/java/com/github/barteksc/pdfviewer/util/SearchUtils.java:129-131 | the start moves right over whitespace only, and stops on a non-whitespace character or at the end |
| SearchUtils.TrimEnd | android-pdf-viewer/src/main/java/com/github/barteksc/pdfviewer/util/SearchUtils.java:133-135 | the end moves left over whitespace only, and stops after a non-whitespace character or at 0 |
| SearchUtils.FindSentenceBounds | android-pdf-viewer/src/main/java/com/github/barteksc/pdfviewer/util/SearchUtils.java:113-138 | it throws exactly when a delimiter search throws; otherwise the start is the first non-whitespace at or after the raw start, and the end is the last non-whitespace end at or before the raw end, both in [0, length] |
| SearchUtils.RawSentenceStart | android-pdf-viewer/src/main/java/com/github/barteksc/pdfviewer/util/SearchUtils.java:115-122 | before trimming, the sentence starts one past the last delimiter before the match, or at 0 |
| SearchUtils.RawSentenceEnd | android-pdf-viewer/src/main/java/com/github/barteksc/pdfviewer/util/SearchUtils.java:116-126 | before trimming, the sentence ends at the first delimiter at or after the match end, or at the length |
| SearchUtils.ExtractorResult | android-pdf-viewer/src/main/java/com/github/barteksc/pdfviewer/util/SearchUtils.java:60-67 | the custom extractor's answer when there is one; otherwise the default sentence bounds as a two-element array, or the default finder's exception |
| SearchUtils.SentenceBounds | android-pdf-viewer/src/main/java/com/github/barteksc/pdfviewer/util/SearchUtils.java:60-79 | the result is the extractor's pair exactly when that pair is present, has two elements and satisfies 0 <= s < e <= length; a throwing extractor, a missing or wrong-sized array and invalid bounds each give IllegalArgumentException with the source's message; with the default extractor it is the trimmed sentence whenever that is non-empty |
| SearchUtils.MakeHit | android-pdf-viewer/src/main/java/com/github/barteksc/pdfviewer/util/SearchUtils.java:81-98 | the snippet is `text[s..e)`; the relative start is max(0, start - s) and the relative end is min(length of snippet, end - s), both inside the snippet |
| SearchUtils.HitHighlightsMatch | android-pdf-viewer/src/main/java/com/github/barteksc/pdfviewer/util/SearchUtils.java:81-83 | the highlighted part of the snippet is the part of the match inside the sentence |
| SearchUtils.ExtractOne | android-pdf-viewer/src/main/java/com/github/barteksc/pdfviewer/util/SearchUtils.java:51-98 | an item is skipped exactly when its span, from `st` to the int-wrapped `st + ed`, is not a non-empty range inside the text; otherwise it throws exactly when the sentence bounds throw, and else its hit is built from the match and those bounds |
| SearchUtils.ExtractAll | android-pdf-viewer/src/main/java/com/github/barteksc/pdfviewer/util/SearchUtils.java:50-101 | the k-th result is the hit extracted from the k-th kept item, in input order |
| SearchUtils.ExtractAllThrows | android-pdf-viewer/src/main/java/com/github/barteksc/pdfviewer/util/SearchUtils.java:50-101 | the whole extraction throws exactly when some item's extraction throws |
| SearchUtils.Kept | android-pdf-viewer/src/main/java/com/github/barteksc/pdfviewer/util/SearchUtils.java:52-58 | the kept items are exactly the input items with a valid span |
| SearchUtils.KeptAppend | android-pdf-viewer/src/main/java/com/github/barteksc/pdfviewer/util/SearchUtils.java:51-58 | the filter distributes over concatenation, so kept items keep their input order |
| SearchUtils.KeptSingle | android-pdf-viewer/src/main/java/com/github/barteksc/pdfviewer/util/SearchUtils.java:52-58 | a single item is kept exactly when its span is valid |
| SearchUtils.ExtractSearchResults | android-pdf-viewer/src/main/java/com/github/barteksc/pdfviewer/util/SearchUtils.java:37-102 | null text or null items throw IllegalArgumentException with the source's messages; otherwise the k-th result is the hit of the k-th kept item, and the call throws exactly when some item's extraction throws |
| SearchUtils.DefaultSentenceContainsMatch | android-pdf-viewer/src/main/java/com/github/barteksc/pdfviewer/util/SearchUtils.java:113-138 | for a match with non-blank ends, the default extractor's sentence contains the match |
| PdfFile.AutoSpacing | android-pdf-viewer/src/main/java/com/github/barteksc/pdfviewer/PdfFile.java:233-244 | page i gets max(0, view length - page length), plus spacingPx except on the last page; with spacingPx >= 0 this is >= 0 and page plus spacing fills the view |
| PdfFile.PagesOffset | android-pdf-viewer/src/main/java/com/github/barteksc/pdfviewer/PdfFile.java:255-275 | there is one offset per page |
| PdfFile.FixedOffsetsArePrefixSums | android-pdf-viewer/src/main/java/com/github/barteksc/pdfviewer/PdfFile.java:255-274 | without auto spacing, offset k is spacingTopPx + the lengths of pages 0..k-1 + k·spacingPx |
| PdfFile.FixedOffsetsStep | android-pdf-viewer/src/main/java/com/github/barteksc/pdfviewer/PdfFile.java:257-273 | without auto spacing, offset 0 is spacingTopPx and offset i+1 is offset i + length i + spacingPx |
| PdfFile.FixedLastPageEndsDocument | android-pdf-viewer/src/main/java/com/github/barteksc/pdfviewer/PdfFile.java:246-253 | without auto spacing, the last offset + the last length + spacingBottomPx is the document length |
| PdfFile.AutoOffsetsStep | android-pdf-viewer/src/main/java/com/github/barteksc/pdfviewer/PdfFile.java:261-269 | with auto spacing, each offset adds half of its own and half of the previous page's spacing; spacingPx/2 is removed before the first page and added before the last |
| PdfFile.AutoSpacingDocLenShortfall | android-pdf-viewer/src/main/java/com/github/barteksc/pdfviewer/PdfFile.java:246-253 | the document length ignores auto spacing: two 100-long pages in a 400 view are placed at 150 and 550, yet the document length is 200 |
| PdfFile.RecalculatePageSizes | android-pdf-viewer/src/main/java/com/github/barteksc/pdfviewer/PdfFile.java:164-180 | the new sizes are stored; with automatic spacing the spacing is recomputed from the new lengths and the view, otherwise it is kept; the document length and the page offsets are recomputed from the new lengths and that spacing; the user pages, the opened pages and the native document are untouched; the file stays well formed |
| PdfFile.DocumentPage | android-pdf-viewer/src/main/java/com/github/barteksc/pdfviewer/PdfFile.java:465-480 | the result is -1 exactly when the user page is outside the page count, outside the mapping, or mapped to a negative page; otherwise it is the mapped page, or the page itself when there is no mapping |
| PdfFile.DetermineValidPageNumberFrom | android-pdf-viewer/src/main/java/com/github/barteksc/pdfviewer/PdfFile.java:449-463 | <= 0 maps to 0, >= count maps to count - 1, anything else to itself |
| PdfFile.ValidPageNumberIdempotent | android-pdf-viewer/src/main/java/com/github/barteksc/pdfviewer/PdfFile.java:449-463 | validating a validated page number changes nothing |
| PdfFile.GetPageSize | android-pdf-viewer/src/main/java/com/github/barteksc/pdfviewer/PdfFile.java:186-196 | (0,0) for a page that maps to -1, otherwise the stored size |
| PdfFile.GetPageLength | android-pdf-viewer/src/main/java/com/github/barteksc/pdfviewer/PdfFile.java:284-287 | the zoomed primary length, 0 for an unmapped page |
| PdfFile.GetPageSpacing | android-pdf-viewer/src/main/java/com/github/barteksc/pdfviewer/PdfFile.java:289-292 | zoomed spacingPx, or the page's own auto spacing; indexing outside the auto-spacing list throws |
| PdfFile.GetPageOffset | android-pdf-viewer/src/main/java/com/github/barteksc/pdfviewer/PdfFile.java:297-303 | the zoomed stored offset, 0 for an unmapped page |
| PdfFile.GetSecondaryPageOffset | android-pdf-viewer/src/main/java/com/github/barteksc/pdfviewer/PdfFile.java:308-317 | the page is centred across the scroll axis: twice the offset plus its zoomed width (or height) is the zoomed maximum |
| PdfFile.LeadingBelow | android-pdf-viewer/src/main/java/com/github/barteksc/pdfviewer/PdfFile.java:320-327 | the loop counts the leading pages whose threshold is below the offset, and stops at the first one that is not |
| PdfFile.GetPageAtOffset | android-pdf-viewer/src/main/java/com/github/barteksc/pdfviewer/PdfFile.java:319-329 | the page lies in [0, n-1] (0 for an empty document); every page before it, and the page itself unless it is 0, has its threshold below the offset, and then the next page's threshold is not below it |
| PdfFile.PageAtOffsetMonotone | android-pdf-viewer/src/main/java/com/github/barteksc/pdfviewer/PdfFile.java:319-329 | a larger offset never gives an earlier page |
| PdfFile.FixedOffsetsIncrease | android-pdf-viewer/src/main/java/com/github/barteksc/pdfviewer/PdfFile.java:255-274 | with positive page lengths and spacingPx >= 0, fixed-spacing offsets strictly increase |
| PdfFile.PageAtOwnOffset | android-pdf-viewer/src/main/java/com/github/barteksc/pdfviewer/PdfFile.java:319-329 | with positive fixed spacing, the page at a page's own offset is that page |
| PdfFile.PageAtOwnOffsetWithoutSpacing | android-pdf-viewer/src/main/java/com/github/barteksc/pdfviewer/PdfFile.java:322-323 | with spacing 0, the page at page i's own offset is i - 1, because the threshold test is `>=` |
| PdfFile.OpenPage | android-pdf-viewer/src/main/java/com/github/barteksc/pdfviewer/PdfFile.java:342-362 | an unmapped page gives 0; a first opening records success or failure for that page only, and also stores the pointer on success; a failure throws PageRenderingException; every other field and every other page's record is kept; later calls return the cached pointer or 0 and change nothing |
| PdfFile.PageHasError | android-pdf-viewer/src/main/java/com/github/barteksc/pdfviewer/PdfFile.java:388-391 | a page has an error iff no successful opening is recorded |
| PdfFile.OpenPageOnce | android-pdf-viewer/src/main/java/com/github/barteksc/pdfviewer/PdfFile.java:342-391 | a second opening returns the first result without loading again, and the error flag is set iff the first load failed |
| PdfFile.OpenPageOnceAcrossOthers | android-pdf-viewer/src/main/java/com/github/barteksc/pdfviewer/PdfFile.java:342-362 | opening another page in between does not disturb a page already opened: opening it again returns the first result, changes nothing and loads nothing |
| Viewport.ClampAxis | android-pdf-viewer/src/main/java/com/github/barteksc/pdfviewer/PDFView.java:1652-1672 | content shorter than the view is centred; otherwise the offset is clamped into [view - content, 0] and kept as is inside it |
| Viewport.ClampAxisIdempotent | android-pdf-viewer/src/main/java/com/github/barteksc/pdfviewer/PDFView.java:1652-1672 | clamping an already clamped offset changes nothing |
| Viewport.DirectionOf | android-pdf-viewer/src/main/java/com/github/barteksc/pdfviewer/PDFView.java:1674-1680 | the scroll direction is END, START or NONE as the offset decreases, increases or stays |
| Viewport.MoveTo | android-pdf-viewer/src/main/java/com/github/barteksc/pdfviewer/PDFView.java:1641-1721 | each axis is clamped against the document length along the scroll axis and the widest page across it; a locked axis keeps its offset unless scaling; the direction compares the clamped scroll-axis offset with the old one, even on a locked axis; the locks and page snapping are unchanged |
| Viewport.MoveToKeepsDocumentInView | android-pdf-viewer/src/main/java/com/github/barteksc/pdfviewer/PDFView.java:1662-1672 | vertically, a document at least as long as the view always covers it, and an in-range offset is taken as is |
| Viewport.GetPositionOffset | android-pdf-viewer/src/main/java/com/github/barteksc/pdfviewer/PDFView.java:995-1003 | the position is -offset / (document - view), limited to [0, 1]; there is no position exactly in the 0/0 case |
| Viewport.PositionOffsetEnds | android-pdf-viewer/src/main/java/com/github/barteksc/pdfviewer/PDFView.java:995-1003 | the start of the document gives 0 and the end gives 1 |
| Viewport.ZoomCenteredBase | android-pdf-viewer/src/main/java/com/github/barteksc/pdfviewer/PDFView.java:1895-1900 | the new base is `offset·dZoom + pivot·(1 - dZoom)`, so the pivot's distance to the base scales by dZoom |
| Viewport.ZoomKeepsPivot | android-pdf-viewer/src/main/java/com/github/barteksc/pdfviewer/PDFView.java:1894-1902 | the document point under the pivot stays under the pivot |
| Viewport.ZoomCenteredTo | android-pdf-viewer/src/main/java/com/github/barteksc/pdfviewer/PDFView.java:1894-1902 | the zoom becomes the requested zoom, and the orientation is kept |
| Viewport.ZoomCenteredKeepsPivot | android-pdf-viewer/src/main/java/com/github/barteksc/pdfviewer/PDFView.java:1894-1902 | when moveTo does not have to clamp, zooming keeps the document point under the pivot fixed |
| Viewport.FindSnapEdge | android-pdf-viewer/src/main/java/com/github/barteksc/pdfviewer/PDFView.java:1804-1822 | NONE without page snap or for a negative page; CENTER iff the page fits the view; START iff the view is at or past the page start; otherwise END exactly when the page end is past the view end, and NONE when it is not |
| Viewport.SnapEndSettles | android-pdf-viewer/src/main/java/com/github/barteksc/pdfviewer/PDFView.java:1804-1822 | snapping a long page to its end aligns the view end with the page end, after which no further snap is needed |
| Viewport.SnapOffsetForPage | android-pdf-viewer/src/main/java/com/github/barteksc/pdfviewer/PDFView.java:1827-1839 | CENTER aligns the centres, END aligns the ends, START and NONE give the page start |
| Viewport.SnapStartIsStable | android-pdf-viewer/src/main/java/com/github/barteksc/pdfviewer/PDFView.java:1804-1839 | after snapping to a page's start, the edge found for that page is START again |
| Viewport.FindFocusPage | android-pdf-viewer/src/main/java/com/github/barteksc/pdfviewer/PDFView.java:1841-1853 | 0 near the start, the last page near the end, and otherwise the page at the view centre |
| Viewport.FocusPageMonotone | android-pdf-viewer/src/main/java/com/github/barteksc/pdfviewer/PDFView.java:1841-1853 | scrolling further into the document never moves the focus page back |
| Gestures.ScaleRatio | android-pdf-viewer/src/main/java/com/github/barteksc/pdfviewer/DragPinchManager.java:577-586 | applying the ratio gives the wanted zoom clamped to the limits |
| Gestures.OnScale | android-pdf-viewer/src/main/java/com/github/barteksc/pdfviewer/DragPinchManager.java:575-588 | the new zoom is clamp(zoom·factor, min(MINIMUM_ZOOM, minZoom), min(MAXIMUM_ZOOM, maxZoom)) |
| Gestures.OnScaleStaysInLimits | android-pdf-viewer/src/main/java/com/github/barteksc/pdfviewer/DragPinchManager.java:575-588 | a pinch never leaves the limits, and inside them it zooms by exactly the detector's factor |
| Gestures.OnDoubleTap | android-pdf-viewer/src/main/java/com/github/barteksc/pdfviewer/DragPinchManager.java:421-434 | not handled iff disabled; below mid goes to mid, below max goes to max, otherwise the zoom resets |
| Gestures.DoubleTapCycle | android-pdf-viewer/src/main/java/com/github/barteksc/pdfviewer/DragPinchManager.java:421-434 | from the minimum, three double taps visit mid, max and the minimum again |
| Gestures.CheckDoPageFling | android-pdf-viewer/src/main/java/com/github/barteksc/pdfviewer/DragPinchManager.java:743-747 | a page fling is faster along the scroll axis than across it, stated without absolute values, so it needs a non-zero velocity on that axis |
| Gestures.PageFlingAxesSwap | android-pdf-viewer/src/main/java/com/github/barteksc/pdfviewer/DragPinchManager.java:743-747 | the vertical test is the horizontal one with the velocities swapped |
| Gestures.PageFlingOneAxis | android-pdf-viewer/src/main/java/com/github/barteksc/pdfviewer/DragPinchManager.java:743-747 | no fling counts as a page fling for both orientations |
| Gestures.StartPageFling | android-pdf-viewer/src/main/java/com/github/barteksc/pdfviewer/DragPinchManager.java:397-418 | the target is the neighbour against the velocity, clamped into [0, n-1], and the animation ends at the target's snap offset |
| Gestures.PageFlingMovesOnePage | android-pdf-viewer/src/main/java/com/github/barteksc/pdfviewer/DragPinchManager.java:397-418 | a page fling moves at most one page, and moves exactly one away from the ends |
| TextSelection.Normalize | android-pdf-viewer/src/main/java/com/github/barteksc/pdfviewer/PDocSelection.java:85-99 | afterwards start page <= end page, with start <= end on one page; reversed endpoints collapse onto the old start page and the old end char, and ordered ones are untouched |
| TextSelection.NormalizeIdempotent | android-pdf-viewer/src/main/java/com/github/barteksc/pdfviewer/PDocSelection.java:85-99 | normalising twice equals normalising once |
| TextSelection.NormalizeCollapsesReversedPages | android-pdf-viewer/src/main/java/com/github/barteksc/pdfviewer/PDocSelection.java:85-99 | pages (3,1) with chars (5,9) become (3,3) and (9,9), not a swap |
| TextSelection.PageRanges | android-pdf-viewer/src/main/java/com/github/barteksc/pdfviewer/PDocSelection.java:103-114 | slot i of pageCount+1 runs from selStart on slot 0 (else 0) to selEnd on the last slot (else -1, "to the end") |
| TextSelection.ResetSel | android-pdf-viewer/src/main/java/com/github/barteksc/pdfviewer/PDocSelection.java:78-123 | without a selection the pool size is 0; with a stale text handle nothing changes; otherwise the selection is normalised, one range per page is requested, the pool size is pageCount+1, and the pool only grows |
| TextSelection.ResetSelStable | android-pdf-viewer/src/main/java/com/github/barteksc/pdfviewer/PDocSelection.java:78-123 | resetting a reset selection requests the same ranges and changes nothing |
| TextSelection.Direction | android-pdf-viewer/src/main/java/com/github/barteksc/pdfviewer/PDocSelection.java:132-135 | the sign of the page difference, or of the char difference on one page |
| TextSelection.WalkLineBreaks | android-pdf-viewer/src/main/java/com/github/barteksc/pdfviewer/PDocSelection.java:139-144 | the walk stays in range, passes only '\r'/'\n', and stops off a line break or where the next step would leave the text |
| TextSelection.WalkLineBreaksIdempotent | android-pdf-viewer/src/main/java/com/github/barteksc/pdfviewer/PDocSelection.java:139-144 | walking again from where a walk stopped does not move |
| TextSelection.RecalcHandles | android-pdf-viewer/src/main/java/com/github/barteksc/pdfviewer/PDocSelection.java:125-166 | no handle moves for a stale handle or direction 0; the start handle walks over line breaks in the selection's direction and stays in the text; the end anchor is the end of the backward walk over line breaks when the walk moves, and selEnd - 1 otherwise |
| TextSelection.EndHandleSkipsLineBreaks | android-pdf-viewer/src/main/java/com/github/barteksc/pdfviewer/PDocSelection.java:153-162 | for "ab\n\nc" and selection 0..3, the end handle walks back to index 1 |
| TextSelection.GetSelRects | android-pdf-viewer/src/main/java/com/github/barteksc/pdfviewer/DragPinchManager.java:247-289 | a stale handle leaves the pool alone; the native side is asked only for a current, open page with a non-empty span, where -1 means the text length and reversed ends are swapped; with no query the pool is emptied, otherwise it holds the native rects cut to the reported count |
| TextSelection.GetSelRectsSymmetric | android-pdf-viewer/src/main/java/com/github/barteksc/pdfviewer/DragPinchManager.java:258-262 | the endpoints may be given in either order |
| TextSelection.DragHandle | android-pdf-viewer/src/main/java/com/github/barteksc/pdfviewer/DragPinchManager.java:703-719 | a negative char index changes nothing; the start handle sets (page, char), the end handle sets (page, char+1), and the other end is untouched; a change is reported iff the pair differs |
| TextSelection.DragHandleSettles | android-pdf-viewer/src/main/java/com/github/barteksc/pdfviewer/DragPinchManager.java:703-719 | dragging to the same place again reports no change |
| TextSelection.StopTextSelection | android-pdf-viewer/src/main/java/com/github/barteksc/pdfviewer/DragPinchManager.java:651-683 | the chars become (min, max) of the pair, and the listener gets the packed (start, end) id |
| TextSelection.JumpAndHighlightArea | android-pdf-viewer/src/main/java/com/github/barteksc/pdfviewer/PDFView.java:937-946 | the id is ignored unless 0 <= start < end and a text handle exists; otherwise one page is selected with the unpacked chars |
| TextSelection.SelectionIdRoundTrip | android-pdf-viewer/src/main/java/com/github/barteksc/pdfviewer/PDFView.java:937-946 | the id a finished selection reports re-selects the same chars on the given page |
| TextSelection.GetSelection | android-pdf-viewer/src/main/java/com/github/barteksc/pdfviewer/PDFView.java:1418-1450 | empty without a selection; on one page it is `text[min .. min(max, length))` |
| TextSelection.JoinPiecesOfOneText | android-pdf-viewer/src/main/java/com/github/barteksc/pdfviewer/PDFView.java:1436-1446 | the later pages' loop, when every piece comes from one text, joins whole copies and then a prefix |
| TextSelection.GetSelectionAcrossPages | android-pdf-viewer/src/main/java/com/github/barteksc/pdfviewer/PDFView.java:1432-1448 | across pages, every piece is cut from the last page's text |
| TextSelection.GetSelectionPerPage | android-pdf-viewer/src/main/java/com/github/barteksc/pdfviewer/PDFView.java:1418-1450 | the corrected version agrees with the original on one page and without a selection |
| TextSelection.GetSelectionPerPageTwoPages | android-pdf-viewer/src/main/java/com/github/barteksc/pdfviewer/PDFView.java:1432-1448 | the corrected version joins the first page's tail with the second page's head |
| TextSelection.GetSelectionRepeatsLastPage | android-pdf-viewer/src/main/java/com/github/barteksc/pdfviewer/PDFView.java:1440-1442 | pages "ab" and "cd", selected 0..2, give "cdcd" as written and "abcd" corrected |
| SearchSession.Search | android-pdf-viewer/src/main/java/com/github/barteksc/pdfviewer/PDFView.java:511-523 | counts, records, focus and index are always reset and any old task is aborted; an empty or null query starts nothing |
| SearchSession.HasItemsIffNonEmpty | android-pdf-viewer/src/main/java/com/github/barteksc/pdfviewer/PDFView.java:553-556 | a page has an item 0 iff its record holds a non-empty list |
| SearchSession.NextPageWithItems | android-pdf-viewer/src/main/java/com/github/barteksc/pdfviewer/PDFView.java:552-564 | the first page at or after `from` with an item, or none |
| SearchSession.PrevPageWithItems | android-pdf-viewer/src/main/java/com/github/barteksc/pdfviewer/PDFView.java:653-685 | the last page at or before `from` with an item, or none |
| SearchSession.NavigateToNext | android-pdf-viewer/src/main/java/com/github/barteksc/pdfviewer/PDFView.java:539-566 | false without a focus or data; the next item on the page whenever the next index is valid; else item 0 of the nearest later page with items; else false with the state unchanged |
| SearchSession.NavigateToPrevious | android-pdf-viewer/src/main/java/com/github/barteksc/pdfviewer/PDFView.java:653-685 | false without a focus or data; the previous item on the page whenever the previous index is valid; else the last item of the nearest earlier page with items; else false with the state unchanged |
| SearchSession.PrefixGrows | android-pdf-viewer/src/main/java/com/github/barteksc/pdfviewer/PDFView.java:631-647 | the page-then-index flattening of fewer pages is a prefix of the flattening of more |
| SearchSession.PrefixSkipsEmpty | android-pdf-viewer/src/main/java/com/github/barteksc/pdfviewer/PDFView.java:631-647 | pages without items add nothing to the flattening |
| SearchSession.ItemInFlattening | android-pdf-viewer/src/main/java/com/github/barteksc/pdfviewer/PDFView.java:631-647 | item i of page p sits in the flattening right after the items of earlier pages |
| SearchSession.FindCurrentSearchedItemPosition | android-pdf-viewer/src/main/java/com/github/barteksc/pdfviewer/PDFView.java:631-647 | the position of the focused item in the flattening, its first occurrence, or -1 exactly when it is absent |
| SearchSession.NextIsNextInFlattening | android-pdf-viewer/src/main/java/com/github/barteksc/pdfviewer/PDFView.java:539-566 | a successful "next" moves the focus one place forward in the flattening |
| SearchSession.PreviousIsPreviousInFlattening | android-pdf-viewer/src/main/java/com/github/barteksc/pdfviewer/PDFView.java:653-685 | a successful "previous" moves the focus one place back in the flattening |
| SearchSession.NavigateToSearchItem | android-pdf-viewer/src/main/java/com/github/barteksc/pdfviewer/PDFView.java:581-592 | the item is looked up under the clamped page and focused iff it exists; the jump goes to the unclamped page |
| SearchSession.NavigateToSearchItemById | android-pdf-viewer/src/main/java/com/github/barteksc/pdfviewer/PDFView.java:575-579 | the record id is unpacked into the page and item to navigate to |
| SearchSession.RecordIdNavigatesToItem | android-pdf-viewer/src/main/java/com/github/barteksc/pdfviewer/PDFView.java:568-592 | a result's record id navigates to exactly that result's item |
| SearchSession.SearchEndsNavigation | android-pdf-viewer/src/main/java/com/github/barteksc/pdfviewer/PDFView.java:511-523 | after a new search, neither next nor previous navigates |
| SearchTask.NewTask | android-pdf-viewer/src/main/java/com/github/barteksc/pdfviewer/PDocSearchTask.java:24-27 | the key is the query followed by one NUL; nothing is cached or started |
| SearchTask.GetKeyStr | android-pdf-viewer/src/main/java/com/github/barteksc/pdfviewer/PDocSearchTask.java:29-34 | the native key is made only while the cache holds 0 |
| SearchTask.GetKeyStrCached | android-pdf-viewer/src/main/java/com/github/barteksc/pdfviewer/PDocSearchTask.java:29-34 | once a non-zero key is cached, later calls return it |
| SearchTask.ScanPages | android-pdf-viewer/src/main/java/com/github/barteksc/pdfviewer/PDocSearchTask.java:46-55 | pages are scanned in increasing order up to the first page where an abort is seen; only non-null records are notified, tagged with their page |
| SearchTask.ScanNotifiesEveryRecord | android-pdf-viewer/src/main/java/com/github/barteksc/pdfviewer/PDocSearchTask.java:46-55 | every page before the stop that has a record is notified |
| SearchTask.Run | android-pdf-viewer/src/main/java/com/github/barteksc/pdfviewer/PDocSearchTask.java:36-61 | nothing without the view; a finished task only ends the search; otherwise the scan stops at the first page where the task is aborted, every notification is a found record on a page before that, in page order, and then the task is finished and posted |
| SearchTask.RunNotifiesEveryRecord | android-pdf-viewer/src/main/java/com/github/barteksc/pdfviewer/PDocSearchTask.java:45-55 | a page with a record that no abort reaches is notified |
| SearchTask.RunTwiceEnds | android-pdf-viewer/src/main/java/com/github/barteksc/pdfviewer/PDocSearchTask.java:42-59 | the posted second run only calls `endSearch` |
| SearchTask.ScanWithoutAbortCoversAllPages | android-pdf-viewer/src/main/java/com/github/barteksc/pdfviewer/PDocSearchTask.java:46-55 | without an abort, every page with a record is notified |
| SearchTask.Start | android-pdf-viewer/src/main/java/com/github/barteksc/pdfviewer/PDocSearchTask.java:63-75 | a no-op once finished or with a thread; otherwise `startSearch` comes before the thread starts |
| SearchTask.StartOnce | android-pdf-viewer/src/main/java/com/github/barteksc/pdfviewer/PDocSearchTask.java:63-75 | starting twice starts one thread |
| SearchTask.Abort | android-pdf-viewer/src/main/java/com/github/barteksc/pdfviewer/PDocSearchTask.java:77-83 | after `abort`, `isAborted` holds, and the query, the cached native key, `finished` and the thread flag are unchanged |
| SearchTask.AbortStopsScan | android-pdf-viewer/src/main/java/com/github/barteksc/pdfviewer/PDocSearchTask.java:46-49 | an aborted task scans no page |
| TocHelper.MakeEntry | pdfium/src/main/jni/toc-helper.cpp:43-61 | a title of at most 2 bytes becomes "" with bufferLen 1; no destination gives page -1 and zoom -1 |
| TocHelper.FirstFrame | pdfium/src/main/jni/toc-helper.cpp:35 | the frame for a chain of siblings accounts for all of its bookmarks |
| TocHelper.StepKeepsParents | pdfium/src/main/jni/toc-helper.cpp:61 | appending the top frame's entry keeps every parent index pointing backwards at an entry one level up, and -1 exactly on level 0 |
| TocHelper.StepKeepsFrames | pdfium/src/main/jni/toc-helper.cpp:62-70 | after a step, every pending frame, including a pushed first child and next sibling, still names an emitted parent one level up, or none on level 0 |
| TocHelper.Traverse | pdfium/src/main/jni/toc-helper.cpp:37-71 | the loop emits exactly one entry per bookmark still on the stack, only appends, and keeps parents pointing backwards |
| TocHelper.StepStackKeys | pdfium/src/main/jni/toc-helper.cpp:62-70 | popping a frame and pushing its first child and next sibling loses exactly the popped bookmark |
| TocHelper.TraverseKeys | pdfium/src/main/jni/toc-helper.cpp:37-71 | the loop emits the titles and pages of exactly the bookmarks on the stack, each as often as it occurs |
| TocHelper.ExtractToc | pdfium/src/main/jni/toc-helper.cpp:25-74 | no root gives an empty list; otherwise one entry per bookmark, the root first at level 0 with parent -1, and every parent index below its own index |
| TocHelper.ExtractTocKeys | pdfium/src/main/jni/toc-helper.cpp:25-74 | the entries' titles and pages are those of the outline's bookmarks, counted with multiplicity: each bookmark is emitted once |
| TocHelper.SiblingBeforeChild | pdfium/src/main/jni/toc-helper.cpp:62-70 | for root A with child C and sibling B, the order is A, B, C, not preorder, and C still points at A |
| PdfiumCore.NewDocument | pdfium/src/main/java/com/vivlio/android/pdfium/PdfiumCore.java:290-323 | a native pointer of 0 throws IOException; otherwise a document with no open pages |
| PdfiumCore.OpenPage | pdfium/src/main/java/com/vivlio/android/pdfium/PdfiumCore.java:337-345 | an exception from `nativeLoadPage` escapes and nothing is stored; otherwise the returned pointer is stored under the page index, and every other field of the document is unchanged |
| PdfiumCore.StoreRange | pdfium/src/main/java/com/vivlio/android/pdfium/PdfiumCore.java:350-363 | the range loop only adds keys from fromIndex up to toIndex, and keeps the other entries |
| PdfiumCore.StoreRangeStores | pdfium/src/main/java/com/vivlio/android/pdfium/PdfiumCore.java:350-363 | pointer k is stored under fromIndex + k |
| PdfiumCore.OpenPageRange | pdfium/src/main/java/com/vivlio/android/pdfium/PdfiumCore.java:350-363 | an exception from `nativeLoadPages` escapes; a null array throws NullPointerException; otherwise the array is returned, each pointer is stored under `fromIndex + k` up to `toIndex`, every other open page keeps its pointer, and every field other than the page map is unchanged |
| PdfiumCore.StoreRangeStoresAll | pdfium/src/main/java/com/vivlio/android/pdfium/PdfiumCore.java:355-361 | every pointer whose index does not pass `toIndex` is stored under its page |
| PdfiumCore.OpenPageRangeWithLoader | pdfium/src/main/java/com/vivlio/android/pdfium/PdfiumCore.java:350-363 | with the native loader, the call throws iff the range is reversed (NullPointerException) or some page in it fails to load (IllegalStateException); otherwise every page of the range is stored with the pointer its load gave |
| PdfiumCore.OpenPageRangePastEnd | pdfium/src/main/jni/pdfium.cpp:424-440 | pages 0 to 5 of a three-page document raise IllegalStateException |
| PdfiumCore.PageMetric | pdfium/src/main/java/com/vivlio/android/pdfium/PdfiumCore.java:369-419 | a size getter gives 0 for a page that is not open, and the native value otherwise |
| PdfiumCore.MetricAfterOpen | pdfium/src/main/java/com/vivlio/android/pdfium/PdfiumCore.java:337-419 | after opening a page, its getters read the new pointer and other pages are unaffected |
| PdfiumCore.CloseDocumentHandles | pdfium/src/main/java/com/vivlio/android/pdfium/PdfiumCore.java:506-534 | every text handle, then every page handle, is closed before the document; afterwards both maps are empty |
| PdfiumCore.GetTextImages | pdfium/src/main/java/com/vivlio/android/pdfium/PdfiumCore.java:62-77 | texts first, then images; null arrays count as empty |
| PdfiumCore.KeepUsable | pdfium/src/main/java/com/vivlio/android/pdfium/PdfiumCore.java:590-610 | exactly the links with a rect and a target are kept, converted |
| PdfiumCore.KeepUsableAppend | pdfium/src/main/java/com/vivlio/android/pdfium/PdfiumCore.java:590-610 | the filter distributes over concatenation, so kept links stay in native order |
| PdfiumCore.KeepUsableSingle | pdfium/src/main/java/com/vivlio/android/pdfium/PdfiumCore.java:595-607 | one native link is kept, converted, exactly when it has a rect and a target |
| PdfiumCore.GetPageLinks | pdfium/src/main/java/com/vivlio/android/pdfium/PdfiumCore.java:590-610 | empty for a page that is not open; otherwise the page's native links filtered to the usable ones in native order |
| PdfiumCore.GetTextRectsCall | pdfium/src/main/java/com/vivlio/android/pdfium/PdfiumCore.java:269-277 | the line-merged native function is called iff `isSelectionLineMerged`, with the caller's range |
| PdfiumJni.ErrorDescription | pdfium/src/main/jni/pdfium.cpp:108-134 | each of the six known FPDF codes gets its own fixed message, and any other code gives "Unknown error." |
| PdfiumJni.ErrorDescriptionsDistinct | pdfium/src/main/jni/pdfium.cpp:108-134 | different known codes have different messages, none of them "Unknown error." |
| PdfiumJni.InitLibraryIfNeed | pdfium/src/main/jni/pdfium.cpp:35-42 | the count goes up by one, and the library is initialised only on 0 to 1 |
| PdfiumJni.DestroyLibraryIfNeed | pdfium/src/main/jni/pdfium.cpp:44-51 | the count goes down by one, and the library is destroyed only on 1 to 0 |
| PdfiumJni.RunAppend | pdfium/src/main/jni/pdfium.cpp:35-51 | running two sequences of opens and closes is running one after the other |
| PdfiumJni.OpensWhileInUse | pdfium/src/main/jni/pdfium.cpp:35-42 | while the library is in use, opening initialises nothing |
| PdfiumJni.ClosesDownTo | pdfium/src/main/jni/pdfium.cpp:44-51 | closing n times lowers the count by n, and destroys only when it reaches 0 |
| PdfiumJni.BalancedUseInitialisesOnce | pdfium/src/main/jni/pdfium.cpp:35-51 | n opens then n closes initialise once and destroy once |
| PdfiumJni.NativeLoadPage | pdfium/src/main/jni/pdfium.cpp:391-423 | a null document or page leaves IllegalStateException("cannot load page") for Java; otherwise the loaded pointer |
| PdfiumJni.NativeLoadPages | pdfium/src/main/jni/pdfium.cpp:424-440 | null when to < from; IllegalStateException iff some page of the range fails to load; otherwise to - from + 1 pointers in index order |
| Pixels.RgbTo565 | pdfium/src/main/jni/pdfium.cpp:244-246 | the result is below 2^16, and each field holds the top bits of its channel |
| Pixels.RgbBitmapTo565 | pdfium/src/main/jni/pdfium.cpp:248-261 | every pixel of every row is converted, with source and destination advancing by their own strides; no other slot changes |
| Pixels.PackArgb | pdfium/src/main/jni/pdfium.cpp:1322-1352 | `a<<24 \| r<<16 \| g<<8 \| b` is a 32-bit value whose four bytes are the channels |
| Pixels.GrayToArgb | pdfium/src/main/jni/pdfium.cpp:1299-1310 | gray g becomes opaque (g, g, g) |
| Pixels.BgrToArgbAsWritten | pdfium/src/main/jni/pdfium.cpp:1312-1325 | the BGR branch as written puts byte 0 in red and byte 2 in blue |
| Pixels.BgrToArgb | pdfium/src/main/jni/pdfium.cpp:1312-1325 | the corrected BGR branch reads blue, green and red from bytes 0, 1 and 2 |
| Pixels.BgrxToArgb | pdfium/src/main/jni/pdfium.cpp:1342-1355 | BGRx reads blue, green and red from bytes 0, 1 and 2 and is opaque |
| Pixels.BgraToArgb | pdfium/src/main/jni/pdfium.cpp:1327-1340 | BGRA reads blue, green, red and alpha from bytes 0 to 3 |
| Pixels.PixelToArgb | pdfium/src/main/jni/pdfium.cpp:1299-1355 | unknown formats write nothing; gray gives equal channels; BGR, BGRx and BGRA read blue, green and red from bytes 0, 1 and 2; alpha is 0xFF except for BGRA, where it is byte 3 |
| Pixels.PixelToArgbAsWritten | pdfium/src/main/jni/pdfium.cpp:1299-1355 | as written, the same per-format channels except that BGR reads red from byte 0 and blue from byte 2 |
| Pixels.DispatchDiffersOnlyOnBgr | pdfium/src/main/jni/pdfium.cpp:1312-1355 | the corrected and as-written dispatch differ exactly on BGR pixels whose first and third bytes differ |
| Pixels.BgrMatchesBgrx | pdfium/src/main/jni/pdfium.cpp:1312-1355 | corrected BGR and BGRx give the same pixel for the same colour bytes |
| Pixels.BgrAsWrittenSwapsRedAndBlue | pdfium/src/main/jni/pdfium.cpp:1318-1322 | the bytes (0, 0, 0xFF), pure red in BGR, come out blue as written and red in BGRx |
| TextEncoding.EncodeUnit | pdfium/src/main/jni/pdfium.cpp:1407-1418 | units below 0x80 take 1 byte, below 0x800 take 2, and all others take 3, with the bit layouts of section 3 of RFC 3629 |
| TextEncoding.Encode | pdfium/src/main/jni/pdfium.cpp:1405-1418 | between 1 and 3 bytes per unit |
| TextEncoding.DecodeUnitPrefix | pdfium/src/main/jni/pdfium.cpp:1407-1418 | a unit's bytes decode back to the unit ahead of whatever follows |
| TextEncoding.DecodeEncode | pdfium/src/main/jni/pdfium.cpp:1405-1418 | encoding is reversible |
| TextEncoding.NulOnlyFromNul | pdfium/src/main/jni/pdfium.cpp:1407-1427 | no NUL byte appears unless a NUL unit was encoded, so `NewStringUTF` sees the whole text |
| TextEncoding.SurrogateLeadByte | pdfium/src/main/jni/pdfium.cpp:1413-1417 | a lone surrogate is encoded on its own, as three bytes starting 0xED |
| TextEncoding.UpToNul | pdfium/src/main/jni/pdfium.cpp:1427 | the C string is the longest NUL-free prefix |
| TextEncoding.RectText | pdfium/src/main/jni/pdfium.cpp:1398-1427 | at most 3 bytes per buffer unit |
| TextEncoding.RectTextOfTerminated | pdfium/src/main/jni/pdfium.cpp:1398-1427 | for a NUL-terminated buffer, the string handed to Java is the encoding of the text, and decodes back to it |
| TextEncoding.EncodeAppend | pdfium/src/main/jni/pdfium.cpp:1407-1418 | encoding distributes over concatenation |
| TextEncoding.UpToNulStopsAt | pdfium/src/main/jni/pdfium.cpp:1427 | the C string stops at the first NUL |
| TextImages.FloatCompare | pdfium/src/main/java/com/vivlio/android/pdfium/TextImage.java:50 | -1, 0 or 1 as the first float is below, equal to or above the second |
| TextImages.CompareTo | pdfium/src/main/java/com/vivlio/android/pdfium/TextImage.java:48-63 | the result is in {-1, 0, 1}, and 0 iff all four coordinates are equal |
| TextImages.CompareIsLexicographic | pdfium/src/main/java/com/vivlio/android/pdfium/TextImage.java:48-63 | negative iff (left, top, right, bottom) comes first in lexicographic order; positive iff it comes last |
| TextImages.LexLessOfFour | pdfium/src/main/java/com/vivlio/android/pdfium/TextImage.java:48-63 | lexicographic order on four coordinates spelled out field by field |
| TextImages.CompareReflexive | pdfium/src/main/java/com/vivlio/android/pdfium/TextImage.java:48-63 | every box compares 0 to itself |
| TextImages.CompareAntisymmetric | pdfium/src/main/java/com/vivlio/android/pdfium/TextImage.java:48-63 | swapping the arguments negates the result |
| TextImages.LexLessTransitive | pdfium/src/main/java/com/vivlio/android/pdfium/TextImage.java:48-63 | lexicographic order is transitive |
| TextImages.CompareTransitive | pdfium/src/main/java/com/vivlio/android/pdfium/TextImage.java:48-63 | the order is transitive, so it is a valid `Comparable` order |
| BookmarkAdapter.ToChild | sample/src/main/java/com/pp/sample/BookmarkAdapter.java:34-37 | a child keeps the title and raw offsets, and its page is the bookmark's `long` narrowed by `(int)` |
| BookmarkAdapter.ToParent | sample/src/main/java/com/pp/sample/BookmarkAdapter.java:32-41 | a parent starts collapsed, keeps title, page and offsets, and maps its direct children in order |
| BookmarkAdapter.FromBookmarks | sample/src/main/java/com/pp/sample/BookmarkAdapter.java:31-42 | one parent row per top-level bookmark, in order |
| BookmarkAdapter.FreshListIsCollapsed | sample/src/main/java/com/pp/sample/BookmarkAdapter.java:31-49 | a fresh list has only collapsed parent rows |
| BookmarkAdapter.GetItemViewType | sample/src/main/java/com/pp/sample/BookmarkAdapter.java:45-49 | 0 for a parent row, 1 for a child row; `List.get` throws outside the list |
| BookmarkAdapter.ChildRows | sample/src/main/java/com/pp/sample/BookmarkAdapter.java:108 | the rows inserted are the parent's children, in order |
| BookmarkAdapter.SetExpanded | sample/src/main/java/com/pp/sample/BookmarkAdapter.java:99-107 | only the parent's flag changes |
| BookmarkAdapter.CollapseItems | sample/src/main/java/com/pp/sample/BookmarkAdapter.java:99-104 | clears the flag and removes exactly childCount rows after the parent; `subList` throws when they run past the end, with the flag already cleared |
| BookmarkAdapter.ExpandItems | sample/src/main/java/com/pp/sample/BookmarkAdapter.java:106-110 | sets the flag and inserts the children right after the parent; the rows before stay and the rows after shift |
| BookmarkAdapter.ToggleExpansion | sample/src/main/java/com/pp/sample/BookmarkAdapter.java:91-97 | collapses iff expanded; rows before the parent are unchanged and the flag flips |
| BookmarkAdapter.ExpandThenCollapse | sample/src/main/java/com/pp/sample/BookmarkAdapter.java:99-110 | collapsing right after expanding restores the list |
| BookmarkAdapter.ToggleTwiceRestores | sample/src/main/java/com/pp/sample/BookmarkAdapter.java:91-110 | toggling a collapsed parent twice restores the list |
| BookmarkAdapter.CollapseThenExpand | sample/src/main/java/com/pp/sample/BookmarkAdapter.java:99-110 | expanding right after collapsing restores the list when the parent's children followed it |

## Left out

- Rendering, drawing and night-mode colour matrices are Canvas and bitmap work, with nothing here to prove.
- Threads, locks and the main-thread hand-off are not modelled. The native mutex is not either. An abort raised by another thread is an input: the set of pages at which the scan sees it.
- All FPDF and JNI calls are inputs. So are the Android APIs: `Character.isWhitespace`, the sentence extractor, `PageSizeCalculator` and view sizes. A page load is an `Option` input, `None` when the page or document is null; the IllegalStateException the JNI layer then raises is modelled.
- `notifyItemAdded` and `getAllMatchOnPage` of `PDFView` are not part of this model. The scan only records what it would pass to them.
- `Constants.Pinch` and `MathUtils` are not part of this model. `MINIMUM_ZOOM` and `MAXIMUM_ZOOM` are parameters, and `MathUtils.limit(x, lo, hi)` is taken to be the usual clamp.
- Floats are reals:
  - no rounding, no NaN, no infinities, no signed zero;
  - `Float.compare` is modelled on ordinary values only;
  - the float bit packing (`packFloats`, `intBitsToFloat`, the offset bits in `extractSearchResults`) is not modelled.
- Viewport.GetPositionOffset: when the document exactly fills the view and the offset is 0, Java divides 0 by 0 and gets NaN. The model returns `None` there.
- Viewport.ZoomCenteredTo: only the new zoom and the orientation are stated. Where the offsets land is stated by `Viewport.ZoomCenteredKeepsPivot` for the unclamped case.
- `(int)` truncation of float sizes in `getSelRects` is not modelled. The rect query carries only the character range.
- TextSelection.ResetSel: the per-slot rects are not computed, because the overload used always asks for the page under the last touch. Only the ranges requested for each slot are recorded.
- SearchSession.FindCurrentSearchedItemPosition compares items by value. Java compares object identity, so two equal items on different pages would both match the first.
- SearchSession.NextIsNextInFlattening and SearchSession.PreviousIsPreviousInFlattening assume that every item lies on its record's page and that items are distinct. This stands in for Java object identity.
- TocHelper.ExtractTocKeys matches entries to bookmarks by title and page, counted with multiplicity. The level and parent of each entry are stated by `ParentsPrecede`; they are not matched to the bookmark's depth in the outline.
- The title bytes of `ExtractTOC` are taken as given: the UTF-16 buffer handling and `bufferLen` arithmetic beyond the 2-byte rule are not modelled.
- Pixels.PixelToArgb uses the corrected BGR reading. The branch as written is `Pixels.PixelToArgbAsWritten`; the difference is listed under Findings.
- TextSelection.Direction: `ed - st` is taken without Java `int` wrap-around. The two differ only for indices more than 2^31 apart, which two character indices of one page text never are.
- Viewport.MoveTo: the cross-axis size comes from the file's `isVertical`, the scroll axis from the view's `swipeVertical`. Both are set from the same configuration value when a document is loaded. The model does not check that they agree.
- Pixels.RgbBitmapTo565: the destination stride is counted in 16-bit units, which assumes an even byte stride.
- BookmarkAdapter.CollapseItems, BookmarkAdapter.ExpandItems and BookmarkAdapter.ToggleExpansion take the parent from the row at the position. The only caller passes the bound item with its adapter position. A stale position (`NO_POSITION`) is not modelled.
- Click dispatch, view holders and drawables in `BookmarkAdapter`, and `toString`, `hashCode` and `describeContents` everywhere, are not modelled.
- `Util.toByteArray` and `dpToPx` are stream I/O and display metrics. `SearchResultsCacheManager` is file I/O.
- `Callbacks` and the listener interfaces are dispatch only.
- `getTextPage` and `getLinkAtPos` in `PdfFile` only forward to native calls.

## Findings

| source | as written | input that shows it | evidently intended | confidence | as-written member | corrected member |
|---|---|---|---|---|---|---|
| pdfium/src/main/jni/pdfium.cpp:1318-1322 | the BGR branch of `nativeFindBitmaps` reads red from byte 0 and blue from byte 2 | bytes (0x00, 0x00, 0xFF), pure red in BGR order, give 0xFF0000FF (blue) | byte 0 is blue and byte 2 is red, as in the BGRx and BGRA branches, giving 0xFFFF0000 | not executed | Pixels.BgrAsWrittenSwapsRedAndBlue | Pixels.BgrMatchesBgrx |
| android-pdf-viewer/src/main/java/com/github/barteksc/pdfviewer/PDFView.java:1440-1442 | `getSelection` across pages prepares every page's text in its first loop, which leaves the last page's text loaded; the second loop then cuts every piece from that text | pages "ab" and "cd", selection from page 0 char 0 to page 1 char 2, give "cdcd" | each piece comes from its own page: "abcd" | not executed | TextSelection.GetSelectionRepeatsLastPage | TextSelection.GetSelectionPerPageTwoPages |
