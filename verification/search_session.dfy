/**
 * The search session of `PDFView`: starting a search, the focused match
 * and its index, moving the focus to the next or previous match, jumping
 * to a match by page and index, and finding the focused match's position
 * among all matches. Matches are compared by value; `PDFView` compares
 * the item objects, which agrees when no two stored items are equal.
 */
module SearchSession {
  import opened JavaLang
  import opened SearchRecords
  import ArrayUtils
  import PdfFile
  import SentencedSearchResult

  /**
   * The search fields of `PDFView`: `searchRecords` by page,
   * `currentFocusedSearchItem`, `index`, `searchMatchedCount`, the running
   * task's query, and the searching flag.
   */
  datatype Session = Session(
    records: map<int, SearchRecord>,
    focused: Option<SearchRecordItem>,
    index: int,
    matchedCount: int,
    task: Option<string>,
    searching: bool)

  /**
   * `search(text)`: every search forgets the previous results, focus and
   * index and aborts the running task (the second component says whether
   * there was one); a null or empty query starts no new task.
   */
  function Search(s: Session, text: Option<string>): (r: (Session, bool))
    ensures r.0.records == map[] && r.0.focused.None? && r.0.index == -1 && r.0.matchedCount == 0
    ensures r.1 <==> s.task.Some?
    ensures text.None? || text == Some("") ==> r.0.task.None? && r.0.searching == s.searching
    ensures text.Some? && text != Some("") ==> r.0.task == text && r.0.searching
  {
    var cleared := s.(records := map[], focused := None, index := -1, matchedCount := 0, task := None);
    var aborted := s.task.Some?;
    if text.None? || |text.value| == 0 then (cleared, aborted)
    else (cleared.(task := text, searching := true), aborted)
  }

  /** The items stored for a page; a missing record or an unexpanded one has none. */
  function DataAt(records: map<int, SearchRecord>, page: int): seq<SearchRecordItem>
  {
    if page in records && records[page].data.Some? then records[page].data.value else []
  }

  /** A page whose record holds at least one item (`getElementSafe(record.data, 0) != null`). */
  predicate HasItems(records: map<int, SearchRecord>, page: int)
  {
    page in records && ArrayUtils.GetElementSafe(records[page].data, 0).Some?
  }

  lemma HasItemsIffNonEmpty(records: map<int, SearchRecord>, page: int)
    ensures HasItems(records, page) <==> |DataAt(records, page)| > 0
  {
  }

  /** The first page in `[from, pageCount)` with items, scanning upwards. */
  function NextPageWithItems(records: map<int, SearchRecord>, from: int, pageCount: int): (r: Option<int>)
    ensures r.Some? ==> from <= r.value < pageCount && HasItems(records, r.value)
    ensures r.Some? ==> forall q :: from <= q < r.value ==> !HasItems(records, q)
    ensures r.None? ==> forall q :: from <= q < pageCount ==> !HasItems(records, q)
    decreases pageCount - from
  {
    if from >= pageCount then None
    else if HasItems(records, from) then Some(from)
    else NextPageWithItems(records, from + 1, pageCount)
  }

  /** The last page in `[0, from]` with items, scanning downwards. */
  function PrevPageWithItems(records: map<int, SearchRecord>, from: int): (r: Option<int>)
    ensures r.Some? ==> 0 <= r.value <= from && HasItems(records, r.value)
    ensures r.Some? ==> forall q :: r.value < q <= from ==> !HasItems(records, q)
    ensures r.None? ==> forall q :: 0 <= q <= from ==> !HasItems(records, q)
    decreases from + 1
  {
    if from < 0 then None
    else if HasItems(records, from) then Some(from)
    else PrevPageWithItems(records, from - 1)
  }

  /**
   * `navigateToNextSearchItem`: the following item on the focused page, or
   * else item 0 of the nearest later page that has one. The second
   * component is the page jumped to; `None` means `false` was returned and
   * nothing changed.
   */
  function NavigateToNext(s: Session, pageCount: int): (r: (Session, Option<int>))
    ensures s.focused.None? || s.index == -1 ==> r == (s, None)
    ensures s.focused.Some? && s.index != -1 && !(s.focused.value.pageIndex in s.records && s.records[s.focused.value.pageIndex].data.Some?)
      ==> r == (s, None)
    ensures r.1.None? ==> r.0 == s
    ensures (s.focused.Some? && s.index != -1 && s.focused.value.pageIndex in s.records
      && s.records[s.focused.value.pageIndex].data.Some?
      && ArrayUtils.IsValidIndex(s.records[s.focused.value.pageIndex].data, s.index + 1)) ==>
      var data := s.records[s.focused.value.pageIndex].data.value;
      r == (s.(focused := Some(data[s.index + 1]), index := s.index + 1), Some(s.focused.value.pageIndex as int))
    ensures r.1.Some? ==>
      var page := s.focused.value.pageIndex as int;
      var data := DataAt(s.records, page);
      (ArrayUtils.IsValidIndex(Some(data), s.index + 1) ==>
         r == (s.(focused := Some(data[s.index + 1]), index := s.index + 1), Some(page)))
      && (!ArrayUtils.IsValidIndex(Some(data), s.index + 1) ==>
         page < r.1.value < pageCount && |DataAt(s.records, r.1.value)| > 0
         && r.0 == s.(focused := Some(DataAt(s.records, r.1.value)[0]), index := 0)
         && forall q :: page < q < r.1.value ==> !HasItems(s.records, q))
    ensures (s.focused.Some? && s.index != -1 && s.focused.value.pageIndex in s.records
      && s.records[s.focused.value.pageIndex].data.Some?
      && !ArrayUtils.IsValidIndex(s.records[s.focused.value.pageIndex].data, s.index + 1)) ==>
      (r.1.None? <==> forall q :: s.focused.value.pageIndex < q < pageCount ==> !HasItems(s.records, q))
  {
    if s.focused.None? || s.index == -1 then (s, None)
    else
      var page := s.focused.value.pageIndex as int;
      if page !in s.records || s.records[page].data.None? then (s, None)
      else
        var data := s.records[page].data;
        var nextIndex := s.index + 1;
        if ArrayUtils.IsValidIndex(data, nextIndex) then
          (s.(focused := Some(data.value[nextIndex]), index := nextIndex), Some(page))
        else
          match NextPageWithItems(s.records, page + 1, pageCount)
          case None => (s, None)
          case Some(i) =>
            var item := ArrayUtils.GetElementSafe(s.records[i].data, 0);
            (s.(focused := Some(item.value), index := 0), Some(i))
  }

  /**
   * `navigateToPreviousSearchItem`: the preceding item on the focused
   * page, or else the last item of the nearest earlier page that has one.
   */
  function NavigateToPrevious(s: Session): (r: (Session, Option<int>))
    ensures s.focused.None? || s.index == -1 ==> r == (s, None)
    ensures s.focused.Some? && s.index != -1 && !(s.focused.value.pageIndex in s.records && s.records[s.focused.value.pageIndex].data.Some?)
      ==> r == (s, None)
    ensures r.1.None? ==> r.0 == s
    ensures (s.focused.Some? && s.index != -1 && s.focused.value.pageIndex in s.records
      && s.records[s.focused.value.pageIndex].data.Some?
      && ArrayUtils.IsValidIndex(s.records[s.focused.value.pageIndex].data, s.index - 1)) ==>
      var data := s.records[s.focused.value.pageIndex].data.value;
      r == (s.(focused := Some(data[s.index - 1]), index := s.index - 1), Some(s.focused.value.pageIndex as int))
    ensures r.1.Some? ==>
      var page := s.focused.value.pageIndex as int;
      var data := DataAt(s.records, page);
      (ArrayUtils.IsValidIndex(Some(data), s.index - 1) ==>
         r == (s.(focused := Some(data[s.index - 1]), index := s.index - 1), Some(page)))
      && (!ArrayUtils.IsValidIndex(Some(data), s.index - 1) ==>
         0 <= r.1.value < page
         && var last := DataAt(s.records, r.1.value);
         |last| > 0 && r.0 == s.(focused := Some(last[|last| - 1]), index := |last| - 1)
         && forall q :: r.1.value < q < page ==> !HasItems(s.records, q))
    ensures (s.focused.Some? && s.index != -1 && s.focused.value.pageIndex in s.records
      && s.records[s.focused.value.pageIndex].data.Some?
      && !ArrayUtils.IsValidIndex(s.records[s.focused.value.pageIndex].data, s.index - 1)) ==>
      (r.1.None? <==> forall q :: 0 <= q < s.focused.value.pageIndex ==> !HasItems(s.records, q))
  {
    if s.focused.None? || s.index == -1 then (s, None)
    else
      var page := s.focused.value.pageIndex as int;
      if page !in s.records || s.records[page].data.None? then (s, None)
      else
        var data := s.records[page].data;
        var prevIndex := s.index - 1;
        if ArrayUtils.IsValidIndex(data, prevIndex) then
          (s.(focused := Some(data.value[prevIndex]), index := prevIndex), Some(page))
        else
          match PrevPageWithItems(s.records, page - 1)
          case None => (s, None)
          case Some(i) =>
            var lastIndex := |s.records[i].data.value| - 1;
            var item := ArrayUtils.GetElementSafe(s.records[i].data, lastIndex);
            (s.(focused := Some(item.value), index := lastIndex), Some(i))
  }

  /** All stored items, page by page for pages `0..n-1`, each page's items in order. */
  function Prefix(records: map<int, SearchRecord>, n: nat): seq<SearchRecordItem>
  {
    if n == 0 then [] else Prefix(records, n - 1) + DataAt(records, n - 1)
  }

  /** The flattening `findCurrentSearchedItemPosition` walks: pages `0..pageCount-1`. */
  function Flatten(records: map<int, SearchRecord>, pageCount: int): seq<SearchRecordItem>
  {
    Prefix(records, if pageCount > 0 then pageCount else 0)
  }

  /** A shorter prefix is a prefix of a longer one. */
  lemma {:induction false} PrefixGrows(records: map<int, SearchRecord>, a: nat, b: nat)
    requires a <= b
    ensures |Prefix(records, a)| <= |Prefix(records, b)|
    ensures Prefix(records, b)[..|Prefix(records, a)|] == Prefix(records, a)
    decreases b - a
  {
    if a < b {
      PrefixGrows(records, a, b - 1);
      var p := Prefix(records, b - 1);
      assert Prefix(records, b) == p + DataAt(records, b - 1);
      assert (p + DataAt(records, b - 1))[..|p|] == p;
      assert p[..|Prefix(records, a)|] == Prefix(records, a);
    }
  }

  /** Pages without items add nothing to the flattening. */
  lemma {:induction false} PrefixSkipsEmpty(records: map<int, SearchRecord>, a: nat, b: nat)
    requires a <= b
    requires forall q :: a <= q < b ==> !HasItems(records, q)
    ensures Prefix(records, b) == Prefix(records, a)
    decreases b - a
  {
    if a < b {
      PrefixSkipsEmpty(records, a, b - 1);
      HasItemsIffNonEmpty(records, b - 1);
      assert Prefix(records, b) == Prefix(records, b - 1) + [];
    }
  }

  /** Item `i` of page `p` sits at `|Prefix(p)| + i` in the flattening. */
  lemma ItemInFlattening(records: map<int, SearchRecord>, pageCount: int, p: nat, i: nat)
    requires p < pageCount && i < |DataAt(records, p)|
    ensures |Prefix(records, p)| + i < |Flatten(records, pageCount)|
    ensures Flatten(records, pageCount)[|Prefix(records, p)| + i] == DataAt(records, p)[i]
  {
    PrefixGrows(records, p + 1, pageCount);
    assert Prefix(records, p + 1) == Prefix(records, p) + DataAt(records, p);
  }

  /**
   * `findCurrentSearchedItemPosition`: the 0-based position of the focused
   * item among the items of all pages, page by page, or -1 when there is
   * no focus or it is not stored.
   */
  method FindCurrentSearchedItemPosition(s: Session, pageCount: int) returns (pos: int)
    ensures s.focused.None? ==> pos == -1
    ensures s.focused.Some? ==> (pos == -1 <==> s.focused.value !in Flatten(s.records, pageCount))
    ensures pos != -1 ==> 0 <= pos < |Flatten(s.records, pageCount)| && Flatten(s.records, pageCount)[pos] == s.focused.value
    ensures pos != -1 ==> forall k :: 0 <= k < pos ==> Flatten(s.records, pageCount)[k] != s.focused.value
  {
    if s.focused.None? {
      return -1;
    }
    var target := s.focused.value;
    var bound := if pageCount > 0 then pageCount else 0;
    pos := -1;
    var page := 0;
    while page < pageCount
      invariant 0 <= page <= bound
      invariant pos == |Prefix(s.records, page)| - 1
      invariant target !in Prefix(s.records, page)
    {
      var data := DataAt(s.records, page);
      var i := 0;
      while i < |data|
        invariant 0 <= i <= |data|
        invariant pos == |Prefix(s.records, page)| + i - 1
        invariant target !in data[..i]
      {
        pos := pos + 1;
        if data[i] == target {
          ItemInFlattening(s.records, pageCount, page, i);
          PrefixGrows(s.records, page, bound);
          forall k | 0 <= k < pos
            ensures Flatten(s.records, pageCount)[k] != target
          {
            if k < |Prefix(s.records, page)| {
              assert Flatten(s.records, pageCount)[k] == Prefix(s.records, page)[k];
            } else {
              ItemInFlattening(s.records, pageCount, page, k - |Prefix(s.records, page)|);
              assert data[k - |Prefix(s.records, page)|] in data[..i];
            }
          }
          return pos;
        }
        assert data[..i + 1] == data[..i] + [data[i]];
        i := i + 1;
      }
      assert data[..i] == data;
      assert Prefix(s.records, page + 1) == Prefix(s.records, page) + data;
      page := page + 1;
    }
    return -1;
  }

  /**
   * The focus is consistent: the focused item is item `index` of its own
   * page, which is one of the document's pages.
   */
  predicate FocusConsistent(s: Session, pageCount: int)
  {
    s.focused.Some?
    && var page := s.focused.value.pageIndex as int;
    0 <= page < pageCount && 0 <= s.index < |DataAt(s.records, page)| && DataAt(s.records, page)[s.index] == s.focused.value
  }

  /** Every stored item carries the page it is stored under. */
  ghost predicate RecordsConsistent(records: map<int, SearchRecord>)
  {
    forall q, k :: 0 <= k < |DataAt(records, q)| ==> DataAt(records, q)[k].pageIndex as int == q
  }

  /** The focus's place in the flattening. */
  function FocusPosition(s: Session): int
    requires s.focused.Some? && s.focused.value.pageIndex >= 0
  {
    |Prefix(s.records, s.focused.value.pageIndex as int)| + s.index
  }

  /**
   * Moving to the next match moves the focus to the very next entry of
   * the flattening, and keeps the focus consistent.
   */
  lemma NextIsNextInFlattening(s: Session, pageCount: int)
    requires FocusConsistent(s, pageCount) && RecordsConsistent(s.records)
    requires NavigateToNext(s, pageCount).1.Some?
    ensures var t := NavigateToNext(s, pageCount).0;
      FocusConsistent(t, pageCount) && t.focused.value.pageIndex >= 0 && FocusPosition(t) == FocusPosition(s) + 1
  {
    var page := s.focused.value.pageIndex as int;
    var r := NavigateToNext(s, pageCount);
    var data := DataAt(s.records, page);
    if !ArrayUtils.IsValidIndex(Some(data), s.index + 1) {
      var next := r.1.value;
      assert s.index == |data| - 1;
      HasItemsIffNonEmpty(s.records, next);
      PrefixSkipsEmpty(s.records, page + 1, next);
      assert Prefix(s.records, page + 1) == Prefix(s.records, page) + data;
      assert r.0.focused.value == DataAt(s.records, next)[0];
    }
  }

  /**
   * Moving to the previous match moves the focus to the entry just before
   * it in the flattening, and keeps the focus consistent.
   */
  lemma PreviousIsPreviousInFlattening(s: Session, pageCount: int)
    requires FocusConsistent(s, pageCount) && RecordsConsistent(s.records)
    requires NavigateToPrevious(s).1.Some?
    ensures var t := NavigateToPrevious(s).0;
      FocusConsistent(t, pageCount) && t.focused.value.pageIndex >= 0 && FocusPosition(t) + 1 == FocusPosition(s)
  {
    var page := s.focused.value.pageIndex as int;
    var r := NavigateToPrevious(s);
    var data := DataAt(s.records, page);
    if !ArrayUtils.IsValidIndex(Some(data), s.index - 1) {
      var prev := r.1.value;
      assert s.index == 0;
      PrefixSkipsEmpty(s.records, prev + 1, page);
      assert Prefix(s.records, prev + 1) == Prefix(s.records, prev) + DataAt(s.records, prev);
      assert r.0.focused.value == DataAt(s.records, prev)[|DataAt(s.records, prev)| - 1];
    }
  }

  /**
   * `navigateToSearchItem(pageIndex, searchItemIndex)`: the record is
   * looked up on the clamped page, the item by its index; the jump goes to
   * the page number as given, not the clamped one.
   */
  function NavigateToSearchItem(s: Session, f: PdfFile.PdfFile, pageIndex: int, searchItemIndex: int): (r: (Session, Option<int>))
    ensures var page := PdfFile.DetermineValidPageNumberFrom(f, pageIndex);
      r.1.Some? <==> page in s.records && ArrayUtils.IsValidIndex(s.records[page].data, searchItemIndex)
    ensures r.1.None? ==> r.0 == s
    ensures r.1.Some? ==>
      var page := PdfFile.DetermineValidPageNumberFrom(f, pageIndex);
      r.1.value == pageIndex
      && r.0 == s.(focused := Some(s.records[page].data.value[searchItemIndex]), index := searchItemIndex)
  {
    var page := PdfFile.DetermineValidPageNumberFrom(f, pageIndex);
    if page !in s.records || s.records[page].data.None? then (s, None)
    else
      match ArrayUtils.GetElementSafe(s.records[page].data, searchItemIndex)
      case None => (s, None)
      case Some(item) => (s.(focused := Some(item), index := searchItemIndex), Some(pageIndex))
  }

  /** `navigateToSearchItem(recordId)`: the page and item index unpacked from a result's record id. */
  function NavigateToSearchItemById(s: Session, f: PdfFile.PdfFile, recordId: Int64): (r: (Session, Option<int>))
    ensures r.1.Some? ==> r.1.value == SentencedSearchResult.UnpackPageIndex(recordId)
    ensures r.1.Some? ==> r.0.index == SentencedSearchResult.UnpackSearchItemIndex(recordId)
  {
    NavigateToSearchItem(s, f, SentencedSearchResult.UnpackPageIndex(recordId), SentencedSearchResult.UnpackSearchItemIndex(recordId))
  }

  /**
   * A search result's record id leads back to the match it was made from:
   * when its page is a valid page with that item stored, the focus moves
   * to that item.
   */
  lemma RecordIdNavigatesToItem(s: Session, f: PdfFile.PdfFile, result: SentencedSearchResult.SearchResult)
    requires 0 <= result.pageIndex < PdfFile.UserPageCount(f)
    requires result.pageIndex as int in s.records
    requires ArrayUtils.IsValidIndex(s.records[result.pageIndex as int].data, result.searchItemIndex)
    ensures var r := NavigateToSearchItemById(s, f, SentencedSearchResult.RecordId(result));
      r.1 == Some(result.pageIndex as int) && r.0.index == result.searchItemIndex
      && r.0.focused == Some(s.records[result.pageIndex as int].data.value[result.searchItemIndex])
  {
  }

  /** A new search leaves nothing to navigate: both directions return `false`. */
  lemma SearchEndsNavigation(s: Session, text: Option<string>, pageCount: int)
    ensures var t := Search(s, text).0;
      NavigateToNext(t, pageCount).1.None? && NavigateToPrevious(t).1.None?
  {
  }
}
