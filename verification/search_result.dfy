/**
 * `SentencedSearchResult`: one search hit with its sentence of context, a
 * 64-bit record id made of page and item index, its `Parcelable` form, value
 * equality, and the lazily built highlighted text.
 */
module SentencedSearchResult {
  import opened JavaLang
  import Util
  import opened Parcel

  /** The five persistent fields; the cached span is kept apart (it is `transient`). */
  datatype SearchResult = SearchResult(
    pageIndex: Int32,
    searchItemIndex: Int32,
    text: Option<string>,
    startIndex: Int32,
    endIndex: Int32)

  /** `getRecordId`: page index in the high word, item index in the low word. */
  function RecordId(r: SearchResult): (id: Int64)
    ensures UnpackPageIndex(id) == r.pageIndex
    ensures UnpackSearchItemIndex(id) == r.searchItemIndex
  {
    Util.UnpackHighOfPack(r.pageIndex, r.searchItemIndex);
    Util.UnpackLowOfPack(r.pageIndex, r.searchItemIndex);
    Util.PackIntegers(r.pageIndex, r.searchItemIndex)
  }

  /** `unpackPageIndex`: the same unsigned shift and cast as `Util.unpackHigh`. */
  function UnpackPageIndex(recordId: Int64): (page: Int32)
  {
    Util.UnpackHigh(recordId)
  }

  /** `unpackSearchItemIndex`: the low word, as `Util.unpackLow`. */
  function UnpackSearchItemIndex(recordId: Int64): (item: Int32)
  {
    Util.UnpackLow(recordId)
  }

  /** Distinct (page, item) pairs get distinct record ids. */
  lemma RecordIdInjective(a: SearchResult, b: SearchResult)
    requires RecordId(a) == RecordId(b)
    ensures a.pageIndex == b.pageIndex && a.searchItemIndex == b.searchItemIndex
  {
  }

  /** `writeToParcel`: the five fields in declaration order. */
  function WriteToParcel(r: SearchResult): (p: Parcel)
    ensures |p| == 5
  {
    [PInt(r.pageIndex), PInt(r.searchItemIndex), PString(r.text), PInt(r.startIndex), PInt(r.endIndex)]
  }

  /** The `Parcel` constructor: reads the fields back in the same order. */
  function ReadFromParcel(p: Parcel, pos: nat): (r: Option<(SearchResult, nat)>)
    ensures r.Some? ==> r.value.1 == pos + 5
  {
    var page :- ReadInt(p, pos);
    var item :- ReadInt(p, page.1);
    var text :- ReadString(p, item.1);
    var start :- ReadInt(p, text.1);
    var end :- ReadInt(p, start.1);
    Some((SearchResult(page.0, item.0, text.0, start.0, end.0), end.1))
  }

  /** Writing and reading back, wherever the record sits in the parcel, yields an equal record. */
  lemma ParcelRoundTrip(r: SearchResult, before: Parcel, after: Parcel)
    ensures ReadFromParcel(before + WriteToParcel(r) + after, |before|) == Some((r, |before| + 5))
  {
    var p := before + WriteToParcel(r) + after;
    assert p[|before|..|before| + 5] == WriteToParcel(r);
  }

  /** `equals`: the four `int` fields and the text (null-safe) all agree. */
  predicate Equals(a: SearchResult, b: SearchResult)
  {
    a.pageIndex == b.pageIndex && a.searchItemIndex == b.searchItemIndex
    && a.startIndex == b.startIndex && a.endIndex == b.endIndex && a.text == b.text
  }

  /** `equals` is exactly equality of the five fields. */
  lemma EqualsIffSameFields(a: SearchResult, b: SearchResult)
    ensures Equals(a, b) <==> a == b
  {
  }

  /** Deprecated `getxOffset`: always 0. */
  function XOffset(r: SearchResult): (x: real)
    ensures x == 0.0
  {
    0.0
  }

  /** Deprecated `getyOffset`: always 0. */
  function YOffset(r: SearchResult): (y: real)
    ensures y == 0.0
  {
    0.0
  }

  /** A span over `text` with an optional background-colour highlight `[start, end)`. */
  datatype Spannable = Spannable(text: string, highlight: Option<Highlight>)

  datatype Highlight = Highlight(start: int, end: int, color: Int32)

  /**
   * `getSpannedText(color)`: returns the cached span when there is one;
   * otherwise builds it, highlighting `[startIndex, endIndex)` only when that
   * range is non-empty and inside the text, and caches it. A `null` text
   * throws. The result pairs the returned span with the new cache.
   */
  function GetSpannedText(r: SearchResult, cache: Option<Spannable>, color: Int32)
    : (res: Outcome<(Spannable, Option<Spannable>)>)
    ensures cache.Some? ==> res == Ok((cache.value, cache))
    ensures cache.None? && r.text.None? ==> res.Throws?
    ensures res.Ok? ==> res.value.1 == Some(res.value.0)
    ensures cache.None? && res.Ok? ==> res.value.0.text == r.text.value
    ensures cache.None? && res.Ok? ==>
      (res.value.0.highlight.Some? <==> 0 <= r.startIndex < r.endIndex <= |r.text.value|)
    ensures cache.None? && res.Ok? && res.value.0.highlight.Some? ==>
      res.value.0.highlight.value == Highlight(r.startIndex, r.endIndex, color)
  {
    if cache.Some? then Ok((cache.value, cache))
    else if r.text.None? then Throws(NullPointer)
    else
      var t := r.text.value;
      var h := if r.startIndex >= 0 && r.endIndex <= |t| && r.startIndex < r.endIndex
        then Some(Highlight(r.startIndex, r.endIndex, color)) else None;
      var s := Spannable(t, h);
      Ok((s, Some(s)))
  }

  /** A second call returns the first call's span, whatever colour it asks for. */
  lemma SpannedTextCached(r: SearchResult, cache: Option<Spannable>, c1: Int32, c2: Int32)
    requires GetSpannedText(r, cache, c1).Ok?
    ensures var first := GetSpannedText(r, cache, c1).value;
      GetSpannedText(r, first.1, c2) == Ok((first.0, first.1))
  {
  }
}
