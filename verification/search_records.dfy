/**
 * The search data holders: `SearchRecordItem` (one match on a page) and
 * `SearchRecord` (a page's search state, whose item list is filled lazily).
 * Highlight rectangles and raw coordinates are geometry and are not kept.
 */
module SearchRecords {
  import opened JavaLang

  /** One match: its page, the start character and the match length (`ed` is a length). */
  datatype SearchRecordItem = SearchRecordItem(pageIndex: Int32, st: Int32, ed: Int32)

  /** A page with at least one match; `data` is `null` until the matches are expanded. */
  datatype SearchRecord = SearchRecord(pageIdx: Int32, findStart: Int32, data: Option<seq<SearchRecordItem>>)
}
