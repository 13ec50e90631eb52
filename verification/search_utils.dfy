/**
 * `SearchUtils`: turning the matches on one page into results that carry the
 * sentence around each match. The default sentence finder cuts at `.`, `\n`,
 * `?` and `!` and trims whitespace; a custom extractor may replace it.
 * `Character.isWhitespace` is an input predicate.
 */
module SearchUtils {
  import opened JavaLang
  import opened SearchRecords
  import ArrayUtils

  /** The default extractor's sentence delimiters. */
  predicate IsDelimiter(c: char)
  {
    c == '.' || c == '\n' || c == '?' || c == '!'
  }

  /** The backward scan of `lastIndexOfAny`, from `i` down to 0. */
  function LastDelimiterAtOrBefore(text: string, i: int): (r: int)
    requires i < |text|
    ensures r == -1 || 0 <= r <= i
    ensures i < 0 ==> r == -1
    ensures r >= 0 ==> IsDelimiter(text[r])
    ensures forall j :: r < j <= i && j >= 0 ==> !IsDelimiter(text[j])
    decreases i + 1
  {
    if i < 0 then -1
    else if IsDelimiter(text[i]) then i
    else LastDelimiterAtOrBefore(text, i - 1)
  }

  /** The forward scan of `indexOfAny`, from `i` up to the end. */
  function FirstDelimiterAtOrAfter(text: string, i: nat): (r: int)
    ensures r == -1 || (i <= r < |text| && IsDelimiter(text[r]))
    ensures forall j :: i <= j < |text| && (r == -1 || j < r) ==> !IsDelimiter(text[j])
    decreases |text| - i
  {
    if i >= |text| then -1
    else if IsDelimiter(text[i]) then i
    else FirstDelimiterAtOrAfter(text, i + 1)
  }

  /**
   * `lastIndexOfAny(text, delimiters, fromIndex)`: the largest index at or
   * before `fromIndex` holding a delimiter, or -1. Reading `charAt(fromIndex)`
   * past the end throws.
   */
  function LastIndexOfAny(text: string, fromIndex: int): (r: Outcome<int>)
    ensures r.Throws? <==> fromIndex >= |text|
    ensures r.Ok? ==> r.value == -1 || 0 <= r.value <= fromIndex
    ensures r.Ok? && r.value >= 0 ==> IsDelimiter(text[r.value])
    ensures r.Ok? ==> forall j :: r.value < j <= fromIndex && j >= 0 ==> !IsDelimiter(text[j])
  {
    if fromIndex >= |text| then Throws(IndexOutOfBounds)
    else Ok(LastDelimiterAtOrBefore(text, fromIndex))
  }

  /**
   * `indexOfAny(text, delimiters, fromIndex)`: the smallest index at or after
   * `fromIndex` holding a delimiter, or -1. A negative `fromIndex` throws.
   */
  function IndexOfAny(text: string, fromIndex: int): (r: Outcome<int>)
    ensures r.Throws? <==> fromIndex < 0
    ensures r.Ok? ==> r.value == -1 || (fromIndex <= r.value < |text| && IsDelimiter(text[r.value]))
    ensures r.Ok? ==> forall j :: fromIndex <= j < |text| && (r.value == -1 || j < r.value) ==> !IsDelimiter(text[j])
  {
    if fromIndex < 0 then Throws(IndexOutOfBounds)
    else Ok(FirstDelimiterAtOrAfter(text, fromIndex))
  }

  /** Skips whitespace forward from `s`. */
  function TrimStart(text: string, s: nat, isWhitespace: char -> bool): (r: nat)
    ensures s <= |text| ==> s <= r <= |text|
    ensures s > |text| ==> r == s
    ensures r < |text| ==> !isWhitespace(text[r])
    ensures forall j :: s <= j < r ==> isWhitespace(text[j])
    decreases |text| - s
  {
    if s < |text| && isWhitespace(text[s]) then TrimStart(text, s + 1, isWhitespace) else s
  }

  /** Skips whitespace backward from `e`. */
  function TrimEnd(text: string, e: int, isWhitespace: char -> bool): (r: int)
    requires e <= |text|
    ensures e <= 0 ==> r == e
    ensures 0 < e ==> 0 <= r <= e
    ensures r > 0 ==> !isWhitespace(text[r - 1])
    ensures forall j :: r <= j < e ==> isWhitespace(text[j])
    decreases e
  {
    if e > 0 && isWhitespace(text[e - 1]) then TrimEnd(text, e - 1, isWhitespace) else e
  }

  /**
   * `findSentenceBounds(text, start, end)`: the sentence runs from just past
   * the last delimiter before `start` (or 0) to the first delimiter at or
   * after `end` (or the end of the text), then both ends are trimmed of
   * whitespace. It throws when `start - 1` or `end` is out of the scans' reach.
   */
  function FindSentenceBounds(text: string, start: int, end: int, isWhitespace: char -> bool)
    : (r: Outcome<(int, int)>)
    ensures r.Throws? <==> start - 1 >= |text| || end < 0
    ensures r.Ok? ==> 0 <= r.value.0 <= |text| && 0 <= r.value.1 <= |text|
    ensures r.Ok? ==> RawSentenceStart(text, start) <= r.value.0
    ensures r.Ok? && r.value.0 < |text| ==> !isWhitespace(text[r.value.0])
    ensures r.Ok? ==> forall j :: RawSentenceStart(text, start) <= j < r.value.0 ==> isWhitespace(text[j])
    ensures r.Ok? ==> r.value.1 <= RawSentenceEnd(text, end)
    ensures r.Ok? && r.value.1 > 0 ==> !isWhitespace(text[r.value.1 - 1])
    ensures r.Ok? ==> forall j :: r.value.1 <= j < RawSentenceEnd(text, end) ==> isWhitespace(text[j])
  {
    var last :- LastIndexOfAny(text, start - 1);
    var next :- IndexOfAny(text, end);
    var s := if last == -1 then 0 else last + 1;
    var e := if next == -1 then |text| else next;
    Ok((TrimStart(text, s, isWhitespace) as int, TrimEnd(text, e, isWhitespace)))
  }

  /**
   * The untrimmed sentence start: one past the last delimiter at or before
   * `start - 1`, or 0 when there is none.
   */
  function RawSentenceStart(text: string, start: int): (s: int)
    ensures 0 <= s
    ensures start - 1 < |text| ==> s <= Max(start, 0)
    ensures start - 1 < |text| ==> forall j :: s <= j <= start - 1 ==> !IsDelimiter(text[j])
    ensures start - 1 < |text| && s > 0 ==> IsDelimiter(text[s - 1])
  {
    if start - 1 >= |text| then 0
    else
      var last := LastDelimiterAtOrBefore(text, start - 1);
      if last == -1 then 0 else last + 1
  }

  /** The untrimmed sentence end: the first delimiter at or after `end`, or the text length. */
  function RawSentenceEnd(text: string, end: int): (e: int)
    ensures end >= 0 ==> e <= |text|
    ensures 0 <= end <= |text| ==> end <= e
    ensures end >= 0 ==> forall j :: end <= j < e ==> !IsDelimiter(text[j])
    ensures 0 <= end && 0 <= e < |text| ==> IsDelimiter(text[e])
  {
    if end < 0 then |text|
    else
      var next := FirstDelimiterAtOrAfter(text, end);
      if next == -1 then |text| else next
  }

  /**
   * A sentence extractor: given the page text and a match `[start, end)` it
   * returns an `int[]` (possibly `null`), or throws.
   */
  type Extractor = (string, int, int) -> Outcome<Option<seq<int>>>

  /** One extracted hit; the text-offset coordinates of the match are not kept. */
  datatype SentenceHit = SentenceHit(pageIndex: Int32, snippet: string, startIndex: int, endIndex: int)

  /** The match span of an item: `[st, st + ed)`, with Java `int` wrap-around on the sum. */
  function MatchEnd(item: SearchRecordItem): Int32
  {
    ToInt32(item.st + item.ed)
  }

  /** Items whose span is empty or outside the text are skipped. */
  predicate HasValidSpan(text: string, item: SearchRecordItem)
  {
    !(item.st < 0 || MatchEnd(item) > |text| || item.st >= MatchEnd(item))
  }

  /** What the custom extractor, or else the default one, returns for the match. */
  function ExtractorResult(text: string, start: int, end: int, extractor: Option<Extractor>,
                           isWhitespace: char -> bool): (raw: Outcome<Option<seq<int>>>)
    ensures extractor.None? ==> (raw.Ok? <==> FindSentenceBounds(text, start, end, isWhitespace).Ok?)
    ensures extractor.None? && raw.Ok? ==>
      var b := FindSentenceBounds(text, start, end, isWhitespace).value; raw.value == Some([b.0, b.1])
    ensures extractor.Some? ==> raw == extractor.value(text, start, end)
  {
    if extractor.None? then
      match FindSentenceBounds(text, start, end, isWhitespace)
      case Ok(b) => Ok(Some([b.0, b.1]))
      case Throws(x) => Throws(x)
    else extractor.value(text, start, end)
  }

  /** The extractor's answer is a present two-element array naming a non-empty range of the text. */
  predicate IsValidPair(text: string, raw: Outcome<Option<seq<int>>>)
  {
    raw.Ok? && raw.value.Some? && |raw.value.value| == 2
    && 0 <= raw.value.value[0] < raw.value.value[1] <= |text|
  }

  /**
   * Asks the custom or the default extractor for the sentence around a valid
   * match: its pair when the pair is valid, otherwise `IllegalArgumentException`
   * with the message of the failed test.
   */
  function SentenceBounds(text: string, start: int, end: int, extractor: Option<Extractor>,
                          isWhitespace: char -> bool): (r: Outcome<(int, int)>)
    ensures r.Ok? ==> 0 <= r.value.0 < r.value.1 <= |text|
    ensures r.Throws? ==> r.exception.IllegalArgument?
    ensures var raw := ExtractorResult(text, start, end, extractor, isWhitespace);
      (r.Ok? <==> IsValidPair(text, raw))
      && (r.Ok? ==> r.value == (raw.value.value[0], raw.value.value[1]))
      && (raw.Throws? ==> r == Throws(IllegalArgument("Custom sentence extractor failed")))
      && (raw.Ok? && (raw.value.None? || |raw.value.value| != 2) ==>
            r == Throws(IllegalArgument("Sentence extractor must return exactly two elements.")))
    ensures extractor.None? ==>
      var b := FindSentenceBounds(text, start, end, isWhitespace);
      (r.Ok? <==> b.Ok? && b.value.0 < b.value.1) && (r.Ok? ==> r.value == b.value)
  {
    var raw := ExtractorResult(text, start, end, extractor, isWhitespace);
    if raw.Throws? then Throws(IllegalArgument("Custom sentence extractor failed"))
    else if raw.value.None? || |raw.value.value| != 2 then
      Throws(IllegalArgument("Sentence extractor must return exactly two elements."))
    else
      var s := raw.value.value[0];
      var e := raw.value.value[1];
      if s < 0 || e > |text| || s >= e then
        Throws(IllegalArgument("Sentence extractor returned invalid bounds: ["
          + ArrayUtils.IntToString(s) + ", " + ArrayUtils.IntToString(e)
          + "] in text length " + ArrayUtils.IntToString(|text|)))
      else Ok((s, e))
  }

  /** The hit for a match `[start, end)` inside the sentence `[s, e)`. */
  function MakeHit(text: string, pageIndex: Int32, start: int, end: int, s: int, e: int): (h: SentenceHit)
    requires 0 <= s < e <= |text|
    ensures h.pageIndex == pageIndex
    ensures h.snippet == text[s..e]
    ensures h.startIndex == Max(0, start - s) && h.endIndex == Min(e - s, end - s)
    ensures 0 <= h.startIndex && h.endIndex <= |h.snippet|
  {
    var snippet := text[s..e];
    SentenceHit(pageIndex, snippet, Max(0, start - s), Min(|snippet|, end - s))
  }

  /** The highlighted part of a hit is exactly the part of the match that lies in the sentence. */
  lemma HitHighlightsMatch(text: string, pageIndex: Int32, start: int, end: int, s: int, e: int)
    requires 0 <= s < e <= |text| && 0 <= start < end <= |text|
    requires Max(start, s) <= Min(end, e)
    ensures var h := MakeHit(text, pageIndex, start, end, s, e);
      h.startIndex <= h.endIndex
      && h.snippet[h.startIndex..h.endIndex] == text[Max(start, s)..Min(end, e)]
  {
    var h := MakeHit(text, pageIndex, start, end, s, e);
    var lo, hi := Max(start, s), Min(end, e);
    assert h.startIndex == lo - s && h.endIndex == hi - s;
    assert h.snippet == text[s..e];
    assert s <= lo <= hi <= e;
    assert |text[s..e][lo - s..hi - s]| == |text[lo..hi]|;
    forall k | 0 <= k < hi - lo
      ensures text[s..e][lo - s..hi - s][k] == text[lo..hi][k]
    {
      assert text[s..e][lo - s..hi - s][k] == text[s..e][lo - s + k] == text[lo + k];
    }
  }

  /** The result for one item: `None` when its span is skipped. */
  function ExtractOne(text: string, item: SearchRecordItem, extractor: Option<Extractor>,
                      isWhitespace: char -> bool): (r: Outcome<Option<SentenceHit>>)
    ensures r.Ok? && r.value.None? <==> !HasValidSpan(text, item)
    ensures r.Ok? && r.value.Some? ==> r.value.value.pageIndex == item.pageIndex
    ensures r.Throws? ==> r.exception.IllegalArgument?
    ensures r.Throws? <==>
      HasValidSpan(text, item) && SentenceBounds(text, item.st, MatchEnd(item), extractor, isWhitespace).Throws?
    ensures r.Ok? && r.value.Some? ==>
      var b := SentenceBounds(text, item.st, MatchEnd(item), extractor, isWhitespace).value;
      r.value.value == MakeHit(text, item.pageIndex, item.st, MatchEnd(item), b.0, b.1)
  {
    if !HasValidSpan(text, item) then Ok(None)
    else
      var end := MatchEnd(item);
      var b :- SentenceBounds(text, item.st, end, extractor, isWhitespace);
      Ok(Some(MakeHit(text, item.pageIndex, item.st, end, b.0, b.1)))
  }

  /** The results for `items` in order; the first failing extraction aborts the whole call. */
  function ExtractAll(text: string, items: seq<SearchRecordItem>, extractor: Option<Extractor>,
                      isWhitespace: char -> bool): (r: Outcome<seq<SentenceHit>>)
    ensures r.Ok? ==> |r.value| == |Kept(text, items)|
    ensures r.Ok? ==> forall k :: 0 <= k < |r.value| ==>
      ExtractOne(text, Kept(text, items)[k], extractor, isWhitespace) == Ok(Some(r.value[k]))
    ensures r.Ok? ==> forall k :: 0 <= k < |r.value| ==> r.value[k].pageIndex == Kept(text, items)[k].pageIndex
    ensures r.Throws? ==> r.exception.IllegalArgument?
    decreases |items|
  {
    if |items| == 0 then Ok([])
    else
      var one :- ExtractOne(text, items[0], extractor, isWhitespace);
      var hits :- ExtractAll(text, items[1..], extractor, isWhitespace);
      var rest := Kept(text, items[1..]);
      if one.None? then
        assert Kept(text, items) == rest;
        Ok(hits)
      else
        var kept := Kept(text, items);
        assert kept == [items[0]] + rest;
        var r := [one.value] + hits;
        assert forall k :: 0 < k < |r| ==> r[k] == hits[k - 1] && kept[k] == rest[k - 1];
        Ok(r)
  }

  /** The extraction fails exactly when some item's extraction fails. */
  lemma {:induction false} ExtractAllThrows(text: string, items: seq<SearchRecordItem>,
                                            extractor: Option<Extractor>, isWhitespace: char -> bool)
    ensures ExtractAll(text, items, extractor, isWhitespace).Throws? <==>
      exists k :: 0 <= k < |items| && ExtractOne(text, items[k], extractor, isWhitespace).Throws?
    decreases |items|
  {
    if |items| > 0 {
      ExtractAllThrows(text, items[1..], extractor, isWhitespace);
      if ExtractOne(text, items[0], extractor, isWhitespace).Ok? {
        forall k | 0 < k < |items|
          ensures items[k] == items[1..][k - 1]
        {
        }
        if exists k :: 0 <= k < |items| && ExtractOne(text, items[k], extractor, isWhitespace).Throws? {
          var k :| 0 <= k < |items| && ExtractOne(text, items[k], extractor, isWhitespace).Throws?;
          assert ExtractOne(text, items[1..][k - 1], extractor, isWhitespace).Throws?;
        }
      }
    }
  }

  /** The items that survive the span check, in input order. */
  function Kept(text: string, items: seq<SearchRecordItem>): (r: seq<SearchRecordItem>)
    ensures |r| <= |items|
    ensures forall x :: x in r ==> x in items && HasValidSpan(text, x)
    ensures forall x :: x in items && HasValidSpan(text, x) ==> x in r
  {
    if |items| == 0 then []
    else if HasValidSpan(text, items[0]) then [items[0]] + Kept(text, items[1..])
    else Kept(text, items[1..])
  }

  /** Filtering distributes over concatenation, so the survivors keep their input order. */
  lemma {:induction false} KeptAppend(text: string, a: seq<SearchRecordItem>, b: seq<SearchRecordItem>)
    ensures Kept(text, a + b) == Kept(text, a) + Kept(text, b)
    decreases |a|
  {
    if |a| > 0 {
      assert (a + b)[1..] == a[1..] + b;
      KeptAppend(text, a[1..], b);
    } else {
      assert a + b == b;
    }
  }

  /** One item survives exactly when its span is valid. */
  lemma KeptSingle(text: string, x: SearchRecordItem)
    ensures Kept(text, [x]) == (if HasValidSpan(text, x) then [x] else [])
  {
    assert [x][1..] == [];
  }

  /**
   * `extractSearchResults(textPtr, pageText, searchItems, sentenceExtractor)`:
   * `null` text or items throw `IllegalArgumentException`; otherwise one
   * result per item with a valid span, in input order.
   */
  function ExtractSearchResults(pageText: Option<string>, searchItems: Option<seq<SearchRecordItem>>,
                                extractor: Option<Extractor>, isWhitespace: char -> bool)
    : (r: Outcome<seq<SentenceHit>>)
    ensures pageText.None? ==> r == Throws(IllegalArgument("Page text must not be null."))
    ensures pageText.Some? && searchItems.None? ==>
      r == Throws(IllegalArgument("Search items must not be null."))
    ensures r.Throws? ==> r.exception.IllegalArgument?
    ensures r.Ok? ==> |r.value| == |Kept(pageText.value, searchItems.value)|
    ensures r.Ok? ==> forall k :: 0 <= k < |r.value| ==>
      r.value[k].pageIndex == Kept(pageText.value, searchItems.value)[k].pageIndex
    ensures r.Ok? ==> forall k :: 0 <= k < |r.value| ==>
      ExtractOne(pageText.value, Kept(pageText.value, searchItems.value)[k], extractor, isWhitespace)
        == Ok(Some(r.value[k]))
    ensures pageText.Some? && searchItems.Some? ==>
      (r.Throws? <==>
         (exists k :: 0 <= k < |searchItems.value|
           && ExtractOne(pageText.value, searchItems.value[k], extractor, isWhitespace).Throws?))
  {
    if pageText.None? then Throws(IllegalArgument("Page text must not be null."))
    else if searchItems.None? then Throws(IllegalArgument("Search items must not be null."))
    else
      ExtractAllThrows(pageText.value, searchItems.value, extractor, isWhitespace);
      ExtractAll(pageText.value, searchItems.value, extractor, isWhitespace)
  }

  /**
   * With the default extractor, a valid match that neither starts nor ends
   * on whitespace lies inside its sentence, so no exception is raised for it
   * and the highlight covers the whole match.
   */
  lemma DefaultSentenceContainsMatch(text: string, start: int, end: int, isWhitespace: char -> bool)
    requires 0 <= start < end <= |text|
    requires !isWhitespace(text[start]) && !isWhitespace(text[end - 1])
    ensures var r := SentenceBounds(text, start, end, None, isWhitespace);
      r.Ok? && r.value.0 <= start && end <= r.value.1
  {
    var b := FindSentenceBounds(text, start, end, isWhitespace);
    assert b.Ok?;
    var s0 := RawSentenceStart(text, start);
    var e0 := RawSentenceEnd(text, end);
    assert s0 <= start && end <= e0;
    if b.value.0 > start {
      assert false;
    }
    if b.value.1 < end {
      assert false;
    }
  }
}
