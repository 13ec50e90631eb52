/**
 * `ArrayUtils` and `MapUtil`: run-length de-duplication of the user's page
 * order, the matching index map, the debug rendering of an `int[]`, and the
 * null-tolerant list and map lookups.
 */
module ArrayUtils {
  import opened JavaLang
  import Util

  /** No two neighbours of `s` are equal. */
  ghost predicate NoAdjacentDuplicates(s: seq<int>)
  {
    forall k :: 0 < k < |s| ==> s[k - 1] != s[k]
  }

  /**
   * Reference definition of `deleteDuplicatedPages`: an element survives iff
   * it differs from its predecessor, where the predecessor of the first
   * element is the sentinel -1.
   */
  function Dedup(pages: seq<int>, last: int): (r: seq<int>)
    ensures |r| <= |pages|
  {
    if |pages| == 0 then []
    else if pages[0] != last then [pages[0]] + Dedup(pages[1..], pages[0])
    else Dedup(pages[1..], pages[0])
  }

  /** `deleteDuplicatedPages`: one element per run of equal neighbours. */
  method DeleteDuplicatedPages(pages: seq<int>) returns (result: seq<int>)
    ensures result == Dedup(pages, -1)
    ensures |result| <= |pages|
    ensures |pages| == 0 ==> result == []
  {
    result := [];
    var lastInt := -1;
    var i := 0;
    while i < |pages|
      invariant 0 <= i <= |pages|
      invariant lastInt == (if i == 0 then -1 else pages[i - 1])
      invariant result + Dedup(pages[i..], lastInt) == Dedup(pages, -1)
    {
      var currentInt := pages[i];
      assert pages[i..][1..] == pages[i + 1..];
      if lastInt != currentInt {
        result := result + [currentInt];
      }
      lastInt := currentInt;
      i := i + 1;
    }
    assert pages[i..] == [];
  }

  /** The surviving elements keep no duplicate neighbours, and none equals the seed. */
  lemma {:induction false} DedupNoAdjacent(pages: seq<int>, last: int)
    ensures NoAdjacentDuplicates(Dedup(pages, last))
    ensures |Dedup(pages, last)| > 0 ==> Dedup(pages, last)[0] != last
    decreases |pages|
  {
    if |pages| > 0 {
      DedupNoAdjacent(pages[1..], pages[0]);
    }
  }

  /** Every surviving element occurs in the input, and every input value survives unless it is the seed. */
  lemma {:induction false} DedupSameValues(pages: seq<int>, last: int)
    ensures forall x :: x in Dedup(pages, last) ==> x in pages
    ensures forall x :: x in pages && x != last ==> x in Dedup(pages, last)
    decreases |pages|
  {
    if |pages| > 0 {
      DedupSameValues(pages[1..], pages[0]);
      assert forall x :: x in pages ==> x == pages[0] || x in pages[1..];
    }
  }

  /** The class comment's example, and the dropped leading -1. */
  lemma DedupExamples()
    ensures Dedup([0, 1, 2, 2, 3], -1) == [0, 1, 2, 3]
    ensures Dedup([-1, -1, 5], -1) == [5]
  {
    var a := [0, 1, 2, 2, 3];
    assert a[1..] == [1, 2, 2, 3] && a[1..][1..] == [2, 2, 3] && a[1..][1..][1..] == [2, 3];
    assert [2, 3][1..] == [3] && [3][1..] == [];
    assert Dedup([3], 2) == [3];
    assert Dedup([2, 3], 2) == [3];
    assert Dedup([2, 2, 3], 1) == [2, 3];
    assert Dedup([1, 2, 2, 3], 0) == [1, 2, 3];
    var b := [-1, -1, 5];
    assert b[1..] == [-1, 5] && b[1..][1..] == [5] && [5][1..] == [];
    assert Dedup([5], -1) == [5];
    assert Dedup([-1, 5], -1) == [5];
  }

  /**
   * `calculateIndexesInDuplicateArray`: for each position, the index of its
   * run in the de-duplicated array.
   */
  method CalculateIndexesInDuplicateArray(pages: seq<int>) returns (result: seq<int>)
    ensures |result| == |pages|
    ensures |pages| > 0 ==> result[0] == 0
    ensures forall i :: 0 < i < |pages| ==>
      result[i] == result[i - 1] + (if pages[i] != pages[i - 1] then 1 else 0)
  {
    if |pages| == 0 {
      return [];
    }
    var index := 0;
    result := [index];
    var i := 1;
    while i < |pages|
      invariant 1 <= i <= |pages|
      invariant |result| == i && result[0] == 0 && result[i - 1] == index
      invariant forall k :: 0 < k < i ==>
        result[k] == result[k - 1] + (if pages[k] != pages[k - 1] then 1 else 0)
    {
      if pages[i] != pages[i - 1] {
        index := index + 1;
      }
      result := result + [index];
      i := i + 1;
    }
  }

  /** The class comment's example. */
  method IndexesExample() returns (r: seq<int>)
    ensures r == [0, 1, 1, 2, 2, 2, 3]
  {
    r := CalculateIndexesInDuplicateArray([0, 4, 4, 6, 6, 6, 3]);
    assert r[1] == 1 && r[2] == 1 && r[3] == 2 && r[4] == 2 && r[5] == 2 && r[6] == 3;
  }

  /** The value of a run of decimal digits, most significant first; 0 for the empty run. */
  function DigitsValue(s: string): (r: int)
    decreases |s|
  {
    if |s| == 0 then 0
    else DigitsValue(s[..|s| - 1]) * 10 + (s[|s| - 1] as int - '0' as int)
  }

  /** The value of an optionally signed decimal numeral. */
  function IntValue(s: string): (r: int)
  {
    if |s| > 0 && s[0] == '-' then -DigitsValue(s[1..]) else DigitsValue(s)
  }

  /** Decimal rendering of a Java `int`, as `StringBuilder.append(int)` writes it. */
  function IntToString(n: int): (r: string)
    ensures |r| > 0 && ',' !in r
    ensures n < 0 <==> r[0] == '-'
    ensures IntValue(r) == n
  {
    if n < 0 then
      var digits := NatToString(-n);
      assert ("-" + digits)[1..] == digits;
      "-" + digits
    else NatToString(n)
  }

  /** The decimal digits of `n`, without leading zeros. */
  function NatToString(n: nat): (r: string)
    ensures |r| > 0 && r[0] != '-'
    ensures forall k :: 0 <= k < |r| ==> '0' <= r[k] <= '9'
    ensures DigitsValue(r) == n
    ensures |r| > 1 ==> r[0] != '0'
  {
    var d := [(('0' as int) + n % 10) as char];
    if n < 10 then d
    else
      var prefix := NatToString(n / 10);
      assert (prefix + d)[..|prefix + d| - 1] == prefix;
      prefix + d
  }

  /** The position of the first comma in `s`, or `|s|` when there is none. */
  function IndexOfComma(s: string): (r: nat)
    ensures r <= |s|
    ensures r < |s| ==> s[r] == ','
    ensures forall k :: 0 <= k < r ==> s[k] != ','
  {
    if |s| == 0 || s[0] == ',' then 0 else 1 + IndexOfComma(s[1..])
  }

  /** Reads a comma-separated list of numerals back into values. */
  function ParseList(s: string): (r: seq<int>)
    decreases |s|
  {
    if |s| == 0 then []
    else
      var i := IndexOfComma(s);
      if i == |s| then [IntValue(s)] else [IntValue(s[..i])] + ParseList(s[i + 1..])
  }

  /** A comma after a comma-free head is the first comma. */
  lemma {:induction false} FirstCommaAfter(a: string, b: string)
    requires ',' !in a
    ensures IndexOfComma(a + "," + b) == |a|
    decreases |a|
  {
    if |a| > 0 {
      assert (a + "," + b)[1..] == a[1..] + "," + b;
      FirstCommaAfter(a[1..], b);
    }
  }

  /** The elements' renderings separated by commas; reading them back gives the elements. */
  function JoinWithCommas(values: seq<int>): (r: string)
    ensures |values| == 0 <==> r == ""
    ensures ParseList(r) == values
  {
    if |values| == 0 then ""
    else if |values| == 1 then
      var head := IntToString(values[0]);
      assert IndexOfComma(head) == |head|;
      head
    else
      var head := IntToString(values[0]);
      var tail := JoinWithCommas(values[1..]);
      FirstCommaAfter(head, tail);
      assert (head + "," + tail)[..|head|] == head;
      assert (head + "," + tail)[|head| + 1..] == tail;
      head + "," + tail
  }

  /** `arrayToString`: `[` + comma-joined elements + `]`; the bracketed text reads back as the array. */
  function ArrayToString(values: seq<int>): (r: string)
    ensures |r| >= 2 && r[0] == '[' && r[|r| - 1] == ']'
    ensures ParseList(r[1..|r| - 1]) == values
    ensures r[1..|r| - 1] == JoinWithCommas(values)
  {
    var inner := JoinWithCommas(values);
    assert ("[" + inner + "]")[1..|inner| + 1] == inner;
    "[" + inner + "]"
  }

  /** The rendering of a small array, digit by digit. */
  lemma ArrayToStringExample()
    ensures ArrayToString([12, -3]) == "[12,-3]"
  {
    assert NatToString(1) == "1";
    assert NatToString(12) == "12";
    assert NatToString(3) == "3";
    assert IntToString(-3) == "-3";
    assert JoinWithCommas([-3]) == "-3";
    assert [12, -3][1..] == [-3];
  }

  /** The number of commas in the rendering is one less than the element count. */
  lemma {:induction false} CommaCount(values: seq<int>)
    ensures |values| > 0 ==> multiset(JoinWithCommas(values))[','] == |values| - 1
    decreases |values|
  {
    if |values| > 1 {
      CommaCount(values[1..]);
      NoCommaInInt(values[0]);
      assert JoinWithCommas(values) == IntToString(values[0]) + "," + JoinWithCommas(values[1..]);
    } else if |values| == 1 {
      NoCommaInInt(values[0]);
    }
  }

  lemma NoCommaInInt(n: int)
    ensures multiset(IntToString(n))[','] == 0
  {
    assert ',' !in IntToString(n);
  }

  /** `isValidIndex`: false for a `null` list, otherwise an in-bounds check. */
  predicate IsValidIndex<T>(list: Option<seq<T>>, index: int)
  {
    list.Some? && index >= 0 && index < |list.value|
  }

  /** `getElementSafe`: the element when the index is valid, otherwise `null`. */
  function GetElementSafe<T>(list: Option<seq<T>>, index: int): (r: Option<T>)
    ensures r.Some? <==> IsValidIndex(list, index)
    ensures r.Some? ==> r.value == list.value[index]
  {
    if IsValidIndex(list, index) then Some(list.value[index]) else None
  }

  /** `isValidIndex` on a present list is `Util.indexExists`; on `null` it is false. */
  lemma IsValidIndexMatchesIndexExists<T>(list: Option<seq<T>>, index: int)
    ensures list.None? ==> !IsValidIndex(list, index)
    ensures list.Some? ==> (IsValidIndex(list, index) <==> Util.IndexExists(list.value, index))
  {
  }

  /**
   * `MapUtil.getOrDefault`: the mapped value when the key maps to a
   * non-null value, otherwise the default. Java map values may be `null`.
   */
  function GetOrDefault<K, V>(m: map<K, Option<V>>, key: K, default: V): (r: V)
    ensures key in m && m[key].Some? ==> r == m[key].value
    ensures key !in m ==> r == default
    ensures key in m && m[key].None? ==> r == default
  {
    if key in m && m[key].Some? then m[key].value else default
  }
}
