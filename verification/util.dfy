/**
 * `Util`: packing two Java `int`s into one `long` (used as a record id for
 * search results and as a character-range id for selections) and the
 * index-existence checks.
 */
module Util {
  import opened JavaLang

  /** `((long) high << 32) | (low & 0xFFFFFFFFL)`. */
  function PackIntegers(high: Int32, low: Int32): (r: Int64)
  {
    // the low word is masked to its unsigned value, so the OR of the two
    // disjoint bit ranges is a sum
    high * TWO_32 + low % TWO_32
  }

  /** `(int) (packed >>> 32)`: an unsigned shift, then a narrowing cast. */
  function UnpackHigh(packed: Int64): (r: Int32)
  {
    ToInt32((packed % TWO_64) / TWO_32)
  }

  /** `(int) packed`: the low 32 bits read as a signed `int`. */
  function UnpackLow(packed: Int64): (r: Int32)
  {
    ToInt32(packed)
  }

  /** Euclidean division by 2^32 is determined by quotient and remainder. */
  lemma DivModTwo32(p: int, q: int, m: int)
    requires p == q * TWO_32 + m && 0 <= m < TWO_32
    ensures p / TWO_32 == q && p % TWO_32 == m
  {
  }

  /** The high word comes back out of a packed pair. */
  lemma UnpackHighOfPack(high: Int32, low: Int32)
    ensures UnpackHigh(PackIntegers(high, low)) == high
  {
    var p := PackIntegers(high, low);
    var m := low % TWO_32;
    if high >= 0 {
      assert p % TWO_64 == p;
      DivModTwo32(p, high, m);
    } else {
      assert p % TWO_64 == p + TWO_64;
      DivModTwo32(p + TWO_64, high + TWO_32, m);
    }
  }

  /** The low word comes back out too, negative or not, and never bleeds into the high word. */
  lemma UnpackLowOfPack(high: Int32, low: Int32)
    ensures UnpackLow(PackIntegers(high, low)) == low
    ensures low < 0 ==> UnpackHigh(PackIntegers(high, low)) == high
  {
    var p := PackIntegers(high, low);
    DivModTwo32(p, high, low % TWO_32);
    UnpackHighOfPack(high, low);
  }

  /** Every `long` is the packing of its two halves. */
  lemma PackOfUnpack(packed: Int64)
    ensures PackIntegers(UnpackHigh(packed), UnpackLow(packed)) == packed
  {
    var q := packed / TWO_32;
    var m := packed % TWO_32;
    assert -0x8000_0000 <= q < 0x8000_0000;
    if packed >= 0 {
      DivModTwo32(packed % TWO_64, q, m);
    } else {
      assert packed % TWO_64 == packed + TWO_64;
      DivModTwo32(packed + TWO_64, q + TWO_32, m);
    }
    assert UnpackHigh(packed) == q;
    assert UnpackLow(packed) % TWO_32 == m;
  }

  /** `indexExists(list, index)`: whether `list.get(index)` is in bounds. */
  predicate IndexExists<T>(list: seq<T>, index: int)
  {
    index >= 0 && index < |list|
  }

  /** `indexExists(count, index)`: the same check against a bare element count. */
  predicate IndexExistsInCount(count: int, index: int)
  {
    index >= 0 && index < count
  }

  /** The two overloads agree whenever the count is the list's size. */
  lemma IndexExistsAgree<T>(list: seq<T>, index: int)
    ensures IndexExists(list, index) <==> IndexExistsInCount(|list|, index)
  {
  }
}
