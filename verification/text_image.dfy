/**
 * `TextImage`: a text run or an image on a page, with its bounding box, and
 * the natural order on boxes — left edge first, then top, right, bottom.
 * The bitmap is reduced to whether there is one.
 */
module TextImages {
  import opened JavaLang

  datatype TextImage = TextImage(
    left: real,
    top: real,
    right: real,
    bottom: real,
    isImage: bool,
    text: Option<string>,
    hasBitmap: bool)

  /** `Float.compare` on ordinary (non-NaN) values: -1, 0 or 1 by the order of the reals. */
  function FloatCompare(a: real, b: real): (c: int)
    ensures c == -1 <==> a < b
    ensures c == 0 <==> a == b
    ensures c == 1 <==> a > b
  {
    if a < b then -1 else if a > b then 1 else 0
  }

  /** `compareTo`: the first coordinate comparison that is not 0 decides. */
  function CompareTo(a: TextImage, o: TextImage): (c: int)
    ensures -1 <= c <= 1
    ensures c == 0 <==> Coords(a) == Coords(o)
  {
    var compareLeft := FloatCompare(a.left, o.left);
    if compareLeft != 0 then compareLeft
    else
      var compareTop := FloatCompare(a.top, o.top);
      if compareTop != 0 then compareTop
      else
        var compareRight := FloatCompare(a.right, o.right);
        if compareRight != 0 then compareRight
        else FloatCompare(a.bottom, o.bottom)
  }

  /** The coordinates in the order `compareTo` looks at them. */
  function Coords(a: TextImage): seq<real>
  {
    [a.left, a.top, a.right, a.bottom]
  }

  /** Lexicographic order on equally long sequences of reals: the first difference decides. */
  predicate LexLess(xs: seq<real>, ys: seq<real>)
    requires |xs| == |ys|
  {
    |xs| > 0 && (xs[0] < ys[0] || (xs[0] == ys[0] && LexLess(xs[1..], ys[1..])))
  }

  /** `compareTo` is negative exactly when the box comes first in the lexicographic order. */
  lemma CompareIsLexicographic(a: TextImage, o: TextImage)
    ensures CompareTo(a, o) < 0 <==> LexLess(Coords(a), Coords(o))
    ensures CompareTo(a, o) > 0 <==> LexLess(Coords(o), Coords(a))
  {
    LexLessOfFour(a, o);
    LexLessOfFour(o, a);
  }

  lemma LexLessOfFour(a: TextImage, o: TextImage)
    ensures LexLess(Coords(a), Coords(o)) <==>
      (a.left < o.left
       || (a.left == o.left && a.top < o.top)
       || (a.left == o.left && a.top == o.top && a.right < o.right)
       || (a.left == o.left && a.top == o.top && a.right == o.right && a.bottom < o.bottom))
  {
    var xs, ys := Coords(a), Coords(o);
    assert xs[1..] == [a.top, a.right, a.bottom] && ys[1..] == [o.top, o.right, o.bottom];
    assert xs[1..][1..] == [a.right, a.bottom] && ys[1..][1..] == [o.right, o.bottom];
    assert xs[1..][1..][1..] == [a.bottom] && ys[1..][1..][1..] == [o.bottom];
    assert xs[1..][1..][1..][1..] == [] && ys[1..][1..][1..][1..] == [];
    assert !LexLess(xs[1..][1..][1..][1..], ys[1..][1..][1..][1..]);
    assert LexLess(xs[1..][1..][1..], ys[1..][1..][1..]) <==> a.bottom < o.bottom;
    assert LexLess(xs[1..][1..], ys[1..][1..]) <==> (a.right < o.right || (a.right == o.right && a.bottom < o.bottom));
  }

  /** Every box compares equal to itself. */
  lemma CompareReflexive(a: TextImage)
    ensures CompareTo(a, a) == 0
  {
  }

  /** Swapping the arguments flips the sign. */
  lemma CompareAntisymmetric(a: TextImage, o: TextImage)
    ensures CompareTo(a, o) == -CompareTo(o, a)
  {
  }

  /** Lexicographic order on equally long sequences is transitive. */
  lemma {:induction false} LexLessTransitive(xs: seq<real>, ys: seq<real>, zs: seq<real>)
    requires |xs| == |ys| == |zs|
    requires LexLess(xs, ys) && LexLess(ys, zs)
    ensures LexLess(xs, zs)
  {
    if xs[0] == ys[0] && ys[0] == zs[0] {
      LexLessTransitive(xs[1..], ys[1..], zs[1..]);
    }
  }

  /** The order is transitive, so it is a valid `Comparable` order for sorting. */
  lemma CompareTransitive(a: TextImage, b: TextImage, c: TextImage)
    requires CompareTo(a, b) < 0 && CompareTo(b, c) < 0
    ensures CompareTo(a, c) < 0
  {
    CompareIsLexicographic(a, b);
    CompareIsLexicographic(b, c);
    CompareIsLexicographic(a, c);
    LexLessTransitive(Coords(a), Coords(b), Coords(c));
  }
}
