/**
 * Pixel conversions of the JNI layer: RGB888 -> RGB565 for rendering into a
 * 565 bitmap, and the per-format packing of embedded images into ARGB words
 * when images are extracted from a page.
 */
module Pixels {
  import opened JavaLang

  /** `rgbTo565`: 5 bits of red, 6 of green, 5 of blue, red highest. */
  function RgbTo565(r: Byte, g: Byte, b: Byte): (c: int)
    ensures 0 <= c < 0x1_0000
    ensures c / 2048 == r / 8
    ensures (c / 32) % 64 == g / 4
    ensures c % 32 == b / 8
  {
    var hi, mid, lo := r / 8, g / 4, b / 8;
    // the shifted fields do not overlap, so the OR is a sum
    DivModOf(hi, mid * 32 + lo, 2048);
    DivModOf(hi * 64 + mid, lo, 32);
    DivModOf(hi, mid, 64);
    hi * 2048 + mid * 32 + lo
  }

  /** Division undoes a multiplication when the remainder fits below the divisor. */
  lemma DivModOf(q: int, m: int, d: int)
    requires d > 0 && 0 <= m < d
    ensures (q * d + m) / d == q && (q * d + m) % d == m
  {
    var x := q * d + m;
    var k := x / d - q;
    assert k * d == m - x % d by {
      assert x == (x / d) * d + x % d;
      assert (x / d) * d == (k + q) * d == k * d + q * d;
    }
    if k >= 1 {
      assert false;
    } else if k <= -1 {
      assert false;
    }
  }

  /** Index of column `col` in row `row` of a buffer whose rows are `stride` units apart. */
  function At(row: nat, stride: nat, col: nat): nat
  {
    row * stride + col
  }

  lemma AtRowStep(row: nat, stride: nat, col: nat)
    ensures At(row + 1, stride, col) == At(row, stride, col) + stride
  {
  }

  /** Two positions whose columns are narrower than the stride coincide only if rows and columns do. */
  lemma AtInjective(r1: nat, c1: nat, r2: nat, c2: nat, stride: nat)
    requires c1 < stride && c2 < stride
    requires At(r1, stride, c1) == At(r2, stride, c2)
    ensures r1 == r2 && c1 == c2
  {
    if r1 < r2 {
      AtBelow(r1, c1, r2, c2, stride);
    } else if r2 < r1 {
      AtBelow(r2, c2, r1, c1, stride);
    }
  }

  lemma AtBelow(r1: nat, c1: nat, r2: nat, c2: nat, stride: nat)
    requires c1 < stride && r1 < r2
    ensures At(r1, stride, c1) < At(r2, stride, c2)
  {
    MulLe(r1 + 1, r2, stride);
  }

  lemma MulLe(a: nat, b: nat, s: nat)
    requires a <= b
    ensures a * s <= b * s
  {
    assert b * s == a * s + (b - a) * s;
  }

  /** The bytes `source[offset..offset + 3]` hold red, green, blue. */
  function SourcePixel(source: seq<Byte>, offset: nat): (c: int)
    requires offset + 3 <= |source|
  {
    RgbTo565(source[offset], source[offset + 1], source[offset + 2])
  }

  /** Whether `i` is a pixel slot of a `width` x `height` destination with row stride `stride`. */
  ghost predicate IsPixelSlot(i: nat, width: nat, height: nat, stride: nat)
  {
    exists row, col :: 0 <= row < height && 0 <= col < width && i == At(row, stride, col)
  }

  /**
   * `rgbBitmapTo565`: converts row by row; the source advances by
   * `sourceStride` bytes per row (3 bytes per pixel) and the destination by
   * `destStride` 16-bit units. Slots outside the image are left alone.
   */
  method RgbBitmapTo565(source: seq<Byte>, sourceStride: nat, dest: seq<int>, destStride: nat,
                        width: nat, height: nat) returns (out: seq<int>)
    requires width <= destStride && 3 * width <= sourceStride
    requires height > 0 ==> At(height - 1, sourceStride, 3 * width) <= |source|
    requires height > 0 ==> At(height - 1, destStride, width) <= |dest|
    ensures |out| == |dest|
    ensures forall row, col :: 0 <= row < height && 0 <= col < width ==>
      At(row, sourceStride, 3 * col) + 3 <= |source| && At(row, destStride, col) < |out| &&
      out[At(row, destStride, col)] == SourcePixel(source, At(row, sourceStride, 3 * col))
    ensures forall i :: 0 <= i < |dest| && !IsPixelSlot(i, width, height, destStride) ==> out[i] == dest[i]
  {
    out := dest;
    var y := 0;
    var srcLine := 0;
    var dstLine := 0;
    while y < height
      invariant 0 <= y <= height
      invariant srcLine == At(y, sourceStride, 0) && dstLine == At(y, destStride, 0)
      invariant |out| == |dest|
      invariant forall row, col :: 0 <= row < y && 0 <= col < width ==>
        At(row, sourceStride, 3 * col) + 3 <= |source| && At(row, destStride, col) < |out| &&
        out[At(row, destStride, col)] == SourcePixel(source, At(row, sourceStride, 3 * col))
      invariant forall i :: 0 <= i < |dest| && !IsPixelSlot(i, width, y, destStride) ==> out[i] == dest[i]
    {
      var x := 0;
      while x < width
        invariant 0 <= x <= width
        invariant |out| == |dest|
        invariant forall row, col :: 0 <= row < y && 0 <= col < width ==>
          At(row, sourceStride, 3 * col) + 3 <= |source| && At(row, destStride, col) < |out| &&
          out[At(row, destStride, col)] == SourcePixel(source, At(row, sourceStride, 3 * col))
        invariant forall col :: 0 <= col < x ==>
          At(y, sourceStride, 3 * col) + 3 <= |source| && At(y, destStride, col) < |out| &&
          out[At(y, destStride, col)] == SourcePixel(source, At(y, sourceStride, 3 * col))
        invariant forall i :: (0 <= i < |dest| && !IsPixelSlot(i, width, y, destStride)
                                && !(exists col :: 0 <= col < x && i == At(y, destStride, col))) ==> out[i] == dest[i]
      {
        RowFits(y, height, sourceStride, 3 * x + 3, 3 * width);
        RowFits(y, height, destStride, x + 1, width);
        var slot := dstLine + x;
        var pixel := SourcePixel(source, srcLine + 3 * x);
        ghost var before := out;
        out := out[slot := pixel];
        forall row, col | 0 <= row < y && 0 <= col < width
          ensures out[At(row, destStride, col)] == before[At(row, destStride, col)]
        {
          AtBelow(row, col, y, x, destStride);
        }
        x := x + 1;
      }
      forall i | 0 <= i < |dest| && !IsPixelSlot(i, width, y + 1, destStride)
        ensures out[i] == dest[i]
      {
      }
      AtRowStep(y, sourceStride, 0);
      AtRowStep(y, destStride, 0);
      srcLine := srcLine + sourceStride;
      dstLine := dstLine + destStride;
      y := y + 1;
    }
  }

  /** A row that fits at the last row fits at every earlier one. */
  lemma RowFits(y: nat, height: nat, stride: nat, upto: nat, limit: nat)
    requires y < height && upto <= limit
    ensures At(y, stride, upto) <= At(height - 1, stride, limit)
  {
    MulLe(y, height - 1, stride);
  }

  /** PDFium bitmap formats; `Unknown` bitmaps are skipped. */
  datatype BitmapFormat = Unknown | Gray | BGR | BGRx | BGRA

  function BytesPerPixel(format: BitmapFormat): nat
  {
    match format
    case Unknown => 0
    case Gray => 1
    case BGR => 3
    case BGRx => 4
    case BGRA => 4
  }

  /** `(a << 24) | (r << 16) | (g << 8) | b` as an unsigned 32-bit word. */
  function PackArgb(a: Byte, r: Byte, g: Byte, b: Byte): (c: nat)
    ensures c < 0x1_0000_0000
    ensures Alpha(c) == a && Red(c) == r && Green(c) == g && Blue(c) == b
  {
    var ar := a * 0x100 + r;
    var arg := ar * 0x100 + g;
    var c := arg * 0x100 + b;
    ShiftByte(arg, b);
    ShiftByte(ar, g);
    ShiftByte(a, r);
    ShiftByte(0, a);
    c
  }

  /** Shifting left by a byte and OR-ing in a byte, undone by `/ 256` and `% 256`. */
  lemma ShiftByte(high: nat, low: Byte)
    ensures (high * 0x100 + low) / 0x100 == high
    ensures (high * 0x100 + low) % 0x100 == low
  {
  }

  function Blue(c: nat): int { c % 0x100 }
  function Green(c: nat): int { (c / 0x100) % 0x100 }
  function Red(c: nat): int { (c / 0x100 / 0x100) % 0x100 }
  function Alpha(c: nat): int { (c / 0x100 / 0x100 / 0x100) % 0x100 }

  /** A gray level becomes an opaque pixel with equal channels. */
  function GrayToArgb(gray: Byte): (c: nat)
    ensures Alpha(c) == 0xFF && Red(c) == gray && Green(c) == gray && Blue(c) == gray
  {
    PackArgb(0xFF, gray, gray, gray)
  }

  /**
   * The BGR branch as written: it reads the first byte of the pixel as red
   * and the third as blue.
   */
  function BgrToArgbAsWritten(b0: Byte, b1: Byte, b2: Byte): (c: nat)
    ensures Alpha(c) == 0xFF && Red(c) == b0 && Green(c) == b1 && Blue(c) == b2
  {
    PackArgb(0xFF, b0, b1, b2)
  }

  /**
   * BGR as PDFium lays it out (blue, green, red), read the same way as the
   * BGRx and BGRA branches.
   */
  function BgrToArgb(b0: Byte, b1: Byte, b2: Byte): (c: nat)
    ensures Alpha(c) == 0xFF && Red(c) == b2 && Green(c) == b1 && Blue(c) == b0
  {
    PackArgb(0xFF, b2, b1, b0)
  }

  /** BGRx: blue, green, red, ignored byte; the pixel is made opaque. */
  function BgrxToArgb(b0: Byte, b1: Byte, b2: Byte, b3: Byte): (c: nat)
    ensures Alpha(c) == 0xFF && Red(c) == b2 && Green(c) == b1 && Blue(c) == b0
  {
    PackArgb(0xFF, b2, b1, b0)
  }

  /** BGRA: blue, green, red, alpha; the alpha byte is kept. */
  function BgraToArgb(b0: Byte, b1: Byte, b2: Byte, b3: Byte): (c: nat)
    ensures Alpha(c) == b3 && Red(c) == b2 && Green(c) == b1 && Blue(c) == b0
  {
    PackArgb(b3, b2, b1, b0)
  }

  /**
   * The ARGB word for the pixel whose bytes start at `offset`, for each
   * supported format, with the BGR branch as written; `None` for an unknown
   * format.
   */
  function PixelToArgbAsWritten(format: BitmapFormat, source: seq<Byte>, offset: nat): (c: Option<nat>)
    requires offset + BytesPerPixel(format) <= |source|
    ensures c.None? <==> format == Unknown
    ensures c.Some? ==> c.value < 0x1_0000_0000
    ensures c.Some? && format != BGRA ==> Alpha(c.value) == 0xFF
    ensures c.Some? && format == BGRA ==> Alpha(c.value) == source[offset + 3]
    ensures format == Gray ==>
      Red(c.value) == source[offset] && Green(c.value) == source[offset] && Blue(c.value) == source[offset]
    ensures format == BGR ==>
      Red(c.value) == source[offset] && Green(c.value) == source[offset + 1] && Blue(c.value) == source[offset + 2]
    ensures format == BGRx || format == BGRA ==>
      Red(c.value) == source[offset + 2] && Green(c.value) == source[offset + 1] && Blue(c.value) == source[offset]
  {
    match format
    case Unknown => None
    case Gray => Some(GrayToArgb(source[offset]))
    case BGR => Some(BgrToArgbAsWritten(source[offset], source[offset + 1], source[offset + 2]))
    case BGRx => Some(BgrxToArgb(source[offset], source[offset + 1], source[offset + 2], source[offset + 3]))
    case BGRA => Some(BgraToArgb(source[offset], source[offset + 1], source[offset + 2], source[offset + 3]))
  }

  /**
   * The ARGB word for the pixel whose bytes start at `offset`, for each
   * supported format, with BGR read as blue, green, red like the other
   * PDFium formats; `None` for an unknown format.
   */
  function PixelToArgb(format: BitmapFormat, source: seq<Byte>, offset: nat): (c: Option<nat>)
    requires offset + BytesPerPixel(format) <= |source|
    ensures c.None? <==> format == Unknown
    ensures c.Some? ==> c.value < 0x1_0000_0000
    ensures c.Some? && format != BGRA ==> Alpha(c.value) == 0xFF
    ensures c.Some? && format == BGRA ==> Alpha(c.value) == source[offset + 3]
    ensures format == Gray ==>
      Red(c.value) == source[offset] && Green(c.value) == source[offset] && Blue(c.value) == source[offset]
    ensures format == BGR || format == BGRx || format == BGRA ==>
      Red(c.value) == source[offset + 2] && Green(c.value) == source[offset + 1] && Blue(c.value) == source[offset]
  {
    match format
    case Unknown => None
    case Gray => Some(GrayToArgb(source[offset]))
    case BGR => Some(BgrToArgb(source[offset], source[offset + 1], source[offset + 2]))
    case BGRx => Some(BgrxToArgb(source[offset], source[offset + 1], source[offset + 2], source[offset + 3]))
    case BGRA => Some(BgraToArgb(source[offset], source[offset + 1], source[offset + 2], source[offset + 3]))
  }

  /**
   * The corrected dispatch differs from the code as written only on BGR
   * pixels whose first and third bytes differ.
   */
  lemma DispatchDiffersOnlyOnBgr(format: BitmapFormat, source: seq<Byte>, offset: nat)
    requires offset + BytesPerPixel(format) <= |source|
    ensures PixelToArgb(format, source, offset) != PixelToArgbAsWritten(format, source, offset) <==>
      format == BGR && source[offset] != source[offset + 2]
  {
  }

  /** The corrected BGR reading agrees with BGRx on the shared colour bytes. */
  lemma BgrMatchesBgrx(b0: Byte, b1: Byte, b2: Byte, pad: Byte)
    ensures BgrToArgb(b0, b1, b2) == BgrxToArgb(b0, b1, b2, pad)
  {
  }

  /**
   * As written, a pure red BGR pixel (bytes 0x00, 0x00, 0xFF) comes out
   * pure blue, while BGRx renders the same colour bytes red.
   */
  lemma BgrAsWrittenSwapsRedAndBlue()
    ensures BgrToArgbAsWritten(0x00, 0x00, 0xFF) == 0xFF00_00FF
    ensures BgrxToArgb(0x00, 0x00, 0xFF, 0x00) == 0xFFFF_0000
    ensures BgrToArgb(0x00, 0x00, 0xFF) == 0xFFFF_0000
  {
  }
}
