/**
 * The UTF-16 to UTF-8 conversion that `extractText` applies to the text of
 * every text rectangle before handing it to Java. Each code unit is encoded
 * on its own with the byte layouts of section 3 of RFC 3629, so a surrogate
 * pair becomes two three-byte sequences.
 */
module TextEncoding {
  import opened JavaLang

  /** One code unit as one, two or three bytes. */
  function EncodeUnit(c: CodeUnit): (bytes: seq<Byte>)
    ensures c < 0x80 ==> bytes == [c]
    ensures 0x80 <= c < 0x800 ==> (|bytes| == 2
                                   && bytes[0] / 0x20 == 0x6 && bytes[0] % 0x20 == c / 0x40
                                   && bytes[1] / 0x40 == 0x2 && bytes[1] % 0x40 == c % 0x40)
    ensures 0x800 <= c ==> (|bytes| == 3
                            && bytes[0] / 0x10 == 0xE && bytes[0] % 0x10 == c / 0x1000
                            && bytes[1] / 0x40 == 0x2 && bytes[1] % 0x40 == (c / 0x40) % 0x40
                            && bytes[2] / 0x40 == 0x2 && bytes[2] % 0x40 == c % 0x40)
  {
    if c < 0x80 then [c]
    else if c < 0x800 then [0xC0 + (c / 0x40) % 0x20, 0x80 + c % 0x40]
    else [0xE0 + (c / 0x1000) % 0x10, 0x80 + (c / 0x40) % 0x40, 0x80 + c % 0x40]
  }

  /** The conversion loop: the encodings of the units, concatenated in order. */
  function Encode(units: seq<CodeUnit>): (bytes: seq<Byte>)
    ensures |units| == 0 <==> |bytes| == 0
    ensures |units| <= |bytes| <= 3 * |units|
  {
    if |units| == 0 then [] else EncodeUnit(units[0]) + Encode(units[1..])
  }

  /**
   * A reference decoder for the three layouts the encoder produces:
   * `None` for a byte sequence the encoder cannot have written.
   */
  function Decode(bytes: seq<Byte>): (units: Option<seq<CodeUnit>>)
    decreases |bytes|
  {
    if |bytes| == 0 then Some([])
    else if bytes[0] < 0x80 then
      var rest :- Decode(bytes[1..]);
      Some([bytes[0] as CodeUnit] + rest)
    else if 0xC0 <= bytes[0] < 0xE0 && |bytes| >= 2 && IsContinuation(bytes[1]) then
      var c := (bytes[0] as int - 0xC0) * 0x40 + (bytes[1] as int - 0x80);
      if c < 0x80 then None
      else
        var rest :- Decode(bytes[2..]);
        Some([c as CodeUnit] + rest)
    else if 0xE0 <= bytes[0] < 0xF0 && |bytes| >= 3 && IsContinuation(bytes[1]) && IsContinuation(bytes[2]) then
      var c := (bytes[0] as int - 0xE0) * 0x1000 + (bytes[1] as int - 0x80) * 0x40 + (bytes[2] as int - 0x80);
      if c < 0x800 then None
      else
        var rest :- Decode(bytes[3..]);
        Some([c as CodeUnit] + rest)
    else None
  }

  predicate IsContinuation(b: Byte)
  {
    0x80 <= b < 0xC0
  }

  /** Decoding the encoding of one unit followed by anything reads the unit back first. */
  lemma DecodeUnitPrefix(c: CodeUnit, tail: seq<Byte>)
    ensures Decode(EncodeUnit(c) + tail) == (match Decode(tail)
      case None => None
      case Some(rest) => Some([c] + rest))
  {
    if c < 0x80 {
      assert (EncodeUnit(c) + tail)[1..] == tail;
    } else if c < 0x800 {
      DecodeTwoBytes(c, tail);
    } else {
      DecodeThreeBytes(c, tail);
    }
  }

  /** The two fields of a two-byte unit put back together give the unit. */
  lemma TwoFields(c: int)
    requires 0x80 <= c < 0x800
    ensures ((c / 0x40) % 0x20) * 0x40 + c % 0x40 == c
  {
    assert c / 0x40 < 0x20;
  }

  lemma DecodeTwoBytes(c: CodeUnit, tail: seq<Byte>)
    requires 0x80 <= c < 0x800
    ensures Decode(EncodeUnit(c) + tail) == (match Decode(tail)
      case None => None
      case Some(rest) => Some([c] + rest))
  {
    var bytes := EncodeUnit(c) + tail;
    assert bytes[2..] == tail;
    TwoFields(c);
    assert (bytes[0] as int - 0xC0) * 0x40 + (bytes[1] as int - 0x80) == c;
  }

  /** The three fields of a three-byte unit put back together give the unit. */
  lemma ThreeFields(c: int)
    requires 0x800 <= c < 0x1_0000
    ensures ((c / 0x1000) % 0x10) * 0x1000 + ((c / 0x40) % 0x40) * 0x40 + c % 0x40 == c
  {
    var hi, mid := c / 0x1000, (c / 0x40) % 0x40;
    assert hi < 0x10;
    assert c / 0x40 == hi * 0x40 + mid;
    assert c == (c / 0x40) * 0x40 + c % 0x40;
  }

  lemma DecodeThreeBytes(c: CodeUnit, tail: seq<Byte>)
    requires 0x800 <= c
    ensures Decode(EncodeUnit(c) + tail) == (match Decode(tail)
      case None => None
      case Some(rest) => Some([c] + rest))
  {
    var bytes := EncodeUnit(c) + tail;
    assert bytes[3..] == tail;
    ThreeFields(c);
    assert (bytes[0] as int - 0xE0) * 0x1000 + (bytes[1] as int - 0x80) * 0x40 + (bytes[2] as int - 0x80) == c;
  }

  /** Every sequence of code units survives the conversion. */
  lemma {:induction false} DecodeEncode(units: seq<CodeUnit>)
    ensures Decode(Encode(units)) == Some(units)
  {
    if |units| > 0 {
      DecodeEncode(units[1..]);
      DecodeUnitPrefix(units[0], Encode(units[1..]));
      assert [units[0]] + units[1..] == units;
    }
  }

  /** The conversion never produces a NUL byte except for the NUL unit itself. */
  lemma {:induction false} NulOnlyFromNul(units: seq<CodeUnit>)
    ensures (forall k :: 0 <= k < |units| ==> units[k] != 0) ==> (forall k :: 0 <= k < |Encode(units)| ==> Encode(units)[k] != 0)
  {
    if |units| > 0 {
      NulOnlyFromNul(units[1..]);
      if forall k :: 0 <= k < |units| ==> units[k] != 0 {
        assert forall k :: 0 <= k < |units[1..]| ==> units[1..][k] != 0 by {
          forall k | 0 <= k < |units[1..]| ensures units[1..][k] != 0 {
            assert units[1..][k] == units[k + 1];
          }
        }
        var head := EncodeUnit(units[0]);
        assert forall k :: 0 <= k < |head| ==> head[k] != 0;
      }
    }
  }

  /** A surrogate code unit comes out as a three-byte sequence with lead byte 0xED. */
  lemma SurrogateLeadByte(c: CodeUnit)
    requires 0xD800 <= c < 0xE000
    ensures |EncodeUnit(c)| == 3 && EncodeUnit(c)[0] == 0xED
    ensures 0xA0 <= EncodeUnit(c)[1] < 0xC0
  {
  }

  /** `c_str()` hands Java the bytes up to the first NUL. */
  function UpToNul(bytes: seq<Byte>): (r: seq<Byte>)
    ensures |r| <= |bytes| && r == bytes[..|r|]
    ensures forall k :: 0 <= k < |r| ==> r[k] != 0
    ensures |r| < |bytes| ==> bytes[|r|] == 0
  {
    if |bytes| == 0 || bytes[0] == 0 then [] else [bytes[0]] + UpToNul(bytes[1..])
  }

  /**
   * `extractText`'s text for one rectangle: the bounded text including the
   * terminating NUL PDFium writes, converted, then cut at the first NUL.
   */
  function RectText(buffer: seq<CodeUnit>): (bytes: seq<Byte>)
    ensures |bytes| <= 3 * |buffer|
  {
    UpToNul(Encode(buffer))
  }

  /** For text without embedded NULs followed by its terminator, Java receives exactly the encoded text. */
  lemma {:induction false} RectTextOfTerminated(text: seq<CodeUnit>)
    requires forall k :: 0 <= k < |text| ==> text[k] != 0
    ensures RectText(text + [0]) == Encode(text)
    ensures Decode(RectText(text + [0])) == Some(text)
  {
    EncodeAppend(text, [0]);
    NulOnlyFromNul(text);
    var e := Encode(text);
    assert Encode([0 as CodeUnit]) == [0];
    UpToNulStopsAt(e, [0]);
    DecodeEncode(text);
  }

  lemma {:induction false} EncodeAppend(a: seq<CodeUnit>, b: seq<CodeUnit>)
    ensures Encode(a + b) == Encode(a) + Encode(b)
  {
    if |a| > 0 {
      assert (a + b)[0] == a[0] && (a + b)[1..] == a[1..] + b;
      EncodeAppend(a[1..], b);
    } else {
      assert a + b == b;
    }
  }

  lemma {:induction false} UpToNulStopsAt(prefix: seq<Byte>, tail: seq<Byte>)
    requires forall k :: 0 <= k < |prefix| ==> prefix[k] != 0
    requires |tail| > 0 && tail[0] == 0
    ensures UpToNul(prefix + tail) == prefix
  {
    if |prefix| > 0 {
      assert (prefix + tail)[0] == prefix[0] && (prefix + tail)[1..] == prefix[1..] + tail;
      UpToNulStopsAt(prefix[1..], tail);
      assert [prefix[0]] + prefix[1..] == prefix;
    } else {
      assert prefix + tail == tail;
    }
  }
}
