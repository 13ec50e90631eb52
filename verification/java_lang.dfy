/**
 * Java value semantics that the viewer's code relies on: nullable
 * references, thrown exceptions, `String.substring`, and the two's-complement
 * ranges of `int` and `long`.
 */
module JavaLang {

  /** A nullable Java reference: `None` stands for `null`. */
  datatype Option<T> = None | Some(value: T) {
    predicate IsFailure() { None? }

    function PropagateFailure<U>(): Option<U>
      requires None?
    {
      None
    }

    function Extract(): T
      requires Some?
    {
      value
    }

    /** The value, or `default` when the reference is `null`. */
    function GetOr(default: T): (r: T)
      ensures Some? ==> r == value
      ensures None? ==> r == default
    {
      match this
      case None => default
      case Some(v) => v
    }
  }

  /** The Java exceptions the modelled code throws or lets escape. */
  datatype Exception =
    | IllegalArgument(message: string)
    | IOError(message: string)
    | NullPointer
    | IndexOutOfBounds
    | PageRendering(page: int)
    | IllegalState(message: string)

  /** A computation that either returns a value or throws. */
  datatype Outcome<T> = Ok(value: T) | Throws(exception: Exception) {
    predicate IsFailure() { Throws? }

    function PropagateFailure<U>(): Outcome<U>
      requires Throws?
    {
      Throws(exception)
    }

    function Extract(): T
      requires Ok?
    {
      value
    }
  }

  const TWO_32: int := 0x1_0000_0000
  const TWO_64: int := 0x1_0000_0000_0000_0000

  /** Java `int`. */
  type Int32 = x: int | -0x8000_0000 <= x < 0x8000_0000

  /** Java `long`. */
  type Int64 = x: int | -0x8000_0000_0000_0000 <= x < 0x8000_0000_0000_0000

  /** An unsigned 8-bit value (`uint8_t`, `unsigned char`). */
  type Byte = x: int | 0 <= x < 0x100

  /** A UTF-16 code unit (`char16_t`, Java `char`). */
  type CodeUnit = x: int | 0 <= x < 0x1_0000

  /**
   * The `(int)` narrowing cast: keeps the low 32 bits and reads them back
   * in two's complement.
   */
  function ToInt32(x: int): (r: Int32)
    ensures (x - r) % TWO_32 == 0
    ensures -0x8000_0000 <= x < 0x8000_0000 ==> r == x
  {
    var m := x % TWO_32;
    if m >= 0x8000_0000 then m - TWO_32 else m
  }

  /**
   * `String.substring(begin, end)`: throws when the bounds are out of order
   * or outside the string.
   */
  function Substring(s: string, begin: int, end: int): (r: Outcome<string>)
    ensures r.Ok? <==> 0 <= begin <= end <= |s|
    ensures r.Ok? ==> |r.value| == end - begin
    ensures r.Ok? ==> forall k :: 0 <= k < |r.value| ==> r.value[k] == s[begin + k]
  {
    if 0 <= begin <= end <= |s| then Ok(s[begin..end]) else Throws(IndexOutOfBounds)
  }

  function Min(a: int, b: int): (r: int)
    ensures r <= a && r <= b && (r == a || r == b)
  {
    if a <= b then a else b
  }

  function Max(a: int, b: int): (r: int)
    ensures r >= a && r >= b && (r == a || r == b)
  {
    if a >= b then a else b
  }

  function MinReal(a: real, b: real): (r: real)
    ensures r <= a && r <= b && (r == a || r == b)
  {
    if a <= b then a else b
  }

  function MaxReal(a: real, b: real): (r: real)
    ensures r >= a && r >= b && (r == a || r == b)
  {
    if a >= b then a else b
  }

  function AbsReal(a: real): (r: real)
    ensures r >= 0.0 && (r == a || r == -a)
  {
    if a < 0.0 then -a else a
  }
}
