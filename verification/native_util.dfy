/** `utils::clamp` from the native helper header. */
module NativeUtil {

  /**
   * `clamp(value, minVal, maxVal)`: `minVal` below the range, `maxVal` above
   * it, the value itself otherwise. The lower bound is tested first, so with
   * `minVal > maxVal` a value below `minVal` still yields `minVal`.
   */
  function Clamp(value: real, minVal: real, maxVal: real): (r: real)
    ensures value < minVal ==> r == minVal
    ensures minVal <= value && value > maxVal ==> r == maxVal
    ensures minVal <= value <= maxVal ==> r == value
    ensures minVal <= maxVal ==> minVal <= r <= maxVal
  {
    if value < minVal then minVal else if value > maxVal then maxVal else value
  }

  /** Clamping twice is clamping once, when the range is not empty. */
  lemma ClampIdempotent(value: real, minVal: real, maxVal: real)
    requires minVal <= maxVal
    ensures Clamp(Clamp(value, minVal, maxVal), minVal, maxVal) == Clamp(value, minVal, maxVal)
  {
  }

  /** Clamping preserves order. */
  lemma ClampMonotone(a: real, b: real, minVal: real, maxVal: real)
    requires a <= b && minVal <= maxVal
    ensures Clamp(a, minVal, maxVal) <= Clamp(b, minVal, maxVal)
  {
  }
}
