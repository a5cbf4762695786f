/** The byte clamp applied at every colour stage. The split build and the
    single-file build define it identically. */
module Clamp {
  import opened Bytes

  /** clamp_u8: saturates an int to the byte range. */
  function ClampU8(x: int): uint8
  {
    if x < 0 then 0
    else if x > 255 then 255
    else x
  }

  /** Bytes pass through unchanged; everything below saturates to 0, everything above to 255. */
  lemma ClampCases(x: int)
    ensures 0 <= x <= 255 ==> ClampU8(x) == x
    ensures x < 0 ==> ClampU8(x) == 0
    ensures x > 255 ==> ClampU8(x) == 255
  {
  }

  /** The clamp picks the byte nearest to its argument. */
  lemma ClampIsNearest(x: int, v: uint8)
    ensures Dist(ClampU8(x), x) <= Dist(v, x)
  {
  }

  function Dist(a: int, b: int): nat
  {
    if a <= b then b - a else a - b
  }

  lemma ClampMonotone(x: int, y: int)
    requires x <= y
    ensures ClampU8(x) <= ClampU8(y)
  {
  }

  lemma ClampIdempotent(x: int)
    ensures ClampU8(ClampU8(x)) == ClampU8(x)
  {
  }
}
