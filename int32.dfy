/** The range of C#'s 32-bit `int` and its unchecked (wrap-around) arithmetic. */
module Int32 {

  const MinValue: int := -0x8000_0000
  const MaxValue: int := 0x7FFF_FFFF

  predicate InRange(x: int) {
    MinValue <= x <= MaxValue
  }

  /** The value an unchecked 32-bit operation leaves when the exact result is `x`. */
  function Wrap(x: int): (r: int)
    ensures InRange(r)
    ensures InRange(x) ==> r == x
    ensures (r - x) % 0x1_0000_0000 == 0
  {
    (x - MinValue) % 0x1_0000_0000 + MinValue
  }
}
