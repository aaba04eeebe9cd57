/** Kotlin's fixed-width integers and its remainder operator, written out
    explicitly because Dafny's integers are unbounded and its `%` is Euclidean. */
module KotlinInt {

  /** Kotlin `Int`. */
  type Int32 = x: int | -0x8000_0000 <= x < 0x8000_0000

  /** Kotlin `Long`. */
  type Int64 = x: int | -0x8000_0000_0000_0000 <= x < 0x8000_0000_0000_0000

  const INT32_MAX: int := 0x7FFF_FFFF
  const INT64_MAX: int := 0x7FFF_FFFF_FFFF_FFFF

  /** Two's-complement wrap-around of an `Int` result (also `Long.toInt()`). */
  function Wrap32(x: int): (r: Int32)
    ensures (x - r) % 0x1_0000_0000 == 0
    ensures -0x8000_0000 <= x < 0x8000_0000 ==> r == x
  {
    var m := x % 0x1_0000_0000;
    if m < 0x8000_0000 then m else m - 0x1_0000_0000
  }

  /** Two's-complement wrap-around of a `Long` result. */
  function Wrap64(x: int): (r: Int64)
    ensures (x - r) % 0x1_0000_0000_0000_0000 == 0
    ensures -0x8000_0000_0000_0000 <= x < 0x8000_0000_0000_0000 ==> r == x
  {
    var m := x % 0x1_0000_0000_0000_0000;
    if m < 0x8000_0000_0000_0000 then m else m - 0x1_0000_0000_0000_0000
  }

  /** Kotlin's `a % 24` (the only divisor the client uses): the remainder
      truncates toward zero, so it takes the sign of `a`. */
  function Rem24(a: int): (r: int)
    ensures -24 < r < 24
    ensures a >= 0 ==> 0 <= r
    ensures a < 0 ==> r <= 0
    ensures (a - r) % 24 == 0
  {
    if a >= 0 then a % 24 else -((-a) % 24)
  }
}
