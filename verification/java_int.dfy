/** Java's 32-bit two's-complement `int` and the wrap-around of its
    arithmetic. */
module JavaInt {

  const MinInt32: int := -0x8000_0000
  const MaxInt32: int := 0x7fff_ffff

  /** The values a Java `int` (or a non-null `Integer`) can hold. */
  type Int32 = x: int | MinInt32 <= x <= MaxInt32

  /** The `int` that Java's arithmetic produces for the exact result `x`:
      `x` reduced modulo 2^32 into the signed range. */
  function Wrap32(x: int): (r: Int32)
    ensures (r - x) % 0x1_0000_0000 == 0
    ensures MinInt32 <= x <= MaxInt32 ==> r == x
  {
    (x - MinInt32) % 0x1_0000_0000 + MinInt32
  }

  /** -1, 0 or 1 as `x` is negative, zero or positive. */
  function Sign(x: int): (r: int)
    ensures r == 0 <==> x == 0
    ensures r < 0 <==> x < 0
    ensures r > 0 <==> x > 0
    ensures -1 <= r <= 1
  {
    if x < 0 then -1 else if x == 0 then 0 else 1
  }

  /** `Integer.compare(x, y)`: the sign of `x - y`, computed without
      subtracting, so that it cannot overflow. */
  function CompareInts(x: Int32, y: Int32): (r: int)
    ensures r < 0 <==> x < y
    ensures r == 0 <==> x == y
    ensures r > 0 <==> x > y
  {
    if x < y then -1 else if x == y then 0 else 1
  }
}
