/** Java's 32-bit `int` and its wrap-around subtraction. */
module JavaInt {

  const MinInt: int := -0x8000_0000
  const Modulus: int := 0x1_0000_0000

  /** A value of Java type `int`. */
  newtype int32 = x: int | -0x8000_0000 <= x < 0x8000_0000

  /** The two's-complement value Java's `int` arithmetic yields for the exact result `x`. */
  function Wrap32(x: int): (r: int32)
    ensures MinInt <= x < MinInt + Modulus ==> r as int == x
    ensures (x - r as int) % Modulus == 0
  {
    ((x - MinInt) % Modulus + MinInt) as int32
  }

  /** `a - b` evaluated on Java `int`s. */
  function Sub32(a: int32, b: int32): (r: int32)
    ensures MinInt <= a as int - b as int < MinInt + Modulus ==> r as int == a as int - b as int
    ensures (a as int - b as int - r as int) % Modulus == 0
  {
    Wrap32(a as int - b as int)
  }
}
