/** Java's 32-bit `int` and nullable references, as the three core classes use them. */
module JavaTypes {

  const INT_MIN: int := -0x8000_0000
  const INT_MAX: int := 0x7FFF_FFFF

  /** Values of Java's `int`. */
  type Int32 = x: int | -0x8000_0000 <= x < 0x8000_0000

  predicate InRange(x: int) {
    INT_MIN <= x <= INT_MAX
  }

  /** Java's `int` addition and subtraction: the mathematical result taken modulo 2^32
      into the two's-complement range. */
  function Wrap(x: int): (r: Int32)
    ensures InRange(x) ==> r == x
    ensures INT_MAX < x <= 2 * INT_MAX ==> r == x - 0x1_0000_0000
    ensures 2 * INT_MIN <= x < INT_MIN ==> r == x + 0x1_0000_0000
  {
    (x - INT_MIN) % 0x1_0000_0000 + INT_MIN
  }

  /** A Java reference that may be `null`. */
  datatype Option<+T> = None | Some(value: T)
}
