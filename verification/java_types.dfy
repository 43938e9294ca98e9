/** Java's fixed-width integer types and the narrowing conversions the
    Android database cursor applies when it hands a stored 64-bit SQLite
    integer back as a Java `int` or `long`. */
module JavaTypes {

  const TWO_32: int := 0x1_0000_0000
  const TWO_64: int := 0x1_0000_0000_0000_0000

  /** A Java `int`. */
  type Int32 = x: int | -0x8000_0000 <= x < 0x8000_0000

  /** A Java `long`. */
  type Int64 = x: int | -0x8000_0000_0000_0000 <= x < 0x8000_0000_0000_0000

  /** The narrowing cast `(int) v`: keeps the low 32 bits, read as two's complement. */
  function ToInt32(v: int): (r: Int32)
    ensures (r - v) % TWO_32 == 0
    ensures -0x8000_0000 <= v < 0x8000_0000 ==> r == v
  {
    var m := v % TWO_32;
    if m < 0x8000_0000 then m else m - TWO_32
  }

  /** The narrowing cast `(long) v`: keeps the low 64 bits, read as two's complement. */
  function ToInt64(v: int): (r: Int64)
    ensures (r - v) % TWO_64 == 0
    ensures -0x8000_0000_0000_0000 <= v < 0x8000_0000_0000_0000 ==> r == v
  {
    var m := v % TWO_64;
    if m < 0x8000_0000_0000_0000 then m else m - TWO_64
  }
}
