/** The fixed-width Java primitive types the store is written in. */
module JavaTypes {

  /** A byte as stored on disk, read as its unsigned value. */
  newtype byte = b: int | 0 <= b < 0x100

  /** A Java `char`: one UTF-16 code unit. */
  newtype char16 = c: int | 0 <= c < 0x1_0000

  /** A Java `int`. */
  newtype int32 = x: int | -0x8000_0000 <= x < 0x8000_0000

  /** A Java `long`. */
  newtype int64 = x: int | -0x8000_0000_0000_0000 <= x < 0x8000_0000_0000_0000

  const INT32_MAX: int := 0x7fff_ffff
  const INT64_MAX: int := 0x7fff_ffff_ffff_ffff

  /** The value of `x++` on a Java `long`: one more, wrapping from the largest to the smallest long. */
  function NextId(x: int64): (r: int64)
    ensures x as int < INT64_MAX ==> r as int == x as int + 1 && r > x
    ensures x as int == INT64_MAX ==> r as int == -INT64_MAX - 1
  {
    if x as int == INT64_MAX then -0x8000_0000_0000_0000 else x + 1
  }
}
