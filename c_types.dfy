/**
 * The fixed-width C integer types that appear in the signatures of the
 * mock socket library, with the conversions between them that its code
 * performs.
 */
module CTypes {

  /** uint8_t: one byte of a caller-supplied buffer. */
  type Byte = bv8

  const INT64_MIN: int := -0x8000_0000_0000_0000
  const INT64_MAX: int := 0x7FFF_FFFF_FFFF_FFFF
  const TWO_TO_64: int := 0x1_0000_0000_0000_0000

  /** int64_t: the type of the checksum and of the byte count. */
  newtype Int64 = x: int | INT64_MIN <= x <= INT64_MAX

  /** size_t on a 64-bit target: buffer lengths and loop indices. */
  newtype Size = x: int | 0 <= x < TWO_TO_64

  /**
   * The conversion `(int64_t)n` of a size_t. For values above INT64_MAX the
   * C standard leaves the result implementation-defined; the model takes the
   * two's-complement reading every mainstream 64-bit compiler uses: the one
   * Int64 congruent to n modulo 2^64.
   */
  function SizeToInt64(n: Size): (r: Int64)
    ensures (n as int - r as int) % TWO_TO_64 == 0
    ensures n as int <= INT64_MAX ==> r as int == n as int
  {
    if n as int <= INT64_MAX then n as int as Int64
    else (n as int - TWO_TO_64) as Int64
  }
}
