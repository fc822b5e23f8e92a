/**
 * The fixed-width Go integer types the identifier is built from, and the
 * conversion `uint64(x)` that reinterprets a signed 64-bit value as unsigned.
 */
module Ints {

  /** Go's `byte`. */
  type byte = x: int | 0 <= x < 0x100

  /** Go's `int64`, the type of `time.Time.UnixNano()`. */
  type int64 = x: int | -0x8000_0000_0000_0000 <= x < 0x8000_0000_0000_0000

  /** Go's `uint64`. */
  type uint64 = x: int | 0 <= x < 0x1_0000_0000_0000_0000

  const TwoTo64: int := 0x1_0000_0000_0000_0000

  /** Go's `uint64(x)`: the two's-complement bit pattern of `x` read as unsigned. */
  function ToUint64(x: int64): (u: uint64)
    ensures u == x % TwoTo64
  {
    if x < 0 then x + TwoTo64 else x
  }

  /** Go's `int64(u)`: the inverse reinterpretation. */
  function ToInt64(u: uint64): (x: int64)
    ensures x % TwoTo64 == u
  {
    if u < 0x8000_0000_0000_0000 then u else u - TwoTo64
  }
}
