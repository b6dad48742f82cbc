/** Bytes, Go's conversion to a byte, which keeps the low eight bits, and the largest
 values of its signed integers. */
module Bytes {
  type Byte = b: int | 0 <= b < 256

  function ToByte(v: int): Byte { v % 256 }

  const INT16_MAX: int := 0x7FFF
  const INT32_MAX: int := 0x7FFF_FFFF
  const INT64_MAX: int := 0x7FFF_FFFF_FFFF_FFFF
}
