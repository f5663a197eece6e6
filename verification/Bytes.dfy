/** The 8-bit values every buffer of the kernel holds. */
module Bytes {

  type Byte = x: int | 0 <= x < 256

  const NUL: Byte := 0
  const SPACE: Byte := 32
}
