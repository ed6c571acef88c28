/** Bytes of programs and tables. */
module Byte {
  type byte = x: int | 0 <= x < 256
}
