/** Go's `byte` type, shared by the wire record and the hex encoding. */
module Bytes {

  /** Go's `byte` (uint8). */
  type byte = b: int | 0 <= b < 0x100
}
