/** Bytes, as the binary readers and writers see them. */
module Octets {
  type byte = x: int | 0 <= x < 256
}
