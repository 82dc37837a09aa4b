/** Octets, as the drivers and the allocator store them. */
module Bytes {
  newtype Byte = x: int | 0 <= x < 256
}
