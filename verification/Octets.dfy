/** Bytes, as the driver's ring and the file system's blocks hold them. */
module Octets {

  type byte = x: int | 0 <= x < 256
}
