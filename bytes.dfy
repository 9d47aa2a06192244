/** Octets, the unit of a Node.js `Buffer`. */
module Bytes {
  type Byte = x: int | 0 <= x < 256
}
