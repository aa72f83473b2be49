/** Octets, as `Uint8Array` elements and `Buffer` contents hold them. */
module Bytes {

  type Byte = b: int | 0 <= b < 0x100
}
