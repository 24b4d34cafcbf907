/** Octets, the unit both the UTF-8 and the base64 encodings work in. */
module Octets {
  type byte = b: int | 0 <= b < 256
}
