/** The octet, the unit of a Node.js Buffer and of every byte string in
    this model. */
module Bytes {
  /** One byte: an integer from 0 to 255. */
  type byte = x: int | 0 <= x < 256
}
