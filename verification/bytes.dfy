/** Octets as carried on the device redirection channel. */
module Bytes {

  /** One byte, an integer in 0..255. */
  newtype byte = b: int | 0 <= b < 0x100
}
