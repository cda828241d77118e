/** The unit of the wire protocol. */
module Bytes {

  /** An octet; Python's `bytes`/`bytearray` elements. */
  newtype byte = b: int | 0 <= b < 0x100

  /** Whether a Python integer fits in a byte (`bytearray([n])` raises ValueError otherwise). */
  predicate IsByte(n: int) { 0 <= n < 0x100 }
}
