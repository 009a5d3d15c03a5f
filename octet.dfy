/** The octet type `binascii.crc32` reads, and its relation to byte values. */
module Octet {
  /** A byte value survives the trip to an octet and back. */
  lemma OctetValue(b: int)
    requires 0 <= b < 256
    ensures (b as bv8) as int == b
  {
  }
}
