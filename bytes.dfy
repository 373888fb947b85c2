/** Conversions between small integers and bytes. */
module Bytes {

  /** A value below 256 survives the conversion to a byte. */
  lemma ByteConversion(n: nat)
    requires n < 256
    ensures (n as bv8) as int == n
  {
  }

  /** The mask 0xf8 clears the low three bits. */
  lemma MaskClearsLowBits(b: bv8)
    ensures (b & 0xf8) as int == b as int / 8 * 8
  {
  }
}
