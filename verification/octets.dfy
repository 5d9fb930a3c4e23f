/** Byte strings: the Python `bytes` values the transaction stores and hashes. */
module Octets {

  type byte = b: int | 0 <= b < 0x100

  type Bytes = seq<byte>

  /** Every byte is a 7-bit ASCII code, as in PEM-armoured text. */
  predicate IsAscii(bs: Bytes) {
    forall i :: 0 <= i < |bs| ==> bs[i] < 0x80
  }
}
