/** Node hashes: hexadecimal strings, and the two functions that produce them. */
module Hashes {

  predicate IsHexDigit(c: char) {
    '0' <= c <= '9' || 'a' <= c <= 'f'
  }

  predicate AllHex(s: string) {
    forall i :: 0 <= i < |s| ==> IsHexDigit(s[i])
  }

  /** What printing 32 bytes with "%x" gives: a byte below 16 prints as one digit. */
  predicate IsHash(s: string) {
    32 <= |s| <= 64 && AllHex(s)
  }

  type Hash = s: string | IsHash(s) witness "00000000000000000000000000000000"

  /** The tree code only needs these two functions; the theorems about it hold for any. */
  datatype Hasher = Hasher(leaf: string -> Hash, combine: (Hash, Hash) -> Hash)

  /** The contents of the padding leaves. */
  const BLANK: string := " "
}
