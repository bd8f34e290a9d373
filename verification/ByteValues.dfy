/** Bytes and their values. */
module ByteValues {

  lemma NextByte(b: bv8)
    requires b != 0xff
    ensures (b + 1) as nat == b as nat + 1
  {
  }

  /** Every value below 256 is that of a byte. */
  function ByteWithValue(n: nat): (b: bv8)
    requires n < 256
    ensures b as nat == n
  {
    if n == 0 then 0
    else
      var b := ByteWithValue(n - 1);
      NextByte(b);
      b + 1
  }

  lemma ValueOfByte(b: bv8)
    ensures (b as nat) as bv8 == b
  {
  }
}
