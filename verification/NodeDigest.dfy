/** The hashes that hash_node computes: SHA3-256, printed byte by byte with "%x". */
module NodeDigest {
  import opened Hashes
  import opened Sponge
  import opened Sha3

  type HexString = s: string | AllHex(s)

  /** The 63 digits that the code writes out for the leaf " ", in four pieces. */
  const BLANK_1: HexString := "60e893e6d54d8526"
  const BLANK_2: HexString := "e55a81f98bfac5da"
  const BLANK_3: HexString := "236bb23e84ed5967"
  const BLANK_4: HexString := "a8f527d5bf3d4a4"
  const BLANK_HASH: Hash := BLANK_1 + BLANK_2 + BLANK_3 + BLANK_4

  function ByteOf(c: char): Byte {
    (c as int % 256) as Byte
  }

  function BytesOf(s: string): (b: seq<Byte>)
    ensures |b| == |s|
  {
    seq(|s|, i requires 0 <= i < |s| => ByteOf(s[i]))
  }

  /** The characters of a C string are bytes. */
  predicate AllBytes(s: string) {
    forall i :: 0 <= i < |s| ==> s[i] as int < 256
  }

  lemma ByteOfIsTheCharacter(c: char)
    requires c as int < 256
    ensures ByteOf(c) as nat == c as nat
  {
  }

  /** The hash sees every character of a string, in its place. */
  lemma BytesAreTheString(s: string, i: nat)
    requires AllBytes(s) && i < |s|
    ensures BytesOf(s)[i] as nat == s[i] as nat
  {
    ByteOfIsTheCharacter(s[i]);
  }

  lemma BytesOfIsInjective(s: string, t: string)
    requires AllBytes(s) && AllBytes(t) && BytesOf(s) == BytesOf(t)
    ensures s == t
  {
    hide BytesOf;
    forall i | 0 <= i < |s|
      ensures s[i] == t[i]
    {
      BytesAreTheString(s, i);
      BytesAreTheString(t, i);
    }
  }

  function HexDigit(n: nat): (c: char)
    requires n < 16
    ensures IsHexDigit(c)
  {
    if n < 10 then '0' + n as char else 'a' + (n - 10) as char
  }

  /** A number below 256, as "%x" prints it. */
  function HexOf(n: nat): (s: string)
    requires n < 256
    ensures 1 <= |s| <= 2 && AllHex(s)
  {
    if n < 16 then [HexDigit(n)] else [HexDigit(n / 16), HexDigit(n % 16)]
  }

  /** The value of a digit, and of a string of digits. */
  function DigitValue(c: char): nat
    requires IsHexDigit(c)
  {
    if c <= '9' then (c - '0') as nat else 10 + (c - 'a') as nat
  }

  function HexValue(s: string): nat
    requires AllHex(s)
  {
    if s == "" then 0 else 16 * HexValue(s[..|s| - 1]) + DigitValue(s[|s| - 1])
  }

  /** What is printed reads as the number, without a zero in front. */
  lemma HexReadsBack(n: nat)
    requires n < 256
    ensures HexValue(HexOf(n)) == n && (|HexOf(n)| > 1 ==> HexOf(n)[0] != '0')
  {
    var s := HexOf(n);
    assert s[..0] == "";
    if n < 16 {
      assert HexValue(s) == DigitValue(s[0]);
    } else {
      assert s[..1] == [HexDigit(n / 16)] && s[..1][..0] == "";
      assert HexValue(s[..1]) == n / 16;
    }
  }

  function Hex(b: Byte): (s: string)
    ensures 1 <= |s| <= 2 && AllHex(s)
  {
    HexOf(b as nat)
  }

  function HexAll(bs: seq<Byte>): (s: string)
    ensures |bs| <= |s| <= 2 * |bs| && AllHex(s)
  {
    if bs == [] then "" else HexAll(bs[..|bs| - 1]) + Hex(bs[|bs| - 1])
  }

  lemma {:induction false} HexAllConcat(a: seq<Byte>, b: seq<Byte>)
    ensures HexAll(a + b) == HexAll(a) + HexAll(b)
  {
    hide Hex;
    hide AllHex;
    if b == [] {
      assert a + b == a;
    } else {
      var n := |b| - 1;
      assert (a + b)[..|a| + n] == a + b[..n];
      HexAllConcat(a, b[..n]);
    }
  }

  /** A byte below 16 prints as one digit, so digits can move between bytes. */
  lemma ShortPrintIsAmbiguous(rest: seq<Byte>)
    ensures [0x01, 0x23] + rest != [0x12, 0x03] + rest
    ensures HexAll([0x01, 0x23] + rest) == HexAll([0x12, 0x03] + rest)
  {
    hide HexAll;
    hide AllHex;
    var a: seq<Byte>, b: seq<Byte> := [0x01, 0x23], [0x12, 0x03];
    HexAllConcat(a, rest);
    HexAllConcat(b, rest);
    assert (a + rest)[0] != (b + rest)[0];
    HexAllConcat([0x01], [0x23]);
    HexAllConcat([0x12], [0x03]);
    HexAllOfOne(0x01);
    HexAllOfOne(0x23);
    HexAllOfOne(0x12);
    HexAllOfOne(0x03);
    assert [0x01] + [0x23] == a && [0x12] + [0x03] == b;
  }

  lemma HexAllOfOne(b: Byte)
    ensures HexAll([b]) == Hex(b)
  {
    assert [b][..0] == [];
  }

  function Digest(s: string): Hash {
    HexAll(Sha3_256(BytesOf(s)))
  }

  function LeafDigest(data: string): Hash {
    if data == BLANK then BLANK_HASH else Digest(data)
  }

  /** Only the first 32 characters of each child go into its parent. */
  function PairDigest(l: Hash, r: Hash): Hash {
    Digest(l[..32] + r[..32])
  }

  /** The leaf branch of hash_node. */
  method HashLeaf(data: string) returns (h: Hash)
    ensures h == LeafDigest(data)
    ensures data != " " ==> h == HexAll(Sha3_256(BytesOf(data)))
    ensures data == " " ==> h == "60e893e6d54d8526" + "e55a81f98bfac5da" + "236bb23e84ed5967" + "a8f527d5bf3d4a4"
  {
    hide Sha3_256;
    hide HexAll;
    if data == " " {
      h := BLANK_HASH;
    } else {
      h := DigestString(data);
    }
  }

  /** The other branch: the first 32 characters of the left child, then those of the right one. */
  method HashPair(left: Hash, right: Hash) returns (h: Hash)
    ensures h == PairDigest(left, right) == HexAll(Sha3_256(BytesOf(left[..32] + right[..32])))
  {
    hide Sha3_256;
    hide HexAll;
    h := DigestString(left[..32] + right[..32]);
  }

  const SHA3_HASHER: Hasher := Hasher(LeafDigest, PairDigest)

  method DigestString(s: string) returns (h: Hash)
    ensures h == Digest(s)
  {
    hide Sha3_256;
    assert Flatten([BytesOf(s)][..0]) == [];
    assert Flatten([BytesOf(s)]) == BytesOf(s);
    var hash := Hash256([BytesOf(s)]);
    var hashString := "";
    for j := 0 to 32
      invariant hashString == HexAll(hash[..j])
    {
      assert hash[..j + 1][..j] == hash[..j];
      hashString := hashString + Hex(hash[j]);
    }
    assert hash[..32] == hash;
    h := hashString;
  }
}
