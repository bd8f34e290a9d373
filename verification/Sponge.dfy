/** The sponge of FIPS 202 and the streaming code that must compute it.

    `rate` is the rate in 64-bit words: 25 minus the capacity. */
module Sponge {
  import opened Keccak
  import opened Powers

  type Byte = bv8

  // ----- Words and bytes -----

  /** Byte k of a word, counted from the least significant end. */
  function ByteAt(b: Byte, k: nat): Lane
    requires k < 8
  {
    match k
    case 0 => b as Lane
    case 1 => b as Lane << 8
    case 2 => b as Lane << 16
    case 3 => b as Lane << 24
    case 4 => b as Lane << 32
    case 5 => b as Lane << 40
    case 6 => b as Lane << 48
    case 7 => b as Lane << 56
  }

  /** The word whose bytes, least significant first, are bs and then zeros. */
  function Little(bs: seq<Byte>): Lane
    requires |bs| <= 8
  {
    if bs == [] then 0 else
      var n := |bs| - 1;
      Merge(Little(bs[..n]), bs[n], n)
  }

  /** A word with byte k added to it. */
  function Merge(x: Lane, b: Byte, k: nat): Lane
    requires k < 8
  {
    Or(x, ByteAt(b, k))
  }

  function Or(x: Lane, y: Lane): Lane {
    x | y
  }

  function LaneByte(x: Lane, k: nat): Byte
    requires k < 8
  {
    match k
    case 0 => (x & 0xff) as Byte
    case 1 => ((x >> 8) & 0xff) as Byte
    case 2 => ((x >> 16) & 0xff) as Byte
    case 3 => ((x >> 24) & 0xff) as Byte
    case 4 => ((x >> 32) & 0xff) as Byte
    case 5 => ((x >> 40) & 0xff) as Byte
    case 6 => ((x >> 48) & 0xff) as Byte
    case 7 => ((x >> 56) & 0xff) as Byte
  }

  lemma ByteAtIsShift(b: Byte, k: nat)
    requires k < 8
    ensures ByteAt(b, k) == (b as Lane) << (8 * k)
  {
    match k {
      case 0 => case 1 => case 2 => case 3 => case 4 => case 5 => case 6 => case 7 =>
    }
  }

  lemma OrOperatorBit(x: Lane, y: Lane, z: bv6)
    ensures Bit(x | y, z) == (Bit(x, z) || Bit(y, z))
  {
  }

  lemma OrBit(x: Lane, y: Lane, z: bv6)
    ensures Bit(Or(x, y), z) == (Bit(x, z) || Bit(y, z))
  {
    OrOperatorBit(x, y, z);
    hide Bit;
  }

  lemma ByteOfOr(x: Lane, y: Lane, k: nat)
    requires k < 8
    ensures LaneByte(y, k) == 0 ==> LaneByte(Or(x, y), k) == LaneByte(x, k)
    ensures LaneByte(x, k) == 0 ==> LaneByte(Or(x, y), k) == LaneByte(y, k)
  {
    match k {
      case 0 => case 1 => case 2 => case 3 => case 4 => case 5 => case 6 => case 7 =>
    }
  }

  lemma ByteOfByteAt(b: Byte, k: nat, j: nat)
    requires k < 8 && j < 8
    ensures LaneByte(ByteAt(b, k), j) == if j == k then b else 0
  {
    match k {
      case 0 => case 1 => case 2 => case 3 => case 4 => case 5 => case 6 => case 7 =>
    }
  }

  /** The bytes of a word are those that it was made of, in their order, and then zeros. */
  lemma {:induction false} BytesOfLittle(bs: seq<Byte>, k: nat)
    requires |bs| <= 8 && k < 8
    ensures LaneByte(Little(bs), k) == if k < |bs| then bs[k] else 0
  {
    hide ByteAt;
    hide LaneByte;
    hide Or;
    if bs == [] {
      BytesOfZero(k);
    } else {
      var n := |bs| - 1;
      BytesOfLittle(bs[..n], k);
      ByteOfOr(Little(bs[..n]), ByteAt(bs[n], n), k);
      ByteOfByteAt(bs[n], n, k);
    }
  }

  lemma BytesOfZero(k: nat)
    requires k < 8
    ensures LaneByte(0, k) == 0
  {
  }

  /** Different strings of up to eight bytes make different words, if they are of the same length. */
  lemma LittleIsInjective(a: seq<Byte>, b: seq<Byte>)
    requires |a| == |b| <= 8 && Little(a) == Little(b)
    ensures a == b
  {
    hide Little;
    hide LaneByte;
    forall k | 0 <= k < |a|
      ensures a[k] == b[k]
    {
      BytesOfLittle(a, k);
      BytesOfLittle(b, k);
    }
  }

  function StateBytes(s: State): (bs: seq<Byte>)
    ensures |bs| == 200
  {
    seq(200, i requires 0 <= i < 200 => LaneByte(s[i / 8], i % 8))
  }

  // ----- The reference: FIPS 202, sections 4, 5.1 and 6.1 -----

  function ZeroState(): State {
    seq(25, _ => 0 as Lane)
  }

  /** Lane i after a string of bytes has been added to the first lanes, whole words only. */
  function XorLane(s: State, bs: seq<Byte>, i: nat): Lane
    requires i < 25
  {
    if 8 * i + 8 <= |bs| then Xor(s[i], Little(bs[8 * i..8 * i + 8])) else s[i]
  }

  function XorWords(s: State, bs: seq<Byte>): State {
    seq(25, i requires 0 <= i < 25 => XorLane(s, bs, i))
  }

  function SpongeAbsorb(s: State, p: seq<Byte>, rate: nat): State
    requires 0 < rate <= 25
    decreases |p|
  {
    if |p| < 8 * rate then s
    else SpongeAbsorb(KeccakF(XorWords(s, p[..8 * rate])), p[8 * rate..], rate)
  }

  /** The suffix 01 and the padding pad10*1 after n message bytes, written as bytes. */
  function Padding(n: nat, rate: nat): (p: seq<Byte>)
    requires rate > 0
    ensures |p| == 8 * rate - n % (8 * rate)
  {
    var q := 8 * rate - n % (8 * rate);
    if q == 1 then [0x86] else [0x06] + seq(q - 2, _ => 0) + [0x80]
  }

  /** SHA3 with a digest of 32, 48 or 64 bytes: one squeeze of the padded message. */
  function Sha3(m: seq<Byte>, rate: nat, digest: nat): (h: seq<Byte>)
    requires 0 < rate <= 25 && digest <= 8 * rate
    ensures |h| == digest
  {
    StateBytes(SpongeAbsorb(ZeroState(), m + Padding(|m|, rate), rate))[..digest]
  }

  function Sha3_256(m: seq<Byte>): (h: seq<Byte>)
    ensures |h| == 32
  {
    Sha3(m, 17, 32)
  }

  // ----- The padding in bits -----

  function BitsOf(bs: seq<Byte>): (r: seq<bool>)
    ensures |r| == 8 * |bs|
  {
    seq(8 * |bs|, i requires 0 <= i < 8 * |bs| => BitOf(bs[i / 8], i % 8))
  }

  predicate BitOf(b: Byte, k: nat)
    requires k < 8
  {
    match k
    case 0 => b & 1 != 0
    case 1 => b & 2 != 0
    case 2 => b & 4 != 0
    case 3 => b & 8 != 0
    case 4 => b & 16 != 0
    case 5 => b & 32 != 0
    case 6 => b & 64 != 0
    case 7 => b & 128 != 0
  }

  /** pad10*1(x, m) of section 5.1: x is the block size in bits, m the length so far. */
  function Pad101(x: nat, m: nat): seq<bool>
    requires x > 0
  {
    [true] + seq((-(m as int) - 2) % x, _ => false) + [true]
  }

  lemma ZerosWanted(n: nat, r: nat)
    requires r > 0
    ensures (-((8 * n + 2) as int) - 2) % (8 * r) == 8 * (r - n % r) - 4
  {
    var d := n / r;
    assert n == r * d + n % r;
    assert -(8 * n + 4) == (8 * r) * (-d - 1) + (8 * (r - n % r) - 4);
    ModUnique(-(8 * n + 4), 8 * r, -d - 1, 8 * (r - n % r) - 4);
  }

  lemma BitsOfOne(b: Byte)
    ensures BitsOf([b]) == [BitOf(b, 0), BitOf(b, 1), BitOf(b, 2), BitOf(b, 3),
                            BitOf(b, 4), BitOf(b, 5), BitOf(b, 6), BitOf(b, 7)]
  {
    hide BitOf;
  }

  lemma BitsOfConcat(a: seq<Byte>, b: seq<Byte>)
    ensures BitsOf(a + b) == BitsOf(a) + BitsOf(b)
  {
    hide BitOf;
  }

  lemma BitsOfZeros(n: nat)
    ensures BitsOf(seq(n, _ => 0)) == seq(8 * n, _ => false)
  {
  }

  /** The padding bytes are the suffix 01 followed by pad10*1, also when 0x06 and 0x80 share a byte. */
  lemma PaddingInBits(n: nat, rate: nat)
    requires rate > 0
    ensures BitsOf(Padding(n, rate)) == [false, true] + Pad101(64 * rate, 8 * n + 2)
  {
    hide BitsOf;
    var r := 8 * rate;
    var q := r - n % r;
    ZerosWanted(n, r);
    assert Pad101(64 * rate, 8 * n + 2) == [true] + seq(8 * q - 4, _ => false) + [true];
    BitsOfOne(0x86);
    BitsOfOne(0x06);
    BitsOfOne(0x80);
    if q > 1 {
      var zeros := seq(q - 2, _ => 0 as Byte);
      BitsOfConcat([0x06], zeros);
      BitsOfConcat([0x06] + zeros, [0x80]);
      BitsOfZeros(q - 2);
    }
  }
}
