/** The permutation Keccak-f[1600].

    The first half is the reference: the step mappings of FIPS 202, sections 3.2 and 3.3, on
    states of 25 lanes, where lane (x, y) is element 5*y + x.  The second half is the in-place
    code, which must compute the same thing. */
module Keccak {

  type Lane = bv64
  type State = s: seq<Lane> | |s| == 25 witness seq(25, _ => 0)

  /** Rotation by n bits as the C macro writes it: two shifts and an or.  A shift by 64 is undefined
      in C, so 0 is not an offset. */
  function Rotl(x: Lane, n: nat): Lane
    requires 0 < n < 64
  {
    (x << n) | (x >> (64 - n))
  }

  /** For every offset in use, the macro is the rotation of the 64-bit word. */
  lemma RotlIsRotation(x: Lane)
    ensures Rotl(x, 1) == x.RotateLeft(1) && Rotl(x, 2) == x.RotateLeft(2)
    ensures Rotl(x, 3) == x.RotateLeft(3) && Rotl(x, 6) == x.RotateLeft(6) && Rotl(x, 8) == x.RotateLeft(8)
    ensures Rotl(x, 10) == x.RotateLeft(10) && Rotl(x, 14) == x.RotateLeft(14) && Rotl(x, 15) == x.RotateLeft(15)
    ensures Rotl(x, 18) == x.RotateLeft(18) && Rotl(x, 20) == x.RotateLeft(20) && Rotl(x, 21) == x.RotateLeft(21)
    ensures Rotl(x, 25) == x.RotateLeft(25) && Rotl(x, 27) == x.RotateLeft(27) && Rotl(x, 28) == x.RotateLeft(28)
    ensures Rotl(x, 36) == x.RotateLeft(36) && Rotl(x, 39) == x.RotateLeft(39) && Rotl(x, 41) == x.RotateLeft(41)
    ensures Rotl(x, 43) == x.RotateLeft(43) && Rotl(x, 44) == x.RotateLeft(44) && Rotl(x, 45) == x.RotateLeft(45)
    ensures Rotl(x, 55) == x.RotateLeft(55) && Rotl(x, 56) == x.RotateLeft(56) && Rotl(x, 61) == x.RotateLeft(61)
    ensures Rotl(x, 62) == x.RotateLeft(62)
  {
  }

  /** Bit z of a lane; indexes are numbers modulo 64. */
  predicate Bit(x: Lane, z: bv6) {
    (x >> z) & 1 == 1
  }

  // ----- The step mappings of FIPS 202, section 3.2 -----

  function Column(a: State, x: nat): Lane
    requires x < 5
  {
    Xor5(a[x], a[x + 5], a[x + 10], a[x + 15], a[x + 20])
  }

  function Xor(x: Lane, y: Lane): Lane {
    x ^ y
  }

  function Xor5(u: Lane, v: Lane, w: Lane, x: Lane, y: Lane): Lane {
    Xor(Xor(Xor(Xor(u, v), w), x), y)
  }

  function Columns(a: State): seq<Lane> {
    seq(5, x requires 0 <= x < 5 => Column(a, x))
  }

  /** A lane of column x changes by the columns on both sides, one of them rotated. */
  function Mix(v: Lane, c: seq<Lane>, x: nat): Lane
    requires |c| == 5 && x < 5
  {
    Xor(v, Xor(c[(x + 4) % 5], Rotl(c[(x + 1) % 5], 1)))
  }

  function Theta(a: State): State {
    seq(25, p requires 0 <= p < 25 => Mix(a[p], Columns(a), p % 5))
  }

  /** The lane visited at time t of section 3.2.2: (1, 0) first, then (x, y) goes to (y, 2x + 3y). */
  function Walk(t: nat): nat {
    if t == 0 then 1 else WalkStep(Walk(t - 1))
  }

  function WalkStep(p: nat): nat {
    var (x, y) := (p % 5, p / 5);
    5 * ((2 * x + 3 * y) % 5) + y
  }

  /** The offset of lane p: (t + 1)(t + 2)/2 when the walk first visits p at time t, and 0 for the
      lane it never visits.  Times before `from` are not looked at. */
  function RhoOffset(p: nat, from: nat := 0): (r: nat)
    ensures r < 64
    decreases 24 - from
  {
    if from >= 24 then 0
    else if Walk(from) == p then (from + 1) * (from + 2) / 2 % 64
    else RhoOffset(p, from + 1)
  }

  function RhoLane(a: State, p: nat): Lane
    requires p < 25
  {
    if RhoOffset(p) == 0 then a[p] else Rotl(a[p], RhoOffset(p))
  }

  function Rho(a: State): State {
    seq(25, p requires 0 <= p < 25 => RhoLane(a, p))
  }

  function Pi(a: State): State {
    seq(25, p requires 0 <= p < 25 => a[PiSource(p)])
  }

  /** Lane (x, y) takes the value of lane (x + 3y, x). */
  function PiSource(p: nat): (q: nat)
    requires p < 25
    ensures q < 25
  {
    var (x, y) := (p % 5, p / 5);
    5 * x + (x + 3 * y) % 5
  }

  /** Lane (x, y) is changed by lanes (x + 1, y) and (x + 2, y). */
  function ChiLane(a: State, x: nat, y: nat): Lane
    requires x < 5 && y < 5
  {
    ChiStep(a[5 * y + x], a[5 * y + (x + 1) % 5], a[5 * y + (x + 2) % 5])
  }

  function ChiStep(u: Lane, v: Lane, w: Lane): Lane {
    u ^ (!v & w)
  }

  function Chi(a: State): State {
    seq(25, p requires 0 <= p < 25 => ChiLane(a, p % 5, p / 5))
  }

  /** One step of the shift register of section 3.2.5, algorithm 5, bit i of the byte being R[i]. */
  function Shift(r: bv8): bv8 {
    (r << 1) ^ (if r & 0x80 == 0 then 0 else 0x71)
  }

  function Register(t: nat): bv8 {
    if t == 0 then 1 else Shift(Register(t - 1))
  }

  /** Section 3.2.5: bit 2^j - 1 of a round constant is bit 0 of the j-th of seven registers. */
  function Bits(r0: bv8, r1: bv8, r2: bv8, r3: bv8, r4: bv8, r5: bv8, r6: bv8): Lane {
    (r0 & 1) as Lane | ((r1 & 1) as Lane << 1) | ((r2 & 1) as Lane << 3) | ((r3 & 1) as Lane << 7)
    | ((r4 & 1) as Lane << 15) | ((r5 & 1) as Lane << 31) | ((r6 & 1) as Lane << 63)
  }

  /** The bits rc(j + 7 * round); rc has period 255. */
  function RoundConstant(round: nat): Lane {
    var t := 7 * round;
    Bits(Register(t % 255), Register((t + 1) % 255), Register((t + 2) % 255), Register((t + 3) % 255),
         Register((t + 4) % 255), Register((t + 5) % 255), Register((t + 6) % 255))
  }

  function Iota(a: State, round: nat): State {
    a[0 := a[0] ^ RoundConstant(round)]
  }

  function Round(a: State, round: nat): State {
    Iota(Chi(Pi(Rho(Theta(a)))), round)
  }

  function Rounds(a: State, n: nat): State {
    if n == 0 then a else Round(Rounds(a, n - 1), n - 1)
  }

  function KeccakF(a: State): State {
    Rounds(a, 24)
  }

  // ----- Theta and chi bit by bit, as sections 3.2.1 and 3.2.4 define them -----

  /** The exclusive or of two bits.  The first form is for the operator, the second for the function. */
  lemma XorOperatorBit(x: Lane, y: Lane, z: bv6)
    ensures Bit(x ^ y, z) == (Bit(x, z) != Bit(y, z))
  {
  }

  lemma XorBit(x: Lane, y: Lane, z: bv6)
    ensures Bit(Xor(x, y), z) == (Bit(x, z) != Bit(y, z))
  {
    XorOperatorBit(x, y, z);
    hide Bit;
  }

  /** The parity of column (x, z). */
  predicate ColumnParity(a: State, x: nat, z: bv6)
    requires x < 5
  {
    Bit(a[x], z) != (Bit(a[x + 5], z) != (Bit(a[x + 10], z) != (Bit(a[x + 15], z) != Bit(a[x + 20], z))))
  }

  lemma Xor5Bit(u: Lane, v: Lane, w: Lane, x: Lane, y: Lane, z: bv6)
    ensures Bit(Xor5(u, v, w, x, y), z) == (Bit(u, z) != (Bit(v, z) != (Bit(w, z) != (Bit(x, z) != Bit(y, z)))))
  {
    hide Bit;
    hide Xor;
    XorBit(u, v, z);
    XorBit(Xor(u, v), w, z);
    XorBit(Xor(Xor(u, v), w), x, z);
    XorBit(Xor(Xor(Xor(u, v), w), x), y, z);
  }

  lemma ColumnInBits(a: State, x: nat, z: bv6)
    requires x < 5
    ensures Bit(Column(a, x), z) == ColumnParity(a, x, z)
  {
    hide Bit;
    hide Xor5;
    Xor5Bit(a[x], a[x + 5], a[x + 10], a[x + 15], a[x + 20], z);
  }

  lemma RotatedOperatorBit(x: Lane, z: bv6)
    ensures Bit(x.RotateLeft(1), z) == Bit(x, z - 1)
  {
  }

  lemma RotatedBit(x: Lane, z: bv6)
    ensures Bit(Rotl(x, 1), z) == Bit(x, z - 1)
  {
    RotatedOperatorBit(x, z);
    RotlIsRotation(x);
    hide Bit;
    hide Rotl;
  }

  lemma MixBit(v: Lane, c: seq<Lane>, x: nat, z: bv6)
    requires |c| == 5 && x < 5
    ensures Bit(Mix(v, c, x), z) == (Bit(v, z) != (Bit(c[(x + 4) % 5], z) != Bit(c[(x + 1) % 5], z - 1)))
  {
    hide Bit;
    hide Xor;
    hide Rotl;
    var rotated := Rotl(c[(x + 1) % 5], 1);
    XorBit(c[(x + 4) % 5], rotated, z);
    XorBit(v, Xor(c[(x + 4) % 5], rotated), z);
    RotatedBit(c[(x + 1) % 5], z);
  }

  /** Theta flips bit (x, y, z) by the parities of columns (x - 1, z) and (x + 1, z - 1). */
  lemma ThetaInBits(a: State, x: nat, y: nat, z: bv6)
    requires x < 5 && y < 5
    ensures Bit(Theta(a)[5 * y + x], z) ==
            (Bit(a[5 * y + x], z) != (ColumnParity(a, (x + 4) % 5, z) != ColumnParity(a, (x + 1) % 5, z - 1)))
  {
    hide Bit;
    hide Mix;
    hide Column;
    hide ColumnParity;
    var p := 5 * y + x;
    assert p % 5 == x;
    MixBit(a[p], Columns(a), x, z);
    ColumnInBits(a, (x + 4) % 5, z);
    ColumnInBits(a, (x + 1) % 5, z - 1);
  }

  lemma ChiOperatorsBit(u: Lane, v: Lane, w: Lane, z: bv6)
    ensures Bit(u ^ (!v & w), z) == (Bit(u, z) != (!Bit(v, z) && Bit(w, z)))
  {
  }

  lemma ChiStepBit(u: Lane, v: Lane, w: Lane, z: bv6)
    ensures Bit(ChiStep(u, v, w), z) == (Bit(u, z) != (!Bit(v, z) && Bit(w, z)))
  {
    ChiOperatorsBit(u, v, w, z);
    hide Bit;
  }

  /** Chi flips bit (x, y, z) where bit (x + 1, y, z) is 0 and bit (x + 2, y, z) is 1. */
  lemma ChiInBits(a: State, x: nat, y: nat, z: bv6)
    requires x < 5 && y < 5
    ensures Bit(Chi(a)[5 * y + x], z) ==
            (Bit(a[5 * y + x], z) != (!Bit(a[5 * y + (x + 1) % 5], z) && Bit(a[5 * y + (x + 2) % 5], z)))
  {
    hide Bit;
    hide ChiStep;
    assert (5 * y + x) % 5 == x && (5 * y + x) / 5 == y;
    ChiStepBit(a[5 * y + x], a[5 * y + (x + 1) % 5], a[5 * y + (x + 2) % 5], z);
  }

  // ----- The tables of the implementation -----

  /** keccakf_rndc. */
  function Rndc(i: nat): Lane
    requires i < 24
  {
    match i
    case 0 => 0x0000000000000001 case 1 => 0x0000000000008082 case 2 => 0x800000000000808a
    case 3 => 0x8000000080008000 case 4 => 0x000000000000808b case 5 => 0x0000000080000001
    case 6 => 0x8000000080008081 case 7 => 0x8000000000008009 case 8 => 0x000000000000008a
    case 9 => 0x0000000000000088 case 10 => 0x0000000080008009 case 11 => 0x000000008000000a
    case 12 => 0x000000008000808b case 13 => 0x800000000000008b case 14 => 0x8000000000008089
    case 15 => 0x8000000000008003 case 16 => 0x8000000000008002 case 17 => 0x8000000000000080
    case 18 => 0x000000000000800a case 19 => 0x800000008000000a case 20 => 0x8000000080008081
    case 21 => 0x8000000000008080 case 22 => 0x0000000080000001 case 23 => 0x8000000080008008
  }

  /** keccakf_rotc. */
  function Rotc(i: nat): nat
    requires i < 24
  {
    match i
    case 0 => 1 case 1 => 3 case 2 => 6 case 3 => 10 case 4 => 15 case 5 => 21 case 6 => 28 case 7 => 36
    case 8 => 45 case 9 => 55 case 10 => 2 case 11 => 14 case 12 => 27 case 13 => 41 case 14 => 56 case 15 => 8
    case 16 => 25 case 17 => 43 case 18 => 62 case 19 => 18 case 20 => 39 case 21 => 61 case 22 => 20 case 23 => 44
  }

  /** keccakf_piln. */
  function Piln(i: nat): nat
    requires i < 24
  {
    match i
    case 0 => 10 case 1 => 7 case 2 => 11 case 3 => 17 case 4 => 18 case 5 => 3 case 6 => 5 case 7 => 16
    case 8 => 8 case 9 => 21 case 10 => 24 case 11 => 4 case 12 => 15 case 13 => 23 case 14 => 19 case 15 => 13
    case 16 => 12 case 17 => 2 case 18 => 20 case 19 => 14 case 20 => 22 case 21 => 9 case 22 => 6 case 23 => 1
  }

  // ----- The tables are the ones of the standard -----

  /** The register at the start of each round: seven steps lead from one entry to the next. */
  function RegisterOf(i: nat): bv8
    requires i < 25
  {
    match i
    case 0 => 0x01 case 1 => 0x80 case 2 => 0xd8 case 3 => 0x1a case 4 => 0xdf case 5 => 0x09
    case 6 => 0x35 case 7 => 0x4f case 8 => 0xca case 9 => 0x70 case 10 => 0x41 case 11 => 0xec
    case 12 => 0xd5 case 13 => 0xcd case 14 => 0x63 case 15 => 0xab case 16 => 0xaa case 17 => 0x2a
    case 18 => 0xf2 case 19 => 0xe8 case 20 => 0x37 case 21 => 0x3e case 22 => 0x0b case 23 => 0x44
    case 24 => 0x8e
  }

  function Shift7(r: bv8): bv8 {
    Shift(Shift(Shift(Shift(Shift(Shift(Shift(r)))))))
  }

  function Constant(r: bv8): Lane {
    Bits(r, Shift(r), Shift(Shift(r)), Shift(Shift(Shift(r))), Shift(Shift(Shift(Shift(r)))),
         Shift(Shift(Shift(Shift(Shift(r))))), Shift(Shift(Shift(Shift(Shift(Shift(r)))))))
  }

  lemma SevenSteps(t: nat)
    ensures Register(t + 1) == Shift(Register(t))
    ensures Register(t + 2) == Shift(Shift(Register(t)))
    ensures Register(t + 3) == Shift(Shift(Shift(Register(t))))
    ensures Register(t + 4) == Shift(Shift(Shift(Shift(Register(t)))))
    ensures Register(t + 5) == Shift(Shift(Shift(Shift(Shift(Register(t))))))
    ensures Register(t + 6) == Shift(Shift(Shift(Shift(Shift(Shift(Register(t)))))))
    ensures Register(t + 7) == Shift7(Register(t))
  {
    hide Shift;
    assert Register(t + 4) == Shift(Register(t + 3));
  }

  lemma ConstantOfRound(round: nat)
    requires round < 24
    ensures RoundConstant(round) == Constant(Register(7 * round))
  {
    hide Shift;
    hide Bits;
    var t := 7 * round;
    SevenSteps(t);
    forall i | t <= i <= t + 6
      ensures i % 255 == i
    {
      assert i < 255;
    }
  }

  lemma TableEntries()
    ensures Shift7(0x01) == 0x80 && Constant(0x01) == 0x0000000000000001
    ensures Shift7(0x80) == 0xd8 && Constant(0x80) == 0x0000000000008082
    ensures Shift7(0xd8) == 0x1a && Constant(0xd8) == 0x800000000000808a
    ensures Shift7(0x1a) == 0xdf && Constant(0x1a) == 0x8000000080008000
    ensures Shift7(0xdf) == 0x09 && Constant(0xdf) == 0x000000000000808b
    ensures Shift7(0x09) == 0x35 && Constant(0x09) == 0x0000000080000001
    ensures Shift7(0x35) == 0x4f && Constant(0x35) == 0x8000000080008081
    ensures Shift7(0x4f) == 0xca && Constant(0x4f) == 0x8000000000008009
    ensures Shift7(0xca) == 0x70 && Constant(0xca) == 0x000000000000008a
    ensures Shift7(0x70) == 0x41 && Constant(0x70) == 0x0000000000000088
    ensures Shift7(0x41) == 0xec && Constant(0x41) == 0x0000000080008009
    ensures Shift7(0xec) == 0xd5 && Constant(0xec) == 0x000000008000000a
    ensures Shift7(0xd5) == 0xcd && Constant(0xd5) == 0x000000008000808b
    ensures Shift7(0xcd) == 0x63 && Constant(0xcd) == 0x800000000000008b
    ensures Shift7(0x63) == 0xab && Constant(0x63) == 0x8000000000008089
    ensures Shift7(0xab) == 0xaa && Constant(0xab) == 0x8000000000008003
    ensures Shift7(0xaa) == 0x2a && Constant(0xaa) == 0x8000000000008002
    ensures Shift7(0x2a) == 0xf2 && Constant(0x2a) == 0x8000000000000080
    ensures Shift7(0xf2) == 0xe8 && Constant(0xf2) == 0x000000000000800a
    ensures Shift7(0xe8) == 0x37 && Constant(0xe8) == 0x800000008000000a
    ensures Shift7(0x37) == 0x3e && Constant(0x37) == 0x8000000080008081
    ensures Shift7(0x3e) == 0x0b && Constant(0x3e) == 0x8000000000008080
    ensures Shift7(0x0b) == 0x44 && Constant(0x0b) == 0x0000000080000001
    ensures Shift7(0x44) == 0x8e && Constant(0x44) == 0x8000000080008008
  {
  }

  lemma EveryEntryFits(k: nat)
    requires k < 24
    ensures Shift7(RegisterOf(k)) == RegisterOf(k + 1) && Constant(RegisterOf(k)) == Rndc(k)
  {
    hide Shift7;
    hide Constant;
    TableEntries();
  }

  lemma {:induction false} RegisterTable(round: nat)
    requires round < 24
    ensures Register(7 * round) == RegisterOf(round)
  {
    hide Register;
    hide RegisterOf;
    hide Shift7;
    hide Constant;
    if round == 0 {
      FirstRegister();
    } else {
      RegisterTable(round - 1);
      SevenSteps(7 * (round - 1));
      EveryEntryFits(round - 1);
    }
  }

  lemma FirstRegister()
    ensures Register(0) == RegisterOf(0)
  {
  }

  /** keccakf_rndc holds the round constants that the shift register of section 3.2.5 generates. */
  lemma RoundConstantTable(round: nat)
    requires round < 24
    ensures Rndc(round) == RoundConstant(round)
  {
    hide Constant;
    hide RoundConstant;
    hide Shift7;
    RegisterTable(round);
    ConstantOfRound(round);
    EveryEntryFits(round);
  }

  /** Where the single temporary of the rho-pi loop comes from at step t. */
  function Source(t: nat): nat
    requires t <= 24
  {
    if t == 0 then 1 else Piln(t - 1)
  }

  /** The step of the rho-pi loop that writes lane p > 0. */
  function StepOf(p: nat): nat
    requires p < 25
  {
    match p
    case 0 => 0 case 1 => 23 case 2 => 17 case 3 => 5 case 4 => 11 case 5 => 6 case 6 => 22 case 7 => 1 case 8 => 8
    case 9 => 21 case 10 => 0 case 11 => 2 case 12 => 16 case 13 => 15 case 14 => 19 case 15 => 12 case 16 => 7 case 17 => 3
    case 18 => 4 case 19 => 14 case 20 => 18 case 21 => 9 case 22 => 20 case 23 => 13 case 24 => 10
  }

  lemma StepOfInvertsPiln(t: nat)
    requires t < 24
    ensures 0 < Piln(t) < 25 && StepOf(Piln(t)) == t
  {
  }

  lemma PilnInvertsStepOf(p: nat)
    requires 0 < p < 25
    ensures StepOf(p) < 24 && Piln(StepOf(p)) == p
  {
  }

  lemma PilnStepEarly(t: nat)
    requires t < 8
    ensures WalkStep(Source(t)) == Piln(t)
  {
  }

  lemma PilnStepMiddle(t: nat)
    requires 8 <= t < 16
    ensures WalkStep(Source(t)) == Piln(t)
  {
  }

  lemma PilnStepLate(t: nat)
    requires 16 <= t < 24
    ensures WalkStep(Source(t)) == Piln(t)
  {
  }

  lemma PilnStep(t: nat)
    requires t < 24
    ensures WalkStep(Source(t)) == Piln(t)
  {
    if t < 8 {
      PilnStepEarly(t);
    } else if t < 16 {
      PilnStepMiddle(t);
    } else {
      PilnStepLate(t);
    }
  }

  lemma PilnSource(t: nat)
    requires t < 24
    ensures Piln(t) < 25 && PiSource(Piln(t)) == Source(t)
  {
  }

  lemma RotcEntryEarly(t: nat)
    requires t < 8
    ensures Rotc(t) == (t + 1) * (t + 2) / 2 % 64
  {
  }

  lemma RotcEntryMiddle(t: nat)
    requires 8 <= t < 16
    ensures Rotc(t) == (t + 1) * (t + 2) / 2 % 64
  {
  }

  lemma RotcEntryLate(t: nat)
    requires 16 <= t < 24
    ensures Rotc(t) == (t + 1) * (t + 2) / 2 % 64
  {
  }

  lemma RotcEntry(t: nat)
    requires t < 24
    ensures 0 < Rotc(t) < 64
    ensures Rotc(t) == (t + 1) * (t + 2) / 2 % 64
  {
    if t < 8 {
      RotcEntryEarly(t);
    } else if t < 16 {
      RotcEntryMiddle(t);
    } else {
      RotcEntryLate(t);
    }
  }

  /** keccakf_piln lists the lanes that the walk of section 3.2.2 visits after (1, 0). */
  lemma {:induction false} PilnIsTheWalk(t: nat)
    requires t <= 24
    ensures Walk(t) == Source(t)
  {
    if t > 0 {
      PilnIsTheWalk(t - 1);
      PilnStep(t - 1);
    }
  }

  /** keccakf_rotc lists the offsets of section 3.2.2 in the order of that walk. */
  lemma {:induction false} RotcIsTheOffset(t: nat, from: nat := 0)
    requires from <= t < 24
    ensures RhoOffset(Source(t), from) == Rotc(t)
    decreases t - from
  {
    hide WalkStep;
    PilnIsTheWalk(from);
    RotcEntry(t);
    if from < t {
      RotcIsTheOffset(t, from + 1);
      StepOfInvertsPiln(t - 1);
      if from > 0 {
        StepOfInvertsPiln(from - 1);
      } else {
        StepOfInvertsPiln(23);
      }
    }
  }

  lemma {:induction false} LaneZeroStays(from: nat := 0)
    requires from <= 24
    ensures RhoOffset(0, from) == 0
    decreases 24 - from
  {
    if from < 24 {
      PilnIsTheWalk(from);
      if from > 0 {
        StepOfInvertsPiln(from - 1);
      }
      LaneZeroStays(from + 1);
    }
  }

  // ----- The in-place permutation -----

  /** What step t of the rho-pi loop writes. */
  function FusedLane(a: State, t: nat): Lane
    requires t < 24
  {
    RotcEntry(t);
    Rotl(a[Source(t)], Rotc(t))
  }

  /** What the whole rho-pi loop leaves in each lane. */
  function Fused(a: State): State {
    seq(25, p requires 0 <= p < 25 => if p == 0 then a[0] else FusedLane(a, StepOf(p)))
  }

  lemma FusedLaneIsRho(a: State, t: nat)
    requires t < 24
    ensures Source(t) < 25 && FusedLane(a, t) == RhoLane(a, Source(t))
  {
    RotcIsTheOffset(t);
    RotcEntry(t);
    if t > 0 {
      StepOfInvertsPiln(t - 1);
    }
  }

  lemma LaneZeroIsKept(a: State)
    ensures RhoLane(a, 0) == a[0] && PiSource(0) == 0
  {
    LaneZeroStays();
  }

  lemma FusedIsRhoThenPi(a: State)
    ensures Fused(a) == Pi(Rho(a))
  {
    hide FusedLane;
    hide RhoLane;
    hide Piln;
    hide StepOf;
    hide Source;
    hide PiSource;
    forall p | 0 <= p < 25
      ensures Fused(a)[p] == Pi(Rho(a))[p]
    {
      if p == 0 {
        LaneZeroIsKept(a);
      } else {
        PilnInvertsStepOf(p);
        PilnSource(StepOf(p));
        FusedLaneIsRho(a, StepOf(p));
      }
    }
  }

  method ThetaInPlace(s: array<Lane>)
    requires s.Length == 25
    modifies s
    ensures s[..] == Theta(old(s[..]))
  {
    ghost var a: State := s[..];
    var bc := ColumnParities(s);
    MixColumns(s, bc);
    assert s[..] == Theta(a);
  }

  /** The first loop of theta. */
  method ColumnParities(s: array<Lane>) returns (bc: array<Lane>)
    requires s.Length == 25
    ensures fresh(bc) && bc[..] == Columns(s[..])
  {
    hide Xor5;
    bc := new Lane[5];
    for i := 0 to 5
      invariant forall x: nat :: x < i ==> bc[x] == Column(s[..], x)
    {
      bc[i] := Xor5(s[i], s[i + 5], s[i + 10], s[i + 15], s[i + 20]);
    }
  }

  /** The second loop of theta. */
  method MixColumns(s: array<Lane>, bc: array<Lane>)
    requires s.Length == 25 && bc.Length == 5 && s != bc
    modifies s
    ensures forall p :: 0 <= p < 25 ==> s[p] == Mix(old(s[p]), bc[..], p % 5)
  {
    hide Xor;
    hide Rotl;
    for i := 0 to 5
      invariant forall p :: 0 <= p < 25 ==> s[p] == if p % 5 < i then Mix(old(s[p]), bc[..], p % 5) else old(s[p])
    {
      var t := Xor(bc[(i + 4) % 5], Rotl(bc[(i + 1) % 5], 1));
      AddToColumn(s, i, t);
    }
  }

  /** The inner loop of the second loop of theta. */
  method AddToColumn(s: array<Lane>, i: nat, t: Lane)
    requires s.Length == 25 && i < 5
    modifies s
    ensures forall p :: 0 <= p < 25 ==> s[p] == if p % 5 == i then Xor(old(s[p]), t) else old(s[p])
  {
    hide Xor;
    var j := 0;
    while j < 25
      invariant 0 <= j <= 25 && j % 5 == 0
      invariant forall p :: 0 <= p < 25 ==> s[p] == if p % 5 == i && p < j then Xor(old(s[p]), t) else old(s[p])
    {
      s[j + i] := Xor(s[j + i], t);
      j := j + 5;
    }
  }

  /** After i steps of the rho-pi loop, whatever the values w that the steps write: the lanes of the
      first i steps are written, the others keep their old value, and the temporary holds the old
      value of the lane written last. */
  ghost predicate Walked(s: seq<Lane>, a: State, w: seq<Lane>, i: nat, t: Lane)
    requires |s| == 25 && |w| == 24 && i <= 24
  {
    && t == a[Source(i)]
    && s[0] == a[0]
    && forall p :: 0 < p < 25 ==> s[p] == if StepOf(p) < i then w[StepOf(p)] else a[p]
  }

  lemma WalkOn(s: seq<Lane>, a: State, w: seq<Lane>, i: nat, t: Lane)
    requires |s| == 25 && |w| == 24 && i < 24 && Walked(s, a, w, i, t)
    ensures Piln(i) < 25 && Walked(s[Piln(i) := w[i]], a, w, i + 1, s[Piln(i)])
  {
    StepOfInvertsPiln(i);
    forall p | 0 < p < 25 && p != Piln(i)
      ensures StepOf(p) != i
    {
      PilnInvertsStepOf(p);
    }
  }

  lemma WalkEnds(s: seq<Lane>, a: State, w: seq<Lane>, t: Lane)
    requires |s| == 25 && |w| == 24 && Walked(s, a, w, 24, t)
    ensures forall p :: 0 < p < 25 ==> StepOf(p) < 24 && s[p] == w[StepOf(p)]
  {
    forall p | 0 < p < 25
      ensures StepOf(p) < 24 && s[p] == w[StepOf(p)]
    {
      PilnInvertsStepOf(p);
    }
  }

  method RhoPiInPlace(s: array<Lane>)
    requires s.Length == 25
    modifies s
    ensures s[..] == Pi(Rho(old(s[..])))
  {
    ghost var a: State := s[..];
    hide Rotl;
    ghost var w := seq(24, t requires 0 <= t < 24 => FusedLane(a, t));
    var t := s[1];
    for i := 0 to 24
      invariant Walked(s[..], a, w, i, t)
    {
      WalkOn(s[..], a, w, i, t);
      RotcEntry(i);
      var j := Piln(i);
      var b := s[j];
      s[j] := Rotl(t, Rotc(i));
      t := b;
    }
    WalkEnds(s[..], a, w, t);
    assert s[..] == Fused(a);
    FusedIsRhoThenPi(a);
  }

  method ChiInPlace(s: array<Lane>)
    requires s.Length == 25
    modifies s
    ensures s[..] == Chi(old(s[..]))
  {
    hide ChiLane;
    ghost var a: State := s[..];
    var j := 0;
    while j < 25
      invariant 0 <= j <= 25 && j % 5 == 0
      invariant forall p :: 0 <= p < 25 ==> s[p] == if p < j then ChiLane(a, p % 5, p / 5) else a[p]
    {
      ChiRow(s, j / 5, a);
      j := j + 5;
    }
    assert s[..] == Chi(a);
  }

  /** The two inner loops of chi, on row y. */
  method ChiRow(s: array<Lane>, y: nat, ghost a: State)
    requires s.Length == 25 && y < 5
    requires forall p :: 5 * y <= p < 5 * y + 5 ==> s[p] == a[p]
    modifies s
    ensures forall p :: 0 <= p < 25 ==>
      s[p] == if 5 * y <= p < 5 * y + 5 then ChiLane(a, p - 5 * y, y) else old(s[p])
  {
    hide ChiLane;
    var bc := new Lane[5];
    for i := 0 to 5
      invariant s[..] == old(s[..])
      invariant forall x :: 0 <= x < i ==> bc[x] == a[5 * y + x]
    {
      bc[i] := s[5 * y + i];
    }
    for i := 0 to 5
      invariant forall x :: 0 <= x < 5 ==> bc[x] == a[5 * y + x]
      invariant forall p :: 0 <= p < 25 ==>
        s[p] == if 5 * y <= p < 5 * y + i then ChiLane(a, p - 5 * y, y) else old(s[p])
    {
      s[5 * y + i] := s[5 * y + i] ^ (!bc[(i + 1) % 5] & bc[(i + 2) % 5]);
      ChiLaneFormula(a, i, y);
    }
  }

  lemma ChiLaneFormula(a: State, x: nat, y: nat)
    requires x < 5 && y < 5
    ensures ChiLane(a, x, y) == a[5 * y + x] ^ (!a[5 * y + (x + 1) % 5] & a[5 * y + (x + 2) % 5])
  {
  }

  method RoundInPlace(s: array<Lane>, round: nat)
    requires s.Length == 25 && round < 24
    modifies s
    ensures s[..] == Round(old(s[..]), round)
  {
    hide Theta;
    hide Rho;
    hide Pi;
    hide Chi;
    hide RoundConstant;
    ThetaInPlace(s);
    RhoPiInPlace(s);
    ChiInPlace(s);
    RoundConstantTable(round);
    ghost var b: State := s[..];
    s[0] := s[0] ^ Rndc(round);
    assert s[..] == Iota(b, round);
  }

  /** The in-place permutation is the permutation of FIPS 202. */
  method KeccakInPlace(s: array<Lane>)
    requires s.Length == 25
    modifies s
    ensures s[..] == KeccakF(old(s[..]))
  {
    hide Round;
    for round := 0 to 24
      invariant s[..] == Rounds(old(s[..]), round)
    {
      RoundInPlace(s, round);
    }
  }
}
