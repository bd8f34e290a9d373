/** When a digest can be told from its print.  "%x" prints a byte below 16 as one digit, so the digits of
    two different digests can be the same. */
module HexPrint {
  import opened ByteValues
  import opened Hashes
  import opened NodeDigest
  import opened Sponge

  /** A byte as a number. */
  type Octet = n: nat | n < 256

  type Digit = n: nat | n < 16

  function Digits(n: Octet): seq<Digit> {
    if n < 16 then [n] else [n / 16, n % 16]
  }

  function AllDigits(a: seq<Octet>): seq<Digit> {
    if a == [] then [] else Digits(a[0]) + AllDigits(a[1..])
  }

  lemma FirstDigits(a: seq<Octet>)
    requires a != []
    ensures a[0] < 16 ==> |AllDigits(a)| > 0 && AllDigits(a)[0] == a[0] && AllDigits(a)[1..] == AllDigits(a[1..])
    ensures a[0] >= 16 ==>
      |AllDigits(a)| > 1 && AllDigits(a)[0] == a[0] / 16 && AllDigits(a)[1] == a[0] % 16
      && AllDigits(a)[2..] == AllDigits(a[1..])
  {
  }

  lemma {:induction false} AllDigitsConcat(a: seq<Octet>, b: seq<Octet>)
    ensures AllDigits(a + b) == AllDigits(a) + AllDigits(b)
  {
    if a == [] {
      assert a + b == b;
    } else {
      assert (a + b)[1..] == a[1..] + b;
      AllDigitsConcat(a[1..], b);
    }
  }

  // ----- Digests that print alone -----

  predicate AllShort(a: seq<Octet>) {
    forall i :: 0 <= i < |a| ==> a[i] < 16
  }

  /** n can follow m: no digit can move between them. */
  predicate NoMove(m: Octet, n: Octet) {
    (m < 16 ==> m == 0) && (m >= 16 && n < 16 ==> m % 16 == 0)
  }

  predicate Rigid(a: seq<Octet>) {
    forall i :: 0 <= i < |a| - 1 ==> NoMove(a[i], a[i + 1])
  }

  lemma RigidRest(a: seq<Octet>)
    requires a != [] && Rigid(a)
    ensures Rigid(a[1..])
    ensures |a| > 1 ==> NoMove(a[0], a[1])
  {
    forall i | 0 <= i < |a[1..]| - 1
      ensures NoMove(a[1..][i], a[1..][i + 1])
    {
      assert NoMove(a[i + 1], a[i + 2]);
    }
  }

  /** No other bytes print a rigid print, unless they are more. */
  lemma {:induction false} RigidIsLeast(a: seq<Octet>, b: seq<Octet>)
    requires Rigid(a) && AllDigits(a) == AllDigits(b)
    ensures |a| <= |b| && (|a| == |b| ==> a == b)
    decreases |a|, 0
  {
    if a != [] {
      RigidRest(a);
      FirstDigits(a);
      if b == [] {
        assert false;
      }
      FirstDigits(b);
      if (a[0] < 16) == (b[0] < 16) {
        RigidIsLeast(a[1..], b[1..]);
        SameHead(a, b);
      } else if a[0] >= 16 {
        LeftOverDigit(a[0] % 16, a[1..], b[1..]);
      }
    }
  }

  lemma SameHead(a: seq<Octet>, b: seq<Octet>)
    requires a != [] && b != [] && AllDigits(a) == AllDigits(b) && (a[0] < 16) == (b[0] < 16)
    ensures a[0] == b[0]
    ensures a[1..] == b[1..] ==> a == b
  {
    FirstDigits(a);
    FirstDigits(b);
    assert a == [a[0]] + a[1..] && b == [b[0]] + b[1..];
  }

  /** A digit left over before a rigid print costs at least one more byte. */
  lemma {:induction false} LeftOverDigit(y: Digit, a: seq<Octet>, b: seq<Octet>)
    requires Rigid(a) && AllDigits(b) == [y] + AllDigits(a)
    requires a != [] && a[0] < 16 ==> y == 0
    ensures |a| < |b|
    decreases |a|, 1
  {
    if b == [] {
      assert false;
    }
    FirstDigits(b);
    if b[0] < 16 {
      assert AllDigits(b[1..]) == AllDigits(a);
      RigidIsLeast(a, b[1..]);
    } else if a != [] {
      RigidRest(a);
      FirstDigits(a);
      LeftOverDigit(a[0] % 16, a[1..], b[1..]);
    }
  }

  lemma {:induction false} DigitCount(a: seq<Octet>)
    ensures |a| <= |AllDigits(a)|
    ensures AllShort(a) ==> |AllDigits(a)| == |a|
  {
    if a != [] {
      DigitCount(a[1..]);
    }
  }

  /** No bytes of the same number print all short bytes, except these. */
  lemma {:induction false} ShortPrintsAlone(a: seq<Octet>, b: seq<Octet>)
    requires AllShort(a) && |a| == |b| && AllDigits(a) == AllDigits(b)
    ensures a == b
  {
    if a != [] {
      FirstDigits(a);
      FirstDigits(b);
      DigitCount(a[1..]);
      DigitCount(b[1..]);
      ShortPrintsAlone(a[1..], b[1..]);
      SameHead(a, b);
    }
  }

  // ----- Digests that do not -----

  /** Two digits of byte j as two bytes. */
  function Split(a: seq<Octet>, j: nat): (r: seq<Octet>)
    requires j < |a| && a[j] >= 16
    ensures |r| == |a| + 1
  {
    a[..j] + [a[j] / 16, a[j] % 16] + a[j + 1..]
  }

  /** Two one-digit bytes as one byte. */
  function Merge(a: seq<Octet>, k: nat): (r: seq<Octet>)
    requires k + 1 < |a| && 0 < a[k] < 16 && a[k + 1] < 16
    ensures |r| == |a| - 1
  {
    a[..k] + [16 * a[k] + a[k + 1]] + a[k + 2..]
  }

  lemma PairPrintsAsOne(x: Octet, y: Octet)
    requires 0 < x < 16 && y < 16
    ensures AllDigits([x, y]) == AllDigits([16 * x + y]) == [x, y]
  {
    assert [x, y][1..] == [y] && [y][1..] == [] && [16 * x + y][1..] == [];
    assert (16 * x + y) / 16 == x && (16 * x + y) % 16 == y;
  }

  lemma TwoDigits(n: Octet)
    requires n >= 16
    ensures AllDigits([n / 16, n % 16]) == AllDigits([n])
  {
    PairPrintsAsOne(n / 16, n % 16);
    assert 16 * (n / 16) + n % 16 == n;
  }

  lemma SplitKeepsDigits(a: seq<Octet>, j: nat)
    requires j < |a| && a[j] >= 16
    ensures AllDigits(Split(a, j)) == AllDigits(a)
  {
    hide AllDigits;
    TwoDigits(a[j]);
    ReplaceOne(a, j, [a[j] / 16, a[j] % 16]);
  }

  lemma ReplaceOne(a: seq<Octet>, j: nat, parts: seq<Octet>)
    requires j < |a| && AllDigits(parts) == AllDigits([a[j]])
    ensures AllDigits(a[..j] + parts + a[j + 1..]) == AllDigits(a)
  {
    hide AllDigits;
    SamePrint(a[..j], [a[j]], parts, a[j + 1..]);
    assert a == a[..j] + [a[j]] + a[j + 1..];
  }

  lemma SamePrint(before: seq<Octet>, x: seq<Octet>, y: seq<Octet>, after: seq<Octet>)
    requires AllDigits(x) == AllDigits(y)
    ensures AllDigits(before + x + after) == AllDigits(before + y + after)
  {
    AllDigitsConcat(before + x, after);
    AllDigitsConcat(before + y, after);
    AllDigitsConcat(before, x);
    AllDigitsConcat(before, y);
  }

  lemma MergeKeepsDigits(a: seq<Octet>, k: nat)
    requires k + 1 < |a| && 0 < a[k] < 16 && a[k + 1] < 16
    ensures AllDigits(Merge(a, k)) == AllDigits(a)
  {
    hide AllDigits;
    PairPrintsAsOne(a[k], a[k + 1]);
    SamePrint(a[..k], [16 * a[k] + a[k + 1]], [a[k], a[k + 1]], a[k + 2..]);
    assert a == a[..k] + [a[k], a[k + 1]] + a[k + 2..];
  }

  /** Splitting a byte and merging two others gives different bytes of the same number and print. */
  lemma SplitAndMerge(a: seq<Octet>, j: nat, k: nat)
    requires j < |a| && a[j] >= 16
    requires k < |a| && k != j && 0 < Split(a, j)[k] < 16 && Split(a, j)[k + 1] < 16
    ensures
      var b := Merge(Split(a, j), k);
      |b| == |a| && b != a && AllDigits(b) == AllDigits(a)
  {
    var s := Split(a, j);
    var b := Merge(s, k);
    SplitKeepsDigits(a, j);
    MergeKeepsDigits(s, k);
    if k < j {
      assert b[k] >= 16 && a[k] == s[k];
    } else {
      assert b[j] == s[j] == a[j] / 16;
    }
  }

  /** The digits can be moved if some byte is long and some byte lets its successor move. */
  lemma Movable(a: seq<Octet>, i: nat, j: nat) returns (b: seq<Octet>)
    requires i + 1 < |a| && !NoMove(a[i], a[i + 1]) && j < |a| && a[j] >= 16
    ensures |b| == |a| && b != a && AllDigits(b) == AllDigits(a)
  {
    if a[i] >= 16 {
      SplitAndMerge(a, i, i + 1);
      b := Merge(Split(a, i), i + 1);
    } else if a[i + 1] >= 16 {
      SplitAndMerge(a, i + 1, i);
      b := Merge(Split(a, i + 1), i);
    } else {
      var k := if j < i then i + 1 else i;
      SplitAndMerge(a, j, k);
      b := Merge(Split(a, j), k);
    }
  }

  // ----- The exact condition -----

  function Octets(bs: seq<Byte>): (r: seq<Octet>)
    ensures |r| == |bs|
  {
    seq(|bs|, i requires 0 <= i < |bs| => bs[i] as nat)
  }

  function BytesOfOctets(a: seq<Octet>): (r: seq<Byte>)
    ensures |r| == |a|
  {
    seq(|a|, i requires 0 <= i < |a| => ByteWithValue(a[i]))
  }

  function Print(digits: seq<Digit>): (r: string)
    ensures |r| == |digits|
  {
    seq(|digits|, i requires 0 <= i < |digits| => HexDigit(digits[i]))
  }

  lemma PrintIsInjective(x: seq<Digit>, y: seq<Digit>)
    requires Print(x) == Print(y)
    ensures x == y
  {
    forall i | 0 <= i < |x|
      ensures |x| == |y| && x[i] == y[i]
    {
      assert Print(x)[i] == HexDigit(x[i]) && Print(y)[i] == HexDigit(y[i]);
    }
  }

  lemma PrintConcat(x: seq<Digit>, y: seq<Digit>)
    ensures Print(x + y) == Print(x) + Print(y)
  {
  }

  lemma HexIsPrint(b: Byte)
    ensures Hex(b) == Print(Digits(b as nat)) && AllDigits([b as nat]) == Digits(b as nat)
  {
    hide HexOf;
    LastDigits(b as nat);
  }

  lemma {:induction false} HexAllIsPrint(bs: seq<Byte>)
    ensures HexAll(bs) == Print(AllDigits(Octets(bs)))
  {
    hide AllHex;
    hide Hex;
    hide Digits;
    hide Print;
    if bs == [] {
      NothingPrinted();
    } else {
      var n := |bs| - 1;
      HexAllIsPrint(bs[..n]);
      assert Octets(bs) == Octets(bs[..n]) + [bs[n] as nat];
      hide AllDigits;
      AllDigitsConcat(Octets(bs[..n]), [bs[n] as nat]);
      HexIsPrint(bs[n]);
      PrintConcat(AllDigits(Octets(bs[..n])), Digits(bs[n] as nat));
    }
  }

  lemma NothingPrinted()
    ensures Print(AllDigits(Octets([]))) == ""
  {
  }

  lemma LastDigits(n: Octet)
    ensures AllDigits([n]) == Digits(n) && HexOf(n) == Print(Digits(n))
  {
    assert [n][1..] == [];
  }

  lemma SamePrintSameDigits(a: seq<Byte>, b: seq<Byte>)
    ensures HexAll(a) == HexAll(b) <==> AllDigits(Octets(a)) == AllDigits(Octets(b))
  {
    hide HexAll;
    hide AllDigits;
    hide AllHex;
    HexAllIsPrint(a);
    HexAllIsPrint(b);
    if HexAll(a) == HexAll(b) {
      PrintIsInjective(AllDigits(Octets(a)), AllDigits(Octets(b)));
    }
  }

  lemma OctetsOfBytes(a: seq<Octet>)
    ensures Octets(BytesOfOctets(a)) == a
  {
  }

  lemma OctetsAreInjective(a: seq<Byte>, b: seq<Byte>)
    requires Octets(a) == Octets(b)
    ensures a == b
  {
    forall i | 0 <= i < |a|
      ensures |a| == |b| && a[i] == b[i]
    {
      assert Octets(a)[i] == Octets(b)[i];
      ValueOfByte(a[i]);
      ValueOfByte(b[i]);
    }
  }

  /** Every byte prints as one digit; or no digit can move from one byte to the next. */
  predicate PrintsAlone(a: seq<Byte>) {
    AllShort(Octets(a)) || Rigid(Octets(a))
  }

  ghost predicate IsUnique(a: seq<Byte>) {
    forall b: seq<Byte> :: |b| == |a| && HexAll(b) == HexAll(a) ==> b == a
  }

  /** A digest can be told from all others of its length by its print exactly when it prints alone. */
  lemma UniqueExactly(a: seq<Byte>)
    ensures PrintsAlone(a) <==> IsUnique(a)
  {
    hide HexAll;
    hide AllDigits;
    hide Octets;
    hide AllHex;
    if PrintsAlone(a) {
      forall b: seq<Byte> | |b| == |a| && HexAll(b) == HexAll(a)
        ensures b == a
      {
        PrintsAloneIsUnique(a, b);
      }
    } else {
      var b := AnotherPrint(a);
      assert !IsUnique(a);
    }
  }

  lemma PrintsAloneIsUnique(a: seq<Byte>, b: seq<Byte>)
    requires PrintsAlone(a) && |b| == |a| && HexAll(b) == HexAll(a)
    ensures b == a
  {
    hide HexAll;
    hide AllDigits;
    hide Octets;
    hide Rigid;
    hide AllShort;
    SamePrintSameDigits(a, b);
    if AllShort(Octets(a)) {
      ShortPrintsAlone(Octets(a), Octets(b));
    } else {
      RigidIsLeast(Octets(a), Octets(b));
    }
    OctetsAreInjective(a, b);
  }

  lemma AnotherPrint(a: seq<Byte>) returns (b: seq<Byte>)
    requires !PrintsAlone(a)
    ensures |b| == |a| && b != a && HexAll(b) == HexAll(a)
  {
    hide HexAll;
    hide AllDigits;
    hide Octets;
    hide NoMove;
    hide BytesOfOctets;
    var o := Octets(a);
    var i :| 0 <= i < |o| - 1 && !NoMove(o[i], o[i + 1]);
    var j :| 0 <= j < |o| && o[j] >= 16;
    var other := Movable(o, i, j);
    b := BytesOfOctets(other);
    OctetsOfBytes(other);
    SamePrintSameDigits(a, b);
  }

  lemma {:induction false} FullPrintIsLong(a: seq<Octet>, i: nat)
    requires |AllDigits(a)| >= 2 * |a| && i < |a|
    ensures a[i] >= 16 && |AllDigits(a)| == 2 * |a|
  {
    AtMostTwoDigits(a[1..]);
    if i > 0 {
      FullPrintIsLong(a[1..], i - 1);
    }
  }

  lemma {:induction false} AtMostTwoDigits(a: seq<Octet>)
    ensures |AllDigits(a)| <= 2 * |a|
  {
    if a != [] {
      AtMostTwoDigits(a[1..]);
    }
  }

  /** In particular a digest that prints with two digits for every byte. */
  lemma FullPrintIsUnique(a: seq<Byte>)
    requires |HexAll(a)| == 2 * |a|
    ensures IsUnique(a)
  {
    hide HexAll;
    hide AllDigits;
    hide IsUnique;
    hide AllHex;
    HexAllIsPrint(a);
    var o := Octets(a);
    forall i | 0 <= i < |o|
      ensures o[i] >= 16
    {
      FullPrintIsLong(o, i);
    }
    UniqueExactly(a);
  }
}
