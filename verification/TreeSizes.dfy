/** The number of leaves for a number of pages: the bit smearing of compute_tree_size. */
module TreeSizes {
  import opened Powers

  /** The bitwise or of two unsigned numbers. */
  function Or(a: nat, b: nat): nat
    decreases a + b
  {
    if a == 0 && b == 0 then 0
    else 2 * Or(a / 2, b / 2) + (if a % 2 == 1 || b % 2 == 1 then 1 else 0)
  }

  predicate BitOf(n: nat, j: nat) {
    if j == 0 then n % 2 == 1 else BitOf(n / 2, j - 1)
  }

  lemma OrOfHalves(a: nat, b: nat)
    ensures Or(a, b) / 2 == Or(a / 2, b / 2)
    ensures Or(a, b) % 2 == 1 <==> a % 2 == 1 || b % 2 == 1
  {
    var bit := if a % 2 == 1 || b % 2 == 1 then 1 else 0;
    assert Or(a, b) == 2 * Or(a / 2, b / 2) + bit;
  }

  /** Every bit is the or of the two bits. */
  lemma {:induction false} OrInBits(a: nat, b: nat, j: nat)
    ensures BitOf(Or(a, b), j) == (BitOf(a, j) || BitOf(b, j))
  {
    hide Or;
    OrOfHalves(a, b);
    if j > 0 {
      OrInBits(a / 2, b / 2, j - 1);
    }
  }

  /** The least power of two that is at least n. */
  function TreeSize(n: nat): nat
    requires n > 0
  {
    if n == 1 then 1 else 2 * Pow2(Log2(n - 1))
  }

  lemma TreeSizeIsLeast(n: nat, e: nat)
    requires n > 0
    ensures n <= TreeSize(n) && (n > 1 ==> TreeSize(n) < 2 * n)
    ensures exists k: nat :: TreeSize(n) == Pow2(k)
    ensures Pow2(e) >= n ==> Pow2(e) >= TreeSize(n)
  {
    if n == 1 {
      assert TreeSize(n) == Pow2(0);
    } else {
      var k := Log2(n - 1);
      assert TreeSize(n) == Pow2(k + 1);
      if Pow2(e) >= n {
        if e < k {
          Pow2Grows(e, k);
        } else if k + 1 < e {
          Pow2Grows(k + 1, e);
        }
      }
    }
  }

  lemma {:induction false} OrBelow(a: nat, b: nat, e: nat)
    requires a < Pow2(e) && b < Pow2(e)
    ensures Or(a, b) < Pow2(e)
    decreases e
  {
    if e > 0 {
      OrBelow(a / 2, b / 2, e - 1);
    }
  }

  /** Or leaves the bits above m alone when the second number has none there. */
  lemma {:induction false} OrUnderHighBits(high: nat, r: nat, b: nat, m: nat)
    requires r < Pow2(m) && b < Pow2(m)
    ensures Or(high * Pow2(m) + r, b) >= high * Pow2(m) + b
    decreases m
  {
    if m == 0 {
      OrOfZero(high);
    } else {
      var a := high * Pow2(m) + r;
      assert a == 2 * (high * Pow2(m - 1)) + r;
      assert a / 2 == high * Pow2(m - 1) + r / 2;
      OrUnderHighBits(high, r / 2, b / 2, m - 1);
    }
  }

  lemma {:induction false} OrOfZero(a: nat)
    ensures Or(a, 0) == a
  {
    if a != 0 {
      OrOfZero(a / 2);
    }
  }

  /** v >> j */
  function Shr(v: nat, j: nat): nat {
    MulBound(Pow2(j), v / Pow2(j));
    v / Pow2(j)
  }

  /** v has its highest bit at k, and at least j ones from there down. */
  ghost predicate Ones(v: nat, k: nat, j: nat) {
    v < Pow2(k + 1) && v + Pow2(if j <= k + 1 then k + 1 - j else 0) >= Pow2(k + 1)
  }

  lemma MulMono(d: nat, a: int, b: int)
    ensures a <= b ==> d * a <= d * b
  {
  }

  lemma QuotientBelow(v: nat, d: nat, q: nat)
    requires d > 0 && v < d * q
    ensures v / d < q
  {
    MulMono(d, q, v / d);
  }

  lemma QuotientAtLeast(v: nat, d: nat, q: nat)
    requires d > 0 && v >= d * q
    ensures v / d >= q
  {
    MulMono(d, v / d + 1, q);
    assert d * (v / d + 1) == d * (v / d) + d;
  }

  /** The low m bits of v receive the quotient, the high j bits are ones already. */
  lemma SmearCore(v: nat, j: nat, m: nat, top: nat, slack: nat)
    requires top == Pow2(j + m) && top <= v + Pow2(m) && v < top
    requires Shr(v, j) < Pow2(m) <= Shr(v, j) + slack
    ensures Or(v, Shr(v, j)) + slack >= top
  {
    hide Pow2;
    hide Or;
    hide Shr;
    Pow2Product(j, m);
    var high := Pow2(j) - 1;
    assert high * Pow2(m) == top - Pow2(m);
    OrUnderHighBits(high, v - high * Pow2(m), Shr(v, j), m);
  }

  /** or-ing v with v >> j doubles the number of leading ones. */
  lemma SmearStep(v: nat, k: nat, j: nat)
    requires Ones(v, k, j) && j > 0
    ensures Ones(Or(v, Shr(v, j)), k, 2 * j)
  {
    hide Pow2;
    hide Or;
    hide Shr;
    if j > k {
      SmearedAlready(v, k, j);
    } else {
      var m := k + 1 - j;
      var slack := Pow2(if 2 * j <= k + 1 then m - j else 0);
      SlackFits(v, k, j);
      SmearCore(v, j, m, Pow2(k + 1), slack);
      Pow2Grows(m, k + 1);
      OrBelow(v, Shr(v, j), k + 1);
    }
  }

  lemma SmearedAlready(v: nat, k: nat, j: nat)
    requires Ones(v, k, j) && j > k
    ensures Ones(Or(v, Shr(v, j)), k, 2 * j)
  {
    if j > k + 1 {
      Pow2Grows(k + 1, j);
    }
    ModUnique(v, Pow2(j), 0, v);
    OrOfZero(v);
  }

  lemma SlackFits(v: nat, k: nat, j: nat)
    requires Ones(v, k, j) && 0 < j <= k
    ensures
      var m := k + 1 - j;
      var slack := Pow2(if 2 * j <= k + 1 then m - j else 0);
      Shr(v, j) < Pow2(m) <= Shr(v, j) + slack
  {
    hide Pow2;
    var m := k + 1 - j;
    Pow2Product(j, m);
    QuotientBelow(v, Pow2(j), Pow2(m));
    if 2 * j <= k + 1 {
      HalfSmeared(v, k, j);
    } else {
      FullySmeared(v, k, j);
    }
  }

  lemma HalfSmeared(v: nat, k: nat, j: nat)
    requires Ones(v, k, j) && 0 < j <= k && 2 * j <= k + 1
    ensures Pow2(k + 1 - j) <= v / Pow2(j) + Pow2(k + 1 - 2 * j)
  {
    hide Pow2;
    var m := k + 1 - j;
    Pow2Product(j, m);
    Pow2Product(j, m - j);
    Pow2Grows(m - j, m);
    assert Pow2(j) * (Pow2(m) - Pow2(m - j)) == Pow2(k + 1) - Pow2(m);
    QuotientAtLeast(v, Pow2(j), Pow2(m) - Pow2(m - j));
  }

  lemma FullySmeared(v: nat, k: nat, j: nat)
    requires Ones(v, k, j) && 0 < j <= k && 2 * j > k + 1
    ensures Pow2(k + 1 - j) <= v / Pow2(j) + Pow2(0)
  {
    hide Pow2;
    var m := k + 1 - j;
    Pow2Halves(0);
    Pow2Product(j, m);
    Pow2Grows(m, j);
    assert Pow2(j) * (Pow2(m) - 1) == Pow2(k + 1) - Pow2(j);
    QuotientAtLeast(v, Pow2(j), Pow2(m) - 1);
  }

  const UINT: nat := 0x1_0000_0000

  lemma PowersInUse()
    ensures Pow2(1) == 2 && Pow2(2) == 4 && Pow2(4) == 16 && Pow2(8) == 256 && Pow2(16) == 65536
    ensures Pow2(30) == 0x4000_0000 && Pow2(31) == 0x8000_0000 && Pow2(32) == UINT && Pow2(0) == 1
  {
    assert Pow2(14) == 16384;
    Pow2Product(14, 16);
  }

  /** The five or-assignments of compute_tree_size. */
  function Smeared(v: nat): nat {
    var v1 := Or(v, v / 2);
    var v2 := Or(v1, v1 / 4);
    var v3 := Or(v2, v2 / 16);
    var v4 := Or(v3, v3 / 256);
    Or(v4, v4 / 65536)
  }

  /** They fill all bits below the highest one. */
  lemma SmearAll(v: nat, k: nat)
    requires Pow2(k) <= v < 2 * Pow2(k) && k < 32
    ensures Smeared(v) + 1 == 2 * Pow2(k)
  {
    PowersInUse();
    hide Or;
    var v1 := Or(v, v / 2);
    var v2 := Or(v1, v1 / 4);
    var v3 := Or(v2, v2 / 16);
    var v4 := Or(v3, v3 / 256);
    assert Ones(v, k, 1);
    hide Pow2;
    hide Ones;
    SmearStep(v, k, 1);
    SmearStep(v1, k, 2);
    SmearStep(v2, k, 4);
    SmearStep(v3, k, 8);
    SmearStep(v4, k, 16);
    OnesFull(Or(v4, v4 / 65536), k);
  }

  lemma OnesFull(v: nat, k: nat)
    requires Ones(v, k, 32) && k < 32
    ensures v + 1 == 2 * Pow2(k)
  {
  }

  lemma LogBelow(v: nat, e: nat)
    requires 0 < v < Pow2(e)
    ensures Log2(v) < e && 2 * Pow2(Log2(v)) <= Pow2(e)
  {
    hide Pow2;
    hide Log2;
    var k := Log2(v);
    assert Pow2(k) <= v;
    if k > e {
      Pow2Grows(e, k);
    } else if k < e {
      Pow2Grows(k, e);
    }
  }

  /** What the code computes for a C int; a tree of 2^31 leaves does not fit into one. */
  function TreeSizeInCode(index: int): int {
    if index > 0x4000_0000 || index == -0x8000_0000 then -0x8000_0000
    else if index <= 0 then 0
    else TreeSize(index)
  }

  function ToInt(v: nat): int {
    if v < 0x8000_0000 then v else v - UINT
  }

  lemma SmearedPlusOne(index: int)
    requires -0x8000_0000 <= index < 0x8000_0000
    ensures ToInt((Smeared((index - 1) % UINT) + 1) % UINT) == TreeSizeInCode(index)
  {
    hide Pow2;
    hide Log2;
    hide Smeared;
    PowersInUse();
    var v := (index - 1) % UINT;
    assert v == if index > 0 then index - 1 else index - 1 + UINT;
    if index == 1 {
      SmearedZero();
    } else if index == -0x8000_0000 || index > 0x4000_0000 {
      SmearAll(v, 30);
    } else if index <= 0 {
      SmearAll(v, 31);
    } else {
      LogBelow(v, 30);
      SmearAll(v, Log2(v));
    }
  }

  lemma SmearedZero()
    ensures Smeared(0) == 0
  {
    OrOfZero(0);
  }

  /** The least power of two, without a loop: the highest bit is copied into all bits below it.  The
      arithmetic is that of a 32-bit unsigned number. */
  method ComputeTreeSize(index: int) returns (size: int)
    requires -0x8000_0000 <= index < 0x8000_0000
    ensures size == TreeSizeInCode(index)
  {
    hide Or;
    hide TreeSizeInCode;
    hide ToInt;
    SmearedPlusOne(index);
    var v: nat := index % UINT;
    v := (v + UINT - 1) % UINT;
    assert v == (index - 1) % UINT;
    v := Or(v, v / 2);
    v := Or(v, v / 4);
    v := Or(v, v / 16);
    v := Or(v, v / 256);
    v := Or(v, v / 65536);
    v := (v + 1) % UINT;
    size := ToInt(v);
  }
}
