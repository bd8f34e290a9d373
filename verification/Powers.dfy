/** Powers of two, and a little arithmetic. */
module Powers {

  function Pow2(e: nat): (p: nat)
    ensures p >= 1
  {
    if e == 0 then 1 else 2 * Pow2(e - 1)
  }

  lemma {:induction false} Pow2Grows(a: nat, b: nat)
    requires a < b
    ensures 2 * Pow2(a) <= Pow2(b)
    decreases b
  {
    if a + 1 < b {
      Pow2Grows(a, b - 1);
    }
  }

  lemma Pow2Halves(e: nat)
    ensures Pow2(e) == if e == 0 then 1 else 2 * Pow2(e - 1)
  {
  }

  lemma {:induction false} Pow2Product(a: nat, b: nat)
    ensures Pow2(a + b) == Pow2(a) * Pow2(b)
  {
    if a > 0 {
      Pow2Product(a - 1, b);
      assert Pow2(a) * Pow2(b) == 2 * (Pow2(a - 1) * Pow2(b));
    }
  }

  /** The integer logarithm of n, rounded down. */
  function Log2(n: nat): (e: nat)
    requires n > 0
    ensures Pow2(e) <= n < 2 * Pow2(e)
  {
    if n == 1 then 0 else 1 + Log2(n / 2)
  }

  lemma Log2OfPow2(e: nat)
    ensures Log2(Pow2(e)) == e
  {
    var f := Log2(Pow2(e));
    if f < e {
      Pow2Grows(f, e);
    } else if e < f {
      Pow2Grows(e, f);
    }
  }

  lemma MulBound(m: int, e: int)
    requires m > 0
    ensures e >= 1 ==> m * e >= m
    ensures e <= -1 ==> m * e <= -m
  {
  }

  lemma ModUnique(a: int, m: int, k: int, v: int)
    requires m > 0 && 0 <= v < m && a == m * k + v
    ensures a % m == v && a / m == k
  {
    var e := a / m - k;
    MulBound(m, e);
    assert m * e == m * (a / m) - m * k;
  }
}
