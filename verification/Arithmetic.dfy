// Facts about products and quotients.

module Arithmetic {
  /** The widths that the source's unsigned integers wrap at. */
  const W32: nat := 0x1_0000_0000
  const W64: nat := 0x1_0000_0000_0000_0000

  /** The largest int. */
  const INT_MAX: nat := 0x7FFF_FFFF

  const NS_PER_SEC: nat := 1_000_000_000
  const PS_PER_NS: nat := 1000

  lemma DivBounds(x: int, d: int)
    requires d > 0
    ensures d * (x / d) <= x < d * (x / d) + d
  {
  }

  lemma DivUnique(x: int, d: int, q: int)
    requires d > 0 && q * d <= x < q * d + d
    ensures x / d == q
  {
    DivBounds(x, d);
    var k := x / d;
    if k < q {
      MulMonotone(k + 1, q, d);
    } else if k > q {
      MulMonotone(q + 1, k, d);
    }
  }

  lemma MulMonotone(a: int, b: int, c: int)
    requires a <= b && 0 <= c
    ensures a * c <= b * c
  {
  }

  lemma DivMonotone(x: int, y: int, d: int)
    requires d > 0 && x <= y
    ensures x / d <= y / d
  {
    DivBounds(x, d);
    DivBounds(y, d);
    if x / d > y / d {
      MulMonotone(y / d + 1, x / d, d);
    }
  }

  // A quotient by a product is a quotient of a quotient.
  lemma DivDiv(n: nat, a: nat, b: nat)
    requires a > 0 && b > 0
    ensures a * b > 0 && n / (a * b) == n / a / b
  {
    assert a * b > 0 by { MulMonotone(1, a, b); }
    var q := n / a;
    DivBounds(n, a);
    DivBounds(q, b);
    var k := q / b;
    assert k * (a * b) <= n < k * (a * b) + a * b by {
      assert k * (a * b) == a * (b * k);
      assert k * (a * b) + a * b == a * (b * k + b);
      MulMonotone(b * k, q, a);
      MulMonotone(q + 1, b * k + b, a);
    }
    DivUnique(n, a * b, k);
  }

  /** A multiple of m leaves no remainder. */
  lemma MultipleOf(m: int, k: int)
    requires m > 0
    ensures m * k % m == 0 && m * k / m == k
  {
    DivUnique(m * k, m, k);
  }

  /** Sums and differences of multiples are multiples. */
  lemma MultiplesAdd(a: int, b: int, m: int)
    requires m > 0 && a % m == 0 && b % m == 0
    ensures (a - b) % m == 0 && (a + b) % m == 0
  {
    var x, y := a / m, b / m;
    assert a - b == m * (x - y) && a + b == m * (x + y);
    MultipleOf(m, x - y);
    MultipleOf(m, x + y);
  }

  /** Two to the power of n. */
  function Pow2(n: nat): (p: nat)
    ensures p > 0
  {
    if n == 0 then 1 else 2 * Pow2(n - 1)
  }

  lemma {:induction false} Pow2Adds(a: nat, b: nat)
    ensures Pow2(a + b) == Pow2(a) * Pow2(b)
  {
    if a > 0 {
      Pow2Adds(a - 1, b);
      assert 2 * (Pow2(a - 1) * Pow2(b)) == (2 * Pow2(a - 1)) * Pow2(b);
    }
  }
}
