/** The few facts about numbers that several modules share. */
module Arith {

  lemma MulLess(d: nat, a: int, b: int)
    requires a < b
    ensures d * a + d <= d * b
  {
    assert d * (b - a - 1) >= 0;
    assert d * b == d * a + d + d * (b - a - 1);
  }

  lemma DivModUnique(n: int, d: nat, q: int, r: nat)
    requires r < d && n == d * q + r
    ensures n / d == q && n % d == r
  {
    assert n == d * (n / d) + n % d;
    if n / d < q {
      MulLess(d, n / d, q);
    } else if n / d > q {
      MulLess(d, q, n / d);
    }
  }

  lemma DivModShift(d: nat, q: nat, n: nat)
    requires d > 0
    ensures (d * q + n) % d == n % d
    ensures (d * q + n) / d == q + n / d
  {
    assert d * q + n == d * (q + n / d) + n % d by {
      assert n == d * (n / d) + n % d;
      assert d * (q + n / d) == d * q + d * (n / d);
    }
    DivModUnique(d * q + n, d, q + n / d, n % d);
  }

  lemma DivMonotone(m: nat, n: nat, d: nat)
    requires d > 0 && m <= n
    ensures m / d <= n / d
  {
    if n / d < m / d {
      MulLess(d, n / d, m / d);
    }
  }

  function Pow2(n: nat): nat {
    if n == 0 then 1 else 2 * Pow2(n - 1)
  }
}
