/** Nonlinear facts kept away from the proofs that use them. */
module Arith {
  /** Quotient and remainder are unique. */
  lemma DivisionUnique(m: nat, q: int, r: nat, q': int, r': nat)
    requires r < m && r' < m && q * m + r == q' * m + r'
    ensures q == q' && r == r'
  {
    if q < q' {
      MulSplit(q' - q, q, m);
    } else if q' < q {
      MulSplit(q - q', q', m);
    }
  }

  lemma MulSplit(a: int, b: int, m: nat)
    requires a >= 1
    ensures (a + b) * m == a * m + b * m && a * m >= m
  {
    MulAtLeast(a, m);
  }

  lemma {:induction false} MulAtLeast(a: int, m: nat)
    requires a >= 1
    ensures a * m >= m
  {
    if a > 1 {
      MulAtLeast(a - 1, m);
      assert a * m == (a - 1) * m + m;
    }
  }

  lemma MulMonotone(a: nat, x: nat, y: nat)
    requires x <= y
    ensures a * x <= a * y
  {
    assert a * y - a * x == a * (y - x);
  }

  /** Reading quotient and remainder off `x == q * m + r`. */
  lemma DivisionIs(x: int, m: nat, q: int, r: nat)
    requires r < m && x == q * m + r
    ensures x / m == q && x % m == r
  {
    DivisionUnique(m, q, r, x / m, x % m);
  }
}
