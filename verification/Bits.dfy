/** Exclusive or of unsigned integers, bit by bit, and its algebra. */
module Bits {
  function Pow2(n: nat): (r: nat)
    ensures r > 0
  {
    if n == 0 then 1 else 2 * Pow2(n - 1)
  }

  lemma Doubled(r: nat, p: nat, q: nat)
    requires r == p * q
    ensures 2 * r == 2 * p * q
  {
  }

  lemma {:induction false} Pow2Sum(m: nat, n: nat)
    ensures Pow2(m + n) == Pow2(m) * Pow2(n)
  {
    if m > 0 {
      Pow2Sum(m - 1, n);
      Doubled(Pow2(m - 1 + n), Pow2(m - 1), Pow2(n));
    }
  }

  function Xor(a: nat, b: nat): nat
    decreases a + b
  {
    if a == 0 && b == 0 then 0
    else 2 * Xor(a / 2, b / 2) + if a % 2 == b % 2 then 0 else 1
  }

  lemma XorParts(a: nat, b: nat)
    ensures Xor(a, b) / 2 == Xor(a / 2, b / 2)
    ensures Xor(a, b) % 2 == if a % 2 == b % 2 then 0 else 1
  {
  }

  lemma {:induction false} XorSelf(a: nat)
    ensures Xor(a, a) == 0
  {
    if a > 0 {
      XorSelf(a / 2);
    }
  }

  lemma {:induction false} XorZero(a: nat)
    ensures Xor(a, 0) == a == Xor(0, a)
  {
    if a > 0 {
      XorZero(a / 2);
    }
  }

  lemma {:induction false} XorCommutes(a: nat, b: nat)
    ensures Xor(a, b) == Xor(b, a)
    decreases a + b
  {
    if a + b > 0 {
      XorCommutes(a / 2, b / 2);
    }
  }

  lemma {:induction false} XorAssociates(a: nat, b: nat, c: nat)
    ensures Xor(Xor(a, b), c) == Xor(a, Xor(b, c))
    decreases a + b + c
  {
    if a + b + c > 0 {
      XorParts(a, b);
      XorParts(b, c);
      XorAssociates(a / 2, b / 2, c / 2);
    }
  }

  /** Two sums added crosswise. */
  lemma XorCross(a: nat, b: nat, c: nat, d: nat)
    ensures Xor(Xor(a, b), Xor(c, d)) == Xor(Xor(a, c), Xor(b, d))
  {
    XorAssociates(a, b, Xor(c, d));
    XorAssociates(b, c, d);
    XorCommutes(b, c);
    XorAssociates(c, b, d);
    XorAssociates(a, c, Xor(b, d));
  }

  lemma {:induction false} XorBound(a: nat, b: nat, n: nat)
    requires a < Pow2(n) && b < Pow2(n)
    ensures Xor(a, b) < Pow2(n)
    decreases n
  {
    if n > 0 {
      XorBound(a / 2, b / 2, n - 1);
    }
  }

  /** Adding the same twice undoes it. */
  lemma XorCancels(a: nat, b: nat)
    ensures Xor(Xor(a, b), b) == a
  {
    XorAssociates(a, b, b);
    XorSelf(b);
    XorZero(a);
  }

  lemma Twice(h: nat, n: nat)
    requires n > 0
    ensures h * Pow2(n) == 2 * (h * Pow2(n - 1))
  {
    assert Pow2(n) == 2 * Pow2(n - 1);
  }

  lemma XorEven(q: nat, low: nat)
    ensures Xor(2 * q, low) == 2 * Xor(q, low / 2) + low % 2
  {
    assert 2 * q / 2 == q && 2 * q % 2 == 0;
  }

  /** Numbers without a common bit: exclusive or is the sum. */
  lemma {:induction false} XorDisjoint(high: nat, low: nat, n: nat)
    requires low < Pow2(n)
    ensures Xor(high * Pow2(n), low) == high * Pow2(n) + low
    decreases n
  {
    if n == 0 {
      XorZero(high);
    } else {
      XorDisjoint(high, low / 2, n - 1);
      Twice(high, n);
      XorEven(high * Pow2(n - 1), low);
    }
  }

  lemma {:induction false} XorShifted(a: nat, b: nat, n: nat)
    ensures Xor(a * Pow2(n), b * Pow2(n)) == Xor(a, b) * Pow2(n)
    decreases n
  {
    hide Xor;
    if n > 0 {
      XorShifted(a, b, n - 1);
      Twice(a, n);
      Twice(b, n);
      Twice(Xor(a, b), n);
      XorEven(a * Pow2(n - 1), 2 * (b * Pow2(n - 1)));
    }
  }

  /** Two parts at a time. */
  lemma XorJoin(p: nat, q: nat, a: nat, b: nat, n: nat)
    requires a < Pow2(n) && b < Pow2(n)
    ensures Xor(p * Pow2(n) + a, q * Pow2(n) + b) == Xor(p, q) * Pow2(n) + Xor(a, b)
  {
    hide Xor, Pow2;
    XorDisjoint(p, a, n);
    XorDisjoint(q, b, n);
    XorCross(p * Pow2(n), a, q * Pow2(n), b);
    XorShifted(p, q, n);
    XorBound(a, b, n);
    XorDisjoint(Xor(p, q), Xor(a, b), n);
  }

  function Or(a: nat, b: nat): nat
    decreases a + b
  {
    if a == 0 && b == 0 then 0
    else 2 * Or(a / 2, b / 2) + if a % 2 == 1 || b % 2 == 1 then 1 else 0
  }

  lemma {:induction false} OrZero(a: nat)
    ensures Or(a, 0) == a
  {
    if a > 0 {
      OrZero(a / 2);
    }
  }

  lemma OrEven(q: nat, low: nat)
    ensures Or(2 * q, low) == 2 * Or(q, low / 2) + low % 2
  {
    assert 2 * q / 2 == q && 2 * q % 2 == 0;
  }

  /** Or-ing in bits below those of `high` adds them. */
  lemma {:induction false} OrDisjoint(high: nat, low: nat, n: nat)
    requires low < Pow2(n)
    ensures Or(high * Pow2(n), low) == high * Pow2(n) + low
    decreases n
  {
    if n == 0 {
      OrZero(high);
    } else {
      OrDisjoint(high, low / 2, n - 1);
      Twice(high, n);
      OrEven(high * Pow2(n - 1), low);
    }
  }

  // -------------------------------------------------------------------------
  // Mirroring

  function TopBit(x: nat, n: nat): nat {
    if x % 2 == 1 then Pow2(n) else 0
  }

  /** The low `n` bits of `x` in the opposite order. */
  function Mirror(x: nat, n: nat): (m: nat)
    ensures m < Pow2(n)
    decreases n
  {
    if n == 0 then 0 else TopBit(x, n - 1) + Mirror(x / 2, n - 1)
  }

  lemma XorTopBit(x: nat, low: nat, n: nat)
    requires low < Pow2(n)
    ensures Xor(TopBit(x, n), low) == TopBit(x, n) + low
  {
    XorDisjoint(x % 2, low, n);
    XorZero(low);
  }

  lemma TopBitXor(a: nat, b: nat, n: nat)
    ensures Xor(TopBit(a, n), TopBit(b, n)) == if a % 2 == b % 2 then 0 else Pow2(n)
  {
    if a % 2 == 0 {
      XorZero(TopBit(b, n));
    } else if b % 2 == 0 {
      XorZero(TopBit(a, n));
    } else {
      XorSelf(Pow2(n));
    }
  }

  lemma SumXor(ta: nat, ma: nat, tb: nat, mb: nat)
    requires Xor(ta, ma) == ta + ma && Xor(tb, mb) == tb + mb
    requires Xor(Xor(ta, tb), Xor(ma, mb)) == Xor(ta, tb) + Xor(ma, mb)
    ensures Xor(ta + ma, tb + mb) == Xor(ta, tb) + Xor(ma, mb)
  {
    XorCross(ta, ma, tb, mb);
  }

  lemma MirrorXorStep(a: nat, b: nat, x: nat, ma: nat, mb: nat, n: nat)
    requires ma < Pow2(n) && mb < Pow2(n) && x % 2 == if a % 2 == b % 2 then 0 else 1
    ensures TopBit(x, n) + Xor(ma, mb) == Xor(TopBit(a, n) + ma, TopBit(b, n) + mb)
  {
    XorTopBit(a, ma, n);
    XorTopBit(b, mb, n);
    TopBitXor(a, b, n);
    XorBound(ma, mb, n);
    XorTopBit(x, Xor(ma, mb), n);
    SumXor(TopBit(a, n), ma, TopBit(b, n), mb);
  }

  lemma {:induction false} MirrorXor(a: nat, b: nat, n: nat)
    ensures Mirror(Xor(a, b), n) == Xor(Mirror(a, n), Mirror(b, n))
    decreases n
  {
    hide Xor, TopBit, Pow2;
    if n == 0 {
      XorZero(0);
    } else {
      XorParts(a, b);
      MirrorXor(a / 2, b / 2, n - 1);
      MirrorXorStep(a, b, Xor(a, b), Mirror(a / 2, n - 1), Mirror(b / 2, n - 1), n - 1);
    }
  }

  /** The bits taken from the other end: the top bit of `n + 1` becomes the lowest. */
  lemma {:induction false} MirrorTop(x: nat, n: nat, top: nat)
    requires x < Pow2(n) && top < 2
    ensures Mirror(x + TopBit(top, n), n + 1) == 2 * Mirror(x, n) + top
    decreases n
  {
    var y := x + TopBit(top, n);
    if n == 0 {
      assert Mirror(y, 1) == TopBit(y, 0) + Mirror(y / 2, 0);
    } else {
      assert y / 2 == x / 2 + TopBit(top, n - 1) && y % 2 == x % 2;
      MirrorTop(x / 2, n - 1, top);
      assert Mirror(y, n + 1) == TopBit(y, n) + Mirror(y / 2, n);
    }
  }

  /** Mirroring twice gives the number back. */
  lemma {:induction false} MirrorTwice(x: nat, n: nat)
    requires x < Pow2(n)
    ensures Mirror(Mirror(x, n), n) == x
    decreases n
  {
    if n > 0 {
      var m := Mirror(x / 2, n - 1);
      MirrorTwice(x / 2, n - 1);
      MirrorTop(m, n - 1, x % 2);
    }
  }

  lemma MirrorStep(q: nat, bit: nat, n: nat)
    requires bit < 2
    ensures Mirror(2 * q + bit, n + 1) == TopBit(bit, n) + Mirror(q, n)
  {
    var x := 2 * q + bit;
    assert x / 2 == q && x % 2 == bit % 2;
  }

  lemma JoinSum(p: nat, m: nat, q: nat, pq: nat)
    requires pq == p * q
    ensures (p + m) * q == pq + m * q && (0 + m) * q == m * q
  {
  }

  lemma JoinStep(bit: nat, m: nat, k: nat, n: nat)
    ensures (TopBit(bit, k) + m) * Pow2(n) == TopBit(bit, k + n) + m * Pow2(n)
  {
    Pow2Sum(k, n);
    JoinSum(Pow2(k), m, Pow2(n), Pow2(k + n));
  }

  lemma JoinNothing(high: nat, n: nat, low: nat)
    requires low < Pow2(0)
    ensures high * Pow2(0) + low == high && Mirror(low, 0) * Pow2(n) == 0
  {
  }

  lemma HalfBound(x: nat, n: nat)
    requires n > 0 && x < Pow2(n)
    ensures x / 2 < Pow2(n - 1)
  {
  }

  /** Mirroring two parts exchanges them. */
  lemma {:induction false} MirrorJoin(high: nat, n: nat, low: nat, k: nat)
    requires low < Pow2(k)
    ensures Mirror(high * Pow2(k) + low, k + n) == Mirror(low, k) * Pow2(n) + Mirror(high, n)
    decreases k
  {
    hide Mirror, TopBit, Pow2;
    if k == 0 {
      JoinNothing(high, n, low);
    } else {
      var q, bit := low / 2, low % 2;
      Twice(high, k);
      HalfBound(low, k);
      MirrorJoin(high, n, q, k - 1);
      MirrorStep(high * Pow2(k - 1) + q, bit, k - 1 + n);
      MirrorStep(q, bit, k - 1);
      JoinStep(bit, Mirror(q, k - 1), k - 1, n);
    }
  }

  /** Mirroring in a wider word shifts up. */
  lemma {:induction false} MirrorWider(x: nat, n: nat, k: nat)
    requires x < Pow2(n)
    ensures Mirror(x, n + k) == Mirror(x, n) * Pow2(k)
    decreases k
  {
    if k > 0 {
      MirrorWider(x, n, k - 1);
      WiderBound(n, k - 1);
      MirrorTop(x, n + k - 1, 0);
      Twice(Mirror(x, n), k);
    }
  }

  lemma {:induction false} WiderBound(n: nat, k: nat)
    ensures Pow2(n) <= Pow2(n + k)
  {
    if k > 0 {
      WiderBound(n, k - 1);
    }
  }
}
