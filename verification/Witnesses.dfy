/** Pixels for which the second of two equal cycles changes the result of the first. */
module Witnesses {
  import opened CombineMode
  import opened Combiner
  import opened Stages

  /** Values a shader can receive: all between 0 and 1, and the constants. */
  ghost predicate Pixel(v: Valuation) {
    Standard(v) && v(HALF) == 0.5 && forall i :: 0.0 <= v(i) <= 1.0
  }

  /**
   * `x` for input `p` and `y` for its exchanged texel, if it has one; `z` for `q` and its exchanged texel; `d`
   * elsewhere.
   */
  function ProbeValue(p: int, x: real, y: real, q: int, z: real, d: real, i: int): real {
    if i == ZERO then 0.0 else if i == ONE then 1.0 else if i == HALF then 0.5
    else if i == p then x else if i == Swap(p) then y
    else if i == q || i == Swap(q) then z
    else d
  }

  const NONE: int := -1

  function Probe(p: int, x: real, y: real, q: int, z: real, d: real): Valuation {
    (i: int) => ProbeValue(p, x, y, q, z, d, i)
  }

  lemma ProbeIsPixel(p: int, x: real, y: real, q: int, z: real, d: real)
    requires 0.0 <= x <= 1.0 && 0.0 <= y <= 1.0 && 0.0 <= z <= 1.0 && 0.0 <= d <= 1.0
    ensures Pixel(Probe(p, x, y, q, z, d))
  {
  }

  /** The second stage changes the result of the first. */
  predicate Changes(cc: CombineCycle, v: Valuation, a: real) {
    Second(cc, v, First(cc, v), a) != First(cc, v)
  }

  lemma Positive(x: real, y: real)
    requires x > 0.0 && y > 0.0
    ensures x * y > 0.0
  {
  }

  lemma NotZero(x: real, y: real)
    requires x != 0.0 && y != 0.0
    ensures x * y != 0.0
  {
    var u, w := if x < 0.0 then -x else x, if y < 0.0 then -y else y;
    Positive(u, w);
    assert u * w == x * y || u * w == -(x * y);
  }

  lemma IdleChanges(cc: CombineCycle, a: real) returns (v: Valuation)
    requires FromTables(cc) && Idle(cc) && Texel(cc.a)
    ensures Pixel(v) && Changes(cc, v, a)
  {
    v := Probe(cc.a, 1.0, 0.0, NONE, 0.0, 0.0);
    ProbeIsPixel(cc.a, 1.0, 0.0, NONE, 0.0, 0.0);
  }

  /** COMBINED as minuend or subtrahend, and perhaps as addend. */
  lemma CombinedTermChanges(cc: CombineCycle, a: real) returns (v: Valuation)
    requires FromTables(cc) && !Idle(cc) && cc.m != COMBINED && cc.m != COMBINED_ALPHA
    requires cc.sa == COMBINED || cc.sb == COMBINED
    ensures Pixel(v) && Changes(cc, v, a)
  {
    v := Probe(NONE, 0.0, 0.0, NONE, 0.0, 0.25);
    ProbeIsPixel(NONE, 0.0, 0.0, NONE, 0.0, 0.25);
  }

  lemma AddsSomething(s: real, t: real, m: real, c: real)
    requires s != t && m != 0.0
    ensures Combine(s, t, m, c) != c
  {
    NotZero(s - t, m);
  }

  /** COMBINED as addend only. */
  lemma CombinedAddendChanges(cc: CombineCycle, a: real) returns (v: Valuation)
    requires FromTables(cc) && !Idle(cc) && cc.m != COMBINED && cc.m != COMBINED_ALPHA
    requires cc.sa != COMBINED && cc.sb != COMBINED && cc.a == COMBINED
    ensures Pixel(v) && Changes(cc, v, a)
  {
    v := Probe(Swap(cc.sa), 0.25, 0.5, NONE, 0.0, 0.5);
    ProbeIsPixel(Swap(cc.sa), 0.25, 0.5, NONE, 0.0, 0.5);
    var c := First(cc, v);
    var s, t, m := In2(v, c, a, cc.sa), In2(v, c, a, cc.sb), In2(v, c, a, cc.m);
    assert s == if cc.sa == ONE then 1.0 else if cc.sa == ZERO then 0.0 else 0.25;
    assert t == if cc.sb == ONE then 1.0 else if cc.sb == ZERO then 0.0 else 0.5;
    assert m == if cc.m == cc.sa then 0.25 else 0.5;
    AddsSomething(s, t, m, c);
  }

  /** A product of the fed-back result with itself, where all inputs but the constants are 0. */
  lemma SquareChanges(s1: real, t1: real, m1: real, a1: real, c: real, s2: real, t2: real, m2: real, a2: real)
    requires c == Combine(s1, t1, m1, a1) && m1 == 0.5 && m2 == c
    requires || (s1 == 0.5 && s2 == c && t1 == t2 == 0.0)
             || (t1 == 0.5 && t2 == c && s1 == s2 && (s1 == 0.0 || s1 == 1.0))
    requires (a1 == a2 && (a1 == 0.0 || a1 == 1.0)) || (a1 == 0.5 && a2 == c)
    ensures Combine(s2, t2, m2, a2) != c
  {
    if s1 == 0.5 {
      assert c == 0.25 + a1;
    } else {
      assert c == (if s1 == 0.0 then -0.25 else 0.25) + a1;
    }
  }

  /** COMBINED as multiplier and as minuend or subtrahend. */
  lemma CombinedSquareChanges(cc: CombineCycle, a: real) returns (v: Valuation)
    requires FromTables(cc) && !Idle(cc) && cc.m == COMBINED && (cc.sa == COMBINED || cc.sb == COMBINED)
    ensures Pixel(v) && Changes(cc, v, a)
  {
    v := Probe(NONE, 0.0, 0.0, NONE, 0.0, 0.0);
    ProbeIsPixel(NONE, 0.0, 0.0, NONE, 0.0, 0.0);
    var c := First(cc, v);
    SquareChanges(In1(v, cc.sa), In1(v, cc.sb), In1(v, cc.m), In1(v, cc.a), c,
                  In2(v, c, a, cc.sa), In2(v, c, a, cc.sb), In2(v, c, a, cc.m), In2(v, c, a, cc.a));
  }

  /** The fed-back result as factor and addend. */
  lemma PairChanges(s1: real, t1: real, m1: real, a1: real, c: real, s2: real, t2: real, m2: real, a2: real)
    requires c == Combine(s1, t1, m1, a1) && m1 == a1 == 0.5 && m2 == a2 == c && s1 - t1 > -1.0 && s2 != t2
    ensures Combine(s2, t2, m2, a2) != c
  {
    assert c > 0.0;
    assert (s2 - t2) * c != 0.0;
  }

  /** COMBINED as multiplier and addend. */
  lemma CombinedPairChanges(cc: CombineCycle, a: real) returns (v: Valuation)
    requires FromTables(cc) && !Idle(cc) && cc.m == COMBINED && cc.sa != COMBINED && cc.sb != COMBINED
             && cc.a == COMBINED
    ensures Pixel(v) && Changes(cc, v, a)
  {
    var p := if cc.sa == ONE then NONE else if cc.sa == ZERO then cc.sb else cc.sa;
    v := Probe(Swap(p), 0.5, 0.0, NONE, 0.0, 0.0);
    ProbeIsPixel(Swap(p), 0.5, 0.0, NONE, 0.0, 0.0);
    var c := First(cc, v);
    PairChanges(In1(v, cc.sa), In1(v, cc.sb), In1(v, cc.m), In1(v, cc.a), c,
                In2(v, c, a, cc.sa), In2(v, c, a, cc.sb), In2(v, c, a, cc.m), In2(v, c, a, cc.a));
  }

  lemma FactorsGiven(cc: CombineCycle, v: Valuation, a: real, d1: real, d2: real)
    requires cc.m == COMBINED && v(HALF) == 0.5
    requires In1(v, cc.sa) - In1(v, cc.sb) == d1
    requires var c := First(cc, v); In2(v, c, a, cc.sa) - In2(v, c, a, cc.sb) == d2
    ensures First(cc, v) == d1 * 0.5 + In1(v, cc.a)
    ensures Second(cc, v, First(cc, v), a) == d2 * First(cc, v) + In2(v, First(cc, v), a, cc.a)
  {
  }

  /** COMBINED as multiplier only. */
  lemma CombinedFactorChanges(cc: CombineCycle, a: real) returns (v: Valuation)
    requires FromTables(cc) && !Idle(cc) && cc.m == COMBINED && cc.sa != COMBINED && cc.sb != COMBINED
             && cc.a != COMBINED
    requires cc != CombineCycle(ONE, ZERO, COMBINED, ZERO)
    ensures Pixel(v) && Changes(cc, v, a)
  {
    if cc.sa == ONE && cc.sb == ZERO {
      v := CombinedItselfChanges(cc, a);
    } else if cc.sa == ONE || cc.sa == ZERO || cc.sb == ZERO {
      v := CombinedPartChanges(cc, a);
    } else if cc.sb == Swap(cc.sa) {
      v := CombinedExchangeChanges(cc, a);
    } else {
      v := CombinedMinuendChanges(cc, a);
    }
  }

  lemma CombinedItselfChanges(cc: CombineCycle, a: real) returns (v: Valuation)
    requires FromTables(cc) && cc.sa == ONE && cc.sb == ZERO && cc.m == COMBINED && cc.a != COMBINED && cc.a != ZERO
    ensures Pixel(v) && Changes(cc, v, a)
  {
    hide First, Second;
    v := Probe(Swap(cc.a), 1.0, 0.0, NONE, 0.0, 0.0);
    ProbeIsPixel(Swap(cc.a), 1.0, 0.0, NONE, 0.0, 0.0);
    FactorsGiven(cc, v, a, 1.0, 1.0);
    assert In2(v, First(cc, v), a, cc.a) == 1.0;
  }

  lemma CombinedPartChanges(cc: CombineCycle, a: real) returns (v: Valuation)
    requires FromTables(cc) && !Idle(cc) && cc.m == COMBINED && cc.sa != COMBINED && cc.sb != COMBINED
             && cc.a != COMBINED
    requires (cc.sa == ONE && cc.sb != ZERO) || cc.sa == ZERO || (cc.sa != ONE && cc.sb == ZERO)
    ensures Pixel(v) && Changes(cc, v, a)
  {
    hide First, Second;
    v := Probe(NONE, 0.0, 0.0, NONE, 0.0, 0.5);
    ProbeIsPixel(NONE, 0.0, 0.0, NONE, 0.0, 0.5);
    if cc.sa == ZERO {
      FactorsGiven(cc, v, a, -0.5, -0.5);
    } else {
      FactorsGiven(cc, v, a, 0.5, 0.5);
    }
    var half := if cc.a == ZERO then 0.0 else if cc.a == ONE then 1.0 else 0.5;
    assert In1(v, cc.a) == half && In2(v, First(cc, v), a, cc.a) == half;
  }

  lemma CombinedExchangeChanges(cc: CombineCycle, a: real) returns (v: Valuation)
    requires FromTables(cc) && !Idle(cc) && cc.m == COMBINED && cc.sa != COMBINED && cc.sb != COMBINED
             && cc.a != COMBINED
    requires cc.sa != ONE && cc.sa != ZERO && cc.sb != ZERO && cc.sb == Swap(cc.sa)
    ensures Pixel(v) && Changes(cc, v, a)
  {
    hide First, Second;
    v := Probe(cc.sa, 0.5, 0.0, NONE, 0.0, 0.0);
    ProbeIsPixel(cc.sa, 0.5, 0.0, NONE, 0.0, 0.0);
    FactorsGiven(cc, v, a, 0.5, -0.5);
    assert In1(v, cc.a) == if cc.a == ONE then 1.0 else if cc.a == cc.sa then 0.5 else 0.0;
    assert In2(v, First(cc, v), a, cc.a) == if cc.a == ONE then 1.0 else if cc.a == cc.sb then 0.5 else 0.0;
  }

  lemma CombinedMinuendChanges(cc: CombineCycle, a: real) returns (v: Valuation)
    requires FromTables(cc) && !Idle(cc) && cc.m == COMBINED && cc.sa != COMBINED && cc.sb != COMBINED
             && cc.a != COMBINED
    requires cc.sa != ONE && cc.sa != ZERO && cc.sb != ZERO && cc.sb != Swap(cc.sa)
    ensures Pixel(v) && Changes(cc, v, a)
  {
    hide First, Second;
    v := Probe(NONE, 0.0, 0.0, cc.sa, 0.5, 0.0);
    ProbeIsPixel(NONE, 0.0, 0.0, cc.sa, 0.5, 0.0);
    FactorsGiven(cc, v, a, 0.5, 0.5);
    var addend := if cc.a == ONE then 1.0 else if cc.a == cc.sa || cc.a == Swap(cc.sa) then 0.5 else 0.0;
    assert In1(v, cc.a) == addend && In2(v, First(cc, v), a, cc.a) == addend;
  }

  /** Texels read next to a multiplier that is none. */
  lemma TexelTermChanges(cc: CombineCycle, a: real) returns (v: Valuation)
    requires FromTables(cc) && !Idle(cc) && !cc.Reads(COMBINED) && cc.m != COMBINED_ALPHA
    requires !Texel(cc.m) && (Texel(cc.sa) || Texel(cc.sb) || Texel(cc.a))
    ensures Pixel(v) && Changes(cc, v, a)
  {
    var p := if Texel(cc.sa) then cc.sa else if Texel(cc.sb) then cc.sb else cc.a;
    v := Probe(p, 0.5, 0.0, cc.m, 0.25, 0.0);
    ProbeIsPixel(p, 0.5, 0.0, cc.m, 0.25, 0.0);
  }

  /**
   * `(s - t) * x + a` with a texel `x`, in cycles that are not symmetric: the values under one exchange or another
   * differ.
   */
  lemma TexelFactorChanges(cc: CombineCycle, a: real) returns (v: Valuation)
    requires FromTables(cc) && !Idle(cc) && !cc.Reads(COMBINED) && Texel(cc.m) && !Symmetric(cc)
    ensures Pixel(v) && Changes(cc, v, a)
  {
    if cc.sa == cc.m || cc.sb == cc.m {
      v := TexelSquareChanges(cc, a);
    } else if cc.sa == Swap(cc.m) {
      v := TexelMinuendChanges(cc, a);
    } else if cc.sb == Swap(cc.m) {
      v := TexelSubtrahendChanges(cc, a);
    } else {
      v := PlainTermChanges(cc, a);
    }
  }

  /** Where the exchanged texel of the multiplier is 0, the second stage is left with its addend. */
  lemma FactorVanishes(cc: CombineCycle, v: Valuation, a: real)
    requires !cc.Reads(COMBINED) && Texel(cc.m) && v(cc.m) == 0.5 && v(Swap(cc.m)) == 0.0
    ensures First(cc, v) == (In1(v, cc.sa) - In1(v, cc.sb)) * 0.5 + In1(v, cc.a)
    ensures Second(cc, v, First(cc, v), a) == In2(v, First(cc, v), a, cc.a)
  {
    assert cc.Reads(cc.m);
  }

  /** How the addend differs between the stages where the multiplier's texel is 0.5 and its exchanged one 0. */
  lemma AddendShifts(cc: CombineCycle, q: int, c: real, a: real)
    requires FromTables(cc) && !cc.Reads(COMBINED) && Texel(cc.m) && q != cc.m && q != Swap(cc.m)
    ensures var v := Probe(cc.m, 0.5, 0.0, q, 0.5, 0.0);
      In1(v, cc.a) - In2(v, c, a, cc.a) == if cc.a == cc.m then 0.5 else if cc.a == Swap(cc.m) then -0.5 else 0.0
  {
  }

  lemma TexelSquareChanges(cc: CombineCycle, a: real) returns (v: Valuation)
    requires FromTables(cc) && !Idle(cc) && !cc.Reads(COMBINED) && Texel(cc.m) && (cc.sa == cc.m || cc.sb == cc.m)
    ensures Pixel(v) && Changes(cc, v, a)
  {
    hide First, Second;
    v := Probe(cc.m, 0.5, 0.0, NONE, 0.5, 0.0);
    ProbeIsPixel(cc.m, 0.5, 0.0, NONE, 0.5, 0.0);
    FactorVanishes(cc, v, a);
    assert In1(v, cc.sa) == if cc.sa == cc.m then 0.5 else if cc.sa == ONE then 1.0 else 0.0;
    assert In1(v, cc.sb) == if cc.sb == cc.m then 0.5 else if cc.sb == ONE then 1.0 else 0.0;
    AddendShifts(cc, NONE, First(cc, v), a);
  }

  lemma TexelMinuendChanges(cc: CombineCycle, a: real) returns (v: Valuation)
    requires FromTables(cc) && !Idle(cc) && !cc.Reads(COMBINED) && Texel(cc.m) && !Symmetric(cc)
    requires cc.sa == Swap(cc.m) && cc.sb != cc.m
    ensures Pixel(v) && Changes(cc, v, a)
  {
    if cc.sb == ZERO {
      v := Probe(cc.a, 0.5, 0.0, NONE, 0.0, 0.0);
      ProbeIsPixel(cc.a, 0.5, 0.0, NONE, 0.0, 0.0);
    } else {
      v := Probe(cc.m, 0.5, 0.0, NONE, 0.0, 0.5);
      ProbeIsPixel(cc.m, 0.5, 0.0, NONE, 0.0, 0.5);
      FactorVanishes(cc, v, a);
      assert In1(v, cc.sa) == 0.0 && In1(v, cc.sb) == if cc.sb == ONE then 1.0 else 0.5;
      var c := First(cc, v);
      assert In1(v, cc.a) - In2(v, c, a, cc.a)
          == if cc.a == cc.m then 0.5 else if cc.a == Swap(cc.m) then -0.5 else 0.0;
    }
  }

  lemma TexelSubtrahendChanges(cc: CombineCycle, a: real) returns (v: Valuation)
    requires FromTables(cc) && !Idle(cc) && !cc.Reads(COMBINED) && Texel(cc.m) && !Symmetric(cc)
    requires cc.sb == Swap(cc.m) && cc.sa != cc.m
    ensures Pixel(v) && Changes(cc, v, a)
  {
    if cc.sa == ZERO {
      v := Probe(cc.a, 0.5, 0.0, NONE, 0.0, 0.0);
      ProbeIsPixel(cc.a, 0.5, 0.0, NONE, 0.0, 0.0);
    } else {
      v := Probe(cc.m, 0.5, 0.0, cc.sa, 0.5, 0.0);
      ProbeIsPixel(cc.m, 0.5, 0.0, cc.sa, 0.5, 0.0);
    }
  }

  lemma PlainTermChanges(cc: CombineCycle, a: real) returns (v: Valuation)
    requires FromTables(cc) && !Idle(cc) && !cc.Reads(COMBINED) && Texel(cc.m) && !Symmetric(cc)
    requires cc.sa != cc.m && cc.sa != Swap(cc.m) && cc.sb != cc.m && cc.sb != Swap(cc.m)
    ensures Pixel(v) && Changes(cc, v, a)
  {
    if cc.sa == ZERO || cc.sa == ONE {
      v := ConstantMinuendChanges(cc, a);
    } else if cc.sb == Swap(cc.sa) {
      v := ExchangedTermChanges(cc, a);
    } else {
      v := OtherMinuendChanges(cc, a);
    }
  }

  lemma ConstantMinuendChanges(cc: CombineCycle, a: real) returns (v: Valuation)
    requires FromTables(cc) && !Idle(cc) && !cc.Reads(COMBINED) && Texel(cc.m) && !Symmetric(cc)
    requires (cc.sa == ZERO || cc.sa == ONE) && cc.sb != cc.m && cc.sb != Swap(cc.m)
    ensures Pixel(v) && Changes(cc, v, a)
  {
    v := Probe(cc.m, 0.5, 0.0, cc.sb, 0.5, 0.0);
    ProbeIsPixel(cc.m, 0.5, 0.0, cc.sb, 0.5, 0.0);
    FactorVanishes(cc, v, a);
    assert In1(v, cc.sa) == if cc.sa == ONE then 1.0 else 0.0;
    assert In1(v, cc.sb) == if cc.sb == ONE then 1.0 else if cc.sb == ZERO then 0.0 else 0.5;
    AddendShifts(cc, cc.sb, First(cc, v), a);
  }

  lemma ExchangedTermChanges(cc: CombineCycle, a: real) returns (v: Valuation)
    requires FromTables(cc) && !Idle(cc) && !cc.Reads(COMBINED) && Texel(cc.m)
    requires cc.sa != cc.m && cc.sa != Swap(cc.m) && cc.sb == Swap(cc.sa)
    ensures Pixel(v) && Changes(cc, v, a)
  {
    v := Probe(cc.sa, 0.5, 0.0, NONE, 0.0, 0.25);
    ProbeIsPixel(cc.sa, 0.5, 0.0, NONE, 0.0, 0.25);
    var c := First(cc, v);
    assert In1(v, cc.m) == In2(v, c, a, cc.m) == 0.25;
    assert In1(v, cc.sa) == In2(v, c, a, cc.sb) == 0.5 && In1(v, cc.sb) == In2(v, c, a, cc.sa) == 0.0;
  }

  lemma OtherMinuendChanges(cc: CombineCycle, a: real) returns (v: Valuation)
    requires FromTables(cc) && !Idle(cc) && !cc.Reads(COMBINED) && Texel(cc.m)
    requires cc.sa != cc.m && cc.sa != Swap(cc.m) && cc.sb != cc.m && cc.sb != Swap(cc.m)
    requires cc.sa != ZERO && cc.sa != ONE && cc.sb != Swap(cc.sa)
    ensures Pixel(v) && Changes(cc, v, a)
  {
    v := Probe(cc.m, 0.5, 0.0, cc.sa, 0.5, 0.0);
    ProbeIsPixel(cc.m, 0.5, 0.0, cc.sa, 0.5, 0.0);
    FactorVanishes(cc, v, a);
    assert In1(v, cc.sa) == 0.5;
    assert In1(v, cc.sb) == if cc.sb == ONE then 1.0 else 0.0;
  }

  /**
   * A cycle that does not multiply by COMBINED_ALPHA and does not meet the condition changes its result for some pixel.
   */
  lemma Changing(cc: CombineCycle, a: real) returns (v: Valuation)
    requires FromTables(cc) && (Idle(cc) || cc.m != COMBINED_ALPHA) && !Keeps(cc)
    ensures Pixel(v) && Changes(cc, v, a)
  {
    if Idle(cc) {
      v := IdleChanges(cc, a);
    } else if cc.m == COMBINED {
      if cc.sa == COMBINED || cc.sb == COMBINED {
        v := CombinedSquareChanges(cc, a);
      } else if cc.a == COMBINED {
        v := CombinedPairChanges(cc, a);
      } else {
        v := CombinedFactorChanges(cc, a);
      }
    } else if cc.sa == COMBINED || cc.sb == COMBINED {
      v := CombinedTermChanges(cc, a);
    } else if cc.a == COMBINED {
      v := CombinedAddendChanges(cc, a);
    } else if Texel(cc.m) {
      v := TexelFactorChanges(cc, a);
    } else {
      v := TexelTermChanges(cc, a);
    }
  }
}
