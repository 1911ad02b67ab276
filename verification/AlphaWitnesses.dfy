/**
 * Pixels for which a colour cycle that multiplies by the alpha channel's result changes its own in the second stage.
 */
module AlphaWitnesses {
  import opened Combiner
  import opened Stages
  import opened Witnesses

  /** The alpha inputs of `w`, the colour inputs of `v`. */
  function Joined(v: Valuation, w: Valuation): Valuation {
    (i: int) => if 9 <= i <= 15 then w(i) else v(i)
  }

  predicate AlphaCycle(ac: CombineCycle) {
    FromTables(ac) && AlphaInput(ac.sa) && AlphaInput(ac.sb) && AlphaInput(ac.m) && AlphaInput(ac.a) && ac.m != COMBINED
  }

  predicate ColorCycle(cc: CombineCycle) {
    && FromTables(cc) && cc.sb != ONE
    && !(9 <= cc.sa <= 15) && !(9 <= cc.sb <= 15) && !(9 <= cc.a <= 15)
  }

  lemma JoinedAlpha(ac: CombineCycle, v: Valuation, w: Valuation)
    requires AlphaCycle(ac) && Pixel(v) && Pixel(w)
    ensures Pixel(Joined(v, w)) && First(ac, Joined(v, w)) == First(ac, w)
  {
    assert forall i :: AlphaInput(i) ==> In1(Joined(v, w), i) == In1(w, i);
  }

  /** An alpha channel that is not always 0 is not 0, and not -1, for some pixel. */
  lemma AlphaNotZero(ac: CombineCycle) returns (w: Valuation)
    requires AlphaCycle(ac) && !AlwaysZero(ac)
    ensures Pixel(w) && First(ac, w) != 0.0
  {
    w := Probe(NONE, 0.0, 0.0, NONE, 0.0, 0.25);
    ProbeIsPixel(NONE, 0.0, 0.0, NONE, 0.0, 0.25);
    if First(ac, w) == 0.0 {
      var p := if ac.a == ZERO then ac.sa else ac.a;
      w := Probe(p, 0.5, 0.25, NONE, 0.0, 0.25);
      ProbeIsPixel(p, 0.5, 0.25, NONE, 0.0, 0.25);
    }
  }

  lemma AlphaNotOne(ac: CombineCycle) returns (w: Valuation)
    requires AlphaCycle(ac) && !AlwaysOne(ac)
    ensures Pixel(w) && First(ac, w) != 1.0
  {
    w := Probe(NONE, 0.0, 0.0, NONE, 0.0, 0.25);
    ProbeIsPixel(NONE, 0.0, 0.0, NONE, 0.0, 0.25);
    if First(ac, w) == 1.0 {
      w := Probe(ac.sa, 0.5, 0.25, NONE, 0.0, 0.25);
      ProbeIsPixel(ac.sa, 0.5, 0.25, NONE, 0.0, 0.25);
    }
  }

  lemma AlphaNotMinusOne(ac: CombineCycle) returns (w: Valuation)
    requires AlphaCycle(ac)
    ensures Pixel(w) && First(ac, w) != -1.0
  {
    w := Probe(NONE, 0.0, 0.0, NONE, 0.0, 0.25);
    ProbeIsPixel(NONE, 0.0, 0.0, NONE, 0.0, 0.25);
  }

  /** The second stage, after the alpha result `a1`, changes the colour result. */
  predicate ColorChanges(cc: CombineCycle, v: Valuation, w: Valuation, a1: real) {
    Second(cc, Joined(v, w), First(cc, Joined(v, w)), a1) != First(cc, Joined(v, w))
  }

  lemma JoinedColor(i: int, v: Valuation, w: Valuation, c: real, a1: real)
    requires !(9 <= i <= 15)
    ensures In1(Joined(v, w), i) == In1(v, i) && In2(Joined(v, w), c, a1, i) == In2(v, c, a1, i)
  {
  }

  /** With the colour inputs of `v` alone. */
  lemma ColorOnly(cc: CombineCycle, v: Valuation, w: Valuation, a1: real)
    requires ColorCycle(cc) && cc.m == COMBINED_ALPHA && Changes(cc, v, a1)
    ensures ColorChanges(cc, v, w, a1)
  {
    var c := First(cc, v);
    JoinedColor(cc.sa, v, w, c, a1);
    JoinedColor(cc.sb, v, w, c, a1);
    JoinedColor(cc.m, v, w, c, a1);
    JoinedColor(cc.a, v, w, c, a1);
  }

  /** Two values of COMBINED_ALPHA, which the first stage leaves open: one of them shows a change. */
  lemma OneOfTwo(cc: CombineCycle, a1: real, p: int, x: real, y: real) returns (v: Valuation)
    requires ColorCycle(cc) && cc.m == COMBINED_ALPHA && p != COMBINED_ALPHA && 0.0 <= x <= 1.0 && 0.0 <= y <= 1.0
    ensures Pixel(v)
    ensures var v0, v1 := Probe(p, x, y, COMBINED_ALPHA, 0.0, 0.0), Probe(p, x, y, COMBINED_ALPHA, 1.0, 0.0);
      Second(cc, v1, First(cc, v1), a1) - First(cc, v1) != Second(cc, v0, First(cc, v0), a1) - First(cc, v0)
      ==> Changes(cc, v, a1)
  {
    v := Probe(p, x, y, COMBINED_ALPHA, 0.0, 0.0);
    ProbeIsPixel(p, x, y, COMBINED_ALPHA, 0.0, 0.0);
    if !Changes(cc, v, a1) {
      v := Probe(p, x, y, COMBINED_ALPHA, 1.0, 0.0);
      ProbeIsPixel(p, x, y, COMBINED_ALPHA, 1.0, 0.0);
    }
  }

  /** What the value of COMBINED_ALPHA does to the first stage. */
  lemma FirstOfTwo(cc: CombineCycle, p: int, x: real, y: real)
    requires ColorCycle(cc) && cc.m == COMBINED_ALPHA && p != COMBINED_ALPHA
    ensures var v0, v1 := Probe(p, x, y, COMBINED_ALPHA, 0.0, 0.0), Probe(p, x, y, COMBINED_ALPHA, 1.0, 0.0);
      && First(cc, v0) == In1(v0, cc.a)
      && First(cc, v1) == First(cc, v0) + In1(v0, cc.sa) - In1(v0, cc.sb)
      && forall c, a1, i :: i != COMBINED ==> In2(v1, c, a1, i) == In2(v0, c, a1, i)
  {
  }

  lemma NothingCombinedChanges(cc: CombineCycle, a1: real) returns (v: Valuation)
    requires ColorCycle(cc) && !Idle(cc) && cc.m == COMBINED_ALPHA && !cc.Reads(COMBINED)
    ensures Pixel(v) && Changes(cc, v, a1)
  {
    var p := if cc.sa == ONE || cc.sa == ZERO then cc.sb else cc.sa;
    FirstOfTwo(cc, p, 0.5, 0.0);
    v := Probe(p, 0.5, 0.0, COMBINED_ALPHA, 0.0, 0.0);
    assert In1(v, cc.sa) != In1(v, cc.sb);
    assert cc.Reads(cc.sa) && cc.Reads(cc.sb) && cc.Reads(cc.m) && cc.Reads(cc.a);
    v := OneOfTwo(cc, a1, p, 0.5, 0.0);
  }

  lemma AddendCombinedChanges(cc: CombineCycle, a1: real) returns (v: Valuation)
    requires ColorCycle(cc) && !Idle(cc) && cc.m == COMBINED_ALPHA && cc.a == COMBINED && a1 != 0.0
    ensures Pixel(v) && Changes(cc, v, a1)
  {
    var p :=
      if cc.sa == COMBINED || cc.sb == COMBINED then NONE
      else if cc.sa == ONE || cc.sa == ZERO then cc.sb
      else cc.sa;
    v := Probe(Swap(p), 0.5, 0.0, COMBINED_ALPHA, 0.0, 0.0);
    ProbeIsPixel(Swap(p), 0.5, 0.0, COMBINED_ALPHA, 0.0, 0.0);
  }

  lemma MinuendCombinedChanges(cc: CombineCycle, a1: real) returns (v: Valuation)
    requires ColorCycle(cc) && cc.sb != COMBINED && cc.m == COMBINED_ALPHA && cc.sa == COMBINED && cc.a != COMBINED
    requires a1 != 1.0 || cc.a != cc.sb
    ensures Pixel(v) && Changes(cc, v, a1)
  {
    if a1 != 1.0 {
      v := MinuendShows(cc, a1);
    } else {
      v := MinuendStays(cc);
    }
  }

  /** With the alpha result 1, what is subtracted and what is added must be the same. */
  lemma MinuendStays(cc: CombineCycle) returns (v: Valuation)
    requires ColorCycle(cc) && cc.sb != COMBINED && cc.m == COMBINED_ALPHA && cc.sa == COMBINED && cc.a != COMBINED
    requires cc.a != cc.sb
    ensures Pixel(v) && Changes(cc, v, 1.0)
  {
    var p := if cc.sb == ZERO then cc.a else cc.sb;
    v := Probe(Swap(p), 0.5, 0.0, COMBINED_ALPHA, 0.0, 0.0);
    ProbeIsPixel(Swap(p), 0.5, 0.0, COMBINED_ALPHA, 0.0, 0.0);
    var c := First(cc, v);
    var t, a := In2(v, c, 1.0, cc.sb), In2(v, c, 1.0, cc.a);
    assert a != t by {
      if cc.sb == ZERO {
        assert t == 0.0;
        assert a == if cc.a == ONE then 1.0 else 0.5;
      } else {
        assert t == 0.5;
        assert a == 0.0 || a == 1.0;
      }
    }
    ReturnsOnly(c, t, a);
  }

  lemma ReturnsOnly(c: real, t: real, a: real)
    requires a != t
    ensures Combine(c, t, 1.0, a) != c
  {
  }

  lemma Distribute(x: real, y: real, z: real)
    ensures (x - y) * z == x * z - y * z
  {
  }

  /** Moving the minuend and the result by the same amount. */
  lemma ShiftedMinuend(t: real, a1: real, a: real, c0: real, c1: real)
    requires c0 != c1 && a1 != 1.0
    ensures Combine(c1, t, a1, a) - c1 != Combine(c0, t, a1, a) - c0
  {
    Distribute(c1, t, a1);
    Distribute(c0, t, a1);
    NotZero(a1 - 1.0, c1 - c0);
    Distribute(a1, 1.0, c1 - c0);
    Distribute(c1, c0, a1);
    assert a1 * (c1 - c0) == (c1 - c0) * a1;
  }

  /** Moving the subtrahend and the result by the same amount. */
  lemma ShiftedSubtrahend(s: real, a1: real, a: real, c0: real, c1: real)
    requires c0 != c1 && a1 != -1.0
    ensures Combine(s, c1, a1, a) - c1 != Combine(s, c0, a1, a) - c0
  {
    Distribute(s, c1, a1);
    Distribute(s, c0, a1);
    NotZero(a1 - -1.0, c1 - c0);
    Distribute(a1, -1.0, c1 - c0);
    Distribute(c1, c0, a1);
    assert a1 * (c1 - c0) == (c1 - c0) * a1;
  }

  lemma MinuendShows(cc: CombineCycle, a1: real) returns (v: Valuation)
    requires ColorCycle(cc) && cc.sb != COMBINED && cc.m == COMBINED_ALPHA && cc.sa == COMBINED && cc.a != COMBINED
    requires a1 != 1.0
    ensures Pixel(v) && Changes(cc, v, a1)
  {
    FirstOfTwo(cc, NONE, 0.0, 0.0);
    var v0, v1 := Probe(NONE, 0.0, 0.0, COMBINED_ALPHA, 0.0, 0.0), Probe(NONE, 0.0, 0.0, COMBINED_ALPHA, 1.0, 0.0);
    var c0, c1 := First(cc, v0), First(cc, v1);
    var t, a := In2(v0, c0, a1, cc.sb), In2(v0, c0, a1, cc.a);
    assert In1(v0, cc.sb) == 0.0;
    assert Second(cc, v0, c0, a1) == Combine(c0, t, a1, a);
    assert Second(cc, v1, c1, a1) == Combine(c1, t, a1, a);
    ShiftedMinuend(t, a1, a, c0, c1);
    v := OneOfTwo(cc, a1, NONE, 0.0, 0.0);
  }

  lemma SubtrahendCombinedChanges(cc: CombineCycle, a1: real) returns (v: Valuation)
    requires ColorCycle(cc) && cc.sa != COMBINED && cc.m == COMBINED_ALPHA && cc.sb == COMBINED && cc.a != COMBINED
    requires a1 != -1.0
    ensures Pixel(v) && Changes(cc, v, a1)
  {
    FirstOfTwo(cc, NONE, 0.0, 0.0);
    var v0, v1 := Probe(NONE, 0.0, 0.0, COMBINED_ALPHA, 0.0, 0.0), Probe(NONE, 0.0, 0.0, COMBINED_ALPHA, 1.0, 0.0);
    var c0, c1 := First(cc, v0), First(cc, v1);
    var s, a := In2(v0, c0, a1, cc.sa), In2(v0, c0, a1, cc.a);
    assert In1(v0, cc.sa) == 0.0 || In1(v0, cc.sa) == 1.0;
    assert Second(cc, v0, c0, a1) == Combine(s, c0, a1, a);
    assert Second(cc, v1, c1, a1) == Combine(s, c1, a1, a);
    ShiftedSubtrahend(s, a1, a, c0, c1);
    v := OneOfTwo(cc, a1, NONE, 0.0, 0.0);
  }

  /**
   * A colour cycle that multiplies by the alpha result and does not meet the condition changes its result for some
   * pixel.
   */
  lemma ColorChanging(cc: CombineCycle, ac: CombineCycle) returns (v: Valuation)
    requires ColorCycle(cc) && AlphaCycle(ac) && !KeepsColor(cc, ac)
    ensures Pixel(v) && Changes(cc, v, First(ac, v))
  {
    var w, colors;
    if Idle(cc) || cc.m != COMBINED_ALPHA {
      v := Changing(cc, 0.0);
      ResultUnused(cc, v, 0.0, First(ac, v));
      return;
    } else if cc.a == COMBINED {
      w := AlphaNotZero(ac);
      colors := AddendCombinedChanges(cc, First(ac, w));
    } else if cc.sa == COMBINED {
      if AlwaysOne(ac) {
        w := AlphaNotMinusOne(ac);
      } else {
        w := AlphaNotOne(ac);
      }
      colors := MinuendCombinedChanges(cc, First(ac, w));
    } else if cc.sb == COMBINED {
      w := AlphaNotMinusOne(ac);
      colors := SubtrahendCombinedChanges(cc, First(ac, w));
    } else {
      w := AlphaNotMinusOne(ac);
      colors := NothingCombinedChanges(cc, First(ac, w));
    }
    v := Joined(colors, w);
    JoinedAlpha(ac, colors, w);
    ColorOnly(cc, colors, w, First(ac, w));
  }

  /** The alpha result does not matter to an idle cycle or one that does not multiply by it. */
  lemma ResultUnused(cc: CombineCycle, v: Valuation, a: real, a': real)
    requires FromTables(cc) && (Idle(cc) || cc.m != COMBINED_ALPHA) && Standard(v)
    ensures Changes(cc, v, a) <==> Changes(cc, v, a')
  {
  }
}
