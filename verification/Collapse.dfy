/**
 * When Combiner_Compile may drop the second of two equal cycles: the collapsed program's shader and that of both
 * stages.
 */
module Collapse {
  import opened AlphaWitnesses
  import opened CombineMode
  import opened Combiner
  import opened CombinerCompiler
  import opened Stages
  import opened Witnesses

  /** The shader of the collapsed program and that of both stages give every pixel the same unclamped result. */
  ghost predicate CollapseRight(key: CombinerKey) {
    forall v: Valuation :: Pixel(v) ==> Shaded(Compiled(key), v) == Shaded(Uncollapsed(key), v)
  }

  /** Both channels keep their result; decided by the selectors alone. */
  predicate MayCollapse(key: CombinerKey) {
    var cc, ac := Color0(Decoded(key.mux)), Alpha0(Decoded(key.mux));
    Keeps(ac) && KeepsColor(cc, ac)
  }

  /** The second stage leaves both results of the first as they are. */
  predicate SameResults(cc: CombineCycle, ac: CombineCycle, v: Valuation) {
    !Changes(cc, v, First(ac, v)) && !Changes(ac, v, First(ac, v))
  }

  lemma CyclesOf(key: CombinerKey)
    ensures ColorCycle(Color0(Decoded(key.mux))) && AlphaCycle(Alpha0(Decoded(key.mux)))
  {
    ColorTables(Decoded(key.mux));
    AlphaTables(Decoded(key.mux));
  }

  lemma ResultsAgree(key: CombinerKey, v: Valuation)
    requires CycleType(key) == 1 && EqualCycles(Decoded(key.mux)) && Standard(v)
    ensures Shaded(Compiled(key), v) == Shaded(Uncollapsed(key), v)
       <==> SameResults(Color0(Decoded(key.mux)), Alpha0(Decoded(key.mux)), v)
  {
    CollapsedShader(key, v);
    UncollapsedShader(key, v);
  }

  /** Where the condition holds the results agree for any values of the inputs, between 0 and 1 or not. */
  lemma CollapseSound(cc: CombineCycle, ac: CombineCycle, v: Valuation)
    requires ColorCycle(cc) && AlphaCycle(ac) && Keeps(ac) && KeepsColor(cc, ac)
    requires Standard(v) && v(HALF) == 0.5
    ensures SameResults(cc, ac, v)
  {
    KeepsResult(ac, v, First(ac, v));
    KeepsColorResult(cc, ac, v);
  }

  /** Elsewhere the results for some pixel differ, before wrapping and clamping. */
  lemma CollapseUnsound(cc: CombineCycle, ac: CombineCycle) returns (v: Valuation)
    requires ColorCycle(cc) && AlphaCycle(ac) && !(Keeps(ac) && KeepsColor(cc, ac))
    ensures Pixel(v) && !SameResults(cc, ac, v)
  {
    if Keeps(ac) {
      v := ColorChanging(cc, ac);
    } else {
      v := Changing(ac, 0.0);
      ResultUnused(ac, v, 0.0, First(ac, v));
    }
  }

  /**
   * For every two-cycle key with equal cycles: dropping the second stage leaves the combiner's result, before wrapping
   * and clamping, as it is for every pixel exactly if both channels keep their result.
   */
  lemma CollapseExactly(key: CombinerKey)
    requires CycleType(key) == 1 && EqualCycles(Decoded(key.mux))
    ensures CollapseRight(key) <==> MayCollapse(key)
  {
    hide Decoded, Color0, Alpha0, Shaded, ColorCycle, AlphaCycle, SameResults, Keeps, KeepsColor;
    var cc, ac := Color0(Decoded(key.mux)), Alpha0(Decoded(key.mux));
    CyclesOf(key);
    if MayCollapse(key) {
      forall v: Valuation | Pixel(v)
        ensures Shaded(Compiled(key), v) == Shaded(Uncollapsed(key), v)
      {
        ResultsAgree(key, v);
        CollapseSound(cc, ac, v);
      }
    } else {
      var v := CollapseUnsound(cc, ac);
      ResultsAgree(key, v);
    }
  }

  /** A key that just passes the first texel through is collapsed wrongly; one that passes the shade through is not. */
  lemma PassThroughCollapse(d: bv64, bilerp: bv64)
    requires 1 <= d < 6 && bilerp <= 3
    ensures var key := Key(Encoded(PassThrough(d)), false, 1, bilerp);
      CycleType(key) == 1 && EqualCycles(Decoded(key.mux)) && (MayCollapse(key) <==> d > 2)
  {
    PassThroughCycles(d);
    KeyRoundTrip(Encoded(PassThrough(d)), false, 1, bilerp);
  }
}
