/**
 * The shaders of compiled programs as glsl_CombinerProgramBuilder.cpp builds them, without wrapping and clamping: the
 * inputs each stage is given, and what two equal cycles in a row compute.
 */
module Stages {
  import opened CombineMode
  import opened Combiner
  import opened CombinerCompiler

  // -------------------------------------------------------------------------
  // The inputs of the two stages of a shader

  /** correctSecondStageParam: the second cycle sees the texels exchanged. */
  function Swap(i: int): int {
    if i == TEXEL0 then TEXEL1 else if i == TEXEL1 then TEXEL0
    else if i == TEXEL0_ALPHA then TEXEL1_ALPHA else if i == TEXEL1_ALPHA then TEXEL0_ALPHA
    else i
  }

  /** correctFirstStageParam: outside two-cycle mode there is one texel. */
  function OneTexel(i: int): int {
    if i == TEXEL1 then TEXEL0 else if i == TEXEL1_ALPHA then TEXEL0_ALPHA else i
  }

  /** correctFirstStageParam2Cyc: nothing was combined yet. */
  function NotYetCombined(i: int): int {
    if i == COMBINED then HALF else i
  }

  function FirstParam(cycleType: bv64): int -> int {
    if cycleType == 1 then NotYetCombined else OneTexel
  }

  /** The parameters of all ops replaced, whether an op uses them or not. */
  function Renamed(ops: seq<CombinerOp>, r: int -> int): seq<CombinerOp> {
    if ops == [] then []
    else
      var op := ops[|ops| - 1];
      Renamed(ops[..|ops| - 1], r) + [CombinerOp(op.op, r(op.param1), r(op.param2), r(op.param3))]
  }

  function Via(v: Valuation, r: int -> int): Valuation {
    (i: int) => v(r(i))
  }

  lemma {:induction false} RenamedValue(ops: seq<CombinerOp>, r: int -> int, v: Valuation, w: Valuation)
    requires forall i :: w(i) == v(r(i))
    ensures |Renamed(ops, r)| == |ops| && ProgramValue(Renamed(ops, r), v) == ProgramValue(ops, w)
  {
    if ops != [] {
      var front := ops[..|ops| - 1];
      RenamedValue(front, r, v, w);
      assert Renamed(ops, r)[..|ops| - 1] == Renamed(front, r);
    }
  }

  /**
   * What the shader's combiner computes for a pixel, before wrapping and clamping: `v` has a colour component's value
   * for every colour input; the alpha channel reads inputs from COMBINED_ALPHA on, which are the same for both.
   */
  function Shaded(p: Program, v: Valuation): (real, real)
    requires |p.color| == |p.alpha| >= 1 && (p.numStages == 2 ==> |p.color| == 2)
  {
    var first := FirstParam(CycleType(p.key));
    var c, a := ProgramValue(Renamed(p.color[0], first), v), ProgramValue(Renamed(p.alpha[0], first), v);
    if CycleType(p.key) == 1 && p.numStages == 2 then
      (ProgramValue(Renamed(p.color[1], Swap), Fed(v, c, a)), ProgramValue(Renamed(p.alpha[1], Swap), Fed(v, a, a)))
    else (c, a)
  }

  /** The inputs both cycles get for a pixel. */
  function PixelInputs(cycleType: bv64, v: Valuation): Inputs {
    var first, second := Via(v, FirstParam(cycleType)), Via(v, Swap);
    Inputs(first, first, second, second)
  }

  lemma ViaIs(v: Valuation, r: int -> int, ops: seq<CombinerOp>)
    ensures ProgramValue(Renamed(ops, r), v) == ProgramValue(ops, Via(v, r))
  {
    RenamedValue(ops, r, v, Via(v, r));
  }

  /** Feeding results back and exchanging texels do not interfere. */
  lemma FedVia(v: Valuation, c: real, a: real, ops: seq<CombinerOp>)
    ensures ProgramValue(Renamed(ops, Swap), Fed(v, c, a)) == ProgramValue(ops, Fed(Via(v, Swap), c, a))
  {
    forall i
      ensures Fed(Via(v, Swap), c, a)(i) == Fed(v, c, a)(Swap(i))
    {
    }
    RenamedValue(ops, Swap, Fed(v, c, a), Fed(Via(v, Swap), c, a));
  }

  lemma ShadedIsOutput(p: Program, v: Valuation)
    requires |p.color| == |p.alpha| >= 1 && (p.numStages == 2 ==> |p.color| == 2)
    ensures Shaded(p, v) == Output(p, PixelInputs(CycleType(p.key), v))
  {
    var first := FirstParam(CycleType(p.key));
    ViaIs(v, first, p.color[0]);
    ViaIs(v, first, p.alpha[0]);
    var c, a := ProgramValue(p.color[0], Via(v, first)), ProgramValue(p.alpha[0], Via(v, first));
    if CycleType(p.key) == 1 && p.numStages == 2 {
      FedVia(v, c, a, p.color[1]);
      FedVia(v, a, a, p.alpha[1]);
    }
  }

  lemma StandardInputs(cycleType: bv64, v: Valuation)
    requires Standard(v)
    ensures PixelInputs(cycleType, v).AllStandard()
  {
    assert Standard(Via(v, Swap));
    assert Standard(Via(v, OneTexel)) && Standard(Via(v, NotYetCombined));
  }

  /** Both stages, whether the cycles are equal or not. */
  function Uncollapsed(key: CombinerKey): Program {
    var f := Decoded(key.mux);
    Program(key, 2, [Simplified(Color0(f)), Simplified(Color1(f))], [Simplified(Alpha0(f)), Simplified(Alpha1(f))])
  }

  lemma UncollapsedMeaning(key: CombinerKey, inputs: Inputs)
    requires inputs.AllStandard() && CycleType(key) == 1
    ensures Output(Uncollapsed(key), inputs) == TwoCycles(Decoded(key.mux), inputs)
  {
    var f := Decoded(key.mux);
    SimplifiedValue(Color0(f), inputs.color0);
    SimplifiedValue(Alpha0(f), inputs.alpha0);
    var (c, a) := FirstCycle(f, inputs);
    FedStandard(inputs.color1, c, a);
    FedStandard(inputs.alpha1, a, a);
    SimplifiedValue(Color1(f), Fed(inputs.color1, c, a));
    SimplifiedValue(Alpha1(f), Fed(inputs.alpha1, a, a));
  }

  /** What the shader of any key computes, each cycle on the inputs it is given. */
  lemma ShadedMeaning(key: CombinerKey, v: Valuation)
    requires Standard(v)
    ensures var f, inputs := Decoded(key.mux), PixelInputs(CycleType(key), v);
      Shaded(Compiled(key), v) ==
        if CycleType(key) == 0 then OneCycle(f, inputs)
        else if CycleType(key) == 1 && !EqualCycles(f) then TwoCycles(f, inputs)
        else FirstCycle(f, inputs)
  {
    StandardInputs(CycleType(key), v);
    ShadedIsOutput(Compiled(key), v);
    CompiledMeaning(key, PixelInputs(CycleType(key), v));
  }

  // -------------------------------------------------------------------------
  // One cycle in both stages

  function In1(v: Valuation, i: int): real {
    v(NotYetCombined(i))
  }

  function In2(v: Valuation, c: real, a: real, i: int): real {
    if i == COMBINED then c else if i == COMBINED_ALPHA then a else v(Swap(i))
  }

  /** A cycle as the first stage. */
  function First(cc: CombineCycle, v: Valuation): real {
    Combine(In1(v, cc.sa), In1(v, cc.sb), In1(v, cc.m), In1(v, cc.a))
  }

  /** The same cycle as the second stage, after results `c` and `a`. */
  function Second(cc: CombineCycle, v: Valuation, c: real, a: real): real {
    Combine(In2(v, c, a, cc.sa), In2(v, c, a, cc.sb), In2(v, c, a, cc.m), In2(v, c, a, cc.a))
  }

  lemma SecondStage(cc: CombineCycle, v: Valuation, c: real, a: real)
    ensures CycleValue(cc, Fed(Via(v, Swap), c, a)) == Second(cc, v, c, a)
  {
  }

  lemma FirstStage(cc: CombineCycle, v: Valuation)
    ensures CycleValue(cc, Via(v, NotYetCombined)) == First(cc, v)
  {
  }

  /** The values agree but for the second texel's. */
  ghost predicate SameFirstTexel(v: Valuation, w: Valuation) {
    forall i :: i != TEXEL1 && i != TEXEL1_ALPHA ==> v(i) == w(i)
  }

  lemma OneTexelVia(v: Valuation, w: Valuation)
    requires SameFirstTexel(v, w)
    ensures forall i :: Via(w, OneTexel)(i) == v(OneTexel(i))
    ensures v(TEXEL1) == v(TEXEL0) && v(TEXEL1_ALPHA) == v(TEXEL0_ALPHA) ==> forall i :: v(i) == v(OneTexel(i))
  {
    forall i
      ensures Via(w, OneTexel)(i) == v(OneTexel(i))
    {
    }
  }

  lemma OneTexelValue(ops: seq<CombinerOp>, v: Valuation, w: Valuation)
    requires SameFirstTexel(v, w)
    ensures ProgramValue(Renamed(ops, OneTexel), v) == ProgramValue(Renamed(ops, OneTexel), w)
    ensures v(TEXEL1) == v(TEXEL0) && v(TEXEL1_ALPHA) == v(TEXEL0_ALPHA) ==>
      ProgramValue(Renamed(ops, OneTexel), v) == ProgramValue(ops, v)
  {
    hide Renamed, ProgramValue, SameFirstTexel, Via, OneTexel;
    OneTexelVia(v, w);
    RenamedValue(ops, OneTexel, v, Via(w, OneTexel));
    ViaIs(w, OneTexel, ops);
    if v(TEXEL1) == v(TEXEL0) && v(TEXEL1_ALPHA) == v(TEXEL0_ALPHA) {
      RenamedValue(ops, OneTexel, v, v);
    }
  }

  /** Outside two-cycle mode the second texel is never read, and the program gets every other input as it is. */
  lemma FirstInputs(p: Program, v: Valuation, w: Valuation)
    requires |p.color| == |p.alpha| >= 1 && (p.numStages == 2 ==> |p.color| == 2)
    requires CycleType(p.key) != 1 && SameFirstTexel(v, w)
    ensures Shaded(p, v) == Shaded(p, w)
    ensures v(TEXEL1) == v(TEXEL0) && v(TEXEL1_ALPHA) == v(TEXEL0_ALPHA) ==>
      Shaded(p, v) == Output(p, Inputs(v, v, v, v))
  {
    hide Renamed, ProgramValue, CycleType, SameFirstTexel;
    OneTexelValue(p.color[0], v, w);
    OneTexelValue(p.alpha[0], v, w);
  }

  /** Equal cycles, the second dropped. */
  lemma CollapsedShader(key: CombinerKey, v: Valuation)
    requires CycleType(key) == 1 && EqualCycles(Decoded(key.mux)) && Standard(v)
    ensures Shaded(Compiled(key), v) == (First(Color0(Decoded(key.mux)), v), First(Alpha0(Decoded(key.mux)), v))
  {
    hide Shaded, Compiled, Decoded, Color0, Alpha0, Combine, CycleType, Standard;
    var f := Decoded(key.mux);
    ShadedMeaning(key, v);
    FirstStage(Color0(f), v);
    FirstStage(Alpha0(f), v);
  }

  /** Equal cycles, both run. */
  lemma UncollapsedShader(key: CombinerKey, v: Valuation)
    requires CycleType(key) == 1 && EqualCycles(Decoded(key.mux)) && Standard(v)
    ensures var cc, ac := Color0(Decoded(key.mux)), Alpha0(Decoded(key.mux));
      var c, a := First(cc, v), First(ac, v);
      Shaded(Uncollapsed(key), v) == (Second(cc, v, c, a), Second(ac, v, a, a))
  {
    var f, inputs := Decoded(key.mux), PixelInputs(1, v);
    StandardInputs(1, v);
    ShadedIsOutput(Uncollapsed(key), v);
    UncollapsedMeaning(key, inputs);
    FirstStage(Color0(f), v);
    FirstStage(Alpha0(f), v);
    var (c, a) := FirstCycle(f, inputs);
    SecondStage(Color0(f), v, c, a);
    SecondStage(Alpha0(f), v, a, a);
  }

  // -------------------------------------------------------------------------
  // The condition

  predicate Texel(i: int) {
    Swap(i) != i
  }

  /** Only the addend counts. */
  predicate Idle(cc: CombineCycle) {
    cc.sa == cc.sb || cc.m == ZERO
  }

  /**
   * Exchanging the texels leaves `(sa - sb) * m + a` as it is, for a cycle that is not idle and reads no combined
   * input.
   */
  predicate Symmetric(cc: CombineCycle) {
    var other := Swap(cc.m);
    if !Texel(cc.m) then !Texel(cc.sa) && !Texel(cc.sb) && !Texel(cc.a)
    else if cc.a == other then cc.sa == ONE && (cc.sb == other || cc.sb == ZERO)
    else if cc.a == cc.m then cc.sb == ONE && (cc.sa == other || cc.sa == ZERO)
    else !Texel(cc.a) && ((cc.sa == other && cc.sb == ZERO) || (cc.sa == ZERO && cc.sb == other))
  }

  /** The second stage repeats the result of the first, for a cycle that does not multiply by COMBINED_ALPHA. */
  predicate Keeps(cc: CombineCycle) {
    if Idle(cc) then !Texel(cc.a)
    else (!cc.Reads(COMBINED) && Symmetric(cc)) || cc == CombineCycle(ONE, ZERO, COMBINED, ZERO)
  }

  predicate AlwaysZero(ac: CombineCycle) {
    (Idle(ac) && ac.a == ZERO) || (ac.sa == ZERO && ac.sb == ONE && ac.a == ac.m)
  }

  predicate AlwaysOne(ac: CombineCycle) {
    Idle(ac) && ac.a == ONE
  }

  /** The same for a colour cycle, which may multiply by the alpha channel's result. */
  predicate KeepsColor(cc: CombineCycle, ac: CombineCycle) {
    if Idle(cc) || cc.m != COMBINED_ALPHA then Keeps(cc)
    else (cc.a == COMBINED && AlwaysZero(ac)) || (cc.sa == COMBINED && cc.a == cc.sb && AlwaysOne(ac))
  }

  /** What the input tables guarantee. */
  predicate FromTables(cc: CombineCycle) {
    && 0 <= cc.sa <= 20 && 0 <= cc.sb <= 20 && 0 <= cc.m <= 20 && 0 <= cc.a <= 20
    && cc.sa != COMBINED_ALPHA && cc.sb != COMBINED_ALPHA && cc.a != COMBINED_ALPHA
    && cc.m != ONE && (cc.m == COMBINED ==> cc.sb != ONE)
  }

  /** Inputs of the alpha channel's table. */
  predicate AlphaInput(i: int) {
    i == COMBINED || 9 <= i <= 15 || i == ONE || i == ZERO
  }

  /** The colour tables offer the alpha inputs as multiplier only. */
  lemma ColorTables(f: Fields)
    ensures var cc := Color0(f);
      && FromTables(cc)
      && !(9 <= cc.sa <= 15) && !(9 <= cc.sb <= 15) && !(9 <= cc.a <= 15) && cc.sb != ONE
  {
  }

  lemma AlphaTables(f: Fields)
    ensures var ac := Alpha0(f);
      && FromTables(ac)
      && AlphaInput(ac.sa) && AlphaInput(ac.sb) && AlphaInput(ac.m) && AlphaInput(ac.a) && ac.m != COMBINED
  {
  }

  // -------------------------------------------------------------------------
  // The condition is sufficient

  lemma SymmetricKeeps(cc: CombineCycle, v: Valuation, c: real, a: real)
    requires Standard(v) && !cc.Reads(COMBINED) && cc.m != COMBINED_ALPHA && FromTables(cc) && Symmetric(cc)
    ensures Second(cc, v, c, a) == First(cc, v)
  {
    var x, y := v(cc.m), v(Swap(cc.m));
    assert cc.Reads(cc.sa) && cc.Reads(cc.sb) && cc.Reads(cc.m) && cc.Reads(cc.a);
    assert Swap(Swap(cc.m)) == cc.m;
    assert x * y == y * x;
    assert (1.0 - y) * x + y == (1.0 - x) * y + x;
    assert (y - 1.0) * x + x == (x - 1.0) * y + y;
  }

  lemma KeepsResult(cc: CombineCycle, v: Valuation, a: real)
    requires Standard(v) && v(HALF) == 0.5 && FromTables(cc) && (Idle(cc) || cc.m != COMBINED_ALPHA) && Keeps(cc)
    ensures Second(cc, v, First(cc, v), a) == First(cc, v)
  {
    if !Idle(cc) && cc != CombineCycle(ONE, ZERO, COMBINED, ZERO) {
      SymmetricKeeps(cc, v, First(cc, v), a);
    }
  }

  lemma KeepsColorResult(cc: CombineCycle, ac: CombineCycle, v: Valuation)
    requires Standard(v) && v(HALF) == 0.5 && FromTables(cc) && FromTables(ac) && KeepsColor(cc, ac)
    ensures Second(cc, v, First(cc, v), First(ac, v)) == First(cc, v)
  {
    if Idle(cc) || cc.m != COMBINED_ALPHA {
      KeepsResult(cc, v, First(ac, v));
    } else {
      assert AlwaysZero(ac) ==> First(ac, v) == 0.0;
      assert AlwaysOne(ac) ==> First(ac, v) == 1.0;
    }
  }
}
