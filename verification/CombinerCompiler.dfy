/** Combiner_Compile and CombinerInfo of GLideN64/src/Combiner.cpp. */
module CombinerCompiler {
  import opened CombineMode
  import opened Combiner
  import opened Wrappers

  /** A compiled combiner: `numStages`, and the op programs of the stages that were filled. */
  datatype Program = Program(key: CombinerKey, numStages: nat, color: seq<seq<CombinerOp>>, alpha: seq<seq<CombinerOp>>)

  /** Values of the colour and alpha inputs in the first and in the second cycle. */
  datatype Inputs = Inputs(color0: Valuation, alpha0: Valuation, color1: Valuation, alpha1: Valuation)
  {
    ghost predicate AllStandard() {
      Standard(color0) && Standard(alpha0) && Standard(color1) && Standard(alpha1)
    }
  }

  /** The second cycle reads the first one's results as COMBINED and COMBINED_ALPHA. */
  function Fed(v: Valuation, color: real, alpha: real): Valuation {
    (i: int) => if i == COMBINED then color else if i == COMBINED_ALPHA then alpha else v(i)
  }

  // -------------------------------------------------------------------------
  // What the hardware computes

  /** One-cycle mode uses the second cycle's equation, where the combined inputs count as zero. */
  function OneCycle(f: Fields, inputs: Inputs): (real, real) {
    (CycleValue(Color1(f), Fed(inputs.color0, 0.0, 0.0)), CycleValue(Alpha1(f), Fed(inputs.alpha0, 0.0, 0.0)))
  }

  function FirstCycle(f: Fields, inputs: Inputs): (real, real) {
    (CycleValue(Color0(f), inputs.color0), CycleValue(Alpha0(f), inputs.alpha0))
  }

  function TwoCycles(f: Fields, inputs: Inputs): (real, real) {
    var (c, a) := FirstCycle(f, inputs);
    (CycleValue(Color1(f), Fed(inputs.color1, c, a)), CycleValue(Alpha1(f), Fed(inputs.alpha1, a, a)))
  }

  // -------------------------------------------------------------------------
  // What a program computes

  /**
   * The shader runs the first stage; in two-cycle mode also the second, fed with the first's results, if there is one.
   */
  function Output(p: Program, inputs: Inputs): (real, real)
    requires |p.color| == |p.alpha| >= 1 && (p.numStages == 2 ==> |p.color| == 2)
  {
    var c, a := ProgramValue(p.color[0], inputs.color0), ProgramValue(p.alpha[0], inputs.alpha0);
    if CycleType(p.key) == 1 && p.numStages == 2 then
      (ProgramValue(p.color[1], Fed(inputs.color1, c, a)), ProgramValue(p.alpha[1], Fed(inputs.alpha1, a, a)))
    else (c, a)
  }

  /** An input of one-cycle mode: the combined inputs are replaced. */
  function NotCombined(i: int): int {
    if i == COMBINED || i == COMBINED_ALPHA then ZERO else i
  }

  function WithoutCombined(cc: CombineCycle): CombineCycle {
    CombineCycle(NotCombined(cc.sa), NotCombined(cc.sb), NotCombined(cc.m), NotCombined(cc.a))
  }

  /** Replacing the combined inputs is giving them the value zero. */
  lemma WithoutCombinedValue(cc: CombineCycle, v: Valuation)
    requires Standard(v)
    ensures CycleValue(WithoutCombined(cc), v) == CycleValue(cc, Fed(v, 0.0, 0.0))
  {
  }

  predicate EqualCycles(f: Fields) {
    Color0(f) == Color1(f) && Alpha0(f) == Alpha1(f)
  }

  /** The program Combiner_Compile builds for a key. */
  function Compiled(key: CombinerKey): (p: Program)
    ensures |p.color| == |p.alpha| >= 1 && (p.numStages == 2 ==> |p.color| == 2)
    ensures p.key == key
  {
    var f := Decoded(key.mux);
    if CycleType(key) == 0 then
      Program(key, 1, [Simplified(WithoutCombined(Color1(f)))], [Simplified(WithoutCombined(Alpha1(f)))])
    else if EqualCycles(f) then
      Program(key, 1, [Simplified(Color0(f))], [Simplified(Alpha0(f))])
    else
      Program(key, CycleType(key) as nat + 1,
              [Simplified(Color0(f)), Simplified(Color1(f))], [Simplified(Alpha0(f)), Simplified(Alpha1(f))])
  }

  lemma FedStandard(v: Valuation, color: real, alpha: real)
    requires Standard(v)
    ensures Standard(Fed(v, color, alpha))
  {
  }

  /**
   * Compilation preserves meaning, for every key and every input: one-cycle programs compute the second cycle's
   * equation with COMBINED as zero, two-cycle programs with different cycles compute both in turn, and programs with
   * equal cycles compute the first one.
   */
  lemma CompiledMeaning(key: CombinerKey, inputs: Inputs)
    requires inputs.AllStandard()
    ensures Output(Compiled(key), inputs) ==
      var f := Decoded(key.mux);
      if CycleType(key) == 0 then OneCycle(f, inputs)
      else if CycleType(key) == 1 && !EqualCycles(f) then TwoCycles(f, inputs)
      else FirstCycle(f, inputs)
  {
    var f := Decoded(key.mux);
    if CycleType(key) == 0 {
      SimplifiedValue(WithoutCombined(Color1(f)), inputs.color0);
      SimplifiedValue(WithoutCombined(Alpha1(f)), inputs.alpha0);
      WithoutCombinedValue(Color1(f), inputs.color0);
      WithoutCombinedValue(Alpha1(f), inputs.alpha0);
    } else {
      SimplifiedValue(Color0(f), inputs.color0);
      SimplifiedValue(Alpha0(f), inputs.alpha0);
      var (c, a) := FirstCycle(f, inputs);
      FedStandard(inputs.color1, c, a);
      FedStandard(inputs.alpha1, a, a);
      SimplifiedValue(Color1(f), Fed(inputs.color1, c, a));
      SimplifiedValue(Alpha1(f), Fed(inputs.alpha1, a, a));
    }
  }

  /** The inputs of the first stage, with any values for what was combined before. */
  function Combined(inputs: Inputs, color: real, alpha: real): Inputs {
    inputs.(color0 := Fed(inputs.color0, color, alpha), alpha0 := Fed(inputs.alpha0, color, alpha))
  }

  /** A one-cycle program does not depend on the combined inputs. */
  lemma OneCycleReadsNoCombined(key: CombinerKey, inputs: Inputs, color: real, alpha: real)
    requires inputs.AllStandard() && CycleType(key) == 0
    ensures Output(Compiled(key), Combined(inputs, color, alpha)) == Output(Compiled(key), inputs)
  {
    CompiledMeaning(key, inputs);
    CompiledMeaning(key, Combined(inputs, color, alpha));
  }

  /** Fills a fresh stage and reads its program back. */
  method Stage(cc: CombineCycle) returns (ops: seq<CombinerOp>)
    ensures ops == Simplified(cc)
  {
    var stage := new CombinerStage();
    SimplifyCycle(cc, stage);
    ops := stage.op[..stage.numOps];
  }

  /** Combiner_Compile */
  method Compile(key: CombinerKey) returns (p: Program)
    ensures p == Compiled(key)
  {
    var f := Decoded(key.mux);
    var cycleType := CycleType(key);
    if cycleType == 0 {
      var cc := Color1(f);
      var ac := Alpha1(f);
      var color := Stage(CombineCycle(NotCombined(cc.sa), NotCombined(cc.sb), NotCombined(cc.m), NotCombined(cc.a)));
      var alpha := Stage(CombineCycle(NotCombined(ac.sa), NotCombined(ac.sb), NotCombined(ac.m), NotCombined(ac.a)));
      return Program(key, 1, [color], [alpha]);
    }
    var color0 := Stage(Color0(f));
    var alpha0 := Stage(Alpha0(f));
    if Color0(f) == Color1(f) && Alpha0(f) == Alpha1(f) {
      return Program(key, 1, [color0], [alpha0]);
    }
    var color1 := Stage(Color1(f));
    var alpha1 := Stage(Alpha1(f));
    return Program(key, cycleType as nat + 1, [color0, color1], [alpha0, alpha1]);
  }

  // -------------------------------------------------------------------------
  // Two equal cycles as one stage

  /** Nothing of the first cycle reaches the second, and the inputs they read have the same values in both. */
  ghost predicate Independent(f: Fields, inputs: Inputs) {
    && !Color0(f).Reads(COMBINED) && !Color0(f).Reads(COMBINED_ALPHA)
    && !Alpha0(f).Reads(COMBINED) && !Alpha0(f).Reads(COMBINED_ALPHA)
    && (forall i :: Color0(f).Reads(i) ==> inputs.color0(i) == inputs.color1(i))
    && (forall i :: Alpha0(f).Reads(i) ==> inputs.alpha0(i) == inputs.alpha1(i))
  }

  /** Equal cycles that do not read the combined inputs are rightly collapsed to one stage. */
  lemma CollapseIndependent(key: CombinerKey, inputs: Inputs)
    requires inputs.AllStandard() && CycleType(key) == 1 && Independent(Decoded(key.mux), inputs)
    ensures Output(Compiled(key), inputs) == TwoCycles(Decoded(key.mux), inputs)
  {
    CompiledMeaning(key, inputs);
    var f := Decoded(key.mux);
    if EqualCycles(f) {
      var (c, a) := FirstCycle(f, inputs);
      FedAgrees(Color0(f), inputs.color0, inputs.color1, c, a);
      FedAgrees(Alpha0(f), inputs.alpha0, inputs.alpha1, a, a);
    }
  }

  lemma FedAgrees(cc: CombineCycle, v: Valuation, v': Valuation, c: real, a: real)
    requires !cc.Reads(COMBINED) && !cc.Reads(COMBINED_ALPHA) && forall i :: cc.Reads(i) ==> v(i) == v'(i)
    ensures CycleValue(cc, Fed(v', c, a)) == CycleValue(cc, v)
  {
    assert cc.Reads(cc.sa) && cc.Reads(cc.sb) && cc.Reads(cc.m) && cc.Reads(cc.a);
  }

  // -------------------------------------------------------------------------
  // CombinerInfo

  const G_CYC_COPY: bv64 := 2
  const G_CYC_FILL: bv64 := 3

  /** The mode CombinerInfo.update hands to setCombine. */
  function UpdateMux(cycleType: bv64, mux: bv64): bv64 {
    if cycleType == G_CYC_COPY then Encoded(PassThrough(CC_TEXEL0))
    else if cycleType == G_CYC_FILL then Encoded(PassThrough(CC_SHADE))
    else mux
  }

  /**
   * Whatever the cycle type, a program reached through update has one or two stages, and its key shows the cycle type.
   */
  lemma UpdateStages(cycleType: bv64, mux: bv64, rect: bool, bilerp: bv64)
    requires cycleType <= 3 && bilerp <= 3 && mux >> 56 == 0
    ensures var key := Key(UpdateMux(cycleType, mux), rect, cycleType, bilerp);
      CycleType(key) == cycleType && 1 <= Compiled(key).numStages <= 2
  {
    PassThroughCycles(CC_TEXEL0);
    PassThroughCycles(CC_SHADE);
    KeyRoundTrip(UpdateMux(cycleType, mux), rect, cycleType, bilerp);
  }

  /**
   * In copy mode the program reached through update yields the first texel, in fill mode the shade, as colour and as
   * alpha, whatever the mux; in the other modes it computes the mux's own cycles.
   */
  lemma UpdateMeaning(cycleType: bv64, mux: bv64, rect: bool, bilerp: bv64, inputs: Inputs)
    requires cycleType <= 3 && bilerp <= 3 && mux >> 56 == 0 && inputs.AllStandard()
    ensures var result := Output(Compiled(Key(UpdateMux(cycleType, mux), rect, cycleType, bilerp)), inputs);
      && (cycleType == 0 ==> result == OneCycle(Decoded(mux), inputs))
      && (cycleType == 1 && !EqualCycles(Decoded(mux)) ==> result == TwoCycles(Decoded(mux), inputs))
      && (cycleType == 1 && EqualCycles(Decoded(mux)) ==> result == FirstCycle(Decoded(mux), inputs))
      && (cycleType == 2 ==> result == (inputs.color0(TEXEL0), inputs.alpha0(TEXEL0_ALPHA)))
      && (cycleType == 3 ==> result == (inputs.color0(SHADE), inputs.alpha0(SHADE_ALPHA)))
  {
    hide Compiled, Output, Encoded, Decoded, Simplified, OneCycle, TwoCycles;
    PassThroughCycles(CC_TEXEL0);
    PassThroughCycles(CC_SHADE);
    var key := Key(UpdateMux(cycleType, mux), rect, cycleType, bilerp);
    KeyRoundTrip(UpdateMux(cycleType, mux), rect, cycleType, bilerp);
    CompiledMeaning(key, inputs);
  }

  lemma SameBinding<K, V>(m: map<K, V>, k: K, v: V)
    requires k in m && m[k] == v
    ensures m[k := v] == m
  {
  }

  class CombinerInfo {
    var current: Option<Program>
    var combiners: map<CombinerKey, Program>
    var changed: bool
    var rectMode: bool

    /** Every cached program, and the current one, is the program of its key. */
    ghost predicate Valid()
      reads this
    {
      && (forall k :: k in combiners ==> combiners[k] == Compiled(k))
      && (current.Some? ==> current.value == Compiled(current.value.key))
    }

    constructor ()
      ensures Valid() && current == None && combiners == map[] && rectMode
    {
      current, combiners, changed, rectMode := None, map[], false, true;
    }

    /** The cached program of a key, compiled if it is not there yet. */
    method Lookup(key: CombinerKey) returns (program: Program)
      requires forall k :: k in combiners ==> combiners[k] == Compiled(k)
      modifies this`combiners
      ensures program == Compiled(key) && combiners == old(combiners)[key := Compiled(key)]
    {
      if key in combiners {
        program := combiners[key];
        SameBinding(combiners, key, program);
      } else {
        program := Compile(key);
        combiners := combiners[program.key := program];
      }
    }

    method SetCombine(mux: bv64, cycleType: bv64, bilerp: bv64)
      requires Valid()
      modifies this`current, this`combiners, this`changed
      ensures Valid()
      ensures var key := Key(mux, rectMode, cycleType, bilerp);
        && current == Some(Compiled(key))
        && changed == (old(current) != Some(Compiled(key)))
        && combiners == if changed then old(combiners)[key := Compiled(key)] else old(combiners)
    {
      var key := Key(mux, rectMode, cycleType, bilerp);
      if current.Some? && current.value.key == key {
        changed := false;
        return;
      }
      var program := Lookup(key);
      current := Some(program);
      changed := true;
    }

    /** CombinerInfo::update */
    method Update(mux: bv64, cycleType: bv64, bilerp: bv64)
      requires Valid() && cycleType <= 3 && bilerp <= 3 && mux >> 56 == 0
      modifies this`current, this`combiners, this`changed
      ensures Valid()
      ensures var key := Key(UpdateMux(cycleType, mux), rectMode, cycleType, bilerp);
        && current == Some(Compiled(key))
        && changed == (old(current) != Some(Compiled(key)))
        && combiners == if changed then old(combiners)[key := Compiled(key)] else old(combiners)
      ensures CycleType(current.value.key) == cycleType && 1 <= current.value.numStages <= 2
    {
      if cycleType == G_CYC_COPY {
        SetCombine(Encoded(PassThrough(CC_TEXEL0)), cycleType, bilerp);
      } else if cycleType == G_CYC_FILL {
        SetCombine(Encoded(PassThrough(CC_SHADE)), cycleType, bilerp);
      } else {
        SetCombine(mux, cycleType, bilerp);
      }
      UpdateStages(cycleType, mux, rectMode, bilerp);
    }
  }
}
