/**
 * The colour combiner compiler of GLideN64/src/Combiner.cpp: cycles `(sa - sb) * m + a` and the op programs they
 * become.
 */
module Combiner {
  // The numbers of the inputs, G_GCI_COMBINED and so on
  const COMBINED: int := 0
  const TEXEL0: int := 1
  const TEXEL1: int := 2
  const PRIMITIVE: int := 3
  const SHADE: int := 4
  const ENVIRONMENT: int := 5
  const CENTER: int := 6
  const SCALE: int := 7
  const COMBINED_ALPHA: int := 8
  const TEXEL0_ALPHA: int := 9
  const TEXEL1_ALPHA: int := 10
  const PRIMITIVE_ALPHA: int := 11
  const SHADE_ALPHA: int := 12
  const ENV_ALPHA: int := 13
  const LOD_FRACTION: int := 14
  const PRIM_LOD_FRAC: int := 15
  const NOISE: int := 16
  const K4: int := 17
  const K5: int := 18
  const ONE: int := 19
  const ZERO: int := 20
  const HALF: int := 21

  datatype OpCode = LOAD | SUB | MUL | ADD | INTER

  datatype CombinerOp = CombinerOp(op: OpCode, param1: int, param2: int, param3: int)

  const BLANK := CombinerOp(LOAD, -1, -1, -1)

  function Op1(op: OpCode, p: int): CombinerOp {
    CombinerOp(op, p, -1, -1)
  }

  datatype CombineCycle = CombineCycle(sa: int, sb: int, m: int, a: int)
  {
    predicate Reads(input: int) {
      sa == input || sb == input || m == input || a == input
    }
  }

  // -------------------------------------------------------------------------
  // Meaning

  /** A value for every input; the constants have theirs. */
  type Valuation = int -> real

  ghost predicate Standard(v: Valuation) {
    v(ZERO) == 0.0 && v(ONE) == 1.0
  }

  /** The combiner equation. */
  function Combine(sa: real, sb: real, m: real, a: real): real {
    (sa - sb) * m + a
  }

  function CycleValue(cc: CombineCycle, v: Valuation): real {
    Combine(v(cc.sa), v(cc.sb), v(cc.m), v(cc.a))
  }

  function OpValue(acc: real, op: CombinerOp, v: Valuation): real {
    match op.op
    case LOAD => v(op.param1)
    case SUB => acc - v(op.param1)
    case MUL => acc * v(op.param1)
    case ADD => acc + v(op.param1)
    case INTER => (v(op.param1) - v(op.param2)) * v(op.param3) + v(op.param2)
  }

  /** The value a program leaves. */
  function ProgramValue(ops: seq<CombinerOp>, v: Valuation): real {
    if ops == [] then 0.0 else OpValue(ProgramValue(ops[..|ops| - 1], v), ops[|ops| - 1], v)
  }

  // -------------------------------------------------------------------------
  // SimplifyCycle

  function Loaded(cc: CombineCycle): seq<CombinerOp> {
    if cc.sb == ZERO then [Op1(LOAD, cc.sa)]
    else if cc.sb == cc.sa then [Op1(LOAD, ZERO)]
    else [Op1(LOAD, cc.sa), Op1(SUB, cc.sb)]
  }

  function Multiplied(cc: CombineCycle): seq<CombinerOp> {
    var ops := Loaded(cc);
    if ops == [Op1(LOAD, ZERO)] then ops
    else if cc.m == ZERO then [Op1(LOAD, ZERO)]
    else if ops == [Op1(LOAD, ONE)] then [Op1(LOAD, cc.m)]
    else ops + [Op1(MUL, cc.m)]
  }

  function Added(cc: CombineCycle): seq<CombinerOp> {
    var ops := Multiplied(cc);
    if cc.a == ZERO then ops
    else if ops == [Op1(LOAD, ZERO)] then [Op1(LOAD, cc.a)]
    else ops + [Op1(ADD, cc.a)]
  }

  /** The program of a cycle. */
  function Simplified(cc: CombineCycle): seq<CombinerOp> {
    var ops := Added(cc);
    if |ops| == 4 && cc.sb == cc.a then [CombinerOp(INTER, cc.sa, cc.sb, cc.m)] else ops
  }

  lemma ProgramStep(ops: seq<CombinerOp>, op: CombinerOp, v: Valuation)
    ensures ProgramValue(ops + [op], v) == OpValue(ProgramValue(ops, v), op, v)
  {
    assert (ops + [op])[..|ops|] == ops;
  }

  lemma LoadValue(p: int, v: Valuation)
    ensures ProgramValue([Op1(LOAD, p)], v) == v(p)
  {
  }

  lemma LoadedValue(cc: CombineCycle, v: Valuation)
    requires Standard(v)
    ensures ProgramValue(Loaded(cc), v) == v(cc.sa) - v(cc.sb)
  {
    LoadValue(cc.sa, v);
    ProgramStep([Op1(LOAD, cc.sa)], Op1(SUB, cc.sb), v);
    assert [Op1(LOAD, cc.sa)] + [Op1(SUB, cc.sb)] == [Op1(LOAD, cc.sa), Op1(SUB, cc.sb)];
  }

  lemma MultipliedValue(cc: CombineCycle, v: Valuation)
    requires Standard(v)
    ensures ProgramValue(Multiplied(cc), v) == (v(cc.sa) - v(cc.sb)) * v(cc.m)
  {
    LoadedValue(cc, v);
    LoadValue(cc.m, v);
    LoadValue(ZERO, v);
    LoadValue(ONE, v);
    ProgramStep(Loaded(cc), Op1(MUL, cc.m), v);
  }

  /**
   * SimplifyCycle preserves meaning: its program computes `(sa - sb) * m + a`, for every cycle and every input value.
   */
  lemma SimplifiedValue(cc: CombineCycle, v: Valuation)
    requires Standard(v)
    ensures ProgramValue(Simplified(cc), v) == CycleValue(cc, v)
  {
    MultipliedValue(cc, v);
    LoadValue(cc.a, v);
    LoadValue(ZERO, v);
    ProgramStep(Multiplied(cc), Op1(ADD, cc.a), v);
    if |Added(cc)| == 4 && cc.sb == cc.a {
      assert ProgramValue([], v) == 0.0;
    }
  }

  predicate Loads(op: CombinerOp, input: int) {
    op.op == LOAD && op.param1 == input
  }

  /**
   * A program spares what it can: it neither subtracts, multiplies by nor adds zero, goes on from a loaded zero,
   * multiplies a loaded one, or subtracts what it loaded; and it interpolates where it would subtract and add the same.
   */
  lemma SimplifiedSpares(cc: CombineCycle)
    ensures var ops := Simplified(cc);
      && 1 <= |ops| <= 4 && (ops[0].op == LOAD || ops[0].op == INTER)
      && (forall k :: 0 < k < |ops| ==> ops[k].op in {SUB, MUL, ADD} && ops[k].param1 != ZERO)
      && (|ops| > 1 ==> ops[0].op == LOAD && (ops[0].param1 != ZERO || ops[1].op == SUB))
      && (|ops| > 1 && ops[1].op == MUL ==> !Loads(ops[0], ONE))
      && (|ops| > 1 && ops[1].op == SUB ==> ops[1].param1 != ops[0].param1)
      && (|ops| == 4 ==> ops[1].param1 != ops[3].param1)
      && (ops[0].op == INTER ==> |ops| == 1)
  {
  }

  class CombinerStage {
    var numOps: nat
    const op: array<CombinerOp>

    constructor ()
      ensures fresh(op) && op.Length == 6 && op[..] == seq(6, _ => BLANK)
    {
      numOps := 0;
      op := new CombinerOp[6](_ => BLANK);
    }

    ghost function Program(): seq<CombinerOp>
      reads this, op
      requires numOps <= op.Length
    {
      op[..numOps]
    }
  }

  /** SimplifyCycle, filling a fresh stage step by step. */
  method SimplifyCycle(cc: CombineCycle, stage: CombinerStage)
    requires stage.op.Length == 6 && stage.op[..] == seq(6, _ => BLANK)
    modifies stage, stage.op
    ensures stage.numOps <= 4 && stage.Program() == Simplified(cc)
  {
    var op := stage.op;
    assert forall k :: 0 <= k < 6 ==> op[..][k] == BLANK;
    op[0] := op[0].(op := LOAD, param1 := cc.sa);
    stage.numOps := 1;
    if cc.sb != ZERO {
      if cc.sb == op[0].param1 {
        op[0] := op[0].(param1 := ZERO);
      } else {
        op[1] := op[1].(op := SUB, param1 := cc.sb);
        stage.numOps := stage.numOps + 1;
      }
    }
    assert stage.Program() == Loaded(cc);
    if stage.numOps > 1 || op[0].param1 != ZERO {
      if cc.m == ZERO {
        stage.numOps := 1;
        op[0] := op[0].(op := LOAD, param1 := ZERO);
      } else if stage.numOps == 1 && op[0].param1 == ONE {
        op[0] := op[0].(param1 := cc.m);
      } else {
        op[stage.numOps] := op[stage.numOps].(op := MUL, param1 := cc.m);
        stage.numOps := stage.numOps + 1;
      }
    }
    assert stage.Program() == Multiplied(cc);
    if cc.a != ZERO {
      if stage.numOps == 1 && op[0].param1 == ZERO {
        op[0] := op[0].(param1 := cc.a);
      } else {
        op[stage.numOps] := op[stage.numOps].(op := ADD, param1 := cc.a);
        stage.numOps := stage.numOps + 1;
      }
    }
    assert stage.Program() == Added(cc);
    if stage.numOps == 4 && op[1].param1 == op[3].param1 {
      stage.numOps := 1;
      op[0] := op[0].(op := INTER, param2 := op[1].param1, param3 := op[2].param1);
    }
  }
}
