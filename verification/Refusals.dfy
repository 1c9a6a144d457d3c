/**
  Which programs `preprocess` runs although they have no circuit: exactly those that bring in
  a type without its chip, and those with a step in one of five cases, four of them about the
  operands of one instruction.
 */
module Refusals {
  import opened Options
  import opened Digits
  import opened Types
  import opened Instructions
  import opened Operations
  import opened Preprocess
  import opened Typing
  import opened Agreement
  import opened OpAgreement
  import opened ChipSelection
  import Chips
  import Circuit
  import CircuitRun
  import Encoding
  import Completeness
  import OpSoundness
  import Soundness
  import SynthesisTyping

  // ----- one computing instruction -----

  /**
    Operands that only the interpreter takes: byte strings to select from, byte strings of
    different lengths to compare, a high part that is not Native, and hash inputs of an
    alignment that circuits do not support.
   */
  predicate InterpreterOnly(c: Params, ins: Instruction, vs: seq<IrValue>)
    requires |vs| == |ins.Args()|
  {
    || (ins.CondSelect? && vs[1].Bytes?)
    || (ins.TestEq? && TypeOf(vs[0]) != TypeOf(vs[1]))
    || (ins.Bytes32FromLowHigh? && !vs[1].Native?)
    || (ins.AlignedHash? && !AlignedFits(c, ins.alignment, |vs|))
  }

  lemma {:induction false} NativesTyped(vs: seq<IrValue>)
    ensures AllNative(vs).Some? <==> AllAre(IrType.Native, TypesOf(vs))
  {
    if vs == [] {
    } else {
      NativesTyped(vs[1..]);
      assert TypesOf(vs)[1..] == TypesOf(vs[1..]);
      SynthesisTyping.AllAreTail(IrType.Native, TypesOf(vs));
    }
  }

  lemma {:induction false} BoolsTyped(vs: seq<IrValue>)
    ensures Bools(vs).Some? <==> AllAre(IrType.Bool, TypesOf(vs))
  {
    if vs == [] {
    } else {
      BoolsTyped(vs[1..]);
      assert TypesOf(vs)[1..] == TypesOf(vs[1..]);
      SynthesisTyping.AllAreTail(IrType.Bool, TypesOf(vs));
    }
  }

  /** Instructions with a list of operands. */
  predicate TakesList(ins: Instruction) {
    || ins.TransientHash? || ins.AlignedHash? || ins.BytesFromNatives? || ins.And? || ins.Or? || ins.Xor? || ins.Concat?
  }

  /** Valid operands that the interpreter accepts. */
  ghost predicate Applies(c: Params, ins: Instruction, vs: seq<IrValue>) {
    c.Valid() && ValidValues(c, vs) && ins.Computes() && |vs| == |ins.Args()| && Apply(c, ins, vs).Some?
  }

  lemma ListRefusedIff(c: Params, ins: Instruction, vs: seq<IrValue>)
    requires Applies(c, ins, vs) && TakesList(ins)
    ensures OpType(c, ins, TypesOf(vs)).None? <==> InterpreterOnly(c, ins, vs)
  {
    if ins.Concat? {
      ConcatValid(c, vs);
    } else {
      NativesTyped(vs);
      BoolsTyped(vs);
    }
  }

  lemma PairRefusedIff(c: Params, ins: Instruction, vs: seq<IrValue>)
    requires Applies(c, ins, vs) && (ins.CondSelect? || ins.TestEq? || ins.Bytes32FromLowHigh?)
    ensures OpType(c, ins, TypesOf(vs)).None? <==> InterpreterOnly(c, ins, vs)
  {}

  lemma OthersAccepted(c: Params, ins: Instruction, vs: seq<IrValue>)
    requires Applies(c, ins, vs)
    requires !TakesList(ins) && !ins.CondSelect? && !ins.TestEq? && !ins.Bytes32FromLowHigh?
    ensures OpType(c, ins, TypesOf(vs)).Some?
  {}

  /** The complete list: of the operands that the interpreter accepts, the check refuses exactly these. */
  lemma OpRefusedIff(c: Params, ins: Instruction, vs: seq<IrValue>)
    requires Applies(c, ins, vs)
    ensures OpType(c, ins, TypesOf(vs)).None? <==> InterpreterOnly(c, ins, vs)
  {
    if TakesList(ins) { ListRefusedIff(c, ins, vs); }
    else if ins.CondSelect? || ins.TestEq? || ins.Bytes32FromLowHigh? { PairRefusedIff(c, ins, vs); }
    else { OthersAccepted(c, ins, vs); }
  }

  lemma ElemFits(c: Params, v: IrValue)
    requires c.Sizes() && ValidValue(c, v)
    ensures Elem(v) < Pow(256, c.ReprBytes())
  {
    FieldHoldsLimb(c);
    ScalarFitsBytes(c);
  }

  lemma TopByteZero(c: Params, x: nat)
    requires c.Sizes() && x < Pow(256, c.ReprBytes())
    ensures Encoding.FieldBytes(c, x)[c.limbBytes] == 0 <==> x < Pow(256, c.limbBytes)
  {
    var bytes, k := Encoding.FieldBytes(c, x), c.limbBytes as int;
    Encoding.HighBytesZero(c, x, k);
    assert bytes[k..] == [bytes[k]];
    assert Encoding.AllZero(bytes[k..]) <==> bytes[k] == 0;
  }

  /**
    Joining a low and a high part: off-circuit both may be of any prime field, as long as the low
    one fits a limb and the high one a byte. In-circuit the high one has to be Native.
   */
  lemma HighPartDiverges(c: Params, ins: Instruction, low: IrValue, high: IrValue)
    requires ins.Bytes32FromLowHigh? && c.Sizes() && ValidValue(c, low) && ValidValue(c, high)
    ensures Apply(c, ins, [low, high]).Some? <==>
              && Modulus(c, TypeOf(low)).Some? && Modulus(c, TypeOf(high)).Some?
              && Elem(low) < Pow(256, c.limbBytes) && Elem(high) < 256
    ensures Apply(c, ins, [low, high]).Some? ==>
              (OpType(c, ins, TypesOf([low, high])).Some? <==> high.Native?)
  {
    ElemFits(c, low);
    ElemFits(c, high);
    TopByteZero(c, Elem(low));
    OpSoundness.ByteFits(c, Elem(high));
  }

  /** The same operands, spelled out without the interpreter's own verdict. */
  predicate RefusedOperands(c: Params, ins: Instruction, vs: seq<IrValue>)
    requires |vs| == |ins.Args()|
  {
    match ins
    case CondSelect(_, _, _, _) => AsBit(vs[0]).Some? && vs[1].Bytes? && TypeOf(vs[1]) == TypeOf(vs[2])
    case TestEq(_, _, _) => vs[0].Bytes? && vs[1].Bytes? && |vs[0].bytes| != |vs[1].bytes|
    case Bytes32FromLowHigh(_, _, _) =>
      && Modulus(c, TypeOf(vs[0])).Some? && Elem(vs[0]) < Pow(256, c.limbBytes)
      && Modulus(c, TypeOf(vs[1])).Some? && Elem(vs[1]) < 256 && !vs[1].Native?
    case AlignedHash(_, alignment, _, _) =>
      && AllNative(vs).Some? && c.alignedBytes(alignment, AllNative(vs).value).Some?
      && !AlignedFits(c, alignment, |vs|)
    case _ => false
  }

  /** Exactly these operands work off-circuit and are refused by the check. */
  lemma OperandsDivergeIff(c: Params, ins: Instruction, vs: seq<IrValue>)
    requires c.Valid() && ValidValues(c, vs) && ins.Computes() && |vs| == |ins.Args()|
    ensures Apply(c, ins, vs).Some? && OpType(c, ins, TypesOf(vs)).None? <==> RefusedOperands(c, ins, vs)
  {
    if Apply(c, ins, vs).Some? { OpRefusedIff(c, ins, vs); }
    if ins.Bytes32FromLowHigh? {
      assert vs == [vs[0], vs[1]];
      HighPartDiverges(c, ins, vs[0], vs[1]);
    } else if RefusedOperands(c, ins, vs) {
      RefusedAreAccepted(c, ins, vs);
    }
  }

  lemma RefusedAreAccepted(c: Params, ins: Instruction, vs: seq<IrValue>)
    requires ins.Computes() && |vs| == |ins.Args()| && !ins.Bytes32FromLowHigh? && RefusedOperands(c, ins, vs)
    ensures Apply(c, ins, vs).Some? && InterpreterOnly(c, ins, vs)
  {}

  // ----- one step -----

  /** The circuit has no such step: the operands are refused, or an impact has inputs that are not native values. */
  predicate RefusedStep(c: Params, s: State, ins: Instruction) {
    if ins.Impact? then
      var vs := ResolveAll(s.memory, ins.inputs);
      vs.None? || AllNative(vs.value).None?
    else
      ins.Computes() && ResolveAll(s.memory, ins.Args()).Some?
      && InterpreterOnly(c, ins, ResolveAll(s.memory, ins.Args()).value)
  }

  /** Typed operands, and a valid state in which the interpreter takes the step. */
  ghost predicate Stepping(c: Params, src: IrSource, pre: Preimage, s: State, ins: Instruction) {
    && c.Valid() && ValidState(c, s) && ValidPreimage(c, pre) && OpSoundness.TypedInstruction(c, ins)
    && Step(c, src, pre, s, ins).Some?
  }

  /** What a step that passes the check establishes. */
  ghost predicate Stays(c: Params, src: IrSource, pre: Preimage, s: State, ins: Instruction)
    requires Stepping(c, src, pre, s, ins)
  {
    var s' := Step(c, src, pre, s, ins).value;
    ValidState(c, s') && CheckStep(c, src, StaticOf(s), ins) == Some(StaticOf(s'))
  }

  lemma HashStays(c: Params, src: IrSource, pre: Preimage, s: State, ins: Instruction)
    requires Stepping(c, src, pre, s, ins) && ins.AlignedHash? && CheckStep(c, src, StaticOf(s), ins).Some?
    ensures Stays(c, src, pre, s, ins)
  {
    ResolveAllTyped(c, s.memory, ins.Args());
    var vs := ResolveAll(s.memory, ins.Args()).value;
    var rs := Apply(c, ins, vs).value;
    Few(rs);
    BindTyped(s.memory, ins.Outs(), rs);
    BindValid(c, s.memory, ins.Outs(), rs);
  }

  lemma OtherStays(c: Params, src: IrSource, pre: Preimage, s: State, ins: Instruction)
    requires Stepping(c, src, pre, s, ins) && !ins.AlignedHash? && CheckStep(c, src, StaticOf(s), ins).Some?
    ensures Stays(c, src, pre, s, ins)
  {
    var s' := Step(c, src, pre, s, ins).value;
    if IsRead(ins) { ReadIsTyped(c, pre, s, ins); }
    var values := if IsRead(ins) then [s'.memory[ins.output]] else [];
    var w := CircuitRun.Witness([], values, 0, None);
    StepAgrees(c, src, pre, w, s, ins, CircuitRun.RunState(s.memory, s.pis, s.outputs, 0));
  }

  lemma ImpactRefusedIff(c: Params, src: IrSource, pre: Preimage, s: State, ins: Instruction)
    requires Stepping(c, src, pre, s, ins) && ins.Impact?
    ensures CheckStep(c, src, StaticOf(s), ins).None? <==> RefusedStep(c, s, ins)
  {
    assert ins.Args()[1..] == ins.inputs;
    assert forall i :: 0 <= i < |ins.inputs| ==> ins.inputs[i] == ins.Args()[i + 1];
    ResolveAllTyped(c, s.memory, ins.inputs);
    if ResolveAll(s.memory, ins.inputs).Some? { NativesTyped(ResolveAll(s.memory, ins.inputs).value); }
  }

  /** The check expects as many results as the interpreter has. */
  lemma ResultsCounted(c: Params, ins: Instruction, vs: seq<IrValue>)
    requires Applies(c, ins, vs) && OpType(c, ins, TypesOf(vs)).Some?
    requires ins.LoadConstant? ==> c.FieldElements(ins.encoding)
    ensures |OpType(c, ins, TypesOf(vs)).value| == |Apply(c, ins, vs).value|
  {
    if !ins.AlignedHash? { OpAgrees(c, ins, vs); }
  }

  lemma ComputeRefusedIff(c: Params, src: IrSource, pre: Preimage, s: State, ins: Instruction)
    requires Stepping(c, src, pre, s, ins) && ins.Computes()
    ensures CheckStep(c, src, StaticOf(s), ins).None? <==> RefusedStep(c, s, ins)
  {
    ResolveAllTyped(c, s.memory, ins.Args());
    var vs := ResolveAll(s.memory, ins.Args()).value;
    OpRefusedIff(c, ins, vs);
    if OpType(c, ins, TypesOf(vs)).Some? { ResultsCounted(c, ins, vs); }
  }

  lemma OutputTyped(c: Params, src: IrSource, pre: Preimage, s: State, ins: Instruction)
    requires Stepping(c, src, pre, s, ins) && ins.Output?
    ensures CheckStep(c, src, StaticOf(s), ins).Some?
  {
    ResolveAllTyped(c, s.memory, ins.vals);
  }

  lemma StepRefusedIff(c: Params, src: IrSource, pre: Preimage, s: State, ins: Instruction)
    requires Stepping(c, src, pre, s, ins)
    ensures CheckStep(c, src, StaticOf(s), ins).None? <==> RefusedStep(c, s, ins)
    ensures !RefusedStep(c, s, ins) ==> Stays(c, src, pre, s, ins)
  {
    if ins.Impact? { ImpactRefusedIff(c, src, pre, s, ins); }
    else if IsRead(ins) { ReadIsTyped(c, pre, s, ins); }
    else if ins.Output? { OutputTyped(c, src, pre, s, ins); }
    else { ComputeRefusedIff(c, src, pre, s, ins); }
    if !RefusedStep(c, s, ins) {
      if ins.AlignedHash? { HashStays(c, src, pre, s, ins); } else { OtherStays(c, src, pre, s, ins); }
    }
  }

  // ----- whole runs -----

  /** Some step of the run is refused. */
  predicate RefusedFrom(c: Params, src: IrSource, pre: Preimage, s: State, todo: seq<Instruction>)
    requires RunFrom(c, src, pre, s, todo).Some?
    decreases |todo|
  {
    todo != [] &&
      (RefusedStep(c, s, todo[0]) || RefusedFrom(c, src, pre, Step(c, src, pre, s, todo[0]).value, todo[1..]))
  }

  lemma {:induction false} RunRefusedIff(c: Params, src: IrSource, pre: Preimage, s: State, todo: seq<Instruction>)
    requires c.Valid() && ValidState(c, s) && ValidPreimage(c, pre) && RunFrom(c, src, pre, s, todo).Some?
    requires forall i :: 0 <= i < |todo| ==> OpSoundness.TypedInstruction(c, todo[i])
    ensures CheckFrom(c, src, StaticOf(s), todo).None? <==> RefusedFrom(c, src, pre, s, todo)
    decreases |todo|
  {
    if todo == [] {
    } else {
      StepRefusedIff(c, src, pre, s, todo[0]);
      if !RefusedStep(c, s, todo[0]) {
        RunRefusedIff(c, src, pre, Step(c, src, pre, s, todo[0]).value, todo[1..]);
      }
    }
  }

  lemma InitStays(c: Params, src: IrSource, pre: Preimage)
    requires c.Valid() && ValidPreimage(c, pre) && Init(c, src, pre).Some?
    ensures ValidState(c, Init(c, src, pre).value) && CheckInit(src) == Some(StaticOf(Init(c, src, pre).value))
  {
    var vs := Completeness.InputsDecoded(c, src.inputs, pre.inputs, map[]);
    var comm := if src.doCommunicationsCommitment then pre.communicationsCommitment else None;
    Completeness.InitAgrees(c, src, pre, CircuitRun.Witness(vs, [], pre.bindingInput, comm), vs);
  }

  /**
    Whenever `preprocess` succeeds, the program has a circuit if and only if no step of the run is
    refused and no chip is missing. Of steps: no byte strings are selected from, no byte strings of
    different lengths compared, no high part other than a Native joined, no unsupported alignment
    hashed, and every input of an impact, guarded off or not, resolves to a native value. Of chips:
    every type that a constant or a conversion from Native brings in appears at an entry point.
   */
  lemma CircuitExistsIff(c: Params, src: IrSource, pre: Preimage)
    requires c.Valid() && Soundness.TypedSource(c, src) && ValidPreimage(c, pre) && Run(c, src, pre).Some?
    ensures Circuit.Synthesize(c, src).None? <==>
              RefusedFrom(c, src, pre, Init(c, src, pre).value, src.instructions) || !Covered(src)
  {
    InitStays(c, src, pre);
    RunRefusedIff(c, src, pre, Init(c, src, pre).value, src.instructions);
    Chips.SynthesisIffChecked(c, src);
  }
}
