/**
  The static check speaks for both runs: what is in scope, at which types, and how many
  public inputs there are depends on the source alone.
 */
module TypePreservation {
  import opened Options
  import opened Types
  import opened Instructions
  import opened Operations
  import opened Preprocess
  import opened Typing
  import opened Agreement
  import OpAgreement
  import Circuit
  import CircuitRun
  import Completeness
  import Gadgets
  import OpSoundness
  import Readings
  import Soundness
  import SynthesisTyping

  lemma ComputeTyped(c: Params, s: State, ins: Instruction)
    requires c.Valid() && ValidState(c, s) && OpSoundness.TypedInstruction(c, ins) && ins.Computes()
    requires CheckCompute(c, StaticOf(s), ins).Some? && StepCompute(c, s, ins).Some?
    ensures var s' := StepCompute(c, s, ins).value;
            ValidState(c, s') && CheckCompute(c, StaticOf(s), ins) == Some(StaticOf(s'))
  {
    ResolveAllTyped(c, s.memory, ins.Args());
    var vs := ResolveAll(s.memory, ins.Args()).value;
    OpAgreement.ResultsTyped(c, ins, vs);
    var rs := Apply(c, ins, vs).value;
    BindTyped(s.memory, ins.Outs(), rs);
    BindValid(c, s.memory, ins.Outs(), rs);
  }

  lemma StepTyped(c: Params, src: IrSource, pre: Preimage, s: State, ins: Instruction)
    requires c.Valid() && ValidState(c, s) && ValidPreimage(c, pre) && OpSoundness.TypedInstruction(c, ins)
    requires CheckStep(c, src, StaticOf(s), ins).Some? && Step(c, src, pre, s, ins).Some?
    ensures var s' := Step(c, src, pre, s, ins).value;
            ValidState(c, s') && CheckStep(c, src, StaticOf(s), ins) == Some(StaticOf(s'))
  {
    var t := CircuitRun.RunState(s.memory, s.pis, s.outputs, 0);
    if ins.Computes() {
      ComputeTyped(c, s, ins);
    } else if ins.Impact? {
      ImpactAgrees(c, pre, s, ins.guard, ins.inputs, t);
    } else if ins.Output? {
      OutputAgrees(c, src, s, ins.vals, t);
    } else {
      ReadIsTyped(c, pre, s, ins);
      var v := StepRead(c, pre, s, ins).value.memory[ins.output];
      ReadAgrees(c, pre, CircuitRun.Witness([], [v], 0, None), s, ins, t);
    }
  }

  lemma {:induction false} RunTyped(c: Params, src: IrSource, pre: Preimage, s: State, todo: seq<Instruction>)
    requires c.Valid() && ValidState(c, s) && ValidPreimage(c, pre)
    requires forall i :: 0 <= i < |todo| ==> OpSoundness.TypedInstruction(c, todo[i])
    requires CheckFrom(c, src, StaticOf(s), todo).Some? && RunFrom(c, src, pre, s, todo).Some?
    ensures var e := RunFrom(c, src, pre, s, todo).value;
            ValidState(c, e) && CheckFrom(c, src, StaticOf(s), todo) == Some(StaticOf(e))
    decreases |todo|
  {
    if todo == [] {
    } else {
      StepTyped(c, src, pre, s, todo[0]);
      RunTyped(c, src, pre, Step(c, src, pre, s, todo[0]).value, todo[1..]);
    }
  }

  /** Every entry of the interpreter's memory is a value of the type that the check assigns. */
  lemma PreprocessIsTyped(c: Params, src: IrSource, pre: Preimage)
    requires c.Valid() && Soundness.TypedSource(c, src) && ValidPreimage(c, pre)
    requires Check(c, src).Some? && Run(c, src, pre).Some?
    ensures var e := Run(c, src, pre).value;
            Check(c, src) == Some(StaticOf(e)) && ValidMemory(c, e.memory)
  {
    var vs := Completeness.InputsDecoded(c, src.inputs, pre.inputs, map[]);
    var w := CircuitRun.Witness(vs, [], pre.bindingInput,
        if src.doCommunicationsCommitment then pre.communicationsCommitment else None);
    Completeness.InitAgrees(c, src, pre, w, vs);
    RunTyped(c, src, pre, Init(c, src, pre).value, src.instructions);
  }

  /**
    The same of the circuit: whatever satisfies it holds, at every identifier, a valid value of
    the type that the check assigns, valid outputs of the declared types, and as many public
    inputs as the check counts, all of them field elements.
   */
  lemma CircuitIsTyped(c: Params, src: IrSource, k: Circuit.CircuitShape, a: Gadgets.Assignment)
    requires c.Valid() && Soundness.TypedSource(c, src)
    requires Circuit.Synthesize(c, src) == Some(k) && Gadgets.Sat(c, k.b, a)
    ensures var memory, outputs := Readings.ReadMemory(a, k.memory), Readings.ReadAll(a, k.outputs);
            && Check(c, src) == Some(Static(EnvOf(memory), |Gadgets.Cells(a, k.pis)|, TypesOf(outputs)))
            && ValidMemory(c, memory) && ValidValues(c, outputs) && c.FieldElements(Gadgets.Cells(a, k.pis))
  {
    CircuitStatic(c, src, k, a);
    Soundness.SatisfyingIsRun(c, src, k, a);
    SortedIsValidMemory(c, a, k.memory);
    SortedIsValidAll(c, a, k.outputs);
  }

  lemma CircuitStatic(c: Params, src: IrSource, k: Circuit.CircuitShape, a: Gadgets.Assignment)
    requires c.Sizes() && Soundness.TypedSource(c, src) && Circuit.Synthesize(c, src) == Some(k)
    ensures Check(c, src) == Some(Static(EnvOf(Readings.ReadMemory(a, k.memory)), |Gadgets.Cells(a, k.pis)|,
                                         TypesOf(Readings.ReadAll(a, k.outputs))))
  {
    ConstantsTyped(c, src);
    Circuit.CircuitIsEquipped(c, src);
    SynthesisTyping.EquippedIffChecked(c, src);
    assert EnvOf(Readings.ReadMemory(a, k.memory)) == SynthesisTyping.EnvOf(k.memory);
    Soundness.ReadTypes(c, a, k.outputs);
  }

  lemma ConstantsTyped(c: Params, src: IrSource)
    requires Soundness.TypedSource(c, src)
    ensures SynthesisTyping.TypedConstants(c, src.instructions)
  {
    forall i | 0 <= i < |src.instructions| && src.instructions[i].LoadConstant?
      ensures c.FieldElements(src.instructions[i].encoding)
    {
      assert OpSoundness.TypedInstruction(c, src.instructions[i]);
    }
  }

  lemma SortedIsValidMemory(c: Params, a: Gadgets.Assignment, memory: Circuit.CircuitMemory)
    requires Readings.SortedMemory(c, a, memory)
    ensures ValidMemory(c, Readings.ReadMemory(a, memory))
  {
    forall id | id in memory
      ensures ValidValue(c, Readings.Read(a, memory[id]))
    {
      Readings.SortedIsValid(c, a, memory[id]);
    }
  }

  lemma SortedIsValidAll(c: Params, a: Gadgets.Assignment, vs: seq<Circuit.CircuitValue>)
    requires Readings.SortedAll(c, a, vs)
    ensures ValidValues(c, Readings.ReadAll(a, vs))
  {
    forall i | 0 <= i < |vs|
      ensures ValidValue(c, Readings.ReadAll(a, vs)[i])
    {
      Readings.SortedIsValid(c, a, vs[i]);
    }
  }

  /** The shape of a run depends on the program, never on the preimage. */
  lemma ShapeIgnoresPreimage(c: Params, src: IrSource, pre: Preimage, other: Preimage)
    requires c.Valid() && Soundness.TypedSource(c, src) && ValidPreimage(c, pre) && ValidPreimage(c, other)
    requires Check(c, src).Some? && Run(c, src, pre).Some? && Run(c, src, other).Some?
    ensures var e, f := Run(c, src, pre).value, Run(c, src, other).value;
            |e.pis| == |f.pis| && TypesOf(e.outputs) == TypesOf(f.outputs) && EnvOf(e.memory) == EnvOf(f.memory)
  {
    PreprocessIsTyped(c, src, pre);
    PreprocessIsTyped(c, src, other);
  }
}
