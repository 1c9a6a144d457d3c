/**
  The interpreter and the circuit agree step by step: where the static check accepts an
  instruction and the interpreter takes it, the circuit's run takes the same step to the
  same memory, public inputs and outputs.
 */
module Agreement {
  import opened Options
  import opened Digits
  import opened Types
  import opened Instructions
  import opened Operations
  import opened Preprocess
  import opened Typing
  import opened OpAgreement
  import Encoding
  import CircuitRun
  import OpSoundness
  import GadgetSoundness

  predicate ValidMemory(c: Params, memory: Memory) {
    forall id :: id in memory ==> ValidValue(c, memory[id])
  }

  predicate ValidState(c: Params, s: State) {
    ValidMemory(c, s.memory) && ValidValues(c, s.outputs) && c.FieldElements(s.pis)
  }

  /**
    A preimage is made of field elements, as its type ensures. The public transcript inputs
    are left out: they are only compared with values that are field elements anyway.
   */
  predicate ValidPreimage(c: Params, pre: Preimage) {
    && pre.bindingInput < c.p && c.FieldElements(pre.inputs)
    && c.FieldElements(pre.publicTranscriptOutputs) && c.FieldElements(pre.privateTranscript)
    && (pre.communicationsCommitment.Some? ==>
          pre.communicationsCommitment.value.0 < c.p && pre.communicationsCommitment.value.1 < c.p)
  }

  function EnvOf(memory: Memory): Env {
    map id | id in memory :: TypeOf(memory[id])
  }

  /** The types that a state of the interpreter is at. */
  function StaticOf(s: State): Static {
    Static(EnvOf(s.memory), |s.pis|, TypesOf(s.outputs))
  }

  /** The two runs hold the same memory, public inputs and outputs. */
  predicate Same(s: State, t: CircuitRun.RunState) {
    s.memory == t.memory && s.pis == t.pis && s.outputs == t.outputs
  }

  // ----- operands -----

  lemma {:induction false} ResolveAllTyped(c: Params, memory: Memory, operands: seq<Operand>)
    requires ValidMemory(c, memory) && GadgetSoundness.TypedOperands(c, operands)
    ensures match ResolveAll(memory, operands)
            case None => TypeOperands(EnvOf(memory), operands) == None
            case Some(vs) => TypeOperands(EnvOf(memory), operands) == Some(TypesOf(vs)) && ValidValues(c, vs)
  {
    if operands == [] {
      Few([]);
    } else {
      assert GadgetSoundness.TypedOperands(c, operands[1..]);
      ResolveAllTyped(c, memory, operands[1..]);
      var r := ResolveAll(memory, operands);
      if r.Some? {
        assert r.value[1..] == ResolveAll(memory, operands[1..]).value;
        assert TypesOf(r.value) == [TypeOf(r.value[0])] + TypesOf(r.value[1..]);
      }
    }
  }

  lemma {:induction false} NativesResolved(c: Params, vs: seq<IrValue>)
    requires ValidValues(c, vs) && AllAre(IrType.Native, TypesOf(vs))
    ensures AllNative(vs).Some? && |AllNative(vs).value| == |vs| && c.FieldElements(AllNative(vs).value)
  {
    if vs == [] {
    } else {
      assert TypesOf(vs[1..]) == TypesOf(vs)[1..];
      assert TypesOf(vs)[0] == IrType.Native;
      NativesResolved(c, vs[1..]);
    }
  }

  lemma {:induction false} BindTyped(memory: Memory, ids: seq<Identifier>, vs: seq<IrValue>)
    requires |ids| == |vs|
    ensures EnvOf(Bind(memory, ids, vs)) == Bind(EnvOf(memory), ids, TypesOf(vs))
    decreases |ids|
  {
    if ids == [] {
    } else {
      var next := memory[ids[0] := vs[0]];
      assert EnvOf(next) == EnvOf(memory)[ids[0] := TypeOf(vs[0])];
      assert TypesOf(vs)[1..] == TypesOf(vs[1..]);
      BindTyped(next, ids[1..], vs[1..]);
    }
  }

  lemma {:induction false} BindValid(c: Params, memory: Memory, ids: seq<Identifier>, vs: seq<IrValue>)
    requires |ids| == |vs| && ValidMemory(c, memory) && ValidValues(c, vs)
    ensures ValidMemory(c, Bind(memory, ids, vs))
    decreases |ids|
  {
    if ids == [] {
    } else {
      BindValid(c, memory[ids[0] := vs[0]], ids[1..], vs[1..]);
    }
  }

  // ----- one step -----

  /** What one step of the interpreter establishes about the same step of the circuit's run. */
  ghost predicate Follows(c: Params, s': State, static': Option<Static>, t': Option<CircuitRun.RunState>, used: nat) {
    && ValidState(c, s') && static' == Some(StaticOf(s'))
    && t'.Some? && Same(s', t'.value) && t'.value.used == used
  }

  lemma ImpactAgrees(c: Params, pre: Preimage, s: State, guard: Operand, inputs: seq<Operand>, t: CircuitRun.RunState)
    requires c.Sizes() && ValidState(c, s) && GadgetSoundness.TypedOperands(c, [guard] + inputs) && Same(s, t)
    requires CheckImpact(StaticOf(s), guard, inputs).Some? && StepImpact(pre, s, guard, inputs).Some?
    ensures Follows(c, StepImpact(pre, s, guard, inputs).value, CheckImpact(StaticOf(s), guard, inputs),
                    CircuitRun.RunImpact(t, guard, inputs), t.used)
  {
    assert GadgetSoundness.TypedOperands(c, inputs) by {
      forall i | 0 <= i < |inputs|
        ensures inputs[i].Immediate? ==> inputs[i].imm < c.p
      {
        assert inputs[i] == ([guard] + inputs)[i + 1];
      }
    }
    ResolveAllTyped(c, s.memory, inputs);
    NativesResolved(c, ResolveAll(s.memory, inputs).value);
  }

  lemma ReadAgrees(c: Params, pre: Preimage, w: CircuitRun.Witness, s: State, ins: Instruction, t: CircuitRun.RunState)
    requires c.Sizes() && ValidState(c, s) && ValidPreimage(c, pre) && IsRead(ins) && Same(s, t)
    requires CheckRead(StaticOf(s), ins).Some? && StepRead(c, pre, s, ins).Some?
    requires t.used < |w.readValues|
    requires Some(w.readValues[t.used]) == Resolve(StepRead(c, pre, s, ins).value.memory, Variable(ins.output))
    ensures Follows(c, StepRead(c, pre, s, ins).value, CheckRead(StaticOf(s), ins),
                    CircuitRun.RunRead(c, w, t, ins), t.used + 1)
  {
    var s' := StepRead(c, pre, s, ins).value;
    var v := s'.memory[ins.output];
    ReadIsTyped(c, pre, s, ins);
    assert EnvOf(s'.memory) == EnvOf(s.memory)[ins.output := TypeOf(v)];
  }

  lemma SliceOfElements(c: Params, xs: seq<nat>, i: nat, j: nat)
    requires c.FieldElements(xs) && i <= j <= |xs|
    ensures c.FieldElements(xs[i..j])
  {}

  lemma TranscriptTyped(c: Params, transcript: seq<nat>, idx: nat, t: IrType)
    requires c.Sizes() && c.FieldElements(transcript) && ReadTranscript(c, transcript, idx, t).Some?
    ensures var v := ReadTranscript(c, transcript, idx, t).value;
            && TypeOf(v) == t && ValidValue(c, v) && idx + EncodedLen(c, t) <= |transcript|
            && Encoding.Encode(c, v) == transcript[idx..idx + EncodedLen(c, t)]
  {
    SliceOfElements(c, transcript, idx, idx + EncodedLen(c, t));
    var v := ReadTranscript(c, transcript, idx, t).value;
    Encoding.DecodeIsExactInverse(c, t, transcript[idx..idx + EncodedLen(c, t)], v);
  }

  lemma DefaultTyped(c: Params, t: IrType)
    requires c.Sizes() && Default(t).Some?
    ensures TypeOf(Default(t).value) == t && ValidValue(c, Default(t).value)
  {}

  lemma ReadIsTyped(c: Params, pre: Preimage, s: State, ins: Instruction)
    requires c.Sizes() && ValidPreimage(c, pre) && IsRead(ins) && StepRead(c, pre, s, ins).Some?
    ensures var s' := StepRead(c, pre, s, ins).value;
            && ins.output in s'.memory && s'.memory == s.memory[ins.output := s'.memory[ins.output]]
            && s'.pis == s.pis && s'.outputs == s.outputs
            && TypeOf(s'.memory[ins.output]) == ins.valT && ValidValue(c, s'.memory[ins.output])
  {
    if !ReadActive(s.memory, ins.readGuard).value {
      DefaultTyped(c, ins.valT);
    } else if ins.PublicInput? {
      TranscriptTyped(c, pre.publicTranscriptOutputs, s.publicOutputsIdx, ins.valT);
    } else {
      TranscriptTyped(c, pre.privateTranscript, s.privateIdx, ins.valT);
    }
  }

  lemma OutputAgrees(c: Params, src: IrSource, s: State, vals: seq<Operand>, t: CircuitRun.RunState)
    requires c.Sizes() && ValidState(c, s) && GadgetSoundness.TypedOperands(c, vals) && Same(s, t)
    requires CheckOutput(src, StaticOf(s), vals).Some? && StepOutput(src, s, vals).Some?
    ensures Follows(c, StepOutput(src, s, vals).value, CheckOutput(src, StaticOf(s), vals),
                    CircuitRun.RunOutput(src, t, vals), t.used)
  {
    ResolveAllTyped(c, s.memory, vals);
    var vs := ResolveAll(s.memory, vals).value;
    assert TypesOf(s.outputs + vs) == TypesOf(s.outputs) + TypesOf(vs);
  }

  lemma ComputeAgrees(c: Params, s: State, ins: Instruction, t: CircuitRun.RunState)
    requires c.Valid() && ValidState(c, s) && OpSoundness.TypedInstruction(c, ins) && Same(s, t)
    requires ins.AlignedHash? ==> AlignedAgrees(c)
    requires ins.Computes() && CheckCompute(c, StaticOf(s), ins).Some? && StepCompute(c, s, ins).Some?
    ensures Follows(c, StepCompute(c, s, ins).value, CheckCompute(c, StaticOf(s), ins),
                    CircuitRun.RunCompute(c, t, ins), t.used)
  {
    ResolveAllTyped(c, s.memory, ins.Args());
    var vs := ResolveAll(s.memory, ins.Args()).value;
    OpAgrees(c, ins, vs);
    var rs := Apply(c, ins, vs).value;
    BindTyped(s.memory, ins.Outs(), rs);
    BindValid(c, s.memory, ins.Outs(), rs);
  }

  lemma StepAgrees(c: Params, src: IrSource, pre: Preimage, w: CircuitRun.Witness, s: State, ins: Instruction,
      t: CircuitRun.RunState)
    requires c.Valid() && ValidState(c, s) && ValidPreimage(c, pre) && Same(s, t)
    requires OpSoundness.TypedInstruction(c, ins) && (ins.AlignedHash? ==> AlignedAgrees(c))
    requires CheckStep(c, src, StaticOf(s), ins).Some? && Step(c, src, pre, s, ins).Some?
    requires IsRead(ins) ==>
               && t.used < |w.readValues|
               && Some(w.readValues[t.used]) == Resolve(Step(c, src, pre, s, ins).value.memory, Variable(ins.output))
    ensures Follows(c, Step(c, src, pre, s, ins).value, CheckStep(c, src, StaticOf(s), ins),
                    CircuitRun.RunStep(c, src, w, t, ins), t.used + if IsRead(ins) then 1 else 0)
  {
    if ins.Impact? { ImpactAgrees(c, pre, s, ins.guard, ins.inputs, t); }
    else if IsRead(ins) { ReadAgrees(c, pre, w, s, ins, t); }
    else if ins.Output? { OutputAgrees(c, src, s, ins.vals, t); }
    else { ComputeAgrees(c, s, ins, t); }
  }
}
