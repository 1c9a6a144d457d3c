/**
  Soundness over whole runs: whatever assignment satisfies the circuit of a source, the
  values in it are those of one `CircuitRun.Run`, down to every memory entry and every
  public input.
 */
module Soundness {
  import opened Options
  import opened Digits
  import opened Types
  import opened Instructions
  import opened Gadgets
  import opened Circuit
  import opened Readings
  import opened GadgetSoundness
  import opened CircuitRun
  import opened Growth
  import OpSoundness
  import Operations
  import Preprocess

  /** The immediates of a source are field elements, as its types ensure. */
  predicate TypedSource(c: Params, src: IrSource) {
    forall i :: 0 <= i < |src.instructions| ==> OpSoundness.TypedInstruction(c, src.instructions[i])
  }

  /** The run state that an assignment holds at a stage of synthesis. */
  function View(a: Assignment, s: Synthesis): RunState {
    RunState(ReadMemory(a, s.memory), Cells(a, s.pis), ReadAll(a, s.outputs), |s.readValues|)
  }

  predicate SortedState(c: Params, a: Assignment, s: Synthesis) {
    && SortedMemory(c, a, s.memory) && SortedAll(c, a, s.outputs)
    && c.FieldElements(Cells(a, s.pis))
  }

  /** One pushed cell: the resolved input behind the guard. */
  lemma GuardedSound(c: Params, b: Builder, memory: CircuitMemory, guard: Wire, zero: Wire, input: Operand,
      a: Assignment)
    requires c.Sizes() && (input.Immediate? ==> input.imm < c.p) && SortedMemory(c, a, memory) && Cell(a, zero) == 0
    requires ResolveWires(b, memory, input).Some? && ResolveWires(b, memory, input).value.1.Native?
    requires var (b1, v) := ResolveWires(b, memory, input).value; Sat(c, Emit(b1, Select, [guard, v.w, zero], 1), a)
    ensures Sat(c, b, a)
    ensures var (b1, v) := ResolveWires(b, memory, input).value;
            && Preprocess.Resolve(ReadMemory(a, memory), input) == Some(IrValue.Native(Cell(a, v.w)))
            && Cell(a, v.w) < c.p
            && Cell(a, b1.next) == if Cell(a, guard) == 1 then Cell(a, v.w) else 0
  {
    var (b1, v) := ResolveWires(b, memory, input).value;
    Emitted(c, b1, Select, [guard, v.w, zero], 1, a);
    ResolveSound(c, b, memory, input, a);
    SortedIsValid(c, a, v);
    assert Cells(a, [guard, v.w, zero]) == [Cell(a, guard), Cell(a, v.w), Cell(a, zero)];
  }

  lemma ZerosCons(n: nat)
    requires n > 0
    ensures Zeros(n) == [0] + Zeros(n - 1)
  {}

  lemma NativesCons(memory: Preprocess.Memory, input: Operand, rest: seq<Operand>, x: nat)
    requires Preprocess.Resolve(memory, input) == Some(IrValue.Native(x))
    requires Preprocess.ResolveAll(memory, rest).Some?
    requires Operations.AllNative(Preprocess.ResolveAll(memory, rest).value).Some?
    ensures var vs := Preprocess.ResolveAll(memory, [input] + rest);
            && vs.Some? && Operations.AllNative(vs.value)
            == Some([x] + Operations.AllNative(Preprocess.ResolveAll(memory, rest).value).value)
  {
    assert ([input] + rest)[1..] == rest;
    var vs := Preprocess.ResolveAll(memory, [input] + rest).value;
    assert vs[1..] == Preprocess.ResolveAll(memory, rest).value;
  }

  lemma {:induction false} PushSound(c: Params, b: Builder, memory: CircuitMemory, guard: Wire, zero: Wire,
      inputs: seq<Operand>, a: Assignment)
    requires c.Sizes() && TypedOperands(c, inputs) && SortedMemory(c, a, memory) && Cell(a, zero) == 0
    requires PushGuarded(b, memory, guard, zero, inputs).Some?
    requires Sat(c, PushGuarded(b, memory, guard, zero, inputs).value.0, a)
    ensures Sat(c, b, a)
    ensures var ws := PushGuarded(b, memory, guard, zero, inputs).value.1;
            var vs := Preprocess.ResolveAll(ReadMemory(a, memory), inputs);
            && vs.Some? && Operations.AllNative(vs.value).Some?
            && Cells(a, ws) == (if Cell(a, guard) == 1 then Operations.AllNative(vs.value).value else Zeros(|inputs|))
            && c.FieldElements(Cells(a, ws))
    decreases |inputs|
  {
    if inputs == [] {
    } else {
      var (b1, v) := ResolveWires(b, memory, inputs[0]).value;
      var b2 := Emit(b1, Select, [guard, v.w, zero], 1);
      var rest := PushGuarded(b2, memory, guard, zero, inputs[1..]).value.1;
      assert TypedOperands(c, inputs[1..]);
      PushSound(c, b2, memory, guard, zero, inputs[1..], a);
      GuardedSound(c, b, memory, guard, zero, inputs[0], a);
      CellsCons(a, b1.next, rest);
      ZerosCons(|inputs|);
      assert inputs == [inputs[0]] + inputs[1..];
      NativesCons(ReadMemory(a, memory), inputs[0], inputs[1..], Cell(a, v.w));
    }
  }

  lemma ImpactSound(c: Params, s: Synthesis, guard: Operand, inputs: seq<Operand>, a: Assignment)
    requires c.Sizes() && TypedOperands(c, [guard] + inputs) && SortedState(c, a, s)
    requires SynthImpact(s, guard, inputs).Some? && Sat(c, SynthImpact(s, guard, inputs).value.b, a)
    ensures var s' := SynthImpact(s, guard, inputs).value;
            SortedState(c, a, s') && RunImpact(View(a, s), guard, inputs) == Some(View(a, s'))
  {
    var b1 := Emit(s.b, Fixed([0]), [], 1);
    var (b2, g) := ResolveWires(b1, s.memory, guard).value;
    var b3 := Emit(b2, InRange(2), [g.w], 0);
    var (b4, pushed) := PushGuarded(b3, s.memory, g.w, s.b.next, inputs).value;
    assert TypedOperands(c, inputs) by {
      forall i | 0 <= i < |inputs|
        ensures inputs[i].Immediate? ==> inputs[i].imm < c.p
      {
        assert inputs[i] == ([guard] + inputs)[i + 1];
      }
    }
    assert guard == ([guard] + inputs)[0];
    PushGrows(b3, s.memory, g.w, s.b.next, inputs);
    SatEarlier(c, b3, b4, a);
    OpSoundness.BitSound(c, b2, g.w, a);
    ResolveSound(c, b1, s.memory, guard, a);
    Emitted(c, s.b, Fixed([0]), [], 1, a);
    assert Cell(a, s.b.next) == 0;
    PushSound(c, b3, s.memory, g.w, s.b.next, inputs, a);
    CellsCat(a, s.pis, pushed);
  }

  lemma AssignSound(c: Params, b: Builder, t: IrType, a: Assignment)
    requires AssignValue(c, b, t).Some? && Sat(c, AssignValue(c, b, t).value.0, a)
    ensures var v := AssignValue(c, b, t).value.1;
            && Sat(c, b, a) && Sorted(c, a, v) && CircuitTypeOf(v) == t
            && TypeOf(Read(a, v)) == t && ValidValue(c, Read(a, v))
  {
    var n := CellCount(t);
    Emitted(c, b, Assign(CellBound(c, t)), [], n, a);
    var v := AssignValue(c, b, t).value.1;
    assert Wires(v) == Fresh(b.next, n);
    SortedIsValid(c, a, v);
  }

  lemma ReadSound(c: Params, w: Witness, s: Synthesis, ins: Instruction, a: Assignment)
    requires (ins.PublicInput? || ins.PrivateInput?) && SortedState(c, a, s)
    requires SynthRead(c, s, ins).Some? && Sat(c, SynthRead(c, s, ins).value.b, a)
    requires ReadAll(a, SynthRead(c, s, ins).value.readValues) <= w.readValues
    ensures var s' := SynthRead(c, s, ins).value;
            SortedState(c, a, s') && RunRead(c, w, View(a, s), ins) == Some(View(a, s'))
  {
    AssignSound(c, s.b, ins.valT, a);
    var (b1, v) := AssignValue(c, s.b, ins.valT).value;
    var s' := SynthRead(c, s, ins).value;
    assert ReadAll(a, s'.readValues)[|s.readValues|] == Read(a, v);
    assert w.readValues[|s.readValues|] == Read(a, v);
    assert ReadMemory(a, s.memory[ins.output := v]) == ReadMemory(a, s.memory)[ins.output := Read(a, v)];
  }

  lemma OutputSound(c: Params, src: IrSource, s: Synthesis, vals: seq<Operand>, a: Assignment)
    requires TypedOperands(c, vals) && SortedState(c, a, s)
    requires SynthOutput(src, s, vals).Some? && Sat(c, SynthOutput(src, s, vals).value.b, a)
    ensures var s' := SynthOutput(src, s, vals).value;
            SortedState(c, a, s') && RunOutput(src, View(a, s), vals) == Some(View(a, s'))
  {
    var (b1, vs) := ResolveAllWires(s.b, s.memory, vals).value;
    ResolveAllSound(c, s.b, s.memory, vals, a);
    ReadTypes(c, a, vs);
    assert ReadAll(a, s.outputs + vs) == ReadAll(a, s.outputs) + ReadAll(a, vs);
  }

  lemma ReadTypes(c: Params, a: Assignment, vs: seq<CircuitValue>)
    ensures TypesOf(ReadAll(a, vs)) == CircuitTypesOf(vs)
  {}

  lemma ComputeSound(c: Params, s: Synthesis, ins: Instruction, a: Assignment)
    requires c.Valid() && ins.Computes() && OpSoundness.TypedInstruction(c, ins) && SortedState(c, a, s)
    requires SynthCompute(c, s, ins).Some? && Sat(c, SynthCompute(c, s, ins).value.b, a)
    ensures var s' := SynthCompute(c, s, ins).value;
            SortedState(c, a, s') && RunCompute(c, View(a, s), ins) == Some(View(a, s'))
  {
    var (b1, vs) := ResolveAllWires(s.b, s.memory, ins.Args()).value;
    var (b2, rs) := SynthOp(c, ins, b1, vs).value;
    OpGrows(c, ins, b1, vs, b2, rs);
    SatEarlier(c, b1, b2, a);
    ResolveAllSound(c, s.b, s.memory, ins.Args(), a);
    OpSoundness.OpSound(c, ins, b1, vs, a, b2, rs);
    BindRead(a, s.memory, ins.Outs(), rs);
    BindKeeps(s.memory, ins.Outs(), rs, v => Sorted(c, a, v));
  }

  lemma StepSound(c: Params, src: IrSource, w: Witness, s: Synthesis, ins: Instruction, a: Assignment)
    requires c.Valid() && OpSoundness.TypedInstruction(c, ins) && SortedState(c, a, s)
    requires SynthStep(c, src, s, ins).Some? && Sat(c, SynthStep(c, src, s, ins).value.b, a)
    requires ReadAll(a, SynthStep(c, src, s, ins).value.readValues) <= w.readValues
    ensures var s' := SynthStep(c, src, s, ins).value;
            SortedState(c, a, s') && RunStep(c, src, w, View(a, s), ins) == Some(View(a, s'))
  {
    if ins.Impact? { ImpactSound(c, s, ins.guard, ins.inputs, a); }
    else if ins.PublicInput? || ins.PrivateInput? { ReadSound(c, w, s, ins, a); }
    else if ins.Output? { OutputSound(c, src, s, ins.vals, a); }
    else { ComputeSound(c, s, ins, a); }
  }

  lemma {:induction false} RunSound(c: Params, src: IrSource, w: Witness, s: Synthesis, todo: seq<Instruction>,
      a: Assignment)
    requires c.Valid() && SortedState(c, a, s)
    requires forall i :: 0 <= i < |todo| ==> OpSoundness.TypedInstruction(c, todo[i])
    requires SynthFrom(c, src, s, todo).Some? && Sat(c, SynthFrom(c, src, s, todo).value.b, a)
    requires ReadAll(a, SynthFrom(c, src, s, todo).value.readValues) <= w.readValues
    ensures var s' := SynthFrom(c, src, s, todo).value;
            SortedState(c, a, s') && RunFrom(c, src, w, View(a, s), todo) == Some(View(a, s'))
    decreases |todo|
  {
    if todo == [] {
    } else {
      var s1 := SynthStep(c, src, s, todo[0]).value;
      var s2 := SynthFrom(c, src, s1, todo[1..]).value;
      RunGrows(c, src, s1, todo[1..]);
      SatEarlier(c, s1.b, s2.b, a);
      ReadAllPrefix(a, s1.readValues, s2.readValues);
      StepSound(c, src, w, s, todo[0], a);
      RunSound(c, src, w, s1, todo[1..], a);
    }
  }

  lemma ReadAllPrefix(a: Assignment, us: seq<CircuitValue>, vs: seq<CircuitValue>)
    requires us <= vs
    ensures ReadAll(a, us) <= ReadAll(a, vs)
  {
    assert forall i :: 0 <= i < |us| ==> us[i] == vs[i];
  }

  lemma {:induction false} InputsSound(c: Params, b: Builder, inputs: seq<TypedIdentifier>, a: Assignment)
    requires AssignInputs(c, b, inputs).Some? && Sat(c, AssignInputs(c, b, inputs).value.0, a)
    ensures var vs := AssignInputs(c, b, inputs).value.1;
            Sat(c, b, a) && SortedAll(c, a, vs) && InputsTyped(c, inputs, ReadAll(a, vs))
    decreases |inputs|
  {
    if inputs == [] {
    } else {
      var (b1, v) := AssignValue(c, b, inputs[0].valT).value;
      var (b2, rest) := AssignInputs(c, b1, inputs[1..]).value;
      InputsSound(c, b1, inputs[1..], a);
      AssignSound(c, b, inputs[0].valT, a);
      ReadAllCons(a, v, rest);
      SortedCons(c, a, v, rest);
      forall i | 0 <= i < |inputs|
        ensures TypeOf(ReadAll(a, [v] + rest)[i]) == inputs[i].valT && ValidValue(c, ReadAll(a, [v] + rest)[i])
      {
        if i > 0 {
          assert inputs[i] == inputs[1..][i - 1];
          assert TypeOf(ReadAll(a, rest)[i - 1]) == inputs[1..][i - 1].valT && ValidValue(c, ReadAll(a, rest)[i - 1]);
        }
      }
    }
  }

  /** What the prover chose, read off an assignment. */
  function WitnessOf(a: Assignment, k: CircuitShape): Witness {
    Witness(ReadAll(a, k.inputs), ReadAll(a, k.readValues),
            if |k.pis| > 0 then Cell(a, k.pis[0]) else 0,
            if k.rand.Some? && |k.pis| > 1 then Some((Cell(a, k.pis[1]), Cell(a, k.rand.value))) else None)
  }

  lemma InitSound(c: Params, src: IrSource, a: Assignment, w: Witness)
    requires c.Sizes() && SynthInit(c, src).Some? && Sat(c, SynthInit(c, src).value.0.b, a)
    requires var (s0, inputs) := SynthInit(c, src).value;
             && w.inputs == ReadAll(a, inputs) && w.bindingInput == Cell(a, s0.pis[0])
             && w.commitment.Some? == src.doCommunicationsCommitment
             && (w.commitment.Some? ==> w.commitment.value.0 == Cell(a, s0.pis[1]))
    ensures var s0 := SynthInit(c, src).value.0;
            SortedState(c, a, s0) && RunInit(c, src, w) == Some(View(a, s0))
  {
    var (b1, inputs) := AssignInputs(c, EMPTY, src.inputs).value;
    var s0 := SynthInit(c, src).value.0;
    var b2 := Emit(b1, Assign(c.p), [], 1);
    if src.doCommunicationsCommitment { OpSoundness.AssignOne(c, b2, c.p, a); }
    OpSoundness.AssignOne(c, b1, c.p, a);
    InputsSound(c, EMPTY, src.inputs, a);
    BindRead(a, map[], InputNames(src.inputs), inputs);
    BindKeeps(map[], InputNames(src.inputs), inputs, v => Sorted(c, a, v));
    assert ReadMemory(a, map[]) == map[];
    assert ReadAll(a, []) == [];
    assert Cells(a, s0.pis) ==
           if src.doCommunicationsCommitment then [w.bindingInput, w.commitment.value.0] else [w.bindingInput];
  }

  lemma {:induction false} InputValuesRead(c: Params, a: Assignment, memory: CircuitMemory, names: seq<Identifier>)
    requires SortedMemory(c, a, memory)
    ensures ReadAll(a, InputValues(memory, names)) == InputValues(ReadMemory(a, memory), names)
    ensures SortedAll(c, a, InputValues(memory, names))
  {
    if names == [] {
    } else {
      InputValuesRead(c, a, memory, names[1..]);
      var rest := InputValues(memory, names[1..]);
      if names[0] in memory {
        ReadAllCons(a, memory[names[0]], rest);
        SortedCons(c, a, memory[names[0]], rest);
      }
    }
  }

  lemma CommittedSound(c: Params, src: IrSource, s: Synthesis, b: Builder, a: Assignment)
    requires c.Sizes() && SortedState(c, a, s) && Sat(c, EncodeCommitted(c, src, s, b).0, a)
    ensures Sat(c, b, a)
    ensures Cells(a, EncodeCommitted(c, src, s, b).1) == Committed(c, src, View(a, s))
  {
    var values := InputValues(s.memory, InputNames(src.inputs));
    var (b1, ins) := EncodeAllWires(c, b, values);
    var (b2, outs) := EncodeAllWires(c, b1, s.outputs);
    EncodeAllSound(c, b1, s.outputs, a);
    InputValuesRead(c, a, s.memory, InputNames(src.inputs));
    EncodeAllSound(c, b, values, a);
    CellsCat(a, ins, outs);
  }

  lemma CommitmentSound(c: Params, src: IrSource, s: Synthesis, a: Assignment)
    requires c.Sizes() && SortedState(c, a, s) && |s.pis| >= 2 && Sat(c, SynthCommitment(c, src, s), a)
    ensures Cell(a, s.b.next) < c.p
    ensures Cell(a, s.pis[1]) == Preprocess.TransientCommit(c, Committed(c, src, View(a, s)), Cell(a, s.b.next))
  {
    var rand := s.b.next;
    var b1 := Emit(s.b, Assign(c.p), [], 1);
    var (b2, committed) := EncodeCommitted(c, src, s, b1);
    var b3 := Emit(b2, Poseidon, [rand] + committed, 1);
    AssertEqualOne(c, b3, b2.next, s.pis[1], a);
    Emitted(c, b2, Poseidon, [rand] + committed, 1, a);
    CommittedSound(c, src, s, b1, a);
    OpSoundness.AssignOne(c, s.b, c.p, a);
    CellsCat(a, [rand], committed);
    assert Cells(a, [rand]) == [Cell(a, rand)];
  }

  lemma InitIsRun(c: Params, src: IrSource, k: CircuitShape, a: Assignment)
    requires c.Valid() && Synthesize(c, src) == Some(k) && Sat(c, k.b, a)
    ensures SynthInit(c, src).Some?
    ensures var s0 := SynthInit(c, src).value.0;
            SortedState(c, a, s0) && RunInit(c, src, WitnessOf(a, k)) == Some(View(a, s0))
  {
    CircuitIsEquipped(c, src);
    var s0 := SynthInit(c, src).value.0;
    StageLeadsOn(c, src, k, 0);
    assert src.instructions[..0] == [] && Stage(c, src, 0) == Some(s0);
    SatEarlier(c, s0.b, k.b, a);
    InitSound(c, src, a, WitnessOf(a, k));
  }

  /** At every stage of synthesis the cells hold what the run on the witness holds there. */
  lemma StageIsRun(c: Params, src: IrSource, k: CircuitShape, a: Assignment, i: nat)
    requires c.Valid() && TypedSource(c, src) && Synthesize(c, src) == Some(k) && Sat(c, k.b, a)
    requires i <= |src.instructions|
    ensures Stage(c, src, i).Some? && RunInit(c, src, WitnessOf(a, k)).Some?
    ensures var s, t0 := Stage(c, src, i).value, RunInit(c, src, WitnessOf(a, k)).value;
            && RunFrom(c, src, WitnessOf(a, k), t0, src.instructions[..i]) == Some(View(a, s))
            && SortedState(c, a, s) && Sat(c, s.b, a)
  {
    CircuitIsEquipped(c, src);
    InitIsRun(c, src, k, a);
    StageLeadsOn(c, src, k, i);
    var s := Stage(c, src, i).value;
    SatEarlier(c, s.b, k.b, a);
    ReadAllPrefix(a, s.readValues, k.readValues);
    RunSound(c, src, WitnessOf(a, k), SynthInit(c, src).value.0, src.instructions[..i], a);
  }

  /**
    Every satisfying assignment is a run: the run on the witness it holds succeeds, and its
    memory and public inputs are those read off the assignment.
   */
  lemma SatisfyingIsRun(c: Params, src: IrSource, k: CircuitShape, a: Assignment)
    requires c.Valid() && TypedSource(c, src) && Synthesize(c, src) == Some(k) && Sat(c, k.b, a)
    ensures Run(c, src, WitnessOf(a, k)) ==
            Some(RunState(ReadMemory(a, k.memory), Cells(a, k.pis), ReadAll(a, k.outputs), |k.readValues|))
    ensures SortedMemory(c, a, k.memory) && SortedAll(c, a, k.outputs) && c.FieldElements(Cells(a, k.pis))
  {
    CircuitIsEquipped(c, src);
    StageIsRun(c, src, k, a, |src.instructions|);
    assert src.instructions[..|src.instructions|] == src.instructions;
    if src.doCommunicationsCommitment {
      CommitmentSound(c, src, Stage(c, src, |src.instructions|).value, a);
    }
  }
}
