/**
  No free wires: what a prover can choose is the inputs, the transcript reads, the binding
  input and the commitment's randomness. They determine the rest, the commitment included.
 */
module Uniqueness {
  import opened Options
  import opened Digits
  import opened Types
  import opened Instructions
  import opened Gadgets
  import opened Circuit
  import opened CircuitRun
  import opened Readings
  import opened ChipSelection
  import opened Soundness
  import opened Growth
  import opened Determinism
  import Preprocess
  import Satisfiability

  /** Two states that differ at most in the public inputs so far. */
  predicate SameButPis(s: RunState, t: RunState) {
    s.memory == t.memory && s.outputs == t.outputs && s.used == t.used && |s.pis| == |t.pis|
  }

  /** What two states that differ at most in their public inputs both add to them is the same. */
  predicate SameSteps(s: RunState, t: RunState, s': RunState, t': RunState) {
    && SameButPis(s', t') && s.pis <= s'.pis && t.pis <= t'.pis
    && |s.pis| == |t.pis| && s'.pis[|s.pis|..] == t'.pis[|t.pis|..]
  }

  lemma ImpactIgnoresPis(s: RunState, t: RunState, guard: Operand, inputs: seq<Operand>)
    requires SameButPis(s, t) && RunImpact(s, guard, inputs).Some?
    ensures RunImpact(t, guard, inputs).Some?
    ensures SameSteps(s, t, RunImpact(s, guard, inputs).value, RunImpact(t, guard, inputs).value)
  {}

  lemma ComputeIgnoresPis(c: Params, s: RunState, t: RunState, ins: Instruction)
    requires ins.Computes() && SameButPis(s, t) && RunCompute(c, s, ins).Some?
    ensures RunCompute(c, t, ins).Some?
    ensures SameSteps(s, t, RunCompute(c, s, ins).value, RunCompute(c, t, ins).value)
  {}

  /** A step neither reads nor changes the public inputs that are already there. */
  lemma StepIgnoresPis(c: Params, src: IrSource, w: Witness, v: Witness, s: RunState, t: RunState, ins: Instruction)
    requires SameButPis(s, t) && w.readValues == v.readValues
    requires RunStep(c, src, w, s, ins).Some?
    ensures RunStep(c, src, v, t, ins).Some?
    ensures SameSteps(s, t, RunStep(c, src, w, s, ins).value, RunStep(c, src, v, t, ins).value)
  {
    if ins.Impact? { ImpactIgnoresPis(s, t, ins.guard, ins.inputs); }
    else if ins.Computes() { ComputeIgnoresPis(c, s, t, ins); }
  }

  lemma {:induction false} RunIgnoresPis(c: Params, src: IrSource, w: Witness, v: Witness, s: RunState, t: RunState,
      todo: seq<Instruction>)
    requires SameButPis(s, t) && w.readValues == v.readValues
    requires RunFrom(c, src, w, s, todo).Some? && RunFrom(c, src, v, t, todo).Some?
    ensures SameSteps(s, t, RunFrom(c, src, w, s, todo).value, RunFrom(c, src, v, t, todo).value)
    decreases |todo|
  {
    if todo == [] {
    } else {
      StepIgnoresPis(c, src, w, v, s, t, todo[0]);
      var s1, t1 := RunStep(c, src, w, s, todo[0]).value, RunStep(c, src, v, t, todo[0]).value;
      RunIgnoresPis(c, src, w, v, s1, t1, todo[1..]);
      var s', t' := RunFrom(c, src, w, s, todo).value, RunFrom(c, src, v, t, todo).value;
      TailsJoin(s.pis, s1.pis, s'.pis, t.pis, t1.pis, t'.pis);
    }
  }

  lemma TailsJoin(x: seq<nat>, x1: seq<nat>, x2: seq<nat>, y: seq<nat>, y1: seq<nat>, y2: seq<nat>)
    requires |x| == |y| && x <= x1 <= x2 && y <= y1 <= y2
    requires x1[|x|..] == y1[|y|..] && x2[|x1|..] == y2[|y1|..]
    ensures x2[|x|..] == y2[|y|..]
  {
    assert x2[|x|..] == x1[|x|..] + x2[|x1|..];
    assert y2[|y|..] == y1[|y|..] + y2[|y1|..];
  }

  /** The prover's choices agree; the commitment itself is not one of them. */
  predicate SameChoices(w: Witness, v: Witness) {
    && w.inputs == v.inputs && w.readValues == v.readValues && w.bindingInput == v.bindingInput
    && (w.commitment.Some? <==> v.commitment.Some?)
    && (w.commitment.Some? ==> w.commitment.value.1 == v.commitment.value.1)
  }

  /** Runs on the same choices are the same run. */
  lemma ChoicesDetermineRun(c: Params, src: IrSource, w: Witness, v: Witness)
    requires SameChoices(w, v) && Run(c, src, w).Some? && Run(c, src, v).Some?
    ensures w == v && Run(c, src, w) == Run(c, src, v)
  {
    var s0, t0 := RunInit(c, src, w).value, RunInit(c, src, v).value;
    RunIgnoresPis(c, src, w, v, s0, t0, src.instructions);
    var s, t := Run(c, src, w).value, Run(c, src, v).value;
    assert Committed(c, src, s) == Committed(c, src, t);
    assert s.pis == s0.pis + s.pis[|s0.pis|..] && t.pis == t0.pis + t.pis[|t0.pis|..];
  }

  /** Satisfying assignments with the same choices hold the same run. */
  lemma ChoicesDetermineMemory(c: Params, src: IrSource, k: CircuitShape, a: Assignment, a': Assignment)
    requires c.Valid() && TypedSource(c, src) && Synthesize(c, src) == Some(k)
    requires Sat(c, k.b, a) && Sat(c, k.b, a') && SameChoices(WitnessOf(a, k), WitnessOf(a', k))
    ensures WitnessOf(a, k) == WitnessOf(a', k)
    ensures ReadMemory(a, k.memory) == ReadMemory(a', k.memory)
    ensures Cells(a, k.pis) == Cells(a', k.pis)
    ensures ReadAll(a, k.outputs) == ReadAll(a', k.outputs)
  {
    SatisfyingIsRun(c, src, k, a);
    SatisfyingIsRun(c, src, k, a');
    ChoicesDetermineRun(c, src, WitnessOf(a, k), WitnessOf(a', k));
  }

  // ----- every cell -----

  /** Growth without free assignments keeps the agreement. */
  lemma AgreeLater(b: Builder, b': Builder, h: Option<Trait>, a: Assignment, a': Assignment)
    requires Adds(b, b', h) && h != Some(Chosen) && ChoicesAgree(b, a, a')
    ensures ChoicesAgree(b', a, a')
  {
    forall i | 0 <= i < |b'.constraints| && b'.constraints[i].g.Assign?
      ensures Cells(a, b'.constraints[i].outs) == Cells(a', b'.constraints[i].outs)
    {
      if i < |b.constraints| { assert b'.constraints[i] == b.constraints[i]; }
    }
  }

  lemma AgreeOnChoice(b: Builder, bound: nat, n: nat, a: Assignment, a': Assignment)
    requires ChoicesAgree(b, a, a') && Cells(a, Fresh(b.next, n)) == Cells(a', Fresh(b.next, n))
    ensures ChoicesAgree(Emit(b, Assign(bound), [], n), a, a')
  {}

  /** Values that read alike are held in cells that agree. */
  lemma ReadDetermines(c: Params, v: CircuitValue, a: Assignment, a': Assignment)
    requires Sorted(c, a, v) && Sorted(c, a', v) && Read(a, v) == Read(a', v)
    ensures Cells(a, Wires(v)) == Cells(a', Wires(v))
  {
    if !v.Bytes? {
      assert Cells(a, [v.w]) == [Cell(a, v.w)] && Cells(a', [v.w]) == [Cell(a', v.w)];
      if v.Bool? { assert Cells(a, [v.w])[0] < 2 && Cells(a', [v.w])[0] < 2; }
    }
  }

  lemma AssignedWires(c: Params, b: Builder, t: IrType)
    requires AssignValue(c, b, t).Some?
    ensures AssignValue(c, b, t).value.0 == Emit(b, Assign(CellBound(c, t)), [], CellCount(t))
    ensures Wires(AssignValue(c, b, t).value.1) == Fresh(b.next, CellCount(t))
  {}

  lemma {:induction false} InputsAgree(c: Params, b: Builder, inputs: seq<TypedIdentifier>, a: Assignment,
      a': Assignment)
    requires AssignInputs(c, b, inputs).Some? && ChoicesAgree(b, a, a')
    requires var vs := AssignInputs(c, b, inputs).value.1;
             SortedAll(c, a, vs) && SortedAll(c, a', vs) && ReadAll(a, vs) == ReadAll(a', vs)
    ensures ChoicesAgree(AssignInputs(c, b, inputs).value.0, a, a')
    decreases |inputs|
  {
    if inputs == [] {
    } else {
      var (b1, v) := AssignValue(c, b, inputs[0].valT).value;
      var (b2, rest) := AssignInputs(c, b1, inputs[1..]).value;
      assert ([v] + rest)[1..] == rest;
      assert ReadAll(a, [v] + rest)[0] == Read(a, v) && ReadAll(a, [v] + rest)[1..] == ReadAll(a, rest);
      assert ReadAll(a', [v] + rest)[0] == Read(a', v) && ReadAll(a', [v] + rest)[1..] == ReadAll(a', rest);
      SortedTail(c, a, v, rest);
      SortedTail(c, a', v, rest);
      ReadDetermines(c, v, a, a');
      AssignedWires(c, b, inputs[0].valT);
      AgreeOnChoice(b, CellBound(c, inputs[0].valT), CellCount(inputs[0].valT), a, a');
      InputsAgree(c, b1, inputs[1..], a, a');
    }
  }

  lemma SortedTail(c: Params, a: Assignment, v: CircuitValue, rest: seq<CircuitValue>)
    requires SortedAll(c, a, [v] + rest)
    ensures Sorted(c, a, v) && SortedAll(c, a, rest)
  {
    var vs := [v] + rest;
    assert Sorted(c, a, vs[0]);
    forall i | 0 <= i < |rest|
      ensures Sorted(c, a, rest[i])
    {
      assert Sorted(c, a, vs[i + 1]);
    }
  }

  /** A read is one free assignment, and its value is what the instruction binds. */
  lemma ReadAgrees(c: Params, s: Synthesis, ins: Instruction, a: Assignment, a': Assignment)
    requires IsRead(ins) && SynthRead(c, s, ins).Some? && ChoicesAgree(s.b, a, a')
    requires var v := SynthRead(c, s, ins).value.memory[ins.output]; Cells(a, Wires(v)) == Cells(a', Wires(v))
    ensures ChoicesAgree(SynthRead(c, s, ins).value.b, a, a')
  {
    AssignedWires(c, s.b, ins.valT);
    AgreeOnChoice(s.b, CellBound(c, ins.valT), CellCount(ins.valT), a, a');
  }

  /** The one free assignment of a reconstitution is its result. */
  lemma ReconstituteAgrees(c: Params, s: Synthesis, ins: Instruction, a: Assignment, a': Assignment)
    requires ins.ReconstituteField? && SynthCompute(c, s, ins).Some? && ChoicesAgree(s.b, a, a')
    requires ins.output in SynthCompute(c, s, ins).value.memory
    requires var v := SynthCompute(c, s, ins).value.memory[ins.output]; Cells(a, Wires(v)) == Cells(a', Wires(v))
    ensures ChoicesAgree(SynthCompute(c, s, ins).value.b, a, a')
  {
    var (b1, vs) := ResolveAllWires(s.b, s.memory, ins.Args()).value;
    ResolveAllGrows(s.b, s.memory, ins.Args());
    AgreeLater(s.b, b1, None, a, a');
    var v := CircuitValue.Native(b1.next);
    assert Preprocess.Bind(s.memory, [ins.output], [v]) == s.memory[ins.output := v];
    assert Fresh(b1.next, 1) == [b1.next];
    AgreeOnChoice(b1, c.p, 1, a, a');
    RejoinedGrows(c, b1, vs[0].w, vs[1].w, ins.bits);
    AgreeLater(Emit(b1, Assign(c.p), [], 1), Rejoined(c, b1, vs[0].w, vs[1].w, ins.bits), None, a, a');
  }

  lemma StepAgrees(c: Params, src: IrSource, s: Synthesis, ins: Instruction, a: Assignment, a': Assignment)
    requires SynthStep(c, src, s, ins).Some? && ChoicesAgree(s.b, a, a')
    requires IsRead(ins) || ins.ReconstituteField? ==>
               && ins.output in SynthStep(c, src, s, ins).value.memory
               && var v := SynthStep(c, src, s, ins).value.memory[ins.output];
                  Cells(a, Wires(v)) == Cells(a', Wires(v))
    ensures ChoicesAgree(SynthStep(c, src, s, ins).value.b, a, a')
  {
    if IsRead(ins) { ReadAgrees(c, s, ins, a, a'); }
    else if ins.ReconstituteField? { ReconstituteAgrees(c, s, ins, a, a'); }
    else {
      StepGrows(c, src, s, ins);
      AgreeLater(s.b, SynthStep(c, src, s, ins).value.b, TraitOfInstruction(ins), a, a');
    }
  }

  lemma OutputIsBound(c: Params, src: IrSource, s: Synthesis, ins: Instruction)
    requires SynthStep(c, src, s, ins).Some? && (IsRead(ins) || ins.ReconstituteField?)
    ensures ins.output in SynthStep(c, src, s, ins).value.memory
  {
    if ins.ReconstituteField? {
      var (b1, vs) := ResolveAllWires(s.b, s.memory, ins.Args()).value;
      Preprocess.BindLookup(s.memory, [ins.output], SynthOp(c, ins, b1, vs).value.1);
      assert [ins.output][0] in Preprocess.Bind(s.memory, [ins.output], SynthOp(c, ins, b1, vs).value.1);
    }
  }

  /** Two satisfying assignments that hold the same witness. */
  ghost predicate Twins(c: Params, src: IrSource, k: CircuitShape, a: Assignment, a': Assignment) {
    && c.Valid() && TypedSource(c, src) && Synthesize(c, src) == Some(k)
    && Sat(c, k.b, a) && Sat(c, k.b, a') && WitnessOf(a, k) == WitnessOf(a', k)
    && Cells(a, k.pis) == Cells(a', k.pis)
  }

  lemma TwinsReadAlike(c: Params, src: IrSource, k: CircuitShape, a: Assignment, a': Assignment, i: nat, id: Identifier)
    requires Twins(c, src, k, a, a') && i <= |src.instructions| && Stage(c, src, i).Some?
    requires id in Stage(c, src, i).value.memory
    ensures var v := Stage(c, src, i).value.memory[id]; Cells(a, Wires(v)) == Cells(a', Wires(v))
  {
    StageIsRun(c, src, k, a, i);
    StageIsRun(c, src, k, a', i);
    var memory := Stage(c, src, i).value.memory;
    assert ReadMemory(a, memory)[id] == ReadMemory(a', memory)[id];
    ReadDetermines(c, memory[id], a, a');
  }

  lemma InitAgrees(c: Params, src: IrSource, k: CircuitShape, a: Assignment, a': Assignment)
    requires Twins(c, src, k, a, a')
    ensures Stage(c, src, 0).Some? && ChoicesAgree(Stage(c, src, 0).value.b, a, a')
  {
    CircuitIsEquipped(c, src);
    StageLeadsOn(c, src, k, 0);
    var (s0, inputs) := SynthInit(c, src).value;
    assert src.instructions[..0] == [] && Stage(c, src, 0) == Some(s0);
    SatEarlier(c, s0.b, k.b, a);
    SatEarlier(c, s0.b, k.b, a');
    InitChoicesAgree(c, src, a, a');
  }

  lemma InitChoicesAgree(c: Params, src: IrSource, a: Assignment, a': Assignment)
    requires SynthInit(c, src).Some?
    requires var (s0, inputs) := SynthInit(c, src).value;
             && Sat(c, s0.b, a) && Sat(c, s0.b, a')
             && ReadAll(a, inputs) == ReadAll(a', inputs) && Cells(a, s0.pis) == Cells(a', s0.pis)
    ensures ChoicesAgree(SynthInit(c, src).value.0.b, a, a')
  {
    var (b1, inputs) := AssignInputs(c, EMPTY, src.inputs).value;
    var (s0, _) := SynthInit(c, src).value;
    var b2 := Emit(b1, Assign(c.p), [], 1);
    if src.doCommunicationsCommitment {
      Emitted(c, b2, Assign(c.p), [], 1, a);
      Emitted(c, b2, Assign(c.p), [], 1, a');
    }
    Emitted(c, b1, Assign(c.p), [], 1, a);
    Emitted(c, b1, Assign(c.p), [], 1, a');
    InputsSound(c, EMPTY, src.inputs, a);
    InputsSound(c, EMPTY, src.inputs, a');
    InputsAgree(c, EMPTY, src.inputs, a, a');
    assert Cells(a, s0.pis)[0] == Cell(a, b1.next) && Cells(a', s0.pis)[0] == Cell(a', b1.next);
    AgreeOnChoice(b1, c.p, 1, a, a');
    if src.doCommunicationsCommitment {
      assert Cells(a, s0.pis)[1] == Cell(a, b2.next) && Cells(a', s0.pis)[1] == Cell(a', b2.next);
      AgreeOnChoice(b2, c.p, 1, a, a');
    }
  }

  lemma StageStep(c: Params, src: IrSource, i: nat)
    requires i < |src.instructions| && Stage(c, src, i + 1).Some?
    ensures Stage(c, src, i).Some?
    ensures Stage(c, src, i + 1) == SynthStep(c, src, Stage(c, src, i).value, src.instructions[i])
  {
    var todo := src.instructions;
    assert todo[..i + 1] == todo[..i] + [todo[i]];
    SynthSplit(c, src, SynthInit(c, src).value.0, todo[..i], [todo[i]]);
    var s := Stage(c, src, i).value;
    assert [todo[i]][1..] == [];
    var r := SynthStep(c, src, s, todo[i]);
    if r.Some? { assert SynthFrom(c, src, r.value, []) == r; }
  }

  /** Up to every stage, what the prover chose agrees. */
  lemma {:induction false} StageAgrees(c: Params, src: IrSource, k: CircuitShape, a: Assignment, a': Assignment, i: nat)
    requires Twins(c, src, k, a, a') && i <= |src.instructions|
    ensures Stage(c, src, i).Some? && ChoicesAgree(Stage(c, src, i).value.b, a, a')
    decreases i
  {
    if i == 0 {
      InitAgrees(c, src, k, a, a');
    } else {
      var ins := src.instructions[i - 1];
      CircuitIsEquipped(c, src);
      StageLeadsOn(c, src, k, i);
      StageStep(c, src, i - 1);
      StageAgrees(c, src, k, a, a', i - 1);
      var s := Stage(c, src, i - 1).value;
      if IsRead(ins) || ins.ReconstituteField? {
        OutputIsBound(c, src, s, ins);
        TwinsReadAlike(c, src, k, a, a', i, ins.output);
      }
      StepAgrees(c, src, s, ins, a, a');
    }
  }

  lemma CommitmentAgrees(c: Params, src: IrSource, s: Synthesis, a: Assignment, a': Assignment)
    requires |s.pis| >= 2 && ChoicesAgree(s.b, a, a') && Cell(a, s.b.next) == Cell(a', s.b.next)
    ensures ChoicesAgree(SynthCommitment(c, src, s), a, a')
  {
    assert Fresh(s.b.next, 1) == [s.b.next];
    assert Cells(a, [s.b.next]) == [Cell(a, s.b.next)] && Cells(a', [s.b.next]) == [Cell(a', s.b.next)];
    AgreeOnChoice(s.b, c.p, 1, a, a');
    CommitmentGrows(c, src, s);
    AgreeLater(Emit(s.b, Assign(c.p), [], 1), SynthCommitment(c, src, s), Some(Hashes(Transient)), a, a');
  }

  lemma AllChoicesAgree(c: Params, src: IrSource, k: CircuitShape, a: Assignment, a': Assignment)
    requires Twins(c, src, k, a, a')
    ensures ChoicesAgree(k.b, a, a')
  {
    CircuitIsEquipped(c, src);
    StageAgrees(c, src, k, a, a', |src.instructions|);
    assert src.instructions[..|src.instructions|] == src.instructions;
    if src.doCommunicationsCommitment {
      CommitmentAgrees(c, src, Stage(c, src, |src.instructions|).value, a, a');
    }
  }

  /** The circuit of a run that succeeds is made of calls on earlier cells. */
  lemma CircuitIsWellFormed(c: Params, src: IrSource, k: CircuitShape, a: Assignment)
    requires c.Valid() && TypedSource(c, src) && Synthesize(c, src) == Some(k) && Sat(c, k.b, a)
    ensures WellFormed(k.b)
  {
    SatisfyingIsRun(c, src, k, a);
    var a' := Satisfiability.RunIsSatisfiable(c, src, k, WitnessOf(a, k));
  }

  /**
    Two satisfying assignments that agree on the inputs, the transcript reads, the binding
    input and the commitment's randomness agree on every cell of the circuit, and so on the whole
    circuit memory, the commitment, every public input and every output. In particular the freely
    assigned result of `ReconstituteField` is determined.
   */
  lemma NoFreeWires(c: Params, src: IrSource, k: CircuitShape, a: Assignment, a': Assignment)
    requires c.Valid() && TypedSource(c, src) && Synthesize(c, src) == Some(k)
    requires Sat(c, k.b, a) && Sat(c, k.b, a') && SameChoices(WitnessOf(a, k), WitnessOf(a', k))
    ensures forall w :: 0 <= w < k.b.next ==> Cell(a, w) == Cell(a', w)
    ensures ReadMemory(a, k.memory) == ReadMemory(a', k.memory)
    ensures Cells(a, k.pis) == Cells(a', k.pis)
    ensures ReadAll(a, k.outputs) == ReadAll(a', k.outputs)
  {
    ChoicesDetermineMemory(c, src, k, a, a');
    AllChoicesAgree(c, src, k, a, a');
    CircuitIsWellFormed(c, src, k, a);
    forall w | 0 <= w < k.b.next
      ensures Cell(a, w) == Cell(a', w)
    {
      CellDetermined(c, k.b, a, a', w);
    }
  }

  /** Of assignments to exactly the cells of a circuit, a witness on which the run succeeds has one and only one. */
  lemma WitnessHasOneAssignment(c: Params, src: IrSource, k: CircuitShape, w: Witness) returns (a: Assignment)
    requires c.Valid() && TypedSource(c, src) && Synthesize(c, src) == Some(k) && Run(c, src, w).Some?
    ensures |a| == k.b.next && Sat(c, k.b, a) && WitnessOf(a, k) == w
    ensures forall a' :: |a'| == k.b.next && Sat(c, k.b, a') && WitnessOf(a', k) == w ==> a' == a
  {
    a := Satisfiability.RunIsSatisfiable(c, src, k, w);
    forall a' | |a'| == k.b.next && Sat(c, k.b, a') && WitnessOf(a', k) == w
      ensures a' == a
    {
      NoFreeWires(c, src, k, a, a');
      assert forall j :: 0 <= j < |a| ==> a[j] == Cell(a, j) && a'[j] == Cell(a', j);
    }
  }
}
