/** Completeness of the whole circuit: whenever the run it describes succeeds, it can be satisfied. */
module Satisfiability {
  import opened Options
  import opened Digits
  import opened Types
  import opened Instructions
  import opened Gadgets
  import opened Circuit
  import opened Readings
  import opened GadgetSoundness
  import opened GadgetCompleteness
  import opened CircuitRun
  import opened Growth
  import opened Soundness
  import OpSoundness
  import OpCompleteness
  import Preprocess

  /** Every cell that synthesis still refers to exists. */
  predicate BoundedState(s: Synthesis) {
    && BoundedMemory(s.memory, s.b.next) && BoundedAll(s.outputs, s.b.next)
    && BoundedAll(s.readValues, s.b.next) && InBounds(s.pis, s.b.next)
  }

  /** A solution of a stage of synthesis that holds well-typed values. */
  ghost predicate Solved(c: Params, s: Synthesis, a: Assignment) {
    Solves(c, s.b, a) && BoundedState(s) && SortedState(c, a, s)
  }

  lemma BoundedAllLater(vs: seq<CircuitValue>, m: nat, n: nat)
    requires BoundedAll(vs, m) && m <= n
    ensures BoundedAll(vs, n)
  {
    forall i | 0 <= i < |vs|
      ensures Bounded(vs[i], n)
    {
      BoundedLater(vs[i], m, n);
    }
  }

  lemma BoundedStateLater(s: Synthesis, b: Builder)
    requires BoundedState(s) && s.b.next <= b.next
    ensures BoundedState(s.(b := b))
  {
    MemoryLater(s.memory, s.b.next, b.next);
    BoundedAllLater(s.outputs, s.b.next, b.next);
    BoundedAllLater(s.readValues, s.b.next, b.next);
  }

  lemma SortedMemoryKeep(c: Params, a: Assignment, a': Assignment, memory: CircuitMemory)
    requires a <= a' && BoundedMemory(memory, |a|) && SortedMemory(c, a, memory)
    ensures SortedMemory(c, a', memory) && ReadMemory(a', memory) == ReadMemory(a, memory)
  {
    forall id | id in memory
      ensures Sorted(c, a', memory[id])
    {
      SortedExtends(c, a, a', memory[id]);
    }
    ReadMemoryExtends(a, a', memory);
  }

  /** What a stage holds is not affected by the cells added after it. */
  lemma ViewKeeps(c: Params, s: Synthesis, a: Assignment, b': Builder, a': Assignment)
    requires Solved(c, s, a) && Carries(c, s.b, a, b', a')
    ensures View(a', s) == View(a, s) && SortedState(c, a', s)
    ensures ReadAll(a', s.readValues) == ReadAll(a, s.readValues)
  {
    SortedMemoryKeep(c, a, a', s.memory);
    SortedAllKeep(c, a, a', s.outputs);
    ReadAllExtends(a, a', s.readValues);
    CellsKeep(a, a', s.pis);
  }

  // ----- one step -----

  lemma {:induction false} PushComplete(c: Params, b: Builder, memory: CircuitMemory, guard: Wire, zero: Wire,
      inputs: seq<Operand>, a: Assignment) returns (a': Assignment)
    requires Solves(c, b, a) && BoundedMemory(memory, b.next) && guard < b.next && zero < b.next
    requires PushGuarded(b, memory, guard, zero, inputs).Some?
    ensures var (b', ws) := PushGuarded(b, memory, guard, zero, inputs).value;
            Carries(c, b, a, b', a') && InBounds(ws, b'.next)
    decreases |inputs|
  {
    a' := a;
    if inputs == [] {
    } else {
      var (b1, v) := ResolveWires(b, memory, inputs[0]).value;
      var a1 := ResolveComplete(c, b, memory, inputs[0], a);
      var a2 := ChooseComplete(c, b1, guard, v.w, zero, a1) by {
        OpCompleteness.CellInBounds(v, b1.next);
      }
      var b2 := Emit(b1, Select, [guard, v.w, zero], 1);
      MemoryLater(memory, b.next, b2.next);
      a' := PushComplete(c, b2, memory, guard, zero, inputs[1..], a2);
    }
  }

  lemma ChooseComplete(c: Params, b: Builder, bit: Wire, x: Wire, y: Wire, a: Assignment) returns (a': Assignment)
    requires Solves(c, b, a) && bit < b.next && x < b.next && y < b.next
    ensures Carries(c, b, a, Emit(b, Select, [bit, x, y], 1), a')
  {
    assert Cells(a, [bit, x, y]) == [Cell(a, bit), Cell(a, x), Cell(a, y)];
    a' := Call(c, b, Select, [bit, x, y], 1, a, [if Cell(a, bit) == 1 then Cell(a, x) else Cell(a, y)]);
  }

  /** The constant zero of an impact. */
  lemma ZeroComplete(c: Params, s: Synthesis, a: Assignment) returns (a': Assignment)
    requires Solved(c, s, a)
    ensures var b' := Emit(s.b, Fixed([0]), [], 1);
            Carries(c, s.b, a, b', a') && Solved(c, s.(b := b'), a') && View(a', s.(b := b')) == View(a, s)
  {
    var b' := Emit(s.b, Fixed([0]), [], 1);
    a' := Call(c, s.b, Fixed([0]), [], 1, a, [0]);
    ViewKeeps(c, s, a, b', a');
    BoundedStateLater(s, b');
  }

  /** The guard of an impact, constrained to a bit. */
  lemma GuardComplete(c: Params, s: Synthesis, guard: Operand, a: Assignment) returns (a': Assignment)
    requires c.Sizes() && Solved(c, s, a) && (guard.Immediate? ==> guard.imm < c.p)
    requires var r := ResolveWires(s.b, s.memory, guard); r.Some? && r.value.1.Native?
    requires Preprocess.ResolveBit(View(a, s).memory, guard).Some?
    ensures var (b', g) := ResolveWires(s.b, s.memory, guard).value;
            Carries(c, s.b, a, Emit(b', InRange(2), [g.w], 0), a') && g.w < b'.next
  {
    var (b', g) := ResolveWires(s.b, s.memory, guard).value;
    var a1 := ResolveComplete(c, s.b, s.memory, guard, a);
    SortedMemoryKeep(c, a, a1, s.memory);
    ResolveSound(c, s.b, s.memory, guard, a1);
    OpCompleteness.CellInBounds(g, b'.next);
    a' := OpCompleteness.BitCall(c, b', g.w, a1);
  }

  lemma ImpactComplete(c: Params, s: Synthesis, guard: Operand, inputs: seq<Operand>, a: Assignment)
    returns (a': Assignment)
    requires c.Sizes() && Solved(c, s, a) && TypedOperands(c, [guard] + inputs)
    requires SynthImpact(s, guard, inputs).Some? && RunImpact(View(a, s), guard, inputs).Some?
    ensures var s' := SynthImpact(s, guard, inputs).value;
            Carries(c, s.b, a, s'.b, a') && BoundedState(s')
  {
    assert guard == ([guard] + inputs)[0];
    var (b2, g) := ResolveWires(Emit(s.b, Fixed([0]), [], 1), s.memory, guard).value;
    var a1 := ZeroComplete(c, s, a);
    var a3 := GuardComplete(c, s.(b := Emit(s.b, Fixed([0]), [], 1)), guard, a1);
    var b3 := Emit(b2, InRange(2), [g.w], 0);
    MemoryLater(s.memory, s.b.next, b3.next);
    a' := PushComplete(c, b3, s.memory, g.w, s.b.next, inputs, a3);
    BoundedStateLater(s, SynthImpact(s, guard, inputs).value.b);
  }

  /** A fresh value can be any value of its type. */
  lemma AssignComplete(c: Params, b: Builder, v: IrValue, a: Assignment) returns (a': Assignment)
    requires Solves(c, b, a) && ValidValue(c, v) && AssignValue(c, b, TypeOf(v)).Some?
    ensures var (b', cv) := AssignValue(c, b, TypeOf(v)).value;
            Carries(c, b, a, b', a') && Bounded(cv, b'.next) && Sorted(c, a', cv) && Read(a', cv) == v
  {
    var t := TypeOf(v);
    a' := Call(c, b, Assign(CellBound(c, t)), [], CellCount(t), a, ValueCells(v));
    ReadOfWires(c, a', v, Fresh(b.next, CellCount(t)));
    OpCompleteness.FreshBounded(t, b.next, b.next + CellCount(t));
  }

  lemma ReadComplete(c: Params, w: Witness, s: Synthesis, ins: Instruction, a: Assignment) returns (a': Assignment)
    requires (ins.PublicInput? || ins.PrivateInput?) && Solved(c, s, a) && ReadAll(a, s.readValues) <= w.readValues
    requires SynthRead(c, s, ins).Some? && RunRead(c, w, View(a, s), ins).Some?
    ensures var s' := SynthRead(c, s, ins).value;
            Carries(c, s.b, a, s'.b, a') && BoundedState(s') && ReadAll(a', s'.readValues) <= w.readValues
  {
    var v := w.readValues[|s.readValues|];
    a' := AssignComplete(c, s.b, v, a);
    var (b1, cv) := AssignValue(c, s.b, ins.valT).value;
    ViewKeeps(c, s, a, b1, a');
    BoundedStateLater(s, b1);
    assert ReadAll(a', s.readValues + [cv]) == ReadAll(a', s.readValues) + [v];
  }

  lemma OutputComplete(c: Params, src: IrSource, s: Synthesis, vals: seq<Operand>, a: Assignment)
    returns (a': Assignment)
    requires Solved(c, s, a) && SynthOutput(src, s, vals).Some?
    ensures var s' := SynthOutput(src, s, vals).value;
            Carries(c, s.b, a, s'.b, a') && BoundedState(s')
  {
    a' := ResolveAllComplete(c, s.b, s.memory, vals, a);
    BoundedStateLater(s, SynthOutput(src, s, vals).value.b);
  }

  lemma ComputeComplete(c: Params, s: Synthesis, ins: Instruction, a: Assignment) returns (a': Assignment)
    requires c.Valid() && ins.Computes() && Solved(c, s, a) && OpSoundness.TypedInstruction(c, ins)
    requires SynthCompute(c, s, ins).Some? && RunCompute(c, View(a, s), ins).Some?
    ensures var s' := SynthCompute(c, s, ins).value;
            Carries(c, s.b, a, s'.b, a') && BoundedState(s')
  {
    var (b1, vs) := ResolveAllWires(s.b, s.memory, ins.Args()).value;
    var a1 := ResolveAllComplete(c, s.b, s.memory, ins.Args(), a);
    ViewKeeps(c, s, a, b1, a1);
    ResolveAllSound(c, s.b, s.memory, ins.Args(), a1);
    var (b2, rs) := SynthOp(c, ins, b1, vs).value;
    a' := OpCompleteness.OpComplete(c, ins, b1, vs, a1, b2, rs);
    BoundedStateLater(s, b2);
    BindKeeps(s.memory, ins.Outs(), rs, v => Bounded(v, b2.next));
  }

  lemma OtherStepComplete(c: Params, src: IrSource, w: Witness, s: Synthesis, ins: Instruction, a: Assignment)
    returns (a': Assignment)
    requires c.Valid() && Solved(c, s, a) && OpSoundness.TypedInstruction(c, ins) && !IsRead(ins)
    requires SynthStep(c, src, s, ins).Some? && RunStep(c, src, w, View(a, s), ins).Some?
    ensures var s' := SynthStep(c, src, s, ins).value;
            Carries(c, s.b, a, s'.b, a') && BoundedState(s')
  {
    if ins.Impact? { a' := ImpactComplete(c, s, ins.guard, ins.inputs, a); }
    else if ins.Output? { a' := OutputComplete(c, src, s, ins.vals, a); }
    else { a' := ComputeComplete(c, s, ins, a); }
  }

  lemma OtherStepReadsNothing(c: Params, src: IrSource, s: Synthesis, ins: Instruction)
    requires !IsRead(ins) && SynthStep(c, src, s, ins).Some?
    ensures SynthStep(c, src, s, ins).value.readValues == s.readValues
  {}

  lemma StepComplete(c: Params, src: IrSource, w: Witness, s: Synthesis, ins: Instruction, a: Assignment)
    returns (a': Assignment)
    requires c.Valid() && Solved(c, s, a) && OpSoundness.TypedInstruction(c, ins)
             && ReadAll(a, s.readValues) <= w.readValues
    requires SynthStep(c, src, s, ins).Some? && RunStep(c, src, w, View(a, s), ins).Some?
    ensures var s' := SynthStep(c, src, s, ins).value;
            Carries(c, s.b, a, s'.b, a') && BoundedState(s') && ReadAll(a', s'.readValues) <= w.readValues
  {
    if IsRead(ins) {
      a' := ReadComplete(c, w, s, ins, a);
    } else {
      a' := OtherStepComplete(c, src, w, s, ins, a);
      OtherStepReadsNothing(c, src, s, ins);
      ViewKeeps(c, s, a, SynthStep(c, src, s, ins).value.b, a');
    }
  }

  lemma {:induction false} RunComplete(c: Params, src: IrSource, w: Witness, s: Synthesis, todo: seq<Instruction>,
      a: Assignment)
    returns (a': Assignment)
    requires c.Valid() && Solved(c, s, a) && ReadAll(a, s.readValues) <= w.readValues
    requires forall i :: 0 <= i < |todo| ==> OpSoundness.TypedInstruction(c, todo[i])
    requires SynthFrom(c, src, s, todo).Some? && RunFrom(c, src, w, View(a, s), todo).Some?
    ensures var s' := SynthFrom(c, src, s, todo).value;
            && Carries(c, s.b, a, s'.b, a') && Solved(c, s', a') && ReadAll(a', s'.readValues) <= w.readValues
            && RunFrom(c, src, w, View(a, s), todo) == Some(View(a', s'))
    decreases |todo|
  {
    a' := a;
    if todo == [] {
    } else {
      var s1 := SynthStep(c, src, s, todo[0]).value;
      var a1 := StepComplete(c, src, w, s, todo[0], a);
      ViewKeeps(c, s, a, s1.b, a1);
      StepSound(c, src, w, s, todo[0], a1);
      a' := RunComplete(c, src, w, s1, todo[1..], a1);
    }
  }

  // ----- the whole circuit -----

  lemma {:induction false} InputsComplete(c: Params, b: Builder, inputs: seq<TypedIdentifier>, vs: seq<IrValue>,
      a: Assignment)
    returns (a': Assignment)
    requires Solves(c, b, a) && InputsTyped(c, inputs, vs) && AssignInputs(c, b, inputs).Some?
    ensures var (b', cvs) := AssignInputs(c, b, inputs).value;
            Carries(c, b, a, b', a') && BoundedAll(cvs, b'.next) && ReadAll(a', cvs) == vs
    decreases |inputs|
  {
    a' := a;
    if inputs == [] {
    } else {
      var (b1, v) := AssignValue(c, b, inputs[0].valT).value;
      var a1 := AssignComplete(c, b, vs[0], a);
      a' := InputsComplete(c, b1, inputs[1..], vs[1..], a1);
      var (b2, rest) := AssignInputs(c, b1, inputs[1..]).value;
      BoundedLater(v, b1.next, b2.next);
      ReadExtends(a1, a', v);
      assert ReadAll(a', [v] + rest) == [Read(a', v)] + ReadAll(a', rest);
    }
  }

  lemma AssignOneComplete(c: Params, b: Builder, x: nat, a: Assignment) returns (a': Assignment)
    requires Solves(c, b, a) && x < c.p
    ensures a' == a + [x] && Carries(c, b, a, Emit(b, Assign(c.p), [], 1), a') && Cell(a', b.next) == x
  {
    a' := Call(c, b, Assign(c.p), [], 1, a, [x]);
  }

  lemma EmptyIsSolved(c: Params)
    ensures Solves(c, EMPTY, [])
  {}

  lemma InitComplete(c: Params, src: IrSource, w: Witness) returns (a: Assignment)
    requires c.Sizes() && SynthInit(c, src).Some? && RunInit(c, src, w).Some?
    ensures var (s0, inputs) := SynthInit(c, src).value;
            && Solved(c, s0, a) && RunInit(c, src, w) == Some(View(a, s0))
            && ReadAll(a, inputs) == w.inputs && BoundedAll(inputs, s0.b.next)
  {
    EmptyIsSolved(c);
    var (b1, inputs) := AssignInputs(c, EMPTY, src.inputs).value;
    var a1 := InputsComplete(c, EMPTY, src.inputs, w.inputs, []);
    var b2 := Emit(b1, Assign(c.p), [], 1);
    var a2 := AssignOneComplete(c, b1, w.bindingInput, a1);
    a := a2;
    if w.commitment.Some? { a := AssignOneComplete(c, b2, w.commitment.value.0, a2); }
    var s0 := SynthInit(c, src).value.0;
    ReadAllExtends(a1, a, inputs);
    BoundedAllLater(inputs, b1.next, s0.b.next);
    BindKeeps(map[], InputNames(src.inputs), inputs, v => Bounded(v, s0.b.next));
    InitSound(c, src, a, w);
  }

  lemma CommittedComplete(c: Params, src: IrSource, s: Synthesis, b: Builder, a: Assignment) returns (a': Assignment)
    requires c.Sizes() && s.b.next <= b.next && Solves(c, b, a) && BoundedState(s) && SortedState(c, a, s)
    ensures var (b', ws) := EncodeCommitted(c, src, s, b);
            Carries(c, b, a, b', a') && InBounds(ws, b'.next)
  {
    var values := InputValues(s.memory, InputNames(src.inputs));
    InputValuesRead(c, a, s.memory, InputNames(src.inputs));
    InputValuesBounded(s.memory, InputNames(src.inputs), s.b.next);
    BoundedAllLater(values, s.b.next, b.next);
    var a1 := EncodeAllComplete(c, b, values, a);
    var b1 := EncodeAllWires(c, b, values).0;
    BoundedAllLater(s.outputs, s.b.next, b1.next);
    BoundedAllLater(s.outputs, s.b.next, b.next);
    SortedAllKeep(c, a, a1, s.outputs);
    a' := EncodeAllComplete(c, b1, s.outputs, a1);
  }

  lemma {:induction false} InputValuesBounded(memory: CircuitMemory, names: seq<Identifier>, n: nat)
    requires BoundedMemory(memory, n)
    ensures BoundedAll(InputValues(memory, names), n)
  {
    if names == [] {
    } else {
      InputValuesBounded(memory, names[1..], n);
    }
  }

  lemma CommitmentComplete(c: Params, src: IrSource, s: Synthesis, rand: nat, a: Assignment) returns (a': Assignment)
    requires c.Valid() && Solved(c, s, a) && |s.pis| >= 2 && rand < c.p
    requires Cell(a, s.pis[1]) == Preprocess.TransientCommit(c, Committed(c, src, View(a, s)), rand)
    ensures Carries(c, s.b, a, SynthCommitment(c, src, s), a') && Cell(a', s.b.next) == rand
  {
    var b1 := Emit(s.b, Assign(c.p), [], 1);
    var a1 := AssignOneComplete(c, s.b, rand, a);
    ViewKeeps(c, s, a, b1, a1);
    var (b2, committed) := EncodeCommitted(c, src, s, b1);
    var a2 := CommittedComplete(c, src, s, b1, a1);
    ViewKeeps(c, s, a, b2, a2);
    CommittedSound(c, src, s, b1, a2);
    a' := HashAndTie(c, b2, [s.b.next] + committed, s.pis[1], a2) by {
      CellsCat(a2, [s.b.next], committed);
      assert Cells(a2, [s.b.next]) == [rand];
    }
  }

  /** A hash that equals an existing cell can be tied to it. */
  lemma HashAndTie(c: Params, b: Builder, ws: seq<Wire>, target: Wire, a: Assignment) returns (a': Assignment)
    requires Solves(c, b, a) && InBounds(ws, b.next) && target < b.next
    requires Cell(a, target) == c.poseidon(Cells(a, ws))
    ensures Carries(c, b, a, Emit(Emit(b, Poseidon, ws, 1), AssertEqual, [b.next, target], 0), a')
  {
    var a1 := Call(c, b, Poseidon, ws, 1, a, [c.poseidon(Cells(a, ws))]);
    assert Cells(a1, [b.next, target]) == [Cell(a1, b.next), Cell(a1, target)];
    a' := Call(c, Emit(b, Poseidon, ws, 1), AssertEqual, [b.next, target], 0, a1, []);
  }

  /** Whenever the run succeeds on a witness, an assignment of all cells holding that witness satisfies the circuit. */
  lemma RunIsSatisfiable(c: Params, src: IrSource, k: CircuitShape, w: Witness) returns (a: Assignment)
    requires c.Valid() && TypedSource(c, src) && Synthesize(c, src) == Some(k) && Run(c, src, w).Some?
    ensures Solves(c, k.b, a) && WitnessOf(a, k) == w
  {
    CircuitIsEquipped(c, src);
    var (s0, inputs) := SynthInit(c, src).value;
    var a0 := InitComplete(c, src, w);
    var s := SynthFrom(c, src, s0, src.instructions).value;
    var a1 := RunComplete(c, src, w, s0, src.instructions, a0);
    RunGrows(c, src, s0, src.instructions);
    a := a1;
    if w.commitment.Some? {
      a := CommitmentComplete(c, src, s, w.commitment.value.1, a1);
      ViewKeeps(c, s, a1, k.b, a);
    }
    ReadAllExtends(a0, a, inputs);
    KeptWitness(s0, s, a0, a);
  }

  lemma KeptWitness(s0: Synthesis, s: Synthesis, a0: Assignment, a: Assignment)
    requires a0 <= a && Extends(s0, s) && InBounds(s0.pis, |a0|)
    ensures forall i :: 0 <= i < |s0.pis| ==> Cell(a, s.pis[i]) == Cells(a0, s0.pis)[i]
  {}

  /**
    A circuit is satisfied by some assignment holding a given witness exactly when the run
    succeeds on that witness. Soundness and completeness of the constraints in one statement.
   */
  lemma SatisfiableIffRun(c: Params, src: IrSource, k: CircuitShape, w: Witness)
    requires c.Valid() && TypedSource(c, src) && Synthesize(c, src) == Some(k)
    ensures (exists a :: Sat(c, k.b, a) && WitnessOf(a, k) == w) <==> Run(c, src, w).Some?
  {
    forall a | Sat(c, k.b, a) && WitnessOf(a, k) == w
      ensures Run(c, src, w).Some?
    {
      SatisfyingIsRun(c, src, k, a);
    }
    if Run(c, src, w).Some? {
      var a := RunIsSatisfiable(c, src, k, w);
    }
  }
}
