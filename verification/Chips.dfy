/** Which chips a source asks for, and when that is enough for everything it computes. */
module Chips {
  import opened Options
  import opened Types
  import opened Instructions
  import opened ChipSelection
  import opened Typing
  import Circuit
  import Encoding
  import Gadgets
  import Growth
  import Preprocess
  import SynthesisTyping

  predicate EnvEnabled(arch: Arch, env: Env) {
    AllInScope(t => Enabled(arch, t), env)
  }

  predicate Brings(ins: Instruction, ts: seq<IrType>, t: IrType) {
    Family(t).None? || t in ts || Introduced(ins) == Some(t)
  }

  /** Results have no family, the type of an operand, or the type that the instruction names. */
  lemma ResultsBrought(c: Params, ins: Instruction, ts: seq<IrType>)
    requires ins.Computes() && |ts| == |ins.Args()| && OpType(c, ins, ts).Some?
    ensures forall i :: 0 <= i < |OpType(c, ins, ts).value| ==> Brings(ins, ts, OpType(c, ins, ts).value[i])
  {}

  lemma KeepsEnabled(c: Params, arch: Arch, ins: Instruction)
    requires Introduced(ins).Some? ==> Enabled(arch, Introduced(ins).value)
    ensures Keeps(c, ins, t => Enabled(arch, t))
  {
    var p := (t: IrType) => Enabled(arch, t);
    if ins.Computes() {
      forall ts | |ts| == |ins.Args()| && AllTypes(p, ts) && OpType(c, ins, ts).Some?
        ensures AllTypes(p, OpType(c, ins, ts).value)
      {
        EnabledResults(c, arch, ins, ts);
      }
    }
  }

  lemma EnabledResults(c: Params, arch: Arch, ins: Instruction, ts: seq<IrType>)
    requires Introduced(ins).Some? ==> Enabled(arch, Introduced(ins).value)
    requires ins.Computes() && |ts| == |ins.Args()| && AllTypes(t => Enabled(arch, t), ts) && OpType(c, ins, ts).Some?
    ensures AllTypes(t => Enabled(arch, t), OpType(c, ins, ts).value)
  {
    ResultsBrought(c, ins, ts);
    var rs := OpType(c, ins, ts).value;
    forall i | 0 <= i < |rs|
      ensures Enabled(arch, rs[i])
    {
      assert Brings(ins, ts, rs[i]);
    }
  }

  /** What is in memory after the first `i` instructions. */
  function Reached(c: Params, src: IrSource, i: nat): Option<Static>
    requires i <= |src.instructions|
  {
    var s0 :- CheckInit(src);
    CheckFrom(c, src, s0, src.instructions[..i])
  }

  lemma {:induction false} CheckSplit(c: Params, src: IrSource, s: Static, xs: seq<Instruction>, ys: seq<Instruction>)
    ensures CheckFrom(c, src, s, xs + ys) ==
            match CheckFrom(c, src, s, xs)
            case None => None
            case Some(s') => CheckFrom(c, src, s', ys)
    decreases |xs|
  {
    if xs == [] {
      assert xs + ys == ys;
    } else {
      assert (xs + ys)[1..] == xs[1..] + ys;
      var r := CheckStep(c, src, s, xs[0]);
      if r.Some? { CheckSplit(c, src, r.value, xs[1..], ys); }
    }
  }

  lemma ReachedEnabled(c: Params, src: IrSource, i: nat)
    requires i <= |src.instructions| && Covered(src) && Reached(c, src, i).Some?
    ensures EnvEnabled(UsedChips(src), Reached(c, src, i).value.env)
  {
    var p := (t: IrType) => Enabled(UsedChips(src), t);
    BindKeepsScope(p, map[], InputNames(src.inputs), InputTypes(src.inputs));
    forall j | 0 <= j < i
      ensures Keeps(c, src.instructions[..i][j], p)
    {
      KeepsEnabled(c, UsedChips(src), src.instructions[j]);
    }
    RunKeepsScope(c, src, p, CheckInit(src).value, src.instructions[..i]);
  }

  lemma IntroducedIsBound(c: Params, src: IrSource, s: Static, ins: Instruction)
    requires Introduced(ins).Some? && CheckStep(c, src, s, ins).Some?
    ensures var env := CheckStep(c, src, s, ins).value.env;
            exists id :: id in env && env[id] == Introduced(ins).value
  {
    var env := CheckStep(c, src, s, ins).value.env;
    if ins.Computes() {
      var rs := OpType(c, ins, TypeOperands(s.env, ins.Args()).value).value;
      assert rs == [Introduced(ins).value] && ins.Outs() == [ins.output];
      assert Preprocess.Bind(s.env, [ins.output], rs) == s.env[ins.output := rs[0]];
    }
    assert ins.output in env && env[ins.output] == Introduced(ins).value;
  }

  lemma ReachedStep(c: Params, src: IrSource, i: nat)
    requires i < |src.instructions| && Check(c, src).Some?
    ensures Reached(c, src, i).Some?
    ensures Reached(c, src, i + 1) == CheckStep(c, src, Reached(c, src, i).value, src.instructions[i])
    ensures Reached(c, src, i + 1).Some?
  {
    var s0, todo := CheckInit(src).value, src.instructions;
    assert todo == todo[..i] + todo[i..] && todo == todo[..i + 1] + todo[i + 1..]
        && todo[..i + 1] == todo[..i] + [todo[i]];
    CheckSplit(c, src, s0, todo[..i], todo[i..]);
    CheckSplit(c, src, s0, todo[..i + 1], todo[i + 1..]);
    CheckSplit(c, src, s0, todo[..i], [todo[i]]);
  }

  lemma CoveredIff(c: Params, src: IrSource)
    requires Check(c, src).Some?
    ensures Covered(src) <==>
            forall i :: 0 <= i <= |src.instructions| && Reached(c, src, i).Some? ==>
              EnvEnabled(UsedChips(src), Reached(c, src, i).value.env)
  {
    if Covered(src) {
      forall i | 0 <= i <= |src.instructions| && Reached(c, src, i).Some?
        ensures EnvEnabled(UsedChips(src), Reached(c, src, i).value.env)
      {
        ReachedEnabled(c, src, i);
      }
    }
    if forall i :: 0 <= i <= |src.instructions| && Reached(c, src, i).Some? ==>
         EnvEnabled(UsedChips(src), Reached(c, src, i).value.env)
    {
      forall i | 0 <= i < |src.instructions| && Introduced(src.instructions[i]).Some?
        ensures Enabled(UsedChips(src), Introduced(src.instructions[i]).value)
      {
        ReachedStep(c, src, i);
        IntroducedIsBound(c, src, Reached(c, src, i).value, src.instructions[i]);
        assert EnvEnabled(UsedChips(src), Reached(c, src, i + 1).value.env);
      }
    }
  }

  // ----- circuit memory -----

  /** Every value in circuit memory has the chip of its type. */
  predicate MemoryEnabled(arch: Arch, memory: Circuit.CircuitMemory) {
    forall id :: id in memory ==> Enabled(arch, Circuit.CircuitTypeOf(memory[id]))
  }

  /** At every stage of synthesis the types of circuit memory are those of the static environment. */
  lemma StageIsReached(c: Params, src: IrSource, k: Circuit.CircuitShape, i: nat)
    requires c.Sizes() && SynthesisTyping.TypedConstants(c, src.instructions)
    requires i <= |src.instructions| && Circuit.SynthesizeEquipped(c, src) == Some(k)
    ensures Growth.Stage(c, src, i).Some?
    ensures Reached(c, src, i) == Some(SynthesisTyping.StaticOf(Growth.Stage(c, src, i).value))
  {
    Growth.StageLeadsOn(c, src, k, i);
    SynthesisTyping.InitTyped(c, src);
    SynthesisTyping.RunTyped(c, src, Circuit.SynthInit(c, src).value.0, src.instructions[..i]);
  }

  lemma EnabledInMemory(arch: Arch, memory: Circuit.CircuitMemory)
    ensures EnvEnabled(arch, SynthesisTyping.EnvOf(memory)) <==> MemoryEnabled(arch, memory)
  {
    var env := SynthesisTyping.EnvOf(memory);
    assert forall id :: id in env <==> id in memory;
    if EnvEnabled(arch, env) {
      forall id | id in memory
        ensures Enabled(arch, Circuit.CircuitTypeOf(memory[id]))
      {
        assert Enabled(arch, env[id]);
      }
    }
  }

  /**
    `used_chips` covers a source exactly when every type brought in by a constant or by a
    conversion from Native also appears at an entry point that it scans: then, and only then,
    every value that is in circuit memory after any number of instructions has the chip of its type.
   */
  lemma ChipsCoverIff(c: Params, src: IrSource, k: Circuit.CircuitShape)
    requires c.Sizes() && SynthesisTyping.TypedConstants(c, src.instructions)
    requires Circuit.SynthesizeEquipped(c, src) == Some(k)
    ensures Covered(src) <==>
            forall i :: 0 <= i <= |src.instructions| && Growth.Stage(c, src, i).Some? ==>
              MemoryEnabled(UsedChips(src), Growth.Stage(c, src, i).value.memory)
    ensures forall i :: 0 <= i <= |src.instructions| ==> Growth.Stage(c, src, i).Some?
  {
    SynthesisTyping.EquippedIffChecked(c, src);
    CoveredIff(c, src);
    forall i | 0 <= i <= |src.instructions|
      ensures Growth.Stage(c, src, i).Some? && Reached(c, src, i).Some?
      ensures EnvEnabled(UsedChips(src), Reached(c, src, i).value.env)
         <==> MemoryEnabled(UsedChips(src), Growth.Stage(c, src, i).value.memory)
    {
      StageIsReached(c, src, k, i);
      EnabledInMemory(UsedChips(src), Growth.Stage(c, src, i).value.memory);
    }
  }

  // ----- hash chips -----

  /** Some constraint computes the given hash function. */
  predicate UsesHash(b: Gadgets.Builder, h: HashUse) {
    exists i :: 0 <= i < |b.constraints| && Growth.TraitOf(b.constraints[i].g) == Some(Growth.Hashes(h))
  }

  predicate AsksForHash(todo: seq<Instruction>, h: HashUse) {
    exists i :: 0 <= i < |todo| && HashOfInstruction(todo[i]) == Some(h)
  }

  lemma AddsUse(b: Gadgets.Builder, b': Gadgets.Builder, h: Option<Growth.Trait>, u: HashUse)
    requires Growth.Adds(b, b', h)
    ensures UsesHash(b', u) <==> UsesHash(b, u) || h == Some(Growth.Hashes(u))
  {
    if UsesHash(b, u) {
      var i :| 0 <= i < |b.constraints| && Growth.TraitOf(b.constraints[i].g) == Some(Growth.Hashes(u));
      assert b'.constraints[i] == b.constraints[i];
    }
    if UsesHash(b', u) {
      var i :| 0 <= i < |b'.constraints| && Growth.TraitOf(b'.constraints[i].g) == Some(Growth.Hashes(u));
      if i < |b.constraints| { assert b'.constraints[i] == b.constraints[i]; }
    }
  }

  lemma AsksCons(todo: seq<Instruction>, h: HashUse)
    requires todo != []
    ensures AsksForHash(todo, h) <==> HashOfInstruction(todo[0]) == Some(h) || AsksForHash(todo[1..], h)
  {
    if AsksForHash(todo[1..], h) {
      var i :| 0 <= i < |todo[1..]| && HashOfInstruction(todo[1..][i]) == Some(h);
      assert todo[i + 1] == todo[1..][i];
    }
    if AsksForHash(todo, h) && HashOfInstruction(todo[0]) != Some(h) {
      var i :| 0 <= i < |todo| && HashOfInstruction(todo[i]) == Some(h);
      assert todo[1..][i - 1] == todo[i];
    }
  }

  lemma {:induction false} RunUses(c: Params, src: IrSource, s: Circuit.Synthesis, todo: seq<Instruction>,
      h: HashUse)
    requires Circuit.SynthFrom(c, src, s, todo).Some?
    ensures UsesHash(Circuit.SynthFrom(c, src, s, todo).value.b, h) <==> UsesHash(s.b, h) || AsksForHash(todo, h)
    decreases |todo|
  {
    if todo == [] {
    } else {
      var s' := Circuit.SynthStep(c, src, s, todo[0]).value;
      Growth.StepGrows(c, src, s, todo[0]);
      AddsUse(s.b, s'.b, Growth.TraitOfInstruction(todo[0]), h);
      AsksCons(todo, h);
      RunUses(c, src, s', todo[1..], h);
    }
  }

  lemma CommitmentUses(c: Params, src: IrSource, s: Circuit.Synthesis, h: HashUse)
    requires |s.pis| >= 2
    ensures UsesHash(Circuit.SynthCommitment(c, src, s), h) <==> UsesHash(s.b, h) || h.Transient?
  {
    Growth.CommitmentGrows(c, src, s);
    var b1 := Gadgets.Emit(s.b, Gadgets.Assign(c.p), [], 1);
    Growth.EmitAdds(s.b, s.b, Gadgets.Assign(c.p), [], 1);
    AddsUse(s.b, b1, Some(Growth.Chosen), h);
    AddsUse(b1, Circuit.SynthCommitment(c, src, s), Some(Growth.Hashes(Transient)), h);
  }

  lemma InitUses(c: Params, src: IrSource, h: HashUse)
    requires Circuit.SynthInit(c, src).Some?
    ensures !UsesHash(Circuit.SynthInit(c, src).value.0.b, h)
  {
    Growth.InitGrows(c, src);
    AddsUse(Circuit.EMPTY, Circuit.SynthInit(c, src).value.0.b, Some(Growth.Chosen), h);
  }

  lemma ChipsAsked(src: IrSource, h: HashUse)
    ensures HashChip(UsedChips(src), h) <==>
            AsksForHash(src.instructions, h) || (src.doCommunicationsCommitment && h.Transient?)
  {
    var todo := src.instructions;
    if h.Transient? {
      assert HashesTransiently(src) <==> AsksForHash(todo, h) by {
        assert forall i :: 0 <= i < |todo| ==>
          (todo[i].TransientHash? <==> HashOfInstruction(todo[i]) == Some(h));
      }
    } else {
      assert HashesWith(src, h.kind) <==> AsksForHash(todo, h) by {
        assert forall i :: 0 <= i < |todo| ==>
          (todo[i].AlignedHash? && todo[i].kind == h.kind <==> HashOfInstruction(todo[i]) == Some(h));
      }
    }
  }

  /**
    Hash chips are exact: a hash chip is asked for if and only if the finished circuit holds a
    constraint that computes its function, be it for an instruction or for the commitment.
   */
  lemma HashChipsAreExact(c: Params, src: IrSource, k: Circuit.CircuitShape, h: HashUse)
    requires Circuit.SynthesizeEquipped(c, src) == Some(k)
    ensures HashChip(UsedChips(src), h) <==> UsesHash(k.b, h)
  {
    var s0 := Circuit.SynthInit(c, src).value.0;
    InitUses(c, src, h);
    RunUses(c, src, s0, src.instructions, h);
    ChipsAsked(src, h);
    if src.doCommunicationsCommitment {
      CommitmentUses(c, src, Circuit.SynthFrom(c, src, s0, src.instructions).value, h);
    }
  }

  // ----- the flags, type by type -----

  /** An input, or an instruction that reads a transcript or makes a value from bytes, declares the type. */
  predicate Declares(src: IrSource, t: IrType) {
    || (exists i :: 0 <= i < |src.inputs| && src.inputs[i].valT == t)
    || (exists i :: 0 <= i < |src.instructions|
          && (src.instructions[i].PublicInput? || src.instructions[i].PrivateInput?
              || src.instructions[i].FromBytes? || src.instructions[i].FromBytes32?)
          && src.instructions[i].valT == t)
  }

  lemma InvolvesDeclared(src: IrSource, curve: Curve, t: IrType)
    requires Declares(src, t) && Family(t) == Some(curve)
    ensures Involves(src, curve)
  {}

  lemma InvolvedIsDeclared(src: IrSource, curve: Curve) returns (t: IrType)
    requires Involves(src, curve)
    ensures Declares(src, t) && Family(t) == Some(curve)
  {
    if i :| 0 <= i < |src.inputs| && Family(src.inputs[i].valT) == Some(curve) {
      t := src.inputs[i].valT;
    } else {
      var i :| 0 <= i < |src.instructions| && IsEntry(src.instructions[i])
               && Family(src.instructions[i].valT) == Some(curve);
      t := src.instructions[i].valT;
    }
  }

  lemma CurveFlag(src: IrSource, curve: Curve, types: set<IrType>)
    requires forall t :: Family(t) == Some(curve) <==> t in types
    ensures Involves(src, curve) <==> exists t :: t in types && Declares(src, t)
  {
    if Involves(src, curve) { var t := InvolvedIsDeclared(src, curve); }
    if exists t :: t in types && Declares(src, t) {
      var t :| t in types && Declares(src, t);
      InvolvesDeclared(src, curve, t);
    }
  }

  lemma JubjubSelected(src: IrSource)
    ensures UsedChips(src).jubjub <==> Declares(src, IrType.Point(Jubjub)) || Declares(src, IrType.JubjubScalar)
  {
    CurveFlag(src, Jubjub, {IrType.Point(Jubjub), IrType.JubjubScalar});
  }

  lemma Secp256k1Selected(src: IrSource)
    ensures UsedChips(src).secp256k1 <==>
              || Declares(src, IrType.Point(Secp256k1))
              || Declares(src, IrType.Foreign(Secp256k1Base)) || Declares(src, IrType.Foreign(Secp256k1Scalar))
  {
    CurveFlag(src, Secp256k1,
              {IrType.Point(Secp256k1), IrType.Foreign(Secp256k1Base), IrType.Foreign(Secp256k1Scalar)});
  }

  lemma P256Selected(src: IrSource)
    ensures UsedChips(src).p256 <==>
              || Declares(src, IrType.Point(Secp256r1))
              || Declares(src, IrType.Foreign(Secp256r1Base)) || Declares(src, IrType.Foreign(Secp256r1Scalar))
  {
    CurveFlag(src, Secp256r1,
              {IrType.Point(Secp256r1), IrType.Foreign(Secp256r1Base), IrType.Foreign(Secp256r1Scalar)});
  }

  lemma Curve25519Selected(src: IrSource)
    ensures UsedChips(src).curve25519 <==>
              || Declares(src, IrType.Point(Curve25519))
              || Declares(src, IrType.Foreign(Curve25519Base)) || Declares(src, IrType.Foreign(Curve25519Scalar))
  {
    CurveFlag(src, Curve25519,
              {IrType.Point(Curve25519), IrType.Foreign(Curve25519Base), IrType.Foreign(Curve25519Scalar)});
  }

  /** Each hash chip is selected exactly when an instruction, or the commitment, hashes with it. */
  lemma HashesSelected(src: IrSource)
    ensures var todo := src.instructions;
            && (UsedChips(src).poseidon <==>
                  src.doCommunicationsCommitment || exists i :: 0 <= i < |todo| && todo[i].TransientHash?)
            && (UsedChips(src).sha256 <==>
                  exists i :: 0 <= i < |todo| && todo[i].AlignedHash? && todo[i].kind == Sha256)
            && (UsedChips(src).sha512 <==>
                  exists i :: 0 <= i < |todo| && todo[i].AlignedHash? && todo[i].kind == Sha512)
            && (UsedChips(src).keccak256 <==>
                  exists i :: 0 <= i < |todo| && todo[i].AlignedHash? && todo[i].kind == Keccak256)
  {}

  /** What a type and a hash function ask for. */
  lemma ChipsNeeded(arch: Arch)
    ensures Enabled(arch, IrType.Native) && Enabled(arch, IrType.Bool) && Enabled(arch, IrType.Byte)
    ensures forall n :: Enabled(arch, IrType.Bytes(n))
    ensures Enabled(arch, IrType.JubjubScalar) <==> arch.jubjub
    ensures Enabled(arch, IrType.Foreign(Secp256k1Base)) <==> arch.secp256k1
    ensures Enabled(arch, IrType.Foreign(Secp256k1Scalar)) <==> arch.secp256k1
    ensures Enabled(arch, IrType.Foreign(Secp256r1Base)) <==> arch.p256
    ensures Enabled(arch, IrType.Foreign(Secp256r1Scalar)) <==> arch.p256
    ensures Enabled(arch, IrType.Foreign(Curve25519Base)) <==> arch.curve25519
    ensures Enabled(arch, IrType.Foreign(Curve25519Scalar)) <==> arch.curve25519
    ensures HashChip(arch, Transient) <==> arch.poseidon
    ensures HashChip(arch, Aligned(Sha256)) <==> arch.sha256
    ensures HashChip(arch, Aligned(Sha512)) <==> arch.sha512
    ensures HashChip(arch, Aligned(Keccak256)) <==> arch.keccak256
  {}

  // ----- what has a circuit -----

  /** Every value that synthesis holds has the chip of its type. */
  predicate Equipped(arch: Arch, s: Circuit.Synthesis) {
    MemoryEnabled(arch, s.memory) && Circuit.ValuesEnabled(arch, s.outputs)
  }

  lemma InstructionsSupplied(src: IrSource)
    ensures Covered(src) <==> forall i :: 0 <= i < |src.instructions| ==> Supplied(UsedChips(src), src.instructions[i])
  {
    forall i | 0 <= i < |src.instructions| && HashOfInstruction(src.instructions[i]).Some?
      ensures HashChip(UsedChips(src), HashOfInstruction(src.instructions[i]).value)
    {
      ChipsAsked(src, HashOfInstruction(src.instructions[i]).value);
    }
  }

  lemma OutputEquips(arch: Arch, src: IrSource, s: Circuit.Synthesis, vals: seq<Operand>)
    requires Equipped(arch, s) && Circuit.SynthOutput(src, s, vals).Some?
    ensures Equipped(arch, Circuit.SynthOutput(src, s, vals).value)
  {
    var env, vs := SynthesisTyping.EnvOf(s.memory), Circuit.ResolveAllWires(s.b, s.memory, vals).value.1;
    EnabledInMemory(arch, s.memory);
    SynthesisTyping.ResolveAllTyped(s.b, s.memory, vals);
    OperandsKeep(t => Enabled(arch, t), env, vals);
    forall i | 0 <= i < |vs|
      ensures Enabled(arch, Circuit.CircuitTypeOf(vs[i]))
    {
      assert Circuit.CircuitTypesOf(vs)[i] == TypeOperands(env, vals).value[i];
    }
  }

  lemma CheckEquips(arch: Arch, c: Params, src: IrSource, s: Static, ins: Instruction)
    requires Supplied(arch, ins) && EnvEnabled(arch, s.env) && CheckStep(c, src, s, ins).Some?
    ensures EnvEnabled(arch, CheckStep(c, src, s, ins).value.env)
  {
    KeepsEnabled(c, arch, ins);
    StepKeepsScope(c, src, t => Enabled(arch, t), s, ins);
  }

  lemma MemoryEquips(arch: Arch, c: Params, src: IrSource, s: Circuit.Synthesis, ins: Instruction)
    requires c.Sizes() && (ins.LoadConstant? ==> c.FieldElements(ins.encoding))
    requires Supplied(arch, ins) && MemoryEnabled(arch, s.memory) && Circuit.SynthStep(c, src, s, ins).Some?
    ensures MemoryEnabled(arch, Circuit.SynthStep(c, src, s, ins).value.memory)
  {
    EnabledInMemory(arch, s.memory);
    SynthesisTyping.StepTyped(c, src, s, ins);
    CheckEquips(arch, c, src, SynthesisTyping.StaticOf(s), ins);
    EnabledInMemory(arch, Circuit.SynthStep(c, src, s, ins).value.memory);
  }

  lemma OthersOutputNothing(c: Params, src: IrSource, s: Circuit.Synthesis, ins: Instruction)
    requires !ins.Output? && Circuit.SynthStep(c, src, s, ins).Some?
    ensures Circuit.SynthStep(c, src, s, ins).value.outputs == s.outputs
  {
    if ins.Impact? { ImpactOutputsNothing(s, ins.guard, ins.inputs); }
    else if ins.Computes() { ComputeOutputsNothing(c, s, ins); }
  }

  lemma ImpactOutputsNothing(s: Circuit.Synthesis, guard: Operand, inputs: seq<Operand>)
    requires Circuit.SynthImpact(s, guard, inputs).Some?
    ensures Circuit.SynthImpact(s, guard, inputs).value.outputs == s.outputs
  {}

  lemma ComputeOutputsNothing(c: Params, s: Circuit.Synthesis, ins: Instruction)
    requires ins.Computes() && Circuit.SynthCompute(c, s, ins).Some?
    ensures Circuit.SynthCompute(c, s, ins).value.outputs == s.outputs
  {}

  /** A step that is supplied finds the chips it calls, and leaves only values with their chips behind. */
  lemma StepEquips(arch: Arch, c: Params, src: IrSource, s: Circuit.Synthesis, ins: Instruction)
    requires c.Sizes() && (ins.LoadConstant? ==> c.FieldElements(ins.encoding))
    requires Supplied(arch, ins) && Equipped(arch, s) && Circuit.SynthStep(c, src, s, ins).Some?
    ensures Circuit.StepEnabled(arch, s.memory, ins) && Equipped(arch, Circuit.SynthStep(c, src, s, ins).value)
  {
    if ins.Output? {
      OutputEquips(arch, src, s, ins.vals);
    } else {
      MemoryEquips(arch, c, src, s, ins);
      OthersOutputNothing(c, src, s, ins);
    }
  }

  lemma {:induction false} RunEquips(arch: Arch, c: Params, src: IrSource, s: Circuit.Synthesis, todo: seq<Instruction>)
    requires c.Sizes() && SynthesisTyping.TypedConstants(c, todo)
    requires forall i :: 0 <= i < |todo| ==> Supplied(arch, todo[i])
    requires Equipped(arch, s) && Circuit.SynthFrom(c, src, s, todo).Some?
    ensures Circuit.GuardedFrom(arch, c, src, s, todo) == Circuit.SynthFrom(c, src, s, todo)
    ensures Equipped(arch, Circuit.SynthFrom(c, src, s, todo).value)
    decreases |todo|
  {
    if todo == [] {
    } else {
      StepEquips(arch, c, src, s, todo[0]);
      RunEquips(arch, c, src, Circuit.SynthStep(c, src, s, todo[0]).value, todo[1..]);
    }
  }

  lemma {:induction false} RunStops(arch: Arch, c: Params, src: IrSource, s: Circuit.Synthesis, todo: seq<Instruction>)
    requires exists i :: 0 <= i < |todo| && !Supplied(arch, todo[i])
    ensures Circuit.GuardedFrom(arch, c, src, s, todo) == None
    decreases |todo|
  {
    if !Supplied(arch, todo[0]) {
    } else {
      var i :| 0 <= i < |todo| && !Supplied(arch, todo[i]);
      assert todo[1..][i - 1] == todo[i];
      var r := Circuit.SynthStep(c, src, s, todo[0]);
      if r.Some? { RunStops(arch, c, src, r.value, todo[1..]); }
    }
  }

  lemma InitEquips(c: Params, src: IrSource)
    requires Circuit.SynthInit(c, src).Some?
    ensures Circuit.InputsEnabled(UsedChips(src), src)
    ensures Equipped(UsedChips(src), Circuit.SynthInit(c, src).value.0)
  {
    var p := (t: IrType) => Enabled(UsedChips(src), t);
    SynthesisTyping.InitTyped(c, src);
    BindKeepsScope(p, map[], InputNames(src.inputs), InputTypes(src.inputs));
    EnabledInMemory(UsedChips(src), Circuit.SynthInit(c, src).value.0.memory);
  }

  lemma {:induction false} InputValuesEnabled(arch: Arch, memory: Circuit.CircuitMemory, names: seq<Identifier>)
    requires MemoryEnabled(arch, memory)
    ensures Circuit.ValuesEnabled(arch, Circuit.InputValues(memory, names))
  {
    if names == [] {
    } else {
      InputValuesEnabled(arch, memory, names[1..]);
    }
  }

  lemma CommitmentSupplied(src: IrSource, s: Circuit.Synthesis)
    requires Equipped(UsedChips(src), s)
    ensures Circuit.CommitmentEnabled(UsedChips(src), src, s)
  {
    InputValuesEnabled(UsedChips(src), s.memory, InputNames(src.inputs));
  }

  /** With the chips selected for it a covered source has the circuit it has with all, and any other has none. */
  lemma CircuitIffCovered(c: Params, src: IrSource)
    requires c.Sizes() && SynthesisTyping.TypedConstants(c, src.instructions)
    ensures Circuit.Synthesize(c, src) == if Covered(src) then Circuit.SynthesizeEquipped(c, src) else None
  {
    var arch, r := UsedChips(src), Circuit.SynthInit(c, src);
    InstructionsSupplied(src);
    if r.Some? {
      InitEquips(c, src);
      if !Covered(src) {
        RunStops(arch, c, src, r.value.0, src.instructions);
      } else {
        var s := Circuit.SynthFrom(c, src, r.value.0, src.instructions);
        if s.Some? {
          RunEquips(arch, c, src, r.value.0, src.instructions);
          CommitmentSupplied(src, s.value);
        } else if Circuit.GuardedFrom(arch, c, src, r.value.0, src.instructions).Some? {
          Circuit.GuardsOnlyRefuse(arch, c, src, r.value.0, src.instructions);
        }
      }
    }
  }

  /**
    A source has a circuit exactly when it passes the static check and is covered by the chips
    selected for it, and then at the memory types, public-input count and output types of the check.
   */
  lemma SynthesisIffChecked(c: Params, src: IrSource)
    requires c.Sizes() && SynthesisTyping.TypedConstants(c, src.instructions)
    ensures match Circuit.Synthesize(c, src)
            case None => Check(c, src) == None || !Covered(src)
            case Some(k) =>
              && Covered(src)
              && Check(c, src) ==
                 Some(Static(SynthesisTyping.EnvOf(k.memory), |k.pis|, Circuit.CircuitTypesOf(k.outputs)))
  {
    CircuitIffCovered(c, src);
    SynthesisTyping.EquippedIffChecked(c, src);
  }

  // ----- constants are not scanned -----

  /** A source that does nothing but load one constant. */
  function LoneConstant(c: Params, v: IrValue): IrSource {
    IrSource([], [], false, [LoadConstant(TypeOf(v), Encoding.Encode(c, v), "%x")])
  }

  lemma LoneConstantChecks(c: Params, v: IrValue)
    requires c.Sizes() && ValidValue(c, v)
    ensures Check(c, LoneConstant(c, v)).Some?
  {
    var src := LoneConstant(c, v);
    var s0, ins := CheckInit(src).value, src.instructions[0];
    Encoding.DecodeOfEncode(c, v);
    assert OpType(c, ins, []) == Some([TypeOf(v)]);
    var s1 := CheckStep(c, src, s0, ins).value;
    assert src.instructions[1..] == [] && CheckFrom(c, src, s1, []) == Some(s1);
    assert CheckFrom(c, src, s0, src.instructions) == CheckFrom(c, src, s1, src.instructions[1..]);
  }

  /**
    A foreign or Jubjub constant alone passes the check, yet its chip is not asked for, and so
    the source has no circuit.
   */
  lemma ConstantsAreNotScanned(c: Params, v: IrValue)
    requires c.Sizes() && ValidValue(c, v) && Family(TypeOf(v)).Some?
    ensures Check(c, LoneConstant(c, v)).Some? && !Covered(LoneConstant(c, v))
    ensures !UsedChips(LoneConstant(c, v)).Curve(Family(TypeOf(v)).value)
    ensures Circuit.Synthesize(c, LoneConstant(c, v)) == None
  {
    LoneConstantChecks(c, v);
    assert Introduced(LoneConstant(c, v).instructions[0]) == Some(TypeOf(v));
    Encoding.EncodeShape(c, v);
    CircuitIffCovered(c, LoneConstant(c, v));
  }
}
