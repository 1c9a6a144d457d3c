/** Synthesis succeeds exactly on the sources that pass the static check, at the same types. */
module SynthesisTyping {
  import opened Options
  import opened Digits
  import opened Types
  import opened Instructions
  import opened Gadgets
  import opened Circuit
  import opened Typing
  import Encoding
  import Operations
  import Preprocess

  // ----- lists of one type -----

  lemma TypesTail(vs: seq<CircuitValue>)
    requires vs != []
    ensures CircuitTypesOf(vs)[0] == CircuitTypeOf(vs[0]) && CircuitTypesOf(vs)[1..] == CircuitTypesOf(vs[1..])
  {}

  lemma AllAreTail(t: IrType, ts: seq<IrType>)
    requires ts != []
    ensures AllAre(t, ts) <==> ts[0] == t && AllAre(t, ts[1..])
  {
    if ts[0] == t && AllAre(t, ts[1..]) {
      assert forall i :: 1 <= i < |ts| ==> ts[i] == ts[1..][i - 1];
    }
  }

  lemma {:induction false} AllNativeTyped(vs: seq<CircuitValue>)
    ensures AllNative(vs).Some? <==> AllAre(IrType.Native, CircuitTypesOf(vs))
    ensures AllNative(vs).Some? ==> |AllNative(vs).value| == |vs|
  {
    if vs == [] {
    } else {
      TypesTail(vs);
      AllAreTail(IrType.Native, CircuitTypesOf(vs));
      AllNativeTyped(vs[1..]);
    }
  }

  lemma {:induction false} BoolsTyped(vs: seq<CircuitValue>)
    ensures Bools(vs).Some? <==> AllAre(IrType.Bool, CircuitTypesOf(vs))
  {
    if vs == [] {
    } else {
      TypesTail(vs);
      AllAreTail(IrType.Bool, CircuitTypesOf(vs));
      BoolsTyped(vs[1..]);
    }
  }

  lemma {:induction false} ConcatTyped(vs: seq<CircuitValue>)
    ensures ConcatWires(vs).Some? <==> ConcatLen(CircuitTypesOf(vs)).Some?
    ensures ConcatWires(vs).Some? ==> |ConcatWires(vs).value| == ConcatLen(CircuitTypesOf(vs)).value
  {
    if vs == [] {
    } else {
      TypesTail(vs);
      ConcatTyped(vs[1..]);
    }
  }

  lemma NativesTyped(ws: seq<Wire>)
    ensures CircuitTypesOf(Natives(ws)) == Repeat(IrType.Native, |ws|)
  {}

  lemma FewTyped(vs: seq<CircuitValue>)
    ensures |vs| == 0 ==> CircuitTypesOf(vs) == []
    ensures |vs| == 1 ==> CircuitTypesOf(vs) == [CircuitTypeOf(vs[0])]
    ensures |vs| == 2 ==> CircuitTypesOf(vs) == [CircuitTypeOf(vs[0]), CircuitTypeOf(vs[1])]
  {}

  // ----- how many cells the walks produce -----

  lemma {:induction false} PackLen(c: Params, b: Builder, ws: seq<Wire>)
    ensures |PackWires(c, b, ws).1| == CeilDiv(|ws|, c.limbBytes)
    decreases |ws|
  {
    Encoding.CeilDivStep(|ws|, c.limbBytes);
    if ws == [] {
    } else {
      var len := Encoding.Min(|ws|, c.limbBytes);
      PackLen(c, PackChunk(c, b, ws[..len]).0, ws[len..]);
      Encoding.CeilDivStep(0, c.limbBytes);
    }
  }

  lemma EncodeLen(c: Params, b: Builder, v: CircuitValue)
    ensures |EncodeWires(c, b, v).1| == EncodedLen(c, CircuitTypeOf(v))
  {
    if v.Bytes? { PackLen(c, b, v.ws); }
  }

  lemma {:induction false} UnpackLen(c: Params, b: Builder, limbs: seq<Wire>, n: nat)
    requires |limbs| == CeilDiv(n, c.limbBytes)
    ensures |UnpackWires(c, b, limbs, n).1| == n
    decreases |limbs|
  {
    Encoding.CeilDivStep(n, c.limbBytes);
    if limbs == [] {
    } else {
      var len := Encoding.Min(n, c.limbBytes);
      Encoding.CeilDivStep(0, c.limbBytes);
      UnpackLen(c, Emit(b, Decompose(256, len), [limbs[0]], len), limbs[1..], n - len);
    }
  }

  lemma AtomTyped(c: Params, b: Builder, atom: Atom, inputs: seq<Wire>)
    ensures DecodeAtom(c, b, atom, inputs).Some? <==> AtomUses(c, atom).Some? && AtomUses(c, atom).value <= |inputs|
    ensures DecodeAtom(c, b, atom, inputs).Some? ==>
              |DecodeAtom(c, b, atom, inputs).value.2| == |inputs| - AtomUses(c, atom).value
  {
    if atom.BytesAtom? {
      Encoding.CeilDivOf(atom.length, c.limbBytes, atom.length / c.limbBytes, atom.length % c.limbBytes);
    }
  }

  lemma {:induction false} AlignedTyped(c: Params, b: Builder, alignment: Alignment, inputs: seq<Wire>)
    ensures DecodeAligned(c, b, alignment, inputs).Some? <==> AlignedFits(c, alignment, |inputs|)
    decreases |alignment|
  {
    if alignment == [] {
    } else if alignment[0].AtomSegment? {
      AtomTyped(c, b, alignment[0].atom, inputs);
      var r := DecodeAtom(c, b, alignment[0].atom, inputs);
      if r.Some? {
        AlignedTyped(c, r.value.0, alignment[1..], r.value.2);
      }
    }
  }

  // ----- one computing instruction -----

  /** Synthesis of an instruction succeeds exactly at the types that the check accepts. */
  ghost predicate Agrees(c: Params, ins: Instruction, b: Builder, vs: seq<CircuitValue>)
    requires ins.Computes() && |vs| == |ins.Args()|
  {
    match SynthOp(c, ins, b, vs)
    case None => OpType(c, ins, CircuitTypesOf(vs)) == None
    case Some(r) => OpType(c, ins, CircuitTypesOf(vs)) == Some(CircuitTypesOf(r.1))
  }

  predicate Checks(ins: Instruction) {
    || ins.Assert? || ins.ConstrainBits? || ins.ConstrainEq? || ins.ConstrainToBoolean?
    || ins.TestEq? || ins.LessThan? || ins.Not?
  }

  predicate Arithmetic(ins: Instruction) {
    ins.Add? || ins.Mul? || ins.Neg? || ins.Inv? || ins.CondSelect? || ins.Copy?
  }

  lemma ResultsTyped(c: Params, ins: Instruction, b: Builder, vs: seq<CircuitValue>)
    requires ins.Computes() && |vs| == |ins.Args()|
    ensures SynthOp(c, ins, b, vs).Some? ==>
              var rs := SynthOp(c, ins, b, vs).value.1;
              && (|rs| == 0 ==> CircuitTypesOf(rs) == [])
              && (|rs| == 1 ==> CircuitTypesOf(rs) == [CircuitTypeOf(rs[0])])
              && (|rs| == 2 ==> CircuitTypesOf(rs) == [CircuitTypeOf(rs[0]), CircuitTypeOf(rs[1])])
  {
    if SynthOp(c, ins, b, vs).Some? { FewTyped(SynthOp(c, ins, b, vs).value.1); }
  }

  lemma ChecksTyped(c: Params, ins: Instruction, b: Builder, vs: seq<CircuitValue>)
    requires ins.Computes() && |vs| == |ins.Args()| && Checks(ins)
    ensures Agrees(c, ins, b, vs)
  {
    ResultsTyped(c, ins, b, vs);
  }

  lemma ArithmeticTyped(c: Params, ins: Instruction, b: Builder, vs: seq<CircuitValue>)
    requires ins.Computes() && |vs| == |ins.Args()| && Arithmetic(ins)
    ensures Agrees(c, ins, b, vs)
  {
    ResultsTyped(c, ins, b, vs);
  }

  lemma GatesTyped(c: Params, ins: Instruction, b: Builder, vs: seq<CircuitValue>)
    requires ins.Computes() && |vs| == |ins.Args()| && (ins.And? || ins.Or? || ins.Xor?)
    ensures Agrees(c, ins, b, vs)
  {
    ResultsTyped(c, ins, b, vs);
    BoolsTyped(vs);
    assert vs == [] <==> CircuitTypesOf(vs) == [];
  }

  lemma BitsTyped(c: Params, ins: Instruction, b: Builder, vs: seq<CircuitValue>)
    requires ins.Computes() && |vs| == |ins.Args()| && (ins.DivModPowerOfTwo? || ins.ReconstituteField?)
    ensures Agrees(c, ins, b, vs)
  {
    ResultsTyped(c, ins, b, vs);
  }

  lemma HashesTyped(c: Params, ins: Instruction, b: Builder, vs: seq<CircuitValue>)
    requires ins.Computes() && |vs| == |ins.Args()| && (ins.TransientHash? || ins.AlignedHash?)
    ensures Agrees(c, ins, b, vs)
  {
    ResultsTyped(c, ins, b, vs);
    AllNativeTyped(vs);
    if ins.AlignedHash? && AllNative(vs).Some? { AlignedTyped(c, b, ins.alignment, AllNative(vs).value); }
  }

  lemma PackingTyped(c: Params, ins: Instruction, b: Builder, vs: seq<CircuitValue>)
    requires ins.Computes() && |vs| == |ins.Args()| && (ins.Encode? || ins.BytesIntoNatives?)
    ensures Agrees(c, ins, b, vs)
  {
    EncodeLen(c, b, vs[0]);
    NativesTyped(EncodeWires(c, b, vs[0]).1);
  }

  lemma UnpackingTyped(c: Params, ins: Instruction, b: Builder, vs: seq<CircuitValue>)
    requires ins.Computes() && |vs| == |ins.Args()| && ins.BytesFromNatives?
    ensures Agrees(c, ins, b, vs)
  {
    ResultsTyped(c, ins, b, vs);
    AllNativeTyped(vs);
    if Operations.NbLimbs(c, ins.len, |vs|).Some? && AllNative(vs).Some? {
      UnpackLen(c, b, AllNative(vs).value, ins.len);
    }
  }

  lemma ConversionsTyped(c: Params, ins: Instruction, b: Builder, vs: seq<CircuitValue>)
    requires ins.Computes() && |vs| == |ins.Args()|
    requires ins.ToBytes? || ins.IntoBytes32? || ins.FromBytes? || ins.FromBytes32? || ins.JubjubScalarFromNative?
    ensures Agrees(c, ins, b, vs)
  {
    ResultsTyped(c, ins, b, vs);
  }

  lemma LowHighTyped(c: Params, ins: Instruction, b: Builder, vs: seq<CircuitValue>)
    requires ins.Computes() && |vs| == |ins.Args()| && (ins.Bytes32IntoLowHigh? || ins.Bytes32FromLowHigh?)
    ensures Agrees(c, ins, b, vs)
  {
    ResultsTyped(c, ins, b, vs);
  }

  lemma StringsTyped(c: Params, ins: Instruction, b: Builder, vs: seq<CircuitValue>)
    requires ins.Computes() && |vs| == |ins.Args()| && (ins.Reverse? || ins.Slice? || ins.Nth? || ins.Concat?)
    ensures Agrees(c, ins, b, vs)
  {
    ResultsTyped(c, ins, b, vs);
    ConcatTyped(vs);
  }

  lemma ConstantTyped(c: Params, ins: Instruction, b: Builder, vs: seq<CircuitValue>)
    requires c.Sizes() && ins.LoadConstant? && |vs| == |ins.Args()| && c.FieldElements(ins.encoding)
    ensures Agrees(c, ins, b, vs)
  {
    ResultsTyped(c, ins, b, vs);
    var v := Encoding.Decode(c, ins.valT, ins.encoding);
    if v.Some? {
      Encoding.DecodeIsExactInverse(c, ins.valT, ins.encoding, v.value);
    }
  }

  lemma OpTyped(c: Params, ins: Instruction, b: Builder, vs: seq<CircuitValue>)
    requires c.Sizes() && ins.Computes() && |vs| == |ins.Args()|
    requires ins.LoadConstant? ==> c.FieldElements(ins.encoding)
    ensures Agrees(c, ins, b, vs)
  {
    if Checks(ins) { ChecksTyped(c, ins, b, vs); }
    else if Arithmetic(ins) { ArithmeticTyped(c, ins, b, vs); }
    else if ins.And? || ins.Or? || ins.Xor? { GatesTyped(c, ins, b, vs); }
    else if ins.DivModPowerOfTwo? || ins.ReconstituteField? { BitsTyped(c, ins, b, vs); }
    else if ins.TransientHash? || ins.AlignedHash? { HashesTyped(c, ins, b, vs); }
    else if ins.Encode? || ins.BytesIntoNatives? { PackingTyped(c, ins, b, vs); }
    else if ins.BytesFromNatives? { UnpackingTyped(c, ins, b, vs); }
    else if ins.Bytes32IntoLowHigh? || ins.Bytes32FromLowHigh? { LowHighTyped(c, ins, b, vs); }
    else if ins.Reverse? || ins.Slice? || ins.Nth? || ins.Concat? { StringsTyped(c, ins, b, vs); }
    else if ins.LoadConstant? { ConstantTyped(c, ins, b, vs); }
    else { ConversionsTyped(c, ins, b, vs); }
  }

  // ----- the whole source -----

  function EnvOf(memory: CircuitMemory): Env {
    map id | id in memory :: CircuitTypeOf(memory[id])
  }

  /** The types that a stage of synthesis is at. */
  function StaticOf(s: Synthesis): Static {
    Static(EnvOf(s.memory), |s.pis|, CircuitTypesOf(s.outputs))
  }

  lemma {:induction false} ResolveAllTyped(b: Builder, memory: CircuitMemory, operands: seq<Operand>)
    ensures match ResolveAllWires(b, memory, operands)
            case None => TypeOperands(EnvOf(memory), operands) == None
            case Some(r) => TypeOperands(EnvOf(memory), operands) == Some(CircuitTypesOf(r.1))
    decreases |operands|
  {
    if operands == [] {
      FewTyped([]);
    } else {
      var r := ResolveWires(b, memory, operands[0]);
      if r.Some? {
        ResolveAllTyped(r.value.0, memory, operands[1..]);
        if ResolveAllWires(b, memory, operands).Some? {
          var vs := ResolveAllWires(b, memory, operands).value.1;
          assert vs[1..] == ResolveAllWires(r.value.0, memory, operands[1..]).value.1;
          assert CircuitTypesOf(vs) == [CircuitTypeOf(vs[0])] + CircuitTypesOf(vs[1..]);
        }
      }
    }
  }

  lemma {:induction false} BindTyped(memory: CircuitMemory, ids: seq<Identifier>, vs: seq<CircuitValue>)
    requires |ids| == |vs|
    ensures EnvOf(Preprocess.Bind(memory, ids, vs)) == Preprocess.Bind(EnvOf(memory), ids, CircuitTypesOf(vs))
    decreases |ids|
  {
    if ids == [] {
    } else {
      TypesTail(vs);
      var next := memory[ids[0] := vs[0]];
      assert EnvOf(next) == EnvOf(memory)[ids[0] := CircuitTypeOf(vs[0])];
      BindTyped(next, ids[1..], vs[1..]);
    }
  }

  lemma {:induction false} PushTyped(b: Builder, memory: CircuitMemory, guard: Wire, zero: Wire, inputs: seq<Operand>)
    ensures var r, ts := PushGuarded(b, memory, guard, zero, inputs), TypeOperands(EnvOf(memory), inputs);
            && (r.Some? <==> ts.Some? && AllAre(IrType.Native, ts.value))
            && (r.Some? ==> |r.value.1| == |inputs|)
    decreases |inputs|
  {
    if inputs == [] {
    } else {
      var r := ResolveWires(b, memory, inputs[0]);
      if r.Some? && r.value.1.Native? {
        PushTyped(Emit(r.value.0, Select, [guard, r.value.1.w, zero], 1), memory, guard, zero, inputs[1..]);
      }
      var ts := TypeOperands(EnvOf(memory), inputs);
      if ts.Some? { AllAreTail(IrType.Native, ts.value); }
    }
  }

  /** A step of synthesis and a step of the check succeed together. */
  ghost predicate StepAgrees(c: Params, src: IrSource, s: Synthesis, ins: Instruction) {
    match SynthStep(c, src, s, ins)
    case None => CheckStep(c, src, StaticOf(s), ins) == None
    case Some(s') => CheckStep(c, src, StaticOf(s), ins) == Some(StaticOf(s'))
  }

  lemma ImpactTyped(s: Synthesis, guard: Operand, inputs: seq<Operand>)
    ensures match SynthImpact(s, guard, inputs)
            case None => CheckImpact(StaticOf(s), guard, inputs) == None
            case Some(s') => CheckImpact(StaticOf(s), guard, inputs) == Some(StaticOf(s'))
  {
    var b1 := Emit(s.b, Fixed([0]), [], 1);
    var g := ResolveWires(b1, s.memory, guard);
    if g.Some? && g.value.1.Native? {
      PushTyped(Emit(g.value.0, InRange(2), [g.value.1.w], 0), s.memory, g.value.1.w, s.b.next, inputs);
    }
  }

  lemma ReadTyped(c: Params, s: Synthesis, ins: Instruction)
    requires ins.PublicInput? || ins.PrivateInput?
    ensures match SynthRead(c, s, ins)
            case None => CheckRead(StaticOf(s), ins) == None
            case Some(s') => CheckRead(StaticOf(s), ins) == Some(StaticOf(s'))
  {
    var r := SynthRead(c, s, ins);
    if r.Some? {
      assert EnvOf(r.value.memory) == EnvOf(s.memory)[ins.output := ins.valT];
    }
  }

  lemma OutputTyped(src: IrSource, s: Synthesis, vals: seq<Operand>)
    ensures match SynthOutput(src, s, vals)
            case None => CheckOutput(src, StaticOf(s), vals) == None
            case Some(s') => CheckOutput(src, StaticOf(s), vals) == Some(StaticOf(s'))
  {
    ResolveAllTyped(s.b, s.memory, vals);
    var r := ResolveAllWires(s.b, s.memory, vals);
    if r.Some? {
      assert CircuitTypesOf(s.outputs + r.value.1) == CircuitTypesOf(s.outputs) + CircuitTypesOf(r.value.1);
    }
  }

  lemma ComputeTyped(c: Params, s: Synthesis, ins: Instruction)
    requires c.Sizes() && ins.Computes() && (ins.LoadConstant? ==> c.FieldElements(ins.encoding))
    ensures match SynthCompute(c, s, ins)
            case None => CheckCompute(c, StaticOf(s), ins) == None
            case Some(s') => CheckCompute(c, StaticOf(s), ins) == Some(StaticOf(s'))
  {
    ResolveAllTyped(s.b, s.memory, ins.Args());
    var r := ResolveAllWires(s.b, s.memory, ins.Args());
    if r.Some? {
      OpTyped(c, ins, r.value.0, r.value.1);
      var o := SynthOp(c, ins, r.value.0, r.value.1);
      if o.Some? && |o.value.1| == |ins.Outs()| { BindTyped(s.memory, ins.Outs(), o.value.1); }
    }
  }

  lemma StepTyped(c: Params, src: IrSource, s: Synthesis, ins: Instruction)
    requires c.Sizes() && (ins.LoadConstant? ==> c.FieldElements(ins.encoding))
    ensures StepAgrees(c, src, s, ins)
  {
    if ins.Impact? { ImpactTyped(s, ins.guard, ins.inputs); }
    else if ins.PublicInput? || ins.PrivateInput? { ReadTyped(c, s, ins); }
    else if ins.Output? { OutputTyped(src, s, ins.vals); }
    else { ComputeTyped(c, s, ins); }
  }

  /** The constants of a source are field elements. */
  predicate TypedConstants(c: Params, todo: seq<Instruction>) {
    forall i :: 0 <= i < |todo| ==> todo[i].LoadConstant? ==> c.FieldElements(todo[i].encoding)
  }

  lemma {:induction false} RunTyped(c: Params, src: IrSource, s: Synthesis, todo: seq<Instruction>)
    requires c.Sizes() && TypedConstants(c, todo)
    ensures match SynthFrom(c, src, s, todo)
            case None => CheckFrom(c, src, StaticOf(s), todo) == None
            case Some(s') => CheckFrom(c, src, StaticOf(s), todo) == Some(StaticOf(s'))
    decreases |todo|
  {
    if todo == [] {
    } else {
      StepTyped(c, src, s, todo[0]);
      var r := SynthStep(c, src, s, todo[0]);
      if r.Some? { RunTyped(c, src, r.value, todo[1..]); }
    }
  }

  lemma {:induction false} InputsTyped(c: Params, b: Builder, inputs: seq<TypedIdentifier>)
    ensures AssignInputs(c, b, inputs).Some? <==> forall i :: 0 <= i < |inputs| ==> !inputs[i].valT.Point?
    ensures AssignInputs(c, b, inputs).Some? ==>
              CircuitTypesOf(AssignInputs(c, b, inputs).value.1) == InputTypes(inputs)
    decreases |inputs|
  {
    if inputs == [] {
    } else {
      var r := AssignValue(c, b, inputs[0].valT);
      if r.Some? {
        InputsTyped(c, r.value.0, inputs[1..]);
        var rs := AssignInputs(c, b, inputs);
        if rs.Some? {
          TypesTail(rs.value.1);
          assert InputTypes(inputs) == [inputs[0].valT] + InputTypes(inputs[1..]);
        } else {
          assert exists i :: 0 <= i < |inputs[1..]| && inputs[1..][i].valT.Point?;
        }
      }
    }
  }

  lemma InitTyped(c: Params, src: IrSource)
    ensures match SynthInit(c, src)
            case None => CheckInit(src) == None
            case Some(r) => CheckInit(src) == Some(StaticOf(r.0))
  {
    InputsTyped(c, EMPTY, src.inputs);
    var r := AssignInputs(c, EMPTY, src.inputs);
    if r.Some? {
      assert |CircuitTypesOf(r.value.1)| == |src.inputs|;
      BindTyped(map[], InputNames(src.inputs), r.value.1);
      assert EnvOf(map[]) == map[];
      FewTyped([]);
    }
  }

  lemma {:induction false} PisGrow(c: Params, src: IrSource, s: Static, todo: seq<Instruction>)
    ensures CheckFrom(c, src, s, todo).Some? ==> s.pis <= CheckFrom(c, src, s, todo).value.pis
    decreases |todo|
  {
    if todo == [] {
    } else {
      var r := CheckStep(c, src, s, todo[0]);
      if r.Some? { PisGrow(c, src, r.value, todo[1..]); }
    }
  }

  /**
    A circuit exists exactly for the sources that pass the static check, and then its
    memory, its public inputs and its outputs are at the types that the check computed.
   */
  lemma EquippedIffChecked(c: Params, src: IrSource)
    requires c.Sizes() && TypedConstants(c, src.instructions)
    ensures match SynthesizeEquipped(c, src)
            case None => Check(c, src) == None
            case Some(k) => Check(c, src) == Some(Static(EnvOf(k.memory), |k.pis|, CircuitTypesOf(k.outputs)))
  {
    InitTyped(c, src);
    var r := SynthInit(c, src);
    if r.Some? {
      RunTyped(c, src, r.value.0, src.instructions);
      PisGrow(c, src, StaticOf(r.value.0), src.instructions);
    }
  }
}
