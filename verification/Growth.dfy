/** Synthesis only ever adds cells and constraints, so satisfying the end satisfies every stage. */
module Growth {
  import opened Options
  import opened Types
  import opened Instructions
  import opened Gadgets
  import opened ChipSelection
  import opened Circuit
  import Encoding

  predicate Grows(b: Builder, b': Builder) {
    b.next <= b'.next && b.constraints <= b'.constraints
  }

  /** What sets a gadget apart: it computes a hash function, or its results are chosen by the prover. */
  datatype Trait = Hashes(use: HashUse) | Chosen

  function TraitOf(g: Gadget): Option<Trait> {
    match g
    case Assign(_) => Some(Chosen)
    case Poseidon => Some(Hashes(Transient))
    case Digest(kind) => Some(Hashes(Aligned(kind)))
    case _ => None
  }

  function TraitOfInstruction(ins: Instruction): Option<Trait> {
    if HashOfInstruction(ins).Some? then Some(Hashes(HashOfInstruction(ins).value))
    else if IsRead(ins) || ins.ReconstituteField? then Some(Chosen)
    else None
  }

  /** Growth by constraints of no trait but `h`; if `h` is a hash function, some constraint computes it. */
  predicate Adds(b: Builder, b': Builder, h: Option<Trait>) {
    && Grows(b, b')
    && (forall i :: |b.constraints| <= i < |b'.constraints| ==>
          TraitOf(b'.constraints[i].g).None? || TraitOf(b'.constraints[i].g) == h)
    && (h.Some? && h.value.Hashes? ==>
          exists i :: |b.constraints| <= i < |b'.constraints| && TraitOf(b'.constraints[i].g) == h)
  }

  lemma SatEarlier(c: Params, b: Builder, b': Builder, a: Assignment)
    requires Grows(b, b') && Sat(c, b', a)
    ensures Sat(c, b, a)
  {
    forall i | 0 <= i < |b.constraints|
      ensures Holds(c, b.constraints[i], a)
    {
      assert b.constraints[i] == b'.constraints[i];
      assert Holds(c, b'.constraints[i], a);
    }
  }

  lemma {:induction false} PackGrows(c: Params, b: Builder, ws: seq<Wire>)
    ensures Adds(b, PackWires(c, b, ws).0, None)
    decreases |ws|
  {
    if ws == [] {
    } else {
      var len := Encoding.Min(|ws|, c.limbBytes);
      PackGrows(c, PackChunk(c, b, ws[..len]).0, ws[len..]);
    }
  }

  lemma {:induction false} EncodeAllGrows(c: Params, b: Builder, vs: seq<CircuitValue>)
    ensures Adds(b, EncodeAllWires(c, b, vs).0, None)
    decreases |vs|
  {
    if vs == [] {
    } else {
      EncodeGrows(c, b, vs[0]);
      EncodeAllGrows(c, EncodeWires(c, b, vs[0]).0, vs[1..]);
    }
  }

  lemma EncodeGrows(c: Params, b: Builder, v: CircuitValue)
    ensures Adds(b, EncodeWires(c, b, v).0, None)
  {
    if v.Bytes? { PackGrows(c, b, v.ws); }
  }

  lemma {:induction false} UnpackGrows(c: Params, b: Builder, limbs: seq<Wire>, n: nat)
    ensures Adds(b, UnpackWires(c, b, limbs, n).0, None)
    decreases |limbs|
  {
    if limbs == [] {
    } else {
      var len := Encoding.Min(n, c.limbBytes);
      UnpackGrows(c, Emit(b, Decompose(256, len), [limbs[0]], len), limbs[1..], n - len);
    }
  }

  lemma {:induction false} ChunksGrow(c: Params, b: Builder, chunks: seq<Wire>)
    ensures Adds(b, DecodeChunks(c, b, chunks).0, None)
    decreases |chunks|
  {
    if chunks == [] {
    } else {
      var k := |chunks| - 1;
      ChunksGrow(c, Emit(b, Decompose(256, c.limbBytes), [chunks[k]], c.limbBytes), chunks[..k]);
    }
  }

  lemma BytesAtomGrows(c: Params, b: Builder, stray: nat, chunks: nat, inputs: seq<Wire>)
    requires DecodeBytesAtom(c, b, stray, chunks, inputs).Some?
    ensures Adds(b, DecodeBytesAtom(c, b, stray, chunks, inputs).value.0, None)
  {
    var head := if stray > 0 then 1 else 0;
    var b1 := if stray > 0 then Emit(b, Decompose(256, stray), [inputs[0]], stray) else b;
    ChunksGrow(c, b1, inputs[head..head + chunks]);
  }

  lemma AtomGrows(c: Params, b: Builder, atom: Atom, inputs: seq<Wire>)
    requires DecodeAtom(c, b, atom, inputs).Some?
    ensures Adds(b, DecodeAtom(c, b, atom, inputs).value.0, None)
  {
    if atom.BytesAtom? {
      BytesAtomGrows(c, b, atom.length % c.limbBytes, atom.length / c.limbBytes, inputs);
    }
  }

  lemma {:induction false} AlignedGrows(c: Params, b: Builder, alignment: Alignment, inputs: seq<Wire>)
    requires DecodeAligned(c, b, alignment, inputs).Some?
    ensures Adds(b, DecodeAligned(c, b, alignment, inputs).value.0, None)
    decreases |alignment|
  {
    if alignment == [] {
    } else {
      AtomGrows(c, b, alignment[0].atom, inputs);
      var (b1, ws, left) := DecodeAtom(c, b, alignment[0].atom, inputs).value;
      AlignedGrows(c, b1, alignment[1..], left);
    }
  }

  lemma {:induction false} AssertEqualGrows(b: Builder, xs: seq<Wire>, ys: seq<Wire>)
    requires |xs| == |ys|
    ensures Adds(b, AssertEqualAll(b, xs, ys), None)
    decreases |xs|
  {
    if xs == [] {
    } else {
      AssertEqualGrows(Emit(b, AssertEqual, [xs[0], ys[0]], 0), xs[1..], ys[1..]);
    }
  }

  lemma {:induction false} IsEqualGrows(b: Builder, xs: seq<Wire>, ys: seq<Wire>)
    requires |xs| == |ys|
    ensures Adds(b, IsEqualAll(b, xs, ys).0, None)
    decreases |xs|
  {
    if xs == [] {
    } else {
      IsEqualGrows(Emit(b, IsEqual, [xs[0], ys[0]], 1), xs[1..], ys[1..]);
    }
  }

  lemma {:induction false} ResolveAllGrows(b: Builder, memory: CircuitMemory, operands: seq<Operand>)
    requires ResolveAllWires(b, memory, operands).Some?
    ensures Adds(b, ResolveAllWires(b, memory, operands).value.0, None)
    decreases |operands|
  {
    if operands == [] {
    } else {
      ResolveAllGrows(ResolveWires(b, memory, operands[0]).value.0, memory, operands[1..]);
    }
  }

  lemma {:induction false} PushGrows(b: Builder, memory: CircuitMemory, guard: Wire, zero: Wire, inputs: seq<Operand>)
    requires PushGuarded(b, memory, guard, zero, inputs).Some?
    ensures Adds(b, PushGuarded(b, memory, guard, zero, inputs).value.0, None)
    decreases |inputs|
  {
    if inputs == [] {
    } else {
      var (b1, v) := ResolveWires(b, memory, inputs[0]).value;
      PushGrows(Emit(b1, Select, [guard, v.w, zero], 1), memory, guard, zero, inputs[1..]);
    }
  }

  ghost predicate Synthesized(c: Params, ins: Instruction, b: Builder, vs: seq<CircuitValue>,
                              b': Builder, rs: seq<CircuitValue>)
  {
    ins.Computes() && |vs| == |ins.Args()| && SynthOp(c, ins, b, vs) == Some((b', rs))
  }

  lemma EmitAdds(b: Builder, b': Builder, g: Gadget, ins: seq<Wire>, n: nat)
    requires Adds(b, b', None)
    ensures Adds(b, Emit(b', g, ins, n), TraitOf(g))
  {
    var cs := Emit(b', g, ins, n).constraints;
    assert cs[|b'.constraints|].g == g;
  }

  /** Instructions that walk over a list while they emit. */
  predicate Walks(ins: Instruction) {
    ins.Encode? || ins.BytesIntoNatives? || ins.ConstrainEq? || ins.TestEq? || ins.BytesFromNatives?
  }

  /** Instructions that convert to or from byte strings. */
  predicate Converts(ins: Instruction) {
    || ins.ToBytes? || ins.IntoBytes32? || ins.FromBytes? || ins.FromBytes32? || ins.JubjubScalarFromNative?
    || ins.Bytes32IntoLowHigh? || ins.Bytes32FromLowHigh?
  }

  /** Instructions that cut a cell into bits. */
  predicate CutsBits(ins: Instruction) {
    ins.DivModPowerOfTwo? || ins.ReconstituteField?
  }

  /** Instructions that compute in a prime field. */
  predicate Calculates(ins: Instruction) {
    ins.Add? || ins.Mul? || ins.Neg? || ins.Inv?
  }

  lemma TestEqGrows(b: Builder, x: CircuitValue, y: CircuitValue)
    requires SynthTestEq(b, x, y).Some?
    ensures Adds(b, SynthTestEq(b, x, y).value.0, None)
  {
    if x.Bytes? {
      IsEqualGrows(b, x.ws, y.ws);
      var (b1, eqs) := IsEqualAll(b, x.ws, y.ws);
      EmitAdds(b, b1, AndBits, eqs, 1);
    }
  }

  lemma WalkGrows(c: Params, ins: Instruction, b: Builder, vs: seq<CircuitValue>, b': Builder, rs: seq<CircuitValue>)
    requires Synthesized(c, ins, b, vs, b', rs) && Walks(ins)
    ensures Adds(b, b', None)
  {
    if ins.Encode? { EncodeGrows(c, b, vs[0]); }
    else if ins.BytesIntoNatives? { PackGrows(c, b, vs[0].ws); }
    else if ins.ConstrainEq? { AssertEqualGrows(b, Wires(vs[0]), Wires(vs[1])); }
    else if ins.TestEq? { TestEqGrows(b, vs[0], vs[1]); }
    else { UnpackGrows(c, b, AllNative(vs).value, ins.len); }
  }

  lemma HashGrows(c: Params, ins: Instruction, b: Builder, vs: seq<CircuitValue>, b': Builder, rs: seq<CircuitValue>)
    requires Synthesized(c, ins, b, vs, b', rs) && (ins.TransientHash? || ins.AlignedHash?)
    ensures Adds(b, b', TraitOfInstruction(ins))
  {
    var xs := AllNative(vs).value;
    if ins.TransientHash? {
      EmitAdds(b, b, Poseidon, xs, 1);
    } else {
      AlignedGrows(c, b, ins.alignment, xs);
      var (b1, bytes) := DecodeAligned(c, b, ins.alignment, xs).value;
      EmitAdds(b, b1, Digest(ins.kind), bytes, DigestLen(ins.kind));
    }
  }

  lemma ToBytesGrows(c: Params, b: Builder, v: CircuitValue)
    requires ToBytesWires(c, b, v).Some?
    ensures Adds(b, ToBytesWires(c, b, v).value.0, None)
  {}

  lemma ScalarGrows(c: Params, b: Builder, bytes: seq<Wire>)
    ensures Adds(b, ScalarFromBytes(c, b, bytes).0, None)
  {}

  lemma FromBytesGrows(c: Params, b: Builder, t: IrType, bytes: seq<Wire>)
    requires FromBytesWires(c, b, t, bytes).Some?
    ensures Adds(b, FromBytesWires(c, b, t, bytes).value.0, None)
  {
    ScalarGrows(c, b, bytes);
  }

  lemma ConversionGrows(c: Params, ins: Instruction, b: Builder, vs: seq<CircuitValue>, b': Builder,
      rs: seq<CircuitValue>)
    requires Synthesized(c, ins, b, vs, b', rs) && Converts(ins)
    ensures Adds(b, b', None)
  {
    if ins.ToBytes? || ins.IntoBytes32? { ToBytesGrows(c, b, vs[0]); }
    else if ins.FromBytes? || ins.FromBytes32? { FromBytesGrows(c, b, ins.valT, vs[0].ws); }
    else if ins.Bytes32FromLowHigh? { ToBytesGrows(c, b, vs[0]); }
    else if ins.JubjubScalarFromNative? {
      var n := c.ReprBytes();
      ScalarGrows(c, Emit(b, Decompose(256, n), [vs[0].w], n), Fresh(b.next, n));
    }
  }

  lemma RejoinedGrows(c: Params, b: Builder, divisor: Wire, modulus: Wire, bits: nat)
    requires bits <= c.frBits
    ensures Adds(Emit(b, Assign(c.p), [], 1), Rejoined(c, b, divisor, modulus, bits), None)
    ensures Adds(b, Rejoined(c, b, divisor, modulus, bits), Some(Chosen))
  {}

  lemma CutGrows(c: Params, ins: Instruction, b: Builder, vs: seq<CircuitValue>, b': Builder, rs: seq<CircuitValue>)
    requires Synthesized(c, ins, b, vs, b', rs) && CutsBits(ins)
    ensures Adds(b, b', TraitOfInstruction(ins))
  {
    if ins.ReconstituteField? { RejoinedGrows(c, b, vs[0].w, vs[1].w, ins.bits); }
  }

  lemma ArithGrows(c: Params, ins: Instruction, b: Builder, vs: seq<CircuitValue>, b': Builder, rs: seq<CircuitValue>)
    requires Synthesized(c, ins, b, vs, b', rs) && Calculates(ins)
    ensures Adds(b, b', None)
  {}

  lemma GateGrows(c: Params, ins: Instruction, b: Builder, vs: seq<CircuitValue>, b': Builder, rs: seq<CircuitValue>)
    requires Synthesized(c, ins, b, vs, b', rs)
    requires !Walks(ins) && !Converts(ins) && !CutsBits(ins) && !Calculates(ins) && HashOfInstruction(ins).None?
    ensures Adds(b, b', None)
  {}

  lemma OpGrows(c: Params, ins: Instruction, b: Builder, vs: seq<CircuitValue>, b': Builder, rs: seq<CircuitValue>)
    requires Synthesized(c, ins, b, vs, b', rs)
    ensures Adds(b, b', TraitOfInstruction(ins))
  {
    if Walks(ins) { WalkGrows(c, ins, b, vs, b', rs); }
    else if Converts(ins) { ConversionGrows(c, ins, b, vs, b', rs); }
    else if CutsBits(ins) { CutGrows(c, ins, b, vs, b', rs); }
    else if Calculates(ins) { ArithGrows(c, ins, b, vs, b', rs); }
    else if HashOfInstruction(ins).Some? { HashGrows(c, ins, b, vs, b', rs); }
    else { GateGrows(c, ins, b, vs, b', rs); }
  }

  predicate Extends(s: Synthesis, s': Synthesis) {
    Grows(s.b, s'.b) && s.pis <= s'.pis && s.readValues <= s'.readValues && s.outputs <= s'.outputs
  }

  lemma AddsThen(b: Builder, b1: Builder, b2: Builder, h: Option<Trait>)
    requires Adds(b, b1, None) && Adds(b1, b2, h)
    ensures Adds(b, b2, h)
  {
    forall i | |b.constraints| <= i < |b1.constraints|
      ensures TraitOf(b2.constraints[i].g).None?
    {
      assert b2.constraints[i] == b1.constraints[i];
    }
  }

  lemma ComputeGrows(c: Params, s: Synthesis, ins: Instruction)
    requires ins.Computes() && SynthCompute(c, s, ins).Some?
    ensures Extends(s, SynthCompute(c, s, ins).value)
    ensures Adds(s.b, SynthCompute(c, s, ins).value.b, TraitOfInstruction(ins))
  {
    ResolveAllGrows(s.b, s.memory, ins.Args());
    var (b1, vs) := ResolveAllWires(s.b, s.memory, ins.Args()).value;
    var (b2, rs) := SynthOp(c, ins, b1, vs).value;
    OpGrows(c, ins, b1, vs, b2, rs);
    AddsThen(s.b, b1, b2, TraitOfInstruction(ins));
  }

  lemma ImpactGrows(s: Synthesis, guard: Operand, inputs: seq<Operand>)
    requires SynthImpact(s, guard, inputs).Some?
    ensures var s' := SynthImpact(s, guard, inputs).value;
            Extends(s, s') && Adds(s.b, s'.b, None)
  {
    var b1 := Emit(s.b, Fixed([0]), [], 1);
    var (b2, g) := ResolveWires(b1, s.memory, guard).value;
    var b3 := Emit(b2, InRange(2), [g.w], 0);
    PushGrows(b3, s.memory, g.w, s.b.next, inputs);
    AddsThen(s.b, b3, SynthImpact(s, guard, inputs).value.b, None);
  }

  lemma ReadGrows(c: Params, s: Synthesis, ins: Instruction)
    requires (ins.PublicInput? || ins.PrivateInput?) && SynthRead(c, s, ins).Some?
    ensures Extends(s, SynthRead(c, s, ins).value) && Adds(s.b, SynthRead(c, s, ins).value.b, Some(Chosen))
  {}

  lemma OutputGrows(src: IrSource, s: Synthesis, vals: seq<Operand>)
    requires SynthOutput(src, s, vals).Some?
    ensures Extends(s, SynthOutput(src, s, vals).value) && Adds(s.b, SynthOutput(src, s, vals).value.b, None)
  {
    ResolveAllGrows(s.b, s.memory, vals);
  }

  lemma StepGrows(c: Params, src: IrSource, s: Synthesis, ins: Instruction)
    requires SynthStep(c, src, s, ins).Some?
    ensures Extends(s, SynthStep(c, src, s, ins).value)
    ensures Adds(s.b, SynthStep(c, src, s, ins).value.b, TraitOfInstruction(ins))
  {
    if ins.Impact? { ImpactGrows(s, ins.guard, ins.inputs); }
    else if ins.PublicInput? || ins.PrivateInput? { ReadGrows(c, s, ins); }
    else if ins.Output? { OutputGrows(src, s, ins.vals); }
    else { ComputeGrows(c, s, ins); }
  }

  lemma {:induction false} RunGrows(c: Params, src: IrSource, s: Synthesis, todo: seq<Instruction>)
    requires SynthFrom(c, src, s, todo).Some?
    ensures Extends(s, SynthFrom(c, src, s, todo).value)
    decreases |todo|
  {
    if todo == [] {
    } else {
      StepGrows(c, src, s, todo[0]);
      RunGrows(c, src, SynthStep(c, src, s, todo[0]).value, todo[1..]);
    }
  }

  // ----- the ends of synthesis -----

  lemma {:induction false} InputsGrow(c: Params, b: Builder, inputs: seq<TypedIdentifier>)
    requires AssignInputs(c, b, inputs).Some?
    ensures Adds(b, AssignInputs(c, b, inputs).value.0, Some(Chosen))
    decreases |inputs|
  {
    if inputs == [] {
    } else {
      InputsGrow(c, AssignValue(c, b, inputs[0].valT).value.0, inputs[1..]);
    }
  }

  lemma InitGrows(c: Params, src: IrSource)
    requires SynthInit(c, src).Some?
    ensures Adds(EMPTY, SynthInit(c, src).value.0.b, Some(Chosen))
  {
    InputsGrow(c, EMPTY, src.inputs);
  }

  lemma AddsEmit(b: Builder, b': Builder, g: Gadget, ins: seq<Wire>, n: nat, h: Option<Trait>)
    requires Adds(b, b', h) && TraitOf(g).None?
    ensures Adds(b, Emit(b', g, ins, n), h)
  {
    var b'' := Emit(b', g, ins, n);
    assert forall i :: 0 <= i < |b'.constraints| ==> b''.constraints[i] == b'.constraints[i];
  }

  /** The commitment's randomness is chosen; the rest of the commitment hashes. */
  lemma CommitmentGrows(c: Params, src: IrSource, s: Synthesis)
    requires |s.pis| >= 2
    ensures Adds(Emit(s.b, Assign(c.p), [], 1), SynthCommitment(c, src, s), Some(Hashes(Transient)))
    ensures Grows(s.b, SynthCommitment(c, src, s))
  {
    var b1 := Emit(s.b, Assign(c.p), [], 1);
    var inputs := InputValues(s.memory, InputNames(src.inputs));
    EncodeAllGrows(c, b1, inputs);
    var b2 := EncodeAllWires(c, b1, inputs).0;
    EncodeAllGrows(c, b2, s.outputs);
    AddsThen(b1, b2, EncodeAllWires(c, b2, s.outputs).0, None);
    var (b3, committed) := EncodeCommitted(c, src, s, b1);
    EmitAdds(b1, b3, Poseidon, [s.b.next] + committed, 1);
    var b4 := Emit(b3, Poseidon, [s.b.next] + committed, 1);
    AddsEmit(b1, b4, AssertEqual, [b3.next, s.pis[1]], 0, Some(Hashes(Transient)));
  }

  // ----- stages of synthesis -----

  /** What the walk holds after the first `i` instructions. */
  function Stage(c: Params, src: IrSource, i: nat): Option<Synthesis>
    requires i <= |src.instructions|
  {
    var (s0, _) :- SynthInit(c, src);
    SynthFrom(c, src, s0, src.instructions[..i])
  }

  lemma {:induction false} SynthSplit(c: Params, src: IrSource, s: Synthesis, xs: seq<Instruction>,
      ys: seq<Instruction>)
    ensures SynthFrom(c, src, s, xs + ys) ==
            match SynthFrom(c, src, s, xs)
            case None => None
            case Some(s') => SynthFrom(c, src, s', ys)
    decreases |xs|
  {
    if xs == [] {
      assert xs + ys == ys;
    } else {
      assert (xs + ys)[1..] == xs[1..] + ys;
      var r := SynthStep(c, src, s, xs[0]);
      if r.Some? { SynthSplit(c, src, r.value, xs[1..], ys); }
    }
  }

  /** Every stage of a circuit leads to the finished circuit. */
  lemma StageLeadsOn(c: Params, src: IrSource, k: CircuitShape, i: nat)
    requires i <= |src.instructions| && SynthesizeEquipped(c, src) == Some(k)
    ensures Stage(c, src, i).Some?
    ensures var s := Stage(c, src, i).value;
            Grows(s.b, k.b) && s.pis <= k.pis && s.readValues <= k.readValues
  {
    var s0, todo := SynthInit(c, src).value.0, src.instructions;
    assert todo == todo[..i] + todo[i..];
    SynthSplit(c, src, s0, todo[..i], todo[i..]);
    RunGrows(c, src, Stage(c, src, i).value, todo[i..]);
    if src.doCommunicationsCommitment { CommitmentGrows(c, src, SynthFrom(c, src, s0, todo).value); }
  }
}
