/**
  What a circuit means: the run that its constraints describe, on values. It differs from
  the interpreter exactly where the constraints do. Transcript reads take any value of
  their type whatever their guard says, an assertion only rules out zero, a comparison
  works at the rounded width, and every operand of a guarded-off impact must exist.
 */
module CircuitRun {
  import opened Options
  import opened Digits
  import opened Types
  import Encoding
  import opened Instructions
  import opened Operations
  import Circuit
  import Preprocess

  /** What the prover chooses; a circuit with a commitment takes the commitment and its randomness. */
  datatype Witness = Witness(
    inputs: seq<IrValue>,
    readValues: seq<IrValue>,
    bindingInput: nat,
    commitment: Option<(nat, nat)>)

  datatype RunState = RunState(
    memory: Preprocess.Memory,
    pis: seq<nat>,
    outputs: seq<IrValue>,
    used: nat)

  // ----- computing instructions -----

  /** The short first limb holds the last bytes; the full chunks after it come in reverse. */
  function BytesAtomBytes(c: Params, stray: nat, chunks: nat, inputs: seq<nat>): Option<(seq<nat>, seq<nat>)> {
    var head := if stray > 0 then 1 else 0;
    if |inputs| < chunks + head then None
    else if stray > 0 && inputs[0] >= Pow(256, stray) then None
    else
      var full :- ChunkBytes(c, inputs[head..head + chunks]);
      Some((full + (if stray > 0 then DigitsOf(inputs[0], 256, stray) else []), inputs[head + chunks..]))
  }

  /** Decodes one atom; what is left of the inputs comes with it. */
  function AtomBytes(c: Params, atom: Atom, inputs: seq<nat>): Option<(seq<nat>, seq<nat>)> {
    match atom
    case FieldAtom =>
      if inputs == [] then None else Some((Encoding.FieldBytes(c, inputs[0]), inputs[1..]))
    case BytesAtom(length) => BytesAtomBytes(c, length % c.limbBytes, length / c.limbBytes, inputs)
    case CompressAtom => None
  }

  /** Full chunks, last one first. */
  function ChunkBytes(c: Params, chunks: seq<nat>): Option<seq<nat>>
    decreases |chunks|
  {
    if chunks == [] then Some([])
    else
      var k := |chunks| - 1;
      if chunks[k] >= Pow(256, c.limbBytes) then None
      else
        var rest :- ChunkBytes(c, chunks[..k]);
        Some(DigitsOf(chunks[k], 256, c.limbBytes) + rest)
  }

  function AlignedBytes(c: Params, alignment: Alignment, inputs: seq<nat>): Option<seq<nat>>
    decreases |alignment|
  {
    if alignment == [] then Some([])
    else if alignment[0].OptionSegment? then None
    else
      var (bytes, left) :- AtomBytes(c, alignment[0].atom, inputs);
      var rest :- AlignedBytes(c, alignment[1..], left);
      Some(bytes + rest)
  }

  /** The results that the constraints of a computing instruction force, or failure. */
  function CircuitApply(c: Params, ins: Instruction, vs: seq<IrValue>): Option<seq<IrValue>>
    requires ins.Computes() && |vs| == |ins.Args()|
  {
    match ins
    case Assert(_) =>
      var x :- AsNative(vs[0]);
      if x == 0 then None else Some([])
    case CondSelect(_, _, _, _) =>
      if vs[1].Bytes? || vs[2].Bytes? then None else Apply(c, ins, vs)
    case ConstrainBits(_, bits) =>
      var x :- AsNative(vs[0]);
      if x < Pow(2, bits) then Some([]) else None
    case DivModPowerOfTwo(_, bits, _) =>
      var x :- AsNative(vs[0]);
      if bits > c.frBits then None else Some(Natives([x / Pow(2, bits), x % Pow(2, bits)]))
    case ReconstituteField(_, _, bits, _) =>
      var d :- AsNative(vs[0]);
      var m :- AsNative(vs[1]);
      if bits <= c.frBits && m < Pow(2, bits) && d * Pow(2, bits) + m < c.p then
        Some([IrValue.Native(d * Pow(2, bits) + m)])
      else None
    case TestEq(_, _, _) =>
      if TypeOf(vs[0]) == TypeOf(vs[1]) then Some([FromBit(vs[0] == vs[1])]) else None
    case LessThan(_, _, bits, _) =>
      var a :- AsNative(vs[0]);
      var b :- AsNative(vs[1]);
      var width := Pow(2, Circuit.RoundedBits(bits));
      if a < width && b < width then Some([FromBit(a < b)]) else None
    case AlignedHash(kind, alignment, _, _) =>
      var xs :- AllNative(vs);
      var bytes :- AlignedBytes(c, alignment, xs);
      Some([IrValue.Bytes(c.digest(kind, bytes))])
    case Bytes32FromLowHigh(_, _, _) =>
      if vs[1].Native? then Apply(c, ins, vs) else None
    case _ => Apply(c, ins, vs)
  }

  // ----- whole runs -----

  function RunImpact(s: RunState, guard: Operand, inputs: seq<Operand>): Option<RunState> {
    var active :- Preprocess.ResolveBit(s.memory, guard);
    var vs :- Preprocess.ResolveAll(s.memory, inputs);
    var xs :- AllNative(vs);
    Some(s.(pis := s.pis + if active then xs else Zeros(|inputs|)))
  }

  function RunRead(c: Params, w: Witness, s: RunState, ins: Instruction): Option<RunState>
    requires ins.PublicInput? || ins.PrivateInput?
  {
    if s.used >= |w.readValues| then None
    else
      var v := w.readValues[s.used];
      if TypeOf(v) != ins.valT || !ValidValue(c, v) then None
      else Some(s.(memory := s.memory[ins.output := v], used := s.used + 1))
  }

  function RunOutput(src: IrSource, s: RunState, vals: seq<Operand>): Option<RunState> {
    if |vals| != |src.outputs| then None
    else
      var vs :- Preprocess.ResolveAll(s.memory, vals);
      if TypesOf(vs) != src.outputs then None else Some(s.(outputs := s.outputs + vs))
  }

  function RunCompute(c: Params, s: RunState, ins: Instruction): Option<RunState>
    requires ins.Computes()
  {
    var vs :- Preprocess.ResolveAll(s.memory, ins.Args());
    var results :- CircuitApply(c, ins, vs);
    if |results| != |ins.Outs()| then None
    else Some(s.(memory := Preprocess.Bind(s.memory, ins.Outs(), results)))
  }

  function RunStep(c: Params, src: IrSource, w: Witness, s: RunState, ins: Instruction): Option<RunState> {
    if ins.Impact? then RunImpact(s, ins.guard, ins.inputs)
    else if ins.PublicInput? || ins.PrivateInput? then RunRead(c, w, s, ins)
    else if ins.Output? then RunOutput(src, s, ins.vals)
    else RunCompute(c, s, ins)
  }

  function RunFrom(c: Params, src: IrSource, w: Witness, s: RunState, todo: seq<Instruction>): Option<RunState>
    decreases |todo|
  {
    if todo == [] then Some(s)
    else
      var s' :- RunStep(c, src, w, s, todo[0]);
      RunFrom(c, src, w, s', todo[1..])
  }

  predicate InputsTyped(c: Params, inputs: seq<TypedIdentifier>, vs: seq<IrValue>) {
    && |vs| == |inputs|
    && forall i :: 0 <= i < |vs| ==> TypeOf(vs[i]) == inputs[i].valT && ValidValue(c, vs[i])
  }

  function RunInit(c: Params, src: IrSource, w: Witness): Option<RunState> {
    if !InputsTyped(c, src.inputs, w.inputs) || w.bindingInput >= c.p then None
    else if w.commitment.Some? != src.doCommunicationsCommitment then None
    else
      var memory := Preprocess.Bind(map[], InputNames(src.inputs), w.inputs);
      match w.commitment
      case None => Some(RunState(memory, [w.bindingInput], [], 0))
      case Some((comm, rand)) =>
        if comm >= c.p then None else Some(RunState(memory, [w.bindingInput, comm], [], 0))
  }

  /** The list that the commitment is taken of: the inputs as they stand in memory, then the outputs. */
  function Committed(c: Params, src: IrSource, s: RunState): seq<nat> {
    Encoding.EncodeAll(c, Circuit.InputValues(s.memory, InputNames(src.inputs))) + Encoding.EncodeAll(c, s.outputs)
  }

  predicate CommitmentHolds(c: Params, src: IrSource, w: Witness, s: RunState) {
    w.commitment.Some? ==>
      var (comm, rand) := w.commitment.value;
      rand < c.p && comm == Preprocess.TransientCommit(c, Committed(c, src, s), rand)
  }

  /** The run that a circuit describes: a function of what the prover chooses. */
  function Run(c: Params, src: IrSource, w: Witness): Option<RunState> {
    var s0 :- RunInit(c, src, w);
    var s :- RunFrom(c, src, w, s0, src.instructions);
    if s.used == |w.readValues| && CommitmentHolds(c, src, w, s) then Some(s) else None
  }
}
