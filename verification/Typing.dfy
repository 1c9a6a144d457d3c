/**
  The static check of a source: which identifiers are in scope, what their types are, and
  how many public inputs there are. It looks at types alone, and it succeeds exactly when
  synthesis does.
 */
module Typing {
  import opened Options
  import opened Digits
  import opened Types
  import opened Instructions
  import Encoding
  import Operations
  import Preprocess

  type Env = map<Identifier, IrType>

  predicate AllAre(t: IrType, ts: seq<IrType>) {
    forall i :: 0 <= i < |ts| ==> ts[i] == t
  }

  function Repeat(t: IrType, n: nat): (ts: seq<IrType>)
    ensures |ts| == n && AllAre(t, ts)
  {
    seq(n, i => t)
  }

  // ----- one computing instruction -----

  /** How many inputs an alignment takes, if all of its segments are supported. */
  function AlignedUses(c: Params, alignment: Alignment): Option<nat> {
    if alignment == [] then Some(0)
    else if alignment[0].OptionSegment? then None
    else
      var n :- AtomUses(c, alignment[0].atom);
      var rest :- AlignedUses(c, alignment[1..]);
      Some(n + rest)
  }

  function AtomUses(c: Params, atom: Atom): Option<nat> {
    match atom
    case FieldAtom => Some(1)
    case BytesAtom(length) => Some(CeilDiv(length, c.limbBytes))
    case CompressAtom => None
  }

  predicate AlignedFits(c: Params, alignment: Alignment, n: nat) {
    AlignedUses(c, alignment).Some? && AlignedUses(c, alignment).value <= n
  }

  function ConcatLen(ts: seq<IrType>): Option<nat> {
    if ts == [] then Some(0)
    else
      var head :- if ts[0].Byte? then Some(1) else if ts[0].Bytes? then Some(ts[0].n) else None;
      var rest :- ConcatLen(ts[1..]);
      Some(head + rest)
  }

  function Given(ok: bool, ts: seq<IrType>): Option<seq<IrType>> {
    if ok then Some(ts) else None
  }

  /** The types of the results, from the types of the operands. */
  function OpType(c: Params, ins: Instruction, ts: seq<IrType>): Option<seq<IrType>>
    requires ins.Computes() && |ts| == |ins.Args()|
  {
    match ins
    case Encode(_, _) => Some(Repeat(IrType.Native, EncodedLen(c, ts[0])))
    case Assert(_) => Given(ts[0].Native?, [])
    case CondSelect(_, _, _, _) => Given(ts[0].Native? && ts[1] == ts[2] && !ts[1].Bytes?, [ts[1]])
    case ConstrainBits(_, _) => Given(ts[0].Native?, [])
    case ConstrainEq(_, _) => Given(ts[0] == ts[1], [])
    case ConstrainToBoolean(_) => Given(ts[0].Native?, [])
    case Copy(_, _) => Some([ts[0]])
    case DivModPowerOfTwo(_, bits, _) => Given(ts[0].Native? && bits <= c.frBits, [IrType.Native, IrType.Native])
    case ReconstituteField(_, _, bits, _) =>
      Given(ts[0].Native? && ts[1].Native? && bits <= c.frBits, [IrType.Native])
    case TransientHash(_, _) => Given(AllAre(IrType.Native, ts), [IrType.Native])
    case AlignedHash(kind, alignment, _, _) =>
      Given(AllAre(IrType.Native, ts) && AlignedFits(c, alignment, |ts|), [IrType.Bytes(DigestLen(kind))])
    case TestEq(_, _, _) => Given(ts[0] == ts[1], [IrType.Native])
    case Add(_, _, _) => Given(Operations.Modulus(c, ts[0]).Some? && ts[0] == ts[1], [ts[0]])
    case Mul(_, _, _) => Given(Operations.Modulus(c, ts[0]).Some? && ts[0] == ts[1], [ts[0]])
    case Neg(_, _) => Given(ts[0].Bool? || Operations.Modulus(c, ts[0]).Some?, [ts[0]])
    case Inv(_, _) => Given(Operations.Modulus(c, ts[0]).Some?, [ts[0]])
    case Not(_, _) => Given(ts[0].Native?, [IrType.Native])
    case And(_, _) => Given(ts != [] && AllAre(IrType.Bool, ts), [IrType.Bool])
    case Or(_, _) => Given(ts != [] && AllAre(IrType.Bool, ts), [IrType.Bool])
    case Xor(_, _) => Given(ts != [] && AllAre(IrType.Bool, ts), [IrType.Bool])
    case LessThan(_, _, _, _) => Given(ts[0].Native? && ts[1].Native?, [IrType.Native])
    case JubjubScalarFromNative(_, _) => Given(ts[0].Native?, [IrType.JubjubScalar])
    case ToBytes(_, _) => Given(Operations.Modulus(c, ts[0]).Some?, [IrType.Bytes(c.ReprBytes())])
    case IntoBytes32(_, _) => Given(Operations.Modulus(c, ts[0]).Some?, [IrType.Bytes(c.ReprBytes())])
    case FromBytes(t, _, _) => Given(ts[0].Bytes? && Operations.Modulus(c, t).Some?, [t])
    case FromBytes32(t, _, _) => Given(ts[0] == IrType.Bytes(c.ReprBytes()) && Operations.Modulus(c, t).Some?, [t])
    case Reverse(_, _) => Given(ts[0].Bytes?, [ts[0]])
    case Slice(_, start, len, _) => Given(ts[0].Bytes? && 0 < len && start + len <= ts[0].n, [IrType.Bytes(len)])
    case Nth(_, index, _) => Given(ts[0].Bytes? && index < ts[0].n, [IrType.Byte])
    case Concat(_, _) =>
      var n :- ConcatLen(ts);
      Given(0 < n <= MAX_BYTES_LEN, [IrType.Bytes(n)])
    case BytesIntoNatives(_, _) =>
      if ts[0].Bytes? then Some(Repeat(IrType.Native, CeilDiv(ts[0].n, c.limbBytes))) else None
    case BytesFromNatives(_, len, _) =>
      Given(Operations.NbLimbs(c, len, |ts|).Some? && AllAre(IrType.Native, ts), [IrType.Bytes(len)])
    case Bytes32IntoLowHigh(_, _, _) => Given(ts[0] == IrType.Bytes(c.ReprBytes()), [IrType.Native, IrType.Native])
    case Bytes32FromLowHigh(_, _, _) =>
      Given(Operations.Modulus(c, ts[0]).Some? && ts[1].Native?, [IrType.Bytes(c.ReprBytes())])
    case LoadConstant(t, encoding, _) => Given(Encoding.Decode(c, t, encoding).Some?, [t])
  }

  // ----- the whole source -----

  function TypeOperand(env: Env, operand: Operand): Option<IrType> {
    match operand
    case Variable(id) => if id in env then Some(env[id]) else None
    case Immediate(_) => Some(IrType.Native)
  }

  function TypeOperands(env: Env, operands: seq<Operand>): (r: Option<seq<IrType>>)
    ensures r.Some? ==> |r.value| == |operands|
  {
    if operands == [] then Some([])
    else
      var t :- TypeOperand(env, operands[0]);
      var rest :- TypeOperands(env, operands[1..]);
      Some([t] + rest)
  }

  /** What is known before a run: types in scope, the number of public inputs, and output types. */
  datatype Static = Static(env: Env, pis: nat, outputs: seq<IrType>)

  function CheckImpact(s: Static, guard: Operand, inputs: seq<Operand>): Option<Static> {
    var g :- TypeOperand(s.env, guard);
    var ts :- TypeOperands(s.env, inputs);
    if g.Native? && AllAre(IrType.Native, ts) then Some(s.(pis := s.pis + |inputs|)) else None
  }

  function CheckOutput(src: IrSource, s: Static, vals: seq<Operand>): Option<Static> {
    if |vals| != |src.outputs| then None
    else
      var ts :- TypeOperands(s.env, vals);
      if ts == src.outputs then Some(s.(outputs := s.outputs + ts)) else None
  }

  function CheckCompute(c: Params, s: Static, ins: Instruction): Option<Static>
    requires ins.Computes()
  {
    var ts :- TypeOperands(s.env, ins.Args());
    var results :- OpType(c, ins, ts);
    if |results| != |ins.Outs()| then None
    else Some(s.(env := Preprocess.Bind(s.env, ins.Outs(), results)))
  }

  /** A read only needs a type that values can be witnessed at; its guard is not looked at. */
  function CheckRead(s: Static, ins: Instruction): Option<Static>
    requires ins.PublicInput? || ins.PrivateInput?
  {
    if ins.valT.Point? then None else Some(s.(env := s.env[ins.output := ins.valT]))
  }

  function CheckStep(c: Params, src: IrSource, s: Static, ins: Instruction): Option<Static> {
    if ins.Impact? then CheckImpact(s, ins.guard, ins.inputs)
    else if ins.PublicInput? || ins.PrivateInput? then CheckRead(s, ins)
    else if ins.Output? then CheckOutput(src, s, ins.vals)
    else CheckCompute(c, s, ins)
  }

  function CheckFrom(c: Params, src: IrSource, s: Static, todo: seq<Instruction>): Option<Static>
    decreases |todo|
  {
    if todo == [] then Some(s)
    else
      var s' :- CheckStep(c, src, s, todo[0]);
      CheckFrom(c, src, s', todo[1..])
  }

  function InputTypes(inputs: seq<TypedIdentifier>): (ts: seq<IrType>)
    ensures |ts| == |inputs|
  {
    seq(|inputs|, i requires 0 <= i < |inputs| => inputs[i].valT)
  }

  function CheckInit(src: IrSource): Option<Static> {
    if exists i :: 0 <= i < |src.inputs| && src.inputs[i].valT.Point? then None
    else
      Some(Static(Preprocess.Bind(map[], InputNames(src.inputs), InputTypes(src.inputs)),
                  if src.doCommunicationsCommitment then 2 else 1, []))
  }

  /** The static check of a whole source. */
  function Check(c: Params, src: IrSource): Option<Static> {
    var s0 :- CheckInit(src);
    CheckFrom(c, src, s0, src.instructions)
  }

  // ----- properties of all types in scope -----

  predicate AllTypes(p: IrType -> bool, ts: seq<IrType>) {
    forall i :: 0 <= i < |ts| ==> p(ts[i])
  }

  predicate AllInScope(p: IrType -> bool, env: Env) {
    forall id :: id in env ==> p(env[id])
  }

  /** An instruction only adds types with the property, given operands with the property. */
  ghost predicate Keeps(c: Params, ins: Instruction, p: IrType -> bool) {
    && (ins.PublicInput? || ins.PrivateInput? ==> p(ins.valT))
    && (ins.Computes() ==>
          forall ts | |ts| == |ins.Args()| && AllTypes(p, ts) && OpType(c, ins, ts).Some? ::
            AllTypes(p, OpType(c, ins, ts).value))
  }

  lemma {:induction false} OperandsKeep(p: IrType -> bool, env: Env, operands: seq<Operand>)
    requires AllInScope(p, env) && p(IrType.Native) && TypeOperands(env, operands).Some?
    ensures AllTypes(p, TypeOperands(env, operands).value)
  {
    if operands == [] {
    } else {
      OperandsKeep(p, env, operands[1..]);
    }
  }

  lemma {:induction false} BindKeepsScope(p: IrType -> bool, env: Env, ids: seq<Identifier>, ts: seq<IrType>)
    requires |ids| == |ts| && AllInScope(p, env) && AllTypes(p, ts)
    ensures AllInScope(p, Preprocess.Bind(env, ids, ts))
    decreases |ids|
  {
    if ids == [] {
    } else {
      BindKeepsScope(p, env[ids[0] := ts[0]], ids[1..], ts[1..]);
    }
  }

  lemma ComputeKeepsScope(c: Params, p: IrType -> bool, s: Static, ins: Instruction)
    requires AllInScope(p, s.env) && p(IrType.Native) && Keeps(c, ins, p)
    requires ins.Computes() && CheckCompute(c, s, ins).Some?
    ensures AllInScope(p, CheckCompute(c, s, ins).value.env)
  {
    var ts := TypeOperands(s.env, ins.Args()).value;
    OperandsKeep(p, s.env, ins.Args());
    BindKeepsScope(p, s.env, ins.Outs(), OpType(c, ins, ts).value);
  }

  lemma StepKeepsScope(c: Params, src: IrSource, p: IrType -> bool, s: Static, ins: Instruction)
    requires AllInScope(p, s.env) && p(IrType.Native) && Keeps(c, ins, p) && CheckStep(c, src, s, ins).Some?
    ensures AllInScope(p, CheckStep(c, src, s, ins).value.env)
  {
    if ins.Computes() { ComputeKeepsScope(c, p, s, ins); }
  }

  lemma {:induction false} RunKeepsScope(c: Params, src: IrSource, p: IrType -> bool, s: Static, todo: seq<Instruction>)
    requires AllInScope(p, s.env) && p(IrType.Native) && CheckFrom(c, src, s, todo).Some?
    requires forall i :: 0 <= i < |todo| ==> Keeps(c, todo[i], p)
    ensures AllInScope(p, CheckFrom(c, src, s, todo).value.env)
    decreases |todo|
  {
    if todo == [] {
    } else {
      StepKeepsScope(c, src, p, s, todo[0]);
      RunKeepsScope(c, src, p, CheckStep(c, src, s, todo[0]).value, todo[1..]);
    }
  }

  /** Byte string types carry a length between 1 and the maximum. */
  predicate WellFormed(t: IrType) {
    t.Bytes? ==> 1 <= t.n <= MAX_BYTES_LEN
  }

  /** The types that a source declares are well formed, as reading it from text or bytes ensures. */
  predicate DeclaresWellFormed(src: IrSource) {
    && (forall i :: 0 <= i < |src.inputs| ==> WellFormed(src.inputs[i].valT))
    && forall i :: 0 <= i < |src.instructions| ==> DeclaredWellFormed(src.instructions[i])
  }

  predicate DeclaredWellFormed(ins: Instruction) {
    ins.PublicInput? || ins.PrivateInput? || ins.FromBytes? || ins.FromBytes32? || ins.LoadConstant? ==>
        WellFormed(ins.valT)
  }

  lemma ResultsWellFormed(c: Params, ins: Instruction, ts: seq<IrType>)
    requires c.ReprBytes() <= MAX_BYTES_LEN && DeclaredWellFormed(ins)
    requires ins.Computes() && |ts| == |ins.Args()| && AllTypes(t => WellFormed(t), ts) && OpType(c, ins, ts).Some?
    ensures AllTypes(t => WellFormed(t), OpType(c, ins, ts).value)
  {}

  /** In a source that passes the check, every byte string in scope has a length between 1 and the maximum. */
  lemma LengthsStayInRange(c: Params, src: IrSource)
    requires c.ReprBytes() <= MAX_BYTES_LEN && DeclaresWellFormed(src) && Check(c, src).Some?
    ensures forall id :: id in Check(c, src).value.env && Check(c, src).value.env[id].Bytes? ==>
              1 <= Check(c, src).value.env[id].n <= 0x100_0000
  {
    var p := (t: IrType) => WellFormed(t);
    forall i | 0 <= i < |src.instructions|
      ensures Keeps(c, src.instructions[i], p)
    {
      var ins := src.instructions[i];
      assert DeclaredWellFormed(ins);
      if ins.Computes() {
        forall ts | |ts| == |ins.Args()| && AllTypes(p, ts) && OpType(c, ins, ts).Some?
          ensures AllTypes(p, OpType(c, ins, ts).value)
        {
          ResultsWellFormed(c, ins, ts);
        }
      }
    }
    BindKeepsScope(p, map[], InputNames(src.inputs), InputTypes(src.inputs));
    RunKeepsScope(c, src, p, CheckInit(src).value, src.instructions);
  }
}
