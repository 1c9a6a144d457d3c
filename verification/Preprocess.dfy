/**
  The non-ZK run: a forward interpreter that turns a preimage into the memory, the public
  inputs and the skip records of a circuit. `Preprocess` is the function it computes.
 */
module Preprocess {
  import opened Options
  import opened Digits
  import opened Types
  import Encoding
  import opened Instructions
  import opened Operations

  type Memory = map<Identifier, IrValue>

  datatype Preimage = Preimage(
    bindingInput: nat,
    inputs: seq<nat>,
    communicationsCommitment: Option<(nat, nat)>,
    publicTranscriptInputs: seq<nat>,
    publicTranscriptOutputs: seq<nat>,
    privateTranscript: seq<nat>)

  datatype Preprocessed = Preprocessed(
    memory: Memory,
    pis: seq<nat>,
    piSkips: seq<Option<nat>>,
    bindingInput: nat,
    commComm: Option<(nat, nat)>)

  /** What the interpreter's local variables hold between two instructions. */
  datatype State = State(
    memory: Memory,
    pis: seq<nat>,
    piSkips: seq<Option<nat>>,
    publicInputsIdx: nat,
    publicOutputsIdx: nat,
    privateIdx: nat,
    outputs: seq<IrValue>)

  // ----- operands and bindings -----

  function Resolve(memory: Memory, operand: Operand): Option<IrValue> {
    match operand
    case Variable(id) => if id in memory then Some(memory[id]) else None
    case Immediate(imm) => Some(IrValue.Native(imm))
  }

  function ResolveAll(memory: Memory, operands: seq<Operand>): (r: Option<seq<IrValue>>)
    ensures r.Some? ==> |r.value| == |operands|
  {
    if operands == [] then Some([])
    else
      var v :- Resolve(memory, operands[0]);
      var rest :- ResolveAll(memory, operands[1..]);
      Some([v] + rest)
  }

  function Bind<V>(memory: map<Identifier, V>, ids: seq<Identifier>, vs: seq<V>): map<Identifier, V>
    requires |ids| == |vs|
    decreases |ids|
  {
    if ids == [] then memory else Bind(memory[ids[0] := vs[0]], ids[1..], vs[1..])
  }

  lemma {:induction false} BindLookup<V>(memory: map<Identifier, V>, ids: seq<Identifier>, vs: seq<V>)
    requires |ids| == |vs|
    ensures forall id :: id !in ids ==> (id in Bind(memory, ids, vs) <==> id in memory)
    ensures forall id :: id !in ids && id in memory ==> Bind(memory, ids, vs)[id] == memory[id]
    ensures Distinct(ids) ==>
              forall i :: 0 <= i < |ids| ==>
                ids[i] in Bind(memory, ids, vs) && Bind(memory, ids, vs)[ids[i]] == vs[i]
    decreases |ids|
  {
    if ids == [] {
    } else {
      BindLookup(memory[ids[0] := vs[0]], ids[1..], vs[1..]);
      if Distinct(ids) {
        DistinctTail(ids);
        forall i | 0 <= i < |ids|
          ensures ids[i] in Bind(memory, ids, vs) && Bind(memory, ids, vs)[ids[i]] == vs[i]
        {
          if i > 0 { assert ids[i] == ids[1..][i - 1]; }
        }
      }
    }
  }

  lemma DistinctTail<T>(xs: seq<T>)
    requires xs != [] && Distinct(xs)
    ensures Distinct(xs[1..]) && xs[0] !in xs[1..]
  {}

  function ResolveBit(memory: Memory, operand: Operand): Option<bool> {
    var v :- Resolve(memory, operand);
    AsBit(v)
  }

  /** A read without a guard is active; a guarded one follows its guard. */
  function ReadActive(memory: Memory, guard: Option<Operand>): Option<bool> {
    match guard
    case None => Some(true)
    case Some(g) => ResolveBit(memory, g)
  }

  // ----- one instruction -----

  /** Reads the next value of type `t` from a transcript. */
  function ReadTranscript(c: Params, transcript: seq<nat>, idx: nat, t: IrType): Option<IrValue> {
    var w := EncodedLen(c, t);
    if idx + w > |transcript| then None else Encoding.Decode(c, t, transcript[idx..idx + w])
  }

  /** A guarded-off impact pushes zeros; an active one pushes its inputs and checks them. */
  function StepImpact(pre: Preimage, s: State, guard: Operand, inputs: seq<Operand>): Option<State> {
    var active :- ResolveBit(s.memory, guard);
    var n := |inputs|;
    if !active then
      Some(s.(pis := s.pis + Zeros(n), piSkips := s.piSkips + [Some(n)]))
    else
      var vs :- ResolveAll(s.memory, inputs);
      var xs :- AllNative(vs);
      var from, to := s.publicInputsIdx, s.publicInputsIdx + n;
      if to > |pre.publicTranscriptInputs| || pre.publicTranscriptInputs[from..to] != xs then None
      else Some(s.(pis := s.pis + xs, piSkips := s.piSkips + [None], publicInputsIdx := to))
  }

  /** A guarded-off read yields the default; an active one advances its own cursor. */
  function StepRead(c: Params, pre: Preimage, s: State, ins: Instruction): Option<State>
    requires ins.PublicInput? || ins.PrivateInput?
  {
    var active :- ReadActive(s.memory, ins.readGuard);
    if !active then
      var v :- Default(ins.valT);
      Some(s.(memory := s.memory[ins.output := v]))
    else if ins.PublicInput? then
      var v :- ReadTranscript(c, pre.publicTranscriptOutputs, s.publicOutputsIdx, ins.valT);
      Some(s.(memory := s.memory[ins.output := v],
              publicOutputsIdx := s.publicOutputsIdx + EncodedLen(c, ins.valT)))
    else
      var v :- ReadTranscript(c, pre.privateTranscript, s.privateIdx, ins.valT);
      Some(s.(memory := s.memory[ins.output := v], privateIdx := s.privateIdx + EncodedLen(c, ins.valT)))
  }

  function StepOutput(src: IrSource, s: State, vals: seq<Operand>): Option<State> {
    if |vals| != |src.outputs| then None
    else
      var vs :- ResolveAll(s.memory, vals);
      if TypesOf(vs) != src.outputs then None else Some(s.(outputs := s.outputs + vs))
  }

  function StepCompute(c: Params, s: State, ins: Instruction): Option<State>
    requires ins.Computes()
  {
    var vs :- ResolveAll(s.memory, ins.Args());
    var results :- Apply(c, ins, vs);
    if |results| != |ins.Outs()| then None
    else Some(s.(memory := Bind(s.memory, ins.Outs(), results)))
  }

  function Step(c: Params, src: IrSource, pre: Preimage, s: State, ins: Instruction): Option<State> {
    if ins.Impact? then StepImpact(pre, s, ins.guard, ins.inputs)
    else if ins.PublicInput? || ins.PrivateInput? then StepRead(c, pre, s, ins)
    else if ins.Output? then StepOutput(src, s, ins.vals)
    else StepCompute(c, s, ins)
  }

  // ----- the whole run -----

  /** Decodes the raw inputs; they must be used up exactly. */
  function DecodeInputs(c: Params, inputs: seq<TypedIdentifier>, raw: seq<nat>, memory: Memory): Option<Memory> {
    if inputs == [] then
      if raw == [] then Some(memory) else None
    else
      var w := EncodedLen(c, inputs[0].valT);
      if w > |raw| then None
      else
        var v :- Encoding.Decode(c, inputs[0].valT, raw[..w]);
        DecodeInputs(c, inputs[1..], raw[w..], memory[inputs[0].name := v])
  }

  lemma DecodeFirst(c: Params, inputs: seq<TypedIdentifier>, raw: seq<nat>, memory: Memory)
    requires inputs != [] && EncodedLen(c, inputs[0].valT) <= |raw|
    ensures var w := EncodedLen(c, inputs[0].valT);
            DecodeInputs(c, inputs, raw, memory) ==
            match Encoding.Decode(c, inputs[0].valT, raw[..w])
            case None => None
            case Some(v) => DecodeInputs(c, inputs[1..], raw[w..], memory[inputs[0].name := v])
  {}

  lemma DecodeEnds(c: Params, inputs: seq<TypedIdentifier>, raw: seq<nat>, memory: Memory)
    ensures inputs == [] ==> DecodeInputs(c, inputs, raw, memory) == if raw == [] then Some(memory) else None
    ensures inputs != [] && EncodedLen(c, inputs[0].valT) > |raw| ==> DecodeInputs(c, inputs, raw, memory) == None
  {}

  function Init(c: Params, src: IrSource, pre: Preimage): Option<State> {
    var memory :- DecodeInputs(c, src.inputs, pre.inputs, map[]);
    if src.doCommunicationsCommitment then
      var comm :- pre.communicationsCommitment;
      Some(State(memory, [pre.bindingInput, comm.0], [], 0, 0, 0, []))
    else
      Some(State(memory, [pre.bindingInput], [], 0, 0, 0, []))
  }

  function RunFrom(c: Params, src: IrSource, pre: Preimage, s: State, todo: seq<Instruction>): Option<State>
    decreases |todo|
  {
    if todo == [] then Some(s)
    else
      var s' :- Step(c, src, pre, s, todo[0]);
      RunFrom(c, src, pre, s', todo[1..])
  }

  /** The three transcripts of a preimage. */
  datatype Tape = PublicIn | PublicOut | Private

  function TapeOf(tape: Tape, pre: Preimage): seq<nat> {
    match tape
    case PublicIn => pre.publicTranscriptInputs
    case PublicOut => pre.publicTranscriptOutputs
    case Private => pre.privateTranscript
  }

  function Cursor(tape: Tape, s: State): nat {
    match tape
    case PublicIn => s.publicInputsIdx
    case PublicOut => s.publicOutputsIdx
    case Private => s.privateIdx
  }

  predicate TranscriptsConsumed(pre: Preimage, s: State) {
    && s.publicInputsIdx == |pre.publicTranscriptInputs|
    && s.publicOutputsIdx == |pre.publicTranscriptOutputs|
    && s.privateIdx == |pre.privateTranscript|
  }

  /** The commitment to a list of field elements under the given randomness. */
  function TransientCommit(c: Params, xs: seq<nat>, rand: nat): nat {
    c.poseidon([rand] + xs)
  }

  predicate CommitmentOpens(c: Params, src: IrSource, pre: Preimage, s: State) {
    src.doCommunicationsCommitment ==>
      && pre.communicationsCommitment.Some?
      && var (comm, rand) := pre.communicationsCommitment.value;
         comm == TransientCommit(c, pre.inputs + Encoding.EncodeAll(c, s.outputs), rand)
  }

  /** The final state of a successful run. */
  function Run(c: Params, src: IrSource, pre: Preimage): Option<State> {
    var s0 :- Init(c, src, pre);
    var s :- RunFrom(c, src, pre, s0, src.instructions);
    if TranscriptsConsumed(pre, s) && CommitmentOpens(c, src, pre, s) then Some(s) else None
  }

  function Preprocess(c: Params, src: IrSource, pre: Preimage): Option<Preprocessed> {
    var s :- Run(c, src, pre);
    Some(Preprocessed(s.memory, s.pis, s.piSkips, pre.bindingInput, pre.communicationsCommitment))
  }
}
