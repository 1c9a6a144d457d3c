/**
  Completeness over whole runs: the assignment built from the final memory of a successful
  `preprocess` satisfies every constraint of the circuit, and holds that same memory and
  those same public inputs.
 */
module Completeness {
  import opened Options
  import opened Digits
  import opened Types
  import opened Instructions
  import opened Operations
  import opened Preprocess
  import opened Typing
  import opened Agreement
  import opened OpAgreement
  import Encoding
  import Circuit
  import CircuitRun
  import Gadgets
  import OpSoundness
  import Readings
  import Satisfiability
  import Soundness

  // ----- single assignment -----

  lemma DistinctParts<T>(xs: seq<T>, ys: seq<T>)
    requires Distinct(xs + ys)
    ensures Distinct(xs) && Distinct(ys) && forall x :: x in xs ==> x !in ys
  {
    forall i, j | 0 <= i < j < |xs|
      ensures xs[i] != xs[j]
    {
      assert (xs + ys)[i] == xs[i] && (xs + ys)[j] == xs[j];
    }
    forall i, j | 0 <= i < j < |ys|
      ensures ys[i] != ys[j]
    {
      assert (xs + ys)[|xs| + i] == ys[i] && (xs + ys)[|xs| + j] == ys[j];
    }
    forall i, j | 0 <= i < |xs| && 0 <= j < |ys|
      ensures xs[i] != ys[j]
    {
      assert (xs + ys)[i] == xs[i] && (xs + ys)[|xs| + j] == ys[j];
    }
  }

  /** A step leaves everything but its own outputs alone. */
  lemma StepKeeps(c: Params, src: IrSource, pre: Preimage, s: State, ins: Instruction, id: Identifier)
    requires Step(c, src, pre, s, ins).Some? && id in s.memory && id !in ins.Outs()
    ensures var s' := Step(c, src, pre, s, ins).value;
            id in s'.memory && s'.memory[id] == s.memory[id]
  {
    if ins.Computes() {
      var vs := ResolveAll(s.memory, ins.Args()).value;
      BindLookup(s.memory, ins.Outs(), Apply(c, ins, vs).value);
    } else if IsRead(ins) {
      assert ins.output in ins.Outs();
    }
  }

  lemma {:induction false} RunKeeps(c: Params, src: IrSource, pre: Preimage, s: State, todo: seq<Instruction>,
      id: Identifier)
    requires RunFrom(c, src, pre, s, todo).Some? && id in s.memory && id !in Written(todo)
    ensures var e := RunFrom(c, src, pre, s, todo).value;
            id in e.memory && e.memory[id] == s.memory[id]
    decreases |todo|
  {
    if todo == [] {
    } else {
      StepKeeps(c, src, pre, s, todo[0], id);
      RunKeeps(c, src, pre, Step(c, src, pre, s, todo[0]).value, todo[1..], id);
    }
  }

  // ----- what the witness needs -----

  /** No instruction after a read writes the identifier that the read binds. */
  predicate KeepsReads(todo: seq<Instruction>) {
    todo != [] ==> (IsRead(todo[0]) ==> todo[0].output !in Written(todo[1..])) && KeepsReads(todo[1..])
  }

  /** What the witness is read off stays in memory: inputs are distinct and not written, reads not overwritten. */
  predicate KeepsWitness(src: IrSource) {
    && Distinct(InputNames(src.inputs))
    && (forall i :: 0 <= i < |src.inputs| ==> InputNames(src.inputs)[i] !in Written(src.instructions))
    && KeepsReads(src.instructions)
  }

  lemma {:induction false} DistinctKeepsReads(todo: seq<Instruction>)
    requires Distinct(Written(todo))
    ensures KeepsReads(todo)
  {
    if todo == [] {
    } else {
      DistinctParts(todo[0].Outs(), Written(todo[1..]));
      DistinctKeepsReads(todo[1..]);
      if IsRead(todo[0]) { assert todo[0].output in todo[0].Outs(); }
    }
  }

  /** Single assignment is more than enough: computed identifiers may be bound again. */
  lemma SingleAssignmentKeepsWitness(src: IrSource)
    requires SingleAssignment(src)
    ensures KeepsWitness(src)
  {
    DistinctParts(InputNames(src.inputs), Written(src.instructions));
    DistinctKeepsReads(src.instructions);
  }

  // ----- the witness in the final memory -----

  /** The values of the transcript reads, looked up in a memory in program order. */
  function ReadValues(memory: Memory, todo: seq<Instruction>): seq<IrValue> {
    if todo == [] then []
    else
      var rest := ReadValues(memory, todo[1..]);
      if IsRead(todo[0]) && todo[0].output in memory then [memory[todo[0].output]] + rest else rest
  }

  function FinalWitness(src: IrSource, pre: Preimage, memory: Memory): CircuitRun.Witness {
    CircuitRun.Witness(
      Circuit.InputValues(memory, InputNames(src.inputs)),
      ReadValues(memory, src.instructions),
      pre.bindingInput,
      if src.doCommunicationsCommitment then pre.communicationsCommitment else None)
  }

  /** The witness as the circuit takes it from what `preprocess` returned. */
  function RecordedWitness(src: IrSource, prep: Preprocessed): CircuitRun.Witness {
    CircuitRun.Witness(
      Circuit.InputValues(prep.memory, InputNames(src.inputs)),
      ReadValues(prep.memory, src.instructions),
      prep.bindingInput,
      if src.doCommunicationsCommitment then prep.commComm else None)
  }

  lemma ReadOutput(c: Params, src: IrSource, pre: Preimage, s: State, todo: seq<Instruction>)
    requires c.Sizes() && ValidPreimage(c, pre) && todo != [] && IsRead(todo[0]) && KeepsReads(todo)
    requires Step(c, src, pre, s, todo[0]).Some?
    requires RunFrom(c, src, pre, Step(c, src, pre, s, todo[0]).value, todo[1..]).Some?
    ensures var s' := Step(c, src, pre, s, todo[0]).value;
            var e := RunFrom(c, src, pre, s', todo[1..]).value;
            && todo[0].output in s'.memory
            && ReadValues(e.memory, todo) == [s'.memory[todo[0].output]] + ReadValues(e.memory, todo[1..])
  {
    var s', id := Step(c, src, pre, s, todo[0]).value, todo[0].output;
    ReadIsTyped(c, pre, s, todo[0]);
    RunKeeps(c, src, pre, s', todo[1..], id);
  }

  /** The next value of the witness is the one that a read binds now. */
  lemma NextRead(c: Params, src: IrSource, pre: Preimage, s: State, todo: seq<Instruction>, readValues: seq<IrValue>,
      used: nat)
    requires c.Sizes() && ValidPreimage(c, pre) && todo != [] && KeepsReads(todo)
    requires RunFrom(c, src, pre, s, todo).Some? && used <= |readValues|
    requires readValues[used..] == ReadValues(RunFrom(c, src, pre, s, todo).value.memory, todo)
    ensures Step(c, src, pre, s, todo[0]).Some?
    ensures IsRead(todo[0]) ==>
              && used < |readValues|
              && Some(readValues[used]) == Resolve(Step(c, src, pre, s, todo[0]).value.memory, Variable(todo[0].output))
    ensures var next := used + if IsRead(todo[0]) then 1 else 0;
            && next <= |readValues|
            && readValues[next..] == ReadValues(RunFrom(c, src, pre, s, todo).value.memory, todo[1..])
  {
    if IsRead(todo[0]) {
      ReadOutput(c, src, pre, s, todo);
      TailCons(readValues, used);
    }
  }

  lemma TailCons<T>(xs: seq<T>, i: nat)
    requires i <= |xs|
    ensures i < |xs| ==> xs[i..][0] == xs[i] && xs[i..][1..] == xs[i + 1..]
  {}

  lemma {:induction false} RunAgrees(c: Params, src: IrSource, pre: Preimage, w: CircuitRun.Witness, s: State,
      todo: seq<Instruction>, t: CircuitRun.RunState)
    requires c.Valid() && HashesAgree(c, todo) && ValidState(c, s) && ValidPreimage(c, pre) && Same(s, t)
    requires forall i :: 0 <= i < |todo| ==> OpSoundness.TypedInstruction(c, todo[i])
    requires KeepsReads(todo)
    requires CheckFrom(c, src, StaticOf(s), todo).Some? && RunFrom(c, src, pre, s, todo).Some?
    requires t.used <= |w.readValues|
    requires w.readValues[t.used..] == ReadValues(RunFrom(c, src, pre, s, todo).value.memory, todo)
    ensures Follows(c, RunFrom(c, src, pre, s, todo).value, CheckFrom(c, src, StaticOf(s), todo),
                    CircuitRun.RunFrom(c, src, w, t, todo), |w.readValues|)
    decreases |todo|
  {
    if todo == [] {
    } else {
      var s' := Step(c, src, pre, s, todo[0]).value;
      NextRead(c, src, pre, s, todo, w.readValues, t.used);
      StepAgrees(c, src, pre, w, s, todo[0], t);
      var t' := CircuitRun.RunStep(c, src, w, t, todo[0]).value;
      RunAgrees(c, src, pre, w, s', todo[1..], t');
    }
  }

  // ----- inputs -----

  lemma PrefixDecoded(c: Params, t: IrType, raw: seq<nat>, n: nat) returns (v: IrValue, rest: seq<nat>)
    requires c.Sizes() && c.FieldElements(raw) && n <= |raw| && Encoding.Decode(c, t, raw[..n]).Some?
    ensures Encoding.Decode(c, t, raw[..n]) == Some(v) && TypeOf(v) == t && ValidValue(c, v)
    ensures rest == raw[n..] && c.FieldElements(rest) && raw == Encoding.Encode(c, v) + rest
  {
    v, rest := Encoding.Decode(c, t, raw[..n]).value, raw[n..];
    Encoding.DecodeIsExactInverse(c, t, raw[..n], v);
  }

  lemma FirstInput(c: Params, inputs: seq<TypedIdentifier>, raw: seq<nat>, memory: Memory)
    returns (v: IrValue, rest: seq<nat>)
    requires c.Sizes() && c.FieldElements(raw) && inputs != [] && DecodeInputs(c, inputs, raw, memory).Some?
    ensures TypeOf(v) == inputs[0].valT && ValidValue(c, v)
    ensures c.FieldElements(rest) && raw == Encoding.Encode(c, v) + rest
    ensures DecodeInputs(c, inputs, raw, memory) == DecodeInputs(c, inputs[1..], rest, memory[inputs[0].name := v])
  {
    DecodeEnds(c, inputs, raw, memory);
    DecodeFirst(c, inputs, raw, memory);
    v, rest := PrefixDecoded(c, inputs[0].valT, raw, EncodedLen(c, inputs[0].valT));
  }

  lemma InputsCons(c: Params, inputs: seq<TypedIdentifier>, v: IrValue, rest: seq<IrValue>)
    requires inputs != [] && TypeOf(v) == inputs[0].valT && ValidValue(c, v)
             && CircuitRun.InputsTyped(c, inputs[1..], rest)
    ensures CircuitRun.InputsTyped(c, inputs, [v] + rest)
  {
    forall i | 0 <= i < |inputs|
      ensures TypeOf(([v] + rest)[i]) == inputs[i].valT && ValidValue(c, ([v] + rest)[i])
    {
      if i > 0 { assert TypeOf(rest[i - 1]) == inputs[1..][i - 1].valT && ValidValue(c, rest[i - 1]); }
    }
  }

  /** Decoding the inputs binds typed values whose encodings, in order, are the raw inputs. */
  lemma {:induction false} InputsDecoded(c: Params, inputs: seq<TypedIdentifier>, raw: seq<nat>, memory: Memory)
    returns (vs: seq<IrValue>)
    requires c.Sizes() && c.FieldElements(raw) && DecodeInputs(c, inputs, raw, memory).Some?
    ensures CircuitRun.InputsTyped(c, inputs, vs) && raw == Encoding.EncodeAll(c, vs)
    ensures DecodeInputs(c, inputs, raw, memory) == Some(Bind(memory, InputNames(inputs), vs))
    decreases |inputs|
  {
    vs := [];
    if inputs == [] {
    } else {
      var v, left := FirstInput(c, inputs, raw, memory);
      var rest := InputsDecoded(c, inputs[1..], left, memory[inputs[0].name := v]);
      vs := [v] + rest;
      InputsCons(c, inputs, v, rest);
      assert InputNames(inputs)[1..] == InputNames(inputs[1..]);
    }
  }

  lemma {:induction false} InputsLookedUp(memory: Memory, names: seq<Identifier>, vs: seq<IrValue>)
    requires |names| == |vs|
    requires forall i :: 0 <= i < |names| ==> names[i] in memory && memory[names[i]] == vs[i]
    ensures Circuit.InputValues(memory, names) == vs
  {
    if names == [] {
    } else {
      forall i | 0 <= i < |names| - 1
        ensures names[1..][i] in memory && memory[names[1..][i]] == vs[1..][i]
      {
        assert names[1..][i] == names[i + 1];
      }
      InputsLookedUp(memory, names[1..], vs[1..]);
    }
  }

  /** Inputs that nothing writes are still in the final memory. */
  lemma InputsSurvive(c: Params, src: IrSource, pre: Preimage, vs: seq<IrValue>)
    requires KeepsWitness(src) && |vs| == |src.inputs|
    requires Init(c, src, pre).Some? && Init(c, src, pre).value.memory == Bind(map[], InputNames(src.inputs), vs)
    requires RunFrom(c, src, pre, Init(c, src, pre).value, src.instructions).Some?
    ensures var e := RunFrom(c, src, pre, Init(c, src, pre).value, src.instructions).value;
            Circuit.InputValues(e.memory, InputNames(src.inputs)) == vs
  {
    var names, s0 := InputNames(src.inputs), Init(c, src, pre).value;
    var e := RunFrom(c, src, pre, s0, src.instructions).value;
    BindLookup(map[], names, vs);
    forall i | 0 <= i < |names|
      ensures names[i] in e.memory && e.memory[names[i]] == vs[i]
    {
      RunKeeps(c, src, pre, s0, src.instructions, names[i]);
    }
    InputsLookedUp(e.memory, names, vs);
  }

  lemma InputsChecked(c: Params, inputs: seq<TypedIdentifier>, vs: seq<IrValue>)
    requires CircuitRun.InputsTyped(c, inputs, vs)
    ensures TypesOf(vs) == InputTypes(inputs) && forall i :: 0 <= i < |inputs| ==> !inputs[i].valT.Point?
  {
    forall i | 0 <= i < |inputs|
      ensures inputs[i].valT == TypesOf(vs)[i] && !inputs[i].valT.Point?
    {
      assert TypeOf(vs[i]) == inputs[i].valT;
    }
  }

  /** The interpreter's initial state is the circuit's, on the witness that holds the decoded inputs. */
  lemma InitAgrees(c: Params, src: IrSource, pre: Preimage, w: CircuitRun.Witness, vs: seq<IrValue>)
    requires c.Sizes() && ValidPreimage(c, pre) && Init(c, src, pre).Some?
    requires CircuitRun.InputsTyped(c, src.inputs, vs)
    requires DecodeInputs(c, src.inputs, pre.inputs, map[]) == Some(Bind(map[], InputNames(src.inputs), vs))
    requires w.inputs == vs && w.bindingInput == pre.bindingInput
    requires w.commitment == if src.doCommunicationsCommitment then pre.communicationsCommitment else None
    ensures Follows(c, Init(c, src, pre).value, CheckInit(src), CircuitRun.RunInit(c, src, w), 0)
  {
    InputsChecked(c, src.inputs, vs);
    BindTyped(map[], InputNames(src.inputs), vs);
    BindValid(c, map[], InputNames(src.inputs), vs);
    assert EnvOf(map[]) == map[];
    assert TypesOf([]) == [];
  }

  // ----- the whole run -----

  /**
    What completeness asks of the source: it passes the static check and keeps its witness, and
    if it hashes aligned inputs the library reads them as the circuit does. Whether its chips are
    selected matters only where a circuit is spoken of, and `Synthesize` includes it.
   */
  ghost predicate SuitableSource(c: Params, src: IrSource) {
    && c.Valid() && HashesAgree(c, src.instructions)
    && Soundness.TypedSource(c, src) && KeepsWitness(src) && Check(c, src).Some?
  }

  /** And of the preimage: field elements. */
  ghost predicate Suitable(c: Params, src: IrSource, pre: Preimage) {
    SuitableSource(c, src) && ValidPreimage(c, pre)
  }

  /**
    Commitment agreement: the list hashed off-circuit, raw inputs and encoded outputs, is the
    list that the circuit re-encodes from the final memory.
   */
  lemma CommitmentAgrees(c: Params, src: IrSource, pre: Preimage, t: CircuitRun.RunState)
    requires c.Sizes() && KeepsWitness(src) && ValidPreimage(c, pre)
    requires Run(c, src, pre).Some? && Same(Run(c, src, pre).value, t)
    ensures pre.inputs + Encoding.EncodeAll(c, Run(c, src, pre).value.outputs) == CircuitRun.Committed(c, src, t)
  {
    var vs := InputsDecoded(c, src.inputs, pre.inputs, map[]);
    InputsSurvive(c, src, pre, vs);
  }

  /** A successful `preprocess` is a run of the circuit on the witness that its final memory holds. */
  lemma PreprocessIsRun(c: Params, src: IrSource, pre: Preimage)
    requires Suitable(c, src, pre) && Run(c, src, pre).Some?
    ensures var e := Run(c, src, pre).value;
            var t := CircuitRun.Run(c, src, FinalWitness(src, pre, e.memory));
            t.Some? && Same(e, t.value) && Check(c, src) == Some(StaticOf(e)) && ValidState(c, e)
  {
    var s0, e := Init(c, src, pre).value, Run(c, src, pre).value;
    var w := FinalWitness(src, pre, e.memory);
    var vs := InputsDecoded(c, src.inputs, pre.inputs, map[]);
    InputsSurvive(c, src, pre, vs);
    InitAgrees(c, src, pre, w, vs);
    var t0 := CircuitRun.RunInit(c, src, w).value;
    assert w.readValues[0..] == w.readValues;
    RunAgrees(c, src, pre, w, s0, src.instructions, t0);
    CommitmentAgrees(c, src, pre, CircuitRun.RunFrom(c, src, w, t0, src.instructions).value);
  }

  /**
    Completeness. Whenever `preprocess` succeeds on a source that passes the static check and
    keeps its witness, some assignment satisfies the whole circuit, its named cells
    hold the memory of the interpreter at every identifier, and its public-input cells hold
    exactly `pis`. The witness in it is read off what `preprocess` returned.
   */
  lemma PreprocessSatisfiesCircuit(c: Params, src: IrSource, pre: Preimage, k: Circuit.CircuitShape)
    returns (a: Gadgets.Assignment)
    requires Suitable(c, src, pre) && Circuit.Synthesize(c, src) == Some(k)
    requires Preprocess.Preprocess(c, src, pre).Some?
    ensures var prep := Preprocess.Preprocess(c, src, pre).value;
            && Gadgets.Sat(c, k.b, a)
            && Readings.ReadMemory(a, k.memory) == prep.memory
            && Gadgets.Cells(a, k.pis) == prep.pis
            && Soundness.WitnessOf(a, k) == FinalWitness(src, pre, prep.memory)
            && Soundness.WitnessOf(a, k) == RecordedWitness(src, prep)
  {
    PreprocessIsRun(c, src, pre);
    a := Satisfiability.RunIsSatisfiable(c, src, k, FinalWitness(src, pre, Run(c, src, pre).value.memory));
    Soundness.SatisfyingIsRun(c, src, k, a);
  }
}
