/**
  `preprocess` as the source runs it: one pass over the instructions that updates the
  memory, the public inputs, the skip records, the three transcript cursors and the
  outputs in place. Each method is tied to the step function it carries out.
 */
module Interpreter {
  import opened Options
  import opened Digits
  import opened Types
  import opened Instructions
  import opened Operations
  import opened Preprocess
  import Encoding

  /** Compares the values just pushed with the transcript, position by position. */
  method CompareTranscript(transcript: seq<nat>, from: nat, xs: seq<nat>) returns (matches: bool)
    requires from <= |transcript|
    ensures matches <==> from + |xs| <= |transcript| && transcript[from..from + |xs|] == xs
  {
    for i := 0 to |xs|
      invariant from + i <= |transcript| && transcript[from..from + i] == xs[..i]
    {
      if from + i >= |transcript| || transcript[from + i] != xs[i] {
        assert from + |xs| <= |transcript| ==> transcript[from..from + |xs|][i] == transcript[from + i];
        return false;
      }
      assert transcript[from..from + i + 1] == transcript[from..from + i] + [transcript[from + i]];
      assert xs[..i + 1] == xs[..i] + [xs[i]];
    }
    return true;
  }

  lemma SliceTwice<T>(xs: seq<T>, i: nat, n: nat)
    requires i + n <= |xs|
    ensures xs[i..][..n] == xs[i..i + n] && xs[i..][n..] == xs[i + n..]
  {}

  /** Decodes the raw inputs one after the other into a memory. */
  method ReadInputs(c: Params, inputs: seq<TypedIdentifier>, raw: seq<nat>) returns (r: Option<Memory>)
    ensures r == DecodeInputs(c, inputs, raw, map[])
  {
    var memory: Memory, idx: nat := map[], 0;
    ghost var goal := DecodeInputs(c, inputs, raw, memory);
    ghost var todo, left := inputs, raw;
    for i := 0 to |inputs|
      invariant idx <= |raw| && todo == inputs[i..] && left == raw[idx..]
      invariant DecodeInputs(c, todo, left, memory) == goal
    {
      var w := EncodedLen(c, inputs[i].valT);
      DecodeEnds(c, todo, left, memory);
      if idx + w > |raw| {
        return None;
      }
      DecodeFirst(c, todo, left, memory);
      SliceTwice(raw, idx, w);
      SliceTwice(inputs, i, 1);
      var v := Encoding.Decode(c, inputs[i].valT, raw[idx..idx + w]);
      if v.None? {
        return None;
      }
      memory := memory[inputs[i].name := v.value];
      idx := idx + w;
      todo, left := todo[1..], left[w..];
    }
    DecodeEnds(c, todo, left, memory);
    r := if idx == |raw| then Some(memory) else None;
  }

  class Run {
    const c: Params
    const src: IrSource
    const pre: Preimage
    var memory: Memory
    var pis: seq<nat>
    var piSkips: seq<Option<nat>>
    var publicInputsIdx: nat
    var publicOutputsIdx: nat
    var privateIdx: nat
    var outputs: seq<IrValue>

    constructor (c: Params, src: IrSource, pre: Preimage, memory: Memory)
      ensures this.c == c && this.src == src && this.pre == pre
      ensures State() == Preprocess.State(memory, [pre.bindingInput], [], 0, 0, 0, [])
    {
      this.c, this.src, this.pre := c, src, pre;
      this.memory, pis, piSkips, outputs := memory, [pre.bindingInput], [], [];
      publicInputsIdx, publicOutputsIdx, privateIdx := 0, 0, 0;
    }

    function State(): Preprocess.State
      reads this
    {
      Preprocess.State(memory, pis, piSkips, publicInputsIdx, publicOutputsIdx, privateIdx, outputs)
    }

    /** The public cursor never runs past the transcript that impacts are checked against. */
    predicate InTranscript()
      reads this
    {
      publicInputsIdx <= |pre.publicTranscriptInputs|
    }

    method Impact(guard: Operand, inputs: seq<Operand>) returns (ok: bool)
      requires InTranscript()
      modifies this`pis, this`piSkips, this`publicInputsIdx
      ensures ok == StepImpact(pre, old(State()), guard, inputs).Some?
      ensures ok ==> Some(State()) == StepImpact(pre, old(State()), guard, inputs) && InTranscript()
    {
      var active := ResolveBit(memory, guard);
      if active.None? {
        return false;
      }
      if !active.value {
        for j := 0 to |inputs|
          invariant State() == old(State()).(pis := old(pis) + Zeros(j))
        {
          pis := pis + [0];
        }
        piSkips := piSkips + [Some(|inputs|)];
        return true;
      }
      var vs := ResolveAll(memory, inputs);
      if vs.None? {
        return false;
      }
      var xs := AllNative(vs.value);
      if xs.None? {
        return false;
      }
      AllNativeLen(vs.value);
      pis := pis + xs.value;
      var matches := CompareTranscript(pre.publicTranscriptInputs, publicInputsIdx, xs.value);
      if !matches {
        return false;
      }
      publicInputsIdx := publicInputsIdx + |inputs|;
      piSkips := piSkips + [None];
      return true;
    }

    method Read(ins: Instruction) returns (ok: bool)
      requires ins.PublicInput? || ins.PrivateInput?
      modifies this`memory, this`publicOutputsIdx, this`privateIdx
      ensures ok == StepRead(c, pre, old(State()), ins).Some?
      ensures ok ==> Some(State()) == StepRead(c, pre, old(State()), ins)
    {
      var active := ReadActive(memory, ins.readGuard);
      if active.None? {
        return false;
      }
      var v := Default(ins.valT);
      if active.value {
        if ins.PublicInput? {
          v := ReadTranscript(c, pre.publicTranscriptOutputs, publicOutputsIdx, ins.valT);
          publicOutputsIdx := publicOutputsIdx + EncodedLen(c, ins.valT);
        } else {
          v := ReadTranscript(c, pre.privateTranscript, privateIdx, ins.valT);
          privateIdx := privateIdx + EncodedLen(c, ins.valT);
        }
      }
      if v.None? {
        return false;
      }
      memory := memory[ins.output := v.value];
      return true;
    }

    method Output(vals: seq<Operand>) returns (ok: bool)
      modifies this`outputs
      ensures ok == StepOutput(src, old(State()), vals).Some?
      ensures ok ==> Some(State()) == StepOutput(src, old(State()), vals)
    {
      if |vals| != |src.outputs| {
        return false;
      }
      var vs := ResolveAll(memory, vals);
      if vs.None? {
        return false;
      }
      for i := 0 to |vals|
        invariant outputs == old(outputs) + vs.value[..i]
        invariant TypesOf(vs.value)[..i] == src.outputs[..i]
      {
        if TypeOf(vs.value[i]) != src.outputs[i] {
          assert TypesOf(vs.value)[i] != src.outputs[i];
          return false;
        }
        outputs := outputs + [vs.value[i]];
      }
      assert vs.value[..|vals|] == vs.value;
      return true;
    }

    method Compute(ins: Instruction) returns (ok: bool)
      requires ins.Computes()
      modifies this`memory
      ensures ok == StepCompute(c, old(State()), ins).Some?
      ensures ok ==> Some(State()) == StepCompute(c, old(State()), ins)
    {
      var vs := ResolveAll(memory, ins.Args());
      if vs.None? {
        return false;
      }
      var results := Apply(c, ins, vs.value);
      if results.None? || |results.value| != |ins.Outs()| {
        return false;
      }
      Insert(ins.Outs(), results.value);
      return true;
    }

    method Insert(ids: seq<Identifier>, vs: seq<IrValue>)
      requires |ids| == |vs|
      modifies this`memory
      ensures memory == Bind(old(memory), ids, vs)
    {
      for i := 0 to |ids|
        invariant Bind(memory, ids[i..], vs[i..]) == Bind(old(memory), ids, vs)
      {
        assert ids[i..][1..] == ids[i + 1..] && vs[i..][1..] == vs[i + 1..];
        memory := memory[ids[i] := vs[i]];
      }
    }

    method Execute(ins: Instruction) returns (ok: bool)
      requires InTranscript()
      modifies this
      ensures ok == Step(c, src, pre, old(State()), ins).Some?
      ensures ok ==> Some(State()) == Step(c, src, pre, old(State()), ins) && InTranscript()
    {
      if ins.Impact? {
        ok := Impact(ins.guard, ins.inputs);
      } else if ins.PublicInput? || ins.PrivateInput? {
        ok := Read(ins);
      } else if ins.Output? {
        ok := Output(ins.vals);
      } else {
        ok := Compute(ins);
      }
    }

    method ExecuteAll() returns (ok: bool)
      requires InTranscript()
      modifies this
      ensures ok == RunFrom(c, src, pre, old(State()), src.instructions).Some?
      ensures ok ==> Some(State()) == RunFrom(c, src, pre, old(State()), src.instructions)
    {
      for i := 0 to |src.instructions|
        invariant InTranscript()
        invariant RunFrom(c, src, pre, State(), src.instructions[i..])
                  == RunFrom(c, src, pre, old(State()), src.instructions)
      {
        assert src.instructions[i..][1..] == src.instructions[i + 1..];
        ok := Execute(src.instructions[i]);
        if !ok {
          return;
        }
      }
      ok := true;
    }

    /** Hashes the randomness, the raw inputs and the encoded outputs, if there is a commitment to open. */
    method CheckCommitment() returns (opens: bool)
      ensures opens == CommitmentOpens(c, src, pre, State())
    {
      if !src.doCommunicationsCommitment {
        return true;
      }
      if pre.communicationsCommitment.None? {
        return false;
      }
      var (comm, rand) := pre.communicationsCommitment.value;
      var committed := pre.inputs;
      for i := 0 to |outputs|
        invariant committed + Encoding.EncodeAll(c, outputs[i..]) == pre.inputs + Encoding.EncodeAll(c, outputs)
      {
        assert outputs[i..][1..] == outputs[i + 1..];
        committed := committed + Encoding.Encode(c, outputs[i]);
      }
      assert committed == pre.inputs + Encoding.EncodeAll(c, outputs);
      return comm == TransientCommit(c, committed, rand);
    }
  }

  method RunPreprocess(c: Params, src: IrSource, pre: Preimage) returns (r: Option<Preprocessed>)
    ensures r == Preprocess.Preprocess(c, src, pre)
  {
    var memory := ReadInputs(c, src.inputs, pre.inputs);
    if memory.None? {
      return None;
    }
    var run := new Run(c, src, pre, memory.value);
    if src.doCommunicationsCommitment {
      if pre.communicationsCommitment.None? {
        return None;
      }
      run.pis := run.pis + [pre.communicationsCommitment.value.0];
      assert run.pis == [pre.bindingInput, pre.communicationsCommitment.value.0];
    }
    assert Init(c, src, pre) == Some(run.State());
    var ran := run.ExecuteAll();
    if !ran || !TranscriptsConsumed(pre, run.State()) {
      return None;
    }
    var opens := run.CheckCommitment();
    if !opens {
      return None;
    }
    return Some(Preprocessed(run.memory, run.pis, run.piSkips, pre.bindingInput, pre.communicationsCommitment));
  }
}
