/**
  What a successful run says about its preimage: the transcripts it consumed can be read
  back from the final memory, and its public inputs are the public transcript with the
  guarded-off segments filled with zeros.
 */
module Transcripts {
  import opened Options
  import opened Digits
  import opened Types
  import opened Instructions
  import opened Operations
  import opened Preprocess
  import opened Agreement
  import opened Completeness
  import Circuit
  import CircuitRun
  import Encoding

  // ----- the preimage is recoverable -----

  /** The instruction reads from the given transcript. */
  predicate ReadsFrom(tape: Tape, ins: Instruction) {
    match tape
    case PublicIn => false
    case PublicOut => ins.PublicInput?
    case Private => ins.PrivateInput?
  }

  /** The encodings of the values that active reads left in a memory, in program order. */
  function Recovered(c: Params, tape: Tape, memory: Memory, todo: seq<Instruction>): seq<nat> {
    if todo == [] then []
    else RecoveredOne(c, tape, memory, todo[0]) + Recovered(c, tape, memory, todo[1..])
  }

  function RecoveredOne(c: Params, tape: Tape, memory: Memory, ins: Instruction): seq<nat> {
    if ReadsFrom(tape, ins) && ReadActive(memory, ins.readGuard) == Some(true) && ins.output in memory then
      Encoding.Encode(c, memory[ins.output])
    else []
  }

  /** An active read moves its cursor over the encoding of its value; nothing else moves it. */
  lemma ReadConsumes(c: Params, tape: Tape, pre: Preimage, s: State, ins: Instruction)
    requires c.Sizes() && ValidPreimage(c, pre) && IsRead(ins) && StepRead(c, pre, s, ins).Some?
    requires !tape.PublicIn? && Cursor(tape, s) <= |TapeOf(tape, pre)|
    ensures var s' := StepRead(c, pre, s, ins).value;
            && Cursor(tape, s) <= Cursor(tape, s') <= |TapeOf(tape, pre)| && ins.output in s'.memory
            && TapeOf(tape, pre)[Cursor(tape, s)..Cursor(tape, s')] ==
               if ReadsFrom(tape, ins) && ReadActive(s.memory, ins.readGuard) == Some(true)
               then Encoding.Encode(c, s'.memory[ins.output]) else []
  {
    if ReadsFrom(tape, ins) && ReadActive(s.memory, ins.readGuard) == Some(true) {
      TranscriptTyped(c, TapeOf(tape, pre), Cursor(tape, s), ins.valT);
    }
  }

  lemma ComputeTouches(c: Params, s: State, ins: Instruction)
    requires ins.Computes() && StepCompute(c, s, ins).Some?
    ensures StepCompute(c, s, ins).value == s.(memory := StepCompute(c, s, ins).value.memory)
  {}

  lemma OthersConsumeNothing(c: Params, tape: Tape, src: IrSource, pre: Preimage, s: State, ins: Instruction)
    requires !tape.PublicIn? && !IsRead(ins) && Step(c, src, pre, s, ins).Some?
    ensures Cursor(tape, Step(c, src, pre, s, ins).value) == Cursor(tape, s)
  {
    if ins.Computes() { ComputeTouches(c, s, ins); }
  }

  /** The guard and the value of a read stay in memory as they are. */
  lemma ReadStays(c: Params, tape: Tape, src: IrSource, pre: Preimage, s: State, todo: seq<Instruction>)
    requires c.Sizes() && ValidPreimage(c, pre) && todo != [] && IsRead(todo[0])
    requires RunFrom(c, src, pre, s, todo).Some?
    requires Distinct(Written(todo)) && forall id :: id in s.memory ==> id !in Written(todo)
    ensures var s', e := Step(c, src, pre, s, todo[0]).value, RunFrom(c, src, pre, s, todo).value;
            && todo[0].output in s'.memory && todo[0].output in e.memory
            && e.memory[todo[0].output] == s'.memory[todo[0].output]
            && ReadActive(e.memory, todo[0].readGuard) == ReadActive(s.memory, todo[0].readGuard)
  {
    var s', id := Step(c, src, pre, s, todo[0]).value, todo[0].output;
    ReadIsTyped(c, pre, s, todo[0]);
    assert todo[0].Outs() == [id];
    DistinctParts([id], Written(todo[1..]));
    RunKeeps(c, src, pre, s', todo[1..], id);
    var g := todo[0].readGuard;
    if g.Some? && g.value.Variable? {
      RunKeeps(c, src, pre, s, todo, g.value.id);
    }
  }

  /** Identifiers bound so far are not written later. */
  lemma ScopeStep(c: Params, src: IrSource, pre: Preimage, s: State, todo: seq<Instruction>)
    requires todo != [] && Step(c, src, pre, s, todo[0]).Some?
    requires Distinct(Written(todo)) && forall id :: id in s.memory ==> id !in Written(todo)
    ensures var s' := Step(c, src, pre, s, todo[0]).value;
            Distinct(Written(todo[1..])) && forall id :: id in s'.memory ==> id !in Written(todo[1..])
  {
    DistinctParts(todo[0].Outs(), Written(todo[1..]));
    StepBinds(c, src, pre, s, todo[0]);
  }

  lemma StepBinds(c: Params, src: IrSource, pre: Preimage, s: State, ins: Instruction)
    requires Step(c, src, pre, s, ins).Some?
    ensures forall id :: id in Step(c, src, pre, s, ins).value.memory ==> id in s.memory || id in ins.Outs()
  {
    if ins.Computes() {
      var vs := ResolveAll(s.memory, ins.Args()).value;
      BindLookup(s.memory, ins.Outs(), Apply(c, ins, vs).value);
    } else if IsRead(ins) {
      assert ins.output in ins.Outs();
    }
  }

  lemma {:induction false} RunRecovers(c: Params, tape: Tape, src: IrSource, pre: Preimage, s: State,
      todo: seq<Instruction>)
    requires c.Sizes() && ValidPreimage(c, pre) && RunFrom(c, src, pre, s, todo).Some?
    requires Distinct(Written(todo)) && forall id :: id in s.memory ==> id !in Written(todo)
    requires !tape.PublicIn? && Cursor(tape, s) <= |TapeOf(tape, pre)|
    ensures var e := RunFrom(c, src, pre, s, todo).value;
            && Cursor(tape, s) <= Cursor(tape, e) <= |TapeOf(tape, pre)|
            && TapeOf(tape, pre)[Cursor(tape, s)..Cursor(tape, e)] == Recovered(c, tape, e.memory, todo)
    decreases |todo|
  {
    if todo == [] {
    } else {
      var s', e := Step(c, src, pre, s, todo[0]).value, RunFrom(c, src, pre, s, todo).value;
      ScopeStep(c, src, pre, s, todo);
      if IsRead(todo[0]) {
        ReadConsumes(c, tape, pre, s, todo[0]);
        ReadStays(c, tape, src, pre, s, todo);
      } else {
        OthersConsumeNothing(c, tape, src, pre, s, todo[0]);
      }
      RunRecovers(c, tape, src, pre, s', todo[1..]);
      SlicesJoin(TapeOf(tape, pre), Cursor(tape, s), Cursor(tape, s'), Cursor(tape, e));
    }
  }

  lemma SlicesJoin(xs: seq<nat>, i: nat, j: nat, k: nat)
    requires i <= j <= k <= |xs|
    ensures xs[i..k] == xs[i..j] + xs[j..k]
  {}

  lemma InitScope(c: Params, src: IrSource, pre: Preimage)
    requires c.Sizes() && SingleAssignment(src) && ValidPreimage(c, pre) && Init(c, src, pre).Some?
    ensures Distinct(Written(src.instructions))
    ensures forall id :: id in Init(c, src, pre).value.memory ==> id !in Written(src.instructions)
  {
    var vs := InputsDecoded(c, src.inputs, pre.inputs, map[]);
    DistinctParts(InputNames(src.inputs), Written(src.instructions));
    BindLookup(map[], InputNames(src.inputs), vs);
  }

  /**
    The preimage is recoverable: after a successful run of a single-assignment source, the raw
    inputs and both read transcripts are the encodings of the values left in the final
    memory, in program order. Reads that were guarded off contribute nothing.
   */
  lemma PreimageIsRecoverable(c: Params, src: IrSource, pre: Preimage)
    requires c.Sizes() && SingleAssignment(src) && ValidPreimage(c, pre) && Run(c, src, pre).Some?
    ensures var memory := Run(c, src, pre).value.memory;
            && pre.inputs == Encoding.EncodeAll(c, Circuit.InputValues(memory, InputNames(src.inputs)))
            && pre.publicTranscriptOutputs == Recovered(c, PublicOut, memory, src.instructions)
            && pre.privateTranscript == Recovered(c, Private, memory, src.instructions)
  {
    var s0 := Init(c, src, pre).value;
    InitScope(c, src, pre);
    var vs := InputsDecoded(c, src.inputs, pre.inputs, map[]);
    SingleAssignmentKeepsWitness(src);
    InputsSurvive(c, src, pre, vs);
    RunRecovers(c, PublicOut, src, pre, s0, src.instructions);
    RunRecovers(c, Private, src, pre, s0, src.instructions);
    assert pre.publicTranscriptOutputs[0..|pre.publicTranscriptOutputs|] == pre.publicTranscriptOutputs;
    assert pre.privateTranscript[0..|pre.privateTranscript|] == pre.privateTranscript;
  }

  /** So the program and the final memory determine all three. */
  lemma MemoryDeterminesPreimage(c: Params, src: IrSource, pre: Preimage, other: Preimage)
    requires c.Sizes() && SingleAssignment(src) && ValidPreimage(c, pre) && ValidPreimage(c, other)
    requires Run(c, src, pre).Some? && Run(c, src, other).Some?
    requires Run(c, src, pre).value.memory == Run(c, src, other).value.memory
    ensures pre.inputs == other.inputs
    ensures pre.publicTranscriptOutputs == other.publicTranscriptOutputs
    ensures pre.privateTranscript == other.privateTranscript
  {
    PreimageIsRecoverable(c, src, pre);
    PreimageIsRecoverable(c, src, other);
  }

  // ----- public inputs are conserved -----

  /** The number of public inputs that each impact declares, in program order. */
  function ImpactSizes(todo: seq<Instruction>): seq<nat> {
    if todo == [] then []
    else (if todo[0].Impact? then [|todo[0].inputs|] else []) + ImpactSizes(todo[1..])
  }

  function Total(sizes: seq<nat>): nat {
    if sizes == [] then 0 else sizes[0] + Total(sizes[1..])
  }

  /** Cuts a list into consecutive segments of the given sizes. */
  function Cut(xs: seq<nat>, sizes: seq<nat>): (segments: seq<seq<nat>>)
    requires |xs| == Total(sizes)
    ensures |segments| == |sizes|
  {
    if sizes == [] then [] else [xs[..sizes[0]]] + Cut(xs[sizes[0]..], sizes[1..])
  }

  /** The segments without a skip record, concatenated. */
  function Kept(segments: seq<seq<nat>>, skips: seq<Option<nat>>): seq<nat>
    requires |segments| == |skips|
  {
    if segments == [] then []
    else (if skips[0].None? then segments[0] else []) + Kept(segments[1..], skips[1..])
  }

  /** Every skipped segment is all zero and as long as its record says. */
  predicate SkipsAreZero(segments: seq<seq<nat>>, skips: seq<Option<nat>>)
    requires |segments| == |skips|
  {
    forall i :: 0 <= i < |skips| && skips[i].Some? ==> segments[i] == Zeros(skips[i].value)
  }

  /** The binding input, and the commitment if the source has one. */
  predicate IsHeader(pre: Preimage, src: IrSource, header: seq<nat>) {
    header == [pre.bindingInput] +
              if src.doCommunicationsCommitment && pre.communicationsCommitment.Some?
              then [pre.communicationsCommitment.value.0] else []
  }

  /** What a run over `todo` adds to the public inputs and the skip records. */
  ghost predicate Conserves(pre: Preimage, s: State, e: State, sizes: seq<nat>, pis: seq<nat>,
      skips: seq<Option<nat>>)
  {
    && e.pis == s.pis + pis && e.piSkips == s.piSkips + skips
    && |pis| == Total(sizes) && |skips| == |sizes|
    && SkipsAreZero(Cut(pis, sizes), skips)
    && s.publicInputsIdx <= e.publicInputsIdx <= |pre.publicTranscriptInputs|
    && Kept(Cut(pis, sizes), skips) == pre.publicTranscriptInputs[s.publicInputsIdx..e.publicInputsIdx]
  }

  lemma ImpactConserves(pre: Preimage, s: State, guard: Operand, inputs: seq<Operand>)
    returns (pis: seq<nat>, skip: Option<nat>)
    requires s.publicInputsIdx <= |pre.publicTranscriptInputs| && StepImpact(pre, s, guard, inputs).Some?
    ensures var s' := StepImpact(pre, s, guard, inputs).value;
            && s'.pis == s.pis + pis && s'.piSkips == s.piSkips + [skip] && |pis| == |inputs|
            && (skip.Some? ==> pis == Zeros(skip.value))
            && s.publicInputsIdx <= s'.publicInputsIdx <= |pre.publicTranscriptInputs|
            && (if skip.None? then pis else []) == pre.publicTranscriptInputs[s.publicInputsIdx..s'.publicInputsIdx]
  {
    var s' := StepImpact(pre, s, guard, inputs).value;
    pis, skip := s'.pis[|s.pis|..], s'.piSkips[|s.piSkips|];
  }

  lemma OthersPushNothing(c: Params, src: IrSource, pre: Preimage, s: State, ins: Instruction)
    requires !ins.Impact? && Step(c, src, pre, s, ins).Some?
    ensures var s' := Step(c, src, pre, s, ins).value;
            s'.pis == s.pis && s'.piSkips == s.piSkips && s'.publicInputsIdx == s.publicInputsIdx
  {
    if ins.Computes() { ComputeTouches(c, s, ins); }
  }

  lemma SegmentCons(pis: seq<nat>, skip: Option<nat>, rest: seq<nat>, sizes: seq<nat>, skips: seq<Option<nat>>)
    requires |rest| == Total(sizes) && |skips| == |sizes| && SkipsAreZero(Cut(rest, sizes), skips)
    requires skip.Some? ==> pis == Zeros(skip.value)
    ensures var more := [|pis|] + sizes;
            && |pis + rest| == Total(more)
            && Cut(pis + rest, more) == [pis] + Cut(rest, sizes)
            && SkipsAreZero(Cut(pis + rest, more), [skip] + skips)
            && Kept(Cut(pis + rest, more), [skip] + skips)
               == (if skip.None? then pis else []) + Kept(Cut(rest, sizes), skips)
  {
    var more := [|pis|] + sizes;
    assert more[1..] == sizes && (pis + rest)[..|pis|] == pis && (pis + rest)[|pis|..] == rest;
    assert ([skip] + skips)[1..] == skips && ([pis] + Cut(rest, sizes))[1..] == Cut(rest, sizes);
  }

  /** One impact put in front of a run that conserves. */
  lemma ConservesCons(pre: Preimage, s: State, s': State, e: State, first: seq<nat>, skip: Option<nat>,
      sizes: seq<nat>, pis: seq<nat>, skips: seq<Option<nat>>)
    requires s'.pis == s.pis + first && s'.piSkips == s.piSkips + [skip] && (skip.Some? ==> first == Zeros(skip.value))
    requires s.publicInputsIdx <= s'.publicInputsIdx <= |pre.publicTranscriptInputs|
    requires (if skip.None? then first else []) == pre.publicTranscriptInputs[s.publicInputsIdx..s'.publicInputsIdx]
    requires Conserves(pre, s', e, sizes, pis, skips)
    ensures Conserves(pre, s, e, [|first|] + sizes, first + pis, [skip] + skips)
  {
    SegmentCons(first, skip, pis, sizes, skips);
    SlicesJoin(pre.publicTranscriptInputs, s.publicInputsIdx, s'.publicInputsIdx, e.publicInputsIdx);
    Associative(s.pis, first, pis);
    Associative(s.piSkips, [skip], skips);
  }

  lemma NothingConserves(pre: Preimage, s: State)
    requires s.publicInputsIdx <= |pre.publicTranscriptInputs|
    ensures Conserves(pre, s, s, [], [], [])
  {}

  lemma {:induction false} RunConserves(c: Params, src: IrSource, pre: Preimage, s: State, todo: seq<Instruction>)
    returns (pis: seq<nat>, skips: seq<Option<nat>>)
    requires s.publicInputsIdx <= |pre.publicTranscriptInputs| && RunFrom(c, src, pre, s, todo).Some?
    ensures Conserves(pre, s, RunFrom(c, src, pre, s, todo).value, ImpactSizes(todo), pis, skips)
    decreases |todo|
  {
    if todo == [] {
      NothingConserves(pre, s);
      pis, skips := [], [];
    } else {
      var s', e := Step(c, src, pre, s, todo[0]).value, RunFrom(c, src, pre, s, todo).value;
      if todo[0].Impact? {
        var first, skip := ImpactConserves(pre, s, todo[0].guard, todo[0].inputs);
        var rest, others := RunConserves(c, src, pre, s', todo[1..]);
        ConservesCons(pre, s, s', e, first, skip, ImpactSizes(todo[1..]), rest, others);
        pis, skips := first + rest, [skip] + others;
      } else {
        OthersPushNothing(c, src, pre, s, todo[0]);
        pis, skips := RunConserves(c, src, pre, s', todo[1..]);
        assert ImpactSizes(todo) == ImpactSizes(todo[1..]);
      }
    }
  }

  lemma {:induction false} SegmentPerImpact(todo: seq<Instruction>)
    ensures |ImpactSizes(todo)| == |Impacts(todo)|
  {
    if todo == [] {
    } else {
      SegmentPerImpact(todo[1..]);
    }
  }

  /** The impacts of a program, in order. */
  function Impacts(todo: seq<Instruction>): seq<Instruction> {
    if todo == [] then [] else (if todo[0].Impact? then [todo[0]] else []) + Impacts(todo[1..])
  }

  lemma RunConservesAll(c: Params, src: IrSource, pre: Preimage) returns (header: seq<nat>, pis: seq<nat>)
    requires Run(c, src, pre).Some?
    ensures var e, sizes := Run(c, src, pre).value, ImpactSizes(src.instructions);
            && e.pis == header + pis && IsHeader(pre, src, header)
            && |pis| == Total(sizes) && |e.piSkips| == |sizes|
            && SkipsAreZero(Cut(pis, sizes), e.piSkips)
            && Kept(Cut(pis, sizes), e.piSkips) == pre.publicTranscriptInputs
  {
    var s0, skips := Init(c, src, pre).value, [];
    header := s0.pis;
    pis, skips := RunConserves(c, src, pre, s0, src.instructions);
    assert [] + skips == skips;
    assert pre.publicTranscriptInputs[0..|pre.publicTranscriptInputs|] == pre.publicTranscriptInputs;
  }

  /**
    Public-input conservation, of what `preprocess` returns: past the binding input and the
    commitment, the public inputs cut into one segment per impact, with one skip record each. A
    segment with a skip record is all zero and as long as the record says, and the others are, in
    order, the public transcript inputs.
   */
  lemma PublicInputsAreConserved(c: Params, src: IrSource, pre: Preimage) returns (header: seq<nat>, pis: seq<nat>)
    requires Preprocess.Preprocess(c, src, pre).Some?
    ensures var prep, sizes := Preprocess.Preprocess(c, src, pre).value, ImpactSizes(src.instructions);
            && prep.bindingInput == pre.bindingInput && prep.commComm == pre.communicationsCommitment
            && (src.doCommunicationsCommitment ==> prep.commComm.Some?)
            && header == [prep.bindingInput] +
                         (if src.doCommunicationsCommitment then [prep.commComm.value.0] else [])
            && prep.pis == header + pis
            && |prep.piSkips| == |Impacts(src.instructions)| == |sizes| && |pis| == Total(sizes)
            && SkipsAreZero(Cut(pis, sizes), prep.piSkips)
            && Kept(Cut(pis, sizes), prep.piSkips) == pre.publicTranscriptInputs
  {
    header, pis := RunConservesAll(c, src, pre);
    SegmentPerImpact(src.instructions);
  }

  // ----- extraction is unique -----

  /** The skip records that the guards in a memory call for, in program order. */
  function SkipsOf(memory: Memory, todo: seq<Instruction>): seq<Option<nat>> {
    if todo == [] then []
    else
      var rest := SkipsOf(memory, todo[1..]);
      if !todo[0].Impact? then rest
      else if ResolveBit(memory, todo[0].guard) == Some(false) then [Some(|todo[0].inputs|)] + rest
      else [None] + rest
  }

  lemma ImpactSkip(c: Params, src: IrSource, pre: Preimage, s: State, todo: seq<Instruction>)
    requires todo != [] && todo[0].Impact? && RunFrom(c, src, pre, s, todo).Some?
    requires forall id :: id in s.memory ==> id !in Written(todo)
    ensures var s', e := Step(c, src, pre, s, todo[0]).value, RunFrom(c, src, pre, s, todo).value;
            s'.piSkips + SkipsOf(e.memory, todo[1..]) == s.piSkips + SkipsOf(e.memory, todo)
  {
    var s', e := Step(c, src, pre, s, todo[0]).value, RunFrom(c, src, pre, s, todo).value;
    var guard := todo[0].guard;
    if guard.Variable? { RunKeeps(c, src, pre, s, todo, guard.id); }
    assert ResolveBit(e.memory, guard) == ResolveBit(s.memory, guard);
    Associative(s.piSkips, s'.piSkips[|s.piSkips|..], SkipsOf(e.memory, todo[1..]));
  }

  lemma {:induction false} RunSkips(c: Params, src: IrSource, pre: Preimage, s: State, todo: seq<Instruction>)
    requires RunFrom(c, src, pre, s, todo).Some?
    requires Distinct(Written(todo)) && forall id :: id in s.memory ==> id !in Written(todo)
    ensures var e := RunFrom(c, src, pre, s, todo).value;
            e.piSkips == s.piSkips + SkipsOf(e.memory, todo)
    decreases |todo|
  {
    if todo == [] {
    } else {
      ScopeStep(c, src, pre, s, todo);
      RunSkips(c, src, pre, Step(c, src, pre, s, todo[0]).value, todo[1..]);
      if todo[0].Impact? {
        ImpactSkip(c, src, pre, s, todo);
      } else {
        OthersPushNothing(c, src, pre, s, todo[0]);
      }
    }
  }

  lemma SkipsAreDetermined(c: Params, src: IrSource, pre: Preimage)
    requires c.Sizes() && SingleAssignment(src) && ValidPreimage(c, pre) && Run(c, src, pre).Some?
    ensures Run(c, src, pre).value.piSkips == SkipsOf(Run(c, src, pre).value.memory, src.instructions)
  {
    InitScope(c, src, pre);
    RunSkips(c, src, pre, Init(c, src, pre).value, src.instructions);
  }

  /** The witness that a successful run leaves behind, and that the circuit is satisfied with. */
  function Extracted(c: Params, src: IrSource, pre: Preimage): CircuitRun.Witness
    requires Run(c, src, pre).Some?
  {
    FinalWitness(src, pre, Run(c, src, pre).value.memory)
  }

  /** The same preimage, up to a commitment that the source does not look at. */
  predicate SamePreimage(src: IrSource, pre: Preimage, other: Preimage) {
    && pre.bindingInput == other.bindingInput && pre.inputs == other.inputs
    && pre.publicTranscriptInputs == other.publicTranscriptInputs
    && pre.publicTranscriptOutputs == other.publicTranscriptOutputs
    && pre.privateTranscript == other.privateTranscript
    && (src.doCommunicationsCommitment ==> pre.communicationsCommitment == other.communicationsCommitment)
  }

  /** Equal witnesses: the whole memory, all public inputs and the outputs are equal. */
  lemma WitnessDeterminesMemory(c: Params, src: IrSource, pre: Preimage, other: Preimage)
    requires Suitable(c, src, pre) && Suitable(c, src, other)
    requires Run(c, src, pre).Some? && Run(c, src, other).Some?
    requires Extracted(c, src, pre) == Extracted(c, src, other)
    ensures var e, o := Run(c, src, pre).value, Run(c, src, other).value;
            e.memory == o.memory && e.pis == o.pis && e.outputs == o.outputs
    ensures pre.bindingInput == other.bindingInput
    ensures src.doCommunicationsCommitment ==> pre.communicationsCommitment == other.communicationsCommitment
  {
    PreprocessIsRun(c, src, pre);
    PreprocessIsRun(c, src, other);
  }

  /**
    Extraction is unique: two successful runs of one single-assignment program that leave the
    same witness behind end in the same state, skip records and cursors included, and they had the
    same preimage, up to a commitment that the program does not look at.
   */
  lemma ExtractionIsUnique(c: Params, src: IrSource, pre: Preimage, other: Preimage)
    requires Suitable(c, src, pre) && Suitable(c, src, other) && SingleAssignment(src)
    requires Run(c, src, pre).Some? && Run(c, src, other).Some?
    requires Extracted(c, src, pre) == Extracted(c, src, other)
    ensures Run(c, src, pre) == Run(c, src, other) && SamePreimage(src, pre, other)
  {
    WitnessDeterminesMemory(c, src, pre, other);
    MemoryDeterminesPreimage(c, src, pre, other);
    SkipsAreDetermined(c, src, pre);
    SkipsAreDetermined(c, src, other);
    var header, pis := RunConservesAll(c, src, pre);
    var header', pis' := RunConservesAll(c, src, other);
    assert |header| == |header'|;
    assert pis == (header + pis)[|header|..] && pis' == (header' + pis')[|header'|..];
  }
}
