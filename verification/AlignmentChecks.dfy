/**
  While it walks over the instructions with a witness, the circuit compares each value it
  binds and each public input it pushes with what `preprocess` left. At every stage it holds
  what the interpreter held there, so only a value bound again later can differ.
 */
module AlignmentChecks {
  import opened Options
  import opened Types
  import opened Instructions
  import opened Circuit
  import opened Growth
  import opened Gadgets
  import opened Readings
  import opened Agreement
  import opened Completeness
  import opened Preprocess
  import opened Typing
  import CircuitRun
  import OpAgreement
  import OpSoundness
  import Soundness
  import Transcripts

  // ----- the interpreter, stage by stage -----

  /** What the interpreter holds after the first `i` instructions. */
  function StateAfter(c: Params, src: IrSource, pre: Preimage, i: nat): Option<State>
    requires i <= |src.instructions|
  {
    var s0 :- Init(c, src, pre);
    Preprocess.RunFrom(c, src, pre, s0, src.instructions[..i])
  }

  /** Where the interpreter gets to the end, the first steps of both runs agree as well. */
  lemma {:induction false} PrefixAgrees(c: Params, src: IrSource, pre: Preimage, w: CircuitRun.Witness, s: State,
      todo: seq<Instruction>, t: CircuitRun.RunState, i: nat)
    requires c.Valid() && OpAgreement.HashesAgree(c, todo) && ValidState(c, s) && ValidPreimage(c, pre) && Same(s, t)
    requires forall j :: 0 <= j < |todo| ==> OpSoundness.TypedInstruction(c, todo[j])
    requires KeepsReads(todo) && i <= |todo|
    requires CheckFrom(c, src, Agreement.StaticOf(s), todo).Some? && Preprocess.RunFrom(c, src, pre, s, todo).Some?
    requires t.used <= |w.readValues|
    requires w.readValues[t.used..] == ReadValues(Preprocess.RunFrom(c, src, pre, s, todo).value.memory, todo)
    ensures var e, t' := Preprocess.RunFrom(c, src, pre, s, todo[..i]), CircuitRun.RunFrom(c, src, w, t, todo[..i]);
            e.Some? && t'.Some? && Same(e.value, t'.value)
    decreases i
  {
    if i == 0 {
    } else {
      var s' := Step(c, src, pre, s, todo[0]).value;
      NextRead(c, src, pre, s, todo, w.readValues, t.used);
      StepAgrees(c, src, pre, w, s, todo[0], t);
      PrefixAgrees(c, src, pre, w, s', todo[1..], CircuitRun.RunStep(c, src, w, t, todo[0]).value, i - 1);
      assert todo[..i][0] == todo[0] && todo[..i][1..] == todo[1..][..i - 1];
    }
  }

  /** The first steps of a successful `preprocess` are those of the circuit's run on its witness. */
  lemma StatesAgree(c: Params, src: IrSource, pre: Preimage, w: CircuitRun.Witness, i: nat)
    requires Suitable(c, src, pre) && Run(c, src, pre).Some? && i <= |src.instructions|
    requires w == FinalWitness(src, pre, Run(c, src, pre).value.memory)
    ensures StateAfter(c, src, pre, i).Some? && CircuitRun.RunInit(c, src, w).Some?
    ensures var t := CircuitRun.RunFrom(c, src, w, CircuitRun.RunInit(c, src, w).value, src.instructions[..i]);
            t.Some? && Same(StateAfter(c, src, pre, i).value, t.value)
  {
    var s0 := Init(c, src, pre).value;
    var vs := InputsDecoded(c, src.inputs, pre.inputs, map[]);
    InputsSurvive(c, src, pre, vs);
    InitAgrees(c, src, pre, w, vs);
    assert w.readValues[0..] == w.readValues;
    PrefixAgrees(c, src, pre, w, s0, src.instructions, CircuitRun.RunInit(c, src, w).value, i);
  }

  // ----- the checks -----

  /** Every value held, and every public input pushed so far, is the one that `preprocess` left. */
  predicate ChecksPass(a: Assignment, s: Synthesis, prep: Preprocessed) {
    && (forall id :: id in s.memory && id in prep.memory ==> Read(a, s.memory[id]) == prep.memory[id])
    && (forall j :: 0 <= j < |s.pis| && j < |prep.pis| ==> Cell(a, s.pis[j]) == prep.pis[j])
  }

  /** What is bound in `memory` is still so at the end. */
  predicate Settled(memory: Memory, end: Memory) {
    forall id :: id in memory && id in end ==> end[id] == memory[id]
  }

  /** The circuit's memory and public inputs at a stage are the interpreter's. */
  lemma StageIsState(c: Params, src: IrSource, pre: Preimage, k: CircuitShape, a: Assignment, i: nat)
    requires Suitable(c, src, pre) && Run(c, src, pre).Some? && Synthesize(c, src) == Some(k) && Sat(c, k.b, a)
    requires Soundness.WitnessOf(a, k) == FinalWitness(src, pre, Run(c, src, pre).value.memory)
    requires i <= |src.instructions|
    ensures Stage(c, src, i).Some? && StateAfter(c, src, pre, i).Some?
    ensures var s, e := Stage(c, src, i).value, StateAfter(c, src, pre, i).value;
            ReadMemory(a, s.memory) == e.memory && Cells(a, s.pis) == e.pis
  {
    Soundness.StageIsRun(c, src, k, a, i);
    StatesAgree(c, src, pre, Soundness.WitnessOf(a, k), i);
  }

  lemma ChecksIffSettled(c: Params, src: IrSource, pre: Preimage, k: CircuitShape, a: Assignment, prep: Preprocessed,
      i: nat)
    requires Suitable(c, src, pre) && Preprocess.Preprocess(c, src, pre) == Some(prep)
    requires Synthesize(c, src) == Some(k) && Sat(c, k.b, a) && Cells(a, k.pis) == prep.pis
    requires Soundness.WitnessOf(a, k) == FinalWitness(src, pre, prep.memory)
    requires i <= |src.instructions|
    ensures Stage(c, src, i).Some? && StateAfter(c, src, pre, i).Some?
    ensures ChecksPass(a, Stage(c, src, i).value, prep) <==>
            Settled(StateAfter(c, src, pre, i).value.memory, prep.memory)
  {
    StageIsState(c, src, pre, k, a, i);
    CircuitIsEquipped(c, src);
    StageLeadsOn(c, src, k, i);
    var s, e := Stage(c, src, i).value, StateAfter(c, src, pre, i).value;
    assert forall j :: 0 <= j < |s.pis| ==> Cell(a, s.pis[j]) == Cells(a, k.pis)[j];
    assert forall id :: id in s.memory ==> Read(a, s.memory[id]) == e.memory[id];
    assert s.memory.Keys == e.memory.Keys;
  }

  /**
    The alignment checks of a whole synthesis with the assignment that completeness builds. After
    each instruction they pass if and only if what the interpreter has bound there is still bound
    at the end.
   */
  lemma AlignmentChecksPassIff(c: Params, src: IrSource, pre: Preimage, k: CircuitShape) returns (a: Assignment)
    requires Suitable(c, src, pre) && Synthesize(c, src) == Some(k) && Preprocess.Preprocess(c, src, pre).Some?
    ensures Sat(c, k.b, a)
    ensures forall i :: 0 <= i <= |src.instructions| ==>
              && Stage(c, src, i).Some? && StateAfter(c, src, pre, i).Some?
              && var prep := Preprocess.Preprocess(c, src, pre).value;
                 (ChecksPass(a, Stage(c, src, i).value, prep) <==>
                    Settled(StateAfter(c, src, pre, i).value.memory, prep.memory))
  {
    a := PreprocessSatisfiesCircuit(c, src, pre, k);
    var prep := Preprocess.Preprocess(c, src, pre).value;
    forall i | 0 <= i <= |src.instructions|
      ensures Stage(c, src, i).Some? && StateAfter(c, src, pre, i).Some?
      ensures ChecksPass(a, Stage(c, src, i).value, prep) <==>
              Settled(StateAfter(c, src, pre, i).value.memory, prep.memory)
    {
      ChecksIffSettled(c, src, pre, k, a, prep, i);
    }
  }

  // ----- single assignment -----

  lemma {:induction false} PrefixSettled(c: Params, src: IrSource, pre: Preimage, s: State, todo: seq<Instruction>,
      i: nat)
    requires i <= |todo| && Preprocess.RunFrom(c, src, pre, s, todo).Some?
    requires Distinct(Written(todo)) && forall id :: id in s.memory ==> id !in Written(todo)
    ensures var e := Preprocess.RunFrom(c, src, pre, s, todo[..i]);
            e.Some? && Settled(e.value.memory, Preprocess.RunFrom(c, src, pre, s, todo).value.memory)
    decreases i
  {
    if i == 0 {
      forall id | id in s.memory
        ensures var e := Preprocess.RunFrom(c, src, pre, s, todo).value; id in e.memory && e.memory[id] == s.memory[id]
      {
        RunKeeps(c, src, pre, s, todo, id);
      }
    } else {
      Transcripts.ScopeStep(c, src, pre, s, todo);
      PrefixSettled(c, src, pre, Step(c, src, pre, s, todo[0]).value, todo[1..], i - 1);
      assert todo[..i][0] == todo[0] && todo[..i][1..] == todo[1..][..i - 1];
    }
  }

  /** On sources that bind no identifier twice the alignment checks never fire. */
  lemma AlignmentChecksPass(c: Params, src: IrSource, pre: Preimage, k: CircuitShape) returns (a: Assignment)
    requires Suitable(c, src, pre) && SingleAssignment(src)
    requires Synthesize(c, src) == Some(k) && Preprocess.Preprocess(c, src, pre).Some?
    ensures Sat(c, k.b, a)
    ensures forall i :: 0 <= i <= |src.instructions| ==>
              && Stage(c, src, i).Some?
              && ChecksPass(a, Stage(c, src, i).value, Preprocess.Preprocess(c, src, pre).value)
  {
    a := AlignmentChecksPassIff(c, src, pre, k);
    Transcripts.InitScope(c, src, pre);
    forall i | 0 <= i <= |src.instructions|
      ensures Settled(StateAfter(c, src, pre, i).value.memory, Run(c, src, pre).value.memory)
    {
      PrefixSettled(c, src, pre, Init(c, src, pre).value, src.instructions, i);
    }
  }
}
