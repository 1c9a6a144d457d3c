/**
  What a step of each run does to its whole state: computing instructions as `Meaning` says,
  and impacts, reads and outputs by their own operands.
 */
module StepMeaning {
  import opened Options
  import opened Digits
  import opened Types
  import opened Instructions
  import opened Preprocess
  import opened Agreement
  import opened Meaning
  import Circuit
  import CircuitRun
  import Encoding
  import GadgetCompleteness
  import Gadgets
  import Operations
  import OpSoundness
  import Readings
  import Satisfiability
  import Soundness
  import TypePreservation

  // ----- computing instructions -----

  lemma InterpreterStep(c: Params, src: IrSource, pre: Preimage, s: State, ins: Instruction)
    requires ins.Computes()
    ensures Step(c, src, pre, s, ins) ==
            match StepIn(OffCircuit, c, s.memory, ins)
            case None => None
            case Some(memory) => Some(s.(memory := memory))
  {}

  lemma ConstraintsStep(c: Params, t: CircuitRun.RunState, ins: Instruction)
    requires ins.Computes()
    ensures CircuitRun.RunCompute(c, t, ins) ==
            match StepIn(InCircuit, c, t.memory, ins)
            case None => None
            case Some(memory) => Some(t.(memory := memory))
  {}

  /** A step of the interpreter changes memory as the instruction means, and nothing else. */
  lemma InterpreterMeans(c: Params, src: IrSource, pre: Preimage, s: State, ins: Instruction, memory: Memory)
    requires Takes(c, ins, s.memory)
    ensures Step(c, src, pre, s, ins) == Some(s.(memory := memory)) <==> Means(OffCircuit, c, ins, s.memory, memory)
    ensures Step(c, src, pre, s, ins).Some? ==>
              Step(c, src, pre, s, ins).value == s.(memory := Step(c, src, pre, s, ins).value.memory)
  {
    InterpreterStep(c, src, pre, s, ins);
    StepMeans(OffCircuit, c, ins, s.memory, memory);
  }

  /** The same of the run that the constraints describe. */
  lemma ConstraintsMean(c: Params, t: CircuitRun.RunState, ins: Instruction, memory: Memory)
    requires Takes(c, ins, t.memory)
    ensures CircuitRun.RunCompute(c, t, ins) == Some(t.(memory := memory)) <==>
            Means(InCircuit, c, ins, t.memory, memory)
    ensures CircuitRun.RunCompute(c, t, ins).Some? ==>
              CircuitRun.RunCompute(c, t, ins).value == t.(memory := CircuitRun.RunCompute(c, t, ins).value.memory)
  {
    ConstraintsStep(c, t, ins);
    StepMeans(InCircuit, c, ins, t.memory, memory);
  }

  /** So in cells that satisfy what an instruction emits, memory changes as the instruction means. */
  lemma CellsMean(c: Params, s: Circuit.Synthesis, ins: Instruction, a: Gadgets.Assignment)
    requires c.Valid() && ins.Computes() && OpSoundness.TypedInstruction(c, ins) && Soundness.SortedState(c, a, s)
    requires Circuit.SynthCompute(c, s, ins).Some? && Gadgets.Sat(c, Circuit.SynthCompute(c, s, ins).value.b, a)
    ensures Means(InCircuit, c, ins, Readings.ReadMemory(a, s.memory),
                  Readings.ReadMemory(a, Circuit.SynthCompute(c, s, ins).value.memory))
  {
    Soundness.ComputeSound(c, s, ins, a);
    TypePreservation.SortedIsValidMemory(c, a, s.memory);
    ConstraintsMean(c, Soundness.View(a, s), ins,
                    Readings.ReadMemory(a, Circuit.SynthCompute(c, s, ins).value.memory));
  }

  lemma RunHasCells(c: Params, s: Circuit.Synthesis, ins: Instruction, a: Gadgets.Assignment)
    returns (a': Gadgets.Assignment)
    requires c.Valid() && ins.Computes() && OpSoundness.TypedInstruction(c, ins) && Satisfiability.Solved(c, s, a)
    requires Circuit.SynthCompute(c, s, ins).Some? && CircuitRun.RunCompute(c, Soundness.View(a, s), ins).Some?
    ensures var s' := Circuit.SynthCompute(c, s, ins).value;
            && GadgetCompleteness.Carries(c, s.b, a, s'.b, a')
            && CircuitRun.RunCompute(c, Soundness.View(a, s), ins) == Some(Soundness.View(a', s'))
  {
    a' := Satisfiability.ComputeComplete(c, s, ins, a);
    Satisfiability.ViewKeeps(c, s, a, Circuit.SynthCompute(c, s, ins).value.b, a');
    Soundness.ComputeSound(c, s, ins, a');
  }

  /** And whatever the instruction means, some cells satisfy it. */
  lemma MeaningHasCells(c: Params, s: Circuit.Synthesis, ins: Instruction, a: Gadgets.Assignment, memory: Memory)
    returns (a': Gadgets.Assignment)
    requires c.Valid() && ins.Computes() && OpSoundness.TypedInstruction(c, ins) && Satisfiability.Solved(c, s, a)
    requires Circuit.SynthCompute(c, s, ins).Some?
    requires Means(InCircuit, c, ins, Soundness.View(a, s).memory, memory)
    ensures var s' := Circuit.SynthCompute(c, s, ins).value;
            GadgetCompleteness.Carries(c, s.b, a, s'.b, a') && Soundness.View(a', s').memory == memory
  {
    TypePreservation.SortedIsValidMemory(c, a, s.memory);
    ConstraintsMean(c, Soundness.View(a, s), ins, memory);
    a' := RunHasCells(c, s, ins, a);
  }

  // ----- impacts -----

  lemma BitsAre(memory: Memory, o: Operand)
    ensures ResolveBit(memory, o) == BitAt(memory, o)
  {}

  /** An impact with guard zero pushes as many zeros as it has inputs, and records how many. */
  lemma ImpactOffMeans(pre: Preimage, s: State, guard: Operand, inputs: seq<Operand>)
    requires BitAt(s.memory, guard) == Some(false)
    ensures StepImpact(pre, s, guard, inputs) ==
            Some(s.(pis := s.pis + Zeros(|inputs|), piSkips := s.piSkips + [Some(|inputs|)]))
  {
    BitsAre(s.memory, guard);
  }

  /** The elements come next in the public transcript. */
  predicate ComeNext(pre: Preimage, s: State, xs: seq<nat>) {
    && s.publicInputsIdx + |xs| <= |pre.publicTranscriptInputs|
    && pre.publicTranscriptInputs[s.publicInputsIdx..s.publicInputsIdx + |xs|] == xs
  }

  function Pushed(s: State, xs: seq<nat>): State {
    s.(pis := s.pis + xs, piSkips := s.piSkips + [None], publicInputsIdx := s.publicInputsIdx + |xs|)
  }

  /** One with guard one pushes its inputs, in order, which must come next in the public transcript. */
  lemma ImpactOnMeans(pre: Preimage, s: State, guard: Operand, inputs: seq<Operand>)
    requires BitAt(s.memory, guard) == Some(true)
    ensures var xs := NativesAt(s.memory, inputs);
            StepImpact(pre, s, guard, inputs) ==
            if xs.Some? && ComeNext(pre, s, xs.value) then Some(Pushed(s, xs.value)) else None
  {
    BitsAre(s.memory, guard);
    NativesAre(s.memory, inputs);
    var vs := ResolveAll(s.memory, inputs);
    if vs.Some? { Operations.AllNativeLen(vs.value); }
  }

  /** With any other guard it is an error. */
  lemma ImpactNeedsBit(pre: Preimage, s: State, guard: Operand, inputs: seq<Operand>)
    requires BitAt(s.memory, guard) == None
    ensures StepImpact(pre, s, guard, inputs) == None
  {
    BitsAre(s.memory, guard);
  }

  /** The constraints push the same, and resolve the inputs whatever the guard. */
  lemma ConstrainedImpactMeans(t: CircuitRun.RunState, guard: Operand, inputs: seq<Operand>)
    ensures CircuitRun.RunImpact(t, guard, inputs) ==
            var on, xs := BitAt(t.memory, guard), NativesAt(t.memory, inputs);
            if on.Some? && xs.Some?
            then Some(t.(pis := t.pis + if on.value then xs.value else Zeros(|inputs|))) else None
  {
    NativesAre(t.memory, inputs);
  }

  // ----- reads -----

  /** The zero of a type: element zero, false, byte zero, or zero bytes. */
  predicate IsZeroOf(t: IrType, v: IrValue) {
    match t
    case Native => v == IrValue.Native(0)
    case Bool => v == IrValue.Bool(false)
    case Byte => v == IrValue.Byte(0)
    case Bytes(n) => v.Bytes? && |v.bytes| == n && forall i :: 0 <= i < n ==> v.bytes[i] == 0
    case JubjubScalar => v == IrValue.JubjubScalar(0)
    case Foreign(f) => v == IrValue.Foreign(f, 0)
    case Point(_) => false
  }

  /** A read whose guard is zero binds the zero of its type and takes nothing from any transcript. */
  lemma GuardedOffReadMeans(c: Params, src: IrSource, pre: Preimage, s: State, ins: Instruction, s': State)
    requires IsRead(ins) && ins.readGuard.Some? && BitAt(s.memory, ins.readGuard.value) == Some(false)
    ensures Step(c, src, pre, s, ins) == Some(s') <==>
            && ins.output in s'.memory && IsZeroOf(ins.valT, s'.memory[ins.output])
            && s' == s.(memory := s.memory[ins.output := s'.memory[ins.output]])
  {
    ZeroUnique(ins.valT);
  }

  lemma ZeroUnique(t: IrType)
    ensures forall v :: IsZeroOf(t, v) <==> Default(t) == Some(v)
  {
    forall v
      ensures IsZeroOf(t, v) <==> Default(t) == Some(v)
    {
      if t.Bytes? && v.Bytes? && IsZeroOf(t, v) { assert v.bytes == Zeros(t.n); }
    }
  }

  /** The transcript that a read takes from, and the cursor into it. */
  function Source(ins: Instruction, pre: Preimage): seq<nat> {
    if ins.PublicInput? then pre.publicTranscriptOutputs else pre.privateTranscript
  }

  function At(ins: Instruction, s: State): nat {
    if ins.PublicInput? then s.publicOutputsIdx else s.privateIdx
  }

  function Advanced(ins: Instruction, s: State, n: nat): State {
    if ins.PublicInput? then s.(publicOutputsIdx := s.publicOutputsIdx + n)
    else s.(privateIdx := s.privateIdx + n)
  }

  /** `v` is a value of the read's type, and its encoding comes next in the transcript. */
  predicate ComesNext(c: Params, ins: Instruction, pre: Preimage, s: State, v: IrValue)
    requires IsRead(ins)
  {
    var e := Encoding.Encode(c, v);
    && ValidValue(c, v) && TypeOf(v) == ins.valT
    && At(ins, s) + |e| <= |Source(ins, pre)| && Source(ins, pre)[At(ins, s)..At(ins, s) + |e|] == e
  }

  lemma NextDecodes(c: Params, transcript: seq<nat>, idx: nat, t: IrType, v: IrValue)
    requires c.Sizes() && c.FieldElements(transcript)
    ensures ReadTranscript(c, transcript, idx, t) == Some(v) <==>
            && ValidValue(c, v) && TypeOf(v) == t && idx + |Encoding.Encode(c, v)| <= |transcript|
            && transcript[idx..idx + |Encoding.Encode(c, v)|] == Encoding.Encode(c, v)
  {
    if ReadTranscript(c, transcript, idx, t) == Some(v) {
      TranscriptTyped(c, transcript, idx, t);
    }
    if ValidValue(c, v) && TypeOf(v) == t {
      Encoding.EncodeShape(c, v);
      Encoding.DecodeOfEncode(c, v);
    }
  }

  lemma ActiveReadStep(c: Params, pre: Preimage, s: State, ins: Instruction)
    requires IsRead(ins) && (ins.readGuard.Some? ==> BitAt(s.memory, ins.readGuard.value) == Some(true))
    ensures StepRead(c, pre, s, ins) ==
            match ReadTranscript(c, Source(ins, pre), At(ins, s), ins.valT)
            case None => None
            case Some(v) => Some(Advanced(ins, s, EncodedLen(c, ins.valT)).(memory := s.memory[ins.output := v]))
  {
    if ins.readGuard.Some? { BitsAre(s.memory, ins.readGuard.value); }
  }

  lemma NextRead(c: Params, pre: Preimage, s: State, ins: Instruction, v: IrValue)
    requires c.Sizes() && ValidPreimage(c, pre) && IsRead(ins)
    ensures ReadTranscript(c, Source(ins, pre), At(ins, s), ins.valT) == Some(v) <==> ComesNext(c, ins, pre, s, v)
    ensures ComesNext(c, ins, pre, s, v) ==> |Encoding.Encode(c, v)| == EncodedLen(c, ins.valT)
  {
    NextDecodes(c, Source(ins, pre), At(ins, s), ins.valT, v);
    if ComesNext(c, ins, pre, s, v) { Encoding.EncodeShape(c, v); }
  }

  /** Any other read, without a guard or with guard one, binds the value whose encoding comes next and moves past it. */
  lemma ActiveReadMeans(c: Params, src: IrSource, pre: Preimage, s: State, ins: Instruction, s': State)
    requires c.Sizes() && ValidPreimage(c, pre) && IsRead(ins)
    requires ins.readGuard.Some? ==> BitAt(s.memory, ins.readGuard.value) == Some(true)
    ensures Step(c, src, pre, s, ins) == Some(s') <==>
            exists v :: ComesNext(c, ins, pre, s, v)
                        && s' == Advanced(ins, s, |Encoding.Encode(c, v)|).(memory := s.memory[ins.output := v])
  {
    ActiveReadStep(c, pre, s, ins);
    forall v
      ensures ReadTranscript(c, Source(ins, pre), At(ins, s), ins.valT) == Some(v) <==> ComesNext(c, ins, pre, s, v)
      ensures ComesNext(c, ins, pre, s, v) ==> |Encoding.Encode(c, v)| == EncodedLen(c, ins.valT)
    {
      NextRead(c, pre, s, ins, v);
    }
  }
}
