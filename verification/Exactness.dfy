/**
  How much more the circuit accepts than the interpreter. A run of the circuit is `Tight`
  when each step also meets the interpreter's stricter conditions; the tight runs are
  exactly the ones that come from a successful `preprocess`.
 */
module Exactness {
  import opened Options
  import opened Digits
  import opened Types
  import opened Instructions
  import opened Operations
  import opened Preprocess
  import opened Typing
  import opened Agreement
  import opened OpAgreement
  import opened Completeness
  import opened CircuitRun
  import Bits
  import Circuit
  import Encoding
  import Gadgets
  import OpSoundness
  import Readings
  import Reconstitution
  import Satisfiability
  import Soundness

  // ----- one computing instruction -----

  /** The bit counts that the interpreter accepts: a condition on the program alone. */
  predicate BitCountFits(c: Params, ins: Instruction) {
    if ins.ConstrainBits? || ins.LessThan? then ins.bits < c.frBits
    else if ins.DivModPowerOfTwo? then ins.bits <= 8 * c.limbBytes
    else ins.ReconstituteField? ==> 1 <= ins.bits <= 8 * c.limbBytes
  }

  predicate BitCountsFit(c: Params, todo: seq<Instruction>) {
    forall i :: 0 <= i < |todo| ==> BitCountFits(c, todo[i])
  }

  /** What the interpreter demands of the operands beyond the circuit's constraints. */
  predicate TightOp(c: Params, ins: Instruction, vs: seq<IrValue>)
    requires |vs| == |ins.Args()|
  {
    match ins
    case Assert(_) => vs[0] == IrValue.Native(1)
    case LessThan(_, _, bits, _) => Elem(vs[0]) < Pow(2, bits) && Elem(vs[1]) < Pow(2, bits)
    case AlignedHash(_, alignment, _, _) => AllNative(vs).Some? && c.alignedBytes(alignment, AllNative(vs).value).Some?
    case _ => true
  }

  /** Well-typed operands of an instruction that passes the check. */
  ghost predicate WellTyped(c: Params, ins: Instruction, vs: seq<IrValue>) {
    && c.Valid() && (ins.AlignedHash? ==> AlignedAgrees(c))
    && ValidValues(c, vs) && ins.Computes() && |vs| == |ins.Args()| && OpType(c, ins, TypesOf(vs)).Some?
  }

  ghost predicate ExactOp(c: Params, ins: Instruction, vs: seq<IrValue>)
    requires WellTyped(c, ins, vs)
  {
    Apply(c, ins, vs).Some? <==> CircuitApply(c, ins, vs).Some? && BitCountFits(c, ins) && TightOp(c, ins, vs)
  }

  lemma BitsExact(c: Params, ins: Instruction, vs: seq<IrValue>)
    requires WellTyped(c, ins, vs) && (ins.ConstrainBits? || ins.LessThan?)
    ensures ExactOp(c, ins, vs)
  {
    Bits.BoundedBitsVal(c, vs[0].x, ins.bits);
    if ins.LessThan? {
      Bits.BoundedBitsVal(c, vs[1].x, ins.bits);
      PowMono(2, ins.bits, Circuit.RoundedBits(ins.bits));
    }
  }

  lemma ReconstituteExact(c: Params, ins: Instruction, vs: seq<IrValue>)
    requires WellTyped(c, ins, vs) && ins.ReconstituteField?
    ensures ExactOp(c, ins, vs)
  {
    if ins.bits <= 8 * c.limbBytes {
      Reconstitution.OffCircuitAccepts(c, vs[0].x, vs[1].x, ins.bits);
    }
  }

  lemma HashExact(c: Params, ins: Instruction, vs: seq<IrValue>)
    requires WellTyped(c, ins, vs) && ins.AlignedHash?
    ensures ExactOp(c, ins, vs)
  {}

  lemma OtherExact(c: Params, ins: Instruction, vs: seq<IrValue>)
    requires WellTyped(c, ins, vs)
    requires !ins.ConstrainBits? && !ins.LessThan? && !ins.ReconstituteField? && !ins.AlignedHash?
    ensures ExactOp(c, ins, vs)
  {}

  /** On well-typed operands the interpreter accepts exactly what is tight and the circuit accepts, with its results. */
  lemma OpIsExact(c: Params, ins: Instruction, vs: seq<IrValue>)
    requires WellTyped(c, ins, vs) && (ins.LoadConstant? ==> c.FieldElements(ins.encoding))
    ensures ExactOp(c, ins, vs)
    ensures Apply(c, ins, vs).Some? ==> Apply(c, ins, vs) == CircuitApply(c, ins, vs)
  {
    if ins.ConstrainBits? || ins.LessThan? { BitsExact(c, ins, vs); }
    else if ins.ReconstituteField? { ReconstituteExact(c, ins, vs); }
    else if ins.AlignedHash? { HashExact(c, ins, vs); }
    else { OtherExact(c, ins, vs); }
    if Apply(c, ins, vs).Some? { OpAgrees(c, ins, vs); }
  }

  // ----- whole runs -----

  /** Guards of reads are bits, and a guarded-off read takes the default of its type. */
  predicate TightRead(w: Witness, t: RunState, ins: Instruction)
    requires IsRead(ins)
  {
    var active := ReadActive(t.memory, ins.readGuard);
    && active.Some? && t.used < |w.readValues|
    && (!active.value ==> Default(ins.valT) == Some(w.readValues[t.used]))
  }

  predicate TightStep(c: Params, w: Witness, t: RunState, ins: Instruction) {
    if IsRead(ins) then TightRead(w, t, ins)
    else if ins.Computes() then
      ResolveAll(t.memory, ins.Args()).Some? && TightOp(c, ins, ResolveAll(t.memory, ins.Args()).value)
    else true
  }

  predicate TightFrom(c: Params, src: IrSource, w: Witness, t: RunState, todo: seq<Instruction>)
    decreases |todo|
  {
    todo != [] ==>
      && TightStep(c, w, t, todo[0]) && RunStep(c, src, w, t, todo[0]).Some?
      && TightFrom(c, src, w, RunStep(c, src, w, t, todo[0]).value, todo[1..])
  }

  /** A witness whose run meets the interpreter's conditions on values at every step. */
  predicate Tight(c: Params, src: IrSource, w: Witness) {
    RunInit(c, src, w).Some? && TightFrom(c, src, w, RunInit(c, src, w).value, src.instructions)
  }

  /** What a step takes from a transcript when the interpreter follows the run. */
  function Consumed(c: Params, tape: Tape, w: Witness, t: RunState, ins: Instruction): seq<nat> {
    if ins.Impact? && tape.PublicIn? then
      var vs := ResolveAll(t.memory, ins.inputs);
      if ResolveBit(t.memory, ins.guard) == Some(true) && vs.Some? && AllNative(vs.value).Some?
      then AllNative(vs.value).value else []
    else if (ins.PublicInput? && tape.PublicOut?) || (ins.PrivateInput? && tape.Private?) then
      if ReadActive(t.memory, ins.readGuard) == Some(true) && t.used < |w.readValues|
      then Encoding.Encode(c, w.readValues[t.used]) else []
    else []
  }

  function ConsumedFrom(c: Params, src: IrSource, tape: Tape, w: Witness, t: RunState, todo: seq<Instruction>): seq<nat>
    decreases |todo|
  {
    if todo == [] || RunStep(c, src, w, t, todo[0]).None? then []
    else
      Consumed(c, tape, w, t, todo[0])
      + ConsumedFrom(c, src, tape, w, RunStep(c, src, w, t, todo[0]).value, todo[1..])
  }

  /** The transcripts hold, from the cursors on, what the step takes. */
  predicate Supplies(c: Params, pre: Preimage, s: State, w: Witness, t: RunState, ins: Instruction) {
    forall tape :: Supply(c, tape, pre, s, w, t, ins)
  }

  predicate Supply(c: Params, tape: Tape, pre: Preimage, s: State, w: Witness, t: RunState, ins: Instruction) {
    var n := |Consumed(c, tape, w, t, ins)|;
    && Cursor(tape, s) + n <= |TapeOf(tape, pre)|
    && TapeOf(tape, pre)[Cursor(tape, s)..Cursor(tape, s) + n] == Consumed(c, tape, w, t, ins)
  }

  /** The interpreter takes the step, and its cursors move by what the step takes. */
  ghost predicate Takes(c: Params, src: IrSource, pre: Preimage, s: State, w: Witness, t: RunState, ins: Instruction) {
    && Step(c, src, pre, s, ins).Some?
    && forall tape :: Cursor(tape, Step(c, src, pre, s, ins).value) == Cursor(tape, s) + |Consumed(c, tape, w, t, ins)|
  }

  lemma ImpactTaken(c: Params, src: IrSource, pre: Preimage, s: State, w: Witness, t: RunState, ins: Instruction)
    requires ins.Impact? && Same(s, t) && RunImpact(t, ins.guard, ins.inputs).Some? && Supplies(c, pre, s, w, t, ins)
    ensures Takes(c, src, pre, s, w, t, ins)
  {
    assert Supply(c, PublicIn, pre, s, w, t, ins);
    AllNativeLen(ResolveAll(t.memory, ins.inputs).value);
  }

  lemma EncodingRead(c: Params, transcript: seq<nat>, idx: nat, v: IrValue)
    requires c.Sizes() && ValidValue(c, v)
    requires idx + |Encoding.Encode(c, v)| <= |transcript|
    requires transcript[idx..idx + |Encoding.Encode(c, v)|] == Encoding.Encode(c, v)
    ensures ReadTranscript(c, transcript, idx, TypeOf(v)) == Some(v)
            && EncodedLen(c, TypeOf(v)) == |Encoding.Encode(c, v)|
  {
    Encoding.EncodeShape(c, v);
    Encoding.DecodeOfEncode(c, v);
  }

  /** The interpreter reads the value that the run reads. */
  lemma ReadFollows(c: Params, pre: Preimage, s: State, w: Witness, t: RunState, ins: Instruction)
    requires c.Sizes() && IsRead(ins) && Same(s, t) && RunRead(c, w, t, ins).Some? && TightRead(w, t, ins)
    requires Supplies(c, pre, s, w, t, ins)
    ensures StepRead(c, pre, s, ins).Some?
    ensures StepRead(c, pre, s, ins).value.memory == s.memory[ins.output := w.readValues[t.used]]
  {
    var v := w.readValues[t.used];
    if ReadActive(t.memory, ins.readGuard).value {
      if ins.PublicInput? {
        assert Supply(c, PublicOut, pre, s, w, t, ins);
        EncodingRead(c, pre.publicTranscriptOutputs, s.publicOutputsIdx, v);
      } else {
        assert Supply(c, Private, pre, s, w, t, ins);
        EncodingRead(c, pre.privateTranscript, s.privateIdx, v);
      }
    }
  }

  lemma ReadAdvances(c: Params, tape: Tape, pre: Preimage, s: State, w: Witness, t: RunState, ins: Instruction)
    requires c.Sizes() && IsRead(ins) && Same(s, t) && RunRead(c, w, t, ins).Some? && StepRead(c, pre, s, ins).Some?
    ensures Cursor(tape, StepRead(c, pre, s, ins).value) == Cursor(tape, s) + |Consumed(c, tape, w, t, ins)|
  {
    Encoding.EncodeShape(c, w.readValues[t.used]);
  }

  lemma ReadTaken(c: Params, src: IrSource, pre: Preimage, s: State, w: Witness, t: RunState, ins: Instruction)
    requires c.Sizes() && IsRead(ins) && Same(s, t) && RunRead(c, w, t, ins).Some? && TightRead(w, t, ins)
    requires Supplies(c, pre, s, w, t, ins)
    ensures Takes(c, src, pre, s, w, t, ins)
    ensures Resolve(Step(c, src, pre, s, ins).value.memory, Variable(ins.output)) == Some(w.readValues[t.used])
  {
    ReadFollows(c, pre, s, w, t, ins);
    forall tape: Tape
      ensures Cursor(tape, Step(c, src, pre, s, ins).value) == Cursor(tape, s) + |Consumed(c, tape, w, t, ins)|
    {
      ReadAdvances(c, tape, pre, s, w, t, ins);
    }
  }

  lemma ComputeMoves(c: Params, src: IrSource, pre: Preimage, s: State, w: Witness, t: RunState, ins: Instruction)
    requires ins.Computes() && StepCompute(c, s, ins).Some?
    ensures Takes(c, src, pre, s, w, t, ins)
  {}

  lemma ComputeTaken(c: Params, src: IrSource, pre: Preimage, s: State, w: Witness, t: RunState, ins: Instruction)
    requires c.Valid() && ValidState(c, s) && OpSoundness.TypedInstruction(c, ins)
    requires BitCountFits(c, ins) && (ins.AlignedHash? ==> AlignedAgrees(c))
    requires ins.Computes() && Same(s, t) && RunCompute(c, t, ins).Some? && TightStep(c, w, t, ins)
    requires CheckCompute(c, StaticOf(s), ins).Some?
    ensures Takes(c, src, pre, s, w, t, ins)
  {
    ResolveAllTyped(c, s.memory, ins.Args());
    OpIsExact(c, ins, ResolveAll(s.memory, ins.Args()).value);
    ComputeMoves(c, src, pre, s, w, t, ins);
  }

  lemma StepTaken(c: Params, src: IrSource, pre: Preimage, s: State, w: Witness, t: RunState, ins: Instruction)
    requires c.Valid() && ValidState(c, s) && OpSoundness.TypedInstruction(c, ins) && Same(s, t)
    requires BitCountFits(c, ins) && (ins.AlignedHash? ==> AlignedAgrees(c))
    requires CheckStep(c, src, StaticOf(s), ins).Some? && RunStep(c, src, w, t, ins).Some? && TightStep(c, w, t, ins)
    requires Supplies(c, pre, s, w, t, ins)
    ensures Takes(c, src, pre, s, w, t, ins)
    ensures IsRead(ins) ==>
              Resolve(Step(c, src, pre, s, ins).value.memory, Variable(ins.output)) == Some(w.readValues[t.used])
  {
    if ins.Impact? { ImpactTaken(c, src, pre, s, w, t, ins); }
    else if IsRead(ins) { ReadTaken(c, src, pre, s, w, t, ins); }
    else if ins.Computes() { ComputeTaken(c, src, pre, s, w, t, ins); }
  }

  /** The transcripts hold, from the cursors on, exactly what the rest of the run takes. */
  predicate SuppliesRest(c: Params, src: IrSource, pre: Preimage, s: State, w: Witness, t: RunState,
      todo: seq<Instruction>)
  {
    forall tape :: SupplyRest(c, src, tape, pre, s, w, t, todo)
  }

  predicate SupplyRest(c: Params, src: IrSource, tape: Tape, pre: Preimage, s: State, w: Witness, t: RunState,
      todo: seq<Instruction>)
  {
    && Cursor(tape, s) <= |TapeOf(tape, pre)|
    && TapeOf(tape, pre)[Cursor(tape, s)..] == ConsumedFrom(c, src, tape, w, t, todo)
  }

  lemma Cutting(xs: seq<nat>, i: nat, ys: seq<nat>, zs: seq<nat>)
    requires i <= |xs| && xs[i..] == ys + zs
    ensures i + |ys| <= |xs| && xs[i..i + |ys|] == ys && xs[i + |ys|..] == zs
  {
    assert xs[i..][..|ys|] == xs[i..i + |ys|] && xs[i..][|ys|..] == xs[i + |ys|..];
  }

  lemma FirstSupplied(c: Params, src: IrSource, pre: Preimage, s: State, w: Witness, t: RunState,
      todo: seq<Instruction>)
    requires todo != [] && RunStep(c, src, w, t, todo[0]).Some? && SuppliesRest(c, src, pre, s, w, t, todo)
    ensures Supplies(c, pre, s, w, t, todo[0])
  {
    var t' := RunStep(c, src, w, t, todo[0]).value;
    forall tape: Tape
      ensures Supply(c, tape, pre, s, w, t, todo[0])
    {
      assert SupplyRest(c, src, tape, pre, s, w, t, todo);
      Cutting(TapeOf(tape, pre), Cursor(tape, s), Consumed(c, tape, w, t, todo[0]),
              ConsumedFrom(c, src, tape, w, t', todo[1..]));
    }
  }

  lemma RestSupplied(c: Params, src: IrSource, pre: Preimage, s: State, w: Witness, t: RunState, todo: seq<Instruction>)
    requires todo != [] && RunStep(c, src, w, t, todo[0]).Some? && SuppliesRest(c, src, pre, s, w, t, todo)
    requires Takes(c, src, pre, s, w, t, todo[0])
    ensures var s', t' := Step(c, src, pre, s, todo[0]).value, RunStep(c, src, w, t, todo[0]).value;
            SuppliesRest(c, src, pre, s', w, t', todo[1..])
  {
    var s', t' := Step(c, src, pre, s, todo[0]).value, RunStep(c, src, w, t, todo[0]).value;
    forall tape: Tape
      ensures SupplyRest(c, src, tape, pre, s', w, t', todo[1..])
    {
      assert SupplyRest(c, src, tape, pre, s, w, t, todo);
      Cutting(TapeOf(tape, pre), Cursor(tape, s), Consumed(c, tape, w, t, todo[0]),
              ConsumedFrom(c, src, tape, w, t', todo[1..]));
    }
  }

  /** Given those transcripts, the interpreter follows a tight run to its end and uses them up. */
  lemma {:induction false} RunTaken(c: Params, src: IrSource, pre: Preimage, s: State, w: Witness, t: RunState,
      todo: seq<Instruction>)
    requires c.Valid() && HashesAgree(c, todo) && ValidState(c, s) && ValidPreimage(c, pre) && Same(s, t)
    requires forall i :: 0 <= i < |todo| ==> OpSoundness.TypedInstruction(c, todo[i])
    requires CheckFrom(c, src, StaticOf(s), todo).Some? && KeepsReads(todo) && BitCountsFit(c, todo)
    requires CircuitRun.RunFrom(c, src, w, t, todo).Some? && TightFrom(c, src, w, t, todo)
    requires SuppliesRest(c, src, pre, s, w, t, todo)
    ensures var e, t' := Preprocess.RunFrom(c, src, pre, s, todo), CircuitRun.RunFrom(c, src, w, t, todo).value;
            && e.Some? && Same(e.value, t') && TranscriptsConsumed(pre, e.value)
            && t.used <= t'.used && (t'.used <= |w.readValues| ==>
                w.readValues[t.used..t'.used] == ReadValues(e.value.memory, todo))
    decreases |todo|
  {
    if todo == [] {
      assert SupplyRest(c, src, PublicIn, pre, s, w, t, todo);
      assert SupplyRest(c, src, PublicOut, pre, s, w, t, todo);
      assert SupplyRest(c, src, Private, pre, s, w, t, todo);
    } else {
      FirstSupplied(c, src, pre, s, w, t, todo);
      StepTaken(c, src, pre, s, w, t, todo[0]);
      StepAgrees(c, src, pre, w, s, todo[0], t);
      RestSupplied(c, src, pre, s, w, t, todo);
      var s1, t1 := Step(c, src, pre, s, todo[0]).value, RunStep(c, src, w, t, todo[0]).value;
      RunTaken(c, src, pre, s1, w, t1, todo[1..]);
      var n := CircuitRun.RunFrom(c, src, w, t1, todo[1..]).value.used;
      if IsRead(todo[0]) && n <= |w.readValues| {
        ReadInOrder(c, src, pre, s, w.readValues, t.used, n, todo);
      }
    }
  }

  /** The first read of the rest of a run is the next value of the witness. */
  lemma ReadInOrder(c: Params, src: IrSource, pre: Preimage, s: State, readValues: seq<IrValue>, i: nat, n: nat,
      todo: seq<Instruction>)
    requires c.Sizes() && ValidPreimage(c, pre) && todo != [] && IsRead(todo[0]) && KeepsReads(todo)
    requires Step(c, src, pre, s, todo[0]).Some? && i < n <= |readValues|
    requires Resolve(Step(c, src, pre, s, todo[0]).value.memory, Variable(todo[0].output)) == Some(readValues[i])
    requires var e := Preprocess.RunFrom(c, src, pre, Step(c, src, pre, s, todo[0]).value, todo[1..]);
             e.Some? && readValues[i + 1..n] == ReadValues(e.value.memory, todo[1..])
    ensures var e := Preprocess.RunFrom(c, src, pre, Step(c, src, pre, s, todo[0]).value, todo[1..]).value;
            readValues[i..n] == ReadValues(e.memory, todo)
  {
    ReadOutput(c, src, pre, s, todo);
    SliceCons(readValues, i, n);
  }

  lemma SliceCons<T>(xs: seq<T>, i: nat, n: nat)
    requires i < n <= |xs|
    ensures xs[i..n] == [xs[i]] + xs[i + 1..n]
  {}

  // ----- from the interpreter to a tight run -----

  lemma StepIsTight(c: Params, src: IrSource, pre: Preimage, s: State, w: Witness, t: RunState, ins: Instruction)
    requires c.Valid() && ValidState(c, s) && Same(s, t) && OpSoundness.TypedInstruction(c, ins)
    requires ins.AlignedHash? ==> AlignedAgrees(c)
    requires CheckStep(c, src, StaticOf(s), ins).Some? && Step(c, src, pre, s, ins).Some?
    requires IsRead(ins) ==>
               && t.used < |w.readValues|
               && Some(w.readValues[t.used]) == Resolve(Step(c, src, pre, s, ins).value.memory, Variable(ins.output))
    ensures BitCountFits(c, ins) && TightStep(c, w, t, ins)
  {
    if ins.Computes() {
      ResolveAllTyped(c, s.memory, ins.Args());
      OpIsExact(c, ins, ResolveAll(s.memory, ins.Args()).value);
    }
  }

  lemma {:induction false} RunIsTight(c: Params, src: IrSource, pre: Preimage, s: State, w: Witness, t: RunState,
      todo: seq<Instruction>)
    requires c.Valid() && HashesAgree(c, todo) && ValidState(c, s) && ValidPreimage(c, pre) && Same(s, t)
    requires forall i :: 0 <= i < |todo| ==> OpSoundness.TypedInstruction(c, todo[i])
    requires KeepsReads(todo)
    requires CheckFrom(c, src, StaticOf(s), todo).Some? && Preprocess.RunFrom(c, src, pre, s, todo).Some?
    requires t.used <= |w.readValues|
    requires w.readValues[t.used..] == ReadValues(Preprocess.RunFrom(c, src, pre, s, todo).value.memory, todo)
    ensures BitCountsFit(c, todo) && TightFrom(c, src, w, t, todo)
    decreases |todo|
  {
    if todo == [] {
    } else {
      NextRead(c, src, pre, s, todo, w.readValues, t.used);
      StepIsTight(c, src, pre, s, w, t, todo[0]);
      StepAgrees(c, src, pre, w, s, todo[0], t);
      RunIsTight(c, src, pre, Step(c, src, pre, s, todo[0]).value, w, RunStep(c, src, w, t, todo[0]).value, todo[1..]);
    }
  }

  // ----- the preimage of a tight run -----

  function PreimageOf(c: Params, src: IrSource, w: Witness): Preimage
    requires RunInit(c, src, w).Some?
  {
    var t0 := RunInit(c, src, w).value;
    Preimage(w.bindingInput, Encoding.EncodeAll(c, w.inputs), w.commitment,
             ConsumedFrom(c, src, PublicIn, w, t0, src.instructions),
             ConsumedFrom(c, src, PublicOut, w, t0, src.instructions),
             ConsumedFrom(c, src, Private, w, t0, src.instructions))
  }

  lemma {:induction false} EncodedElements(c: Params, vs: seq<IrValue>)
    requires c.Sizes() && ValidValues(c, vs)
    ensures c.FieldElements(Encoding.EncodeAll(c, vs))
  {
    if vs == [] {
    } else {
      Encoding.EncodeShape(c, vs[0]);
      EncodedElements(c, vs[1..]);
    }
  }

  lemma {:induction false} ConsumedElements(c: Params, src: IrSource, tape: Tape, w: Witness, t: RunState,
      todo: seq<Instruction>)
    requires c.Sizes() && !tape.PublicIn?
    ensures c.FieldElements(ConsumedFrom(c, src, tape, w, t, todo))
    decreases |todo|
  {
    if todo == [] {
    } else if RunStep(c, src, w, t, todo[0]).Some? {
      if IsRead(todo[0]) { Encoding.EncodeShape(c, w.readValues[t.used]); }
      ConsumedElements(c, src, tape, w, RunStep(c, src, w, t, todo[0]).value, todo[1..]);
    }
  }

  lemma {:induction false} InputsEncoded(c: Params, inputs: seq<TypedIdentifier>, vs: seq<IrValue>, memory: Memory)
    requires c.Sizes() && CircuitRun.InputsTyped(c, inputs, vs)
    ensures DecodeInputs(c, inputs, Encoding.EncodeAll(c, vs), memory) == Some(Bind(memory, InputNames(inputs), vs))
    decreases |inputs|
  {
    if inputs == [] {
    } else {
      var e, rest := Encoding.Encode(c, vs[0]), Encoding.EncodeAll(c, vs[1..]);
      Encoding.EncodeShape(c, vs[0]);
      Encoding.DecodeOfEncode(c, vs[0]);
      assert (e + rest)[..|e|] == e && (e + rest)[|e|..] == rest;
      assert InputNames(inputs)[1..] == InputNames(inputs[1..]);
      InputsEncoded(c, inputs[1..], vs[1..], memory[inputs[0].name := vs[0]]);
    }
  }

  lemma PreimageIsValid(c: Params, src: IrSource, w: Witness)
    requires c.Sizes() && RunInit(c, src, w).Some?
    requires w.commitment.Some? ==> w.commitment.value.1 < c.p
    ensures ValidPreimage(c, PreimageOf(c, src, w))
  {
    var t0 := RunInit(c, src, w).value;
    EncodedElements(c, w.inputs);
    ConsumedElements(c, src, PublicOut, w, t0, src.instructions);
    ConsumedElements(c, src, Private, w, t0, src.instructions);
  }

  lemma Whole(xs: seq<nat>, ys: seq<nat>)
    requires xs == ys
    ensures xs[0..] == ys
  {}

  lemma AllSupplied(c: Params, src: IrSource, w: Witness, s: State)
    requires RunInit(c, src, w).Some? && s.publicInputsIdx == 0 && s.publicOutputsIdx == 0 && s.privateIdx == 0
    ensures SuppliesRest(c, src, PreimageOf(c, src, w), s, w, RunInit(c, src, w).value, src.instructions)
  {
    var pre, t0 := PreimageOf(c, src, w), RunInit(c, src, w).value;
    forall tape: Tape
      ensures SupplyRest(c, src, tape, pre, s, w, t0, src.instructions)
    {
      var whole := ConsumedFrom(c, src, tape, w, t0, src.instructions);
      assert TapeOf(tape, pre) == whole && Cursor(tape, s) == 0;
      Whole(TapeOf(tape, pre), whole);
    }
  }

  lemma RunsToEnd(c: Params, src: IrSource, w: Witness)
    requires SuitableSource(c, src) && BitCountsFit(c, src.instructions)
    requires CircuitRun.Run(c, src, w).Some? && Tight(c, src, w)
    ensures var pre, t := PreimageOf(c, src, w), CircuitRun.Run(c, src, w).value;
            var s0 := Init(c, src, pre);
            && ValidPreimage(c, pre) && s0.Some? && s0.value.memory == Bind(map[], InputNames(src.inputs), w.inputs)
            && var e := Preprocess.RunFrom(c, src, pre, s0.value, src.instructions);
               && e.Some? && Same(e.value, t) && TranscriptsConsumed(pre, e.value)
               && w.readValues == ReadValues(e.value.memory, src.instructions)
  {
    var pre, t0 := PreimageOf(c, src, w), RunInit(c, src, w).value;
    PreimageIsValid(c, src, w);
    InputsEncoded(c, src.inputs, w.inputs, map[]);
    InitAgrees(c, src, pre, w, w.inputs);
    var s0 := Init(c, src, pre).value;
    AllSupplied(c, src, w, s0);
    RunTaken(c, src, pre, s0, w, t0, src.instructions);
    assert w.readValues[0..|w.readValues|] == w.readValues;
  }

  /** Every tight run comes from a successful `preprocess` whose final memory holds its witness. */
  lemma TightRunIsPreprocessed(c: Params, src: IrSource, w: Witness)
    requires SuitableSource(c, src) && BitCountsFit(c, src.instructions)
    requires CircuitRun.Run(c, src, w).Some? && Tight(c, src, w)
    ensures var pre := PreimageOf(c, src, w);
            && ValidPreimage(c, pre) && Preprocess.Run(c, src, pre).Some?
            && Same(Preprocess.Run(c, src, pre).value, CircuitRun.Run(c, src, w).value)
            && FinalWitness(src, pre, Preprocess.Run(c, src, pre).value.memory) == w
  {
    RunsToEnd(c, src, w);
    InputsSurvive(c, src, PreimageOf(c, src, w), w.inputs);
  }

  lemma PreprocessedIsTight(c: Params, src: IrSource, pre: Preimage)
    requires Suitable(c, src, pre) && Preprocess.Run(c, src, pre).Some?
    ensures BitCountsFit(c, src.instructions)
    ensures Tight(c, src, FinalWitness(src, pre, Preprocess.Run(c, src, pre).value.memory))
  {
    var s0, e := Init(c, src, pre).value, Preprocess.Run(c, src, pre).value;
    var w := FinalWitness(src, pre, e.memory);
    var vs := InputsDecoded(c, src.inputs, pre.inputs, map[]);
    InputsSurvive(c, src, pre, vs);
    InitAgrees(c, src, pre, w, vs);
    assert w.readValues[0..] == w.readValues;
    RunIsTight(c, src, pre, s0, w, RunInit(c, src, w).value, src.instructions);
  }

  /** Some successful `preprocess` leaves the witness in its final memory. */
  ghost predicate LeftByPreprocess(c: Params, src: IrSource, w: Witness) {
    exists pre :: ValidPreimage(c, pre) && Preprocess.Run(c, src, pre).Some?
                  && FinalWitness(src, pre, Preprocess.Run(c, src, pre).value.memory) == w
  }

  /**
    The interpreter and the circuit, exactly. A witness is the one that some successful
    `preprocess` leaves in its final memory if and only if the program's bit counts are in the
    interpreter's range, the circuit's run succeeds on the witness, and it is tight. So the
    circuit accepts nothing beyond the interpreter except out-of-range bit counts, assertions
    of other non-zero values, operands between a comparison's width and its rounding, ignored
    guards, and hash inputs that the library does not accept.
   */
  lemma PreprocessIffTightRun(c: Params, src: IrSource, w: Witness)
    requires SuitableSource(c, src)
    ensures LeftByPreprocess(c, src, w) <==>
              BitCountsFit(c, src.instructions) && CircuitRun.Run(c, src, w).Some? && Tight(c, src, w)
  {
    forall pre | ValidPreimage(c, pre) && Preprocess.Run(c, src, pre).Some?
                 && FinalWitness(src, pre, Preprocess.Run(c, src, pre).value.memory) == w
      ensures BitCountsFit(c, src.instructions) && CircuitRun.Run(c, src, w).Some? && Tight(c, src, w)
    {
      PreprocessIsRun(c, src, pre);
      PreprocessedIsTight(c, src, pre);
    }
    if BitCountsFit(c, src.instructions) && CircuitRun.Run(c, src, w).Some? && Tight(c, src, w) {
      TightRunIsPreprocessed(c, src, w);
    }
  }

  // ----- preimages and assignments -----

  /**
    A satisfying assignment whose witness is tight comes from a preimage: `preprocess` succeeds
    on it with the memory and the public inputs that the assignment holds.
   */
  lemma TightAssignmentIsPreprocessed(c: Params, src: IrSource, k: Circuit.CircuitShape, a: Gadgets.Assignment)
    returns (pre: Preimage)
    requires SuitableSource(c, src) && BitCountsFit(c, src.instructions) && Circuit.Synthesize(c, src) == Some(k)
    requires Gadgets.Sat(c, k.b, a) && Tight(c, src, Soundness.WitnessOf(a, k))
    ensures ValidPreimage(c, pre) && Preprocess.Run(c, src, pre).Some?
    ensures var e := Preprocess.Run(c, src, pre).value;
            && e.memory == Readings.ReadMemory(a, k.memory) && e.pis == Gadgets.Cells(a, k.pis)
            && FinalWitness(src, pre, e.memory) == Soundness.WitnessOf(a, k)
  {
    Soundness.SatisfyingIsRun(c, src, k, a);
    TightRunIsPreprocessed(c, src, Soundness.WitnessOf(a, k));
    pre := PreimageOf(c, src, Soundness.WitnessOf(a, k));
  }

  /**
    The two meanings of one program: a witness is left in memory by some successful `preprocess`
    if and only if the bit counts fit and some assignment that satisfies the circuit holds the
    witness, which is tight.
   */
  lemma PreprocessIffTightAssignment(c: Params, src: IrSource, k: Circuit.CircuitShape, w: Witness)
    requires SuitableSource(c, src) && Circuit.Synthesize(c, src) == Some(k)
    ensures LeftByPreprocess(c, src, w) <==>
              && BitCountsFit(c, src.instructions) && Tight(c, src, w)
              && exists a :: Gadgets.Sat(c, k.b, a) && Soundness.WitnessOf(a, k) == w
  {
    PreprocessIffTightRun(c, src, w);
    Satisfiability.SatisfiableIffRun(c, src, k, w);
  }
}
