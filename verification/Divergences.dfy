/**
  Where the two runs differ. Each lemma shows that a hypothesis of completeness cannot be
  dropped, or says exactly where the circuit accepts more than the interpreter.
 */
module Divergences {
  import opened Options
  import opened Digits
  import opened Types
  import opened Instructions
  import opened Operations
  import opened Preprocess
  import opened Typing
  import opened ChipSelection
  import AlignmentChecks
  import Bits
  import Chips
  import Circuit
  import CircuitRun
  import Completeness
  import Gadgets
  import Growth
  import OpSoundness
  import Soundness

  // ----- programs that only the interpreter takes -----

  /** A source of one instruction. */
  function Lone(ins: Instruction): IrSource {
    IrSource([], [], false, [ins])
  }

  function EmptyPreimage(transcript: seq<nat>): Preimage {
    Preimage(0, [], None, [], transcript, [])
  }

  const START: State := State(map[], [0], [], 0, 0, 0, [])

  lemma LoneRuns(c: Params, ins: Instruction)
    requires Step(c, Lone(ins), EmptyPreimage([]), START, ins).Some?
    requires TranscriptsConsumed(EmptyPreimage([]), Step(c, Lone(ins), EmptyPreimage([]), START, ins).value)
    ensures Run(c, Lone(ins), EmptyPreimage([])).Some?
  {
    var src, pre := Lone(ins), EmptyPreimage([]);
    var s1 := Step(c, src, pre, START, ins).value;
    assert Init(c, src, pre) == Some(START);
    assert src.instructions[1..] == [] && RunFrom(c, src, pre, s1, []) == Some(s1);
    assert RunFrom(c, src, pre, START, src.instructions) == RunFrom(c, src, pre, s1, src.instructions[1..]);
  }

  lemma LoneChecks(c: Params, ins: Instruction)
    ensures Check(c, Lone(ins)) == CheckStep(c, Lone(ins), Static(map[], 1, []), ins)
  {
    var src, s0 := Lone(ins), Static(map[], 1, []);
    assert CheckInit(src) == Some(s0) && src.instructions[1..] == [];
    var r := CheckStep(c, src, s0, ins);
    if r.Some? { assert CheckFrom(c, src, r.value, []) == r; }
    assert CheckFrom(c, src, s0, src.instructions) ==
           if r.Some? then CheckFrom(c, src, r.value, src.instructions[1..]) else None;
  }

  lemma {:induction false} NothingBound(operands: seq<Operand>)
    ensures TypeOperands(map[], operands).Some? <==> forall i :: 0 <= i < |operands| ==> operands[i].Immediate?
    ensures TypeOperands(map[], operands).Some? ==> AllAre(IrType.Native, TypeOperands(map[], operands).value)
  {
    if operands == [] {
    } else {
      NothingBound(operands[1..]);
      assert forall i :: 0 < i < |operands| ==> operands[i] == operands[1..][i - 1];
    }
  }

  /**
    The interpreter never resolves the inputs of a guarded-off impact; the circuit always does. With
    nothing bound the program runs whatever they are, and has a circuit only if all are immediates.
   */
  lemma GuardedOffImpactDiverges(c: Params, inputs: seq<Operand>)
    requires c.Sizes()
    ensures var src := Lone(Impact(Immediate(0), inputs));
            && Run(c, src, EmptyPreimage([])).Some?
            && (Circuit.Synthesize(c, src).Some? <==> forall i :: 0 <= i < |inputs| ==> inputs[i].Immediate?)
  {
    var ins := Impact(Immediate(0), inputs);
    LoneRuns(c, ins);
    LoneChecks(c, ins);
    NothingBound(inputs);
    Chips.SynthesisIffChecked(c, Lone(ins));
  }

  lemma ConversionRuns(c: Params, x: nat, ins: Instruction)
    requires ins.JubjubScalarFromNative? && ins.native == Immediate(x)
    ensures Run(c, Lone(ins), EmptyPreimage([])).Some? && Check(c, Lone(ins)).Some?
  {
    ResolveOne(START.memory, Immediate(x), IrValue.Native(x));
    LoneRuns(c, ins);
    LoneChecks(c, ins);
    assert [Immediate(x)][1..] == [] && TypeOperands(map[], []) == Some([]) && [IrType.Native] + [] == [IrType.Native];
    assert TypeOperands(map[], [Immediate(x)]) == Some([IrType.Native]);
  }

  /**
    A conversion to a Jubjub scalar alone runs and passes the check, but the chip it calls is not
    selected, so there is no circuit.
   */
  lemma MissingChipDiverges(c: Params, x: nat, ins: Instruction)
    requires c.Sizes() && ins.JubjubScalarFromNative? && ins.native == Immediate(x)
    ensures Run(c, Lone(ins), EmptyPreimage([])).Some? && Check(c, Lone(ins)).Some?
    ensures !Covered(Lone(ins)) && Circuit.Synthesize(c, Lone(ins)) == None
  {
    ConversionRuns(c, x, ins);
    NotCovered(ins);
    Chips.CircuitIffCovered(c, Lone(ins));
  }

  lemma NotCovered(ins: Instruction)
    requires ins.JubjubScalarFromNative?
    ensures !Covered(Lone(ins))
  {
    assert Introduced(Lone(ins).instructions[0]) == Some(IrType.JubjubScalar);
  }

  /** An identifier read from the transcript, asserted, and then read again. */
  function ReadTwice(): IrSource {
    IrSource([], [], false, [
      PublicInput(None, IrType.Native, "%x"), Assert(Variable("%x")), PublicInput(None, IrType.Native, "%x")])
  }

  lemma ReadNative(c: Params, transcript: seq<nat>, i: nat)
    requires i < |transcript|
    ensures ReadTranscript(c, transcript, i, IrType.Native) == Some(IrValue.Native(transcript[i]))
  {
    assert transcript[i..i + 1] == [transcript[i]];
  }

  /** The interpreter's run of `ReadTwice`: the assertion sees the first value, the final memory the second. */
  lemma ReadTwiceRuns(c: Params)
    ensures var r := Run(c, ReadTwice(), EmptyPreimage([1, 0]));
            r.Some? && r.value.memory == map["%x" := IrValue.Native(0)]
  {
    var src, pre := ReadTwice(), EmptyPreimage([1, 0]);
    var todo := src.instructions;
    var s0 := Init(c, src, pre).value;
    ReadNative(c, [1, 0], 0);
    ReadNative(c, [1, 0], 1);
    var s1 := StepRead(c, pre, s0, todo[0]).value;
    AssertOne(c, s1, todo[1]);
    var s3 := StepRead(c, pre, s1, todo[2]).value;
    RunThree(c, src, pre, s0, s1, s1, s3);
  }

  lemma ResolveOne(memory: Memory, o: Operand, v: IrValue)
    requires Resolve(memory, o) == Some(v)
    ensures ResolveAll(memory, [o]) == Some([v])
  {
    assert [o][1..] == [] && ResolveAll(memory, []) == Some([]) && [v] + [] == [v];
  }

  lemma AssertOne(c: Params, s: State, ins: Instruction)
    requires ins == Assert(Variable("%x")) && "%x" in s.memory && s.memory["%x"] == IrValue.Native(1)
    ensures StepCompute(c, s, ins) == Some(s)
  {
    ResolveOne(s.memory, Variable("%x"), IrValue.Native(1));
    assert Apply(c, ins, [IrValue.Native(1)]) == Some([]);
  }

  lemma RunThree(c: Params, src: IrSource, pre: Preimage, s0: State, s1: State, s2: State, s3: State)
    requires |src.instructions| == 3
    requires Step(c, src, pre, s0, src.instructions[0]) == Some(s1)
    requires Step(c, src, pre, s1, src.instructions[1]) == Some(s2)
    requires Step(c, src, pre, s2, src.instructions[2]) == Some(s3)
    ensures RunFrom(c, src, pre, s0, src.instructions) == Some(s3)
  {
    var todo := src.instructions;
    assert todo[1..][0] == todo[1] && todo[1..][1..] == todo[2..] && todo[2..][0] == todo[2] && todo[2..][1..] == [];
    assert RunFrom(c, src, pre, s3, []) == Some(s3);
    assert RunFrom(c, src, pre, s2, todo[2..]) == Some(s3);
    assert RunFrom(c, src, pre, s1, todo[1..]) == Some(s3);
  }

  lemma ReadTwiceWitness(pre: Preimage)
    requires pre.bindingInput == 0
    ensures var v := IrValue.Native(0);
            Completeness.FinalWitness(ReadTwice(), pre, map["%x" := v]) == CircuitRun.Witness([], [v, v], 0, None)
  {
    var v, todo := IrValue.Native(0), ReadTwice().instructions;
    var m: Memory := map["%x" := v];
    assert todo[1..][0] == todo[1] && todo[1..][1..] == todo[2..] && todo[2..][0] == todo[2] && todo[2..][1..] == [];
    assert Completeness.ReadValues(m, todo[2..]) == [v];
    assert Completeness.ReadValues(m, todo[1..]) == [v];
    assert Completeness.ReadValues(m, todo) == [v] + [v];
  }

  lemma AssertZeroFails(c: Params, ins: Instruction)
    requires ins == Assert(Variable("%x"))
    ensures CircuitRun.CircuitApply(c, ins, [IrValue.Native(0)]) == None
  {}

  lemma ReadTwiceFails(c: Params)
    requires c.Sizes()
    ensures var v := IrValue.Native(0); CircuitRun.Run(c, ReadTwice(), CircuitRun.Witness([], [v, v], 0, None)) == None
  {
    var v, todo := IrValue.Native(0), ReadTwice().instructions;
    var src, w := ReadTwice(), CircuitRun.Witness([], [v, v], 0, None);
    var s0 := CircuitRun.RunInit(c, src, w).value;
    var s1 := CircuitRun.RunRead(c, w, s0, todo[0]).value;
    assert todo[1..][0] == todo[1];
    ResolveOne(s1.memory, Variable("%x"), v);
    AssertZeroFails(c, todo[1]);
    assert CircuitRun.RunStep(c, src, w, s1, todo[1]) == None;
    assert CircuitRun.RunFrom(c, src, w, s1, todo[1..]) == None;
  }

  /**
    Reads must not be overwritten: the witness is read off the final memory, where a rebound
    identifier no longer has the value that earlier constraints saw.
   */
  lemma RebindingDiverges(c: Params)
    requires c.Sizes()
    ensures var src, pre := ReadTwice(), EmptyPreimage([1, 0]);
            var r := Run(c, src, pre);
            r.Some? && CircuitRun.Run(c, src, Completeness.FinalWitness(src, pre, r.value.memory)) == None
  {
    ReadTwiceRuns(c);
    ReadTwiceWitness(EmptyPreimage([1, 0]));
    ReadTwiceFails(c);
  }

  // ----- programs on which the alignment checks fire -----

  /** A computed identifier bound to zero and then to one. */
  function Rebound(): IrSource {
    IrSource([], [], false, [Copy(Immediate(0), "%x"), Copy(Immediate(1), "%x")])
  }

  lemma CopyRuns(c: Params, s: State, x: nat, ins: Instruction)
    requires ins == Copy(Immediate(x), "%x")
    ensures StepCompute(c, s, ins) == Some(s.(memory := s.memory["%x" := IrValue.Native(x)]))
  {
    var v := IrValue.Native(x);
    ResolveOne(s.memory, Immediate(x), v);
    assert Apply(c, ins, [v]) == Some([v]);
    assert Bind(s.memory, ["%x"], [v]) == s.memory["%x" := v];
  }

  lemma ReboundRuns(c: Params)
    ensures Run(c, Rebound(), EmptyPreimage([])).Some?
    ensures Run(c, Rebound(), EmptyPreimage([])).value.memory == map["%x" := IrValue.Native(1)]
    ensures AlignmentChecks.StateAfter(c, Rebound(), EmptyPreimage([]), 1).Some?
    ensures AlignmentChecks.StateAfter(c, Rebound(), EmptyPreimage([]), 1).value.memory
            == map["%x" := IrValue.Native(0)]
  {
    var src, pre := Rebound(), EmptyPreimage([]);
    var todo := src.instructions;
    assert Init(c, src, pre) == Some(START);
    CopyRuns(c, START, 0, todo[0]);
    var s1 := START.(memory := map["%x" := IrValue.Native(0)]);
    CopyRuns(c, s1, 1, todo[1]);
    var s2 := START.(memory := map["%x" := IrValue.Native(1)]);
    assert s1.memory["%x" := IrValue.Native(1)] == s2.memory && START.memory["%x" := IrValue.Native(0)] == s1.memory;
    assert todo[1..][0] == todo[1] && todo[1..][1..] == [] && todo[..1] == [todo[0]] && [todo[0]][1..] == [];
    assert RunFrom(c, src, pre, s2, []) == Some(s2) && RunFrom(c, src, pre, s1, []) == Some(s1);
    assert RunFrom(c, src, pre, s1, todo[1..]) == Some(s2);
    assert RunFrom(c, src, pre, START, todo) == Some(s2);
    assert RunFrom(c, src, pre, START, todo[..1]) == Some(s1);
  }

  lemma ReboundKeepsWitness()
    ensures Completeness.KeepsWitness(Rebound()) && !SingleAssignment(Rebound())
  {
    var todo := Rebound().instructions;
    assert todo[1..][0] == todo[1] && todo[1..][1..] == [];
    assert todo[0].Outs() == ["%x"] && todo[1].Outs() == ["%x"];
    assert Written(todo[1..]) == ["%x"] + Written([]) && Written(todo) == ["%x"] + Written(todo[1..]);
    var names := InputNames(Rebound().inputs) + Written(todo);
    assert names[0] == "%x" && names[1] == "%x";
    assert Completeness.KeepsReads(todo[1..]);
  }

  lemma CopyChecks(c: Params, s: Static, x: nat, ins: Instruction)
    requires ins == Copy(Immediate(x), "%x")
    ensures CheckCompute(c, s, ins) == Some(s.(env := s.env["%x" := IrType.Native]))
  {
    assert [Immediate(x)][1..] == [] && TypeOperands(s.env, []) == Some([]) && [IrType.Native] + [] == [IrType.Native];
    assert TypeOperands(s.env, [Immediate(x)]) == Some([IrType.Native]);
    assert Bind(s.env, ["%x"], [IrType.Native]) == s.env["%x" := IrType.Native];
  }

  lemma ReboundChecks(c: Params)
    ensures Check(c, Rebound()).Some?
  {
    var src, s0 := Rebound(), Static(map[], 1, []);
    var todo := src.instructions;
    assert CheckInit(src) == Some(s0);
    CopyChecks(c, s0, 0, todo[0]);
    var s1 := Static(map["%x" := IrType.Native], 1, []);
    CopyChecks(c, s1, 1, todo[1]);
    assert s1.env["%x" := IrType.Native] == s1.env && s0.env["%x" := IrType.Native] == s1.env;
    assert todo[1..][0] == todo[1] && todo[1..][1..] == [];
    assert CheckFrom(c, src, s1, []) == Some(s1);
    assert CheckFrom(c, src, s1, todo[1..]) == Some(s1);
    assert CheckFrom(c, src, s0, todo) == Some(s1);
  }

  lemma ReboundIsTyped(c: Params)
    requires 1 < c.p
    ensures Soundness.TypedSource(c, Rebound()) && Covered(Rebound())
  {
    var todo := Rebound().instructions;
    forall i | 0 <= i < |todo|
      ensures OpSoundness.TypedInstruction(c, todo[i]) && Introduced(todo[i]).None?
    {
      assert todo[i].Args() == [Immediate(i)];
    }
  }

  lemma ReboundIsSuitable(c: Params)
    requires c.Valid() && 1 < c.p
    ensures Completeness.Suitable(c, Rebound(), EmptyPreimage([]))
  {
    ReboundChecks(c);
    ReboundIsTyped(c);
    ReboundKeepsWitness();
  }

  /**
    Without single assignment the alignment checks may fire: a computed identifier bound again to
    another value does not match what `preprocess` left, although the constraints are satisfied.
   */
  lemma AlignmentCheckFires(c: Params, k: Circuit.CircuitShape) returns (a: Gadgets.Assignment)
    requires c.Valid() && Circuit.Synthesize(c, Rebound()) == Some(k)
    ensures Run(c, Rebound(), EmptyPreimage([])).Some? && Gadgets.Sat(c, k.b, a)
    ensures Growth.Stage(c, Rebound(), 1).Some?
    ensures !AlignmentChecks.ChecksPass(a, Growth.Stage(c, Rebound(), 1).value,
                                        Preprocess.Preprocess(c, Rebound(), EmptyPreimage([])).value)
  {
    ReboundRuns(c);
    FieldHoldsLimb(c);
    ReboundIsSuitable(c);
    a := AlignmentChecks.AlignmentChecksPassIff(c, Rebound(), EmptyPreimage([]), k);
    assert "%x" in AlignmentChecks.StateAfter(c, Rebound(), EmptyPreimage([]), 1).value.memory;
  }

  // ----- operands that only the circuit takes -----

  /** A program that reads a value from the transcript and asserts it. */
  function ReadAndAssert(): IrSource {
    IrSource([], [], false, [PublicInput(None, IrType.Native, "%x"), Assert(Variable("%x"))])
  }

  lemma AssertApplies(c: Params, x: nat, ins: Instruction)
    requires ins.Assert?
    ensures Apply(c, ins, [IrValue.Native(x)]) == if x == 1 then Some([]) else None
    ensures CircuitRun.CircuitApply(c, ins, [IrValue.Native(x)]) == if x != 0 then Some([]) else None
  {}

  lemma ReadAndAssertRuns(c: Params, x: nat)
    ensures Run(c, ReadAndAssert(), EmptyPreimage([x])).Some? <==> x == 1
  {
    var src, pre, v := ReadAndAssert(), EmptyPreimage([x]), IrValue.Native(x);
    var todo := src.instructions;
    var s0 := Init(c, src, pre).value;
    ReadNative(c, [x], 0);
    var s1 := StepRead(c, pre, s0, todo[0]).value;
    assert todo[1..][0] == todo[1] && todo[1..][1..] == [];
    ResolveOne(s1.memory, Variable("%x"), v);
    AssertApplies(c, x, todo[1]);
    assert RunFrom(c, src, pre, s0, todo) == RunFrom(c, src, pre, s1, todo[1..]);
    if x == 1 {
      assert StepCompute(c, s1, todo[1]) == Some(s1);
      assert RunFrom(c, src, pre, s1, []) == Some(s1);
      assert RunFrom(c, src, pre, s1, todo[1..]) == Some(s1);
    } else {
      assert StepCompute(c, s1, todo[1]) == None;
      assert RunFrom(c, src, pre, s1, todo[1..]) == None;
    }
  }

  lemma ReadAndAssertHolds(c: Params, x: nat)
    requires c.Sizes() && x < c.p
    ensures CircuitRun.Run(c, ReadAndAssert(), CircuitRun.Witness([], [IrValue.Native(x)], 0, None)).Some? <==> x != 0
  {
    var src, v := ReadAndAssert(), IrValue.Native(x);
    var todo, w := src.instructions, CircuitRun.Witness([], [v], 0, None);
    var s0 := CircuitRun.RunInit(c, src, w).value;
    var s1 := CircuitRun.RunRead(c, w, s0, todo[0]).value;
    assert todo[1..][0] == todo[1] && todo[1..][1..] == [];
    ResolveOne(s1.memory, Variable("%x"), v);
    AssertApplies(c, x, todo[1]);
    assert CircuitRun.RunFrom(c, src, w, s0, todo) == CircuitRun.RunFrom(c, src, w, s1, todo[1..]);
    if x != 0 {
      assert CircuitRun.RunCompute(c, s1, todo[1]) == Some(s1);
      assert CircuitRun.RunFrom(c, src, w, s1, []) == Some(s1);
      assert CircuitRun.RunFrom(c, src, w, s1, todo[1..]) == Some(s1);
    } else {
      assert CircuitRun.RunCompute(c, s1, todo[1]) == None;
      assert CircuitRun.RunFrom(c, src, w, s1, todo[1..]) == None;
    }
  }

  /**
    An assertion demands one off-circuit and only rules out zero in-circuit: of one program,
    `preprocess` succeeds on a transcript with a one alone, and the circuit's run whatever
    non-zero element is read.
   */
  lemma AssertDiffers(c: Params, x: nat)
    requires c.Sizes() && x < c.p
    ensures Run(c, ReadAndAssert(), EmptyPreimage([x])).Some? <==> x == 1
    ensures CircuitRun.Run(c, ReadAndAssert(), CircuitRun.Witness([], [IrValue.Native(x)], 0, None)).Some? <==> x != 0
  {
    ReadAndAssertRuns(c, x);
    ReadAndAssertHolds(c, x);
  }

  /** The two comparisons on given operands. */
  predicate ComparesAlike(c: Params, bits: nat, x: nat, y: nat) {
    var ins := LessThan(Immediate(x), Immediate(y), bits, "%r");
    var vs := [IrValue.Native(x), IrValue.Native(y)];
    Apply(c, ins, vs) == CircuitRun.CircuitApply(c, ins, vs)
  }

  lemma ComparesAlikeWithin(c: Params, bits: nat, x: nat, y: nat)
    requires c.Sizes() && x < c.p && y < c.p && bits < c.frBits
    ensures ComparesAlike(c, bits, x, y) <==>
              (x < Pow(2, bits) && y < Pow(2, bits)) ||
              x >= Pow(2, Circuit.RoundedBits(bits)) || y >= Pow(2, Circuit.RoundedBits(bits))
  {
    Bits.BoundedBitsVal(c, x, bits);
    Bits.BoundedBitsVal(c, y, bits);
    PowMono(2, bits, Circuit.RoundedBits(bits));
  }

  lemma PowStrict(b: nat, i: nat, j: nat)
    requires b >= 2 && i < j
    ensures Pow(b, i) < Pow(b, j)
  {
    PowMono(b, i + 1, j);
    MulMono(2, b, Pow(b, i));
  }

  /** From the width of the field on, the interpreter rejects every comparison and the circuit none. */
  lemma WideComparison(c: Params, bits: nat)
    requires c.Sizes() && bits >= c.frBits
    ensures !ComparesAlike(c, bits, 0, 0)
  {
    Bits.BoundedBitsVal(c, 0, bits);
    PowMono(2, 0, Circuit.RoundedBits(bits));
  }

  /**
    The comparisons agree on all field elements exactly when the width is not rounded and below
    that of the field: otherwise two to the power of the width is rejected off-circuit and compared
    in-circuit, or everything is.
   */
  lemma ComparisonsAgreeIff(c: Params, bits: nat)
    requires c.Sizes()
    ensures (forall x: nat, y: nat | x < c.p && y < c.p :: ComparesAlike(c, bits, x, y))
            <==> bits % 2 == 0 && 4 <= bits < c.frBits
  {
    if bits >= c.frBits {
      WideComparison(c, bits);
    } else {
      forall x: nat, y: nat | x < c.p && y < c.p
        ensures ComparesAlike(c, bits, x, y) <==>
                  (x < Pow(2, bits) && y < Pow(2, bits)) ||
                  x >= Pow(2, Circuit.RoundedBits(bits)) || y >= Pow(2, Circuit.RoundedBits(bits))
      {
        ComparesAlikeWithin(c, bits, x, y);
      }
      if Circuit.RoundedBits(bits) != bits {
        PowStrict(2, bits, Circuit.RoundedBits(bits));
        FieldHoldsBits(c, bits);
        assert !ComparesAlike(c, bits, Pow(2, bits), 0);
      }
    }
  }
}
