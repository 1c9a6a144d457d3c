/**
  What each computing instruction does, operand by operand and in plain arithmetic. Both runs
  are shown to do exactly this; the few conditions in which they differ stand side by side.
 */
module Meaning {
  import opened Options
  import opened Digits
  import opened Types
  import opened Instructions
  import opened Operations
  import opened Preprocess
  import opened Agreement
  import Bits
  import ByteConversions
  import Circuit
  import CircuitRun
  import Encoding
  import OpAgreement
  import OpSoundness
  import Reconstitution
  import Refusals
  import Typing

  /** The interpreter, or the run that the constraints describe. */
  datatype Mode = OffCircuit | InCircuit

  // ----- operands -----

  /** The native element that an operand stands for. */
  function NativeAt(memory: Memory, o: Operand): Option<nat> {
    match o
    case Immediate(x) => Some(x)
    case Variable(id) => if id in memory && memory[id].Native? then Some(memory[id].x) else None
  }

  function BitAt(memory: Memory, o: Operand): Option<bool> {
    var x :- NativeAt(memory, o);
    if x == 0 then Some(false) else if x == 1 then Some(true) else None
  }

  function BytesAt(memory: Memory, o: Operand): Option<seq<nat>> {
    if o.Variable? && o.id in memory && memory[o.id].Bytes? then Some(memory[o.id].bytes) else None
  }

  function NativesAt(memory: Memory, os: seq<Operand>): Option<seq<nat>> {
    if os == [] then Some([])
    else
      var x :- NativeAt(memory, os[0]);
      var rest :- NativesAt(memory, os[1..]);
      Some([x] + rest)
  }

  function BoolsAt(memory: Memory, os: seq<Operand>): Option<seq<bool>> {
    if os == [] then Some([])
    else if !(os[0].Variable? && os[0].id in memory && memory[os[0].id].Bool?) then None
    else
      var rest :- BoolsAt(memory, os[1..]);
      Some([memory[os[0].id].b] + rest)
  }

  /** The bytes of single bytes and byte strings, one operand after the other. */
  function ConcatAt(memory: Memory, os: seq<Operand>): Option<seq<nat>> {
    if os == [] then Some([])
    else
      var first :-
        if os[0].Variable? && os[0].id in memory && memory[os[0].id].Byte? then Some([memory[os[0].id].byte])
        else BytesAt(memory, os[0]);
      var rest :- ConcatAt(memory, os[1..]);
      Some(first + rest)
  }

  /** The modulus of the prime field that a value is from. */
  function OrderOf(c: Params, v: IrValue): Option<Pos> {
    match v
    case Native(_) => Some(c.p)
    case JubjubScalar(_) => Some(c.r)
    case Foreign(f, _) => Some(c.order(f))
    case _ => None
  }

  /** The element `x` of the field that `v` is from. */
  function Like(v: IrValue, x: nat): IrValue {
    match v
    case JubjubScalar(_) => IrValue.JubjubScalar(x)
    case Foreign(f, _) => IrValue.Foreign(f, x)
    case _ => IrValue.Native(x)
  }

  /** The element of field `t` with the value of some bytes, reduced. */
  function ReducedTo(c: Params, t: IrType, n: nat): Option<IrValue> {
    match t
    case Native => Some(IrValue.Native(n % c.p))
    case JubjubScalar => Some(IrValue.JubjubScalar(n % c.r))
    case Foreign(f) => Some(IrValue.Foreign(f, n % c.order(f)))
    case _ => None
  }

  function Backwards(bs: seq<nat>): seq<nat> {
    if bs == [] then [] else [bs[|bs| - 1]] + Backwards(bs[..|bs| - 1])
  }

  function Trues(bs: seq<bool>): nat {
    if bs == [] then 0 else (if bs[0] then 1 else 0) + Trues(bs[1..])
  }

  // ----- results -----

  /** The results, bound to the named identifiers. */
  predicate Binds(memory: Memory, memory': Memory, ids: seq<Identifier>, vs: seq<IrValue>) {
    |ids| == |vs| && memory' == Bind(memory, ids, vs)
  }

  /** The width that a comparison is made at: in-circuit the next even one, and at least four. */
  function Width(mode: Mode, bits: nat): nat {
    if mode.OffCircuit? then bits
    else if bits <= 4 then 4
    else if bits % 2 == 0 then bits
    else bits + 1
  }

  // ----- instructions -----

  predicate Selects(mode: Mode, memory: Memory, memory': Memory, bit: Operand, a: Operand, b: Operand, o: Identifier) {
    var k, u, v := BitAt(memory, bit), Resolve(memory, a), Resolve(memory, b);
    && k.Some? && u.Some? && v.Some? && TypeOf(u.value) == TypeOf(v.value)
    && (mode.InCircuit? ==> !u.value.Bytes?)
    && memory' == memory[o := if k.value then u.value else v.value]
  }

  predicate Copies(memory: Memory, memory': Memory, val: Operand, o: Identifier) {
    Resolve(memory, val).Some? && memory' == memory[o := Resolve(memory, val).value]
  }

  predicate Complements(memory: Memory, memory': Memory, a: Operand, o: Identifier) {
    var k := BitAt(memory, a);
    k.Some? && memory' == memory[o := IrValue.Native(if k.value then 0 else 1)]
  }

  predicate HashesFields(c: Params, memory: Memory, memory': Memory, xs: seq<Operand>, o: Identifier) {
    var ns := NativesAt(memory, xs);
    ns.Some? && memory' == memory[o := IrValue.Native(c.poseidon(ns.value))]
  }

  predicate Tests(mode: Mode, memory: Memory, memory': Memory, a: Operand, b: Operand, o: Identifier) {
    var u, v := Resolve(memory, a), Resolve(memory, b);
    && u.Some? && v.Some?
    && (TypeOf(u.value) == TypeOf(v.value) || (mode.OffCircuit? && u.value.Bytes? && v.value.Bytes?))
    && memory' == memory[o := IrValue.Native(if u.value == v.value then 1 else 0)]
  }

  predicate Comparable(mode: Mode, c: Params, x: nat, y: nat, bits: nat) {
    (mode.OffCircuit? ==> bits < c.frBits) && x < Pow(2, Width(mode, bits)) && y < Pow(2, Width(mode, bits))
  }

  predicate Compares(mode: Mode, c: Params, memory: Memory, memory': Memory, a: Operand, b: Operand, bits: nat,
      o: Identifier)
  {
    var x, y := NativeAt(memory, a), NativeAt(memory, b);
    && x.Some? && y.Some? && Comparable(mode, c, x.value, y.value, bits)
    && memory' == memory[o := IrValue.Native(if x.value < y.value then 1 else 0)]
  }

  predicate Divides(mode: Mode, c: Params, memory: Memory, memory': Memory, val: Operand, bits: nat,
      os: seq<Identifier>)
  {
    var x := NativeAt(memory, val);
    && x.Some? && bits <= (if mode.OffCircuit? then 8 * c.limbBytes else c.frBits) && |os| == 2
    && memory' == memory[os[0] := IrValue.Native(x.value / Pow(2, bits))]
                        [os[1] := IrValue.Native(x.value % Pow(2, bits))]
  }

  function Joined(d: nat, m: nat, bits: nat): nat {
    d * Pow(2, bits) + m
  }

  predicate Joinable(mode: Mode, c: Params, d: nat, m: nat, bits: nat) {
    && (if mode.OffCircuit? then 1 <= bits <= 8 * c.limbBytes else bits <= c.frBits)
    && m < Pow(2, bits) && Joined(d, m, bits) < c.p
  }

  predicate Rejoins(mode: Mode, c: Params, memory: Memory, memory': Memory, divisor: Operand, modulus: Operand,
      bits: nat, o: Identifier)
  {
    var d, m := NativeAt(memory, divisor), NativeAt(memory, modulus);
    && d.Some? && m.Some? && Joinable(mode, c, d.value, m.value, bits)
    && memory' == memory[o := IrValue.Native(Joined(d.value, m.value, bits))]
  }

  predicate Hashes(mode: Mode, c: Params, memory: Memory, memory': Memory, kind: HashKind, alignment: Alignment,
      xs: seq<Operand>, o: Identifier)
  {
    var ns := NativesAt(memory, xs);
    && ns.Some?
    && var bytes := if mode.OffCircuit? then c.alignedBytes(alignment, ns.value)
                    else CircuitRun.AlignedBytes(c, alignment, ns.value);
       bytes.Some? && memory' == memory[o := IrValue.Bytes(c.digest(kind, bytes.value))]
  }

  /** A sum or a product in the field of both operands. */
  predicate Combines(c: Params, memory: Memory, memory': Memory, a: Operand, b: Operand, o: Identifier, sum: bool) {
    var u, v := Resolve(memory, a), Resolve(memory, b);
    && u.Some? && v.Some? && TypeOf(u.value) == TypeOf(v.value) && OrderOf(c, u.value).Some?
    && var x, y := Elem(u.value), Elem(v.value);
       memory' == memory[o := Like(u.value, (if sum then x + y else x * y) % OrderOf(c, u.value).value)]
  }

  predicate Negates(c: Params, memory: Memory, memory': Memory, a: Operand, o: Identifier) {
    var u := Resolve(memory, a);
    && u.Some?
    && if u.value.Bool? then memory' == memory[o := IrValue.Bool(!u.value.b)]
       else
         && OrderOf(c, u.value).Some?
         && var x, q := Elem(u.value), OrderOf(c, u.value).value;
            memory' == memory[o := Like(u.value, if 0 < x < q then q - x else 0)]
  }

  /** `y` is inverse to `x` modulo `q`. */
  predicate IsInverse(q: Pos, x: nat, y: nat) {
    y < q && (x * y) % q == 1
  }

  ghost predicate Inverts(c: Params, memory: Memory, memory': Memory, a: Operand, o: Identifier) {
    var u := Resolve(memory, a);
    && u.Some? && OrderOf(c, u.value).Some?
    && var q := OrderOf(c, u.value).value;
       exists y: nat :: IsInverse(q, Elem(u.value), y) && memory' == memory[o := Like(u.value, y)]
  }

  predicate JoinsValues(mode: Mode, c: Params, u: IrValue, v: IrValue) {
    && OrderOf(c, u).Some? && OrderOf(c, v).Some? && (mode.InCircuit? ==> v.Native?)
    && Elem(u) < Pow(256, c.limbBytes) && Elem(v) < 256
  }

  predicate JoinsHigh(mode: Mode, c: Params, memory: Memory, memory': Memory, low: Operand, high: Operand,
      o: Identifier)
  {
    var u, v := Resolve(memory, low), Resolve(memory, high);
    && u.Some? && v.Some? && JoinsValues(mode, c, u.value, v.value)
    && memory' == memory[o := IrValue.Bytes(DigitsOf(Elem(u.value), 256, c.limbBytes) + [Elem(v.value)])]
  }

  predicate SplitsHigh(c: Params, memory: Memory, memory': Memory, bytes: Operand, l: Identifier, h: Identifier) {
    var bs := BytesAt(memory, bytes);
    && bs.Some? && |bs.value| == c.limbBytes + 1
    && memory' == memory[l := IrValue.Native(Val(bs.value[..c.limbBytes], 256))]
                        [h := IrValue.Native(bs.value[c.limbBytes])]
  }

  /** `bs` is a byte string of length `len` that packs to the elements. */
  predicate UnpacksTo(c: Params, ns: seq<nat>, len: nat, bs: seq<nat>) {
    1 <= len <= 0x100_0000 && |bs| == len && IsDigits(bs, 256) && Encoding.PackBytes(c, bs) == ns
  }

  ghost predicate Unpacks(c: Params, memory: Memory, memory': Memory, xs: seq<Operand>, len: nat, o: Identifier) {
    var ns := NativesAt(memory, xs);
    ns.Some? && exists bs :: UnpacksTo(c, ns.value, len, bs) && memory' == memory[o := IrValue.Bytes(bs)]
  }

  ghost predicate Loads(c: Params, memory: Memory, memory': Memory, t: IrType, encoding: seq<nat>, o: Identifier) {
    exists v :: ValidValue(c, v) && TypeOf(v) == t && Encoding.Encode(c, v) == encoding && memory' == memory[o := v]
  }

  /** A gate by the number of operands that are true: all of them, some of them, or an odd number. */
  predicate GateHolds(ins: Instruction, bs: seq<bool>) {
    if ins.And? then Trues(bs) == |bs| else if ins.Or? then Trues(bs) > 0 else Trues(bs) % 2 == 1
  }

  predicate Gates(memory: Memory, memory': Memory, ins: Instruction)
    requires ins.And? || ins.Or? || ins.Xor?
  {
    var bs := BoolsAt(memory, ins.inputs);
    bs.Some? && bs.value != [] && memory' == memory[ins.output := IrValue.Bool(GateHolds(ins, bs.value))]
  }

  /** Instructions that only check. */
  predicate Checks(mode: Mode, c: Params, ins: Instruction, memory: Memory) {
    match ins
    case Assert(cond) =>
      var x := NativeAt(memory, cond);
      x.Some? && if mode.OffCircuit? then x.value == 1 else x.value != 0
    case ConstrainBits(val, bits) =>
      var x := NativeAt(memory, val);
      x.Some? && x.value < Pow(2, bits) && (mode.OffCircuit? ==> bits < c.frBits)
    case ConstrainEq(a, b) => Resolve(memory, a).Some? && Resolve(memory, a) == Resolve(memory, b)
    case ConstrainToBoolean(val) => BitAt(memory, val).Some?
    case _ => false
  }

  /** Instructions on the bytes of one operand. */
  predicate Rearranges(c: Params, ins: Instruction, memory: Memory, memory': Memory) {
    match ins
    case Reverse(bytes, o) =>
      var bs := BytesAt(memory, bytes);
      bs.Some? && memory' == memory[o := IrValue.Bytes(Backwards(bs.value))]
    case Slice(bytes, start, len, o) =>
      var bs := BytesAt(memory, bytes);
      && bs.Some? && 0 < len && start + len <= |bs.value|
      && memory' == memory[o := IrValue.Bytes(bs.value[start..start + len])]
    case Nth(bytes, index, o) =>
      var bs := BytesAt(memory, bytes);
      bs.Some? && index < |bs.value| && memory' == memory[o := IrValue.Byte(bs.value[index])]
    case Concat(xs, o) =>
      var bs := ConcatAt(memory, xs);
      bs.Some? && 0 < |bs.value| <= 0x100_0000 && memory' == memory[o := IrValue.Bytes(bs.value)]
    case _ => false
  }

  /** Instructions between elements and bytes. */
  predicate Converts(c: Params, ins: Instruction, memory: Memory, memory': Memory) {
    match ins
    case ToBytes(x, o) => WritesBytes(c, memory, memory', x, o)
    case IntoBytes32(x, o) => WritesBytes(c, memory, memory', x, o)
    case FromBytes(t, bytes, o) =>
      var bs := BytesAt(memory, bytes);
      && bs.Some? && ReducedTo(c, t, Val(bs.value, 256)).Some?
      && memory' == memory[o := ReducedTo(c, t, Val(bs.value, 256)).value]
    case FromBytes32(t, bytes, o) =>
      var bs := BytesAt(memory, bytes);
      && bs.Some? && |bs.value| == c.limbBytes + 1 && ReducedTo(c, t, Val(bs.value, 256)).Some?
      && memory' == memory[o := ReducedTo(c, t, Val(bs.value, 256)).value]
    case JubjubScalarFromNative(x, o) =>
      var n := NativeAt(memory, x);
      n.Some? && memory' == memory[o := IrValue.JubjubScalar(n.value % c.r)]
    case _ => false
  }

  predicate WritesBytes(c: Params, memory: Memory, memory': Memory, x: Operand, o: Identifier) {
    var u := Resolve(memory, x);
    && u.Some? && OrderOf(c, u.value).Some?
    && memory' == memory[o := IrValue.Bytes(DigitsOf(Elem(u.value), 256, c.limbBytes + 1))]
  }

  /** Instructions whose results are bound to a list of identifiers. */
  predicate Spreads(c: Params, ins: Instruction, memory: Memory, memory': Memory) {
    match ins
    case Encode(x, os) =>
      var u := Resolve(memory, x);
      u.Some? && Binds(memory, memory', os, Natives(Encoding.Encode(c, u.value)))
    case BytesIntoNatives(bytes, os) =>
      var bs := BytesAt(memory, bytes);
      bs.Some? && Binds(memory, memory', os, Natives(Encoding.PackBytes(c, bs.value)))
    case _ => false
  }

  /** The instruction succeeds on `memory` and leaves `memory'`. */
  ghost predicate Means(mode: Mode, c: Params, ins: Instruction, memory: Memory, memory': Memory) {
    match ins
    case CondSelect(bit, a, b, o) => Selects(mode, memory, memory', bit, a, b, o)
    case Copy(x, o) => Copies(memory, memory', x, o)
    case DivModPowerOfTwo(x, bits, os) => Divides(mode, c, memory, memory', x, bits, os)
    case ReconstituteField(d, m, bits, o) => Rejoins(mode, c, memory, memory', d, m, bits, o)
    case TransientHash(xs, o) => HashesFields(c, memory, memory', xs, o)
    case AlignedHash(kind, alignment, xs, o) => Hashes(mode, c, memory, memory', kind, alignment, xs, o)
    case TestEq(a, b, o) => Tests(mode, memory, memory', a, b, o)
    case Add(a, b, o) => Combines(c, memory, memory', a, b, o, true)
    case Mul(a, b, o) => Combines(c, memory, memory', a, b, o, false)
    case Neg(a, o) => Negates(c, memory, memory', a, o)
    case Inv(a, o) => Inverts(c, memory, memory', a, o)
    case Not(a, o) => Complements(memory, memory', a, o)
    case And(_, _) => Gates(memory, memory', ins)
    case Or(_, _) => Gates(memory, memory', ins)
    case Xor(_, _) => Gates(memory, memory', ins)
    case LessThan(a, b, bits, o) => Compares(mode, c, memory, memory', a, b, bits, o)
    case BytesFromNatives(xs, len, o) => Unpacks(c, memory, memory', xs, len, o)
    case Bytes32IntoLowHigh(bytes, l, h) => SplitsHigh(c, memory, memory', bytes, l, h)
    case Bytes32FromLowHigh(low, high, o) => JoinsHigh(mode, c, memory, memory', low, high, o)
    case LoadConstant(t, encoding, o) => Loads(c, memory, memory', t, encoding, o)
    case Encode(_, _) => Spreads(c, ins, memory, memory')
    case BytesIntoNatives(_, _) => Spreads(c, ins, memory, memory')
    case Reverse(_, _) => Rearranges(c, ins, memory, memory')
    case Slice(_, _, _, _) => Rearranges(c, ins, memory, memory')
    case Nth(_, _, _) => Rearranges(c, ins, memory, memory')
    case Concat(_, _) => Rearranges(c, ins, memory, memory')
    case ToBytes(_, _) => Converts(c, ins, memory, memory')
    case IntoBytes32(_, _) => Converts(c, ins, memory, memory')
    case FromBytes(_, _, _) => Converts(c, ins, memory, memory')
    case FromBytes32(_, _, _) => Converts(c, ins, memory, memory')
    case JubjubScalarFromNative(_, _) => Converts(c, ins, memory, memory')
    case _ => Checks(mode, c, ins, memory) && memory' == memory
  }

  // ----- both runs do what instructions mean -----

  function ResultsIn(mode: Mode, c: Params, ins: Instruction, vs: seq<IrValue>): Option<seq<IrValue>>
    requires ins.Computes() && |vs| == |ins.Args()|
  {
    if mode.OffCircuit? then Apply(c, ins, vs) else CircuitRun.CircuitApply(c, ins, vs)
  }

  /** A step of either run, as it changes memory. */
  function StepIn(mode: Mode, c: Params, memory: Memory, ins: Instruction): Option<Memory>
    requires ins.Computes()
  {
    var vs :- ResolveAll(memory, ins.Args());
    var results :- ResultsIn(mode, c, ins, vs);
    if |results| != |ins.Outs()| then None else Some(Bind(memory, ins.Outs(), results))
  }

  ghost predicate Takes(c: Params, ins: Instruction, memory: Memory) {
    c.Valid() && ValidMemory(c, memory) && OpSoundness.TypedInstruction(c, ins) && ins.Computes()
  }

  ghost predicate Does(mode: Mode, c: Params, ins: Instruction, memory: Memory, memory': Memory)
    requires ins.Computes()
  {
    StepIn(mode, c, memory, ins) == Some(memory') <==> Means(mode, c, ins, memory, memory')
  }

  // ----- steps by the number of operands -----

  /** Binds the one result, if it is one. */
  function BindOne(memory: Memory, o: Identifier, rs: Option<seq<IrValue>>): Option<Memory> {
    if rs.Some? && |rs.value| == 1 then Some(memory[o := rs.value[0]]) else None
  }

  lemma OneArg(memory: Memory, a: Operand)
    ensures ResolveAll(memory, [a]) ==
            if Resolve(memory, a).Some? then Some([Resolve(memory, a).value]) else None
  {
    assert [a][1..] == [] && ResolveAll(memory, []) == Some([]);
    if Resolve(memory, a).Some? { assert [Resolve(memory, a).value] + [] == [Resolve(memory, a).value]; }
  }

  lemma TwoArgs(memory: Memory, a: Operand, b: Operand)
    ensures ResolveAll(memory, [a, b]) ==
            if Resolve(memory, a).Some? && Resolve(memory, b).Some?
            then Some([Resolve(memory, a).value, Resolve(memory, b).value]) else None
  {
    assert [a, b][1..] == [b];
    OneArg(memory, b);
    var u, v := Resolve(memory, a), Resolve(memory, b);
    if u.Some? && v.Some? { assert [u.value] + [v.value] == [u.value, v.value]; }
  }

  lemma ThreeArgs(memory: Memory, a: Operand, b: Operand, d: Operand)
    ensures ResolveAll(memory, [a, b, d]) ==
            if Resolve(memory, a).Some? && Resolve(memory, b).Some? && Resolve(memory, d).Some?
            then Some([Resolve(memory, a).value, Resolve(memory, b).value, Resolve(memory, d).value]) else None
  {
    assert [a, b, d][1..] == [b, d];
    TwoArgs(memory, b, d);
    var u, v, w := Resolve(memory, a), Resolve(memory, b), Resolve(memory, d);
    if u.Some? && v.Some? && w.Some? { assert [u.value] + [v.value, w.value] == [u.value, v.value, w.value]; }
  }

  lemma OneOut(memory: Memory, o: Identifier, rs: seq<IrValue>)
    requires |rs| == 1
    ensures Bind(memory, [o], rs) == memory[o := rs[0]]
  {
    assert Bind(memory[o := rs[0]], [], []) == memory[o := rs[0]];
    assert rs[1..] == [] && [o][1..] == [];
  }

  lemma TwoOuts(memory: Memory, l: Identifier, h: Identifier, u: IrValue, v: IrValue)
    ensures Bind(memory, [l, h], [u, v]) == memory[l := u][h := v]
  {
    assert [l, h][1..] == [h] && [u, v][1..] == [v];
    OneOut(memory[l := u], h, [v]);
  }

  lemma StepOn(mode: Mode, c: Params, memory: Memory, ins: Instruction, o: Identifier)
    requires ins.Computes() && ins.Outs() == [o]
    ensures StepIn(mode, c, memory, ins) ==
            match ResolveAll(memory, ins.Args())
            case None => None
            case Some(vs) => BindOne(memory, o, ResultsIn(mode, c, ins, vs))
  {
    var vs := ResolveAll(memory, ins.Args());
    if vs.Some? {
      var rs := ResultsIn(mode, c, ins, vs.value);
      if rs.Some? && |rs.value| == 1 { OneOut(memory, o, rs.value); }
    }
  }

  /** The list form of a result. */
  function Just(ok: bool, v: IrValue): Option<seq<IrValue>> {
    if ok then Some([v]) else None
  }

  // ----- group by group -----

  lemma SelectMeaning(mode: Mode, c: Params, ins: Instruction, memory: Memory, memory': Memory)
    requires Takes(c, ins, memory) && ins.CondSelect?
    ensures StepIn(mode, c, memory, ins) == Some(memory') <==>
            Selects(mode, memory, memory', ins.bit, ins.a, ins.b, ins.output)
  {
    ThreeArgs(memory, ins.bit, ins.a, ins.b);
    StepOn(mode, c, memory, ins, ins.output);
  }

  lemma TestMeaning(mode: Mode, c: Params, ins: Instruction, memory: Memory, memory': Memory)
    requires Takes(c, ins, memory) && ins.TestEq?
    ensures StepIn(mode, c, memory, ins) == Some(memory') <==>
            Tests(mode, memory, memory', ins.a, ins.b, ins.output)
  {
    TwoArgs(memory, ins.a, ins.b);
    StepOn(mode, c, memory, ins, ins.output);
  }

  lemma WidthIsRounded(bits: nat)
    ensures Width(InCircuit, bits) == Circuit.RoundedBits(bits)
  {}

  lemma ComparesOff(c: Params, ins: Instruction, x: nat, y: nat)
    requires c.Sizes() && x < c.p && y < c.p && ins.LessThan?
    ensures Apply(c, ins, [IrValue.Native(x), IrValue.Native(y)]) ==
            Just(Comparable(OffCircuit, c, x, y, ins.bits), IrValue.Native(if x < y then 1 else 0))
  {
    Bits.BoundedBitsVal(c, x, ins.bits);
    Bits.BoundedBitsVal(c, y, ins.bits);
  }

  lemma ComparesIn(c: Params, ins: Instruction, x: nat, y: nat)
    requires ins.LessThan?
    ensures CircuitRun.CircuitApply(c, ins, [IrValue.Native(x), IrValue.Native(y)]) ==
            Just(Comparable(InCircuit, c, x, y, ins.bits), IrValue.Native(if x < y then 1 else 0))
  {
    WidthIsRounded(ins.bits);
  }

  lemma CompareResults(mode: Mode, c: Params, ins: Instruction, u: IrValue, v: IrValue)
    requires c.Sizes() && ValidValue(c, u) && ValidValue(c, v) && ins.LessThan?
    ensures ResultsIn(mode, c, ins, [u, v]) ==
            if u.Native? && v.Native?
            then Just(Comparable(mode, c, u.x, v.x, ins.bits), IrValue.Native(if u.x < v.x then 1 else 0)) else None
  {
    if u.Native? && v.Native? {
      ComparesOff(c, ins, u.x, v.x);
      ComparesIn(c, ins, u.x, v.x);
    }
  }

  /** What operands stand for is valid: immediates are field elements, and memory holds valid values. */
  lemma OperandValid(c: Params, ins: Instruction, memory: Memory, i: nat)
    requires Takes(c, ins, memory) && i < |ins.Args()| && Resolve(memory, ins.Args()[i]).Some?
    ensures ValidValue(c, Resolve(memory, ins.Args()[i]).value)
  {}

  lemma CompareMeaning(mode: Mode, c: Params, ins: Instruction, memory: Memory, memory': Memory)
    requires Takes(c, ins, memory) && ins.LessThan?
    ensures StepIn(mode, c, memory, ins) == Some(memory') <==>
            Compares(mode, c, memory, memory', ins.a, ins.b, ins.bits, ins.output)
  {
    TwoArgs(memory, ins.a, ins.b);
    StepOn(mode, c, memory, ins, ins.output);
    var u, v := Resolve(memory, ins.a), Resolve(memory, ins.b);
    if u.Some? && v.Some? {
      OperandValid(c, ins, memory, 0);
      OperandValid(c, ins, memory, 1);
      CompareResults(mode, c, ins, u.value, v.value);
    }
  }

  // ----- powers of two, bit by bit -----

  /** `d` times two to the power of `bits`. */
  function Shifted(d: nat, bits: nat): nat
    decreases bits
  {
    if bits == 0 then d else Shifted(2 * d, bits - 1)
  }

  /** `x` without its lowest bits, and those bits. */
  function High(x: nat, bits: nat): nat
    decreases bits
  {
    if bits == 0 then x else High(x / 2, bits - 1)
  }

  function Low(x: nat, bits: nat): nat
    decreases bits
  {
    if bits == 0 then 0 else x % 2 + 2 * Low(x / 2, bits - 1)
  }

  lemma {:induction false} ShiftedIs(d: nat, bits: nat)
    ensures Shifted(d, bits) == d * Pow(2, bits)
    decreases bits
  {
    if bits == 0 {
    } else {
      ShiftedIs(2 * d, bits - 1);
      MulAssoc(d, 2, Pow(2, bits - 1));
    }
  }

  lemma Halved(x: nat, h: nat, l: nat, p: nat)
    requires x / 2 == h * p + l && l < p
    ensures x == h * (2 * p) + (x % 2 + 2 * l) && x % 2 + 2 * l < 2 * p
  {
    assert h * (2 * p) == 2 * (h * p);
  }

  lemma {:induction false} CutIs(x: nat, bits: nat)
    ensures x == High(x, bits) * Pow(2, bits) + Low(x, bits) && Low(x, bits) < Pow(2, bits)
  {
    if bits == 0 {
    } else {
      CutIs(x / 2, bits - 1);
      Halved(x, High(x / 2, bits - 1), Low(x / 2, bits - 1), Pow(2, bits - 1));
    }
  }

  lemma HighLow(x: nat, bits: nat)
    ensures High(x, bits) == x / Pow(2, bits) && Low(x, bits) == x % Pow(2, bits)
  {
    CutIs(x, bits);
    DivModUnique(x, Pow(2, bits), High(x, bits), Low(x, bits));
  }

  // ----- joining and splitting -----

  predicate JoinableBits(mode: Mode, c: Params, d: nat, m: nat, bits: nat) {
    && (if mode.OffCircuit? then 1 <= bits <= 8 * c.limbBytes else bits <= c.frBits)
    && m < Pow(2, bits) && Shifted(d, bits) + m < c.p
  }

  lemma RejoinsOff(c: Params, ins: Instruction, d: nat, m: nat)
    requires c.Sizes() && d < c.p && m < c.p && ins.ReconstituteField?
    ensures Apply(c, ins, [IrValue.Native(d), IrValue.Native(m)]) ==
            Just(JoinableBits(OffCircuit, c, d, m, ins.bits), IrValue.Native(Shifted(d, ins.bits) + m))
  {
    ShiftedIs(d, ins.bits);
    if ins.bits <= 8 * c.limbBytes { Reconstitution.OffCircuitAccepts(c, d, m, ins.bits); }
  }

  lemma RejoinsIn(c: Params, ins: Instruction, d: nat, m: nat)
    requires ins.ReconstituteField?
    ensures CircuitRun.CircuitApply(c, ins, [IrValue.Native(d), IrValue.Native(m)]) ==
            Just(JoinableBits(InCircuit, c, d, m, ins.bits), IrValue.Native(Shifted(d, ins.bits) + m))
  {
    ShiftedIs(d, ins.bits);
  }

  lemma RejoinResults(mode: Mode, c: Params, ins: Instruction, u: IrValue, v: IrValue)
    requires c.Sizes() && ValidValue(c, u) && ValidValue(c, v) && ins.ReconstituteField?
    ensures ResultsIn(mode, c, ins, [u, v]) ==
            if u.Native? && v.Native?
            then Just(JoinableBits(mode, c, u.x, v.x, ins.bits), IrValue.Native(Shifted(u.x, ins.bits) + v.x))
            else None
  {
    if u.Native? && v.Native? {
      RejoinsOff(c, ins, u.x, v.x);
      RejoinsIn(c, ins, u.x, v.x);
    }
  }

  lemma RejoinStep(mode: Mode, c: Params, ins: Instruction, memory: Memory)
    requires Takes(c, ins, memory) && ins.ReconstituteField?
    ensures StepIn(mode, c, memory, ins) ==
            var d, m := NativeAt(memory, ins.divisor), NativeAt(memory, ins.modulus);
            if d.Some? && m.Some? && JoinableBits(mode, c, d.value, m.value, ins.bits)
            then Some(memory[ins.output := IrValue.Native(Shifted(d.value, ins.bits) + m.value)]) else None
  {
    TwoArgs(memory, ins.divisor, ins.modulus);
    StepOn(mode, c, memory, ins, ins.output);
    var u, v := Resolve(memory, ins.divisor), Resolve(memory, ins.modulus);
    if u.Some? && v.Some? {
      OperandValid(c, ins, memory, 0);
      OperandValid(c, ins, memory, 1);
      RejoinResults(mode, c, ins, u.value, v.value);
    }
  }

  lemma JoinablePlain(mode: Mode, c: Params, d: nat, m: nat, bits: nat)
    ensures JoinableBits(mode, c, d, m, bits) <==> Joinable(mode, c, d, m, bits)
    ensures Shifted(d, bits) + m == Joined(d, m, bits)
  {
    ShiftedIs(d, bits);
  }

  lemma RejoinMeaning(mode: Mode, c: Params, ins: Instruction, memory: Memory, memory': Memory)
    requires Takes(c, ins, memory) && ins.ReconstituteField?
    ensures StepIn(mode, c, memory, ins) == Some(memory') <==>
            Rejoins(mode, c, memory, memory', ins.divisor, ins.modulus, ins.bits, ins.output)
  {
    RejoinStep(mode, c, ins, memory);
    var d, m := NativeAt(memory, ins.divisor), NativeAt(memory, ins.modulus);
    if d.Some? && m.Some? { JoinablePlain(mode, c, d.value, m.value, ins.bits); }
  }

  lemma CheckResults(mode: Mode, c: Params, ins: Instruction, u: IrValue)
    requires c.Sizes() && ValidValue(c, u) && (ins.Assert? || ins.ConstrainBits? || ins.ConstrainToBoolean?)
    ensures ResultsIn(mode, c, ins, [u]) ==
            if !u.Native? then None
            else if ins.Assert? then
              if if mode.OffCircuit? then u.x == 1 else u.x != 0 then Some([]) else None
            else if ins.ConstrainBits? then
              if u.x < Pow(2, ins.bits) && (mode.OffCircuit? ==> ins.bits < c.frBits) then Some([]) else None
            else if u.x < 2 then Some([]) else None
  {
    if ins.ConstrainBits? && u.Native? { Bits.BoundedBitsVal(c, u.x, ins.bits); }
  }

  lemma CheckMeaning(mode: Mode, c: Params, ins: Instruction, memory: Memory, memory': Memory)
    requires Takes(c, ins, memory) && (ins.Assert? || ins.ConstrainBits? || ins.ConstrainToBoolean?)
    ensures StepIn(mode, c, memory, ins) == Some(memory') <==>
            Checks(mode, c, ins, memory) && memory' == memory
  {
    var o := if ins.Assert? then ins.cond else ins.val;
    OneArg(memory, o);
    if Resolve(memory, o).Some? {
      OperandValid(c, ins, memory, 0);
      CheckResults(mode, c, ins, Resolve(memory, o).value);
    }
  }

  lemma EqualMeaning(mode: Mode, c: Params, ins: Instruction, memory: Memory, memory': Memory)
    requires Takes(c, ins, memory) && ins.ConstrainEq?
    ensures StepIn(mode, c, memory, ins) == Some(memory') <==>
            Checks(mode, c, ins, memory) && memory' == memory
  {
    TwoArgs(memory, ins.a, ins.b);
  }

  lemma DivideResults(mode: Mode, c: Params, ins: Instruction, u: IrValue)
    requires c.Sizes() && ValidValue(c, u) && ins.DivModPowerOfTwo?
    ensures ResultsIn(mode, c, ins, [u]) ==
            if u.Native? && ins.bits <= (if mode.OffCircuit? then 8 * c.limbBytes else c.frBits)
            then Some(Natives([High(u.x, ins.bits), Low(u.x, ins.bits)])) else None
  {
    if u.Native? {
      HighLow(u.x, ins.bits);
      if ins.bits <= 8 * c.limbBytes { OpAgreement.SplitAgrees(c, u.x, ins.bits); }
    }
  }

  lemma TwoResults(mode: Mode, c: Params, memory: Memory, ins: Instruction, vs: seq<IrValue>, os: seq<Identifier>,
      x: nat, y: nat)
    requires ins.Computes() && ins.Outs() == os && ResolveAll(memory, ins.Args()) == Some(vs)
    requires ResultsIn(mode, c, ins, vs) == Some(Natives([x, y]))
    ensures StepIn(mode, c, memory, ins) ==
            if |os| == 2 then Some(memory[os[0] := IrValue.Native(x)][os[1] := IrValue.Native(y)]) else None
  {
    var rs := Natives([x, y]);
    assert rs == [IrValue.Native(x), IrValue.Native(y)];
    if |os| == 2 {
      assert os == [os[0], os[1]];
      TwoOuts(memory, os[0], os[1], IrValue.Native(x), IrValue.Native(y));
    }
  }

  lemma DivideStep(mode: Mode, c: Params, ins: Instruction, memory: Memory)
    requires Takes(c, ins, memory) && ins.DivModPowerOfTwo?
    ensures StepIn(mode, c, memory, ins) ==
            var x, os := NativeAt(memory, ins.val), ins.outputs;
            if x.Some? && ins.bits <= (if mode.OffCircuit? then 8 * c.limbBytes else c.frBits) && |os| == 2
            then Some(memory[os[0] := IrValue.Native(High(x.value, ins.bits))]
                            [os[1] := IrValue.Native(Low(x.value, ins.bits))])
            else None
  {
    OneArg(memory, ins.val);
    var u := Resolve(memory, ins.val);
    if u.Some? {
      OperandValid(c, ins, memory, 0);
      DivideResults(mode, c, ins, u.value);
      if ResultsIn(mode, c, ins, [u.value]).Some? {
        TwoResults(mode, c, memory, ins, [u.value], ins.outputs, High(u.value.x, ins.bits), Low(u.value.x, ins.bits));
      }
    }
  }

  lemma DivideMeaning(mode: Mode, c: Params, ins: Instruction, memory: Memory, memory': Memory)
    requires Takes(c, ins, memory) && ins.DivModPowerOfTwo?
    ensures StepIn(mode, c, memory, ins) == Some(memory') <==>
            Divides(mode, c, memory, memory', ins.val, ins.bits, ins.outputs)
  {
    DivideStep(mode, c, ins, memory);
    var x := NativeAt(memory, ins.val);
    if x.Some? { HighLow(x.value, ins.bits); }
  }

  lemma CopyMeaning(mode: Mode, c: Params, ins: Instruction, memory: Memory, memory': Memory)
    requires Takes(c, ins, memory) && ins.Copy?
    ensures StepIn(mode, c, memory, ins) == Some(memory') <==>
            Copies(memory, memory', ins.val, ins.output)
  {
    OneArg(memory, ins.val);
    StepOn(mode, c, memory, ins, ins.output);
  }

  lemma NotMeaning(mode: Mode, c: Params, ins: Instruction, memory: Memory, memory': Memory)
    requires Takes(c, ins, memory) && ins.Not?
    ensures StepIn(mode, c, memory, ins) == Some(memory') <==>
            Complements(memory, memory', ins.a, ins.output)
  {
    OneArg(memory, ins.a);
    StepOn(mode, c, memory, ins, ins.output);
  }

  lemma CombineMeaning(mode: Mode, c: Params, ins: Instruction, memory: Memory, memory': Memory)
    requires Takes(c, ins, memory) && (ins.Add? || ins.Mul?)
    ensures StepIn(mode, c, memory, ins) == Some(memory') <==>
            Combines(c, memory, memory', ins.a, ins.b, ins.output, ins.Add?)
  {
    TwoArgs(memory, ins.a, ins.b);
    StepOn(mode, c, memory, ins, ins.output);
  }

  lemma NegIs(q: Pos, x: nat)
    requires x < q
    ensures NegMod(q, x) == if x == 0 then 0 else q - x
  {
    ModSmall(x, q);
    if x == 0 { DivModUnique(q, q, 1, 0); } else { ModSmall(q - x, q); }
  }

  lemma NegMeaning(mode: Mode, c: Params, ins: Instruction, memory: Memory, memory': Memory)
    requires Takes(c, ins, memory) && ins.Neg?
    ensures StepIn(mode, c, memory, ins) == Some(memory') <==>
            Negates(c, memory, memory', ins.a, ins.output)
  {
    OneArg(memory, ins.a);
    StepOn(mode, c, memory, ins, ins.output);
    var u := Resolve(memory, ins.a);
    if u.Some? {
      OperandValid(c, ins, memory, 0);
      if OrderOf(c, u.value).Some? { NegIs(OrderOf(c, u.value).value, Elem(u.value)); }
    }
  }

  /** The search for an inverse finds the one there is. */
  lemma InvertExactly(q: Pos, x: nat, y: nat)
    requires q > 1 && x < q
    ensures x != 0 && Invert(q, x, 0) == Some(y) <==> IsInverse(q, x, y)
  {
    ModSmall(1, q);
    ModSmall(0, q);
    OpSoundness.InvertIsInverse(q, x, 0);
    if y < q && (x * y) % q == 1 {
      OpSoundness.InvertFinds(q, x, y, 0);
      OpSoundness.InverseUnique(q, x, y, Invert(q, x, 0).value);
    }
  }

  lemma OrderAbove(c: Params, u: IrValue)
    requires c.Sizes() && ValidValue(c, u) && OrderOf(c, u).Some?
    ensures 1 < OrderOf(c, u).value && Elem(u) < OrderOf(c, u).value
    ensures Modulus(c, TypeOf(u)) == OrderOf(c, u)
  {
    FieldHoldsLimb(c);
  }

  lemma InverseResults(c: Params, u: IrValue) returns (y: nat)
    requires c.Sizes() && ValidValue(c, u) && OrderOf(c, u).Some?
    ensures Inverse(c, u).Some? ==> IsInverse(OrderOf(c, u).value, Elem(u), y) && Inverse(c, u) == Some([Like(u, y)])
    ensures Inverse(c, u).None? ==> forall z: nat :: !IsInverse(OrderOf(c, u).value, Elem(u), z)
  {
    OrderAbove(c, u);
    var q, x := OrderOf(c, u).value, Elem(u);
    var r := Invert(q, x, 0);
    y := if r.Some? then r.value else 0;
    InvertExactly(q, x, y);
    forall z: nat
      ensures x != 0 && Invert(q, x, 0) == Some(z) <==> IsInverse(q, x, z)
    {
      InvertExactly(q, x, z);
    }
  }

  lemma InverseOfIs(q: Pos, x: nat, y: nat, z: nat)
    requires 1 < q && IsInverse(q, x, y) && IsInverse(q, x, z)
    ensures y == z
  {
    ModSmall(1, q);
    OpSoundness.InverseUnique(q, x, y, z);
  }

  lemma InvMeaning(mode: Mode, c: Params, ins: Instruction, memory: Memory, memory': Memory)
    requires Takes(c, ins, memory) && ins.Inv?
    ensures StepIn(mode, c, memory, ins) == Some(memory') <==>
            Inverts(c, memory, memory', ins.a, ins.output)
  {
    OneArg(memory, ins.a);
    StepOn(mode, c, memory, ins, ins.output);
    var u := Resolve(memory, ins.a);
    if u.Some? {
      OperandValid(c, ins, memory, 0);
      if OrderOf(c, u.value).Some? {
        var y := InverseResults(c, u.value);
        OrderAbove(c, u.value);
        forall z: nat | IsInverse(OrderOf(c, u.value).value, Elem(u.value), z) && Inverse(c, u.value).Some?
          ensures z == y
        {
          InverseOfIs(OrderOf(c, u.value).value, Elem(u.value), y, z);
        }
      }
    }
  }

  // ----- lists of operands -----

  lemma {:induction false} NativesAre(memory: Memory, os: seq<Operand>)
    ensures NativesAt(memory, os) ==
            match ResolveAll(memory, os)
            case None => None
            case Some(vs) => AllNative(vs)
  {
    if os == [] {
    } else {
      NativesAre(memory, os[1..]);
      var u, rest := Resolve(memory, os[0]), ResolveAll(memory, os[1..]);
      if u.Some? && rest.Some? { assert ([u.value] + rest.value)[1..] == rest.value; }
    }
  }

  lemma {:induction false} BoolsAre(memory: Memory, os: seq<Operand>)
    ensures BoolsAt(memory, os) ==
            match ResolveAll(memory, os)
            case None => None
            case Some(vs) => Bools(vs)
  {
    if os == [] {
    } else {
      BoolsAre(memory, os[1..]);
      var u, rest := Resolve(memory, os[0]), ResolveAll(memory, os[1..]);
      if u.Some? && rest.Some? { assert ([u.value] + rest.value)[1..] == rest.value; }
    }
  }

  lemma {:induction false} ConcatIs(memory: Memory, os: seq<Operand>)
    ensures ConcatAt(memory, os) ==
            match ResolveAll(memory, os)
            case None => None
            case Some(vs) => ConcatOf(vs)
  {
    if os == [] {
    } else {
      ConcatIs(memory, os[1..]);
      var u, rest := Resolve(memory, os[0]), ResolveAll(memory, os[1..]);
      if u.Some? && rest.Some? { assert ([u.value] + rest.value)[1..] == rest.value; }
    }
  }

  lemma {:induction false} TruesCount(bs: seq<bool>)
    ensures Trues(bs) <= |bs|
    ensures AllTrue(bs) <==> Trues(bs) == |bs|
    ensures AnyTrue(bs) <==> Trues(bs) > 0
    ensures Parity(bs) <==> Trues(bs) % 2 == 1
  {
    if bs == [] {
    } else {
      var rest := bs[1..];
      TruesCount(rest);
      assert forall i :: 0 < i < |bs| ==> bs[i] == rest[i - 1];
      assert forall i :: 0 <= i < |rest| ==> rest[i] == bs[i + 1];
    }
  }

  lemma {:induction false} BoolsLength(vs: seq<IrValue>)
    ensures Bools(vs).Some? ==> |Bools(vs).value| == |vs|
  {
    if vs == [] {
    } else {
      BoolsLength(vs[1..]);
    }
  }

  lemma GateResults(mode: Mode, c: Params, ins: Instruction, vs: seq<IrValue>)
    requires (ins.And? || ins.Or? || ins.Xor?) && |vs| == |ins.Args()|
    ensures ResultsIn(mode, c, ins, vs) ==
            if Bools(vs).None? || vs == [] then None else Some([IrValue.Bool(GateHolds(ins, Bools(vs).value))])
  {
    if Bools(vs).Some? { TruesCount(Bools(vs).value); }
  }

  lemma GateMeaning(mode: Mode, c: Params, ins: Instruction, memory: Memory, memory': Memory)
    requires ins.And? || ins.Or? || ins.Xor?
    ensures StepIn(mode, c, memory, ins) == Some(memory') <==> Gates(memory, memory', ins)
  {
    StepOn(mode, c, memory, ins, ins.output);
    BoolsAre(memory, ins.inputs);
    var vs := ResolveAll(memory, ins.inputs);
    if vs.Some? {
      BoolsLength(vs.value);
      GateResults(mode, c, ins, vs.value);
    }
  }

  lemma TransientMeaning(mode: Mode, c: Params, ins: Instruction, memory: Memory, memory': Memory)
    requires Takes(c, ins, memory) && ins.TransientHash?
    ensures StepIn(mode, c, memory, ins) == Some(memory') <==>
            HashesFields(c, memory, memory', ins.inputs, ins.output)
  {
    StepOn(mode, c, memory, ins, ins.output);
    NativesAre(memory, ins.inputs);
  }

  lemma AlignedMeaning(mode: Mode, c: Params, ins: Instruction, memory: Memory, memory': Memory)
    requires Takes(c, ins, memory) && ins.AlignedHash?
    ensures StepIn(mode, c, memory, ins) == Some(memory') <==>
            Hashes(mode, c, memory, memory', ins.kind, ins.alignment, ins.inputs, ins.output)
  {
    StepOn(mode, c, memory, ins, ins.output);
    NativesAre(memory, ins.inputs);
  }

  // ----- bytes -----

  lemma BytesAre(memory: Memory, o: Operand)
    ensures BytesAt(memory, o) ==
            match Resolve(memory, o)
            case None => None
            case Some(v) => AsBytes(v)
  {}

  lemma {:induction false} BackwardsIs(bs: seq<nat>)
    ensures Backwards(bs) == ReverseOf(bs)
  {
    if bs == [] {
    } else {
      var k := |bs| - 1;
      BackwardsIs(bs[..k]);
      assert ReverseOf(bs) == [bs[k]] + ReverseOf(bs[..k]);
    }
  }

  lemma ReverseMeaning(mode: Mode, c: Params, ins: Instruction, memory: Memory, memory': Memory)
    requires Takes(c, ins, memory) && ins.Reverse?
    ensures StepIn(mode, c, memory, ins) == Some(memory') <==> Rearranges(c, ins, memory, memory')
  {
    OneArg(memory, ins.bytes);
    BytesAre(memory, ins.bytes);
    StepOn(mode, c, memory, ins, ins.output);
    var bs := BytesAt(memory, ins.bytes);
    if bs.Some? { BackwardsIs(bs.value); }
  }

  lemma CutMeaning(mode: Mode, c: Params, ins: Instruction, memory: Memory, memory': Memory)
    requires Takes(c, ins, memory) && (ins.Slice? || ins.Nth?)
    ensures StepIn(mode, c, memory, ins) == Some(memory') <==> Rearranges(c, ins, memory, memory')
  {
    OneArg(memory, ins.bytes);
    BytesAre(memory, ins.bytes);
    StepOn(mode, c, memory, ins, ins.output);
  }

  lemma ConcatMeaning(mode: Mode, c: Params, ins: Instruction, memory: Memory, memory': Memory)
    requires Takes(c, ins, memory) && ins.Concat?
    ensures StepIn(mode, c, memory, ins) == Some(memory') <==> Rearranges(c, ins, memory, memory')
  {
    StepOn(mode, c, memory, ins, ins.output);
    ConcatIs(memory, ins.inputs);
  }

  lemma WriteMeaning(mode: Mode, c: Params, ins: Instruction, memory: Memory, memory': Memory)
    requires Takes(c, ins, memory) && (ins.ToBytes? || ins.IntoBytes32?)
    ensures StepIn(mode, c, memory, ins) == Some(memory') <==> WritesBytes(c, memory, memory', ins.input, ins.output)
  {
    OneArg(memory, ins.input);
    StepOn(mode, c, memory, ins, ins.output);
  }

  lemma ReadMeaning(mode: Mode, c: Params, ins: Instruction, memory: Memory, memory': Memory)
    requires Takes(c, ins, memory) && (ins.FromBytes? || ins.FromBytes32?)
    ensures StepIn(mode, c, memory, ins) == Some(memory') <==> Converts(c, ins, memory, memory')
  {
    OneArg(memory, ins.bytes);
    BytesAre(memory, ins.bytes);
    StepOn(mode, c, memory, ins, ins.output);
  }

  lemma ScalarMeaning(mode: Mode, c: Params, ins: Instruction, memory: Memory, memory': Memory)
    requires Takes(c, ins, memory) && ins.JubjubScalarFromNative?
    ensures StepIn(mode, c, memory, ins) == Some(memory') <==> Converts(c, ins, memory, memory')
  {
    OneArg(memory, ins.native);
    StepOn(mode, c, memory, ins, ins.output);
    var n := NativeAt(memory, ins.native);
    if n.Some? {
      OperandValid(c, ins, memory, 0);
      FieldHoldsLimb(c);
      ValDigits(n.value, 256, c.ReprBytes());
    }
  }

  lemma SpreadMeaning(mode: Mode, c: Params, ins: Instruction, memory: Memory, memory': Memory)
    requires Takes(c, ins, memory) && (ins.Encode? || ins.BytesIntoNatives?)
    ensures StepIn(mode, c, memory, ins) == Some(memory') <==> Spreads(c, ins, memory, memory')
  {
    OneArg(memory, if ins.Encode? then ins.input else ins.bytes);
    if ins.BytesIntoNatives? { BytesAre(memory, ins.bytes); }
  }

  lemma UnpackResults(c: Params, ins: Instruction, vs: seq<IrValue>, bs: seq<nat>)
    requires c.Sizes() && ValidValues(c, vs) && ins.BytesFromNatives? && |vs| == |ins.Args()|
    requires AllNative(vs).Some?
    ensures Apply(c, ins, vs) == Some([IrValue.Bytes(bs)]) <==> UnpacksTo(c, AllNative(vs).value, ins.len, bs)
  {
    OpAgreement.AllNativeElements(c, vs);
    Encoding.DecodeIsExactInverse(c, IrType.Bytes(ins.len), AllNative(vs).value, IrValue.Bytes(bs));
    if IsDigits(bs, 256) { Encoding.PackShape(c, bs); }
  }

  lemma UnpackShape(c: Params, ins: Instruction, vs: seq<IrValue>)
    requires c.Sizes() && ValidValues(c, vs) && ins.BytesFromNatives? && |vs| == |ins.Args()|
    ensures var r := Apply(c, ins, vs); r.Some? ==> AllNative(vs).Some? && |r.value| == 1 && r.value[0].Bytes?
  {
    if AllNative(vs).Some? {
      OpAgreement.AllNativeElements(c, vs);
      var r := Apply(c, ins, vs);
      if r.Some? {
        Encoding.DecodeIsExactInverse(c, IrType.Bytes(ins.len), AllNative(vs).value, r.value[0]);
      }
    }
  }

  lemma UnpackStep(mode: Mode, c: Params, ins: Instruction, memory: Memory) returns (bs: Option<seq<nat>>)
    requires Takes(c, ins, memory) && ins.BytesFromNatives?
    ensures StepIn(mode, c, memory, ins) ==
            if bs.Some? then Some(memory[ins.output := IrValue.Bytes(bs.value)]) else None
    ensures bs.Some? ==> NativesAt(memory, ins.inputs).Some?
    ensures NativesAt(memory, ins.inputs).Some? ==>
              forall x :: bs == Some(x) <==> UnpacksTo(c, NativesAt(memory, ins.inputs).value, ins.len, x)
  {
    StepOn(mode, c, memory, ins, ins.output);
    NativesAre(memory, ins.inputs);
    ResolveAllTyped(c, memory, ins.inputs);
    var vs := ResolveAll(memory, ins.inputs);
    bs := None;
    if vs.Some? {
      var r := Apply(c, ins, vs.value);
      UnpackShape(c, ins, vs.value);
      if r.Some? { bs := Some(r.value[0].bytes); }
      if AllNative(vs.value).Some? {
        forall x: seq<nat>
          ensures bs == Some(x) <==> UnpacksTo(c, AllNative(vs.value).value, ins.len, x)
        {
          UnpackResults(c, ins, vs.value, x);
        }
      }
    }
  }

  lemma UnpackMeaning(mode: Mode, c: Params, ins: Instruction, memory: Memory, memory': Memory)
    requires Takes(c, ins, memory) && ins.BytesFromNatives?
    ensures StepIn(mode, c, memory, ins) == Some(memory') <==>
            Unpacks(c, memory, memory', ins.inputs, ins.len, ins.output)
  {
    var bs := UnpackStep(mode, c, ins, memory);
    if bs.Some? { assert UnpacksTo(c, NativesAt(memory, ins.inputs).value, ins.len, bs.value); }
  }

  lemma LoadMeaning(mode: Mode, c: Params, ins: Instruction, memory: Memory, memory': Memory)
    requires Takes(c, ins, memory) && ins.LoadConstant?
    ensures StepIn(mode, c, memory, ins) == Some(memory') <==>
            Loads(c, memory, memory', ins.valT, ins.encoding, ins.output)
  {
    StepOn(mode, c, memory, ins, ins.output);
    assert ResolveAll(memory, []) == Some([]);
    forall v
      ensures Encoding.Decode(c, ins.valT, ins.encoding) == Some(v) <==>
              ValidValue(c, v) && TypeOf(v) == ins.valT && Encoding.Encode(c, v) == ins.encoding
    {
      Encoding.DecodeIsExactInverse(c, ins.valT, ins.encoding, v);
    }
  }

  lemma {:induction false} DigitsPrefix(n: nat, i: nat, k: nat)
    requires i <= k
    ensures DigitsOf(n, 256, k)[..i] == DigitsOf(n, 256, i)
  {
    if i == 0 {
    } else {
      DigitsPrefix(n / 256, i - 1, k - 1);
      var ds := DigitsOf(n, 256, k);
      assert ds == [n % 256] + ds[1..] && ds[..i] == [ds[0]] + ds[1..][..i - 1];
    }
  }

  lemma JoinedBytes(c: Params, low: nat, high: nat)
    requires c.Sizes() && low < Pow(256, c.limbBytes) && high < 256
    ensures Encoding.FieldBytes(c, low)[c.limbBytes := Encoding.FieldBytes(c, high)[0]] ==
            DigitsOf(low, 256, c.limbBytes) + [high]
  {
    var bytes, k := Encoding.FieldBytes(c, low), c.limbBytes as int;
    FieldHoldsLimb(c);
    OpSoundness.ByteFits(c, high);
    DigitsPrefix(low, k, c.ReprBytes());
    assert bytes[k := high] == bytes[..k] + [high];
  }

  lemma JoinResults(mode: Mode, c: Params, ins: Instruction, u: IrValue, v: IrValue)
    requires c.Sizes() && ValidValue(c, u) && ValidValue(c, v) && ins.Bytes32FromLowHigh?
    ensures ResultsIn(mode, c, ins, [u, v]) ==
            Just(JoinsValues(mode, c, u, v), IrValue.Bytes(DigitsOf(Elem(u), 256, c.limbBytes) + [Elem(v)]))
  {
    Refusals.HighPartDiverges(c, ins, u, v);
    if JoinsValues(mode, c, u, v) { JoinedBytes(c, Elem(u), Elem(v)); }
  }

  lemma JoinMeaning(mode: Mode, c: Params, ins: Instruction, memory: Memory, memory': Memory)
    requires Takes(c, ins, memory) && ins.Bytes32FromLowHigh?
    ensures StepIn(mode, c, memory, ins) == Some(memory') <==>
            JoinsHigh(mode, c, memory, memory', ins.low, ins.high, ins.output)
  {
    TwoArgs(memory, ins.low, ins.high);
    StepOn(mode, c, memory, ins, ins.output);
    var u, v := Resolve(memory, ins.low), Resolve(memory, ins.high);
    if u.Some? && v.Some? {
      OperandValid(c, ins, memory, 0);
      OperandValid(c, ins, memory, 1);
      JoinResults(mode, c, ins, u.value, v.value);
    }
  }

  lemma LowPart(c: Params, bytes: seq<nat>)
    requires c.Sizes() && |bytes| == c.ReprBytes() && IsDigits(bytes, 256)
    ensures FromLeBytes(c.p, bytes[c.limbBytes := 0]) == Val(bytes[..c.limbBytes], 256)
  {
    ByteConversions.LowHighIsPacking(c, bytes);
    Encoding.PackFirst(c, bytes);
  }

  lemma SplitHighMeaning(mode: Mode, c: Params, ins: Instruction, memory: Memory, memory': Memory)
    requires Takes(c, ins, memory) && ins.Bytes32IntoLowHigh?
    ensures StepIn(mode, c, memory, ins) == Some(memory') <==>
            SplitsHigh(c, memory, memory', ins.bytes, ins.lowOut, ins.highOut)
  {
    OneArg(memory, ins.bytes);
    BytesAre(memory, ins.bytes);
    var u := Resolve(memory, ins.bytes);
    if u.Some? && u.value.Bytes? && |u.value.bytes| == c.ReprBytes() {
      var bs := u.value.bytes;
      OperandValid(c, ins, memory, 0);
      LowPart(c, bs);
      TwoResults(mode, c, memory, ins, [u.value], [ins.lowOut, ins.highOut],
                 Val(bs[..c.limbBytes], 256), bs[c.limbBytes]);
    }
  }

  // ----- all of them -----

  predicate OnNumbers(ins: Instruction) {
    || ins.LessThan? || ins.DivModPowerOfTwo? || ins.ReconstituteField? || ins.Add? || ins.Mul? || ins.Neg? || ins.Inv?
    || ins.Not? || ins.And? || ins.Or? || ins.Xor?
  }

  predicate OnBytes(ins: Instruction) {
    || ins.Reverse? || ins.Slice? || ins.Nth? || ins.Concat? || ins.ToBytes? || ins.IntoBytes32? || ins.FromBytes?
    || ins.FromBytes32? || ins.BytesIntoNatives? || ins.BytesFromNatives? || ins.Bytes32IntoLowHigh?
    || ins.Bytes32FromLowHigh?
  }

  lemma NumbersMeaning(mode: Mode, c: Params, ins: Instruction, memory: Memory, memory': Memory)
    requires Takes(c, ins, memory) && OnNumbers(ins)
    ensures Does(mode, c, ins, memory, memory')
  {
    if ins.LessThan? { CompareMeaning(mode, c, ins, memory, memory'); }
    else if ins.DivModPowerOfTwo? { DivideMeaning(mode, c, ins, memory, memory'); }
    else if ins.ReconstituteField? { RejoinMeaning(mode, c, ins, memory, memory'); }
    else if ins.Add? || ins.Mul? { CombineMeaning(mode, c, ins, memory, memory'); }
    else if ins.Neg? { NegMeaning(mode, c, ins, memory, memory'); }
    else if ins.Inv? { InvMeaning(mode, c, ins, memory, memory'); }
    else if ins.Not? { NotMeaning(mode, c, ins, memory, memory'); }
    else { GateMeaning(mode, c, ins, memory, memory'); }
  }

  lemma BytesMeaning(mode: Mode, c: Params, ins: Instruction, memory: Memory, memory': Memory)
    requires Takes(c, ins, memory) && OnBytes(ins)
    ensures Does(mode, c, ins, memory, memory')
  {
    if ins.Reverse? { ReverseMeaning(mode, c, ins, memory, memory'); }
    else if ins.Slice? || ins.Nth? { CutMeaning(mode, c, ins, memory, memory'); }
    else if ins.Concat? { ConcatMeaning(mode, c, ins, memory, memory'); }
    else if ins.ToBytes? || ins.IntoBytes32? { WriteMeaning(mode, c, ins, memory, memory'); }
    else if ins.FromBytes? || ins.FromBytes32? { ReadMeaning(mode, c, ins, memory, memory'); }
    else if ins.BytesIntoNatives? { SpreadMeaning(mode, c, ins, memory, memory'); }
    else if ins.BytesFromNatives? { UnpackMeaning(mode, c, ins, memory, memory'); }
    else if ins.Bytes32IntoLowHigh? { SplitHighMeaning(mode, c, ins, memory, memory'); }
    else { JoinMeaning(mode, c, ins, memory, memory'); }
  }

  lemma OthersMeaning(mode: Mode, c: Params, ins: Instruction, memory: Memory, memory': Memory)
    requires Takes(c, ins, memory) && !OnNumbers(ins) && !OnBytes(ins)
    ensures Does(mode, c, ins, memory, memory')
  {
    if ins.CondSelect? { SelectMeaning(mode, c, ins, memory, memory'); }
    else if ins.TestEq? { TestMeaning(mode, c, ins, memory, memory'); }
    else if ins.Copy? { CopyMeaning(mode, c, ins, memory, memory'); }
    else if ins.TransientHash? { TransientMeaning(mode, c, ins, memory, memory'); }
    else if ins.AlignedHash? { AlignedMeaning(mode, c, ins, memory, memory'); }
    else if ins.JubjubScalarFromNative? { ScalarMeaning(mode, c, ins, memory, memory'); }
    else if ins.Encode? { SpreadMeaning(mode, c, ins, memory, memory'); }
    else if ins.LoadConstant? { LoadMeaning(mode, c, ins, memory, memory'); }
    else if ins.ConstrainEq? { EqualMeaning(mode, c, ins, memory, memory'); }
    else { CheckMeaning(mode, c, ins, memory, memory'); }
  }

  lemma StepMeans(mode: Mode, c: Params, ins: Instruction, memory: Memory, memory': Memory)
    requires Takes(c, ins, memory)
    ensures Does(mode, c, ins, memory, memory')
  {
    if OnNumbers(ins) { NumbersMeaning(mode, c, ins, memory, memory'); }
    else if OnBytes(ins) { BytesMeaning(mode, c, ins, memory, memory'); }
    else { OthersMeaning(mode, c, ins, memory, memory'); }
  }

  // ----- numbers -----

  /** Digests are 32 bytes long, those of SHA-512 64; the type of the result says so too. */
  lemma DigestsAre(c: Params, ins: Instruction, vs: seq<IrValue>)
    requires c.Valid() && ins.AlignedHash? && |vs| == |ins.Args()| && Apply(c, ins, vs).Some?
    ensures var n := if ins.kind == Sha512 then 64 else 32;
            && |Apply(c, ins, vs).value| == 1
            && TypeOf(Apply(c, ins, vs).value[0]) == IrType.Bytes(n)
            && forall ts | |ts| == |vs| && Typing.OpType(c, ins, ts).Some? ::
                 Typing.OpType(c, ins, ts) == Some([IrType.Bytes(n)])
  {}

  /** At every length, `BytesFromNatives` returns the bytes that `BytesIntoNatives` packed. */
  lemma UnpackOfPack(c: Params, pack: Instruction, unpack: Instruction, bs: seq<nat>)
    requires c.Sizes() && IsDigits(bs, 256) && 1 <= |bs| <= 0x100_0000
    requires pack.BytesIntoNatives? && unpack.BytesFromNatives? && unpack.len == |bs|
    requires |unpack.inputs| == |Encoding.PackBytes(c, bs)|
    ensures var vs := Apply(c, pack, [IrValue.Bytes(bs)]);
            vs.Some? && |vs.value| == |unpack.inputs| && Apply(c, unpack, vs.value) == Some([IrValue.Bytes(bs)])
  {
    var xs := Encoding.PackBytes(c, bs);
    Encoding.PackShape(c, bs);
    OpAgreement.NativeList(c, xs);
    NativesBack(xs);
    UnpackResults(c, unpack, Natives(xs), bs);
  }

  lemma {:induction false} NativesBack(xs: seq<nat>)
    ensures AllNative(Natives(xs)) == Some(xs)
  {
    if xs == [] {
    } else {
      assert Natives(xs)[0] == IrValue.Native(xs[0]) && Natives(xs)[1..] == Natives(xs[1..]);
      NativesBack(xs[1..]);
      assert xs == [xs[0]] + xs[1..];
    }
  }
}
