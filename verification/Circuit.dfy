/**
  Synthesis: the same instruction list turned into constraints over cells. Whether it
  succeeds, and what it emits, depends on the source alone.
 */
module Circuit {
  import opened Options
  import opened Digits
  import opened Types
  import Encoding
  import opened Instructions
  import opened ChipSelection
  import opened Gadgets
  import Operations
  import Preprocess

  datatype CircuitValue =
    | Native(w: Wire)
    | Bool(w: Wire)
    | Byte(w: Wire)
    | Bytes(ws: seq<Wire>)
    | JubjubScalar(w: Wire)
    | Foreign(field: ForeignField, w: Wire)

  type CircuitMemory = map<Identifier, CircuitValue>

  function CircuitTypeOf(v: CircuitValue): IrType {
    match v
    case Native(_) => IrType.Native
    case Bool(_) => IrType.Bool
    case Byte(_) => IrType.Byte
    case Bytes(ws) => IrType.Bytes(|ws|)
    case JubjubScalar(_) => IrType.JubjubScalar
    case Foreign(f, _) => IrType.Foreign(f)
  }

  function CircuitTypesOf(vs: seq<CircuitValue>): (ts: seq<IrType>)
    ensures |ts| == |vs|
  {
    seq(|vs|, i requires 0 <= i < |vs| => CircuitTypeOf(vs[i]))
  }

  function Wires(v: CircuitValue): seq<Wire> {
    if v.Bytes? then v.ws else [v.w]
  }

  /** The value of type `t` held in the given cells. */
  function OfWires(t: IrType, ws: seq<Wire>): CircuitValue
    requires ws != [] || t.Bytes?
  {
    match t
    case Bool => CircuitValue.Bool(ws[0])
    case Byte => CircuitValue.Byte(ws[0])
    case Bytes(_) => CircuitValue.Bytes(ws)
    case JubjubScalar => CircuitValue.JubjubScalar(ws[0])
    case Foreign(f) => CircuitValue.Foreign(f, ws[0])
    case _ => CircuitValue.Native(ws[0])
  }

  /** The bound that the cells of a type are constrained to, and how many there are. */
  function CellBound(c: Params, t: IrType): nat {
    match t
    case Native => c.p
    case Bool => 2
    case Byte => 256
    case Bytes(_) => 256
    case JubjubScalar => c.r
    case Foreign(f) => c.order(f)
    case Point(_) => 0
  }

  function CellCount(t: IrType): nat {
    if t.Bytes? then t.n else 1
  }

  // ----- values -----

  function AssignValue(c: Params, b: Builder, t: IrType): Option<(Builder, CircuitValue)> {
    if t.Point? then None
    else Some((Emit(b, Assign(CellBound(c, t)), [], CellCount(t)), OfWires(t, Fresh(b.next, CellCount(t)))))
  }

  function ValueCells(v: IrValue): (xs: seq<nat>)
    ensures |xs| == CellCount(TypeOf(v))
  {
    match v
    case Bytes(bs) => bs
    case Bool(x) => [if x then 1 else 0]
    case Byte(x) => [x]
    case _ => [Operations.Elem(v)]
  }

  function AssignConstant(b: Builder, v: IrValue): (Builder, CircuitValue) {
    var n := CellCount(TypeOf(v));
    (Emit(b, Fixed(ValueCells(v)), [], n), OfWires(TypeOf(v), Fresh(b.next, n)))
  }

  function AsNative(v: CircuitValue): Option<Wire> {
    if v.Native? then Some(v.w) else None
  }

  function AllNative(vs: seq<CircuitValue>): Option<seq<Wire>> {
    if vs == [] then Some([])
    else
      var w :- AsNative(vs[0]);
      var rest :- AllNative(vs[1..]);
      Some([w] + rest)
  }

  function Bools(vs: seq<CircuitValue>): Option<seq<Wire>> {
    if vs == [] then Some([])
    else if !vs[0].Bool? then None
    else
      var rest :- Bools(vs[1..]);
      Some([vs[0].w] + rest)
  }

  function AllBools(vs: seq<CircuitValue>): Option<seq<Wire>> {
    if vs == [] then None else Bools(vs)
  }

  function AsBytes(v: CircuitValue): Option<seq<Wire>> {
    if v.Bytes? then Some(v.ws) else None
  }

  function AsBytes32(c: Params, v: CircuitValue): Option<seq<Wire>> {
    if v.Bytes? && |v.ws| == c.ReprBytes() then Some(v.ws) else None
  }

  function Natives(ws: seq<Wire>): (vs: seq<CircuitValue>)
    ensures |vs| == |ws|
  {
    seq(|ws|, i requires 0 <= i < |ws| => CircuitValue.Native(ws[i]))
  }

  // ----- encoding and bytes -----

  /** A one-byte chunk is converted directly, a longer one is recomposed. */
  function PackChunk(c: Params, b: Builder, chunk: seq<Wire>): (Builder, Wire)
    requires chunk != []
  {
    if |chunk| == 1 then (b, chunk[0]) else (Emit(b, Recompose(256, c.p), chunk, 1), b.next)
  }

  function PackWires(c: Params, b: Builder, ws: seq<Wire>): (Builder, seq<Wire>)
    decreases |ws|
  {
    if ws == [] then (b, [])
    else
      var len := Encoding.Min(|ws|, c.limbBytes);
      var (b1, w) := PackChunk(c, b, ws[..len]);
      var (b2, rest) := PackWires(c, b1, ws[len..]);
      (b2, [w] + rest)
  }

  function EncodeWires(c: Params, b: Builder, v: CircuitValue): (Builder, seq<Wire>) {
    match v
    case Native(w) => (b, [w])
    case Bool(w) => (b, [w])
    case Byte(w) => (b, [w])
    case Bytes(ws) => PackWires(c, b, ws)
    case JubjubScalar(w) =>
      var b1 := Emit(b, PackScalar, [w], 2);
      (Emit(b1, AssertFixed(0), [b.next + 1], 0), [b.next])
    case Foreign(f, w) => (Emit(b, PackForeign(f), [w], 2), [b.next, b.next + 1])
  }

  function EncodeAllWires(c: Params, b: Builder, vs: seq<CircuitValue>): (Builder, seq<Wire>)
    decreases |vs|
  {
    if vs == [] then (b, [])
    else
      var (b1, ws) := EncodeWires(c, b, vs[0]);
      var (b2, rest) := EncodeAllWires(c, b1, vs[1..]);
      (b2, ws + rest)
  }

  /** Reduces a byte string modulo the Jubjub scalar order, through a big integer. */
  function ScalarFromBytes(c: Params, b: Builder, bytes: seq<Wire>): (Builder, CircuitValue) {
    var b1 := Emit(b, DivRem(c.r), bytes, 2);
    var b2 := Emit(b1, Decompose(256, c.ReprBytes()), [b.next + 1], c.ReprBytes());
    (Emit(b2, Recompose(256, c.r), Fresh(b1.next, c.ReprBytes()), 1), CircuitValue.JubjubScalar(b2.next))
  }

  function ToBytesWires(c: Params, b: Builder, v: CircuitValue): Option<(Builder, seq<Wire>)> {
    var _ :- Operations.Modulus(c, CircuitTypeOf(v));
    if v.Bytes? then None
    else Some((Emit(b, Decompose(256, c.ReprBytes()), [v.w], c.ReprBytes()), Fresh(b.next, c.ReprBytes())))
  }

  function FromBytesWires(c: Params, b: Builder, t: IrType, bytes: seq<Wire>): Option<(Builder, CircuitValue)> {
    match t
    case Native => Some((Emit(b, Recompose(256, c.p), bytes, 1), CircuitValue.Native(b.next)))
    case JubjubScalar => Some(ScalarFromBytes(c, b, bytes))
    case Foreign(f) => Some((Emit(b, Recompose(256, c.order(f)), bytes, 1), CircuitValue.Foreign(f, b.next)))
    case _ => None
  }

  function ConcatWires(vs: seq<CircuitValue>): Option<seq<Wire>> {
    if vs == [] then Some([])
    else
      var head :- if vs[0].Byte? then Some([vs[0].w]) else AsBytes(vs[0]);
      var rest :- ConcatWires(vs[1..]);
      Some(head + rest)
  }

  /** Decomposes each limb into exactly the bytes it contributes to an `n`-byte string. */
  function UnpackWires(c: Params, b: Builder, limbs: seq<Wire>, n: nat): (Builder, seq<Wire>)
    decreases |limbs|
  {
    if limbs == [] then (b, [])
    else
      var len := Encoding.Min(n, c.limbBytes);
      var b1 := Emit(b, Decompose(256, len), [limbs[0]], len);
      var (b2, rest) := UnpackWires(c, b1, limbs[1..], n - len);
      (b2, Fresh(b.next, len) + rest)
  }

  // ----- aligned hash inputs -----

  /** Full chunks are stored last chunk first. */
  function DecodeChunks(c: Params, b: Builder, chunks: seq<Wire>): (Builder, seq<Wire>)
    decreases |chunks|
  {
    if chunks == [] then (b, [])
    else
      var k := |chunks| - 1;
      var b1 := Emit(b, Decompose(256, c.limbBytes), [chunks[k]], c.limbBytes);
      var (b2, rest) := DecodeChunks(c, b1, chunks[..k]);
      (b2, Fresh(b.next, c.limbBytes) + rest)
  }

  /** A short first limb, if any, and the full chunks after it; the short bytes come last. */
  function DecodeBytesAtom(c: Params, b: Builder, stray: nat, chunks: nat, inputs: seq<Wire>)
    : Option<(Builder, seq<Wire>, seq<Wire>)>
  {
    var head := if stray > 0 then 1 else 0;
    if |inputs| < chunks + head then None
    else
      var b1 := if stray > 0 then Emit(b, Decompose(256, stray), [inputs[0]], stray) else b;
      var (b2, full) := DecodeChunks(c, b1, inputs[head..head + chunks]);
      Some((b2, full + Fresh(b.next, stray), inputs[head + chunks..]))
  }

  /** Decodes one atom from the front of the inputs; returns what is left of them. */
  function DecodeAtom(c: Params, b: Builder, atom: Atom, inputs: seq<Wire>): Option<(Builder, seq<Wire>, seq<Wire>)> {
    match atom
    case FieldAtom =>
      if inputs == [] then None
      else
        var n := c.ReprBytes();
        Some((Emit(b, Decompose(256, n), [inputs[0]], n), Fresh(b.next, n), inputs[1..]))
    case BytesAtom(length) => DecodeBytesAtom(c, b, length % c.limbBytes, length / c.limbBytes, inputs)
    case CompressAtom => None
  }

  function DecodeAligned(c: Params, b: Builder, alignment: Alignment, inputs: seq<Wire>): Option<(Builder, seq<Wire>)>
    decreases |alignment|
  {
    if alignment == [] then Some((b, []))
    else if alignment[0].OptionSegment? then None
    else
      var (b1, ws, left) :- DecodeAtom(c, b, alignment[0].atom, inputs);
      var (b2, rest) :- DecodeAligned(c, b1, alignment[1..], left);
      Some((b2, ws + rest))
  }

  // ----- equality -----

  function AssertEqualAll(b: Builder, xs: seq<Wire>, ys: seq<Wire>): Builder
    requires |xs| == |ys|
    decreases |xs|
  {
    if xs == [] then b else AssertEqualAll(Emit(b, AssertEqual, [xs[0], ys[0]], 0), xs[1..], ys[1..])
  }

  function IsEqualAll(b: Builder, xs: seq<Wire>, ys: seq<Wire>): (Builder, seq<Wire>)
    requires |xs| == |ys|
    decreases |xs|
  {
    if xs == [] then (b, [])
    else
      var (b1, rest) := IsEqualAll(Emit(b, IsEqual, [xs[0], ys[0]], 1), xs[1..], ys[1..]);
      (b1, [b.next] + rest)
  }

  // ----- computing instructions -----

  /** The width that the comparison gadget is given: even, and at least 4. */
  function RoundedBits(bits: nat): nat {
    if bits + bits % 2 < 4 then 4 else bits + bits % 2
  }

  function SynthArith(c: Params, b: Builder, ins: Instruction, x: CircuitValue, y: CircuitValue)
    : Option<(Builder, seq<CircuitValue>)>
  {
    var m :- Operations.Modulus(c, CircuitTypeOf(x));
    if CircuitTypeOf(x) != CircuitTypeOf(y) || x.Bytes? || y.Bytes? then None
    else
      var g := if ins.Add? then AddMod(m) else MulMod(m);
      Some((Emit(b, g, [x.w, y.w], 1), [OfWires(CircuitTypeOf(x), [b.next])]))
  }

  function SynthUnary(c: Params, b: Builder, ins: Instruction, x: CircuitValue): Option<(Builder, seq<CircuitValue>)> {
    if x.Bool? && ins.Neg? then Some((Emit(b, NotBit, [x.w], 1), [CircuitValue.Bool(b.next)]))
    else
      var m :- Operations.Modulus(c, CircuitTypeOf(x));
      if x.Bytes? then None
      else
        var g := if ins.Neg? then NegMod(m) else InvMod(m);
        Some((Emit(b, g, [x.w], 1), [OfWires(CircuitTypeOf(x), [b.next])]))
  }

  function SynthSelect(b: Builder, bit: Wire, x: CircuitValue, y: CircuitValue): Option<(Builder, seq<CircuitValue>)> {
    if CircuitTypeOf(x) != CircuitTypeOf(y) || x.Bytes? || y.Bytes? then None
    else
      var b1 := Emit(b, InRange(2), [bit], 0);
      Some((Emit(b1, Select, [bit, x.w, y.w], 1), [OfWires(CircuitTypeOf(x), [b1.next])]))
  }

  /**
    The canonical bits of a cell, cut at `bits` and each half recomposed: the low half
    becomes cell `b.next + c.frBits` and the high half the one after it.
   */
  function SplitBits(c: Params, b: Builder, x: Wire, bits: nat): Builder
    requires bits <= c.frBits
  {
    var b1 := Emit(b, Decompose(2, c.frBits), [x], c.frBits);
    var xBits := Fresh(b.next, c.frBits);
    var b2 := Emit(b1, Recompose(2, c.p), xBits[..bits], 1);
    Emit(b2, Recompose(2, c.p), xBits[bits..], 1)
  }

  function SynthDivMod(c: Params, b: Builder, x: Wire, bits: nat): Option<(Builder, seq<CircuitValue>)> {
    if bits > c.frBits then None
    else Some((SplitBits(c, b, x, bits), Natives([b.next + c.frBits + 1, b.next + c.frBits])))
  }

  /**
    The result is a free cell, `b.next`; its canonical bits, cut at `bits`, are asserted to
    recompose to the two operands.
   */
  function Rejoined(c: Params, b: Builder, divisor: Wire, modulus: Wire, bits: nat): Builder
    requires bits <= c.frBits
  {
    var b1 := Emit(b, Assign(c.p), [], 1);
    var b2 := SplitBits(c, b1, b.next, bits);
    var b3 := Emit(b2, AssertEqual, [b1.next + c.frBits, modulus], 0);
    Emit(b3, AssertEqual, [b1.next + c.frBits + 1, divisor], 0)
  }

  function SynthReconstitute(c: Params, b: Builder, divisor: Wire, modulus: Wire, bits: nat)
    : Option<(Builder, seq<CircuitValue>)>
  {
    if bits > c.frBits then None
    else Some((Rejoined(c, b, divisor, modulus, bits), [CircuitValue.Native(b.next)]))
  }

  function SynthTestEq(b: Builder, x: CircuitValue, y: CircuitValue): Option<(Builder, seq<CircuitValue>)> {
    if CircuitTypeOf(x) != CircuitTypeOf(y) then None
    else if x.Bytes? && y.Bytes? then
      var (b1, eqs) := IsEqualAll(b, x.ws, y.ws);
      Some((Emit(b1, AndBits, eqs, 1), [CircuitValue.Native(b1.next)]))
    else if x.Bytes? || y.Bytes? then None
    else Some((Emit(b, IsEqual, [x.w, y.w], 1), [CircuitValue.Native(b.next)]))
  }

  function SynthGate(b: Builder, g: Gadget, vs: seq<CircuitValue>): Option<(Builder, seq<CircuitValue>)> {
    var ws :- AllBools(vs);
    Some((Emit(b, g, ws, 1), [CircuitValue.Bool(b.next)]))
  }

  function SynthLowHigh(c: Params, b: Builder, low: CircuitValue, high: Wire): Option<(Builder, seq<CircuitValue>)> {
    var (b1, bytes) :- ToBytesWires(c, b, low);
    if |bytes| != c.ReprBytes() then None
    else
      var b2 := Emit(b1, AssertFixed(0), [bytes[c.limbBytes]], 0);
      Some((Emit(b2, InRange(256), [high], 0), [CircuitValue.Bytes(bytes[c.limbBytes := high])]))
  }

  /** The constraints and results of a computing instruction on its resolved operands. */
  function SynthOp(c: Params, ins: Instruction, b: Builder, vs: seq<CircuitValue>): Option<(Builder, seq<CircuitValue>)>
    requires ins.Computes() && |vs| == |ins.Args()|
  {
    match ins
    case Encode(_, _) =>
      var (b1, ws) := EncodeWires(c, b, vs[0]);
      Some((b1, Natives(ws)))
    case Assert(_) =>
      var x :- AsNative(vs[0]);
      Some((Emit(b, AssertNonZero, [x], 0), []))
    case CondSelect(_, _, _, _) =>
      var bit :- AsNative(vs[0]);
      SynthSelect(b, bit, vs[1], vs[2])
    case ConstrainBits(_, bits) =>
      var x :- AsNative(vs[0]);
      Some((Emit(b, Decompose(2, bits), [x], bits), []))
    case ConstrainEq(_, _) =>
      if CircuitTypeOf(vs[0]) != CircuitTypeOf(vs[1]) || |Wires(vs[0])| != |Wires(vs[1])| then None
      else Some((AssertEqualAll(b, Wires(vs[0]), Wires(vs[1])), []))
    case ConstrainToBoolean(_) =>
      var x :- AsNative(vs[0]);
      Some((Emit(b, InRange(2), [x], 0), []))
    case Copy(_, _) => Some((b, [vs[0]]))
    case DivModPowerOfTwo(_, bits, _) =>
      var x :- AsNative(vs[0]);
      SynthDivMod(c, b, x, bits)
    case ReconstituteField(_, _, bits, _) =>
      var d :- AsNative(vs[0]);
      var m :- AsNative(vs[1]);
      SynthReconstitute(c, b, d, m, bits)
    case TransientHash(_, _) =>
      var xs :- AllNative(vs);
      Some((Emit(b, Poseidon, xs, 1), [CircuitValue.Native(b.next)]))
    case AlignedHash(kind, alignment, _, _) =>
      var xs :- AllNative(vs);
      var (b1, bytes) :- DecodeAligned(c, b, alignment, xs);
      Some((Emit(b1, Digest(kind), bytes, DigestLen(kind)), [CircuitValue.Bytes(Fresh(b1.next, DigestLen(kind)))]))
    case TestEq(_, _, _) => SynthTestEq(b, vs[0], vs[1])
    case Add(_, _, _) => SynthArith(c, b, ins, vs[0], vs[1])
    case Mul(_, _, _) => SynthArith(c, b, ins, vs[0], vs[1])
    case Neg(_, _) => SynthUnary(c, b, ins, vs[0])
    case Inv(_, _) => SynthUnary(c, b, ins, vs[0])
    case Not(_, _) =>
      var x :- AsNative(vs[0]);
      var b1 := Emit(b, InRange(2), [x], 0);
      Some((Emit(b1, NotBit, [x], 1), [CircuitValue.Native(b1.next)]))
    case And(_, _) => SynthGate(b, AndBits, vs)
    case Or(_, _) => SynthGate(b, OrBits, vs)
    case Xor(_, _) => SynthGate(b, XorBits, vs)
    case LessThan(_, _, bits, _) =>
      var x :- AsNative(vs[0]);
      var y :- AsNative(vs[1]);
      Some((Emit(b, LowerThan(RoundedBits(bits)), [x, y], 1), [CircuitValue.Native(b.next)]))
    case JubjubScalarFromNative(_, _) =>
      var x :- AsNative(vs[0]);
      var b1 := Emit(b, Decompose(256, c.ReprBytes()), [x], c.ReprBytes());
      var (b2, v) := ScalarFromBytes(c, b1, Fresh(b.next, c.ReprBytes()));
      Some((b2, [v]))
    case ToBytes(_, _) =>
      var (b1, bytes) :- ToBytesWires(c, b, vs[0]);
      Some((b1, [CircuitValue.Bytes(bytes)]))
    case IntoBytes32(_, _) =>
      var (b1, bytes) :- ToBytesWires(c, b, vs[0]);
      var bytes32 :- AsBytes32(c, CircuitValue.Bytes(bytes));
      Some((b1, [CircuitValue.Bytes(bytes32)]))
    case FromBytes(t, _, _) =>
      var bytes :- AsBytes(vs[0]);
      var (b1, v) :- FromBytesWires(c, b, t, bytes);
      Some((b1, [v]))
    case FromBytes32(t, _, _) =>
      var bytes :- AsBytes32(c, vs[0]);
      var (b1, v) :- FromBytesWires(c, b, t, bytes);
      Some((b1, [v]))
    case Reverse(_, _) =>
      var bytes :- AsBytes(vs[0]);
      Some((b, [CircuitValue.Bytes(Operations.ReverseOf(bytes))]))
    case Slice(_, start, len, _) =>
      var bytes :- AsBytes(vs[0]);
      if len == 0 || start + len > |bytes| then None
      else Some((b, [CircuitValue.Bytes(bytes[start..start + len])]))
    case Nth(_, index, _) =>
      var bytes :- AsBytes(vs[0]);
      if index >= |bytes| then None else Some((b, [CircuitValue.Byte(bytes[index])]))
    case Concat(_, _) =>
      var bytes :- ConcatWires(vs);
      if |bytes| == 0 || |bytes| > MAX_BYTES_LEN then None else Some((b, [CircuitValue.Bytes(bytes)]))
    case BytesIntoNatives(_, _) =>
      var bytes :- AsBytes(vs[0]);
      var (b1, ws) := PackWires(c, b, bytes);
      Some((b1, Natives(ws)))
    case BytesFromNatives(_, len, _) =>
      var _ :- Operations.NbLimbs(c, len, |vs|);
      var xs :- AllNative(vs);
      var (b1, bytes) := UnpackWires(c, b, xs, len);
      Some((b1, [CircuitValue.Bytes(bytes)]))
    case Bytes32IntoLowHigh(_, _, _) =>
      var bytes :- AsBytes32(c, vs[0]);
      var b1 := Emit(b, Fixed([0]), [], 1);
      Some((Emit(b1, Recompose(256, c.p), bytes[c.limbBytes := b.next], 1), Natives([b1.next, bytes[c.limbBytes]])))
    case Bytes32FromLowHigh(_, _, _) =>
      var high :- AsNative(vs[1]);
      SynthLowHigh(c, b, vs[0], high)
    case LoadConstant(t, encoding, _) =>
      var v :- Encoding.Decode(c, t, encoding);
      var (b1, w) := AssignConstant(b, v);
      Some((b1, [w]))
  }

  // ----- operands -----

  function ResolveWires(b: Builder, memory: CircuitMemory, operand: Operand): Option<(Builder, CircuitValue)> {
    match operand
    case Variable(id) => if id in memory then Some((b, memory[id])) else None
    case Immediate(imm) => Some((Emit(b, Fixed([imm]), [], 1), CircuitValue.Native(b.next)))
  }

  function ResolveAllWires(b: Builder, memory: CircuitMemory, operands: seq<Operand>)
    : (r: Option<(Builder, seq<CircuitValue>)>)
    ensures r.Some? ==> |r.value.1| == |operands|
    decreases |operands|
  {
    if operands == [] then Some((b, []))
    else
      var (b1, v) :- ResolveWires(b, memory, operands[0]);
      var (b2, rest) :- ResolveAllWires(b1, memory, operands[1..]);
      Some((b2, [v] + rest))
  }

  // ----- the walk over the instructions -----

  /**
    What `circuit` holds between two instructions; `readValues` records the cells witnessed by
    transcript reads, in order.
   */
  datatype Synthesis = Synthesis(
    b: Builder,
    memory: CircuitMemory,
    pis: seq<Wire>,
    outputs: seq<CircuitValue>,
    readValues: seq<CircuitValue>)

  /** Pushes each input, or zero where the guard bit is zero. */
  function PushGuarded(b: Builder, memory: CircuitMemory, guard: Wire, zero: Wire, inputs: seq<Operand>)
    : Option<(Builder, seq<Wire>)>
    decreases |inputs|
  {
    if inputs == [] then Some((b, []))
    else
      var (b1, v) :- ResolveWires(b, memory, inputs[0]);
      var x :- AsNative(v);
      var (b2, rest) :- PushGuarded(Emit(b1, Select, [guard, x, zero], 1), memory, guard, zero, inputs[1..]);
      Some((b2, [b1.next] + rest))
  }

  function SynthImpact(s: Synthesis, guard: Operand, inputs: seq<Operand>): Option<Synthesis> {
    var b1 := Emit(s.b, Fixed([0]), [], 1);
    var (b2, g) :- ResolveWires(b1, s.memory, guard);
    var bit :- AsNative(g);
    var b3 := Emit(b2, InRange(2), [bit], 0);
    var (b4, pushed) :- PushGuarded(b3, s.memory, bit, s.b.next, inputs);
    Some(s.(b := b4, pis := s.pis + pushed))
  }

  /** A transcript read is a fresh value of its type; the guard does not take part. */
  function SynthRead(c: Params, s: Synthesis, ins: Instruction): Option<Synthesis>
    requires ins.PublicInput? || ins.PrivateInput?
  {
    var (b1, v) :- AssignValue(c, s.b, ins.valT);
    Some(s.(b := b1, memory := s.memory[ins.output := v], readValues := s.readValues + [v]))
  }

  function SynthOutput(src: IrSource, s: Synthesis, vals: seq<Operand>): Option<Synthesis> {
    if |vals| != |src.outputs| then None
    else
      var (b1, vs) :- ResolveAllWires(s.b, s.memory, vals);
      if CircuitTypesOf(vs) != src.outputs then None else Some(s.(b := b1, outputs := s.outputs + vs))
  }

  function SynthCompute(c: Params, s: Synthesis, ins: Instruction): Option<Synthesis>
    requires ins.Computes()
  {
    var (b1, vs) :- ResolveAllWires(s.b, s.memory, ins.Args());
    var (b2, results) :- SynthOp(c, ins, b1, vs);
    if |results| != |ins.Outs()| then None
    else Some(s.(b := b2, memory := Preprocess.Bind(s.memory, ins.Outs(), results)))
  }

  function SynthStep(c: Params, src: IrSource, s: Synthesis, ins: Instruction): Option<Synthesis> {
    if ins.Impact? then SynthImpact(s, ins.guard, ins.inputs)
    else if ins.PublicInput? || ins.PrivateInput? then SynthRead(c, s, ins)
    else if ins.Output? then SynthOutput(src, s, ins.vals)
    else SynthCompute(c, s, ins)
  }

  function SynthFrom(c: Params, src: IrSource, s: Synthesis, todo: seq<Instruction>): Option<Synthesis>
    decreases |todo|
  {
    if todo == [] then Some(s)
    else
      var s' :- SynthStep(c, src, s, todo[0]);
      SynthFrom(c, src, s', todo[1..])
  }

  function AssignInputs(c: Params, b: Builder, inputs: seq<TypedIdentifier>): Option<(Builder, seq<CircuitValue>)>
    decreases |inputs|
  {
    if inputs == [] then Some((b, []))
    else
      var (b1, v) :- AssignValue(c, b, inputs[0].valT);
      var (b2, rest) :- AssignInputs(c, b1, inputs[1..]);
      Some((b2, [v] + rest))
  }

  /** Looks up the declared inputs as they stand in memory. */
  function InputValues<V>(memory: map<Identifier, V>, names: seq<Identifier>): seq<V> {
    if names == [] then []
    else
      var rest := InputValues(memory, names[1..]);
      if names[0] in memory then [memory[names[0]]] + rest else rest
  }

  /** Re-encodes the inputs as they stand in memory, then the outputs. */
  function EncodeCommitted(c: Params, src: IrSource, s: Synthesis, b: Builder): (Builder, seq<Wire>) {
    var (b1, ins) := EncodeAllWires(c, b, InputValues(s.memory, InputNames(src.inputs)));
    var (b2, outs) := EncodeAllWires(c, b1, s.outputs);
    (b2, ins + outs)
  }

  /** Recomputes the commitment over randomness, inputs and outputs, and ties it to the second public input. */
  function SynthCommitment(c: Params, src: IrSource, s: Synthesis): Builder
    requires |s.pis| >= 2
  {
    var rand := s.b.next;
    var b1 := Emit(s.b, Assign(c.p), [], 1);
    var (b2, committed) := EncodeCommitted(c, src, s, b1);
    var b3 := Emit(b2, Poseidon, [rand] + committed, 1);
    Emit(b3, AssertEqual, [b2.next, s.pis[1]], 0)
  }

  /**
    A finished circuit. Besides the constraints and the public-input cells it names the
    cells that a prover chooses: the inputs, the binding input, the transcript reads and,
    with a commitment, its randomness.
   */
  datatype CircuitShape = CircuitShape(
    b: Builder,
    inputs: seq<CircuitValue>,
    memory: CircuitMemory,
    pis: seq<Wire>,
    outputs: seq<CircuitValue>,
    readValues: seq<CircuitValue>,
    rand: Option<Wire>)

  const EMPTY: Builder := Builder(0, [])

  function SynthInit(c: Params, src: IrSource): Option<(Synthesis, seq<CircuitValue>)> {
    var (b1, inputs) :- AssignInputs(c, EMPTY, src.inputs);
    if |inputs| != |src.inputs| then None
    else
      var memory := Preprocess.Bind(map[], InputNames(src.inputs), inputs);
      var b2 := Emit(b1, Assign(c.p), [], 1);
      if src.doCommunicationsCommitment then
        Some((Synthesis(Emit(b2, Assign(c.p), [], 1), memory, [b1.next, b2.next], [], []), inputs))
      else
        Some((Synthesis(b2, memory, [b1.next], [], []), inputs))
  }

  /** Recomputes the commitment, if there is one, and names the parts of the circuit. */
  function Finish(c: Params, src: IrSource, s: Synthesis, inputs: seq<CircuitValue>): Option<CircuitShape> {
    if !src.doCommunicationsCommitment then
      Some(CircuitShape(s.b, inputs, s.memory, s.pis, s.outputs, s.readValues, None))
    else if |s.pis| < 2 then None
    else
      Some(CircuitShape(SynthCommitment(c, src, s), inputs, s.memory, s.pis, s.outputs, s.readValues, Some(s.b.next)))
  }

  /** The circuit of a source, had it every chip at hand. */
  function SynthesizeEquipped(c: Params, src: IrSource): Option<CircuitShape> {
    var (s0, inputs) :- SynthInit(c, src);
    var s :- SynthFrom(c, src, s0, src.instructions);
    Finish(c, src, s, inputs)
  }

  // ----- missing chips -----

  predicate ValuesEnabled(arch: Arch, vs: seq<CircuitValue>) {
    forall i :: 0 <= i < |vs| ==> Enabled(arch, CircuitTypeOf(vs[i]))
  }

  predicate OperandsEnabled(arch: Arch, memory: CircuitMemory, operands: seq<Operand>) {
    forall i :: 0 <= i < |operands| && operands[i].Variable? && operands[i].id in memory ==>
      Enabled(arch, CircuitTypeOf(memory[operands[i].id]))
  }

  /**
    The chips that an instruction calls are at hand: that of a type it brings in, that of the hash
    function it computes, and, unless it only passes values on, those of its operands' types.
   */
  predicate StepEnabled(arch: Arch, memory: CircuitMemory, ins: Instruction) {
    Supplied(arch, ins) && (ins.Copy? || ins.Output? || OperandsEnabled(arch, memory, ins.Args()))
  }

  predicate InputsEnabled(arch: Arch, src: IrSource) {
    forall i :: 0 <= i < |src.inputs| ==> Enabled(arch, src.inputs[i].valT)
  }

  /** The commitment hashes with Poseidon and encodes the inputs and the outputs. */
  predicate CommitmentEnabled(arch: Arch, src: IrSource, s: Synthesis) {
    src.doCommunicationsCommitment ==>
      && HashChip(arch, Transient)
      && ValuesEnabled(arch, InputValues(s.memory, InputNames(src.inputs)))
      && ValuesEnabled(arch, s.outputs)
  }

  /** A call to a chip that is not at hand ends synthesis. */
  function GuardedStep(arch: Arch, c: Params, src: IrSource, s: Synthesis, ins: Instruction): Option<Synthesis> {
    if StepEnabled(arch, s.memory, ins) then SynthStep(c, src, s, ins) else None
  }

  function GuardedFrom(arch: Arch, c: Params, src: IrSource, s: Synthesis, todo: seq<Instruction>): Option<Synthesis>
    decreases |todo|
  {
    if todo == [] then Some(s)
    else
      var s' :- GuardedStep(arch, c, src, s, todo[0]);
      GuardedFrom(arch, c, src, s', todo[1..])
  }

  /** The circuit of a source, with the chips that are selected for it. */
  function Synthesize(c: Params, src: IrSource): Option<CircuitShape> {
    var arch := UsedChips(src);
    var (s0, inputs) :- SynthInit(c, src);
    if !InputsEnabled(arch, src) then None
    else
      var s :- GuardedFrom(arch, c, src, s0, src.instructions);
      if !CommitmentEnabled(arch, src, s) then None else Finish(c, src, s, inputs)
  }

  lemma {:induction false} GuardsOnlyRefuse(arch: Arch, c: Params, src: IrSource, s: Synthesis, todo: seq<Instruction>)
    requires GuardedFrom(arch, c, src, s, todo).Some?
    ensures SynthFrom(c, src, s, todo) == GuardedFrom(arch, c, src, s, todo)
    decreases |todo|
  {
    if todo == [] {
    } else {
      GuardsOnlyRefuse(arch, c, src, SynthStep(c, src, s, todo[0]).value, todo[1..]);
    }
  }

  /** Having every chip at hand changes nothing for a source that has a circuit. */
  lemma CircuitIsEquipped(c: Params, src: IrSource)
    requires Synthesize(c, src).Some?
    ensures SynthesizeEquipped(c, src) == Synthesize(c, src)
  {
    GuardsOnlyRefuse(UsedChips(src), c, src, SynthInit(c, src).value.0, src.instructions);
  }
}
