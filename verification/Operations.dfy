/** The off-circuit operation of every instruction that only computes values from values. */
module Operations {
  import opened Options
  import opened Digits
  import opened Types
  import opened Encoding
  import opened Bits
  import opened Instructions

  // ----- conversions between values and payloads -----

  function AsNative(v: IrValue): Option<nat> {
    if v.Native? then Some(v.x) else None
  }

  /** A guard or selector: a native element that is 0 or 1. */
  function AsBit(v: IrValue): Option<bool> {
    if v == IrValue.Native(0) then Some(false)
    else if v == IrValue.Native(1) then Some(true)
    else None
  }

  function FromBit(b: bool): IrValue {
    IrValue.Native(if b then 1 else 0)
  }

  function AllNative(vs: seq<IrValue>): Option<seq<nat>> {
    if vs == [] then Some([])
    else
      var x :- AsNative(vs[0]);
      var rest :- AllNative(vs[1..]);
      Some([x] + rest)
  }

  lemma {:induction false} AllNativeLen(vs: seq<IrValue>)
    ensures AllNative(vs).Some? ==> |AllNative(vs).value| == |vs|
  {
    if vs == [] {
    } else {
      AllNativeLen(vs[1..]);
    }
  }

  function Natives(xs: seq<nat>): (vs: seq<IrValue>)
    ensures |vs| == |xs|
  {
    seq(|xs|, i requires 0 <= i < |xs| => IrValue.Native(xs[i]))
  }

  function Bools(vs: seq<IrValue>): Option<seq<bool>> {
    if vs == [] then Some([])
    else if !vs[0].Bool? then None
    else
      var rest :- Bools(vs[1..]);
      Some([vs[0].b] + rest)
  }

  /** The operands of a boolean gate: at least one, all of type Bool. */
  function AllBools(vs: seq<IrValue>): Option<seq<bool>> {
    if vs == [] then None else Bools(vs)
  }

  predicate AllTrue(bs: seq<bool>) {
    forall i :: 0 <= i < |bs| ==> bs[i]
  }

  predicate AnyTrue(bs: seq<bool>) {
    exists i :: 0 <= i < |bs| && bs[i]
  }

  function Parity(bs: seq<bool>): bool {
    if bs == [] then false else bs[0] != Parity(bs[1..])
  }

  function AsBytes(v: IrValue): Option<seq<nat>> {
    if v.Bytes? then Some(v.bytes) else None
  }

  /** A byte string of the width of a field element, 32 bytes in the deployed machine. */
  function AsBytes32(c: Params, v: IrValue): Option<seq<nat>> {
    if v.Bytes? && |v.bytes| == c.ReprBytes() then Some(v.bytes) else None
  }

  // ----- arithmetic in the prime fields -----

  /** The modulus of a prime-field type. */
  function Modulus(c: Params, t: IrType): Option<Pos> {
    match t
    case Native => Some(c.p)
    case JubjubScalar => Some(c.r)
    case Foreign(f) => Some(c.order(f))
    case _ => None
  }

  /** The integer behind a prime-field value. */
  function Elem(v: IrValue): nat {
    match v
    case Native(x) => x
    case JubjubScalar(s) => s
    case Foreign(_, x) => x
    case _ => 0
  }

  /** The value of prime-field type `t` with the given integer. */
  function OfElem(t: IrType, x: nat): IrValue {
    match t
    case JubjubScalar => IrValue.JubjubScalar(x)
    case Foreign(f) => IrValue.Foreign(f, x)
    case _ => IrValue.Native(x)
  }

  function NegMod(m: Pos, x: nat): nat {
    (m - x % m) % m
  }

  lemma NegCancels(m: Pos, x: nat)
    requires x < m
    ensures NegMod(m, x) < m && (x + NegMod(m, x)) % m == 0
  {
    ModSmall(x, m);
    if x == 0 {
      DivModUnique(m, m, 1, 0);
      ModSmall(0, m);
    } else {
      ModSmall(m - x, m);
      DivModUnique(m, m, 1, 0);
    }
  }

  /** The inverse of `x`, searched for from `y` upwards. */
  function Invert(m: Pos, x: nat, y: nat): Option<nat>
    decreases m - y
  {
    if y >= m then None
    else if (x * y) % m == 1 % m then Some(y)
    else Invert(m, x, y + 1)
  }

  function Arith(c: Params, ins: Instruction, a: IrValue, b: IrValue): Option<seq<IrValue>> {
    var m :- Modulus(c, TypeOf(a));
    if TypeOf(a) != TypeOf(b) then None
    else if ins.Add? then Some([OfElem(TypeOf(a), (Elem(a) + Elem(b)) % m)])
    else Some([OfElem(TypeOf(a), (Elem(a) * Elem(b)) % m)])
  }

  function Negate(c: Params, a: IrValue): Option<seq<IrValue>> {
    if a.Bool? then Some([IrValue.Bool(!a.b)])
    else
      var m :- Modulus(c, TypeOf(a));
      Some([OfElem(TypeOf(a), NegMod(m, Elem(a)))])
  }

  function Inverse(c: Params, a: IrValue): Option<seq<IrValue>> {
    var m :- Modulus(c, TypeOf(a));
    if Elem(a) == 0 then None
    else
      var y :- Invert(m, Elem(a), 0);
      Some([OfElem(TypeOf(a), y)])
  }

  // ----- bytes -----

  /** A byte string read as a little-endian integer and reduced. */
  function FromLeBytes(m: Pos, bytes: seq<nat>): nat {
    Val(bytes, 256) % m
  }

  function ToBytesOf(c: Params, v: IrValue): Option<seq<nat>> {
    if Modulus(c, TypeOf(v)).Some? then Some(FieldBytes(c, Elem(v))) else None
  }

  function FromBytesOf(c: Params, t: IrType, bytes: seq<nat>): Option<IrValue> {
    var m :- Modulus(c, t);
    Some(OfElem(t, FromLeBytes(m, bytes)))
  }

  function ReverseOf(bs: seq<nat>): (r: seq<nat>)
    ensures |r| == |bs|
  {
    seq(|bs|, i requires 0 <= i < |bs| => bs[|bs| - 1 - i])
  }

  function ConcatOf(vs: seq<IrValue>): Option<seq<nat>> {
    if vs == [] then Some([])
    else
      var head :- if vs[0].Byte? then Some([vs[0].byte]) else AsBytes(vs[0]);
      var rest :- ConcatOf(vs[1..]);
      Some(head + rest)
  }

  /** The limb count of `BytesFromNatives`, with its two checks. */
  function NbLimbs(c: Params, len: nat, nbInputs: nat): Option<nat> {
    if len == 0 || len > MAX_BYTES_LEN then None
    else if nbInputs != CeilDiv(len, c.limbBytes) then None
    else Some(nbInputs)
  }

  // ----- bits -----

  /** The largest field element, written in bits. */
  function MaxBits(c: Params): (bits: seq<nat>)
    ensures |bits| == 8 * c.ReprBytes() && IsDigits(bits, 2)
  {
    FieldBits(c, c.p - 1)
  }

  /**
    `ReconstituteField` off-circuit: both operands are bounded, and their joined bits are
    compared from the top with those of the largest field element.
   */
  function Reconstitute(c: Params, divisor: nat, modulus: nat, bits: nat): Option<nat> {
    if bits > 8 * c.limbBytes || bits > c.frBits then None
    else
      var modulusBits :- BoundedBits(c, modulus, bits);
      var divisorBits :- BoundedBits(c, divisor, c.frBits - bits);
      var joined := modulusBits + divisorBits;
      if |joined| > |MaxBits(c)| || FoldCompare(Equal, joined, MaxBits(c)[..|joined|]).Greater? then None
      else Some((FieldPow(c, bits) * divisor + modulus) % c.p)
  }

  // ----- all of them -----

  /** The results of a computing instruction on its resolved operands, or failure. */
  function Apply(c: Params, ins: Instruction, vs: seq<IrValue>): Option<seq<IrValue>>
    requires ins.Computes() && |vs| == |ins.Args()|
  {
    match ins
    case Encode(_, _) => Some(Natives(Encoding.Encode(c, vs[0])))
    case Assert(_) =>
      var b :- AsBit(vs[0]);
      if b then Some([]) else None
    case CondSelect(_, _, _, _) =>
      var b :- AsBit(vs[0]);
      if TypeOf(vs[1]) != TypeOf(vs[2]) then None else Some([if b then vs[1] else vs[2]])
    case ConstrainBits(_, bits) =>
      var x :- AsNative(vs[0]);
      var _ :- BoundedBits(c, x, bits);
      Some([])
    case ConstrainEq(_, _) =>
      if TypeOf(vs[0]) == TypeOf(vs[1]) && vs[0] == vs[1] then Some([]) else None
    case ConstrainToBoolean(_) =>
      var _ :- AsBit(vs[0]);
      Some([])
    case Copy(_, _) => Some([vs[0]])
    case DivModPowerOfTwo(_, bits, _) =>
      if bits > 8 * c.limbBytes then None
      else
        var x :- AsNative(vs[0]);
        Some(Natives([FromBits(c, FieldBits(c, x)[bits..]), FromBits(c, FieldBits(c, x)[..bits])]))
    case ReconstituteField(_, _, bits, _) =>
      var d :- AsNative(vs[0]);
      var m :- AsNative(vs[1]);
      var x :- Reconstitute(c, d, m, bits);
      Some([IrValue.Native(x)])
    case TransientHash(_, _) =>
      var xs :- AllNative(vs);
      Some([IrValue.Native(c.poseidon(xs))])
    case AlignedHash(kind, alignment, _, _) =>
      var xs :- AllNative(vs);
      var bytes :- c.alignedBytes(alignment, xs);
      Some([IrValue.Bytes(c.digest(kind, bytes))])
    case TestEq(_, _, _) => if SameVariant(vs[0], vs[1]) then Some([FromBit(vs[0] == vs[1])]) else None
    case Add(_, _, _) => Arith(c, ins, vs[0], vs[1])
    case Mul(_, _, _) => Arith(c, ins, vs[0], vs[1])
    case Neg(_, _) => Negate(c, vs[0])
    case Inv(_, _) => Inverse(c, vs[0])
    case Not(_, _) =>
      var b :- AsBit(vs[0]);
      Some([FromBit(!b)])
    case And(_, _) =>
      var bs :- AllBools(vs);
      Some([IrValue.Bool(AllTrue(bs))])
    case Or(_, _) =>
      var bs :- AllBools(vs);
      Some([IrValue.Bool(AnyTrue(bs))])
    case Xor(_, _) =>
      var bs :- AllBools(vs);
      Some([IrValue.Bool(Parity(bs))])
    case LessThan(_, _, bits, _) =>
      var a :- AsNative(vs[0]);
      var b :- AsNative(vs[1]);
      var aBits :- BoundedBits(c, a, bits);
      var bBits :- BoundedBits(c, b, bits);
      Some([FromBit(FromBits(c, aBits) < FromBits(c, bBits))])
    case JubjubScalarFromNative(_, _) =>
      var x :- AsNative(vs[0]);
      Some([IrValue.JubjubScalar(FromLeBytes(c.r, FieldBytes(c, x)))])
    case ToBytes(_, _) =>
      var bytes :- ToBytesOf(c, vs[0]);
      Some([IrValue.Bytes(bytes)])
    case IntoBytes32(_, _) =>
      var bytes :- ToBytesOf(c, vs[0]);
      var bytes32 :- AsBytes32(c, IrValue.Bytes(bytes));
      Some([IrValue.Bytes(bytes32)])
    case FromBytes(t, _, _) =>
      var bytes :- AsBytes(vs[0]);
      var v :- FromBytesOf(c, t, bytes);
      Some([v])
    case FromBytes32(t, _, _) =>
      var bytes :- AsBytes32(c, vs[0]);
      var v :- FromBytesOf(c, t, bytes);
      Some([v])
    case Reverse(_, _) =>
      var bytes :- AsBytes(vs[0]);
      Some([IrValue.Bytes(ReverseOf(bytes))])
    case Slice(_, start, len, _) =>
      var bytes :- AsBytes(vs[0]);
      if len == 0 || start + len > |bytes| then None
      else Some([IrValue.Bytes(bytes[start..start + len])])
    case Nth(_, index, _) =>
      var bytes :- AsBytes(vs[0]);
      if index >= |bytes| then None else Some([IrValue.Byte(bytes[index])])
    case Concat(_, _) =>
      var bytes :- ConcatOf(vs);
      if |bytes| == 0 || |bytes| > MAX_BYTES_LEN then None else Some([IrValue.Bytes(bytes)])
    case BytesIntoNatives(_, _) =>
      var bytes :- AsBytes(vs[0]);
      Some(Natives(PackBytes(c, bytes)))
    case BytesFromNatives(_, len, _) =>
      var _ :- NbLimbs(c, len, |vs|);
      var xs :- AllNative(vs);
      var v :- Decode(c, IrType.Bytes(len), xs);
      Some([v])
    case Bytes32IntoLowHigh(_, _, _) =>
      var bytes :- AsBytes32(c, vs[0]);
      Some(Natives([FromLeBytes(c.p, bytes[c.limbBytes := 0]), bytes[c.limbBytes]]))
    case Bytes32FromLowHigh(_, _, _) =>
      var low :- ToBytesOf(c, vs[0]);
      var high :- ToBytesOf(c, vs[1]);
      if low[c.limbBytes] != 0 || !AllZero(high[1..]) then None
      else Some([IrValue.Bytes(low[c.limbBytes := high[0]])])
    case LoadConstant(t, encoding, _) =>
      var v :- Decode(c, t, encoding);
      Some([v])
  }

  /** Values built by the same constructor, and by the same foreign field if they are foreign. */
  predicate SameVariant(a: IrValue, b: IrValue) {
    if a.Bytes? then b.Bytes? else TypeOf(a) == TypeOf(b)
  }
}
