/**
  The instruction list of a circuit. Elliptic-curve instructions are not part of this
  model, and `Reverse` also stands for its deprecated name `ReverseBytes`.
 */
module Instructions {
  import opened Options
  import opened Types

  type Identifier = string

  datatype Operand = Variable(id: Identifier) | Immediate(imm: nat)

  datatype TypedIdentifier = TypedIdentifier(name: Identifier, valT: IrType)

  datatype Instruction =
    | Encode(input: Operand, outputs: seq<Identifier>)
    | Assert(cond: Operand)
    | CondSelect(bit: Operand, a: Operand, b: Operand, output: Identifier)
    | ConstrainBits(val: Operand, bits: nat)
    | ConstrainEq(a: Operand, b: Operand)
    | ConstrainToBoolean(val: Operand)
    | Copy(val: Operand, output: Identifier)
    | Impact(guard: Operand, inputs: seq<Operand>)
    | DivModPowerOfTwo(val: Operand, bits: nat, outputs: seq<Identifier>)
    | ReconstituteField(divisor: Operand, modulus: Operand, bits: nat, output: Identifier)
    | TransientHash(inputs: seq<Operand>, output: Identifier)
    | AlignedHash(kind: HashKind, alignment: Alignment, inputs: seq<Operand>, output: Identifier)
    | TestEq(a: Operand, b: Operand, output: Identifier)
    | Add(a: Operand, b: Operand, output: Identifier)
    | Mul(a: Operand, b: Operand, output: Identifier)
    | Neg(a: Operand, output: Identifier)
    | Inv(a: Operand, output: Identifier)
    | Not(a: Operand, output: Identifier)
    | And(inputs: seq<Operand>, output: Identifier)
    | Or(inputs: seq<Operand>, output: Identifier)
    | Xor(inputs: seq<Operand>, output: Identifier)
    | LessThan(a: Operand, b: Operand, bits: nat, output: Identifier)
    | JubjubScalarFromNative(native: Operand, output: Identifier)
    | PublicInput(readGuard: Option<Operand>, valT: IrType, output: Identifier)
    | PrivateInput(readGuard: Option<Operand>, valT: IrType, output: Identifier)
    | ToBytes(input: Operand, output: Identifier)
    | IntoBytes32(input: Operand, output: Identifier)
    | FromBytes(valT: IrType, bytes: Operand, output: Identifier)
    | FromBytes32(valT: IrType, bytes: Operand, output: Identifier)
    | Reverse(bytes: Operand, output: Identifier)
    | Slice(bytes: Operand, start: nat, len: nat, output: Identifier)
    | Nth(bytes: Operand, index: nat, output: Identifier)
    | Concat(inputs: seq<Operand>, output: Identifier)
    | BytesIntoNatives(bytes: Operand, outputs: seq<Identifier>)
    | BytesFromNatives(inputs: seq<Operand>, len: nat, output: Identifier)
    | Bytes32IntoLowHigh(bytes: Operand, lowOut: Identifier, highOut: Identifier)
    | Bytes32FromLowHigh(low: Operand, high: Operand, output: Identifier)
    | LoadConstant(valT: IrType, encoding: seq<nat>, output: Identifier)
    | Output(vals: seq<Operand>)
  {
    /** Whether the instruction only computes values from its operands. */
    predicate Computes() {
      !Impact? && !PublicInput? && !PrivateInput? && !Output?
    }

    /** The operands, in the order in which they are resolved. */
    function Args(): seq<Operand> {
      match this
      case Encode(x, _) => [x]
      case Assert(x) => [x]
      case CondSelect(bit, a, b, _) => [bit, a, b]
      case ConstrainBits(x, _) => [x]
      case ConstrainEq(a, b) => [a, b]
      case ConstrainToBoolean(x) => [x]
      case Copy(x, _) => [x]
      case Impact(g, xs) => [g] + xs
      case DivModPowerOfTwo(x, _, _) => [x]
      case ReconstituteField(d, m, _, _) => [d, m]
      case TransientHash(xs, _) => xs
      case AlignedHash(_, _, xs, _) => xs
      case TestEq(a, b, _) => [a, b]
      case Add(a, b, _) => [a, b]
      case Mul(a, b, _) => [a, b]
      case Neg(a, _) => [a]
      case Inv(a, _) => [a]
      case Not(a, _) => [a]
      case And(xs, _) => xs
      case Or(xs, _) => xs
      case Xor(xs, _) => xs
      case LessThan(a, b, _, _) => [a, b]
      case JubjubScalarFromNative(x, _) => [x]
      case PublicInput(_, _, _) => []
      case PrivateInput(_, _, _) => []
      case ToBytes(x, _) => [x]
      case IntoBytes32(x, _) => [x]
      case FromBytes(_, x, _) => [x]
      case FromBytes32(_, x, _) => [x]
      case Reverse(x, _) => [x]
      case Slice(x, _, _, _) => [x]
      case Nth(x, _, _) => [x]
      case Concat(xs, _) => xs
      case BytesIntoNatives(x, _) => [x]
      case BytesFromNatives(xs, _, _) => xs
      case Bytes32IntoLowHigh(x, _, _) => [x]
      case Bytes32FromLowHigh(low, high, _) => [low, high]
      case LoadConstant(_, _, _) => []
      case Output(xs) => xs
    }

    /** The identifiers written, in order. */
    function Outs(): seq<Identifier> {
      match this
      case Encode(_, os) => os
      case Assert(_) => []
      case ConstrainBits(_, _) => []
      case ConstrainEq(_, _) => []
      case ConstrainToBoolean(_) => []
      case Impact(_, _) => []
      case DivModPowerOfTwo(_, _, os) => os
      case BytesIntoNatives(_, os) => os
      case Bytes32IntoLowHigh(_, l, h) => [l, h]
      case Output(_) => []
      case _ => [output]
    }
  }

  datatype IrSource = IrSource(
    inputs: seq<TypedIdentifier>,
    outputs: seq<IrType>,
    doCommunicationsCommitment: bool,
    instructions: seq<Instruction>)

  function InputNames(inputs: seq<TypedIdentifier>): (names: seq<Identifier>)
    ensures |names| == |inputs|
  {
    seq(|inputs|, i requires 0 <= i < |inputs| => inputs[i].name)
  }

  /** An instruction that takes a value from a transcript. */
  predicate IsRead(ins: Instruction) {
    ins.PublicInput? || ins.PrivateInput?
  }

  /** The identifiers that a list of instructions writes, in order. */
  function Written(instructions: seq<Instruction>): seq<Identifier> {
    if instructions == [] then [] else instructions[0].Outs() + Written(instructions[1..])
  }

  predicate Distinct<T(==)>(xs: seq<T>) {
    forall i, j :: 0 <= i < j < |xs| ==> xs[i] != xs[j]
  }

  /** No identifier is bound twice, whether by an input or by an instruction. */
  predicate SingleAssignment(src: IrSource) {
    Distinct(InputNames(src.inputs) + Written(src.instructions))
  }
}
