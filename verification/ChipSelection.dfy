/**
  The chips that `used_chips` selects for a source by looking at its declarations, and what
  it takes for them to be enough.
 */
module ChipSelection {
  import opened Options
  import opened Types
  import opened Instructions

  datatype Arch = Arch(
    jubjub: bool, poseidon: bool, sha256: bool, sha512: bool, keccak256: bool,
    secp256k1: bool, p256: bool, curve25519: bool)
  {
    predicate Curve(curve: Curve) {
      match curve
      case Jubjub => jubjub
      case Secp256k1 => secp256k1
      case Secp256r1 => p256
      case Curve25519 => curve25519
    }

    predicate Hash(kind: HashKind) {
      match kind
      case Sha256 => sha256
      case Keccak256 => keccak256
      case Sha512 => sha512
    }
  }

  /** The curve whose chip a type needs. */
  function Family(t: IrType): Option<Curve> {
    match t
    case JubjubScalar => Some(Jubjub)
    case Point(curve) => Some(curve)
    case Foreign(f) =>
      if f.Secp256k1Base? || f.Secp256k1Scalar? then Some(Secp256k1)
      else if f.Secp256r1Base? || f.Secp256r1Scalar? then Some(Secp256r1)
      else Some(Curve25519)
    case _ => None
  }

  /** An instruction whose declared type `used_chips` looks at. */
  predicate IsEntry(ins: Instruction) {
    ins.PublicInput? || ins.PrivateInput? || ins.FromBytes? || ins.FromBytes32?
  }

  predicate Involves(src: IrSource, curve: Curve) {
    || (exists i :: 0 <= i < |src.inputs| && Family(src.inputs[i].valT) == Some(curve))
    || (exists i :: 0 <= i < |src.instructions| && IsEntry(src.instructions[i])
          && Family(src.instructions[i].valT) == Some(curve))
  }

  predicate HashesWith(src: IrSource, kind: HashKind) {
    exists i :: 0 <= i < |src.instructions| && src.instructions[i].AlignedHash? && src.instructions[i].kind == kind
  }

  predicate HashesTransiently(src: IrSource) {
    exists i :: 0 <= i < |src.instructions| && src.instructions[i].TransientHash?
  }

  function UsedChips(src: IrSource): Arch {
    Arch(Involves(src, Jubjub), src.doCommunicationsCommitment || HashesTransiently(src),
         HashesWith(src, Sha256), HashesWith(src, Sha512), HashesWith(src, Keccak256),
         Involves(src, Secp256k1), Involves(src, Secp256r1), Involves(src, Curve25519))
  }

  /** The type, if it needs a chip, has it. */
  predicate Enabled(arch: Arch, t: IrType) {
    Family(t).Some? ==> arch.Curve(Family(t).value)
  }

  datatype HashUse = Transient | Aligned(kind: HashKind)

  /** The hash function that an instruction computes, if any. */
  function HashOfInstruction(ins: Instruction): Option<HashUse> {
    if ins.TransientHash? then Some(Transient)
    else if ins.AlignedHash? then Some(Aligned(ins.kind))
    else None
  }

  predicate HashChip(arch: Arch, h: HashUse) {
    match h
    case Transient => arch.poseidon
    case Aligned(kind) => arch.Hash(kind)
  }

  /** A type that an instruction brings in from its own declaration rather than from its operands. */
  function Introduced(ins: Instruction): Option<IrType> {
    if IsEntry(ins) || ins.LoadConstant? then Some(ins.valT)
    else if ins.JubjubScalarFromNative? then Some(IrType.JubjubScalar)
    else None
  }

  /** The chips that an instruction calls whatever its operands are at hand. */
  predicate Supplied(arch: Arch, ins: Instruction) {
    && (Introduced(ins).Some? ==> Enabled(arch, Introduced(ins).value))
    && (HashOfInstruction(ins).Some? ==> HashChip(arch, HashOfInstruction(ins).value))
  }

  /** Every type that an instruction brings in has its chip. */
  predicate Covered(src: IrSource) {
    forall i :: 0 <= i < |src.instructions| && Introduced(src.instructions[i]).Some? ==>
      Enabled(UsedChips(src), Introduced(src.instructions[i]).value)
  }
}
