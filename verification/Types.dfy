/** Types and values of the virtual machine, and the sizes everything else is relative to. */
module Types {
  import opened Options
  import opened Digits

  /** The largest length of a byte string type. */
  const MAX_BYTES_LEN: nat := 0x100_0000

  datatype Curve = Jubjub | Secp256k1 | Secp256r1 | Curve25519

  datatype ForeignField =
    | Secp256k1Base | Secp256k1Scalar
    | Secp256r1Base | Secp256r1Scalar
    | Curve25519Base | Curve25519Scalar

  datatype IrType =
    | Native
    | Bool
    | Byte
    | Bytes(n: nat)
    | JubjubScalar
    | Foreign(field: ForeignField)
    | Point(curve: Curve)

  /** Values that both runs compute on. Points have types but no values here. */
  datatype IrValue =
    | Native(x: nat)
    | Bool(b: bool)
    | Byte(byte: nat)
    | Bytes(bytes: seq<nat>)
    | JubjubScalar(s: nat)
    | Foreign(field: ForeignField, elem: nat)

  datatype HashKind = Sha256 | Keccak256 | Sha512

  datatype Atom = FieldAtom | BytesAtom(length: nat) | CompressAtom

  datatype Segment = AtomSegment(atom: Atom) | OptionSegment

  type Alignment = seq<Segment>

  /**
    Everything the repository takes from its libraries: the native field of order `p`,
    which needs `frBits` bits and stores `limbBytes` whole bytes per element, the order
    `r` of the Jubjub scalars, the foreign orders with the widths of their two encoded
    limbs, and the hash functions, which stay arbitrary. In the deployed machine
    `frBits` is 255, `limbBytes` is 31 and `ReprBytes()` is 32.
   */
  datatype Params = Params(
    p: Pos, frBits: nat, limbBytes: Pos,
    r: Pos, scalarBits: nat,
    order: ForeignField -> Pos, lowBits: nat, highBits: nat,
    poseidon: seq<nat> -> nat,
    digest: (HashKind, seq<nat>) -> seq<nat>,
    alignedBytes: (Alignment, seq<nat>) -> Option<seq<nat>>)
  {
    /** The number of bytes that a native field element is written in. */
    function ReprBytes(): nat {
      limbBytes + 1
    }

    ghost predicate Sizes() {
      && 8 * limbBytes < frBits <= 8 * ReprBytes()
      && Pow(2, frBits - 1) < p < Pow(2, frBits)
      && 1 < r <= p && r <= Pow(2, scalarBits)
      && lowBits < frBits && highBits < frBits
      && forall f :: 1 < order(f) <= Pow(2, lowBits + highBits) && order(f) <= Pow(256, ReprBytes())
    }

    ghost predicate Hashes() {
      && (forall xs :: poseidon(xs) < p)
      && forall k, xs :: |digest(k, xs)| == DigestLen(k) && IsDigits(digest(k, xs), 256)
    }

    ghost predicate Valid() {
      Sizes() && Hashes()
    }

    /** What the source's type `Fr` guarantees of each element. */
    predicate FieldElements(xs: seq<nat>) {
      IsDigits(xs, p)
    }
  }

  function DigestLen(k: HashKind): nat {
    if k.Sha512? then 64 else 32
  }

  function CeilDiv(n: nat, k: Pos): nat {
    (n + k - 1) / k
  }

  function EncodedLen(c: Params, t: IrType): nat {
    match t
    case Native => 1
    case Bool => 1
    case Byte => 1
    case Bytes(n) => CeilDiv(n, c.limbBytes)
    case JubjubScalar => 1
    case Foreign(_) => 2
    case Point(Jubjub) => 2
    case Point(Curve25519) => 4
    case Point(_) => 5
  }

  function TypeOf(v: IrValue): IrType {
    match v
    case Native(_) => IrType.Native
    case Bool(_) => IrType.Bool
    case Byte(_) => IrType.Byte
    case Bytes(bs) => IrType.Bytes(|bs|)
    case JubjubScalar(_) => IrType.JubjubScalar
    case Foreign(f, _) => IrType.Foreign(f)
  }

  function TypesOf(vs: seq<IrValue>): (ts: seq<IrType>)
    ensures |ts| == |vs|
  {
    seq(|vs|, i requires 0 <= i < |vs| => TypeOf(vs[i]))
  }

  function Default(t: IrType): Option<IrValue> {
    match t
    case Native => Some(IrValue.Native(0))
    case Bool => Some(IrValue.Bool(false))
    case Byte => Some(IrValue.Byte(0))
    case Bytes(n) => Some(IrValue.Bytes(Zeros(n)))
    case JubjubScalar => Some(IrValue.JubjubScalar(0))
    case Foreign(f) => Some(IrValue.Foreign(f, 0))
    case Point(_) => None
  }

  /** What the Rust types guarantee: numbers below their modulus, bytes below 256. */
  predicate ValidValue(c: Params, v: IrValue) {
    match v
    case Native(x) => x < c.p
    case Bool(_) => true
    case Byte(b) => b < 256
    case Bytes(bs) => IsDigits(bs, 256)
    case JubjubScalar(s) => s < c.r
    case Foreign(f, x) => x < c.order(f)
  }

  predicate ValidValues(c: Params, vs: seq<IrValue>) {
    forall i :: 0 <= i < |vs| ==> ValidValue(c, vs[i])
  }

  // ----- consequences of the sizes -----

  lemma FieldHoldsLimb(c: Params)
    requires c.Sizes()
    ensures 256 <= Pow(256, c.limbBytes) < c.p < Pow(256, c.ReprBytes())
  {
    PowOfPow(c.limbBytes);
    PowOfPow(c.ReprBytes());
    PowMono(2, 8 * c.limbBytes, c.frBits - 1);
    PowMono(2, c.frBits, 8 * c.ReprBytes());
    PowMono(256, 1, c.limbBytes);
    assert Pow(256, 1) == 256 * Pow(256, 0);
  }

  lemma FieldHoldsBits(c: Params, n: nat)
    requires c.Sizes() && n < c.frBits
    ensures Pow(2, n) < c.p
  {
    PowMono(2, n, c.frBits - 1);
  }

  lemma ScalarFitsBytes(c: Params)
    requires c.Sizes()
    ensures c.r < Pow(256, c.ReprBytes())
  {
    FieldHoldsLimb(c);
  }

  // ----- the deployed sizes -----

  /** The order of the BLS12-381 scalar field, and that of the Jubjub scalar field. */
  const NATIVE_ORDER: Pos := 0x73eda753299d7d483339d80809a1d80553bda402fffe5bfeffffffff00000001
  const JUBJUB_ORDER: Pos := 0x0e7db4ea6533afa906673b0101343b00a6682093ccc81082d0970e5ed6f72cb7

  lemma Squared(k: nat, v: nat)
    requires Pow(2, k) == v
    ensures Pow(2, 2 * k) == v * v
  {
    PowAdd(2, k, k);
  }

  lemma Pow128()
    ensures Pow(2, 16) == 0x1_0000 && Pow(2, 32) == 0x1_0000_0000 && Pow(2, 64) == 0x1_0000_0000_0000_0000
    ensures Pow(2, 128) == 0x1_0000_0000_0000_0000_0000_0000_0000_0000
  {
    assert Pow(2, 8) == 0x100;
    Squared(8, 0x100);
    Squared(16, 0x1_0000);
    Squared(32, 0x1_0000_0000);
    Squared(64, 0x1_0000_0000_0000_0000);
  }

  lemma Times(i: nat, j: nat, u: nat, v: nat)
    requires Pow(2, i) == u && Pow(2, j) == v
    ensures Pow(2, i + j) == u * v
  {
    PowAdd(2, i, j);
  }

  lemma Pow240()
    ensures Pow(2, 240) == 0x1_0000_0000_0000_0000_0000_0000_0000_0000_0000_0000_0000_0000_0000_0000_0000
  {
    Pow128();
    Times(128, 64, Pow(2, 128), Pow(2, 64));
    Times(192, 32, Pow(2, 192), Pow(2, 32));
    Times(224, 16, Pow(2, 224), Pow(2, 16));
  }

  lemma LargePowers()
    ensures Pow(2, 252) == 0x1000 * Pow(2, 240) && Pow(2, 254) == 0x4000 * Pow(2, 240)
    ensures Pow(2, 255) == 0x8000 * Pow(2, 240) && Pow(2, 256) == 0x1_0000 * Pow(2, 240)
  {
    assert Pow(2, 4) == 0x10 && Pow(2, 6) == 0x40 && Pow(2, 7) == 0x80 && Pow(2, 8) == 0x100;
    Times(8, 4, 0x100, 0x10);
    Times(8, 6, 0x100, 0x40);
    Times(8, 7, 0x100, 0x80);
    Times(8, 8, 0x100, 0x100);
    PowAdd(2, 12, 240);
    PowAdd(2, 14, 240);
    PowAdd(2, 15, 240);
    PowAdd(2, 16, 240);
  }

  /** The sizes are not idle: 255-bit elements in 31 whole bytes, over the deployed fields, have them. */
  lemma DeployedSizes(c: Params)
    requires c.p == NATIVE_ORDER && c.frBits == 255 && c.limbBytes == 31
    requires c.r == JUBJUB_ORDER && c.scalarBits >= 252
    requires c.lowBits < 255 && c.highBits < 255 && c.lowBits + c.highBits >= 256
    requires forall f :: 1 < c.order(f) < Pow(2, 256)
    ensures c.Sizes()
  {
    Pow240();
    LargePowers();
    PowMono(2, 252, c.scalarBits);
    PowMono(2, 256, c.lowBits + c.highBits);
    PowOfPow(32);
  }
}
