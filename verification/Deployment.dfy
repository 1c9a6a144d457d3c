/** The deployed machine: concrete orders and widths that meet every assumption of the theorems. */
module Deployment {
  import opened Options
  import opened Digits
  import opened Types
  import opened Typing
  import opened CircuitRun
  import opened PointEncoding
  import OpAgreement

  /** The orders of the foreign fields. */
  function ForeignOrder(f: ForeignField): Pos {
    match f
    case Secp256k1Base => 0xffffffff_ffffffff_ffffffff_ffffffff_ffffffff_ffffffff_fffffffe_fffffc2f
    case Secp256k1Scalar => 0xffffffff_ffffffff_ffffffff_fffffffe_baaedce6_af48a03b_bfd25e8c_d0364141
    case Secp256r1Base => 0xffffffff_00000001_00000000_00000000_00000000_ffffffff_ffffffff_ffffffff
    case Secp256r1Scalar => 0xffffffff_00000000_ffffffff_ffffffff_bce6faad_a7179e84_f3b9cac2_fc632551
    case Curve25519Base => 0x7fffffff_ffffffff_ffffffff_ffffffff_ffffffff_ffffffff_ffffffff_ffffffed
    case Curve25519Scalar => 0x10000000_00000000_00000000_00000000_14def9de_a2f79cd6_5812631a_5cf5d3ed
  }

  /** The parameter of BLS12-381, up to its sign. */
  const BLS_PARAMETER: nat := 0xd201_0000_0001_0000

  /** Two to the power of 256, and of 252. */
  const TWO_256: nat := 0x1_0000000000000000000000000000000000000000000000000000000000000000
  const TWO_252: nat := 0x1000000000000000000000000000000000000000000000000000000000000000

  /** The orders that have a closed form. */
  lemma OrdersInClosedForm()
    ensures NATIVE_ORDER == BLS_PARAMETER * BLS_PARAMETER * BLS_PARAMETER * BLS_PARAMETER
                            - BLS_PARAMETER * BLS_PARAMETER + 1
    ensures ForeignOrder(Secp256k1Base) == TWO_256 - 0x1_0000_0000 - 977
    ensures 2 * ForeignOrder(Curve25519Base) == TWO_256 - 38
    ensures ForeignOrder(Curve25519Scalar) == TWO_252 + 27742317777372353535851937790883648493
  {}

  /** Group orders are within the bound of Hasse: `|n - (q + 1)| <= 2 * sqrt(q)`, with the cofactor in `n`. */
  predicate WithinHasse(n: int, q: int) {
    (n - (q + 1)) * (n - (q + 1)) <= 4 * q
  }

  lemma OrdersWithinHasse()
    ensures WithinHasse(8 * JUBJUB_ORDER, NATIVE_ORDER)
    ensures WithinHasse(ForeignOrder(Secp256k1Scalar), ForeignOrder(Secp256k1Base))
    ensures WithinHasse(ForeignOrder(Secp256r1Scalar), ForeignOrder(Secp256r1Base))
    ensures WithinHasse(8 * ForeignOrder(Curve25519Scalar), ForeignOrder(Curve25519Base))
  {}

  /** The curves whose points are compressed, by their equations. */
  function Secp256k1Curve(): Weierstrass {
    Weierstrass(Field(ForeignOrder(Secp256k1Base), 32), 0, 7)
  }

  function P256Curve(): Weierstrass {
    Weierstrass(Field(ForeignOrder(Secp256r1Base), 32), -3,
                0x5ac635d8_aa3a93e7_b3ebbd55_769886bc_651d06b0_cc53b0f6_3bce3c3e_27d2604b)
  }

  function JubjubCurve(): Edwards {
    Edwards(Field(NATIVE_ORDER, 32), -1, 0x2a9318e7_4bfa2b48_f5fd9207_e6bd7fd4_292d7f6d_37579d26_01065fd6_d6343eb1)
  }

  /** Their generators satisfy them. */
  lemma GeneratorsOnCurves()
    ensures OnWeierstrass(Secp256k1Curve(), Finite(
              0x79be667e_f9dcbbac_55a06295_ce870b07_029bfcdb_2dce28d9_59f2815b_16f81798,
              0x483ada77_26a3c465_5da4fbfc_0e1108a8_fd17b448_a6855419_9c47d08f_fb10d4b8))
    ensures OnWeierstrass(P256Curve(), Finite(
              0x6b17d1f2_e12c4247_f8bce6e5_63a440f2_77037d81_2deb33a0_f4a13945_d898c296,
              0x4fe342e2_fe1a7f9b_8ee7eb4a_7c0f9e16_2bce3357_6b315ece_cbb64068_37bf51f5))
    ensures OnEdwards(JubjubCurve(),
              0x62edcbb8_bf3787c8_8b0f03dd_d60a8187_caf55d1b_29bf81af_e4b3d35d_f1a7adfe, 0xb)
  {}

  lemma OrdersFit(f: ForeignField)
    ensures 1 < ForeignOrder(f) < Pow(2, 256)
  {
    Pow240();
    LargePowers();
  }

  /** Two sets of parameters that store the same number of bytes per element. */
  predicate SameBytes(c: Params, d: Params) {
    c.limbBytes == d.limbBytes
  }

  lemma {:induction false} ChunksAlike(c: Params, d: Params, chunks: seq<nat>)
    requires SameBytes(c, d)
    ensures ChunkBytes(c, chunks) == ChunkBytes(d, chunks)
  {
    if chunks == [] {
    } else {
      ChunksAlike(c, d, chunks[..|chunks| - 1]);
    }
  }

  lemma AtomsAlike(c: Params, d: Params, atom: Atom, inputs: seq<nat>)
    requires SameBytes(c, d)
    ensures AtomBytes(c, atom, inputs) == AtomBytes(d, atom, inputs)
  {
    if atom.BytesAtom? {
      var stray, chunks := atom.length % c.limbBytes, atom.length / c.limbBytes;
      var head := if stray > 0 then 1 else 0;
      if |inputs| >= chunks + head { ChunksAlike(c, d, inputs[head..head + chunks]); }
    }
  }

  /** The circuit's reading of hash inputs depends on the number of bytes per element alone. */
  lemma {:induction false} AlignedAlike(c: Params, d: Params, alignment: Alignment, inputs: seq<nat>)
    requires SameBytes(c, d)
    ensures AlignedBytes(c, alignment, inputs) == AlignedBytes(d, alignment, inputs)
    decreases |alignment|
  {
    if alignment == [] {
    } else if alignment[0].AtomSegment? {
      AtomsAlike(c, d, alignment[0].atom, inputs);
      var r := AtomBytes(c, alignment[0].atom, inputs);
      if r.Some? { AlignedAlike(c, d, alignment[1..], r.value.1); }
    }
  }

  /** Parameters with the deployed numbers, some hash functions, and a library that reads hash inputs as given. */
  function Deployed(aligned: (Alignment, seq<nat>) -> Option<seq<nat>>): Params {
    Params(NATIVE_ORDER, 255, 31, JUBJUB_ORDER, 252, ForeignOrder, 192, 64,
           xs => 0, (kind, bytes) => Zeros(DigestLen(kind)), aligned)
  }

  /** The assumptions of the theorems hold together, at the deployed numbers. */
  lemma AssumptionsHoldTogether() returns (c: Params)
    ensures c.p == NATIVE_ORDER && c.frBits == 255 && c.ReprBytes() == 32
    ensures c.r == JUBJUB_ORDER && c.scalarBits == 252
    ensures c.order == ForeignOrder && c.lowBits == 192 && c.highBits == 64
    ensures c.Valid() && OpAgreement.AlignedAgrees(c)
  {
    var plain := Deployed((alignment, xs) => None);
    c := Deployed((alignment, xs) => AlignedBytes(plain, alignment, xs));
    forall f
      ensures 1 < c.order(f) < Pow(2, 256)
    {
      OrdersFit(f);
    }
    DeployedSizes(c);
    forall alignment, xs
      ensures AlignedBytes(c, alignment, xs) == c.alignedBytes(alignment, xs)
    {
      AlignedAlike(c, plain, alignment, xs);
    }
  }
}
