/**
  The two meanings of a computing instruction agree: where the static check accepts the
  types of the operands and the interpreter succeeds, the circuit forces the same results,
  and they have the types that the check computed.
 */
module OpAgreement {
  import opened Options
  import opened Digits
  import opened Types
  import opened Instructions
  import opened Operations
  import opened Typing
  import Bits
  import Encoding
  import Circuit
  import CircuitRun
  import OpSoundness
  import Reconstitution

  /**
    The one assumption about code outside the repository: on the alignments that circuits
    support, the library reads hash inputs as the circuit does.
   */
  ghost predicate AlignedAgrees(c: Params) {
    forall alignment, xs ::
      AlignedUses(c, alignment).Some? && c.alignedBytes(alignment, xs).Some? ==>
        CircuitRun.AlignedBytes(c, alignment, xs) == c.alignedBytes(alignment, xs)
  }

  /** Only instructions that hash aligned inputs need the assumption. */
  ghost predicate HashesAgree(c: Params, todo: seq<Instruction>) {
    forall i :: 0 <= i < |todo| && todo[i].AlignedHash? ==> AlignedAgrees(c)
  }

  /** Well-typed operands on which the interpreter succeeds. */
  ghost predicate Accepted(c: Params, ins: Instruction, vs: seq<IrValue>) {
    && c.Valid() && ValidValues(c, vs) && ins.Computes() && |vs| == |ins.Args()|
    && OpType(c, ins, TypesOf(vs)).Some? && Apply(c, ins, vs).Some?
  }

  ghost predicate Agree(c: Params, ins: Instruction, vs: seq<IrValue>)
    requires Accepted(c, ins, vs)
  {
    var rs := Apply(c, ins, vs).value;
    CircuitRun.CircuitApply(c, ins, vs) == Some(rs) && TypesOf(rs) == OpType(c, ins, TypesOf(vs)).value
        && ValidValues(c, rs)
  }

  lemma Few(vs: seq<IrValue>)
    ensures |vs| == 0 ==> TypesOf(vs) == []
    ensures |vs| == 1 ==> TypesOf(vs) == [TypeOf(vs[0])]
    ensures |vs| == 2 ==> TypesOf(vs) == [TypeOf(vs[0]), TypeOf(vs[1])]
  {}

  lemma NativeList(c: Params, xs: seq<nat>)
    requires c.FieldElements(xs)
    ensures TypesOf(Natives(xs)) == Repeat(IrType.Native, |xs|) && ValidValues(c, Natives(xs))
  {}

  lemma BitValid(c: Params, b: bool)
    requires c.Sizes()
    ensures ValidValue(c, FromBit(b))
  {
    FieldHoldsLimb(c);
  }

  lemma OfElemValid(c: Params, t: IrType, x: nat)
    requires Modulus(c, t).Some? && x < Modulus(c, t).value
    ensures ValidValue(c, OfElem(t, x)) && TypeOf(OfElem(t, x)) == t
  {}

  lemma AssertAgrees(c: Params, ins: Instruction, vs: seq<IrValue>)
    requires Accepted(c, ins, vs) && (ins.Assert? || ins.ConstrainToBoolean? || ins.ConstrainEq?)
    ensures Agree(c, ins, vs)
  {
    Few(Apply(c, ins, vs).value);
  }

  lemma BitsAgree(c: Params, ins: Instruction, vs: seq<IrValue>)
    requires Accepted(c, ins, vs) && (ins.ConstrainBits? || ins.LessThan?)
    ensures Agree(c, ins, vs)
  {
    Few(Apply(c, ins, vs).value);
    Bits.BoundedBitsVal(c, vs[0].x, ins.bits);
    if ins.LessThan? {
      Bits.BoundedBitsVal(c, vs[1].x, ins.bits);
      PowMono(2, ins.bits, Circuit.RoundedBits(ins.bits));
      BitValid(c, vs[0].x < vs[1].x);
    }
  }

  lemma SplitAgrees(c: Params, x: nat, bits: nat)
    requires c.Sizes() && x < c.p && bits <= 8 * c.limbBytes
    ensures var xs := [Bits.FromBits(c, Bits.FieldBits(c, x)[bits..]), Bits.FromBits(c, Bits.FieldBits(c, x)[..bits])];
            xs == [x / Pow(2, bits), x % Pow(2, bits)] && c.FieldElements(xs)
  {
    Bits.SplitBits(c, x, bits);
    Bits.DivModBelow(x, Pow(2, bits));
  }

  lemma DivModAgrees(c: Params, ins: Instruction, vs: seq<IrValue>)
    requires Accepted(c, ins, vs) && ins.DivModPowerOfTwo?
    ensures Agree(c, ins, vs)
  {
    SplitAgrees(c, vs[0].x, ins.bits);
    NativeList(c, [vs[0].x / Pow(2, ins.bits), vs[0].x % Pow(2, ins.bits)]);
  }

  lemma ArithAgrees(c: Params, ins: Instruction, vs: seq<IrValue>)
    requires Accepted(c, ins, vs) && (ins.Add? || ins.Mul?)
    ensures Agree(c, ins, vs)
  {
    var m := Modulus(c, TypeOf(vs[0])).value;
    OfElemValid(c, TypeOf(vs[0]), (Elem(vs[0]) + Elem(vs[1])) % m);
    OfElemValid(c, TypeOf(vs[0]), (Elem(vs[0]) * Elem(vs[1])) % m);
  }

  lemma UnaryAgrees(c: Params, ins: Instruction, vs: seq<IrValue>)
    requires Accepted(c, ins, vs) && (ins.Neg? || ins.Inv?)
    ensures Agree(c, ins, vs)
  {
    if !vs[0].Bool? {
      var t := TypeOf(vs[0]);
      var m := Modulus(c, t).value;
      if ins.Neg? {
        OfElemValid(c, t, NegMod(m, Elem(vs[0])));
      } else {
        OpSoundness.InvertIsInverse(m, Elem(vs[0]), 0);
        OfElemValid(c, t, Invert(m, Elem(vs[0]), 0).value);
      }
    }
  }

  lemma ChoiceAgrees(c: Params, ins: Instruction, vs: seq<IrValue>)
    requires Accepted(c, ins, vs) && (ins.CondSelect? || ins.Copy? || ins.Not? || ins.TestEq?)
    ensures Agree(c, ins, vs)
  {
    Few(Apply(c, ins, vs).value);
    BitValid(c, true);
    BitValid(c, false);
  }

  lemma GatesAgree(c: Params, ins: Instruction, vs: seq<IrValue>)
    requires Accepted(c, ins, vs) && (ins.And? || ins.Or? || ins.Xor?)
    ensures Agree(c, ins, vs)
  {
    Few(Apply(c, ins, vs).value);
  }

  lemma HashOpsAgree(c: Params, ins: Instruction, vs: seq<IrValue>)
    requires Accepted(c, ins, vs) && (ins.TransientHash? || (ins.AlignedHash? && AlignedAgrees(c)))
    ensures Agree(c, ins, vs)
  {
    Few(Apply(c, ins, vs).value);
  }

  lemma ToBytesAgrees(c: Params, ins: Instruction, vs: seq<IrValue>)
    requires Accepted(c, ins, vs) && (ins.ToBytes? || ins.IntoBytes32?)
    ensures Agree(c, ins, vs)
  {
    Few(Apply(c, ins, vs).value);
  }

  lemma FromBytesAgrees(c: Params, ins: Instruction, vs: seq<IrValue>)
    requires Accepted(c, ins, vs) && (ins.FromBytes? || ins.FromBytes32? || ins.JubjubScalarFromNative?)
    ensures Agree(c, ins, vs)
  {
    Few(Apply(c, ins, vs).value);
  }

  lemma {:induction false} ConcatValid(c: Params, vs: seq<IrValue>)
    requires ValidValues(c, vs) && ConcatOf(vs).Some?
    ensures IsDigits(ConcatOf(vs).value, 256)
    ensures ConcatLen(TypesOf(vs)) == Some(|ConcatOf(vs).value|)
  {
    if vs == [] {
    } else {
      assert TypesOf(vs)[1..] == TypesOf(vs[1..]);
      ConcatValid(c, vs[1..]);
    }
  }

  lemma StringsAgree(c: Params, ins: Instruction, vs: seq<IrValue>)
    requires Accepted(c, ins, vs) && (ins.Reverse? || ins.Slice? || ins.Nth?)
    ensures Agree(c, ins, vs)
  {
    Few(Apply(c, ins, vs).value);
  }

  lemma ConcatAgrees(c: Params, ins: Instruction, vs: seq<IrValue>)
    requires Accepted(c, ins, vs) && ins.Concat?
    ensures Agree(c, ins, vs)
  {
    Few(Apply(c, ins, vs).value);
    ConcatValid(c, vs);
  }

  lemma PackingAgrees(c: Params, ins: Instruction, vs: seq<IrValue>)
    requires Accepted(c, ins, vs) && (ins.Encode? || ins.BytesIntoNatives?)
    ensures Agree(c, ins, vs)
  {
    Encoding.EncodeShape(c, vs[0]);
    NativeList(c, Encoding.Encode(c, vs[0]));
  }

  lemma {:induction false} AllNativeElements(c: Params, vs: seq<IrValue>)
    requires ValidValues(c, vs) && AllNative(vs).Some?
    ensures c.FieldElements(AllNative(vs).value) && |AllNative(vs).value| == |vs|
  {
    if vs == [] {
    } else {
      AllNativeElements(c, vs[1..]);
    }
  }

  lemma DecodingAgrees(c: Params, ins: Instruction, vs: seq<IrValue>)
    requires Accepted(c, ins, vs) && (ins.BytesFromNatives? || ins.LoadConstant?)
    requires ins.LoadConstant? ==> c.FieldElements(ins.encoding)
    ensures Agree(c, ins, vs)
  {
    var rs := Apply(c, ins, vs).value;
    Few(rs);
    if ins.LoadConstant? {
      Encoding.DecodeIsExactInverse(c, ins.valT, ins.encoding, rs[0]);
    } else {
      AllNativeElements(c, vs);
      Encoding.DecodeIsExactInverse(c, IrType.Bytes(ins.len), AllNative(vs).value, rs[0]);
    }
  }

  lemma LowHighAgrees(c: Params, ins: Instruction, vs: seq<IrValue>)
    requires Accepted(c, ins, vs) && (ins.Bytes32IntoLowHigh? || ins.Bytes32FromLowHigh?)
    ensures Agree(c, ins, vs)
  {
    var rs := Apply(c, ins, vs).value;
    Few(rs);
    FieldHoldsLimb(c);
  }

  lemma ReconstituteAgrees(c: Params, ins: Instruction, vs: seq<IrValue>)
    requires Accepted(c, ins, vs) && ins.ReconstituteField?
    ensures Agree(c, ins, vs)
  {
    var x := Reconstitute(c, vs[0].x, vs[1].x, ins.bits).value;
    ReconstituteBothWays(c, ins, vs[0].x, vs[1].x, vs, x);
    Few([IrValue.Native(x)]);
  }

  lemma ReconstituteBothWays(c: Params, ins: Instruction, d: nat, m: nat, vs: seq<IrValue>, x: nat)
    requires c.Sizes() && d < c.p && m < c.p && ins.ReconstituteField? && vs == [IrValue.Native(d), IrValue.Native(m)]
    requires Reconstitute(c, d, m, ins.bits) == Some(x)
    ensures x < c.p && Apply(c, ins, vs) == Some([IrValue.Native(x)])
    ensures CircuitRun.CircuitApply(c, ins, vs) == Some([IrValue.Native(x)])
  {
    Reconstitution.OffCircuitAccepts(c, d, m, ins.bits);
  }

  lemma OpAgrees(c: Params, ins: Instruction, vs: seq<IrValue>)
    requires Accepted(c, ins, vs) && (ins.AlignedHash? ==> AlignedAgrees(c))
    requires ins.LoadConstant? ==> c.FieldElements(ins.encoding)
    ensures Agree(c, ins, vs)
  {
    if ins.Assert? || ins.ConstrainToBoolean? || ins.ConstrainEq? { AssertAgrees(c, ins, vs); }
    else if ins.ConstrainBits? || ins.LessThan? { BitsAgree(c, ins, vs); }
    else if ins.DivModPowerOfTwo? { DivModAgrees(c, ins, vs); }
    else if ins.ReconstituteField? { ReconstituteAgrees(c, ins, vs); }
    else if ins.Add? || ins.Mul? { ArithAgrees(c, ins, vs); }
    else if ins.Neg? || ins.Inv? { UnaryAgrees(c, ins, vs); }
    else if ins.CondSelect? || ins.Copy? || ins.Not? || ins.TestEq? { ChoiceAgrees(c, ins, vs); }
    else if ins.And? || ins.Or? || ins.Xor? { GatesAgree(c, ins, vs); }
    else if ins.TransientHash? || ins.AlignedHash? { HashOpsAgree(c, ins, vs); }
    else if ins.ToBytes? || ins.IntoBytes32? { ToBytesAgrees(c, ins, vs); }
    else if ins.FromBytes? || ins.FromBytes32? || ins.JubjubScalarFromNative? { FromBytesAgrees(c, ins, vs); }
    else if ins.Reverse? || ins.Slice? || ins.Nth? { StringsAgree(c, ins, vs); }
    else if ins.Concat? { ConcatAgrees(c, ins, vs); }
    else if ins.Encode? || ins.BytesIntoNatives? { PackingAgrees(c, ins, vs); }
    else if ins.BytesFromNatives? || ins.LoadConstant? { DecodingAgrees(c, ins, vs); }
    else { LowHighAgrees(c, ins, vs); }
  }

  /** The results of the interpreter alone have the types of the check, whatever the library does. */
  lemma ResultsTyped(c: Params, ins: Instruction, vs: seq<IrValue>)
    requires Accepted(c, ins, vs) && (ins.LoadConstant? ==> c.FieldElements(ins.encoding))
    ensures var rs := Apply(c, ins, vs).value;
            TypesOf(rs) == OpType(c, ins, TypesOf(vs)).value && ValidValues(c, rs)
  {
    if ins.AlignedHash? {
      Few(Apply(c, ins, vs).value);
    } else {
      OpAgrees(c, ins, vs);
    }
  }
}
