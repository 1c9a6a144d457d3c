/**
  Bytes and prime-field elements. Byte strings of any length are read as little-endian
  integers and reduced; elements are written at a fixed width. The deprecated low/high pair
  of instructions is the packing at that width.
 */
module ByteConversions {
  import opened Options
  import opened Digits
  import opened Types
  import opened Instructions
  import opened Operations
  import Encoding
  import OpSoundness

  // ----- reduction -----

  /** The little-endian bytes of an integer without trailing zeros; zero is one byte. */
  function MinimalBytes(n: nat): (bs: seq<nat>)
    ensures IsDigits(bs, 256) && |bs| >= 1
  {
    if n < 256 then [n] else [n % 256] + MinimalBytes(n / 256)
  }

  lemma {:induction false} MinimalBytesOf(n: nat, k: nat)
    requires k >= 1 && n < Pow(256, k)
    ensures Val(MinimalBytes(n), 256) == n && |MinimalBytes(n)| <= k
    decreases k
  {
    if n < 256 {
      ValSingle(n, 256);
    } else {
      assert Pow(256, 1) == 256 * Pow(256, 0);
      QuotientBound(n, 256, Pow(256, k - 1));
      MinimalBytesOf(n / 256, k - 1);
      assert MinimalBytes(n)[1..] == MinimalBytes(n / 256);
    }
  }

  /**
    `from_le_bytes_with_reduction`: the remainder of the integer is written out again, the
    bytes are padded in place to the width of the field, and read back as an element.
   */
  method FromLeBytesWithReduction(m: Pos, numBytes: nat, bytes: seq<nat>) returns (r: nat)
    requires 1 <= numBytes && m <= Pow(256, numBytes)
    ensures r < m && r == FromLeBytes(m, bytes)
  {
    var rem := Val(bytes, 256) % m;
    var remBytes := MinimalBytes(rem);
    MinimalBytesOf(rem, numBytes);
    while |remBytes| < numBytes
      invariant |remBytes| <= numBytes && Val(remBytes, 256) == rem
    {
      PadVal(remBytes);
      remBytes := remBytes + [0];
    }
    r := Val(remBytes, 256);
  }

  lemma PadVal(bs: seq<nat>)
    ensures Val(bs + [0], 256) == Val(bs, 256)
  {
    ValAppend(bs, [0], 256);
    ValSingle(0, 256);
  }

  lemma Widths(c: Params, t: IrType)
    requires c.Sizes() && Modulus(c, t).Some?
    ensures Modulus(c, t).value <= Pow(256, c.ReprBytes())
  {
    FieldHoldsLimb(c);
    ScalarFitsBytes(c);
  }

  /** The integer read back from `to_bytes(from_bytes(bs))` is that of `bs`, reduced. */
  lemma ToBytesOfFromBytes(c: Params, t: IrType, bytes: seq<nat>)
    requires c.Sizes() && Modulus(c, t).Some?
    ensures FromBytesOf(c, t, bytes).Some? && ToBytesOf(c, FromBytesOf(c, t, bytes).value).Some?
    ensures var out := ToBytesOf(c, FromBytesOf(c, t, bytes).value).value;
            && |out| == c.ReprBytes() && IsDigits(out, 256)
            && Val(out, 256) == Val(bytes, 256) % Modulus(c, t).value
  {
    Widths(c, t);
    ValDigits(Val(bytes, 256) % Modulus(c, t).value, 256, c.ReprBytes());
  }

  /** Writing the integer of a byte string at a larger width pads it with zeros. */
  lemma PaddedDigits(bytes: seq<nat>, k: nat)
    requires IsDigits(bytes, 256) && |bytes| <= k
    ensures DigitsOf(Val(bytes, 256), 256, k) == bytes + Zeros(k - |bytes|)
  {
    var zeros := Zeros(k - |bytes|);
    ValZeros(|zeros|, 256);
    ValAppend(bytes, zeros, 256);
    assert Pow(256, |bytes|) * 0 == 0;
    DigitsVal(bytes + zeros, 256);
  }

  /** On integers below the order it is the identity, up to zero padding. */
  lemma CanonicalBytesReturn(c: Params, t: IrType, bytes: seq<nat>)
    requires c.Sizes() && Modulus(c, t).Some? && IsDigits(bytes, 256) && |bytes| <= c.ReprBytes()
    requires Val(bytes, 256) < Modulus(c, t).value
    ensures ToBytesOf(c, FromBytesOf(c, t, bytes).value) == Some(bytes + Zeros(c.ReprBytes() - |bytes|))
  {
    var x := Val(bytes, 256);
    ModSmall(x, Modulus(c, t).value);
    OfElemBack(c, t, x);
    assert FromBytesOf(c, t, bytes) == Some(OfElem(t, x));
    PaddedDigits(bytes, c.ReprBytes());
  }

  lemma OfElemBack(c: Params, t: IrType, x: nat)
    requires Modulus(c, t).Some?
    ensures ToBytesOf(c, OfElem(t, x)) == Some(DigitsOf(x, 256, c.ReprBytes()))
  {}

  /** Writing an element and reading it back returns it. */
  lemma FromBytesOfToBytes(c: Params, v: IrValue)
    requires c.Sizes() && ValidValue(c, v) && Modulus(c, TypeOf(v)).Some?
    ensures FromBytesOf(c, TypeOf(v), ToBytesOf(c, v).value) == Some(v)
  {
    Widths(c, TypeOf(v));
    ValDigits(Elem(v), 256, c.ReprBytes());
    ModSmall(Elem(v), Modulus(c, TypeOf(v)).value);
  }

  /** Reading a concatenation: the second part weighs 256 to the length of the first. */
  lemma FromBytesAppend(m: Pos, us: seq<nat>, vs: seq<nat>)
    ensures FromLeBytes(m, us + vs) == (FromLeBytes(m, us) + Pow(256, |us|) * FromLeBytes(m, vs)) % m
  {
    ValAppend(us, vs, 256);
    var x, y, w := Val(us, 256), Val(vs, 256), Pow(256, |us|);
    ModSum(x, w, y, m);
  }

  lemma ModSum(x: nat, w: nat, y: nat, m: Pos)
    ensures (x + w * y) % m == (x % m + w * (y % m)) % m
  {
    ModMul(y, w, m);
    assert w * (y % m) == y % m * w && w * y == y * w;
    ModAdd(x, w * y, m);
    ModAdd(w * y, x % m, m);
    ModAdd(w * (y % m), x % m, m);
  }

  // ----- the deprecated pair of natives -----

  /** `Bytes32IntoLowHigh` is `BytesIntoNatives` at the width of a field element. */
  lemma LowHighIsPacking(c: Params, bytes: seq<nat>)
    requires c.Sizes() && |bytes| == c.ReprBytes() && IsDigits(bytes, 256)
    ensures Encoding.PackBytes(c, bytes) == [FromLeBytes(c.p, bytes[c.limbBytes := 0]), bytes[c.limbBytes]]
  {
    var n := c.limbBytes as int;
    var low, top := bytes[..n], bytes[n..];
    assert top == [bytes[n]];
    ValSingle(bytes[n], 256);
    assert bytes[n := 0] == low + [0];
    PadVal(low);
    ValBound(low, 256);
    FieldHoldsLimb(c);
    ModSmall(Val(low, 256), c.p);
  }

  lemma IntoLowHighIsIntoNatives(c: Params, x: Operand, l: Identifier, h: Identifier, os: seq<Identifier>, v: IrValue)
    requires c.Sizes() && ValidValue(c, v) && TypeOf(v) == IrType.Bytes(c.ReprBytes())
    ensures Apply(c, Bytes32IntoLowHigh(x, l, h), [v]) == Apply(c, BytesIntoNatives(x, os), [v])
  {
    LowHighApplied(c, x, l, h, v);
    PackingApplied(c, x, os, v);
  }

  lemma PackingApplied(c: Params, x: Operand, os: seq<Identifier>, v: IrValue)
    requires v.Bytes?
    ensures Apply(c, BytesIntoNatives(x, os), [v]) == Some(Natives(Encoding.PackBytes(c, v.bytes)))
  {}

  lemma LowHighApplied(c: Params, x: Operand, l: Identifier, h: Identifier, v: IrValue)
    requires c.Sizes() && ValidValue(c, v) && TypeOf(v) == IrType.Bytes(c.ReprBytes())
    ensures Apply(c, Bytes32IntoLowHigh(x, l, h), [v]) == Some(Natives(Encoding.PackBytes(c, v.bytes)))
  {
    LowHighIsPacking(c, v.bytes);
  }

  /** What both inverses accept: a low part of whole limb width, and a byte. */
  lemma FromLowHighIsUnpacking(c: Params, low: nat, high: nat)
    requires c.Sizes() && low < c.p && high < c.p
    ensures var l, h, k := Encoding.FieldBytes(c, low), Encoding.FieldBytes(c, high), c.limbBytes as int;
            && (l[k] == 0 && Encoding.AllZero(h[1..]) <==> low < Pow(256, k) && high < 256)
            && Encoding.UnpackBytes(c, [low, high], c.ReprBytes()) ==
               if low < Pow(256, k) && high < 256 then Some(l[k := h[0]]) else None
  {
    var l, h, k := Encoding.FieldBytes(c, low), Encoding.FieldBytes(c, high), c.limbBytes as int;
    FieldHoldsLimb(c);
    Encoding.HighBytesZero(c, low, k);
    assert l[k..] == [l[k]];
    assert Encoding.AllZero(l[k..]) <==> l[k] == 0;
    OpSoundness.ByteFits(c, high);
    assert [low, high][1..] == [high] && [high][1..] == [] && h[..1] + [] == h[..1];
    assert Encoding.UnpackBytes(c, [high], 1) == if Encoding.AllZero(h[1..]) then Some(h[..1]) else None;
    assert l[..k] + h[..1] == l[k := h[0]];
  }

  /** Decoding two limbs at the width of a field element, with the re-encoding check. */
  lemma TwoLimbs(c: Params, low: nat, high: nat)
    requires c.Sizes() && low < c.p && high < c.p
    ensures var l, h, k := Encoding.FieldBytes(c, low), Encoding.FieldBytes(c, high), c.limbBytes as int;
            && (l[k] == 0 && Encoding.AllZero(h[1..]) <==> low < Pow(256, k) && high < 256)
            && CeilDiv(c.ReprBytes(), k) == 2
            && Encoding.Decode(c, IrType.Bytes(c.ReprBytes()), [low, high]) ==
               if low < Pow(256, k) && high < 256 then Some(IrValue.Bytes(l[k := h[0]])) else None
  {
    FromLowHighIsUnpacking(c, low, high);
    Encoding.CeilDivStep(c.ReprBytes(), c.limbBytes);
    Encoding.CeilDivStep(1, c.limbBytes);
    if Encoding.UnpackBytes(c, [low, high], c.ReprBytes()).Some? {
      Encoding.PackUnpack(c, [low, high], c.ReprBytes());
    }
  }

  lemma TwoNatives(x: nat, y: nat)
    ensures AllNative([IrValue.Native(x), IrValue.Native(y)]) == Some([x, y])
  {
    var vs := [IrValue.Native(x), IrValue.Native(y)];
    assert vs[1..] == [vs[1]] && vs[1..][1..] == [];
    assert [y] + [] == [y] && [x] + [y] == [x, y];
    assert AllNative(vs[1..]) == Some([y]);
  }

  /** The deprecated join on native operands, in terms of their bytes. */
  function Joined(c: Params, low: nat, high: nat): Option<seq<IrValue>> {
    if low < Pow(256, c.limbBytes) && high < 256 then
      Some([IrValue.Bytes(Encoding.FieldBytes(c, low)[c.limbBytes := Encoding.FieldBytes(c, high)[0]])])
    else None
  }

  lemma FromLowHighApplied(c: Params, ins: Instruction, low: nat, high: nat)
    requires c.Sizes() && low < c.p && high < c.p && ins.Bytes32FromLowHigh?
    ensures Apply(c, ins, [IrValue.Native(low), IrValue.Native(high)]) == Joined(c, low, high)
  {
    TwoLimbs(c, low, high);
  }

  lemma FromNativesApplied(c: Params, ins: Instruction, low: nat, high: nat)
    requires c.Sizes() && low < c.p && high < c.p && c.ReprBytes() <= MAX_BYTES_LEN
    requires ins.BytesFromNatives? && ins.len == c.ReprBytes() && |ins.Args()| == 2
    ensures Apply(c, ins, [IrValue.Native(low), IrValue.Native(high)]) == Joined(c, low, high)
  {
    TwoLimbs(c, low, high);
    TwoNatives(low, high);
  }

  lemma FromLowHighIsFromNatives(c: Params, lo: Operand, hi: Operand, o: Identifier, low: nat, high: nat)
    requires c.Sizes() && low < c.p && high < c.p && c.ReprBytes() <= MAX_BYTES_LEN
    ensures var vs := [IrValue.Native(low), IrValue.Native(high)];
            && Apply(c, Bytes32FromLowHigh(lo, hi, o), vs) == Apply(c, BytesFromNatives([lo, hi], c.ReprBytes(), o), vs)
            && (Apply(c, Bytes32FromLowHigh(lo, hi, o), vs).Some? <==> low < Pow(256, c.limbBytes) && high < 256)
  {
    FromLowHighApplied(c, Bytes32FromLowHigh(lo, hi, o), low, high);
    FromNativesApplied(c, BytesFromNatives([lo, hi], c.ReprBytes(), o), low, high);
  }
}
