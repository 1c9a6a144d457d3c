/**
  Typed values as native field elements: `encode_offcircuit`, and `decode_offcircuit`
  with its re-encoding check, which makes it the exact partial inverse.
 */
module Encoding {
  import opened Options
  import opened Digits
  import opened Types

  // ----- byte strings -----

  /** The little-endian bytes of a native field element. */
  function FieldBytes(c: Params, x: nat): (bs: seq<nat>)
    ensures |bs| == c.ReprBytes() && IsDigits(bs, 256)
  {
    DigitsOf(x, 256, c.ReprBytes())
  }

  /** Packs a byte string, one limb per chunk. */
  function PackBytes(c: Params, bs: seq<nat>): seq<nat> {
    if |bs| <= c.limbBytes then
      if bs == [] then [] else [Val(bs, 256)]
    else
      [Val(bs[..c.limbBytes], 256)] + PackBytes(c, bs[c.limbBytes..])
  }

  predicate AllZero(bs: seq<nat>) {
    forall i :: 0 <= i < |bs| ==> bs[i] == 0
  }

  function Min(x: nat, y: nat): nat {
    if x <= y then x else y
  }

  /** Unpacks `n` bytes; every limb must vanish beyond the bytes it contributes. */
  function UnpackBytes(c: Params, e: seq<nat>, n: nat): Option<seq<nat>> {
    if e == [] then Some([])
    else
      var len := Min(n, c.limbBytes);
      var buf := FieldBytes(c, e[0]);
      if !AllZero(buf[len..]) then None
      else
        var rest :- UnpackBytes(c, e[1..], n - len);
        Some(buf[..len] + rest)
  }

  method DecodeBytes(c: Params, e: seq<nat>, n: nat) returns (r: Option<seq<nat>>)
    ensures r == if |e| == CeilDiv(n, c.limbBytes) then UnpackBytes(c, e, n) else None
  {
    if |e| != CeilDiv(n, c.limbBytes) {
      return None;
    }
    var bytes: seq<nat>, remaining := [], n;
    assert e[0..] == e && forall rest: seq<nat> :: [] + rest == rest;
    for i := 0 to |e|
      invariant 0 <= remaining
      invariant UnpackBytes(c, e, n) ==
                match UnpackBytes(c, e[i..], remaining)
                case None => None
                case Some(rest) => Some(bytes + rest)
    {
      var buf := FieldBytes(c, e[i]);
      var len := Min(remaining, c.limbBytes);
      assert e[i..][1..] == e[i + 1..];
      if !AllZero(buf[len..]) {
        return None;
      }
      ghost var before := bytes;
      bytes := bytes + buf[..len];
      remaining := remaining - len;
      assert forall rest :: before + (buf[..len] + rest) == bytes + rest;
    }
    assert e[|e|..] == [] && bytes + [] == bytes;
    r := Some(bytes);
  }

  // ----- typed values -----

  function Encode(c: Params, v: IrValue): seq<nat> {
    match v
    case Native(x) => [x]
    case Bool(b) => [if b then 1 else 0]
    case Byte(b) => [b]
    case Bytes(bs) => PackBytes(c, bs)
    case JubjubScalar(s) => [s]
    case Foreign(f, x) => ForeignLimbs(c, f, x)
  }

  /** A foreign field element is stored as the two limbs of its predecessor modulo the order. */
  function ForeignLimbs(c: Params, f: ForeignField, x: nat): (e: seq<nat>)
    ensures |e| == 2
  {
    SplitLimbs(c, Predecessor(x, c.order(f)))
  }

  function SplitLimbs(c: Params, n: nat): (e: seq<nat>)
    ensures |e| == 2
  {
    [n % Pow(2, c.lowBits), n / Pow(2, c.lowBits)]
  }

  function Predecessor(x: nat, q: Pos): nat {
    (x + q - 1) % q
  }

  function EncodeAll(c: Params, vs: seq<IrValue>): seq<nat> {
    if vs == [] then [] else Encode(c, vs[0]) + EncodeAll(c, vs[1..])
  }

  /**
    The library's own decoding. It ignores whatever lies outside the bits it looks at, so
    several encodings can decode to one value.
   */
  function DecodeRaw(c: Params, t: IrType, e: seq<nat>): Option<IrValue> {
    match t
    case Native => if |e| == 1 then Some(IrValue.Native(e[0])) else None
    case Bool => if |e| == 1 then Some(IrValue.Bool(e[0] % 2 == 1)) else None
    case Byte => if |e| == 1 then Some(IrValue.Byte(e[0] % 256)) else None
    case Bytes(n) =>
      if |e| == CeilDiv(n, c.limbBytes) then
        var bs :- UnpackBytes(c, e, n);
        Some(IrValue.Bytes(bs))
      else None
    case JubjubScalar =>
      if |e| == 1 then Some(IrValue.JubjubScalar(e[0] % Pow(2, c.scalarBits) % c.r)) else None
    case Foreign(f) =>
      var low, high := Pow(2, c.lowBits), Pow(2, c.highBits);
      if |e| == 2 then
        Some(IrValue.Foreign(f, (e[0] % low + low * (e[1] % high) + 1) % c.order(f)))
      else None
    case Point(_) => None
  }

  /** The re-encoding check: a decoded value counts only if it encodes to what was given. */
  function Canonical(c: Params, decoded: Option<IrValue>, e: seq<nat>): Option<IrValue> {
    var v :- decoded;
    if Encode(c, v) == e then Some(v) else None
  }

  function Decode(c: Params, t: IrType, e: seq<nat>): Option<IrValue> {
    Canonical(c, DecodeRaw(c, t, e), e)
  }

  // ----- packing is a bijection onto bounded limb lists -----

  lemma CeilDivOf(n: nat, k: Pos, q: nat, r: nat)
    requires n == q * k + r && r < k
    ensures CeilDiv(n, k) == q + if r > 0 then 1 else 0
  {
    if r == 0 { DivModUnique(n + k - 1, k, q, k - 1); } else { DivModUnique(n + k - 1, k, q + 1, r - 1); }
  }

  lemma CeilDivStep(n: nat, k: Pos)
    ensures n == 0 ==> CeilDiv(n, k) == 0
    ensures 0 < n <= k ==> CeilDiv(n, k) == 1
    ensures n > k ==> CeilDiv(n, k) == 1 + CeilDiv(n - k, k)
  {
    if n == 0 {
      DivModUnique(k - 1, k, 0, k - 1);
    } else if n <= k {
      DivModUnique(n + k - 1, k, 1, n - 1);
    } else {
      var m := n - k + k - 1;
      DivModUnique(m + k, k, m / k + 1, m % k);
    }
  }

  lemma ZeroTail(buf: seq<nat>, b: Pos, len: nat)
    requires b >= 2 && IsDigits(buf, b) && len <= |buf|
    ensures AllZero(buf[len..]) <==> Val(buf, b) < Pow(b, len)
    ensures Val(buf, b) < Pow(b, len) ==> Val(buf[..len], b) == Val(buf, b)
  {
    ValSplit(buf, b, len);
    AllZeroIsZero(buf[len..], b);
    QuotientZero(Val(buf, b), Pow(b, len));
  }

  lemma AllZeroIsZero(ds: seq<nat>, b: Pos)
    requires b >= 2 && IsDigits(ds, b)
    ensures AllZero(ds) <==> Val(ds, b) == 0
  {
    ValZeros(|ds|, b);
    if AllZero(ds) { assert ds == Zeros(|ds|); }
    if Val(ds, b) == 0 { ValInjective(ds, Zeros(|ds|), b); }
  }

  lemma QuotientZero(n: nat, m: Pos)
    ensures n / m == 0 <==> n < m
    ensures n < m ==> n % m == n
  {
    if n < m { ModSmall(n, m); }
  }

  /** The check on the high bytes is a bound on the limb. */
  lemma HighBytesZero(c: Params, x: nat, len: nat)
    requires x < Pow(256, c.ReprBytes()) && len <= c.ReprBytes()
    ensures AllZero(FieldBytes(c, x)[len..]) <==> x < Pow(256, len)
    ensures x < Pow(256, len) ==> Val(FieldBytes(c, x)[..len], 256) == x
  {
    ValDigits(x, 256, c.ReprBytes());
    ZeroTail(FieldBytes(c, x), 256, len);
  }

  lemma {:induction false} PackShape(c: Params, bs: seq<nat>)
    requires c.Sizes() && IsDigits(bs, 256)
    ensures |PackBytes(c, bs)| == CeilDiv(|bs|, c.limbBytes)
    ensures c.FieldElements(PackBytes(c, bs))
  {
    CeilDivStep(|bs|, c.limbBytes);
    FieldHoldsLimb(c);
    if |bs| <= c.limbBytes {
      ValBound(bs, 256);
      PowMono(256, |bs|, c.limbBytes);
    } else {
      ValBound(bs[..c.limbBytes], 256);
      PackShape(c, bs[c.limbBytes..]);
    }
  }

  lemma PackFirst(c: Params, bs: seq<nat>)
    requires bs != []
    ensures var len := Min(|bs|, c.limbBytes);
            && PackBytes(c, bs) != []
            && PackBytes(c, bs)[0] == Val(bs[..len], 256)
            && PackBytes(c, bs)[1..] == PackBytes(c, bs[len..])
  {
    if |bs| <= c.limbBytes { assert bs[..|bs|] == bs; }
  }

  lemma {:induction false} UnpackPack(c: Params, bs: seq<nat>)
    requires c.Sizes() && IsDigits(bs, 256)
    ensures UnpackBytes(c, PackBytes(c, bs), |bs|) == Some(bs)
  {
    FieldHoldsLimb(c);
    PackShape(c, bs);
    if bs == [] {
    } else {
      var len := Min(|bs|, c.limbBytes);
      var e, rest := PackBytes(c, bs), bs[len..];
      PackFirst(c, bs);
      ValBound(bs[..len], 256);
      PowMono(256, len, c.ReprBytes());
      HighBytesZero(c, e[0], len);
      ValInjective(FieldBytes(c, e[0])[..len], bs[..len], 256);
      UnpackPack(c, rest);
      assert bs[..len] + rest == bs;
    }
  }

  lemma {:induction false} PackUnpack(c: Params, e: seq<nat>, n: nat)
    requires c.Sizes() && c.FieldElements(e) && |e| == CeilDiv(n, c.limbBytes)
    requires UnpackBytes(c, e, n).Some?
    ensures var bs := UnpackBytes(c, e, n).value;
            |bs| == n && IsDigits(bs, 256) && PackBytes(c, bs) == e
  {
    CeilDivStep(n, c.limbBytes);
    FieldHoldsLimb(c);
    if e == [] {
    } else {
      var len := Min(n, c.limbBytes);
      var buf, bs := FieldBytes(c, e[0]), UnpackBytes(c, e, n).value;
      HighBytesZero(c, e[0], len);
      PackUnpack(c, e[1..], n - len);
      var rest := UnpackBytes(c, e[1..], n - len).value;
      assert bs == buf[..len] + rest;
      if n <= c.limbBytes {
        assert rest == [] && bs == buf[..len];
      } else {
        assert bs[..len] == buf[..len] && bs[len..] == rest;
      }
    }
  }

  /** The number of bytes that limb `i` of an `n`-byte string holds. */
  function LimbLen(c: Params, n: nat, i: nat): nat {
    if n <= i * c.limbBytes then 0 else Min(n - i * c.limbBytes, c.limbBytes)
  }

  predicate LimbsFit(c: Params, e: seq<nat>, n: nat) {
    forall i :: 0 <= i < |e| ==> e[i] < Pow(256, LimbLen(c, n, i))
  }

  /**
    Unpacking accepts exactly the limb lists that packing produces: as many limbs as the
    length needs, each below 256 to the number of bytes it contributes.
   */
  lemma PackingIsBijective(c: Params, e: seq<nat>, n: nat, bs: seq<nat>)
    requires c.Sizes() && c.FieldElements(e) && |e| == CeilDiv(n, c.limbBytes)
    ensures UnpackBytes(c, e, n) == Some(bs) <==> |bs| == n && IsDigits(bs, 256) && PackBytes(c, bs) == e
    ensures UnpackBytes(c, e, n).Some? <==> LimbsFit(c, e, n)
  {
    if UnpackBytes(c, e, n) == Some(bs) { PackUnpack(c, e, n); }
    if |bs| == n && IsDigits(bs, 256) && PackBytes(c, bs) == e { UnpackPack(c, bs); }
    UnpackIffFits(c, e, n);
  }

  lemma LimbLenStep(c: Params, n: nat, i: nat)
    ensures LimbLen(c, n, 0) == Min(n, c.limbBytes)
    ensures LimbLen(c, n, i + 1) == LimbLen(c, n - Min(n, c.limbBytes), i)
  {
    assert (i + 1) * c.limbBytes == i * c.limbBytes + c.limbBytes;
  }

  lemma {:induction false} UnpackIffFits(c: Params, e: seq<nat>, n: nat)
    requires c.Sizes() && c.FieldElements(e) && |e| == CeilDiv(n, c.limbBytes)
    ensures UnpackBytes(c, e, n).Some? <==> LimbsFit(c, e, n)
  {
    CeilDivStep(n, c.limbBytes);
    FieldHoldsLimb(c);
    if e == [] {
    } else {
      var len := Min(n, c.limbBytes);
      HighBytesZero(c, e[0], len);
      UnpackIffFits(c, e[1..], n - len);
      LimbLenStep(c, n, 0);
      forall i | 0 <= i < |e| - 1
        ensures e[1..][i] < Pow(256, LimbLen(c, n - len, i)) <==> e[i + 1] < Pow(256, LimbLen(c, n, i + 1))
      {
        LimbLenStep(c, n, i);
      }
      if LimbsFit(c, e, n) {
        assert LimbsFit(c, e[1..], n - len);
      }
      if LimbsFit(c, e[1..], n - len) && e[0] < Pow(256, len) {
        forall i | 0 <= i < |e|
          ensures e[i] < Pow(256, LimbLen(c, n, i))
        {
          if i > 0 { assert e[1..][i - 1] < Pow(256, LimbLen(c, n - len, i - 1)); }
        }
      }
    }
  }

  // ----- decoding is the exact partial inverse of encoding -----

  lemma PredecessorOf(x: nat, q: Pos)
    requires x < q
    ensures Predecessor(x, q) == if x == 0 then q - 1 else x - 1
    ensures (Predecessor(x, q) + 1) % q == x
    ensures (Predecessor(x, q) + q + 1) % q == x
  {
    if x == 0 {
      ModSmall(q - 1, q);
      DivModUnique(q, q, 1, 0);
      DivModUnique(2 * q, q, 2, 0);
    } else {
      DivModUnique(x + q - 1, q, 1, x - 1);
      DivModUnique(x + q, q, 1, x);
      ModSmall(x, q);
    }
  }

  lemma Recombine(n: nat, low: Pos, high: nat)
    requires n < low * high
    ensures n % low + low * (n / low) == n && n / low < high
  {
    QuotientBound(n, low, high);
  }

  lemma LimbsOf(c: Params, f: ForeignField, x: nat)
    requires c.Sizes() && x < c.order(f)
    ensures var e, low := ForeignLimbs(c, f, x), Pow(2, c.lowBits);
            && e[0] < low < c.p && e[1] < Pow(2, c.highBits) < c.p
            && e[0] + low * e[1] == Predecessor(x, c.order(f))
            && (e[0] + low * e[1] + 1) % c.order(f) == x
  {
    PredecessorOf(x, c.order(f));
    FieldHoldsBits(c, c.lowBits);
    FieldHoldsBits(c, c.highBits);
    PowAdd(2, c.lowBits, c.highBits);
    Recombine(Predecessor(x, c.order(f)), Pow(2, c.lowBits), Pow(2, c.highBits));
  }

  /** Two limbs within the widths into which a foreign element is packed. */
  predicate Packed(c: Params, e: seq<nat>) {
    |e| == 2 && e[0] < Pow(2, c.lowBits) && e[1] < Pow(2, c.highBits)
  }

  lemma LimbsAre(n: nat, low: Pos, high: Pos) returns (r: nat, q: nat)
    requires n < low * high
    ensures r == n % low && q == n / low && r < low && q < high && r + low * q == n
  {
    r, q := n % low, n / low;
    Recombine(n, low, high);
  }

  lemma SplitFits(c: Params, n: nat)
    requires c.Sizes() && n < Pow(2, c.lowBits + c.highBits)
    ensures var e := SplitLimbs(c, n);
            && Packed(c, e) && e[0] + Pow(2, c.lowBits) * e[1] == n
  {
    PowAdd(2, c.lowBits, c.highBits);
    var r, q := LimbsAre(n, Pow(2, c.lowBits), Pow(2, c.highBits));
  }

  lemma PackedDecodes(c: Params, f: ForeignField, e: seq<nat>)
    requires c.Sizes() && Packed(c, e)
    ensures c.FieldElements(e)
    ensures DecodeRaw(c, IrType.Foreign(f), e) ==
            Some(IrValue.Foreign(f, (e[0] + Pow(2, c.lowBits) * e[1] + 1) % c.order(f)))
  {
    ModSmall(e[0], Pow(2, c.lowBits));
    ModSmall(e[1], Pow(2, c.highBits));
    FieldHoldsBits(c, c.lowBits);
    FieldHoldsBits(c, c.highBits);
  }

  lemma RawForeign(c: Params, f: ForeignField, n: nat)
    requires c.Sizes() && n < Pow(2, c.lowBits + c.highBits)
    ensures var e := SplitLimbs(c, n);
            && c.FieldElements(e) && e[0] + Pow(2, c.lowBits) * e[1] == n
            && DecodeRaw(c, IrType.Foreign(f), e) == Some(IrValue.Foreign(f, (n + 1) % c.order(f)))
  {
    SplitFits(c, n);
    PackedDecodes(c, f, SplitLimbs(c, n));
  }

  lemma EncodeShape(c: Params, v: IrValue)
    requires c.Sizes() && ValidValue(c, v)
    ensures |Encode(c, v)| == EncodedLen(c, TypeOf(v))
    ensures c.FieldElements(Encode(c, v))
  {
    FieldHoldsLimb(c);
    match v
    case Bytes(bs) => PackShape(c, bs);
    case Foreign(f, x) => LimbsOf(c, f, x);
    case _ =>
  }

  /** Every encoding decodes back to the value it came from. */
  lemma DecodeOfEncode(c: Params, v: IrValue)
    requires c.Sizes() && ValidValue(c, v)
    ensures Decode(c, TypeOf(v), Encode(c, v)) == Some(v)
  {
    EncodeShape(c, v);
    match v
    case Native(_) =>
    case Bool(_) =>
    case Byte(b) =>
    case Bytes(bs) => UnpackPack(c, bs);
    case JubjubScalar(s) =>
      ModSmall(s, Pow(2, c.scalarBits));
      ModSmall(s, c.r);
    case Foreign(f, x) =>
      LimbsOf(c, f, x);
      RawForeign(c, f, Predecessor(x, c.order(f)));
  }

  /**
    `decode_offcircuit` succeeds exactly on the canonical encodings of its type, and then
    returns the one value encoded: it is injective although `DecodeRaw` is not.
   */
  lemma DecodeIsExactInverse(c: Params, t: IrType, e: seq<nat>, v: IrValue)
    requires c.Sizes() && c.FieldElements(e)
    ensures Decode(c, t, e) == Some(v) <==> ValidValue(c, v) && TypeOf(v) == t && Encode(c, v) == e
    ensures Decode(c, t, e).Some? ==> |e| == EncodedLen(c, t)
  {
    if ValidValue(c, v) && TypeOf(v) == t && Encode(c, v) == e {
      DecodeOfEncode(c, v);
    }
    if Decode(c, t, e).Some? {
      if t.Bytes? { PackUnpack(c, e, t.n); }
      EncodeShape(c, Decode(c, t, e).value);
    }
  }

  /** What a decoder of the library does at least: it reads encodings, and it yields values of its type. */
  ghost predicate DecodesEncodings(c: Params, t: IrType, raw: seq<nat> -> Option<IrValue>) {
    && (forall v :: ValidValue(c, v) && TypeOf(v) == t ==> raw(Encode(c, v)) == Some(v))
    && forall e :: c.FieldElements(e) && raw(e).Some? ==> ValidValue(c, raw(e).value) && TypeOf(raw(e).value) == t
  }

  /** Whatever else the library's decoder accepts, the re-encoding check leaves the same decoding. */
  lemma AnyRawDecoderWillDo(c: Params, t: IrType, raw: seq<nat> -> Option<IrValue>, e: seq<nat>)
    requires c.Sizes() && c.FieldElements(e) && DecodesEncodings(c, t, raw)
    ensures Canonical(c, raw(e), e) == Decode(c, t, e)
  {
    if Decode(c, t, e).Some? { DecodeIsExactInverse(c, t, e, Decode(c, t, e).value); }
    if Canonical(c, raw(e), e).Some? { DecodeIsExactInverse(c, t, e, raw(e).value); }
  }

  // ----- what the re-encoding check is for -----

  /** Another list of field elements that the library decodes to `v`; the re-encoding check rejects it. */
  predicate Collides(c: Params, v: IrValue, e: seq<nat>) {
    && c.FieldElements(e) && e != Encode(c, v)
    && DecodeRaw(c, TypeOf(v), e) == Some(v) && Decode(c, TypeOf(v), e) == None
  }

  lemma PackedIsSplit(c: Params, e: seq<nat>) returns (n: nat)
    requires Packed(c, e)
    ensures n < Pow(2, c.lowBits + c.highBits) && e == SplitLimbs(c, n)
  {
    var low, high := Pow(2, c.lowBits), Pow(2, c.highBits);
    n := e[0] + low * e[1];
    PowAdd(2, c.lowBits, c.highBits);
    DigitBelow(e[0], e[1], high, low);
    DivModUnique(n, low, e[1], e[0]);
  }

  /** An integer congruent to a smaller one is larger by the modulus at least. */
  lemma CongruentAbove(n: nat, m: nat, q: Pos)
    requires n % q == m % q && m < q && n != m
    ensures n >= m + q
  {
    if n < q { ModSmall(n, q); }
    ModSmall(m, q);
    DivModUnique(n, q, n / q, n % q);
    if n >= q { QuotientAtLeast(n, q); }
  }

  lemma QuotientAtLeast(n: nat, q: Pos)
    requires n >= q
    ensures n >= n % q + q
  {
    if n / q >= 1 {
      MulMono(1, n / q, q);
    } else {
      assert false;
    }
  }

  lemma SuccessorsCongruent(n: nat, m: nat, q: Pos)
    requires (n + 1) % q == (m + 1) % q
    ensures n % q == m % q
  {
    ModAdd(n + 1, q - 1, q);
    ModAdd(m + 1, q - 1, q);
    DivModUnique(n + q, q, n / q + 1, n % q);
    DivModUnique(m + q, q, m / q + 1, m % q);
  }

  /**
    Without the re-encoding check decoding would not be injective: adding the order to the
    packed limbs of a foreign element leaves the decoded element unchanged. Within the packed
    widths an element has such a collision exactly when the sum fits them.
   */
  lemma RawDecodingCollides(c: Params, f: ForeignField, x: nat)
    requires c.Sizes() && x < c.order(f)
    ensures (exists e :: Packed(c, e) && Collides(c, IrValue.Foreign(f, x), e))
       <==> Predecessor(x, c.order(f)) + c.order(f) < Pow(2, c.lowBits + c.highBits)
  {
    var v, n := IrValue.Foreign(f, x), Predecessor(x, c.order(f));
    PredecessorOf(x, c.order(f));
    RawForeign(c, f, n);
    if n + c.order(f) < Pow(2, c.lowBits + c.highBits) {
      RawForeign(c, f, n + c.order(f));
      var e := SplitLimbs(c, n + c.order(f));
      SplitFits(c, n + c.order(f));
      assert Packed(c, e) && Collides(c, v, e);
    }
    forall e | Packed(c, e) && Collides(c, v, e)
      ensures n + c.order(f) < Pow(2, c.lowBits + c.highBits)
    {
      var m := PackedIsSplit(c, e);
      RawForeign(c, f, m);
      SuccessorsCongruent(m, n, c.order(f));
      CongruentAbove(m, n, c.order(f));
    }
  }

  /**
    The library ignores the bits of a Jubjub scalar beyond its width and reduces the others. So a
    scalar has a collision exactly when its sum with the order stays within the width, or its sum
    with the power of two beyond the width is still a field element.
   */
  lemma RawScalarCollides(c: Params, s: nat)
    requires c.Sizes() && s < c.r
    ensures (exists e :: Collides(c, IrValue.JubjubScalar(s), e))
       <==> (s + c.r < Pow(2, c.scalarBits) && s + c.r < c.p) || s + Pow(2, c.scalarBits) < c.p
  {
    var v, width := IrValue.JubjubScalar(s), Pow(2, c.scalarBits);
    if s + c.r < width && s + c.r < c.p {
      ModSmall(s + c.r, width);
      DivModUnique(s + c.r, c.r, 1, s);
      assert Collides(c, v, [s + c.r]);
    }
    if s + width < c.p {
      DivModUnique(s + width, width, 1, s);
      ModSmall(s, c.r);
      assert Collides(c, v, [s + width]);
    }
    forall e | Collides(c, v, e)
      ensures (s + c.r < width && s + c.r < c.p) || s + width < c.p
    {
      ScalarCollisionIsLarge(e[0], s, width, c.r);
    }
  }

  lemma ScalarCollisionIsLarge(y: nat, s: nat, width: Pos, r: Pos)
    requires y % width % r == s && y != s && s < r <= width
    ensures (y < width && y >= s + r) || y >= s + width
  {
    ModSmall(s, r);
    if y < width {
      ModSmall(y, width);
      CongruentAbove(y, s, r);
    } else {
      QuotientAtLeast(y, width);
      ModAtMost(y % width, r);
    }
  }

  lemma ModAtMost(n: nat, q: Pos)
    ensures n % q <= n
  {
    if n < q { ModSmall(n, q); }
  }

  lemma {:induction false} EncodeAllAppend(c: Params, us: seq<IrValue>, vs: seq<IrValue>)
    ensures EncodeAll(c, us + vs) == EncodeAll(c, us) + EncodeAll(c, vs)
  {
    if us == [] {
      assert us + vs == vs;
    } else {
      assert (us + vs)[1..] == us[1..] + vs;
      EncodeAllAppend(c, us[1..], vs);
    }
  }
}
