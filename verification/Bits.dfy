/**
  The bit arithmetic of the interpreter: reading the bits of a field element off its
  bytes, folding bits back inside the field, and comparing bit lists from the top.
 */
module Bits {
  import opened Options
  import opened Digits
  import opened Types
  import opened Encoding

  datatype Ordering = Less | Equal | Greater

  /** The bits of each byte in turn, least significant first. */
  function BitsOfBytes(bs: seq<nat>): (bits: seq<nat>)
    ensures |bits| == 8 * |bs| && IsDigits(bits, 2)
  {
    if bs == [] then [] else DigitsOf(bs[0], 2, 8) + BitsOfBytes(bs[1..])
  }

  function FieldBits(c: Params, x: nat): (bits: seq<nat>)
    ensures |bits| == 8 * c.ReprBytes() && IsDigits(bits, 2)
  {
    BitsOfBytes(FieldBytes(c, x))
  }

  /** Folds bits from the most significant one down, doubling inside the field. */
  function FromBits(c: Params, bits: seq<nat>): nat {
    if bits == [] then 0 else (FromBits(c, bits[1..]) * 2 + bits[0]) % c.p
  }

  method FoldBits(c: Params, bits: seq<nat>) returns (acc: nat)
    ensures acc == FromBits(c, bits)
  {
    acc := 0;
    var i := |bits|;
    while i > 0
      invariant 0 <= i <= |bits|
      invariant acc == FromBits(c, bits[i..])
    {
      i := i - 1;
      acc := (acc * 2 + bits[i]) % c.p;
      assert bits[i..][1..] == bits[i + 1..];
    }
    assert bits[0..] == bits;
  }

  /** The bits of a field element cut to `n`, if the element fits. */
  function BoundedBits(c: Params, x: nat, n: nat): Option<seq<nat>> {
    if n >= c.frBits then None
    else if n > 8 * c.ReprBytes() || !AllZero(FieldBits(c, x)[n..]) then None
    else Some(FieldBits(c, x)[..n])
  }

  function Compare(x: nat, y: nat): Ordering {
    if x < y then Less else if x == y then Equal else Greater
  }

  /** Compares two bit lists from their last element on; the first difference decides. */
  function FoldCompare(prefix: Ordering, xs: seq<nat>, ys: seq<nat>): Ordering
    requires |xs| == |ys|
    decreases |xs|
  {
    if xs == [] then prefix
    else
      var n := |xs| - 1;
      FoldCompare(if prefix.Equal? then Compare(xs[n], ys[n]) else prefix, xs[..n], ys[..n])
  }

  /** The power of two that the interpreter computes by repeated doubling in the field. */
  function FieldPow(c: Params, n: nat): nat {
    if n == 0 then 1 % c.p else (2 * FieldPow(c, n - 1)) % c.p
  }

  // ----- what these compute -----

  lemma {:induction false} BitsOfBytesVal(bs: seq<nat>)
    requires IsDigits(bs, 256)
    ensures Val(BitsOfBytes(bs), 2) == Val(bs, 256)
  {
    if bs == [] {
    } else {
      assert Pow(2, 8) == 256;
      ValDigits(bs[0], 2, 8);
      BitsOfBytesVal(bs[1..]);
      ValAppend(DigitsOf(bs[0], 2, 8), BitsOfBytes(bs[1..]), 2);
    }
  }

  lemma FieldBitsVal(c: Params, x: nat)
    requires c.Sizes() && x < c.p
    ensures Val(FieldBits(c, x), 2) == x
  {
    FieldHoldsLimb(c);
    ValDigits(x, 256, c.ReprBytes());
    BitsOfBytesVal(FieldBytes(c, x));
  }

  /** As long as the bits stay below the modulus, the fold in the field is the integer. */
  lemma {:induction false} FromBitsVal(c: Params, bits: seq<nat>)
    requires Val(bits, 2) < c.p
    ensures FromBits(c, bits) == Val(bits, 2)
  {
    if bits == [] {
      assert 0 < c.p;
    } else {
      FromBitsVal(c, bits[1..]);
      ModSmall(Val(bits, 2), c.p);
    }
  }

  /** Both halves of the bits of `x`, folded in the field, are integer division by a power of two. */
  lemma SplitBits(c: Params, x: nat, n: nat)
    requires c.Sizes() && x < c.p && n <= 8 * c.ReprBytes()
    ensures FromBits(c, FieldBits(c, x)[..n]) == x % Pow(2, n)
    ensures FromBits(c, FieldBits(c, x)[n..]) == x / Pow(2, n)
    ensures x % Pow(2, n) + Pow(2, n) * (x / Pow(2, n)) == x
  {
    var bits, m := FieldBits(c, x), Pow(2, n);
    FieldBitsVal(c, x);
    ValSplit(bits, 2, n);
    DivModBelow(x, m);
    FromBitsVal(c, bits[..n]);
    FromBitsVal(c, bits[n..]);
  }

  lemma DivModBelow(x: nat, m: Pos)
    ensures x % m <= x && x / m <= x && x % m + m * (x / m) == x
  {
    MulMono(1, m, x / m);
  }

  lemma JoinHalves(x: nat, low: nat, high: nat, m: Pos)
    requires low == x % m && high == x / m
    ensures low < m && high * m + low == x
  {}

  /** The bit bound holds exactly when the integer is below the power of two. */
  lemma BoundedBitsVal(c: Params, x: nat, n: nat)
    requires c.Sizes() && x < c.p
    ensures BoundedBits(c, x, n).Some? <==> n < c.frBits && x < Pow(2, n)
    ensures BoundedBits(c, x, n).Some? ==>
              var bits := BoundedBits(c, x, n).value;
              |bits| == n && IsDigits(bits, 2) && Val(bits, 2) == x && FromBits(c, bits) == x
  {
    if n < c.frBits {
      FieldBitsVal(c, x);
      ZeroTail(FieldBits(c, x), 2, n);
      if x < Pow(2, n) { FromBitsVal(c, FieldBits(c, x)[..n]); }
    }
  }

  /** The leading digit decides; below it the rest cannot make up a difference of one. */
  lemma LeadingBit(x: nat, y: nat, low: nat, other: nat, w: nat)
    requires low < w && other < w
    ensures Compare(low + w * x, other + w * y) == if x == y then Compare(low, other) else Compare(x, y)
  {
    if x < y { MulMono(x + 1, y, w); }
    if y < x { MulMono(y + 1, x, w); }
  }

  /** The comparison from the top is the comparison of the numbers. */
  lemma {:induction false} FoldCompareVal(prefix: Ordering, xs: seq<nat>, ys: seq<nat>)
    requires |xs| == |ys| && IsDigits(xs, 2) && IsDigits(ys, 2)
    ensures FoldCompare(prefix, xs, ys) == if prefix.Equal? then Compare(Val(xs, 2), Val(ys, 2)) else prefix
    decreases |xs|
  {
    if xs == [] {
    } else {
      var n := |xs| - 1;
      var next := if prefix.Equal? then Compare(xs[n], ys[n]) else prefix;
      FoldCompareVal(next, xs[..n], ys[..n]);
      ValLast(xs, 2);
      ValLast(ys, 2);
      ValBound(xs[..n], 2);
      ValBound(ys[..n], 2);
      LeadingBit(xs[n], ys[n], Val(xs[..n], 2), Val(ys[..n], 2), Pow(2, n));
    }
  }

  lemma {:induction false} FieldPowVal(c: Params, n: nat)
    requires Pow(2, n) < c.p
    ensures FieldPow(c, n) == Pow(2, n)
  {
    if n == 0 {
      ModSmall(1, c.p);
    } else {
      FieldPowVal(c, n - 1);
      ModSmall(Pow(2, n), c.p);
    }
  }
}
