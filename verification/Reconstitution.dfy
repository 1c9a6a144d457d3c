/**
  Splitting a field element at a bit and putting it back together: the interpreter's
  bitwise form, plain integer arithmetic, and the circuit's constraints say the same.
 */
module Reconstitution {
  import opened Options
  import opened Digits
  import opened Types
  import opened Bits
  import opened Gadgets
  import opened Circuit
  import opened GadgetCompleteness
  import Encoding
  import Operations
  import OpSoundness

  /** What both runs ought to accept: an integer below the field's order, cut at `bits`. */
  predicate Joins(c: Params, divisor: nat, modulus: nat, bits: nat) {
    modulus < Pow(2, bits) && divisor * Pow(2, bits) + modulus < c.p
  }

  lemma QuotientFits(d: nat, low: Pos, high: nat, p: nat)
    requires d * low < p < low * high
    ensures d < high
  {
    if d >= high { MulMono(high, d, low); }
  }

  lemma DivisorFits(c: Params, d: nat, m: nat, bits: nat)
    requires c.Sizes() && bits <= c.frBits && Joins(c, d, m, bits)
    ensures d < Pow(2, c.frBits - bits)
  {
    PowAdd(2, bits, c.frBits - bits);
    QuotientFits(d, Pow(2, bits), Pow(2, c.frBits - bits), c.p);
  }

  lemma MaxBitsVal(c: Params)
    requires c.Sizes()
    ensures c.frBits <= |Operations.MaxBits(c)| && Val(Operations.MaxBits(c)[..c.frBits], 2) == c.p - 1
  {
    FieldBitsVal(c, c.p - 1);
    Encoding.ZeroTail(Operations.MaxBits(c), 2, c.frBits);
  }

  /** The comparison from the top accepts exactly the integers below the order. */
  lemma CompareMax(c: Params, bits: seq<nat>)
    requires c.Sizes() && |bits| == c.frBits && IsDigits(bits, 2)
    ensures |bits| <= |Operations.MaxBits(c)|
    ensures FoldCompare(Equal, bits, Operations.MaxBits(c)[..|bits|]).Greater? <==> Val(bits, 2) >= c.p
  {
    MaxBitsVal(c);
    FoldCompareVal(Equal, bits, Operations.MaxBits(c)[..c.frBits]);
  }

  lemma MulSwap(x: int, y: int)
    ensures x * y == y * x
  {}

  lemma JoinedVal(low: seq<nat>, high: seq<nat>, b: Pos)
    ensures Val(low + high, b) == Val(high, b) * Pow(b, |low|) + Val(low, b)
  {
    ValAppend(low, high, b);
    MulSwap(Pow(b, |low|), Val(high, b));
  }

  lemma JoinedCompare(c: Params, d: nat, m: nat, bits: nat, modulusBits: seq<nat>, divisorBits: seq<nat>)
    requires c.Sizes() && bits <= c.frBits
    requires |modulusBits| == bits && IsDigits(modulusBits, 2) && Val(modulusBits, 2) == m
    requires |divisorBits| == c.frBits - bits && IsDigits(divisorBits, 2) && Val(divisorBits, 2) == d
    ensures |modulusBits + divisorBits| <= |Operations.MaxBits(c)|
    ensures FoldCompare(Equal, modulusBits + divisorBits,
                        Operations.MaxBits(c)[..|modulusBits + divisorBits|]).Greater?
            <==> d * Pow(2, bits) + m >= c.p
  {
    var joined := modulusBits + divisorBits;
    JoinedVal(modulusBits, divisorBits, 2);
    CompareMax(c, joined);
  }

  lemma Reduced(f: nat, d: nat, m: nat, pow: nat, p: Pos)
    requires f == pow && d * pow + m < p
    ensures (f * d + m) % p == d * pow + m
  {
    assert f * d == d * pow;
    ModSmall(d * pow + m, p);
  }

  lemma NoWrap(c: Params, d: nat, m: nat, bits: nat)
    requires c.Sizes() && bits <= 8 * c.limbBytes && Joins(c, d, m, bits)
    ensures (FieldPow(c, bits) * d + m) % c.p == d * Pow(2, bits) + m
  {
    FieldHoldsBits(c, bits);
    FieldPowVal(c, bits);
    Reduced(FieldPow(c, bits), d, m, Pow(2, bits), c.p);
  }

  /** The two bounds of the interpreter, as bounds on integers. */
  lemma Bounds(c: Params, d: nat, m: nat, bits: nat)
    requires c.Sizes() && d < c.p && m < c.p && bits <= 8 * c.limbBytes
    ensures BoundedBits(c, m, bits).Some? <==> m < Pow(2, bits)
    ensures Joins(c, d, m, bits) && bits >= 1 ==> BoundedBits(c, d, c.frBits - bits).Some?
    ensures bits == 0 ==> BoundedBits(c, d, c.frBits - bits).None?
  {
    BoundedBitsVal(c, m, bits);
    BoundedBitsVal(c, d, c.frBits - bits);
    if Joins(c, d, m, bits) { DivisorFits(c, d, m, bits); }
  }

  /** The bits of two operands within their bounds. */
  ghost predicate Bounded(c: Params, d: nat, m: nat, bits: nat) {
    bits <= 8 * c.limbBytes && c.Sizes() && BoundedBits(c, m, bits).Some? && BoundedBits(c, d, c.frBits - bits).Some?
  }

  /** Within the bounds the comparison decides, and the field arithmetic does not wrap. */
  lemma Compared(c: Params, d: nat, m: nat, bits: nat)
    requires Bounded(c, d, m, bits) && d < c.p && m < c.p
    ensures var joined := BoundedBits(c, m, bits).value + BoundedBits(c, d, c.frBits - bits).value;
            && |joined| <= |Operations.MaxBits(c)|
            && (FoldCompare(Equal, joined, Operations.MaxBits(c)[..|joined|]).Greater? <==> !Joins(c, d, m, bits))
  {
    BoundedBitsVal(c, m, bits);
    BoundedBitsVal(c, d, c.frBits - bits);
    JoinedCompare(c, d, m, bits, BoundedBits(c, m, bits).value, BoundedBits(c, d, c.frBits - bits).value);
  }

  /** Whether the interpreter's two bounds and its comparison pass. */
  predicate Passes(c: Params, d: nat, m: nat, bits: nat) {
    var mb, db := BoundedBits(c, m, bits), if bits <= c.frBits then BoundedBits(c, d, c.frBits - bits) else None;
    && mb.Some? && db.Some?
    && var joined := mb.value + db.value;
       |joined| <= |Operations.MaxBits(c)| && !FoldCompare(Equal, joined, Operations.MaxBits(c)[..|joined|]).Greater?
  }

  lemma PassesIff(c: Params, d: nat, m: nat, bits: nat)
    requires c.Sizes() && d < c.p && m < c.p && bits <= 8 * c.limbBytes
    ensures Passes(c, d, m, bits) <==> bits >= 1 && Joins(c, d, m, bits)
  {
    Bounds(c, d, m, bits);
    if Bounded(c, d, m, bits) { Compared(c, d, m, bits); }
  }

  lemma PassingResult(c: Params, d: nat, m: nat, bits: nat)
    requires bits <= 8 * c.limbBytes && bits <= c.frBits
    ensures Operations.Reconstitute(c, d, m, bits) ==
            if Passes(c, d, m, bits) then Some((FieldPow(c, bits) * d + m) % c.p) else None
  {}

  /** The interpreter accepts exactly when the integer exists, and returns it; a cut at zero is never accepted. */
  lemma OffCircuitAccepts(c: Params, d: nat, m: nat, bits: nat)
    requires c.Sizes() && d < c.p && m < c.p && bits <= 8 * c.limbBytes
    ensures Operations.Reconstitute(c, d, m, bits).Some? <==> bits >= 1 && Joins(c, d, m, bits)
    ensures Operations.Reconstitute(c, d, m, bits).Some? ==>
              Operations.Reconstitute(c, d, m, bits) == Some(d * Pow(2, bits) + m)
  {
    PassesIff(c, d, m, bits);
    PassingResult(c, d, m, bits);
    if bits >= 1 && Joins(c, d, m, bits) { NoWrap(c, d, m, bits); }
  }

  /**
    The constraints of `ReconstituteField` on cells holding `d` and `m`: the prover can
    extend its assignment over them exactly when the integer exists.
   */
  lemma InCircuitAccepts(c: Params, b: Builder, dw: Wire, mw: Wire, bits: nat, a: Assignment)
    requires c.Valid() && Solves(c, b, a) && dw < b.next && mw < b.next && bits <= c.frBits
    requires Cell(a, dw) < c.p && Cell(a, mw) < c.p
    ensures (exists a' :: Carries(c, b, a, Rejoined(c, b, dw, mw, bits), a'))
            <==> Joins(c, Cell(a, dw), Cell(a, mw), bits)
    ensures forall a' :: Carries(c, b, a, Rejoined(c, b, dw, mw, bits), a') ==>
              Cell(a', b.next) == Cell(a, dw) * Pow(2, bits) + Cell(a, mw)
  {
    if Joins(c, Cell(a, dw), Cell(a, mw), bits) {
      var a' := RejoinComplete(c, b, dw, mw, bits, a);
    }
    forall a' | Carries(c, b, a, Rejoined(c, b, dw, mw, bits), a')
      ensures Joins(c, Cell(a, dw), Cell(a, mw), bits) && Cell(a', b.next) == Cell(a, dw) * Pow(2, bits) + Cell(a, mw)
    {
      OpSoundness.ReconstituteCells(c, b, dw, mw, bits, a');
    }
  }

  /** All three forms of `ReconstituteField` accept the same operands with the same, freely witnessed, result. */
  lemma ThreeFormsAgree(c: Params, b: Builder, dw: Wire, mw: Wire, bits: nat, a: Assignment)
    requires c.Valid() && Solves(c, b, a) && dw < b.next && mw < b.next && 1 <= bits <= 8 * c.limbBytes
    requires Cell(a, dw) < c.p && Cell(a, mw) < c.p
    ensures var d, m, b' := Cell(a, dw), Cell(a, mw), Rejoined(c, b, dw, mw, bits);
            && (Operations.Reconstitute(c, d, m, bits).Some? <==> Joins(c, d, m, bits))
            && (Operations.Reconstitute(c, d, m, bits).Some? <==> exists a' :: Carries(c, b, a, b', a'))
            && forall a' :: Carries(c, b, a, b', a') ==>
                 Operations.Reconstitute(c, d, m, bits) == Some(Cell(a', b.next))
  {
    OffCircuitAccepts(c, Cell(a, dw), Cell(a, mw), bits);
    InCircuitAccepts(c, b, dw, mw, bits, a);
  }

  /** Splitting undoes reconstituting and reconstituting undoes splitting. */
  lemma SplitAndReconstitute(c: Params, x: nat, d: nat, m: nat, bits: nat)
    requires c.Sizes() && x < c.p && d < c.p && m < c.p && 1 <= bits <= 8 * c.limbBytes
    ensures var xBits := FieldBits(c, x);
            Operations.Reconstitute(c, FromBits(c, xBits[bits..]), FromBits(c, xBits[..bits]), bits) == Some(x)
    ensures Operations.Reconstitute(c, d, m, bits) == Some(x) ==>
              FromBits(c, FieldBits(c, x)[bits..]) == d && FromBits(c, FieldBits(c, x)[..bits]) == m
  {
    var q, r := x / Pow(2, bits), x % Pow(2, bits);
    Bits.SplitBits(c, x, bits);
    DivModBelow(x, Pow(2, bits));
    HalvesReconstitute(c, x, q, r, bits);
    if Operations.Reconstitute(c, d, m, bits) == Some(x) {
      OffCircuitAccepts(c, d, m, bits);
      DivModUnique(x, Pow(2, bits), d, m);
    }
  }

  lemma HalvesReconstitute(c: Params, x: nat, q: nat, r: nat, bits: nat)
    requires c.Sizes() && x < c.p && q < c.p && r < c.p && 1 <= bits <= 8 * c.limbBytes
    requires r == x % Pow(2, bits) && q == x / Pow(2, bits)
    ensures Operations.Reconstitute(c, q, r, bits) == Some(x)
  {
    JoinHalves(x, r, q, Pow(2, bits));
    OffCircuitAccepts(c, q, r, bits);
  }
}
