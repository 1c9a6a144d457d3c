/** Prime moduli: no zero divisors, inverses, and square roots up to sign. */
module Primes {
  import opened Options
  import opened Digits
  import opened Types
  import Operations
  import OpSoundness

  ghost predicate IsPrime(q: nat) {
    q > 1 && forall d :: 1 < d < q ==> q % d != 0
  }

  lemma MultipleIsZero(k: int, q: Pos)
    ensures (k * q) % q == 0
  {
    DivModUnique(k * q, q, k, 0);
  }

  /** A prime that divides a product divides the second factor unless the first is zero. */
  lemma {:induction false} Euclid(q: nat, x: nat, y: int)
    requires IsPrime(q) && 0 < x < q && (x * y) % q == 0
    ensures y % q == 0
    decreases x
  {
    if x == 1 {
    } else {
      var k, r := q / x, q % x;
      var t := x * y / q;
      assert q == k * x + r && x * y == t * q;
      assert r * y == (y - k * t) * q by {
        assert r * y == q * y - k * (x * y);
      }
      MultipleIsZero(y - k * t, q);
      Euclid(q, r, y);
    }
  }

  lemma EuclidInt(q: nat, x: int, y: int)
    requires IsPrime(q) && (x * y) % q == 0
    ensures x % q == 0 || y % q == 0
  {
    if x % q != 0 {
      ModMul(x, y, q);
      Euclid(q, x % q, y);
    }
  }

  /** From an inverse of the remainder, the inverse of the divisor. */
  lemma InverseStep(q: int, x: int, k: int, r: int, z: int, t: int, u: int, y: int)
    requires q == k * x + r && r * z == t * q + 1 && -(k * z) == u * q + y
    ensures x * y == (t - z - x * u) * q + 1
  {
    calc {
      x * y;
      x * (-(k * z) - u * q);
      -(k * x) * z - x * u * q;
      (r - q) * z - x * u * q;
      r * z - z * q - x * u * q;
      (t - z - x * u) * q + 1;
    }
  }

  /** Every non-zero element of a prime field has an inverse. */
  lemma {:induction false} InverseExists(q: nat, x: nat) returns (y: nat)
    requires IsPrime(q) && 0 < x < q
    ensures y < q && (x * y) % q == 1
    decreases x
  {
    if x == 1 {
      y := 1;
      ModSmall(1, q);
    } else {
      var k, r := q / x, q % x;
      var z := InverseExists(q, r);
      var t, u := r * z / q, (-(k * z)) / q;
      y := (-(k * z)) % q;
      InverseStep(q, x, k, r, z, t, u, y);
      DivModUnique(x * y, q, t - z - x * u, 1);
    }
  }

  /** In a prime field inversion fails at zero and nowhere else, and its result is the inverse. */
  lemma InvertIff(q: nat, x: nat)
    requires IsPrime(q) && x < q
    ensures x != 0 <==> exists y :: y < q && (x * y) % q == 1
    ensures x != 0 ==> Operations.Invert(q, x, 0).Some? && (x * Operations.Invert(q, x, 0).value) % q == 1
  {
    ModSmall(0, q);
    ModSmall(1, q);
    if x != 0 {
      var y := InverseExists(q, x);
      OpSoundness.InvertFinds(q, x, y, 0);
      OpSoundness.InvertIsInverse(q, x, 0);
    }
  }

  /** The interpreter's `Inv` on a prime-field value fails exactly at zero. */
  lemma InverseFailsOnlyAtZero(c: Params, v: IrValue)
    requires ValidValue(c, v) && Operations.Modulus(c, TypeOf(v)).Some?
             && IsPrime(Operations.Modulus(c, TypeOf(v)).value)
    ensures Operations.Inverse(c, v).Some? <==> Operations.Elem(v) != 0
  {
    InvertIff(Operations.Modulus(c, TypeOf(v)).value, Operations.Elem(v));
  }

  lemma SumMultiple(x: nat, y: nat, q: Pos)
    requires x < q && y < q && (x + y) % q == 0
    ensures x + y == 0 || x + y == q
  {
    var t := (x + y) / q;
    assert x + y == t * q;
    if t >= 2 { MulMono(2, t, q); }
  }

  lemma DifferenceMultiple(x: nat, y: nat, q: Pos)
    requires x < q && y < q && (x - y) % q == 0
    ensures x == y
  {
    MulSmall((x - y) / q, q);
  }

  lemma DifferenceOfSquares(x: int, y: int)
    ensures x * x - y * y == (x - y) * (x + y)
  {}

  /** Two elements with the same square and the same parity are equal. */
  lemma SquareRootsDifferInParity(q: nat, x: nat, y: nat)
    requires IsPrime(q) && q % 2 == 1 && x < q && y < q
    requires (x * x - y * y) % q == 0 && x % 2 == y % 2
    ensures x == y
  {
    DifferenceOfSquares(x, y);
    EuclidInt(q, x - y, x + y);
    if (x - y) % q == 0 { DifferenceMultiple(x, y, q); } else { SumMultiple(x, y, q); }
  }
}
