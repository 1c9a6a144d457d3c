/**
  Positional notation, least significant digit first. Bits are digits in base 2
  and bytes are digits in base 256, so both the bit folds and the byte packing
  of the virtual machine rest on the facts collected here.
 */
module Digits {

  type Pos = n: nat | n >= 1 witness 1

  function Pow(b: Pos, k: nat): Pos {
    if k == 0 then 1 else
      var r := Pow(b, k - 1);
      MulMono(1, r, b);
      b * r
  }

  predicate IsDigits(ds: seq<nat>, b: nat) {
    forall i :: 0 <= i < |ds| ==> ds[i] < b
  }

  /** The number that a digit list stands for. */
  function Val(ds: seq<nat>, b: nat): nat {
    if ds == [] then 0 else ds[0] + b * Val(ds[1..], b)
  }

  /** The `k` least significant digits of `n`. */
  function DigitsOf(n: nat, b: nat, k: nat): (ds: seq<nat>)
    requires b >= 2
    ensures |ds| == k && IsDigits(ds, b)
  {
    if k == 0 then [] else [n % b] + DigitsOf(n / b, b, k - 1)
  }

  lemma Associative<T>(xs: seq<T>, ys: seq<T>, zs: seq<T>)
    ensures (xs + ys) + zs == xs + (ys + zs)
  {}

  // ----- multiplication and division, one fact at a time -----

  lemma MulAssoc(x: int, y: int, z: int)
    ensures x * (y * z) == (x * y) * z
  {}

  lemma MulDist(x: int, y: int, z: int)
    ensures x * (y + z) == x * y + x * z
  {}

  lemma MulMono(x: nat, y: nat, z: nat)
    requires x <= y
    ensures z * x <= z * y
  {}

  lemma MulSmall(k: int, d: int)
    requires d >= 0 && -d < k * d < d
    ensures k == 0
  {
    if k >= 1 { MulMono(1, k, d); }
  }

  lemma DivModUnique(n: int, d: int, q: int, r: int)
    requires n == q * d + r && 0 <= r < d
    ensures n / d == q && n % d == r
  {
    var k := q - n / d;
    assert k * d == n % d - r;
    MulSmall(k, d);
  }

  lemma ModSmall(n: nat, d: nat)
    requires n < d
    ensures n % d == n && n / d == 0
  {
    DivModUnique(n, d, 0, n);
  }

  /** Reducing a summand first changes nothing. */
  lemma ModAdd(x: int, y: int, m: int)
    requires m > 0
    ensures (x % m + y) % m == (x + y) % m
  {
    var q, s := x / m, (x + y) / m;
    DivModUnique(x % m + y, m, s - q, (x + y) % m);
  }

  /** Reducing a factor first changes nothing. */
  lemma ModMul(x: int, y: int, m: int)
    requires m > 0
    ensures (x % m * y) % m == (x * y) % m
  {
    var q, s := x / m, (x * y) / m;
    assert x == q * m + x % m;
    assert x * y == q * y * m + x % m * y;
    assert x * y == s * m + (x * y) % m;
    assert x % m * y == (s - q * y) * m + (x * y) % m;
    DivModUnique(x % m * y, m, s - q * y, (x * y) % m);
  }

  // ----- powers -----

  lemma {:induction false} PowAdd(b: Pos, i: nat, j: nat)
    ensures Pow(b, i + j) == Pow(b, i) * Pow(b, j)
  {
    if i == 0 {
    } else {
      PowAdd(b, i - 1, j);
      MulAssoc(b, Pow(b, i - 1), Pow(b, j));
    }
  }

  lemma {:induction false} PowMono(b: Pos, i: nat, j: nat)
    requires i <= j
    ensures Pow(b, i) <= Pow(b, j)
  {
    if j == 0 {
    } else {
      if i == j { PowMono(b, i - 1, j - 1); } else { PowMono(b, i, j - 1); }
      MulMono(1, b, Pow(b, j - 1));
    }
  }

  lemma {:induction false} PowOfPow(k: nat)
    ensures Pow(2, 8 * k) == Pow(256, k)
  {
    if k == 0 {
    } else {
      PowOfPow(k - 1);
      PowAdd(2, 8, 8 * (k - 1));
      assert Pow(2, 8) == 256;
    }
  }

  // ----- digit lists and numbers -----

  lemma DigitBelow(d: nat, v: nat, w: nat, b: Pos)
    requires d < b && v < w
    ensures d + b * v < b * w
  {
    MulMono(v + 1, w, b);
    MulDist(b, v, 1);
  }

  lemma {:induction false} ValBound(ds: seq<nat>, b: Pos)
    requires IsDigits(ds, b)
    ensures Val(ds, b) < Pow(b, |ds|)
  {
    if ds == [] {
    } else {
      ValBound(ds[1..], b);
      DigitBelow(ds[0], Val(ds[1..], b), Pow(b, |ds| - 1), b);
    }
  }

  lemma {:induction false} ValAppend(xs: seq<nat>, ys: seq<nat>, b: Pos)
    ensures Val(xs + ys, b) == Val(xs, b) + Pow(b, |xs|) * Val(ys, b)
  {
    if xs == [] {
      assert xs + ys == ys;
    } else {
      var p, v, t := Pow(b, |xs| - 1), Val(ys, b), Val(xs[1..], b);
      calc {
        Val(xs + ys, b);
        { assert (xs + ys)[1..] == xs[1..] + ys; }
        xs[0] + b * Val(xs[1..] + ys, b);
        { ValAppend(xs[1..], ys, b); }
        xs[0] + b * (t + p * v);
        { MulDist(b, t, p * v); MulAssoc(b, p, v); }
        xs[0] + b * t + (b * p) * v;
        Val(xs, b) + Pow(b, |xs|) * Val(ys, b);
      }
    }
  }

  lemma Recombined(n: nat, b: Pos, q: nat, r: nat)
    requires q == n / b && r == n % b
    ensures r + b * q == n
  {}

  lemma QuotientDigits(n: nat, b: nat, k: nat)
    requires b >= 2 && k > 0 && Val(DigitsOf(n / b, b, k - 1), b) == n / b
    ensures Val(DigitsOf(n, b, k), b) == n
  {
    var ds, tail := DigitsOf(n, b, k), DigitsOf(n / b, b, k - 1);
    assert ds[0] == n % b && ds[1..] == tail;
    Recombined(n, b, n / b, n % b);
  }

  lemma QuotientPow(n: nat, b: nat, k: nat)
    requires b >= 2 && k > 0 && n < Pow(b, k)
    ensures n / b < Pow(b, k - 1)
  {
    QuotientBound(n, b, Pow(b, k - 1));
  }

  lemma {:induction false} ValDigits(n: nat, b: nat, k: nat)
    requires b >= 2 && n < Pow(b, k)
    ensures Val(DigitsOf(n, b, k), b) == n
  {
    if k == 0 {
    } else {
      QuotientPow(n, b, k);
      ValDigits(n / b, b, k - 1);
      QuotientDigits(n, b, k);
    }
  }

  lemma QuotientBound(n: nat, b: Pos, m: nat)
    requires n < b * m
    ensures n / b < m
  {
    if n / b >= m {
      MulMono(m, n / b, b);
    }
  }

  lemma {:induction false} DigitsVal(ds: seq<nat>, b: nat)
    requires b >= 2 && IsDigits(ds, b)
    ensures DigitsOf(Val(ds, b), b, |ds|) == ds
  {
    if ds == [] {
    } else {
      DivModUnique(Val(ds, b), b, Val(ds[1..], b), ds[0]);
      DigitsVal(ds[1..], b);
    }
  }

  /** A number has one digit list of each length. */
  lemma ValInjective(xs: seq<nat>, ys: seq<nat>, b: nat)
    requires b >= 2 && IsDigits(xs, b) && IsDigits(ys, b) && |xs| == |ys|
    requires Val(xs, b) == Val(ys, b)
    ensures xs == ys
  {
    DigitsVal(xs, b);
    DigitsVal(ys, b);
  }

  /** Cutting a digit list is dividing by a power of the base. */
  lemma ValSplit(ds: seq<nat>, b: Pos, i: nat)
    requires IsDigits(ds, b) && i <= |ds|
    ensures Val(ds[..i], b) == Val(ds, b) % Pow(b, i)
    ensures Val(ds[i..], b) == Val(ds, b) / Pow(b, i)
  {
    assert ds == ds[..i] + ds[i..];
    ValAppend(ds[..i], ds[i..], b);
    ValBound(ds[..i], b);
    assert Pow(b, i) * Val(ds[i..], b) == Val(ds[i..], b) * Pow(b, i);
    DivModUnique(Val(ds, b), Pow(b, i), Val(ds[i..], b), Val(ds[..i], b));
  }

  function Zeros(k: nat): (zs: seq<nat>)
    ensures |zs| == k
  {
    seq(k, i => 0)
  }

  lemma {:induction false} ValZeros(k: nat, b: nat)
    ensures Val(Zeros(k), b) == 0
  {
    if k == 0 {
    } else {
      assert Zeros(k)[1..] == Zeros(k - 1);
      ValZeros(k - 1, b);
    }
  }

  lemma ValSingle(d: nat, b: nat)
    ensures Val([d], b) == d
  {
    assert Val([d][1..], b) == 0;
    assert b * 0 == 0;
  }

  lemma ValLast(ds: seq<nat>, b: Pos)
    requires ds != []
    ensures Val(ds, b) == Val(ds[..|ds| - 1], b) + Pow(b, |ds| - 1) * ds[|ds| - 1]
  {
    var n := |ds| - 1;
    assert ds == ds[..n] + [ds[n]];
    ValAppend(ds[..n], [ds[n]], b);
    ValSingle(ds[n], b);
  }
}
