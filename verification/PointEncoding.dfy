/**
  Compressed points. A circuit that reads a point from bytes witnesses a curve point,
  compresses it and asserts the bytes equal; for given bytes at most one point passes.
  Coordinates are integers below an odd prime; the group law plays no part.
 */
module PointEncoding {
  import opened Options
  import opened Digits
  import opened Primes
  import Operations

  /** The base field and how many bytes an element of it is written in. */
  datatype Field = Field(q: Pos, width: Pos) {
    ghost predicate Valid() {
      IsPrime(q) && q % 2 == 1 && q <= Pow(256, width)
    }
  }

  /** `y^2 = x^3 + a*x + b`. */
  datatype Weierstrass = Weierstrass(f: Field, a: int, b: int)

  datatype Point = Identity | Finite(x: nat, y: nat)

  predicate OnWeierstrass(cv: Weierstrass, pt: Point) {
    pt.Finite? ==>
      && pt.x < cv.f.q && pt.y < cv.f.q
      && (pt.y * pt.y - Cubic(cv, pt.x)) % cv.f.q == 0
  }

  function Cubic(cv: Weierstrass, x: int): int {
    x * x * x + cv.a * x + cv.b
  }

  // ----- SEC1 compression -----

  /** Section 2.3.3 of SEC 1, with the identity padded to full length. */
  function Sec1(f: Field, pt: Point): (bytes: seq<nat>)
    ensures |bytes| == 1 + f.width
  {
    match pt
    case Identity => Zeros(1 + f.width)
    case Finite(x, y) => [2 + y % 2] + Operations.ReverseOf(DigitsOf(x, 256, f.width))
  }

  method ReverseBytes(a: array<nat>)
    modifies a
    ensures a[..] == Operations.ReverseOf(old(a[..]))
  {
    var lo, hi := 0, a.Length;
    while lo + 1 < hi
      invariant lo + hi == a.Length && lo <= hi + 1
      invariant forall i :: lo <= i < hi ==> a[i] == old(a[i])
      invariant forall i :: 0 <= i < lo || hi <= i < a.Length ==> a[i] == old(a[a.Length - 1 - i])
    {
      hi := hi - 1;
      a[lo], a[hi] := a[hi], a[lo];
      lo := lo + 1;
    }
  }

  method WriteBytes(x: nat, width: nat) returns (bytes: array<nat>)
    ensures fresh(bytes) && bytes[..] == DigitsOf(x, 256, width)
  {
    bytes := new nat[width];
    var rest := x;
    for i := 0 to width
      invariant bytes[..i] + DigitsOf(rest, 256, width - i) == DigitsOf(x, 256, width)
    {
      ghost var before := bytes[..i];
      bytes[i] := rest % 256;
      assert bytes[..i + 1] == before + [rest % 256];
      rest := rest / 256;
    }
    assert bytes[..width] == bytes[..];
  }

  /** Selects zero for every byte when the flag is set. */
  method ZeroIf(isId: bool, bytes: seq<nat>) returns (r: seq<nat>)
    ensures r == if isId then Zeros(|bytes|) else bytes
  {
    r := [];
    for i := 0 to |bytes|
      invariant r == if isId then Zeros(i) else bytes[..i]
    {
      r := r + [if isId then 0 else bytes[i]];
    }
  }

  /**
    `sec1_compress_incircuit` on an identity flag and coordinates, which are those of the
    generator when the flag is set: every byte is zeroed by the flag.
   */
  method Sec1Compress(f: Field, isId: bool, x: nat, y: nat) returns (bytes: seq<nat>)
    ensures bytes == Sec1(f, if isId then Identity else Finite(x, y))
  {
    var xBytes := WriteBytes(x, f.width);
    ReverseBytes(xBytes);
    bytes := ZeroIf(isId, [2 + y % 2] + xBytes[..]);
  }

  /** The integer of a byte string whose most significant byte comes first. */
  function BigEndian(bs: seq<nat>): nat {
    if bs == [] then 0 else 256 * BigEndian(bs[..|bs| - 1]) + bs[|bs| - 1]
  }

  lemma {:induction false} BigEndianOfReverse(ds: seq<nat>)
    ensures BigEndian(Operations.ReverseOf(ds)) == Val(ds, 256)
  {
    var rs := Operations.ReverseOf(ds);
    if ds == [] {
    } else {
      BigEndianOfReverse(ds[1..]);
      assert rs[..|rs| - 1] == Operations.ReverseOf(ds[1..]) && rs[|rs| - 1] == ds[0];
    }
  }

  /**
    The compressed form, read back: the identity is all zero; a finite point starts with 2 if `y` is
    even and with 3 if it is odd, and then has `x`, most significant byte first.
   */
  lemma Sec1Layout(f: Field, pt: Point)
    requires f.Valid() && (pt.Finite? ==> pt.x < f.q)
    ensures |Sec1(f, pt)| == 1 + f.width && IsDigits(Sec1(f, pt), 256)
    ensures pt.Identity? ==> forall i :: 0 <= i < 1 + f.width ==> Sec1(f, pt)[i] == 0
    ensures pt.Finite? ==>
              && (Sec1(f, pt)[0] == 2 <==> pt.y % 2 == 0) && (Sec1(f, pt)[0] == 3 <==> pt.y % 2 == 1)
              && BigEndian(Sec1(f, pt)[1..]) == pt.x
  {
    if pt.Finite? {
      var xs := DigitsOf(pt.x, 256, f.width);
      assert Sec1(f, pt)[1..] == Operations.ReverseOf(xs);
      BigEndianOfReverse(xs);
      ValDigits(pt.x, 256, f.width);
    }
  }

  lemma ReverseInjective(us: seq<nat>, vs: seq<nat>)
    requires |us| == |vs| && Operations.ReverseOf(us) == Operations.ReverseOf(vs)
    ensures us == vs
  {
    forall i | 0 <= i < |us|
      ensures us[i] == vs[i]
    {
      assert Operations.ReverseOf(us)[|us| - 1 - i] == us[i];
      assert Operations.ReverseOf(vs)[|us| - 1 - i] == vs[i];
    }
  }

  lemma SameDigits(f: Field, x: nat, y: nat)
    requires f.Valid() && x < f.q && y < f.q && DigitsOf(x, 256, f.width) == DigitsOf(y, 256, f.width)
    ensures x == y
  {
    ValDigits(x, 256, f.width);
    ValDigits(y, 256, f.width);
  }

  lemma Difference(u: int, v: int, q: Pos)
    requires u % q == 0 && v % q == 0
    ensures (u - v) % q == 0
  {
    assert u - v == (u / q - v / q) * q;
    MultipleIsZero(u / q - v / q, q);
  }

  /** Two curve points with the same `x` and the same parity of `y` are one point. */
  lemma SameAbscissa(cv: Weierstrass, x: nat, y: nat, z: nat)
    requires cv.f.Valid() && OnWeierstrass(cv, Finite(x, y)) && OnWeierstrass(cv, Finite(x, z)) && y % 2 == z % 2
    ensures y == z
  {
    Difference(y * y - Cubic(cv, x), z * z - Cubic(cv, x), cv.f.q);
    SquareRootsDifferInParity(cv.f.q, y, z);
  }

  /** SEC1 compression is injective on curve points. */
  lemma Sec1Injective(cv: Weierstrass, p1: Point, p2: Point)
    requires cv.f.Valid() && OnWeierstrass(cv, p1) && OnWeierstrass(cv, p2) && Sec1(cv.f, p1) == Sec1(cv.f, p2)
    ensures p1 == p2
  {
    assert Sec1(cv.f, p1)[0] == Sec1(cv.f, p2)[0];
    if p1.Finite? && p2.Finite? {
      var d1, d2 := DigitsOf(p1.x, 256, cv.f.width), DigitsOf(p2.x, 256, cv.f.width);
      assert Sec1(cv.f, p1)[1..] == Operations.ReverseOf(d1) && Sec1(cv.f, p2)[1..] == Operations.ReverseOf(d2);
      ReverseInjective(d1, d2);
      SameDigits(cv.f, p1.x, p2.x);
      SameAbscissa(cv, p1.x, p1.y, p2.y);
    }
  }

  // ----- Jubjub compression -----

  /** `a*x^2 + y^2 = 1 + d*x^2*y^2`. */
  datatype Edwards = Edwards(f: Field, a: int, d: int) {
    /** The curve is not degenerate, and the top bit of a coordinate is free for the sign. */
    ghost predicate Valid() {
      f.Valid() && (a - d) % f.q != 0 && f.q <= 128 * Pow(256, f.width - 1)
    }
  }

  predicate OnEdwards(cv: Edwards, x: nat, y: nat) {
    && x < cv.f.q && y < cv.f.q
    && (cv.a * (x * x) + y * y - 1 - cv.d * (x * x) * (y * y)) % cv.f.q == 0
  }

  /** The little-endian `y`, with the parity of `x` in the most significant bit. */
  function JubjubBytes(f: Field, x: nat, y: nat): (bytes: seq<nat>)
    ensures |bytes| == f.width
  {
    var ys := DigitsOf(y, 256, f.width);
    ys[f.width - 1 := ys[f.width - 1] + 128 * (x % 2)]
  }

  /** `jubjub_compress_incircuit`: the last byte is overwritten, which must leave it a byte. */
  method JubjubCompress(f: Field, x: nat, y: nat) returns (bytes: Option<seq<nat>>)
    ensures bytes.Some? ==> bytes.value == JubjubBytes(f, x, y) && IsDigits(bytes.value, 256)
    ensures bytes.Some? <==> IsDigits(JubjubBytes(f, x, y), 256)
  {
    var yBytes := DigitsOf(y, 256, f.width);
    var last := yBytes[f.width - 1] + 128 * (x % 2);
    assert JubjubBytes(f, x, y)[f.width - 1] == last;
    if last >= 256 {
      return None;
    }
    yBytes := yBytes[f.width - 1 := last];
    return Some(yBytes);
  }

  /** The top byte of a coordinate leaves its top bit free, so the sign bit never overflows. */
  lemma TopBitFree(cv: Edwards, y: nat)
    requires cv.Valid() && y < cv.f.q
    ensures DigitsOf(y, 256, cv.f.width)[cv.f.width - 1] < 128
  {
    var n := cv.f.width - 1;
    var ys := DigitsOf(y, 256, cv.f.width);
    ValDigits(y, 256, cv.f.width);
    ValLast(ys, 256);
    if ys[n] >= 128 {
      MulMono(128, ys[n], Pow(256, n));
    }
  }

  lemma NoOverflow(cv: Edwards, x: nat, y: nat)
    requires cv.Valid() && y < cv.f.q
    ensures IsDigits(JubjubBytes(cv.f, x, y), 256)
  {
    TopBitFree(cv, y);
  }

  /** The last byte is at least 128 exactly for odd `x`, and without that bit the bytes are those of `y`. */
  lemma JubjubLayout(cv: Edwards, x: nat, y: nat)
    requires cv.Valid() && y < cv.f.q
    ensures var bs, n := JubjubBytes(cv.f, x, y), cv.f.width - 1;
            && |bs| == cv.f.width && (bs[n] >= 128 <==> x % 2 == 1)
            && Val(bs[n := bs[n] % 128], 256) == y
  {
    var n, ys := cv.f.width - 1, DigitsOf(y, 256, cv.f.width);
    TopBitFree(cv, y);
    ValDigits(y, 256, cv.f.width);
    DivModUnique(ys[n] + 128 * (x % 2), 128, x % 2, ys[n]);
    assert JubjubBytes(cv.f, x, y)[n := ys[n]] == ys;
  }

  lemma Combination(u: int, v: int, s: int, t: int, q: Pos)
    requires u % q == 0 && v % q == 0
    ensures (u * s + v * t) % q == 0
  {
    assert u * s + v * t == (u / q * s + v / q * t) * q;
    MultipleIsZero(u / q * s + v / q * t, q);
  }

  lemma EdwardsFactors(a: int, d: int, xx: int, zz: int, yy: int)
    ensures (a * xx + yy - 1 - d * xx * yy) - (a * zz + yy - 1 - d * zz * yy) == (xx - zz) * (a - d * yy)
    ensures a - d == (a * xx + yy - 1 - d * xx * yy) * d + (a - d * yy) * (1 - d * xx)
  {}

  /** Two curve points with the same `y` and the same parity of `x` are one point. */
  lemma SameOrdinate(cv: Edwards, x: nat, z: nat, y: nat)
    requires cv.Valid() && OnEdwards(cv, x, y) && OnEdwards(cv, z, y) && x % 2 == z % 2
    ensures x == z
  {
    var q, m := cv.f.q, cv.a - cv.d * (y * y);
    var ex := cv.a * (x * x) + y * y - 1 - cv.d * (x * x) * (y * y);
    var ez := cv.a * (z * z) + y * y - 1 - cv.d * (z * z) * (y * y);
    EdwardsFactors(cv.a, cv.d, x * x, z * z, y * y);
    Difference(ex, ez, q);
    EuclidInt(q, x * x - z * z, m);
    if m % q == 0 {
      Combination(ex, m, cv.d, 1 - cv.d * (x * x), q);
      assert false;
    }
    SquareRootsDifferInParity(q, x, z);
  }

  lemma SignAndByte(u: nat, v: nat, s: nat, t: nat)
    requires u < 128 && v < 128 && s < 2 && t < 2 && u + 128 * s == v + 128 * t
    ensures u == v && s == t
  {}

  /** The Jubjub encoding is injective on curve points. */
  lemma JubjubInjective(cv: Edwards, x1: nat, y1: nat, x2: nat, y2: nat)
    requires cv.Valid() && OnEdwards(cv, x1, y1) && OnEdwards(cv, x2, y2)
    requires JubjubBytes(cv.f, x1, y1) == JubjubBytes(cv.f, x2, y2)
    ensures x1 == x2 && y1 == y2
  {
    var n := cv.f.width - 1;
    var d1, d2 := DigitsOf(y1, 256, cv.f.width), DigitsOf(y2, 256, cv.f.width);
    TopBitFree(cv, y1);
    TopBitFree(cv, y2);
    var b1, b2 := JubjubBytes(cv.f, x1, y1), JubjubBytes(cv.f, x2, y2);
    assert b1[n] == b2[n];
    SignAndByte(d1[n], d2[n], x1 % 2, x2 % 2);
    assert d1 == b1[n := d1[n]] && d2 == b2[n := d2[n]];
    SameDigits(cv.f, y1, y2);
    SameOrdinate(cv, x1, x2, y1);
  }

  // ----- decoding -----

  /** `assert_bytes_equal`: an error when the lengths differ, else equality byte by byte. */
  method AssertBytesEqual(a: seq<nat>, b: seq<nat>) returns (holds: Option<bool>)
    ensures holds == if |a| != |b| then None else Some(a == b)
  {
    if |a| != |b| {
      return None;
    }
    for i := 0 to |a|
      invariant a[..i] == b[..i]
    {
      if a[i] != b[i] {
        return Some(false);
      }
    }
    return Some(true);
  }

  /** The constraints of `from_bytes_incircuit` on a witnessed Weierstrass point. */
  predicate DecodesTo(cv: Weierstrass, bytes: seq<nat>, pt: Point) {
    OnWeierstrass(cv, pt) && |bytes| == 1 + cv.f.width && bytes == Sec1(cv.f, pt)
  }

  /** The constraints of `from_bytes_incircuit` on a witnessed Jubjub point. */
  predicate JubjubDecodesTo(cv: Edwards, bytes: seq<nat>, x: nat, y: nat) {
    OnEdwards(cv, x, y) && |bytes| == cv.f.width && bytes == JubjubBytes(cv.f, x, y)
  }

  /** In-circuit point decoding is unique: whatever the prover witnesses, only one point passes. */
  lemma DecodedPointIsUnique(cv: Weierstrass, bytes: seq<nat>, p1: Point, p2: Point)
    requires cv.f.Valid() && DecodesTo(cv, bytes, p1) && DecodesTo(cv, bytes, p2)
    ensures p1 == p2
  {
    Sec1Injective(cv, p1, p2);
  }

  lemma DecodedJubjubPointIsUnique(cv: Edwards, bytes: seq<nat>, x1: nat, y1: nat, x2: nat, y2: nat)
    requires cv.Valid() && JubjubDecodesTo(cv, bytes, x1, y1) && JubjubDecodesTo(cv, bytes, x2, y2)
    ensures x1 == x2 && y1 == y2
  {
    JubjubInjective(cv, x1, y1, x2, y2);
  }

  /** Off-circuit, the library's decoding is kept only if it encodes back to the bytes. */
  function DecodePoint(cv: Weierstrass, library: seq<nat> -> Option<Point>, bytes: seq<nat>): Option<Point> {
    var pt :- library(bytes);
    if Sec1(cv.f, pt) == bytes then Some(pt) else None
  }

  /**
    Whatever the library accepts, the re-encoding check leaves only canonical encodings, and
    the point decoded off-circuit is the only one that the circuit admits for the same bytes.
   */
  lemma DecodingsAgree(cv: Weierstrass, library: seq<nat> -> Option<Point>, bytes: seq<nat>, pt: Point)
    requires cv.f.Valid() && (library(bytes).Some? ==> OnWeierstrass(cv, library(bytes).value))
    requires DecodePoint(cv, library, bytes).Some?
    ensures DecodePoint(cv, library, bytes) == Some(pt) <==> DecodesTo(cv, bytes, pt)
  {
    if DecodesTo(cv, bytes, pt) {
      DecodedPointIsUnique(cv, bytes, pt, DecodePoint(cv, library, bytes).value);
    }
  }
}
