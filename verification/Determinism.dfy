/**
  Every cell of a circuit is determined by the cells that the prover chooses: no gadget leaves
  a result open, and each call is made on cells that exist before its results.
 */
module Determinism {
  import opened Options
  import opened Digits
  import opened Types
  import opened Gadgets
  import OpSoundness

  // ----- one call -----

  lemma NegUnique(m: Pos, x: nat, y: nat, z: nat)
    requires y < m && z < m && (x + y) % m == 0 && (x + z) % m == 0
    ensures y == z
  {
    var i, j := (x + y) / m, (x + z) / m;
    assert y - z == (i - j) * m;
    MulSmall(i - j, m);
  }

  lemma InvUnique(m: Pos, x: nat, y: nat, z: nat)
    requires y < m && z < m && (x * y) % m == 1 && (x * z) % m == 1
    ensures y == z
  {
    assert m > 1;
    ModSmall(1, m);
    OpSoundness.InverseUnique(m, x, y, z);
  }

  lemma SplitUnique(n: nat, d: Pos, ys: seq<nat>, zs: seq<nat>)
    requires |ys| == 2 && |zs| == 2 && ys[1] < d && zs[1] < d
    requires n == ys[0] * d + ys[1] && n == zs[0] * d + zs[1]
    ensures ys == zs
  {
    DivModUnique(n, d, ys[0], ys[1]);
    DivModUnique(n, d, zs[0], zs[1]);
  }

  lemma LimbsUnique(n: nat, d: Pos, ys: seq<nat>, zs: seq<nat>)
    requires |ys| == 2 && |zs| == 2 && ys[0] < d && zs[0] < d
    requires n == ys[0] + d * ys[1] && n == zs[0] + d * zs[1]
    ensures ys == zs
  {
    DivModUnique(n, d, ys[1], ys[0]);
    DivModUnique(n, d, zs[1], zs[0]);
  }

  lemma DigitsUnique(ys: seq<nat>, zs: seq<nat>, base: Pos)
    requires IsDigits(ys, base) && IsDigits(zs, base) && |ys| == |zs| && Val(ys, base) == Val(zs, base)
    ensures ys == zs
  {
    if base >= 2 { ValInjective(ys, zs, base); }
  }

  /** A gadget that is not a free assignment has at most one list of results. */
  lemma ResultsDetermined(c: Params, g: Gadget, xs: seq<nat>, ys: seq<nat>, zs: seq<nat>)
    requires !g.Assign? && Relation(c, g, xs, ys) && Relation(c, g, xs, zs)
    ensures ys == zs
  {
    match g
    case NegMod(m) => NegUnique(m, xs[0], ys[0], zs[0]);
    case InvMod(m) => InvUnique(m, xs[0], ys[0], zs[0]);
    case Decompose(base, _) => DigitsUnique(ys, zs, base);
    case DivRem(m) => SplitUnique(Val(xs, 256), m, ys, zs);
    case PackScalar => LimbsUnique(xs[0], Pow(2, c.scalarBits), ys, zs);
    case PackForeign(f) =>
      LimbsUnique(ys[0] + Pow(2, c.lowBits) * ys[1], Pow(2, c.lowBits), ys, zs);
    case _ =>
  }

  // ----- all cells -----

  /** The results of free assignments agree. */
  predicate ChoicesAgree(b: Builder, a: Assignment, a': Assignment) {
    forall i :: 0 <= i < |b.constraints| && b.constraints[i].g.Assign? ==>
      Cells(a, b.constraints[i].outs) == Cells(a', b.constraints[i].outs)
  }

  lemma CallDetermined(c: Params, k: Constraint, a: Assignment, a': Assignment)
    requires Holds(c, k, a) && Holds(c, k, a') && !k.g.Assign?
    requires forall j :: 0 <= j < |k.ins| ==> Cell(a, k.ins[j]) == Cell(a', k.ins[j])
    ensures Cells(a, k.outs) == Cells(a', k.outs)
  {
    assert Cells(a, k.ins) == Cells(a', k.ins);
    ResultsDetermined(c, k.g, Cells(a, k.ins), Cells(a, k.outs), Cells(a', k.outs));
  }

  lemma {:induction false} CellDetermined(c: Params, b: Builder, a: Assignment, a': Assignment, w: Wire)
    requires WellFormed(b) && Sat(c, b, a) && Sat(c, b, a') && ChoicesAgree(b, a, a') && w < b.next
    ensures Cell(a, w) == Cell(a', w)
    decreases w
  {
    assert Made(b, w);
    var i, from :|
      && 0 <= i < |b.constraints| && 0 <= from <= w < from + |b.constraints[i].outs|
      && b.constraints[i].outs == Fresh(from, |b.constraints[i].outs|) && InBounds(b.constraints[i].ins, from);
    var k := b.constraints[i];
    assert Holds(c, k, a) && Holds(c, k, a');
    if !k.g.Assign? {
      forall j | 0 <= j < |k.ins|
        ensures Cell(a, k.ins[j]) == Cell(a', k.ins[j])
      {
        CellDetermined(c, b, a, a', k.ins[j]);
      }
      CallDetermined(c, k, a, a');
    }
    assert Cells(a, k.outs)[w - from] == Cell(a, w) && Cells(a', k.outs)[w - from] == Cell(a', w);
  }
}
