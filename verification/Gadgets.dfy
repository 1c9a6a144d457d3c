/**
  The constraint system. A circuit is a list of gadget calls over numbered cells; the
  relation of a gadget is what the library documents its constraints to enforce. An
  assignment satisfies the circuit when every relation holds of the cells it names.
 */
module Gadgets {
  import opened Options
  import opened Digits
  import opened Types
  import Encoding

  type Wire = nat

  type Assignment = seq<nat>

  datatype Gadget =
    | Assign(bound: nat)                  // fresh cells, chosen by the prover
    | Fixed(values: seq<nat>)             // constants of the circuit
    | AddMod(m: Pos) | MulMod(m: Pos) | NegMod(m: Pos) | InvMod(m: Pos)
    | NotBit | AndBits | OrBits | XorBits
    | Select                              // bit, then, else
    | IsEqual
    | AssertEqual | AssertNonZero | AssertFixed(value: nat)
    | InRange(bound: nat)                 // conversion of a native cell to a bit or a byte
    | Decompose(base: Pos, n: nat)        // canonical digits of an integer
    | Recompose(base: Pos, m: Pos)        // digits to an element of a field
    | LowerThan(n: nat)                   // comparison of two n-bit integers
    | DivRem(m: Pos)                      // quotient and remainder of a byte string
    | PackScalar                          // a Jubjub scalar as two native limbs
    | PackForeign(field: ForeignField)    // a foreign element as two native limbs
    | Poseidon
    | Digest(kind: HashKind)

  datatype Constraint = Constraint(g: Gadget, ins: seq<Wire>, outs: seq<Wire>)

  predicate Relation(c: Params, g: Gadget, xs: seq<nat>, ys: seq<nat>) {
    match g
    case Assign(bound) => IsDigits(ys, bound)
    case Fixed(values) => ys == values
    case AddMod(m) => |xs| == 2 && |ys| == 1 && ys[0] == (xs[0] + xs[1]) % m
    case MulMod(m) => |xs| == 2 && |ys| == 1 && ys[0] == (xs[0] * xs[1]) % m
    case NegMod(m) => |xs| == 1 && |ys| == 1 && ys[0] < m && (xs[0] + ys[0]) % m == 0
    case InvMod(m) => |xs| == 1 && |ys| == 1 && ys[0] < m && (xs[0] * ys[0]) % m == 1
    case NotBit => |xs| == 1 && |ys| == 1 && xs[0] + ys[0] == 1
    case AndBits => |ys| == 1 && ys[0] == if forall i :: 0 <= i < |xs| ==> xs[i] == 1 then 1 else 0
    case OrBits => |ys| == 1 && ys[0] == if exists i :: 0 <= i < |xs| && xs[i] == 1 then 1 else 0
    case XorBits => |ys| == 1 && ys[0] == Sum(xs) % 2
    case Select => |xs| == 3 && |ys| == 1 && ys[0] == if xs[0] == 1 then xs[1] else xs[2]
    case IsEqual => |xs| == 2 && |ys| == 1 && ys[0] == if xs[0] == xs[1] then 1 else 0
    case AssertEqual => |xs| == 2 && ys == [] && xs[0] == xs[1]
    case AssertNonZero => |xs| == 1 && ys == [] && xs[0] != 0
    case AssertFixed(value) => |xs| == 1 && ys == [] && xs[0] == value
    case InRange(bound) => |xs| == 1 && ys == [] && xs[0] < bound
    case Decompose(base, n) => |xs| == 1 && |ys| == n && IsDigits(ys, base) && Val(ys, base) == xs[0]
    case Recompose(base, m) => |ys| == 1 && ys[0] == Val(xs, base) % m
    case LowerThan(n) =>
      && |xs| == 2 && |ys| == 1 && xs[0] < Pow(2, n) && xs[1] < Pow(2, n)
      && ys[0] == if xs[0] < xs[1] then 1 else 0
    case DivRem(m) => |ys| == 2 && Val(xs, 256) == ys[0] * m + ys[1] && ys[1] < m
    case PackScalar =>
      && |xs| == 1 && |ys| == 2 && ys[0] < Pow(2, c.scalarBits)
      && ys[0] + Pow(2, c.scalarBits) * ys[1] == xs[0]
    case PackForeign(f) =>
      && |xs| == 1 && |ys| == 2 && ys[0] < Pow(2, c.lowBits)
      && ys[0] + Pow(2, c.lowBits) * ys[1] == Encoding.Predecessor(xs[0], c.order(f))
    case Poseidon => |ys| == 1 && ys[0] == c.poseidon(xs)
    case Digest(kind) => ys == c.digest(kind, xs)
  }

  function Sum(xs: seq<nat>): nat {
    if xs == [] then 0 else xs[0] + Sum(xs[1..])
  }

  // ----- cells and satisfaction -----

  function Cell(a: Assignment, w: Wire): nat {
    if w < |a| then a[w] else 0
  }

  function Cells(a: Assignment, ws: seq<Wire>): (xs: seq<nat>)
    ensures |xs| == |ws| && forall i :: 0 <= i < |ws| ==> xs[i] == Cell(a, ws[i])
  {
    seq(|ws|, i requires 0 <= i < |ws| => Cell(a, ws[i]))
  }

  predicate Holds(c: Params, k: Constraint, a: Assignment) {
    Relation(c, k.g, Cells(a, k.ins), Cells(a, k.outs))
  }

  /** The layouter: how many cells exist, and the constraints emitted so far. */
  datatype Builder = Builder(next: nat, constraints: seq<Constraint>)

  predicate Sat(c: Params, b: Builder, a: Assignment) {
    forall i :: 0 <= i < |b.constraints| ==> Holds(c, b.constraints[i], a)
  }

  function Fresh(from: nat, n: nat): (ws: seq<Wire>)
    ensures |ws| == n && forall i :: 0 <= i < n ==> ws[i] == from + i
  {
    seq(n, i => from + i)
  }

  /** Calls a gadget on existing cells and gives it `n` fresh ones for its results. */
  function Emit(b: Builder, g: Gadget, ins: seq<Wire>, n: nat): Builder {
    Builder(b.next + n, b.constraints + [Constraint(g, ins, Fresh(b.next, n))])
  }

  predicate InBounds(ws: seq<Wire>, n: nat) {
    IsDigits(ws, n)
  }

  /** The cell is a result of some call, made on cells that existed before its results. */
  ghost predicate Made(b: Builder, w: Wire) {
    exists i, from ::
      && 0 <= i < |b.constraints| && 0 <= from <= w < from + |b.constraints[i].outs|
      && b.constraints[i].outs == Fresh(from, |b.constraints[i].outs|) && InBounds(b.constraints[i].ins, from)
  }

  ghost predicate WellFormed(b: Builder) {
    && (forall i :: 0 <= i < |b.constraints| ==>
          InBounds(b.constraints[i].ins, b.next) && InBounds(b.constraints[i].outs, b.next))
    && forall w :: 0 <= w < b.next ==> Made(b, w)
  }

  lemma MadeLater(b: Builder, g: Gadget, ins: seq<Wire>, n: nat, w: Wire)
    requires InBounds(ins, b.next) && w < b.next + n && (w < b.next ==> Made(b, w))
    ensures Made(Emit(b, g, ins, n), w)
  {
    var b' := Emit(b, g, ins, n);
    if w < b.next {
      var i, from :|
        && 0 <= i < |b.constraints| && 0 <= from <= w < from + |b.constraints[i].outs|
        && b.constraints[i].outs == Fresh(from, |b.constraints[i].outs|) && InBounds(b.constraints[i].ins, from);
      assert b'.constraints[i] == b.constraints[i];
    } else {
      assert b'.constraints[|b.constraints|].outs == Fresh(b.next, n);
    }
  }

  /** An assignment that covers exactly the cells of a builder and satisfies it. */
  ghost predicate Solves(c: Params, b: Builder, a: Assignment) {
    WellFormed(b) && |a| == b.next && Sat(c, b, a)
  }

  /** What satisfying an emitted call says about its cells. */
  lemma Emitted(c: Params, b: Builder, g: Gadget, ins: seq<Wire>, n: nat, a: Assignment)
    requires Sat(c, Emit(b, g, ins, n), a)
    ensures Sat(c, b, a)
    ensures Relation(c, g, Cells(a, ins), Cells(a, Fresh(b.next, n)))
    ensures n == 1 ==> Cells(a, Fresh(b.next, n)) == [Cell(a, b.next)]
  {
    var b' := Emit(b, g, ins, n);
    assert Holds(c, b'.constraints[|b.constraints|], a);
    forall i | 0 <= i < |b.constraints|
      ensures Holds(c, b.constraints[i], a)
    {
      assert Holds(c, b'.constraints[i], a);
    }
  }

  lemma CellsCat(a: Assignment, us: seq<Wire>, ws: seq<Wire>)
    ensures Cells(a, us + ws) == Cells(a, us) + Cells(a, ws)
  {}

  lemma CellsCons(a: Assignment, w: Wire, rest: seq<Wire>)
    ensures Cells(a, [w] + rest) == [Cell(a, w)] + Cells(a, rest)
  {}

  lemma CellsSlice(a: Assignment, ws: seq<Wire>, i: nat, j: nat)
    requires i <= j <= |ws|
    ensures Cells(a, ws[i..j]) == Cells(a, ws)[i..j]
  {}

  lemma CellsCut(a: Assignment, ws: seq<Wire>, i: nat)
    requires i <= |ws|
    ensures Cells(a, ws[..i]) == Cells(a, ws)[..i] && Cells(a, ws[i..]) == Cells(a, ws)[i..]
  {}

  lemma CellsExtend(a: Assignment, ys: seq<nat>, ws: seq<Wire>)
    requires InBounds(ws, |a|)
    ensures Cells(a + ys, ws) == Cells(a, ws)
  {}

  /** A satisfying assignment extends over an emitted call by any results that it relates. */
  lemma Extend(c: Params, b: Builder, g: Gadget, ins: seq<Wire>, n: nat, a: Assignment, ys: seq<nat>)
    requires Solves(c, b, a) && InBounds(ins, b.next) && |ys| == n
    requires Relation(c, g, Cells(a, ins), ys)
    ensures Solves(c, Emit(b, g, ins, n), a + ys)
    ensures Cells(a + ys, Fresh(b.next, n)) == ys
  {
    var b', a' := Emit(b, g, ins, n), a + ys;
    forall i | 0 <= i < |b'.constraints|
      ensures Holds(c, b'.constraints[i], a')
      ensures InBounds(b'.constraints[i].ins, b'.next) && InBounds(b'.constraints[i].outs, b'.next)
    {
      if i < |b.constraints| {
        var k := b.constraints[i];
        assert Holds(c, k, a) && InBounds(k.ins, b.next) && InBounds(k.outs, b.next);
        CellsExtend(a, ys, k.ins);
        CellsExtend(a, ys, k.outs);
      } else {
        CellsExtend(a, ys, ins);
        assert Cells(a', Fresh(b.next, n)) == ys;
      }
    }
    forall w | 0 <= w < b'.next
      ensures Made(b', w)
    {
      MadeLater(b, g, ins, n, w);
    }
    assert Cells(a', Fresh(b.next, n)) == ys;
  }
}
