/**
  Soundness of one computing instruction: an assignment that satisfies what synthesis
  emits for it holds exactly the values that `CircuitApply` computes from its operands.
 */
module OpSoundness {
  import opened Options
  import opened Digits
  import opened Types
  import opened Instructions
  import opened Gadgets
  import opened Circuit
  import opened Readings
  import opened GadgetSoundness
  import opened CircuitRun
  import Bits
  import Encoding
  import Operations

  /** The results read off the assignment are those of the instruction, and well typed. */
  ghost predicate Matches(c: Params, ins: Instruction, a: Assignment, vs: seq<CircuitValue>, rs: seq<CircuitValue>)
    requires ins.Computes() && |vs| == |ins.Args()|
  {
    SortedAll(c, a, rs) && CircuitApply(c, ins, ReadAll(a, vs)) == Some(ReadAll(a, rs))
  }

  /** The situation of every lemma below. */
  ghost predicate Emits(c: Params, ins: Instruction, b: Builder, vs: seq<CircuitValue>, a: Assignment,
                        b': Builder, rs: seq<CircuitValue>)
  {
    && c.Valid() && SortedAll(c, a, vs)
    && ins.Computes() && |vs| == |ins.Args()|
    && SynthOp(c, ins, b, vs) == Some((b', rs)) && Sat(c, b', a)
  }

  lemma One(c: Params, a: Assignment, v: CircuitValue)
    requires Sorted(c, a, v)
    ensures SortedAll(c, a, [v]) && ReadAll(a, [v]) == [Read(a, v)]
  {}

  /** A fresh single cell holding `x` is the value of type `t` with integer `x`. */
  lemma FreshElem(c: Params, a: Assignment, t: IrType, w: Wire, x: nat)
    requires Operations.Modulus(c, t).Some? && Cell(a, w) == x < Operations.Modulus(c, t).value
    ensures var v := OfWires(t, [w]);
            && SortedAll(c, a, [v]) && ReadAll(a, [v]) == [Operations.OfElem(t, x)] && Sorted(c, a, v)
  {
    assert Cells(a, [w]) == [x];
    One(c, a, OfWires(t, [w]));
  }

  lemma FreshBit(c: Params, a: Assignment, w: Wire, b: bool)
    requires c.Sizes() && Cell(a, w) == BoolCell(b)
    ensures SortedAll(c, a, [CircuitValue.Bool(w)]) && ReadAll(a, [CircuitValue.Bool(w)]) == [IrValue.Bool(b)]
    ensures SortedAll(c, a, [CircuitValue.Native(w)]) && ReadAll(a, [CircuitValue.Native(w)]) == [Operations.FromBit(b)]
  {
    FieldHoldsLimb(c);
    assert Cells(a, [w]) == [BoolCell(b)];
  }

  lemma Pair(a: Assignment, x: Wire, y: Wire)
    ensures Cells(a, [x]) == [Cell(a, x)] && Cells(a, [x, y]) == [Cell(a, x), Cell(a, y)]
  {}

  lemma NegIs(m: Pos, x: nat, y: nat)
    requires x < m && y < m && (x + y) % m == 0
    ensures y == Operations.NegMod(m, x)
  {
    ModSmall(x, m);
    var q := (x + y) / m;
    assert x + y == q * m;
    if q >= 2 { MulMono(2, q, m); }
    if x == 0 {
      DivModUnique(m, m, 1, 0);
    } else {
      ModSmall(m - x, m);
    }
  }

  /** The search finds an inverse when there is one. */
  lemma {:induction false} InvertFinds(m: Pos, x: nat, y: nat, from: nat)
    requires from <= y < m && (x * y) % m == 1 % m
    ensures Operations.Invert(m, x, from).Some?
    decreases y - from
  {
    if (x * from) % m == 1 % m {
    } else {
      InvertFinds(m, x, y, from + 1);
    }
  }

  lemma {:induction false} InvertIsInverse(m: Pos, x: nat, from: nat)
    ensures Operations.Invert(m, x, from).Some? ==>
              var y := Operations.Invert(m, x, from).value;
              from <= y < m && (x * y) % m == 1 % m
    decreases m - from
  {
    if from >= m || (x * from) % m == 1 % m {
    } else {
      InvertIsInverse(m, x, from + 1);
    }
  }

  /** Inverses are unique: multiply one by the equation of the other. */
  lemma InverseUnique(m: Pos, x: nat, y: nat, z: nat)
    requires y < m && z < m && (x * y) % m == 1 % m && (x * z) % m == 1 % m
    ensures y == z
  {
    ModMul(x * y, z, m);
    ModMul(x * z, y, m);
    ModMul(1, z, m);
    ModMul(1, y, m);
    assert (x * y) * z == (x * z) * y;
    ModSmall(y, m);
    ModSmall(z, m);
  }

  lemma InvIs(m: Pos, x: nat, y: nat)
    requires m > 1 && y < m && (x * y) % m == 1
    ensures x != 0 && Operations.Invert(m, x, 0) == Some(y)
  {
    ModSmall(1, m);
    ModSmall(0, m);
    InvertFinds(m, x, y, 0);
    InvertIsInverse(m, x, 0);
    InverseUnique(m, x, y, Operations.Invert(m, x, 0).value);
  }

  lemma ArithCells(c: Params, ins: Instruction, b: Builder, x: CircuitValue, y: CircuitValue, a: Assignment,
      b': Builder, rs: seq<CircuitValue>)
    requires c.Valid() && Sorted(c, a, x) && Sorted(c, a, y) && (ins.Add? || ins.Mul?)
    requires SynthArith(c, b, ins, x, y) == Some((b', rs)) && Sat(c, b', a)
    ensures Sat(c, b, a) && SortedAll(c, a, rs)
    ensures Operations.Arith(c, ins, Read(a, x), Read(a, y)) == Some(ReadAll(a, rs))
  {
    var t := CircuitTypeOf(x);
    var m := Operations.Modulus(c, t).value;
    Emitted(c, b, if ins.Add? then AddMod(m) else MulMod(m), [x.w, y.w], 1, a);
    Pair(a, x.w, y.w);
    FreshElem(c, a, t, b.next, Cell(a, b.next));
  }

  lemma ArithSound(c: Params, ins: Instruction, b: Builder, vs: seq<CircuitValue>, a: Assignment,
      b': Builder, rs: seq<CircuitValue>)
    requires Emits(c, ins, b, vs, a, b', rs) && (ins.Add? || ins.Mul?)
    ensures Sat(c, b, a) && Matches(c, ins, a, vs, rs)
  {
    ArithCells(c, ins, b, vs[0], vs[1], a, b', rs);
  }

  lemma NegCells(c: Params, b: Builder, x: CircuitValue, m: Pos, a: Assignment)
    requires Operations.Modulus(c, CircuitTypeOf(x)) == Some(m) && Sorted(c, a, x) && !x.Bytes?
    requires Sat(c, Emit(b, NegMod(m), [x.w], 1), a)
    ensures Sat(c, b, a)
    ensures var rs := [OfWires(CircuitTypeOf(x), [b.next])];
            SortedAll(c, a, rs) && Operations.Negate(c, Read(a, x)) == Some(ReadAll(a, rs))
  {
    SortedIsValid(c, a, x);
    Emitted(c, b, NegMod(m), [x.w], 1, a);
    Pair(a, x.w, x.w);
    FreshElem(c, a, CircuitTypeOf(x), b.next, Cell(a, b.next));
    NegIs(m, Cell(a, x.w), Cell(a, b.next));
  }

  lemma InvCells(c: Params, b: Builder, x: CircuitValue, m: Pos, a: Assignment)
    requires c.Sizes() && Operations.Modulus(c, CircuitTypeOf(x)) == Some(m) && Sorted(c, a, x) && !x.Bytes?
    requires Sat(c, Emit(b, InvMod(m), [x.w], 1), a)
    ensures Sat(c, b, a)
    ensures var rs := [OfWires(CircuitTypeOf(x), [b.next])];
            SortedAll(c, a, rs) && Operations.Inverse(c, Read(a, x)) == Some(ReadAll(a, rs))
  {
    SortedIsValid(c, a, x);
    Emitted(c, b, InvMod(m), [x.w], 1, a);
    Pair(a, x.w, x.w);
    FreshElem(c, a, CircuitTypeOf(x), b.next, Cell(a, b.next));
    FieldHoldsLimb(c);
    InvIs(m, Cell(a, x.w), Cell(a, b.next));
  }

  lemma UnarySound(c: Params, ins: Instruction, b: Builder, vs: seq<CircuitValue>, a: Assignment,
      b': Builder, rs: seq<CircuitValue>)
    requires Emits(c, ins, b, vs, a, b', rs) && (ins.Neg? || ins.Inv?)
    ensures Sat(c, b, a) && Matches(c, ins, a, vs, rs)
  {
    var x := vs[0];
    if x.Bool? && ins.Neg? {
      SortedIsValid(c, a, x);
      Emitted(c, b, NotBit, [x.w], 1, a);
      Pair(a, x.w, x.w);
      FreshBit(c, a, b.next, Cell(a, x.w) != 1);
    } else {
      var m := Operations.Modulus(c, CircuitTypeOf(x)).value;
      if ins.Neg? { NegCells(c, b, x, m, a); } else { InvCells(c, b, x, m, a); }
    }
  }

  lemma {:induction false} SumParity(bs: seq<bool>)
    ensures Sum(BoolCells(bs)) % 2 == BoolCell(Operations.Parity(bs))
  {
    if bs == [] {
    } else {
      assert BoolCells(bs)[1..] == BoolCells(bs[1..]);
      SumParity(bs[1..]);
    }
  }

  /** What the three gates compute on cells is what they compute on bits. */
  lemma GateCells(c: Params, g: Gadget, bs: seq<bool>, y: nat)
    requires Relation(c, g, BoolCells(bs), [y])
    ensures g.AndBits? ==> y == BoolCell(Operations.AllTrue(bs))
    ensures g.OrBits? ==> y == BoolCell(Operations.AnyTrue(bs))
    ensures g.XorBits? ==> y == BoolCell(Operations.Parity(bs))
  {
    var xs := BoolCells(bs);
    assert forall i :: 0 <= i < |bs| ==> (xs[i] == 1 <==> bs[i]);
    SumParity(bs);
  }

  lemma GateSound(c: Params, ins: Instruction, b: Builder, vs: seq<CircuitValue>, a: Assignment,
      b': Builder, rs: seq<CircuitValue>)
    requires Emits(c, ins, b, vs, a, b', rs) && (ins.And? || ins.Or? || ins.Xor?)
    ensures Sat(c, b, a) && Matches(c, ins, a, vs, rs)
  {
    var g := if ins.And? then AndBits else if ins.Or? then OrBits else XorBits;
    var ws := Bools(vs).value;
    BoolsRead(c, a, vs);
    Emitted(c, b, g, ws, 1, a);
    var bs := Operations.Bools(ReadAll(a, vs)).value;
    GateCells(c, g, bs, Cell(a, b.next));
    var r := if ins.And? then Operations.AllTrue(bs)
             else if ins.Or? then Operations.AnyTrue(bs)
             else Operations.Parity(bs);
    FreshBit(c, a, b.next, r);
  }

  lemma BitSound(c: Params, b: Builder, w: Wire, a: Assignment)
    requires c.Sizes() && Sat(c, Emit(b, InRange(2), [w], 0), a)
    ensures Sat(c, b, a) && Cell(a, w) < 2
    ensures Operations.AsBit(IrValue.Native(Cell(a, w))) == Some(Cell(a, w) == 1)
  {
    Emitted(c, b, InRange(2), [w], 0, a);
    Pair(a, w, w);
  }

  lemma NotSound(c: Params, ins: Instruction, b: Builder, vs: seq<CircuitValue>, a: Assignment,
      b': Builder, rs: seq<CircuitValue>)
    requires Emits(c, ins, b, vs, a, b', rs) && (ins.Not? || ins.Assert? || ins.ConstrainToBoolean? || ins.Copy?)
    ensures Sat(c, b, a) && Matches(c, ins, a, vs, rs)
  {
    var x := vs[0];
    if ins.Not? {
      var b1 := Emit(b, InRange(2), [x.w], 0);
      Emitted(c, b1, NotBit, [x.w], 1, a);
      BitSound(c, b, x.w, a);
      Pair(a, x.w, x.w);
      FreshBit(c, a, b1.next, Cell(a, x.w) != 1);
    } else if ins.Assert? {
      Emitted(c, b, AssertNonZero, [x.w], 0, a);
      Pair(a, x.w, x.w);
    } else if ins.ConstrainToBoolean? {
      BitSound(c, b, x.w, a);
    } else {
      One(c, a, x);
    }
    assert ReadAll(a, []) == [];
  }

  lemma SelectCells(c: Params, b: Builder, bit: Wire, x: CircuitValue, y: CircuitValue, a: Assignment,
      b': Builder, rs: seq<CircuitValue>)
    requires c.Sizes() && Sorted(c, a, x) && Sorted(c, a, y)
    requires SynthSelect(b, bit, x, y) == Some((b', rs)) && Sat(c, b', a)
    ensures Sat(c, b, a) && Cell(a, bit) < 2
    ensures SortedAll(c, a, rs) && ReadAll(a, rs) == [if Cell(a, bit) == 1 then Read(a, x) else Read(a, y)]
  {
    var b1 := Emit(b, InRange(2), [bit], 0);
    Emitted(c, b1, Select, [bit, x.w, y.w], 1, a);
    BitSound(c, b, bit, a);
    assert Cells(a, [bit, x.w, y.w]) == [Cell(a, bit), Cell(a, x.w), Cell(a, y.w)];
    var chosen := if Cell(a, bit) == 1 then x else y;
    SortedIsValid(c, a, chosen);
    Pair(a, chosen.w, chosen.w);
    Pair(a, b1.next, b1.next);
    ReadOfWires(c, a, Read(a, chosen), [b1.next]);
    One(c, a, OfWires(CircuitTypeOf(x), [b1.next]));
  }

  lemma SelectSound(c: Params, ins: Instruction, b: Builder, vs: seq<CircuitValue>, a: Assignment,
      b': Builder, rs: seq<CircuitValue>)
    requires Emits(c, ins, b, vs, a, b', rs) && ins.CondSelect?
    ensures Sat(c, b, a) && Matches(c, ins, a, vs, rs)
  {
    SelectCells(c, b, vs[0].w, vs[1], vs[2], a, b', rs);
    SortedIsValid(c, a, vs[1]);
    SortedIsValid(c, a, vs[2]);
  }

  lemma CompareSound(c: Params, ins: Instruction, b: Builder, vs: seq<CircuitValue>, a: Assignment,
      b': Builder, rs: seq<CircuitValue>)
    requires Emits(c, ins, b, vs, a, b', rs) && (ins.ConstrainBits? || ins.LessThan?)
    ensures Sat(c, b, a) && Matches(c, ins, a, vs, rs)
  {
    if ins.LessThan? {
      var x, y := vs[0].w, vs[1].w;
      Emitted(c, b, LowerThan(RoundedBits(ins.bits)), [x, y], 1, a);
      Pair(a, x, y);
      FreshBit(c, a, b.next, Cell(a, x) < Cell(a, y));
    } else {
      DecomposeSound(c, b, 2, ins.bits, vs[0].w, a);
    }
  }

  lemma EqualitySound(c: Params, ins: Instruction, b: Builder, vs: seq<CircuitValue>, a: Assignment,
      b': Builder, rs: seq<CircuitValue>)
    requires Emits(c, ins, b, vs, a, b', rs) && (ins.ConstrainEq? || ins.TestEq?)
    ensures Sat(c, b, a) && Matches(c, ins, a, vs, rs)
  {
    var x, y := vs[0], vs[1];
    SortedIsValid(c, a, x);
    SortedIsValid(c, a, y);
    SameCells(c, a, x, y);
    if ins.ConstrainEq? {
      AssertEqualSound(c, b, Wires(x), Wires(y), a);
    } else if x.Bytes? {
      var (b1, eqs) := IsEqualAll(b, x.ws, y.ws);
      Emitted(c, b1, AndBits, eqs, 1, a);
      IsEqualSound(c, b, x.ws, y.ws, a);
      EqualCellsAnd(Cells(a, x.ws), Cells(a, y.ws));
      FreshBit(c, a, b1.next, Cells(a, x.ws) == Cells(a, y.ws));
    } else {
      Emitted(c, b, IsEqual, [x.w, y.w], 1, a);
      Pair(a, x.w, y.w);
      FreshBit(c, a, b.next, Cell(a, x.w) == Cell(a, y.w));
    }
  }

  /** Values of one type are equal when their cells are. */
  lemma SameCells(c: Params, a: Assignment, x: CircuitValue, y: CircuitValue)
    requires Sorted(c, a, x) && Sorted(c, a, y) && CircuitTypeOf(x) == CircuitTypeOf(y)
    ensures Read(a, x) == Read(a, y) <==> Cells(a, Wires(x)) == Cells(a, Wires(y))
  {
    SortedIsValid(c, a, x);
    SortedIsValid(c, a, y);
    if !x.Bytes? {
      Pair(a, x.w, x.w);
      Pair(a, y.w, y.w);
    }
  }

  // ----- bits -----

  lemma HalvesValue(c: Params, n: nat, bits: nat)
    requires c.Sizes() && bits <= c.frBits && n < c.p
    ensures var ds := DigitsOf(n, 2, c.frBits);
            && Val(ds[..bits], 2) % c.p == n % Pow(2, bits)
            && Val(ds[bits..], 2) % c.p == n / Pow(2, bits)
  {
    var ds := DigitsOf(n, 2, c.frBits);
    ValDigits(n, 2, c.frBits);
    ValSplit(ds, 2, bits);
    Bits.DivModBelow(n, Pow(2, bits));
    ModSmall(Val(ds[..bits], 2), c.p);
    ModSmall(Val(ds[bits..], 2), c.p);
  }

  lemma SplitCells(c: Params, b: Builder, x: Wire, bits: nat, a: Assignment)
    requires bits <= c.frBits && Sat(c, SplitBits(c, b, x, bits), a)
    ensures Sat(c, b, a)
    ensures var ds := DigitsOf(Cell(a, x), 2, c.frBits);
            && Cell(a, b.next + c.frBits) == Val(ds[..bits], 2) % c.p
            && Cell(a, b.next + c.frBits + 1) == Val(ds[bits..], 2) % c.p
  {
    var xBits := Fresh(b.next, c.frBits);
    var b1 := Emit(b, Decompose(2, c.frBits), [x], c.frBits);
    var b2 := Emit(b1, Recompose(2, c.p), xBits[..bits], 1);
    RecomposeSound(c, b2, 2, c.p, xBits[bits..], a);
    RecomposeSound(c, b1, 2, c.p, xBits[..bits], a);
    DecomposeSound(c, b, 2, c.frBits, x, a);
    CellsCut(a, xBits, bits);
  }

  /** The two recomposed halves of the canonical bits of a cell. */
  lemma SplitSound(c: Params, b: Builder, x: Wire, bits: nat, a: Assignment)
    requires c.Sizes() && bits <= c.frBits && Sat(c, SplitBits(c, b, x, bits), a)
    ensures Sat(c, b, a)
    ensures Cell(a, x) < c.p ==>
              && Cell(a, b.next + c.frBits) == Cell(a, x) % Pow(2, bits)
              && Cell(a, b.next + c.frBits + 1) == Cell(a, x) / Pow(2, bits)
  {
    SplitCells(c, b, x, bits, a);
    if Cell(a, x) < c.p { HalvesValue(c, Cell(a, x), bits); }
  }

  lemma DivModSound(c: Params, ins: Instruction, b: Builder, vs: seq<CircuitValue>, a: Assignment,
      b': Builder, rs: seq<CircuitValue>)
    requires Emits(c, ins, b, vs, a, b', rs) && ins.DivModPowerOfTwo?
    ensures Sat(c, b, a) && Matches(c, ins, a, vs, rs)
  {
    SortedIsValid(c, a, vs[0]);
    SplitSound(c, b, vs[0].w, ins.bits, a);
    var n, m := Cell(a, vs[0].w), Pow(2, ins.bits);
    var low := b.next + c.frBits;
    assert Cells(a, [low + 1, low]) == [n / m, n % m];
    Bits.DivModBelow(n, m);
    NativesRead(a, [low + 1, low]);
    NativesSorted(c, a, [low + 1, low]);
  }

  lemma RejoinedCells(c: Params, b: Builder, d: Wire, m: Wire, bits: nat, a: Assignment)
    requires bits <= c.frBits && Sat(c, Rejoined(c, b, d, m, bits), a)
    ensures var b1 := Emit(b, Assign(c.p), [], 1);
            && Sat(c, SplitBits(c, b1, b.next, bits), a)
            && Cell(a, b1.next + c.frBits) == Cell(a, m) && Cell(a, b1.next + c.frBits + 1) == Cell(a, d)
  {
    var b1 := Emit(b, Assign(c.p), [], 1);
    var b2 := SplitBits(c, b1, b.next, bits);
    var low := b1.next + c.frBits;
    var b3 := Emit(b2, AssertEqual, [low, m], 0);
    AssertEqualOne(c, b3, low + 1, d, a);
    AssertEqualOne(c, b2, low, m, a);
  }

  lemma RejoinedResult(c: Params, b: Builder, d: Wire, m: Wire, bits: nat, a: Assignment)
    requires bits <= c.frBits && Sat(c, Rejoined(c, b, d, m, bits), a)
    ensures Sat(c, b, a) && Cell(a, b.next) < c.p
    ensures var ds := DigitsOf(Cell(a, b.next), 2, c.frBits);
            Cell(a, m) == Val(ds[..bits], 2) % c.p && Cell(a, d) == Val(ds[bits..], 2) % c.p
  {
    RejoinedCells(c, b, d, m, bits, a);
    SplitCells(c, Emit(b, Assign(c.p), [], 1), b.next, bits, a);
    AssignOne(c, b, c.p, a);
  }

  lemma HalvesJoin(c: Params, x: nat, low: nat, high: nat, bits: nat)
    requires c.Sizes() && bits <= c.frBits && x < c.p
    requires var ds := DigitsOf(x, 2, c.frBits); low == Val(ds[..bits], 2) % c.p && high == Val(ds[bits..], 2) % c.p
    ensures low < Pow(2, bits) && high * Pow(2, bits) + low == x
  {
    HalvesValue(c, x, bits);
    Bits.JoinHalves(x, low, high, Pow(2, bits));
  }

  /** The free result of a reconstitution is forced to be the joined integer. */
  lemma ReconstituteCells(c: Params, b: Builder, d: Wire, m: Wire, bits: nat, a: Assignment)
    requires c.Sizes() && bits <= c.frBits && Sat(c, Rejoined(c, b, d, m, bits), a)
    ensures Sat(c, b, a) && Cell(a, b.next) < c.p
    ensures Cell(a, m) < Pow(2, bits) && Cell(a, d) * Pow(2, bits) + Cell(a, m) == Cell(a, b.next)
  {
    RejoinedResult(c, b, d, m, bits, a);
    HalvesJoin(c, Cell(a, b.next), Cell(a, m), Cell(a, d), bits);
  }

  lemma AssignOne(c: Params, b: Builder, bound: nat, a: Assignment)
    requires Sat(c, Emit(b, Assign(bound), [], 1), a)
    ensures Sat(c, b, a) && Cell(a, b.next) < bound
  {
    Emitted(c, b, Assign(bound), [], 1, a);
    assert Cells(a, Fresh(b.next, 1))[0] == Cell(a, b.next);
  }

  lemma ReconstituteSound(c: Params, ins: Instruction, b: Builder, vs: seq<CircuitValue>, a: Assignment,
      b': Builder, rs: seq<CircuitValue>)
    requires Emits(c, ins, b, vs, a, b', rs) && ins.ReconstituteField?
    ensures Sat(c, b, a) && Matches(c, ins, a, vs, rs)
  {
    ReconstituteCells(c, b, vs[0].w, vs[1].w, ins.bits, a);
    FreshElem(c, a, IrType.Native, b.next, Cell(a, b.next));
  }

  // ----- hashes -----

  lemma TransientHashSound(c: Params, ins: Instruction, b: Builder, vs: seq<CircuitValue>, a: Assignment,
      b': Builder, rs: seq<CircuitValue>)
    requires Emits(c, ins, b, vs, a, b', rs) && ins.TransientHash?
    ensures Sat(c, b, a) && Matches(c, ins, a, vs, rs)
  {
    AllNativeRead(a, vs);
    var ws := AllNative(vs).value;
    Emitted(c, b, Poseidon, ws, 1, a);
    FreshElem(c, a, IrType.Native, b.next, c.poseidon(Cells(a, ws)));
  }

  lemma DigestSound(c: Params, b: Builder, kind: HashKind, bytes: seq<Wire>, a: Assignment)
    requires c.Hashes() && Sat(c, Emit(b, Digest(kind), bytes, DigestLen(kind)), a)
    ensures Sat(c, b, a)
    ensures var v := CircuitValue.Bytes(Fresh(b.next, DigestLen(kind)));
            SortedAll(c, a, [v]) && ReadAll(a, [v]) == [IrValue.Bytes(c.digest(kind, Cells(a, bytes)))]
  {
    Emitted(c, b, Digest(kind), bytes, DigestLen(kind), a);
    BytesValue(c, a, Fresh(b.next, DigestLen(kind)));
  }

  lemma AlignedHashSound(c: Params, ins: Instruction, b: Builder, vs: seq<CircuitValue>, a: Assignment,
      b': Builder, rs: seq<CircuitValue>)
    requires Emits(c, ins, b, vs, a, b', rs) && ins.AlignedHash?
    ensures Sat(c, b, a) && Matches(c, ins, a, vs, rs)
  {
    AllNativeRead(a, vs);
    var ws := AllNative(vs).value;
    var (b1, bytes) := DecodeAligned(c, b, ins.alignment, ws).value;
    DigestSound(c, b1, ins.kind, bytes, a);
    AlignedSound(c, b, ins.alignment, ws, a);
  }

  // ----- bytes -----

  lemma BytesValue(c: Params, a: Assignment, ws: seq<Wire>)
    requires IsDigits(Cells(a, ws), 256)
    ensures var v := CircuitValue.Bytes(ws);
            SortedAll(c, a, [v]) && ReadAll(a, [v]) == [IrValue.Bytes(Cells(a, ws))]
  {
    One(c, a, CircuitValue.Bytes(ws));
  }

  lemma ToBytesOpSound(c: Params, ins: Instruction, b: Builder, vs: seq<CircuitValue>, a: Assignment,
      b': Builder, rs: seq<CircuitValue>)
    requires Emits(c, ins, b, vs, a, b', rs) && (ins.ToBytes? || ins.IntoBytes32?)
    ensures Sat(c, b, a) && Matches(c, ins, a, vs, rs)
  {
    ToBytesSound(c, b, vs[0], a);
    BytesValue(c, a, ToBytesWires(c, b, vs[0]).value.1);
  }

  lemma FromBytesOpSound(c: Params, ins: Instruction, b: Builder, vs: seq<CircuitValue>, a: Assignment,
      b': Builder, rs: seq<CircuitValue>)
    requires Emits(c, ins, b, vs, a, b', rs) && (ins.FromBytes? || ins.FromBytes32?)
    ensures Sat(c, b, a) && Matches(c, ins, a, vs, rs)
  {
    FromBytesSound(c, b, ins.valT, vs[0].ws, a);
    One(c, a, FromBytesWires(c, b, ins.valT, vs[0].ws).value.1);
  }

  lemma ScalarOpSound(c: Params, ins: Instruction, b: Builder, vs: seq<CircuitValue>, a: Assignment,
      b': Builder, rs: seq<CircuitValue>)
    requires Emits(c, ins, b, vs, a, b', rs) && ins.JubjubScalarFromNative?
    ensures Sat(c, b, a) && Matches(c, ins, a, vs, rs)
  {
    var b1 := Emit(b, Decompose(256, c.ReprBytes()), [vs[0].w], c.ReprBytes());
    ScalarSound(c, b1, Fresh(b.next, c.ReprBytes()), a);
    DecomposeSound(c, b, 256, c.ReprBytes(), vs[0].w, a);
    One(c, a, ScalarFromBytes(c, b1, Fresh(b.next, c.ReprBytes())).1);
  }

  lemma ConcatSound(c: Params, ins: Instruction, b: Builder, vs: seq<CircuitValue>, a: Assignment,
      b': Builder, rs: seq<CircuitValue>)
    requires Emits(c, ins, b, vs, a, b', rs) && ins.Concat?
    ensures Sat(c, b, a) && Matches(c, ins, a, vs, rs)
  {
    ConcatRead(c, a, vs);
    BytesValue(c, a, ConcatWires(vs).value);
  }

  lemma ReverseSound(c: Params, ins: Instruction, b: Builder, vs: seq<CircuitValue>, a: Assignment,
      b': Builder, rs: seq<CircuitValue>)
    requires Emits(c, ins, b, vs, a, b', rs) && ins.Reverse?
    ensures Sat(c, b, a) && Matches(c, ins, a, vs, rs)
  {
    var ws := vs[0].ws;
    SortedIsValid(c, a, vs[0]);
    ReverseCells(a, ws);
    BytesValue(c, a, Operations.ReverseOf(ws));
  }

  lemma ReverseCells(a: Assignment, ws: seq<Wire>)
    ensures Cells(a, Operations.ReverseOf(ws)) == Operations.ReverseOf(Cells(a, ws))
    ensures IsDigits(Cells(a, ws), 256) ==> IsDigits(Operations.ReverseOf(Cells(a, ws)), 256)
  {}

  lemma SliceSound(c: Params, ins: Instruction, b: Builder, vs: seq<CircuitValue>, a: Assignment,
      b': Builder, rs: seq<CircuitValue>)
    requires Emits(c, ins, b, vs, a, b', rs) && ins.Slice?
    ensures Sat(c, b, a) && Matches(c, ins, a, vs, rs)
  {
    SliceCells(c, a, vs[0], ins.start, ins.start + ins.len);
    BytesValue(c, a, vs[0].ws[ins.start..ins.start + ins.len]);
  }

  lemma SliceCells(c: Params, a: Assignment, v: CircuitValue, i: nat, j: nat)
    requires v.Bytes? && Sorted(c, a, v) && i <= j <= |v.ws|
    ensures Cells(a, v.ws[i..j]) == Cells(a, v.ws)[i..j] && IsDigits(Cells(a, v.ws[i..j]), 256)
  {}

  lemma NthSound(c: Params, ins: Instruction, b: Builder, vs: seq<CircuitValue>, a: Assignment,
      b': Builder, rs: seq<CircuitValue>)
    requires Emits(c, ins, b, vs, a, b', rs) && ins.Nth?
    ensures Sat(c, b, a) && Matches(c, ins, a, vs, rs)
  {
    var w := vs[0].ws[ins.index];
    SortedIsValid(c, a, vs[0]);
    assert Cells(a, [w]) == [Cells(a, vs[0].ws)[ins.index]];
    One(c, a, CircuitValue.Byte(w));
  }

  lemma PackingOpSound(c: Params, ins: Instruction, b: Builder, vs: seq<CircuitValue>, a: Assignment,
      b': Builder, rs: seq<CircuitValue>)
    requires Emits(c, ins, b, vs, a, b', rs) && (ins.Encode? || ins.BytesIntoNatives?)
    ensures Sat(c, b, a) && Matches(c, ins, a, vs, rs)
  {
    SortedIsValid(c, a, vs[0]);
    var ws := EncodeWires(c, b, vs[0]).1;
    EncodeSound(c, b, vs[0], a);
    Encoding.EncodeShape(c, Read(a, vs[0]));
    NativesRead(a, ws);
    NativesSorted(c, a, ws);
  }

  lemma UnpackedCells(c: Params, b: Builder, ws: seq<Wire>, n: nat, a: Assignment)
    requires c.Sizes() && c.FieldElements(Cells(a, ws)) && |ws| == CeilDiv(n, c.limbBytes)
    requires Sat(c, UnpackWires(c, b, ws, n).0, a)
    ensures var v := CircuitValue.Bytes(UnpackWires(c, b, ws, n).1);
            && Sat(c, b, a) && SortedAll(c, a, [v]) && ReadAll(a, [v]) == [Read(a, v)]
            && Encoding.Decode(c, IrType.Bytes(n), Cells(a, ws)) == Some(Read(a, v))
  {
    UnpackSound(c, b, ws, n, a);
    Encoding.PackUnpack(c, Cells(a, ws), n);
    BytesValue(c, a, UnpackWires(c, b, ws, n).1);
  }

  lemma UnpackingOpSound(c: Params, ins: Instruction, b: Builder, vs: seq<CircuitValue>, a: Assignment,
      b': Builder, rs: seq<CircuitValue>)
    requires Emits(c, ins, b, vs, a, b', rs) && ins.BytesFromNatives?
    ensures Sat(c, b, a) && Matches(c, ins, a, vs, rs)
  {
    AllNativeRead(a, vs);
    AllNativeSorted(c, a, vs);
    UnpackedCells(c, b, AllNative(vs).value, ins.len, a);
  }

  lemma LowHighSound(c: Params, ins: Instruction, b: Builder, vs: seq<CircuitValue>, a: Assignment,
      b': Builder, rs: seq<CircuitValue>)
    requires Emits(c, ins, b, vs, a, b', rs) && ins.Bytes32IntoLowHigh?
    ensures Sat(c, b, a) && Matches(c, ins, a, vs, rs)
  {
    var ws, k := vs[0].ws, c.limbBytes as int;
    SortedIsValid(c, a, vs[0]);
    var b1 := Emit(b, Fixed([0]), [], 1);
    Emitted(c, b1, Recompose(256, c.p), ws[k := b.next], 1, a);
    Emitted(c, b, Fixed([0]), [], 1, a);
    assert Cell(a, b.next) == 0;
    assert Cells(a, ws[k := b.next]) == Cells(a, ws)[k := 0];
    assert Cells(a, ws)[k] < 256;
    FieldHoldsLimb(c);
    Pair(a, b1.next, ws[k]);
    NativesRead(a, [b1.next, ws[k]]);
    NativesSorted(c, a, [b1.next, ws[k]]);
  }

  lemma FromLowHighSound(c: Params, ins: Instruction, b: Builder, vs: seq<CircuitValue>, a: Assignment,
      b': Builder, rs: seq<CircuitValue>)
    requires Emits(c, ins, b, vs, a, b', rs) && ins.Bytes32FromLowHigh?
    ensures Sat(c, b, a) && Matches(c, ins, a, vs, rs)
  {
    var high, k := vs[1].w, c.limbBytes as int;
    SortedIsValid(c, a, vs[1]);
    var (b1, ws) := ToBytesWires(c, b, vs[0]).value;
    var b2 := Emit(b1, AssertFixed(0), [ws[k]], 0);
    Emitted(c, b2, InRange(256), [high], 0, a);
    Emitted(c, b1, AssertFixed(0), [ws[k]], 0, a);
    ToBytesSound(c, b, vs[0], a);
    Pair(a, high, high);
    Pair(a, ws[k], ws[k]);
    FieldHoldsLimb(c);
    ByteFits(c, Cell(a, high));
    var low := Cells(a, ws);
    assert Cells(a, ws[k := high]) == low[k := Cell(a, high)];
    BytesValue(c, a, ws[k := high]);
  }

  /** The bytes of an element vanish beyond the first exactly when it is a byte. */
  lemma ByteFits(c: Params, x: nat)
    requires c.Sizes() && x < Pow(256, c.ReprBytes())
    ensures Encoding.AllZero(Encoding.FieldBytes(c, x)[1..]) <==> x < 256
    ensures x < 256 ==> Encoding.FieldBytes(c, x)[0] == x
  {
    Encoding.HighBytesZero(c, x, 1);
    assert Pow(256, 1) == 256 * Pow(256, 0);
    var first := Encoding.FieldBytes(c, x)[..1];
    assert first == [first[0]];
    ValSingle(first[0], 256);
  }

  lemma ConstantSound(c: Params, ins: Instruction, b: Builder, vs: seq<CircuitValue>, a: Assignment,
      b': Builder, rs: seq<CircuitValue>)
    requires Emits(c, ins, b, vs, a, b', rs) && ins.LoadConstant? && c.FieldElements(ins.encoding)
    ensures Sat(c, b, a) && Matches(c, ins, a, vs, rs)
  {
    var v := Encoding.Decode(c, ins.valT, ins.encoding).value;
    var n := CellCount(TypeOf(v));
    Encoding.DecodeIsExactInverse(c, ins.valT, ins.encoding, v);
    Emitted(c, b, Fixed(ValueCells(v)), [], n, a);
    ReadOfWires(c, a, v, Fresh(b.next, n));
    One(c, a, OfWires(TypeOf(v), Fresh(b.next, n)));
  }

  // ----- all of them -----

  /** The immediates of an instruction are field elements, as the source's types ensure. */
  predicate TypedInstruction(c: Params, ins: Instruction) {
    TypedOperands(c, ins.Args()) && (ins.LoadConstant? ==> c.FieldElements(ins.encoding))
  }

  lemma OpSound(c: Params, ins: Instruction, b: Builder, vs: seq<CircuitValue>, a: Assignment,
      b': Builder, rs: seq<CircuitValue>)
    requires Emits(c, ins, b, vs, a, b', rs) && TypedInstruction(c, ins)
    ensures Sat(c, b, a) && Matches(c, ins, a, vs, rs)
  {
    if ins.Add? || ins.Mul? { ArithSound(c, ins, b, vs, a, b', rs); }
    else if ins.Neg? || ins.Inv? { UnarySound(c, ins, b, vs, a, b', rs); }
    else if ins.And? || ins.Or? || ins.Xor? { GateSound(c, ins, b, vs, a, b', rs); }
    else if ins.Not? || ins.Assert? || ins.ConstrainToBoolean? || ins.Copy? { NotSound(c, ins, b, vs, a, b', rs); }
    else if ins.CondSelect? { SelectSound(c, ins, b, vs, a, b', rs); }
    else if ins.ConstrainBits? || ins.LessThan? { CompareSound(c, ins, b, vs, a, b', rs); }
    else if ins.ConstrainEq? || ins.TestEq? { EqualitySound(c, ins, b, vs, a, b', rs); }
    else if ins.DivModPowerOfTwo? { DivModSound(c, ins, b, vs, a, b', rs); }
    else if ins.ReconstituteField? { ReconstituteSound(c, ins, b, vs, a, b', rs); }
    else if ins.TransientHash? { TransientHashSound(c, ins, b, vs, a, b', rs); }
    else if ins.AlignedHash? { AlignedHashSound(c, ins, b, vs, a, b', rs); }
    else if ins.ToBytes? || ins.IntoBytes32? { ToBytesOpSound(c, ins, b, vs, a, b', rs); }
    else if ins.FromBytes? || ins.FromBytes32? { FromBytesOpSound(c, ins, b, vs, a, b', rs); }
    else if ins.JubjubScalarFromNative? { ScalarOpSound(c, ins, b, vs, a, b', rs); }
    else if ins.Encode? || ins.BytesIntoNatives? { PackingOpSound(c, ins, b, vs, a, b', rs); }
    else if ins.BytesFromNatives? { UnpackingOpSound(c, ins, b, vs, a, b', rs); }
    else if ins.Bytes32IntoLowHigh? { LowHighSound(c, ins, b, vs, a, b', rs); }
    else if ins.Bytes32FromLowHigh? { FromLowHighSound(c, ins, b, vs, a, b', rs); }
    else if ins.LoadConstant? { ConstantSound(c, ins, b, vs, a, b', rs); }
    else if ins.Reverse? { ReverseSound(c, ins, b, vs, a, b', rs); }
    else if ins.Concat? { ConcatSound(c, ins, b, vs, a, b', rs); }
    else if ins.Slice? { SliceSound(c, ins, b, vs, a, b', rs); }
    else { NthSound(c, ins, b, vs, a, b', rs); }
  }
}
