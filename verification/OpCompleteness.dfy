/**
  Completeness of one computing instruction: when `CircuitApply` succeeds on the operands
  that a solution holds, the solution extends over what synthesis emits for it.
 */
module OpCompleteness {
  import opened Options
  import opened Digits
  import opened Types
  import opened Instructions
  import opened Gadgets
  import opened Circuit
  import opened Readings
  import opened GadgetSoundness
  import opened GadgetCompleteness
  import opened CircuitRun
  import opened Growth
  import Encoding
  import Operations
  import OpSoundness

  /** A solution of `b` holding well-typed operands, and a synthesized instruction on them. */
  ghost predicate Ready(c: Params, ins: Instruction, b: Builder, vs: seq<CircuitValue>, a: Assignment,
                        b': Builder, rs: seq<CircuitValue>)
  {
    && c.Valid() && Solves(c, b, a) && SortedAll(c, a, vs) && BoundedAll(vs, b.next)
    && Synthesized(c, ins, b, vs, b', rs)
  }

  /** As `Ready`, and the instruction succeeds on the values of the operands. */
  ghost predicate Succeeds(c: Params, ins: Instruction, b: Builder, vs: seq<CircuitValue>, a: Assignment,
                           b': Builder, rs: seq<CircuitValue>)
  {
    Ready(c, ins, b, vs, a, b', rs) && CircuitApply(c, ins, ReadAll(a, vs)).Some?
  }

  lemma CellInBounds(v: CircuitValue, n: nat)
    requires Bounded(v, n)
    ensures !v.Bytes? ==> v.w < n
    ensures v.Bytes? ==> InBounds(v.ws, n)
  {
    if !v.Bytes? { assert Wires(v)[0] == v.w; }
  }

  lemma NativesBounded(ws: seq<Wire>, n: nat)
    requires InBounds(ws, n)
    ensures BoundedAll(Natives(ws), n)
  {
    forall i | 0 <= i < |ws|
      ensures Bounded(Natives(ws)[i], n)
    {
      assert Wires(Natives(ws)[i]) == [ws[i]];
    }
  }

  lemma {:induction false} AllNativeBounded(vs: seq<CircuitValue>, n: nat)
    requires BoundedAll(vs, n) && AllNative(vs).Some?
    ensures InBounds(AllNative(vs).value, n)
  {
    if vs == [] {
    } else {
      CellInBounds(vs[0], n);
      AllNativeBounded(vs[1..], n);
    }
  }

  lemma {:induction false} ConcatBounded(vs: seq<CircuitValue>, n: nat)
    requires BoundedAll(vs, n) && ConcatWires(vs).Some?
    ensures InBounds(ConcatWires(vs).value, n)
  {
    if vs == [] {
    } else {
      CellInBounds(vs[0], n);
      ConcatBounded(vs[1..], n);
    }
  }

  // ----- instructions without a condition on their operands -----

  lemma ArithComplete(c: Params, ins: Instruction, b: Builder, vs: seq<CircuitValue>, a: Assignment,
      b': Builder, rs: seq<CircuitValue>) returns (a': Assignment)
    requires Ready(c, ins, b, vs, a, b', rs) && (ins.Add? || ins.Mul?)
    ensures Carries(c, b, a, b', a') && BoundedAll(rs, b'.next)
  {
    var x, y, m := vs[0], vs[1], Operations.Modulus(c, CircuitTypeOf(vs[0])).value;
    CellInBounds(x, b.next);
    CellInBounds(y, b.next);
    var g := if ins.Add? then AddMod(m) else MulMod(m);
    var r := if ins.Add? then (Cell(a, x.w) + Cell(a, y.w)) % m else (Cell(a, x.w) * Cell(a, y.w)) % m;
    OpSoundness.Pair(a, x.w, y.w);
    a' := Call(c, b, g, [x.w, y.w], 1, a, [r]);
  }

  lemma NegComplete(c: Params, ins: Instruction, b: Builder, vs: seq<CircuitValue>, a: Assignment,
      b': Builder, rs: seq<CircuitValue>) returns (a': Assignment)
    requires Ready(c, ins, b, vs, a, b', rs) && ins.Neg?
    ensures Carries(c, b, a, b', a') && BoundedAll(rs, b'.next)
  {
    var x := vs[0];
    CellInBounds(x, b.next);
    SortedIsValid(c, a, x);
    OpSoundness.Pair(a, x.w, x.w);
    if x.Bool? {
      a' := Call(c, b, NotBit, [x.w], 1, a, [1 - Cell(a, x.w)]);
    } else {
      var m := Operations.Modulus(c, CircuitTypeOf(x)).value;
      Operations.NegCancels(m, Cell(a, x.w));
      a' := Call(c, b, NegMod(m), [x.w], 1, a, [Operations.NegMod(m, Cell(a, x.w))]);
    }
  }

  lemma GateComplete(c: Params, ins: Instruction, b: Builder, vs: seq<CircuitValue>, a: Assignment,
      b': Builder, rs: seq<CircuitValue>) returns (a': Assignment)
    requires Ready(c, ins, b, vs, a, b', rs) && (ins.And? || ins.Or? || ins.Xor?)
    ensures Carries(c, b, a, b', a') && BoundedAll(rs, b'.next)
  {
    var g := if ins.And? then AndBits else if ins.Or? then OrBits else XorBits;
    var ws := Bools(vs).value;
    BoolsBounded(vs, b.next);
    a' := GateCall(c, b, g, ws, a);
  }

  lemma GateCall(c: Params, b: Builder, g: Gadget, ws: seq<Wire>, a: Assignment) returns (a': Assignment)
    requires Solves(c, b, a) && InBounds(ws, b.next) && (g.AndBits? || g.OrBits? || g.XorBits?)
    ensures Carries(c, b, a, Emit(b, g, ws, 1), a')
  {
    var xs := Cells(a, ws);
    var r :=
      if g.AndBits? then if forall i :: 0 <= i < |xs| ==> xs[i] == 1 then 1 else 0
      else if g.OrBits? then if exists i :: 0 <= i < |xs| && xs[i] == 1 then 1 else 0
      else Sum(xs) % 2;
    a' := Call(c, b, g, ws, 1, a, [r]);
  }

  lemma DivModComplete(c: Params, ins: Instruction, b: Builder, vs: seq<CircuitValue>, a: Assignment,
      b': Builder, rs: seq<CircuitValue>) returns (a': Assignment)
    requires Ready(c, ins, b, vs, a, b', rs) && ins.DivModPowerOfTwo?
    ensures Carries(c, b, a, b', a') && BoundedAll(rs, b'.next)
  {
    CellInBounds(vs[0], b.next);
    SortedIsValid(c, a, vs[0]);
    a' := SplitComplete(c, b, vs[0].w, ins.bits, a);
    NativesBounded([b.next + c.frBits + 1, b.next + c.frBits], b'.next);
  }

  lemma TransientHashComplete(c: Params, ins: Instruction, b: Builder, vs: seq<CircuitValue>, a: Assignment,
      b': Builder, rs: seq<CircuitValue>) returns (a': Assignment)
    requires Ready(c, ins, b, vs, a, b', rs) && ins.TransientHash?
    ensures Carries(c, b, a, b', a') && BoundedAll(rs, b'.next)
  {
    var ws := AllNative(vs).value;
    AllNativeBounded(vs, b.next);
    a' := Call(c, b, Poseidon, ws, 1, a, [c.poseidon(Cells(a, ws))]);
  }

  lemma ToBytesOpComplete(c: Params, ins: Instruction, b: Builder, vs: seq<CircuitValue>, a: Assignment,
      b': Builder, rs: seq<CircuitValue>) returns (a': Assignment)
    requires Ready(c, ins, b, vs, a, b', rs) && (ins.ToBytes? || ins.IntoBytes32?)
    ensures Carries(c, b, a, b', a') && BoundedAll(rs, b'.next)
  {
    a' := ToBytesComplete(c, b, vs[0], a);
  }

  lemma FromBytesOpComplete(c: Params, ins: Instruction, b: Builder, vs: seq<CircuitValue>, a: Assignment,
      b': Builder, rs: seq<CircuitValue>) returns (a': Assignment)
    requires Ready(c, ins, b, vs, a, b', rs) && (ins.FromBytes? || ins.FromBytes32?)
    ensures Carries(c, b, a, b', a') && BoundedAll(rs, b'.next)
  {
    CellInBounds(vs[0], b.next);
    a' := FromBytesComplete(c, b, ins.valT, vs[0].ws, a);
  }

  lemma ScalarOpComplete(c: Params, ins: Instruction, b: Builder, vs: seq<CircuitValue>, a: Assignment,
      b': Builder, rs: seq<CircuitValue>) returns (a': Assignment)
    requires Ready(c, ins, b, vs, a, b', rs) && ins.JubjubScalarFromNative?
    ensures Carries(c, b, a, b', a') && BoundedAll(rs, b'.next)
  {
    CellInBounds(vs[0], b.next);
    SortedIsValid(c, a, vs[0]);
    FieldHoldsLimb(c);
    var b1 := Emit(b, Decompose(256, c.ReprBytes()), [vs[0].w], c.ReprBytes());
    var a1 := DecomposeComplete(c, b, 256, c.ReprBytes(), vs[0].w, a);
    a' := ScalarComplete(c, b1, Fresh(b.next, c.ReprBytes()), a1);
  }

  /** Rewiring a byte string. */
  lemma WiringComplete(c: Params, ins: Instruction, b: Builder, vs: seq<CircuitValue>, a: Assignment,
      b': Builder, rs: seq<CircuitValue>)
    requires Ready(c, ins, b, vs, a, b', rs) && (ins.Reverse? || ins.Slice? || ins.Nth?)
    ensures Carries(c, b, a, b', a) && BoundedAll(rs, b'.next)
  {
    CellInBounds(vs[0], b.next);
  }

  lemma CopyComplete(c: Params, ins: Instruction, b: Builder, vs: seq<CircuitValue>, a: Assignment,
      b': Builder, rs: seq<CircuitValue>)
    requires Ready(c, ins, b, vs, a, b', rs) && (ins.Concat? || ins.Copy?)
    ensures Carries(c, b, a, b', a) && BoundedAll(rs, b'.next)
  {
    if ins.Concat? { ConcatBounded(vs, b.next); }
  }

  lemma PackingOpComplete(c: Params, ins: Instruction, b: Builder, vs: seq<CircuitValue>, a: Assignment,
      b': Builder, rs: seq<CircuitValue>) returns (a': Assignment)
    requires Ready(c, ins, b, vs, a, b', rs) && (ins.Encode? || ins.BytesIntoNatives?)
    ensures Carries(c, b, a, b', a') && BoundedAll(rs, b'.next)
  {
    a' := EncodeComplete(c, b, vs[0], a);
    NativesBounded(EncodeWires(c, b, vs[0]).1, b'.next);
  }

  lemma LowHighComplete(c: Params, ins: Instruction, b: Builder, vs: seq<CircuitValue>, a: Assignment,
      b': Builder, rs: seq<CircuitValue>) returns (a': Assignment)
    requires Ready(c, ins, b, vs, a, b', rs) && ins.Bytes32IntoLowHigh?
    ensures Carries(c, b, a, b', a') && BoundedAll(rs, b'.next)
  {
    var ws, k := vs[0].ws, c.limbBytes as int;
    CellInBounds(vs[0], b.next);
    var b1 := Emit(b, Fixed([0]), [], 1);
    var a1 := Call(c, b, Fixed([0]), [], 1, a, [0]);
    a' := RecomposeComplete(c, b1, 256, c.p, ws[k := b.next], a1);
    NativesBounded([b1.next, ws[k]], b'.next);
  }

  lemma ConstantComplete(c: Params, ins: Instruction, b: Builder, vs: seq<CircuitValue>, a: Assignment,
      b': Builder, rs: seq<CircuitValue>) returns (a': Assignment)
    requires Ready(c, ins, b, vs, a, b', rs) && ins.LoadConstant?
    ensures Carries(c, b, a, b', a') && BoundedAll(rs, b'.next)
  {
    var v := Encoding.Decode(c, ins.valT, ins.encoding).value;
    a' := Call(c, b, Fixed(ValueCells(v)), [], CellCount(TypeOf(v)), a, ValueCells(v));
    FreshBounded(TypeOf(v), b.next, b'.next);
  }

  lemma FreshBounded(t: IrType, from: nat, n: nat)
    requires from + CellCount(t) <= n
    ensures Bounded(OfWires(t, Fresh(from, CellCount(t))), n)
  {}

  // ----- instructions that can fail -----

  lemma AssertComplete(c: Params, ins: Instruction, b: Builder, vs: seq<CircuitValue>, a: Assignment,
      b': Builder, rs: seq<CircuitValue>) returns (a': Assignment)
    requires Succeeds(c, ins, b, vs, a, b', rs) && ins.Assert?
    ensures Carries(c, b, a, b', a') && BoundedAll(rs, b'.next)
  {
    CellInBounds(vs[0], b.next);
    OpSoundness.Pair(a, vs[0].w, vs[0].w);
    a' := Call(c, b, AssertNonZero, [vs[0].w], 0, a, []);
  }

  lemma BitComplete(c: Params, ins: Instruction, b: Builder, vs: seq<CircuitValue>, a: Assignment,
      b': Builder, rs: seq<CircuitValue>) returns (a': Assignment)
    requires Succeeds(c, ins, b, vs, a, b', rs) && (ins.ConstrainToBoolean? || ins.Not?)
    ensures Carries(c, b, a, b', a') && BoundedAll(rs, b'.next)
  {
    CellInBounds(vs[0], b.next);
    a' := BitCall(c, b, vs[0].w, a);
    if ins.Not? { a' := NotCall(c, Emit(b, InRange(2), [vs[0].w], 0), vs[0].w, a'); }
  }

  lemma BitCall(c: Params, b: Builder, w: Wire, a: Assignment) returns (a': Assignment)
    requires Solves(c, b, a) && w < b.next && Cell(a, w) < 2
    ensures a' == a && Carries(c, b, a, Emit(b, InRange(2), [w], 0), a')
  {
    OpSoundness.Pair(a, w, w);
    a' := Call(c, b, InRange(2), [w], 0, a, []);
  }

  lemma NotCall(c: Params, b: Builder, w: Wire, a: Assignment) returns (a': Assignment)
    requires Solves(c, b, a) && w < b.next && Cell(a, w) < 2
    ensures Carries(c, b, a, Emit(b, NotBit, [w], 1), a')
  {
    OpSoundness.Pair(a, w, w);
    a' := Call(c, b, NotBit, [w], 1, a, [1 - Cell(a, w)]);
  }

  lemma InvComplete(c: Params, ins: Instruction, b: Builder, vs: seq<CircuitValue>, a: Assignment,
      b': Builder, rs: seq<CircuitValue>) returns (a': Assignment)
    requires Succeeds(c, ins, b, vs, a, b', rs) && ins.Inv?
    ensures Carries(c, b, a, b', a') && BoundedAll(rs, b'.next)
  {
    var x, m := vs[0], Operations.Modulus(c, CircuitTypeOf(vs[0])).value;
    CellInBounds(x, b.next);
    OpSoundness.Pair(a, x.w, x.w);
    OpSoundness.InvertIsInverse(m, Cell(a, x.w), 0);
    FieldHoldsLimb(c);
    ModSmall(1, m);
    var y := Operations.Invert(m, Cell(a, x.w), 0).value;
    a' := Call(c, b, InvMod(m), [x.w], 1, a, [y]);
  }

  lemma SelectComplete(c: Params, ins: Instruction, b: Builder, vs: seq<CircuitValue>, a: Assignment,
      b': Builder, rs: seq<CircuitValue>) returns (a': Assignment)
    requires Succeeds(c, ins, b, vs, a, b', rs) && ins.CondSelect?
    ensures Carries(c, b, a, b', a') && BoundedAll(rs, b'.next)
  {
    var bit, x, y := vs[0].w, vs[1].w, vs[2].w;
    CellInBounds(vs[0], b.next);
    CellInBounds(vs[1], b.next);
    CellInBounds(vs[2], b.next);
    a' := SelectCall(c, b, bit, x, y, a);
  }

  lemma SelectCall(c: Params, b: Builder, bit: Wire, x: Wire, y: Wire, a: Assignment) returns (a': Assignment)
    requires Solves(c, b, a) && bit < b.next && x < b.next && y < b.next && Cell(a, bit) < 2
    ensures Carries(c, b, a, Emit(Emit(b, InRange(2), [bit], 0), Select, [bit, x, y], 1), a')
  {
    var a1 := BitCall(c, b, bit, a);
    assert Cells(a1, [bit, x, y]) == [Cell(a, bit), Cell(a, x), Cell(a, y)];
    var r := if Cell(a, bit) == 1 then Cell(a, x) else Cell(a, y);
    a' := Call(c, Emit(b, InRange(2), [bit], 0), Select, [bit, x, y], 1, a1, [r]);
  }

  lemma CompareComplete(c: Params, ins: Instruction, b: Builder, vs: seq<CircuitValue>, a: Assignment,
      b': Builder, rs: seq<CircuitValue>) returns (a': Assignment)
    requires Succeeds(c, ins, b, vs, a, b', rs) && (ins.ConstrainBits? || ins.LessThan?)
    ensures Carries(c, b, a, b', a') && BoundedAll(rs, b'.next)
  {
    CellInBounds(vs[0], b.next);
    if ins.LessThan? {
      CellInBounds(vs[1], b.next);
      var x, y := vs[0].w, vs[1].w;
      OpSoundness.Pair(a, x, y);
      a' := Call(c, b, LowerThan(RoundedBits(ins.bits)), [x, y], 1, a, [if Cell(a, x) < Cell(a, y) then 1 else 0]);
    } else {
      a' := DecomposeComplete(c, b, 2, ins.bits, vs[0].w, a);
    }
  }

  lemma EqualityComplete(c: Params, ins: Instruction, b: Builder, vs: seq<CircuitValue>, a: Assignment,
      b': Builder, rs: seq<CircuitValue>) returns (a': Assignment)
    requires Succeeds(c, ins, b, vs, a, b', rs) && (ins.ConstrainEq? || ins.TestEq?)
    ensures Carries(c, b, a, b', a') && BoundedAll(rs, b'.next)
  {
    var x, y := vs[0], vs[1];
    CellInBounds(x, b.next);
    CellInBounds(y, b.next);
    if ins.ConstrainEq? {
      OpSoundness.SameCells(c, a, x, y);
      a' := AssertEqualComplete(c, b, Wires(x), Wires(y), a);
    } else if x.Bytes? {
      var (b1, eqs) := IsEqualAll(b, x.ws, y.ws);
      var a1 := IsEqualComplete(c, b, x.ws, y.ws, a);
      a' := GateCall(c, b1, AndBits, eqs, a1);
    } else {
      OpSoundness.Pair(a, x.w, y.w);
      a' := Call(c, b, IsEqual, [x.w, y.w], 1, a, [if Cell(a, x.w) == Cell(a, y.w) then 1 else 0]);
    }
  }

  lemma ReconstituteComplete(c: Params, ins: Instruction, b: Builder, vs: seq<CircuitValue>, a: Assignment,
      b': Builder, rs: seq<CircuitValue>) returns (a': Assignment)
    requires Succeeds(c, ins, b, vs, a, b', rs) && ins.ReconstituteField?
    ensures Carries(c, b, a, b', a') && BoundedAll(rs, b'.next)
  {
    CellInBounds(vs[0], b.next);
    CellInBounds(vs[1], b.next);
    a' := RejoinComplete(c, b, vs[0].w, vs[1].w, ins.bits, a);
  }

  lemma AlignedHashComplete(c: Params, ins: Instruction, b: Builder, vs: seq<CircuitValue>, a: Assignment,
      b': Builder, rs: seq<CircuitValue>) returns (a': Assignment)
    requires Succeeds(c, ins, b, vs, a, b', rs) && ins.AlignedHash?
    ensures Carries(c, b, a, b', a') && BoundedAll(rs, b'.next)
  {
    AllNativeRead(a, vs);
    AllNativeBounded(vs, b.next);
    AllNativeSorted(c, a, vs);
    var ws, n := AllNative(vs).value, DigestLen(ins.kind);
    var (b1, bytes) := DecodeAligned(c, b, ins.alignment, ws).value;
    var a1 := AlignedComplete(c, b, ins.alignment, ws, a);
    a' := Call(c, b1, Digest(ins.kind), bytes, n, a1, c.digest(ins.kind, Cells(a1, bytes)));
  }

  lemma UnpackingOpComplete(c: Params, ins: Instruction, b: Builder, vs: seq<CircuitValue>, a: Assignment,
      b': Builder, rs: seq<CircuitValue>) returns (a': Assignment)
    requires Succeeds(c, ins, b, vs, a, b', rs) && ins.BytesFromNatives?
    ensures Carries(c, b, a, b', a') && BoundedAll(rs, b'.next)
  {
    AllNativeRead(a, vs);
    AllNativeBounded(vs, b.next);
    AllNativeSorted(c, a, vs);
    a' := UnpackComplete(c, b, AllNative(vs).value, ins.len, a);
  }

  lemma FromLowHighComplete(c: Params, ins: Instruction, b: Builder, vs: seq<CircuitValue>, a: Assignment,
      b': Builder, rs: seq<CircuitValue>) returns (a': Assignment)
    requires Succeeds(c, ins, b, vs, a, b', rs) && ins.Bytes32FromLowHigh?
    ensures Carries(c, b, a, b', a') && BoundedAll(rs, b'.next)
  {
    var low, high := vs[0], vs[1];
    SortedIsValid(c, a, low);
    SortedIsValid(c, a, high);
    CellInBounds(high, b.next);
    FieldHoldsLimb(c);
    OpSoundness.ByteFits(c, Cell(a, high.w));
    a' := LowHighCall(c, b, low, high.w, a);
  }

  lemma LowHighCall(c: Params, b: Builder, low: CircuitValue, high: Wire, a: Assignment) returns (a': Assignment)
    requires c.Sizes() && Solves(c, b, a) && Bounded(low, b.next) && Sorted(c, a, low) && high < b.next
    requires SynthLowHigh(c, b, low, high).Some?
    requires Encoding.FieldBytes(c, Cell(a, low.w))[c.limbBytes] == 0 && Cell(a, high) < 256
    ensures var (b', rs) := SynthLowHigh(c, b, low, high).value;
            Carries(c, b, a, b', a') && BoundedAll(rs, b'.next)
  {
    var (b1, ws) := ToBytesWires(c, b, low).value;
    var k := c.limbBytes as int;
    var a1 := ToBytesComplete(c, b, low, a);
    assert Cells(a1, [ws[k]]) == [Cells(a1, ws)[k]];
    var b2 := Emit(b1, AssertFixed(0), [ws[k]], 0);
    var a2 := Call(c, b1, AssertFixed(0), [ws[k]], 0, a1, []);
    assert Cells(a2, [high]) == [Cell(a, high)];
    a' := Call(c, b2, InRange(256), [high], 0, a2, []);
  }

  // ----- all of them -----

  lemma OpComplete(c: Params, ins: Instruction, b: Builder, vs: seq<CircuitValue>, a: Assignment,
      b': Builder, rs: seq<CircuitValue>) returns (a': Assignment)
    requires Succeeds(c, ins, b, vs, a, b', rs)
    ensures Carries(c, b, a, b', a') && BoundedAll(rs, b'.next)
  {
    if ins.Add? || ins.Mul? { a' := ArithComplete(c, ins, b, vs, a, b', rs); }
    else if ins.Neg? { a' := NegComplete(c, ins, b, vs, a, b', rs); }
    else if ins.Inv? { a' := InvComplete(c, ins, b, vs, a, b', rs); }
    else if ins.And? || ins.Or? || ins.Xor? { a' := GateComplete(c, ins, b, vs, a, b', rs); }
    else if ins.Assert? { a' := AssertComplete(c, ins, b, vs, a, b', rs); }
    else if ins.Not? || ins.ConstrainToBoolean? { a' := BitComplete(c, ins, b, vs, a, b', rs); }
    else if ins.CondSelect? { a' := SelectComplete(c, ins, b, vs, a, b', rs); }
    else if ins.ConstrainBits? || ins.LessThan? { a' := CompareComplete(c, ins, b, vs, a, b', rs); }
    else if ins.ConstrainEq? || ins.TestEq? { a' := EqualityComplete(c, ins, b, vs, a, b', rs); }
    else if ins.DivModPowerOfTwo? { a' := DivModComplete(c, ins, b, vs, a, b', rs); }
    else if ins.ReconstituteField? { a' := ReconstituteComplete(c, ins, b, vs, a, b', rs); }
    else if ins.TransientHash? { a' := TransientHashComplete(c, ins, b, vs, a, b', rs); }
    else if ins.AlignedHash? { a' := AlignedHashComplete(c, ins, b, vs, a, b', rs); }
    else if ins.ToBytes? || ins.IntoBytes32? { a' := ToBytesOpComplete(c, ins, b, vs, a, b', rs); }
    else if ins.FromBytes? || ins.FromBytes32? { a' := FromBytesOpComplete(c, ins, b, vs, a, b', rs); }
    else if ins.JubjubScalarFromNative? { a' := ScalarOpComplete(c, ins, b, vs, a, b', rs); }
    else if ins.Encode? || ins.BytesIntoNatives? { a' := PackingOpComplete(c, ins, b, vs, a, b', rs); }
    else if ins.BytesFromNatives? { a' := UnpackingOpComplete(c, ins, b, vs, a, b', rs); }
    else if ins.Bytes32IntoLowHigh? { a' := LowHighComplete(c, ins, b, vs, a, b', rs); }
    else if ins.Bytes32FromLowHigh? { a' := FromLowHighComplete(c, ins, b, vs, a, b', rs); }
    else if ins.LoadConstant? { a' := ConstantComplete(c, ins, b, vs, a, b', rs); }
    else {
      if ins.Concat? || ins.Copy? { CopyComplete(c, ins, b, vs, a, b', rs); }
      else { WiringComplete(c, ins, b, vs, a, b', rs); }
      a' := a;
    }
  }
}
