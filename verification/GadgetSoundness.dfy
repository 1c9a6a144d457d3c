/** What satisfied constraints say about the values of the composite gadgets. */
module GadgetSoundness {
  import opened Options
  import opened Digits
  import opened Types
  import opened Instructions
  import opened Gadgets
  import opened Circuit
  import opened Readings
  import Encoding
  import Operations
  import Preprocess
  import CircuitRun

  /** Digits are determined by the integer they make up. */
  lemma DecomposedDigits(xs: seq<nat>, base: nat, n: nat)
    requires base >= 2 && IsDigits(xs, base)
    requires Val(xs, base) == n
    ensures xs == DigitsOf(n, base, |xs|) && n < Pow(base, |xs|)
  {
    DigitsVal(xs, base);
    ValBound(xs, base);
  }

  // ----- operands -----

  lemma ResolveSound(c: Params, b: Builder, memory: CircuitMemory, operand: Operand, a: Assignment)
    requires operand.Immediate? ==> operand.imm < c.p
    requires SortedMemory(c, a, memory)
    requires ResolveWires(b, memory, operand).Some? && Sat(c, ResolveWires(b, memory, operand).value.0, a)
    ensures Sat(c, b, a)
    ensures var v := ResolveWires(b, memory, operand).value.1;
            Sorted(c, a, v) && Preprocess.Resolve(ReadMemory(a, memory), operand) == Some(Read(a, v))
  {
    if operand.Immediate? {
      Emitted(c, b, Fixed([operand.imm]), [], 1, a);
      ReadOfWires(c, a, IrValue.Native(operand.imm), [b.next]);
    }
  }

  predicate TypedOperands(c: Params, operands: seq<Operand>) {
    forall i :: 0 <= i < |operands| ==> operands[i].Immediate? ==> operands[i].imm < c.p
  }

  lemma {:induction false} ResolveAllSound(c: Params, b: Builder, memory: CircuitMemory, operands: seq<Operand>,
      a: Assignment)
    requires TypedOperands(c, operands) && SortedMemory(c, a, memory)
    requires ResolveAllWires(b, memory, operands).Some? && Sat(c, ResolveAllWires(b, memory, operands).value.0, a)
    ensures Sat(c, b, a)
    ensures var vs := ResolveAllWires(b, memory, operands).value.1;
            SortedAll(c, a, vs) && Preprocess.ResolveAll(ReadMemory(a, memory), operands) == Some(ReadAll(a, vs))
    decreases |operands|
  {
    if operands == [] {
    } else {
      var (b1, v) := ResolveWires(b, memory, operands[0]).value;
      var (b2, rest) := ResolveAllWires(b1, memory, operands[1..]).value;
      assert TypedOperands(c, operands[1..]);
      ResolveAllSound(c, b1, memory, operands[1..], a);
      ResolveSound(c, b, memory, operands[0], a);
      ReadAllCons(a, v, rest);
      SortedCons(c, a, v, rest);
    }
  }

  // ----- bytes and encodings -----

  lemma {:induction false} PackSound(c: Params, b: Builder, ws: seq<Wire>, a: Assignment)
    requires c.Sizes() && IsDigits(Cells(a, ws), 256) && Sat(c, PackWires(c, b, ws).0, a)
    ensures Sat(c, b, a)
    ensures Cells(a, PackWires(c, b, ws).1) == Encoding.PackBytes(c, Cells(a, ws))
    decreases |ws|
  {
    if ws == [] {
    } else {
      var len := Encoding.Min(|ws|, c.limbBytes);
      var chunk := ws[..len];
      var (b1, w) := PackChunk(c, b, chunk);
      var (b2, rest) := PackWires(c, b1, ws[len..]);
      CellsCut(a, ws, len);
      PackSound(c, b1, ws[len..], a);
      PackChunkSound(c, b, chunk, a);
      CellsCons(a, w, rest);
      if |ws| <= c.limbBytes {
        assert chunk == ws && rest == [];
      }
    }
  }

  lemma PackChunkSound(c: Params, b: Builder, chunk: seq<Wire>, a: Assignment)
    requires c.Sizes() && 0 < |chunk| <= c.limbBytes && IsDigits(Cells(a, chunk), 256)
    requires Sat(c, PackChunk(c, b, chunk).0, a)
    ensures Sat(c, b, a) && Cell(a, PackChunk(c, b, chunk).1) == Val(Cells(a, chunk), 256)
  {
    if |chunk| == 1 {
      assert Cells(a, chunk) == [Cell(a, chunk[0])];
      ValSingle(Cell(a, chunk[0]), 256);
    } else {
      Emitted(c, b, Recompose(256, c.p), chunk, 1, a);
      ValBound(Cells(a, chunk), 256);
      FieldHoldsLimb(c);
      PowMono(256, |chunk|, c.limbBytes);
      ModSmall(Val(Cells(a, chunk), 256), c.p);
    }
  }

  /** The high limb of a scalar is asserted to be zero, so the low one is the scalar. */
  lemma PackScalarSound(c: Params, b: Builder, w: Wire, a: Assignment)
    requires Sat(c, Emit(Emit(b, PackScalar, [w], 2), AssertFixed(0), [b.next + 1], 0), a)
    ensures Sat(c, b, a) && Cell(a, b.next) == Cell(a, w)
  {
    Emitted(c, Emit(b, PackScalar, [w], 2), AssertFixed(0), [b.next + 1], 0, a);
    Emitted(c, b, PackScalar, [w], 2, a);
    assert Cells(a, [b.next + 1])[0] == 0 && Cells(a, [w])[0] == Cell(a, w);
    assert Cells(a, Fresh(b.next, 2)) == [Cell(a, b.next), Cell(a, b.next + 1)];
    assert Pow(2, c.scalarBits) * 0 == 0;
  }

  /** Two limbs that make up the predecessor are its limbs. */
  lemma PackForeignSound(c: Params, b: Builder, f: ForeignField, w: Wire, a: Assignment)
    requires Sat(c, Emit(b, PackForeign(f), [w], 2), a)
    ensures Sat(c, b, a) && Cells(a, [b.next, b.next + 1]) == Encoding.ForeignLimbs(c, f, Cell(a, w))
  {
    Emitted(c, b, PackForeign(f), [w], 2, a);
    assert Cells(a, [w])[0] == Cell(a, w);
    assert Cells(a, Fresh(b.next, 2)) == [Cell(a, b.next), Cell(a, b.next + 1)];
    LimbsUnique(Encoding.Predecessor(Cell(a, w), c.order(f)), Pow(2, c.lowBits), Cell(a, b.next), Cell(a, b.next + 1));
  }

  lemma LimbsUnique(n: nat, low: Pos, x: nat, y: nat)
    requires x + low * y == n && x < low
    ensures x == n % low && y == n / low
  {
    DivModUnique(n, low, y, x);
  }

  lemma EncodeSound(c: Params, b: Builder, v: CircuitValue, a: Assignment)
    requires c.Sizes() && Sorted(c, a, v) && Sat(c, EncodeWires(c, b, v).0, a)
    ensures Sat(c, b, a)
    ensures Cells(a, EncodeWires(c, b, v).1) == Encoding.Encode(c, Read(a, v))
  {
    SortedIsValid(c, a, v);
    match v
    case Bytes(ws) => PackSound(c, b, ws, a);
    case JubjubScalar(w) => PackScalarSound(c, b, w, a);
    case Foreign(f, w) => PackForeignSound(c, b, f, w, a);
    case _ =>
  }

  lemma {:induction false} EncodeAllSound(c: Params, b: Builder, vs: seq<CircuitValue>, a: Assignment)
    requires c.Sizes() && SortedAll(c, a, vs) && Sat(c, EncodeAllWires(c, b, vs).0, a)
    ensures Sat(c, b, a)
    ensures Cells(a, EncodeAllWires(c, b, vs).1) == Encoding.EncodeAll(c, ReadAll(a, vs))
    decreases |vs|
  {
    if vs == [] {
    } else {
      var (b1, ws) := EncodeWires(c, b, vs[0]);
      var (b2, rest) := EncodeAllWires(c, b1, vs[1..]);
      EncodeAllSound(c, b1, vs[1..], a);
      EncodeSound(c, b, vs[0], a);
      CellsCat(a, ws, rest);
      assert ReadAll(a, vs)[1..] == ReadAll(a, vs[1..]);
    }
  }

  lemma DecomposeSound(c: Params, b: Builder, base: Pos, n: nat, w: Wire, a: Assignment)
    requires base >= 2 && Sat(c, Emit(b, Decompose(base, n), [w], n), a)
    ensures Sat(c, b, a) && Cell(a, w) < Pow(base, n)
    ensures Cells(a, Fresh(b.next, n)) == DigitsOf(Cell(a, w), base, n)
  {
    Emitted(c, b, Decompose(base, n), [w], n, a);
    assert Cells(a, [w]) == [Cell(a, w)];
    DecomposedDigits(Cells(a, Fresh(b.next, n)), base, Cell(a, w));
  }

  lemma RecomposeSound(c: Params, b: Builder, base: Pos, m: Pos, ws: seq<Wire>, a: Assignment)
    requires Sat(c, Emit(b, Recompose(base, m), ws, 1), a)
    ensures Sat(c, b, a) && Cell(a, b.next) == Val(Cells(a, ws), base) % m
  {
    Emitted(c, b, Recompose(base, m), ws, 1, a);
  }

  lemma AssertEqualOne(c: Params, b: Builder, x: Wire, y: Wire, a: Assignment)
    requires Sat(c, Emit(b, AssertEqual, [x, y], 0), a)
    ensures Sat(c, b, a) && Cell(a, x) == Cell(a, y)
  {
    Emitted(c, b, AssertEqual, [x, y], 0, a);
    assert Cells(a, [x, y]) == [Cell(a, x), Cell(a, y)];
  }

  lemma RemainderSound(c: Params, b: Builder, m: Pos, bytes: seq<Wire>, a: Assignment)
    requires Sat(c, Emit(b, DivRem(m), bytes, 2), a)
    ensures Sat(c, b, a) && Cell(a, b.next + 1) == Val(Cells(a, bytes), 256) % m && Cell(a, b.next + 1) < m
  {
    Emitted(c, b, DivRem(m), bytes, 2, a);
    assert Cells(a, Fresh(b.next, 2)) == [Cell(a, b.next), Cell(a, b.next + 1)];
    DivModUnique(Val(Cells(a, bytes), 256), m, Cell(a, b.next), Cell(a, b.next + 1));
  }

  lemma ScalarSound(c: Params, b: Builder, bytes: seq<Wire>, a: Assignment)
    requires c.Sizes() && Sat(c, ScalarFromBytes(c, b, bytes).0, a)
    ensures Sat(c, b, a)
    ensures var v := ScalarFromBytes(c, b, bytes).1;
            Sorted(c, a, v) && Read(a, v) == IrValue.JubjubScalar(Val(Cells(a, bytes), 256) % c.r)
  {
    var b1 := Emit(b, DivRem(c.r), bytes, 2);
    var b2 := Emit(b1, Decompose(256, c.ReprBytes()), [b.next + 1], c.ReprBytes());
    var r := Cell(a, b.next + 1);
    RecomposeSound(c, b2, 256, c.r, Fresh(b1.next, c.ReprBytes()), a);
    DecomposeSound(c, b1, 256, c.ReprBytes(), b.next + 1, a);
    RemainderSound(c, b, c.r, bytes, a);
    ValDigits(r, 256, c.ReprBytes());
    ModSmall(r, c.r);
    ReadOfWires(c, a, IrValue.JubjubScalar(r), [b2.next]);
  }

  lemma ToBytesSound(c: Params, b: Builder, v: CircuitValue, a: Assignment)
    requires ToBytesWires(c, b, v).Some? && Sat(c, ToBytesWires(c, b, v).value.0, a)
    ensures Sat(c, b, a)
    ensures Operations.ToBytesOf(c, Read(a, v)) == Some(Cells(a, ToBytesWires(c, b, v).value.1))
  {
    DecomposeSound(c, b, 256, c.ReprBytes(), v.w, a);
  }

  lemma FromBytesSound(c: Params, b: Builder, t: IrType, bytes: seq<Wire>, a: Assignment)
    requires c.Sizes() && FromBytesWires(c, b, t, bytes).Some? && Sat(c, FromBytesWires(c, b, t, bytes).value.0, a)
    ensures Sat(c, b, a)
    ensures var v := FromBytesWires(c, b, t, bytes).value.1;
            Sorted(c, a, v) && Operations.FromBytesOf(c, t, Cells(a, bytes)) == Some(Read(a, v))
  {
    if t.JubjubScalar? {
      ScalarSound(c, b, bytes, a);
    } else {
      var m := Operations.Modulus(c, t).value;
      Emitted(c, b, Recompose(256, m), bytes, 1, a);
      ReadOfWires(c, a, Operations.OfElem(t, Val(Cells(a, bytes), 256) % m), [b.next]);
    }
  }

  /** A limb decomposed into `len` bytes has them as its low bytes, and zeros above. */
  lemma LimbSound(c: Params, b: Builder, w: Wire, len: nat, a: Assignment)
    requires c.Sizes() && Cell(a, w) < c.p && len <= c.ReprBytes() && Sat(c, Emit(b, Decompose(256, len), [w], len), a)
    ensures Sat(c, b, a)
    ensures Encoding.AllZero(Encoding.FieldBytes(c, Cell(a, w))[len..])
    ensures Cells(a, Fresh(b.next, len)) == Encoding.FieldBytes(c, Cell(a, w))[..len]
  {
    DecomposeSound(c, b, 256, len, w, a);
    FieldHoldsLimb(c);
    Encoding.HighBytesZero(c, Cell(a, w), len);
    DecomposedDigits(Encoding.FieldBytes(c, Cell(a, w))[..len], 256, Cell(a, w));
  }

  lemma {:induction false} UnpackSound(c: Params, b: Builder, limbs: seq<Wire>, n: nat, a: Assignment)
    requires c.Sizes() && Sat(c, UnpackWires(c, b, limbs, n).0, a)
    requires c.FieldElements(Cells(a, limbs))
    ensures Sat(c, b, a)
    ensures Encoding.UnpackBytes(c, Cells(a, limbs), n) == Some(Cells(a, UnpackWires(c, b, limbs, n).1))
    ensures IsDigits(Cells(a, UnpackWires(c, b, limbs, n).1), 256)
    decreases |limbs|
  {
    if limbs == [] {
    } else {
      var len := Encoding.Min(n, c.limbBytes);
      var b1 := Emit(b, Decompose(256, len), [limbs[0]], len);
      var (b2, rest) := UnpackWires(c, b1, limbs[1..], n - len);
      assert Cells(a, limbs)[1..] == Cells(a, limbs[1..]);
      UnpackSound(c, b1, limbs[1..], n - len, a);
      assert Cell(a, limbs[0]) == Cells(a, limbs)[0];
      LimbSound(c, b, limbs[0], len, a);
      CellsCat(a, Fresh(b.next, len), rest);
    }
  }

  // ----- aligned hash inputs -----

  lemma {:induction false} ChunksSound(c: Params, b: Builder, chunks: seq<Wire>, a: Assignment)
    requires Sat(c, DecodeChunks(c, b, chunks).0, a)
    ensures Sat(c, b, a)
    ensures CircuitRun.ChunkBytes(c, Cells(a, chunks)) == Some(Cells(a, DecodeChunks(c, b, chunks).1))
    decreases |chunks|
  {
    if chunks == [] {
    } else {
      var k := |chunks| - 1;
      var b1 := Emit(b, Decompose(256, c.limbBytes), [chunks[k]], c.limbBytes);
      var (b2, rest) := DecodeChunks(c, b1, chunks[..k]);
      assert Cells(a, chunks)[..k] == Cells(a, chunks[..k]);
      ChunksSound(c, b1, chunks[..k], a);
      DecomposeSound(c, b, 256, c.limbBytes, chunks[k], a);
      CellsCat(a, Fresh(b.next, c.limbBytes), rest);
    }
  }

  lemma BytesAtomSound(c: Params, b: Builder, stray: nat, chunks: nat, inputs: seq<Wire>, a: Assignment)
    requires DecodeBytesAtom(c, b, stray, chunks, inputs).Some?
    requires Sat(c, DecodeBytesAtom(c, b, stray, chunks, inputs).value.0, a)
    ensures Sat(c, b, a)
    ensures var (_, ws, left) := DecodeBytesAtom(c, b, stray, chunks, inputs).value;
            CircuitRun.BytesAtomBytes(c, stray, chunks, Cells(a, inputs)) == Some((Cells(a, ws), Cells(a, left)))
  {
    var head := if stray > 0 then 1 else 0;
    var b1 := if stray > 0 then Emit(b, Decompose(256, stray), [inputs[0]], stray) else b;
    var middle := inputs[head..head + chunks];
    var (b2, full) := DecodeChunks(c, b1, middle);
    CellsSlice(a, inputs, head, head + chunks);
    CellsCut(a, inputs, head + chunks);
    ChunksSound(c, b1, middle, a);
    if stray > 0 { DecomposeSound(c, b, 256, stray, inputs[0], a); }
    CellsCat(a, full, Fresh(b.next, stray));
    assert Cells(a, Fresh(b.next, stray)) == if stray > 0 then DigitsOf(Cells(a, inputs)[0], 256, stray) else [];
  }

  lemma AtomSound(c: Params, b: Builder, atom: Atom, inputs: seq<Wire>, a: Assignment)
    requires DecodeAtom(c, b, atom, inputs).Some? && Sat(c, DecodeAtom(c, b, atom, inputs).value.0, a)
    ensures Sat(c, b, a)
    ensures var (_, ws, left) := DecodeAtom(c, b, atom, inputs).value;
            CircuitRun.AtomBytes(c, atom, Cells(a, inputs)) == Some((Cells(a, ws), Cells(a, left)))
  {
    match atom
    case FieldAtom =>
      DecomposeSound(c, b, 256, c.ReprBytes(), inputs[0], a);
      assert Cells(a, inputs)[1..] == Cells(a, inputs[1..]);
    case BytesAtom(length) => BytesAtomSound(c, b, length % c.limbBytes, length / c.limbBytes, inputs, a);
  }

  lemma {:induction false} AlignedSound(c: Params, b: Builder, alignment: Alignment, inputs: seq<Wire>, a: Assignment)
    requires DecodeAligned(c, b, alignment, inputs).Some? && Sat(c, DecodeAligned(c, b, alignment, inputs).value.0, a)
    ensures Sat(c, b, a)
    ensures CircuitRun.AlignedBytes(c, alignment, Cells(a, inputs)) ==
            Some(Cells(a, DecodeAligned(c, b, alignment, inputs).value.1))
    decreases |alignment|
  {
    if alignment == [] {
    } else {
      var (b1, ws, left) := DecodeAtom(c, b, alignment[0].atom, inputs).value;
      var (b2, rest) := DecodeAligned(c, b1, alignment[1..], left).value;
      AlignedSound(c, b1, alignment[1..], left, a);
      AtomSound(c, b, alignment[0].atom, inputs, a);
      CellsCat(a, ws, rest);
    }
  }

  // ----- equality -----

  lemma {:induction false} AssertEqualSound(c: Params, b: Builder, xs: seq<Wire>, ys: seq<Wire>, a: Assignment)
    requires |xs| == |ys| && Sat(c, AssertEqualAll(b, xs, ys), a)
    ensures Sat(c, b, a) && Cells(a, xs) == Cells(a, ys)
    decreases |xs|
  {
    if xs == [] {
    } else {
      AssertEqualSound(c, Emit(b, AssertEqual, [xs[0], ys[0]], 0), xs[1..], ys[1..], a);
      Emitted(c, b, AssertEqual, [xs[0], ys[0]], 0, a);
      assert Cells(a, [xs[0], ys[0]]) == [Cell(a, xs[0]), Cell(a, ys[0])];
      assert Cells(a, xs) == [Cell(a, xs[0])] + Cells(a, xs[1..]);
      assert Cells(a, ys) == [Cell(a, ys[0])] + Cells(a, ys[1..]);
    }
  }

  function EqualCells(xs: seq<nat>, ys: seq<nat>): (r: seq<nat>)
    requires |xs| == |ys|
    ensures |r| == |xs|
  {
    seq(|xs|, i requires 0 <= i < |xs| => if xs[i] == ys[i] then 1 else 0)
  }

  lemma {:induction false} IsEqualSound(c: Params, b: Builder, xs: seq<Wire>, ys: seq<Wire>, a: Assignment)
    requires |xs| == |ys| && Sat(c, IsEqualAll(b, xs, ys).0, a)
    ensures Sat(c, b, a)
    ensures Cells(a, IsEqualAll(b, xs, ys).1) == EqualCells(Cells(a, xs), Cells(a, ys))
    decreases |xs|
  {
    if xs == [] {
    } else {
      var b1 := Emit(b, IsEqual, [xs[0], ys[0]], 1);
      var rest := IsEqualAll(b1, xs[1..], ys[1..]).1;
      IsEqualSound(c, b1, xs[1..], ys[1..], a);
      Emitted(c, b, IsEqual, [xs[0], ys[0]], 1, a);
      assert Cells(a, [xs[0], ys[0]]) == [Cell(a, xs[0]), Cell(a, ys[0])];
      assert Cells(a, xs)[1..] == Cells(a, xs[1..]) && Cells(a, ys)[1..] == Cells(a, ys[1..]);
      assert Cells(a, [b.next] + rest) == [Cell(a, b.next)] + Cells(a, rest);
      EqualCellsCons(Cells(a, xs), Cells(a, ys));
    }
  }

  lemma EqualCellsCons(xs: seq<nat>, ys: seq<nat>)
    requires |xs| == |ys| > 0
    ensures EqualCells(xs, ys) == [if xs[0] == ys[0] then 1 else 0] + EqualCells(xs[1..], ys[1..])
  {}

  /** The conjunction of the pairwise tests is equality of the lists. */
  lemma EqualCellsAnd(xs: seq<nat>, ys: seq<nat>)
    requires |xs| == |ys|
    ensures (forall i :: 0 <= i < |xs| ==> EqualCells(xs, ys)[i] == 1) <==> xs == ys
  {
    if forall i :: 0 <= i < |xs| ==> EqualCells(xs, ys)[i] == 1 {
      forall i | 0 <= i < |xs|
        ensures xs[i] == ys[i]
      {
        assert EqualCells(xs, ys)[i] == 1;
      }
    }
  }
}
