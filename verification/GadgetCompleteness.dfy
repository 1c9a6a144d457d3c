/** When the composite gadgets can be satisfied: a solution extends over each of them. */
module GadgetCompleteness {
  import opened Options
  import opened Digits
  import opened Types
  import opened Instructions
  import opened Gadgets
  import opened Circuit
  import opened Readings
  import opened GadgetSoundness
  import Bits
  import Encoding
  import Operations
  import CircuitRun
  import OpSoundness

  /** `a'` carries the solution `a` of `b` on to the later builder `b'`. */
  ghost predicate Carries(c: Params, b: Builder, a: Assignment, b': Builder, a': Assignment) {
    a <= a' && b.next <= b'.next && Solves(c, b', a')
  }

  lemma Call(c: Params, b: Builder, g: Gadget, ins: seq<Wire>, n: nat, a: Assignment, ys: seq<nat>)
    returns (a': Assignment)
    requires Solves(c, b, a) && InBounds(ins, b.next) && |ys| == n && Relation(c, g, Cells(a, ins), ys)
    ensures a' == a + ys && Carries(c, b, a, Emit(b, g, ins, n), a')
    ensures Cells(a', Fresh(b.next, n)) == ys
    ensures n == 1 ==> Cell(a', b.next) == ys[0]
  {
    Extend(c, b, g, ins, n, a, ys);
    a' := a + ys;
    if n == 1 { assert Cells(a', Fresh(b.next, 1))[0] == Cell(a', b.next); }
  }

  lemma CellsKeep(a: Assignment, a': Assignment, ws: seq<Wire>)
    requires a <= a' && InBounds(ws, |a|)
    ensures Cells(a', ws) == Cells(a, ws)
  {}

  lemma BoundedLater(v: CircuitValue, m: nat, n: nat)
    requires Bounded(v, m) && m <= n
    ensures Bounded(v, n)
  {}

  lemma SortedAllKeep(c: Params, a: Assignment, a': Assignment, vs: seq<CircuitValue>)
    requires a <= a' && BoundedAll(vs, |a|) && SortedAll(c, a, vs)
    ensures SortedAll(c, a', vs) && ReadAll(a', vs) == ReadAll(a, vs)
  {
    forall i | 0 <= i < |vs|
      ensures Sorted(c, a', vs[i])
    {
      SortedExtends(c, a, a', vs[i]);
    }
    ReadAllExtends(a, a', vs);
  }

  // ----- operands -----

  lemma ResolveComplete(c: Params, b: Builder, memory: CircuitMemory, operand: Operand, a: Assignment)
    returns (a': Assignment)
    requires Solves(c, b, a) && BoundedMemory(memory, b.next) && ResolveWires(b, memory, operand).Some?
    ensures var (b', v) := ResolveWires(b, memory, operand).value;
            Carries(c, b, a, b', a') && Bounded(v, b'.next)
  {
    a' := a;
    if operand.Immediate? {
      a' := Call(c, b, Fixed([operand.imm]), [], 1, a, [operand.imm]);
    }
  }

  lemma {:induction false} ResolveAllComplete(c: Params, b: Builder, memory: CircuitMemory, operands: seq<Operand>,
      a: Assignment)
    returns (a': Assignment)
    requires Solves(c, b, a) && BoundedMemory(memory, b.next) && ResolveAllWires(b, memory, operands).Some?
    ensures var (b', vs) := ResolveAllWires(b, memory, operands).value;
            Carries(c, b, a, b', a') && BoundedAll(vs, b'.next)
    decreases |operands|
  {
    a' := a;
    if operands == [] {
    } else {
      var (b1, v) := ResolveWires(b, memory, operands[0]).value;
      var a1 := ResolveComplete(c, b, memory, operands[0], a);
      MemoryLater(memory, b.next, b1.next);
      a' := ResolveAllComplete(c, b1, memory, operands[1..], a1);
      var (b2, rest) := ResolveAllWires(b1, memory, operands[1..]).value;
      BoundedLater(v, b1.next, b2.next);
    }
  }

  lemma MemoryLater(memory: CircuitMemory, m: nat, n: nat)
    requires BoundedMemory(memory, m) && m <= n
    ensures BoundedMemory(memory, n)
  {
    forall id | id in memory
      ensures Bounded(memory[id], n)
    {
      BoundedLater(memory[id], m, n);
    }
  }

  // ----- bytes and encodings -----

  lemma RecomposeComplete(c: Params, b: Builder, base: Pos, m: Pos, ws: seq<Wire>, a: Assignment)
    returns (a': Assignment)
    requires Solves(c, b, a) && InBounds(ws, b.next)
    ensures Carries(c, b, a, Emit(b, Recompose(base, m), ws, 1), a')
    ensures Cell(a', b.next) == Val(Cells(a, ws), base) % m
  {
    a' := Call(c, b, Recompose(base, m), ws, 1, a, [Val(Cells(a, ws), base) % m]);
  }

  lemma DecomposeComplete(c: Params, b: Builder, base: Pos, n: nat, w: Wire, a: Assignment) returns (a': Assignment)
    requires base >= 2 && Solves(c, b, a) && w < b.next && Cell(a, w) < Pow(base, n)
    ensures Carries(c, b, a, Emit(b, Decompose(base, n), [w], n), a')
    ensures Cells(a', Fresh(b.next, n)) == DigitsOf(Cell(a, w), base, n)
  {
    ValDigits(Cell(a, w), base, n);
    assert Cells(a, [w]) == [Cell(a, w)];
    a' := Call(c, b, Decompose(base, n), [w], n, a, DigitsOf(Cell(a, w), base, n));
  }

  lemma {:induction false} PackComplete(c: Params, b: Builder, ws: seq<Wire>, a: Assignment) returns (a': Assignment)
    requires Solves(c, b, a) && InBounds(ws, b.next)
    ensures var (b', rs) := PackWires(c, b, ws);
            Carries(c, b, a, b', a') && InBounds(rs, b'.next)
    decreases |ws|
  {
    a' := a;
    if ws == [] {
    } else {
      var len := Encoding.Min(|ws|, c.limbBytes);
      var (b1, w) := PackChunk(c, b, ws[..len]);
      var a1 := a;
      if |ws[..len]| > 1 { a1 := RecomposeComplete(c, b, 256, c.p, ws[..len], a); }
      assert w < b1.next && Carries(c, b, a, b1, a1);
      a' := PackComplete(c, b1, ws[len..], a1);
    }
  }

  lemma ScalarLimbs(c: Params, s: nat)
    requires c.Sizes() && s < c.r
    ensures Relation(c, PackScalar, [s], [s, 0])
  {}

  lemma PackScalarComplete(c: Params, b: Builder, w: Wire, a: Assignment) returns (a': Assignment)
    requires c.Sizes() && Solves(c, b, a) && w < b.next && Cell(a, w) < c.r
    ensures Carries(c, b, a, Emit(Emit(b, PackScalar, [w], 2), AssertFixed(0), [b.next + 1], 0), a')
  {
    var s := Cell(a, w);
    ScalarLimbs(c, s);
    assert Cells(a, [w]) == [s];
    var a1 := Call(c, b, PackScalar, [w], 2, a, [s, 0]);
    assert Cells(a1, Fresh(b.next, 2))[1] == Cell(a1, b.next + 1);
    assert Cells(a1, [b.next + 1]) == [0];
    a' := Call(c, Emit(b, PackScalar, [w], 2), AssertFixed(0), [b.next + 1], 0, a1, []);
  }

  lemma ForeignLimbsRelate(c: Params, f: ForeignField, x: nat)
    ensures Relation(c, PackForeign(f), [x], Encoding.ForeignLimbs(c, f, x))
  {
    Bits.DivModBelow(Encoding.Predecessor(x, c.order(f)), Pow(2, c.lowBits));
  }

  lemma PackForeignComplete(c: Params, b: Builder, f: ForeignField, w: Wire, a: Assignment) returns (a': Assignment)
    requires Solves(c, b, a) && w < b.next
    ensures Carries(c, b, a, Emit(b, PackForeign(f), [w], 2), a')
  {
    assert Cells(a, [w]) == [Cell(a, w)];
    ForeignLimbsRelate(c, f, Cell(a, w));
    a' := Call(c, b, PackForeign(f), [w], 2, a, Encoding.ForeignLimbs(c, f, Cell(a, w)));
  }

  lemma EncodeComplete(c: Params, b: Builder, v: CircuitValue, a: Assignment) returns (a': Assignment)
    requires c.Sizes() && Solves(c, b, a) && Bounded(v, b.next) && Sorted(c, a, v)
    ensures var (b', rs) := EncodeWires(c, b, v);
            Carries(c, b, a, b', a') && InBounds(rs, b'.next)
  {
    a' := a;
    SortedIsValid(c, a, v);
    match v
    case Bytes(ws) => a' := PackComplete(c, b, ws, a);
    case JubjubScalar(w) =>
      assert Wires(v)[0] == w;
      a' := PackScalarComplete(c, b, w, a);
    case Foreign(f, w) =>
      assert Wires(v)[0] == w;
      a' := PackForeignComplete(c, b, f, w, a);
    case _ => assert Wires(v)[0] == v.w;
  }

  lemma {:induction false} EncodeAllComplete(c: Params, b: Builder, vs: seq<CircuitValue>, a: Assignment)
    returns (a': Assignment)
    requires c.Sizes() && Solves(c, b, a) && BoundedAll(vs, b.next) && SortedAll(c, a, vs)
    ensures var (b', rs) := EncodeAllWires(c, b, vs);
            Carries(c, b, a, b', a') && InBounds(rs, b'.next)
    decreases |vs|
  {
    a' := a;
    if vs == [] {
    } else {
      var (b1, ws) := EncodeWires(c, b, vs[0]);
      var a1 := EncodeComplete(c, b, vs[0], a);
      assert BoundedAll(vs[1..], b1.next) by {
        forall i | 0 <= i < |vs[1..]|
          ensures Bounded(vs[1..][i], b1.next)
        {
          BoundedLater(vs[i + 1], b.next, b1.next);
        }
      }
      SortedAllKeep(c, a, a1, vs[1..]);
      a' := EncodeAllComplete(c, b1, vs[1..], a1);
    }
  }

  lemma QuotientAndRemainder(c: Params, xs: seq<nat>, m: Pos) returns (q: nat, r: nat)
    ensures r < m && Relation(c, DivRem(m), xs, [q, r])
  {
    q, r := Divide(Val(xs, 256), m);
  }

  lemma Divide(n: nat, m: Pos) returns (q: nat, r: nat)
    ensures n == q * m + r && r < m
  {
    q, r := n / m, n % m;
  }

  lemma DivRemComplete(c: Params, b: Builder, m: Pos, bytes: seq<Wire>, a: Assignment) returns (a': Assignment)
    requires Solves(c, b, a) && InBounds(bytes, b.next)
    ensures Carries(c, b, a, Emit(b, DivRem(m), bytes, 2), a') && Cell(a', b.next + 1) < m
  {
    var q, r := QuotientAndRemainder(c, Cells(a, bytes), m);
    a' := Call(c, b, DivRem(m), bytes, 2, a, [q, r]);
    assert Cells(a', Fresh(b.next, 2))[1] == Cell(a', b.next + 1);
  }

  lemma ScalarComplete(c: Params, b: Builder, bytes: seq<Wire>, a: Assignment) returns (a': Assignment)
    requires c.Sizes() && Solves(c, b, a) && InBounds(bytes, b.next)
    ensures var (b', v) := ScalarFromBytes(c, b, bytes);
            Carries(c, b, a, b', a') && Bounded(v, b'.next)
  {
    var b1 := Emit(b, DivRem(c.r), bytes, 2);
    var a1 := DivRemComplete(c, b, c.r, bytes, a);
    ScalarFitsBytes(c);
    var b2 := Emit(b1, Decompose(256, c.ReprBytes()), [b.next + 1], c.ReprBytes());
    var a2 := DecomposeComplete(c, b1, 256, c.ReprBytes(), b.next + 1, a1);
    a' := RecomposeComplete(c, b2, 256, c.r, Fresh(b1.next, c.ReprBytes()), a2);
  }

  lemma ToBytesComplete(c: Params, b: Builder, v: CircuitValue, a: Assignment) returns (a': Assignment)
    requires c.Sizes() && Solves(c, b, a) && Bounded(v, b.next) && Sorted(c, a, v)
    requires ToBytesWires(c, b, v).Some?
    ensures var (b', ws) := ToBytesWires(c, b, v).value;
            Carries(c, b, a, b', a') && InBounds(ws, b'.next)
            && Cells(a', ws) == Encoding.FieldBytes(c, Cell(a, v.w))
  {
    SortedIsValid(c, a, v);
    FieldHoldsLimb(c);
    ScalarFitsBytes(c);
    assert Wires(v)[0] == v.w;
    a' := DecomposeComplete(c, b, 256, c.ReprBytes(), v.w, a);
  }

  lemma FromBytesComplete(c: Params, b: Builder, t: IrType, bytes: seq<Wire>, a: Assignment) returns (a': Assignment)
    requires c.Sizes() && Solves(c, b, a) && InBounds(bytes, b.next) && FromBytesWires(c, b, t, bytes).Some?
    ensures var (b', v) := FromBytesWires(c, b, t, bytes).value;
            Carries(c, b, a, b', a') && Bounded(v, b'.next)
  {
    if t.JubjubScalar? {
      a' := ScalarComplete(c, b, bytes, a);
    } else {
      a' := RecomposeComplete(c, b, 256, Operations.Modulus(c, t).value, bytes, a);
    }
  }

  lemma {:induction false} UnpackComplete(c: Params, b: Builder, limbs: seq<Wire>, n: nat, a: Assignment)
    returns (a': Assignment)
    requires c.Sizes() && Solves(c, b, a) && InBounds(limbs, b.next) && c.FieldElements(Cells(a, limbs))
    requires Encoding.UnpackBytes(c, Cells(a, limbs), n).Some?
    ensures var (b', ws) := UnpackWires(c, b, limbs, n);
            Carries(c, b, a, b', a') && InBounds(ws, b'.next)
    decreases |limbs|
  {
    a' := a;
    if limbs == [] {
    } else {
      var len := Encoding.Min(n, c.limbBytes);
      var b1 := Emit(b, Decompose(256, len), [limbs[0]], len);
      FieldHoldsLimb(c);
      assert Cells(a, limbs)[0] == Cell(a, limbs[0]) && Cells(a, limbs)[1..] == Cells(a, limbs[1..]);
      Encoding.HighBytesZero(c, Cell(a, limbs[0]), len);
      var a1 := DecomposeComplete(c, b, 256, len, limbs[0], a);
      CellsKeep(a, a1, limbs[1..]);
      a' := UnpackComplete(c, b1, limbs[1..], n - len, a1);
    }
  }

  // ----- aligned hash inputs -----

  lemma {:induction false} ChunksComplete(c: Params, b: Builder, chunks: seq<Wire>, a: Assignment)
    returns (a': Assignment)
    requires Solves(c, b, a) && InBounds(chunks, b.next) && CircuitRun.ChunkBytes(c, Cells(a, chunks)).Some?
    ensures var (b', ws) := DecodeChunks(c, b, chunks);
            Carries(c, b, a, b', a') && InBounds(ws, b'.next)
    decreases |chunks|
  {
    a' := a;
    if chunks == [] {
    } else {
      var k := |chunks| - 1;
      var b1 := Emit(b, Decompose(256, c.limbBytes), [chunks[k]], c.limbBytes);
      assert Cells(a, chunks)[k] == Cell(a, chunks[k]) && Cells(a, chunks)[..k] == Cells(a, chunks[..k]);
      var a1 := DecomposeComplete(c, b, 256, c.limbBytes, chunks[k], a);
      CellsKeep(a, a1, chunks[..k]);
      a' := ChunksComplete(c, b1, chunks[..k], a1);
    }
  }

  /** The call, if any, that decomposes a short first limb. */
  lemma StrayComplete(c: Params, b: Builder, stray: nat, inputs: seq<Wire>, a: Assignment) returns (a': Assignment)
    requires Solves(c, b, a)
    requires stray > 0 ==> inputs != [] && inputs[0] < b.next && Cell(a, inputs[0]) < Pow(256, stray)
    ensures Carries(c, b, a, if stray > 0 then Emit(b, Decompose(256, stray), [inputs[0]], stray) else b, a')
  {
    a' := a;
    if stray > 0 { a' := DecomposeComplete(c, b, 256, stray, inputs[0], a); }
  }

  lemma BytesAtomComplete(c: Params, b: Builder, stray: nat, chunks: nat, inputs: seq<Wire>, a: Assignment)
    returns (a': Assignment)
    requires Solves(c, b, a) && InBounds(inputs, b.next)
    requires DecodeBytesAtom(c, b, stray, chunks, inputs).Some?
    requires CircuitRun.BytesAtomBytes(c, stray, chunks, Cells(a, inputs)).Some?
    ensures var (b', ws, left) := DecodeBytesAtom(c, b, stray, chunks, inputs).value;
            Carries(c, b, a, b', a') && InBounds(ws, b'.next) && InBounds(left, b.next)
  {
    var head := if stray > 0 then 1 else 0;
    var b1 := if stray > 0 then Emit(b, Decompose(256, stray), [inputs[0]], stray) else b;
    var middle := inputs[head..head + chunks];
    CellsSlice(a, inputs, head, head + chunks);
    var a1 := StrayComplete(c, b, stray, inputs, a);
    CellsKeep(a, a1, middle);
    a' := ChunksComplete(c, b1, middle, a1);
  }

  lemma FieldAtomComplete(c: Params, b: Builder, w: Wire, a: Assignment) returns (a': Assignment)
    requires c.Sizes() && Solves(c, b, a) && w < b.next && Cell(a, w) < c.p
    ensures Carries(c, b, a, Emit(b, Decompose(256, c.ReprBytes()), [w], c.ReprBytes()), a')
  {
    FieldHoldsLimb(c);
    a' := DecomposeComplete(c, b, 256, c.ReprBytes(), w, a);
  }

  lemma AtomSplits(c: Params, b: Builder, length: nat, inputs: seq<Wire>, xs: seq<nat>)
    returns (stray: nat, chunks: nat)
    ensures DecodeAtom(c, b, BytesAtom(length), inputs) == DecodeBytesAtom(c, b, stray, chunks, inputs)
    ensures CircuitRun.AtomBytes(c, BytesAtom(length), xs) == CircuitRun.BytesAtomBytes(c, stray, chunks, xs)
  {
    stray, chunks := length % c.limbBytes, length / c.limbBytes;
  }

  lemma AtomComplete(c: Params, b: Builder, atom: Atom, inputs: seq<Wire>, a: Assignment) returns (a': Assignment)
    requires c.Sizes() && Solves(c, b, a) && InBounds(inputs, b.next) && c.FieldElements(Cells(a, inputs))
    requires DecodeAtom(c, b, atom, inputs).Some? && CircuitRun.AtomBytes(c, atom, Cells(a, inputs)).Some?
    ensures var (b', ws, left) := DecodeAtom(c, b, atom, inputs).value;
            Carries(c, b, a, b', a') && InBounds(ws, b'.next) && InBounds(left, b.next)
  {
    if atom.FieldAtom? {
      assert Cells(a, inputs)[0] == Cell(a, inputs[0]);
      a' := FieldAtomComplete(c, b, inputs[0], a);
    } else {
      var stray, chunks := AtomSplits(c, b, atom.length, inputs, Cells(a, inputs));
      a' := BytesAtomComplete(c, b, stray, chunks, inputs, a);
    }
  }

  /** What is left after an atom is a tail of the inputs. */
  lemma LeftIsTail(c: Params, b: Builder, atom: Atom, inputs: seq<Wire>, a: Assignment)
    requires DecodeAtom(c, b, atom, inputs).Some? && c.FieldElements(Cells(a, inputs))
    ensures c.FieldElements(Cells(a, DecodeAtom(c, b, atom, inputs).value.2))
  {
    var left := DecodeAtom(c, b, atom, inputs).value.2;
    if atom.BytesAtom? {
      var stray, chunks := AtomSplits(c, b, atom.length, inputs, []);
      assert left == inputs[|inputs| - |left|..];
    }
    CellsCut(a, inputs, |inputs| - |left|);
  }

  lemma {:induction false} AlignedComplete(c: Params, b: Builder, alignment: Alignment, inputs: seq<Wire>,
      a: Assignment)
    returns (a': Assignment)
    requires c.Sizes() && Solves(c, b, a) && InBounds(inputs, b.next) && c.FieldElements(Cells(a, inputs))
    requires DecodeAligned(c, b, alignment, inputs).Some?
    requires CircuitRun.AlignedBytes(c, alignment, Cells(a, inputs)).Some?
    ensures var (b', ws) := DecodeAligned(c, b, alignment, inputs).value;
            Carries(c, b, a, b', a') && InBounds(ws, b'.next)
    decreases |alignment|
  {
    a' := a;
    if alignment == [] {
    } else {
      var (b1, ws, left) := DecodeAtom(c, b, alignment[0].atom, inputs).value;
      var a1 := AtomComplete(c, b, alignment[0].atom, inputs, a);
      CellsKeep(a, a1, inputs);
      AtomSound(c, b, alignment[0].atom, inputs, a1);
      LeftIsTail(c, b, alignment[0].atom, inputs, a1);
      a' := AlignedComplete(c, b1, alignment[1..], left, a1);
    }
  }

  // ----- equality -----

  lemma {:induction false} AssertEqualComplete(c: Params, b: Builder, xs: seq<Wire>, ys: seq<Wire>, a: Assignment)
    returns (a': Assignment)
    requires |xs| == |ys| && Solves(c, b, a) && InBounds(xs, b.next) && InBounds(ys, b.next)
    requires Cells(a, xs) == Cells(a, ys)
    ensures Carries(c, b, a, AssertEqualAll(b, xs, ys), a')
    decreases |xs|
  {
    a' := a;
    if xs == [] {
    } else {
      assert Cells(a, [xs[0], ys[0]]) == [Cells(a, xs)[0], Cells(a, ys)[0]];
      var a1 := Call(c, b, AssertEqual, [xs[0], ys[0]], 0, a, []);
      assert Cells(a1, xs[1..]) == Cells(a, xs)[1..] && Cells(a1, ys[1..]) == Cells(a, ys)[1..];
      a' := AssertEqualComplete(c, Emit(b, AssertEqual, [xs[0], ys[0]], 0), xs[1..], ys[1..], a1);
    }
  }

  lemma {:induction false} IsEqualComplete(c: Params, b: Builder, xs: seq<Wire>, ys: seq<Wire>, a: Assignment)
    returns (a': Assignment)
    requires |xs| == |ys| && Solves(c, b, a) && InBounds(xs, b.next) && InBounds(ys, b.next)
    ensures var (b', eqs) := IsEqualAll(b, xs, ys);
            Carries(c, b, a, b', a') && InBounds(eqs, b'.next)
    decreases |xs|
  {
    a' := a;
    if xs == [] {
    } else {
      var x, y := Cell(a, xs[0]), Cell(a, ys[0]);
      assert Cells(a, [xs[0], ys[0]]) == [x, y];
      var a1 := Call(c, b, IsEqual, [xs[0], ys[0]], 1, a, [if x == y then 1 else 0]);
      a' := IsEqualComplete(c, Emit(b, IsEqual, [xs[0], ys[0]], 1), xs[1..], ys[1..], a1);
    }
  }

  // ----- bits -----

  lemma SplitComplete(c: Params, b: Builder, x: Wire, bits: nat, a: Assignment) returns (a': Assignment)
    requires c.Sizes() && Solves(c, b, a) && x < b.next && bits <= c.frBits && Cell(a, x) < c.p
    ensures Carries(c, b, a, SplitBits(c, b, x, bits), a')
  {
    var xBits := Fresh(b.next, c.frBits);
    var b1 := Emit(b, Decompose(2, c.frBits), [x], c.frBits);
    var a1 := DecomposeComplete(c, b, 2, c.frBits, x, a);
    var b2 := Emit(b1, Recompose(2, c.p), xBits[..bits], 1);
    var a2 := RecomposeComplete(c, b1, 2, c.p, xBits[..bits], a1);
    a' := RecomposeComplete(c, b2, 2, c.p, xBits[bits..], a2);
  }

  /** A free cell and its split, for an integer that is given. */
  lemma SplitOfGiven(c: Params, b: Builder, d: nat, m: nat, bits: nat, a: Assignment) returns (a': Assignment)
    requires c.Sizes() && Solves(c, b, a) && bits <= c.frBits && m < Pow(2, bits) && d * Pow(2, bits) + m < c.p
    ensures var b1 := Emit(b, Assign(c.p), [], 1);
            && Carries(c, b, a, SplitBits(c, b1, b.next, bits), a')
            && Cell(a', b1.next + c.frBits) == m && Cell(a', b1.next + c.frBits + 1) == d
  {
    var r := d * Pow(2, bits) + m;
    var b1 := Emit(b, Assign(c.p), [], 1);
    var a1 := Call(c, b, Assign(c.p), [], 1, a, [r]);
    a' := SplitComplete(c, b1, b.next, bits, a1);
    OpSoundness.SplitSound(c, b1, b.next, bits, a');
    DivModUnique(r, Pow(2, bits), d, m);
  }

  /** Cells holding equal values can be asserted equal. */
  lemma AssertEqualOneComplete(c: Params, b: Builder, x: Wire, y: Wire, a: Assignment)
    requires Solves(c, b, a) && x < b.next && y < b.next && Cell(a, x) == Cell(a, y)
    ensures Solves(c, Emit(b, AssertEqual, [x, y], 0), a)
  {
    assert Cells(a, [x, y]) == [Cell(a, x), Cell(a, y)];
    var a' := Call(c, b, AssertEqual, [x, y], 0, a, []);
    assert a' == a;
  }

  lemma RejoinComplete(c: Params, b: Builder, d: Wire, m: Wire, bits: nat, a: Assignment) returns (a': Assignment)
    requires c.Sizes() && Solves(c, b, a) && d < b.next && m < b.next && bits <= c.frBits
    requires Cell(a, m) < Pow(2, bits) && Cell(a, d) * Pow(2, bits) + Cell(a, m) < c.p
    ensures Carries(c, b, a, Rejoined(c, b, d, m, bits), a')
  {
    a' := SplitOfGiven(c, b, Cell(a, d), Cell(a, m), bits, a);
    var b1 := Emit(b, Assign(c.p), [], 1);
    var b2, low := SplitBits(c, b1, b.next, bits), b1.next + c.frBits;
    AssertEqualOneComplete(c, b2, low, m, a');
    AssertEqualOneComplete(c, Emit(b2, AssertEqual, [low, m], 0), low + 1, d, a');
  }
}
