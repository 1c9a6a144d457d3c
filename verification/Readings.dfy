/** Reading typed values off an assignment, and what the single-cell types say of their cells. */
module Readings {
  import opened Options
  import opened Digits
  import opened Types
  import opened Instructions
  import opened Gadgets
  import opened Circuit
  import Operations
  import Preprocess

  function Read(a: Assignment, v: CircuitValue): IrValue {
    match v
    case Native(w) => IrValue.Native(Cell(a, w))
    case Bool(w) => IrValue.Bool(Cell(a, w) == 1)
    case Byte(w) => IrValue.Byte(Cell(a, w))
    case Bytes(ws) => IrValue.Bytes(Cells(a, ws))
    case JubjubScalar(w) => IrValue.JubjubScalar(Cell(a, w))
    case Foreign(f, w) => IrValue.Foreign(f, Cell(a, w))
  }

  function ReadAll(a: Assignment, vs: seq<CircuitValue>): (r: seq<IrValue>)
    ensures |r| == |vs| && forall i :: 0 <= i < |vs| ==> r[i] == Read(a, vs[i])
  {
    seq(|vs|, i requires 0 <= i < |vs| => Read(a, vs[i]))
  }

  lemma ReadAllCons(a: Assignment, v: CircuitValue, rest: seq<CircuitValue>)
    ensures ReadAll(a, [v] + rest) == [Read(a, v)] + ReadAll(a, rest)
  {}

  function ReadMemory(a: Assignment, memory: CircuitMemory): Preprocess.Memory {
    map id | id in memory :: Read(a, memory[id])
  }

  /** Every cell of the value respects the bound of its type. */
  predicate Sorted(c: Params, a: Assignment, v: CircuitValue) {
    IsDigits(Cells(a, Wires(v)), CellBound(c, CircuitTypeOf(v)))
  }

  predicate SortedAll(c: Params, a: Assignment, vs: seq<CircuitValue>) {
    forall i :: 0 <= i < |vs| ==> Sorted(c, a, vs[i])
  }

  predicate SortedMemory(c: Params, a: Assignment, memory: CircuitMemory) {
    forall id :: id in memory ==> Sorted(c, a, memory[id])
  }

  predicate Bounded(v: CircuitValue, n: nat) {
    InBounds(Wires(v), n)
  }

  predicate BoundedAll(vs: seq<CircuitValue>, n: nat) {
    forall i :: 0 <= i < |vs| ==> Bounded(vs[i], n)
  }

  predicate BoundedMemory(memory: CircuitMemory, n: nat) {
    forall id :: id in memory ==> Bounded(memory[id], n)
  }

  lemma SortedCons(c: Params, a: Assignment, v: CircuitValue, rest: seq<CircuitValue>)
    requires Sorted(c, a, v) && SortedAll(c, a, rest)
    ensures SortedAll(c, a, [v] + rest)
  {}

  lemma SortedIsValid(c: Params, a: Assignment, v: CircuitValue)
    requires Sorted(c, a, v)
    ensures ValidValue(c, Read(a, v)) && TypeOf(Read(a, v)) == CircuitTypeOf(v)
    ensures !v.Bytes? ==> Cell(a, v.w) < CellBound(c, CircuitTypeOf(v))
    ensures Cells(a, Wires(v)) == ValueCells(Read(a, v))
  {
    if !v.Bytes? {
      assert Cells(a, Wires(v)) == [Cell(a, v.w)];
      assert Cells(a, Wires(v))[0] < CellBound(c, CircuitTypeOf(v));
    }
  }

  /** The cells of a fresh value and the value read from them determine each other. */
  lemma ReadOfWires(c: Params, a: Assignment, v: IrValue, ws: seq<Wire>)
    requires ValidValue(c, v) && Cells(a, ws) == ValueCells(v)
    ensures var cv := OfWires(TypeOf(v), ws);
            Read(a, cv) == v && Sorted(c, a, cv) && CircuitTypeOf(cv) == TypeOf(v)
  {
    if !v.Bytes? {
      assert |ws| == 1 && Cells(a, [ws[0]]) == [Cell(a, ws[0])];
      assert ValueCells(v)[0] == Cell(a, ws[0]);
    }
  }

  lemma ReadExtends(a: Assignment, a': Assignment, v: CircuitValue)
    requires a <= a' && Bounded(v, |a|)
    ensures Read(a', v) == Read(a, v)
  {
    assert Cells(a', Wires(v)) == Cells(a, Wires(v));
    if !v.Bytes? { assert Wires(v)[0] == v.w; }
  }

  lemma ReadAllExtends(a: Assignment, a': Assignment, vs: seq<CircuitValue>)
    requires a <= a' && BoundedAll(vs, |a|)
    ensures ReadAll(a', vs) == ReadAll(a, vs)
  {
    forall i | 0 <= i < |vs| { ReadExtends(a, a', vs[i]); }
  }

  lemma ReadMemoryExtends(a: Assignment, a': Assignment, memory: CircuitMemory)
    requires a <= a' && BoundedMemory(memory, |a|)
    ensures ReadMemory(a', memory) == ReadMemory(a, memory)
  {
    forall id | id in memory { ReadExtends(a, a', memory[id]); }
  }

  lemma SortedExtends(c: Params, a: Assignment, a': Assignment, v: CircuitValue)
    requires a <= a' && Bounded(v, |a|) && Sorted(c, a, v)
    ensures Sorted(c, a', v)
  {
    assert Cells(a', Wires(v)) == Cells(a, Wires(v));
  }

  // ----- lists of one type -----

  lemma {:induction false} AllNativeRead(a: Assignment, vs: seq<CircuitValue>)
    ensures AllNative(vs).Some? <==> Operations.AllNative(ReadAll(a, vs)).Some?
    ensures AllNative(vs).Some? ==>
              && |AllNative(vs).value| == |vs|
              && Operations.AllNative(ReadAll(a, vs)) == Some(Cells(a, AllNative(vs).value))
              && forall i :: 0 <= i < |vs| ==> vs[i] == CircuitValue.Native(AllNative(vs).value[i])
  {
    if vs == [] {
    } else {
      assert ReadAll(a, vs)[1..] == ReadAll(a, vs[1..]);
      AllNativeRead(a, vs[1..]);
      if AllNative(vs).Some? {
        var ws := AllNative(vs).value;
        assert ws[1..] == AllNative(vs[1..]).value;
        assert Cells(a, ws) == [Cell(a, ws[0])] + Cells(a, ws[1..]);
        forall i | 0 <= i < |vs|
          ensures vs[i] == CircuitValue.Native(ws[i])
        {
          if i > 0 { assert vs[1..][i - 1] == CircuitValue.Native(ws[1..][i - 1]); }
        }
      }
    }
  }

  lemma AllNativeSorted(c: Params, a: Assignment, vs: seq<CircuitValue>)
    requires SortedAll(c, a, vs) && AllNative(vs).Some?
    ensures c.FieldElements(Cells(a, AllNative(vs).value))
  {
    AllNativeRead(a, vs);
    var ws := AllNative(vs).value;
    forall i | 0 <= i < |ws|
      ensures Cells(a, ws)[i] < c.p
    {
      SortedIsValid(c, a, vs[i]);
    }
  }

  function BoolCell(b: bool): nat {
    if b then 1 else 0
  }

  function BoolCells(bs: seq<bool>): (xs: seq<nat>)
    ensures |xs| == |bs|
  {
    seq(|bs|, i requires 0 <= i < |bs| => BoolCell(bs[i]))
  }

  /** The wires of a list of bits are the wires of its values, and hold what is read from them. */
  lemma {:induction false} BoolsRead(c: Params, a: Assignment, vs: seq<CircuitValue>)
    requires SortedAll(c, a, vs)
    ensures Bools(vs).Some? <==> Operations.Bools(ReadAll(a, vs)).Some?
    ensures Bools(vs).Some? ==>
              && |Bools(vs).value| == |vs|
              && Cells(a, Bools(vs).value) == BoolCells(Operations.Bools(ReadAll(a, vs)).value)
  {
    if vs == [] {
    } else {
      assert ReadAll(a, vs)[1..] == ReadAll(a, vs[1..]);
      BoolsRead(c, a, vs[1..]);
      SortedIsValid(c, a, vs[0]);
      if Bools(vs).Some? {
        BoolCellsCons(a, vs[0].w, Bools(vs[1..]).value, Operations.Bools(ReadAll(a, vs[1..])).value);
      }
    }
  }

  lemma BoolCellsCons(a: Assignment, w: Wire, ws: seq<Wire>, bs: seq<bool>)
    requires Cell(a, w) < 2 && Cells(a, ws) == BoolCells(bs)
    ensures Cells(a, [w] + ws) == BoolCells([Cell(a, w) == 1] + bs)
  {
    assert Cells(a, [w] + ws) == [Cell(a, w)] + Cells(a, ws);
    assert BoolCells([Cell(a, w) == 1] + bs) == [Cell(a, w)] + BoolCells(bs);
  }

  lemma {:induction false} BoolsBounded(vs: seq<CircuitValue>, n: nat)
    requires BoundedAll(vs, n) && Bools(vs).Some?
    ensures InBounds(Bools(vs).value, n)
  {
    if vs == [] {
    } else {
      assert Wires(vs[0])[0] == vs[0].w && Bounded(vs[0], n);
      BoolsBounded(vs[1..], n);
    }
  }

  lemma {:induction false} ConcatRead(c: Params, a: Assignment, vs: seq<CircuitValue>)
    requires SortedAll(c, a, vs)
    ensures ConcatWires(vs).Some? <==> Operations.ConcatOf(ReadAll(a, vs)).Some?
    ensures ConcatWires(vs).Some? ==>
              && Operations.ConcatOf(ReadAll(a, vs)) == Some(Cells(a, ConcatWires(vs).value))
              && IsDigits(Cells(a, ConcatWires(vs).value), 256)
  {
    if vs == [] {
    } else {
      assert ReadAll(a, vs)[1..] == ReadAll(a, vs[1..]);
      ConcatRead(c, a, vs[1..]);
      SortedIsValid(c, a, vs[0]);
      if ConcatWires(vs).Some? {
        var head := if vs[0].Byte? then [vs[0].w] else vs[0].ws;
        var rest := ConcatWires(vs[1..]).value;
        CellsCat(a, head, rest);
        if vs[0].Byte? { assert Cells(a, head) == [Cell(a, vs[0].w)]; }
      }
    }
  }

  lemma NativesRead(a: Assignment, ws: seq<Wire>)
    ensures ReadAll(a, Natives(ws)) == Operations.Natives(Cells(a, ws))
  {}

  lemma NativesSorted(c: Params, a: Assignment, ws: seq<Wire>)
    requires c.FieldElements(Cells(a, ws))
    ensures SortedAll(c, a, Natives(ws))
  {
    forall i | 0 <= i < |ws|
      ensures Sorted(c, a, Natives(ws)[i])
    {
      assert Cells(a, [ws[i]]) == [Cells(a, ws)[i]];
    }
  }

  lemma {:induction false} BindRead(a: Assignment, memory: CircuitMemory, ids: seq<Identifier>, vs: seq<CircuitValue>)
    requires |ids| == |vs|
    ensures ReadMemory(a, Preprocess.Bind(memory, ids, vs))
            == Preprocess.Bind(ReadMemory(a, memory), ids, ReadAll(a, vs))
    decreases |ids|
  {
    if ids == [] {
    } else {
      var next := memory[ids[0] := vs[0]];
      assert ReadMemory(a, next) == ReadMemory(a, memory)[ids[0] := Read(a, vs[0])];
      assert ReadAll(a, vs)[1..] == ReadAll(a, vs[1..]);
      BindRead(a, next, ids[1..], vs[1..]);
    }
  }

  lemma {:induction false} BindKeeps<V(!new)>(memory: map<Identifier, V>, ids: seq<Identifier>, vs: seq<V>,
      p: V -> bool)
    requires |ids| == |vs|
    requires forall id :: id in memory ==> p(memory[id])
    requires forall i :: 0 <= i < |vs| ==> p(vs[i])
    ensures forall id :: id in Preprocess.Bind(memory, ids, vs) ==> p(Preprocess.Bind(memory, ids, vs)[id])
    decreases |ids|
  {
    if ids == [] {
    } else {
      BindKeeps(memory[ids[0] := vs[0]], ids[1..], vs[1..], p);
    }
  }
}
