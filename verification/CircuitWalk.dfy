/**
  `circuit` as the source runs it: one walk over the instructions that emits constraints
  and updates the circuit memory, the public inputs and the outputs in place. Each method
  is tied to the synthesis function it carries out.
 */
module CircuitWalk {
  import opened Options
  import opened Digits
  import opened Types
  import opened Instructions
  import opened ChipSelection
  import opened Gadgets
  import opened Circuit
  import Preprocess

  /** Puts what has been collected so far in front of the results still to come. */
  function Prepend<T>(done: seq<T>, r: Option<(Builder, seq<T>)>): Option<(Builder, seq<T>)> {
    match r
    case None => None
    case Some((b, rest)) => Some((b, done + rest))
  }

  lemma PrependMore<T>(done: seq<T>, xs: seq<T>, r: Option<(Builder, seq<T>)>)
    ensures Prepend(done + xs, r) == Prepend(done, Prepend(xs, r))
  {
    if r.Some? { assert (done + xs) + r.value.1 == done + (xs + r.value.1); }
  }

  lemma PrependNothing<T>(r: Option<(Builder, seq<T>)>)
    ensures Prepend([], r) == r
  {
    if r.Some? { assert [] + r.value.1 == r.value.1; }
  }

  // ----- aligned hash inputs -----

  /**
    The decoding of aligned hash inputs: a layouter, a cursor over the inputs that are left,
    and the buffer of bytes decoded so far.
   */
  class AlignedDecoder {
    const c: Params
    var b: Builder
    var inputs: seq<Wire>
    var res: seq<Wire>

    constructor (c: Params, b: Builder, inputs: seq<Wire>)
      ensures this.c == c && this.b == b && this.inputs == inputs && res == []
    {
      this.c, this.b, this.inputs, res := c, b, inputs, [];
    }

    /** Whole chunks, from the last of the next `chunks` inputs to the first. */
    method Chunks(chunks: nat)
      requires chunks <= |inputs|
      modifies this`b, this`res
      ensures var (b', ws) := DecodeChunks(c, old(b), inputs[..chunks]); b == b' && res == old(res) + ws
    {
      ghost var goal := DecodeChunks(c, b, inputs[..chunks]);
      ghost var full: seq<Wire> := [];
      assert full + goal.1 == goal.1;
      for i := 0 to chunks
        invariant res == old(res) + full
        invariant var (b', rest) := DecodeChunks(c, b, inputs[..chunks - i]); goal == (b', full + rest)
      {
        var k := chunks - 1 - i;
        assert inputs[..k + 1][..k] == inputs[..k];
        var ws := Fresh(b.next, c.limbBytes);
        b := Emit(b, Decompose(256, c.limbBytes), [inputs[k]], c.limbBytes);
        Associative(full, ws, DecodeChunks(c, b, inputs[..k]).1);
        Associative(old(res), full, ws);
        res := res + ws;
        full := full + ws;
      }
      assert full + [] == full;
    }

    /** The short limb comes first and its bytes last; the whole chunks after it are taken last first. */
    method BytesAtom(length: nat) returns (ok: bool)
      modifies this`b, this`inputs, this`res
      ensures match DecodeBytesAtom(c, old(b), length % c.limbBytes, length / c.limbBytes, old(inputs))
              case None => !ok
              case Some((b', ws, left)) => ok && b == b' && res == old(res) + ws && inputs == left
    {
      var stray, chunks := length % c.limbBytes, length / c.limbBytes;
      var head := if stray > 0 then 1 else 0;
      if |inputs| < chunks + head {
        return false;
      }
      var tail: seq<Wire> := Fresh(b.next, stray);
      if stray > 0 {
        b := Emit(b, Decompose(256, stray), [inputs[0]], stray);
      }
      inputs := inputs[head..];
      assert inputs[..chunks] == old(inputs)[head..head + chunks];
      ghost var full := DecodeChunks(c, b, inputs[..chunks]).1;
      Chunks(chunks);
      inputs := inputs[chunks..];
      Associative(old(res), full, tail);
      res := res + tail;
      return true;
    }

    method Atom(atom: Atom) returns (ok: bool)
      modifies this`b, this`inputs, this`res
      ensures match DecodeAtom(c, old(b), atom, old(inputs))
              case None => !ok
              case Some((b', ws, left)) => ok && b == b' && res == old(res) + ws && inputs == left
    {
      match atom
      case FieldAtom =>
        if inputs == [] {
          return false;
        }
        res := res + Fresh(b.next, c.ReprBytes());
        b := Emit(b, Decompose(256, c.ReprBytes()), [inputs[0]], c.ReprBytes());
        inputs := inputs[1..];
        return true;
      case BytesAtom(length) => ok := BytesAtom(length);
      case CompressAtom => return false;
    }

    method Segments(alignment: Alignment) returns (ok: bool)
      modifies this`b, this`inputs, this`res
      ensures match DecodeAligned(c, old(b), alignment, old(inputs))
              case None => !ok
              case Some((b', ws)) => ok && b == b' && res == old(res) + ws
    {
      ghost var goal := DecodeAligned(c, b, alignment, inputs);
      ghost var done: seq<Wire> := [];
      PrependNothing(goal);
      assert alignment[0..] == alignment;
      for i := 0 to |alignment|
        invariant res == old(res) + done
        invariant Prepend(done, DecodeAligned(c, b, alignment[i..], inputs)) == goal
      {
        assert alignment[i..][1..] == alignment[i + 1..];
        if alignment[i].OptionSegment? {
          return false;
        }
        ghost var before := res;
        ok := Atom(alignment[i].atom);
        if !ok {
          return;
        }
        ghost var ws := res[|before|..];
        PrependMore(done, ws, DecodeAligned(c, b, alignment[i + 1..], inputs));
        done := done + ws;
      }
      assert done + [] == done;
      return true;
    }
  }

  // ----- the walk -----

  class Walk {
    const c: Params
    const src: IrSource
    const arch: Arch
    var b: Builder
    var memory: CircuitMemory
    var pis: seq<Wire>
    var outputs: seq<CircuitValue>
    var readValues: seq<CircuitValue>

    constructor (arch: Arch, c: Params, src: IrSource, s: Synthesis)
      ensures this.arch == arch && this.c == c && this.src == src && State() == s
    {
      this.arch, this.c, this.src := arch, c, src;
      b, memory, pis, outputs, readValues := s.b, s.memory, s.pis, s.outputs, s.readValues;
    }

    function State(): Synthesis
      reads this
    {
      Synthesis(b, memory, pis, outputs, readValues)
    }

    method Resolve(operand: Operand) returns (v: Option<CircuitValue>)
      modifies this`b
      ensures match ResolveWires(old(b), memory, operand)
              case None => v == None
              case Some((b', w)) => v == Some(w) && b == b'
    {
      match operand
      case Variable(id) =>
        v := if id in memory then Some(memory[id]) else None;
      case Immediate(imm) =>
        v := Some(CircuitValue.Native(b.next));
        b := Emit(b, Fixed([imm]), [], 1);
    }

    method ResolveAll(operands: seq<Operand>) returns (vs: Option<seq<CircuitValue>>)
      modifies this`b
      ensures match ResolveAllWires(old(b), memory, operands)
              case None => vs == None
              case Some((b', ws)) => vs == Some(ws) && b == b'
    {
      var done: seq<CircuitValue> := [];
      ghost var goal := ResolveAllWires(b, memory, operands);
      PrependNothing(goal);
      assert operands[0..] == operands;
      for i := 0 to |operands|
        invariant Prepend(done, ResolveAllWires(b, memory, operands[i..])) == goal
      {
        assert operands[i..][1..] == operands[i + 1..];
        var v := Resolve(operands[i]);
        if v.None? {
          return None;
        }
        PrependMore(done, [v.value], ResolveAllWires(b, memory, operands[i + 1..]));
        done := done + [v.value];
      }
      assert done + [] == done;
      return Some(done);
    }

    /** Pushes each input behind the guard, selecting zero where the guard bit is zero. */
    method PushInputs(guard: Wire, zero: Wire, inputs: seq<Operand>) returns (ok: bool)
      modifies this`b, this`pis
      ensures match PushGuarded(old(b), memory, guard, zero, inputs)
              case None => !ok
              case Some((b', ws)) => ok && b == b' && pis == old(pis) + ws
    {
      var pushed: seq<Wire> := [];
      ghost var goal := PushGuarded(b, memory, guard, zero, inputs);
      PrependNothing(goal);
      assert inputs[0..] == inputs;
      for i := 0 to |inputs|
        invariant pis == old(pis)
        invariant Prepend(pushed, PushGuarded(b, memory, guard, zero, inputs[i..])) == goal
      {
        assert inputs[i..][1..] == inputs[i + 1..];
        var v := Resolve(inputs[i]);
        if v.None? || !v.value.Native? {
          return false;
        }
        var w := b.next;
        b := Emit(b, Select, [guard, v.value.w, zero], 1);
        PrependMore(pushed, [w], PushGuarded(b, memory, guard, zero, inputs[i + 1..]));
        pushed := pushed + [w];
      }
      assert pushed + [] == pushed;
      pis := pis + pushed;
      return true;
    }

    method Impact(guard: Operand, inputs: seq<Operand>) returns (ok: bool)
      modifies this`b, this`pis
      ensures ok == SynthImpact(old(State()), guard, inputs).Some?
      ensures ok ==> Some(State()) == SynthImpact(old(State()), guard, inputs)
    {
      var zero := b.next;
      b := Emit(b, Fixed([0]), [], 1);
      var g := Resolve(guard);
      if g.None? || !g.value.Native? {
        return false;
      }
      b := Emit(b, InRange(2), [g.value.w], 0);
      ok := PushInputs(g.value.w, zero, inputs);
    }

    method Read(ins: Instruction) returns (ok: bool)
      requires ins.PublicInput? || ins.PrivateInput?
      modifies this`b, this`memory, this`readValues
      ensures ok == SynthRead(c, old(State()), ins).Some?
      ensures ok ==> Some(State()) == SynthRead(c, old(State()), ins)
    {
      var r := AssignValue(c, b, ins.valT);
      if r.None? {
        return false;
      }
      b := r.value.0;
      memory := memory[ins.output := r.value.1];
      readValues := readValues + [r.value.1];
      return true;
    }

    method Output(vals: seq<Operand>) returns (ok: bool)
      modifies this`b, this`outputs
      ensures ok == SynthOutput(src, old(State()), vals).Some?
      ensures ok ==> Some(State()) == SynthOutput(src, old(State()), vals)
    {
      if |vals| != |src.outputs| {
        return false;
      }
      var vs := ResolveAll(vals);
      if vs.None? || CircuitTypesOf(vs.value) != src.outputs {
        return false;
      }
      outputs := outputs + vs.value;
      return true;
    }

    method Insert(ids: seq<Identifier>, vs: seq<CircuitValue>)
      requires |ids| == |vs|
      modifies this`memory
      ensures memory == Preprocess.Bind(old(memory), ids, vs)
    {
      for i := 0 to |ids|
        invariant Preprocess.Bind(memory, ids[i..], vs[i..]) == Preprocess.Bind(old(memory), ids, vs)
      {
        assert ids[i..][1..] == ids[i + 1..] && vs[i..][1..] == vs[i + 1..];
        memory := memory[ids[i] := vs[i]];
      }
    }

    /** Hashes the bytes that the decoder makes of the operands. */
    method AlignedHash(ins: Instruction, vs: seq<CircuitValue>) returns (results: Option<seq<CircuitValue>>)
      requires ins.AlignedHash? && |vs| == |ins.Args()|
      modifies this`b
      ensures match SynthOp(c, ins, old(b), vs)
              case None => results == None
              case Some((b', rs)) => results == Some(rs) && b == b'
    {
      var xs := AllNative(vs);
      if xs.None? {
        return None;
      }
      var decoder := new AlignedDecoder(c, b, xs.value);
      ghost var goal := DecodeAligned(c, b, ins.alignment, xs.value);
      var ok := decoder.Segments(ins.alignment);
      if !ok {
        return None;
      }
      assert [] + goal.value.1 == goal.value.1;
      b := Emit(decoder.b, Digest(ins.kind), decoder.res, DigestLen(ins.kind));
      return Some([CircuitValue.Bytes(Fresh(decoder.b.next, DigestLen(ins.kind)))]);
    }

    /** Emits the constraints of a computing instruction on its resolved operands. */
    method Operate(ins: Instruction, vs: seq<CircuitValue>) returns (results: Option<seq<CircuitValue>>)
      requires ins.Computes() && |vs| == |ins.Args()|
      modifies this`b
      ensures match SynthOp(c, ins, old(b), vs)
              case None => results == None
              case Some((b', rs)) => results == Some(rs) && b == b'
    {
      if ins.AlignedHash? {
        results := AlignedHash(ins, vs);
      } else {
        var r := SynthOp(c, ins, b, vs);
        if r.None? {
          return None;
        }
        b := r.value.0;
        return Some(r.value.1);
      }
    }

    method Compute(ins: Instruction) returns (ok: bool)
      requires ins.Computes()
      modifies this`b, this`memory
      ensures ok == SynthCompute(c, old(State()), ins).Some?
      ensures ok ==> Some(State()) == SynthCompute(c, old(State()), ins)
    {
      var vs := ResolveAll(ins.Args());
      if vs.None? {
        return false;
      }
      var results := Operate(ins, vs.value);
      if results.None? || |results.value| != |ins.Outs()| {
        return false;
      }
      Insert(ins.Outs(), results.value);
      return true;
    }

    method Step(ins: Instruction) returns (ok: bool)
      modifies this
      ensures ok == GuardedStep(arch, c, src, old(State()), ins).Some?
      ensures ok ==> Some(State()) == GuardedStep(arch, c, src, old(State()), ins)
    {
      if !StepEnabled(arch, memory, ins) {
        return false;
      }
      if ins.Impact? {
        ok := Impact(ins.guard, ins.inputs);
      } else if ins.PublicInput? || ins.PrivateInput? {
        ok := Read(ins);
      } else if ins.Output? {
        ok := Output(ins.vals);
      } else {
        ok := Compute(ins);
      }
    }

    method StepAll() returns (ok: bool)
      modifies this
      ensures ok == GuardedFrom(arch, c, src, old(State()), src.instructions).Some?
      ensures ok ==> Some(State()) == GuardedFrom(arch, c, src, old(State()), src.instructions)
    {
      for i := 0 to |src.instructions|
        invariant GuardedFrom(arch, c, src, State(), src.instructions[i..])
               == GuardedFrom(arch, c, src, old(State()), src.instructions)
      {
        assert src.instructions[i..][1..] == src.instructions[i + 1..];
        ok := Step(src.instructions[i]);
        if !ok {
          return;
        }
      }
      ok := true;
    }

    method Encode(v: CircuitValue) returns (ws: seq<Wire>)
      modifies this`b
      ensures (b, ws) == EncodeWires(c, old(b), v)
    {
      var r := EncodeWires(c, b, v);
      b, ws := r.0, r.1;
    }

    /** The encodings of the declared inputs that are in memory, as they stand there. */
    method EncodeInputs() returns (ws: seq<Wire>)
      modifies this`b
      ensures (b, ws) == EncodeAllWires(c, old(b), InputValues(memory, InputNames(src.inputs)))
    {
      ws := [];
      ghost var names := InputNames(src.inputs);
      ghost var goal := EncodeAllWires(c, b, InputValues(memory, names));
      assert names[0..] == names && ws + goal.1 == goal.1;
      for i := 0 to |src.inputs|
        invariant var (b', rest) := EncodeAllWires(c, b, InputValues(memory, names[i..])); goal == (b', ws + rest)
      {
        var id := src.inputs[i].name;
        ghost var values := InputValues(memory, names[i..]);
        ghost var left := InputValues(memory, names[i + 1..]);
        assert names[i..][1..] == names[i + 1..] && names[i..][0] == id;
        if id in memory {
          assert values == [memory[id]] + left && values[1..] == left;
          var encoded := Encode(memory[id]);
          Associative(ws, encoded, EncodeAllWires(c, b, left).1);
          ws := ws + encoded;
        }
      }
      assert ws + [] == ws;
    }

    /** The encodings of the outputs, one after the other. */
    method EncodeOutputs() returns (ws: seq<Wire>)
      modifies this`b
      ensures (b, ws) == EncodeAllWires(c, old(b), outputs)
    {
      ws := [];
      ghost var goal := EncodeAllWires(c, b, outputs);
      assert outputs[0..] == outputs && ws + goal.1 == goal.1;
      for i := 0 to |outputs|
        invariant var (b', rest) := EncodeAllWires(c, b, outputs[i..]); goal == (b', ws + rest)
      {
        assert outputs[i..][1..] == outputs[i + 1..];
        var encoded := Encode(outputs[i]);
        Associative(ws, encoded, EncodeAllWires(c, b, outputs[i + 1..]).1);
        ws := ws + encoded;
      }
      assert ws + [] == ws;
    }

    /** Ties the second public input to the hash of the randomness, the inputs and the outputs. */
    method Commit()
      requires |pis| >= 2
      modifies this`b
      ensures b == SynthCommitment(c, src, old(State()))
    {
      var rand := b.next;
      b := Emit(b, Assign(c.p), [], 1);
      var inputs := EncodeInputs();
      var outs := EncodeOutputs();
      var hash := b.next;
      b := Emit(b, Poseidon, [rand] + (inputs + outs), 1);
      b := Emit(b, AssertEqual, [hash, pis[1]], 0);
    }
  }

  /** The whole of `circuit`. */
  method RunSynthesis(c: Params, src: IrSource) returns (r: Option<CircuitShape>)
    ensures r == Synthesize(c, src)
  {
    var start := SynthInit(c, src);
    if start.None? {
      return None;
    }
    var (s0, inputs) := start.value;
    var arch := UsedChips(src);
    if !InputsEnabled(arch, src) {
      return None;
    }
    var walk := new Walk(arch, c, src, s0);
    var ok := walk.StepAll();
    if !ok || !CommitmentEnabled(arch, src, walk.State()) {
      return None;
    }
    if !src.doCommunicationsCommitment {
      return Some(CircuitShape(walk.b, inputs, walk.memory, walk.pis, walk.outputs, walk.readValues, None));
    }
    if |walk.pis| < 2 {
      return None;
    }
    var rand := walk.b.next;
    walk.Commit();
    return Some(CircuitShape(walk.b, inputs, walk.memory, walk.pis, walk.outputs, walk.readValues, Some(rand)));
  }
}
