/**
  Aligned hash inputs. A byte string is packed low chunk first, the inputs of an aligned
  hash hold the limbs in the opposite order, and decoding them in the circuit gives the
  bytes back in their own order.
 */
module AlignedInputs {
  import opened Options
  import opened Digits
  import opened Types
  import opened Encoding
  import opened Gadgets
  import opened CircuitRun
  import Circuit
  import GadgetSoundness
  import Operations
  import SynthesisTyping
  import Typing

  /** The limbs of a byte string as an aligned hash takes them: the last one first. */
  function ReversedLimbs(c: Params, bs: seq<nat>): seq<nat> {
    Operations.ReverseOf(PackBytes(c, bs))
  }

  lemma ReverseCons(x: nat, xs: seq<nat>)
    ensures Operations.ReverseOf([x] + xs) == Operations.ReverseOf(xs) + [x]
    ensures Operations.ReverseOf(xs + [x]) == [x] + Operations.ReverseOf(xs)
  {}

  lemma PackInFront(c: Params, first: seq<nat>, rest: seq<nat>)
    requires |first| == c.limbBytes
    ensures PackBytes(c, first + rest) == [Val(first, 256)] + PackBytes(c, rest)
  {
    if rest == [] {
      assert first + rest == first;
    } else {
      assert (first + rest)[..c.limbBytes] == first && (first + rest)[c.limbBytes..] == rest;
    }
  }

  lemma Peel(k: nat, n: nat)
    requires k > 0
    ensures k * n == n + (k - 1) * n && (k - 1) * n >= 0
  {}

  lemma ConsAppend<T>(x: T, us: seq<T>, ws: seq<T>)
    ensures [x] + (us + ws) == ([x] + us) + ws
  {}

  /** Whole chunks and what follows them are packed apart. */
  lemma {:induction false} PackAppend(c: Params, k: nat, full: seq<nat>, tail: seq<nat>)
    requires |full| == k * c.limbBytes && |tail| < c.limbBytes
    ensures PackBytes(c, full + tail) == PackBytes(c, full) + PackBytes(c, tail)
    ensures |PackBytes(c, full)| == k
    decreases k
  {
    if k == 0 {
      assert full + tail == tail;
    } else {
      var n := c.limbBytes;
      Peel(k, n);
      var first, rest := full[..n], full[n..];
      PackAppend(c, k - 1, rest, tail);
      assert full == first + rest && full + tail == first + (rest + tail);
      PackInFront(c, first, rest);
      PackInFront(c, first, rest + tail);
      ConsAppend(Val(first, 256), PackBytes(c, rest), PackBytes(c, tail));
    }
  }

  /** One more whole chunk, packed in front and taken last. */
  lemma ChunkInFront(c: Params, first: seq<nat>, limbs: seq<nat>, rest: seq<nat>)
    requires |first| == c.limbBytes && IsDigits(first, 256) && ChunkBytes(c, Operations.ReverseOf(limbs)) == Some(rest)
    ensures ChunkBytes(c, Operations.ReverseOf([Val(first, 256)] + limbs)) == Some(first + rest)
  {
    var x, chunks := Val(first, 256), Operations.ReverseOf(limbs);
    ReverseCons(x, limbs);
    ValBound(first, 256);
    DigitsVal(first, 256);
    assert (chunks + [x])[..|chunks|] == chunks;
  }

  /** Whole chunks, taken last first, are the chunks in order. */
  lemma {:induction false} ChunksInOrder(c: Params, k: nat, full: seq<nat>)
    requires |full| == k * c.limbBytes && IsDigits(full, 256)
    ensures ChunkBytes(c, ReversedLimbs(c, full)) == Some(full)
    decreases k
  {
    if k == 0 {
    } else {
      var n := c.limbBytes;
      Peel(k, n);
      var first, rest := full[..n], full[n..];
      ChunksInOrder(c, k - 1, rest);
      assert full == first + rest;
      PackInFront(c, first, rest);
      ChunkInFront(c, first, PackBytes(c, rest), rest);
    }
  }

  /** The inputs of one atom: the short limb, if any, then the whole ones, last first. */
  lemma SplitAtom(c: Params, full: seq<nat>, tail: seq<nat>, chunks: nat)
    requires |full| == chunks * c.limbBytes && |tail| < c.limbBytes
    ensures ReversedLimbs(c, full + tail) == (if tail != [] then [Val(tail, 256)] else []) + ReversedLimbs(c, full)
    ensures |ReversedLimbs(c, full)| == chunks
  {
    PackAppend(c, chunks, full, tail);
    if tail != [] {
      ReverseCons(Val(tail, 256), PackBytes(c, full));
    } else {
      assert PackBytes(c, full) + [] == PackBytes(c, full);
    }
  }

  lemma HeadAndMiddle(head: seq<nat>, middle: seq<nat>, more: seq<nat>)
    ensures var xs, i, j := (head + middle) + more, |head|, |head| + |middle|;
            xs[i..j] == middle && xs[j..] == more && (head != [] ==> xs[0] == head[0])
  {}

  /** Decoding the short limb and the whole ones of a byte string given as its whole chunks and its tail. */
  lemma AtomOfParts(c: Params, full: seq<nat>, tail: seq<nat>, chunks: nat, more: seq<nat>)
    requires |full| == chunks * c.limbBytes && |tail| < c.limbBytes && IsDigits(full, 256) && IsDigits(tail, 256)
    ensures BytesAtomBytes(c, |tail|, chunks, ReversedLimbs(c, full + tail) + more) == Some((full + tail, more))
  {
    var head := if tail != [] then [Val(tail, 256)] else [];
    SplitAtom(c, full, tail, chunks);
    HeadAndMiddle(head, ReversedLimbs(c, full), more);
    ChunksInOrder(c, chunks, full);
    ValBound(tail, 256);
    DigitsVal(tail, 256);
  }

  lemma Cut(n: nat, k: Pos) returns (q: nat, r: nat, at: nat)
    ensures q == n / k && r == n % k && at == q * k && n == at + r && r < k
  {
    q, r, at := n / k, n % k, n / k * k;
  }

  /**
    Decoding the atom `Bytes{n}` from the reversed limbs of any byte string of length `n`,
    whatever follows them, gives the bytes back and consumes exactly those limbs.
   */
  lemma AtomUndoesPacking(c: Params, bs: seq<nat>, more: seq<nat>)
    requires c.Sizes() && IsDigits(bs, 256)
    ensures AtomBytes(c, BytesAtom(|bs|), ReversedLimbs(c, bs) + more) == Some((bs, more))
    ensures |ReversedLimbs(c, bs)| == CeilDiv(|bs|, c.limbBytes)
  {
    var chunks, stray, at := Cut(|bs|, c.limbBytes);
    AtomOfString(c, bs, chunks, stray, at, more);
    AtomByParts(c, |bs|, chunks, stray, ReversedLimbs(c, bs) + more);
    PackShape(c, bs);
  }

  lemma AtomByParts(c: Params, n: nat, chunks: nat, stray: nat, inputs: seq<nat>)
    requires chunks == n / c.limbBytes && stray == n % c.limbBytes
    ensures AtomBytes(c, BytesAtom(n), inputs) == BytesAtomBytes(c, stray, chunks, inputs)
  {}

  lemma AtomOfString(c: Params, bs: seq<nat>, chunks: nat, stray: nat, at: nat, more: seq<nat>)
    requires IsDigits(bs, 256) && at == chunks * c.limbBytes && |bs| == at + stray && stray < c.limbBytes
    ensures BytesAtomBytes(c, stray, chunks, ReversedLimbs(c, bs) + more) == Some((bs, more))
  {
    var full, tail := bs[..at], bs[at..];
    assert full + tail == bs;
    AtomOfParts(c, full, tail, chunks, more);
  }

  // ----- lists of atoms -----

  function BytesAlignment(strings: seq<seq<nat>>): (alignment: Alignment)
    ensures |alignment| == |strings|
  {
    seq(|strings|, i requires 0 <= i < |strings| => AtomSegment(BytesAtom(|strings[i]|)))
  }

  function AllLimbs(c: Params, strings: seq<seq<nat>>): seq<nat> {
    if strings == [] then [] else ReversedLimbs(c, strings[0]) + AllLimbs(c, strings[1..])
  }

  function Concatenation(strings: seq<seq<nat>>): seq<nat> {
    if strings == [] then [] else strings[0] + Concatenation(strings[1..])
  }

  /** Over a list of byte strings the decoded buffer is their concatenation, in order. */
  lemma {:induction false} AlignmentUndoesPacking(c: Params, strings: seq<seq<nat>>)
    requires c.Sizes() && forall i :: 0 <= i < |strings| ==> IsDigits(strings[i], 256)
    ensures AlignedBytes(c, BytesAlignment(strings), AllLimbs(c, strings)) == Some(Concatenation(strings))
  {
    if strings == [] {
    } else {
      AlignmentUndoesPacking(c, strings[1..]);
      AtomUndoesPacking(c, strings[0], AllLimbs(c, strings[1..]));
      assert BytesAlignment(strings)[1..] == BytesAlignment(strings[1..]);
    }
  }

  /** The circuit takes as many inputs for a list of strings as their packing has limbs. */
  lemma {:induction false} LimbsCounted(c: Params, strings: seq<seq<nat>>)
    requires c.Sizes() && forall i :: 0 <= i < |strings| ==> IsDigits(strings[i], 256)
    ensures Typing.AlignedUses(c, BytesAlignment(strings)) == Some(|AllLimbs(c, strings)|)
  {
    if strings == [] {
    } else {
      LimbsCounted(c, strings[1..]);
      PackShape(c, strings[0]);
      assert BytesAlignment(strings)[1..] == BytesAlignment(strings[1..]);
    }
  }

  /** The same of the circuit: cells constrained by the decoding of an alignment hold the concatenation. */
  lemma CircuitUndoesPacking(c: Params, b: Builder, strings: seq<seq<nat>>, inputs: seq<Wire>, a: Assignment)
    requires c.Sizes() && forall i :: 0 <= i < |strings| ==> IsDigits(strings[i], 256)
    requires Cells(a, inputs) == AllLimbs(c, strings)
    ensures Circuit.DecodeAligned(c, b, BytesAlignment(strings), inputs).Some?
    ensures var (b', ws) := Circuit.DecodeAligned(c, b, BytesAlignment(strings), inputs).value;
            Sat(c, b', a) ==> Cells(a, ws) == Concatenation(strings)
  {
    LimbsCounted(c, strings);
    SynthesisTyping.AlignedTyped(c, b, BytesAlignment(strings), inputs);
    var (b', ws) := Circuit.DecodeAligned(c, b, BytesAlignment(strings), inputs).value;
    if Sat(c, b', a) {
      GadgetSoundness.AlignedSound(c, b, BytesAlignment(strings), inputs, a);
      AlignmentUndoesPacking(c, strings);
    }
  }
}
