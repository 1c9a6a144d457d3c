/** Operands as text and as bytes: hex immediates with trailing zero bytes trimmed, or `%` identifiers. */
module OperandCodec {
  import opened Options
  import opened Digits
  import opened Types
  import opened Instructions
  import Encoding
  import Operations

  // ----- hexadecimal bytes -----

  function HexDigit(d: nat): char
    requires d < 16
  {
    if d < 10 then '0' + d as char else 'a' + (d - 10) as char
  }

  /** Upper and lower case are both read. */
  function HexValue(ch: char): Option<nat> {
    if '0' <= ch <= '9' then Some((ch - '0') as nat)
    else if 'a' <= ch <= 'f' then Some((ch - 'a') as nat + 10)
    else if 'A' <= ch <= 'F' then Some((ch - 'A') as nat + 10)
    else None
  }

  function Hex(bs: seq<nat>): (s: string)
    requires IsDigits(bs, 256)
    ensures |s| == 2 * |bs|
  {
    if bs == [] then [] else [HexDigit(bs[0] / 16), HexDigit(bs[0] % 16)] + Hex(bs[1..])
  }

  function Unhex(s: string): Option<seq<nat>> {
    if s == [] then Some([])
    else if |s| == 1 then None
    else
      var high :- HexValue(s[0]);
      var low :- HexValue(s[1]);
      var rest :- Unhex(s[2..]);
      Some([16 * high + low] + rest)
  }

  lemma HexDigitValue(d: nat)
    requires d < 16
    ensures HexValue(HexDigit(d)) == Some(d)
  {}

  lemma {:induction false} UnhexOfHex(bs: seq<nat>)
    requires IsDigits(bs, 256)
    ensures Unhex(Hex(bs)) == Some(bs)
  {
    if bs == [] {
    } else {
      UnhexOfHex(bs[1..]);
      assert Hex(bs)[2..] == Hex(bs[1..]);
      HexDigitValue(bs[0] / 16);
      HexDigitValue(bs[0] % 16);
      assert bs == [16 * (bs[0] / 16) + bs[0] % 16] + bs[1..];
      assert Hex(bs)[0] == HexDigit(bs[0] / 16) && Hex(bs)[1] == HexDigit(bs[0] % 16);
    }
  }

  /** The same digit, in either case. */
  predicate SameDigit(x: char, y: char) {
    || x == y
    || ('a' <= x <= 'f' && 'A' <= y <= 'F' && x - 'a' == y - 'A')
    || ('A' <= x <= 'F' && 'a' <= y <= 'f' && x - 'A' == y - 'a')
  }

  /** Reading ignores the case of the digits. */
  lemma {:induction false} CaseIgnored(s: string, t: string)
    requires |s| == |t| && forall i :: 0 <= i < |s| ==> SameDigit(s[i], t[i])
    ensures Unhex(s) == Unhex(t)
  {
    if |s| <= 1 {
    } else {
      assert SameDigit(s[0], t[0]) && SameDigit(s[1], t[1]);
      forall i | 0 <= i < |s| - 2
        ensures SameDigit(s[2..][i], t[2..][i])
      {
        assert s[2..][i] == s[i + 2] && t[2..][i] == t[i + 2];
      }
      CaseIgnored(s[2..], t[2..]);
    }
  }

  /** Digits count in the usual order, and are written in lower case. */
  lemma DigitCounts(i: nat)
    requires i < 16
    ensures HexValue("0123456789abcdef"[i]) == Some(i) && HexValue("0123456789ABCDEF"[i]) == Some(i)
    ensures HexDigit(i) == "0123456789abcdef"[i]
  {}

  /** Two digits are a byte, the first one weighing sixteen. */
  lemma PairCounts(x: char, y: char, i: nat, j: nat)
    requires HexValue(x) == Some(i) && HexValue(y) == Some(j) && i < 16 && j < 16
    ensures Unhex([x, y]) == Some([16 * i + j]) && Hex([16 * i + j]) == [HexDigit(i), HexDigit(j)]
  {
    assert [x, y][2..] == [] && Unhex([]) == Some([]) && [16 * i + j] + [] == [16 * i + j];
    assert [16 * i + j][1..] == [] && Hex([]) == [] && [HexDigit(i), HexDigit(j)] + [] == [HexDigit(i), HexDigit(j)];
  }

  // ----- immediates -----

  /** Drops trailing zero bytes, keeping at least one byte. */
  function Trim(bs: seq<nat>): (r: seq<nat>)
    ensures r <= bs && (|r| > 1 ==> r[|r| - 1] != 0) && (bs != [] ==> r != [])
  {
    if |bs| > 1 && bs[|bs| - 1] == 0 then Trim(bs[..|bs| - 1]) else bs
  }

  /** Trimming keeps the integer. */
  lemma {:induction false} TrimKeepsValue(bs: seq<nat>)
    ensures Val(Trim(bs), 256) == Val(bs, 256)
  {
    if |bs| <= 1 || bs[|bs| - 1] != 0 {
    } else {
      TrimKeepsValue(bs[..|bs| - 1]);
      ValLast(bs, 256);
      assert Pow(256, |bs| - 1) * 0 == 0;
    }
  }

  lemma LeadingByteWeighs(r: seq<nat>)
    requires r != [] && r[|r| - 1] != 0
    ensures Val(r, 256) >= Pow(256, |r| - 1)
  {
    ValLast(r, 256);
    MulMono(1, r[|r| - 1], Pow(256, |r| - 1));
  }

  lemma ShorterIsSmaller(other: seq<nat>, r: seq<nat>)
    requires IsDigits(other, 256) && |other| < |r| && r[|r| - 1] != 0
    ensures Val(other, 256) < Val(r, 256)
  {
    ValBound(other, 256);
    PowMono(256, |other|, |r| - 1);
    LeadingByteWeighs(r);
  }

  /** Nothing shorter stands for the same integer. */
  lemma TrimIsShortest(bs: seq<nat>, other: seq<nat>)
    requires bs != [] && IsDigits(bs, 256) && IsDigits(other, 256) && other != [] && Val(other, 256) == Val(bs, 256)
    ensures |Trim(bs)| <= |other|
  {
    TrimKeepsValue(bs);
    if |other| < |Trim(bs)| { ShorterIsSmaller(other, Trim(bs)); }
  }

  function PrintImmediate(c: Params, x: nat): string {
    "0x" + Hex(Trim(Encoding.FieldBytes(c, x)))
  }

  /** The printer: trailing zeros are popped off the little-endian bytes one by one. */
  method WriteImmediate(c: Params, x: nat) returns (s: string)
    ensures s == PrintImmediate(c, x)
  {
    var repr := Encoding.FieldBytes(c, x);
    while |repr| > 1 && repr[|repr| - 1] == 0
      invariant IsDigits(repr, 256) && Trim(repr) == Trim(Encoding.FieldBytes(c, x))
    {
      repr := repr[..|repr| - 1];
    }
    s := "0x" + Hex(repr);
  }

  /** Little-endian bytes of an element, padded or not, as long as they fit its width and order. */
  function FieldOfBytes(c: Params, bs: seq<nat>): Option<nat> {
    if |bs| <= c.ReprBytes() && Val(bs, 256) < c.p then Some(Val(bs, 256)) else None
  }

  function StripSign(s: string): (bool, string) {
    if s != [] && s[0] == '-' then (true, s[1..]) else (false, s)
  }

  predicate IsHex(s: string) {
    |s| >= 2 && s[0] == '0' && (s[1] == 'x' || s[1] == 'X')
  }

  function ParseImmediate(c: Params, negate: bool, hex: string): Option<nat> {
    if hex == [] then None
    else
      var bytes :- Unhex(hex);
      var x :- FieldOfBytes(c, bytes);
      Some(if negate then Operations.NegMod(c.p, x) else x)
  }

  // ----- operands -----

  function PrintOperand(c: Params, o: Operand): string {
    match o
    case Variable(id) => id
    case Immediate(x) => PrintImmediate(c, x)
  }

  function ParseOperand(c: Params, s: string): Option<Operand> {
    var (negate, repr) := StripSign(s);
    if IsHex(repr) then
      var x :- ParseImmediate(c, negate, repr[2..]);
      Some(Immediate(x))
    else if s == [] || s[0] != '%' then None
    else Some(Variable(s))
  }

  /** Identifiers that the text form can tell from immediates, and immediates that are field elements. */
  predicate Printable(c: Params, o: Operand) {
    match o
    case Variable(id) => id != [] && id[0] == '%'
    case Immediate(x) => x < c.p
  }

  lemma BytesSurvive(c: Params, x: nat)
    requires c.Sizes() && x < c.p
    ensures var bs := Trim(Encoding.FieldBytes(c, x)); bs != [] && FieldOfBytes(c, bs) == Some(x)
  {
    FieldHoldsLimb(c);
    ValDigits(x, 256, c.ReprBytes());
    TrimKeepsValue(Encoding.FieldBytes(c, x));
  }

  /** Every immediate survives trimming and hexadecimal; a sign in front makes it the additive inverse. */
  lemma ImmediateSurvives(c: Params, x: nat)
    requires c.Sizes() && x < c.p
    ensures ParseOperand(c, PrintImmediate(c, x)) == Some(Immediate(x))
    ensures ParseOperand(c, "-" + PrintImmediate(c, x)) == Some(Immediate(Operations.NegMod(c.p, x)))
    ensures (x + Operations.NegMod(c.p, x)) % c.p == 0
  {
    var bs := Trim(Encoding.FieldBytes(c, x));
    BytesSurvive(c, x);
    UnhexOfHex(bs);
    HexParses(c, Hex(bs));
    Operations.NegCancels(c.p, x);
  }

  /** Text behind a hexadecimal prefix is parsed as an immediate, negated behind a sign. */
  lemma HexParses(c: Params, hex: string)
    ensures var x, y := ParseImmediate(c, false, hex), ParseImmediate(c, true, hex);
            && ParseOperand(c, "0x" + hex) == (if x.None? then None else Some(Immediate(x.value)))
            && ParseOperand(c, "-" + ("0x" + hex)) == (if y.None? then None else Some(Immediate(y.value)))
  {
    var s := "0x" + hex;
    assert s[0] == '0' && s[1] == 'x' && s[2..] == hex;
    assert ("-" + s)[0] == '-' && ("-" + s)[1..] == s;
  }

  /** Text that starts with a percent sign is an identifier, and nothing else is. */
  lemma IdentifierTexts(c: Params, s: string, id: Identifier)
    ensures ParseOperand(c, s) == Some(Variable(id)) <==> s == id && s != [] && s[0] == '%'
  {}

  /** An element is given by one to `ReprBytes()` little-endian bytes that stand for an integer below the order. */
  lemma ImmediateTexts(c: Params, hex: string, x: nat)
    ensures ParseOperand(c, "0x" + hex) == Some(Immediate(x)) <==>
              && hex != [] && Unhex(hex).Some? && |Unhex(hex).value| <= c.limbBytes + 1
              && Val(Unhex(hex).value, 256) == x && x < c.p
  {
    HexParses(c, hex);
  }

  /** Printing and parsing an operand returns it exactly when its text can be told apart. */
  lemma OperandTextRoundTrip(c: Params, o: Operand)
    requires c.Sizes() && (o.Immediate? ==> o.imm < c.p)
    ensures ParseOperand(c, PrintOperand(c, o)) == Some(o) <==> Printable(c, o)
  {
    match o
    case Immediate(x) => ImmediateSurvives(c, x);
    case Variable(id) =>
  }

  /** Only field elements and printable identifiers come out of parsing, and they print to text that parses alike. */
  lemma ParsedIsPrintable(c: Params, s: string)
    requires c.Sizes() && ParseOperand(c, s).Some?
    ensures Printable(c, ParseOperand(c, s).value)
    ensures ParseOperand(c, PrintOperand(c, ParseOperand(c, s).value)) == ParseOperand(c, s)
  {
    OperandTextRoundTrip(c, ParseOperand(c, s).value);
  }

  // ----- the binary form -----

  /** How strings are written; its code is not part of this model. */
  datatype StringCodec = StringCodec(write: string -> seq<nat>, read: seq<nat> -> Option<(string, seq<nat>)>) {
    ghost predicate RoundTrips() {
      forall s, rest :: read(write(s) + rest) == Some((s, rest))
    }
  }

  function WriteOperand(c: Params, u: StringCodec, o: Operand): seq<nat> {
    match o
    case Variable(id) => [0] + u.write(id)
    case Immediate(x) => [1] + u.write(PrintImmediate(c, x))
  }

  function ReadOperand(c: Params, u: StringCodec, bs: seq<nat>): Option<(Operand, seq<nat>)> {
    if bs == [] then None
    else if bs[0] == 0 then
      var (id, rest) :- u.read(bs[1..]);
      Some((Variable(id), rest))
    else if bs[0] == 1 then
      var (s, rest) :- u.read(bs[1..]);
      var (negate, repr) := StripSign(s);
      if !IsHex(repr) then None
      else
        var x :- ParseImmediate(c, negate, repr[2..]);
        Some((Immediate(x), rest))
    else None
  }

  /** In binary the tag tells operands apart, so every identifier survives as well. */
  lemma OperandBytesRoundTrip(c: Params, u: StringCodec, o: Operand, rest: seq<nat>)
    requires c.Sizes() && u.RoundTrips() && (o.Immediate? ==> o.imm < c.p)
    ensures ReadOperand(c, u, WriteOperand(c, u, o) + rest) == Some((o, rest))
  {
    var s := PrintOperand(c, o);
    var bs := WriteOperand(c, u, o) + rest;
    assert bs[1..] == u.write(s) + rest;
    if o.Immediate? {
      ImmediateSurvives(c, o.imm);
      assert s[0] == '0';
    }
  }

  /**
    What the tags mean: zero is followed by an identifier, one by the text of an immediate, which in
    binary as well may have upper-case digits, an upper-case prefix and a sign.
   */
  lemma BinaryForms(c: Params, u: StringCodec, id: string, hex: string, upper: bool, negate: bool, rest: seq<nat>)
    requires c.Sizes() && u.RoundTrips()
    ensures ReadOperand(c, u, [0] + u.write(id) + rest) == Some((Variable(id), rest))
    ensures var text := (if negate then "-" else "") + ((if upper then "0X" else "0x") + hex);
            ReadOperand(c, u, [1] + u.write(text) + rest) ==
            match ParseImmediate(c, negate, hex)
            case None => None
            case Some(x) => Some((Immediate(x), rest))
  {
    var prefix := if upper then "0X" else "0x";
    var text := (if negate then "-" else "") + (prefix + hex);
    assert ([0] + u.write(id) + rest)[1..] == u.write(id) + rest;
    assert ([1] + u.write(text) + rest)[1..] == u.write(text) + rest;
    assert (prefix + hex)[2..] == hex;
    if negate { assert text[1..] == prefix + hex; } else { assert text == prefix + hex; }
  }

  /** A sign makes an immediate its additive inverse, as text and in binary. */
  lemma SignNegates(c: Params, u: StringCodec, x: nat, rest: seq<nat>)
    requires c.Sizes() && u.RoundTrips() && x < c.p
    ensures var y := if x == 0 then 0 else c.p - x;
            && ParseOperand(c, "-" + PrintImmediate(c, x)) == Some(Immediate(y))
            && ReadOperand(c, u, [1] + u.write("-" + PrintImmediate(c, x)) + rest) == Some((Immediate(y), rest))
  {
    var hex := Hex(Trim(Encoding.FieldBytes(c, x)));
    ImmediateSurvives(c, x);
    NegatedIs(c.p, x);
    HexParses(c, hex);
    BinaryForms(c, u, "", hex, false, true, rest);
    assert "-" + ("0x" + hex) == "-" + PrintImmediate(c, x);
  }

  lemma NegatedIs(q: Pos, x: nat)
    requires x < q
    ensures Operations.NegMod(q, x) == if x == 0 then 0 else q - x
  {
    ModSmall(x, q);
    if x == 0 { DivModUnique(q, q, 1, 0); } else { ModSmall(q - x, q); }
  }

  // ----- constants -----

  function PrintConstants(c: Params, xs: seq<nat>): (ss: seq<string>)
    ensures |ss| == |xs|
  {
    seq(|xs|, i requires 0 <= i < |xs| => PrintOperand(c, Immediate(xs[i])))
  }

  /** A constant's encoding is a list of immediates; an identifier among them is an error. */
  function ParseConstants(c: Params, ss: seq<string>): Option<seq<nat>> {
    if ss == [] then Some([])
    else
      var o :- ParseOperand(c, ss[0]);
      if o.Variable? then None
      else
        var rest :- ParseConstants(c, ss[1..]);
        Some([o.imm] + rest)
  }

  lemma ConstantsCons(c: Params, s: string, ss: seq<string>, x: nat, xs: seq<nat>)
    requires ParseOperand(c, s) == Some(Immediate(x)) && ParseConstants(c, ss) == Some(xs)
    ensures ParseConstants(c, [s] + ss) == Some([x] + xs)
  {
    assert ([s] + ss)[1..] == ss;
  }

  lemma PrintedCons(c: Params, x: nat, xs: seq<nat>)
    ensures PrintConstants(c, [x] + xs) == [PrintImmediate(c, x)] + PrintConstants(c, xs)
  {}

  lemma {:induction false} ConstantsRoundTrip(c: Params, xs: seq<nat>)
    requires c.Sizes() && c.FieldElements(xs)
    ensures ParseConstants(c, PrintConstants(c, xs)) == Some(xs)
  {
    if xs == [] {
    } else {
      var rest := xs[1..];
      assert xs == [xs[0]] + rest;
      ImmediateSurvives(c, xs[0]);
      ConstantsRoundTrip(c, rest);
      PrintedCons(c, xs[0], rest);
      ConstantsCons(c, PrintImmediate(c, xs[0]), PrintConstants(c, rest), xs[0], rest);
    }
  }
}
