/** Types as text and as bytes. Both codecs are exact: they accept what they print, and nothing else. */
module TypeCodec {
  import opened Options
  import opened Digits
  import opened Types
  import opened Typing

  // ----- decimal numbers -----

  predicate IsDecimal(s: string) {
    forall i :: 0 <= i < |s| ==> '0' <= s[i] <= '9'
  }

  function DigitValue(ch: char): nat {
    if '0' <= ch <= '9' then (ch - '0') as nat else 0
  }

  function DigitChar(d: nat): char
    requires d < 10
  {
    '0' + d as char
  }

  function Decimal(n: nat): (s: string)
    ensures |s| >= 1 && IsDecimal(s)
  {
    if n < 10 then [DigitChar(n)] else Decimal(n / 10) + [DigitChar(n % 10)]
  }

  function DecimalValue(s: string): nat {
    if s == [] then 0 else DecimalValue(s[..|s| - 1]) * 10 + DigitValue(s[|s| - 1])
  }

  lemma {:induction false} DecimalValueOf(n: nat)
    ensures DecimalValue(Decimal(n)) == n
    ensures n > 0 ==> Decimal(n)[0] != '0'
  {
    var s := Decimal(n);
    if n < 10 {
      assert s[..0] == [];
    } else {
      DecimalValueOf(n / 10);
      assert s[..|s| - 1] == Decimal(n / 10);
    }
  }

  lemma {:induction false} DecimalOfValue(s: string)
    requires |s| >= 1 && IsDecimal(s) && s[0] != '0'
    ensures DecimalValue(s) > 0 && Decimal(DecimalValue(s)) == s
  {
    var k := |s| - 1;
    assert s == s[..k] + [s[k]];
    if k == 0 {
      assert s[..0] == [];
    } else {
      DecimalOfValue(s[..k]);
    }
  }

  // ----- text -----

  function TypeString(t: IrType): string {
    match t
    case Native => "Scalar<BLS12-381>"
    case Bool => "Bool"
    case Byte => "Byte"
    case Bytes(n) => "Bytes<" + Decimal(n) + ">"
    case Point(Jubjub) => "Point<Jubjub>"
    case JubjubScalar => "Scalar<Jubjub>"
    case Point(Secp256k1) => "Point<Secp256k1>"
    case Foreign(Secp256k1Base) => "Base<Secp256k1>"
    case Foreign(Secp256k1Scalar) => "Scalar<Secp256k1>"
    case Point(Secp256r1) => "Point<Secp256r1>"
    case Foreign(Secp256r1Base) => "Base<Secp256r1>"
    case Foreign(Secp256r1Scalar) => "Scalar<Secp256r1>"
    case Point(Curve25519) => "Point<Curve25519>"
    case Foreign(Curve25519Base) => "Base<Curve25519>"
    case Foreign(Curve25519Scalar) => "Scalar<Curve25519>"
  }

  /** A length: decimal digits without a leading zero, within `u32` and within the maximum. */
  function ParseLength(inner: string): Option<nat> {
    if inner == [] || !IsDecimal(inner) || inner[0] == '0' then None
    else
      var n := DecimalValue(inner);
      if n >= 0x1_0000_0000 then None else if n > MAX_BYTES_LEN then None else Some(n)
  }

  function ParseBytes(s: string): Option<IrType> {
    if |s| < 6 || s[..6] != "Bytes<" then None
    else
      var rest := s[6..];
      if rest == [] || rest[|rest| - 1] != '>' then None
      else
        var n :- ParseLength(rest[..|rest| - 1]);
        Some(IrType.Bytes(n))
  }

  function ParseCore(s: string): Option<IrType> {
    if s == "Scalar<BLS12-381>" then Some(IrType.Native)
    else if s == "Bool" then Some(IrType.Bool)
    else if s == "Byte" then Some(IrType.Byte)
    else if s == "Point<Jubjub>" then Some(IrType.Point(Jubjub))
    else if s == "Scalar<Jubjub>" then Some(IrType.JubjubScalar)
    else None
  }

  function ParseSecp(s: string): Option<IrType> {
    if s == "Point<Secp256k1>" then Some(IrType.Point(Secp256k1))
    else if s == "Base<Secp256k1>" then Some(IrType.Foreign(Secp256k1Base))
    else if s == "Scalar<Secp256k1>" then Some(IrType.Foreign(Secp256k1Scalar))
    else if s == "Point<Secp256r1>" then Some(IrType.Point(Secp256r1))
    else if s == "Base<Secp256r1>" then Some(IrType.Foreign(Secp256r1Base))
    else if s == "Scalar<Secp256r1>" then Some(IrType.Foreign(Secp256r1Scalar))
    else None
  }

  function ParseCurve25519(s: string): Option<IrType> {
    if s == "Point<Curve25519>" then Some(IrType.Point(Curve25519))
    else if s == "Base<Curve25519>" then Some(IrType.Foreign(Curve25519Base))
    else if s == "Scalar<Curve25519>" then Some(IrType.Foreign(Curve25519Scalar))
    else None
  }

  function ParseType(s: string): Option<IrType> {
    if ParseCore(s).Some? then ParseCore(s)
    else if ParseSecp(s).Some? then ParseSecp(s)
    else if ParseCurve25519(s).Some? then ParseCurve25519(s)
    else ParseBytes(s)
  }

  lemma ParseLengthExact(inner: string, n: nat)
    ensures ParseLength(inner) == Some(n) <==> 1 <= n <= MAX_BYTES_LEN && inner == Decimal(n)
  {
    if ParseLength(inner) == Some(n) { DecimalOfValue(inner); }
    if n >= 1 && inner == Decimal(n) { DecimalValueOf(n); }
  }

  lemma Stripped(prefix: string, inner: string)
    ensures var s := prefix + inner + ">";
            var rest := s[|prefix|..];
            s[..|prefix|] == prefix && rest == inner + ">" && rest[..|rest| - 1] == inner
  {}

  lemma ParseBytesExact(s: string, n: nat)
    ensures ParseBytes(s) == Some(IrType.Bytes(n)) <==> 1 <= n <= MAX_BYTES_LEN && s == "Bytes<" + Decimal(n) + ">"
  {
    if ParseBytes(s) == Some(IrType.Bytes(n)) {
      var rest := s[6..];
      var inner := rest[..|rest| - 1];
      ParseLengthExact(inner, n);
      assert rest == inner + ">" && s == s[..6] + rest;
    }
    if 1 <= n <= MAX_BYTES_LEN && s == "Bytes<" + Decimal(n) + ">" {
      Stripped("Bytes<", Decimal(n));
      ParseLengthExact(Decimal(n), n);
    }
  }

  /** No other type is printed with this second character at this length. */
  lemma NotNamed(s: string)
    requires |s| >= 8 && s[1] == 'y'
    ensures ParseCore(s).None? && ParseSecp(s).None? && ParseCurve25519(s).None?
  {
    NotCore(s);
    NotSecp(s);
  }

  lemma NotCore(s: string)
    requires |s| >= 8 && s[1] == 'y'
    ensures ParseCore(s).None?
  {}

  lemma NotSecp(s: string)
    requires |s| >= 8 && s[1] == 'y'
    ensures ParseSecp(s).None?
  {}

  lemma CoreParsed(t: IrType)
    requires t.Native? || t.Bool? || t.Byte? || t.JubjubScalar? || t == IrType.Point(Jubjub)
    ensures ParseType(TypeString(t)) == Some(t)
  {}

  lemma PointParsed(curve: Curve)
    ensures ParseType(TypeString(IrType.Point(curve))) == Some(IrType.Point(curve))
  {}

  lemma ForeignParsed(f: ForeignField)
    ensures ParseType(TypeString(IrType.Foreign(f))) == Some(IrType.Foreign(f))
  {}

  lemma Printed(s: string, t: IrType)
    requires !t.Bytes?
    ensures ParseType(s) == Some(t) ==> s == TypeString(t)
  {
    CorePrinted(s);
    CurvesPrinted(s);
  }

  lemma CorePrinted(s: string)
    ensures ParseCore(s).Some? ==> s == TypeString(ParseCore(s).value)
  {}

  lemma CurvesPrinted(s: string)
    ensures ParseSecp(s).Some? ==> s == TypeString(ParseSecp(s).value)
    ensures ParseCurve25519(s).Some? ==> s == TypeString(ParseCurve25519(s).value)
  {}

  /** The text of a type parses as that type. */
  lemma Parsed(t: IrType)
    requires !t.Bytes?
    ensures ParseType(TypeString(t)) == Some(t)
  {
    match t
    case Point(curve) => PointParsed(curve);
    case Foreign(f) => ForeignParsed(f);
    case _ => CoreParsed(t);
  }

  lemma PrintedLength(n: nat)
    ensures var s := "Bytes<" + Decimal(n) + ">"; |s| >= 8 && s[1] == 'y'
  {}

  lemma BytesTextIsExact(s: string, n: nat)
    ensures ParseType(s) == Some(IrType.Bytes(n)) <==> 1 <= n <= MAX_BYTES_LEN && s == "Bytes<" + Decimal(n) + ">"
  {
    ParseBytesExact(s, n);
    if s == "Bytes<" + Decimal(n) + ">" {
      PrintedLength(n);
      NotNamed(s);
    }
  }

  /** Parsing accepts exactly the canonical prints, and returns the type printed. */
  lemma TypeTextIsExact(s: string, t: IrType)
    ensures ParseType(s) == Some(t) <==> WellFormed(t) && s == TypeString(t)
  {
    if t.Bytes? {
      BytesTextIsExact(s, t.n);
    } else {
      Parsed(t);
      Printed(s, t);
    }
  }

  // ----- bytes -----

  /** How 32-bit integers are written; its code is not part of this model. */
  datatype U32Codec = U32Codec(write: nat -> seq<nat>, read: seq<nat> -> Option<(nat, seq<nat>)>) {
    /** Reading takes exactly what writing produced, and accepts nothing else. */
    ghost predicate Exact() {
      && (forall n, rest :: n < 0x1_0000_0000 ==> read(write(n) + rest) == Some((n, rest)))
      && (forall bs :: read(bs).Some? ==>
            var (n, rest) := read(bs).value;
            n < 0x1_0000_0000 && bs == write(n) + rest)
    }
  }

  function Discriminant(t: IrType): nat {
    match t
    case Native => 0
    case Point(Jubjub) => 2
    case JubjubScalar => 3
    case Point(Secp256k1) => 4
    case Foreign(Secp256k1Base) => 5
    case Foreign(Secp256k1Scalar) => 6
    case Point(Secp256r1) => 7
    case Foreign(Secp256r1Base) => 8
    case Foreign(Secp256r1Scalar) => 9
    case Point(Curve25519) => 10
    case Foreign(Curve25519Base) => 11
    case Foreign(Curve25519Scalar) => 12
    case Bool => 13
    case Byte => 14
    case Bytes(n) => if n == 32 then 1 else 15
  }

  function WriteType(u: U32Codec, t: IrType): seq<nat> {
    [Discriminant(t)] + if t.Bytes? && t.n != 32 then u.write(t.n) else []
  }

  function ReadType(u: U32Codec, bs: seq<nat>): Option<(IrType, seq<nat>)> {
    if bs == [] then None
    else if bs[0] == 15 then
      var (n, rest) :- u.read(bs[1..]);
      if n == 0 || n == 32 || n > MAX_BYTES_LEN then None else Some((IrType.Bytes(n), rest))
    else
      var t :- Plain(bs[0]);
      Some((t, bs[1..]))
  }

  /** The types whose discriminant is all there is to them. */
  function Plain(d: nat): Option<IrType> {
    match d
    case 0 => Some(IrType.Native)
    case 1 => Some(IrType.Bytes(32))
    case 2 => Some(IrType.Point(Jubjub))
    case 3 => Some(IrType.JubjubScalar)
    case 4 => Some(IrType.Point(Secp256k1))
    case 5 => Some(IrType.Foreign(Secp256k1Base))
    case 6 => Some(IrType.Foreign(Secp256k1Scalar))
    case 7 => Some(IrType.Point(Secp256r1))
    case 8 => Some(IrType.Foreign(Secp256r1Base))
    case 9 => Some(IrType.Foreign(Secp256r1Scalar))
    case 10 => Some(IrType.Point(Curve25519))
    case 11 => Some(IrType.Foreign(Curve25519Base))
    case 12 => Some(IrType.Foreign(Curve25519Scalar))
    case 13 => Some(IrType.Bool)
    case 14 => Some(IrType.Byte)
    case _ => None
  }

  /**
    The binary form is self-delimiting and canonical: reading succeeds exactly on a written
    type followed by anything, and leaves what follows untouched.
   */
  lemma TypeBytesAreExact(u: U32Codec, bs: seq<nat>, t: IrType, rest: seq<nat>)
    requires u.Exact()
    ensures ReadType(u, bs) == Some((t, rest)) <==> WellFormed(t) && bs == WriteType(u, t) + rest
  {
    if WellFormed(t) && bs == WriteType(u, t) + rest {
      assert bs[0] == Discriminant(t);
      assert bs[1..] == (if t.Bytes? && t.n != 32 then u.write(t.n) else []) + rest;
    }
    if ReadType(u, bs) == Some((t, rest)) {
      assert bs == [bs[0]] + bs[1..];
      if bs[0] != 15 { PlainIsDiscriminant(bs[0]); }
    }
  }

  lemma PlainIsDiscriminant(d: nat)
    ensures Plain(d).Some? ==> WellFormed(Plain(d).value) && Discriminant(Plain(d).value) == d
    ensures Plain(d).Some? && Plain(d).value.Bytes? ==> Plain(d).value.n == 32
  {}

  // ----- the names and the discriminants -----

  /** The named types: their text, their discriminant, and the type. */
  const NAMED: seq<(string, nat, IrType)> := [
    ("Scalar<BLS12-381>", 0, IrType.Native), ("Bytes<32>", 1, IrType.Bytes(32)),
    ("Point<Jubjub>", 2, IrType.Point(Jubjub)), ("Scalar<Jubjub>", 3, IrType.JubjubScalar),
    ("Point<Secp256k1>", 4, IrType.Point(Secp256k1)), ("Base<Secp256k1>", 5, IrType.Foreign(Secp256k1Base)),
    ("Scalar<Secp256k1>", 6, IrType.Foreign(Secp256k1Scalar)),
    ("Point<Secp256r1>", 7, IrType.Point(Secp256r1)), ("Base<Secp256r1>", 8, IrType.Foreign(Secp256r1Base)),
    ("Scalar<Secp256r1>", 9, IrType.Foreign(Secp256r1Scalar)),
    ("Point<Curve25519>", 10, IrType.Point(Curve25519)), ("Base<Curve25519>", 11, IrType.Foreign(Curve25519Base)),
    ("Scalar<Curve25519>", 12, IrType.Foreign(Curve25519Scalar)),
    ("Bool", 13, IrType.Bool), ("Byte", 14, IrType.Byte)]

  lemma DecimalForms(d: nat)
    requires d < 10
    ensures Decimal(d) == ["0123456789"[d]] && Decimal(32) == "32"
  {}

  /** Text follows the table. */
  lemma NamedTexts(i: nat)
    requires i < |NAMED|
    ensures var (text, _, t) := NAMED[i]; ParseType(text) == Some(t) && TypeString(t) == text
  {
    var (text, _, t) := NAMED[i];
    DecimalForms(3);
    TypeTextIsExact(text, t);
  }

  /** So do bytes. */
  lemma NamedTags(u: U32Codec, i: nat, rest: seq<nat>)
    requires i < |NAMED|
    ensures var (_, tag, t) := NAMED[i]; ReadType(u, [tag] + rest) == Some((t, rest)) && WriteType(u, t) == [tag]
  {
    var (_, tag, _) := NAMED[i];
    assert ([tag] + rest)[1..] == rest;
  }

  /** Every other byte string type has discriminant 15 and its length, up to two to the power of 24. */
  lemma BytesTypes(u: U32Codec, n: nat, rest: seq<nat>)
    requires u.Exact() && n != 32 && n < 0x1_0000_0000
    ensures ReadType(u, [15] + u.write(n) + rest) ==
            if 1 <= n <= 0x100_0000 then Some((IrType.Bytes(n), rest)) else None
  {
    assert ([15] + u.write(n) + rest)[1..] == u.write(n) + rest;
  }

  /** Four little-endian bytes are such a codec. */
  lemma FourBytesAreExact() returns (u: U32Codec)
    ensures u.Exact()
  {
    u := U32Codec(
      n => DigitsOf(n, 256, 4),
      bs => if |bs| < 4 || !IsDigits(bs[..4], 256) then None else Some((Val(bs[..4], 256), bs[4..])));
    assert Pow(256, 4) == 0x1_0000_0000;
    forall n: nat, rest: seq<nat> | n < 0x1_0000_0000
      ensures u.read(u.write(n) + rest) == Some((n, rest))
    {
      var bs := u.write(n) + rest;
      assert bs[..4] == u.write(n) && bs[4..] == rest;
      ValDigits(n, 256, 4);
    }
    forall bs | u.read(bs).Some?
      ensures var (n, rest) := u.read(bs).value; n < 0x1_0000_0000 && bs == u.write(n) + rest
    {
      DigitsVal(bs[..4], 256);
      ValBound(bs[..4], 256);
      assert bs == bs[..4] + bs[4..];
    }
  }
}
