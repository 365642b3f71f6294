/**
  Compressed secp256k1 keys in api/crypto_verification.py: decompression inside
  `verify_signature_simple` and the fallback search of `recover_public_key_from_signature`.

  The curve is y^2 = x^3 + 7 over the integers modulo p. The model keeps p as a parameter; the two
  constants of the code are FIELD_PRIME and GROUP_ORDER. ECDSA itself is a library the repository
  calls, so it enters as the record `Library`.
 */
module PointCodec {
  import opened Common
  import opened NumberTheory
  import opened Hex

  const FIELD_PRIME: nat := 0xFFFFFFFFFFFFFFFFFFFFFFFFFFFFFFFFFFFFFFFFFFFFFFFFFFFFFFFEFFFFFC2F
  const GROUP_ORDER: nat := 0xFFFFFFFFFFFFFFFFFFFFFFFFFFFFFFFEBAAEDCE6AF48A03BBFD25E8CD0364141

  /** What the code uses of the field modulus. */
  predicate FieldShape(p: nat) {
    p % 4 == 3 && p < TWO_256
  }

  lemma ConcreteField()
    ensures FieldShape(FIELD_PRIME)
  {
  }

  // ----- Decompression

  /** The point (x, y) lies on the curve, both coordinates reduced. */
  ghost predicate OnCurve(x: int, y: int, p: nat) {
    0 <= x < p && 0 <= y < p && Congruent(y * y, x * x * x + 7, p)
  }

  /** The parity byte of section 2.3.3 of SEC 1. */
  function ParityPrefix(y: nat): Byte {
    if y % 2 == 0 then 2 else 3
  }

  function YSquared(x: nat, p: nat): (z: nat)
    requires p > 0
    ensures z < p
  {
    (PowMod(x, 3, p) + 7) % p
  }

  function DecompressY(prefix: Byte, x: nat, p: nat): nat
    requires p > 0
  {
    var y := PowMod(YSquared(x, p), (p + 1) / 4, p);
    if y % 2 != prefix % 2 then p - y else y
  }

  lemma YSquaredMeaning(x: nat, p: nat)
    requires p > 0
    ensures Congruent(YSquared(x, p), x * x * x + 7, p)
  {
    assert Pow(x, 3) == x * x * x by {
      assert Pow(x, 1) == x;
      assert Pow(x, 2) == x * x;
      assert x * (x * x) == x * x * x;
    }
    hide Pow;
    var c := x * x * x;
    CongruentResidue(c % p + 7, p);
    assert c + 7 == c % p + 7 + (c / p) * p;
    CongruentShift(c % p + 7, c / p, p);
  }

  /** On the curve means: y^2 is congruent to what the code computes as y_sq. */
  lemma OnCurveByYSquared(x: nat, y: nat, p: nat)
    requires p > 0
    ensures OnCurve(x, y, p) <==> x < p && y < p && Congruent(YSquared(x, p), y * y, p)
  {
    hide YSquared;
    YSquaredMeaning(x, p);
  }

  /** The two exponents of the code for a modulus that is 3 modulo 4. */
  lemma Exponents(p: nat)
    requires p % 4 == 3
    ensures var q, h := (p + 1) / 4, (p - 1) / 2; q + q == h + 1 && p == 2 * h + 1 && p > 1 && q > 0
  {
  }

  /** For an odd modulus the parity fix-up picks y out of y and p - y. */
  lemma ParityPicks(x: nat, y: nat, p: nat)
    requires p % 2 == 1 && 0 < y < p
    requires var root := PowMod(YSquared(x, p), (p + 1) / 4, p); root == y || root == p - y
    ensures DecompressY(ParityPrefix(y), x, p) == y
  {
    hide YSquared, PowMod;
  }

  /** Section 2.3.4 of SEC 1: decompressing the compressed form of a curve point gives the point back. */
  lemma DecompressRecoversY(x: nat, y: nat, p: nat)
    requires IsPrime(p) && p % 4 == 3 && OnCurve(x, y, p) && y > 0
    ensures DecompressY(ParityPrefix(y), x, p) == y
  {
    hide YSquared, PowMod, Congruent, IsPrime, DecompressY, ParityPrefix;
    Exponents(p);
    OnCurveByYSquared(x, y, p);
    RootOfSquare(y, YSquared(x, p), (p + 1) / 4, (p - 1) / 2, p);
    ParityPicks(x, y, p);
  }

  /** The hypotheses can be met: 7 is such a prime, with the curve point (1, 1). */
  lemma SmallField()
    ensures IsPrime(7) && FieldShape(7) && OnCurve(1, 1, 7) && DecompressY(3, 1, 7) == 1
  {
    assert !Divides(2, 7) && !Divides(3, 7) && !Divides(4, 7) && !Divides(5, 7) && !Divides(6, 7);
    DecompressRecoversY(1, 1, 7);
  }

  /** The same for the constant of the code, whose primality is the one hypothesis. */
  lemma DecompressSecp256k1(x: nat, y: nat)
    requires IsPrime(FIELD_PRIME) && OnCurve(x, y, FIELD_PRIME)
    ensures y > 0 ==> DecompressY(ParityPrefix(y), x, FIELD_PRIME) == y
  {
    hide IsPrime, OnCurve, DecompressY;
    if y > 0 {
      DecompressRecoversY(x, y, FIELD_PRIME);
    }
  }

  /** Negation keeps the square. */
  lemma NegatedRoot(y: int, z: int, p: nat)
    requires p > 0
    ensures Congruent(z, y * y, p) <==> Congruent(z, (p - y) * (p - y), p)
  {
    assert (p - y) * (p - y) == y * y + (p - 2 * y) * p;
    CongruentShift(y * y, p - 2 * y, p);
  }

  lemma SquareIsZero(y: nat, z: nat, p: nat)
    requires IsPrime(p) && y < p && z < p && Congruent(z, y * y, p)
    ensures y == 0 <==> z == 0
  {
    hide IsPrime;
    if z == 0 {
      CongruentIffDivides(0, y * y, p);
      CongruentIffDivides(y * y, 0, p);
      Euclid(p, y, y);
      if y > 0 { NotDivisible(y, p); }
    }
    if y == 0 {
      CongruentReduced(z, 0, p);
    }
  }

  /**
    Decompression lands on the curve exactly when x is the abscissa of a curve point; in the
    one degenerate case y = 0 only the even prefix does, because p - 0 is not reduced.
   */
  lemma DecompressOnCurveIff(prefix: Byte, x: nat, p: nat)
    requires IsPrime(p) && p % 4 == 3 && x < p && (prefix == 2 || prefix == 3)
    ensures OnCurve(x, DecompressY(prefix, x, p), p)
       <==> (exists y: nat :: y > 0 && OnCurve(x, y, p)) || (YSquared(x, p) == 0 && prefix == 2)
  {
    hide YSquared, PowMod, Congruent, IsPrime;
    Exponents(p);
    var z, q, h := YSquared(x, p), (p + 1) / 4, (p - 1) / 2;
    var root, y := PowMod(z, q, p), DecompressY(prefix, x, p);
    OnCurveByYSquared(x, y, p);
    if y0: nat :| y0 > 0 && OnCurve(x, y0, p) {
      OnCurveByYSquared(x, y0, p);
      RootOfSquare(y0, z, q, h, p);
      NegatedRoot(y0, z, p);
      SquareIsZero(y0, z, p);
    } else {
      ZeroRoot(z, q, p);
      if OnCurve(x, y, p) { SquareIsZero(y, z, p); }
    }
  }

  lemma ZeroRoot(z: int, q: nat, p: nat)
    requires p > 0 && q > 0
    ensures z == 0 ==> PowMod(z, q, p) == 0 && Congruent(z, 0 * 0, p)
  {
    PowOfZero(q);
  }

  // ----- Signature verification

  /** The cryptography library: key loading, DER coding and ECDSA verification over SHA-256. */
  datatype Library = Library(
    loads: (nat, nat) -> bool,
    encodeDss: (nat, nat) -> seq<Byte>,
    decodeDss: seq<Byte> -> Option<(int, int)>,
    verifies: (nat, nat, seq<Byte>, seq<Byte>) -> bool)

  /** The point that a 65-byte or 33-byte key names; None when the code or the library refuses it. */
  function LoadKey(p: nat, lib: Library, key: seq<Byte>): Option<(nat, nat)>
    requires p > 0
  {
    if |key| == 65 && key[0] == 4 then
      var x, y := FromBigEndian(key[1..33]), FromBigEndian(key[33..65]);
      if lib.loads(x, y) then Some((x, y)) else None
    else if |key| == 33 && key[0] in {2, 3} then
      var x := FromBigEndian(key[1..]);
      var y := DecompressY(key[0], x, p);
      if lib.loads(x, y) then Some((x, y)) else None
    else None
  }

  function SignatureDer(lib: Library, sig: seq<Byte>): Option<seq<Byte>> {
    if |sig| == 64 then Some(lib.encodeDss(FromBigEndian(sig[..32]), FromBigEndian(sig[32..])))
    else if 68 <= |sig| <= 72 then Some(sig)
    else None
  }

  /** verify_signature_simple; every exception in it returns False. */
  function VerifySimple(p: nat, lib: Library, message: seq<Byte>, signatureHex: string, keyHex: string): bool
    requires p > 0
  {
    var sig, key := FromHex(signatureHex), FromHex(keyHex);
    sig.Some? && key.Some? &&
    var point, der := LoadKey(p, lib, key.value), SignatureDer(lib, sig.value);
    point.Some? && der.Some? && lib.verifies(point.value.0, point.value.1, der.value, message)
  }

  function UncompressedHex(x: nat, y: nat): string {
    "04" + Hex64(x) + Hex64(y)
  }

  function CompressedHex(x: nat, y: nat): string {
    (if y % 2 == 0 then "02" else "03") + Hex64(x)
  }

  lemma PrefixBytes(prefix: string, b: Byte)
    requires AllHex(prefix) && |prefix| == 2 && b == 16 * DigitValue(prefix[0]) + DigitValue(prefix[1])
    ensures FromHex(prefix) == Some([b])
  {
    assert prefix[2..] == [];
    assert FromHex(prefix[2..]) == Some([]);
    assert [b] + [] == [b];
  }

  lemma UncompressedBytes(x: nat, y: nat)
    requires x < TWO_256 && y < TWO_256
    ensures FromHex(UncompressedHex(x, y)).Some?
    ensures var key := FromHex(UncompressedHex(x, y)).value;
            |key| == 65 && key[0] == 4 && FromBigEndian(key[1..33]) == x && FromBigEndian(key[33..65]) == y
  {
    hide FromHex, FromBigEndian, Hex64;
    Hex64RoundTrip(x);
    Hex64RoundTrip(y);
    PrefixBytes("04", 4);
    FromHexConcat(Hex64(x), Hex64(y));
    FromHexConcat("04", Hex64(x) + Hex64(y));
    assert UncompressedHex(x, y) == "04" + (Hex64(x) + Hex64(y));
    var xs, ys := FromHex(Hex64(x)).value, FromHex(Hex64(y)).value;
    var key := [4] + (xs + ys);
    assert key[1..33] == xs && key[33..65] == ys;
  }

  lemma CompressedBytes(x: nat, y: nat)
    requires x < TWO_256
    ensures FromHex(CompressedHex(x, y)).Some?
    ensures var key := FromHex(CompressedHex(x, y)).value;
            |key| == 33 && key[0] == ParityPrefix(y) && FromBigEndian(key[1..]) == x
  {
    hide FromHex, FromBigEndian, Hex64;
    Hex64RoundTrip(x);
    var prefix := if y % 2 == 0 then "02" else "03";
    PrefixBytes(prefix, ParityPrefix(y));
    FromHexConcat(prefix, Hex64(x));
    var xs := FromHex(Hex64(x)).value;
    assert ([ParityPrefix(y)] + xs)[1..] == xs;
  }

  lemma SameDecompressionVerifiesAlike(p: nat, lib: Library, message: seq<Byte>, signatureHex: string, x: nat, y: nat)
    requires 0 < p && x < TWO_256 && y < TWO_256 && DecompressY(ParityPrefix(y), x, p) == y
    ensures VerifySimple(p, lib, message, signatureHex, CompressedHex(x, y))
         == VerifySimple(p, lib, message, signatureHex, UncompressedHex(x, y))
    ensures !lib.loads(x, y) ==> !VerifySimple(p, lib, message, signatureHex, UncompressedHex(x, y))
  {
    hide FromHex, FromBigEndian, DecompressY, UncompressedHex, CompressedHex;
    UncompressedBytes(x, y);
    CompressedBytes(x, y);
  }

  /** Both textual forms of a curve point verify the same signatures. */
  lemma FormsVerifyAlike(p: nat, lib: Library, message: seq<Byte>, signatureHex: string, x: nat, y: nat)
    requires IsPrime(p) && FieldShape(p) && OnCurve(x, y, p) && y > 0
    ensures VerifySimple(p, lib, message, signatureHex, CompressedHex(x, y))
         == VerifySimple(p, lib, message, signatureHex, UncompressedHex(x, y))
  {
    DecompressRecoversY(x, y, p);
    SameDecompressionVerifiesAlike(p, lib, message, signatureHex, x, y);
  }

  /** The text of a signature of 64 bytes: r and s, 32 bytes each. */
  function RawHex(r: nat, s: nat): string {
    Hex64(r) + Hex64(s)
  }

  lemma RawSignature(lib: Library, r: nat, s: nat)
    requires r < TWO_256 && s < TWO_256
    ensures FromHex(RawHex(r, s)).Some?
    ensures SignatureDer(lib, FromHex(RawHex(r, s)).value) == Some(lib.encodeDss(r, s))
  {
    hide FromHex, FromBigEndian, Hex64;
    Hex64RoundTrip(r);
    Hex64RoundTrip(s);
    FromHexConcat(Hex64(r), Hex64(s));
    var rs, ss := FromHex(Hex64(r)).value, FromHex(Hex64(s)).value;
    assert (rs + ss)[..32] == rs && (rs + ss)[32..] == ss;
  }

  /** A DER text is read as what it is only from 68 to 72 bytes. */
  predicate DerLength(n: nat) {
    68 <= n <= 72
  }

  /**
    A signature as r and s and the same signature in DER. They verify alike when the DER text has 68
    to 72 bytes. Of 64 bytes it is taken for another r and s, read from its own bytes. Of any other
    length, as short r and s give, it is refused, so the forms agree exactly when the raw form is
    refused too.
   */
  lemma RawAndDerVerifyAlike(p: nat, lib: Library, message: seq<Byte>, keyHex: string, r: nat, s: nat, derHex: string)
    requires p > 0 && r < TWO_256 && s < TWO_256 && FromHex(derHex) == Some(lib.encodeDss(r, s))
    ensures var der := lib.encodeDss(r, s);
            var rawOk, derOk := VerifySimple(p, lib, message, RawHex(r, s), keyHex),
                                VerifySimple(p, lib, message, derHex, keyHex);
            if |der| == 64 then
              var r', s' := FromBigEndian(der[..32]), FromBigEndian(der[32..]);
              r' < TWO_256 && s' < TWO_256 && derOk == VerifySimple(p, lib, message, RawHex(r', s'), keyHex)
            else
              && (derOk <==> rawOk && DerLength(|der|))
              && (derOk == rawOk <==> DerLength(|der|) || !rawOk)
  {
    hide FromHex, FromBigEndian, Hex64, LoadKey;
    RawSignature(lib, r, s);
    var der := lib.encodeDss(r, s);
    if |der| == 64 {
      BigEndianBound(der[..32]);
      BigEndianBound(der[32..]);
      RawSignature(lib, FromBigEndian(der[..32]), FromBigEndian(der[32..]));
    }
  }

  /** The DER of r = s = 1. */
  const DER_OF_ONES: seq<Byte> := [0x30, 6, 2, 1, 1, 2, 1, 1]

  lemma FirstByte(text: string, rest: string, bytes: seq<Byte>)
    requires |text| >= 2 && IsHexDigit(text[0]) && IsHexDigit(text[1]) && text[2..] == rest
    requires bytes != [] && bytes[0] == 16 * DigitValue(text[0]) + DigitValue(text[1])
    requires FromHex(rest) == Some(bytes[1..])
    ensures FromHex(text) == Some(bytes)
  {
    assert [bytes[0]] + bytes[1..] == bytes;
  }

  lemma SecondHalfOfOnes()
    ensures FromHex("01020101") == Some([1, 2, 1, 1])
  {
    PrefixBytes("01", 1);
    hide FromHex;
    FirstByte("0101", "01", [1, 1]);
    FirstByte("020101", "0101", [2, 1, 1]);
    FirstByte("01020101", "020101", [1, 2, 1, 1]);
  }

  lemma HexOfOnes()
    ensures FromHex("3006020101020101") == Some(DER_OF_ONES)
  {
    hide FromHex;
    SecondHalfOfOnes();
    FirstByte("0101020101", "01020101", [1, 1, 2, 1, 1]);
    FirstByte("020101020101", "0101020101", [2, 1, 1, 2, 1, 1]);
    FirstByte("06020101020101", "020101020101", [6, 2, 1, 1, 2, 1, 1]);
    FirstByte("3006020101020101", "06020101020101", DER_OF_ONES);
  }

  /** Such an input: the eight-byte DER of r = s = 1 is refused even where r = s = 1 verifies in its raw form. */
  lemma ShortDerRefused(p: nat, lib: Library, message: seq<Byte>, keyHex: string)
    requires p > 0 && lib.encodeDss(1, 1) == DER_OF_ONES
    requires VerifySimple(p, lib, message, RawHex(1, 1), keyHex)
    ensures FromHex("3006020101020101") == Some(lib.encodeDss(1, 1))
    ensures !VerifySimple(p, lib, message, "3006020101020101", keyHex)
  {
    HexOfOnes();
    hide FromHex, LoadKey;
    RawAndDerVerifyAlike(p, lib, message, keyHex, 1, 1, "3006020101020101");
  }

  // ----- What verification accepts

  lemma DerSignature(lib: Library, derHex: string)
    requires FromHex(derHex).Some? && DerLength(|FromHex(derHex).value|)
    ensures SignatureDer(lib, FromHex(derHex).value) == FromHex(derHex)
  {
    hide FromHex;
  }

  /** A signature text and a key text are accepted exactly if the library loads the point and verifies the DER. */
  lemma VerifiesPoint(p: nat, lib: Library, message: seq<Byte>, signatureHex: string, der: seq<Byte>, x: nat, y: nat)
    requires p > 0 && x < TWO_256 && y < TWO_256
    requires FromHex(signatureHex).Some? && SignatureDer(lib, FromHex(signatureHex).value) == Some(der)
    ensures VerifySimple(p, lib, message, signatureHex, UncompressedHex(x, y))
       <==> lib.loads(x, y) && lib.verifies(x, y, der, message)
    ensures VerifySimple(p, lib, message, signatureHex, CompressedHex(x, y))
       <==> var y' := DecompressY(ParityPrefix(y), x, p);
            lib.loads(x, y') && lib.verifies(x, y', der, message)
  {
    UncompressedBytes(x, y);
    CompressedBytes(x, y);
    hide FromHex, FromBigEndian, DecompressY, UncompressedHex, CompressedHex, SignatureDer;
  }

  /**
    Verification in terms of ECDSA: a raw signature r, s is accepted for an uncompressed key exactly
    if the library loads the point and verifies the DER encoding of r and s over the message.
   */
  lemma RawVerifiesIff(p: nat, lib: Library, message: seq<Byte>, r: nat, s: nat, x: nat, y: nat)
    requires p > 0 && r < TWO_256 && s < TWO_256 && x < TWO_256 && y < TWO_256
    ensures VerifySimple(p, lib, message, RawHex(r, s), UncompressedHex(x, y))
       <==> lib.loads(x, y) && lib.verifies(x, y, lib.encodeDss(r, s), message)
  {
    RawSignature(lib, r, s);
    hide FromHex, SignatureDer, RawHex, UncompressedHex, VerifySimple;
    VerifiesPoint(p, lib, message, RawHex(r, s), lib.encodeDss(r, s), x, y);
  }

  /** The same for the compressed key of a curve point. */
  lemma CompressedVerifiesIff(p: nat, lib: Library, message: seq<Byte>, r: nat, s: nat, x: nat, y: nat)
    requires IsPrime(p) && FieldShape(p) && OnCurve(x, y, p) && y > 0 && r < TWO_256 && s < TWO_256
    ensures VerifySimple(p, lib, message, RawHex(r, s), CompressedHex(x, y))
       <==> lib.loads(x, y) && lib.verifies(x, y, lib.encodeDss(r, s), message)
  {
    RawSignature(lib, r, s);
    DecompressRecoversY(x, y, p);
    hide FromHex, SignatureDer, RawHex, CompressedHex, VerifySimple, DecompressY, IsPrime;
    VerifiesPoint(p, lib, message, RawHex(r, s), lib.encodeDss(r, s), x, y);
  }

  /** A text of 68 to 72 bytes is verified as the DER it is, for either form of a curve point. */
  lemma DerVerifiesIff(p: nat, lib: Library, message: seq<Byte>, derHex: string, x: nat, y: nat)
    requires IsPrime(p) && FieldShape(p) && OnCurve(x, y, p) && y > 0
    requires FromHex(derHex).Some? && 68 <= |FromHex(derHex).value| <= 72
    ensures VerifySimple(p, lib, message, derHex, UncompressedHex(x, y))
       <==> lib.loads(x, y) && lib.verifies(x, y, FromHex(derHex).value, message)
    ensures VerifySimple(p, lib, message, derHex, CompressedHex(x, y))
       <==> lib.loads(x, y) && lib.verifies(x, y, FromHex(derHex).value, message)
  {
    DerSignature(lib, derHex);
    DecompressRecoversY(x, y, p);
    hide FromHex, SignatureDer, CompressedHex, UncompressedHex, VerifySimple, DecompressY, IsPrime;
    VerifiesPoint(p, lib, message, derHex, FromHex(derHex).value, x, y);
  }

  /** Nothing else is accepted: the texts are hex, of these lengths and with these key prefixes. */
  lemma AcceptedForms(p: nat, lib: Library, message: seq<Byte>, signatureHex: string, keyHex: string)
    requires p > 0 && VerifySimple(p, lib, message, signatureHex, keyHex)
    ensures FromHex(signatureHex).Some? && FromHex(keyHex).Some?
    ensures |FromHex(signatureHex).value| in {64, 68, 69, 70, 71, 72}
    ensures var key := FromHex(keyHex).value;
            (|key| == 65 && key[0] == 4) || (|key| == 33 && (key[0] == 2 || key[0] == 3))
  {
    hide FromHex, FromBigEndian, DecompressY;
  }

  // ----- Fallback recovery

  /** r and s of a 64-byte or DER signature; None where the code gives up. */
  function ParseSignature(lib: Library, signatureHex: string): Option<(int, int)> {
    match FromHex(signatureHex)
    case None => None
    case Some(sig) =>
      if |sig| == 64 then Some((FromBigEndian(sig[..32]), FromBigEndian(sig[32..])))
      else if 68 <= |sig| <= 72 then lib.decodeDss(sig)
      else None
  }

  function CandidateX(r: int, v: nat, n: nat, p: nat): (x: nat)
    requires p > 0
    ensures x < p
  {
    (r + v * n) % p
  }

  /** The y coordinates the search tries for x, in its order. */
  function CandidateYs(x: nat, p: nat): seq<nat>
    requires p > 0
  {
    var z := YSquared(x, p);
    if PowMod(z, (p - 1) / 2, p) != 1 then []
    else var y := PowMod(z, (p + 1) / 4, p); [y, p - y]
  }

  ghost predicate Accepted(p: nat, lib: Library, message: seq<Byte>, signatureHex: string, x: nat, y: nat)
    requires p > 0
  {
    VerifySimple(p, lib, message, signatureHex, UncompressedHex(x, y))
  }

  /** For a prime p the search tries exactly the curve points over x (y = 0 aside). */
  lemma CandidatesAreThePoints(x: nat, y: nat, p: nat)
    requires IsPrime(p) && p % 4 == 3 && x < p
    ensures y in CandidateYs(x, p) <==> y > 0 && OnCurve(x, y, p)
  {
    hide YSquared, PowMod, Congruent, IsPrime;
    Exponents(p);
    var z, q, h := YSquared(x, p), (p + 1) / 4, (p - 1) / 2;
    var r := PowMod(z, q, p);
    OnCurveByYSquared(x, y, p);
    if PowMod(z, h, p) == 1 {
      RootFromTest(z, q, h, p);
      CongruentSymmetric(r * r, z, p);
      NegatedRoot(r, z, p);
    }
    if y > 0 && OnCurve(x, y, p) {
      EulerOfSquare(y, z, h, p);
      RootOfSquare(y, z, q, h, p);
    }
  }

  /** Decompression of a candidate gives the candidate back; p need not be prime for this. */
  lemma CandidateDecompresses(x: nat, y: nat, p: nat)
    requires p % 4 == 3 && y in CandidateYs(x, p)
    ensures 0 < y < p && DecompressY(ParityPrefix(y), x, p) == y
  {
    hide YSquared, PowMod, Congruent, DecompressY, ParityPrefix;
    Exponents(p);
    RootFromTest(YSquared(x, p), (p + 1) / 4, (p - 1) / 2, p);
    ParityPicks(x, y, p);
  }

  /** No candidate over x is accepted. */
  ghost predicate NoneAccepted(p: nat, lib: Library, message: seq<Byte>, signatureHex: string, x: nat)
    requires p > 0
  {
    forall y :: y in CandidateYs(x, p) ==> !Accepted(p, lib, message, signatureHex, x, y)
  }

  lemma NoCandidates(p: nat, lib: Library, message: seq<Byte>, signatureHex: string, x: nat)
    requires p > 0 && PowMod(YSquared(x, p), (p - 1) / 2, p) != 1
    ensures NoneAccepted(p, lib, message, signatureHex, x)
  {
    hide YSquared, PowMod, Accepted;
  }

  /** The inner loop: the first y candidate over x whose uncompressed key verifies. */
  method TryCandidates(p: nat, lib: Library, message: seq<Byte>, signatureHex: string, x: nat)
    returns (found: Option<nat>)
    requires FieldShape(p) && x < p && PowMod(YSquared(x, p), (p - 1) / 2, p) == 1
    ensures found.None? ==> NoneAccepted(p, lib, message, signatureHex, x)
    ensures found.Some? ==> found.value in CandidateYs(x, p) && Accepted(p, lib, message, signatureHex, x, found.value)
  {
    hide YSquared, PowMod, VerifySimple, DecompressY, UncompressedHex;
    var root := PowMod(YSquared(x, p), (p + 1) / 4, p);
    var candidates := [root, p - root];
    assert candidates == CandidateYs(x, p);
    hide CandidateYs, FieldShape;
    for i := 0 to 2
      invariant forall j :: 0 <= j < i ==> !Accepted(p, lib, message, signatureHex, x, candidates[j])
    {
      var y := candidates[i];
      UnloadableIsRefused(p, lib, message, signatureHex, x, y);
      if lib.loads(x, y) && VerifySimple(p, lib, message, signatureHex, UncompressedHex(x, y)) {
        return Some(y);
      }
    }
    return None;
  }

  lemma UnloadableIsRefused(p: nat, lib: Library, message: seq<Byte>, signatureHex: string, x: nat, y: nat)
    requires FieldShape(p) && x < p && y in CandidateYs(x, p)
    ensures !lib.loads(x, y) ==> !Accepted(p, lib, message, signatureHex, x, y)
  {
    hide CandidateYs, VerifySimple, DecompressY;
    CandidateDecompresses(x, y, p);
    SameDecompressionVerifiesAlike(p, lib, message, signatureHex, x, y);
  }

  lemma AcceptedCandidateCompresses(p: nat, lib: Library, message: seq<Byte>, signatureHex: string, x: nat, y: nat)
    requires FieldShape(p) && x < p && y in CandidateYs(x, p) && Accepted(p, lib, message, signatureHex, x, y)
    ensures VerifySimple(p, lib, message, signatureHex, CompressedHex(x, y))
  {
    hide CandidateYs, VerifySimple, DecompressY, CompressedHex, UncompressedHex;
    CandidateDecompresses(x, y, p);
    SameDecompressionVerifiesAlike(p, lib, message, signatureHex, x, y);
  }

  /** No candidate is accepted for a recovery id below v. */
  ghost predicate NoneBelow(p: nat, n: nat, lib: Library, message: seq<Byte>, signatureHex: string, r: int, v: nat)
    requires p > 0
  {
    forall u :: 0 <= u < v ==> NoneAccepted(p, lib, message, signatureHex, CandidateX(r, u, n, p))
  }

  /** What the fallback search may return for r: the first recovery id with an accepted candidate, or nothing. */
  ghost predicate Recovered(p: nat, n: nat, lib: Library, message: seq<Byte>, signatureHex: string, r: int,
                            result: Option<(string, nat)>)
    requires p > 0
  {
    match result
    case None => NoneBelow(p, n, lib, message, signatureHex, r, 4)
    case Some((key, v)) =>
      var x := CandidateX(r, v, n, p);
      && v < 4 && NoneBelow(p, n, lib, message, signatureHex, r, v)
      && exists y :: y in CandidateYs(x, p) && key == CompressedHex(x, y) &&
                     Accepted(p, lib, message, signatureHex, x, y)
  }

  lemma FoundIsRecovered(p: nat, n: nat, lib: Library, message: seq<Byte>, signatureHex: string, r: int, v: nat, y: nat)
    requires FieldShape(p) && v < 4 && NoneBelow(p, n, lib, message, signatureHex, r, v)
    requires y in CandidateYs(CandidateX(r, v, n, p), p)
    requires Accepted(p, lib, message, signatureHex, CandidateX(r, v, n, p), y)
    ensures var key := CompressedHex(CandidateX(r, v, n, p), y);
            Recovered(p, n, lib, message, signatureHex, r, Some((key, v))) &&
            VerifySimple(p, lib, message, signatureHex, key)
  {
    hide VerifySimple, CompressedHex, Accepted, NoneBelow, CandidateYs, CandidateX;
    AcceptedCandidateCompresses(p, lib, message, signatureHex, CandidateX(r, v, n, p), y);
  }

  /** The outer loop over the recovery ids, with its early return. */
  method SearchRecoveryIds(p: nat, n: nat, lib: Library, message: seq<Byte>, signatureHex: string, r: int)
    returns (result: Option<(string, nat)>)
    requires FieldShape(p)
    ensures Recovered(p, n, lib, message, signatureHex, r, result)
    ensures result.Some? ==> VerifySimple(p, lib, message, signatureHex, result.value.0)
  {
    hide YSquared, PowMod, VerifySimple, CompressedHex, Accepted, NoneAccepted, CandidateYs, CandidateX;
    for v := 0 to 4
      invariant NoneBelow(p, n, lib, message, signatureHex, r, v)
    {
      var x := CandidateX(r, v, n, p);
      if PowMod(YSquared(x, p), (p - 1) / 2, p) != 1 {
        NoCandidates(p, lib, message, signatureHex, x);
        continue;
      }
      var y := TryCandidates(p, lib, message, signatureHex, x);
      if y.Some? {
        FoundIsRecovered(p, n, lib, message, signatureHex, r, v, y.value);
        return Some((CompressedHex(x, y.value), v));
      }
    }
    return None;
  }

  /**
    recover_public_key_from_signature without coincurve: the signature is parsed and searched for.
    The compressed key it returns verifies the same signature. It need not be the signer's key.
   */
  method RecoverFallback(p: nat, n: nat, lib: Library, message: seq<Byte>, signatureHex: string)
    returns (result: Option<(string, nat)>)
    requires FieldShape(p)
    ensures match ParseSignature(lib, signatureHex)
            case None => result.None?
            case Some((r, s)) => Recovered(p, n, lib, message, signatureHex, r, result)
    ensures result.Some? ==> VerifySimple(p, lib, message, signatureHex, result.value.0)
  {
    hide ParseSignature, VerifySimple, Recovered, FieldShape;
    var parsed := ParseSignature(lib, signatureHex);
    if parsed.None? {
      return None;
    }
    result := SearchRecoveryIds(p, n, lib, message, signatureHex, parsed.value.0);
  }

  /** What is searched for: r and s of a raw signature, those of a DER text, and nothing of any other length. */
  lemma ParsedSignature(lib: Library, r: nat, s: nat, signatureHex: string)
    requires r < TWO_256 && s < TWO_256
    ensures ParseSignature(lib, RawHex(r, s)) == Some((r, s))
    ensures FromHex(signatureHex).Some? && 68 <= |FromHex(signatureHex).value| <= 72 ==>
              ParseSignature(lib, signatureHex) == lib.decodeDss(FromHex(signatureHex).value)
    ensures FromHex(signatureHex).None? || |FromHex(signatureHex).value| !in {64, 68, 69, 70, 71, 72} ==>
              ParseSignature(lib, signatureHex).None?
  {
    hide FromHex, FromBigEndian, Hex64;
    Hex64RoundTrip(r);
    Hex64RoundTrip(s);
    FromHexConcat(Hex64(r), Hex64(s));
    var rs, ss := FromHex(Hex64(r)).value, FromHex(Hex64(s)).value;
    assert (rs + ss)[..32] == rs && (rs + ss)[32..] == ss;
  }

  /** A curve point over the abscissa (r + v * n) modulo p whose compressed key verifies. */
  ghost predicate VerifyingPoint(p: nat, n: nat, lib: Library, message: seq<Byte>, signatureHex: string, r: int,
                                 v: nat, y: nat)
    requires p > 0
  {
    y > 0 && OnCurve((r + v * n) % p, y, p) &&
    VerifySimple(p, lib, message, signatureHex, CompressedHex((r + v * n) % p, y))
  }

  lemma AcceptedIffVerifying(p: nat, n: nat, lib: Library, message: seq<Byte>, signatureHex: string, r: int,
                             v: nat, y: nat)
    requires IsPrime(p) && FieldShape(p)
    ensures y in CandidateYs(CandidateX(r, v, n, p), p) &&
            Accepted(p, lib, message, signatureHex, CandidateX(r, v, n, p), y)
       <==> VerifyingPoint(p, n, lib, message, signatureHex, r, v, y)
  {
    hide CandidateYs, OnCurve, VerifySimple, CompressedHex, UncompressedHex, IsPrime;
    var x := CandidateX(r, v, n, p);
    CandidatesAreThePoints(x, y, p);
    if y > 0 && OnCurve(x, y, p) {
      OnCurveBelow(x, y, p);
      FormsVerifyAlike(p, lib, message, signatureHex, x, y);
    }
  }

  lemma OnCurveBelow(x: nat, y: nat, p: nat)
    requires OnCurve(x, y, p) && p < TWO_256
    ensures x < TWO_256 && y < TWO_256
  {
  }

  lemma NoneBelowIff(p: nat, n: nat, lib: Library, message: seq<Byte>, signatureHex: string, r: int, v: nat)
    requires IsPrime(p) && FieldShape(p)
    ensures NoneBelow(p, n, lib, message, signatureHex, r, v)
       <==> forall u: nat, y: nat :: u < v ==> !VerifyingPoint(p, n, lib, message, signatureHex, r, u, y)
  {
    hide CandidateYs, Accepted, CandidateX, VerifyingPoint, IsPrime;
    forall u: nat, y: nat
      ensures y in CandidateYs(CandidateX(r, u, n, p), p) &&
              Accepted(p, lib, message, signatureHex, CandidateX(r, u, n, p), y)
         <==> VerifyingPoint(p, n, lib, message, signatureHex, r, u, y)
    {
      AcceptedIffVerifying(p, n, lib, message, signatureHex, r, u, y);
    }
  }

  /**
    What the search returns, for a prime p: key and v exactly if v below 4 is the first recovery id
    with a curve point over (r + v * n) modulo p whose compressed key verifies, and key is that of
    one such point; nothing exactly if no v below 4 has one.
   */
  lemma RecoveredIff(p: nat, n: nat, lib: Library, message: seq<Byte>, signatureHex: string, r: int,
                     key: string, v: nat)
    requires IsPrime(p) && FieldShape(p)
    ensures Recovered(p, n, lib, message, signatureHex, r, Some((key, v)))
       <==> && v < 4
            && (forall u: nat, y: nat :: u < v ==> !VerifyingPoint(p, n, lib, message, signatureHex, r, u, y))
            && exists y: nat :: key == CompressedHex((r + v * n) % p, y) &&
                                VerifyingPoint(p, n, lib, message, signatureHex, r, v, y)
    ensures Recovered(p, n, lib, message, signatureHex, r, None)
       <==> forall u: nat, y: nat :: u < 4 ==> !VerifyingPoint(p, n, lib, message, signatureHex, r, u, y)
  {
    NoneBelowIff(p, n, lib, message, signatureHex, r, v);
    NoneBelowIff(p, n, lib, message, signatureHex, r, 4);
    hide CandidateYs, Accepted, CompressedHex, VerifyingPoint, NoneBelow, IsPrime;
    forall y: nat
      ensures y in CandidateYs(CandidateX(r, v, n, p), p) &&
              Accepted(p, lib, message, signatureHex, CandidateX(r, v, n, p), y)
         <==> VerifyingPoint(p, n, lib, message, signatureHex, r, v, y)
    {
      AcceptedIffVerifying(p, n, lib, message, signatureHex, r, v, y);
    }
  }

  /** For a prime p, an empty search means that no curve point over the four abscissas verifies. */
  lemma NothingRecoveredIff(p: nat, n: nat, lib: Library, message: seq<Byte>, signatureHex: string, r: int)
    requires IsPrime(p) && FieldShape(p)
    ensures Recovered(p, n, lib, message, signatureHex, r, None)
       <==> forall v, y: nat :: 0 <= v < 4 && y > 0 && OnCurve(CandidateX(r, v, n, p), y, p) ==>
              !VerifySimple(p, lib, message, signatureHex, CompressedHex(CandidateX(r, v, n, p), y))
  {
    hide CandidateYs, OnCurve, VerifySimple, CompressedHex, UncompressedHex, CandidateX, IsPrime;
    forall v: nat, y: nat | v < 4
      ensures y in CandidateYs(CandidateX(r, v, n, p), p) <==> y > 0 && OnCurve(CandidateX(r, v, n, p), y, p)
      ensures y in CandidateYs(CandidateX(r, v, n, p), p) ==>
                (Accepted(p, lib, message, signatureHex, CandidateX(r, v, n, p), y)
                 <==> VerifySimple(p, lib, message, signatureHex, CompressedHex(CandidateX(r, v, n, p), y)))
    {
      var x := CandidateX(r, v, n, p);
      CandidatesAreThePoints(x, y, p);
      if y > 0 && OnCurve(x, y, p) { FormsVerifyAlike(p, lib, message, signatureHex, x, y); }
    }
  }
}
