/**
  Hexadecimal text and big-endian integers, as Python's `bytes.fromhex`, `int.from_bytes` and the
  format specification `064x` treat them.
 */
module Hex {
  import opened Common
  import opened NumberTheory

  const TWO_256: nat := 0x1_0000000000000000_0000000000000000_0000000000000000_0000000000000000

  predicate IsHexDigit(c: char) {
    '0' <= c <= '9' || 'a' <= c <= 'f' || 'A' <= c <= 'F'
  }

  function DigitValue(c: char): (d: nat)
    requires IsHexDigit(c)
    ensures d < 16
  {
    if '0' <= c <= '9' then c as int - '0' as int
    else if 'a' <= c <= 'f' then c as int - 'a' as int + 10
    else c as int - 'A' as int + 10
  }

  function DigitChar(d: nat): (c: char)
    requires d < 16
    ensures IsHexDigit(c) && DigitValue(c) == d
  {
    if d < 10 then ('0' as int + d) as char else ('a' as int + d - 10) as char
  }

  /** The ASCII whitespace that bytes.fromhex skips between two bytes. */
  predicate IsSpace(c: char) {
    c == ' ' || 9 <= c as int <= 13
  }

  /** bytes.fromhex; None stands for the ValueError it raises. */
  function FromHex(s: string): Option<seq<Byte>> {
    if s == [] then Some([])
    else if IsSpace(s[0]) then FromHex(s[1..])
    else if |s| >= 2 && IsHexDigit(s[0]) && IsHexDigit(s[1]) then
      match FromHex(s[2..])
      case None => None
      case Some(rest) => Some([16 * DigitValue(s[0]) + DigitValue(s[1])] + rest)
    else None
  }

  /** int.from_bytes(bs, 'big') */
  function FromBigEndian(bs: seq<Byte>): nat {
    if bs == [] then 0 else 256 * FromBigEndian(bs[..|bs| - 1]) + bs[|bs| - 1]
  }

  /** The format specification `x`: lower-case digits without leading zeros. */
  function ToHex(x: nat): (s: string)
    ensures AllHex(s)
  {
    if x < 16 then [DigitChar(x)] else ToHex(x / 16) + [DigitChar(x % 16)]
  }

  function Zeros(n: nat): (s: string)
    ensures |s| == n && AllHex(s)
  {
    seq(n, _ => '0')
  }

  /** The format specification `064x`: at least 64 digits, padded with zeros on the left. */
  function Hex64(x: nat): (s: string)
    ensures AllHex(s)
  {
    var digits := ToHex(x);
    if |digits| < 64 then Zeros(64 - |digits|) + digits else digits
  }

  // ----- The value of a digit string

  predicate AllHex(s: string) {
    forall i :: 0 <= i < |s| ==> IsHexDigit(s[i])
  }

  function HexValue(s: string): nat
    requires AllHex(s)
  {
    if s == [] then 0 else 16 * HexValue(s[..|s| - 1]) + DigitValue(s[|s| - 1])
  }

  lemma {:induction false} ToHexValue(x: nat)
    ensures HexValue(ToHex(x)) == x
  {
    var s := ToHex(x);
    if x < 16 {
      assert s[..0] == [];
    } else {
      ToHexValue(x / 16);
      assert s[..|s| - 1] == ToHex(x / 16);
    }
  }

  lemma {:induction false} ToHexLength(x: nat, n: nat)
    requires n > 0 && x < Pow(16, n)
    ensures |ToHex(x)| <= n
  {
    if x >= 16 {
      assert n > 1;
      ToHexLength(x / 16, n - 1);
    }
  }

  lemma {:induction false} LeadingZeros(n: nat, s: string)
    requires AllHex(s)
    ensures AllHex(Zeros(n) + s) && HexValue(Zeros(n) + s) == HexValue(s)
  {
    var t := Zeros(n) + s;
    if s == [] {
      if n == 0 {
      } else {
        assert t[..|t| - 1] == Zeros(n - 1) + s;
        LeadingZeros(n - 1, s);
      }
    } else {
      assert t[..|t| - 1] == Zeros(n) + s[..|s| - 1];
      LeadingZeros(n, s[..|s| - 1]);
    }
  }

  lemma PowOf16()
    ensures Pow(16, 64) == TWO_256
  {
    assert Pow(16, 8) == 0x1_0000_0000;
    PowAdd(16, 8, 8);
    PowAdd(16, 16, 16);
    PowAdd(16, 32, 32);
  }

  lemma Hex64Value(x: nat)
    requires x < TWO_256
    ensures |Hex64(x)| == 64 && HexValue(Hex64(x)) == x
  {
    PowOf16();
    ToHexLength(x, 64);
    ToHexValue(x);
    LeadingZeros(64 - |ToHex(x)|, ToHex(x));
    assert Zeros(0) + ToHex(x) == ToHex(x);
  }

  // ----- Reading the digits back

  /** Digit strings of even length are read independently of what follows them. */
  lemma {:induction false} FromHexConcat(s: string, t: string)
    requires AllHex(s) && |s| % 2 == 0
    ensures FromHex(s).Some?
    ensures FromHex(s + t) == match FromHex(t) case None => None case Some(rest) => Some(FromHex(s).value + rest)
  {
    if s == [] {
      assert s + t == t;
      assert FromHex(t).Some? ==> FromHex(s).value + FromHex(t).value == FromHex(t).value;
    } else {
      assert (s + t)[2..] == s[2..] + t;
      FromHexConcat(s[2..], t);
      var first: Byte := 16 * DigitValue(s[0]) + DigitValue(s[1]);
      var rest := FromHex(s[2..]).value;
      assert FromHex(t).Some? ==>
        ([first] + rest) + FromHex(t).value == [first] + (rest + FromHex(t).value);
    }
  }

  /** bytes.fromhex followed by int.from_bytes reads the value of the digits. */
  lemma {:induction false} FromHexValue(s: string)
    requires AllHex(s) && |s| % 2 == 0
    ensures FromHex(s).Some? && |FromHex(s).value| == |s| / 2 && FromBigEndian(FromHex(s).value) == HexValue(s)
  {
    if s == [] {
    } else {
      var front, last := s[..|s| - 2], s[|s| - 2..];
      FromHexValue(front);
      FromHexConcat(front, last);
      assert s == front + last;
      LastByte(last);
      ValueOfLastByte(s, front, last);
      hide FromHex, HexValue, DigitValue;
      var bs := FromHex(s).value;
      assert bs[..|bs| - 1] == FromHex(front).value;
    }
  }

  lemma LastByte(s: string)
    requires AllHex(s) && |s| == 2
    ensures FromHex(s) == Some([16 * DigitValue(s[0]) + DigitValue(s[1])])
  {
    assert s[2..] == [];
    assert FromHex(s[2..]) == Some([]);
    var b: Byte := 16 * DigitValue(s[0]) + DigitValue(s[1]);
    assert [b] + [] == [b];
  }

  lemma ValueOfLastByte(s: string, front: string, last: string)
    requires AllHex(s) && s == front + last && |last| == 2
    ensures AllHex(front) && AllHex(last)
    ensures HexValue(s) == 256 * HexValue(front) + 16 * DigitValue(last[0]) + DigitValue(last[1])
  {
    hide DigitValue;
    assert s[..|s| - 1][..|s| - 2] == front;
    forall i | 0 <= i < |front| ensures IsHexDigit(front[i]) { assert s[i] == front[i]; }
    forall i | 0 <= i < 2 ensures IsHexDigit(last[i]) { assert s[|front| + i] == last[i]; }
  }

  lemma {:induction false} BigEndianBelow(bs: seq<Byte>)
    ensures FromBigEndian(bs) < Pow(16, 2 * |bs|)
  {
    if bs != [] {
      BigEndianBelow(bs[..|bs| - 1]);
      assert Pow(16, 2 * |bs|) == 16 * (16 * Pow(16, 2 * |bs| - 2));
    }
  }

  /** Thirty-two bytes give a number below 2^256. */
  lemma BigEndianBound(bs: seq<Byte>)
    requires |bs| == 32
    ensures FromBigEndian(bs) < TWO_256
  {
    BigEndianBelow(bs);
    PowOf16();
  }

  /** 64-digit formatting and parsing are inverse below 2^256. */
  lemma Hex64RoundTrip(x: nat)
    requires x < TWO_256
    ensures |Hex64(x)| == 64
    ensures FromHex(Hex64(x)).Some? && |FromHex(Hex64(x)).value| == 32
    ensures FromBigEndian(FromHex(Hex64(x)).value) == x
  {
    Hex64Value(x);
    FromHexValue(Hex64(x));
  }

  /** The 64 digits are lower-case. */
  lemma Hex64IsLowerCase(x: nat)
    requires x < TWO_256
    ensures |Hex64(x)| == 64
    ensures forall i :: 0 <= i < 64 ==> '0' <= Hex64(x)[i] <= '9' || 'a' <= Hex64(x)[i] <= 'f'
  {
    Hex64Value(x);
    ToHexIsLowerCase(x);
  }

  lemma {:induction false} ToHexIsLowerCase(x: nat)
    ensures forall i :: 0 <= i < |ToHex(x)| ==> '0' <= ToHex(x)[i] <= '9' || 'a' <= ToHex(x)[i] <= 'f'
  {
    if x >= 16 {
      ToHexIsLowerCase(x / 16);
    }
  }

  /** bytes.fromhex reads a text without spaces exactly if it consists of an even number of hex digits. */
  lemma {:induction false} FromHexIff(s: string)
    requires forall i :: 0 <= i < |s| ==> s[i] != ' ' && !(9 <= s[i] as int <= 13)
    ensures FromHex(s).Some? <==> |s| % 2 == 0 && forall i :: 0 <= i < |s| ==>
              '0' <= s[i] <= '9' || 'a' <= s[i] <= 'f' || 'A' <= s[i] <= 'F'
  {
    if |s| >= 2 {
      FromHexIff(s[2..]);
      assert forall i :: 2 <= i < |s| ==> s[i] == s[2..][i - 2];
    }
  }

  /** Whitespace before a byte is skipped. */
  lemma FromHexSkips(c: char, s: string)
    requires c in {' ', '\t', '\n', '\r'} || c as int == 11 || c as int == 12
    ensures FromHex([c] + s) == FromHex(s)
  {
    assert ([c] + s)[1..] == s;
  }

  /** Upper-case digits have the values of lower-case ones. */
  lemma UpperCaseDigits(c: char)
    requires 'A' <= c <= 'F'
    ensures IsHexDigit(c) && DigitValue(c) == DigitValue((c as int + 32) as char) == c as int - 55
  {
  }
}
