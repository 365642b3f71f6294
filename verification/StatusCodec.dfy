/**
  `encode_bitstring` and `decode_bitstring` of api/bitstring_status_list.py: GZIP, then base64url
  with the padding stripped (sections 5 and 3.2 of RFC 4648) and restored before decoding.
  The form has no multibase prefix. GZIP is a library, so it enters as the record `Gzip`.
 */
module StatusCodec {
  import opened Common

  datatype Gzip = Gzip(compress: seq<bv8> -> seq<Byte>, decompress: seq<Byte> -> Option<seq<bv8>>)

  /** Decompression undoes compression. */
  ghost predicate Lossless(gzip: Gzip) {
    forall raw :: gzip.decompress(gzip.compress(raw)) == Some(raw)
  }

  // ----- The alphabet of Table 2 in section 5 of RFC 4648

  function ToChar(v: nat): char
    requires v < 64
  {
    if v < 26 then ('A' as int + v) as char
    else if v < 52 then ('a' as int + v - 26) as char
    else if v < 62 then ('0' as int + v - 52) as char
    else if v == 62 then '-' else '_'
  }

  /** The value of a character after urlsafe_b64decode has translated '-' and '_'; None outside the alphabet. */
  function FromChar(c: char): (v: Option<nat>)
    ensures v.Some? ==> v.value < 64
  {
    if 'A' <= c <= 'Z' then Some(c as int - 'A' as int)
    else if 'a' <= c <= 'z' then Some(c as int - 'a' as int + 26)
    else if '0' <= c <= '9' then Some(c as int - '0' as int + 52)
    else if c == '-' || c == '+' then Some(62)
    else if c == '_' || c == '/' then Some(63)
    else None
  }

  lemma CharRoundTrip(v: nat)
    requires v < 64
    ensures FromChar(ToChar(v)) == Some(v) && ToChar(v) != '=' && (ToChar(v) as int) < 128
  {
  }

  /** The characters of Table 2 in section 5 of RFC 4648. */
  predicate UrlAlphabet(c: char) {
    'A' <= c <= 'Z' || 'a' <= c <= 'z' || '0' <= c <= '9' || c == '-' || c == '_'
  }

  /** Their order: the three ranges in a row, each in the order of its characters, and then "-" and "_". */
  lemma AlphabetOfRfc(v: nat)
    requires v < 64
    ensures UrlAlphabet(ToChar(v))
    ensures ToChar(0) == 'A' && ToChar(25) == 'Z' && ToChar(26) == 'a' && ToChar(51) == 'z'
    ensures ToChar(52) == '0' && ToChar(61) == '9' && ToChar(62) == '-' && ToChar(63) == '_'
    ensures v !in {25, 51, 61, 62, 63} ==> ToChar(v + 1) as int == ToChar(v) as int + 1
  {
  }

  /** The decoder also takes the two characters of the standard alphabet, and no others. */
  lemma FromCharIff(c: char)
    ensures FromChar(c).Some? <==> UrlAlphabet(c) || c == '+' || c == '/'
    ensures FromChar('+') == FromChar('-') && FromChar('/') == FromChar('_')
  {
  }

  // ----- Encoding

  /** urlsafe_b64encode, padding included. */
  function B64Encode(bs: seq<Byte>): string {
    if bs == [] then ""
    else if |bs| == 1 then [ToChar(bs[0] / 4), ToChar(bs[0] % 4 * 16), '=', '=']
    else if |bs| == 2 then
      [ToChar(bs[0] / 4), ToChar(bs[0] % 4 * 16 + bs[1] / 16), ToChar(bs[1] % 16 * 4), '=']
    else
      [ToChar(bs[0] / 4), ToChar(bs[0] % 4 * 16 + bs[1] / 16), ToChar(bs[1] % 16 * 4 + bs[2] / 64), ToChar(bs[2] % 64)]
      + B64Encode(bs[3..])
  }

  /** rstrip("=") */
  function StripPadding(s: string): string {
    if s != [] && s[|s| - 1] == '=' then StripPadding(s[..|s| - 1]) else s
  }

  function Pad(n: nat): (s: string)
    ensures |s| == n && forall i :: 0 <= i < n ==> s[i] == '='
  {
    seq(n, _ => '=')
  }

  /** `encoded + "=" * (4 - len % 4) if len % 4 else encoded` */
  function RestorePadding(s: string): string {
    if |s| % 4 == 0 then s else s + Pad(4 - |s| % 4)
  }

  // ----- Decoding

  /**
    b64decode on the translated text, one character at a time: quad counts the characters of the
    current group, left holds the bits not yet emitted. Characters outside the alphabet are
    skipped; enough padding ends the input; None is the error of an incomplete last group.
   */
  function B64Decode(s: string, quad: nat, left: nat, pads: nat): Option<seq<Byte>>
    requires quad < 4 && left < 64 && (quad == 2 ==> left < 16) && (quad == 3 ==> left < 4)
    decreases |s|
  {
    if s == [] then (if quad == 0 then Some([]) else None)
    else if s[0] == '=' then
      if quad < 2 then B64Decode(s[1..], quad, left, pads)
      else if quad + pads + 1 >= 4 then Some([])
      else B64Decode(s[1..], quad, left, pads + 1)
    else match FromChar(s[0])
      case None => B64Decode(s[1..], quad, left, pads)
      case Some(v) =>
        if quad == 0 then B64Decode(s[1..], 1, v, 0)
        else if quad == 1 then Emit(left * 4 + v / 16, B64Decode(s[1..], 2, v % 16, 0))
        else if quad == 2 then Emit(left * 16 + v / 4, B64Decode(s[1..], 3, v % 4, 0))
        else Emit(left * 64 + v, B64Decode(s[1..], 0, 0, 0))
  }

  function Emit(b: Byte, rest: Option<seq<Byte>>): Option<seq<Byte>> {
    if rest.None? then None else Some([b] + rest.value)
  }

  lemma DecodeChar(v: nat, s: string, quad: nat, left: nat, pads: nat)
    requires v < 64 && quad < 4 && left < 64 && (quad == 2 ==> left < 16) && (quad == 3 ==> left < 4)
    ensures B64Decode([ToChar(v)] + s, quad, left, pads)
         == if quad == 0 then B64Decode(s, 1, v, 0)
            else if quad == 1 then Emit(left * 4 + v / 16, B64Decode(s, 2, v % 16, 0))
            else if quad == 2 then Emit(left * 16 + v / 4, B64Decode(s, 3, v % 4, 0))
            else Emit(left * 64 + v, B64Decode(s, 0, 0, 0))
  {
    CharRoundTrip(v);
    assert ([ToChar(v)] + s)[1..] == s;
  }

  /** The six-bit pieces of three bytes put together again. */
  lemma PiecesFit(a: Byte, b: Byte, c: Byte)
    ensures var v1, v2 := a % 4 * 16 + b / 16, b % 16 * 4 + c / 64;
            v1 < 64 && v2 < 64 && a / 4 * 4 + v1 / 16 == a && v1 % 16 * 16 + v2 / 4 == b && v2 % 4 * 64 + c % 64 == c
  {
  }

  /** Three bytes make one full group. */
  lemma DecodeGroup(a: Byte, b: Byte, c: Byte, s: string)
    ensures B64Decode([ToChar(a / 4), ToChar(a % 4 * 16 + b / 16), ToChar(b % 16 * 4 + c / 64), ToChar(c % 64)] + s,
                      0, 0, 0)
         == Emit(a, Emit(b, Emit(c, B64Decode(s, 0, 0, 0))))
  {
    hide B64Decode, ToChar, Emit;
    PiecesFit(a, b, c);
    var v1, v2, v3 := a % 4 * 16 + b / 16, b % 16 * 4 + c / 64, c % 64;
    var s3 := [ToChar(v3)] + s;
    var s2 := [ToChar(v2)] + s3;
    var s1 := [ToChar(v1)] + s2;
    assert [ToChar(a / 4), ToChar(v1), ToChar(v2), ToChar(v3)] + s == [ToChar(a / 4)] + s1;
    DecodeChar(a / 4, s1, 0, 0, 0);
    DecodeChar(v1, s2, 1, a / 4, 0);
    DecodeChar(v2, s3, 2, v1 % 16, 0);
    DecodeChar(v3, s, 3, v2 % 4, 0);
  }

  lemma DecodeOneByte(a: Byte)
    ensures B64Decode([ToChar(a / 4), ToChar(a % 4 * 16), '=', '='], 0, 0, 0) == Some([a])
  {
    var v1 := a % 4 * 16;
    var s1 := [ToChar(v1), '=', '='];
    assert B64Decode(['=', '='], 2, 0, 0) == Some([]) by {
      assert ['=', '='][1..] == ['='];
      assert B64Decode(['='], 2, 0, 1) == Some([]);
    }
    hide B64Decode, ToChar;
    assert [ToChar(a / 4), ToChar(v1), '=', '='] == [ToChar(a / 4)] + s1;
    assert s1 == [ToChar(v1)] + ['=', '='];
    DecodeChar(a / 4, s1, 0, 0, 0);
    DecodeChar(v1, ['=', '='], 1, a / 4, 0);
    assert [a] + [] == [a];
  }

  lemma DecodeTwoBytes(a: Byte, b: Byte)
    ensures B64Decode([ToChar(a / 4), ToChar(a % 4 * 16 + b / 16), ToChar(b % 16 * 4), '='], 0, 0, 0) == Some([a, b])
  {
    var v1, v2 := a % 4 * 16 + b / 16, b % 16 * 4;
    assert B64Decode(['='], 3, 0, 0) == Some([]);
    PiecesFit(a, b, 0);
    hide B64Decode, ToChar;
    var s2 := [ToChar(v2)] + ['='];
    var s1 := [ToChar(v1)] + s2;
    assert [ToChar(a / 4), ToChar(v1), ToChar(v2), '='] == [ToChar(a / 4)] + s1;
    DecodeChar(a / 4, s1, 0, 0, 0);
    DecodeChar(v1, s2, 1, a / 4, 0);
    DecodeChar(v2, ['='], 2, v1 % 16, 0);
    assert [b] + [] == [b] && [a] + [b] == [a, b];
  }

  lemma EncodeGroup(bs: seq<Byte>)
    requires |bs| >= 3
    ensures B64Encode(bs) ==
              [ToChar(bs[0] / 4), ToChar(bs[0] % 4 * 16 + bs[1] / 16),
               ToChar(bs[1] % 16 * 4 + bs[2] / 64), ToChar(bs[2] % 64)]
              + B64Encode(bs[3..])
  {
    hide ToChar;
  }

  lemma DecodeNothing()
    ensures B64Decode([], 0, 0, 0) == Some([])
  {
  }

  lemma DecodeShort(bs: seq<Byte>)
    requires |bs| <= 2
    ensures B64Decode(B64Encode(bs), 0, 0, 0) == Some(bs)
  {
    DecodeNothing();
    hide B64Decode, ToChar;
    if |bs| == 1 {
      DecodeOneByte(bs[0]);
      assert bs == [bs[0]];
    } else if |bs| == 2 {
      DecodeTwoBytes(bs[0], bs[1]);
      assert bs == [bs[0], bs[1]];
    }
  }

  /** Decoding undoes encoding, padding included. */
  lemma {:induction false} DecodeEncoded(bs: seq<Byte>)
    ensures B64Decode(B64Encode(bs), 0, 0, 0) == Some(bs)
  {
    hide B64Decode, B64Encode, ToChar;
    if |bs| <= 2 {
      DecodeShort(bs);
    } else {
      DecodeEncoded(bs[3..]);
      EncodeGroup(bs);
      DecodeGroup(bs[0], bs[1], bs[2], B64Encode(bs[3..]));
      EmitThree(bs);
    }
  }

  lemma EmitThree(bs: seq<Byte>)
    requires |bs| >= 3
    ensures Emit(bs[0], Emit(bs[1], Emit(bs[2], Some(bs[3..])))) == Some(bs)
  {
    assert [bs[0]] + ([bs[1]] + ([bs[2]] + bs[3..])) == bs;
  }

  // ----- Padding

  lemma StripSuffix(s: string, n: nat)
    requires s == [] || s[|s| - 1] != '='
    ensures StripPadding(s + Pad(n)) == s
  {
    var t := s + Pad(n);
    if n > 0 {
      assert t[..|t| - 1] == s + Pad(n - 1);
      StripSuffix(s, n - 1);
    } else {
      assert t == s;
    }
  }

  /** Characters of the alphabet only: ASCII, and no padding among them. */
  predicate Unpadded(body: string) {
    forall i :: 0 <= i < |body| ==> body[i] != '=' && (body[i] as int) < 128
  }

  lemma ToCharUnpadded()
    ensures forall v :: 0 <= v < 64 ==> ToChar(v) != '=' && (ToChar(v) as int) < 128
  {
    forall v | 0 <= v < 64 ensures ToChar(v) != '=' && (ToChar(v) as int) < 128 { CharRoundTrip(v); }
  }

  lemma ShortShape(bs: seq<Byte>) returns (body: string, n: nat)
    requires |bs| <= 2
    ensures B64Encode(bs) == body + Pad(n) && n <= 2 && (|body| + n) % 4 == 0 && Unpadded(body)
    ensures 3 * |body| == 4 * |bs| + n
  {
    ToCharUnpadded();
    hide ToChar;
    if bs == [] {
      body, n := [], 0;
    } else if |bs| == 1 {
      body, n := [ToChar(bs[0] / 4), ToChar(bs[0] % 4 * 16)], 2;
    } else {
      body, n := [ToChar(bs[0] / 4), ToChar(bs[0] % 4 * 16 + bs[1] / 16), ToChar(bs[1] % 16 * 4)], 1;
    }
  }

  /** An encoding is a text without '=' followed by at most two '=', and its length is a multiple of 4. */
  lemma {:induction false} EncodedShape(bs: seq<Byte>) returns (body: string, n: nat)
    ensures B64Encode(bs) == body + Pad(n) && n <= 2 && (|body| + n) % 4 == 0 && Unpadded(body)
    ensures 3 * |body| == 4 * |bs| + n
  {
    hide B64Encode, ToChar;
    if |bs| <= 2 {
      body, n := ShortShape(bs);
    } else {
      ToCharUnpadded();
      var rest, m := EncodedShape(bs[3..]);
      var group := [ToChar(bs[0] / 4), ToChar(bs[0] % 4 * 16 + bs[1] / 16),
                    ToChar(bs[1] % 16 * 4 + bs[2] / 64), ToChar(bs[2] % 64)];
      body, n := group + rest, m;
      EncodeGroup(bs);
      assert group + (rest + Pad(m)) == body + Pad(m);
    }
  }

  /** Stripping and restoring the padding is lossless, and a stripped text never has length 1 modulo 4. */
  lemma PaddingRoundTrip(bs: seq<Byte>)
    ensures RestorePadding(StripPadding(B64Encode(bs))) == B64Encode(bs)
    ensures |StripPadding(B64Encode(bs))| % 4 != 1
    ensures IsAscii(StripPadding(B64Encode(bs)))
  {
    var body, n := EncodedShape(bs);
    hide B64Encode, StripPadding;
    StripSuffix(body, n);
    assert n == 0 ==> body + Pad(0) == body;
  }

  // ----- The codec

  function EncodeBitstring(gzip: Gzip, raw: seq<bv8>): string {
    StripPadding(B64Encode(gzip.compress(raw)))
  }

  predicate IsAscii(s: string) {
    forall i :: 0 <= i < |s| ==> (s[i] as int) < 128
  }

  /** decode_bitstring; None stands for its ValueError. */
  function DecodeBitstring(gzip: Gzip, encoded: string): Option<seq<bv8>> {
    if !IsAscii(encoded) then None
    else
      match B64Decode(RestorePadding(encoded), 0, 0, 0)
      case None => None
      case Some(compressed) => gzip.decompress(compressed)
  }

  /** The codec loses nothing when GZIP loses nothing. */
  lemma CodecRoundTrip(gzip: Gzip, raw: seq<bv8>)
    requires Lossless(gzip)
    ensures DecodeBitstring(gzip, EncodeBitstring(gzip, raw)) == Some(raw)
  {
    PaddingRoundTrip(gzip.compress(raw));
    DecodeEncoded(gzip.compress(raw));
  }

  /** The encoded form: characters of the URL alphabet, and as few as hold the bits, six in each. */
  lemma EncodedText(gzip: Gzip, raw: seq<bv8>)
    ensures forall i :: 0 <= i < |EncodeBitstring(gzip, raw)| ==> UrlAlphabet(EncodeBitstring(gzip, raw)[i])
    ensures |EncodeBitstring(gzip, raw)| == (8 * |gzip.compress(raw)| + 5) / 6
  {
    var bs := gzip.compress(raw);
    var body, n := EncodedShape(bs);
    EncodedAlphabet(bs);
    hide B64Encode, StripPadding, UrlAlphabet;
    StripSuffix(body, n);
    assert forall i :: 0 <= i < |body| ==> B64Encode(bs)[i] == body[i];
  }

  lemma {:induction false} EncodedAlphabet(bs: seq<Byte>)
    ensures forall i :: 0 <= i < |B64Encode(bs)| ==> UrlAlphabet(B64Encode(bs)[i]) || B64Encode(bs)[i] == '='
  {
    forall v | 0 <= v < 64 ensures UrlAlphabet(ToChar(v)) { AlphabetOfRfc(v); }
    hide ToChar, UrlAlphabet;
    if |bs| >= 3 {
      EncodedAlphabet(bs[3..]);
      EncodeGroup(bs);
      hide B64Encode;
    }
  }

  // ----- Malformed texts

  /** Text that is not ASCII is an error. */
  lemma NotAsciiIsError(gzip: Gzip, encoded: string, i: nat)
    requires i < |encoded| && encoded[i] as int >= 128
    ensures DecodeBitstring(gzip, encoded).None?
  {
  }

  /** The decoder's state before a character of a group. */
  predicate Fits(quad: nat, left: nat) {
    quad < 4 && left < 64 && (quad == 2 ==> left < 16) && (quad == 3 ==> left < 4)
  }

  /** The bits left over after one more character of a group. */
  function LeftAfter(v: nat, quad: nat): nat {
    if quad == 0 then v else if quad == 1 then v % 16 else if quad == 2 then v % 4 else 0
  }

  /** Two texts with the same first character decode alike if what follows decodes alike in every state. */
  lemma FirstCharacterSame(s: string, t: string, quad: nat, left: nat, pads: nat)
    requires s != [] && t != [] && s[0] == t[0]
    requires quad < 4 && left < 64 && (quad == 2 ==> left < 16) && (quad == 3 ==> left < 4)
    requires forall q: nat, l: nat, p: nat :: Fits(q, l) ==>
               B64Decode(s[1..], q, l, p) == B64Decode(t[1..], q, l, p)
    ensures B64Decode(s, quad, left, pads) == B64Decode(t, quad, left, pads)
  {
  }

  /** A character that is neither of an alphabet nor padding is skipped wherever it stands. */
  lemma {:induction false} DecodeSkips(s: string, c: char, t: string, quad: nat, left: nat, pads: nat)
    requires !UrlAlphabet(c) && c !in {'+', '/', '='}
    requires quad < 4 && left < 64 && (quad == 2 ==> left < 16) && (quad == 3 ==> left < 4)
    ensures B64Decode(s + [c] + t, quad, left, pads) == B64Decode(s + t, quad, left, pads)
    decreases |s|
  {
    if s == [] {
      FromCharIff(c);
      assert [] + [c] + t == [c] + t && [] + t == t && ([c] + t)[1..] == t;
    } else {
      hide UrlAlphabet, B64Decode;
      assert (s + [c] + t)[1..] == s[1..] + [c] + t && (s + t)[1..] == s[1..] + t;
      forall q: nat, l: nat, p: nat | Fits(q, l)
        ensures B64Decode(s[1..] + [c] + t, q, l, p) == B64Decode(s[1..] + t, q, l, p)
      {
        DecodeSkips(s[1..], c, t, q, l, p);
      }
      FirstCharacterSame(s + [c] + t, s + t, quad, left, pads);
    }
  }

  lemma {:induction false} PaddingDecodes(n: nat, quad: nat, left: nat, pads: nat)
    requires quad < 4 && left < 64 && (quad == 2 ==> left < 16) && (quad == 3 ==> left < 4)
    ensures B64Decode(Pad(n), quad, left, pads).Some? <==> quad == 0 || (quad >= 2 && n > 0 && quad + pads + n >= 4)
    decreases n
  {
    if n > 0 {
      assert Pad(n)[1..] == Pad(n - 1);
      PaddingDecodes(n - 1, quad, left, pads);
      PaddingDecodes(n - 1, quad, left, pads + 1);
    }
  }

  lemma CharacterDecodes(s: string, quad: nat, left: nat)
    requires s != [] && UrlAlphabet(s[0]) && Fits(quad, left)
    ensures FromChar(s[0]).Some? && Fits((quad + 1) % 4, LeftAfter(FromChar(s[0]).value, quad))
    ensures B64Decode(s, quad, left, 0).Some?
       <==> B64Decode(s[1..], (quad + 1) % 4, LeftAfter(FromChar(s[0]).value, quad), 0).Some?
  {
    FromCharIff(s[0]);
    hide FromChar;
  }

  predicate UrlText(s: string) {
    forall i :: 0 <= i < |s| ==> UrlAlphabet(s[i])
  }

  lemma NextInGroup(quad: nat, n: nat)
    requires n > 0
    ensures ((quad + 1) % 4 + (n - 1)) % 4 == (quad + n) % 4
  {
  }

  /**
    Characters of the alphabet followed by padding decode exactly if the last group is full, or has
    two or three characters and enough padding to fill it.
   */
  lemma {:induction false} AlphabetDecodes(s: string, n: nat, quad: nat, left: nat)
    requires UrlText(s) && Fits(quad, left)
    ensures var last := (quad + |s|) % 4;
            B64Decode(s + Pad(n), quad, left, 0).Some? <==> last == 0 || (last >= 2 && last + n >= 4)
    decreases |s|
  {
    if s == [] {
      assert [] + Pad(n) == Pad(n);
      PaddingDecodes(n, quad, left, 0);
    } else {
      hide B64Decode, FromChar, LeftAfter, UrlAlphabet, Pad;
      assert (s + Pad(n))[0] == s[0] && (s + Pad(n))[1..] == s[1..] + Pad(n);
      CharacterDecodes(s + Pad(n), quad, left);
      NextInGroup(quad, |s|);
      AlphabetDecodes(s[1..], n, (quad + 1) % 4, LeftAfter(FromChar(s[0]).value, quad));
    }
  }

  /** A stripped text of the alphabet decodes, up to GZIP, exactly if its length is not 1 modulo 4. */
  lemma StrippedDecodesIff(s: string)
    requires UrlText(s)
    ensures B64Decode(RestorePadding(s), 0, 0, 0).Some? <==> |s| % 4 != 1
  {
    AlphabetDecodes(s, if |s| % 4 == 0 then 0 else 4 - |s| % 4, 0, 0);
    assert s + Pad(0) == s;
  }
}
