/** utf8.EncodeRune and its inverse, as section 3 of RFC 3629 lays them out. */
module Utf8 {
  import opened Base

  const RUNE_ERROR := 0xFFFD
  const MAX_RUNE := 0x10FFFF

  predicate IsSurrogate(r: int) {
    0xD800 <= r <= 0xDFFF
  }

  /** A Unicode scalar value. */
  predicate IsScalar(r: int) {
    0 <= r <= MAX_RUNE && !IsSurrogate(r)
  }

  function EncodeRune(r: int): (e: seq<byte>)
    ensures 1 <= |e| <= 4
  {
    if 0 <= r <= 0x7F then [r]
    else if 0x80 <= r <= 0x7FF then [0xC0 + r / 0x40, 0x80 + r % 0x40]
    else
      var r := if IsScalar(r) then r else RUNE_ERROR;
      if r <= 0xFFFF then [0xE0 + r / 0x1000, 0x80 + r / 0x40 % 0x40, 0x80 + r % 0x40]
      else [0xF0 + r / 0x40000, 0x80 + r / 0x1000 % 0x40, 0x80 + r / 0x40 % 0x40, 0x80 + r % 0x40]
  }

  predicate IsTail(b: byte) {
    0x80 <= b <= 0xBF
  }

  /** The payload of an encoding byte with the given marker. */
  function Bits(b: byte, marker: int): int {
    b - marker
  }

  /** The scalar value at the head of s and its length, by the table in section 3 of RFC 3629; None
      if s does not begin with a shortest-form encoding. */
  function DecodeRune(s: seq<byte>): Option<(int, nat)> {
    if s == [] then None
    else if s[0] <= 0x7F then Some((s[0], 1))
    else if 0xC2 <= s[0] <= 0xDF && |s| >= 2 && IsTail(s[1]) then
      var r: int := Bits(s[0], 0xC0) * 0x40 + Bits(s[1], 0x80);
      Some((r, 2))
    else if 0xE0 <= s[0] <= 0xEF && |s| >= 3 && IsTail(s[1]) && IsTail(s[2]) then
      var r: int := Bits(s[0], 0xE0) * 0x1000 + Bits(s[1], 0x80) * 0x40 + Bits(s[2], 0x80);
      if r >= 0x800 && !IsSurrogate(r) then Some((r, 3)) else None
    else if 0xF0 <= s[0] <= 0xF4 && |s| >= 4 && IsTail(s[1]) && IsTail(s[2]) && IsTail(s[3]) then
      var r: int := Bits(s[0], 0xF0) * 0x40000 + Bits(s[1], 0x80) * 0x1000 + Bits(s[2], 0x80) * 0x40 + Bits(s[3], 0x80);
      if 0x10000 <= r <= MAX_RUNE then Some((r, 4)) else None
    else None
  }

  /** utf8.DecodeRune: U+FFFD of size 1 for an invalid encoding. */
  function DecodeNext(s: seq<byte>): (r: (int, nat))
    requires s != []
    ensures 1 <= r.1 <= |s|
  {
    match DecodeRune(s)
    case Some(p) => DecodedSize(s); p
    case None => (RUNE_ERROR, 1)
  }

  lemma DecodedSize(s: seq<byte>)
    ensures DecodeRune(s).Some? ==> 1 <= DecodeRune(s).value.1 <= |s|
  {
  }

  lemma Radix(r: nat)
    ensures r == r / 0x40 * 0x40 + r % 0x40
    ensures r / 0x40 == r / 0x1000 * 0x40 + r / 0x40 % 0x40
    ensures r / 0x1000 == r / 0x40000 * 0x40 + r / 0x1000 % 0x40
  {
    assert r / 0x40 / 0x40 == r / 0x1000;
    assert r / 0x1000 / 0x40 == r / 0x40000;
  }

  lemma EncodeDecode2(r: int, tail: seq<byte>)
    requires 0x80 <= r <= 0x7FF
    ensures DecodeRune(EncodeRune(r) + tail) == Some((r, 2))
  {
    Radix(r);
  }

  lemma EncodeDecode3(r: int, tail: seq<byte>)
    requires 0x800 <= r <= 0xFFFF && IsScalar(r)
    ensures DecodeRune(EncodeRune(r) + tail) == Some((r, 3))
  {
    Radix(r);
  }

  lemma EncodeDecode4(r: int, tail: seq<byte>)
    requires 0x1_0000 <= r <= MAX_RUNE
    ensures DecodeRune(EncodeRune(r) + tail) == Some((r, 4))
  {
    Radix(r);
  }

  /** What EncodeRune emits decodes to the rune, or to U+FFFD if it is not a scalar value. */
  lemma EncodeDecode(r: int, tail: seq<byte>)
    ensures DecodeRune(EncodeRune(r) + tail) == Some((if IsScalar(r) then r else RUNE_ERROR, |EncodeRune(r)|))
  {
    var c := if IsScalar(r) then r else RUNE_ERROR;
    assert EncodeRune(r) == EncodeRune(c);
    if c >= 0x1_0000 {
      EncodeDecode4(c, tail);
    } else if c >= 0x800 {
      EncodeDecode3(c, tail);
    } else if c >= 0x80 {
      EncodeDecode2(c, tail);
    }
  }

  lemma Digits64(a: int, b: int, c: int, d: int)
    requires 0 <= a && 0 <= b < 0x40 && 0 <= c < 0x40 && 0 <= d < 0x40
    ensures var r := ((a * 0x40 + b) * 0x40 + c) * 0x40 + d;
            && r / 0x40000 == a && r / 0x1000 == a * 0x40 + b && r / 0x40 == (a * 0x40 + b) * 0x40 + c
            && r / 0x1000 % 0x40 == b && r / 0x40 % 0x40 == c && r % 0x40 == d
  {
    var r := ((a * 0x40 + b) * 0x40 + c) * 0x40 + d;
    assert r / 0x40 == (a * 0x40 + b) * 0x40 + c;
    assert r / 0x40 / 0x40 == a * 0x40 + b;
    assert r / 0x40 / 0x40 / 0x40 == a;
    Radix(r);
  }

  lemma DecodeEncode2(s: seq<byte>)
    requires |s| >= 2 && 0xC2 <= s[0] <= 0xDF && IsTail(s[1])
    ensures DecodeRune(s).Some? && EncodeRune(DecodeRune(s).value.0) == s[..2] && DecodeRune(s).value.1 == 2
  {
    Digits64(0, 0, s[0] - 0xC0, s[1] - 0x80);
  }

  lemma DecodeEncode3(s: seq<byte>)
    requires |s| >= 3 && 0xE0 <= s[0] <= 0xEF && IsTail(s[1]) && IsTail(s[2]) && DecodeRune(s).Some?
    ensures EncodeRune(DecodeRune(s).value.0) == s[..3] && DecodeRune(s).value.1 == 3
  {
    Digits64(0, s[0] - 0xE0, s[1] - 0x80, s[2] - 0x80);
  }

  lemma DecodeEncode4(s: seq<byte>)
    requires |s| >= 4 && 0xF0 <= s[0] <= 0xF4 && IsTail(s[1]) && IsTail(s[2]) && IsTail(s[3]) && DecodeRune(s).Some?
    ensures EncodeRune(DecodeRune(s).value.0) == s[..4] && DecodeRune(s).value.1 == 4
  {
    Digits64(s[0] - 0xF0, s[1] - 0x80, s[2] - 0x80, s[3] - 0x80);
  }

  /** What decodes is the encoding of what it decodes to. */
  lemma DecodeEncode(s: seq<byte>)
    ensures DecodeRune(s).Some? ==>
              var (r, n) := DecodeRune(s).value;
              IsScalar(r) && EncodeRune(r) <= s && n == |EncodeRune(r)|
  {
    if DecodeRune(s).Some? && s[0] > 0x7F {
      if s[0] <= 0xDF {
        DecodeEncode2(s);
      } else if s[0] <= 0xEF {
        DecodeEncode3(s);
      } else {
        DecodeEncode4(s);
      }
    }
  }

  /** DecodeNext reads the one scalar value whose encoding s begins with; if there is none, it reads
      U+FFFD from one byte. */
  lemma DecodeNextInverts(s: seq<byte>)
    requires s != []
    ensures forall r | IsScalar(r) && EncodeRune(r) <= s :: DecodeNext(s) == (r, |EncodeRune(r)|)
    ensures (forall r | IsScalar(r) :: !(EncodeRune(r) <= s)) ==> DecodeNext(s) == (RUNE_ERROR, 1)
  {
    DecodeEncode(s);
    hide EncodeRune, DecodeRune;
    forall r | IsScalar(r) && EncodeRune(r) <= s
      ensures DecodeNext(s) == (r, |EncodeRune(r)|)
    {
      EncodeDecode(r, s[|EncodeRune(r)|..]);
      assert EncodeRune(r) + s[|EncodeRune(r)|..] == s;
    }
  }

  /** The scalar values are the code points but for the surrogates. */
  lemma ScalarValues(r: int)
    ensures IsScalar(r) <==> 0 <= r <= 0xD7FF || 0xE000 <= r <= 0x10FFFF
  {
  }

  /** The length of an encoding, by section 3 of RFC 3629. */
  lemma EncodedLength(r: int)
    requires IsScalar(r)
    ensures |EncodeRune(r)| == if r <= 0x7F then 1 else if r <= 0x7FF then 2 else if r <= 0xFFFF then 3 else 4
  {
  }

  /** Characters of the examples in section 7 of RFC 3629. */
  lemma EncodedExamples()
    ensures EncodeRune(0x41) == [0x41] && EncodeRune(0x391) == [0xCE, 0x91]
    ensures EncodeRune(0x2262) == [0xE2, 0x89, 0xA2] && EncodeRune(0xD55C) == [0xED, 0x95, 0x9C]
    ensures EncodeRune(0x233B4) == [0xF0, 0xA3, 0x8E, 0xB4]
  {
  }
}
