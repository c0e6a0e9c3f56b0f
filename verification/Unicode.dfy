/** UTF-16 escapes and UTF-8, as sections 2.1 and 2.2 of RFC 2781 and section 3 of RFC 3629 define them. */
module Unicode {
  import opened Bytes
  import opened Json

  predicate IsHighSurrogate(u: nat) { 0xD800 <= u <= 0xDBFF }
  predicate IsLowSurrogate(u: nat) { 0xDC00 <= u <= 0xDFFF }

  /** A code point that is not a surrogate. */
  predicate IsScalar(cp: nat) {
    cp <= 0x10FFFF && !IsHighSurrogate(cp) && !IsLowSurrogate(cp)
  }

  /** The value of a hexadecimal digit. */
  function HexValue(c: byte): (r: Option<nat>)
    ensures r.Some? ==> r.value < 16
  {
    if ZERO <= c <= NINE then Some(c - ZERO)
    else if UPPER_A <= c <= UPPER_F then Some(10 + (c - UPPER_A))
    else if LOWER_A <= c <= LOWER_F then Some(10 + (c - LOWER_A))
    else None
  }

  predicate IsHex4(s: seq<byte>, i: nat)
    requires i + 4 <= |s|
  {
    forall k | i <= k < i + 4 :: HexValue(s[k]).Some?
  }

  /** Four hexadecimal digits, or 0 when one of the four bytes is not a digit. */
  function Hex4(s: seq<byte>, i: nat): (r: nat)
    requires i + 4 <= |s|
    ensures r < 0x10000
  {
    if IsHex4(s, i) then
      ((HexValue(s[i]).value * 16 + HexValue(s[i + 1]).value) * 16 + HexValue(s[i + 2]).value) * 16
      + HexValue(s[i + 3]).value
    else 0
  }

  /** The code point of a surrogate pair (section 2.2 of RFC 2781). */
  function Combine(hi: nat, lo: nat): nat
    requires IsHighSurrogate(hi) && IsLowSurrogate(lo)
  {
    0x10000 + (hi - 0xD800) * 0x400 + (lo - 0xDC00)
  }

  datatype Literal = Literal(codepoint: nat, length: nat)

  /** The escape at `s[i..e]`: one `\uXXXX` or a surrogate pair of two. */
  function Utf16Literal(s: seq<byte>, i: nat, e: nat): (r: Option<Literal>)
    requires i <= e + 1 && e < |s|
    ensures r.Some? ==> IsScalar(r.value.codepoint) && r.value.length in {6, 12} && i + r.value.length <= e
  {
    if e < i + 6 then None
    else
      var first := Hex4(s, i + 2);
      if IsLowSurrogate(first) then None
      else if !IsHighSurrogate(first) then Some(Literal(first, 6))
      else if e < i + 12 || s[i + 6] != BACKSLASH || s[i + 7] != LOWER_U then None
      else
        var second := Hex4(s, i + 8);
        if IsLowSurrogate(second) then Some(Literal(Combine(first, second), 12)) else None
  }

  /** The UTF-8 form of a code point (the table in section 3 of RFC 3629). */
  function Utf8(cp: nat): (r: seq<byte>)
    requires cp <= 0x10FFFF
    ensures 1 <= |r| <= 4
  {
    if cp < 0x80 then [cp]
    else if cp < 0x800 then [0xC0 + cp / 64, 0x80 + cp % 64]
    else if cp < 0x10000 then [0xE0 + cp / 4096, 0x80 + cp / 64 % 64, 0x80 + cp % 64]
    else [0xF0 + cp / 262144, 0x80 + cp / 4096 % 64, 0x80 + cp / 64 % 64, 0x80 + cp % 64]
  }

  predicate IsTail(b: byte) { 0x80 <= b <= 0xBF }

  /** The payload of a byte once its leading marker is taken off. */
  function Bits(b: byte, mark: int): int { b - mark }

  /** A strict decoder: it accepts the byte ranges of section 4 of RFC 3629 and nothing else. */
  function DecodeUtf8(b: seq<byte>): Option<nat> {
    if |b| == 1 && b[0] <= 0x7F then Some(b[0])
    else if |b| == 2 && 0xC2 <= b[0] <= 0xDF && IsTail(b[1]) then Some(Bits(b[0], 0xC0) * 64 + Bits(b[1], 0x80))
    else if |b| == 3 && 0xE0 <= b[0] <= 0xEF && IsTail(b[1]) && IsTail(b[2])
            && (b[0] == 0xE0 ==> 0xA0 <= b[1]) && (b[0] == 0xED ==> b[1] <= 0x9F) then
      Some(Bits(b[0], 0xE0) * 4096 + Bits(b[1], 0x80) * 64 + Bits(b[2], 0x80))
    else if |b| == 4 && 0xF0 <= b[0] <= 0xF4 && IsTail(b[1]) && IsTail(b[2]) && IsTail(b[3])
            && (b[0] == 0xF0 ==> 0x90 <= b[1]) && (b[0] == 0xF4 ==> b[1] <= 0x8F) then
      Some(Bits(b[0], 0xF0) * 262144 + Bits(b[1], 0x80) * 4096 + Bits(b[2], 0x80) * 64 + Bits(b[3], 0x80))
    else None
  }

  /** Splitting a number into base-64 digits and back, by linear facts only. */
  lemma Base64Digits(cp: nat)
    ensures cp == cp / 4096 * 4096 + cp / 64 % 64 * 64 + cp % 64
    ensures cp / 4096 == cp / 262144 * 64 + cp / 4096 % 64
  {
    assert cp / 64 / 64 == cp / 4096;
    assert cp / 4096 / 64 == cp / 262144;
  }

  /** The encoding of every scalar value decodes back to it. */
  lemma Utf8RoundTrip(cp: nat)
    requires IsScalar(cp)
    ensures DecodeUtf8(Utf8(cp)) == Some(cp)
  {
    Base64Digits(cp);
  }

  lemma ThreeBytes(x: int, y: int, z: int)
    requires 0 <= y < 64 && 0 <= z < 64
    ensures var cp := x * 4096 + y * 64 + z;
      cp / 4096 == x && cp / 64 == x * 64 + y && cp / 64 % 64 == y && cp % 64 == z
  {
    var cp := x * 4096 + y * 64 + z;
    assert cp / 64 / 64 == cp / 4096;
  }

  /** A well-formed byte sequence is the encoding of exactly one scalar value, so no shorter form exists. */
  lemma Utf8Unique(b: seq<byte>)
    requires DecodeUtf8(b).Some?
    ensures IsScalar(DecodeUtf8(b).value) && b == Utf8(DecodeUtf8(b).value)
  {
    if |b| == 3 {
      ThreeBytes(Bits(b[0], 0xE0), Bits(b[1], 0x80), Bits(b[2], 0x80));
    } else if |b| == 4 {
      FourBytesUnique(b);
    }
  }

  lemma FourBytes(x: int, y: int, z: int, w: int)
    requires 0 <= y < 64 && 0 <= z < 64 && 0 <= w < 64
    ensures var cp := x * 262144 + y * 4096 + z * 64 + w;
      cp / 262144 == x && cp / 4096 % 64 == y && cp / 64 % 64 == z && cp % 64 == w
  {
    var cp := x * 262144 + y * 4096 + z * 64 + w;
    ThreeBytes(x * 64 + y, z, w);
    assert cp / 4096 / 64 == cp / 262144;
  }

  lemma FourBytesUnique(b: seq<byte>)
    requires |b| == 4 && DecodeUtf8(b).Some?
    ensures IsScalar(DecodeUtf8(b).value) && b == Utf8(DecodeUtf8(b).value)
  {
    FourBytes(Bits(b[0], 0xF0), Bits(b[1], 0x80), Bits(b[2], 0x80), Bits(b[3], 0x80));
  }

  function Hex4Text(u: nat): seq<byte>
    requires u < 0x10000
  {
    [HexDigit(u / 4096), HexDigit(u / 256 % 16), HexDigit(u / 16 % 16), HexDigit(u % 16)]
  }

  /** The escape of a scalar value: its UTF-16 code units (section 2.1 of RFC 2781), each as `\uXXXX`. */
  function EscapedUtf16(cp: nat): seq<byte>
    requires IsScalar(cp)
  {
    if cp < 0x10000 then [BACKSLASH, LOWER_U] + Hex4Text(cp)
    else
      var u := cp - 0x10000;
      [BACKSLASH, LOWER_U] + Hex4Text(0xD800 + u / 0x400) + [BACKSLASH, LOWER_U] + Hex4Text(0xDC00 + u % 0x400)
  }

  lemma HexRoundTrip(n: nat)
    requires n < 16
    ensures HexValue(HexDigit(n)) == Some(n)
  {
  }

  lemma Hex4OfText(s: seq<byte>, i: nat, u: nat)
    requires u < 0x10000 && i + 4 <= |s| && s[i..i + 4] == Hex4Text(u)
    ensures Hex4(s, i) == u
  {
    hide HexValue, HexDigit;
    assert forall k | i <= k < i + 4 :: s[k] == s[i..i + 4][k - i];
    HexRoundTrip(u / 4096);
    HexRoundTrip(u / 256 % 16);
    HexRoundTrip(u / 16 % 16);
    HexRoundTrip(u % 16);
    assert u / 16 / 16 == u / 256;
    assert u / 256 / 16 == u / 4096;
  }

  /** A code unit escaped at `i`. */
  lemma EscapedUnit(s: seq<byte>, i: nat, u: nat)
    requires u < 0x10000 && At(s, i, [BACKSLASH, LOWER_U] + Hex4Text(u))
    ensures i + 6 <= |s| && s[i] == BACKSLASH && s[i + 1] == LOWER_U && Hex4(s, i + 2) == u
  {
    hide Hex4, Hex4Text;
    var t := [BACKSLASH, LOWER_U] + Hex4Text(u);
    assert |Hex4Text(u)| == 4 by { Hex4Length(u); }
    AtIndex(s, i, t, 0);
    AtIndex(s, i, t, 1);
    AtConcat(s, i, [BACKSLASH, LOWER_U], Hex4Text(u));
    Hex4OfText(s, i + 2, u);
  }

  lemma Hex4Length(u: nat)
    requires u < 0x10000
    ensures |Hex4Text(u)| == 4
  {
  }

  /** Every scalar value, escaped as UTF-16, is read back by the parser's escape decoder. */
  lemma Utf16RoundTrip(cp: nat, s: seq<byte>, i: nat, e: nat)
    requires IsScalar(cp) && i + |EscapedUtf16(cp)| <= e < |s| && At(s, i, EscapedUtf16(cp))
    ensures Utf16Literal(s, i, e) == Some(Literal(cp, |EscapedUtf16(cp)|))
  {
    hide Hex4, Hex4Text, At;
    if cp < 0x10000 {
      Hex4Length(cp);
      EscapedUnit(s, i, cp);
    } else {
      var hi, lo := 0xD800 + (cp - 0x10000) / 0x400, 0xDC00 + (cp - 0x10000) % 0x400;
      var t, u := [BACKSLASH, LOWER_U] + Hex4Text(hi), [BACKSLASH, LOWER_U] + Hex4Text(lo);
      Hex4Length(hi);
      Hex4Length(lo);
      assert EscapedUtf16(cp) == t + u;
      AtConcat(s, i, t, u);
      EscapedUnit(s, i, hi);
      EscapedUnit(s, i + 6, lo);
    }
  }
}
