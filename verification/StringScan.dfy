/** The two scans of `parse_string`: one sizes the output, the other fills it. */
module StringScan {
  import opened Bytes
  import opened Unicode
  import opened ParseSpec

  /** Whether the sizing scan, started at `a`, takes the byte at `p` as the second of an escape. */
  ghost predicate Second(s: seq<byte>, a: nat, p: nat)
    requires a <= p <= |s|
  {
    p > a && s[p - 1] == BACKSLASH && !Second(s, a, p - 1)
  }

  /** How many escapes the sizing scan has begun before `p`. */
  ghost function Escapes(s: seq<byte>, a: nat, p: nat): (r: nat)
    requires a <= p <= |s|
    ensures r <= p - a
  {
    if p == a then 0
    else Escapes(s, a, p - 1) + (if s[p - 1] == BACKSLASH && !Second(s, a, p - 1) then 1 else 0)
  }

  /** Two bytes in a row never both begin an escape. */
  lemma EscapesInTwo(s: seq<byte>, a: nat, p: nat)
    requires a <= p && p + 2 <= |s|
    ensures Escapes(s, a, p + 2) <= Escapes(s, a, p) + 1
  {
    assert Escapes(s, a, p + 2)
        == Escapes(s, a, p + 1) + (if s[p + 1] == BACKSLASH && !Second(s, a, p + 1) then 1 else 0);
  }

  /** So at most half of any even stretch, in step with the sizing scan or not. */
  lemma {:induction false} EscapesInStretch(s: seq<byte>, a: nat, p: nat, n: nat)
    requires a <= p && p + 2 * n <= |s|
    ensures Escapes(s, a, p + 2 * n) <= Escapes(s, a, p) + n
    decreases n
  {
    if n > 0 {
      EscapesInTwo(s, a, p);
      EscapesInStretch(s, a, p + 2, n - 1);
    }
  }

  lemma {:induction false} EscapesGrowSlowly(s: seq<byte>, a: nat, p: nat, q: nat)
    requires a <= p <= q <= |s|
    ensures p - Escapes(s, a, p) <= q - Escapes(s, a, q)
    decreases q
  {
    if p < q {
      EscapesGrowSlowly(s, a, p, q - 1);
    }
  }

  /**
   * The agreement of the two scans, one piece at a time: bytes written plus escapes begun by the
   * sizing scan never exceed the bytes consumed.
   */
  lemma PieceFits(s: seq<byte>, a: nat, i: nat, e: nat)
    requires a <= i < e < |s| && Piece(s, i, e).Some?
    ensures var p := Piece(s, i, e).value;
      |p.val| + Escapes(s, a, p.next) <= p.next - i + Escapes(s, a, i)
  {
    var p := Piece(s, i, e).value;
    if s[i] != BACKSLASH {
      assert Escapes(s, a, i + 1) == Escapes(s, a, i);
    } else if p.next == i + 2 {
      EscapesInStretch(s, a, i, 1);
    } else if p.next == i + 6 {
      EscapesInStretch(s, a, i, 3);
      assert Utf16Literal(s, i, e).value.codepoint < 0x10000;
    } else {
      EscapesInStretch(s, a, i, 6);
    }
  }

  /** The whole body: what is decoded always fits in the size the first scan found. */
  lemma {:induction false} DecodedFits(s: seq<byte>, a: nat, i: nat, e: nat)
    requires a <= i <= e + 1 && a <= e < |s| && s[e] != BACKSLASH && DecodeString(s, i, e).Some?
    ensures |DecodeString(s, i, e).value| + Escapes(s, a, e) <= e + 1 - i + Escapes(s, a, i)
    decreases e + 1 - i
  {
    if i < e {
      var p := Piece(s, i, e).value;
      PieceFits(s, a, i, e);
      DecodedFits(s, a, p.next, e);
    } else if i == e + 1 {
      assert Escapes(s, a, e + 1) == Escapes(s, a, e);
    }
  }

  /** `parse_hex4`. */
  method ParseHex4(s: seq<byte>, i: nat) returns (h: nat)
    requires i + 4 <= |s|
    ensures h == Hex4(s, i)
  {
    h := 0;
    for k := 0 to 4
      invariant forall j | i <= j < i + k :: HexValue(s[j]).Some?
      invariant k == 0 ==> h == 0
      invariant k == 1 ==> h == HexValue(s[i]).value * 16
      invariant k == 2 ==> h == (HexValue(s[i]).value * 16 + HexValue(s[i + 1]).value) * 16
      invariant k == 3 ==>
        h == ((HexValue(s[i]).value * 16 + HexValue(s[i + 1]).value) * 16 + HexValue(s[i + 2]).value) * 16
      invariant k == 4 ==> h == Hex4(s, i)
    {
      var c := s[i + k];
      if ZERO <= c <= NINE {
        h := h + (c - ZERO);
      } else if UPPER_A <= c <= UPPER_F {
        h := h + 10 + (c - UPPER_A);
      } else if LOWER_A <= c <= LOWER_F {
        h := h + 10 + (c - LOWER_A);
      } else {
        return 0;
      }
      if k < 3 {
        h := h * 16;
      }
    }
  }

  /**
   * The masks and shifts of `utf16_literal_to_utf8`, as the arithmetic the methods below use: for
   * every word they are a remainder, a quotient and a sum.
   */
  lemma BitMasks(c: bv32)
    ensures (c | 0x80) & 0xBF == 0x80 + c % 64
    ensures c >> 6 == c / 64
    ensures c < 0x20 ==> (c | 0xC0) & 0xFF == 0xC0 + c
    ensures c < 0x10 ==> (c | 0xE0) & 0xFF == 0xE0 + c
    ensures c < 0x08 ==> (c | 0xF0) & 0xFF == 0xF0 + c
    ensures c & 0x3FF == c % 1024
  {
  }

  lemma SurrogateBits(hi: bv32, lo: bv32)
    ensures (((hi & 0x3FF) << 10) | (lo & 0x3FF)) == (hi % 1024) * 1024 + lo % 1024
  {
  }
}
