/** The text of `sdscatrepr`: printable, read back by `sdssplitargs`, and no other such text is shorter. */
module SdsRepr {
  import opened Bytes
  import opened Json
  import opened Spelling
  import opened SdsQuote
  import opened SdsArgs

  predicate Visible(t: seq<byte>) {
    forall k | 0 <= k < |t| :: ' ' as int <= t[k] <= '~' as int
  }

  predicate LowerBit(b: Bit) {
    b.Coded? ==> !b.hi.upper && !b.lo.upper
  }

  predicate LowerBits(bits: seq<Bit>) {
    forall k | 0 <= k < |bits| :: LowerBit(bits[k])
  }

  /** Valid whatever follows it, unless it is an `x` behind a backslash. */
  predicate Steady(b: Bit) {
    match b
    case Plain(c) => c != 0 && c != '\"' as int && c != '\\' as int
    case Escaped(c) => c != 0 && c != 'x' as int
    case Coded(_, _) => true
  }

  lemma BitOfByte(c: byte) returns (b: Bit)
    ensures Steady(b) && LowerBit(b) && Visible(BitText(b))
    ensures BitText(b) == ReprByte(c) && BitMeaning(b) == c
  {
    if |ReprByte(c)| == 1 {
      b := Plain(c);
    } else if |ReprByte(c)| == 2 {
      b := Escaped(ReprByte(c)[1]);
    } else {
      b := Coded(Hex(c / 16, false), Hex(c % 16, false));
    }
  }

  /** The quotation of any bytes is printable, in the parts of the grammar, codes in lower case, and means them. */
  lemma {:induction false} ReprIsVisible(p: seq<byte>) returns (bits: seq<Bit>)
    ensures ValidBits(bits) && LowerBits(bits) && Visible(BitsText(bits))
    ensures BitsText(bits) == ReprBytes(p) && BitsMeaning(bits) == p
  {
    hide ReprByte, BitText, BitMeaning, LowerBit;
    if p == [] {
      return [];
    }
    var b := BitOfByte(p[0]);
    var rest := ReprIsVisible(p[1..]);
    bits := [b] + rest;
    assert bits[0] == b && bits[1..] == rest;
    assert p == [p[0]] + p[1..];
  }

  lemma BitIsNoShorter(b: Bit)
    requires Visible(BitText(b)) && (b.Plain? ==> b.c != '\"' as int && b.c != '\\' as int)
    ensures |ReprByte(BitMeaning(b))| <= |BitText(b)|
  {
    if b.Plain? || b.Escaped? {
      assert BitText(b)[|BitText(b)| - 1] == b.c;
    }
  }

  /** Every printable text in double quotes with the same meaning is at least as long. */
  lemma {:induction false} ReprIsShortest(bits: seq<Bit>)
    requires ValidBits(bits) && Visible(BitsText(bits))
    ensures |ReprBytes(BitsMeaning(bits))| <= |BitsText(bits)|
  {
    hide ReprByte, BitText, BitMeaning;
    if bits != [] {
      var b, rest := bits[0], bits[1..];
      var t := BitsText(bits);
      assert t[..|BitText(b)|] == BitText(b) && t[|BitText(b)|..] == BitsText(rest);
      BitIsNoShorter(b);
      ReprIsShortest(rest);
      assert BitsMeaning(bits)[1..] == BitsMeaning(rest);
    }
  }
}
