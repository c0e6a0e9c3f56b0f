/** The text of a string: a string of RFC 8259 with these bytes, and none is shorter. */
module StringText {
  import opened Bytes
  import opened Json
  import opened Unicode
  import opened Spelling
  import opened Grammar
  import opened StringGrammar

  /** Section 7 of RFC 8259: quotes, backslashes and the bytes below the space do not stand for themselves. */
  ghost predicate Strict(parts: seq<Part>) {
    Tidy(parts) && forall i | 0 <= i < |parts| :: parts[i].Raw? ==> parts[i].c >= ' ' as int
  }

  ghost predicate LowerCase(parts: seq<Part>) {
    forall i | 0 <= i < |parts| && parts[i].Unit? :: LowerUnit(parts[i].u)
  }

  predicate LowerUnit(u: seq<hex>) {
    forall k | 0 <= k < |u| :: !u[k].upper
  }

  /** The part that the byte is written as. */
  lemma PartOfByte(c: byte) returns (p: Part)
    ensures ValidPart(p) && TidyPart(p) && (p.Raw? ==> p.c >= 32) && (p.Unit? ==> LowerUnit(p.u))
    ensures PartText(p) == EscapeByte(c) && PartMeaning(p) == [c]
  {
    if ShortEscape(c).Some? {
      p := Short(ShortEscape(c).value);
    } else if c < 32 {
      var u: seq<hex> := [Hex(0, false), Hex(0, false), Hex(c / 16, false), Hex(c % 16, false)];
      assert UnitValue(u) == c;
      assert HexText(u) == [ZERO, ZERO, HexDigit(c / 16), HexDigit(c % 16)];
      p := Unit(u);
    } else {
      p := Raw(c);
    }
  }

  /** The text of a string is written in RFC 8259's parts, code units in lower case, and means the string. */
  lemma {:induction false} EscapeIsStrict(s: seq<byte>) returns (parts: seq<Part>)
    ensures Strict(parts) && LowerCase(parts)
    ensures PartsText(parts) == Escape(s) && PartsMeaning(parts) == s
  {
    hide EscapeByte, PartText, PartMeaning, ValidPart, TidyPart, LowerUnit;
    if s == [] {
      return [];
    }
    var p := PartOfByte(s[0]);
    var rest := EscapeIsStrict(s[1..]);
    parts := [p] + rest;
    assert parts[0] == p && parts[1..] == rest;
    assert s == [s[0]] + s[1..];
  }

  lemma {:induction false} EscapeOfBoth(a: seq<byte>, b: seq<byte>)
    ensures Escape(a + b) == Escape(a) + Escape(b)
  {
    hide Escape;
    if a == [] {
      assert a + b == b;
      EscapeOfNothing();
    } else {
      EscapeOfBoth(a[1..], b);
      assert (a + b)[1..] == a[1..] + b;
      EscapeStep(a + b);
      EscapeStep(a);
    }
  }

  lemma EscapeStep(s: seq<byte>)
    requires s != []
    ensures Escape(s) == EscapeByte(s[0]) + Escape(s[1..])
  {
  }

  lemma {:induction false} HighBytes(s: seq<byte>)
    requires forall i | 0 <= i < |s| :: s[i] >= 128
    ensures Escape(s) == s
  {
    if s != [] {
      HighBytes(s[1..]);
    }
  }

  lemma EscapeOfUtf8(cp: nat)
    requires cp <= 0x10FFFF
    ensures |Escape(Utf8(cp))| <= 6
  {
    var t := Utf8(cp);
    if cp < 0x80 {
      EscapeOfOne(t[0]);
    } else {
      HighBytes(t);
    }
  }

  lemma EscapeOfOne(c: byte)
    ensures Escape([c]) == EscapeByte(c)
  {
    assert [c][1..] == [];
    assert Escape([]) == [];
  }

  lemma EscapeSizes()
    ensures forall c: byte :: |EscapeByte(c)| <= 6
    ensures forall c: byte | ShortMeaning(c).Some? :: |EscapeByte(ShortMeaning(c).value)| <= 2
    ensures forall c: byte | c >= 32 && c != '\\' as int && c != '\"' as int :: |EscapeByte(c)| == 1
  {
  }

  /** No part is shorter than what is printed for its meaning. */
  lemma PartIsNoShorter(p: Part)
    requires ValidPart(p) && TidyPart(p) && (p.Raw? ==> p.c >= 32)
    ensures |Escape(PartMeaning(p))| <= |PartText(p)|
  {
    match p
    case Raw(c) => ByteIsNoShorter(p);
    case Short(c) => ByteIsNoShorter(p);
    case _ => UnitIsNoShorter(p);
  }

  lemma ByteIsNoShorter(p: Part)
    requires ValidPart(p) && TidyPart(p) && (p.Raw? ==> p.c >= 32) && (p.Raw? || p.Short?)
    ensures |Escape(PartMeaning(p))| <= |PartText(p)|
  {
    hide Escape, EscapeByte;
    EscapeSizes();
    match p
    case Raw(c) => EscapeOfOne(c);
    case Short(c) => EscapeOfOne(ShortMeaning(c).value);
  }

  lemma UnitIsNoShorter(p: Part)
    requires ValidPart(p) && (p.Unit? || p.Pair?)
    ensures |Escape(PartMeaning(p))| <= |PartText(p)|
  {
    hide Escape, Utf8, HexText, UnitValue;
    match p
    case Unit(u) =>
      UnitRange(u);
      EscapeOfUtf8(UnitValue(u));
    case Pair(hi, lo) =>
      EscapeOfUtf8(0x10000 + (UnitValue(hi) - 0xD800) * 0x400 + (UnitValue(lo) - 0xDC00));
  }

  lemma UnitRange(u: seq<hex>)
    requires |u| == 4
    ensures UnitValue(u) < 0x10000
  {
  }

  /** Every spelling of a string that RFC 8259 allows is at least as long as the text printed for it. */
  lemma {:induction false} EscapeIsShortest(parts: seq<Part>)
    requires Strict(parts)
    ensures |Escape(PartsMeaning(parts))| <= |PartsText(parts)|
  {
    hide Escape, PartMeaning, PartText, ValidPart, TidyPart;
    if parts == [] {
      EscapeOfNothing();
    } else {
      PartIsNoShorter(parts[0]);
      EscapeIsShortest(parts[1..]);
      EscapeOfBoth(PartMeaning(parts[0]), PartsMeaning(parts[1..]));
    }
  }

  lemma EscapeOfNothing()
    ensures Escape([]) == []
  {
  }
}
