/** The string scanner reads exactly the strings of the grammar. */
module StringGrammar {
  import opened Bytes
  import opened Json
  import opened Unicode
  import opened Numbers
  import opened ParseSpec
  import opened Spelling
  import opened Grammar

  /** A digit in either case has its value, and no other byte has one. */
  lemma HexValueExactly(c: byte)
    ensures HexValue(c).Some? <==> IsHex(c)
    ensures forall h: hex | Spelled(h) == c :: HexValue(c) == Some(h.value)
  {
  }

  /** Four digits in any cases are their code unit; any other four bytes count as 0. */
  lemma Hex4Exactly(s: seq<byte>, i: nat, u: seq<hex>)
    requires i + 4 <= |s|
    ensures |u| == 4 && At(s, i, HexText(u)) ==> Hex4(s, i) == UnitValue(u)
    ensures (exists k | i <= k < i + 4 :: !IsHex(s[k])) ==> Hex4(s, i) == 0
  {
    hide HexValue, IsHex, Spelled;
    if |u| == 4 && At(s, i, HexText(u)) {
      HexDigitAt(s, i, u, 0);
      HexDigitAt(s, i, u, 1);
      HexDigitAt(s, i, u, 2);
      HexDigitAt(s, i, u, 3);
    }
    if k :| i <= k < i + 4 && !IsHex(s[k]) {
      HexValueExactly(s[k]);
    }
  }

  lemma HexDigitAt(s: seq<byte>, i: nat, u: seq<hex>, k: nat)
    requires At(s, i, HexText(u)) && k < |u|
    ensures i + k < |s| && HexValue(s[i + k]) == Some(u[k].value)
  {
    hide HexValue, IsHex, Spelled;
    AtIndex(s, i, HexText(u), k);
    HexValueExactly(s[i + k]);
  }

  /** Any four bytes that are digits spell a code unit. */
  lemma HexTextOf(s: seq<byte>, i: nat) returns (u: seq<hex>)
    requires i + 4 <= |s| && forall k | i <= k < i + 4 :: IsHex(s[k])
    ensures |u| == 4 && HexText(u) == s[i..i + 4] && Hex4(s, i) == UnitValue(u)
  {
    hide IsHex, Spelled, Hex4, UnitValue;
    var a := HexOf(s[i]);
    var b := HexOf(s[i + 1]);
    var c := HexOf(s[i + 2]);
    var d := HexOf(s[i + 3]);
    u := [a, b, c, d];
    assert HexText(u) == s[i..i + 4];
    Hex4Exactly(s, i, u);
  }

  // ---------- parts ----------

  lemma UnescapeExactly(c: byte)
    ensures ParseSpec.Unescape(c) == ShortMeaning(c)
  {
  }

  /** The scanner reads the parts of the grammar. */
  lemma PieceOfPart(s: seq<byte>, i: nat, e: nat, p: Part)
    requires ValidPart(p) && At(s, i, PartText(p)) && i < e < |s|
    requires i + |PartText(p)| <= (if p.Short? then e + 1 else e)
    ensures Piece(s, i, e) == Some(Parsed(PartMeaning(p), i + |PartText(p)|))
  {
    hide HexValue, IsHex, Spelled, Hex4, UnitValue, Utf8, HexText;
    AtIndex(s, i, PartText(p), 0);
    if !p.Raw? { AtIndex(s, i, PartText(p), 1); }
    match p
    case Raw(c) =>
    case Short(c) => UnescapeExactly(c);
    case Unit(u) =>
      AtConcat(s, i, ['\\' as int, 'u' as int], HexText(u));
      Hex4Exactly(s, i + 2, u);
    case Junk(bytes) =>
      AtConcat(s, i, ['\\' as int, 'u' as int], bytes);
      var k :| 0 <= k < 4 && !IsHex(bytes[k]);
      AtIndex(s, i + 2, bytes, k);
      Hex4Exactly(s, i + 2, []);
      NulText();
    case Pair(hi, lo) => PairRead(s, i, e, hi, lo);
  }

  lemma NulText()
    ensures Utf8(0) == [0]
  {
  }

  lemma PairRead(s: seq<byte>, i: nat, e: nat, hi: seq<hex>, lo: seq<hex>)
    requires ValidPart(Pair(hi, lo)) && At(s, i, PartText(Pair(hi, lo))) && i + |PartText(Pair(hi, lo))| <= e < |s|
    ensures Piece(s, i, e) == Some(Parsed(PartMeaning(Pair(hi, lo)), i + 12))
  {
    hide HexValue, IsHex, Spelled, Hex4, UnitValue, Utf8, HexText;
    var start := ['\\' as int, 'u' as int];
    var t := PartText(Pair(hi, lo));
    assert t == start + (HexText(hi) + (start + HexText(lo)));
    AtConcat(s, i, start, HexText(hi) + (start + HexText(lo)));
    AtConcat(s, i + 2, HexText(hi), start + HexText(lo));
    AtConcat(s, i + 6, start, HexText(lo));
    AtIndex(s, i, start, 0);
    AtIndex(s, i, start, 1);
    AtIndex(s, i + 6, start, 0);
    AtIndex(s, i + 6, start, 1);
    Hex4Exactly(s, i + 2, hi);
    Hex4Exactly(s, i + 8, lo);
  }

  /** And nothing else: whatever it reads is such a part. */
  lemma PartOfPiece(s: seq<byte>, i: nat, e: nat) returns (p: Part)
    requires i < e < |s| && s[e] == QUOTE && Piece(s, i, e).Some?
    ensures ValidPart(p) && Piece(s, i, e).value == Parsed(PartMeaning(p), i + |PartText(p)|)
    ensures At(s, i, PartText(p)) && i + |PartText(p)| <= e + 1
    ensures i + |PartText(p)| == e + 1 ==> p == Short('\"' as int)
  {
    hide HexValue, IsHex, Spelled, Hex4, UnitValue, Utf8, HexText;
    if s[i] != BACKSLASH {
      p := Raw(s[i]);
    } else if s[i + 1] != LOWER_U {
      UnescapeExactly(s[i + 1]);
      p := Short(s[i + 1]);
    } else {
      p := UnitPart(s, i, e);
    }
  }

  lemma UnitPart(s: seq<byte>, i: nat, e: nat) returns (p: Part)
    requires i < e < |s| && s[i] == BACKSLASH && s[i + 1] == LOWER_U && Piece(s, i, e).Some?
    ensures ValidPart(p) && Piece(s, i, e).value == Parsed(PartMeaning(p), i + |PartText(p)|)
    ensures At(s, i, PartText(p)) && i + |PartText(p)| <= e
  {
    hide HexValue, IsHex, Spelled, Hex4, UnitValue, Utf8, HexText;
    if k :| i + 2 <= k < i + 6 && !IsHex(s[k]) {
      Hex4Exactly(s, i + 2, []);
      NulText();
      p := Junk(s[i + 2..i + 6]);
      assert !IsHex(p.bytes[k - (i + 2)]);
      assert PartText(p) == s[i..i + 6];
    } else {
      var u := HexTextOf(s, i + 2);
      if IsHighSurrogate(UnitValue(u)) {
        p := PairPart(s, i, e, u);
      } else {
        p := Unit(u);
        assert PartText(p) == s[i..i + 6];
      }
    }
  }

  lemma PairPart(s: seq<byte>, i: nat, e: nat, hi: seq<hex>) returns (p: Part)
    requires i + 6 <= e < |s| && s[i] == BACKSLASH && s[i + 1] == LOWER_U && Piece(s, i, e).Some?
    requires |hi| == 4 && HexText(hi) == s[i + 2..i + 6] && Hex4(s, i + 2) == UnitValue(hi)
    requires IsHighSurrogate(UnitValue(hi))
    ensures ValidPart(p) && Piece(s, i, e).value == Parsed(PartMeaning(p), i + |PartText(p)|)
    ensures At(s, i, PartText(p)) && i + |PartText(p)| <= e
  {
    hide HexValue, IsHex, Spelled, Hex4, UnitValue, Utf8, HexText;
    if k :| i + 8 <= k < i + 12 && !IsHex(s[k]) {
      Hex4Exactly(s, i + 8, []);
    }
    var lo := HexTextOf(s, i + 8);
    p := Pair(hi, lo);
    var start := ['\\' as int, 'u' as int];
    assert s[i..i + 12] == s[i..i + 2] + s[i + 2..i + 6] + s[i + 6..i + 8] + s[i + 8..i + 12];
    assert s[i..i + 2] == start && s[i + 6..i + 8] == start;
  }

  // ---------- bodies ----------

  /** The parts end at the closing quote, or with it. */
  ghost predicate Reach(parts: seq<Part>, i: nat, e: nat) {
    || i + |PartsText(parts)| == e
    || (parts != [] && parts[|parts| - 1] == Short('\"' as int) && i + |PartsText(parts)| == e + 1)
  }

  lemma ReachStep(parts: seq<Part>, i: nat, e: nat)
    requires parts != []
    ensures Reach(parts, i, e) ==>
      && i < e && i + |PartText(parts[0])| <= (if parts[0].Short? then e + 1 else e)
      && Reach(parts[1..], i + |PartText(parts[0])|, e + (if i + |PartText(parts[0])| == e + 1 then 1 else 0))
    ensures Reach(parts[1..], i + |PartText(parts[0])|, e) ==> Reach(parts, i, e)
  {
    hide PartText;
    ShortText(parts[|parts| - 1]);
    if |parts| > 1 {
      LastLength(parts[1..]);
    }
  }

  lemma ShortText(p: Part)
    ensures p == Short('\"' as int) ==> |PartText(p)| == 2
  {
  }

  lemma {:induction false} LastLength(parts: seq<Part>)
    requires parts != []
    ensures |PartsText(parts)| >= |PartText(parts[|parts| - 1])|
  {
    hide PartText;
    if |parts| > 1 {
      LastLength(parts[1..]);
    }
  }

  lemma {:induction false} DecodeParts(s: seq<byte>, i: nat, e: nat, parts: seq<Part>)
    requires ValidParts(parts) && At(s, i, PartsText(parts)) && e < |s| && Reach(parts, i, e)
    ensures i <= e + 1 && DecodeString(s, i, e) == Some(PartsMeaning(parts))
    decreases |parts|
  {
    hide PartText, PartMeaning, Piece, At, ValidPart;
    if parts == [] {
    } else {
      ReachStep(parts, i, e);
      AtConcat(s, i, PartText(parts[0]), PartsText(parts[1..]));
      PieceOfPart(s, i, e, parts[0]);
      if parts[1..] != [] {
        LastLength(parts[1..]);
        DecodeParts(s, i + |PartText(parts[0])|, e, parts[1..]);
      }
    }
  }

  lemma {:induction false} PartsOf(s: seq<byte>, i: nat, e: nat) returns (parts: seq<Part>)
    requires i <= e < |s| && s[e] == QUOTE && DecodeString(s, i, e).Some?
    ensures ValidParts(parts) && At(s, i, PartsText(parts)) && Reach(parts, i, e)
    ensures DecodeString(s, i, e) == Some(PartsMeaning(parts))
    decreases e - i
  {
    hide PartText, PartMeaning, Piece, ValidPart;
    if i == e {
      parts := [];
    } else {
      var p := PartOfPiece(s, i, e);
      var next := i + |PartText(p)|;
      if next == e + 1 {
        parts := [p];
        PartsCons(p, []);
        assert PartText(p) + [] == PartText(p) && PartMeaning(p) + [] == PartMeaning(p) && parts == [p] + [];
      } else {
        hide PartsText, PartsMeaning, ValidParts, Reach;
        var rest := PartsOf(s, next, e);
        parts := [p] + rest;
        PartsCons(p, rest);
        ReachStep(parts, i, e);
        assert s[i..next] + s[next..next + |PartsText(rest)|] == s[i..next + |PartsText(rest)|];
      }
    }
  }

  lemma PartsCons(p: Part, rest: seq<Part>)
    requires ValidPart(p) && ValidParts(rest)
    ensures ([p] + rest)[0] == p && ([p] + rest)[1..] == rest && ValidParts([p] + rest)
    ensures PartsText([p] + rest) == PartText(p) + PartsText(rest)
    ensures PartsMeaning([p] + rest) == PartMeaning(p) + PartsMeaning(rest)
  {
    hide PartText, PartMeaning, ValidPart;
    assert ([p] + rest)[1..] == rest;
  }

  /** The sizing scan finds the quote that closes the string by the grammar. */
  lemma {:induction false} FindCloseExactly(s: seq<byte>, a: nat, i: nat, e: nat)
    requires a <= i <= |s| && Backslashes(s, a, i) % 2 == 0
    ensures FindClose(s, i) == Some(e) <==>
      && i <= e < |s| && s[e] == '\"' as int && Backslashes(s, a, e) % 2 == 0
      && forall k | i <= k < e && s[k] == '\"' as int :: Backslashes(s, a, k) % 2 == 1
    decreases |s| - i
  {
    if i == |s| {
    } else if s[i] == QUOTE {
    } else if s[i] != BACKSLASH {
      FindCloseExactly(s, a, i + 1, e);
    } else if i + 1 < |s| {
      assert Backslashes(s, a, i + 1) == Backslashes(s, a, i) + 1;
      assert s[i + 1] == BACKSLASH ==> Backslashes(s, a, i + 2) == Backslashes(s, a, i) + 2;
      FindCloseExactly(s, a, i + 2, e);
    }
  }

  lemma {:induction false} BackslashesMove(s: seq<byte>, a: nat, t: seq<byte>, k: nat)
    requires k <= |t| && a + k <= |s| && s[a..a + k] == t[..k]
    ensures Backslashes(s, a, a + k) == Backslashes(t, 0, k)
  {
    if k > 0 {
      assert s[a + (k - 1)] == s[a..a + k][k - 1] == t[..k][k - 1] == t[k - 1];
      assert s[a..a + (k - 1)] == s[a..a + k][..k - 1] == t[..k][..k - 1] == t[..k - 1];
      BackslashesMove(s, a, t, k - 1);
    }
  }

  /** Where a body closes depends on its bytes alone. */
  lemma ClosesMove(s: seq<byte>, a: nat, body: seq<byte>)
    requires At(s, a, body + ['\"' as int])
    ensures Closes(s, a, a + |body|) <==> Closes(body + ['\"' as int], 0, |body|)
  {
    var t := body + ['\"' as int];
    forall k | 0 <= k < |t| ensures s[a + k] == t[k] && Backslashes(s, a, a + k) == Backslashes(t, 0, k) {
      AtIndex(s, a, t, k);
      assert s[a..a + k] == s[a..a + |t|][..k] == t[..k];
      BackslashesMove(s, a, t, k);
    }
    if Closes(t, 0, |body|) {
      forall k | a <= k < a + |body| && s[k] == '\"' as int ensures Backslashes(s, a, k) % 2 == 1 {
        assert s[a + (k - a)] == t[k - a];
      }
      assert s[a + |body|] == t[|body|];
    }
    if Closes(s, a, a + |body|) {
      forall k | 0 <= k < |body| && t[k] == '\"' as int ensures Backslashes(t, 0, k) % 2 == 1 {
        assert s[a + k] == t[k];
      }
    }
  }

  /** Every string of the grammar is read, as what its parts mean. */
  lemma StringRead(s: seq<byte>, o: nat, body: seq<byte>, parts: seq<Part>)
    requires Body(body, parts) && At(s, o, ['\"' as int] + body + ['\"' as int])
    ensures o < |s| && s[o] == QUOTE && ParseString(s, o) == Some(Parsed(PartsMeaning(parts), o + |body| + 2))
  {
    hide FindClose, DecodeString, ValidParts, PartsMeaning, PartsText, Backslashes, Closes, At, Reach;
    var e := o + 1 + |body|;
    assert ['\"' as int] + body + ['\"' as int] == ['\"' as int] + (body + ['\"' as int]);
    AtConcat(s, o, ['\"' as int], body + ['\"' as int]);
    AtIndex(s, o, ['\"' as int], 0);
    BodyAt(s, o + 1, body, parts);
    ClosesMove(s, o + 1, body);
    ClosedFound(s, o + 1, e);
    DecodeParts(s, o + 1, e, parts);
  }

  lemma BodyAt(s: seq<byte>, a: nat, body: seq<byte>, parts: seq<Part>)
    requires Body(body, parts) && At(s, a, body + ['\"' as int])
    ensures a + |body| < |s| && At(s, a, PartsText(parts)) && Reach(parts, a, a + |body|)
  {
    hide PartsText, ValidParts, Closes;
    AtConcat(s, a, body, ['\"' as int]);
  }

  lemma ClosedFound(s: seq<byte>, a: nat, e: nat)
    requires a <= |s|
    ensures FindClose(s, a) == Some(e) <==> Closes(s, a, e)
  {
    FindCloseExactly(s, a, a, e);
  }

  /** And nothing else is: whatever is read as a string is one by the grammar. */
  lemma StringOf(s: seq<byte>, o: nat) returns (body: seq<byte>, parts: seq<Part>)
    requires o < |s| && ParseString(s, o).Some?
    ensures Body(body, parts) && At(s, o, ['\"' as int] + body + ['\"' as int])
    ensures ParseString(s, o) == Some(Parsed(PartsMeaning(parts), o + |body| + 2))
  {
    hide FindClose, DecodeString, ValidParts, PartsMeaning, Backslashes, Closes, PartsText;
    var e := FindClose(s, o + 1).value;
    ClosedFound(s, o + 1, e);
    body := s[o + 1..e];
    parts := PartsOf(s, o + 1, e);
    var q := '\"' as int;
    assert s[o..e + 1] == [q] + body + [q];
    assert s[o + 1..e + 1] == body + [q];
    ClosesMove(s, o + 1, body);
    BodyText(s, o + 1, e, parts);
  }

  lemma BodyText(s: seq<byte>, a: nat, e: nat, parts: seq<Part>)
    requires a <= e < |s| && s[e] == '\"' as int && At(s, a, PartsText(parts)) && Reach(parts, a, e)
    ensures PartsText(parts) == s[a..e]
         || (parts != [] && parts[|parts| - 1] == Short('\"' as int) && PartsText(parts) == s[a..e] + ['\"' as int])
  {
    hide PartsText;
    assert s[a..e + 1] == s[a..e] + [s[e]];
  }

  // ---------- the strings of RFC 8259 ----------

  /** Parts as section 7 of RFC 8259 has them: quotes and backslashes only in escapes, hex digits behind `u`. */
  ghost predicate Tidy(parts: seq<Part>) {
    forall i | 0 <= i < |parts| :: ValidPart(parts[i]) && TidyPart(parts[i])
  }

  predicate TidyPart(p: Part) { p != Raw('\"' as int) && !p.Junk? }

  /** So far every quote is escaped, and no backslash is left open. */
  ghost predicate Balanced(t: seq<byte>) {
    && Backslashes(t, 0, |t|) % 2 == 0
    && forall k | 0 <= k < |t| && t[k] == '\"' as int :: Backslashes(t, 0, k) % 2 == 1
  }

  lemma BackslashesExtend(t: seq<byte>, x: seq<byte>, k: nat)
    requires k <= |t|
    ensures Backslashes(t + x, 0, k) == Backslashes(t, 0, k)
  {
    assert (t + x)[0..0 + k] == t[..k];
    BackslashesMove(t + x, 0, t, k);
  }

  /** One more byte that is no backslash and no quote. */
  lemma BalancedByte(t: seq<byte>, c: byte)
    requires Balanced(t) && c != '\\' as int && c != '\"' as int
    ensures Balanced(t + [c])
  {
    forall k | 0 <= k <= |t| ensures Backslashes(t + [c], 0, k) == Backslashes(t, 0, k) {
      BackslashesExtend(t, [c], k);
    }
  }

  lemma EscapeRun(t: seq<byte>, c: byte)
    ensures var u := t + ['\\' as int, c];
      && Backslashes(u, 0, |t| + 1) == Backslashes(u, 0, |t|) + 1
      && Backslashes(u, 0, |t| + 2) == if c == '\\' as int then Backslashes(u, 0, |t| + 1) + 1 else 0
  {
    var u := t + ['\\' as int, c];
    assert u[|t| + 1 - 1] == '\\' as int && u[|t| + 2 - 1] == c;
  }

  /** One more escape of two bytes. */
  lemma BalancedEscape(t: seq<byte>, c: byte)
    requires Balanced(t)
    ensures Balanced(t + ['\\' as int, c])
  {
    hide Backslashes;
    var u := t + ['\\' as int, c];
    EscapeRun(t, c);
    forall k | 0 <= k <= |t| ensures Backslashes(u, 0, k) == Backslashes(t, 0, k) {
      BackslashesExtend(t, ['\\' as int, c], k);
    }
  }

  lemma {:induction false} BalancedBytes(t: seq<byte>, w: seq<byte>)
    requires Balanced(t) && forall k | 0 <= k < |w| :: w[k] != '\\' as int && w[k] != '\"' as int
    ensures Balanced(t + w)
    decreases |w|
  {
    hide Balanced;
    if w == [] {
      assert t + w == t;
    } else {
      BalancedByte(t, w[0]);
      BalancedBytes(t + [w[0]], w[1..]);
      assert t + [w[0]] + w[1..] == t + w;
    }
  }

  lemma HexTextPlain(u: seq<hex>)
    ensures forall k | 0 <= k < |HexText(u)| :: HexText(u)[k] != '\\' as int && HexText(u)[k] != '\"' as int
  {
    hide Spelled;
    forall k | 0 <= k < |HexText(u)| ensures HexText(u)[k] != '\\' as int && HexText(u)[k] != '\"' as int {
      SpelledIsHex(u[k]);
    }
  }

  lemma SpelledIsHex(h: hex)
    ensures IsHex(Spelled(h))
  {
  }

  lemma BalancedPart(t: seq<byte>, p: Part)
    requires Balanced(t) && ValidPart(p) && TidyPart(p)
    ensures Balanced(t + PartText(p))
  {
    hide Balanced, HexText;
    var start := ['\\' as int, 'u' as int];
    match p
    case Raw(c) => BalancedByte(t, c);
    case Short(c) => BalancedEscape(t, c);
    case Unit(u) =>
      BalancedEscape(t, 'u' as int);
      HexTextPlain(u);
      BalancedBytes(t + start, HexText(u));
      assert t + start + HexText(u) == t + PartText(p);
    case Pair(hi, lo) =>
      BalancedEscape(t, 'u' as int);
      HexTextPlain(hi);
      HexTextPlain(lo);
      BalancedBytes(t + start, HexText(hi));
      BalancedEscape(t + start + HexText(hi), 'u' as int);
      BalancedBytes(t + start + HexText(hi) + start, HexText(lo));
      assert t + start + HexText(hi) + start + HexText(lo) == t + PartText(p);
  }

  lemma {:induction false} BalancedParts(t: seq<byte>, parts: seq<Part>)
    requires Balanced(t) && Tidy(parts)
    ensures Balanced(t + PartsText(parts))
    decreases |parts|
  {
    hide Balanced, PartText, ValidPart, TidyPart;
    if parts == [] {
      assert t + [] == t;
    } else {
      BalancedPart(t, parts[0]);
      BalancedParts(t + PartText(parts[0]), parts[1..]);
      assert t + PartText(parts[0]) + PartsText(parts[1..]) == t + PartsText(parts);
    }
  }

  /** Every string of RFC 8259 is a string of the grammar. */
  lemma TidyBody(parts: seq<Part>)
    requires Tidy(parts)
    ensures Body(PartsText(parts), parts)
  {
    hide PartsText, ValidPart, TidyPart;
    var t := PartsText(parts);
    assert [] + t == t;
    BalancedParts([], parts);
    var u := t + ['\"' as int];
    forall k | 0 <= k <= |t| ensures Backslashes(u, 0, k) == Backslashes(t, 0, k) {
      BackslashesExtend(t, ['\"' as int], k);
    }
  }

  /** Every scalar value, its code units spelled in any mix of cases, is decoded to its UTF-8 form. */
  lemma EveryUtf16Spelling(cp: nat, u: seq<hex>, hi: seq<hex>, lo: seq<hex>)
    requires IsScalar(cp) && |u| == |hi| == |lo| == 4
    requires cp < 0x10000 ==> UnitValue(u) == cp
    requires cp >= 0x10000 ==>
      UnitValue(hi) == 0xD800 + (cp - 0x10000) / 0x400 && UnitValue(lo) == 0xDC00 + (cp - 0x10000) % 0x400
    ensures var p := if cp < 0x10000 then Unit(u) else Pair(hi, lo);
      ValidPart(p) && TidyPart(p) && PartMeaning(p) == Utf8(cp)
  {
    hide Utf8;
  }
}
