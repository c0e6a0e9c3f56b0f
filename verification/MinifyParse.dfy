/** Minifying any text that parses keeps its value, unless a string in it ends in an escaped backslash. */
module MinifiedParse {
  import opened Bytes
  import opened Json
  import opened Unicode
  import opened Numbers
  import opened ParseSpec
  import opened RoundTrip
  import opened Minification

  /** The backslashes directly in front of an index. */
  function Backslashes(s: seq<byte>, i: nat): nat
    requires i <= |s|
  {
    if i == 0 || s[i - 1] != BACKSLASH then 0 else 1 + Backslashes(s, i - 1)
  }

  /** No quote stands behind an escaped backslash, where `minify_string` would take it for an escaped quote. */
  ghost predicate InStep(s: seq<byte>) {
    forall k | 0 <= k < |s| && s[k] == QUOTE :: Backslashes(s, k) == 0 || Backslashes(s, k) % 2 == 1
  }

  /** What `cJSON_Minify` makes of the text from `o` on, and the terminator. */
  function Rest(s: seq<byte>, o: nat): seq<byte>
    requires o < |s|
  {
    Minified(s[o..|s| - 1]) + [NUL]
  }

  /** At `p` in the minified text stands what the text has at `o`. */
  ghost predicate Lined(s: seq<byte>, o: nat, u: seq<byte>, p: nat) {
    && IsText(s) && IsText(u) && o < |s| && p < |u|
    && u[p..] == Rest(s, o)
  }

  lemma LinedEnd(s: seq<byte>, u: seq<byte>, p: nat)
    requires |s| > 0 && Lined(s, |s| - 1, u, p)
    ensures p == |u| - 1 && u[p] == NUL
  {
    assert s[|s| - 1..|s| - 1] == [];
  }

  lemma LinedWhite(s: seq<byte>, o: nat, u: seq<byte>, p: nat)
    requires Lined(s, o, u, p) && o < |s| - 1 && White(s[o])
    ensures Lined(s, o + 1, u, p)
  {
    assert s[o..|s| - 1][1..] == s[o + 1..|s| - 1];
  }

  lemma Splits(u: seq<byte>, p: nat, a: seq<byte>, b: seq<byte>)
    requires p <= |u| && u[p..] == a + b
    ensures p + |a| <= |u| && u[p..p + |a|] == a && u[p + |a|..] == b
    ensures a != [] ==> u[p] == a[0]
  {
    assert u[p..p + |a|] == u[p..][..|a|];
    assert u[p + |a|..] == u[p..][|a|..];
  }

  lemma LinedByte(s: seq<byte>, o: nat, u: seq<byte>, p: nat)
    requires Lined(s, o, u, p) && o < |s| - 1 && !White(s[o]) && s[o] != SLASH && s[o] != QUOTE
    ensures u[p] == s[o] && Lined(s, o + 1, u, p + 1)
  {
    assert s[o..|s| - 1][1..] == s[o + 1..|s| - 1];
    assert Rest(s, o) == [s[o]] + Rest(s, o + 1);
    Splits(u, p, [s[o]], Rest(s, o + 1));
  }

  lemma LinedString(s: seq<byte>, o: nat, u: seq<byte>, p: nat)
    requires Lined(s, o, u, p) && o < |s| - 1 && s[o] == QUOTE
    ensures var n := 1 + StringRest(s[o + 1..|s| - 1]);
      p + n < |u| && o + n < |s| && u[p..p + n] == s[o..o + n] && Lined(s, o + n, u, p + n)
    ensures u[p] == QUOTE
  {
    hide StringRest, Minified, NulFree;
    var t := s[o..|s| - 1];
    assert t[1..] == s[o + 1..|s| - 1];
    var n := 1 + StringRest(t[1..]);
    MinifiedQuote(t);
    assert t[..n] == s[o..o + n] && t[n..] == s[o + n..|s| - 1];
    assert Rest(s, o) == t[..n] + Rest(s, o + n);
    Splits(u, p, s[o..o + n], Rest(s, o + n));
    assert u[p] == u[p..p + n][0];
  }

  /** Bytes that a minified text keeps one by one. */
  lemma {:induction false} LinedRun(s: seq<byte>, o: nat, u: seq<byte>, p: nat, n: nat)
    requires Lined(s, o, u, p) && o + n < |s|
    requires forall k | o <= k < o + n :: s[k] > 32 && s[k] != SLASH && s[k] != QUOTE
    ensures p + n < |u| && Lined(s, o + n, u, p + n) && u[p..p + n] == s[o..o + n]
    decreases n
  {
    hide Lined;
    if n == 0 {
      LinedRange(s, o, u, p);
    } else {
      LinedByte(s, o, u, p);
      LinedRun(s, o + 1, u, p + 1, n - 1);
      assert u[p..p + n] == [u[p]] + u[p + 1..p + 1 + (n - 1)];
      assert s[o..o + n] == [s[o]] + s[o + 1..o + 1 + (n - 1)];
    }
  }

  lemma LinedRange(s: seq<byte>, o: nat, u: seq<byte>, p: nat)
    requires Lined(s, o, u, p)
    ensures IsText(s) && IsText(u) && o < |s| && p < |u|
  {
  }

  /** Skipping white space keeps the texts in line. */
  lemma {:induction false} SkipLined(s: seq<byte>, o: nat, u: seq<byte>, p: nat)
    requires Lined(s, o, u, p) && s[SkipWs(s, o)] != SLASH
    ensures var i, j := SkipWs(s, o), SkipWs(u, p);
      Lined(s, i, u, j) && s[i] == u[j] && (j == p || u[p] <= 32)
    decreases |s| - o
  {
    hide Lined, SkipWs;
    LinedRange(s, o, u, p);
    SkipUnfold(s, o);
    SkipUnfold(u, p);
    if o == |s| - 1 {
      LinedEnd(s, u, p);
    } else if White(s[o]) {
      LinedWhite(s, o, u, p);
      SkipLined(s, o + 1, u, p);
    } else if s[o] == QUOTE {
      LinedString(s, o, u, p);
    } else {
      LinedByte(s, o, u, p);
      if s[o] <= 32 {
        SkipLined(s, o + 1, u, p + 1);
      }
    }
  }

  lemma SkipUnfold(s: seq<byte>, o: nat)
    requires IsText(s) && o < |s|
    ensures s[|s| - 1] == NUL && (o == |s| - 1 <==> s[o] == NUL)
    ensures o == |s| - 1 ==> SkipWs(s, o) == o
    ensures o < |s| - 1 && s[o] <= 32 ==> SkipWs(s, o) == SkipWs(s, o + 1)
    ensures s[o] > 32 ==> SkipWs(s, o) == o
  {
  }

  // ---------- strings ----------

  /** Where every quote is in step, both scans find the same closing quote. */
  lemma {:induction false} CloseAgrees(s: seq<byte>, i: nat)
    requires IsText(s) && i < |s| && InStep(s) && Backslashes(s, i) % 2 == 0 && FindClose(s, i).Some?
    ensures FindClose(s, i).value < |s| - 1 && StringRest(s[i..|s| - 1]) == FindClose(s, i).value - i + 1
    decreases |s| - i
  {
    var m, e := |s| - 1, FindClose(s, i).value;
    assert s[m] == NUL;
    assert i < m;
    if s[i] == QUOTE {
    } else if s[i] != BACKSLASH {
      CloseAgrees(s, i + 1);
      assert s[i..m][1..] == s[i + 1..m];
    } else {
      assert Backslashes(s, i + 1) == Backslashes(s, i) + 1;
      CloseAgrees(s, i + 2);
      assert s[i..m][1..] == s[i + 1..m] && s[i..m][2..] == s[i + 2..m];
      if s[i + 1] == QUOTE {
      } else {
        assert s[i + 1] == BACKSLASH ==> Backslashes(s, i + 2) == Backslashes(s, i) + 2;
        assert s[i + 1..m][1..] == s[i + 2..m];
      }
    }
  }

  /** The two texts agree on a stretch of bytes. */
  ghost predicate Same(s: seq<byte>, o: nat, u: seq<byte>, p: nat, n: nat) {
    o + n <= |s| && p + n <= |u| && u[p..p + n] == s[o..o + n]
  }

  lemma SameAt(s: seq<byte>, o: nat, u: seq<byte>, p: nat, n: nat, k: nat)
    requires Same(s, o, u, p, n) && k < n
    ensures u[p + k] == s[o + k]
  {
    assert u[p + k] == u[p..p + n][k] == s[o..o + n][k];
  }

  lemma SamePart(s: seq<byte>, o: nat, u: seq<byte>, p: nat, n: nat, k: nat, m: nat)
    requires Same(s, o, u, p, n) && k + m <= n
    ensures Same(s, o + k, u, p + k, m)
  {
    SliceOfSlice(s, o, n, k, m);
    SliceOfSlice(u, p, n, k, m);
  }

  lemma SliceOfSlice(s: seq<byte>, o: nat, n: nat, k: nat, m: nat)
    requires o + n <= |s| && k + m <= n
    ensures s[o + k..o + k + m] == s[o..o + n][k..k + m]
  {
    var t, r := s[o..o + n][k..k + m], s[o + k..o + k + m];
    assert forall j | 0 <= j < m :: t[j] == s[o..o + n][k + j] && r[j] == s[o + k + j];
  }

  lemma {:induction false} CloseMoves(s: seq<byte>, o: nat, u: seq<byte>, p: nat, n: nat)
    requires Same(s, o, u, p, n + 1) && FindClose(s, o) == Some(o + n)
    ensures FindClose(u, p) == Some(p + n)
    decreases n
  {
    SameAt(s, o, u, p, n + 1, 0);
    if s[o] != QUOTE {
      var k := if s[o] == BACKSLASH then 2 else 1;
      SamePart(s, o, u, p, n + 1, k, n + 1 - k);
      CloseMoves(s, o + k, u, p + k, n - k);
    }
  }

  lemma Hex4Moves(s: seq<byte>, o: nat, u: seq<byte>, p: nat)
    requires Same(s, o, u, p, 4)
    ensures Hex4(u, p) == Hex4(s, o)
  {
    SameAt(s, o, u, p, 4, 0);
    SameAt(s, o, u, p, 4, 1);
    SameAt(s, o, u, p, 4, 2);
    SameAt(s, o, u, p, 4, 3);
  }

  lemma LiteralMoves(s: seq<byte>, o: nat, u: seq<byte>, p: nat, n: nat)
    requires Same(s, o, u, p, n + 1)
    ensures o + n < |s| && p + n < |u| && Utf16Literal(u, p, p + n) == Utf16Literal(s, o, o + n)
  {
    hide Hex4;
    if n >= 6 {
      SamePart(s, o, u, p, n + 1, 2, 4);
      Hex4Moves(s, o + 2, u, p + 2);
    }
    if n >= 12 {
      SameAt(s, o, u, p, n + 1, 6);
      SameAt(s, o, u, p, n + 1, 7);
      SamePart(s, o, u, p, n + 1, 8, 4);
      Hex4Moves(s, o + 8, u, p + 8);
    }
  }

  lemma PieceMoves(s: seq<byte>, o: nat, u: seq<byte>, p: nat, n: nat)
    requires Same(s, o, u, p, n + 1) && n > 0
    ensures var x, y := Piece(s, o, o + n), Piece(u, p, p + n);
      if x.None? then y.None? else y.Some? && y.value.val == x.value.val && y.value.next - p == x.value.next - o
  {
    hide Utf8, Utf16Literal;
    SameAt(s, o, u, p, n + 1, 0);
    SameAt(s, o, u, p, n + 1, 1);
    LiteralMoves(s, o, u, p, n);
  }

  lemma {:induction false} DecodeMoves(s: seq<byte>, o: nat, u: seq<byte>, p: nat, n: int)
    requires -1 <= n && 0 <= o + n && 0 <= p + n && (n >= 0 ==> Same(s, o, u, p, n + 1)) && o + n < |s| && p + n < |u|
    ensures DecodeString(u, p, p + n) == DecodeString(s, o, o + n)
    decreases n
  {
    hide Piece;
    if n > 0 {
      PieceMoves(s, o, u, p, n);
      var x := Piece(s, o, o + n);
      if x.Some? {
        var k := x.value.next - o;
        if k <= n { SamePart(s, o, u, p, n + 1, k, n + 1 - k); }
        DecodeMoves(s, o + k, u, p + k, n - k);
      }
    }
  }

  /** A string literal keeps its bytes and what it stands for. */
  lemma StringLined(s: seq<byte>, o: nat, u: seq<byte>, p: nat)
    requires Lined(s, o, u, p) && InStep(s) && ParseString(s, o).Some?
    ensures var n := ParseString(s, o).value.next;
      && u[p] == QUOTE && n < |s| && p + (n - o) < |u| && Lined(s, n, u, p + (n - o))
      && ParseString(u, p) == Some(Parsed(ParseString(s, o).value.val, p + (n - o)))
  {
    hide Lined, InStep, FindClose, DecodeString, StringRest;
    LinedRange(s, o, u, p);
    SkipUnfold(s, o);
    var e := FindClose(s, o + 1).value;
    assert Backslashes(s, o + 1) == 0;
    CloseAgrees(s, o + 1);
    LinedString(s, o, u, p);
    var n := e + 1 - o;
    SamePart(s, o, u, p, n, 1, n - 1);
    CloseMoves(s, o + 1, u, p + 1, n - 2);
    DecodeMoves(s, o + 1, u, p + 1, n - 2);
  }

  // ---------- values ----------

  /** Behind the value and its white space stands no number byte and no slash. */
  ghost predicate Closed(s: seq<byte>, n: nat) {
    n < |s| && !NumberByte(s[SkipWs(s, n)]) && s[SkipWs(s, n)] != SLASH
  }

  /** The minified text parses to the same, and is in line behind it. */
  ghost predicate Keeps<T>(s: seq<byte>, x: Option<Parsed<T>>, u: seq<byte>, y: Option<Parsed<T>>) {
    x.Some? && y.Some? && y.value.val == x.value.val && Lined(s, x.value.next, u, y.value.next)
  }

  predicate StartsValue(c: byte) {
    || c == LOWER_N || c == LOWER_F || c == LOWER_T || c == QUOTE
    || c == MINUS || IsDigit(c) || c == LBRACKET || c == LBRACE
  }

  lemma ValueStart(s: seq<byte>, o: nat, d: nat)
    requires IsText(s) && o < |s| && ParseValue(s, o, d).Some?
    ensures StartsValue(s[o])
  {
    hide ParseItems, ParseMembers, ParseString, ParseNumber;
    WordStart(s, o);
  }

  lemma WordStart(s: seq<byte>, o: nat)
    requires o < |s|
    ensures At(s, o, NULL_TEXT) ==> s[o] == LOWER_N
    ensures At(s, o, FALSE_TEXT) ==> s[o] == LOWER_F
    ensures At(s, o, TRUE_TEXT) ==> s[o] == LOWER_T
  {
    if At(s, o, NULL_TEXT) { AtIndex(s, o, NULL_TEXT, 0); }
    if At(s, o, FALSE_TEXT) { AtIndex(s, o, FALSE_TEXT, 0); }
    if At(s, o, TRUE_TEXT) { AtIndex(s, o, TRUE_TEXT, 0); }
  }

  lemma WordLined(s: seq<byte>, o: nat, u: seq<byte>, p: nat, word: seq<byte>)
    requires Lined(s, o, u, p) && word in {NULL_TEXT, FALSE_TEXT, TRUE_TEXT} && At(s, o, word)
    ensures At(u, p, word) && o + |word| < |s| && Lined(s, o + |word|, u, p + |word|)
  {
    hide Lined;
    LinedRange(s, o, u, p);
    forall k | o <= k < o + |word| ensures s[k] > 32 && s[k] != SLASH && s[k] != QUOTE {
      AtIndex(s, o, word, k - o);
    }
    LinedRun(s, o, u, p, |word|);
  }

  lemma NumberLined(s: seq<byte>, o: nat, u: seq<byte>, p: nat)
    requires Lined(s, o, u, p) && ParseNumber(s, o).Some? && Closed(s, ParseNumber(s, o).value.next)
    ensures Keeps(s, ParseNumber(s, o), u, ParseNumber(u, p))
  {
    hide Lined, Strtod, NumberEnd, SkipWs;
    LinedRange(s, o, u, p);
    var e := NumberEnd(s, o, 63);
    assert e < |s| && ParseNumber(s, o).value.next == e by {
      SkipUnfold(s, ParseNumber(s, o).value.next);
    }
    LinedRun(s, o, u, p, e - o);
    SkipLined(s, e, u, p + (e - o));
    SkipUnfold(u, p + (e - o));
    forall k | p <= k < p + (e - o) ensures NumberByte(u[k]) {
      SameAt(s, o, u, p, e - o, k - p);
    }
    RunEnd(u, p, e - o);
    assert u[p..p + (e - o)] == s[o..e];
  }

  lemma {:induction false} ValueLined(s: seq<byte>, o: nat, u: seq<byte>, p: nat, d: nat)
    requires Lined(s, o, u, p) && InStep(s) && ParseValue(s, o, d).Some? && Closed(s, ParseValue(s, o, d).value.next)
    ensures Keeps(s, ParseValue(s, o, d), u, ParseValue(u, p, d))
    decreases |s| - o, 0
  {
    hide Lined, InStep, ParseString, ParseNumber, ParseItems, ParseMembers, Closed, SkipWs, CStr;
    LinedRange(s, o, u, p);
    ValueStart(s, o, d);
    WordStart(s, o);
    WordStart(u, p);
    if At(s, o, NULL_TEXT) {
      WordLined(s, o, u, p, NULL_TEXT);
    } else if At(s, o, FALSE_TEXT) {
      WordLined(s, o, u, p, FALSE_TEXT);
    } else if At(s, o, TRUE_TEXT) {
      WordLined(s, o, u, p, TRUE_TEXT);
    } else if s[o] == QUOTE {
      StringLined(s, o, u, p);
    } else {
      SkipUnfold(s, o);
      LinedByte(s, o, u, p);
      if s[o] == LBRACKET {
        ArrayLined(s, o, u, p, d);
      } else if s[o] == LBRACE {
        ObjectLined(s, o, u, p, d);
      } else {
        NumberLined(s, o, u, p);
      }
    }
  }

  lemma {:induction false} ArrayLined(s: seq<byte>, o: nat, u: seq<byte>, p: nat, d: nat)
    requires Lined(s, o, u, p) && InStep(s) && s[o] == LBRACKET && ParseValue(s, o, d).Some?
    ensures Keeps(s, ParseValue(s, o, d), u, ParseValue(u, p, d))
    decreases |s| - o, 0, 0
  {
    hide Lined, InStep, ParseValue, ParseItems, SkipWs;
    LinedRange(s, o, u, p);
    SkipUnfold(s, o);
    LinedByte(s, o, u, p);
    LinedRange(s, o + 1, u, p + 1);
    ParseArrayAt(s, o, d);
    ParseArrayAt(u, p, d);
    var i, j := SkipWs(s, o + 1), SkipWs(u, p + 1);
    if s[i] == RBRACKET {
      SkipLined(s, o + 1, u, p + 1);
      SkipUnfold(s, i);
      LinedByte(s, i, u, j);
    } else {
      ItemsStart(s, i, d + 1, []);
      SkipLined(s, o + 1, u, p + 1);
      ItemsLined(s, i, u, j, d + 1, []);
    }
  }

  lemma ItemsStart(s: seq<byte>, o: nat, d: nat, acc: seq<Value>)
    requires IsText(s) && o < |s| && ParseItems(s, o, d, acc).Some?
    ensures StartsValue(s[o]) && ParseValue(s, o, d).Some?
    ensures var i := SkipWs(s, ParseValue(s, o, d).value.next); s[i] == COMMA || s[i] == RBRACKET
  {
    hide ParseValue, SkipWs;
    ValueStart(s, o, d);
  }

  lemma {:induction false} ItemsLined(s: seq<byte>, o: nat, u: seq<byte>, p: nat, d: nat, acc: seq<Value>)
    requires Lined(s, o, u, p) && InStep(s) && ParseItems(s, o, d, acc).Some?
    ensures Keeps(s, ParseItems(s, o, d, acc), u, ParseItems(u, p, d, acc))
    decreases |s| - o, 1
  {
    hide Lined, InStep, ParseValue, ParseItems, SkipWs;
    LinedRange(s, o, u, p);
    ItemsStart(s, o, d, acc);
    var x, n := ParseValue(s, o, d).value.val, ParseValue(s, o, d).value.next;
    ValueLined(s, o, u, p, d);
    var m := ParseValue(u, p, d).value.next;
    LinedRange(s, n, u, m);
    ItemsStep(s, o, n, d, x, acc);
    ItemsStep(u, p, m, d, x, acc);
    SkipLined(s, n, u, m);
    var i, j := SkipWs(s, n), SkipWs(u, m);
    SkipUnfold(s, i);
    LinedByte(s, i, u, j);
    if s[i] == COMMA {
      LinedRange(s, i + 1, u, j + 1);
      ItemsStart(s, SkipWs(s, i + 1), d, acc + [x]);
      SkipLined(s, i + 1, u, j + 1);
      ItemsLined(s, SkipWs(s, i + 1), u, SkipWs(u, j + 1), d, acc + [x]);
    }
  }

  lemma {:induction false} ObjectLined(s: seq<byte>, o: nat, u: seq<byte>, p: nat, d: nat)
    requires Lined(s, o, u, p) && InStep(s) && s[o] == LBRACE && ParseValue(s, o, d).Some?
    ensures Keeps(s, ParseValue(s, o, d), u, ParseValue(u, p, d))
    decreases |s| - o, 0, 0
  {
    hide Lined, InStep, ParseValue, ParseMembers, SkipWs;
    LinedRange(s, o, u, p);
    SkipUnfold(s, o);
    LinedByte(s, o, u, p);
    LinedRange(s, o + 1, u, p + 1);
    ParseObjectAt(s, o, d);
    ParseObjectAt(u, p, d);
    var i, j := SkipWs(s, o + 1), SkipWs(u, p + 1);
    if s[i] == RBRACE {
      SkipLined(s, o + 1, u, p + 1);
      SkipUnfold(s, i);
      LinedByte(s, i, u, j);
    } else {
      MembersStart(s, i, d + 1, []);
      SkipLined(s, o + 1, u, p + 1);
      MembersLined(s, i, u, j, d + 1, []);
    }
  }

  lemma MembersStart(s: seq<byte>, o: nat, d: nat, acc: seq<Member>)
    requires IsText(s) && o < |s| && ParseMembers(s, o, d, acc).Some?
    ensures s[o] == QUOTE && ParseMember(s, o, d).Some?
    ensures var i := SkipWs(s, ParseMember(s, o, d).value.next); s[i] == COMMA || s[i] == RBRACE
  {
    hide ParseValue, SkipWs, FindClose, DecodeString;
  }

  lemma {:induction false} MembersLined(s: seq<byte>, o: nat, u: seq<byte>, p: nat, d: nat, acc: seq<Member>)
    requires Lined(s, o, u, p) && InStep(s) && ParseMembers(s, o, d, acc).Some?
    ensures Keeps(s, ParseMembers(s, o, d, acc), u, ParseMembers(u, p, d, acc))
    decreases |s| - o, 2
  {
    hide Lined, InStep, ParseMember, ParseMembers, SkipWs;
    LinedRange(s, o, u, p);
    MembersStart(s, o, d, acc);
    var x, n := ParseMember(s, o, d).value.val, ParseMember(s, o, d).value.next;
    MemberLined(s, o, u, p, d);
    var m := ParseMember(u, p, d).value.next;
    LinedRange(s, n, u, m);
    MembersStep(s, o, n, d, x, acc);
    MembersStep(u, p, m, d, x, acc);
    SkipLined(s, n, u, m);
    var i, j := SkipWs(s, n), SkipWs(u, m);
    SkipUnfold(s, i);
    LinedByte(s, i, u, j);
    if s[i] == COMMA {
      LinedRange(s, i + 1, u, j + 1);
      MembersStart(s, SkipWs(s, i + 1), d, acc + [x]);
      SkipLined(s, i + 1, u, j + 1);
      MembersLined(s, SkipWs(s, i + 1), u, SkipWs(u, j + 1), d, acc + [x]);
    }
  }

  lemma {:induction false} MemberLined(s: seq<byte>, o: nat, u: seq<byte>, p: nat, d: nat)
    requires Lined(s, o, u, p) && InStep(s) && ParseMember(s, o, d).Some? && Closed(s, ParseMember(s, o, d).value.next)
    ensures Keeps(s, ParseMember(s, o, d), u, ParseMember(u, p, d))
    decreases |s| - o, 1
  {
    hide Lined, InStep, ParseValue, ParseString, SkipWs, Closed;
    LinedRange(s, o, u, p);
    StringLined(s, o, u, p);
    var n, m := ParseString(s, o).value.next, ParseString(u, p).value.next;
    var i, j := SkipWs(s, n), SkipWs(u, m);
    SkipLined(s, n, u, m);
    SkipUnfold(s, i);
    LinedByte(s, i, u, j);
    LinedRange(s, i + 1, u, j + 1);
    ValueStart(s, SkipWs(s, i + 1), d);
    SkipLined(s, i + 1, u, j + 1);
    ValueLined(s, SkipWs(s, i + 1), u, SkipWs(u, j + 1), d);
  }

  // ---------- whole texts ----------

  /** Minifying brings no terminator into a text. */
  lemma {:induction false} MinifiedNulFree(t: seq<byte>)
    requires NulFree(t)
    ensures NulFree(Minified(t))
    decreases |t|
  {
    hide StringRest, Skipped;
    if t != [] {
      if White(t[0]) {
        MinifiedNulFree(t[1..]);
      } else if t[0] == SLASH {
        MinifiedNulFree(t[Skipped(t)..]);
      } else if t[0] == QUOTE {
        MinifiedNulFree(t[1 + StringRest(t[1..])..]);
      } else {
        MinifiedNulFree(t[1..]);
      }
    }
  }

  lemma StartLined(s: seq<byte>, u: seq<byte>)
    requires Lined(s, 0, u, 0) && StartsValue(s[SkipWs(s, Start(s))])
    ensures Lined(s, SkipWs(s, Start(s)), u, SkipWs(u, Start(u)))
  {
    hide Lined, SkipWs;
    LinedRange(s, 0, u, 0);
    if Start(s) == 3 {
      forall k | 0 <= k < 3 ensures s[k] == BOM[k] { AtIndex(s, 0, BOM, k); }
      LinedRun(s, 0, u, 0, 3);
      assert u[0..3] == BOM;
      SkipLined(s, 3, u, 3);
      LinedRange(s, SkipWs(s, 3), u, SkipWs(u, 3));
      SkipUnfold(u, SkipWs(u, 3));
    } else {
      SkipLined(s, 0, u, 0);
      SkipUnfold(u, 0);
      if At(u, 0, BOM) { AtIndex(u, 0, BOM, 0); }
    }
  }

  /**
   * A text that has a value keeps it when minified, as long as no quote stands behind an escaped
   * backslash; and the minified text has nothing behind that value.
   */
  lemma MinifyKeepsValue(s: seq<byte>)
    requires IsText(s) && InStep(s) && ParseText(s, true).Some?
    ensures var u := Minified(s[..|s| - 1]) + [NUL];
      IsText(u) && ParseText(u, true) == Some(Parsed(ParseText(s, true).value.val, |u| - 1))
  {
    hide InStep, SkipWs, ParseValue, Start, Minified;
    var u := Minified(s[..|s| - 1]) + [NUL];
    MinifiedNulFree(s[..|s| - 1]);
    assert u[..|u| - 1] == Minified(s[..|s| - 1]);
    assert s[0..|s| - 1] == s[..|s| - 1] && u[0..] == u;
    assert Lined(s, 0, u, 0);
    hide Lined;
    var o := SkipWs(s, Start(s));
    var n := ParseValue(s, o, 0).value.next;
    ValueStart(s, o, 0);
    StartLined(s, u);
    SkipUnfold(s, SkipWs(s, n));
    ValueLined(s, o, u, SkipWs(u, Start(u)), 0);
    SkipLined(s, n, u, ParseValue(u, SkipWs(u, Start(u)), 0).value.next);
    LinedEnd(s, u, SkipWs(u, ParseValue(u, SkipWs(u, Start(u)), 0).value.next));
  }
}
