/** `sdscatrepr` quotes any bytes; `sdssplitargs` reads such quotations back. */
module SdsQuote {
  import opened Bytes
  import opened Json
  import opened Unicode
  import opened SdsLayout
  import opened SdsStrings
  import opened SdsSplit

  /** `isspace` and `isprint` in the C locale. */
  predicate IsSpace(c: byte) { c == SPACE || 9 <= c <= 13 }

  predicate IsPrint(c: byte) { 32 <= c < 127 }

  // ---------- quoting ----------

  function ReprByte(c: byte): seq<byte> {
    if c == BACKSLASH || c == QUOTE then [BACKSLASH, c]
    else if c == NEWLINE then [BACKSLASH, LOWER_N]
    else if c == RETURN then [BACKSLASH, LOWER_R]
    else if c == TAB then [BACKSLASH, LOWER_T]
    else if c == BELL then [BACKSLASH, LOWER_A]
    else if c == BACKSPACE then [BACKSLASH, LOWER_B]
    else if IsPrint(c) then [c]
    else [BACKSLASH, LOWER_X, HexDigit(c / 16), HexDigit(c % 16)]
  }

  function ReprBytes(p: seq<byte>): seq<byte> {
    if p == [] then [] else ReprByte(p[0]) + ReprBytes(p[1..])
  }

  function Repr(p: seq<byte>): seq<byte> { [QUOTE] + ReprBytes(p) + [QUOTE] }

  // ---------- splitting ----------

  datatype Quoting = Bare | Double | Single

  datatype Lexed = Lexed(token: seq<byte>, next: nat)

  /** The byte an escape stands for inside double quotes. */
  function Unescape(c: byte): byte {
    if c == LOWER_N then NEWLINE
    else if c == LOWER_R then RETURN
    else if c == LOWER_T then TAB
    else if c == LOWER_B then BACKSPACE
    else if c == LOWER_A then BELL
    else c
  }

  /** A closing quote must be followed by a space or nothing at all. */
  predicate EndsArg(c: byte) { c == NUL || IsSpace(c) }

  /** An escape of four bytes at `p`. */
  predicate HexEscape(s: seq<byte>, p: nat) {
    p + 3 < |s| && s[p] == BACKSLASH && s[p + 1] == LOWER_X && HexValue(s[p + 2]).Some? && HexValue(s[p + 3]).Some?
  }

  /** One argument from `p` on, `cur` having been read, and where the next search begins. */
  function Lex(s: seq<byte>, p: nat, q: Quoting, cur: seq<byte>): (r: Option<Lexed>)
    requires IsText(s) && p < |s|
    ensures r.Some? ==> p <= r.value.next < |s| && (s[p] != NUL ==> p < r.value.next)
    decreases |s| - p
  {
    TextEnd(s, p);
    match q
    case Double =>
      if HexEscape(s, p) then
        TextEnd(s, p + 3);
        Lex(s, p + 4, q, cur + [HexValue(s[p + 2]).value * 16 + HexValue(s[p + 3]).value])
      else if s[p] == BACKSLASH && s[p + 1] != NUL then
        TextEnd(s, p + 1);
        Lex(s, p + 2, q, cur + [Unescape(s[p + 1])])
      else if s[p] == QUOTE then
        if EndsArg(s[p + 1]) then Some(Lexed(cur, p + 1)) else None
      else if s[p] == NUL then None
      else Lex(s, p + 1, q, cur + [s[p]])
    case Single =>
      if s[p] == BACKSLASH && s[p + 1] == APOSTROPHE then
        TextEnd(s, p + 1);
        Lex(s, p + 2, q, cur + [APOSTROPHE])
      else if s[p] == APOSTROPHE then
        if EndsArg(s[p + 1]) then Some(Lexed(cur, p + 1)) else None
      else if s[p] == NUL then None
      else Lex(s, p + 1, q, cur + [s[p]])
    case Bare =>
      if s[p] == NUL then Some(Lexed(cur, p))
      else if s[p] == SPACE || s[p] == NEWLINE || s[p] == RETURN || s[p] == TAB then Some(Lexed(cur, p + 1))
      else if s[p] == QUOTE then Lex(s, p + 1, Double, cur)
      else if s[p] == APOSTROPHE then Lex(s, p + 1, Single, cur)
      else Lex(s, p + 1, q, cur + [s[p]])
  }

  /** Only the last byte of a text is NUL. */
  lemma TextEnd(s: seq<byte>, p: nat)
    requires IsText(s) && p < |s|
    ensures s[p] != NUL <==> p + 1 < |s|
  {
    assert p + 1 < |s| ==> s[..|s| - 1][p] == s[p];
  }

  function SkipSpace(s: seq<byte>, p: nat): (r: nat)
    requires IsText(s) && p < |s|
    ensures p <= r < |s| && !IsSpace(s[r]) && forall k | p <= k < r :: IsSpace(s[k])
    decreases |s| - p
  {
    TextEnd(s, p);
    if IsSpace(s[p]) then SkipSpace(s, p + 1) else p
  }

  /** All arguments of the line; none for unbalanced or badly placed quotes. */
  function Args(s: seq<byte>, p: nat, acc: seq<seq<byte>>): Option<seq<seq<byte>>>
    requires IsText(s) && p < |s|
    decreases |s| - p
  {
    var b := SkipSpace(s, p);
    if s[b] == NUL then Some(acc)
    else
      var r := Lex(s, b, Bare, []);
      if r == None then None else Args(s, r.value.next, acc + [r.value.token])
  }

  // ---------- the loops ----------

  /** The inner loop of `sdssplitargs`: one token. */
  method LexArg(line: seq<byte>, start: nat) returns (r: Option<Lexed>)
    requires IsText(line) && start < |line|
    ensures r == Lex(line, start, Bare, [])
  {
    var p: nat := start;
    var inq, insq, done := false, false, false;
    var current: seq<byte> := [];
    while !done
      invariant p < |line| && !(inq && insq)
      invariant Lex(line, start, Bare, [])
             == if done then Some(Lexed(current, p))
                else Lex(line, p, if inq then Double else if insq then Single else Bare, current)
      decreases if done then 0 else |line| - p
    {
      TextEnd(line, p);
      if p + 1 < |line| { TextEnd(line, p + 1); }
      if inq {
        if HexEscape(line, p) {
          TextEnd(line, p + 3);
          current := current + [HexValue(line[p + 2]).value * 16 + HexValue(line[p + 3]).value];
          p := p + 3;
        } else if line[p] == BACKSLASH && line[p + 1] != NUL {
          p := p + 1;
          current := current + [Unescape(line[p])];
        } else if line[p] == QUOTE {
          if line[p + 1] != NUL && !IsSpace(line[p + 1]) {
            return None;
          }
          done := true;
        } else if line[p] == NUL {
          return None;
        } else {
          current := current + [line[p]];
        }
      } else if insq {
        if line[p] == BACKSLASH && line[p + 1] == APOSTROPHE {
          p := p + 1;
          current := current + [APOSTROPHE];
        } else if line[p] == APOSTROPHE {
          if line[p + 1] != NUL && !IsSpace(line[p + 1]) {
            return None;
          }
          done := true;
        } else if line[p] == NUL {
          return None;
        } else {
          current := current + [line[p]];
        }
      } else {
        if line[p] == SPACE || line[p] == NEWLINE || line[p] == RETURN || line[p] == TAB || line[p] == NUL {
          done := true;
        } else if line[p] == QUOTE {
          inq := true;
        } else if line[p] == APOSTROPHE {
          insq := true;
        } else {
          current := current + [line[p]];
        }
      }
      if line[p] != NUL { p := p + 1; }
    }
    return Some(Lexed(current, p));
  }

  /** `sdssplitargs`: it ends on every line. */
  method SplitArgs(line: seq<byte>) returns (argv: Option<seq<seq<byte>>>)
    requires IsText(line)
    ensures argv == Args(line, 0, [])
  {
    var p := 0;
    var vector: seq<seq<byte>> := [];
    while true
      invariant p < |line| && Args(line, 0, []) == Args(line, p, vector)
      decreases |line| - p
    {
      ghost var from := p;
      while line[p] != NUL && IsSpace(line[p])
        invariant from <= p < |line| && SkipSpace(line, from) == SkipSpace(line, p)
        decreases |line| - p
      {
        TextEnd(line, p);
        p := p + 1;
      }
      if line[p] != NUL {
        var r := LexArg(line, p);
        if r == None {
          return None;
        }
        vector := vector + [r.value.token];
        p := r.value.next;
      } else {
        return Some(vector);
      }
    }
  }

  // ---------- the round trip ----------

  lemma LexByte(s: seq<byte>, p: nat, c: byte, cur: seq<byte>)
    requires IsText(s) && At(s, p, ReprByte(c)) && p + |ReprByte(c)| < |s|
    ensures Lex(s, p, Double, cur) == Lex(s, p + |ReprByte(c)|, Double, cur + [c])
  {
    var e := ReprByte(c);
    AtIndex(s, p, e, 0);
    TextEnd(s, p);
    if |e| >= 2 { AtIndex(s, p, e, 1); }
    if |e| == 4 {
      AtIndex(s, p, e, 2);
      AtIndex(s, p, e, 3);
    }
  }

  lemma {:induction false} LexRepr(s: seq<byte>, p: nat, bytes: seq<byte>, cur: seq<byte>)
    requires IsText(s) && At(s, p, ReprBytes(bytes) + [QUOTE])
    requires var e := p + |ReprBytes(bytes)| + 1; e < |s| && EndsArg(s[e])
    ensures Lex(s, p, Double, cur) == Some(Lexed(cur + bytes, p + |ReprBytes(bytes)| + 1))
    decreases bytes
  {
    hide ReprByte;
    if bytes == [] {
      AtIndex(s, p, [QUOTE], 0);
      assert cur + [] == cur;
    } else {
      var c, rest := bytes[0], bytes[1..];
      assert ReprBytes(bytes) + [QUOTE] == ReprByte(c) + (ReprBytes(rest) + [QUOTE]);
      AtConcat(s, p, ReprByte(c), ReprBytes(rest) + [QUOTE]);
      LexByte(s, p, c, cur);
      LexRepr(s, p + |ReprByte(c)|, rest, cur + [c]);
      assert cur + [c] + rest == cur + bytes;
    }
  }

  function Reprs(list: seq<seq<byte>>): (r: seq<seq<byte>>)
    ensures |r| == |list|
  {
    if list == [] then [] else [Repr(list[0])] + Reprs(list[1..])
  }

  /** The quotations with single spaces between them. */
  function Line(list: seq<seq<byte>>): seq<byte> { Join(Reprs(list), [SPACE]) }

  lemma LineStep(list: seq<seq<byte>>)
    requires list != []
    ensures Line(list) == Repr(list[0]) + (if |list| == 1 then [] else [SPACE] + Line(list[1..]))
  {
    assert Reprs(list)[1..] == Reprs(list[1..]);
    if |list| == 1 {
      assert Repr(list[0]) + [] == Repr(list[0]);
    } else {
      assert Line(list) == Repr(list[0]) + [SPACE] + Line(list[1..]);
    }
  }

  lemma ArgsSkip(s: seq<byte>, p: nat, acc: seq<seq<byte>>)
    requires IsText(s) && p < |s| && IsSpace(s[p])
    ensures p + 1 < |s| && Args(s, p, acc) == Args(s, p + 1, acc)
  {
    TextEnd(s, p);
  }

  lemma LexQuotation(s: seq<byte>, p: nat, bytes: seq<byte>)
    requires IsText(s) && At(s, p, Repr(bytes))
    requires p + |Repr(bytes)| < |s| && EndsArg(s[p + |Repr(bytes)|])
    ensures s[p] == QUOTE && Lex(s, p, Bare, []) == Some(Lexed(bytes, p + |Repr(bytes)|))
  {
    hide ReprBytes;
    assert Repr(bytes) == [QUOTE] + (ReprBytes(bytes) + [QUOTE]);
    AtConcat(s, p, [QUOTE], ReprBytes(bytes) + [QUOTE]);
    AtIndex(s, p, [QUOTE], 0);
    LexRepr(s, p + 1, bytes, []);
    assert [] + bytes == bytes;
  }

  lemma ArgsToken(s: seq<byte>, p: nat, e: nat, bytes: seq<byte>, acc: seq<seq<byte>>)
    requires IsText(s) && p < |s| && s[p] == QUOTE && Lex(s, p, Bare, []) == Some(Lexed(bytes, e))
    ensures e < |s| && Args(s, p, acc) == Args(s, e, acc + [bytes])
  {
    hide Lex;
  }

  lemma ArgsEnd(s: seq<byte>, acc: seq<seq<byte>>)
    requires IsText(s)
    ensures Args(s, |s| - 1, acc) == Some(acc)
  {
  }

  lemma {:induction false} ArgsOfLine(s: seq<byte>, p: nat, list: seq<seq<byte>>, acc: seq<seq<byte>>)
    requires IsText(s) && p + |Line(list)| + 1 == |s| && At(s, p, Line(list))
    ensures Args(s, p, acc) == Some(acc + list)
    decreases |list|
  {
    hide Line, Repr, Lex, Args;
    ArgsEnd(s, acc + list);
    if list == [] {
      LineOfNothing();
      assert acc + [] == acc;
    } else {
      var bytes, rest := list[0], list[1..];
      var text := if |list| == 1 then [] else [SPACE] + Line(rest);
      LineStep(list);
      AtConcat(s, p, Repr(bytes), text);
      var e := p + |Repr(bytes)|;
      if |list| > 1 {
        AtConcat(s, e, [SPACE], Line(rest));
        AtIndex(s, e, [SPACE], 0);
      }
      LexQuotation(s, p, bytes);
      ArgsToken(s, p, e, bytes, acc);
      if |list| > 1 {
        ArgsSkip(s, e, acc + [bytes]);
        ArgsOfLine(s, e + 1, rest, acc + [bytes]);
      } else {
        assert rest == [] && list == [bytes];
      }
      assert acc + [bytes] + rest == acc + list;
    }
  }

  lemma LineOfNothing()
    ensures Line([]) == []
  {
  }

  lemma {:induction false} ReprNulFree(p: seq<byte>)
    ensures NulFree(ReprBytes(p)) && NulFree(Repr(p))
  {
    if p != [] {
      ReprNulFree(p[1..]);
    }
  }

  lemma {:induction false} LineNulFree(list: seq<seq<byte>>)
    ensures NulFree(Line(list))
  {
    hide Line, Repr;
    if list == [] {
      LineOfNothing();
    } else {
      LineStep(list);
      ReprNulFree(list[0]);
      LineNulFree(list[1..]);
    }
  }

  /** Any list of byte strings, NULs included, comes back from the line of its quotations. */
  lemma QuoteThenSplit(list: seq<seq<byte>>)
    ensures IsText(Line(list) + [NUL]) && Args(Line(list) + [NUL], 0, []) == Some(list)
  {
    hide Line;
    var s := Line(list) + [NUL];
    LineNulFree(list);
    assert s[..|s| - 1] == Line(list);
    ArgsOfLine(s, 0, list, []);
    assert [] + list == list;
  }

  // ---------- sdscatrepr ----------

  /** What has been appended and what is left make up the whole. */
  ghost predicate Writing(s: Sds, left: seq<byte>, all: seq<byte>)
    reads s, s.mem, s.heap
  {
    s.Valid() && s.Contents() + left == all && Representable(|all|)
  }

  method CatPiece(s: Sds, t: seq<byte>, ghost left: seq<byte>, ghost all: seq<byte>) returns (ok: bool)
    requires Writing(s, t + left, all)
    modifies s, s.mem, s.heap
    ensures s.Valid() && fresh({s.mem} - {old(s.mem)})
    ensures s.heap.refusals == old(s.heap.refusals) + (if ok then 0 else 1)
    ensures s.OneBlock()
    ensures ok ==> Writing(s, left, all)
  {
    hide Len, Alloc, Grown;
    assert s.Contents() + (t + left) == (s.Contents() + t) + left;
    ok := s.CatLen(t);
  }

  lemma ReprStep(p: seq<byte>, i: nat)
    requires i < |p|
    ensures ReprBytes(p[i..]) + [QUOTE] == ReprByte(p[i]) + (ReprBytes(p[i + 1..]) + [QUOTE])
  {
    assert p[i..][1..] == p[i + 1..];
  }

  lemma WritingStarts(s: Sds, p: seq<byte>)
    requires s.Valid() && Representable(|s.Contents()| + |Repr(p)|)
    ensures Writing(s, [QUOTE] + (ReprBytes(p[0..]) + [QUOTE]), s.Contents() + Repr(p))
  {
    hide Len, Alloc, ReprBytes;
    assert p[0..] == p;
    assert Repr(p) == [QUOTE] + (ReprBytes(p) + [QUOTE]);
  }

  lemma WritingEnds(s: Sds, all: seq<byte>)
    requires Writing(s, [], all)
    ensures s.Valid() && s.Contents() == all
  {
    assert s.Contents() + [] == s.Contents();
  }

  /** `sdscatrepr`: it ends early when memory is refused, which the C code does not test for. */
  method CatRepr(s: Sds, p: seq<byte>) returns (ok: bool)
    requires s.Valid() && Representable(|s.Contents()| + |Repr(p)|)
    modifies s, s.mem, s.heap
    ensures s.Valid() && fresh({s.mem} - {old(s.mem)})
    ensures s.heap.refusals == old(s.heap.refusals) + (if ok then 0 else 1)
    ensures s.OneBlock()
    ensures ok ==> s.Contents() == old(s.Contents()) + Repr(p)
  {
    hide Len, Alloc, ReprByte, ReprBytes, Writing, Representable;
    ghost var all := s.Contents() + Repr(p);
    WritingStarts(s, p);
    ok := CatPiece(s, [QUOTE], ReprBytes(p[0..]) + [QUOTE], all);
    if !ok {
      return;
    }
    var i := 0;
    while i < |p|
      invariant i <= |p| && s.Valid() && fresh({s.mem} - {old(s.mem)})
      invariant s.heap.refusals == old(s.heap.refusals) && Writing(s, ReprBytes(p[i..]) + [QUOTE], all)
      invariant s.OneBlock() && s.block in s.heap.live
    {
      ReprStep(p, i);
      ok := CatPiece(s, ReprByte(p[i]), ReprBytes(p[i + 1..]) + [QUOTE], all);
      if !ok {
        return;
      }
      i := i + 1;
    }
    assert ReprBytes(p[i..]) + [QUOTE] == [QUOTE] + [] by { ReprOfNothing(p[i..]); }
    ok := CatPiece(s, [QUOTE], [], all);
    if ok { WritingEnds(s, all); }
  }

  lemma ReprOfNothing(p: seq<byte>)
    requires p == []
    ensures ReprBytes(p) == []
  {
  }
}
