/** `cJSON_Minify`: what it keeps of a text, and the loops that do so in place. */
module Minification {
  import opened Bytes

  predicate White(c: byte) { c == SPACE || c == TAB || c == RETURN || c == NEWLINE }

  /** Bytes of a one-line comment behind its "//". */
  function LineComment(t: seq<byte>): (n: nat)
    ensures n <= |t|
  {
    if t == [] then 0 else if t[0] == NEWLINE then 1 else 1 + LineComment(t[1..])
  }

  /** Bytes of a comment behind its opening. */
  function BlockComment(t: seq<byte>): (n: nat)
    ensures n <= |t|
  {
    if t == [] then 0
    else if t[0] == STAR && |t| > 1 && t[1] == SLASH then 2
    else 1 + BlockComment(t[1..])
  }

  /** The bytes skipped at a slash. */
  function Skipped(t: seq<byte>): (r: nat)
    requires t != [] && t[0] == SLASH
    ensures 0 < r <= |t|
  {
    if |t| > 1 && t[1] == SLASH then 2 + LineComment(t[2..])
    else if |t| > 1 && t[1] == STAR then 2 + BlockComment(t[2..])
    else 1
  }

  /** Bytes `minify_string` copies behind an opening quote: a quote behind a backslash does not close. */
  function StringRest(t: seq<byte>): (n: nat)
    ensures n <= |t|
  {
    if t == [] then 0
    else if t[0] == QUOTE then 1
    else if t[0] == BACKSLASH && |t| > 1 && t[1] == QUOTE then 2 + StringRest(t[2..])
    else 1 + StringRest(t[1..])
  }

  /** What is kept of a text. */
  function Minified(t: seq<byte>): (r: seq<byte>)
    ensures |r| <= |t|
  {
    if t == [] then []
    else if White(t[0]) then Minified(t[1..])
    else if t[0] == SLASH then
      Minified(t[Skipped(t)..])
    else if t[0] == QUOTE then
      var n := 1 + StringRest(t[1..]);
      t[..n] + Minified(t[n..])
    else [t[0]] + Minified(t[1..])
  }

  // ---------- the loops ----------

  /** From `i` on, the text in the block ends at `n`. */
  ghost predicate Ends(s: seq<byte>, i: nat, n: nat) {
    i <= n < |s| && s[n] == NUL && NulFree(s[i..n])
  }

  lemma EndsAt(s: seq<byte>, i: nat, n: nat, j: nat)
    requires Ends(s, i, n) && i <= j <= n
    ensures s[j] == NUL <==> j == n
  {
    assert j < n ==> s[i..n][j - i] == s[j];
  }

  lemma EndsLater(s: seq<byte>, i: nat, n: nat, j: nat)
    requires Ends(s, i, n) && i <= j <= n
    ensures Ends(s, j, n)
  {
    assert s[j..n] == s[i..n][j - i..];
  }

  lemma Next(s: seq<byte>, i: nat, k: nat, n: nat)
    requires i + k <= n <= |s|
    ensures s[i..n][k..] == s[i + k..n]
  {
  }

  method SkipOnelineComment(json: array<byte>, i: nat, ghost n: nat) returns (j: nat)
    requires Ends(json[..], i, n) && i + 2 <= n
    ensures j == i + 2 + LineComment(json[..][i + 2..n])
  {
    j := i + 2;
    EndsAt(json[..], i, n, j);
    while json[j] != NUL
      invariant i + 2 <= j <= n && (json[j] == NUL <==> j == n)
      invariant LineComment(json[..][i + 2..n]) == j - (i + 2) + LineComment(json[..][j..n])
      decreases n - j
    {
      Next(json[..], j, 1, n);
      if json[j] == NEWLINE {
        return j + 1;
      }
      j := j + 1;
      EndsAt(json[..], i, n, j);
    }
  }

  method SkipMultilineComment(json: array<byte>, i: nat, ghost n: nat) returns (j: nat)
    requires Ends(json[..], i, n) && i + 2 <= n
    ensures j == i + 2 + BlockComment(json[..][i + 2..n])
  {
    j := i + 2;
    EndsAt(json[..], i, n, j);
    while json[j] != NUL
      invariant i + 2 <= j <= n && (json[j] == NUL <==> j == n)
      invariant BlockComment(json[..][i + 2..n]) == j - (i + 2) + BlockComment(json[..][j..n])
      decreases n - j
    {
      Next(json[..], j, 1, n);
      EndsAt(json[..], i, n, j + 1);
      if json[j] == STAR && json[j + 1] == SLASH {
        return j + 2;
      }
      j := j + 1;
    }
  }

  /** The block after the bytes from `i0` to `i` have been copied down to `o0`. */
  ghost function Pasted(was: seq<byte>, o0: nat, i0: nat, i: nat): (r: seq<byte>)
    requires o0 <= i0 <= i <= |was|
    ensures |r| == |was|
  {
    was[..o0] + was[i0..i] + was[o0 + (i - i0)..]
  }

  lemma PasteOne(was: seq<byte>, o0: nat, i0: nat, i: nat)
    requires o0 <= i0 <= i < |was|
    ensures Pasted(was, o0, i0, i)[i] == was[i]
    ensures Pasted(was, o0, i0, i)[o0 + (i - i0) := was[i]] == Pasted(was, o0, i0, i + 1)
  {
  }

  /** `(*output)[0] = (*input)[0]` in the middle of a copy. */
  method CopyByte(json: array<byte>, input: nat, output: nat, i: nat, ghost was: seq<byte>)
    requires output <= input <= i < |was| && json[..] == Pasted(was, output, input, i)
    modifies json
    ensures json[..] == Pasted(was, output, input, i + 1)
  {
    PasteOne(was, output, input, i);
    json[output + (i - input)] := json[i];
  }

  lemma StringStep(t: seq<byte>, i: nat, n: nat)
    requires Ends(t, i, n) && i < n
    ensures t[i] == QUOTE ==> StringRest(t[i..n]) == 1
    ensures t[i] == BACKSLASH && t[i + 1] == QUOTE ==> i + 2 <= n && StringRest(t[i..n]) == 2 + StringRest(t[i + 2..n])
    ensures t[i] != QUOTE && !(t[i] == BACKSLASH && t[i + 1] == QUOTE) ==>
      StringRest(t[i..n]) == 1 + StringRest(t[i + 1..n])
  {
    Next(t, i, 1, n);
    EndsAt(t, i, n, i + 1);
    if i + 2 <= n { Next(t, i, 2, n); }
  }

  /** Copying down does not disturb what has not been read. */
  lemma PastedBehind(was: seq<byte>, o0: nat, i0: nat, i: nat, j: nat)
    requires o0 <= i0 <= i <= j + 1 <= |was| && i0 <= j
    ensures Pasted(was, o0, i0, i)[j] == was[j]
  {
  }

  lemma NothingPasted(was: seq<byte>, o0: nat, i0: nat)
    requires o0 <= i0 <= |was|
    ensures Pasted(was, o0, i0, i0) == was
  {
  }

  /** `minify_string`: input and output advance together over the whole string. */
  method MinifyString(json: array<byte>, input: nat, output: nat, ghost n: nat) returns (i: nat, o: nat)
    requires Ends(json[..], input, n) && output <= input < n
    modifies json
    ensures i == input + 1 + StringRest(old(json[..])[input + 1..n]) && i - input == o - output
    ensures json[..] == Pasted(old(json[..]), output, input, i)
  {
    hide Pasted, StringRest;
    ghost var was := json[..];
    NothingPasted(was, output, input);
    i, o := input, output;
    CopyByte(json, input, output, i, was);
    i, o := i + 1, o + 1;
    EndsAt(was, input, n, i);
    PastedBehind(was, output, input, i, i);
    while json[i] != NUL
      invariant input < i <= n < |was| == json.Length && i - input == o - output
      invariant json[..] == Pasted(was, output, input, i)
      invariant json[..][i] == was[i] && (was[i] == NUL <==> i == n)
      invariant 1 + StringRest(was[input + 1..n]) == i - input + StringRest(was[i..n])
      decreases n - i
    {
      EndsLater(was, input, n, i);
      StringStep(was, i, n);
      CopyByte(json, input, output, i, was);
      PastedBehind(was, output, input, i + 1, i);
      PastedBehind(was, output, input, i + 1, i + 1);
      if json[i] == QUOTE {
        i, o := i + 1, o + 1;
        return;
      } else if json[i] == BACKSLASH && json[i + 1] == QUOTE {
        CopyByte(json, input, output, i + 1, was);
        PastedBehind(was, output, input, i + 2, i + 2);
        i, o := i + 1, o + 1;
      }
      i, o := i + 1, o + 1;
      EndsAt(was, input, n, i);
    }
  }

  /** What one round of the main loop does to the text that is left. */
  lemma MinifiedStep(t: seq<byte>, i: nat, n: nat)
    requires Ends(t, i, n) && i < n
    ensures var rest := Minified(t[i..n]);
      && (White(t[i]) ==> rest == Minified(t[i + 1..n]))
      && (t[i] == SLASH ==>
            var j := i + Skipped(t[i..n]);
            rest == Minified(t[j..n]))
      && (t[i] == QUOTE ==>
            var j := i + 1 + StringRest(t[i + 1..n]);
            rest == t[i..j] + Minified(t[j..n]))
      && (!White(t[i]) && t[i] != SLASH && t[i] != QUOTE ==> rest == [t[i]] + Minified(t[i + 1..n]))
  {
    hide StringRest, White, Skipped, NulFree;
    var s := t[i..n];
    Next(t, i, 1, n);
    if t[i] == SLASH {
      MinifiedSlash(s);
      Next(t, i, Skipped(s), n);
    } else if t[i] == QUOTE {
      MinifiedQuote(s);
      var m := 1 + StringRest(s[1..]);
      Next(t, i, m, n);
      assert s[..m] == t[i..i + m];
    }
  }

  /** The comment ends behind the first newline, or with the text. */
  lemma {:induction false} LineCommentEnds(t: seq<byte>)
    ensures var n := LineComment(t);
      if n > 0 && t[n - 1] == NEWLINE then NEWLINE !in t[..n - 1] else n == |t| && NEWLINE !in t
  {
    if t != [] && t[0] != NEWLINE {
      LineCommentEnds(t[1..]);
      var n := LineComment(t[1..]);
      assert t == [t[0]] + t[1..];
      if n > 0 { assert t[..n] == [t[0]] + t[1..][..n - 1]; }
    }
  }

  predicate ClosesComment(t: seq<byte>, k: nat) {
    k + 1 < |t| && t[k] == STAR && t[k + 1] == SLASH
  }

  /** The comment ends behind the first star that a slash follows, or with the text. */
  lemma {:induction false} BlockCommentEnds(t: seq<byte>)
    ensures var n := BlockComment(t);
      if n >= 2 && ClosesComment(t, n - 2) then forall k: nat | k < n - 2 :: !ClosesComment(t, k)
      else n == |t| && forall k: nat | k < |t| :: !ClosesComment(t, k)
  {
    if t != [] && !ClosesComment(t, 0) {
      BlockCommentEnds(t[1..]);
      forall k: nat | 0 < k < |t| ensures ClosesComment(t, k) == ClosesComment(t[1..], k - 1) {
      }
    }
  }

  predicate ClosesString(t: seq<byte>, k: nat) {
    k < |t| && t[k] == QUOTE && (k == 0 || t[k - 1] != BACKSLASH)
  }

  /** The string ends behind the first quote that does not stand directly behind a backslash, or with the text. */
  lemma {:induction false} StringRestEnds(t: seq<byte>)
    ensures var n := StringRest(t);
      if n > 0 && ClosesString(t, n - 1) then forall k: nat | k < n - 1 :: !ClosesString(t, k)
      else n == |t| && forall k: nat | k < |t| :: !ClosesString(t, k)
    decreases |t|
  {
    if t != [] && t[0] != QUOTE {
      var j := if t[0] == BACKSLASH && |t| > 1 && t[1] == QUOTE then 2 else 1;
      StringRestEnds(t[j..]);
      forall k: nat | j <= k < |t| ensures ClosesString(t, k) == ClosesString(t[j..], k - j) {
      }
    }
  }

  /** A string keeps its end whatever follows. */
  lemma {:induction false} StringRestLocal(t: seq<byte>, rest: seq<byte>)
    requires StringRest(t) > 0 && ClosesString(t, StringRest(t) - 1)
    ensures StringRest(t[..StringRest(t)] + rest) == StringRest(t)
    decreases |t|
  {
    if t[0] != QUOTE {
      var j := if t[0] == BACKSLASH && |t| > 1 && t[1] == QUOTE then 2 else 1;
      var n := StringRest(t);
      StringRestEnds(t[j..]);
      StringRestLocal(t[j..], rest);
      assert (t[..n] + rest)[j..] == t[j..][..n - j] + rest;
    }
  }

  // ---------- what is kept, piece by piece ----------

  /** Space, tab, line feed and carriage return go; any other byte outside strings and comments stays. */
  lemma MinifiedByte(c: byte, t: seq<byte>)
    requires c != '\"' as int && c != '/' as int
    ensures Minified([c] + t)
         == (if c == ' ' as int || c == '\t' as int || c == '\n' as int || c == '\r' as int then [] else [c])
            + Minified(t)
  {
    assert ([c] + t)[1..] == t;
  }

  /** A slash that begins no comment goes by itself. */
  lemma MinifiedSlashAlone(t: seq<byte>)
    requires t == [] || (t[0] != '/' as int && t[0] != '*' as int)
    ensures Minified(['/' as int] + t) == Minified(t)
  {
    assert (['/' as int] + t)[1..] == t;
  }

  lemma {:induction false} LineCommentLength(x: seq<byte>, t: seq<byte>)
    requires '\n' as int !in x
    ensures LineComment(x + ['\n' as int] + t) == |x| + 1 && LineComment(x) == |x|
  {
    var u := x + ['\n' as int] + t;
    if x != [] {
      LineCommentLength(x[1..], t);
      assert u[1..] == x[1..] + ['\n' as int] + t;
      assert x[0] in x && forall c | c in x[1..] :: c in x;
    }
  }

  /** A one-line comment goes with its line end, or with the text. */
  lemma MinifiedLineComment(x: seq<byte>, t: seq<byte>)
    requires '\n' as int !in x
    ensures Minified(['/' as int, '/' as int] + x + ['\n' as int] + t) == Minified(t)
    ensures Minified(['/' as int, '/' as int] + x) == []
  {
    hide LineComment;
    LineCommentLength(x, t);
    var u, v := ['/' as int, '/' as int] + x + ['\n' as int] + t, ['/' as int, '/' as int] + x;
    assert u[2..] == x + ['\n' as int] + t && v[2..] == x;
    assert u[2 + |x| + 1..] == t && v[2 + |x|..] == [];
  }

  lemma {:induction false} BlockCommentLength(x: seq<byte>, t: seq<byte>)
    requires forall k: nat | k < |x| :: !ClosesComment(x, k)
    ensures BlockComment(x + ['*' as int, '/' as int] + t) == |x| + 2 && BlockComment(x) == |x|
  {
    var u := x + ['*' as int, '/' as int] + t;
    if x != [] {
      forall k: nat | k < |x[1..]| ensures !ClosesComment(x[1..], k) {
        assert !ClosesComment(x, k + 1);
      }
      BlockCommentLength(x[1..], t);
      assert u[1..] == x[1..] + ['*' as int, '/' as int] + t;
      assert !ClosesComment(x, 0);
    }
  }

  lemma MinifiedSkip(p: seq<byte>, t: seq<byte>)
    requires p != [] && p[0] == SLASH && Skipped(p + t) == |p|
    ensures Minified(p + t) == Minified(t)
  {
    hide Skipped;
    assert (p + t)[|p|..] == t;
    MinifiedSlash(p + t);
  }

  lemma MinifiedKeep(p: seq<byte>, t: seq<byte>)
    requires p != [] && p[0] == QUOTE && 1 + StringRest(p[1..] + t) == |p|
    ensures Minified(p + t) == p + Minified(t)
  {
    hide StringRest;
    assert (p + t)[1..] == p[1..] + t && (p + t)[..|p|] == p && (p + t)[|p|..] == t;
    MinifiedQuote(p + t);
  }

  /** The bytes between the marks of a block comment and its end. */
  function Block(x: seq<byte>): seq<byte> {
    ['/' as int, '*' as int] + x + ['*' as int, '/' as int]
  }

  lemma SkippedBlock(x: seq<byte>, t: seq<byte>)
    requires forall k: nat | k < |x| :: !ClosesComment(x, k)
    ensures Skipped(Block(x) + t) == |Block(x)|
    ensures Skipped(['/' as int, '*' as int] + x) == |x| + 2
  {
    hide BlockComment, LineComment, ClosesComment;
    BlockCommentLength(x, t);
    assert (Block(x) + t)[2..] == x + ['*' as int, '/' as int] + t;
    assert (['/' as int, '*' as int] + x)[2..] == x;
  }

  /** Any other comment goes with its end, or with the text. */
  lemma MinifiedBlockComment(x: seq<byte>, t: seq<byte>)
    requires forall k: nat | k < |x| :: !ClosesComment(x, k)
    ensures Minified(['/' as int, '*' as int] + x + ['*' as int, '/' as int] + t) == Minified(t)
    ensures Minified(['/' as int, '*' as int] + x) == []
  {
    hide Minified, ClosesComment, Skipped;
    MinifiedBlock(x, t);
    MinifiedOpenBlock(x);
  }

  lemma MinifiedBlock(x: seq<byte>, t: seq<byte>)
    requires forall k: nat | k < |x| :: !ClosesComment(x, k)
    ensures Minified(Block(x) + t) == Minified(t)
  {
    SkippedBlock(x, t);
    assert Block(x)[0] == SLASH;
    hide Minified, Skipped, ClosesComment, Block;
    MinifiedSkip(Block(x), t);
  }

  lemma MinifiedOpenBlock(x: seq<byte>)
    requires forall k: nat | k < |x| :: !ClosesComment(x, k)
    ensures Minified(['/' as int, '*' as int] + x) == []
  {
    hide Minified, Skipped, ClosesComment;
    SkippedBlock(x, []);
    var v := ['/' as int, '*' as int] + x;
    MinifiedSlash(v);
    assert v[|v|..] == [];
    MinifiedNothing();
  }

  lemma MinifiedNothing()
    ensures Minified([]) == []
  {
  }

  /** A string stays as it is up to the first quote that does not stand directly behind a backslash. */
  lemma MinifiedText(x: seq<byte>, t: seq<byte>)
    requires forall k: nat | k < |x| :: !ClosesString(x, k)
    ensures x == [] || x[|x| - 1] != '\\' as int ==>
              Minified(['\"' as int] + x + ['\"' as int] + t) == ['\"' as int] + x + ['\"' as int] + Minified(t)
    ensures Minified(['\"' as int] + x) == ['\"' as int] + x
  {
    hide Minified, ClosesString;
    MinifiedOpenText(x);
    if x == [] || x[|x| - 1] != '\\' as int {
      MinifiedClosed(x, t);
    }
  }

  lemma MinifiedOpenText(x: seq<byte>)
    requires forall k: nat | k < |x| :: !ClosesString(x, k)
    ensures Minified(['\"' as int] + x) == ['\"' as int] + x
  {
    hide Minified;
    StringRestEnds(x);
    hide StringRest, ClosesString;
    var v := ['\"' as int] + x;
    assert StringRest(x) == |x|;
    assert v[1..] == x && v[|v|..] == [] && v[..|v|] == v;
    MinifiedQuote(v);
    MinifiedNothing();
  }

  lemma MinifiedClosed(x: seq<byte>, t: seq<byte>)
    requires forall k: nat | k < |x| :: !ClosesString(x, k)
    requires x == [] || x[|x| - 1] != '\\' as int
    ensures Minified(['\"' as int] + x + ['\"' as int] + t) == ['\"' as int] + x + ['\"' as int] + Minified(t)
  {
    hide StringRest, Minified;
    ClosedLength(x, t);
    var p := ['\"' as int] + x + ['\"' as int];
    assert p[1..] == x + ['\"' as int];
    MinifiedKeep(p, t);
  }

  lemma ClosedLength(x: seq<byte>, t: seq<byte>)
    requires forall k: nat | k < |x| :: !ClosesString(x, k)
    requires x == [] || x[|x| - 1] != '\\' as int
    ensures StringRest(x + ['\"' as int] + t) == |x| + 1
  {
    hide StringRest;
    var b := x + ['\"' as int];
    forall k: nat | k < |x| ensures !ClosesString(b, k) {
      assert !ClosesString(x, k);
    }
    assert ClosesString(b, |x|);
    StringRestEnds(b);
    StringRestLocal(b, t);
    assert b[..|b|] == b;
  }

  /** Minifying twice is minifying once. */
  lemma {:induction false} MinifyTwice(t: seq<byte>)
    ensures Minified(Minified(t)) == Minified(t)
    decreases |t|
  {
    hide StringRest, Skipped;
    if t == [] {
    } else if White(t[0]) {
      MinifyTwice(t[1..]);
    } else if t[0] == SLASH {
      MinifyTwice(t[Skipped(t)..]);
    } else if t[0] == QUOTE {
      var n := 1 + StringRest(t[1..]);
      MinifyTwice(t[n..]);
      StringTwice(t, Minified(t[n..]));
    } else {
      MinifyTwice(t[1..]);
      assert ([t[0]] + Minified(t[1..]))[1..] == Minified(t[1..]);
    }
  }

  /** The text of a string stays, and what follows it is minified. */
  lemma StringTwice(t: seq<byte>, rest: seq<byte>)
    requires t != [] && t[0] == QUOTE && Minified(rest) == rest
    requires 1 + StringRest(t[1..]) == |t| ==> rest == []
    ensures var n := 1 + StringRest(t[1..]); Minified(t[..n] + rest) == t[..n] + rest
  {
    hide StringRest, Minified;
    var n := 1 + StringRest(t[1..]);
    var p := t[..n];
    assert p[1..] == t[1..][..n - 1];
    StringRestEnds(t[1..]);
    if n > 1 && ClosesString(t[1..], n - 2) {
      StringRestLocal(t[1..], rest);
    } else {
      assert p[1..] + [] == t[1..];
    }
    hide ClosesString;
    MinifiedKeep(p, rest);
  }

  lemma MinifiedSlash(s: seq<byte>)
    requires s != [] && s[0] == SLASH
    ensures Minified(s) == Minified(s[Skipped(s)..])
  {
  }

  lemma MinifiedQuote(s: seq<byte>)
    requires s != [] && s[0] == QUOTE
    ensures var m := 1 + StringRest(s[1..]); m <= |s| && Minified(s) == s[..m] + Minified(s[m..])
  {
  }

  /** From the write position on the block is as it was. */
  lemma Behind(s: seq<byte>, was: seq<byte>, o: nat, i: nat, n: nat)
    requires o <= i <= n < |was| == |s| && s[o..] == was[o..] && Ends(was, i, n)
    ensures Ends(s, i, n) && s[i] == was[i] && s[i + 1..] == was[i + 1..]
    ensures forall j | i <= j <= n :: s[j..n] == was[j..n] && s[j] == was[j]
  {
    assert forall j | o <= j < |s| :: s[j] == s[o..][j - o] == was[o..][j - o] == was[j];
    assert s[i..n] == was[i..n];
  }

  method SkipSlash(json: array<byte>, i: nat, ghost n: nat) returns (j: nat)
    requires Ends(json[..], i, n) && i < n && json[i] == SLASH
    ensures j == i + Skipped(json[..][i..n])
  {
    EndsAt(json[..], i, n, i + 1);
    if json[i + 1] == SLASH {
      Next(json[..], i, 2, n);
      j := SkipOnelineComment(json, i, n);
    } else if json[i + 1] == STAR {
      Next(json[..], i, 2, n);
      j := SkipMultilineComment(json, i, n);
    } else {
      j := i + 1;
    }
  }

  /** Written so far and still to be minified together make up the result. */
  ghost predicate Progress(s: seq<byte>, was: seq<byte>, i: nat, o: nat, n: nat) {
    && o <= i && Ends(was, i, n) && |s| == |was| && s[o..] == was[o..]
    && Minified(was[..n]) == s[..o] + Minified(was[i..n])
  }

  lemma Finished(s: seq<byte>, was: seq<byte>, o: nat, n: nat)
    requires Progress(s, was, n, o, n)
    ensures Minified(was[..n]) == s[..o]
    ensures s[o := NUL] == s[..o] + [NUL] + was[o + 1..]
  {
    assert was[n..n] == [];
    assert s[o + 1..] == s[o..][1..] == was[o..][1..];
  }

  lemma Skip(s: seq<byte>, was: seq<byte>, i: nat, o: nat, n: nat, j: nat)
    requires Progress(s, was, i, o, n) && i <= j <= n && Minified(was[i..n]) == Minified(was[j..n])
    ensures Progress(s, was, j, o, n)
  {
    hide Minified;
    EndsLater(was, i, n, j);
  }

  lemma Copied(before: seq<byte>, s: seq<byte>, was: seq<byte>, i: nat, o: nat, n: nat, j: nat)
    requires Progress(before, was, i, o, n) && i <= j <= n && s == Pasted(before, o, i, j)
    requires Minified(was[i..n]) == was[i..j] + Minified(was[j..n])
    ensures Progress(s, was, j, o + (j - i), n)
  {
    hide Minified, Ends;
    EndsLater(was, i, n, j);
    var p := o + (j - i);
    assert forall k | o <= k < |was| :: before[k] == before[o..][k - o] == was[o..][k - o] == was[k];
    assert before[i..j] == was[i..j];
    assert s[p..] == before[p..] == was[p..];
    assert s[..p] == before[..o] + was[i..j];
    assert before[..o] + (was[i..j] + Minified(was[j..n])) == s[..p] + Minified(was[j..n]);
  }

  lemma CopiedOne(before: seq<byte>, was: seq<byte>, o: nat, i: nat)
    requires o <= i < |before| == |was| && before[o..] == was[o..]
    ensures before[o := before[i]] == Pasted(before, o, i, i + 1) && was[i..i + 1] == [was[i]]
  {
  }

  /** The switch on the next byte. */
  method Round(json: array<byte>, i: nat, o: nat, ghost n: nat, ghost was: seq<byte>) returns (i2: nat, o2: nat)
    requires Progress(json[..], was, i, o, n) && i < n
    modifies json
    ensures Progress(json[..], was, i2, o2, n) && i < i2
  {
    hide Minified, Skipped, StringRest, White, Pasted, NulFree;
    ghost var before := json[..];
    Behind(before, was, o, i, n);
    MinifiedStep(was, i, n);
    hide Ends, Progress;
    i2, o2 := i + 1, o;
    if White(json[i]) {
      Skip(before, was, i, o, n, i2);
    } else if json[i] == SLASH {
      i2 := SkipSlash(json, i, n);
      Skip(before, was, i, o, n, i2);
    } else if json[i] == QUOTE {
      i2, o2 := MinifyString(json, i, o, n);
      Copied(before, json[..], was, i, o, n, i2);
    } else {
      CopiedOne(before, was, o, i);
      json[o] := json[i];
      o2 := o + 1;
      Copied(before, json[..], was, i, o, n, i2);
    }
  }

  /**
   * `cJSON_Minify`: the text becomes its minified form, followed by a terminator; the rest of the block
   * keeps its bytes.  The write position never passes the read position.
   */
  method Minify(json: array?<byte>, ghost n: nat)
    requires json != null ==> Ends(json[..], 0, n)
    modifies json
    ensures json != null ==>
      var r := Minified(old(json[..])[..n]);
      |r| <= n && json[..] == r + [NUL] + old(json[..])[|r| + 1..]
  {
    hide Minified, Skipped, StringRest, White, Pasted;
    if json == null {
      return;
    }
    ghost var was := json[..];
    var i: nat, o: nat := 0, 0;
    assert was[0..n] == was[..n];
    while json[i] != NUL
      invariant Progress(json[..], was, i, o, n)
      decreases n - i
    {
      Behind(json[..], was, o, i, n);
      EndsAt(was, i, n, i);
      i, o := Round(json, i, o, n, was);
    }
    Behind(json[..], was, o, i, n);
    EndsAt(was, i, n, i);
    Finished(json[..], was, o, n);
    json[o] := NUL;
  }
}
