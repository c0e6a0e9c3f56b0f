/** Bytes, C strings and the ASCII codes the C sources compare against. */
module Bytes {
  type byte = b: int | 0 <= b < 256

  datatype Option<+T> = None | Some(value: T)

  const NUL: byte := 0
  const BELL: byte := 7
  const BACKSPACE: byte := 8
  const TAB: byte := 9
  const NEWLINE: byte := 10
  const FORMFEED: byte := 12
  const RETURN: byte := 13
  const SPACE: byte := 32
  const QUOTE: byte := 34
  const APOSTROPHE: byte := 39
  const STAR: byte := 42
  const PLUS: byte := 43
  const COMMA: byte := 44
  const MINUS: byte := 45
  const PERIOD: byte := 46
  const SLASH: byte := 47
  const ZERO: byte := 48
  const NINE: byte := 57
  const COLON: byte := 58
  const UPPER_A: byte := 65
  const UPPER_E: byte := 69
  const UPPER_F: byte := 70
  const LBRACKET: byte := 91
  const BACKSLASH: byte := 92
  const RBRACKET: byte := 93
  const LOWER_A: byte := 97
  const LOWER_B: byte := 98
  const LOWER_E: byte := 101
  const LOWER_F: byte := 102
  const LOWER_N: byte := 110
  const LOWER_R: byte := 114
  const LOWER_T: byte := 116
  const LOWER_U: byte := 117
  const LOWER_X: byte := 120
  const LBRACE: byte := 123
  const RBRACE: byte := 125

  const INT_MAX: nat := 0x7fff_ffff

  predicate NulFree(s: seq<byte>) {
    forall i | 0 <= i < |s| :: s[i] != NUL
  }

  /** A NUL-terminated text: the terminator is the only NUL. */
  predicate IsText(s: seq<byte>) {
    |s| > 0 && s[|s| - 1] == NUL && NulFree(s[..|s| - 1])
  }

  /** The C string stored in a block: what `strlen` and `%s` see of it. */
  function CStr(s: seq<byte>): (r: seq<byte>)
    ensures NulFree(r) && |r| <= |s| && r == s[..|r|]
    ensures |r| < |s| ==> s[|r|] == NUL
  {
    if s == [] || s[0] == NUL then [] else [s[0]] + CStr(s[1..])
  }

  lemma CStrOfNulFree(s: seq<byte>)
    requires NulFree(s)
    ensures CStr(s) == s
  {
    assert CStr(s) == s[..|CStr(s)|];
  }

  predicate IsDigit(c: byte) { ZERO <= c <= NINE }

  /** `can_read` and `strncmp`: the word stands at the offset. */
  predicate At(s: seq<byte>, o: nat, word: seq<byte>) {
    o + |word| <= |s| && s[o..o + |word|] == word
  }

  lemma AtConcat(s: seq<byte>, o: nat, a: seq<byte>, b: seq<byte>)
    requires At(s, o, a + b)
    ensures At(s, o, a) && At(s, o + |a|, b)
  {
    var t := s[o..o + |a + b|];
    assert s[o..o + |a|] == t[..|a|] == a;
    assert s[o + |a|..o + |a| + |b|] == t[|a|..] == b;
  }

  lemma AtJoin(s: seq<byte>, o: nat, a: seq<byte>, b: seq<byte>)
    requires At(s, o, a) && At(s, o + |a|, b)
    ensures At(s, o, a + b)
  {
    assert s[o..o + |a| + |b|] == s[o..o + |a|] + s[o + |a|..o + |a| + |b|];
  }

  lemma AtIndex(s: seq<byte>, o: nat, a: seq<byte>, k: nat)
    requires At(s, o, a) && k < |a|
    ensures o + |a| <= |s| && s[o + k] == a[k]
  {
    assert s[o + k] == s[o..o + |a|][k];
  }
}
