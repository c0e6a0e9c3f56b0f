/** `sdssplitargs` reads exactly the lines of this grammar. */
module SdsArgs {
  import opened Bytes
  import opened Unicode
  import opened Spelling
  import opened StringGrammar
  import opened SdsQuote

  // ---------- the grammar ----------

  predicate Space(c: byte) { c == ' ' as int || 9 <= c <= 13 }

  /** The white space that ends a token without quotes. */
  predicate Break(c: byte) { c == ' ' as int || c == '\n' as int || c == '\r' as int || c == '\t' as int }

  /** A part of a token in double quotes. */
  datatype Bit =
    | Plain(c: byte)
    | Escaped(c: byte)
    | Coded(hi: hex, lo: hex)

  function BitText(b: Bit): (r: seq<byte>)
    ensures r != []
  {
    match b
    case Plain(c) => [c]
    case Escaped(c) => ['\\' as int, c]
    case Coded(hi, lo) => ['\\' as int, 'x' as int, Spelled(hi), Spelled(lo)]
  }

  function BitMeaning(b: Bit): byte {
    match b
    case Plain(c) => c
    case Escaped(c) =>
      if c == 'n' as int then 10
      else if c == 'r' as int then 13
      else if c == 't' as int then 9
      else if c == 'b' as int then 8
      else if c == 'a' as int then 7
      else c
    case Coded(hi, lo) => 16 * hi.value + lo.value
  }

  function BitsText(bits: seq<Bit>): seq<byte> {
    if bits == [] then [] else BitText(bits[0]) + BitsText(bits[1..])
  }

  function BitsMeaning(bits: seq<Bit>): (r: seq<byte>)
    ensures |r| == |bits|
  {
    seq(|bits|, i requires 0 <= i < |bits| => BitMeaning(bits[i]))
  }

  /** An escaped `x` with two hex digits behind it would be one code. */
  predicate ValidBits(bits: seq<Bit>) {
    bits == [] ||
    (var rest := BitsText(bits[1..]);
     && ValidBits(bits[1..])
     && match bits[0]
        case Plain(c) => c != 0 && c != '\"' as int && c != '\\' as int
        case Escaped(c) => c != 0 && !(c == 'x' as int && |rest| >= 2 && IsHex(rest[0]) && IsHex(rest[1]))
        case Coded(_, _) => true)
  }

  /** In single quotes a backslash only escapes a single quote. */
  function SingleText(t: seq<byte>): seq<byte> {
    if t == [] then [] else SingleByteText(t[0]) + SingleText(t[1..])
  }

  function SingleByteText(c: byte): seq<byte> {
    if c == '\'' as int then ['\\' as int, '\'' as int] else [c]
  }

  /** So a token that ends in a backslash cannot be written that way. */
  predicate ValidSingle(t: seq<byte>) {
    NulFree(t) && (t != [] ==> t[|t| - 1] != '\\' as int)
  }

  datatype Quoted = Unquoted | InDouble(bits: seq<Bit>) | InSingle(text: seq<byte>)

  /** An argument: bytes outside quotes, and then perhaps a quotation. */
  datatype Arg = Arg(bare: seq<byte>, quoted: Quoted)

  function QuotedText(q: Quoted): seq<byte> {
    match q
    case Unquoted => []
    case InDouble(bits) => ['\"' as int] + BitsText(bits) + ['\"' as int]
    case InSingle(text) => ['\'' as int] + SingleText(text) + ['\'' as int]
  }

  function QuotedMeaning(q: Quoted): seq<byte> {
    match q
    case Unquoted => []
    case InDouble(bits) => BitsMeaning(bits)
    case InSingle(text) => text
  }

  predicate ValidQuoted(q: Quoted) {
    match q
    case Unquoted => true
    case InDouble(bits) => ValidBits(bits)
    case InSingle(text) => ValidSingle(text)
  }

  function ArgText(a: Arg): seq<byte> { a.bare + QuotedText(a.quoted) }

  function ArgMeaning(a: Arg): seq<byte> { a.bare + QuotedMeaning(a.quoted) }

  predicate ValidBare(w: seq<byte>) {
    forall k | 0 <= k < |w| :: w[k] != 0 && !Break(w[k]) && w[k] != '\"' as int && w[k] != '\'' as int
  }

  predicate ValidArg(a: Arg) {
    && ValidBare(a.bare) && ValidQuoted(a.quoted)
    && (if a.bare == [] then a.quoted != Unquoted else !Space(a.bare[0]))
  }

  /** An argument and the white space behind it. */
  datatype Word = Word(arg: Arg, after: seq<byte>)

  predicate Spaces(w: seq<byte>) {
    forall k | 0 <= k < |w| :: Space(w[k])
  }

  /** Words are apart, and behind one without quotes the white space ends it. */
  predicate ValidWords(words: seq<Word>) {
    words == [] ||
    (&& ValidWords(words[1..]) && ValidArg(words[0].arg) && Spaces(words[0].after)
     && (|words| > 1 ==> words[0].after != [])
     && (words[0].arg.quoted == Unquoted && words[0].after != [] ==> Break(words[0].after[0])))
  }

  function WordsText(words: seq<Word>): seq<byte> {
    if words == [] then [] else ArgText(words[0].arg) + words[0].after + WordsText(words[1..])
  }

  function WordsMeaning(words: seq<Word>): (r: seq<seq<byte>>)
    ensures |r| == |words|
  {
    seq(|words|, i requires 0 <= i < |words| => ArgMeaning(words[i].arg))
  }

  // ---------- every line of the grammar is read ----------

  /** The parts of a token in double quotes are read one by one. */
  lemma {:induction false} LexBits(s: seq<byte>, p: nat, bits: seq<Bit>, cur: seq<byte>)
    requires IsText(s) && ValidBits(bits) && At(s, p, BitsText(bits))
    requires var e := p + |BitsText(bits)|; e < |s| && !IsHex(s[e])
    ensures Lex(s, p, Double, cur) == Lex(s, p + |BitsText(bits)|, Double, cur + BitsMeaning(bits))
    decreases |bits|
  {
    hide BitText, BitMeaning, NulFree, Lex, IsHex;
    if bits == [] {
      assert cur + [] == cur;
    } else {
      hide At;
      var rest := BitsText(bits[1..]);
      AtConcat(s, p, BitText(bits[0]), rest);
      LexBit(s, p, bits, cur);
      LexBits(s, p + |BitText(bits[0])|, bits[1..], cur + [BitMeaning(bits[0])]);
      assert cur + [BitMeaning(bits[0])] + BitsMeaning(bits[1..]) == cur + BitsMeaning(bits);
    }
  }

  lemma LexBit(s: seq<byte>, p: nat, bits: seq<Bit>, cur: seq<byte>)
    requires IsText(s) && bits != [] && ValidBits(bits)
    requires At(s, p, BitText(bits[0])) && At(s, p + |BitText(bits[0])|, BitsText(bits[1..]))
    requires var e := p + |BitsText(bits)|; e < |s| && !IsHex(s[e])
    ensures p + |BitText(bits[0])| < |s|
    ensures Lex(s, p, Double, cur) == Lex(s, p + |BitText(bits[0])|, Double, cur + [BitMeaning(bits[0])])
  {
    hide IsHex, Spelled, HexValue, Lex;
    var b, rest := bits[0], BitsText(bits[1..]);
    AtIndex(s, p, BitText(b), 0);
    TextEnd(s, p);
    match b
    case Plain(c) => PlainByte(s, p, cur);
    case Escaped(c) =>
      AtIndex(s, p, BitText(b), 1);
      if HexEscape(s, p) {
        HexValueExactly(s[p + 2]);
        HexValueExactly(s[p + 3]);
        if |rest| >= 1 { AtIndex(s, p + 2, rest, 0); }
        if |rest| >= 2 { AtIndex(s, p + 2, rest, 1); }
        assert false;
      }
      EscapedByte(s, p, cur);
    case Coded(hi, lo) =>
      AtIndex(s, p, BitText(b), 1);
      AtIndex(s, p, BitText(b), 2);
      AtIndex(s, p, BitText(b), 3);
      HexValueExactly(s[p + 2]);
      HexValueExactly(s[p + 3]);
      CodedByte(s, p, cur);
  }

  lemma QuoteIsNoHex()
    ensures !IsHex('\"' as int) && !IsHex('\\' as int) && !IsHex(0)
  {
  }

  lemma PlainByte(s: seq<byte>, p: nat, cur: seq<byte>)
    requires IsText(s) && p + 1 < |s| && s[p] != NUL && s[p] != QUOTE && s[p] != BACKSLASH
    ensures Lex(s, p, Double, cur) == Lex(s, p + 1, Double, cur + [s[p]])
  {
  }

  lemma EscapedByte(s: seq<byte>, p: nat, cur: seq<byte>)
    requires IsText(s) && p + 2 < |s| && s[p] == BACKSLASH && s[p + 1] != NUL && !HexEscape(s, p)
    ensures Lex(s, p, Double, cur) == Lex(s, p + 2, Double, cur + [BitMeaning(Escaped(s[p + 1]))])
  {
  }

  lemma CodedByte(s: seq<byte>, p: nat, cur: seq<byte>)
    requires IsText(s) && p + 4 < |s| && HexEscape(s, p)
    ensures Lex(s, p, Double, cur)
         == Lex(s, p + 4, Double, cur + [HexValue(s[p + 2]).value * 16 + HexValue(s[p + 3]).value])
  {
  }

  /** The bytes of a token in single quotes are read one by one. */
  lemma {:induction false} LexSingles(s: seq<byte>, p: nat, t: seq<byte>, cur: seq<byte>)
    requires IsText(s) && NulFree(t) && At(s, p, SingleText(t)) && p + |SingleText(t)| < |s|
    requires t != [] && t[|t| - 1] == '\\' as int ==> s[p + |SingleText(t)|] != '\'' as int
    ensures Lex(s, p, Single, cur) == Lex(s, p + |SingleText(t)|, Single, cur + t)
    decreases |t|
  {
    hide Lex, At, SingleText, SingleByteText, IsText, NulFree;
    if t == [] {
      NoSingle();
      assert cur + [] == cur;
    } else {
      SingleTail(t);
      SingleSplit(t);
      AtConcat(s, p, SingleByteText(t[0]), SingleText(t[1..]));
      LexSingleByte(s, p, t, cur);
      LexSingles(s, p + |SingleByteText(t[0])|, t[1..], cur + [t[0]]);
      assert cur + [t[0]] + t[1..] == cur + t;
    }
  }

  lemma SingleTail(t: seq<byte>)
    requires NulFree(t) && t != []
    ensures NulFree(t[1..]) && t[0] != 0 && (t[1..] != [] ==> t[1..][|t[1..]| - 1] == t[|t| - 1])
    ensures t[1..] == [] && t[|t| - 1] != '\\' as int ==> t != ['\\' as int]
  {
  }

  lemma LexSingleByte(s: seq<byte>, p: nat, t: seq<byte>, cur: seq<byte>)
    requires IsText(s) && t != [] && t[0] != 0 && At(s, p, SingleText(t)) && p + |SingleText(t)| < |s|
    requires t == ['\\' as int] ==> s[p + |SingleText(t)|] != '\'' as int
    ensures p + |SingleByteText(t[0])| < |s| && p < |s|
    ensures Lex(s, p, Single, cur) == Lex(s, p + |SingleByteText(t[0])|, Single, cur + [t[0]])
  {
    hide Lex, At, NulFree, SingleText;
    var c, rest := SingleByteText(t[0]), SingleText(t[1..]);
    SingleSplit(t);
    AtConcat(s, p, c, rest);
    AtIndex(s, p, c, 0);
    if |c| == 2 {
      AtIndex(s, p, c, 1);
      SingleEscape(s, p, cur);
    } else {
      if t[1..] != [] {
        SingleStart(t[1..]);
        AtIndex(s, p + 1, rest, 0);
      } else {
        NoSingle();
        assert t == [t[0]];
      }
      SingleByte(s, p, cur);
    }
  }

  lemma SingleSplit(t: seq<byte>)
    requires t != []
    ensures SingleText(t) == SingleByteText(t[0]) + SingleText(t[1..])
    ensures |SingleText(t)| == |SingleByteText(t[0])| + |SingleText(t[1..])|
  {
  }

  lemma SingleEscape(s: seq<byte>, p: nat, cur: seq<byte>)
    requires IsText(s) && p + 2 < |s| && s[p] == BACKSLASH && s[p + 1] == APOSTROPHE
    ensures Lex(s, p, Single, cur) == Lex(s, p + 2, Single, cur + [APOSTROPHE])
  {
  }

  lemma SingleByte(s: seq<byte>, p: nat, cur: seq<byte>)
    requires IsText(s) && p + 1 < |s| && s[p] != NUL && s[p] != APOSTROPHE
    requires s[p] == BACKSLASH ==> s[p + 1] != APOSTROPHE
    ensures Lex(s, p, Single, cur) == Lex(s, p + 1, Single, cur + [s[p]])
  {
  }

  lemma SingleStart(t: seq<byte>)
    requires t != []
    ensures SingleText(t) != [] && SingleText(t)[0] != '\'' as int
  {
  }

  lemma BareByte(s: seq<byte>, p: nat, cur: seq<byte>)
    requires IsText(s) && p + 1 < |s| && s[p] != 0 && !Break(s[p]) && s[p] != QUOTE && s[p] != APOSTROPHE
    ensures Lex(s, p, Bare, cur) == Lex(s, p + 1, Bare, cur + [s[p]])
  {
  }

  lemma {:induction false} LexBare(s: seq<byte>, p: nat, w: seq<byte>, cur: seq<byte>)
    requires IsText(s) && At(s, p, w) && p + |w| < |s| && ValidBare(w)
    ensures Lex(s, p, Bare, cur) == Lex(s, p + |w|, Bare, cur + w)
    decreases |w|
  {
    hide Lex, At, NulFree;
    if w == [] {
      assert cur + [] == cur;
    } else {
      AtIndex(s, p, w, 0);
      assert w == [w[0]] + w[1..];
      AtConcat(s, p, [w[0]], w[1..]);
      BareByte(s, p, cur);
      LexBare(s, p + 1, w[1..], cur + [w[0]]);
      assert cur + [w[0]] + w[1..] == cur + w;
    }
  }

  /** What may stand behind an argument. */
  predicate Ends(a: Arg, c: byte) {
    c == 0 || (if a.quoted == Unquoted then Break(c) else Space(c))
  }

  lemma ArgRead(s: seq<byte>, p: nat, a: Arg)
    requires IsText(s) && ValidArg(a) && At(s, p, ArgText(a)) && p + |ArgText(a)| < |s| && Ends(a, s[p + |ArgText(a)|])
    ensures var e := p + |ArgText(a)|;
      && s[p] != 0 && !Space(s[p])
      && Lex(s, p, Bare, []) == Some(Lexed(ArgMeaning(a), if a.quoted == Unquoted && s[e] != 0 then e + 1 else e))
  {
    hide ValidQuoted, ValidBare, Lex, At, NulFree, QuotedMeaning, QuotedText, Space, Break, EndsArg;
    var q, m := QuotedText(a.quoted), p + |a.bare|;
    EndsMeans(a, s[p + |ArgText(a)|]);
    AtConcat(s, p, a.bare, q);
    ArgStart(s, p, a);
    NoQuotes();
    LexBare(s, p, a.bare, []);
    assert [] + a.bare == a.bare;
    if a.quoted == Unquoted {
      BareEnds(s, m, a.bare);
      assert a.bare + [] == a.bare;
    } else {
      QuotedRead(s, m, a.quoted, a.bare);
    }
  }

  lemma ArgStart(s: seq<byte>, p: nat, a: Arg)
    requires ValidArg(a) && At(s, p, ArgText(a))
    ensures p < |s| && s[p] != 0 && !Space(s[p])
  {
    hide ValidBits, ValidSingle, BitsText, SingleText;
    AtIndex(s, p, ArgText(a), 0);
  }

  lemma EndsMeans(a: Arg, c: byte)
    requires Ends(a, c)
    ensures if a.quoted == Unquoted then c == 0 || Break(c) else EndsArg(c)
  {
  }

  lemma BareEnds(s: seq<byte>, m: nat, cur: seq<byte>)
    requires IsText(s) && m < |s| && (s[m] == 0 || Break(s[m]))
    ensures Lex(s, m, Bare, cur) == Some(Lexed(cur, if s[m] != 0 then m + 1 else m))
  {
  }

  lemma Opens(s: seq<byte>, m: nat, cur: seq<byte>)
    requires IsText(s) && m + 1 < |s|
    ensures s[m] == QUOTE ==> Lex(s, m, Bare, cur) == Lex(s, m + 1, Double, cur)
    ensures s[m] == APOSTROPHE ==> Lex(s, m, Bare, cur) == Lex(s, m + 1, Single, cur)
  {
  }

  lemma NoQuotes()
    ensures QuotedMeaning(Unquoted) == [] && QuotedText(Unquoted) == []
  {
  }

  lemma QuotedRead(s: seq<byte>, m: nat, q: Quoted, cur: seq<byte>)
    requires IsText(s) && q != Unquoted && ValidQuoted(q) && At(s, m, QuotedText(q))
    requires m + |QuotedText(q)| < |s| && EndsArg(s[m + |QuotedText(q)|])
    ensures Lex(s, m, Bare, cur) == Some(Lexed(cur + QuotedMeaning(q), m + |QuotedText(q)|))
  {
    hide Lex, At, NulFree;
    match q
    case InDouble(bits) => DoubleRead(s, m, bits, cur);
    case InSingle(text) => SingleRead(s, m, text, cur);
  }

  lemma DoubleRead(s: seq<byte>, m: nat, bits: seq<Bit>, cur: seq<byte>)
    requires IsText(s) && ValidBits(bits) && At(s, m, ['\"' as int] + BitsText(bits) + ['\"' as int])
    requires m + |BitsText(bits)| + 2 < |s| && EndsArg(s[m + |BitsText(bits)| + 2])
    ensures Lex(s, m, Bare, cur) == Some(Lexed(cur + BitsMeaning(bits), m + |BitsText(bits)| + 2))
  {
    hide BitsText, BitsMeaning, ValidBits, Lex, At, NulFree, IsHex;
    var q, e := ['\"' as int], m + 1 + |BitsText(bits)|;
    AtConcat(s, m, q + BitsText(bits), q);
    AtConcat(s, m, q, BitsText(bits));
    AtIndex(s, m, q, 0);
    AtIndex(s, e, q, 0);
    QuoteIsNoHex();
    Opens(s, m, cur);
    LexBits(s, m + 1, bits, cur);
    Closing(s, e, cur + BitsMeaning(bits));
  }

  lemma Closing(s: seq<byte>, e: nat, cur: seq<byte>)
    requires IsText(s) && e + 1 < |s|
    ensures s[e] == QUOTE ==> Lex(s, e, Double, cur) == if EndsArg(s[e + 1]) then Some(Lexed(cur, e + 1)) else None
    ensures s[e] == APOSTROPHE ==> Lex(s, e, Single, cur) == if EndsArg(s[e + 1]) then Some(Lexed(cur, e + 1)) else None
  {
  }

  lemma SingleRead(s: seq<byte>, m: nat, t: seq<byte>, cur: seq<byte>)
    requires IsText(s) && ValidSingle(t) && At(s, m, ['\'' as int] + SingleText(t) + ['\'' as int])
    requires m + |SingleText(t)| + 2 < |s| && EndsArg(s[m + |SingleText(t)| + 2])
    ensures Lex(s, m, Bare, cur) == Some(Lexed(cur + t, m + |SingleText(t)| + 2))
  {
    hide SingleText, Lex, At, NulFree;
    var q, e := ['\'' as int], m + 1 + |SingleText(t)|;
    AtConcat(s, m, q + SingleText(t), q);
    AtConcat(s, m, q, SingleText(t));
    AtIndex(s, m, q, 0);
    AtIndex(s, e, q, 0);
    Opens(s, m, cur);
    LexSingles(s, m + 1, t, cur);
    Closing(s, e, cur + t);
  }

  lemma {:induction false} ArgsSpaces(s: seq<byte>, p: nat, w: seq<byte>, acc: seq<seq<byte>>)
    requires IsText(s) && Spaces(w) && At(s, p, w) && p + |w| < |s|
    ensures Args(s, p, acc) == Args(s, p + |w|, acc)
    decreases |w|
  {
    hide Args;
    if w != [] {
      AtIndex(s, p, w, 0);
      ArgsSkip(s, p, acc);
      assert At(s, p + 1, w[1..]) by {
        assert w == [w[0]] + w[1..];
        AtConcat(s, p, [w[0]], w[1..]);
      }
      ArgsSpaces(s, p + 1, w[1..], acc);
    }
  }

  lemma OneArg(s: seq<byte>, p: nat, acc: seq<seq<byte>>)
    requires IsText(s) && p < |s| && s[p] != 0 && !Space(s[p])
    ensures var r := Lex(s, p, Bare, []);
      Args(s, p, acc) == if r == None then None else Args(s, r.value.next, acc + [r.value.token])
  {
    hide Lex;
  }

  lemma WordRead(s: seq<byte>, p: nat, w: Word, acc: seq<seq<byte>>)
    requires IsText(s) && ValidArg(w.arg) && Spaces(w.after) && At(s, p, ArgText(w.arg))
    requires At(s, p + |ArgText(w.arg)|, w.after) && p + |ArgText(w.arg)| + |w.after| < |s|
    requires w.after == [] ==> s[p + |ArgText(w.arg)|] == 0
    requires w.arg.quoted == Unquoted && w.after != [] ==> Break(w.after[0])
    ensures Args(s, p, acc) == Args(s, p + |ArgText(w.arg)| + |w.after|, acc + [ArgMeaning(w.arg)])
  {
    hide Args, Lex, ArgText, ArgMeaning, ValidArg;
    var e, m := p + |ArgText(w.arg)|, ArgMeaning(w.arg);
    if w.after != [] { AtIndex(s, e, w.after, 0); }
    ArgRead(s, p, w.arg);
    OneArg(s, p, acc);
    if w.arg.quoted == Unquoted && s[e] != 0 {
      assert w.after == [w.after[0]] + w.after[1..];
      AtConcat(s, e, [w.after[0]], w.after[1..]);
      ArgsSpaces(s, e + 1, w.after[1..], acc + [m]);
    } else {
      ArgsSpaces(s, e, w.after, acc + [m]);
    }
  }

  lemma {:induction false} WordsRead(s: seq<byte>, p: nat, words: seq<Word>, acc: seq<seq<byte>>)
    requires IsText(s) && ValidWords(words) && At(s, p, WordsText(words)) && p + |WordsText(words)| + 1 == |s|
    ensures Args(s, p, acc) == Some(acc + WordsMeaning(words))
    decreases |words|
  {
    hide Args, ArgText, ArgMeaning, ValidArg;
    if words == [] {
      ArgsEnd(s, acc);
      assert acc + [] == acc;
    } else {
      var w, rest := words[0], words[1..];
      assert WordsText(words) == ArgText(w.arg) + (w.after + WordsText(rest));
      AtConcat(s, p, ArgText(w.arg), w.after + WordsText(rest));
      var e := p + |ArgText(w.arg)|;
      AtConcat(s, e, w.after, WordsText(rest));
      if w.after == [] { assert rest == []; }
      WordRead(s, p, w, acc);
      WordsRead(s, e + |w.after|, rest, acc + [ArgMeaning(w.arg)]);
      assert acc + [ArgMeaning(w.arg)] + WordsMeaning(rest) == acc + WordsMeaning(words);
    }
  }

  // ---------- nothing else is read ----------

  lemma BitsCons(b: Bit, rest: seq<Bit>)
    ensures ([b] + rest)[0] == b && ([b] + rest)[1..] == rest
    ensures BitsText([b] + rest) == BitText(b) + BitsText(rest)
    ensures BitsMeaning([b] + rest) == [BitMeaning(b)] + BitsMeaning(rest)
  {
    hide BitText, BitMeaning;
    assert ([b] + rest)[1..] == rest;
  }

  /** What stands up to a closing double quote. */
  ghost predicate DoubleFound(s: seq<byte>, p: nat, cur: seq<byte>, bits: seq<Bit>)
    requires IsText(s) && p < |s|
  {
    var n := p + |BitsText(bits)| + 1;
    && ValidBits(bits) && At(s, p, BitsText(bits) + ['\"' as int]) && n < |s| && EndsArg(s[n])
    && Lex(s, p, Double, cur) == Some(Lexed(cur + BitsMeaning(bits), n))
  }

  /** Where the token in quotes goes on or ends. */
  lemma DoubleCases(s: seq<byte>, p: nat, cur: seq<byte>)
    requires IsText(s) && p < |s| && Lex(s, p, Double, cur).Some?
    ensures p + 1 < |s| && s[p] != NUL && (HexEscape(s, p) ==> p + 4 < |s|)
    ensures s[p] == BACKSLASH ==> p + 2 < |s| && s[p + 1] != NUL
    ensures s[p] == QUOTE ==> EndsArg(s[p + 1]) && Lex(s, p, Double, cur) == Some(Lexed(cur, p + 1))
  {
    hide NulFree, HexValue;
    TextEnd(s, p);
    if HexEscape(s, p) { TextEnd(s, p + 3); }
    if s[p] == BACKSLASH { TextEnd(s, p + 1); }
  }

  lemma DoubleEnd(s: seq<byte>, p: nat, cur: seq<byte>)
    requires IsText(s) && p + 1 < |s| && s[p] == QUOTE && EndsArg(s[p + 1])
    requires Lex(s, p, Double, cur) == Some(Lexed(cur, p + 1))
    ensures DoubleFound(s, p, cur, [])
  {
    hide Lex, NulFree;
    assert cur + [] == cur;
  }

  lemma {:induction false} DoubleOf(s: seq<byte>, p: nat, cur: seq<byte>) returns (bits: seq<Bit>)
    requires IsText(s) && p < |s| && Lex(s, p, Double, cur).Some?
    ensures DoubleFound(s, p, cur, bits)
    decreases |s| - p
  {
    hide NulFree, IsHex, Spelled, HexValue, Lex, DoubleFound;
    DoubleCases(s, p, cur);
    if HexEscape(s, p) {
      HexValueExactly(s[p + 2]);
      HexValueExactly(s[p + 3]);
      var hi := HexOf(s[p + 2]);
      var lo := HexOf(s[p + 3]);
      CodedByte(s, p, cur);
      var rest := DoubleOf(s, p + 4, cur + [16 * hi.value + lo.value]);
      bits := DoubleCons(s, p, cur, Coded(hi, lo), rest);
    } else if s[p] == BACKSLASH {
      EscapedByte(s, p, cur);
      var rest := DoubleOf(s, p + 2, cur + [BitMeaning(Escaped(s[p + 1]))]);
      bits := DoubleCons(s, p, cur, Escaped(s[p + 1]), rest);
    } else if s[p] == QUOTE {
      bits := [];
      DoubleEnd(s, p, cur);
    } else {
      PlainByte(s, p, cur);
      var rest := DoubleOf(s, p + 1, cur + [s[p]]);
      bits := DoubleCons(s, p, cur, Plain(s[p]), rest);
    }
  }

  /** One more part in front. */
  lemma DoubleCons(s: seq<byte>, p: nat, cur: seq<byte>, b: Bit, rest: seq<Bit>) returns (bits: seq<Bit>)
    requires IsText(s) && p + |BitText(b)| < |s| && At(s, p, BitText(b))
    requires DoubleFound(s, p + |BitText(b)|, cur + [BitMeaning(b)], rest)
    requires Lex(s, p, Double, cur) == Lex(s, p + |BitText(b)|, Double, cur + [BitMeaning(b)])
    requires b.Plain? ==> b.c != 0 && b.c != '\"' as int && b.c != '\\' as int
    requires b.Escaped? ==> b.c != 0 && !HexEscape(s, p)
    ensures DoubleFound(s, p, cur, bits)
  {
    hide Lex, NulFree, IsHex, Spelled, HexValue, BitText, BitMeaning, BitsText, BitsMeaning, ValidBits, At;
    bits := [b] + rest;
    BitsCons(b, rest);
    var q, tail := ['\"' as int], BitsText(rest) + ['\"' as int];
    AtJoin(s, p, BitText(b), tail);
    assert BitsText(bits) + q == BitText(b) + tail;
    assert cur + [BitMeaning(b)] + BitsMeaning(rest) == cur + BitsMeaning(bits);
    AtConcat(s, p + |BitText(b)|, BitsText(rest), q);
    BitFits(s, p, b, rest);
  }

  ghost predicate SingleFound(s: seq<byte>, p: nat, cur: seq<byte>, t: seq<byte>)
    requires IsText(s) && p < |s|
  {
    var n := p + |SingleText(t)| + 1;
    && ValidSingle(t) && At(s, p, SingleText(t) + ['\'' as int]) && n < |s| && EndsArg(s[n])
    && Lex(s, p, Single, cur) == Some(Lexed(cur + t, n))
  }

  lemma SingleCases(s: seq<byte>, p: nat, cur: seq<byte>)
    requires IsText(s) && p < |s| && Lex(s, p, Single, cur).Some?
    ensures p + 1 < |s| && s[p] != NUL && (s[p] == BACKSLASH && s[p + 1] == APOSTROPHE ==> p + 2 < |s|)
    ensures s[p] == APOSTROPHE ==> EndsArg(s[p + 1]) && Lex(s, p, Single, cur) == Some(Lexed(cur, p + 1))
  {
    hide NulFree;
    TextEnd(s, p);
    if s[p] == BACKSLASH { TextEnd(s, p + 1); }
  }

  lemma SingleEnd(s: seq<byte>, p: nat, cur: seq<byte>)
    requires IsText(s) && p + 1 < |s| && s[p] == APOSTROPHE && EndsArg(s[p + 1])
    requires Lex(s, p, Single, cur) == Some(Lexed(cur, p + 1))
    ensures SingleFound(s, p, cur, [])
  {
    hide Lex;
    assert cur + [] == cur;
  }

  lemma {:induction false} SingleOf(s: seq<byte>, p: nat, cur: seq<byte>) returns (t: seq<byte>)
    requires IsText(s) && p < |s| && Lex(s, p, Single, cur).Some?
    ensures SingleFound(s, p, cur, t)
    decreases |s| - p
  {
    hide NulFree, Lex, SingleFound;
    SingleCases(s, p, cur);
    if s[p] == BACKSLASH && s[p + 1] == APOSTROPHE {
      SingleEscape(s, p, cur);
      var rest := SingleOf(s, p + 2, cur + [APOSTROPHE]);
      t := SingleCons(s, p, cur, APOSTROPHE, rest);
    } else if s[p] == APOSTROPHE {
      t := [];
      SingleEnd(s, p, cur);
    } else {
      SingleByte(s, p, cur);
      var rest := SingleOf(s, p + 1, cur + [s[p]]);
      t := SingleCons(s, p, cur, s[p], rest);
    }
  }

  lemma SingleCons(s: seq<byte>, p: nat, cur: seq<byte>, c: byte, rest: seq<byte>) returns (t: seq<byte>)
    requires IsText(s) && p + |SingleByteText(c)| < |s| && At(s, p, SingleByteText(c)) && c != 0
    requires SingleFound(s, p + |SingleByteText(c)|, cur + [c], rest)
    requires Lex(s, p, Single, cur) == Lex(s, p + |SingleByteText(c)|, Single, cur + [c])
    requires c == '\\' as int ==> s[p + 1] != '\'' as int
    ensures SingleFound(s, p, cur, t)
  {
    hide Lex, SingleText, SingleByteText, IsText, NulFree, At;
    NulFreeCons(c, rest);
    t := [c] + rest;
    assert t[1..] == rest;
    SingleSplit(t);
    SlashAlone();
    var tail := SingleText(rest) + ['\'' as int];
    AtJoin(s, p, SingleByteText(c), tail);
    assert SingleText(t) + ['\'' as int] == SingleByteText(c) + tail;
    if rest == [] { NoSingle(); AtIndex(s, p + |SingleByteText(c)|, tail, 0); }
    assert cur + [c] + rest == cur + t;
  }

  lemma NoSingle()
    ensures SingleText([]) == []
  {
  }

  ghost predicate ArgFound(s: seq<byte>, p: nat, cur: seq<byte>, a: Arg)
    requires IsText(s) && p < |s|
  {
    var e := p + |ArgText(a)|;
    && ValidBare(a.bare) && ValidQuoted(a.quoted) && At(s, p, ArgText(a)) && e < |s| && Ends(a, s[e])
    && Lex(s, p, Bare, cur) == Some(Lexed(cur + ArgMeaning(a), if a.quoted == Unquoted && s[e] != 0 then e + 1 else e))
  }

  lemma {:induction false} ArgOf(s: seq<byte>, p: nat, cur: seq<byte>) returns (a: Arg)
    requires IsText(s) && p < |s| && Lex(s, p, Bare, cur).Some?
    ensures ArgFound(s, p, cur, a)
    ensures a.bare == [] && a.quoted == Unquoted ==> s[p] == 0 || Break(s[p])
    ensures a.bare != [] ==> a.bare[0] == s[p]
    decreases |s| - p
  {
    hide NulFree, ValidBits, ValidSingle, BitsText, SingleText, BitsMeaning;
    TextEnd(s, p);
    if s[p] == NUL || Break(s[p]) {
      a := Arg([], Unquoted);
      assert cur + [] == cur;
    } else if s[p] == QUOTE {
      a := DoubleArg(s, p, cur);
    } else if s[p] == APOSTROPHE {
      a := SingleArg(s, p, cur);
    } else {
      var rest := ArgOf(s, p + 1, cur + [s[p]]);
      a := ArgCons(s, p, cur, rest);
    }
  }

  lemma DoubleArg(s: seq<byte>, p: nat, cur: seq<byte>) returns (a: Arg)
    requires IsText(s) && p + 1 < |s| && s[p] == QUOTE && Lex(s, p, Bare, cur).Some?
    ensures ArgFound(s, p, cur, a) && a.bare == [] && a.quoted != Unquoted
  {
    hide NulFree, Lex, ValidBits, BitsText, BitsMeaning;
    Opens(s, p, cur);
    var bits := DoubleOf(s, p + 1, cur);
    a := Arg([], InDouble(bits));
    var q := ['\"' as int];
    assert At(s, p, q);
    AtJoin(s, p, q, BitsText(bits) + q);
    assert ArgText(a) == q + (BitsText(bits) + q);
    assert ArgMeaning(a) == BitsMeaning(bits);
  }

  lemma SingleArg(s: seq<byte>, p: nat, cur: seq<byte>) returns (a: Arg)
    requires IsText(s) && p + 1 < |s| && s[p] == APOSTROPHE && Lex(s, p, Bare, cur).Some?
    ensures ArgFound(s, p, cur, a) && a.bare == [] && a.quoted != Unquoted
  {
    hide NulFree, Lex, ValidSingle, SingleText;
    Opens(s, p, cur);
    var t := SingleOf(s, p + 1, cur);
    a := Arg([], InSingle(t));
    var q := ['\'' as int];
    assert At(s, p, q);
    AtJoin(s, p, q, SingleText(t) + q);
    assert ArgText(a) == q + (SingleText(t) + q);
    assert ArgMeaning(a) == t;
  }

  lemma ArgCons(s: seq<byte>, p: nat, cur: seq<byte>, rest: Arg) returns (a: Arg)
    requires IsText(s) && p + 1 < |s| && s[p] != NUL && !Break(s[p]) && s[p] != QUOTE && s[p] != APOSTROPHE
    requires ArgFound(s, p + 1, cur + [s[p]], rest)
    ensures ArgFound(s, p, cur, a) && a.bare != [] && a.bare[0] == s[p]
  {
    hide NulFree, ValidQuoted, QuotedText, QuotedMeaning;
    a := Arg([s[p]] + rest.bare, rest.quoted);
    assert At(s, p, [s[p]]);
    AtJoin(s, p, [s[p]], ArgText(rest));
    assert ArgText(a) == [s[p]] + ArgText(rest);
    assert cur + [s[p]] + ArgMeaning(rest) == cur + ArgMeaning(a);
  }

  lemma SpacesOf(s: seq<byte>, p: nat)
    requires IsText(s) && p < |s|
    ensures p <= SkipSpace(s, p) < |s| && Spaces(s[p..SkipSpace(s, p)]) && At(s, p, s[p..SkipSpace(s, p)])
    ensures !Space(s[SkipSpace(s, p)])
  {
    hide SkipSpace;
  }

  lemma {:induction false} WordsOf(s: seq<byte>, p: nat, acc: seq<seq<byte>>) returns (words: seq<Word>)
    requires IsText(s) && p < |s| && !Space(s[p]) && Args(s, p, acc).Some?
    ensures ValidWords(words) && p + |WordsText(words)| + 1 == |s| && At(s, p, WordsText(words))
    ensures Args(s, p, acc) == Some(acc + WordsMeaning(words))
    decreases |s| - p
  {
    hide NulFree, Lex, ValidArg, ArgText, ArgMeaning, At;
    if s[p] == 0 {
      words := [];
      LastIsNul(s, p);
      NothingAt(s, p);
      assert acc + [] == acc;
    } else {
      OneArg(s, p, acc);
      var w := WordOf(s, p, acc);
      var next := p + |ArgText(w.arg)| + |w.after|;
      var rest := WordsOf(s, next, acc + [ArgMeaning(w.arg)]);
      words := [w] + rest;
      assert words[1..] == rest;
      AtJoin(s, p, ArgText(w.arg) + w.after, WordsText(rest));
      assert acc + [ArgMeaning(w.arg)] + WordsMeaning(rest) == acc + WordsMeaning(words);
      if |words| > 1 { WordsStart(s, next, rest); }
    }
  }

  lemma NothingAt(s: seq<byte>, p: nat)
    requires p <= |s|
    ensures At(s, p, [])
  {
  }

  lemma LastIsNul(s: seq<byte>, p: nat)
    requires IsText(s) && p < |s| && s[p] == 0
    ensures p + 1 == |s|
  {
    TextEnd(s, p);
  }

  lemma WordsStart(s: seq<byte>, p: nat, words: seq<Word>)
    requires IsText(s) && p < |s| && words != [] && ValidWords(words) && p + |WordsText(words)| + 1 == |s|
    ensures s[p] != 0
  {
    hide BitsText, SingleText, ValidBits, ValidSingle;
    TextEnd(s, p);
  }

  /** An argument and the white space behind it. */
  lemma WordOf(s: seq<byte>, p: nat, acc: seq<seq<byte>>) returns (w: Word)
    requires IsText(s) && p < |s| && !Space(s[p]) && s[p] != 0 && Lex(s, p, Bare, []).Some?
    ensures ValidArg(w.arg) && Spaces(w.after) && At(s, p, ArgText(w.arg) + w.after)
    ensures var next := p + |ArgText(w.arg)| + |w.after|;
      && p < next < |s| && !Space(s[next]) && (w.after == [] ==> s[next] == 0)
      && Args(s, p, acc) == Args(s, next, acc + [ArgMeaning(w.arg)])
    ensures w.arg.quoted == Unquoted && w.after != [] ==> Break(w.after[0])
  {
    hide NulFree, Lex, ArgText, ArgMeaning, ValidBare, ValidQuoted, Args, SkipSpace;
    var a := ArgOf(s, p, []);
    var e := p + |ArgText(a)|;
    SpacesOf(s, e);
    var k := SkipSpace(s, e);
    w := Word(a, s[e..k]);
    AtJoin(s, p, ArgText(a), s[e..k]);
    ArgNotEmpty(a);
    WordRead(s, p, w, acc);
  }

  lemma ArgNotEmpty(a: Arg)
    requires a.bare != [] || a.quoted != Unquoted
    ensures ArgText(a) != []
  {
  }

  lemma SingleValid(c: byte, t: seq<byte>)
    requires ValidSingle(t) && c != 0 && (t == [] ==> c != '\\' as int)
    ensures ValidSingle([c] + t)
  {
  }

  lemma NulFreeCons(c: byte, t: seq<byte>)
    requires c != 0 && NulFree(t)
    ensures NulFree([c] + t)
  {
  }

  lemma SlashAlone()
    ensures SingleByteText('\\' as int) == ['\\' as int]
  {
  }

  /** An escaped byte is no code where the text has none. */
  lemma BitFits(s: seq<byte>, p: nat, b: Bit, rest: seq<Bit>)
    requires At(s, p, BitText(b)) && At(s, p + |BitText(b)|, BitsText(rest)) && ValidBits(rest)
    requires b.Plain? ==> b.c != 0 && b.c != '\"' as int && b.c != '\\' as int
    requires b.Escaped? ==> b.c != 0 && !HexEscape(s, p)
    ensures ValidBits([b] + rest)
  {
    hide IsHex, Spelled, HexValue, BitsText;
    BitsCons(b, rest);
    var tail := BitsText(rest);
    if b.Escaped? && b.c == 'x' as int && |tail| >= 2 && IsHex(tail[0]) && IsHex(tail[1]) {
      AtIndex(s, p, BitText(b), 0);
      AtIndex(s, p, BitText(b), 1);
      AtIndex(s, p + 2, tail, 0);
      AtIndex(s, p + 2, tail, 1);
      HexValueExactly(s[p + 2]);
      HexValueExactly(s[p + 3]);
      assert false;
    }
  }

  // ---------- whole lines ----------

  lemma LineIsText(line: seq<byte>)
    requires NulFree(line)
    ensures IsText(line + [0])
  {
    assert (line + [0])[..|line + [0]| - 1] == line;
  }

  lemma LineRead(lead: seq<byte>, words: seq<Word>)
    requires Spaces(lead) && ValidWords(words) && IsText(lead + WordsText(words) + [0])
    ensures Args(lead + WordsText(words) + [0], 0, []) == Some(WordsMeaning(words))
  {
    hide Args, ValidWords, WordsText, WordsMeaning, NulFree;
    var s := lead + WordsText(words) + [0];
    assert At(s, 0, lead) && At(s, |lead|, WordsText(words));
    hide At;
    ArgsSpaces(s, 0, lead, []);
    WordsRead(s, |lead|, words, []);
    assert [] + WordsMeaning(words) == WordsMeaning(words);
  }

  lemma LineFound(line: seq<byte>) returns (lead: seq<byte>, words: seq<Word>)
    requires IsText(line + [0]) && Args(line + [0], 0, []).Some?
    ensures Spaces(lead) && ValidWords(words) && line == lead + WordsText(words)
    ensures Args(line + [0], 0, []) == Some(WordsMeaning(words))
  {
    hide Args, ValidWords, WordsText, WordsMeaning, NulFree, SkipSpace;
    var s := line + [0];
    SpacesOf(s, 0);
    var k := SkipSpace(s, 0);
    lead := s[0..k];
    ArgsSpaces(s, 0, lead, []);
    words := WordsOf(s, k, []);
    assert s[k..k + |WordsText(words)|] == WordsText(words);
    assert line == s[..k] + s[k..|line|];
    assert [] + WordsMeaning(words) == WordsMeaning(words);
  }

  /** A line splits into these arguments if and only if it is written by the grammar with these meanings. */
  lemma ArgsExactly(line: seq<byte>, xs: seq<seq<byte>>)
    requires NulFree(line)
    ensures IsText(line + [0])
    ensures Args(line + [0], 0, []) == Some(xs) <==>
      exists lead, words ::
        Spaces(lead) && ValidWords(words) && line == lead + WordsText(words) && WordsMeaning(words) == xs
  {
    hide Args, ValidWords, WordsText, WordsMeaning, NulFree, Spaces;
    LineIsText(line);
    if Args(line + [0], 0, []) == Some(xs) {
      var lead, words := LineFound(line);
    }
    if lead, words :|
      Spaces(lead) && ValidWords(words) && line == lead + WordsText(words) && WordsMeaning(words) == xs
    {
      LineRead(lead, words);
    }
  }
}
