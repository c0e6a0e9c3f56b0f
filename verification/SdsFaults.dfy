/** The lines `sdssplitargs` refuses: a quote left open, or closed with something behind it. */
module SdsFaults {
  import opened Bytes
  import opened Unicode
  import opened Spelling
  import opened StringGrammar
  import opened SdsQuote
  import opened SdsArgs

  /** A quote left open, or closed with something behind it. */
  datatype Fault =
    | OpenDouble(bits: seq<Bit>, slash: bool)
    | OpenSingle(text: seq<byte>)
    | CrowdedDouble(bits: seq<Bit>, rest: seq<byte>)
    | CrowdedSingle(text: seq<byte>, rest: seq<byte>)

  function FaultQuote(f: Fault): byte {
    if f.OpenDouble? || f.CrowdedDouble? then '\"' as int else '\'' as int
  }

  function FaultTail(f: Fault): seq<byte> {
    match f
    case OpenDouble(bits, slash) => BitsText(bits) + (if slash then ['\\' as int] else [])
    case OpenSingle(text) => SingleText(text)
    case CrowdedDouble(bits, rest) => BitsText(bits) + (['\"' as int] + rest)
    case CrowdedSingle(text, rest) => SingleText(text) + (['\'' as int] + rest)
  }

  function FaultText(f: Fault): (r: seq<byte>)
    ensures r != []
  {
    [FaultQuote(f)] + FaultTail(f)
  }

  predicate Crowds(rest: seq<byte>) { rest != [] && rest[0] != 0 && !Space(rest[0]) }

  predicate ValidFault(f: Fault) {
    match f
    case OpenDouble(bits, _) => ValidBits(bits)
    case OpenSingle(text) => NulFree(text)
    case CrowdedDouble(bits, rest) => ValidBits(bits) && Crowds(rest)
    case CrowdedSingle(text, rest) => ValidSingle(text) && Crowds(rest)
  }

  /** The text from `p` on is this, up to the terminator. */
  ghost predicate Remains(s: seq<byte>, p: nat, t: seq<byte>) {
    |s| > 0 && p + |t| + 1 == |s| && s[p..|s| - 1] == t
  }

  lemma RemainsParts(s: seq<byte>, p: nat, a: seq<byte>, b: seq<byte>)
    requires Remains(s, p, a + b)
    ensures At(s, p, a) && Remains(s, p + |a|, b)
  {
    assert s[p..p + |a|] == s[p..|s| - 1][..|a|];
    assert s[p + |a|..|s| - 1] == s[p..|s| - 1][|a|..];
  }

  lemma RemainsJoin(s: seq<byte>, p: nat, a: seq<byte>, b: seq<byte>)
    requires At(s, p, a) && Remains(s, p + |a|, b)
    ensures Remains(s, p, a + b)
  {
    assert s[p..|s| - 1] == s[p..p + |a|] + s[p + |a|..|s| - 1];
  }

  lemma EndIsNul(s: seq<byte>, p: nat)
    requires IsText(s) && Remains(s, p, [])
    ensures p < |s| && s[p] == 0
  {
  }

  /** Such a text is refused. */
  lemma FaultRead(s: seq<byte>, m: nat, f: Fault, cur: seq<byte>)
    requires IsText(s) && ValidFault(f) && Remains(s, m, FaultText(f))
    ensures m < |s| && Lex(s, m, Bare, cur) == None
  {
    hide Lex, At, NulFree, BitsText, SingleText, ValidBits, ValidSingle, IsHex, Remains, FaultTail;
    var q, t := FaultQuote(f), FaultTail(f);
    RemainsParts(s, m, [q], t);
    RemainsLength(s, m + 1, t);
    AtIndex(s, m, [q], 0);
    Opens(s, m, cur);
    FaultTails(f);
    match f
    case OpenDouble(bits, slash) => OpenDoubleRead(s, m + 1, bits, slash, cur);
    case OpenSingle(text) => OpenSingleRead(s, m + 1, text, cur);
    case CrowdedDouble(bits, rest) => CrowdedDoubleRead(s, m + 1, bits, rest, cur);
    case CrowdedSingle(text, rest) => CrowdedSingleRead(s, m + 1, text, rest, cur);
  }

  lemma FaultTails(f: Fault)
    ensures match f
            case OpenDouble(bits, slash) => FaultTail(f) == BitsText(bits) + (if slash then ['\\' as int] else [])
            case OpenSingle(text) => FaultTail(f) == SingleText(text)
            case CrowdedDouble(bits, rest) => FaultTail(f) == BitsText(bits) + (['\"' as int] + rest)
            case CrowdedSingle(text, rest) => FaultTail(f) == SingleText(text) + (['\'' as int] + rest)
  {
  }

  lemma RemainsLength(s: seq<byte>, p: nat, t: seq<byte>)
    requires Remains(s, p, t)
    ensures p + |t| + 1 == |s|
  {
  }

  lemma OpenDoubleRead(s: seq<byte>, p: nat, bits: seq<Bit>, slash: bool, cur: seq<byte>)
    requires IsText(s) && ValidBits(bits) && Remains(s, p, BitsText(bits) + (if slash then ['\\' as int] else []))
    ensures p < |s| && Lex(s, p, Double, cur) == None
  {
    hide Lex, At, NulFree, BitsText, ValidBits, IsHex, Remains;
    var e, tail := p + |BitsText(bits)|, if slash then ['\\' as int] else [];
    RemainsParts(s, p, BitsText(bits), tail);
    RemainsLength(s, e, tail);
    QuoteIsNoHex();
    if slash {
      assert tail == ['\\' as int] + [];
      RemainsParts(s, e, tail, []);
      AtIndex(s, e, tail, 0);
      EndIsNul(s, e + 1);
    } else {
      EndIsNul(s, e);
    }
    LexBits(s, p, bits, cur);
    OpenEnd(s, e, cur + BitsMeaning(bits));
  }

  /** At the terminator, or at a backslash in front of it. */
  lemma OpenEnd(s: seq<byte>, e: nat, cur: seq<byte>)
    requires IsText(s) && e < |s| && (s[e] == 0 || (s[e] == BACKSLASH && e + 2 == |s| && s[e + 1] == 0))
    ensures Lex(s, e, Double, cur) == None
  {
    hide NulFree, HexValue;
  }

  lemma OpenSingleRead(s: seq<byte>, p: nat, t: seq<byte>, cur: seq<byte>)
    requires IsText(s) && NulFree(t) && Remains(s, p, SingleText(t))
    ensures p < |s| && Lex(s, p, Single, cur) == None
  {
    hide Lex, At, NulFree, SingleText, Remains;
    assert SingleText(t) == SingleText(t) + [];
    RemainsParts(s, p, SingleText(t), []);
    var e := p + |SingleText(t)|;
    EndIsNul(s, e);
    LexSingles(s, p, t, cur);
    OpenSingleEnd(s, e, cur + t);
  }

  lemma OpenSingleEnd(s: seq<byte>, e: nat, cur: seq<byte>)
    requires IsText(s) && e < |s| && s[e] == 0
    ensures Lex(s, e, Single, cur) == None
  {
  }

  lemma CrowdedDoubleRead(s: seq<byte>, p: nat, bits: seq<Bit>, rest: seq<byte>, cur: seq<byte>)
    requires IsText(s) && ValidBits(bits) && Crowds(rest) && Remains(s, p, BitsText(bits) + (['\"' as int] + rest))
    ensures p < |s| && Lex(s, p, Double, cur) == None
  {
    hide Lex, At, NulFree, BitsText, ValidBits, IsHex, Remains;
    var e := p + |BitsText(bits)|;
    RemainsParts(s, p, BitsText(bits), ['\"' as int] + rest);
    Crowded(s, e, '\"' as int, rest);
    QuoteIsNoHex();
    LexBits(s, p, bits, cur);
    Closing(s, e, cur + BitsMeaning(bits));
  }

  lemma Crowded(s: seq<byte>, e: nat, q: byte, rest: seq<byte>)
    requires IsText(s) && Crowds(rest) && Remains(s, e, [q] + rest)
    ensures e + 1 < |s| && s[e] == q && !EndsArg(s[e + 1])
  {
    hide At, NulFree, Remains;
    RemainsLength(s, e, [q] + rest);
    RemainsParts(s, e, [q], rest);
    AtIndex(s, e, [q], 0);
    assert rest == rest + [];
    RemainsParts(s, e + 1, rest, []);
    AtIndex(s, e + 1, rest, 0);
  }

  lemma CrowdedSingleRead(s: seq<byte>, p: nat, t: seq<byte>, rest: seq<byte>, cur: seq<byte>)
    requires IsText(s) && ValidSingle(t) && Crowds(rest) && Remains(s, p, SingleText(t) + (['\'' as int] + rest))
    ensures p < |s| && Lex(s, p, Single, cur) == None
  {
    hide Lex, At, NulFree, SingleText, Remains;
    var e := p + |SingleText(t)|;
    RemainsParts(s, p, SingleText(t), ['\'' as int] + rest);
    Crowded(s, e, '\'' as int, rest);
    LexSingles(s, p, t, cur);
    Closing(s, e, cur + t);
  }

  /** And a text that is refused inside double quotes is one of these. */
  lemma {:induction false} DoubleFault(s: seq<byte>, p: nat, cur: seq<byte>) returns (f: Fault)
    requires IsText(s) && p < |s| && Lex(s, p, Double, cur) == None
    ensures ValidFault(f) && (f.OpenDouble? || f.CrowdedDouble?) && Remains(s, p, FaultTail(f))
    decreases |s| - p
  {
    hide NulFree, IsHex, Spelled, HexValue, Remains, BitsText, ValidBits, At;
    TextEnd(s, p);
    if HexEscape(s, p) {
      f := CodedFault(s, p, cur);
    } else if s[p] == BACKSLASH && s[p + 1] != NUL {
      TextEnd(s, p + 1);
      var rest := DoubleFault(s, p + 2, cur + [BitMeaning(Escaped(s[p + 1]))]);
      EscapeAt(s, p);
      f := FaultCons(s, p, Escaped(s[p + 1]), rest);
    } else if s[p] == BACKSLASH {
      f := OpenDouble([], true);
      TextEnd(s, p + 1);
      LastSlash(s, p);
    } else if s[p] == QUOTE {
      f := CrowdedDouble([], s[p + 1..|s| - 1]);
      CrowdedEnd(s, p);
    } else if s[p] == NUL {
      f := OpenDouble([], false);
      NothingLeft(s, p);
    } else {
      var rest := DoubleFault(s, p + 1, cur + [s[p]]);
      ByteAt(s, p);
      f := FaultCons(s, p, Plain(s[p]), rest);
    }
  }

  lemma {:induction false} CodedFault(s: seq<byte>, p: nat, cur: seq<byte>) returns (f: Fault)
    requires IsText(s) && p < |s| && Lex(s, p, Double, cur) == None && HexEscape(s, p)
    ensures ValidFault(f) && (f.OpenDouble? || f.CrowdedDouble?) && Remains(s, p, FaultTail(f))
    decreases |s| - p, 0
  {
    hide NulFree, IsHex, Spelled, HexValue, Remains, BitsText, ValidBits, Lex;
    HexValueExactly(s[p + 2]);
    HexValueExactly(s[p + 3]);
    HexNotNul(s, p + 3);
    var hi := HexOf(s[p + 2]);
    var lo := HexOf(s[p + 3]);
    CodedByte(s, p, cur);
    var rest := DoubleFault(s, p + 4, cur + [16 * hi.value + lo.value]);
    assert At(s, p, BitText(Coded(hi, lo)));
    f := FaultCons(s, p, Coded(hi, lo), rest);
  }

  lemma HexNotNul(s: seq<byte>, k: nat)
    requires IsText(s) && k < |s| && IsHex(s[k])
    ensures k + 1 < |s|
  {
    TextEnd(s, k);
  }

  lemma EscapeAt(s: seq<byte>, p: nat)
    requires p + 1 < |s| && s[p] == BACKSLASH
    ensures At(s, p, BitText(Escaped(s[p + 1])))
  {
  }

  lemma ByteAt(s: seq<byte>, p: nat)
    requires p < |s|
    ensures At(s, p, [s[p]])
  {
  }

  lemma LastSlash(s: seq<byte>, p: nat)
    requires |s| > 0 && p + 2 == |s| && s[p] == BACKSLASH
    ensures ValidFault(OpenDouble([], true)) && Remains(s, p, FaultTail(OpenDouble([], true)))
  {
  }

  lemma CrowdedEnd(s: seq<byte>, p: nat)
    requires IsText(s) && p + 1 < |s| && s[p] == QUOTE && !EndsArg(s[p + 1])
    ensures var f := CrowdedDouble([], s[p + 1..|s| - 1]); ValidFault(f) && Remains(s, p, FaultTail(f))
  {
    TextEnd(s, p + 1);
    assert s[p..|s| - 1] == [s[p]] + s[p + 1..|s| - 1];
  }

  lemma NothingLeft(s: seq<byte>, p: nat)
    requires IsText(s) && p < |s| && s[p] == NUL
    ensures ValidFault(OpenDouble([], false)) && Remains(s, p, FaultTail(OpenDouble([], false)))
    ensures ValidFault(OpenSingle([])) && Remains(s, p, FaultTail(OpenSingle([])))
  {
    TextEnd(s, p);
  }

  lemma FaultCons(s: seq<byte>, p: nat, b: Bit, rest: Fault) returns (f: Fault)
    requires IsText(s) && p + |BitText(b)| < |s| && At(s, p, BitText(b)) && ValidFault(rest)
    requires (rest.OpenDouble? || rest.CrowdedDouble?) && Remains(s, p + |BitText(b)|, FaultTail(rest))
    requires b.Plain? ==> b.c != 0 && b.c != '\"' as int && b.c != '\\' as int
    requires b.Escaped? ==> b.c != 0 && !HexEscape(s, p)
    ensures ValidFault(f) && (f.OpenDouble? || f.CrowdedDouble?) && Remains(s, p, FaultTail(f))
  {
    hide NulFree, IsHex, Spelled, HexValue, Remains, BitsText, At;
    var bits := [b] + rest.bits;
    BitsCons(b, rest.bits);
    f := if rest.OpenDouble? then OpenDouble(bits, rest.slash) else CrowdedDouble(bits, rest.rest);
    var tail := FaultTail(rest);
    assert FaultTail(f) == BitText(b) + tail;
    RemainsJoin(s, p, BitText(b), tail);
    FrontBits(rest);
    RemainsParts(s, p + |BitText(b)|, BitsText(rest.bits), tail[|BitsText(rest.bits)|..]);
    BitFits(s, p, b, rest.bits);
  }

  lemma FrontBits(f: Fault)
    requires f.OpenDouble? || f.CrowdedDouble?
    ensures var t := FaultTail(f); |BitsText(f.bits)| <= |t| && t == BitsText(f.bits) + t[|BitsText(f.bits)|..]
  {
    hide BitsText;
  }

  lemma {:induction false} SingleFault(s: seq<byte>, p: nat, cur: seq<byte>) returns (f: Fault)
    requires IsText(s) && p < |s| && Lex(s, p, Single, cur) == None
    ensures ValidFault(f) && (f.OpenSingle? || f.CrowdedSingle?) && Remains(s, p, FaultTail(f))
    decreases |s| - p
  {
    hide NulFree, Remains, At, SingleText;
    TextEnd(s, p);
    if s[p] == BACKSLASH && s[p + 1] == APOSTROPHE {
      TextEnd(s, p + 1);
      var rest := SingleFault(s, p + 2, cur + [APOSTROPHE]);
      EscapeAt(s, p);
      f := SingleFaultCons(s, p, APOSTROPHE, rest);
    } else if s[p] == APOSTROPHE {
      f := CrowdedSingle([], s[p + 1..|s| - 1]);
      CrowdedSingleEnd(s, p);
    } else if s[p] == NUL {
      f := OpenSingle([]);
      NothingLeft(s, p);
    } else {
      var rest := SingleFault(s, p + 1, cur + [s[p]]);
      ByteAt(s, p);
      f := SingleFaultCons(s, p, s[p], rest);
    }
  }

  lemma CrowdedSingleEnd(s: seq<byte>, p: nat)
    requires IsText(s) && p + 1 < |s| && s[p] == APOSTROPHE && !EndsArg(s[p + 1])
    ensures var f := CrowdedSingle([], s[p + 1..|s| - 1]); ValidFault(f) && Remains(s, p, FaultTail(f))
  {
    TextEnd(s, p + 1);
    assert s[p..|s| - 1] == [s[p]] + s[p + 1..|s| - 1];
  }

  lemma SingleFaultCons(s: seq<byte>, p: nat, c: byte, rest: Fault) returns (f: Fault)
    requires IsText(s) && p + |SingleByteText(c)| < |s| && At(s, p, SingleByteText(c)) && ValidFault(rest) && c != 0
    requires (rest.OpenSingle? || rest.CrowdedSingle?) && Remains(s, p + |SingleByteText(c)|, FaultTail(rest))
    requires c == '\\' as int ==> s[p + 1] != '\'' as int
    ensures ValidFault(f) && (f.OpenSingle? || f.CrowdedSingle?) && Remains(s, p, FaultTail(f))
  {
    hide Remains, At, SingleText, IsText, NulFree, FaultTail, SingleByteText, ValidSingle, Crowds;
    var t := [c] + rest.text;
    assert t[1..] == rest.text;
    SingleSplit(t);
    FaultTails(rest);
    if rest.OpenSingle? {
      f := OpenSingle(t);
      NulFreeCons(c, rest.text);
      RemainsJoin(s, p, SingleByteText(c), SingleText(rest.text));
    } else {
      f := CrowdedSingle(t, rest.rest);
      var tail := ['\'' as int] + rest.rest;
      SlashAlone();
      NotBeforeQuote(s, p, c, rest.text, tail);
      SingleValid(c, rest.text);
      RemainsJoin(s, p, SingleByteText(c), SingleText(rest.text) + tail);
      assert SingleByteText(c) + (SingleText(rest.text) + tail) == SingleText(t) + tail;
    }
    FaultTails(f);
  }

  /** A backslash does not stand directly in front of the closing quote. */
  lemma NotBeforeQuote(s: seq<byte>, p: nat, c: byte, text: seq<byte>, tail: seq<byte>)
    requires IsText(s) && tail != [] && tail[0] == '\'' as int
    requires Remains(s, p + |SingleByteText(c)|, SingleText(text) + tail)
    requires c == '\\' as int ==> p + 1 < |s| && s[p + 1] != '\'' as int
    ensures text == [] ==> c != '\\' as int
  {
    if text == [] {
      assert s[p + |SingleByteText(c)|..|s| - 1][0] == tail[0];
    }
  }

  /** What is refused from an argument on: some bytes outside quotes, and a fault. */
  ghost predicate Refused(s: seq<byte>, p: nat, bare: seq<byte>, f: Fault) {
    ValidBare(bare) && ValidFault(f) && Remains(s, p, bare + FaultText(f))
  }

  lemma RefusedRead(s: seq<byte>, p: nat, bare: seq<byte>, f: Fault, cur: seq<byte>)
    requires IsText(s) && Refused(s, p, bare, f)
    ensures p < |s| && Lex(s, p, Bare, cur) == None
  {
    hide Lex, NulFree, Remains, FaultText, ValidFault;
    RemainsParts(s, p, bare, FaultText(f));
    FaultRead(s, p + |bare|, f, cur + bare);
    LexBare(s, p, bare, cur);
  }

  lemma {:induction false} RefusedOf(s: seq<byte>, p: nat, cur: seq<byte>) returns (bare: seq<byte>, f: Fault)
    requires IsText(s) && p < |s| && Lex(s, p, Bare, cur) == None
    ensures Refused(s, p, bare, f) && (bare != [] ==> bare[0] == s[p])
    decreases |s| - p
  {
    hide NulFree, Remains, ValidFault, Lex, FaultText, At;
    BareFails(s, p, cur);
    if s[p] == QUOTE {
      Opens(s, p, cur);
      bare := [];
      f := DoubleFault(s, p + 1, cur);
      FaultStarts(s, p, f);
    } else if s[p] == APOSTROPHE {
      Opens(s, p, cur);
      bare := [];
      f := SingleFault(s, p + 1, cur);
      FaultStarts(s, p, f);
    } else {
      var rest;
      BareByte(s, p, cur);
      rest, f := RefusedOf(s, p + 1, cur + [s[p]]);
      bare := [s[p]] + rest;
      ByteAt(s, p);
      RemainsJoin(s, p, [s[p]], rest + FaultText(f));
      assert [s[p]] + (rest + FaultText(f)) == bare + FaultText(f);
    }
  }

  lemma BareFails(s: seq<byte>, p: nat, cur: seq<byte>)
    requires IsText(s) && p < |s| && Lex(s, p, Bare, cur) == None
    ensures p + 1 < |s| && s[p] != 0 && !Break(s[p])
  {
    TextEnd(s, p);
  }

  lemma FaultStarts(s: seq<byte>, p: nat, f: Fault)
    requires p < |s| && Remains(s, p + 1, FaultTail(f))
    requires s[p] == if f.OpenDouble? || f.CrowdedDouble? then '\"' as int else '\'' as int
    ensures Remains(s, p, [] + FaultText(f))
  {
    hide Remains, BitsText, SingleText;
    ByteAt(s, p);
    RemainsJoin(s, p, [s[p]], FaultTail(f));
    assert [s[p]] + FaultTail(f) == [] + FaultText(f);
  }

  /** Some words with white space behind each of them. */
  predicate ApartWords(words: seq<Word>) {
    ValidWords(words) && (words != [] ==> words[|words| - 1].after != [])
  }

  lemma {:induction false} PrefixRead(s: seq<byte>, p: nat, words: seq<Word>, acc: seq<seq<byte>>)
    requires IsText(s) && ApartWords(words) && At(s, p, WordsText(words)) && p + |WordsText(words)| < |s|
    ensures Args(s, p, acc) == Args(s, p + |WordsText(words)|, acc + WordsMeaning(words))
    decreases |words|
  {
    hide Args, ArgText, ArgMeaning, ValidArg, At;
    if words == [] {
      assert acc + [] == acc;
    } else {
      var w, rest := words[0], words[1..];
      assert WordsText(words) == ArgText(w.arg) + (w.after + WordsText(rest));
      AtConcat(s, p, ArgText(w.arg), w.after + WordsText(rest));
      var e := p + |ArgText(w.arg)|;
      AtConcat(s, e, w.after, WordsText(rest));
      WordRead(s, p, w, acc);
      PrefixRead(s, e + |w.after|, rest, acc + [ArgMeaning(w.arg)]);
      assert acc + [ArgMeaning(w.arg)] + WordsMeaning(rest) == acc + WordsMeaning(words);
    }
  }

  lemma {:induction false} WordsRefused(s: seq<byte>, p: nat, acc: seq<seq<byte>>)
    returns (words: seq<Word>, bare: seq<byte>, f: Fault)
    requires IsText(s) && p < |s| && !Space(s[p]) && Args(s, p, acc) == None
    ensures ApartWords(words) && At(s, p, WordsText(words)) && Refused(s, p + |WordsText(words)|, bare, f)
    ensures bare != [] ==> !Space(bare[0])
    decreases |s| - p
  {
    hide NulFree, Lex, ValidArg, ArgText, ArgMeaning, At, Refused;
    AtEnd(s, p, acc);
    OneArg(s, p, acc);
    if Lex(s, p, Bare, []) == None {
      words := [];
      NothingAt(s, p);
      bare, f := RefusedOf(s, p, []);
    } else {
      var w := WordOf(s, p, acc);
      var next := p + |ArgText(w.arg)| + |w.after|;
      AtEnd(s, next, acc + [ArgMeaning(w.arg)]);
      var rest;
      rest, bare, f := WordsRefused(s, next, acc + [ArgMeaning(w.arg)]);
      words := [w] + rest;
      assert words[1..] == rest;
      AtJoin(s, p, ArgText(w.arg) + w.after, WordsText(rest));
    }
  }

  lemma AtEnd(s: seq<byte>, p: nat, acc: seq<seq<byte>>)
    requires IsText(s) && p < |s|
    ensures s[p] == 0 ==> Args(s, p, acc) == Some(acc)
  {
    if s[p] == 0 {
      LastIsNul(s, p);
      ArgsEnd(s, acc);
    }
  }

  // ---------- whole lines ----------

  /** A line is refused if and only if in some argument a quote is left open, or closed with something behind it. */
  lemma RefusedExactly(line: seq<byte>)
    requires NulFree(line)
    ensures IsText(line + [0])
    ensures Args(line + [0], 0, []) == None <==>
      exists lead, words, bare, f ::
        && Spaces(lead) && ApartWords(words) && ValidBare(bare) && (bare != [] ==> !Space(bare[0])) && ValidFault(f)
        && line == lead + WordsText(words) + (bare + FaultText(f))
  {
    hide Args, ApartWords, WordsText, ValidBare, ValidFault, FaultText, NulFree, Spaces, Refused;
    LineIsText(line);
    if Args(line + [0], 0, []) == None {
      var lead, words, bare, f := LineRefused(line);
    }
    if lead, words, bare, f :|
      && Spaces(lead) && ApartWords(words) && ValidBare(bare) && (bare != [] ==> !Space(bare[0])) && ValidFault(f)
      && line == lead + WordsText(words) + (bare + FaultText(f))
    {
      FaultyRead(lead, words, bare, f);
    }
  }

  lemma FaultyRead(lead: seq<byte>, words: seq<Word>, bare: seq<byte>, f: Fault)
    requires Spaces(lead) && ApartWords(words) && ValidBare(bare) && (bare != [] ==> !Space(bare[0])) && ValidFault(f)
    requires IsText(lead + WordsText(words) + (bare + FaultText(f)) + [0])
    ensures Args(lead + WordsText(words) + (bare + FaultText(f)) + [0], 0, []) == None
  {
    hide Args, ApartWords, WordsText, WordsMeaning, NulFree, ValidFault, FaultText, Lex;
    var rest := bare + FaultText(f);
    var s := lead + WordsText(words) + rest + [0];
    var p := |lead| + |WordsText(words)|;
    assert At(s, 0, lead) && At(s, |lead|, WordsText(words)) && Remains(s, p, rest);
    hide At, Remains;
    ArgsSpaces(s, 0, lead, []);
    PrefixRead(s, |lead|, words, []);
    RefusedRead(s, p, bare, f, []);
    RefusedStart(s, p, bare, f);
    OneArg(s, p, [] + WordsMeaning(words));
  }

  lemma RefusedStart(s: seq<byte>, p: nat, bare: seq<byte>, f: Fault)
    requires Refused(s, p, bare, f) && (bare != [] ==> !Space(bare[0]))
    ensures p < |s| && s[p] != 0 && !Space(s[p])
  {
    hide Remains, BitsText, SingleText, ValidBits, ValidSingle, NulFree;
    var t := bare + FaultText(f);
    assert t == t + [];
    RemainsParts(s, p, t, []);
    AtIndex(s, p, t, 0);
  }

  lemma LineRefused(line: seq<byte>) returns (lead: seq<byte>, words: seq<Word>, bare: seq<byte>, f: Fault)
    requires IsText(line + [0]) && Args(line + [0], 0, []) == None
    ensures Spaces(lead) && ApartWords(words) && ValidBare(bare) && (bare != [] ==> !Space(bare[0])) && ValidFault(f)
    ensures line == lead + WordsText(words) + (bare + FaultText(f))
  {
    hide Args, ApartWords, WordsText, ValidBare, ValidFault, FaultText, NulFree, SkipSpace;
    var s := line + [0];
    SpacesOf(s, 0);
    var k := SkipSpace(s, 0);
    lead := s[0..k];
    ArgsSpaces(s, 0, lead, []);
    words, bare, f := WordsRefused(s, k, []);
    var p := k + |WordsText(words)|;
    assert s[p..|s| - 1] == bare + FaultText(f);
    assert line == s[..k] + s[k..p] + s[p..|s| - 1];
  }
}
