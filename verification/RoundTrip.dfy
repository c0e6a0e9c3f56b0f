/** The parser reads back what the printer writes. */
module RoundTrip {
  import opened Bytes
  import opened Decimal
  import opened Doubles
  import opened Json
  import opened Unicode
  import opened Numbers
  import opened ParseSpec

  lemma {:induction false} SkipBlanks(s: seq<byte>, o: nat, n: nat)
    requires o + n < |s| && s[o + n] > 32
    requires forall k | o <= k < o + n :: s[k] <= 32
    ensures SkipWs(s, o) == o + n
    decreases n
  {
    if n > 0 {
      SkipBlanks(s, o + 1, n - 1);
    }
  }

  // ---------- strings ----------

  lemma FindCloseStep(s: seq<byte>, i: nat, c: byte)
    requires At(s, i, EscapeByte(c))
    ensures FindClose(s, i) == FindClose(s, i + |EscapeByte(c)|)
  {
    var e := EscapeByte(c);
    AtIndex(s, i, e, 0);
    if ShortEscape(c).None? && c < 32 {
      AtIndex(s, i, e, 2);
      AtIndex(s, i, e, 3);
      AtIndex(s, i, e, 4);
      AtIndex(s, i, e, 5);
      assert FindClose(s, i + 2) == FindClose(s, i + 3) == FindClose(s, i + 4);
      assert FindClose(s, i + 4) == FindClose(s, i + 5) == FindClose(s, i + 6);
    }
  }

  lemma {:induction false} FindCloseOfEscape(s: seq<byte>, i: nat, t: seq<byte>)
    requires At(s, i, Escape(t) + [QUOTE])
    ensures FindClose(s, i) == Some(i + |Escape(t)|)
    decreases t
  {
    hide EscapeByte, At;
    if t == [] {
      AtIndex(s, i, Escape(t) + [QUOTE], 0);
    } else {
      hide FindClose;
      assert Escape(t) + [QUOTE] == EscapeByte(t[0]) + (Escape(t[1..]) + [QUOTE]);
      AtConcat(s, i, EscapeByte(t[0]), Escape(t[1..]) + [QUOTE]);
      FindCloseStep(s, i, t[0]);
      FindCloseOfEscape(s, i + |EscapeByte(t[0])|, t[1..]);
    }
  }

  lemma PieceOfEscape(s: seq<byte>, i: nat, e: nat, c: byte)
    requires At(s, i, EscapeByte(c)) && i + |EscapeByte(c)| <= e < |s|
    ensures Piece(s, i, e) == Some(Parsed([c], i + |EscapeByte(c)|))
  {
    var w := EscapeByte(c);
    AtIndex(s, i, w, 0);
    if ShortEscape(c).Some? || c < 32 {
      AtIndex(s, i, w, 1);
    }
    if ShortEscape(c).None? && c < 32 {
      assert c / 4096 == 0 && c / 256 % 16 == 0 && c / 16 % 16 == c / 16;
      assert w == EscapedUtf16(c);
      Utf16RoundTrip(c, s, i, e);
    }
  }

  lemma DecodeStep(s: seq<byte>, i: nat, e: nat, c: byte, rest: seq<byte>)
    requires i < e < |s| && Piece(s, i, e).Some? && Piece(s, i, e).value.val == [c]
    requires DecodeString(s, Piece(s, i, e).value.next, e) == Some(rest)
    ensures DecodeString(s, i, e) == Some([c] + rest)
  {
  }

  lemma {:induction false} DecodeOfEscape(s: seq<byte>, i: nat, e: nat, t: seq<byte>)
    requires At(s, i, Escape(t)) && i + |Escape(t)| == e < |s|
    ensures DecodeString(s, i, e) == Some(t)
    decreases t
  {
    if t != [] {
      var w, rest := EscapeByte(t[0]), Escape(t[1..]);
      assert Escape(t) == w + rest && |w| > 0;
      hide EscapeByte, Escape, At, Piece, DecodeString;
      AtConcat(s, i, w, rest);
      PieceOfEscape(s, i, e, t[0]);
      DecodeOfEscape(s, i + |w|, e, t[1..]);
      DecodeStep(s, i, e, t[0], t[1..]);
      assert t == [t[0]] + t[1..];
    }
  }

  lemma QuotedAt(s: seq<byte>, o: nat, t: seq<byte>)
    requires At(s, o, Quoted(t))
    ensures o < |s| && s[o] == QUOTE && At(s, o + 1, Escape(t) + [QUOTE])
  {
    hide Escape, At;
    assert Quoted(t) == [QUOTE] + (Escape(t) + [QUOTE]);
    AtIndex(s, o, Quoted(t), 0);
    AtConcat(s, o, [QUOTE], Escape(t) + [QUOTE]);
  }

  lemma EscapedBody(s: seq<byte>, i: nat, e: nat, t: seq<byte>)
    requires At(s, i, Escape(t) + [QUOTE]) && e == i + |Escape(t)|
    ensures e < |s| && FindClose(s, i) == Some(e) && DecodeString(s, i, e) == Some(t)
  {
    FindCloseOfEscape(s, i, t);
    AtConcat(s, i, Escape(t), [QUOTE]);
    DecodeOfEscape(s, i, e, t);
  }

  /** `parse_string` undoes the escaping of `print_string_ptr`, for every byte string. */
  lemma StringRoundTrip(s: seq<byte>, o: nat, t: seq<byte>)
    requires At(s, o, Quoted(t))
    ensures ParseString(s, o) == Some(Parsed(t, o + |Quoted(t)|))
  {
    hide Escape, FindClose, DecodeString, At;
    assert |Quoted(t)| == |Escape(t)| + 2;
    QuotedAt(s, o, t);
    EscapedBody(s, o + 1, o + 1 + |Escape(t)|, t);
  }

  // ---------- numbers ----------

  lemma RunEnd(s: seq<byte>, o: nat, n: nat)
    requires n <= 63 && o + n <= |s|
    requires forall k | o <= k < o + n :: NumberByte(s[k])
    requires n == 63 || o + n == |s| || !NumberByte(s[o + n])
    ensures NumberEnd(s, o, 63) == o + n
  {
  }

  /** Every finite number is parsed back from its text. */
  lemma NumberRoundTrip(s: seq<byte>, o: nat, x: double)
    requires x.Finite? && At(s, o, NumberText(x))
    requires o + |NumberText(x)| < |s| && !NumberByte(s[o + |NumberText(x)|])
    ensures ParseNumber(s, o) == Some(Parsed(x, o + |NumberText(x)|))
    ensures s[o] == MINUS || IsDigit(s[o])
  {
    hide NumberText, Strtod;
    var t := NumberText(x);
    NumberTextBytes(x);
    forall k | o <= k < o + |t| ensures s[k] == t[k - o] {
      AtIndex(s, o, t, k - o);
    }
    RunEnd(s, o, |t|);
    PrintedReads(x);
  }

  // ---------- values ----------

  /** A printed value starts with a byte that is neither white space nor a closing bracket. */
  lemma FirstByte(v: Value, fmt: bool, d: nat)
    requires Printable(v)
    ensures |Render(v, fmt, d)| > 0
    ensures var c := Render(v, fmt, d)[0]; 32 < c < 128 && c != RBRACKET && c != RBRACE
  {
    hide NumberText;
    if v.Num? {
      PrintedBytes(v.number);
    }
  }

  lemma NoWord(s: seq<byte>, o: nat)
    requires o < |s| && s[o] != LOWER_N && s[o] != LOWER_F && s[o] != LOWER_T
    ensures !At(s, o, NULL_TEXT) && !At(s, o, FALSE_TEXT) && !At(s, o, TRUE_TEXT)
  {
    if At(s, o, NULL_TEXT) { AtIndex(s, o, NULL_TEXT, 0); }
    if At(s, o, FALSE_TEXT) { AtIndex(s, o, FALSE_TEXT, 0); }
    if At(s, o, TRUE_TEXT) { AtIndex(s, o, TRUE_TEXT, 0); }
  }

  /** What parsing `n` bytes of text for `v` at depth `d` must give. */
  function Expected(v: Value, o: nat, n: nat, d: nat): Option<Parsed<Value>> {
    if d + Depth(v) <= NESTING_LIMIT then Some(Parsed(v, o + n)) else None
  }

  ghost predicate Readable(s: seq<byte>, o: nat, d: nat, fmt: bool, v: Value) {
    && IsText(s) && d <= NESTING_LIMIT && Printable(v) && Plain(v)
    && At(s, o, Render(v, fmt, d))
    && o + |Render(v, fmt, d)| < |s| && !NumberByte(s[o + |Render(v, fmt, d)|])
  }

  lemma {:induction false} ValueRoundTrip(s: seq<byte>, o: nat, d: nat, fmt: bool, v: Value)
    requires Readable(s, o, d, fmt, v)
    ensures ParseValue(s, o, d) == Expected(v, o, |Render(v, fmt, d)|, d)
    decreases v, 0
  {
    hide Render, RenderItems, RenderMembers, At, ParseValue, Depth, Plain;
    match v
    case Invalid => assert false;
    case Str(t) => TextRoundTrip(s, o, d, fmt, t);
    case Num(x) => DoubleRoundTrip(s, o, d, fmt, x);
    case Arr(items) => ArrayRoundTrip(s, o, d, fmt, items);
    case Obj(members) => ObjectRoundTrip(s, o, d, fmt, members);
    case _ => WordRoundTrip(s, o, d, fmt, v);
  }

  lemma WordRoundTrip(s: seq<byte>, o: nat, d: nat, fmt: bool, v: Value)
    requires Readable(s, o, d, fmt, v) && (v.Null? || v.False? || v.True?)
    ensures ParseValue(s, o, d) == Expected(v, o, |Render(v, fmt, d)|, d)
  {
    hide ParseItems, ParseMembers, ParseString, ParseNumber;
    AtIndex(s, o, Render(v, fmt, d), 0);
    if At(s, o, NULL_TEXT) { AtIndex(s, o, NULL_TEXT, 0); }
    if At(s, o, FALSE_TEXT) { AtIndex(s, o, FALSE_TEXT, 0); }
  }

  lemma TextRoundTrip(s: seq<byte>, o: nat, d: nat, fmt: bool, t: seq<byte>)
    requires Readable(s, o, d, fmt, Str(t))
    ensures ParseValue(s, o, d) == Expected(Str(t), o, |Render(Str(t), fmt, d)|, d)
  {
    hide ParseItems, ParseMembers, ParseString, ParseNumber, Escape, NulFree;
    AtIndex(s, o, Quoted(t), 0);
    NoWord(s, o);
    CStrOfNulFree(t);
    StringRoundTrip(s, o, t);
  }

  lemma DoubleRoundTrip(s: seq<byte>, o: nat, d: nat, fmt: bool, x: double)
    requires Readable(s, o, d, fmt, Num(x))
    ensures ParseValue(s, o, d) == Expected(Num(x), o, |Render(Num(x), fmt, d)|, d)
  {
    hide ParseItems, ParseMembers, ParseString, ParseNumber, NumberText;
    NumberRoundTrip(s, o, x);
    NoWord(s, o);
  }

  /** The text after an opening bracket. */
  lemma AfterOpen(s: seq<byte>, o: nat, open: byte, body: seq<byte>)
    requires At(s, o, [open] + body)
    ensures o < |s| && s[o] == open && At(s, o + 1, body)
  {
    AtIndex(s, o, [open] + body, 0);
    AtConcat(s, o, [open], body);
  }

  lemma ParseArrayAt(s: seq<byte>, o: nat, d: nat)
    requires IsText(s) && o + 1 < |s| && s[o] == LBRACKET
    ensures d >= NESTING_LIMIT ==> ParseValue(s, o, d) == None
    ensures d < NESTING_LIMIT && s[SkipWs(s, o + 1)] == RBRACKET ==>
      ParseValue(s, o, d) == Some(Parsed(Arr([]), SkipWs(s, o + 1) + 1))
    ensures d < NESTING_LIMIT && s[SkipWs(s, o + 1)] != RBRACKET ==>
      var r := ParseItems(s, SkipWs(s, o + 1), d + 1, []);
      ParseValue(s, o, d) == if r.None? then None else Some(Parsed(Arr(r.value.val), r.value.next))
  {
    hide ParseItems, ParseMembers, SkipWs;
    NoWord(s, o);
  }

  /** What stands between the opening bracket and the end of an array. */
  function ArrayBody(items: seq<Value>, fmt: bool, d: nat): seq<byte> {
    RenderItems(items, fmt, d) + [RBRACKET]
  }

  lemma ArrayText(items: seq<Value>, fmt: bool, d: nat)
    ensures Render(Arr(items), fmt, d) == [LBRACKET] + ArrayBody(items, fmt, d + 1)
  {
    hide RenderItems;
  }

  lemma {:induction false} ArrayRoundTrip(s: seq<byte>, o: nat, d: nat, fmt: bool, items: seq<Value>)
    requires Readable(s, o, d, fmt, Arr(items))
    ensures ParseValue(s, o, d) == Expected(Arr(items), o, |Render(Arr(items), fmt, d)|, d)
    decreases items, 2
  {
    hide Render, ArrayBody, At, ParseItems, ParseValue, SkipWs, ItemsDepth, Printable, Plain;
    ArrayText(items, fmt, d);
    AfterOpen(s, o, LBRACKET, ArrayBody(items, fmt, d + 1));
    ParseArrayAt(s, o, d);
    if items == [] {
      EmptyItems(s, o + 1, fmt, d + 1);
    } else {
      ItemFacts(items);
      ItemsFirstByte(s, o + 1, d + 1, fmt, items);
      if d < NESTING_LIMIT {
        ItemsRoundTrip(s, o + 1, d + 1, fmt, items, []);
        assert [] + items == items;
      }
    }
  }

  lemma EmptyItems(s: seq<byte>, o: nat, fmt: bool, d: nat)
    requires At(s, o, ArrayBody([], fmt, d))
    ensures o < |s| && s[o] == RBRACKET && SkipWs(s, o) == o
    ensures |ArrayBody([], fmt, d)| == 1 && ItemsDepth([]) == 0
  {
    AtIndex(s, o, ArrayBody([], fmt, d), 0);
  }

  lemma ItemsFirstByte(s: seq<byte>, o: nat, d: nat, fmt: bool, items: seq<Value>)
    requires items != [] && Printable(items[0]) && At(s, o, ArrayBody(items, fmt, d))
    ensures o < |s| && s[o] > 32 && s[o] != RBRACKET && SkipWs(s, o) == o
    ensures |ArrayBody(items, fmt, d)| > 0 && ArrayBody(items, fmt, d)[0] == s[o]
  {
    hide Render, At;
    FirstByte(items[0], fmt, d);
    AtIndex(s, o, ArrayBody(items, fmt, d), 0);
    NotBlank(s, o);
  }

  lemma ItemsStep(s: seq<byte>, o: nat, n: nat, d: nat, x: Value, acc: seq<Value>)
    requires IsText(s) && o < |s| && n < |s|
    requires ParseValue(s, o, d) == Some(Parsed(x, n))
    ensures s[SkipWs(s, n)] == COMMA ==>
      ParseItems(s, o, d, acc) == ParseItems(s, SkipWs(s, SkipWs(s, n) + 1), d, acc + [x])
    ensures s[SkipWs(s, n)] == RBRACKET ==> ParseItems(s, o, d, acc) == Some(Parsed(acc + [x], SkipWs(s, n) + 1))
  {
    hide ParseValue, SkipWs;
  }

  lemma ItemsFail(s: seq<byte>, o: nat, d: nat, acc: seq<Value>)
    requires IsText(s) && o < |s| && d <= NESTING_LIMIT
    ensures ParseValue(s, o, d) == None ==> ParseItems(s, o, d, acc) == None
  {
    hide ParseValue, SkipWs;
  }

  lemma {:induction false} ItemsRoundTrip(s: seq<byte>, o: nat, d: nat, fmt: bool, items: seq<Value>, acc: seq<Value>)
    requires IsText(s) && o < |s| && d <= NESTING_LIMIT && items != []
    requires Printable(Arr(items)) && Plain(Arr(items)) && At(s, o, ArrayBody(items, fmt, d))
    ensures ParseItems(s, o, d, acc)
         == if d + ItemsDepth(items) <= NESTING_LIMIT
            then Some(Parsed(acc + items, o + |ArrayBody(items, fmt, d)|)) else None
    decreases items, 1
  {
    hide Render, ArrayBody, ItemsTail, At, ParseValue, ParseItems, SkipWs, Depth, Printable, Plain, ItemsDepth, IsText;
    var x, rest := items[0], items[1..];
    var n := o + |Render(x, fmt, d)|;
    ItemFacts(items);
    ItemsSplit(items, fmt, d);
    AtConcat(s, o, Render(x, fmt, d), ItemsTail(rest, fmt, d));
    ItemEnd(s, n, fmt, d, rest);
    ValueRoundTrip(s, o, d, fmt, x);
    ItemsFail(s, o, d, acc);
    if d + Depth(x) <= NESTING_LIMIT {
      ItemsStep(s, o, n, d, x, acc);
      if rest == [] {
        assert [x] == items;
      } else {
        NextItem(s, n, fmt, d, rest);
        ItemsRoundTrip(s, SkipWs(s, n + 1), d, fmt, rest, acc + [x]);
        assert acc + [x] + rest == acc + items;
      }
    }
  }

  /** What follows the text of an item: a separator, the other items and the closing bracket. */
  function ItemsTail(rest: seq<Value>, fmt: bool, d: nat): seq<byte> {
    Separator(rest != [], fmt) + ArrayBody(rest, fmt, d)
  }

  lemma ItemsSplit(items: seq<Value>, fmt: bool, d: nat)
    requires items != []
    ensures ArrayBody(items, fmt, d) == Render(items[0], fmt, d) + ItemsTail(items[1..], fmt, d)
    ensures |ItemsTail([], fmt, d)| == 1
  {
    hide Render;
    assert RenderItems([], fmt, d) == [];
  }

  lemma ItemEnd(s: seq<byte>, o: nat, fmt: bool, d: nat, rest: seq<Value>)
    requires At(s, o, ItemsTail(rest, fmt, d))
    ensures o < |s| && s[o] == (if rest == [] then RBRACKET else COMMA) && SkipWs(s, o) == o
  {
    AtIndex(s, o, ItemsTail(rest, fmt, d), 0);
    NotBlank(s, o);
  }

  lemma NextItem(s: seq<byte>, o: nat, fmt: bool, d: nat, rest: seq<Value>)
    requires rest != [] && Printable(rest[0]) && Plain(rest[0]) && At(s, o, ItemsTail(rest, fmt, d))
    ensures o + 1 < |s|
    ensures SkipWs(s, o + 1) + |ArrayBody(rest, fmt, d)| == o + |ItemsTail(rest, fmt, d)|
    ensures At(s, SkipWs(s, o + 1), ArrayBody(rest, fmt, d))
  {
    hide ArrayBody, At, SkipWs;
    var blank, body := if fmt then [SPACE] else [], ArrayBody(rest, fmt, d);
    assert ItemsTail(rest, fmt, d) == [COMMA] + (blank + body);
    AfterOpen(s, o, COMMA, blank + body);
    AtConcat(s, o + 1, blank, body);
    ItemsFirstByte(s, o + 1 + |blank|, d, fmt, rest);
    SkipTo(s, o + 1, blank, body);
  }

  lemma ItemFacts(items: seq<Value>)
    requires items != [] && Printable(Arr(items))
    ensures Printable(items[0]) && Printable(Arr(items[1..]))
    ensures Plain(Arr(items)) ==> Plain(items[0]) && Plain(Arr(items[1..]))
    ensures |items| > 1 ==> Printable(items[1]) && (Plain(Arr(items)) ==> Plain(items[1])) && items[1..][0] == items[1]
    ensures ItemsDepth(items) == Max(Depth(items[0]), ItemsDepth(items[1..])) && ItemsDepth([]) == 0
  {
  }

  lemma NotBlank(s: seq<byte>, o: nat)
    requires o < |s| && s[o] > 32
    ensures SkipWs(s, o) == o
  {
  }

  lemma SkipTo(s: seq<byte>, o: nat, blank: seq<byte>, body: seq<byte>)
    requires At(s, o, blank + body) && |body| > 0 && body[0] > 32
    requires forall k | 0 <= k < |blank| :: blank[k] <= 32
    ensures SkipWs(s, o) == o + |blank| && At(s, o + |blank|, body)
    ensures s[o + |blank|] == body[0]
  {
    AtConcat(s, o, blank, body);
    AtIndex(s, o + |blank|, body, 0);
    forall k | o <= k < o + |blank| ensures s[k] <= 32 {
      AtIndex(s, o, blank, k - o);
    }
    SkipBlanks(s, o, |blank|);
  }

  // ---------- objects ----------

  function MemberText(m: Member, fmt: bool, d: nat): seq<byte> {
    Quoted(m.key) + (Colon(fmt) + Render(m.val, fmt, d))
  }

  /** What follows the text of a member: its end, the other members and the closing brace. */
  function MembersTail(rest: seq<Member>, fmt: bool, d: nat): seq<byte>
    requires d > 0
  {
    MemberEnd(rest != [], fmt) + (RenderMembers(rest, fmt, d) + Close(fmt, d - 1))
  }

  lemma Regroup(i: seq<byte>, a: seq<byte>, b: seq<byte>, c: seq<byte>, e: seq<byte>, f: seq<byte>, g: seq<byte>)
    ensures i + a + b + c + e + f + g == i + ((a + (b + c)) + (e + (f + g)))
  {
  }

  lemma MembersSplit(members: seq<Member>, fmt: bool, d: nat)
    requires d > 0 && members != []
    ensures RenderMembers(members, fmt, d) + Close(fmt, d - 1)
         == Indent(fmt, d) + (MemberText(members[0], fmt, d) + MembersTail(members[1..], fmt, d))
  {
    hide Render, Quoted, Close, Indent, Colon, MemberEnd;
    var m, rest := members[0], members[1..];
    Regroup(Indent(fmt, d), Quoted(m.key), Colon(fmt), Render(m.val, fmt, d), MemberEnd(rest != [], fmt),
            RenderMembers(rest, fmt, d), Close(fmt, d - 1));
  }

  lemma ParseObjectAt(s: seq<byte>, o: nat, d: nat)
    requires IsText(s) && o + 1 < |s| && s[o] == LBRACE
    ensures d >= NESTING_LIMIT ==> ParseValue(s, o, d) == None
    ensures d < NESTING_LIMIT && s[SkipWs(s, o + 1)] == RBRACE ==>
      ParseValue(s, o, d) == Some(Parsed(Obj([]), SkipWs(s, o + 1) + 1))
    ensures d < NESTING_LIMIT && s[SkipWs(s, o + 1)] != RBRACE ==>
      var r := ParseMembers(s, SkipWs(s, o + 1), d + 1, []);
      ParseValue(s, o, d) == if r.None? then None else Some(Parsed(Obj(r.value.val), r.value.next))
  {
    hide ParseItems, ParseMembers, SkipWs;
    NoWord(s, o);
  }

  function LineEnd(fmt: bool): seq<byte> { if fmt then [NEWLINE] else [] }

  /** What stands between the opening brace and the end of an object. */
  function ObjectBody(members: seq<Member>, fmt: bool, d: nat): seq<byte>
    requires d > 0
  {
    LineEnd(fmt) + (RenderMembers(members, fmt, d) + Close(fmt, d - 1))
  }

  lemma ObjectText(members: seq<Member>, fmt: bool, d: nat)
    ensures Render(Obj(members), fmt, d) == [LBRACE] + ObjectBody(members, fmt, d + 1)
  {
    hide RenderMembers, Close;
  }

  lemma {:induction false} ObjectRoundTrip(s: seq<byte>, o: nat, d: nat, fmt: bool, members: seq<Member>)
    requires Readable(s, o, d, fmt, Obj(members))
    ensures ParseValue(s, o, d) == Expected(Obj(members), o, |Render(Obj(members), fmt, d)|, d)
    decreases members, 3
  {
    hide Render, ObjectBody, At, ParseMembers, ParseValue, SkipWs, MembersDepth, Printable, Plain;
    ObjectText(members, fmt, d);
    AfterOpen(s, o, LBRACE, ObjectBody(members, fmt, d + 1));
    ParseObjectAt(s, o, d);
    if members == [] {
      NoMembers(s, o + 1, d, fmt);
    } else if d < NESTING_LIMIT {
      MembersRoundTrip(s, o + 1, d + 1, fmt, members, []);
      assert [] + members == members;
    }
  }

  lemma NoMembers(s: seq<byte>, o: nat, d: nat, fmt: bool)
    requires o <= |s| && |s| > 0 && At(s, o, ObjectBody([], fmt, d + 1))
    ensures s[SkipWs(s, o)] == RBRACE && MembersDepth([]) == 0
    ensures SkipWs(s, o) + 1 == o + |ObjectBody([], fmt, d + 1)|
  {
    var blank := LineEnd(fmt) + Indent(fmt, d);
    assert ObjectBody([], fmt, d + 1) == blank + [RBRACE];
    SkipTo(s, o, blank, [RBRACE]);
  }

  /** Skipping the line end and the indentation lands on the quote of the next key. */
  lemma SkipToKey(s: seq<byte>, o: nat, d: nat, fmt: bool, members: seq<Member>)
    requires |s| > 0 && o <= |s| && d > 0 && members != [] && At(s, o, ObjectBody(members, fmt, d))
    ensures var i, text, tail := SkipWs(s, o), MemberText(members[0], fmt, d), MembersTail(members[1..], fmt, d);
      && i + |text| + |tail| == o + |ObjectBody(members, fmt, d)|
      && At(s, i, text) && s[i] == QUOTE && At(s, i + |text|, tail)
  {
    hide Render, RenderMembers, Close, MembersTail, SkipWs, At;
    MembersSplit(members, fmt, d);
    var text, tail := MemberText(members[0], fmt, d), MembersTail(members[1..], fmt, d);
    var blank := LineEnd(fmt) + Indent(fmt, d);
    assert ObjectBody(members, fmt, d) == blank + (text + tail);
    assert text[0] == QUOTE;
    SkipTo(s, o, blank, text + tail);
    AtConcat(s, o + |blank|, text, tail);
  }

  lemma MembersStep(s: seq<byte>, o: nat, n: nat, d: nat, x: Member, acc: seq<Member>)
    requires IsText(s) && o < |s| && n < |s|
    requires ParseMember(s, o, d) == Some(Parsed(x, n))
    ensures s[SkipWs(s, n)] == COMMA ==>
      ParseMembers(s, o, d, acc) == ParseMembers(s, SkipWs(s, SkipWs(s, n) + 1), d, acc + [x])
    ensures s[SkipWs(s, n)] == RBRACE ==> ParseMembers(s, o, d, acc) == Some(Parsed(acc + [x], SkipWs(s, n) + 1))
  {
    hide ParseMember, SkipWs;
  }

  lemma {:induction false} MembersRoundTrip(s: seq<byte>, o: nat, d: nat, fmt: bool, members: seq<Member>,
                                            acc: seq<Member>)
    requires IsText(s) && o <= |s| && 0 < d <= NESTING_LIMIT && members != []
    requires Printable(Obj(members)) && Plain(Obj(members)) && At(s, o, ObjectBody(members, fmt, d))
    ensures s[SkipWs(s, o)] == QUOTE
    ensures ParseMembers(s, SkipWs(s, o), d, acc)
         == if d + MembersDepth(members) <= NESTING_LIMIT
            then Some(Parsed(acc + members, o + |ObjectBody(members, fmt, d)|)) else None
    decreases members, 2
  {
    hide MemberText, MembersTail, ObjectBody, At, ParseMember, ParseMembers, SkipWs, Depth, MembersDepth, Printable;
    hide Plain;
    var m, rest := members[0], members[1..];
    var i := SkipWs(s, o);
    var n := i + |MemberText(m, fmt, d)|;
    SkipToKey(s, o, d, fmt, members);
    MemberFacts(members);
    TailFirstByte(s, n, d, fmt, rest);
    MemberRoundTrip(s, i, d, fmt, m);
    MembersFail(s, i, d, acc);
    if d + Depth(m.val) <= NESTING_LIMIT {
      MembersStep(s, i, n, d, m, acc);
      if rest == [] {
        LastMember(s, n, d, fmt);
        assert members == [m];
      } else {
        NextMember(s, n, d, fmt, rest);
        MembersRoundTrip(s, n + 1, d, fmt, rest, acc + [m]);
        assert acc + [m] + rest == acc + members;
      }
    }
  }

  lemma MembersFail(s: seq<byte>, o: nat, d: nat, acc: seq<Member>)
    requires IsText(s) && o < |s|
    ensures ParseMember(s, o, d) == None ==> ParseMembers(s, o, d, acc) == None
  {
    hide ParseMember, SkipWs;
  }

  lemma MemberFacts(members: seq<Member>)
    requires members != [] && Printable(Obj(members))
    ensures Printable(members[0].val) && Printable(Obj(members[1..]))
    ensures Plain(Obj(members)) ==> Plain(members[0].val) && NulFree(members[0].key) && Plain(Obj(members[1..]))
    ensures MembersDepth(members) == Max(Depth(members[0].val), MembersDepth(members[1..]))
  {
  }

  lemma TailFirstByte(s: seq<byte>, o: nat, d: nat, fmt: bool, rest: seq<Member>)
    requires d > 0 && At(s, o, MembersTail(rest, fmt, d))
    ensures o < |s| && !NumberByte(s[o])
  {
    AtIndex(s, o, MembersTail(rest, fmt, d), 0);
  }

  lemma LastMember(s: seq<byte>, o: nat, d: nat, fmt: bool)
    requires |s| > 0 && o <= |s| && d > 0 && At(s, o, MembersTail([], fmt, d))
    ensures s[SkipWs(s, o)] == RBRACE && SkipWs(s, o) + 1 == o + |MembersTail([], fmt, d)|
    ensures MembersDepth([]) == 0
  {
    var blank := LineEnd(fmt) + Indent(fmt, d - 1);
    assert MembersTail([], fmt, d) == blank + [RBRACE];
    SkipTo(s, o, blank, [RBRACE]);
  }

  lemma NextMember(s: seq<byte>, o: nat, d: nat, fmt: bool, rest: seq<Member>)
    requires IsText(s) && d > 0 && rest != [] && At(s, o, MembersTail(rest, fmt, d))
    ensures o + 1 < |s| && SkipWs(s, o) == o && s[o] == COMMA
    ensures At(s, o + 1, ObjectBody(rest, fmt, d))
    ensures |MembersTail(rest, fmt, d)| == 1 + |ObjectBody(rest, fmt, d)|
  {
    hide RenderMembers, Close, At, NulFree;
    var body := ObjectBody(rest, fmt, d);
    assert MembersTail(rest, fmt, d) == [COMMA] + body;
    AfterOpen(s, o, COMMA, body);
    AtBound(s, o + 1, body);
  }

  lemma AtBound(s: seq<byte>, o: nat, w: seq<byte>)
    requires At(s, o, w)
    ensures o + |w| <= |s|
  {
  }

  lemma MemberStep(s: seq<byte>, o: nat, d: nat, key: seq<byte>, n: nat)
    requires IsText(s) && o < |s| && ParseString(s, o) == Some(Parsed(key, n)) && s[SkipWs(s, n)] == COLON
    ensures SkipWs(s, n) + 1 < |s|
    ensures var x := ParseValue(s, SkipWs(s, SkipWs(s, n) + 1), d);
      ParseMember(s, o, d) == if x.None? then None else Some(Parsed(Member(CStr(key), x.value.val), x.value.next))
  {
    hide ParseString, ParseValue, SkipWs, CStr;
  }

  lemma {:induction false} MemberRoundTrip(s: seq<byte>, o: nat, d: nat, fmt: bool, m: Member)
    requires IsText(s) && d <= NESTING_LIMIT && Printable(m.val) && Plain(m.val) && NulFree(m.key)
    requires At(s, o, MemberText(m, fmt, d))
    requires o + |MemberText(m, fmt, d)| < |s| && !NumberByte(s[o + |MemberText(m, fmt, d)|])
    ensures o < |s|
    ensures ParseMember(s, o, d)
         == if d + Depth(m.val) <= NESTING_LIMIT then Some(Parsed(m, o + |MemberText(m, fmt, d)|)) else None
    decreases m, 1
  {
    hide Render, Quoted, At, MemberText, ParseString, ParseMember, ParseValue, SkipWs, Depth, Printable, Plain, CStr;
    hide NulFree;
    var v := MemberLayout(s, o, d, fmt, m);
    StringRoundTrip(s, o, m.key);
    CStrOfNulFree(m.key);
    MemberStep(s, o, d, m.key, o + |Quoted(m.key)|);
    ValueRoundTrip(s, v, d, fmt, m.val);
  }

  /** Where the parts of a member stand. */
  lemma MemberLayout(s: seq<byte>, o: nat, d: nat, fmt: bool, m: Member) returns (v: nat)
    requires IsText(s) && Printable(m.val) && Plain(m.val) && At(s, o, MemberText(m, fmt, d))
    ensures var c := o + |Quoted(m.key)|;
      && At(s, o, Quoted(m.key)) && o < |s| && c < |s| && s[c] == COLON && SkipWs(s, c) == c
      && c + 1 < |s| && v == SkipWs(s, c + 1)
    ensures At(s, v, Render(m.val, fmt, d)) && v + |Render(m.val, fmt, d)| == o + |MemberText(m, fmt, d)|
  {
    hide Render, Quoted, At, SkipWs, Printable, Plain, IsText;
    var key, text := Quoted(m.key), Render(m.val, fmt, d);
    var blank := if fmt then [TAB] else [];
    assert Colon(fmt) + text == [COLON] + (blank + text);
    AtConcat(s, o, key, [COLON] + (blank + text));
    AfterOpen(s, o + |key|, COLON, blank + text);
    NotBlank(s, o + |key|);
    FirstByte(m.val, fmt, d);
    SkipTo(s, o + |key| + 1, blank, text);
    return o + |key| + 1 + |blank|;
  }

  // ---------- whole texts ----------

  /**
   * Parsing the printed text of any printable value with finite numbers gives the value back and
   * stops exactly at the terminator, in both formats and both end-of-text modes, if and only if
   * the value is nested no deeper than the parser's limit.
   */
  lemma PrintThenParse(v: Value, fmt: bool, requireEnd: bool)
    requires Printable(v) && Plain(v)
    ensures IsText(Render(v, fmt, 0) + [NUL])
    ensures ParseText(Render(v, fmt, 0) + [NUL], requireEnd)
         == if Depth(v) <= 1000 then Some(Parsed(v, |Render(v, fmt, 0)|)) else None
  {
    hide Render, At, ParseValue, Depth, Printable, Plain, Start, SkipWs, NulFree;
    var text := Render(v, fmt, 0);
    var s := text + [NUL];
    RenderNulFree(v, fmt, 0);
    assert s[..|s| - 1] == text;
    FirstByte(v, fmt, 0);
    WholeAt(text, [NUL]);
    RenderStart(v, fmt, s);
    ValueRoundTrip(s, 0, 0, fmt, v);
  }

  /** Arrays of one array, `n` deep. */
  function Nested(n: nat): Value {
    if n == 0 then Null else Arr([Nested(n - 1)])
  }

  lemma {:induction false} NestedDepth(n: nat)
    ensures Printable(Nested(n)) && Plain(Nested(n)) && Depth(Nested(n)) == n
  {
    if n > 0 {
      NestedDepth(n - 1);
      var items := [Nested(n - 1)];
      assert items[1..] == [];
      assert ItemsDepth(items) == Max(Depth(Nested(n - 1)), ItemsDepth([]));
    }
  }

  /** Every depth occurs, and the printed text of the first one beyond the limit does not parse. */
  lemma TooDeep(n: nat, fmt: bool, requireEnd: bool)
    ensures IsText(Render(Nested(n), fmt, 0) + [NUL])
    ensures ParseText(Render(Nested(n), fmt, 0) + [NUL], requireEnd).Some? <==> n <= 1000
  {
    hide Render, ParseText, IsText;
    NestedDepth(n);
    PrintThenParse(Nested(n), fmt, requireEnd);
  }

  lemma WholeAt(a: seq<byte>, b: seq<byte>)
    ensures At(a + b, 0, a)
  {
  }

  /** No printed value starts with a byte order mark. */
  lemma RenderStart(v: Value, fmt: bool, s: seq<byte>)
    requires Printable(v) && At(s, 0, Render(v, fmt, 0))
    ensures |s| > 0 && Start(s) == 0 && SkipWs(s, 0) == 0
  {
    hide Render, At;
    FirstByte(v, fmt, 0);
    AtIndex(s, 0, Render(v, fmt, 0), 0);
    if At(s, 0, BOM) { AtIndex(s, 0, BOM, 0); }
    NotBlank(s, 0);
  }

  lemma {:induction false} RenderNulFree(v: Value, fmt: bool, d: nat)
    ensures NulFree(Render(v, fmt, d))
    decreases v, 1
  {
    hide RenderItems, RenderMembers, Escape, NumberText, Quoted;
    match v
    case Num(x) => PrintedBytes(x);
    case Str(t) => EscapeNulFree(t);
    case Arr(items) => ItemsNulFree(items, fmt, d + 1);
    case Obj(members) => MembersNulFree(members, fmt, d + 1);
    case _ =>
  }

  lemma {:induction false} ItemsNulFree(items: seq<Value>, fmt: bool, d: nat)
    ensures NulFree(RenderItems(items, fmt, d))
    decreases items, 0
  {
    hide Render;
    if items != [] {
      RenderNulFree(items[0], fmt, d);
      ItemsNulFree(items[1..], fmt, d);
    }
  }

  lemma MemberNulFree(m: Member, fmt: bool, d: nat, more: bool)
    requires NulFree(Render(m.val, fmt, d))
    ensures NulFree(Indent(fmt, d) + Quoted(m.key) + Colon(fmt) + Render(m.val, fmt, d) + MemberEnd(more, fmt))
  {
    hide Render, Quoted;
    EscapeNulFree(m.key);
  }

  lemma {:induction false} MembersNulFree(members: seq<Member>, fmt: bool, d: nat)
    ensures NulFree(RenderMembers(members, fmt, d))
    decreases members, 0
  {
    hide Render, Quoted, Indent, Colon, MemberEnd;
    if members != [] {
      assert members[0].val < members[0];
      RenderNulFree(members[0].val, fmt, d);
      MemberNulFree(members[0], fmt, d, |members| > 1);
      MembersNulFree(members[1..], fmt, d);
    }
  }

  lemma {:induction false} EscapeNulFree(t: seq<byte>)
    ensures NulFree(Escape(t)) && NulFree(Quoted(t))
  {
    if t != [] {
      EscapeNulFree(t[1..]);
    }
  }

  // ---------- numbers that have no text ----------

  /** The value with null in place of what is not a number or infinite. */
  function Nulled(v: Value): Value {
    match v
    case Num(x) => if x.Finite? then v else Null
    case Arr(items) => Arr(NulledItems(items))
    case Obj(members) => Obj(NulledMembers(members))
    case _ => v
  }

  function NulledItems(items: seq<Value>): (r: seq<Value>)
    ensures |r| == |items|
  {
    seq(|items|, i requires 0 <= i < |items| => Nulled(items[i]))
  }

  function NulledMembers(members: seq<Member>): (r: seq<Member>)
    ensures |r| == |members|
  {
    seq(|members|, i requires 0 <= i < |members| => Member(members[i].key, Nulled(members[i].val)))
  }

  lemma {:induction false} NulledPlain(v: Value)
    requires Printable(v) && CStrings(v)
    ensures Printable(Nulled(v)) && Plain(Nulled(v)) && (FiniteNumbers(v) ==> Nulled(v) == v)
  {
    match v
    case Arr(items) =>
      forall i | 0 <= i < |items|
        ensures Printable(Nulled(items[i])) && Plain(Nulled(items[i]))
        ensures FiniteNumbers(items[i]) ==> Nulled(items[i]) == items[i]
      {
        NulledPlain(items[i]);
      }
    case Obj(members) =>
      forall i | 0 <= i < |members|
        ensures Printable(Nulled(members[i].val)) && Plain(Nulled(members[i].val))
        ensures FiniteNumbers(members[i].val) ==> Nulled(members[i].val) == members[i].val
      {
        assert members[i].val < members[i];
        NulledPlain(members[i].val);
      }
    case _ =>
  }

  /** The printed text does not tell them apart. */
  lemma {:induction false} NulledText(v: Value, fmt: bool, d: nat)
    ensures Render(Nulled(v), fmt, d) == Render(v, fmt, d) && Depth(Nulled(v)) == Depth(v)
    decreases v, 1
  {
    hide RenderItems, RenderMembers, Quoted, NulledItems, NulledMembers, Format, ItemsDepth, MembersDepth;
    match v
    case Arr(items) => NulledItemsText(items, fmt, d + 1);
    case Obj(members) => NulledMembersText(members, fmt, d + 1);
    case _ =>
  }

  lemma {:induction false} NulledItemsText(items: seq<Value>, fmt: bool, d: nat)
    ensures RenderItems(NulledItems(items), fmt, d) == RenderItems(items, fmt, d)
    ensures ItemsDepth(NulledItems(items)) == ItemsDepth(items)
    decreases items, 0
  {
    hide Render, Nulled, Depth;
    if items != [] {
      assert NulledItems(items)[1..] == NulledItems(items[1..]);
      NulledText(items[0], fmt, d);
      NulledItemsText(items[1..], fmt, d);
    }
  }

  lemma {:induction false} NulledMembersText(members: seq<Member>, fmt: bool, d: nat)
    ensures RenderMembers(NulledMembers(members), fmt, d) == RenderMembers(members, fmt, d)
    ensures MembersDepth(NulledMembers(members)) == MembersDepth(members)
    decreases members, 0
  {
    hide Render, Nulled, Quoted, Indent, Colon, MemberEnd, Depth;
    if members != [] {
      assert NulledMembers(members)[1..] == NulledMembers(members[1..]);
      assert members[0].val < members[0];
      NulledText(members[0].val, fmt, d);
      NulledMembersText(members[1..], fmt, d);
    }
  }

  /** Any printable value of C strings comes back, with null for the numbers JSON has no text for. */
  lemma PrintThenParseAny(v: Value, fmt: bool, requireEnd: bool)
    requires Printable(v) && CStrings(v)
    ensures var t := Render(v, fmt, 0);
      && IsText(t + [NUL])
      && ParseText(t + [NUL], requireEnd)
         == if Depth(v) <= 1000 then Some(Parsed(Nulled(v), |t|)) else None
    ensures Nulled(v) == v <==> FiniteNumbers(v)
  {
    hide Render, ParseText, IsText, Nulled, Depth, Printable, CStrings, FiniteNumbers;
    NulledPlain(v);
    NulledText(v, fmt, 0);
    PrintThenParse(Nulled(v), fmt, requireEnd);
  }
}
