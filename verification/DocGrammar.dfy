/** The parser accepts exactly the documents of the grammar, up to the depth limit, and gives them their meaning. */
module DocGrammar {
  import opened Bytes
  import opened Json
  import opened Doubles
  import opened Numbers
  import opened ParseSpec
  import opened RoundTrip
  import opened Spelling
  import opened Grammar
  import opened StringGrammar
  import opened NumberGrammar

  // ---------- every document is read ----------

  lemma Words()
    ensures Ascii("null") == NULL_TEXT && Ascii("false") == FALSE_TEXT && Ascii("true") == TRUE_TEXT
  {
  }

  /** The text of a document starts with a byte that is no white space and does not end an array or object. */
  lemma TextStart(doc: Doc)
    requires Valid(doc)
    ensures Text(doc) != [] && 32 < Text(doc)[0] < 128 && Text(doc)[0] != RBRACKET && Text(doc)[0] != RBRACE
  {
    hide Body, NumeralText, ItemsText, MembersText, Blank;
    Words();
    if doc.DNumber? {
      SignRead(doc.numeral);
    }
  }

  /** White space is skipped. */
  lemma SkipBlank(s: seq<byte>, o: nat, w: seq<byte>)
    requires Blank(w) && At(s, o, w) && o + |w| < |s| && s[o + |w|] > 32
    ensures SkipWs(s, o) == o + |w|
  {
    forall k | o <= k < o + |w| ensures s[k] <= 32 {
      AtIndex(s, o, w, k - o);
    }
    SkipBlanks(s, o, |w|);
  }

  /** The byte behind a value is no part of a number. */
  lemma NoNumberBehind(s: seq<byte>, o: nat, w: seq<byte>, c: byte)
    requires Blank(w) && At(s, o, w + [c]) && c > 32 && !NumberByte(c)
    ensures o + |w| < |s| && s[o + |w|] == c && !NumberByte(s[o]) && SkipWs(s, o) == o + |w|
  {
    AtConcat(s, o, w, [c]);
    AtIndex(s, o + |w|, [c], 0);
    if w != [] { AtIndex(s, o, w, 0); }
    SkipBlank(s, o, w);
  }

  /** What parsing at depth `d` must give. */
  ghost function Expect<T>(v: T, next: nat, d: nat, nesting: nat): Option<Parsed<T>> {
    if d + nesting <= 1000 then Some(Parsed(v, next)) else None
  }

  lemma {:induction false} DocRead(s: seq<byte>, o: nat, d: nat, doc: Doc)
    requires IsText(s) && d <= 1000 && Valid(doc) && At(s, o, Text(doc))
    requires o + |Text(doc)| < |s| && !NumberByte(s[o + |Text(doc)|])
    ensures ParseValue(s, o, d) == Expect(Meaning(doc), o + |Text(doc)|, d, Nesting(doc))
    decreases doc, 1
  {
    hide ParseString, ParseNumber, ParseItems, ParseMembers, At, NumeralText, NumeralMeaning, ItemsText, MembersText;
    hide Body, PartsMeaning, SkipWs, Blank, ValidNumeral, CStr;
    Words();
    TextStart(doc);
    AtIndex(s, o, Text(doc), 0);
    match doc
    case DNumber(n) =>
      NumberRead(s, o, n);
      NoWord(s, o);
    case DString(body, parts) =>
      StringRead(s, o, body, parts);
      NoWord(s, o);
    case DArray(blank, items) => ArrayRead(s, o, d, doc);
    case DObject(blank, members) => ObjectRead(s, o, d, doc);
    case _ => WordRead(s, o, d, doc);
  }

  lemma WordRead(s: seq<byte>, o: nat, d: nat, doc: Doc)
    requires IsText(s) && At(s, o, Text(doc)) && (doc.DNull? || doc.DFalse? || doc.DTrue?) && d <= 1000
    requires o < |s|
    ensures Valid(doc) && ParseValue(s, o, d) == Expect(Meaning(doc), o + |Text(doc)|, d, Nesting(doc))
  {
    hide ParseString, ParseNumber, ParseItems, ParseMembers, SkipWs;
    Words();
    AtIndex(s, o, Text(doc), 0);
    if At(s, o, NULL_TEXT) { AtIndex(s, o, NULL_TEXT, 0); }
    if At(s, o, FALSE_TEXT) { AtIndex(s, o, FALSE_TEXT, 0); }
  }

  lemma {:induction false} ArrayRead(s: seq<byte>, o: nat, d: nat, doc: Doc)
    requires IsText(s) && d <= 1000 && doc.DArray? && Valid(doc) && At(s, o, Text(doc))
    requires o + |Text(doc)| < |s|
    ensures ParseValue(s, o, d) == Expect(Meaning(doc), o + |Text(doc)|, d, Nesting(doc))
    decreases doc, 0
  {
    hide ParseValue, ParseItems, At, ItemsText, SkipWs, Blank;
    var blank, items := doc.blank, doc.items;
    var inner := if items == [] then blank else ItemsText(items);
    assert Text(doc) == ['[' as int] + (inner + [']' as int]);
    AfterOpen(s, o, '[' as int, inner + [']' as int]);
    ParseArrayAt(s, o, d);
    if items == [] {
      NoNumberBehind(s, o + 1, blank, ']' as int);
    } else {
      ItemsRead(s, o + 1, if d < 1000 then d + 1 else 1000, items, []);
      ItemStarts(s, o + 1, items);
      assert [] + ItemsMeaning(items) == ItemsMeaning(items);
    }
  }

  /** The first item starts where the white space behind the bracket ends. */
  lemma ItemStarts(s: seq<byte>, p: nat, items: seq<Entry>)
    requires items != [] && ValidItems(items) && At(s, p, ItemsText(items) + [']' as int])
    ensures var i := p + |items[0].before|;
      && i < |s| && SkipWs(s, p) == i && s[i] > 32 && s[i] != RBRACKET && At(s, i, Text(items[0].doc))
  {
    hide Text, At, SkipWs, Valid, Blank;
    var x, rest := items[0], (if |items| > 1 then [',' as int] else []) + ItemsText(items[1..]) + [']' as int];
    assert ItemsText(items) + [']' as int] == x.before + (Text(x.doc) + (x.after + rest));
    AtConcat(s, p, x.before, Text(x.doc) + (x.after + rest));
    AtConcat(s, p + |x.before|, Text(x.doc), x.after + rest);
    TextStart(x.doc);
    AtIndex(s, p + |x.before|, Text(x.doc), 0);
    SkipBlank(s, p, x.before);
  }

  /** Behind the item and its white space stands the comma or bracket. */
  lemma ItemEnds(s: seq<byte>, p: nat, items: seq<Entry>) returns (n: nat)
    requires items != [] && ValidItems(items) && At(s, p, ItemsText(items) + [']' as int])
    ensures n == p + |EntryText(items[0])| - |items[0].after| == p + |items[0].before| + |Text(items[0].doc)|
    ensures var k, c := n + |items[0].after|, if |items| > 1 then ',' as int else ']' as int;
      && k < |s| && SkipWs(s, n) == k && s[k] == c && !NumberByte(s[n]) && n < |s|
      && |ItemsText(items)| + p == (if |items| > 1 then k + 1 + |ItemsText(items[1..])| else k)
      && (|items| > 1 ==> At(s, k + 1, ItemsText(items[1..]) + [']' as int]))
  {
    hide Text, At, SkipWs, Valid, Blank;
    var x := items[0];
    var front := x.before + Text(x.doc);
    n := p + |front|;
    var tail := if |items| > 1 then ItemsText(items[1..]) + [']' as int] else [];
    var c := if |items| > 1 then ',' as int else ']' as int;
    if |items| == 1 { assert items[1..] == [] && ItemsText(items[1..]) == []; }
    assert ItemsText(items) + [']' as int] == front + ((x.after + [c]) + tail);
    AtConcat(s, p, front, (x.after + [c]) + tail);
    AtConcat(s, n, x.after + [c], tail);
    NoNumberBehind(s, n, x.after, c);
  }

  lemma AtLength(s: seq<byte>, o: nat, w: seq<byte>)
    requires At(s, o, w)
    ensures o + |w| <= |s|
  {
  }

  lemma ItemsUnfold(items: seq<Entry>)
    requires items != [] && ValidItems(items)
    ensures ValidEntry(items[0]) && Valid(items[0].doc) && ValidItems(items[1..])
    ensures ItemsMeaning(items) == [Meaning(items[0].doc)] + ItemsMeaning(items[1..])
    ensures ItemsNesting(items) == Max(Nesting(items[0].doc), ItemsNesting(items[1..]))
    ensures |items| == 1 ==> ItemsMeaning(items[1..]) == [] && ItemsNesting(items[1..]) == 0
  {
    hide Valid, Blank, Meaning, Nesting;
  }

  lemma {:induction false} ItemsRead(s: seq<byte>, p: nat, d: nat, items: seq<Entry>, acc: seq<Value>)
    requires IsText(s) && d <= 1000 && items != [] && ValidItems(items)
    requires At(s, p, ItemsText(items) + [']' as int])
    ensures p + |ItemsText(items)| < |s|
    ensures ParseItems(s, SkipWs(s, p), d, acc)
         == Expect(acc + ItemsMeaning(items), p + |ItemsText(items)| + 1, d, ItemsNesting(items))
    decreases items, 2
  {
    hide Text, At, SkipWs, Valid, ValidEntry, ValidItems, Blank, ParseValue, ParseItems, Meaning, Nesting, ItemsText;
    hide ItemsMeaning, ItemsNesting;
    var x, rest := items[0], items[1..];
    ItemsUnfold(items);
    AtLength(s, p, ItemsText(items) + [']' as int]);
    ItemStarts(s, p, items);
    var n := ItemEnds(s, p, items);
    var i := p + |x.before|;
    DocRead(s, i, d, x.doc);
    ItemsFail(s, i, d, acc);
    if d + Nesting(x.doc) <= 1000 {
      ItemsStep(s, i, n, d, Meaning(x.doc), acc);
      if |items| > 1 {
        ItemsRead(s, n + |x.after| + 1, d, rest, acc + [Meaning(x.doc)]);
        assert acc + [Meaning(x.doc)] + ItemsMeaning(rest) == acc + ItemsMeaning(items);
      } else {
        assert [Meaning(x.doc)] + [] == [Meaning(x.doc)];
      }
    }
  }

  // ---------- objects ----------

  lemma NoMeaning()
    ensures MembersMeaning([]) == []
  {
  }

  lemma {:induction false} ObjectRead(s: seq<byte>, o: nat, d: nat, doc: Doc)
    requires IsText(s) && d <= 1000 && doc.DObject? && Valid(doc) && At(s, o, Text(doc))
    requires o + |Text(doc)| < |s|
    ensures ParseValue(s, o, d) == Expect(Meaning(doc), o + |Text(doc)|, d, Nesting(doc))
    decreases doc, 0
  {
    hide ParseValue, ParseMembers, At, MembersText, SkipWs, Blank, ValidNamed, MembersMeaning;
    NoMeaning();
    var blank, members := doc.blank, doc.members;
    var inner := if members == [] then blank else MembersText(members);
    assert Text(doc) == ['{' as int] + (inner + ['}' as int]);
    AfterOpen(s, o, '{' as int, inner + ['}' as int]);
    ParseObjectAt(s, o, d);
    if members == [] {
      NoNumberBehind(s, o + 1, blank, '}' as int);
    } else {
      MembersRead(s, o + 1, if d < 1000 then d + 1 else 1000, members, []);
      assert [] + MembersMeaning(members) == MembersMeaning(members);
    }
  }

  function NameText(m: Named): (r: seq<byte>)
    ensures |r| == |m.body| + 2
  {
    ['\"' as int] + m.body + ['\"' as int]
  }

  /** The text of some members, from the first name, colon, value and so on. */
  function FromEnd(members: seq<Named>): seq<byte>
    requires members != []
  {
    if |members| > 1 then MembersText(members[1..]) + ['}' as int] else []
  }

  function Ending(members: seq<Named>): seq<byte>
    requires members != []
  {
    members[0].entry.after + [if |members| > 1 then ',' as int else '}' as int]
  }

  function FromValue(members: seq<Named>): seq<byte>
    requires members != []
  {
    Text(members[0].entry.doc) + (Ending(members) + FromEnd(members))
  }

  function FromColon(members: seq<Named>): seq<byte>
    requires members != []
  {
    (members[0].after + [':' as int]) + (members[0].entry.before + FromValue(members))
  }

  lemma MembersSplit(members: seq<Named>)
    requires members != []
    ensures MembersText(members) + ['}' as int] == members[0].before + (NameText(members[0]) + FromColon(members))
  {
    hide Text, NameText;
    var m, x := members[0], members[0].entry;
    NameTextIs(m);
    var c := [if |members| > 1 then ',' as int else '}' as int];
    assert MembersText(members) + ['}' as int] == NamedText(m) + c + FromEnd(members) by {
      hide NamedText;
      if |members| == 1 {
        assert members[1..] == [] && MembersText(members[1..]) == [];
      }
    }
    Regroup(m.before, NameText(m), m.after, [':' as int], x.before, Text(x.doc), x.after, c, FromEnd(members));
  }

  lemma Regroup(a: seq<byte>, b: seq<byte>, c: seq<byte>, d: seq<byte>, e: seq<byte>, f: seq<byte>, g: seq<byte>,
                h: seq<byte>, i: seq<byte>)
    ensures (a + b + c + d + (e + f + g)) + h + i == a + (b + ((c + d) + (e + (f + ((g + h) + i)))))
  {
    var x := f + ((g + h) + i);
    assert (f + g) + h + i == x;
    assert e + (f + g) + h + i == e + x;
    var y := e + x;
    assert (a + b + c + d) + (e + f + g) + h + i == (a + b + c + d) + y;
    assert (a + b + c + d) + y == a + (b + ((c + d) + y));
  }

  lemma NameTextIs(m: Named)
    ensures NamedText(m)
         == m.before + NameText(m) + m.after + [':' as int] + (m.entry.before + Text(m.entry.doc) + m.entry.after)
  {
    hide Text;
  }

  /** Where the parts of the first member stand: its colon, its value, what follows, and the rest. */
  ghost predicate Placed(s: seq<byte>, members: seq<Named>, i: nat, q: nat, n: nat, k: nat)
    requires members != []
  {
    var m, x := members[0], members[0].entry;
    && At(s, i, NameText(m)) && q == i + |NameText(m)| + |m.after| + 1
    && At(s, i + |NameText(m)|, m.after + [':' as int]) && At(s, q, x.before) && At(s, q + |x.before|, Text(x.doc))
    && n == q + |x.before| + |Text(x.doc)| && k == n + |x.after|
    && At(s, n, x.after + [if |members| > 1 then ',' as int else '}' as int])
    && (|members| > 1 ==> At(s, k + 1, MembersText(members[1..]) + ['}' as int]))
  }

  lemma MemberPlaces(s: seq<byte>, p: nat, members: seq<Named>) returns (q: nat, n: nat, k: nat)
    requires members != [] && At(s, p, MembersText(members) + ['}' as int])
    ensures At(s, p, members[0].before) && Placed(s, members, p + |members[0].before|, q, n, k)
    ensures p + |MembersText(members)| == if |members| > 1 then k + 1 + |MembersText(members[1..])| else k
    ensures |members| > 1 ==> At(s, k + 1, MembersText(members[1..]) + ['}' as int])
  {
    hide Text, At, NameText, MembersText, FromColon, FromValue, FromEnd, Ending;
    var m, x := members[0], members[0].entry;
    MembersSplit(members);
    var i := p + |m.before|;
    AtConcat(s, p, m.before, NameText(m) + FromColon(members));
    AtConcat(s, i, NameText(m), FromColon(members));
    PartsSplit(members);
    AtConcat(s, i + |NameText(m)|, m.after + [':' as int], x.before + FromValue(members));
    q := i + |NameText(m)| + |m.after| + 1;
    AtConcat(s, q, x.before, FromValue(members));
    AtConcat(s, q + |x.before|, Text(x.doc), Ending(members) + FromEnd(members));
    n := q + |x.before| + |Text(x.doc)|;
    AtConcat(s, n, Ending(members), FromEnd(members));
    k := n + |x.after|;
  }

  lemma PartsSplit(members: seq<Named>)
    requires members != []
    ensures FromColon(members) == (members[0].after + [':' as int]) + (members[0].entry.before + FromValue(members))
    ensures FromValue(members) == Text(members[0].entry.doc) + (Ending(members) + FromEnd(members))
    ensures Ending(members) == members[0].entry.after + [if |members| > 1 then ',' as int else '}' as int]
    ensures |members| > 1 ==> FromEnd(members) == MembersText(members[1..]) + ['}' as int]
    ensures |members| == 1 ==> FromEnd(members) == []
  {
  }

  /** And what the white space between them comes to. */
  lemma MemberBlanks(s: seq<byte>, p: nat, members: seq<Named>, q: nat, n: nat, k: nat)
    requires members != [] && ValidNamed(members[0])
    requires At(s, p, members[0].before) && Placed(s, members, p + |members[0].before|, q, n, k)
    ensures var m, i := members[0], p + |members[0].before|;
      && i < |s| && p < |s| && SkipWs(s, p) == i && s[i] == QUOTE
      && q < |s| && SkipWs(s, i + |m.body| + 2) == q - 1 && s[q - 1] == COLON && i + |m.body| + 2 < |s|
      && q + |m.entry.before| < |s| && SkipWs(s, q) == q + |m.entry.before|
      && n < |s| && !NumberByte(s[n]) && k < |s| && SkipWs(s, n) == k
      && s[k] == (if |members| > 1 then COMMA else RBRACE)
  {
    hide Text, At, Valid, Blank, Body, SkipWs, MembersText;
    var m, x, i := members[0], members[0].entry, p + |members[0].before|;
    AtIndex(s, i, NameText(m), 0);
    SkipBlank(s, p, m.before);
    NoNumberBehind(s, i + |NameText(m)|, m.after, ':' as int);
    TextStart(x.doc);
    AtIndex(s, q + |x.before|, Text(x.doc), 0);
    SkipBlank(s, q, x.before);
    NoNumberBehind(s, n, x.after, if |members| > 1 then ',' as int else '}' as int);
  }

  lemma MembersUnfold(members: seq<Named>)
    requires members != [] && ValidMembers(members)
    ensures ValidNamed(members[0]) && Valid(members[0].entry.doc) && ValidMembers(members[1..])
    ensures Body(members[0].body, members[0].parts) && ValidParts(members[0].parts)
    ensures NamedMeaning(members[0]) == Member(CStr(PartsMeaning(members[0].parts)), Meaning(members[0].entry.doc))
    ensures MembersMeaning(members) == [NamedMeaning(members[0])] + MembersMeaning(members[1..])
    ensures MembersNesting(members) == Max(Nesting(members[0].entry.doc), MembersNesting(members[1..]))
    ensures |members| == 1 ==> MembersMeaning(members[1..]) == [] && MembersNesting(members[1..]) == 0
  {
    hide Valid, Blank, Meaning, Nesting, ValidParts, PartsMeaning, CStr, Closes, PartsText;
  }

  lemma {:induction false} MemberRead(s: seq<byte>, p: nat, d: nat, members: seq<Named>, q: nat, n: nat, k: nat)
    requires IsText(s) && d <= 1000 && members != [] && ValidMembers(members)
    requires At(s, p, members[0].before) && Placed(s, members, p + |members[0].before|, q, n, k)
    ensures p + |members[0].before| < |s|
    ensures ParseMember(s, p + |members[0].before|, d)
         == Expect(NamedMeaning(members[0]), n, d, Nesting(members[0].entry.doc))
    decreases members, 2
  {
    hide Text, At, SkipWs, Valid, Blank, ParseString, ParseMember, ParseMembers, ParseValue, Meaning, Nesting;
    hide MembersText, Body, PartsMeaning, CStr, ValidMembers, ValidNamed, ValidParts, NamedMeaning;
    var m, i := members[0], p + |members[0].before|;
    MembersUnfold(members);
    MemberBlanks(s, p, members, q, n, k);
    StringRead(s, i, m.body, m.parts);
    DocRead(s, q + |m.entry.before|, d, m.entry.doc);
    MemberStep(s, i, d, PartsMeaning(m.parts), i + |m.body| + 2);
  }

  lemma {:induction false} MembersRead(s: seq<byte>, p: nat, d: nat, members: seq<Named>, acc: seq<Member>)
    requires IsText(s) && d <= 1000 && members != [] && ValidMembers(members)
    requires At(s, p, MembersText(members) + ['}' as int])
    ensures p + |MembersText(members)| < |s| && p < |s| && s[SkipWs(s, p)] == QUOTE
    ensures ParseMembers(s, SkipWs(s, p), d, acc)
         == Expect(acc + MembersMeaning(members), p + |MembersText(members)| + 1, d, MembersNesting(members))
    decreases members, 3
  {
    hide At, SkipWs, Valid, Blank, ParseMember, ParseMembers, Meaning, Nesting, Placed;
    hide MembersText, Body, ValidMembers, ValidNamed, MembersMeaning, MembersNesting, NamedMeaning;
    var m, rest := members[0], members[1..];
    MembersUnfold(members);
    AtLength(s, p, MembersText(members) + ['}' as int]);
    var q, n, k := MemberPlaces(s, p, members);
    MemberBlanks(s, p, members, q, n, k);
    MemberRead(s, p, d, members, q, n, k);
    var i := p + |m.before|;
    MembersFail(s, i, d, acc);
    if d + Nesting(m.entry.doc) <= 1000 {
      MembersStep(s, i, n, d, NamedMeaning(m), acc);
      if |members| > 1 {
        MembersRead(s, k + 1, d, rest, acc + [NamedMeaning(m)]);
        assert acc + [NamedMeaning(m)] + MembersMeaning(rest) == acc + MembersMeaning(members);
      } else {
        assert [NamedMeaning(m)] + [] == [NamedMeaning(m)];
      }
    }
  }

  // ---------- nothing else is read ----------

  lemma BlankOf(s: seq<byte>, o: nat)
    requires IsText(s) && o < |s|
    ensures o <= SkipWs(s, o) < |s| && Blank(s[o..SkipWs(s, o)]) && At(s, o, s[o..SkipWs(s, o)])
  {
    hide SkipWs;
    var i := SkipWs(s, o);
    forall k | o <= k < i ensures 1 <= s[k] <= 32 {
      assert s[k] == s[..|s| - 1][k];
    }
  }

  lemma One(s: seq<byte>, o: nat)
    requires o < |s|
    ensures At(s, o, [s[o]])
  {
  }

  /** What a parse that ended at `next` must have read. */
  ghost predicate Found(s: seq<byte>, o: nat, d: nat, doc: Doc)
    requires IsText(s) && o < |s|
  {
    && Valid(doc) && At(s, o, Text(doc)) && d + Nesting(doc) <= 1000
    && ParseValue(s, o, d) == Some(Parsed(Meaning(doc), o + |Text(doc)|))
  }

  lemma {:induction false} DocOf(s: seq<byte>, o: nat, d: nat) returns (doc: Doc)
    requires IsText(s) && o < |s| && d <= 1000 && ParseValue(s, o, d).Some?
    requires !NumberByte(s[ParseValue(s, o, d).value.next])
    ensures Found(s, o, d, doc)
    decreases |s| - o, 0
  {
    hide ParseString, ParseNumber, ParseItems, ParseMembers, NumeralText, NumeralMeaning, ItemsText, MembersText;
    hide Body, PartsMeaning, SkipWs, Blank, ValidNumeral, CStr;
    Words();
    if At(s, o, NULL_TEXT) {
      doc := DNull;
    } else if At(s, o, FALSE_TEXT) {
      doc := DFalse;
    } else if At(s, o, TRUE_TEXT) {
      doc := DTrue;
    } else if s[o] == QUOTE {
      doc := StringDoc(s, o, d);
    } else if s[o] == MINUS || IsDigit(s[o]) {
      var n := NumberOf(s, o);
      doc := DNumber(n);
    } else if s[o] == LBRACKET {
      doc := ArrayOf(s, o, d);
    } else {
      doc := ObjectOf(s, o, d);
    }
  }

  lemma StringDoc(s: seq<byte>, o: nat, d: nat) returns (doc: Doc)
    requires IsText(s) && o < |s| && d <= 1000 && s[o] == QUOTE && ParseValue(s, o, d).Some?
    ensures Found(s, o, d, doc)
  {
    hide ParseString, ParseNumber, ParseItems, ParseMembers, Body, PartsMeaning, CStr, SkipWs;
    NoWord(s, o);
    var body, parts := StringOf(s, o);
    BodyNulFree(s, o, body);
    doc := DString(body, parts);
  }

  lemma BodyNulFree(s: seq<byte>, o: nat, body: seq<byte>)
    requires IsText(s) && At(s, o, ['\"' as int] + body + ['\"' as int])
    ensures NulFree(body)
  {
    var q := '\"' as int;
    forall k | 0 <= k < |body| ensures body[k] != NUL {
      AtIndex(s, o, [q] + body + [q], k + 1);
      AtIndex(s, o, [q] + body + [q], k + 2);
      assert s[o + k + 1] == s[..|s| - 1][o + k + 1];
    }
  }

  lemma {:induction false} ArrayOf(s: seq<byte>, o: nat, d: nat) returns (doc: Doc)
    requires IsText(s) && o < |s| && d <= 1000 && s[o] == LBRACKET && ParseValue(s, o, d).Some?
    ensures Found(s, o, d, doc)
    decreases |s| - o, 0, 0
  {
    hide ParseValue, ParseItems, ItemsText, SkipWs, Blank, At, ItemsMeaning, ItemsNesting, ValidItems;
    LastByte(s, o);
    ParseArrayAt(s, o, d);
    One(s, o);
    var i := SkipWs(s, o + 1);
    BlankOf(s, o + 1);
    if s[i] == RBRACKET {
      doc := DArray(s[o + 1..i], []);
      NoItems();
      One(s, i);
      AtJoin(s, o, [s[o]], s[o + 1..i]);
      AtJoin(s, o, [s[o]] + s[o + 1..i], [s[i]]);
    } else {
      var items := ItemsOf(s, o + 1, d + 1, []);
      doc := DArray([], items);
      AtJoin(s, o, [s[o]], ItemsText(items) + [']' as int]);
      assert [s[o]] + (ItemsText(items) + [']' as int]) == ['[' as int] + ItemsText(items) + [']' as int];
      assert [] + ItemsMeaning(items) == ItemsMeaning(items);
    }
  }

  lemma NoItems()
    ensures ValidItems([]) && ItemsMeaning([]) == [] && ItemsNesting([]) == 0
    ensures ValidMembers([]) && MembersMeaning([]) == [] && MembersNesting([]) == 0
  {
  }

  lemma LastByte(s: seq<byte>, o: nat)
    requires IsText(s) && o < |s| && s[o] != NUL
    ensures o + 1 < |s|
  {
  }

  ghost predicate ItemsFound(s: seq<byte>, p: nat, d: nat, acc: seq<Value>, items: seq<Entry>)
    requires IsText(s) && p < |s|
  {
    && items != [] && ValidItems(items) && At(s, p, ItemsText(items) + [']' as int]) && d + ItemsNesting(items) <= 1000
    && ParseItems(s, SkipWs(s, p), d, acc) == Some(Parsed(acc + ItemsMeaning(items), p + |ItemsText(items)| + 1))
  }

  lemma {:induction false} ItemsOf(s: seq<byte>, p: nat, d: nat, acc: seq<Value>) returns (items: seq<Entry>)
    requires IsText(s) && p < |s| && d <= 1000 && ParseItems(s, SkipWs(s, p), d, acc).Some?
    ensures ItemsFound(s, p, d, acc, items)
    decreases |s| - p, 1
  {
    hide ParseValue, ParseItems, SkipWs, Blank, At, Text, Meaning, Nesting, Valid, ItemsText, ItemsMeaning;
    hide ItemsNesting;
    hide ValidItems;
    var i := SkipWs(s, p);
    ItemsKnown(s, i, d, acc);
    BlankOf(s, p);
    var doc := DocOf(s, i, d);
    var n := i + |Text(doc)|;
    BlankOf(s, n);
    var k := SkipWs(s, n);
    One(s, k);
    var x := Entry(s[p..i], doc, s[n..k]);
    ItemsStep(s, i, n, d, Meaning(doc), acc);
    if s[k] == COMMA {
      LastByte(s, k);
      var rest := ItemsOf(s, k + 1, d, acc + [Meaning(doc)]);
      ItemJoined(s, p, x);
      items := ItemsFirst(s, p, k, d, acc, x, rest);
    } else {
      items := [x];
      ItemsOne(x);
      ItemJoined(s, p, x);
      AtJoin(s, p, EntryText(x), [s[k]]);
    }
  }

  /** One more item in front of those found behind its comma. */
  lemma ItemsFirst(s: seq<byte>, p: nat, k: nat, d: nat, acc: seq<Value>, x: Entry, rest: seq<Entry>)
    returns (items: seq<Entry>)
    requires IsText(s) && p < |s| && ValidEntry(x) && At(s, p, EntryText(x)) && k == p + |EntryText(x)| && k + 1 < |s|
    requires s[k] == COMMA && At(s, k, [s[k]]) && d + Nesting(x.doc) <= 1000
    requires ItemsFound(s, k + 1, d, acc + [Meaning(x.doc)], rest)
    requires ParseItems(s, SkipWs(s, p), d, acc) == ParseItems(s, SkipWs(s, k + 1), d, acc + [Meaning(x.doc)])
    ensures ItemsFound(s, p, d, acc, items)
  {
    hide ParseItems, SkipWs, Blank, At, Text, Meaning, Nesting, Valid, ItemsText, ItemsMeaning, ItemsNesting;
    hide ValidItems;
    hide EntryText;
    items := [x] + rest;
    assert acc + [Meaning(x.doc)] + ItemsMeaning(rest) == acc + ([Meaning(x.doc)] + ItemsMeaning(rest));
    ItemsCons(x, rest);
    AtJoin(s, p, EntryText(x), [s[k]]);
    AtJoin(s, p, EntryText(x) + [s[k]], ItemsText(rest) + [']' as int]);
    assert EntryText(x) + [s[k]] + (ItemsText(rest) + [']' as int]) == ItemsText(items) + [']' as int];
  }

  lemma ItemsKnown(s: seq<byte>, i: nat, d: nat, acc: seq<Value>)
    requires IsText(s) && i < |s| && ParseItems(s, i, d, acc).Some?
    ensures ParseValue(s, i, d).Some?
    ensures var n := ParseValue(s, i, d).value.next;
      (s[SkipWs(s, n)] == COMMA || s[SkipWs(s, n)] == RBRACKET) && !NumberByte(s[n])
  {
    hide ParseValue;
  }

  lemma ItemJoined(s: seq<byte>, p: nat, x: Entry)
    requires At(s, p, x.before) && At(s, p + |x.before|, Text(x.doc)) && At(s, p + |x.before| + |Text(x.doc)|, x.after)
    ensures At(s, p, EntryText(x)) && |EntryText(x)| == |x.before| + |Text(x.doc)| + |x.after|
  {
    hide At, Text;
    AtJoin(s, p, x.before, Text(x.doc));
    AtJoin(s, p, x.before + Text(x.doc), x.after);
  }

  lemma ItemsCons(x: Entry, rest: seq<Entry>)
    requires rest != [] && ValidItems(rest) && ValidEntry(x)
    ensures ValidItems([x] + rest) && ItemsText([x] + rest) == EntryText(x) + [',' as int] + ItemsText(rest)
    ensures ItemsMeaning([x] + rest) == [Meaning(x.doc)] + ItemsMeaning(rest)
    ensures ItemsNesting([x] + rest) == Max(Nesting(x.doc), ItemsNesting(rest))
  {
    hide Text, EntryText, Meaning, Nesting, ValidEntry;
    assert ([x] + rest)[1..] == rest;
  }

  lemma ItemsOne(x: Entry)
    requires ValidEntry(x)
    ensures ValidItems([x]) && ItemsText([x]) == EntryText(x)
    ensures ItemsMeaning([x]) == [Meaning(x.doc)] && ItemsNesting([x]) == Nesting(x.doc)
  {
    hide Text, EntryText, Meaning, Nesting, ValidEntry;
    assert [x][1..] == [];
  }

  lemma {:induction false} ObjectOf(s: seq<byte>, o: nat, d: nat) returns (doc: Doc)
    requires IsText(s) && o < |s| && d <= 1000 && s[o] == LBRACE && ParseValue(s, o, d).Some?
    ensures Found(s, o, d, doc)
    decreases |s| - o, 0, 0
  {
    hide ParseValue, ParseMembers, MembersText, SkipWs, Blank, At, MembersMeaning, MembersNesting, ValidMembers;
    LastByte(s, o);
    ParseObjectAt(s, o, d);
    One(s, o);
    var i := SkipWs(s, o + 1);
    BlankOf(s, o + 1);
    if s[i] == RBRACE {
      doc := DObject(s[o + 1..i], []);
      NoItems();
      One(s, i);
      AtJoin(s, o, [s[o]], s[o + 1..i]);
      AtJoin(s, o, [s[o]] + s[o + 1..i], [s[i]]);
    } else {
      var members := MembersOf(s, o + 1, d + 1, []);
      doc := DObject([], members);
      AtJoin(s, o, [s[o]], MembersText(members) + ['}' as int]);
      assert [s[o]] + (MembersText(members) + ['}' as int]) == ['{' as int] + MembersText(members) + ['}' as int];
      assert [] + MembersMeaning(members) == MembersMeaning(members);
    }
  }

  ghost predicate MembersFound(s: seq<byte>, p: nat, d: nat, acc: seq<Member>, members: seq<Named>)
    requires IsText(s) && p < |s|
  {
    && members != [] && ValidMembers(members) && At(s, p, MembersText(members) + ['}' as int])
    && d + MembersNesting(members) <= 1000
    && ParseMembers(s, SkipWs(s, p), d, acc)
       == Some(Parsed(acc + MembersMeaning(members), p + |MembersText(members)| + 1))
  }

  lemma {:induction false} MembersOf(s: seq<byte>, p: nat, d: nat, acc: seq<Member>) returns (members: seq<Named>)
    requires IsText(s) && p < |s| && d <= 1000 && ParseMembers(s, SkipWs(s, p), d, acc).Some?
    ensures MembersFound(s, p, d, acc, members)
    decreases |s| - p, 2
  {
    hide ParseMember, ParseMembers, SkipWs, At, MembersText, MembersMeaning, MembersNesting, ValidMembers, Nesting;
    hide ValidNamed, NamedMeaning, NamedText;
    var i := SkipWs(s, p);
    MembersKnown(s, i, d, acc);
    BlankOf(s, p);
    var m, n := MemberOf(s, p, d);
    var k := SkipWs(s, n);
    One(s, k);
    MembersStep(s, i, n, d, NamedMeaning(m), acc);
    AtJoin(s, p, NamedText(m), [s[k]]);
    if s[k] == COMMA {
      LastByte(s, k);
      var rest := MembersOf(s, k + 1, d, acc + [NamedMeaning(m)]);
      members := [m] + rest;
      assert acc + [NamedMeaning(m)] + MembersMeaning(rest) == acc + ([NamedMeaning(m)] + MembersMeaning(rest));
      MembersCons(m, rest);
      AtJoin(s, p, NamedText(m) + [s[k]], MembersText(rest) + ['}' as int]);
      assert NamedText(m) + [s[k]] + (MembersText(rest) + ['}' as int]) == MembersText(members) + ['}' as int];
    } else {
      members := [m];
      MembersOne(m);
    }
  }

  lemma MembersKnown(s: seq<byte>, i: nat, d: nat, acc: seq<Member>)
    requires IsText(s) && i < |s| && ParseMembers(s, i, d, acc).Some?
    ensures ParseMember(s, i, d).Some?
    ensures var n := ParseMember(s, i, d).value.next;
      (s[SkipWs(s, n)] == COMMA || s[SkipWs(s, n)] == RBRACE) && !NumberByte(s[n])
  {
    hide ParseMember;
  }

  lemma MembersCons(m: Named, rest: seq<Named>)
    requires rest != [] && ValidMembers(rest) && ValidNamed(m)
    ensures ValidMembers([m] + rest) && MembersText([m] + rest) == NamedText(m) + [',' as int] + MembersText(rest)
    ensures MembersMeaning([m] + rest) == [NamedMeaning(m)] + MembersMeaning(rest)
    ensures MembersNesting([m] + rest) == Max(Nesting(m.entry.doc), MembersNesting(rest))
  {
    hide NamedText, NamedMeaning, Nesting, ValidNamed;
    assert ([m] + rest)[1..] == rest;
  }

  lemma MembersOne(m: Named)
    requires ValidNamed(m)
    ensures ValidMembers([m]) && MembersText([m]) == NamedText(m)
    ensures MembersMeaning([m]) == [NamedMeaning(m)] && MembersNesting([m]) == Nesting(m.entry.doc)
  {
    hide NamedText, NamedMeaning, Nesting, ValidNamed;
    assert [m][1..] == [];
  }

  /** A name, its colon and its value, with the white space around them. */
  lemma {:induction false} MemberOf(s: seq<byte>, p: nat, d: nat) returns (m: Named, n: nat)
    requires IsText(s) && p < |s| && d <= 1000 && ParseMember(s, SkipWs(s, p), d).Some?
    requires !NumberByte(s[ParseMember(s, SkipWs(s, p), d).value.next])
    ensures n < |s| && ValidNamed(m) && d + Nesting(m.entry.doc) <= 1000
    ensures ParseMember(s, SkipWs(s, p), d) == Some(Parsed(NamedMeaning(m), n))
    ensures At(s, p, NamedText(m)) && p + |NamedText(m)| == SkipWs(s, n)
    decreases |s| - p, 1
  {
    hide ParseString, ParseValue, SkipWs, At, Text, Valid, Blank, Body, Meaning, PartsMeaning, CStr, Nesting;
    hide NamedText, ValidNamed, NamedMeaning;
    var i := SkipWs(s, p);
    var body, parts := StringOf(s, i);
    var e := i + |body| + 2;
    var c := SkipWs(s, e);
    LastByte(s, c);
    var j := SkipWs(s, c + 1);
    var doc := DocOf(s, j, d);
    n := j + |Text(doc)|;
    var k := SkipWs(s, n);
    BlankOf(s, p);
    BlankOf(s, e);
    BlankOf(s, c + 1);
    BlankOf(s, n);
    BodyNulFree(s, i, body);
    m := Named(s[p..i], body, parts, s[e..c], Entry(s[c + 1..j], doc, s[n..k]));
    NamedIs(m);
    One(s, c);
    NamedJoined(s, p, m);
  }

  lemma NamedIs(m: Named)
    requires Blank(m.before) && Blank(m.after) && Blank(m.entry.before) && Blank(m.entry.after) && Valid(m.entry.doc)
    requires NulFree(m.body) && Body(m.body, m.parts)
    ensures ValidNamed(m)
    ensures NamedMeaning(m) == Member(CStr(PartsMeaning(m.parts)), Meaning(m.entry.doc))
  {
    hide Blank, Valid, Meaning, PartsMeaning, CStr, Closes, PartsText, ValidParts;
  }

  lemma NamedJoined(s: seq<byte>, p: nat, m: Named)
    requires At(s, p, m.before) && At(s, p + |m.before|, NameText(m))
    requires At(s, p + |m.before| + |NameText(m)|, m.after)
    requires var c := p + |m.before| + |NameText(m)| + |m.after|;
      && At(s, c, [':' as int]) && At(s, c + 1, m.entry.before) && At(s, c + 1 + |m.entry.before|, Text(m.entry.doc))
      && At(s, c + 1 + |m.entry.before| + |Text(m.entry.doc)|, m.entry.after)
    ensures At(s, p, NamedText(m))
    ensures |NamedText(m)| == |m.before| + |NameText(m)| + |m.after| + 1
                              + |m.entry.before| + |Text(m.entry.doc)| + |m.entry.after|
  {
    hide At, Text, NameText, EntryText;
    ItemJoined(s, p + |m.before| + |NameText(m)| + |m.after| + 1, m.entry);
    AtJoin(s, p, m.before, NameText(m));
    AtJoin(s, p, m.before + NameText(m), m.after);
    AtJoin(s, p, m.before + NameText(m) + m.after, [':' as int]);
    AtJoin(s, p, m.before + NameText(m) + m.after + [':' as int], EntryText(m.entry));
    NamedTextIs(m);
  }

  lemma NamedTextIs(m: Named)
    ensures NamedText(m) == m.before + NameText(m) + m.after + [':' as int] + EntryText(m.entry)
  {
    hide EntryText;
  }

  // ---------- whole texts ----------

  /** A byte order mark, or none. */
  function Mark(bom: bool): seq<byte> { if bom then [0xEF, 0xBB, 0xBF] else [] }

  lemma StartRead(s: seq<byte>, bom: bool, before: seq<byte>, doc: Doc)
    requires IsText(s) && Valid(doc) && Blank(before) && At(s, 0, Mark(bom) + (before + Text(doc)))
    requires |Mark(bom)| + |before| + |Text(doc)| < |s|
    ensures SkipWs(s, Start(s)) == |Mark(bom)| + |before| && At(s, |Mark(bom)| + |before|, Text(doc))
  {
    hide Text, Valid, SkipWs, Blank;
    TextStart(doc);
    AtConcat(s, 0, Mark(bom), before + Text(doc));
    AtConcat(s, |Mark(bom)|, before, Text(doc));
    AtIndex(s, |Mark(bom)| + |before|, Text(doc), 0);
    SkipBlank(s, |Mark(bom)|, before);
    if !bom {
      if before != [] { BlankAt(s, 0, before); }
      NoMark(s);
    }
  }

  lemma NoMark(s: seq<byte>)
    requires s != [] && s[0] != 0xEF
    ensures !At(s, 0, BOM)
  {
    hide At;
    if At(s, 0, BOM) {
      AtIndex(s, 0, BOM, 0);
    }
  }

  lemma BlankAt(s: seq<byte>, o: nat, w: seq<byte>)
    requires Blank(w) && w != [] && At(s, o, w)
    ensures 1 <= s[o] <= 32
  {
    AtIndex(s, o, w, 0);
  }

  /** A document at the front of a text is read, whatever follows it that is no part of a number. */
  lemma PrefixRead(s: seq<byte>, bom: bool, before: seq<byte>, doc: Doc)
    requires IsText(s) && Valid(doc) && Blank(before) && At(s, 0, Mark(bom) + (before + Text(doc)))
    requires var n := |Mark(bom)| + |before| + |Text(doc)|; n < |s| && !NumberByte(s[n])
    ensures var n := |Mark(bom)| + |before| + |Text(doc)|;
      ParseText(s, false) == Expect(Meaning(doc), n, 0, Nesting(doc))
  {
    hide Text, Valid, SkipWs, Blank, ParseValue, Meaning, Nesting, At;
    StartRead(s, bom, before, doc);
    DocRead(s, |Mark(bom)| + |before|, 0, doc);
  }

  /** Where the end is required, only white space may follow. */
  lemma EndRequired(s: seq<byte>)
    requires IsText(s)
    ensures var r := ParseText(s, false);
      && (r.Some? ==> r.value.next < |s|)
      && ParseText(s, true)
         == if r.Some? && Blank(s[r.value.next..|s| - 1]) then Some(Parsed(r.value.val, |s| - 1)) else None
  {
    hide ParseValue;
    var r := ParseText(s, false);
    if r.Some? {
      var n := r.value.next;
      BlankOf(s, n);
      var i := SkipWs(s, n);
      if s[i] != NUL && i < |s| - 1 {
        assert s[n..|s| - 1][i - n] == s[i] > 32;
      }
      assert s[i] == NUL ==> i == |s| - 1 by { assert i < |s| - 1 ==> s[i] == s[..|s| - 1][i]; }
    }
  }

  /** The whole text of a document: a mark, white space, the value and more white space. */
  function Whole(bom: bool, before: seq<byte>, doc: Doc, after: seq<byte>): seq<byte> {
    Mark(bom) + (before + Text(doc)) + after + [0]
  }

  /** Every such text is read if and only if it is nested at most 1000 deep, and gives its meaning. */
  lemma TextRead(bom: bool, before: seq<byte>, doc: Doc, after: seq<byte>)
    requires Valid(doc) && Blank(before) && Blank(after) && IsText(Whole(bom, before, doc, after))
    ensures var s := Whole(bom, before, doc, after);
      ParseText(s, true) == if Nesting(doc) <= 1000 then Some(Parsed(Meaning(doc), |s| - 1)) else None
  {
    hide Text, Valid, Blank, ParseText, Meaning, Nesting, At, NumberByte;
    var s, front := Whole(bom, before, doc, after), Mark(bom) + (before + Text(doc));
    FrontOf(front, after);
    PrefixRead(s, bom, before, doc);
    EndRequired(s);
  }

  /** What follows the front of a text. */
  lemma FrontOf(front: seq<byte>, after: seq<byte>)
    requires Blank(after)
    ensures var s, n := front + after + [0], |front|;
      At(s, 0, front) && n < |s| && !NumberByte(s[n]) && s[n..|s| - 1] == after
  {
    var s, n := front + after + [0], |front|;
    assert s[n..|s| - 1] == after;
    if after != [] {
      assert s[n] == after[0];
    }
  }

  /** And every text that is read is one. */
  lemma TextFound(s: seq<byte>) returns (bom: bool, before: seq<byte>, doc: Doc, after: seq<byte>)
    requires IsText(s) && ParseText(s, true).Some?
    ensures Valid(doc) && Blank(before) && Blank(after) && s == Whole(bom, before, doc, after)
    ensures Nesting(doc) <= 1000 && ParseText(s, true).value.val == Meaning(doc)
  {
    hide Text, Valid, Blank, ParseValue, Meaning, Nesting, SkipWs;
    EndRequired(s);
    var o := SkipWs(s, Start(s));
    var n := ParseValue(s, o, 0).value.next;
    bom, before, after := Start(s) == 3, s[Start(s)..o], s[n..|s| - 1];
    BlankOf(s, Start(s));
    EndNoNumber(s, n);
    doc := DocOf(s, o, 0);
    assert s[..Start(s)] == Mark(bom) by { MarkIs(s); }
    CutAt(s, Start(s), o, n);
  }

  lemma CutAt(s: seq<byte>, a: nat, o: nat, n: nat)
    requires a <= o <= n < |s|
    ensures s == s[..a] + (s[a..o] + s[o..n]) + s[n..|s| - 1] + [s[|s| - 1]]
  {
  }

  lemma MarkIs(s: seq<byte>)
    requires |s| > 0
    ensures s[..Start(s)] == Mark(Start(s) == 3)
  {
  }

  lemma EndNoNumber(s: seq<byte>, n: nat)
    requires IsText(s) && n < |s| && Blank(s[n..|s| - 1])
    ensures !NumberByte(s[n])
  {
    assert n < |s| - 1 ==> s[n..|s| - 1][0] == s[n];
  }

  /** So the parser accepts exactly the documents of the grammar up to the depth limit, each with its meaning. */
  lemma ParsesExactly(s: seq<byte>, v: Value)
    requires IsText(s)
    ensures (ParseText(s, true).Some? && ParseText(s, true).value.val == v) <==>
      exists bom, before, doc, after ::
        && Valid(doc) && Blank(before) && Blank(after) && s == Whole(bom, before, doc, after)
        && Nesting(doc) <= 1000 && Meaning(doc) == v
  {
    hide Valid, Blank, ParseText, Meaning, Nesting, Whole;
    if ParseText(s, true).Some? && ParseText(s, true).value.val == v {
      var bom, before, doc, after := TextFound(s);
    }
    if bom, before, doc, after :|
      && Valid(doc) && Blank(before) && Blank(after) && s == Whole(bom, before, doc, after)
      && Nesting(doc) <= 1000 && Meaning(doc) == v
    {
      TextRead(bom, before, doc, after);
    }
  }
}
