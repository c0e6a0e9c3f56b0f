/** What kind of value a successful parse gives, and that printing and parsing it again changes nothing. */
module ParseResult {
  import opened Bytes
  import opened Json
  import opened Numbers
  import opened ParseSpec
  import opened RoundTrip

  /** No part is invalid, and every key and string is a C string. */
  predicate Texts(v: Value) { Printable(v) && CStrings(v) }

  lemma {:induction false} ItemsDepthAppend(items: seq<Value>, x: Value)
    ensures ItemsDepth(items + [x]) == Max(ItemsDepth(items), Depth(x))
    decreases |items|
  {
    hide Depth;
    if items == [] {
      assert [x][1..] == [] && [] + [x] == [x];
    } else {
      ItemsDepthAppend(items[1..], x);
      assert (items + [x])[1..] == items[1..] + [x];
    }
  }

  lemma {:induction false} MembersDepthAppend(members: seq<Member>, m: Member)
    ensures MembersDepth(members + [m]) == Max(MembersDepth(members), Depth(m.val))
    decreases |members|
  {
    hide Depth;
    if members == [] {
      assert [m][1..] == [] && [] + [m] == [m];
    } else {
      MembersDepthAppend(members[1..], m);
      assert (members + [m])[1..] == members[1..] + [m];
    }
  }

  /** A value parsed at depth `d` is made of C strings and stays within the limit. */
  lemma {:induction false} ValueShape(s: seq<byte>, o: nat, d: nat)
    requires IsText(s) && o < |s| && d <= NESTING_LIMIT && ParseValue(s, o, d).Some?
    ensures var v := ParseValue(s, o, d).value.val; Texts(v) && d + Depth(v) <= NESTING_LIMIT
    decreases |s| - o, 0
  {
    hide ParseItems, ParseMembers, ParseString, ParseNumber, SkipWs;
    if s[o] == LBRACKET && d < NESTING_LIMIT {
      ParseArrayAt(s, o, d);
      var i := SkipWs(s, o + 1);
      if s[i] != RBRACKET { ItemsShape(s, i, d + 1, []); }
    } else if s[o] == LBRACE && d < NESTING_LIMIT {
      ParseObjectAt(s, o, d);
      var i := SkipWs(s, o + 1);
      if s[i] != RBRACE { MembersShape(s, i, d + 1, []); }
    }
  }

  lemma {:induction false} ItemsShape(s: seq<byte>, o: nat, d: nat, acc: seq<Value>)
    requires IsText(s) && o < |s| && d <= NESTING_LIMIT && ParseItems(s, o, d, acc).Some?
    requires Texts(Arr(acc)) && d + ItemsDepth(acc) <= NESTING_LIMIT
    ensures var r := ParseItems(s, o, d, acc).value.val; Texts(Arr(r)) && d + ItemsDepth(r) <= NESTING_LIMIT
    decreases |s| - o, 1
  {
    hide ParseValue, SkipWs, Depth, ItemsDepth;
    var x := ParseValue(s, o, d).value;
    ValueShape(s, o, d);
    ItemsDepthAppend(acc, x.val);
    var i := SkipWs(s, x.next);
    if s[i] == COMMA {
      ItemsShape(s, SkipWs(s, i + 1), d, acc + [x.val]);
    }
  }

  lemma {:induction false} MembersShape(s: seq<byte>, o: nat, d: nat, acc: seq<Member>)
    requires IsText(s) && o < |s| && d <= NESTING_LIMIT && ParseMembers(s, o, d, acc).Some?
    requires Texts(Obj(acc)) && d + MembersDepth(acc) <= NESTING_LIMIT
    ensures var r := ParseMembers(s, o, d, acc).value.val; Texts(Obj(r)) && d + MembersDepth(r) <= NESTING_LIMIT
    decreases |s| - o, 2
  {
    hide ParseMember, SkipWs, Depth, MembersDepth;
    var m := ParseMember(s, o, d).value;
    MemberShape(s, o, d);
    MembersDepthAppend(acc, m.val);
    var i := SkipWs(s, m.next);
    if s[i] == COMMA {
      MembersShape(s, SkipWs(s, i + 1), d, acc + [m.val]);
    }
  }

  lemma {:induction false} MemberShape(s: seq<byte>, o: nat, d: nat)
    requires IsText(s) && o < |s| && d <= NESTING_LIMIT && ParseMember(s, o, d).Some?
    ensures var m := ParseMember(s, o, d).value.val;
      NulFree(m.key) && Texts(m.val) && d + Depth(m.val) <= NESTING_LIMIT
    decreases |s| - o, 1
  {
    hide ParseValue, ParseString, SkipWs, Depth, Texts;
    var k := ParseString(s, o).value;
    ValueShape(s, SkipWs(s, SkipWs(s, k.next) + 1), d);
  }

  /** Whatever text parses gives a printable value of C strings, nested no deeper than the limit. */
  lemma ParsedShape(s: seq<byte>, requireEnd: bool)
    requires IsText(s) && ParseText(s, requireEnd).Some?
    ensures var v := ParseText(s, requireEnd).value.val;
      Texts(v) && Depth(v) <= NESTING_LIMIT
  {
    hide ParseValue, SkipWs, Texts, Depth, Printable, Plain, FiniteNumbers, Start;
    ValueShape(s, SkipWs(s, Start(s)), 0);
  }

  /** So parse, print, parse is the identity for texts with finite numbers: one print is a normal form. */
  lemma ParsePrintParse(s: seq<byte>, requireEnd: bool, fmt: bool, again: bool)
    requires IsText(s) && ParseText(s, requireEnd).Some? && FiniteNumbers(ParseText(s, requireEnd).value.val)
    ensures var v := ParseText(s, requireEnd).value.val;
      var t := Render(v, fmt, 0);
      IsText(t + [NUL]) && ParseText(t + [NUL], again) == Some(Parsed(v, |t|))
  {
    hide ParseText, Render, Printable, CStrings, FiniteNumbers, Depth, IsText;
    ParsedShape(s, requireEnd);
    PrintThenParse(ParseText(s, requireEnd).value.val, fmt, again);
  }

  /** The values with finite numbers that some text parses to: C strings throughout, within the limit. */
  lemma ParsableExactly(v: Value)
    requires FiniteNumbers(v)
    ensures (exists s: seq<byte>, e: bool | IsText(s) && ParseText(s, e).Some? :: ParseText(s, e).value.val == v)
       <==> Texts(v) && Depth(v) <= NESTING_LIMIT
  {
    hide ParseText, Render, Printable, CStrings, FiniteNumbers, Depth, IsText;
    if s: seq<byte>, e: bool :| IsText(s) && ParseText(s, e).Some? && ParseText(s, e).value.val == v {
      ParsedShape(s, e);
    }
    if Texts(v) && Depth(v) <= NESTING_LIMIT {
        PrintThenParse(v, false, true);
      var t := Render(v, false, 0) + [NUL];
      assert ParseText(t, true).Some? && ParseText(t, true).value.val == v;
    }
  }
}
