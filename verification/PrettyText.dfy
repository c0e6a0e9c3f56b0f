/** The formatted text as a reading of the unformatted one, byte by byte. */
module PrettyText {
  import opened Bytes
  import opened Json
  import opened Numbers

  /** Where the reader stands: right behind an opening brace, in a string, behind a backslash in one, or elsewhere. */
  datatype Mode = Opened | InString | Escaped | Elsewhere

  /** The line of the next member begins with a tab for every bracket still open. */
  function Line(depth: nat): (r: seq<byte>) {
    seq(depth, _ => '\t' as int)
  }

  /** What the byte becomes. `open` tells for every bracket still open whether it is a brace. */
  function Spread(c: byte, open: seq<bool>, mode: Mode): (r: seq<byte>) {
    if mode.InString? || mode.Escaped? then [c]
    else if c == '{' as int then (if mode.Opened? then Line(|open|) else []) + [c, '\n' as int]
    else if c == '}' as int then (if mode.Opened? then [] else ['\n' as int]) + Line(|Rest(open)|) + [c]
    else if c == ',' as int then
      if open != [] && open[|open| - 1] then [c, '\n' as int] + Line(|open|) else [c, ' ' as int]
    else if c == ':' as int then [c, '\t' as int]
    else (if mode.Opened? then Line(|open|) else []) + [c]
  }

  /** The brackets open behind the byte. */
  function OpenNow(c: byte, open: seq<bool>, mode: Mode): (r: seq<bool>) {
    if mode.InString? || mode.Escaped? then open
    else if c == '{' as int then open + [true]
    else if c == '[' as int then open + [false]
    else if c == '}' as int || c == ']' as int then Rest(open)
    else open
  }

  function Rest(open: seq<bool>): (r: seq<bool>) {
    if open == [] then [] else open[..|open| - 1]
  }

  function ModeNow(c: byte, mode: Mode): Mode {
    match mode
    case Escaped => InString
    case InString => if c == '\\' as int then Escaped else if c == '\"' as int then Elsewhere else InString
    case _ => if c == '\"' as int then InString else if c == '{' as int then Opened else Elsewhere
  }

  /** A text without white space, laid out. */
  function Pretty(t: seq<byte>, open: seq<bool>, mode: Mode): seq<byte> {
    if t == [] then []
    else Spread(t[0], open, mode) + Pretty(t[1..], OpenNow(t[0], open, mode), ModeNow(t[0], mode))
  }

  // ---------- pieces ----------

  lemma OneByte(c: byte, t: seq<byte>, open: seq<bool>, mode: Mode)
    ensures Pretty([c] + t, open, mode) == Spread(c, open, mode) + Pretty(t, OpenNow(c, open, mode), ModeNow(c, mode))
  {
    assert ([c] + t)[1..] == t;
  }

  /** Bytes that stand for themselves outside strings. */
  predicate Word(w: seq<byte>) {
    forall i | 0 <= i < |w| ::
      w[i] != '{' as int && w[i] != '}' as int && w[i] != '[' as int && w[i] != ']' as int
      && w[i] != ',' as int && w[i] != ':' as int && w[i] != '\"' as int
  }

  lemma {:induction false} WordStays(w: seq<byte>, t: seq<byte>, open: seq<bool>)
    requires Word(w)
    ensures Pretty(w + t, open, Elsewhere) == w + Pretty(t, open, Elsewhere)
  {
    hide Pretty, Line, Rest;
    if w == [] {
      assert w + t == t;
    } else {
      WordStays(w[1..], t, open);
      var c := w[0];
      assert w + t == [c] + (w[1..] + t);
      OneByte(c, w[1..] + t, open, Elsewhere);
      assert Spread(c, open, Elsewhere) == [c] && OpenNow(c, open, Elsewhere) == open
          && ModeNow(c, Elsewhere) == Elsewhere by { hide Pretty; }
      assert [c] + (w[1..] + Pretty(t, open, Elsewhere)) == w + Pretty(t, open, Elsewhere);
    }
  }

  /** Bytes inside a string that neither end it nor begin an escape. */
  lemma {:induction false} RunStays(w: seq<byte>, t: seq<byte>, open: seq<bool>)
    requires forall i | 0 <= i < |w| :: w[i] != '\\' as int && w[i] != '\"' as int
    ensures Pretty(w + t, open, InString) == w + Pretty(t, open, InString)
  {
    if w == [] {
      assert w + t == t;
    } else {
      RunStays(w[1..], t, open);
      assert w + t == [w[0]] + (w[1..] + t);
      OneByte(w[0], w[1..] + t, open, InString);
    }
  }

  lemma EscapeStays(c: byte, t: seq<byte>, open: seq<bool>)
    ensures Pretty(EscapeByte(c) + t, open, InString) == EscapeByte(c) + Pretty(t, open, InString)
  {
    hide Pretty;
    var e := EscapeByte(c);
    if |e| > 1 {
      var u := e[2..] + t;
      assert e + t == [e[0]] + ([e[1]] + u);
      OneByte(e[0], [e[1]] + u, open, InString);
      OneByte(e[1], u, open, Escaped);
      RunStays(e[2..], t, open);
    } else {
      RunStays(e, t, open);
    }
  }

  lemma {:induction false} BodyStays(s: seq<byte>, t: seq<byte>, open: seq<bool>)
    ensures Pretty(Escape(s) + t, open, InString) == Escape(s) + Pretty(t, open, InString)
  {
    hide Pretty, EscapeByte;
    if s == [] {
      assert Escape(s) + t == t;
    } else {
      BodyStays(s[1..], t, open);
      EscapeStays(s[0], Escape(s[1..]) + t, open);
      assert Escape(s) + t == EscapeByte(s[0]) + (Escape(s[1..]) + t);
    }
  }

  lemma StringStays(s: seq<byte>, t: seq<byte>, open: seq<bool>)
    ensures Pretty(Quoted(s) + t, open, Elsewhere) == Quoted(s) + Pretty(t, open, Elsewhere)
  {
    hide Pretty, Escape, Line;
    var q := ['\"' as int];
    var u := Escape(s) + (q + t);
    assert Quoted(s) + t == q + u;
    OneByte('\"' as int, u, open, Elsewhere);
    BodyStays(s, q + t, open);
    OneByte('\"' as int, t, open, InString);
  }

  /** Behind an opening brace the line of the first key begins with its tabs. */
  lemma FirstKey(t: seq<byte>, open: seq<bool>)
    requires t != [] && t[0] == '\"' as int
    ensures Pretty(t, open, Opened) == Line(|open|) + Pretty(t, open, Elsewhere)
  {
    hide Line;
  }

  // ---------- values ----------

  lemma LineIsTabs(d: nat)
    ensures Line(d) == Tabs(d)
  {
  }

  lemma {:induction false} ValuePretty(v: Value, d: nat, t: seq<byte>, open: seq<bool>)
    requires |open| == d
    ensures Pretty(Render(v, false, d) + t, open, Elsewhere) == Render(v, true, d) + Pretty(t, open, Elsewhere)
    decreases v, 1
  {
    hide Pretty, NumberText, Line, Tabs, Quoted;
    match v
    case Num(x) =>
      PrintedBytes(x);
      WordStays(NumberText(x), t, open);
    case Str(s) => StringStays(s, t, open);
    case Arr(items) => ArrayPretty(items, d, t, open);
    case Obj(members) => ObjectPretty(members, d, t, open);
    case _ => WordStays(Render(v, false, d), t, open);
  }

  lemma {:induction false} ArrayPretty(items: seq<Value>, d: nat, t: seq<byte>, open: seq<bool>)
    requires |open| == d
    ensures Pretty(Render(Arr(items), false, d) + t, open, Elsewhere)
         == Render(Arr(items), true, d) + Pretty(t, open, Elsewhere)
    decreases items, 1
  {
    hide Pretty, RenderItems;
    var u := [']' as int] + t;
    var inner := RenderItems(items, false, d + 1);
    ArrayText(items, d, t);
    assert Rest(open + [false]) == open;
    OneByte('[' as int, inner + u, open, Elsewhere);
    ItemsPretty(items, d + 1, u, open + [false]);
    OneByte(']' as int, t, open + [false], Elsewhere);
    assert Spread('[' as int, open, Elsewhere) == ['[' as int];
    assert Spread(']' as int, open + [false], Elsewhere) == [']' as int];
    hide Render, Spread, Rest;
    AroundItems(RenderItems(items, true, d + 1), Pretty(t, open, Elsewhere));
  }

  lemma ArrayText(items: seq<Value>, d: nat, t: seq<byte>)
    ensures Render(Arr(items), false, d) + t == ['[' as int] + (RenderItems(items, false, d + 1) + ([']' as int] + t))
    ensures Render(Arr(items), true, d) == ['[' as int] + RenderItems(items, true, d + 1) + [']' as int]
  {
    hide RenderItems;
  }

  lemma AroundItems(inner: seq<byte>, t: seq<byte>)
    ensures ['[' as int] + (inner + ([']' as int] + t)) == ['[' as int] + inner + [']' as int] + t
  {
  }

  lemma {:induction false} ObjectPretty(members: seq<Member>, d: nat, t: seq<byte>, open: seq<bool>)
    requires |open| == d
    ensures Pretty(Render(Obj(members), false, d) + t, open, Elsewhere)
         == Render(Obj(members), true, d) + Pretty(t, open, Elsewhere)
    decreases members, 1
  {
    hide Pretty, Line, Tabs, RenderMembers;
    var inner := RenderMembers(members, false, d + 1);
    ObjectText(members, d, t);
    OneByte('{' as int, inner + (['}' as int] + t), open, Elsewhere);
    assert Rest(open + [true]) == open;
    InsidePretty(members, d, t, open);
  }

  lemma ObjectText(members: seq<Member>, d: nat, t: seq<byte>)
    ensures Render(Obj(members), false, d) + t
         == ['{' as int] + (RenderMembers(members, false, d + 1) + (['}' as int] + t))
    ensures Render(Obj(members), true, d)
         == ['{' as int, '\n' as int] + RenderMembers(members, true, d + 1) + Line(d) + ['}' as int]
  {
    hide RenderMembers, Line, Tabs;
    LineIsTabs(d);
  }

  lemma {:induction false} InsidePretty(members: seq<Member>, d: nat, t: seq<byte>, open: seq<bool>)
    requires |open| == d && Rest(open + [true]) == open
    ensures Pretty(RenderMembers(members, false, d + 1) + (['}' as int] + t), open + [true], Opened)
         == RenderMembers(members, true, d + 1) + Line(d) + ['}' as int] + Pretty(t, open, Elsewhere)
    decreases members, 0, 1
  {
    hide Pretty, Line, Tabs, Rest;
    var text := RenderMembers(members, false, d + 1) + (['}' as int] + t);
    if members == [] {
      assert text == ['}' as int] + t;
      OneByte('}' as int, t, open + [true], Opened);
    } else {
      FirstByte(members, d + 1, ['}' as int] + t);
      hide RenderMembers;
      MembersPretty(members, d + 1, t, open + [true]);
      FirstKey(text, open + [true]);
    }
  }

  lemma FirstByte(members: seq<Member>, d: nat, t: seq<byte>)
    requires members != []
    ensures var u := RenderMembers(members, false, d) + t; u != [] && u[0] == '\"' as int
  {
    hide Escape;
    var m := RenderMembers(members, false, d);
    assert Quoted(members[0].key)[0] == QUOTE;
    assert m != [] && m[0] == QUOTE;
  }

  lemma {:induction false} ItemsPretty(items: seq<Value>, d: nat, t: seq<byte>, open: seq<bool>)
    requires |open| == d && d > 0 && !open[d - 1]
    ensures Pretty(RenderItems(items, false, d) + t, open, Elsewhere)
         == RenderItems(items, true, d) + Pretty(t, open, Elsewhere)
    decreases items, 0
  {
    hide Pretty, Render, Line;
    if items == [] {
      assert RenderItems(items, false, d) + t == t;
    } else {
      var rest := RenderItems(items[1..], false, d) + t;
      ItemsPretty(items[1..], d, t, open);
      var sep := Separator(|items| > 1, false);
      assert RenderItems(items, false, d) + t == Render(items[0], false, d) + (sep + rest);
      ValuePretty(items[0], d, sep + rest, open);
      if |items| > 1 {
        OneByte(',' as int, rest, open, Elsewhere);
      } else {
        assert sep + rest == rest;
      }
    }
  }

  /** The members behind the tabs of the first line, up to the closing brace. */
  lemma {:induction false} MembersPretty(members: seq<Member>, d: nat, t: seq<byte>, open: seq<bool>)
    requires |open| == d && d > 0 && open[d - 1] && members != []
    ensures Line(d) + Pretty(RenderMembers(members, false, d) + (['}' as int] + t), open, Elsewhere)
         == RenderMembers(members, true, d) + (Line(d - 1) + ['}' as int] + Pretty(t, Rest(open), Elsewhere))
    decreases members, 0, 0
  {
    hide Pretty, RenderMembers, Line, Rest, MemberText;
    var key, val := members[0].key, members[0].val;
    assert val < members[0];
    var m, end := MemberText(key, val, true, d), Line(d - 1) + ['}' as int] + Pretty(t, Rest(open), Elsewhere);
    var u := ['}' as int] + t;
    MembersText(members, d, u);
    if |members| == 1 {
      assert members[1..] == [];
      MemberPretty(key, val, d, u, open);
      BraceEnds(t, open);
      LastPretty(m, Line(d), end);
    } else {
      var rest := RenderMembers(members[1..], false, d) + u;
      MemberPretty(key, val, d, [',' as int] + rest, open);
      CommaEnds(rest, open);
      MembersPretty(members[1..], d, t, open);
      MorePretty(m, Line(d), Pretty(rest, open, Elsewhere), RenderMembers(members[1..], true, d), end);
    }
  }

  lemma BraceEnds(t: seq<byte>, open: seq<bool>)
    requires open != []
    ensures Pretty(['}' as int] + t, open, Elsewhere)
         == ['\n' as int] + (Line(|open| - 1) + ['}' as int] + Pretty(t, Rest(open), Elsewhere))
  {
    hide Pretty, Line;
    OneByte('}' as int, t, open, Elsewhere);
  }

  lemma CommaEnds(t: seq<byte>, open: seq<bool>)
    requires open != [] && open[|open| - 1]
    ensures Pretty([',' as int] + t, open, Elsewhere)
         == [',' as int, '\n' as int] + Line(|open|) + Pretty(t, open, Elsewhere)
  {
    hide Pretty, Line;
    OneByte(',' as int, t, open, Elsewhere);
  }

  /** The text of one member without its line's beginning and end. */
  function MemberText(key: seq<byte>, val: Value, fmt: bool, d: nat): seq<byte> {
    Quoted(key) + Colon(fmt) + Render(val, fmt, d)
  }

  lemma MembersText(members: seq<Member>, d: nat, t: seq<byte>)
    requires members != []
    ensures
      var m, rest := members[0], members[1..];
      if rest == [] then
        && RenderMembers(members, false, d) + t == MemberText(m.key, m.val, false, d) + t
        && RenderMembers(members, true, d) == Line(d) + MemberText(m.key, m.val, true, d) + ['\n' as int]
      else
        && RenderMembers(members, false, d) + t
        == MemberText(m.key, m.val, false, d) + ([',' as int] + (RenderMembers(rest, false, d) + t))
        && RenderMembers(members, true, d)
        == Line(d) + MemberText(m.key, m.val, true, d) + [',' as int, '\n' as int] + RenderMembers(rest, true, d)
  {
    hide Render, Quoted, Line, Tabs;
    LineIsTabs(d);
    if |members| == 1 {
      assert RenderMembers(members[1..], false, d) == [] == RenderMembers(members[1..], true, d);
    }
  }

  lemma LastPretty(m: seq<byte>, line: seq<byte>, end: seq<byte>)
    ensures line + (m + (['\n' as int] + end)) == line + m + ['\n' as int] + end
  {
  }

  lemma MorePretty(m: seq<byte>, line: seq<byte>, rest: seq<byte>, more: seq<byte>, end: seq<byte>)
    requires line + rest == more + end
    ensures line + (m + ([',' as int, '\n' as int] + line + rest))
         == line + m + [',' as int, '\n' as int] + more + end
  {
    assert [',' as int, '\n' as int] + line + rest == [',' as int, '\n' as int] + (line + rest);
  }

  lemma {:induction false} MemberPretty(key: seq<byte>, val: Value, d: nat, t: seq<byte>, open: seq<bool>)
    requires |open| == d
    ensures Pretty(MemberText(key, val, false, d) + t, open, Elsewhere)
         == MemberText(key, val, true, d) + Pretty(t, open, Elsewhere)
    decreases val, 2
  {
    hide Pretty, Render, Line, Quoted;
    var u := Render(val, false, d) + t;
    assert MemberText(key, val, false, d) + t == Quoted(key) + ([':' as int] + u);
    StringStays(key, [':' as int] + u, open);
    OneByte(':' as int, u, open, Elsewhere);
    ValuePretty(val, d, t, open);
  }

  /** The formatted text is the unformatted one, laid out. */
  lemma FormattedIsPretty(v: Value)
    ensures Render(v, true, 0) == Pretty(Render(v, false, 0), [], Elsewhere)
  {
    ValuePretty(v, 0, [], []);
    assert Render(v, false, 0) + [] == Render(v, false, 0);
  }
}
