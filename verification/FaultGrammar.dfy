/** Where the parser stops in a text that is no document: the ways into it, and the faults found there. */
module FaultGrammar {
  import opened Bytes
  import opened Json
  import opened Numbers
  import opened ParseSpec
  import opened ParseStop
  import opened RoundTrip
  import opened Spelling
  import opened Grammar
  import opened StringGrammar
  import opened DocGrammar

  // ---------- the grammar ----------

  /** A name, its colon, and the white space around them. */
  datatype Name = Name(before: seq<byte>, body: seq<byte>, parts: seq<Part>, after: seq<byte>)

  /** The way to a value inside others, past the items and members in front of it. */
  datatype Path =
    | Here
    | InArray(items: seq<Entry>, before: seq<byte>, inner: Path)
    | InObject(members: seq<Named>, name: Name, before: seq<byte>, inner: Path)

  /** What may be wrong at the end of the way. */
  datatype Fault =
    | NoValue
    | OpenString
    | BadEscape(parts: seq<Part>)
    | NoComma(items: seq<Entry>, item: Entry)
    | NoName(members: seq<Named>, before: seq<byte>)
    | OpenName(members: seq<Named>, before: seq<byte>)
    | BadName(members: seq<Named>, before: seq<byte>, parts: seq<Part>)
    | NoColon(members: seq<Named>, name: Name)
    | NoBrace(members: seq<Named>, member: Named)

  /** Items, each with a comma behind it. */
  function ItemsDone(items: seq<Entry>): seq<byte> {
    if items == [] then [] else EntryText(items[0]) + [',' as int] + ItemsDone(items[1..])
  }

  function MembersDone(members: seq<Named>): seq<byte> {
    if members == [] then [] else NamedText(members[0]) + [',' as int] + MembersDone(members[1..])
  }

  function KeyText(n: Name): seq<byte> {
    n.before + (['\"' as int] + n.body + ['\"' as int]) + n.after
  }

  function PathText(p: Path): seq<byte> {
    match p
    case Here => []
    case InArray(items, before, inner) => ['[' as int] + (ItemsDone(items) + (before + PathText(inner)))
    case InObject(members, name, before, inner) =>
      ['{' as int] + (MembersDone(members) + (KeyText(name) + ([':' as int] + (before + PathText(inner)))))
  }

  /** The text in front of the fault that the parser has read without complaint. */
  function FaultText(f: Fault): seq<byte> {
    match f
    case NoValue => []
    case OpenString => []
    case BadEscape(parts) => ['\"' as int] + PartsText(parts)
    case NoComma(items, item) => ['[' as int] + (ItemsDone(items) + EntryText(item))
    case NoName(members, before) => ['{' as int] + (MembersDone(members) + before)
    case OpenName(members, before) => ['{' as int] + (MembersDone(members) + before)
    case BadName(members, before, parts) =>
      ['{' as int] + (MembersDone(members) + (before + (['\"' as int] + PartsText(parts))))
    case NoColon(members, name) => ['{' as int] + (MembersDone(members) + KeyText(name))
    case NoBrace(members, member) => ['{' as int] + (MembersDone(members) + NamedText(member))
  }

  function PathDepth(p: Path): nat {
    match p
    case Here => 0
    case InArray(_, _, inner) => 1 + PathDepth(inner)
    case InObject(_, _, _, inner) => 1 + PathDepth(inner)
  }

  /** Whole items that a parser at this depth can read. */
  ghost predicate Readable(items: seq<Entry>, d: nat) {
    forall i | 0 <= i < |items| :: ValidEntry(items[i]) && d + Nesting(items[i].doc) <= 1000
  }

  ghost predicate ReadableMembers(members: seq<Named>, d: nat) {
    forall i | 0 <= i < |members| :: ValidNamed(members[i]) && d + Nesting(members[i].entry.doc) <= 1000
  }

  ghost predicate ValidName(n: Name) {
    Blank(n.before) && Blank(n.after) && Body(n.body, n.parts)
  }

  ghost predicate ValidPath(p: Path, d: nat) {
    match p
    case Here => true
    case InArray(items, before, inner) => d < 1000 && Readable(items, d + 1) && Blank(before) && ValidPath(inner, d + 1)
    case InObject(members, name, before, inner) =>
      d < 1000 && ReadableMembers(members, d + 1) && ValidName(name) && Blank(before) && ValidPath(inner, d + 1)
  }

  /** At the first place of an array a bracket would end it. */
  predicate AtFirstItem(p: Path) {
    match p
    case Here => false
    case InArray(items, _, inner) => if inner.Here? then items == [] else AtFirstItem(inner)
    case InObject(_, _, _, inner) => AtFirstItem(inner)
  }

  /** Something other than white space stands there, or the terminator. */
  predicate Stands(s: seq<byte>, e: nat) {
    e < |s| && (s[e] > 32 || e == |s| - 1)
  }

  /** No quote behind the one at `o` closes the string. */
  ghost predicate StaysOpen(s: seq<byte>, o: nat) {
    o < |s| && s[o] == '\"' as int && NeverCloses(s, o + 1)
  }

  ghost predicate NeverCloses(s: seq<byte>, a: nat) {
    forall e: nat | e < |s| :: !Closes(s, a, e)
  }

  /** The parts are followed by a byte of the string that begins no other. */
  ghost predicate Undecodable(s: seq<byte>, o: nat, parts: seq<Part>) {
    var i := o + 1 + |PartsText(parts)|;
    && o < |s| && s[o] == '\"' as int && ValidParts(parts) && At(s, o + 1, PartsText(parts))
    && exists e: nat | i < e < |s| :: Closes(s, o + 1, e) && NoPart(s, i, e)
  }

  ghost predicate NoPart(s: seq<byte>, i: nat, e: nat) {
    forall p: Part | ValidPart(p) && At(s, i, PartText(p)) :: i + |PartText(p)| > if p.Short? then e + 1 else e
  }

  /** No word, string, number, array or object begins here, or an array or object too deep. */
  ghost predicate BeginsNothing(s: seq<byte>, o: nat, d: nat)
    requires o < |s|
  {
    && !At(s, o, Ascii("null")) && !At(s, o, Ascii("false")) && !At(s, o, Ascii("true"))
    && s[o] != '\"' as int && !IsDigit(s[o])
    && (s[o] == '-' as int ==>
          o + 1 < |s| && !IsDigit(s[o + 1]) && (s[o + 1] == '.' as int ==> o + 2 < |s| && !IsDigit(s[o + 2])))
    && (s[o] == '[' as int || s[o] == '{' as int ==> d >= 1000)
  }

  /** The last number of a list must have ended. */
  predicate Ended(s: seq<byte>, e: nat, after: seq<byte>) {
    e < |s| && (after == [] ==> !NumberByte(s[e]))
  }

  /** Behind whole items, each with a comma, and one more, stands no comma and no bracket. */
  ghost predicate CommaMissing(s: seq<byte>, e: nat, d: nat, items: seq<Entry>, item: Entry) {
    && Readable(items, d) && ValidEntry(item) && d + Nesting(item.doc) <= 1000
    && Ended(s, e, item.after) && s[e] != ',' as int && s[e] != ']' as int
  }

  ghost predicate BraceMissing(s: seq<byte>, e: nat, d: nat, members: seq<Named>, m: Named) {
    && ReadableMembers(members, d) && ValidNamed(m) && d + Nesting(m.entry.doc) <= 1000
    && Ended(s, e, m.entry.after) && s[e] != ',' as int && s[e] != '}' as int
  }

  /** The fault stands at `o`, where a value is expected at depth `d`; it shows at `e`. */
  ghost predicate FaultAt(s: seq<byte>, o: nat, d: nat, f: Fault, e: nat) {
    && o < |s| && At(s, o, FaultText(f)) && e == o + |FaultText(f)| && Stands(s, e)
    && match f
       case NoValue => BeginsNothing(s, o, d)
       case OpenString => StaysOpen(s, o)
       case BadEscape(parts) => Undecodable(s, o, parts)
       case NoComma(items, item) => d < 1000 && CommaMissing(s, e, d + 1, items, item)
       case NoBrace(members, m) => d < 1000 && BraceMissing(s, e, d + 1, members, m)
       case NoColon(members, name) =>
         d < 1000 && ReadableMembers(members, d + 1) && ValidName(name) && s[e] != ':' as int
       case NoName(members, before) =>
         && d < 1000 && ReadableMembers(members, d + 1) && Blank(before)
         && s[e] != '\"' as int && (members == [] ==> s[e] != '}' as int)
       case OpenName(members, before) =>
         d < 1000 && ReadableMembers(members, d + 1) && Blank(before) && StaysOpen(s, e)
       case BadName(members, before, parts) =>
         && d < 1000 && ReadableMembers(members, d + 1) && Blank(before)
         && Undecodable(s, o + 1 + |MembersDone(members)| + |before|, parts)
  }

  /** The parser stops at the fault, or a byte further where a string is left open or no name begins. */
  function StopsAt(f: Fault, e: nat): nat {
    if f.OpenString? || f.NoName? || f.OpenName? then e + 1 else e
  }

  // ---------- reading up to the fault ----------

  lemma {:induction false} Skipped(s: seq<byte>, o: nat, w: seq<byte>)
    requires Blank(w) && At(s, o, w) && Stands(s, o + |w|)
    ensures SkipWs(s, o) == o + |w|
    decreases |w|
  {
    if w != [] {
      AtIndex(s, o, w, 0);
      assert At(s, o + 1, w[1..]) by { assert w == [w[0]] + w[1..]; AtConcat(s, o, [w[0]], w[1..]); }
      Skipped(s, o + 1, w[1..]);
    }
  }

  /** Behind a text comes its end, or a byte. */
  lemma EndNoNumber(s: seq<byte>, n: nat, after: seq<byte>)
    requires Blank(after) && At(s, n, after) && Ended(s, n + |after|, after)
    ensures n < |s| && !NumberByte(s[n])
  {
    if after != [] {
      AtIndex(s, n, after, 0);
    }
  }

  /** From `p` to `k` stands an item, with the white space around it. */
  ghost predicate ItemTo(s: seq<byte>, p: nat, d: nat, k: nat)
    requires IsText(s)
  {
    && p < |s|
    && var i := SkipWs(s, p);
       && s[i] > 32 && s[i] != RBRACKET && s[i] != RBRACE && ParseValue(s, i, d).Some?
       && SkipWs(s, ParseValue(s, i, d).value.next) == k
  }

  lemma EntryRead(s: seq<byte>, p: nat, d: nat, x: Entry)
    requires IsText(s) && d <= 1000 && ValidEntry(x) && d + Nesting(x.doc) <= 1000 && At(s, p, EntryText(x))
    requires Stands(s, p + |EntryText(x)|) && Ended(s, p + |EntryText(x)|, x.after)
    ensures ItemTo(s, p, d, p + |EntryText(x)|)
  {
    hide Text, At, SkipWs, Valid, Blank, ParseValue, Meaning, Nesting;
    var i, n := p + |x.before|, p + |x.before| + |Text(x.doc)|;
    AtConcat(s, p, x.before + Text(x.doc), x.after);
    AtConcat(s, p, x.before, Text(x.doc));
    TextStart(x.doc);
    AtIndex(s, i, Text(x.doc), 0);
    Skipped(s, p, x.before);
    Skipped(s, n, x.after);
    EndNoNumber(s, n, x.after);
    DocRead(s, i, d, x.doc);
  }

  /** With a comma behind it an item is passed. */
  lemma ItemPassed(s: seq<byte>, p: nat, d: nat, k: nat, acc: seq<Value>) returns (more: seq<Value>)
    requires IsText(s) && d <= 1000 && ItemTo(s, p, d, k) && s[k] == COMMA
    ensures ItemsStop(s, SkipWs(s, p), d) == ItemsStop(s, SkipWs(s, k + 1), d)
    ensures ParseItems(s, SkipWs(s, p), d, acc) == ParseItems(s, SkipWs(s, k + 1), d, more)
    ensures s[SkipWs(s, p)] != RBRACKET
  {
    hide SkipWs, ParseValue;
    more := acc + [ParseValue(s, SkipWs(s, p), d).value.val];
  }

  /** With neither a comma nor a bracket behind it the parser stops there. */
  lemma ItemStopped(s: seq<byte>, p: nat, d: nat, k: nat, acc: seq<Value>)
    requires IsText(s) && d <= 1000 && ItemTo(s, p, d, k) && s[k] != COMMA && s[k] != RBRACKET
    ensures ItemsStop(s, SkipWs(s, p), d) == k && ParseItems(s, SkipWs(s, p), d, acc) == None
    ensures s[SkipWs(s, p)] != RBRACKET
  {
    hide SkipWs, ParseValue;
  }

  lemma CommaStands(s: seq<byte>, k: nat, c: byte)
    requires At(s, k, [c]) && c > 32 && !NumberByte(c)
    ensures k < |s| && s[k] == c && Stands(s, k) && !NumberByte(s[k])
  {
    AtIndex(s, k, [c], 0);
  }

  /** Items with commas behind them are passed. */
  lemma {:induction false} ItemsPassed(s: seq<byte>, p: nat, d: nat, items: seq<Entry>, acc: seq<Value>)
    returns (more: seq<Value>)
    requires IsText(s) && d <= 1000 && Readable(items, d) && At(s, p, ItemsDone(items)) && p + |ItemsDone(items)| < |s|
    ensures p < |s|
    ensures var q := p + |ItemsDone(items)|;
      && ItemsStop(s, SkipWs(s, p), d) == ItemsStop(s, SkipWs(s, q), d)
      && ParseItems(s, SkipWs(s, p), d, acc) == ParseItems(s, SkipWs(s, q), d, more)
    ensures items != [] ==> s[SkipWs(s, p)] != RBRACKET
    decreases |items|
  {
    hide At, SkipWs, ValidEntry, ParseValue, ParseItems, ItemsStop, Nesting, EntryText, ItemTo, IsText, ItemsDone;
    if items == [] {
      NothingDone();
      return acc;
    }
    var k := ItemsSplit(s, p, d, items);
    var next := ItemPassed(s, p, d, k, acc);
    more := ItemsPassed(s, k + 1, d, items[1..], next);
  }

  lemma NothingDone()
    ensures ItemsDone([]) == [] && MembersDone([]) == []
  {
  }

  /** Behind the comma of the first item stand the others. */
  lemma ItemsSplit(s: seq<byte>, p: nat, d: nat, items: seq<Entry>) returns (k: nat)
    requires IsText(s) && d <= 1000 && Readable(items, d) && At(s, p, ItemsDone(items)) && items != []
    ensures ItemTo(s, p, d, k) && s[k] == COMMA && Readable(items[1..], d) && At(s, k + 1, ItemsDone(items[1..]))
    ensures k + 1 + |ItemsDone(items[1..])| == p + |ItemsDone(items)|
  {
    hide At, SkipWs, ValidEntry, Nesting, EntryText, ItemTo;
    var x, rest := items[0], items[1..];
    k := p + |EntryText(x)|;
    assert ItemsDone(items) == EntryText(x) + ([',' as int] + ItemsDone(rest));
    AtConcat(s, p, EntryText(x), [',' as int] + ItemsDone(rest));
    AtConcat(s, k, [',' as int], ItemsDone(rest));
    CommaStands(s, k, ',' as int);
    EntryRead(s, p, d, x);
  }

  /** A name is read, with the white space around it. */
  lemma KeyRead(s: seq<byte>, p: nat, n: Name)
    requires ValidName(n) && At(s, p, KeyText(n)) && Stands(s, p + |KeyText(n)|)
    ensures var i, q := p + |n.before|, p + |n.before| + |n.body| + 2;
      && p < |s| && i < |s| && SkipWs(s, p) == i && s[i] == QUOTE && ValidParts(n.parts)
      && ParseString(s, i) == Some(Parsed(PartsMeaning(n.parts), q)) && q < |s| && SkipWs(s, q) == p + |KeyText(n)|
  {
    hide SkipWs, Blank, ParseString, ValidParts, PartsMeaning, Closes, PartsText, At;
    var name := ['\"' as int] + n.body + ['\"' as int];
    var i := p + |n.before|;
    AtConcat(s, p, n.before + name, n.after);
    AtConcat(s, p, n.before, name);
    AtIndex(s, i, name, 0);
    Skipped(s, p, n.before);
    StringRead(s, i, n.body, n.parts);
    Skipped(s, i + |name|, n.after);
  }

  function NameOf(m: Named): Name {
    Name(m.before, m.body, m.parts, m.after)
  }

  lemma NamedParts(m: Named)
    ensures NamedText(m) == KeyText(NameOf(m)) + ([':' as int] + EntryText(m.entry))
  {
    hide EntryText;
  }

  /** From `p` to `k` stands a member, with the white space around it. */
  ghost predicate MemberTo(s: seq<byte>, p: nat, d: nat, k: nat)
    requires IsText(s)
  {
    && p < |s|
    && var i := SkipWs(s, p);
       && s[i] == QUOTE && ParseMember(s, i, d).Some? && SkipWs(s, ParseMember(s, i, d).value.next) == k
  }

  lemma NamedRead(s: seq<byte>, p: nat, d: nat, m: Named)
    requires IsText(s) && d <= 1000 && ValidNamed(m) && d + Nesting(m.entry.doc) <= 1000 && At(s, p, NamedText(m))
    requires Stands(s, p + |NamedText(m)|) && Ended(s, p + |NamedText(m)|, m.entry.after)
    ensures MemberTo(s, p, d, p + |NamedText(m)|)
  {
    hide At, SkipWs, Blank, Body, ParseString, ParseMember, ItemTo, Nesting, KeyText, EntryText, PartsMeaning;
    hide ValidParts, NamedText, ValidEntry, Stands, Ended;
    var n := NameOf(m);
    var c := p + |KeyText(n)|;
    NamedParts(m);
    AtConcat(s, p, KeyText(n), [':' as int] + EntryText(m.entry));
    AtConcat(s, c, [':' as int], EntryText(m.entry));
    CommaStands(s, c, ':' as int);
    KeyRead(s, p, n);
    EntryRead(s, c + 1, d, m.entry);
    KeyThenItem(s, p + |n.before|, d, p + |n.before| + |n.body| + 2, c, p + |NamedText(m)|);
  }

  lemma KeyThenItem(s: seq<byte>, i: nat, d: nat, q: nat, c: nat, k: nat)
    requires IsText(s) && i < |s| && ParseString(s, i).Some? && ParseString(s, i).value.next == q && q < |s|
    requires SkipWs(s, q) == c && s[c] == COLON && ItemTo(s, c + 1, d, k)
    ensures ParseMember(s, i, d).Some? && SkipWs(s, ParseMember(s, i, d).value.next) == k
  {
    hide SkipWs, ParseString, ParseValue, CStr;
  }

  lemma MemberPassed(s: seq<byte>, p: nat, d: nat, k: nat, acc: seq<Member>) returns (more: seq<Member>)
    requires IsText(s) && d <= 1000 && MemberTo(s, p, d, k) && s[k] == COMMA
    ensures MembersStop(s, SkipWs(s, p), d) == MembersStop(s, SkipWs(s, k + 1), d)
    ensures ParseMembers(s, SkipWs(s, p), d, acc) == ParseMembers(s, SkipWs(s, k + 1), d, more)
    ensures s[SkipWs(s, p)] != RBRACE
  {
    hide SkipWs, ParseMember;
    more := acc + [ParseMember(s, SkipWs(s, p), d).value.val];
  }

  lemma MemberStopped(s: seq<byte>, p: nat, d: nat, k: nat, acc: seq<Member>)
    requires IsText(s) && d <= 1000 && MemberTo(s, p, d, k) && s[k] != COMMA && s[k] != RBRACE
    ensures MembersStop(s, SkipWs(s, p), d) == k && ParseMembers(s, SkipWs(s, p), d, acc) == None
    ensures s[SkipWs(s, p)] != RBRACE
  {
    hide SkipWs, ParseMember;
  }

  /** Members with commas behind them are passed. */
  lemma {:induction false} MembersPassed(s: seq<byte>, p: nat, d: nat, members: seq<Named>, acc: seq<Member>)
    returns (more: seq<Member>)
    requires IsText(s) && d <= 1000 && ReadableMembers(members, d)
    requires At(s, p, MembersDone(members)) && p + |MembersDone(members)| < |s|
    ensures p < |s|
    ensures var q := p + |MembersDone(members)|;
      && MembersStop(s, SkipWs(s, p), d) == MembersStop(s, SkipWs(s, q), d)
      && ParseMembers(s, SkipWs(s, p), d, acc) == ParseMembers(s, SkipWs(s, q), d, more)
    ensures members != [] ==> s[SkipWs(s, p)] != RBRACE
    decreases |members|
  {
    hide At, SkipWs, ValidNamed, ParseMember, ParseMembers, MembersStop, Nesting, NamedText, MemberTo, IsText;
    hide MembersDone;
    if members == [] {
      NothingDone();
      return acc;
    }
    var k := MembersParts(s, p, d, members);
    var next := MemberPassed(s, p, d, k, acc);
    more := MembersPassed(s, k + 1, d, members[1..], next);
  }

  lemma MembersParts(s: seq<byte>, p: nat, d: nat, members: seq<Named>) returns (k: nat)
    requires IsText(s) && d <= 1000 && ReadableMembers(members, d) && At(s, p, MembersDone(members)) && members != []
    ensures MemberTo(s, p, d, k) && s[k] == COMMA && ReadableMembers(members[1..], d)
    ensures At(s, k + 1, MembersDone(members[1..]))
    ensures k + 1 + |MembersDone(members[1..])| == p + |MembersDone(members)|
  {
    hide At, SkipWs, ValidNamed, Nesting, NamedText, MemberTo;
    var m, rest := members[0], members[1..];
    k := p + |NamedText(m)|;
    assert MembersDone(members) == NamedText(m) + ([',' as int] + MembersDone(rest));
    AtConcat(s, p, NamedText(m), [',' as int] + MembersDone(rest));
    AtConcat(s, k, [',' as int], MembersDone(rest));
    CommaStands(s, k, ',' as int);
    NamedRead(s, p, d, m);
  }

  // ---------- strings ----------

  /** Nothing decodes where no part stands. */
  lemma PieceNone(s: seq<byte>, i: nat, e: nat)
    requires i < e < |s| && s[e] == QUOTE && NoPart(s, i, e)
    ensures Piece(s, i, e) == None
  {
    hide Piece, ValidPart, PartText, PartMeaning, At;
    if Piece(s, i, e).Some? {
      var p := PartOfPiece(s, i, e);
    }
  }

  /** Decoding passes the parts. */
  lemma {:induction false} PartsPassed(s: seq<byte>, i: nat, e: nat, parts: seq<Part>)
    requires ValidParts(parts) && At(s, i, PartsText(parts)) && i + |PartsText(parts)| < e < |s|
    ensures DecodeStop(s, i, e) == DecodeStop(s, i + |PartsText(parts)|, e)
    ensures DecodeString(s, i + |PartsText(parts)|, e) == None ==> DecodeString(s, i, e) == None
    decreases |parts|
  {
    hide Piece, ValidPart, PartText, PartMeaning, At;
    if parts != [] {
      AtConcat(s, i, PartText(parts[0]), PartsText(parts[1..]));
      PieceOfPart(s, i, e, parts[0]);
      PartsPassed(s, i + |PartText(parts[0])|, e, parts[1..]);
    }
  }

  lemma StringFaults(s: seq<byte>, o: nat)
    requires o < |s|
    ensures s[o] != '\"' as int || StaysOpen(s, o) ==> ParseString(s, o) == None && StringStop(s, o) == o + 1
  {
    hide FindClose, Closes, DecodeString, DecodeStop;
    var e := FindClose(s, o + 1);
    if e.Some? {
      ClosedFound(s, o + 1, e.value);
    }
  }

  lemma EscapeFault(s: seq<byte>, o: nat, parts: seq<Part>)
    requires Undecodable(s, o, parts)
    ensures ParseString(s, o) == None && StringStop(s, o) == o + 1 + |PartsText(parts)|
  {
    hide FindClose, Closes, Piece, PartsText, ValidParts, At, NoPart;
    var i := o + 1 + |PartsText(parts)|;
    var e: nat :| i < e < |s| && Closes(s, o + 1, e) && NoPart(s, i, e);
    ClosedFound(s, o + 1, e);
    PieceNone(s, i, e);
    PartsPassed(s, o + 1, e, parts);
  }

  // ---------- the faults ----------

  lemma WordBytes(s: seq<byte>, o: nat)
    requires o < |s|
    ensures s[o] == QUOTE || s[o] == LBRACKET || s[o] == LBRACE ==>
      !At(s, o, NULL_TEXT) && !At(s, o, FALSE_TEXT) && !At(s, o, TRUE_TEXT)
  {
    if s[o] == QUOTE || s[o] == LBRACKET || s[o] == LBRACE {
      NoWord(s, o);
    }
  }

  /** A minus sign without digits is no number. */
  lemma NoNumber(s: seq<byte>, o: nat)
    requires o + 1 < |s| && s[o] == '-' as int && !IsDigit(s[o + 1])
    requires s[o + 1] == '.' as int ==> o + 2 < |s| && !IsDigit(s[o + 2])
    ensures ParseNumber(s, o) == None
  {
    var n := NumberEnd(s, o, 63);
    assert n > o;
    var t := s[o..n];
    assert t[0] == '-' as int && SignEnd(t, 0) == 1;
    assert |t| > 1 ==> t[1] == s[o + 1];
    assert |t| > 2 ==> t[2] == s[o + 2];
    NoDigits(t);
  }

  lemma NoDigits(t: seq<byte>)
    requires t != [] && t[0] == '-' as int && (|t| > 1 ==> !IsDigit(t[1]))
    requires |t| > 2 && t[1] == '.' as int ==> !IsDigit(t[2])
    ensures Strtod(t).next == 0
  {
    hide Exact;
    assert DigitsEnd(t, 1) == 1;
    if |t| > 1 && t[1] == PERIOD {
      assert DigitsEnd(t, 2) == 2;
    }
  }

  lemma NothingBegins(s: seq<byte>, o: nat, d: nat)
    requires IsText(s) && o < |s| && BeginsNothing(s, o, d)
    ensures ParseValue(s, o, d) == None && ValueStop(s, o, d) == o
  {
    hide ParseNumber, ParseItems, ParseMembers, ParseString, At, ItemsStop, MembersStop;
    Words();
    if s[o] == '-' as int {
      NoNumber(s, o);
    }
  }

  lemma InString(s: seq<byte>, o: nat, d: nat)
    requires IsText(s) && o < |s| && s[o] == QUOTE && ParseString(s, o) == None
    ensures ParseValue(s, o, d) == None && ValueStop(s, o, d) == StringStop(s, o)
  {
    hide ParseNumber, ParseItems, ParseMembers, ParseString, At, ItemsStop, MembersStop, StringStop;
    WordBytes(s, o);
  }

  lemma InItems(s: seq<byte>, o: nat, d: nat)
    requires IsText(s) && o + 1 < |s| && s[o] == LBRACKET && d < 1000 && s[SkipWs(s, o + 1)] != RBRACKET
    requires ParseItems(s, SkipWs(s, o + 1), d + 1, []) == None
    ensures ParseValue(s, o, d) == None && ValueStop(s, o, d) == ItemsStop(s, SkipWs(s, o + 1), d + 1)
  {
    hide ParseValue, ParseItems, SkipWs, ItemsStop, MembersStop;
    ParseArrayAt(s, o, d);
  }

  lemma InMembers(s: seq<byte>, o: nat, d: nat)
    requires IsText(s) && o + 1 < |s| && s[o] == LBRACE && d < 1000 && s[SkipWs(s, o + 1)] != RBRACE
    requires ParseMembers(s, SkipWs(s, o + 1), d + 1, []) == None
    ensures ParseValue(s, o, d) == None && ValueStop(s, o, d) == MembersStop(s, SkipWs(s, o + 1), d + 1)
  {
    hide ParseValue, ParseMembers, SkipWs, ItemsStop, MembersStop;
    ParseObjectAt(s, o, d);
  }

  ghost predicate NoItems(s: seq<byte>, i: nat, d: nat)
    requires IsText(s) && i < |s|
  {
    forall acc: seq<Value> :: ParseItems(s, i, d, acc) == None
  }

  ghost predicate NoMembers(s: seq<byte>, i: nat, d: nat)
    requires IsText(s) && i < |s|
  {
    forall acc: seq<Member> :: ParseMembers(s, i, d, acc) == None
  }

  /** In an array, behind items with commas, where `i` is the start of an item that does not parse. */
  lemma PastItems(s: seq<byte>, o: nat, d: nat, items: seq<Entry>, w: seq<byte>)
    requires IsText(s) && d < 1000 && Readable(items, d + 1) && At(s, o, ['[' as int] + (ItemsDone(items) + w))
    requires var q := o + 1 + |ItemsDone(items)|;
      && q < |s| && NoItems(s, SkipWs(s, q), d + 1)
      && (items == [] ==> s[SkipWs(s, q)] != RBRACKET)
    ensures ParseValue(s, o, d) == None
    ensures ValueStop(s, o, d) == ItemsStop(s, SkipWs(s, o + 1 + |ItemsDone(items)|), d + 1)
  {
    hide At, SkipWs, ParseValue, ParseItems, ItemsStop, ValueStop, Readable, ItemsDone, IsText;
    AfterOpen(s, o, '[' as int, ItemsDone(items) + w);
    AtConcat(s, o + 1, ItemsDone(items), w);
    var more := ItemsPassed(s, o + 1, d + 1, items, []);
    if items == [] { NothingDone(); }
    InItems(s, o, d);
  }

  lemma PastMembers(s: seq<byte>, o: nat, d: nat, members: seq<Named>, w: seq<byte>)
    requires IsText(s) && d < 1000 && ReadableMembers(members, d + 1)
    requires At(s, o, ['{' as int] + (MembersDone(members) + w))
    requires var q := o + 1 + |MembersDone(members)|;
      && q < |s| && NoMembers(s, SkipWs(s, q), d + 1)
      && (members == [] ==> s[SkipWs(s, q)] != RBRACE)
    ensures ParseValue(s, o, d) == None
    ensures ValueStop(s, o, d) == MembersStop(s, SkipWs(s, o + 1 + |MembersDone(members)|), d + 1)
  {
    hide At, SkipWs, ParseValue, ParseMembers, MembersStop, ValueStop, ReadableMembers, MembersDone, IsText;
    AfterOpen(s, o, '{' as int, MembersDone(members) + w);
    AtConcat(s, o + 1, MembersDone(members), w);
    var more := MembersPassed(s, o + 1, d + 1, members, []);
    if members == [] { NothingDone(); }
    InMembers(s, o, d);
  }

  lemma FirstFails(s: seq<byte>, i: nat, d: nat)
    requires IsText(s) && i < |s| && d <= 1000
    ensures ParseValue(s, i, d) == None ==> NoItems(s, i, d) && ItemsStop(s, i, d) == ValueStop(s, i, d)
    ensures ParseMember(s, i, d) == None ==> NoMembers(s, i, d) && MembersStop(s, i, d) == MemberStop(s, i, d)
  {
    hide ParseValue, ParseMember, SkipWs, ValueStop, MemberStop;
  }

  lemma MemberFails(s: seq<byte>, i: nat, d: nat)
    requires IsText(s) && i < |s|
    ensures ParseString(s, i) == None ==> ParseMember(s, i, d) == None && MemberStop(s, i, d) == StringStop(s, i)
    ensures ParseString(s, i).Some? ==>
      var c := SkipWs(s, ParseString(s, i).value.next);
      if s[c] != COLON then ParseMember(s, i, d) == None && MemberStop(s, i, d) == c
      else
        var v := SkipWs(s, c + 1);
        ParseValue(s, v, d) == None ==> ParseMember(s, i, d) == None && MemberStop(s, i, d) == ValueStop(s, v, d)
  {
    hide ParseValue, ParseString, SkipWs, ValueStop, StringStop;
  }

  // ---------- each fault ----------

  lemma NoCommaStops(s: seq<byte>, o: nat, d: nat, items: seq<Entry>, item: Entry, e: nat)
    requires IsText(s) && d < 1000 && CommaMissing(s, e, d + 1, items, item) && Stands(s, e)
    requires At(s, o, ['[' as int] + (ItemsDone(items) + EntryText(item)))
    requires e == o + 1 + |ItemsDone(items)| + |EntryText(item)|
    ensures o < |s| && ParseValue(s, o, d) == None && ValueStop(s, o, d) == e
  {
    hide At, SkipWs, ParseValue, ItemsStop, ValueStop, ItemsDone, EntryText, ItemTo, NoItems, Readable, ValidEntry;
    hide Stands, Ended, IsText;
    var q := o + 1 + |ItemsDone(items)|;
    AfterOpen(s, o, '[' as int, ItemsDone(items) + EntryText(item));
    AtConcat(s, o + 1, ItemsDone(items), EntryText(item));
    EntryRead(s, q, d + 1, item);
    Stopped(s, q, d + 1, e);
    ItemStarted(s, q, d + 1, e);
    PastItems(s, o, d, items, EntryText(item));
  }

  lemma ItemStarted(s: seq<byte>, p: nat, d: nat, k: nat)
    requires IsText(s)
    ensures ItemTo(s, p, d, k) || MemberTo(s, p, d, k) ==> p < |s|
  {
    hide SkipWs, ParseValue, ParseMember;
  }

  lemma Stopped(s: seq<byte>, p: nat, d: nat, k: nat)
    requires IsText(s) && d <= 1000
    ensures ItemTo(s, p, d, k) && s[k] != COMMA && s[k] != RBRACKET ==>
      NoItems(s, SkipWs(s, p), d) && ItemsStop(s, SkipWs(s, p), d) == k && s[SkipWs(s, p)] != RBRACKET
    ensures MemberTo(s, p, d, k) && s[k] != COMMA && s[k] != RBRACE ==>
      NoMembers(s, SkipWs(s, p), d) && MembersStop(s, SkipWs(s, p), d) == k && s[SkipWs(s, p)] != RBRACE
  {
    hide SkipWs, ParseValue, ParseMember;
  }

  lemma NoBraceStops(s: seq<byte>, o: nat, d: nat, members: seq<Named>, m: Named, e: nat)
    requires IsText(s) && d < 1000 && BraceMissing(s, e, d + 1, members, m) && Stands(s, e)
    requires At(s, o, ['{' as int] + (MembersDone(members) + NamedText(m)))
    requires e == o + 1 + |MembersDone(members)| + |NamedText(m)|
    ensures o < |s| && ParseValue(s, o, d) == None && ValueStop(s, o, d) == e
  {
    hide At, SkipWs, ParseValue, MembersStop, ValueStop, MembersDone, NamedText, MemberTo, NoMembers, ReadableMembers;
    hide ValidNamed, Stands, Ended, IsText;
    var q := o + 1 + |MembersDone(members)|;
    AfterOpen(s, o, '{' as int, MembersDone(members) + NamedText(m));
    AtConcat(s, o + 1, MembersDone(members), NamedText(m));
    NamedRead(s, q, d + 1, m);
    Stopped(s, q, d + 1, e);
    ItemStarted(s, q, d + 1, e);
    PastMembers(s, o, d, members, NamedText(m));
  }

  /** At the start of a member, behind white space, where there is no name. */
  lemma NameStops(s: seq<byte>, o: nat, d: nat, members: seq<Named>, before: seq<byte>, w: seq<byte>, i: nat)
    requires IsText(s) && d < 1000 && ReadableMembers(members, d + 1) && Blank(before)
    requires At(s, o, ['{' as int] + (MembersDone(members) + (before + w)))
    requires i == o + 1 + |MembersDone(members)| + |before| && Stands(s, i)
    requires ParseString(s, i) == None && (members == [] ==> s[i] != '}' as int)
    ensures o < |s| && ParseValue(s, o, d) == None && ValueStop(s, o, d) == StringStop(s, i)
  {
    hide At, SkipWs, ParseValue, ParseMember, ParseString, MembersStop, MemberStop, StringStop, ValueStop, MembersDone;
    hide NoMembers, Blank, ReadableMembers, IsText;
    var q := o + 1 + |MembersDone(members)|;
    AfterOpen(s, o, '{' as int, MembersDone(members) + (before + w));
    AtConcat(s, o + 1, MembersDone(members), before + w);
    AtConcat(s, q, before, w);
    Skipped(s, q, before);
    MemberFails(s, i, d + 1);
    FirstFails(s, i, d + 1);
    PastMembers(s, o, d, members, before + w);
  }

  /** A name in its place, and a byte that is no colon behind it. */
  lemma NoColonStops(s: seq<byte>, o: nat, d: nat, members: seq<Named>, name: Name, c: nat)
    requires IsText(s) && d < 1000 && ReadableMembers(members, d + 1) && ValidName(name)
    requires At(s, o, ['{' as int] + (MembersDone(members) + KeyText(name)))
    requires c == o + 1 + |MembersDone(members)| + |KeyText(name)| && Stands(s, c) && s[c] != ':' as int
    ensures o < |s| && ParseValue(s, o, d) == None && ValueStop(s, o, d) == c
  {
    hide At, SkipWs, ParseValue, MembersStop, ValueStop, MembersDone, NoMembers, KeyText, ValidName, ReadableMembers;
    hide IsText;
    var q := o + 1 + |MembersDone(members)|;
    AfterOpen(s, o, '{' as int, MembersDone(members) + KeyText(name));
    AtConcat(s, o + 1, MembersDone(members), KeyText(name));
    NameThenFault(s, q, d + 1, name);
    PastMembers(s, o, d, members, KeyText(name));
  }

  /** Behind a name: no colon, or one in front of a value that is not read. */
  lemma NameThenFault(s: seq<byte>, q: nat, d: nat, name: Name)
    requires IsText(s) && d <= 1000 && ValidName(name) && At(s, q, KeyText(name)) && Stands(s, q + |KeyText(name)|)
    requires var c := q + |KeyText(name)|;
      s[c] == COLON ==> c + 1 < |s| && ParseValue(s, SkipWs(s, c + 1), d) == None
    ensures var c := q + |KeyText(name)|;
      && q < |s| && s[SkipWs(s, q)] != RBRACE && NoMembers(s, SkipWs(s, q), d)
      && MembersStop(s, SkipWs(s, q), d) == if s[c] == COLON then ValueStop(s, SkipWs(s, c + 1), d) else c
  {
    hide At, SkipWs, ParseValue, ParseMember, ParseString, MembersStop, MemberStop, StringStop, ValueStop, NoMembers;
    hide KeyText, PartsMeaning, ValidName;
    KeyRead(s, q, name);
    MemberFails(s, q + |name.before|, d);
    FirstFails(s, q + |name.before|, d);
  }

  /** Wherever such a fault stands no value is read, and the parser stops at the fault. */
  lemma FaultStops(s: seq<byte>, o: nat, d: nat, f: Fault, e: nat)
    requires IsText(s) && d <= 1000 && FaultAt(s, o, d, f, e)
    ensures ParseValue(s, o, d) == None && ValueStop(s, o, d) == StopsAt(f, e)
  {
    hide At, ParseValue, ParseString, StringStop, ValueStop, MembersDone, StaysOpen, Undecodable, PartsText, Blank;
    hide CommaMissing, BraceMissing, ReadableMembers, ValidName, KeyText, EntryText, NamedText, ItemsDone;
    hide BeginsNothing;
    match f
    case NoValue => NothingBegins(s, o, d);
    case OpenString => OpenStops(s, o, d);
    case BadEscape(parts) => EscapeStops(s, o, d, parts);
    case NoComma(items, item) =>
      NoCommaStops(s, o, d, items, item, e);
    case NoBrace(members, member) =>
      NoBraceStops(s, o, d, members, member, e);
    case NoColon(members, name) => NoColonStops(s, o, d, members, name, e);
    case _ => NamesStop(s, o, d, f, e);
  }

  lemma OpenStops(s: seq<byte>, o: nat, d: nat)
    requires IsText(s) && StaysOpen(s, o)
    ensures ParseValue(s, o, d) == None && ValueStop(s, o, d) == o + 1
  {
    hide ParseValue, ParseString, StringStop, ValueStop, NeverCloses;
    StringFaults(s, o);
    InString(s, o, d);
  }

  lemma EscapeStops(s: seq<byte>, o: nat, d: nat, parts: seq<Part>)
    requires IsText(s) && Undecodable(s, o, parts)
    ensures ParseValue(s, o, d) == None && ValueStop(s, o, d) == o + 1 + |PartsText(parts)|
  {
    hide ParseValue, ParseString, StringStop, ValueStop, PartsText, Closes, NoPart;
    EscapeFault(s, o, parts);
    InString(s, o, d);
  }

  lemma NamesStop(s: seq<byte>, o: nat, d: nat, f: Fault, e: nat)
    requires IsText(s) && d <= 1000 && FaultAt(s, o, d, f, e) && (f.NoName? || f.OpenName? || f.BadName?)
    ensures ParseValue(s, o, d) == None && ValueStop(s, o, d) == StopsAt(f, e)
  {
    hide At, ParseValue, ParseString, StringStop, ValueStop, MembersDone, StaysOpen, Undecodable, PartsText, Blank;
    hide Readable, ReadableMembers, NamedText, EntryText, KeyText, ItemsDone, ValidNamed, ValidEntry, ValidName;
    var i := o + 1 + |MembersDone(f.members)| + |f.before|;
    if f.BadName? {
      BadNameStops(s, o, d, f.members, f.before, f.parts, i);
    } else {
      if f.OpenName? { OpenStarts(s, i); }
      NoNameStops(s, o, d, f.members, f.before, i);
    }
  }

  lemma BadNameStops(s: seq<byte>, o: nat, d: nat, members: seq<Named>, before: seq<byte>, parts: seq<Part>, i: nat)
    requires IsText(s) && d < 1000 && ReadableMembers(members, d + 1) && Blank(before)
    requires At(s, o, ['{' as int] + (MembersDone(members) + (before + (['\"' as int] + PartsText(parts)))))
    requires i == o + 1 + |MembersDone(members)| + |before| && Undecodable(s, i, parts)
    ensures o < |s| && ParseValue(s, o, d) == None && ValueStop(s, o, d) == i + 1 + |PartsText(parts)|
  {
    hide At, ParseValue, ParseString, StringStop, ValueStop, MembersDone, Undecodable, PartsText, Blank;
    hide ReadableMembers;
    EscapeStarts(s, i, parts);
    EscapeFault(s, i, parts);
    NameStops(s, o, d, members, before, ['\"' as int] + PartsText(parts), i);
  }

  lemma NoNameStops(s: seq<byte>, o: nat, d: nat, members: seq<Named>, before: seq<byte>, i: nat)
    requires IsText(s) && d < 1000 && ReadableMembers(members, d + 1) && Blank(before)
    requires At(s, o, ['{' as int] + (MembersDone(members) + before))
    requires i == o + 1 + |MembersDone(members)| + |before| && Stands(s, i)
    requires s[i] != '\"' as int || StaysOpen(s, i)
    requires members == [] ==> s[i] != '}' as int
    ensures o < |s| && ParseValue(s, o, d) == None && ValueStop(s, o, d) == i + 1
  {
    hide At, ParseValue, ParseString, StringStop, ValueStop, MembersDone, StaysOpen, Blank, ReadableMembers;
    StringFaults(s, i);
    assert before + [] == before;
    NameStops(s, o, d, members, before, [], i);
  }

  lemma EscapeStarts(s: seq<byte>, i: nat, parts: seq<Part>)
    requires Undecodable(s, i, parts)
    ensures Stands(s, i) && s[i] == '\"' as int
  {
  }

  lemma OpenStarts(s: seq<byte>, i: nat)
    requires StaysOpen(s, i)
    ensures Stands(s, i) && s[i] == '\"' as int
  {
  }

  // ---------- the way to the fault ----------

  /** A value inside others that is not read keeps them from being read, and the parser stops where it stops. */
  lemma {:induction false} PathStops(s: seq<byte>, o: nat, d: nat, p: Path)
    requires IsText(s) && d + PathDepth(p) <= 1000 && ValidPath(p, d) && At(s, o, PathText(p))
    requires var e := o + |PathText(p)|;
      Stands(s, e) && ParseValue(s, e, d + PathDepth(p)) == None && (AtFirstItem(p) ==> s[e] != ']' as int)
    ensures o < |s|
    ensures ParseValue(s, o, d) == None
    ensures ValueStop(s, o, d) == ValueStop(s, o + |PathText(p)|, d + PathDepth(p))
    decreases p
  {
    hide At, SkipWs, ParseValue, ParseMember, ParseString, ItemsStop, MembersStop, MemberStop, ValueStop;
    hide MembersDone, ItemsDone, NoItems, NoMembers, KeyText, Blank, Readable, ReadableMembers, ValidName, PartsMeaning;
    match p
    case Here =>
    case InArray(_, _, _) => ArrayStops(s, o, d, p);
    case InObject(_, _, _, _) => ObjectStops(s, o, d, p);
  }

  lemma {:induction false} ArrayStops(s: seq<byte>, o: nat, d: nat, p: Path)
    requires IsText(s) && d + PathDepth(p) <= 1000 && ValidPath(p, d) && At(s, o, PathText(p)) && p.InArray?
    requires var e := o + |PathText(p)|;
      Stands(s, e) && ParseValue(s, e, d + PathDepth(p)) == None && (AtFirstItem(p) ==> s[e] != ']' as int)
    ensures o < |s|
    ensures ParseValue(s, o, d) == None
    ensures ValueStop(s, o, d) == ValueStop(s, o + |PathText(p)|, d + PathDepth(p))
    decreases p, 0
  {
    hide At, SkipWs, ParseValue, ValueStop, ItemsDone, Blank, Readable, IsText;
    var i := o + 1 + |ItemsDone(p.items)| + |p.before|;
    ArrayPieces(s, o, p.items, p.before, PathText(p.inner));
    PathStops(s, i, d + 1, p.inner);
    PathStarts(s, i, p.inner);
    AroundArray(s, o, d, p.items, p.before, PathText(p.inner), i);
  }

  lemma AroundArray(s: seq<byte>, o: nat, d: nat, items: seq<Entry>, before: seq<byte>, w: seq<byte>, i: nat)
    requires IsText(s) && d < 1000 && Readable(items, d + 1) && Blank(before)
    requires At(s, o, ['[' as int] + (ItemsDone(items) + (before + w))) && i == o + 1 + |ItemsDone(items)| + |before|
    requires Stands(s, i) && ParseValue(s, i, d + 1) == None && (items == [] ==> s[i] != ']' as int)
    ensures o < |s| && ParseValue(s, o, d) == None && ValueStop(s, o, d) == ValueStop(s, i, d + 1)
  {
    hide At, SkipWs, ParseValue, ItemsStop, ValueStop, ItemsDone, NoItems, Blank, Readable, IsText;
    ArrayPieces(s, o, items, before, w);
    ItemThenFault(s, o + 1 + |ItemsDone(items)|, d + 1, before);
    PastItems(s, o, d, items, before + w);
  }

  lemma ArrayPieces(s: seq<byte>, o: nat, items: seq<Entry>, before: seq<byte>, w: seq<byte>)
    requires At(s, o, ['[' as int] + (ItemsDone(items) + (before + w)))
    ensures var q := o + 1 + |ItemsDone(items)|; o < |s| && At(s, q, before) && At(s, q + |before|, w)
  {
    hide At, ItemsDone;
    var q := o + 1 + |ItemsDone(items)|;
    AfterOpen(s, o, '[' as int, ItemsDone(items) + (before + w));
    AtConcat(s, o + 1, ItemsDone(items), before + w);
    AtConcat(s, q, before, w);
  }

  /** Behind white space an item that is not read. */
  lemma ItemThenFault(s: seq<byte>, q: nat, d: nat, before: seq<byte>)
    requires IsText(s) && d <= 1000 && Blank(before) && At(s, q, before) && Stands(s, q + |before|)
    requires ParseValue(s, q + |before|, d) == None
    ensures var i := q + |before|;
      q < |s| && SkipWs(s, q) == i && NoItems(s, i, d) && ItemsStop(s, i, d) == ValueStop(s, i, d)
  {
    hide At, SkipWs, ParseValue, ItemsStop, ValueStop, NoItems, Blank, IsText;
    Skipped(s, q, before);
    FirstFails(s, q + |before|, d);
  }

  lemma {:induction false} ObjectStops(s: seq<byte>, o: nat, d: nat, p: Path)
    requires IsText(s) && d + PathDepth(p) <= 1000 && ValidPath(p, d) && At(s, o, PathText(p)) && p.InObject?
    requires var e := o + |PathText(p)|;
      Stands(s, e) && ParseValue(s, e, d + PathDepth(p)) == None && (AtFirstItem(p) ==> s[e] != ']' as int)
    ensures o < |s|
    ensures ParseValue(s, o, d) == None
    ensures ValueStop(s, o, d) == ValueStop(s, o + |PathText(p)|, d + PathDepth(p))
    decreases p, 0
  {
    hide At, SkipWs, ParseValue, ValueStop, MembersDone, KeyText, Blank, ReadableMembers, ValidName, IsText;
    var c := o + 1 + |MembersDone(p.members)| + |KeyText(p.name)|;
    ObjectPieces(s, o, p.members, p.name, p.before + PathText(p.inner));
    AtConcat(s, c + 1, p.before, PathText(p.inner));
    PathStops(s, c + 1 + |p.before|, d + 1, p.inner);
    PathStarts(s, c + 1 + |p.before|, p.inner);
    AroundObject(s, o, d, p.members, p.name, p.before, PathText(p.inner), c);
  }

  lemma AroundObject(s: seq<byte>, o: nat, d: nat, members: seq<Named>, name: Name, before: seq<byte>, w: seq<byte>,
                     c: nat)
    requires IsText(s) && d < 1000 && ReadableMembers(members, d + 1) && ValidName(name) && Blank(before)
    requires At(s, o, ['{' as int] + (MembersDone(members) + (KeyText(name) + ([':' as int] + (before + w)))))
    requires c == o + 1 + |MembersDone(members)| + |KeyText(name)|
    requires Stands(s, c + 1 + |before|) && ParseValue(s, c + 1 + |before|, d + 1) == None
    ensures o < |s| && ParseValue(s, o, d) == None && ValueStop(s, o, d) == ValueStop(s, c + 1 + |before|, d + 1)
  {
    hide At, SkipWs, ParseValue, MembersStop, ValueStop, MembersDone, NoMembers, KeyText, Blank, ReadableMembers;
    hide ValidName, IsText;
    ObjectPieces(s, o, members, name, before + w);
    AtConcat(s, c + 1, before, w);
    Skipped(s, c + 1, before);
    NameThenFault(s, o + 1 + |MembersDone(members)|, d + 1, name);
    PastMembers(s, o, d, members, KeyText(name) + ([':' as int] + (before + w)));
  }

  lemma ObjectPieces(s: seq<byte>, o: nat, members: seq<Named>, name: Name, w: seq<byte>)
    requires At(s, o, ['{' as int] + (MembersDone(members) + (KeyText(name) + ([':' as int] + w))))
    ensures var q := o + 1 + |MembersDone(members)|;
      var c := q + |KeyText(name)|;
      && o < |s| && At(s, q, KeyText(name)) && c < |s| && s[c] == COLON && Stands(s, c) && At(s, c + 1, w)
  {
    hide At, MembersDone, KeyText;
    var q := o + 1 + |MembersDone(members)|;
    AfterOpen(s, o, '{' as int, MembersDone(members) + (KeyText(name) + ([':' as int] + w)));
    AtConcat(s, o + 1, MembersDone(members), KeyText(name) + ([':' as int] + w));
    AtConcat(s, q, KeyText(name), [':' as int] + w);
    AfterOpen(s, q + |KeyText(name)|, ':' as int, w);
  }

  lemma PathStarts(s: seq<byte>, o: nat, p: Path)
    requires At(s, o, PathText(p)) && Stands(s, o + |PathText(p)|)
    ensures Stands(s, o) && (!p.Here? ==> s[o] != ']' as int)
  {
    if !p.Here? {
      AtIndex(s, o, PathText(p), 0);
    }
  }

  /**
   * A text that leads to a fault is not read, and the error position is at the fault, or right behind the quote or
   * byte there where a string is left open or no name begins.
   */
  lemma TextStops(s: seq<byte>, bom: bool, before: seq<byte>, p: Path, f: Fault, e: nat, requireEnd: bool)
    requires IsText(s) && Start(s) == |Mark(bom)| && Blank(before) && PathDepth(p) <= 1000 && ValidPath(p, 0)
    requires At(s, |Mark(bom)|, before + PathText(p))
    requires FaultBehind(s, |Mark(bom)| + |before| + |PathText(p)|, p, f, e)
    ensures ParseText(s, requireEnd) == None && TextStop(s) == StopsAt(f, e)
  {
    hide At, SkipWs, ParseValue, ValueStop, Blank, ValidPath, PathText, PathDepth, FaultAt, AtFirstItem, StopsAt;
    var a := |Mark(bom)|;
    AtConcat(s, a, before, PathText(p));
    PathStarts(s, a + |before|, p);
    FaultStops(s, a + |before| + |PathText(p)|, PathDepth(p), f, e);
    PathStops(s, a + |before|, 0, p);
    Skipped(s, a, before);
  }

  /** The fault stands where the path ends. */
  ghost predicate FaultBehind(s: seq<byte>, o: nat, p: Path, f: Fault, e: nat) {
    FaultAt(s, o, PathDepth(p), f, e) && Stands(s, o) && (AtFirstItem(p) ==> s[o] != ']' as int)
  }

  /** Where only white space may follow a value and something else does, the error position is there. */
  lemma EndStops(s: seq<byte>, bom: bool, before: seq<byte>, doc: Doc, after: seq<byte>)
    requires IsText(s) && Start(s) == |Mark(bom)| && Blank(before) && Blank(after) && Valid(doc) && Nesting(doc) <= 1000
    requires At(s, |Mark(bom)|, EntryText(Entry(before, doc, after)))
    requires var e := |Mark(bom)| + |EntryText(Entry(before, doc, after))|;
      Stands(s, e) && Ended(s, e, after) && s[e] != 0
    ensures ParseText(s, true) == None && TextStop(s) == |Mark(bom)| + |EntryText(Entry(before, doc, after))|
  {
    hide At, SkipWs, ParseValue, ValueStop, Blank, Valid, EntryText, Nesting;
    EntryRead(s, |Mark(bom)|, 0, Entry(before, doc, after));
  }
}
