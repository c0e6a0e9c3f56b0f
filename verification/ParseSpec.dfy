/**
 * What the cJSON parser computes, as functions on the text and an offset into it.  There is one
 * scan where the C code has two, and none of its stepping back.
 */
module ParseSpec {
  import opened Bytes
  import opened Decimal
  import opened Doubles
  import opened Numbers
  import opened Json
  import opened Unicode

  const NESTING_LIMIT: nat := 1000

  /** `buffer_skip_whitespace`: the next byte above 32, or the terminator. */
  function SkipWs(s: seq<byte>, o: nat): (r: nat)
    requires |s| > 0 && o <= |s|
    ensures r < |s|
    ensures o < |s| ==> o <= r
    ensures o < |s| ==> forall k | o <= k < r :: s[k] <= 32
    ensures s[r] > 32 || r == |s| - 1
    decreases |s| - o
  {
    if o == |s| then o - 1
    else if s[o] <= 32 then SkipWs(s, o + 1)
    else o
  }

  /** The closing quote: the first quote not consumed as the second byte of an escape. */
  function FindClose(s: seq<byte>, i: nat): (r: Option<nat>)
    ensures r.Some? ==> i <= r.value < |s| && s[r.value] == QUOTE
    decreases |s| - i
  {
    if i >= |s| then None
    else if s[i] == QUOTE then Some(i)
    else if s[i] != BACKSLASH then FindClose(s, i + 1)
    else if i + 1 >= |s| then None
    else FindClose(s, i + 2)
  }

  /** The byte a two-byte escape stands for. */
  function Unescape(c: byte): Option<byte> {
    if c == LOWER_B then Some(BACKSPACE)
    else if c == LOWER_F then Some(FORMFEED)
    else if c == LOWER_N then Some(NEWLINE)
    else if c == LOWER_R then Some(RETURN)
    else if c == LOWER_T then Some(TAB)
    else if c == QUOTE || c == BACKSLASH || c == SLASH then Some(c)
    else None
  }

  /** The next piece of a string body: the bytes it stands for and the input it takes. */
  function Piece(s: seq<byte>, i: nat, e: nat): (r: Option<Parsed<seq<byte>>>)
    requires i < e < |s|
    ensures r.Some? ==> i < r.value.next <= e + 1
  {
    if s[i] != BACKSLASH then Some(Parsed([s[i]], i + 1))
    else if s[i + 1] == LOWER_U then
      var lit := Utf16Literal(s, i, e);
      if lit.None? then None else Some(Parsed(Utf8(lit.value.codepoint), i + lit.value.length))
    else
      var c := Unescape(s[i + 1]);
      if c.None? then None else Some(Parsed([c.value], i + 2))
  }

  function DecodeString(s: seq<byte>, i: nat, e: nat): Option<seq<byte>>
    requires i <= e + 1 && e < |s|
    decreases e + 1 - i
  {
    if i >= e then Some([])
    else
      var p := Piece(s, i, e);
      if p.None? then None
      else
        var rest := DecodeString(s, p.value.next, e);
        if rest.None? then None else Some(p.value.val + rest.value)
  }

  /** A string literal: the bytes of its block and the offset after the closing quote. */
  function ParseString(s: seq<byte>, o: nat): (r: Option<Parsed<seq<byte>>>)
    requires o < |s|
    ensures r.Some? ==> o < r.value.next <= |s|
    ensures r.Some? && IsText(s) ==> r.value.next < |s|
  {
    var e := FindClose(s, o + 1);
    if s[o] != QUOTE || e.None? then None
    else
      var body := DecodeString(s, o + 1, e.value);
      if body.None? then None else Some(Parsed(body.value, e.value + 1))
  }

  /** The end of the run of number bytes, at most `limit` of them. */
  function NumberEnd(s: seq<byte>, o: nat, limit: nat): (r: nat)
    requires o <= |s|
    ensures o <= r <= |s| && r <= o + limit
    ensures forall k | o <= k < r :: NumberByte(s[k])
    ensures r < |s| && r < o + limit ==> !NumberByte(s[r])
    decreases limit
  {
    if limit == 0 || o == |s| || !NumberByte(s[o]) then o else NumberEnd(s, o + 1, limit - 1)
  }

  function ParseNumber(s: seq<byte>, o: nat): (r: Option<Parsed<double>>)
    requires o < |s|
    ensures r.Some? ==> o < r.value.next <= |s|
    ensures r.Some? && IsText(s) ==> r.value.next < |s|
    ensures r.Some? ==> r.value.val != NotANumber
  {
    var n := Strtod(s[o..NumberEnd(s, o, 63)]);
    if n.next == 0 then None else Some(Parsed(n.val, o + n.next))
  }

  /** `parse_value` at nesting depth `d`. */
  function ParseValue(s: seq<byte>, o: nat, d: nat): (r: Option<Parsed<Value>>)
    requires IsText(s) && o < |s|
    ensures r.Some? ==> o < r.value.next < |s|
    decreases |s| - o, 0
  {
    if At(s, o, NULL_TEXT) then Some(Parsed(Null, o + 4))
    else if At(s, o, FALSE_TEXT) then Some(Parsed(False, o + 5))
    else if At(s, o, TRUE_TEXT) then Some(Parsed(True, o + 4))
    else if s[o] == QUOTE then
      var r := ParseString(s, o);
      if r.None? then None else Some(Parsed(Str(CStr(r.value.val)), r.value.next))
    else if s[o] == MINUS || IsDigit(s[o]) then
      var r := ParseNumber(s, o);
      if r.None? then None else Some(Parsed(Num(r.value.val), r.value.next))
    else if s[o] == LBRACKET then
      if d >= NESTING_LIMIT then None
      else
        var i := SkipWs(s, o + 1);
        if s[i] == RBRACKET then Some(Parsed(Arr([]), i + 1))
        else
          var r := ParseItems(s, i, d + 1, []);
          if r.None? then None else Some(Parsed(Arr(r.value.val), r.value.next))
    else if s[o] == LBRACE then
      if d >= NESTING_LIMIT then None
      else
        var i := SkipWs(s, o + 1);
        if s[i] == RBRACE then Some(Parsed(Obj([]), i + 1))
        else
          var r := ParseMembers(s, i, d + 1, []);
          if r.None? then None else Some(Parsed(Obj(r.value.val), r.value.next))
    else None
  }

  /** The items from the one at `o` up to the closing bracket, after those already read. */
  function ParseItems(s: seq<byte>, o: nat, d: nat, acc: seq<Value>): (r: Option<Parsed<seq<Value>>>)
    requires IsText(s) && o < |s|
    ensures r.Some? ==> o < r.value.next < |s|
    decreases |s| - o, 1
  {
    var x := ParseValue(s, o, d);
    if x.None? then None
    else
      var i := SkipWs(s, x.value.next);
      if s[i] == COMMA then ParseItems(s, SkipWs(s, i + 1), d, acc + [x.value.val])
      else if s[i] == RBRACKET then Some(Parsed(acc + [x.value.val], i + 1))
      else None
  }

  function ParseMember(s: seq<byte>, o: nat, d: nat): (r: Option<Parsed<Member>>)
    requires IsText(s) && o < |s|
    ensures r.Some? ==> o < r.value.next < |s|
    decreases |s| - o, 1
  {
    var k := ParseString(s, o);
    if k.None? then None
    else
      var i := SkipWs(s, k.value.next);
      if s[i] != COLON then None
      else
        var x := ParseValue(s, SkipWs(s, i + 1), d);
        if x.None? then None else Some(Parsed(Member(CStr(k.value.val), x.value.val), x.value.next))
  }

  function ParseMembers(s: seq<byte>, o: nat, d: nat, acc: seq<Member>): (r: Option<Parsed<seq<Member>>>)
    requires IsText(s) && o < |s|
    ensures r.Some? ==> o < r.value.next < |s|
    decreases |s| - o, 2
  {
    var x := ParseMember(s, o, d);
    if x.None? then None
    else
      var i := SkipWs(s, x.value.next);
      if s[i] == COMMA then ParseMembers(s, SkipWs(s, i + 1), d, acc + [x.value.val])
      else if s[i] == RBRACE then Some(Parsed(acc + [x.value.val], i + 1))
      else None
  }

  const BOM: seq<byte> := [0xEF, 0xBB, 0xBF]

  /** Where the value starts: a byte order mark counts only when more than four bytes follow. */
  function Start(s: seq<byte>): (r: nat)
    requires |s| > 0
    ensures r < |s|
  {
    if |s| > 4 && At(s, 0, BOM) then 3 else 0
  }

  /** `cJSON_ParseWithOpts`: the value and where it ends, or nothing. */
  function ParseText(s: seq<byte>, requireEnd: bool): Option<Parsed<Value>>
    requires IsText(s)
  {
    var r := ParseValue(s, SkipWs(s, Start(s)), 0);
    if r.None? || !requireEnd then r
    else
      var i := SkipWs(s, r.value.next);
      if s[i] == NUL then Some(Parsed(r.value.val, i)) else None
  }
}
