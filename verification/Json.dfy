/** JSON values, and the text `cJSON_Print` and `cJSON_PrintUnformatted` give them. */
module Json {
  import opened Bytes
  import opened Doubles
  import opened Numbers

  datatype Value =
    | Invalid
    | Null
    | False
    | True
    | Num(number: double)
    | Str(text: seq<byte>)
    | Arr(items: seq<Value>)
    | Obj(members: seq<Member>)

  datatype Member = Member(key: seq<byte>, val: Value)

  predicate FiniteNumbers(v: Value) {
    match v
    case Num(x) => x.Finite?
    case Arr(items) => forall i | 0 <= i < |items| :: FiniteNumbers(items[i])
    case Obj(members) => forall i | 0 <= i < |members| :: FiniteNumbers(members[i].val)
    case _ => true
  }

  predicate CStrings(v: Value) {
    match v
    case Str(s) => NulFree(s)
    case Arr(items) => forall i | 0 <= i < |items| :: CStrings(items[i])
    case Obj(members) => forall i | 0 <= i < |members| :: NulFree(members[i].key) && CStrings(members[i].val)
    case _ => true
  }

  /** Every number is finite, and every key and string is a C string. */
  predicate Plain(v: Value) { FiniteNumbers(v) && CStrings(v) }

  /** No part of the value has the type `cJSON_Invalid`. */
  predicate Printable(v: Value) {
    match v
    case Invalid => false
    case Arr(items) => forall i | 0 <= i < |items| :: Printable(items[i])
    case Obj(members) => forall i | 0 <= i < |members| :: Printable(members[i].val)
    case _ => true
  }

  function Max(a: nat, b: nat): nat { if a < b then b else a }

  /** How deeply arrays and objects are nested. */
  function Depth(v: Value): nat
    decreases v, 1
  {
    match v
    case Arr(items) => 1 + ItemsDepth(items)
    case Obj(members) => 1 + MembersDepth(members)
    case _ => 0
  }

  function ItemsDepth(items: seq<Value>): nat
    decreases items, 0
  {
    if items == [] then 0 else Max(Depth(items[0]), ItemsDepth(items[1..]))
  }

  function MembersDepth(members: seq<Member>): nat
    decreases members, 0
  {
    if members == [] then 0 else
      assert members[0].val < members[0];
      Max(Depth(members[0].val), MembersDepth(members[1..]))
  }

  function HexDigit(n: nat): byte
    requires n < 16
  {
    if n < 10 then ZERO + n else LOWER_A + (n - 10)
  }

  /** The letter of a two-byte escape, when the byte has one. */
  function ShortEscape(c: byte): Option<byte> {
    if c == QUOTE || c == BACKSLASH then Some(c)
    else if c == BACKSPACE then Some(LOWER_B)
    else if c == FORMFEED then Some(LOWER_F)
    else if c == NEWLINE then Some(LOWER_N)
    else if c == RETURN then Some(LOWER_R)
    else if c == TAB then Some(LOWER_T)
    else None
  }

  function EscapeByte(c: byte): seq<byte> {
    if ShortEscape(c).Some? then [BACKSLASH, ShortEscape(c).value]
    else if c < 32 then [BACKSLASH, LOWER_U, ZERO, ZERO, HexDigit(c / 16), HexDigit(c % 16)]
    else [c]
  }

  function Escape(s: seq<byte>): seq<byte> {
    if s == [] then [] else EscapeByte(s[0]) + Escape(s[1..])
  }

  function Quoted(s: seq<byte>): seq<byte> {
    [QUOTE] + Escape(s) + [QUOTE]
  }

  function Tabs(n: nat): (r: seq<byte>)
    ensures |r| == n && forall i | 0 <= i < n :: r[i] == TAB
  {
    seq(n, _ => TAB)
  }

  const TRUE_TEXT: seq<byte> := [LOWER_T, LOWER_R, LOWER_U, LOWER_E]
  const FALSE_TEXT: seq<byte> := [LOWER_F, LOWER_A, 108, 115, LOWER_E]

  /** The text of a value printed at nesting depth `d`. */
  function Render(v: Value, fmt: bool, d: nat): seq<byte>
    decreases v, 1
  {
    match v
    case Invalid => []
    case Null => NULL_TEXT
    case False => FALSE_TEXT
    case True => TRUE_TEXT
    case Num(x) => NumberText(x)
    case Str(s) => Quoted(s)
    case Arr(items) => [LBRACKET] + RenderItems(items, fmt, d + 1) + [RBRACKET]
    case Obj(members) => Open(fmt) + RenderMembers(members, fmt, d + 1) + Close(fmt, d)
  }

  function RenderItems(items: seq<Value>, fmt: bool, d: nat): seq<byte>
    decreases items, 0
  {
    if items == [] then []
    else Render(items[0], fmt, d) + Separator(|items| > 1, fmt) + RenderItems(items[1..], fmt, d)
  }

  function RenderMembers(members: seq<Member>, fmt: bool, d: nat): seq<byte>
    decreases members, 0
  {
    if members == [] then []
    else
      assert members[0].val < members[0];
      Indent(fmt, d) + Quoted(members[0].key) + Colon(fmt)
      + Render(members[0].val, fmt, d) + MemberEnd(|members| > 1, fmt)
      + RenderMembers(members[1..], fmt, d)
  }

  function Separator(more: bool, fmt: bool): seq<byte> {
    if !more then [] else if fmt then [COMMA, SPACE] else [COMMA]
  }

  function Open(fmt: bool): seq<byte> { if fmt then [LBRACE, NEWLINE] else [LBRACE] }

  function Close(fmt: bool, d: nat): seq<byte> { Indent(fmt, d) + [RBRACE] }

  function Indent(fmt: bool, d: nat): seq<byte> { if fmt then Tabs(d) else [] }

  function Colon(fmt: bool): seq<byte> { if fmt then [COLON, TAB] else [COLON] }

  function MemberEnd(more: bool, fmt: bool): seq<byte> {
    (if more then [COMMA] else []) + (if fmt then [NEWLINE] else [])
  }
}
