/** The JSON texts cJSON reads, as a grammar: what stands in a text, and what it means. */
module Grammar {
  import opened Bytes
  import opened Decimal
  import opened Doubles
  import opened Numbers
  import opened Json
  import opened Unicode
  import opened Spelling

  // ---------- strings ----------

  /** A part of a string: a byte, a two-byte escape, or one or two UTF-16 code units. */
  datatype Part =
    | Raw(c: byte)
    | Short(c: byte)
    | Unit(u: seq<hex>)
    | Pair(hi: seq<hex>, lo: seq<hex>)
    | Junk(bytes: seq<byte>)

  /** The table of two-byte escapes, section 7 of RFC 8259. */
  function ShortMeaning(c: byte): Option<byte> {
    if c == '\"' as int || c == '\\' as int || c == '/' as int then Some(c)
    else if c == 'b' as int then Some(8)
    else if c == 'f' as int then Some(12)
    else if c == 'n' as int then Some(10)
    else if c == 'r' as int then Some(13)
    else if c == 't' as int then Some(9)
    else None
  }

  /** The spelling of some hex digits. */
  function HexText(u: seq<hex>): (r: seq<byte>)
    ensures |r| == |u|
  {
    seq(|u|, i requires 0 <= i < |u| => Spelled(u[i]))
  }

  function UnitValue(u: seq<hex>): nat
    requires |u| == 4
  {
    u[0].value * 4096 + u[1].value * 256 + u[2].value * 16 + u[3].value
  }

  /** Four bytes that are no hex digits count as the code unit 0. */
  predicate ValidPart(p: Part) {
    match p
    case Raw(c) => c != '\\' as int
    case Short(c) => ShortMeaning(c).Some?
    case Unit(u) => |u| == 4 && !(0xD800 <= UnitValue(u) <= 0xDFFF)
    case Pair(hi, lo) =>
      |hi| == 4 && |lo| == 4 && 0xD800 <= UnitValue(hi) <= 0xDBFF && 0xDC00 <= UnitValue(lo) <= 0xDFFF
    case Junk(bytes) => |bytes| == 4 && exists k | 0 <= k < 4 :: !IsHex(bytes[k])
  }

  function PartText(p: Part): (r: seq<byte>)
    ensures r != []
  {
    match p
    case Raw(c) => [c]
    case Short(c) => ['\\' as int, c]
    case Unit(u) => ['\\' as int, 'u' as int] + HexText(u)
    case Pair(hi, lo) => ['\\' as int, 'u' as int] + HexText(hi) + ['\\' as int, 'u' as int] + HexText(lo)
    case Junk(bytes) => ['\\' as int, 'u' as int] + bytes
  }

  function PartMeaning(p: Part): seq<byte>
    requires ValidPart(p)
  {
    match p
    case Raw(c) => [c]
    case Short(c) => [ShortMeaning(c).value]
    case Unit(u) => Utf8(UnitValue(u))
    case Pair(hi, lo) => Utf8(0x10000 + (UnitValue(hi) - 0xD800) * 0x400 + (UnitValue(lo) - 0xDC00))
    case Junk(_) => [0]
  }

  predicate ValidParts(parts: seq<Part>) {
    forall i | 0 <= i < |parts| :: ValidPart(parts[i])
  }

  function PartsText(parts: seq<Part>): seq<byte> {
    if parts == [] then [] else PartText(parts[0]) + PartsText(parts[1..])
  }

  function PartsMeaning(parts: seq<Part>): seq<byte>
    requires ValidParts(parts)
  {
    if parts == [] then [] else PartMeaning(parts[0]) + PartsMeaning(parts[1..])
  }

  /** The backslashes directly in front of index `k`, from index `a` on. */
  function Backslashes(s: seq<byte>, a: nat, k: nat): nat
    requires k <= |s|
  {
    if k <= a || s[k - 1] != '\\' as int then 0 else 1 + Backslashes(s, a, k - 1)
  }

  /** Between `a` and `e` no quote ends the string, and the one at `e` does. */
  ghost predicate Closes(s: seq<byte>, a: nat, e: nat) {
    && a <= e < |s| && s[e] == '\"' as int && Backslashes(s, a, e) % 2 == 0
    && forall k | a <= k < e && s[k] == '\"' as int :: Backslashes(s, a, k) % 2 == 1
  }

  /**
   * The body of a string and its parts.  Only where escapes are malformed can a backslash be left over in front of
   * the closing quote, which then counts as escaped.
   */
  ghost predicate Body(body: seq<byte>, parts: seq<Part>) {
    && ValidParts(parts) && Closes(body + ['\"' as int], 0, |body|)
    && (PartsText(parts) == body
        || (parts != [] && parts[|parts| - 1] == Short('\"' as int) && PartsText(parts) == body + ['\"' as int]))
  }

  // ---------- numbers ----------

  datatype Power = Power(upper: bool, sign: Option<bool>, digits: seq<byte>)

  datatype Numeral = Numeral(minus: bool, whole: seq<byte>, point: bool, places: seq<byte>, power: Option<Power>)

  predicate ValidNumeral(n: Numeral) {
    && AllDigits(n.whole) && AllDigits(n.places) && n.whole + n.places != [] && (!n.point ==> n.places == [])
    && (n.power.Some? ==> AllDigits(n.power.value.digits) && n.power.value.digits != [])
  }

  function PowerText(p: Power): seq<byte> {
    [if p.upper then 'E' as int else 'e' as int]
    + (if p.sign == None then [] else if p.sign.value then ['-' as int] else ['+' as int])
    + p.digits
  }

  function NumeralText(n: Numeral): seq<byte> {
    (if n.minus then ['-' as int] else []) + n.whole + (if n.point then ['.' as int] + n.places else [])
    + (if n.power.Some? then PowerText(n.power.value) else [])
  }

  function PowerValue(p: Option<Power>): int {
    if p == None then 0
    else if p.value.sign == Some(true) then -Number(p.value.digits)
    else Number(p.value.digits)
  }

  /** The double nearest to what the numeral denotes. */
  function NumeralMeaning(n: Numeral): double
    requires ValidNumeral(n)
  {
    Round(n.minus, Exact(n.whole + n.places, PowerValue(n.power) - |n.places|))
  }

  // ---------- documents ----------

  datatype Doc =
    | DNull
    | DFalse
    | DTrue
    | DNumber(numeral: Numeral)
    | DString(body: seq<byte>, parts: seq<Part>)
    | DArray(blank: seq<byte>, items: seq<Entry>)
    | DObject(blank: seq<byte>, members: seq<Named>)

  /** A value and the white space around it. */
  datatype Entry = Entry(before: seq<byte>, doc: Doc, after: seq<byte>)

  /** A name, with the white space around it, and its value. */
  datatype Named = Named(before: seq<byte>, body: seq<byte>, parts: seq<Part>, after: seq<byte>, entry: Entry)

  /** Every byte from 1 to 32 counts as white space. */
  predicate Blank(w: seq<byte>) {
    forall k | 0 <= k < |w| :: 1 <= w[k] <= 32
  }

  ghost predicate Valid(d: Doc)
    decreases d, 1
  {
    match d
    case DNumber(n) => ValidNumeral(n) && (n.whole == [] ==> n.minus) && |NumeralText(n)| <= 63
    case DString(body, parts) => NulFree(body) && Body(body, parts)
    case DArray(blank, items) =>
      if items == [] then Blank(blank) else ValidItems(items)
    case DObject(blank, members) =>
      if members == [] then Blank(blank) else ValidMembers(members)
    case _ => true
  }

  ghost predicate ValidItems(items: seq<Entry>)
    decreases items, 0
  {
    forall i | 0 <= i < |items| :: ValidEntry(items[i])
  }

  ghost predicate ValidMembers(members: seq<Named>)
    decreases members, 0
  {
    forall i | 0 <= i < |members| :: ValidNamed(members[i])
  }

  ghost predicate ValidEntry(x: Entry)
    decreases x, 2
  {
    Blank(x.before) && Blank(x.after) && Valid(x.doc)
  }

  ghost predicate ValidNamed(m: Named)
    decreases m, 3
  {
    Blank(m.before) && Blank(m.after) && NulFree(m.body) && Body(m.body, m.parts) && ValidEntry(m.entry)
  }

  function Text(d: Doc): seq<byte>
    decreases d, 1
  {
    match d
    case DNull => Ascii("null")
    case DFalse => Ascii("false")
    case DTrue => Ascii("true")
    case DNumber(n) => NumeralText(n)
    case DString(body, _) => ['\"' as int] + body + ['\"' as int]
    case DArray(blank, items) => ['[' as int] + (if items == [] then blank else ItemsText(items)) + [']' as int]
    case DObject(blank, members) =>
      ['{' as int] + (if members == [] then blank else MembersText(members)) + ['}' as int]
  }

  function EntryText(x: Entry): seq<byte>
    decreases x, 2
  {
    x.before + Text(x.doc) + x.after
  }

  function NamedText(m: Named): seq<byte>
    decreases m, 3
  {
    m.before + (['\"' as int] + m.body + ['\"' as int]) + m.after + [':' as int] + EntryText(m.entry)
  }

  function ItemsText(items: seq<Entry>): seq<byte>
    decreases items, 0
  {
    if items == [] then []
    else EntryText(items[0]) + (if |items| > 1 then [',' as int] else []) + ItemsText(items[1..])
  }

  function MembersText(members: seq<Named>): seq<byte>
    decreases members, 0
  {
    if members == [] then []
    else NamedText(members[0]) + (if |members| > 1 then [',' as int] else []) + MembersText(members[1..])
  }

  /** Strings are C strings: they end at their first NUL. */
  ghost function Meaning(d: Doc): Value
    requires Valid(d)
    decreases d, 1
  {
    match d
    case DNull => Null
    case DFalse => False
    case DTrue => True
    case DNumber(n) => Num(NumeralMeaning(n))
    case DString(_, parts) => Str(CStr(PartsMeaning(parts)))
    case DArray(_, items) => Arr(ItemsMeaning(items))
    case DObject(_, members) => Obj(MembersMeaning(members))
  }

  ghost function ItemsMeaning(items: seq<Entry>): seq<Value>
    requires ValidItems(items)
    decreases items, 0
  {
    if items == [] then [] else [EntryMeaning(items[0])] + ItemsMeaning(items[1..])
  }

  ghost function MembersMeaning(members: seq<Named>): seq<Member>
    requires ValidMembers(members)
    decreases members, 0
  {
    if members == [] then [] else [NamedMeaning(members[0])] + MembersMeaning(members[1..])
  }

  ghost function EntryMeaning(x: Entry): Value
    requires ValidEntry(x)
    decreases x, 2
  {
    Meaning(x.doc)
  }

  ghost function NamedMeaning(m: Named): Member
    requires ValidNamed(m)
    decreases m, 3
  {
    Member(CStr(PartsMeaning(m.parts)), EntryMeaning(m.entry))
  }

  /** How deeply arrays and objects are nested in it. */
  function Nesting(d: Doc): nat
    decreases d, 1
  {
    match d
    case DArray(_, items) => 1 + ItemsNesting(items)
    case DObject(_, members) => 1 + MembersNesting(members)
    case _ => 0
  }

  function ItemsNesting(items: seq<Entry>): nat
    decreases items, 0
  {
    if items == [] then 0 else Max(Nesting(items[0].doc), ItemsNesting(items[1..]))
  }

  function MembersNesting(members: seq<Named>): nat
    decreases members, 0
  {
    if members == [] then 0 else Max(Nesting(members[0].entry.doc), MembersNesting(members[1..]))
  }
}
