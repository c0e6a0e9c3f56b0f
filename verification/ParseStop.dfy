/** Where the parser stands when a text does not parse: the error position of `cJSON_ParseWithOpts`. */
module ParseStop {
  import opened Bytes
  import opened Json
  import opened Numbers
  import opened ParseSpec

  /** In a string body: the first escape that cannot be decoded. */
  function DecodeStop(s: seq<byte>, i: nat, e: nat): (r: nat)
    requires i <= e + 1 && e < |s|
    ensures i <= r <= e + 1
    decreases e + 1 - i
  {
    if i >= e || Piece(s, i, e).None? then i else DecodeStop(s, Piece(s, i, e).value.next, e)
  }

  /** Behind the first byte where there is no string, or none that ends. */
  function StringStop(s: seq<byte>, o: nat): (r: nat)
    requires o < |s|
    ensures o < r <= |s|
  {
    var e := FindClose(s, o + 1);
    if s[o] != QUOTE || e.None? then o + 1 else DecodeStop(s, o + 1, e.value)
  }

  /** At the value itself where none begins or it is too deep, else inside it. */
  function ValueStop(s: seq<byte>, o: nat, d: nat): (r: nat)
    requires IsText(s) && o < |s|
    ensures o <= r <= |s|
    decreases |s| - o, 0
  {
    if s[o] == QUOTE then StringStop(s, o)
    else if s[o] == LBRACKET && d < NESTING_LIMIT then ItemsStop(s, SkipWs(s, o + 1), d + 1)
    else if s[o] == LBRACE && d < NESTING_LIMIT then MembersStop(s, SkipWs(s, o + 1), d + 1)
    else o
  }

  /** Inside the first item that does not parse, or where a comma or bracket is missing. */
  function ItemsStop(s: seq<byte>, o: nat, d: nat): (r: nat)
    requires IsText(s) && o < |s|
    ensures o <= r <= |s|
    decreases |s| - o, 1
  {
    var x := ParseValue(s, o, d);
    if x.None? then ValueStop(s, o, d)
    else
      var i := SkipWs(s, x.value.next);
      if s[i] == COMMA then ItemsStop(s, SkipWs(s, i + 1), d) else i
  }

  function MemberStop(s: seq<byte>, o: nat, d: nat): (r: nat)
    requires IsText(s) && o < |s|
    ensures o <= r <= |s|
    decreases |s| - o, 1
  {
    var k := ParseString(s, o);
    if k.None? then StringStop(s, o)
    else
      var i := SkipWs(s, k.value.next);
      if s[i] != COLON then i else ValueStop(s, SkipWs(s, i + 1), d)
  }

  function MembersStop(s: seq<byte>, o: nat, d: nat): (r: nat)
    requires IsText(s) && o < |s|
    ensures o <= r <= |s|
    decreases |s| - o, 2
  {
    var x := ParseMember(s, o, d);
    if x.None? then MemberStop(s, o, d)
    else
      var i := SkipWs(s, x.value.next);
      if s[i] == COMMA then MembersStop(s, SkipWs(s, i + 1), d) else i
  }

  /** For a whole text: inside the value, or at what follows it. */
  function TextStop(s: seq<byte>): (r: nat)
    requires IsText(s)
    ensures Start(s) <= r <= |s|
  {
    var o := SkipWs(s, Start(s));
    if ParseValue(s, o, 0).None? then ValueStop(s, o, 0) else SkipWs(s, ParseValue(s, o, 0).value.next)
  }
}
