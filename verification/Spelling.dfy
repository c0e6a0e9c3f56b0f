/** Characters and hex digits as they are spelled in texts, apart from any code that reads them. */
module Spelling {
  import opened Bytes

  /** The bytes of an ASCII string. */
  function Ascii(s: string): (r: seq<byte>)
    requires forall i | 0 <= i < |s| :: s[i] < 128 as char
    ensures |r| == |s|
  {
    seq<byte>(|s|, i requires 0 <= i < |s| => s[i] as int)
  }

  /** A hex digit and the case of its letter. */
  datatype Hex = Hex(value: nat, upper: bool)

  type hex = h: Hex | h.value < 16 witness Hex(0, false)

  /** How the digit is spelled. */
  function Spelled(h: hex): byte {
    (if h.upper then "0123456789ABCDEF" else "0123456789abcdef")[h.value] as int
  }

  predicate IsHex(c: byte) {
    '0' as int <= c <= '9' as int || 'a' as int <= c <= 'f' as int || 'A' as int <= c <= 'F' as int
  }

  /** Every hex digit is the spelling of its value. */
  lemma HexOf(c: byte) returns (h: hex)
    requires IsHex(c)
    ensures Spelled(h) == c
  {
    if '0' as int <= c <= '9' as int {
      h := Hex(c - '0' as int, false);
    } else if 'a' as int <= c <= 'f' as int {
      h := Hex(c - 'a' as int + 10, false);
    } else {
      h := Hex(c - 'A' as int + 10, true);
    }
  }
}
