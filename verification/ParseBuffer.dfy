/** The parser: recursive descent over a cursor, building linked nodes. */
module Parsing {
  import opened Bytes
  import opened Doubles
  import opened Json
  import opened Unicode
  import opened Numbers
  import opened ParseSpec
  import opened ParseStop
  import opened StringScan
  import opened Allocation
  import opened Tree
  import opened Lifetime
  import opened Lists
  import opened Building
  import opened RoundTrip

  /** The encoding loop of `utf16_literal_to_utf8`: continuation bytes from the last to the second. */
  method WriteUtf8(codepoint: nat, out: array<byte>, at: nat) returns (length: nat)
    requires IsScalar(codepoint) && at + |Utf8(codepoint)| <= out.Length
    modifies out
    ensures length == |Utf8(codepoint)|
    ensures out[..at + length] == old(out[..at]) + Utf8(codepoint)
  {
    hide Utf8;
    Utf8Bytes(codepoint);
    var mark;
    if codepoint < 0x80 {
      length, mark := 1, 0;
    } else if codepoint < 0x800 {
      length, mark := 2, 0xC0;
    } else if codepoint < 0x10000 {
      length, mark := 3, 0xE0;
    } else {
      // A surrogate pair never exceeds 0x10FFFF, so there is no invalid code point to reject.
      length, mark := 4, 0xF0;
    }
    var rest, position := codepoint, length - 1;
    while position > 0
      invariant 0 <= position < length && rest == Shifted(codepoint, length - 1 - position)
      invariant out[..at] == old(out[..at])
      invariant forall k | position < k < length :: out[at + k] == Utf8(codepoint)[k]
    {
      out[at + position] := 0x80 + rest % 64;
      rest := rest / 64;
      position := position - 1;
    }
    out[at] := mark + rest;
    assert out[at..at + length] == Utf8(codepoint);
    assert out[..at + length] == out[..at] + out[at..at + length];
  }

  lemma CombineBits(hi: nat, lo: nat)
    requires IsHighSurrogate(hi) && IsLowSurrogate(lo)
    ensures Combine(hi, lo) == 0x10000 + (hi % 1024 * 1024 + lo % 1024)
  {
  }

  function Shifted(cp: nat, n: nat): nat {
    if n == 0 then cp else Shifted(cp, n - 1) / 64
  }

  /** Each byte of the encoding in terms of the shifted code point. */
  lemma Utf8Bytes(cp: nat)
    requires IsScalar(cp)
    ensures var r := Utf8(cp);
      && |r| == (if cp < 0x80 then 1 else if cp < 0x800 then 2 else if cp < 0x10000 then 3 else 4)
      && (forall k | 0 < k < |r| :: r[k] == 0x80 + Shifted(cp, |r| - 1 - k) % 64)
      && var mark := if cp < 0x80 then 0 else if cp < 0x800 then 0xC0 else if cp < 0x10000 then 0xE0 else 0xF0;
         r[0] == Shifted(cp, |r| - 1) + mark
  {
    assert Shifted(cp, 1) == cp / 64;
    assert Shifted(cp, 2) == cp / 64 / 64 == cp / 4096;
    assert Shifted(cp, 3) == cp / 4096 / 64 == cp / 262144;
  }

  class ParseBuffer {
    const content: seq<byte>
    const heap: Heap
    var offset: nat
    var depth: nat

    constructor (content: seq<byte>, heap: Heap)
      requires IsText(content) && heap.Valid()
      ensures Valid() && this.content == content && this.heap == heap && offset == 0 && depth == 0
    {
      this.content, this.heap, this.offset, this.depth := content, heap, 0, 0;
    }

    /** The cursor stands on a byte of the text or on its terminator. */
    ghost predicate Valid()
      reads this, heap
    {
      IsText(content) && heap.Valid() && offset < |content| && depth <= NESTING_LIMIT
    }

    /** `buffer_skip_whitespace`: past the end it steps back onto the terminator. */
    method SkipWhitespace()
      requires |content| > 0 && offset <= |content|
      modifies this`offset
      ensures offset == SkipWs(content, old(offset))
    {
      while offset < |content| && content[offset] <= 32
        invariant offset <= |content| && SkipWs(content, offset) == SkipWs(content, old(offset))
      {
        offset := offset + 1;
      }
      if offset == |content| {
        offset := offset - 1;
      }
    }

    /** The sizing scan of `parse_string`: the closing quote and the number of escapes. */
    method FindEnd(start: nat) returns (end: Option<nat>, skipped: nat)
      requires start <= |content|
      ensures end == FindClose(content, start)
      ensures end.Some? ==> skipped == Escapes(content, start, end.value)
    {
      var i := start;
      skipped := 0;
      while i < |content| && content[i] != QUOTE
        invariant start <= i <= |content| && FindClose(content, i) == FindClose(content, start)
        invariant skipped == Escapes(content, start, i) && !Second(content, start, i)
      {
        if content[i] == BACKSLASH {
          if i + 1 >= |content| {
            return None, skipped;
          }
          skipped := skipped + 1;
          i := i + 1;
          assert Second(content, start, i);
        }
        i := i + 1;
      }
      end := if i < |content| then Some(i) else None;
    }

    /** One step of the decoding scan; `written` never passes the size the first scan computed. */
    method DecodePiece(i: nat, end: nat, out: array<byte>, written: nat) returns (next: Option<nat>, total: nat)
      requires i < end < |content| && content[end] == QUOTE
      requires Piece(content, i, end).Some? ==> written + |Piece(content, i, end).value.val| <= out.Length
      modifies out
      ensures next.Some? <==> Piece(content, i, end).Some?
      ensures next.Some? ==> next.value == Piece(content, i, end).value.next
      ensures next.Some? ==> total == written + |Piece(content, i, end).value.val| <= out.Length
      ensures next.Some? ==> out[..total] == old(out[..written]) + Piece(content, i, end).value.val
    {
      total := written;
      if content[i] != BACKSLASH {
        out[written] := content[i];
        return Some(i + 1), written + 1;
      }
      var c := content[i + 1];
      if c == LOWER_U {
        var length;
        length, total := DecodeUtf16(i, end, out, written);
        next := if length == 0 then None else Some(i + length);
        return;
      }
      if c == LOWER_B {
        out[written] := BACKSPACE;
      } else if c == LOWER_F {
        out[written] := FORMFEED;
      } else if c == LOWER_N {
        out[written] := NEWLINE;
      } else if c == LOWER_R {
        out[written] := RETURN;
      } else if c == LOWER_T {
        out[written] := TAB;
      } else if c == QUOTE || c == BACKSLASH || c == SLASH {
        out[written] := c;
      } else {
        return None, written;
      }
      return Some(i + 2), written + 1;
    }

    /** `utf16_literal_to_utf8`: the input length of the literal, or 0. */
    method DecodeUtf16(i: nat, end: nat, out: array<byte>, at: nat) returns (length: nat, total: nat)
      requires i < end < |content|
      requires Utf16Literal(content, i, end).Some? ==>
        at + |Utf8(Utf16Literal(content, i, end).value.codepoint)| <= out.Length
      modifies out
      ensures length == if Utf16Literal(content, i, end).Some? then Utf16Literal(content, i, end).value.length else 0
      ensures length > 0 ==> total == at + |Utf8(Utf16Literal(content, i, end).value.codepoint)| <= out.Length
      ensures length > 0 ==> out[..total] == old(out[..at]) + Utf8(Utf16Literal(content, i, end).value.codepoint)
    {
      hide Utf8, Hex4, IsScalar;
      total := at;
      if end < i + 6 {
        return 0, at;
      }
      var first := ParseHex4(content, i + 2);
      if 0xDC00 <= first <= 0xDFFF {
        return 0, at;
      }
      var codepoint;
      if 0xD800 <= first <= 0xDBFF {
        if end < i + 12 {
          return 0, at;
        }
        if content[i + 6] != BACKSLASH || content[i + 7] != LOWER_U {
          return 0, at;
        }
        var second := ParseHex4(content, i + 8);
        if second < 0xDC00 || second > 0xDFFF {
          return 0, at;
        }
        CombineBits(first, second);
        length, codepoint := 12, 0x10000 + (first % 1024 * 1024 + second % 1024);
      } else {
        length, codepoint := 6, first;
      }
      var n := WriteUtf8(codepoint, out, at);
      total := at + n;
    }

    /** The decoding scan of `parse_string`, into a buffer of the size the first scan found. */
    method Decode(start: nat, end: nat, out: array<byte>) returns (ok: bool, stop: nat, written: nat)
      requires start <= end < |content| && content[end] == QUOTE
      requires out.Length == end - start + 2 - Escapes(content, start, end)
      modifies out
      ensures stop <= |content|
      ensures ok <==> DecodeString(content, start, end).Some?
      ensures !ok ==> stop == DecodeStop(content, start, end)
      ensures ok ==> written < out.Length && out[..written] == DecodeString(content, start, end).value
    {
      hide Piece, DecodeString, DecodeStop, Escapes;
      var i := start;
      written, ok := 0, true;
      RoomAtStart(content, start, end);
      assert out[..0] == [];
      ghost var all := DecodeString(content, start, end);
      assert all.Some? ==> [] + all.value == all.value;
      while i < end
        invariant start <= i <= end + 1
        invariant written + Escapes(content, start, i) <= i - start && written < out.Length
        invariant Prefixed(out[..written], DecodeString(content, i, end)) == DecodeString(content, start, end)
        invariant DecodeStop(content, i, end) == DecodeStop(content, start, end)
        decreases end + 1 - i
      {
        DecodeUnfold(content, i, end, out[..written]);
        DecodeStopUnfold(content, i, end);
        RoomFor(content, start, i, end, written);
        var next, total := DecodePiece(i, end, out, written);
        if next == None {
          return false, i, written;
        }
        i, written := next.value, total;
      }
      DecodeDone(content, i, end, out[..written]);
      stop := end;
    }

    /** `parse_string` without the node: a block holding the decoded bytes, and the cursor behind the quote. */
    method ScanString() returns (out: Option<CString>)
      requires Valid()
      modifies this`offset, heap
      ensures heap.Valid() && offset <= |content| && heap.refusals >= old(heap.refusals)
      ensures heap.requests >= old(heap.requests)
      ensures out.Some? ==>
        && ParseString(content, old(offset)) == Some(Parsed(out.value.bytes, offset)) && offset < |content|
        && out.value.block == old(heap.requests) < heap.requests
        && heap.live == old(heap.live) + {out.value.block} && heap.refusals == old(heap.refusals)
      ensures out.None? ==> heap.live == old(heap.live)
      ensures out.None? && heap.refusals == old(heap.refusals) ==>
        ParseString(content, old(offset)).None? && offset == StringStop(content, old(offset))
    {
      hide DecodeString, DecodeStop, FindClose;
      out := None;
      var start := offset + 1;
      if content[offset] != QUOTE {
        offset := start;
        return;
      }
      var end, skipped := FindEnd(start);
      if end == None {
        offset := start;
        return;
      }
      var block := heap.Allocate();
      if block == None {
        offset := start;
        return;
      }
      RoomAtStart(content, start, end.value);
      var output := new byte[end.value - offset - skipped + 1];
      var ok, stop, written := Decode(start, end.value, output);
      if !ok {
        heap.Free(block.value);
        offset := stop;
        return;
      }
      output[written] := NUL;
      out := Some(CString(block.value, output[..written]));
      offset := end.value + 1;
    }

    /** `parse_number`: at most 63 number bytes are copied and handed to `strtod`. */
    method ScanNumber() returns (number: Option<double>)
      requires Valid()
      modifies this`offset
      ensures number.Some? ==>
        ParseNumber(content, old(offset)) == Some(Parsed(number.value, offset)) && offset < |content|
      ensures number.None? ==> ParseNumber(content, old(offset)).None? && offset == old(offset)
    {
      hide Strtod, NumberEnd;
      var copy := new byte[64];
      var i := 0;
      while i < 63 && offset + i < |content| && NumberByte(content[offset + i])
        invariant offset == old(offset) && i <= 63 && offset + i <= |content|
        invariant copy[..i] == content[offset..offset + i]
        invariant forall k | offset <= k < offset + i :: NumberByte(content[k])
      {
        copy[i] := content[offset + i];
        assert copy[..i + 1] == content[offset..offset + i + 1];
        i := i + 1;
      }
      copy[i] := NUL;
      RunEnd(content, offset, i);
      assert copy[..i] == content[offset..offset + i];
      var r := Strtod(copy[..i]);
      if r.next == 0 {
        return None;
      }
      number := Some(r.val);
      offset := offset + r.next;
    }

    // ---------- values ----------

    /** What a successful parse leaves: a sound tree of fresh nodes owning exactly the new blocks. */
    twostate predicate Filled(item: Node, new D: set<Node>)
      reads this, heap, item, item.elems, D
    {
      && Valid() && item.Ok(D) && Sound(D) && NoReferences(D) && item !in D && fresh(D)
      && depth == old(depth) && heap.refusals == old(heap.refusals) && heap.requests >= old(heap.requests)
      && heap.live == old(heap.live) + item.owned && old(item.owned) <= item.owned
      && forall b | b in item.owned - old(item.owned) :: b >= old(heap.requests)
    }

    /** What a failed parse leaves: no block, and a reason unless the specification fails too. */
    twostate predicate Failed(fails: bool, stop: nat)
      reads this, heap
    {
      && heap.Valid() && offset <= |content| && heap.live == old(heap.live)
      && heap.refusals >= old(heap.refusals) && heap.requests >= old(heap.requests)
      && (heap.refusals == old(heap.refusals) ==> fails && offset == stop)
    }

    method ParseWord(item: Node, kind: Kind, ghost v: Value, length: nat)
      requires Valid() && item.Blank() && item.Owns() && item.owned <= heap.live
      requires offset + length < |content|
      requires (kind, v) in {(KNull, Null), (KFalse, False), (KTrue, True)}
      modifies this`offset, item`kind, item`valueint, item`value
      ensures Filled(item, {}) && offset == old(offset) + length && item.value == v
      ensures item.valueint == if kind == KTrue then 1 else old(item.valueint)
    {
      item.kind, item.value := kind, v;
      if kind == KTrue {
        item.valueint := 1;
      }
      offset := offset + length;
    }

    method ParseStringValue(item: Node) returns (ok: bool)
      requires Valid() && item.Blank() && item.Owns() && item.owned <= heap.live
      modifies this`offset, heap, item`kind, item`valuestring, item`value, item`owned
      ensures ok ==> Filled(item, {}) && item.valuestring.Some? && item.kind == KString
      ensures ok ==> item.value == Str(item.valuestring.value.Text())
      ensures ok ==> ParseString(content, old(offset)) == Some(Parsed(item.valuestring.value.bytes, offset))
      ensures !ok ==>
        Failed(ParseString(content, old(offset)).None?, StringStop(content, old(offset))) && unchanged(item)
    {
      hide ParseString, OwnedBy, IsText, Node.Ok, Node.Owns, CStr, NulFree, StringStop;
      OwnBlock(item);
      var str := ScanString();
      if str == None {
        return false;
      }
      GiveString(item, str.value);
      return true;
    }

    method ParseNumberValue(item: Node) returns (ok: bool)
      requires Valid() && item.Blank() && item.Owns() && item.owned <= heap.live
      modifies this`offset, item`kind, item`valuedouble, item`valueint, item`value
      ensures ok ==>
        && Filled(item, {}) && item.value.Num?
        && ParseNumber(content, old(offset)) == Some(Parsed(item.value.number, offset))
      ensures !ok ==> Failed(ParseNumber(content, old(offset)).None?, old(offset)) && unchanged(item)
    {
      hide ParseNumber, OwnedBy, Saturated;
      var number := ScanNumber();
      if number == None {
        return false;
      }
      item.kind, item.valuedouble, item.valueint := KNumber, number.value, Saturated(number.value);
      item.value := Num(number.value);
      return true;
    }

    /** `parse_value`. */
    method ParseValue(item: Node) returns (ok: bool, ghost D: set<Node>)
      requires Valid() && item.Blank() && item.Owns() && item.owned <= heap.live
      modifies this`offset, this`depth, heap, item`kind, item`valuestring, item`valuedouble, item`valueint, item`child,
        item`elems, item`value, item`owned
      ensures ok ==>
        Filled(item, D) && ParseSpec.ParseValue(content, old(offset), old(depth)) == Some(Parsed(item.value, offset))
      ensures !ok ==> unchanged(item) && D == {}
      ensures !ok ==>
        var o := old(offset);
        Failed(ParseSpec.ParseValue(content, o, old(depth)).None?, ValueStop(content, o, old(depth)))
      decreases |content| - offset, 7
    {
      hide ParseString, ParseNumber, ParseSpec.ParseItems, ParseSpec.ParseMembers, Node.Ok, Node.Owns, StringStop;
      hide ItemsStop, MembersStop;
      D := {};
      ok := true;
      if At(content, offset, NULL_TEXT) {
        ParseWord(item, KNull, Null, 4);
      } else if At(content, offset, FALSE_TEXT) {
        ParseWord(item, KFalse, False, 5);
      } else if At(content, offset, TRUE_TEXT) {
        ParseWord(item, KTrue, True, 4);
      } else if content[offset] == QUOTE {
        ok := ParseStringValue(item);
      } else if content[offset] == MINUS || IsDigit(content[offset]) {
        ok := ParseNumberValue(item);
      } else if content[offset] == LBRACKET {
        ok, D := ParseArray(item);
      } else if content[offset] == LBRACE {
        ok, D := ParseObject(item);
      } else {
        ok := false;
      }
    }

    /** The value behind a bracket, comma or colon, and the white space around it. */
    method ParseNext(current: Node) returns (ok: bool, ghost D: set<Node>)
      requires IsText(content) && heap.Valid() && offset + 1 < |content| && depth <= NESTING_LIMIT
      requires current.Blank() && current.Owns() && current.owned <= heap.live
      modifies this`offset, this`depth, heap, current`kind, current`valuestring, current`valuedouble, current`valueint,
        current`child, current`elems, current`value, current`owned
      ensures ok ==> Filled(current, D)
      ensures ok ==>
        var r := ParseSpec.ParseValue(content, SkipWs(content, old(offset) + 1), old(depth));
        r.Some? && r.value.val == current.value && offset == SkipWs(content, r.value.next)
      ensures !ok ==> unchanged(current)
      ensures !ok ==>
        var o := SkipWs(content, old(offset) + 1);
        Failed(ParseSpec.ParseValue(content, o, old(depth)).None?, ValueStop(content, o, old(depth)))
      decreases |content| - offset, 0, 0
    {
      hide ParseSpec.ParseValue, SkipWs, Node.Ok, Node.Owns, Node.Blank, Sound, NulFree, ValueStop;
      offset := offset + 1;
      SkipWhitespace();
      ok, D := ParseValue(current);
      if ok {
        SkipWhitespace();
      }
    }

    /** One round of the loop in `parse_array`, after the node is attached. */
    method ParseElement(current: Node, ghost front: seq<Node>, ghost K: set<Node>, ghost base: set<nat>,
                        ghost from: nat)
      returns (ok: bool, ghost K2: set<Node>)
      requires IsText(content) && heap.Valid() && offset + 1 < |content|
      requires depth <= NESTING_LIMIT && from <= heap.requests
      requires Growing(heap, front + [current], K, base, from)
      requires current.Blank() && current.Owns() && current.owned <= heap.live
      modifies this`offset, this`depth, heap, current`kind, current`valuestring, current`valuedouble, current`valueint,
        current`child, current`elems, current`value, current`owned
      ensures heap.Valid() && heap.refusals >= old(heap.refusals)
      ensures heap.requests >= old(heap.requests) && offset <= |content|
      ensures Growing(heap, front + [current], K2, base, from) && fresh(K2 - K)
      ensures ok ==> Valid() && depth == old(depth) && heap.refusals == old(heap.refusals)
      ensures ok ==>
        var r := ParseSpec.ParseValue(content, SkipWs(content, old(offset) + 1), old(depth));
        r.Some? && r.value.val == current.value && offset == SkipWs(content, r.value.next)
      ensures !ok && heap.refusals == old(heap.refusals) ==>
        var o := SkipWs(content, old(offset) + 1);
        ParseSpec.ParseValue(content, o, old(depth)).None? && offset == ValueStop(content, o, old(depth))
      decreases |content| - offset, 0
    {
      hide ParseSpec.ParseValue, Sound, OwnedBy, SkipWs, Chain, Apart, Node.Ok, Node.Owns, Node.Blank, IsText, NulFree;
      hide ValueStop;
      K2 := K;
      Retract(heap, front, current, K, base, from);
      ghost var before, requests := current.owned, heap.requests;
      ghost var D;
      ok, D := ParseNext(current);
      if !ok {
        return;
      }
      K2 := K + D;
      forall n | n in front ensures n.Ok(K) {
        assert old(n.Ok(K)) && current !in n.elems;
      }
      Widen(front, current, K, D);
      NewBlocksApart(before, current.owned, base, OwnedBy(front), from, requests);
      Extend(heap, front, current, K2, base, from);
    }

    /** What the loops of `parse_array` and `parse_object` leave, whether they succeed or not. */
    twostate predicate Listed(new list: seq<Node>, new K: set<Node>)
      reads this, heap, list, K
    {
      && heap.Valid() && offset <= |content|
      && heap.refusals >= old(heap.refusals) && heap.requests >= old(heap.requests)
      && Growing(heap, list, K, old(heap.live), old(heap.requests))
      && (forall n | n in list :: fresh(n)) && fresh(K)
    }

    /** A whole round of the loop in `parse_array`: attach a node and parse into it. */
    method NextItem(tail: Node?, ghost list: seq<Node>, ghost K: set<Node>, ghost base: set<nat>, ghost from: nat)
      returns (ok: bool, node: Node?, ghost out: seq<Node>, ghost K2: set<Node>)
      requires IsText(content) && heap.Valid() && offset + 1 < |content|
      requires depth <= NESTING_LIMIT && from <= heap.requests
      requires Growing(heap, list, K, base, from) && tail == Last(list)
      modifies this`offset, this`depth, heap, TailOf(tail)`next
      ensures heap.Valid() && heap.refusals >= old(heap.refusals)
      ensures heap.requests >= old(heap.requests) && offset <= |content|
      ensures Growing(heap, out, K2, base, from) && fresh(K2 - K)
      ensures if node == null then !ok && out == list else fresh(node) && out == list + [node]
      ensures ok ==> Valid() && depth == old(depth) && heap.refusals == old(heap.refusals)
      ensures ok ==> offset > old(offset) && (content[offset] == COMMA ==> offset + 1 < |content|)
      ensures ok && content[offset] == COMMA ==>
        ParseSpec.ParseItems(content, SkipWs(content, old(offset) + 1), depth, old(ValuesOf(list)))
        == ParseSpec.ParseItems(content, SkipWs(content, offset + 1), depth, ValuesOf(out))
      ensures ok && content[offset] != COMMA ==>
        ParseSpec.ParseItems(content, SkipWs(content, old(offset) + 1), depth, old(ValuesOf(list)))
        == if content[offset] == RBRACKET then Some(Parsed(ValuesOf(out), offset + 1)) else None
      ensures !ok && heap.refusals == old(heap.refusals) ==>
        ParseSpec.ParseItems(content, SkipWs(content, old(offset) + 1), old(depth), old(ValuesOf(list))).None?
      ensures heap.refusals == old(heap.refusals) ==>
        ItemsStop(content, SkipWs(content, old(offset) + 1), old(depth))
        == if ok && content[offset] == COMMA then ItemsStop(content, SkipWs(content, offset + 1), depth) else offset
      decreases |content| - offset, 1
    {
      hide ParseSpec.ParseItems, ParseSpec.ParseValue, Growing, SkipWs, Node.Ok, Node.Blank, Node.Owns, ValuesOf;
      hide ItemsStop, ValueStop;
      out, K2 := list, K;
      ghost var values := ValuesOf(list);
      ItemsUnfold(content, SkipWs(content, offset + 1), depth, values);
      node := AttachNew(heap, list, tail, K, base, from);
      if node == null {
        return false, null, list, K;
      }
      Retract(heap, list, node, K, base, from);
      out := list + [node];
      ok, K2 := ParseElement(node, list, K, base, from);
      ValuesAppend(list, node);
    }

    /** The loop of `parse_array`. */
    method ParseItems() returns (ok: bool, head: Node?, ghost list: seq<Node>, ghost K: set<Node>)
      requires IsText(content) && heap.Valid() && offset + 1 < |content| && depth <= NESTING_LIMIT
      modifies this`offset, this`depth, heap
      ensures Listed(list, K) && head == First(list)
      ensures ok ==> Valid() && depth == old(depth) && heap.refusals == old(heap.refusals)
      ensures (ok || heap.refusals == old(heap.refusals)) ==>
        ParseSpec.ParseItems(content, SkipWs(content, old(offset) + 1), old(depth), [])
        == if ok && content[offset] == RBRACKET then Some(Parsed(ValuesOf(list), offset + 1)) else None
      ensures (ok || heap.refusals == old(heap.refusals)) ==>
        offset == ItemsStop(content, SkipWs(content, old(offset) + 1), old(depth))
      decreases |content| - offset, 2
    {
      hide ParseSpec.ParseItems, Growing, SkipWs, ValuesOf, ItemsStop;
      head, list, K := null, [], {};
      EmptyGrowing(heap);
      NoneOf();
      ghost var start, base, from := SkipWs(content, offset + 1), heap.live, heap.requests;
      var current: Node? := null;
      var more := true;
      while more
        invariant IsText(content) && heap.Valid() && offset < |content| && depth == old(depth) && offset >= old(offset)
        invariant Listed(list, K) && heap.refusals == old(heap.refusals)
        invariant head == First(list) && current == Last(list) && (more ==> offset + 1 < |content|)
        invariant more ==>
          ParseSpec.ParseItems(content, SkipWs(content, offset + 1), depth, ValuesOf(list))
          == ParseSpec.ParseItems(content, start, depth, [])
        invariant !more ==>
          ParseSpec.ParseItems(content, start, depth, [])
          == if content[offset] == RBRACKET then Some(Parsed(ValuesOf(list), offset + 1)) else None
        invariant ItemsStop(content, start, depth)
               == if more then ItemsStop(content, SkipWs(content, offset + 1), depth) else offset
        decreases |content| - offset, more
      {
        assert current != null ==> current in list;
        var node;
        ghost var K2;
        ok, node, list, K2 := NextItem(current, list, K, base, from);
        K := K2;
        if head == null {
          head := node;
        }
        if !ok {
          return;
        }
        current := node;
        more := content[offset] == COMMA;
      }
      ok := true;
    }

    /** The part of `parse_array` up to the closing bracket. */
    method ParseArrayBody() returns (ok: bool, head: Node?, ghost list: seq<Node>, ghost K: set<Node>)
      requires Valid() && content[offset] == LBRACKET
      modifies this`offset, this`depth, heap
      ensures Listed(list, K) && head == First(list)
      ensures ok ==>
        Valid() && depth == old(depth) + 1 && heap.refusals == old(heap.refusals) && content[offset] == RBRACKET
      ensures ok ==>
        && offset + 1 < |content|
        && ParseSpec.ParseValue(content, old(offset), old(depth)) == Some(Parsed(Arr(ValuesOf(list)), offset + 1))
      ensures !ok && heap.refusals == old(heap.refusals) ==>
        && ParseSpec.ParseValue(content, old(offset), old(depth)).None?
        && offset == ValueStop(content, old(offset), old(depth))
      decreases |content| - offset, 3
    {
      hide ParseSpec.ParseItems, ParseSpec.ParseValue, Growing, SkipWs, ValuesOf, ItemsStop;
      head, list, K := null, [], {};
      EmptyGrowing(heap);
      NoneOf();
      ParseArrayAt(content, offset, depth);
      if depth >= NESTING_LIMIT {
        return false, head, list, K;
      }
      depth := depth + 1;
      offset := offset + 1;
      SkipWhitespace();
      if content[offset] == RBRACKET {
        return true, head, list, K;
      }
      // Step back to the byte in front of the first element.
      offset := offset - 1;
      ok, head, list, K := ParseItems();
      ok := ok && content[offset] == RBRACKET;
    }

    /** `parse_array`. */
    method ParseArray(item: Node) returns (ok: bool, ghost D: set<Node>)
      requires Valid() && item.Blank() && item.Owns() && item.owned <= heap.live && content[offset] == LBRACKET
      modifies this`offset, this`depth, heap, item`kind, item`child, item`elems, item`value, item`owned
      ensures ok ==>
        Filled(item, D) && ParseSpec.ParseValue(content, old(offset), old(depth)) == Some(Parsed(item.value, offset))
      ensures !ok ==> unchanged(item) && D == {}
      ensures !ok ==>
        var o := old(offset);
        Failed(ParseSpec.ParseValue(content, o, old(depth)).None?, ValueStop(content, o, old(depth)))
      decreases |content| - offset, 4
    {
      hide ParseSpec.ParseValue, Growing, Node.Ok, Node.Owns, Node.Blank, Sound, OwnedBy, Denotes, ValuesOf, SkipWs;
      hide ValueStop, ItemsStop, NoReferences, Node.Means;
      hide IsText, Apart, Chain;
      var head;
      ghost var list, K;
      ok, head, list, K := ParseArrayBody();
      D := {};
      if !ok {
        Abandon(heap, head, list, K, old(heap.live), old(heap.requests));
        return;
      }
      depth := depth - 1;
      GrowingSound(heap, list, K, old(heap.live), old(heap.requests));
      NewFrom(heap, list, K, old(heap.live), old(heap.requests));
      AdoptArray(item, head, heap, list, K, old(heap.requests));
      offset := offset + 1;
      D := K + NodesOf(list);
    }

    /** The name of a member: a string that becomes the key of the node. */
    method ScanKey(current: Node, ghost K: set<Node>) returns (ok: bool)
      requires IsText(content) && heap.Valid() && offset + 1 < |content| && depth <= NESTING_LIMIT
      requires current.Blank() && current.Owns() && current.owned <= heap.live
      requires current.key == None && !current.keyIsConst
      modifies this`offset, heap, current`kind, current`valuestring, current`key, current`value, current`owned
      ensures ok ==> Filled(current, {}) && current.Blank() && current.Owns() && current.Ok(K) && current.key.Some?
      ensures ok ==>
        var k := ParseString(content, SkipWs(content, old(offset) + 1));
        && k.Some? && current.key.value.bytes == k.value.val
        && offset == SkipWs(content, k.value.next) && offset > old(offset)
      ensures !ok ==> unchanged(current)
      ensures !ok ==>
        var o := SkipWs(content, old(offset) + 1);
        Failed(ParseString(content, o).None?, StringStop(content, o))
    {
      hide ParseString, SkipWs, Sound, OwnedBy, IsText, CStr, Chain, Apart, NulFree, Denotes, Node.Ok, Node.Owns;
      hide StringStop, NoReferences, Node.Means;
      hide Node.Blank;
      BlankFields(current);
      offset := offset + 1;
      SkipWhitespace();
      ok := ParseStringValue(current);
      if ok {
        OkOwns(current, {});
        SkipWhitespace();
        TakeKey(current, K);
      }
    }

    /** The name of a member and the check for its colon, in the loop of `parse_object`. */
    method ParseKey(current: Node, ghost front: seq<Node>, ghost K: set<Node>, ghost base: set<nat>, ghost from: nat)
      returns (ok: bool)
      requires IsText(content) && heap.Valid() && offset + 1 < |content|
      requires depth <= NESTING_LIMIT && from <= heap.requests
      requires Growing(heap, front + [current], K, base, from)
      requires current.Blank() && current.Owns() && current.owned <= heap.live
      requires current.key == None && !current.keyIsConst
      modifies this`offset, heap, current`kind, current`valuestring, current`key, current`value, current`owned
      ensures heap.Valid() && heap.refusals >= old(heap.refusals)
      ensures heap.requests >= old(heap.requests) && offset <= |content|
      ensures Growing(heap, front + [current], K, base, from)
      ensures ok ==> offset > old(offset) && offset + 1 < |content| && heap.refusals == old(heap.refusals)
      ensures ok ==> current.Blank() && current.Owns() && current.owned <= heap.live
      ensures ok ==>
        current.key.Some? && Named(content, SkipWs(content, old(offset) + 1), current.key.value.bytes, offset)
      ensures !ok && heap.refusals == old(heap.refusals) ==>
        Unnamed(content, SkipWs(content, old(offset) + 1), offset)
    {
      hide ParseString, Sound, SkipWs, Chain, Apart, OwnedBy, Node.Ok, Node.Owns, Node.Blank, StringStop;
      Retract(heap, front, current, K, base, from);
      ghost var before, requests := current.owned, heap.requests;
      ok := ScanKey(current, K);
      if !ok {
        return;
      }
      forall n | n in front ensures n.Ok(K) {
        assert old(n.Ok(K)) && current !in n.elems;
      }
      NewBlocksApart(before, current.owned, base, OwnedBy(front), from, requests);
      BlankElems(current);
      Extend(heap, front, current, K, base, from);
      ok := content[offset] == COLON;
    }

    /** Attach a node and parse its name. */
    method AttachNamed(tail: Node?, ghost list: seq<Node>, ghost K: set<Node>, ghost base: set<nat>, ghost from: nat)
      returns (ok: bool, node: Node?)
      requires IsText(content) && heap.Valid() && offset + 1 < |content|
      requires depth <= NESTING_LIMIT && from <= heap.requests
      requires Growing(heap, list, K, base, from) && tail == Last(list)
      modifies this`offset, heap, TailOf(tail)`next
      ensures heap.Valid() && heap.refusals >= old(heap.refusals)
      ensures heap.requests >= old(heap.requests) && offset <= |content|
      ensures node == null ==> !ok && Growing(heap, list, K, base, from)
      ensures node != null ==> fresh(node) && node !in list && Growing(heap, list + [node], K, base, from)
      ensures ok ==> offset > old(offset) && offset + 1 < |content| && heap.refusals == old(heap.refusals)
      ensures ok ==> node.Blank() && node.Owns() && node.owned <= heap.live
      ensures ok ==> node.key.Some? && Named(content, SkipWs(content, old(offset) + 1), node.key.value.bytes, offset)
      ensures !ok && heap.refusals == old(heap.refusals) ==>
        Unnamed(content, SkipWs(content, old(offset) + 1), offset)
    {
      hide ParseString, Growing, SkipWs, Node.Ok, Node.Blank, Node.Owns;
      node := AttachNew(heap, list, tail, K, base, from);
      if node == null {
        return false, null;
      }
      Retract(heap, list, node, K, base, from);
      ok := ParseKey(node, list, K, base, from);
    }

    /** The value of a member whose name started at `o`. */
    method ParseMemberValue(node: Node, ghost front: seq<Node>, ghost K: set<Node>, ghost base: set<nat>,
                            ghost from: nat, ghost o: nat)
      returns (ok: bool, ghost K2: set<Node>)
      requires IsText(content) && heap.Valid() && offset + 1 < |content|
      requires depth <= NESTING_LIMIT && from <= heap.requests
      requires Growing(heap, front + [node], K, base, from) && o < |content| && node.key.Some?
      requires node.Blank() && node.Owns() && node.owned <= heap.live
      requires Named(content, o, node.key.value.bytes, offset)
      modifies this`offset, this`depth, heap, node`kind, node`valuestring, node`valuedouble, node`valueint, node`child,
        node`elems, node`value, node`owned
      ensures heap.Valid() && heap.refusals >= old(heap.refusals)
      ensures heap.requests >= old(heap.requests) && offset <= |content|
      ensures Growing(heap, front + [node], K2, base, from) && fresh(K2 - K)
      ensures ok ==> Valid() && depth == old(depth) && heap.refusals == old(heap.refusals) && offset > old(offset)
      ensures ok ==>
        var r := ParseMember(content, o, old(depth));
        r.Some? && offset == SkipWs(content, r.value.next) && r.value.val == MemberOf(node)
      ensures !ok && heap.refusals == old(heap.refusals) ==>
        ParseMember(content, o, old(depth)).None? && offset == MemberStop(content, o, old(depth))
      decreases |content| - offset, 1
    {
      hide ParseString, ParseSpec.ParseValue, ParseMember, Growing, SkipWs, Node.Ok, Node.Blank, Node.Owns, IsText;
      hide MemberStop, ValueStop;
      hide Sound, Named;
      MemberUnfold(content, o, depth, node.key.value.bytes, offset);
      ok, K2 := ParseElement(node, front, K, base, from);
    }

    /** A whole round of the loop in `parse_object`: a node, its name and its value. */
    method AttachMember(tail: Node?, ghost list: seq<Node>, ghost K: set<Node>, ghost base: set<nat>, ghost from: nat)
      returns (ok: bool, node: Node?, ghost out: seq<Node>, ghost K2: set<Node>)
      requires IsText(content) && heap.Valid() && offset + 1 < |content|
      requires depth <= NESTING_LIMIT && from <= heap.requests
      requires Growing(heap, list, K, base, from) && tail == Last(list)
      modifies this`offset, this`depth, heap, TailOf(tail)`next
      ensures heap.Valid() && heap.refusals >= old(heap.refusals)
      ensures heap.requests >= old(heap.requests) && offset <= |content|
      ensures Growing(heap, out, K2, base, from) && fresh(K2 - K)
      ensures if node == null then !ok && out == list else fresh(node) && out == list + [node]
      ensures ok ==> Valid() && depth == old(depth) && heap.refusals == old(heap.refusals) && offset > old(offset)
      ensures ok ==>
        var r := ParseMember(content, SkipWs(content, old(offset) + 1), old(depth));
        && r.Some? && offset == SkipWs(content, r.value.next)
        && node.key.Some? && MembersOf(out) == old(MembersOf(list)) + [r.value.val]
      ensures !ok && heap.refusals == old(heap.refusals) ==>
        var o := SkipWs(content, old(offset) + 1);
        ParseMember(content, o, old(depth)).None? && offset == MemberStop(content, o, old(depth))
      decreases |content| - offset, 2
    {
      hide ParseString, ParseMember, Growing, SkipWs, Node.Ok, Node.Blank, Node.Owns, MembersOf, IsText, Sound;
      hide MemberStop;
      hide MemberOf;
      hide Named, Unnamed;
      ghost var start := SkipWs(content, offset + 1);
      ok, node := AttachNamed(tail, list, K, base, from);
      out, K2 := if node == null then list else list + [node], K;
      assert K2 - K == {};
      if ok {
        ok, K2 := ParseMemberValue(node, list, K, base, from, start);
        MembersAppend(list, node);
      } else if heap.refusals == old(heap.refusals) {
        UnnamedMember(content, start, depth, offset);
      }
    }

    /** The same round, in terms of what is left to parse. */
    method NextMember(tail: Node?, ghost list: seq<Node>, ghost K: set<Node>, ghost base: set<nat>, ghost from: nat)
      returns (ok: bool, node: Node?, ghost out: seq<Node>, ghost K2: set<Node>)
      requires IsText(content) && heap.Valid() && offset + 1 < |content|
      requires depth <= NESTING_LIMIT && from <= heap.requests
      requires Growing(heap, list, K, base, from) && tail == Last(list)
      modifies this`offset, this`depth, heap, TailOf(tail)`next
      ensures heap.Valid() && heap.refusals >= old(heap.refusals)
      ensures heap.requests >= old(heap.requests) && offset <= |content|
      ensures Growing(heap, out, K2, base, from) && fresh(K2 - K)
      ensures if node == null then !ok && out == list else fresh(node) && out == list + [node]
      ensures ok ==> Valid() && depth == old(depth) && heap.refusals == old(heap.refusals) && node.key.Some?
      ensures ok ==> offset > old(offset) && (content[offset] == COMMA ==> offset + 1 < |content|)
      ensures ok && content[offset] == COMMA ==>
        ParseSpec.ParseMembers(content, SkipWs(content, old(offset) + 1), depth, old(MembersOf(list)))
        == ParseSpec.ParseMembers(content, SkipWs(content, offset + 1), depth, MembersOf(out))
      ensures ok && content[offset] != COMMA ==>
        ParseSpec.ParseMembers(content, SkipWs(content, old(offset) + 1), depth, old(MembersOf(list)))
        == if content[offset] == RBRACE then Some(Parsed(MembersOf(out), offset + 1)) else None
      ensures !ok && heap.refusals == old(heap.refusals) ==>
        ParseSpec.ParseMembers(content, SkipWs(content, old(offset) + 1), old(depth), old(MembersOf(list))).None?
      ensures heap.refusals == old(heap.refusals) ==>
        MembersStop(content, SkipWs(content, old(offset) + 1), old(depth))
        == if ok && content[offset] == COMMA then MembersStop(content, SkipWs(content, offset + 1), depth) else offset
      decreases |content| - offset, 3
    {
      hide ParseSpec.ParseMembers, ParseMember, Growing, SkipWs, MembersOf, MembersStop, MemberStop;
      MembersUnfold(content, SkipWs(content, offset + 1), depth, MembersOf(list));
      ok, node, out, K2 := AttachMember(tail, list, K, base, from);
    }

    /** The loop of `parse_object`. */
    method ParseMembers() returns (ok: bool, head: Node?, ghost list: seq<Node>, ghost K: set<Node>)
      requires IsText(content) && heap.Valid() && offset + 1 < |content| && depth <= NESTING_LIMIT
      modifies this`offset, this`depth, heap
      ensures Listed(list, K) && head == First(list)
      ensures ok ==>
        Valid() && depth == old(depth) && heap.refusals == old(heap.refusals) && forall n | n in list :: n.key.Some?
      ensures (ok || heap.refusals == old(heap.refusals)) ==>
        ParseSpec.ParseMembers(content, SkipWs(content, old(offset) + 1), old(depth), [])
        == if ok && content[offset] == RBRACE then Some(Parsed(MembersOf(list), offset + 1)) else None
      ensures (ok || heap.refusals == old(heap.refusals)) ==>
        offset == MembersStop(content, SkipWs(content, old(offset) + 1), old(depth))
      decreases |content| - offset, 4
    {
      hide ParseSpec.ParseMembers, ParseMember, Growing, SkipWs, MembersOf, MembersStop;
      head, list, K := null, [], {};
      EmptyGrowing(heap);
      NoneOf();
      ghost var start, base, from := SkipWs(content, offset + 1), heap.live, heap.requests;
      var current: Node? := null;
      var more := true;
      while more
        invariant IsText(content) && heap.Valid() && offset < |content| && depth == old(depth) && offset >= old(offset)
        invariant Listed(list, K) && heap.refusals == old(heap.refusals) && forall n | n in list :: n.key.Some?
        invariant head == First(list) && current == Last(list) && (more ==> offset + 1 < |content|)
        invariant more ==>
          ParseSpec.ParseMembers(content, SkipWs(content, offset + 1), depth, MembersOf(list))
          == ParseSpec.ParseMembers(content, start, depth, [])
        invariant !more ==>
          ParseSpec.ParseMembers(content, start, depth, [])
          == if content[offset] == RBRACE then Some(Parsed(MembersOf(list), offset + 1)) else None
        invariant MembersStop(content, start, depth)
               == if more then MembersStop(content, SkipWs(content, offset + 1), depth) else offset
        decreases |content| - offset, more
      {
        assert current != null ==> current in list;
        var node;
        ghost var K2;
        ok, node, list, K2 := NextMember(current, list, K, base, from);
        K := K2;
        if head == null {
          head := node;
        }
        if !ok {
          return;
        }
        current := node;
        more := content[offset] == COMMA;
      }
      ok := true;
    }

    /** The part of `parse_object` up to the closing brace. */
    method ParseObjectBody() returns (ok: bool, head: Node?, ghost list: seq<Node>, ghost K: set<Node>)
      requires Valid() && content[offset] == LBRACE
      modifies this`offset, this`depth, heap
      ensures Listed(list, K) && head == First(list)
      ensures ok ==>
        Valid() && depth == old(depth) + 1 && heap.refusals == old(heap.refusals) && content[offset] == RBRACE
      ensures ok ==>
        && offset + 1 < |content| && (forall n | n in list :: n.key.Some?)
        && ParseSpec.ParseValue(content, old(offset), old(depth)) == Some(Parsed(Obj(MembersOf(list)), offset + 1))
      ensures !ok && heap.refusals == old(heap.refusals) ==>
        && ParseSpec.ParseValue(content, old(offset), old(depth)).None?
        && offset == ValueStop(content, old(offset), old(depth))
      decreases |content| - offset, 5
    {
      hide ParseSpec.ParseMembers, ParseSpec.ParseValue, Growing, SkipWs, MembersOf, MembersStop;
      head, list, K := null, [], {};
      EmptyGrowing(heap);
      NoneOf();
      ParseObjectAt(content, offset, depth);
      if depth >= NESTING_LIMIT {
        return false, head, list, K;
      }
      depth := depth + 1;
      offset := offset + 1;
      SkipWhitespace();
      if content[offset] == RBRACE {
        return true, head, list, K;
      }
      // Step back to the byte in front of the first member.
      offset := offset - 1;
      ok, head, list, K := ParseMembers();
      ok := ok && content[offset] == RBRACE;
    }

    /** `parse_object`. */
    method ParseObject(item: Node) returns (ok: bool, ghost D: set<Node>)
      requires Valid() && item.Blank() && item.Owns() && item.owned <= heap.live && content[offset] == LBRACE
      modifies this`offset, this`depth, heap, item`kind, item`child, item`elems, item`value, item`owned
      ensures ok ==>
        Filled(item, D) && ParseSpec.ParseValue(content, old(offset), old(depth)) == Some(Parsed(item.value, offset))
      ensures !ok ==> unchanged(item) && D == {}
      ensures !ok ==>
        var o := old(offset);
        Failed(ParseSpec.ParseValue(content, o, old(depth)).None?, ValueStop(content, o, old(depth)))
      decreases |content| - offset, 6
    {
      hide ParseSpec.ParseValue, Growing, Node.Ok, Node.Owns, Node.Blank, Sound, OwnedBy, Denotes, MembersOf, SkipWs;
      hide ValueStop, MembersStop, NoReferences, Node.Means;
      hide IsText, Apart, Chain;
      var head;
      ghost var list, K;
      ok, head, list, K := ParseObjectBody();
      D := {};
      if !ok {
        Abandon(heap, head, list, K, old(heap.live), old(heap.requests));
        return;
      }
      depth := depth - 1;
      GrowingSound(heap, list, K, old(heap.live), old(heap.requests));
      NewFrom(heap, list, K, old(heap.live), old(heap.requests));
      AdoptObject(item, head, heap, list, K, old(heap.requests));
      offset := offset + 1;
      D := K + NodesOf(list);
    }

    /** The part of `cJSON_ParseWithOpts` between the first allocation and the exits. */
    method ParseRoot(root: Node, requireEnd: bool) returns (ok: bool, ghost D: set<Node>)
      requires Valid() && offset == 0 && depth == 0 && root.Ok({})
      requires root.Blank() && root.Owns() && root.owned <= heap.live
      modifies this`offset, this`depth, heap, root`kind, root`valuestring, root`valuedouble, root`valueint, root`child,
        root`elems, root`value, root`owned
      ensures heap.Valid() && heap.refusals >= old(heap.refusals) && offset <= |content|
      ensures root.Ok(D) && Sound(D) && NoReferences(D) && root !in D && fresh(D)
      ensures heap.live == old(heap.live) + root.owned && old(root.owned) <= root.owned
      ensures forall b | b in root.owned - old(root.owned) :: b >= old(heap.requests)
      ensures ok ==>
        ParseText(content, requireEnd) == Some(Parsed(root.value, offset)) && heap.refusals == old(heap.refusals)
      ensures ok ==> offset < |content|
      ensures !ok && heap.refusals == old(heap.refusals) ==>
        ParseText(content, requireEnd).None? && offset == TextStop(content)
    {
      hide ParseSpec.ParseValue, SkipWs, Node.Ok, Node.Owns, ValueStop;
      if |content| > 4 && At(content, 0, BOM) {
        offset := 3;
      }
      SkipWhitespace();
      ok, D := ParseValue(root);
      if ok && requireEnd {
        SkipWhitespace();
        ok := content[offset] == NUL;
      }
    }
  }

  lemma BlankElems(n: Node)
    requires n.Blank()
    ensures n.elems == [] && n.child == null && !n.isReference
  {
  }

  lemma MemberUnfold(s: seq<byte>, o: nat, d: nat, name: seq<byte>, at: nat)
    requires IsText(s) && o < |s| && Named(s, o, name, at)
    ensures at + 1 < |s|
    ensures var x, r := ParseSpec.ParseValue(s, SkipWs(s, at + 1), d), ParseMember(s, o, d);
      if x.None? then r.None? else r == Some(Parsed(Member(CStr(name), x.value.val), x.value.next))
    ensures MemberStop(s, o, d) == ValueStop(s, SkipWs(s, at + 1), d)
  {
    hide ParseString, ParseSpec.ParseValue, ValueStop, SkipWs;
  }

  lemma UnnamedMember(s: seq<byte>, o: nat, d: nat, stop: nat)
    requires IsText(s) && o < |s| && Unnamed(s, o, stop)
    ensures ParseMember(s, o, d).None? && stop == MemberStop(s, o, d)
  {
    hide ParseString, StringStop, ParseSpec.ParseValue, ValueStop, SkipWs;
  }

  lemma MembersUnfold(s: seq<byte>, o: nat, d: nat, acc: seq<Member>)
    requires IsText(s) && o < |s|
    ensures var x, r := ParseMember(s, o, d), ParseSpec.ParseMembers(s, o, d, acc);
      if x.None? then r.None?
      else
        var i := SkipWs(s, x.value.next);
        if s[i] == COMMA then i + 1 < |s| && r == ParseSpec.ParseMembers(s, SkipWs(s, i + 1), d, acc + [x.value.val])
        else r == if s[i] == RBRACE then Some(Parsed(acc + [x.value.val], i + 1)) else None
    ensures var x := ParseMember(s, o, d);
      if x.None? then MembersStop(s, o, d) == MemberStop(s, o, d)
      else
        var i := SkipWs(s, x.value.next);
        MembersStop(s, o, d) == if s[i] == COMMA && i + 1 < |s| then MembersStop(s, SkipWs(s, i + 1), d) else i
  {
    hide ParseMember, MemberStop, SkipWs;
  }

  /** At `o` stands a name, and behind it and white space, at `at`, its colon. */
  ghost predicate Named(s: seq<byte>, o: nat, name: seq<byte>, at: nat)
    requires |s| > 0 && o < |s|
  {
    var k := ParseString(s, o);
    k.Some? && k.value.val == name && at == SkipWs(s, k.value.next) && at < |s| && s[at] == COLON
  }

  /** There is no name, or at `stop` behind it no colon. */
  ghost predicate Unnamed(s: seq<byte>, o: nat, stop: nat)
    requires |s| > 0 && o < |s|
  {
    var k := ParseString(s, o);
    if k.None? then stop == StringStop(s, o)
    else stop == SkipWs(s, k.value.next) && s[stop] != COLON
  }

  /** A blank node owns its own block. */
  lemma OwnBlock(n: Node)
    requires n.Blank() && n.Owns()
    ensures n.block in n.owned
    ensures n.key.Some? && !n.keyIsConst ==> n.key.value.block in n.owned
  {
  }

  /** The string becomes the value of the node. */
  method GiveString(item: Node, str: CString)
    requires item.Blank() && item.Owns() && str.block !in item.owned
    modifies item`kind, item`valuestring, item`value, item`owned
    ensures item.kind == KString && item.valuestring == Some(str) && item.value == Str(str.Text())
    ensures item.owned == old(item.owned) + {str.block} && item.Ok({})
  {
    hide CStr, OwnedBy;
    NothingOwned(item.elems);
    item.kind, item.valuestring := KString, Some(str);
    item.value, item.owned := Str(str.Text()), item.owned + {str.block};
  }

  lemma BlankFields(n: Node)
    requires n.Blank()
    ensures n.child == null && n.elems == [] && !n.isReference
  {
  }

  lemma OkOwns(n: Node, D: set<Node>)
    requires n.Ok(D)
    ensures n.Owns()
  {
  }

  /**
   * The parsed string becomes the key; what the node holds next is still to come.  (The C code
   * leaves the type of the string behind, which the value overwrites or deletion ignores.)
   */
  method TakeKey(current: Node, ghost K: set<Node>)
    requires current.kind == KString && current.valuestring.Some? && current.key == None && !current.isReference
    requires !current.keyIsConst && current.child == null && current.elems == [] && current.Owns()
    modifies current`kind, current`valuestring, current`key, current`value
    ensures current.Blank() && current.Owns() && current.key == old(current.valuestring)
    ensures current.Ok(K) && current.Ok({})
  {
    current.key := current.valuestring;
    current.valuestring := None;
    current.kind, current.value := KInvalid, Invalid;
  }

  lemma ItemsUnfold(s: seq<byte>, o: nat, d: nat, acc: seq<Value>)
    requires IsText(s) && o < |s|
    ensures var x, r := ParseSpec.ParseValue(s, o, d), ParseSpec.ParseItems(s, o, d, acc);
      if x.None? then r.None?
      else
        var i := SkipWs(s, x.value.next);
        if s[i] == COMMA then i + 1 < |s| && r == ParseSpec.ParseItems(s, SkipWs(s, i + 1), d, acc + [x.value.val])
        else r == if s[i] == RBRACKET then Some(Parsed(acc + [x.value.val], i + 1)) else None
    ensures var x := ParseSpec.ParseValue(s, o, d);
      if x.None? then ItemsStop(s, o, d) == ValueStop(s, o, d)
      else
        var i := SkipWs(s, x.value.next);
        ItemsStop(s, o, d) == if s[i] == COMMA && i + 1 < |s| then ItemsStop(s, SkipWs(s, i + 1), d) else i
  {
    hide ParseSpec.ParseValue, ValueStop, SkipWs;
  }

  function Prefixed(a: seq<byte>, rest: Option<seq<byte>>): Option<seq<byte>> {
    if rest.None? then None else Some(a + rest.value)
  }

  lemma RoomAtStart(s: seq<byte>, a: nat, e: nat)
    requires a <= e <= |s|
    ensures Escapes(s, a, a) == 0 && e - a + 2 - Escapes(s, a, e) > 0
  {
  }

  lemma DecodeUnfold(s: seq<byte>, i: nat, e: nat, before: seq<byte>)
    requires i < e < |s|
    ensures Piece(s, i, e).None? ==> DecodeString(s, i, e).None?
    ensures Piece(s, i, e).Some? ==>
      var p := Piece(s, i, e).value;
      Prefixed(before, DecodeString(s, i, e)) == Prefixed(before + p.val, DecodeString(s, p.next, e))
  {
    hide Piece;
    if Piece(s, i, e).Some? && DecodeString(s, Piece(s, i, e).value.next, e).Some? {
      var p, rest := Piece(s, i, e).value.val, DecodeString(s, Piece(s, i, e).value.next, e).value;
      assert before + (p + rest) == before + p + rest;
    }
  }

  lemma DecodeStopUnfold(s: seq<byte>, i: nat, e: nat)
    requires i < e < |s|
    ensures DecodeStop(s, i, e) == if Piece(s, i, e).None? then i else DecodeStop(s, Piece(s, i, e).value.next, e)
  {
    hide Piece;
  }

  lemma DecodeDone(s: seq<byte>, i: nat, e: nat, before: seq<byte>)
    requires e <= i <= e + 1 && e < |s|
    ensures Prefixed(before, DecodeString(s, i, e)) == Some(before)
  {
    assert before + [] == before;
  }

  /** The next piece fits in the buffer and leaves room for the terminator. */
  lemma RoomFor(s: seq<byte>, a: nat, i: nat, e: nat, written: nat)
    requires a <= i < e < |s| && s[e] == QUOTE && written + Escapes(s, a, i) <= i - a
    ensures Piece(s, i, e).Some? ==>
      var p := Piece(s, i, e).value;
      && written + |p.val| + Escapes(s, a, p.next) <= p.next - a
      && written + |p.val| < e - a + 2 - Escapes(s, a, e)
  {
    hide Piece, Escapes;
    if Piece(s, i, e).Some? {
      var p := Piece(s, i, e).value;
      PieceFits(s, a, i, e);
      EscapesGrowSlowly(s, a, p.next, e + 1);
      QuoteIsNoEscape(s, a, e);
    }
  }

  lemma QuoteIsNoEscape(s: seq<byte>, a: nat, e: nat)
    requires a <= e < |s| && s[e] == QUOTE
    ensures Escapes(s, a, e + 1) == Escapes(s, a, e)
  {
  }

  // ---------- whole texts ----------

  /** The nodes of `D` that lie below the root. */
  lemma OnlyBelow(root: Node, D: set<Node>) returns (E: set<Node>)
    requires root.Ok(D) && Sound(D) && NoReferences(D) && !root.isReference
    ensures Whole(root, E) && E <= D
  {
    hide Node.Ok, Sound, NoReferences, Under;
    WholePart(root, D);
    E := Part(root.elems, D);
  }

  lemma NewBlocks(owned: set<nat>, block: nat, live: set<nat>, from: nat)
    requires (forall b | b in owned - {block} :: b >= from) && block >= from && forall b | b in live :: b < from
    ensures owned !! live
  {
    assert forall b | b in owned :: b == block || b in owned - {block};
  }

  /**
   * `cJSON_ParseWithOpts`: with enough memory it succeeds exactly when the text has a value by the
   * specification, and then the new tree denotes that value and owns every new block.  A failed call
   * leaves no block behind and reports where the parser stopped.
   */
  method ParseWithOpts(value: Option<seq<byte>>, requireEnd: bool, heap: Heap)
    returns (item: Node?, end: nat, ghost D: set<Node>)
    requires heap.Valid() && (value.Some? ==> IsText(value.value))
    modifies heap
    ensures heap.Valid() && heap.refusals >= old(heap.refusals)
    ensures item != null <==>
      value.Some? && heap.refusals == old(heap.refusals) && ParseText(value.value, requireEnd).Some?
    ensures item != null ==> ParseText(value.value, requireEnd) == Some(Parsed(item.value, end))
    ensures item != null ==>
      && fresh(item) && fresh(D) && Whole(item, D) && Detached(item)
      && heap.live == old(heap.live) + item.owned && item.owned !! old(heap.live)
    ensures item == null ==> heap.live == old(heap.live) && (value.Some? ==> end < |value.value|)
    ensures item == null && value.Some? && heap.refusals == old(heap.refusals) ==>
      end == if TextStop(value.value) < |value.value| then TextStop(value.value) else |value.value| - 1
  {
    hide ParseText, TextStop, Node.Ok, Sound, NoReferences, Under, Part;
    item, end, D := null, 0, {};
    if value == None {
      return;
    }
    assert |value.value| > 0;
    var block := heap.Allocate();
    if block == None {
      return;
    }
    var root := new Node(block.value);
    BlankOk(root, {});
    var p := new ParseBuffer(value.value, heap);
    var ok;
    ok, D := p.ParseRoot(root, requireEnd);
    NewBlocks(root.owned, block.value, old(heap.live), old(heap.requests));
    end := if p.offset < |p.content| then p.offset else |p.content| - 1;
    if ok {
      item := root;
      D := OnlyBelow(root, D);
    } else {
      DeleteTree(root, heap, D);
    }
  }
}
