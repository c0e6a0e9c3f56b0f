/** The printer: a byte buffer that grows on demand, or a fixed one the caller owns. */
module Printing {
  import opened Bytes
  import opened Doubles
  import opened Json
  import opened Numbers
  import opened Allocation
  import opened Tree
  import opened RoundTrip

  class PrintBuffer {
    var buffer: array?<byte>
    var length: nat
    var offset: nat
    var depth: nat
    const noalloc: bool
    const format: bool
    const heap: Heap
    /** The block number of a buffer that comes from the heap. */
    var block: nat
    /** Set when growing by hand copies past the end of the old block. */
    var overread: bool
    /** The live blocks that are not the buffer. */
    ghost const others: set<nat>
    /** The text in front of the offset. */
    ghost var text: seq<byte>

    constructor (buffer: array<byte>, heap: Heap, noalloc: bool, format: bool, block: nat)
      requires heap.Valid() && buffer.Length <= INT_MAX
      requires !noalloc ==> block in heap.live
      ensures Valid() && this.buffer == buffer && this.heap == heap && this.noalloc == noalloc && this.format == format
      ensures length == buffer.Length && text == [] && depth == 0 && !overread && this.block == block
      ensures others == if noalloc then heap.live else heap.live - {block}
    {
      this.buffer, this.length, this.offset, this.depth := buffer, buffer.Length, 0, 0;
      this.noalloc, this.format, this.heap, this.block, this.overread := noalloc, format, heap, block, false;
      this.others := if noalloc then heap.live else heap.live - {block};
      this.text := [];
    }

    ghost function Own(): set<nat>
      reads `buffer, `block
    {
      if noalloc || buffer == null then {} else {block}
    }

    ghost predicate Valid()
      reads `buffer, `length, `offset, `block, `text, heap, buffer
    {
      && heap.Valid() && length <= INT_MAX && offset == |text|
      && (buffer != null ==> length == buffer.Length && (if length == 0 then offset == 0 else offset < length))
      && (buffer != null ==> buffer[..offset] == text)
      && (buffer == null ==> length == 0 && !noalloc)
      && heap.live == others + Own() && Own() !! others
    }

    /** How far the buffer may be used: all of a fixed one, INT_MAX bytes of a growing one. */
    ghost function Capacity(): nat
      reads this
    {
      if noalloc then length else INT_MAX
    }

    /** The buffer holds `t` and a terminator; the offset lags behind by bytes other than NUL. */
    ghost predicate Pending(t: seq<byte>)
      reads `buffer, `length, `offset, `block, `text, heap, buffer
    {
      && Valid() && buffer != null && offset <= |t| < length
      && buffer[..|t|] == t && buffer[|t|] == NUL && NulFree(t[offset..])
    }

    /** `ensure`: at least `needed` more bytes and one to spare, moving the buffer if it must. */
    method Ensure(needed: nat) returns (ok: bool)
      requires Valid()
      modifies this`buffer, this`length, this`block, this`overread, heap
      ensures Valid() && heap.refusals >= old(heap.refusals)
      ensures ok ==> old(buffer) != null && buffer != null && |text| + needed + 1 <= length
      ensures ok ==> heap.refusals == old(heap.refusals) && |text| + needed + 1 <= Capacity()
      ensures buffer == null || buffer == old(buffer) || fresh(buffer)
      ensures noalloc ==> buffer == old(buffer) && length == old(length) && heap.refusals == old(heap.refusals)
      ensures !ok && old(buffer) != null && |text| + needed + 1 <= Capacity() ==> heap.refusals > old(heap.refusals)
      ensures overread ==> old(overread) || (!noalloc && !heap.reallocates && old(length) == 0)
      ensures old(overread) || (ok && !noalloc && !heap.reallocates && old(length) == 0) ==> overread
    {
      if buffer == null {
        return false;
      }
      if length > 0 && offset >= length {
        return false;
      }
      if needed > INT_MAX {
        return false;
      }
      var want := needed + offset + 1;
      if want <= length {
        return true;
      }
      if noalloc {
        return false;
      }
      var newsize;
      if want > INT_MAX / 2 {
        if want <= INT_MAX {
          newsize := INT_MAX;
        } else {
          return false;
        }
      } else {
        newsize := want * 2;
      }
      ok := Grow(newsize);
    }

    /** The two ways of moving to a larger block. */
    method Grow(newsize: nat) returns (ok: bool)
      requires Valid() && buffer != null && !noalloc && length < newsize <= INT_MAX && offset < newsize
      modifies this`buffer, this`length, this`block, this`overread, heap
      ensures Valid() && heap.refusals >= old(heap.refusals)
      ensures ok ==> buffer != null && fresh(buffer) && length == newsize
      ensures ok ==> heap.refusals == old(heap.refusals)
      ensures !ok ==> buffer == null && heap.refusals > old(heap.refusals)
      ensures overread <==> old(overread) || (ok && !heap.reallocates && old(length) == 0)
    {
      var newbuffer := new byte[newsize];
      var newblock;
      if heap.reallocates {
        newblock := heap.Reallocate(block);
        if newblock == None {
          heap.Free(block);
          length, buffer := 0, null;
          return false;
        }
        Copy(buffer, newbuffer, length);
      } else {
        newblock := heap.Allocate();
        if newblock == None {
          heap.Free(block);
          length, buffer := 0, null;
          return false;
        }
        var count := if offset + 1 <= length then offset + 1 else length;
        overread := overread || offset + 1 > length;
        Copy(buffer, newbuffer, count);
        heap.Free(block);
      }
      length, buffer, block := newsize, newbuffer, newblock.value;
      return true;
    }

    static method Copy(from: array<byte>, to: array<byte>, count: nat)
      requires count <= from.Length && count <= to.Length && from != to
      modifies to
      ensures to[..count] == from[..count]
    {
      for i := 0 to count
        invariant to[..i] == from[..i]
      {
        to[i] := from[i];
      }
    }

    /** `update_offset`: move to the end of the text the last call wrote. */
    method UpdateOffset(ghost t: seq<byte>)
      requires Pending(t)
      modifies this`offset, this`text
      ensures Valid() && text == t && buffer != null && length > 0 && buffer[offset] == NUL
    {
      var start := offset;
      var n := 0;
      while buffer[start + n] != NUL
        invariant start + n <= |t|
        decreases |t| - n
      {
        assert buffer[start + n] == t[start..][n];
        n := n + 1;
      }
      offset := start + n;
      text := t;
    }

    /** Write at a position inside the buffer: what `strcpy`, `memcpy` and runs of stores do. */
    method Store(at: nat, w: seq<byte>)
      requires buffer != null && at + |w| <= buffer.Length
      modifies buffer
      ensures buffer[..] == old(buffer[..at]) + w + old(buffer[at + |w|..])
    {
      for i := 0 to |w|
        invariant forall k | 0 <= k < buffer.Length ::
          buffer[k] == if at <= k < at + i then w[k - at] else old(buffer[k])
      {
        buffer[at + i] := w[i];
      }
    }

    /** Write `w` at the offset and move past it. */
    method Append(w: seq<byte>)
      requires Valid() && buffer != null && |text| + |w| < length
      modifies this`offset, this`text, buffer
      ensures Valid() && text == old(text) + w && length > 0
    {
      Store(offset, w);
      offset := offset + |w|;
      text := text + w;
      assert buffer[..offset] == old(buffer[..offset]) + w;
    }

    /** Write `w` and a terminator at the offset and stay there. */
    method Terminate(w: seq<byte>)
      requires Valid() && buffer != null && |text| + |w| < length && NulFree(w)
      modifies buffer
      ensures Pending(text + w)
    {
      Store(offset, w + [NUL]);
      assert buffer[..] == (text + w) + [NUL] + old(buffer[offset + |w| + 1..]);
      assert (text + w)[offset..] == w;
    }

    // ---------- what every printing method promises ----------

    ghost predicate GrowsByHand()
      reads this
    {
      !noalloc && !heap.reallocates
    }

    /** The buffer is the old one, a larger copy, or gone; a fixed one stays. */
    twostate predicate Moved()
      reads this, heap
    {
      && heap.refusals >= old(heap.refusals)
      && (buffer == null || buffer == old(buffer) || fresh(buffer))
      && (noalloc ==> buffer == old(buffer) && length == old(length) && heap.refusals == old(heap.refusals))
      && (old(overread) ==> overread)
      && (overread ==> old(overread) || (GrowsByHand() && old(length) == 0))
    }

    twostate predicate Fits(t: seq<byte>)
      reads this
    {
      |old(text)| + |t| + 2 <= Capacity()
    }

    /** What a call leaves when it succeeds. */
    twostate predicate Went(good: bool)
      reads this, heap
    {
      && good && depth == old(depth) && heap.refusals == old(heap.refusals)
      && (GrowsByHand() && old(length) == 0 ==> overread)
    }

    /**
     * Printing `t` succeeds exactly when there is something valid to print, the text, its
     * terminator and one spare byte fit, and no allocation is refused; then it stands behind what
     * was there.
     */
    twostate predicate Prints(ok: bool, good: bool, t: seq<byte>)
      reads this, heap, buffer
    {
      && Valid() && Moved()
      && (ok ==> Went(good) && Fits(t) && Pending(old(text) + t))
      && (!ok && good && Fits(t) ==> heap.refusals > old(heap.refusals))
    }

    /** Like `Prints`, but the offset is already behind the text. */
    twostate predicate Appends(ok: bool, good: bool, t: seq<byte>)
      reads this, heap, buffer
    {
      && Valid() && Moved()
      && (ok ==> Went(good) && buffer != null && length > 0 && text == old(text) + t)
      && (!ok && good && Fits(t) ==> heap.refusals > old(heap.refusals))
    }

    /** Make room for `w` and `spare` more bytes, write `w` and move past it. */
    method Write(w: seq<byte>, spare: nat) returns (ok: bool)
      requires Valid() && buffer != null && spare <= 1
      modifies this, heap, buffer
      ensures Appends(ok, true, w)
    {
      ok := Ensure(|w| + spare);
      if ok {
        Append(w);
      }
    }

    /** Make room for `w` and its terminator and write both, as `ensure` and `strcpy` do. */
    method PrintWord(w: seq<byte>) returns (ok: bool)
      requires Valid() && buffer != null && NulFree(w)
      modifies this, heap, buffer
      ensures Prints(ok, true, w)
    {
      ok := Ensure(|w| + 1);
      if ok {
        Terminate(w);
      }
    }

    /** The digits `print_number` chooses: fifteen, unless reading them back gives another number. */
    static method FormatNumber(x: double) returns (number: seq<byte>)
      ensures number == NumberText(x) && NulFree(number) && 0 < |number| <= 24
    {
      hide Format, Strtod;
      number := NULL_TEXT;
      if x.Finite? {
        number := Format(x, 15);
        var test := Strtod(number).val;
        if !Equal(test, x) {
          number := Format(x, 17);
        }
      }
      PrintedBytes(x);
    }

    /** `print_number`: unlike the others it moves past its text by itself. */
    method PrintNumber(x: double) returns (ok: bool)
      requires Valid() && buffer != null
      modifies this, heap, buffer
      ensures Prints(ok, true, NumberText(x))
    {
      hide NumberText;
      var number := FormatNumber(x);
      if |number| > 25 {
        return false;
      }
      ok := Ensure(|number| + 1);
      if ok {
        Terminate(number);
        offset := offset + |number|;
        text := text + number;
      }
    }

    /** The number of bytes escaping adds, counted as `print_string_ptr` does. */
    static method CountEscapes(input: seq<byte>) returns (length: nat, escapes: nat)
      ensures length == |CStr(input)| && length + escapes == |Escape(CStr(input))|
      ensures escapes == 0 ==> Escape(CStr(input)) == CStr(input)
    {
      length, escapes := 0, 0;
      hide Escape, EscapeByte, CStr;
      ghost var text := CStr(input);
      EscapeNothing(text);
      while length < |input| && input[length] != NUL
        invariant length <= |text| && length + escapes == |Escape(text[..length])|
        invariant escapes == 0 ==> Escape(text[..length]) == text[..length]
      {
        var c := input[length];
        EscapeNext(text, length);
        if c == QUOTE || c == BACKSLASH || c == BACKSPACE || c == FORMFEED || c == NEWLINE || c == RETURN || c == TAB {
          escapes := escapes + 1;
        } else if c < 32 {
          escapes := escapes + 5;
        }
        length := length + 1;
      }
      assert text[..length] == text;
    }

    /** Write the escaped form of `s` at a position, byte by byte. */
    method StoreEscaped(at: nat, s: seq<byte>)
      requires buffer != null && at + |Escape(s)| < buffer.Length
      modifies buffer
      ensures buffer[..at + |Escape(s)|] == old(buffer[..at]) + Escape(s)
    {
      var p := at;
      for i := 0 to |s|
        invariant p == at + |Escape(s[..i])| && p <= at + |Escape(s)|
        invariant buffer[..p] == old(buffer[..at]) + Escape(s[..i])
      {
        var c := s[i];
        EscapeAppend(s[..i], c);
        assert s[..i + 1] == s[..i] + [c];
        EscapeSplit(s, i + 1);
        p := StoreEscapedByte(p, c);
      }
      assert s[..|s|] == s;
    }

    /** One byte of the copying loop; `sprintf` ends the long form with a terminator of its own. */
    method StoreEscapedByte(at: nat, c: byte) returns (p: nat)
      requires buffer != null && at + |EscapeByte(c)| < buffer.Length
      modifies buffer
      ensures p == at + |EscapeByte(c)|
      ensures buffer[..p] == old(buffer[..at]) + EscapeByte(c)
    {
      p := at;
      if c > 31 && c != QUOTE && c != BACKSLASH {
        buffer[p] := c;
      } else {
        buffer[p] := BACKSLASH;
        p := p + 1;
        if c == BACKSLASH {
          buffer[p] := BACKSLASH;
        } else if c == QUOTE {
          buffer[p] := QUOTE;
        } else if c == BACKSPACE {
          buffer[p] := LOWER_B;
        } else if c == FORMFEED {
          buffer[p] := LOWER_F;
        } else if c == NEWLINE {
          buffer[p] := LOWER_N;
        } else if c == RETURN {
          buffer[p] := LOWER_R;
        } else if c == TAB {
          buffer[p] := LOWER_T;
        } else {
          Store(p, [LOWER_U, ZERO, ZERO, HexDigit(c / 16), HexDigit(c % 16), NUL]);
          p := p + 4;
        }
      }
      p := p + 1;
    }

    /** `print_string_ptr`: an absent string prints as an empty one. */
    method PrintString(input: Option<CString>) returns (ok: bool)
      requires Valid() && buffer != null
      modifies this, heap, buffer
      ensures Prints(ok, true, Quoted(if input.Some? then input.value.Text() else []))
    {
      if input == None {
        ok := PrintWord([QUOTE, QUOTE]);
        return;
      }
      var length, escapes := CountEscapes(input.value.bytes);
      ok := PlaceQuoted(CStr(input.value.bytes), length + escapes, escapes == 0);
    }

    /** The part of `print_string_ptr` after counting. */
    method PlaceQuoted(s: seq<byte>, outputLength: nat, verbatim: bool) returns (ok: bool)
      requires Valid() && buffer != null && NulFree(s)
      requires outputLength == |Escape(s)| && (verbatim ==> Escape(s) == s)
      modifies this, heap, buffer
      ensures Prints(ok, true, Quoted(s))
    {
      hide Escape;
      ok := Ensure(outputLength + 3);
      if ok {
        if verbatim {
          assert [QUOTE] + s + [QUOTE] == Quoted(s);
          Terminate([QUOTE] + s + [QUOTE]);
        } else {
          StoreQuoted(s);
        }
      }
    }

    /** The path of `print_string_ptr` for strings that need escaping. */
    method StoreQuoted(s: seq<byte>)
      requires Valid() && buffer != null && |text| + |Quoted(s)| < length
      modifies buffer
      ensures Pending(text + Quoted(s))
    {
      hide Escape, NulFree;
      buffer[offset] := QUOTE;
      StoreEscaped(offset + 1, s);
      var close := offset + 1 + |Escape(s)|;
      assert buffer[..close] == text + [QUOTE] + Escape(s);
      ghost var front := buffer[..close];
      Store(close, [QUOTE, NUL]);
      assert buffer[..close + 1] == front + [QUOTE] == text + Quoted(s);
      assert (text + Quoted(s))[offset..] == Quoted(s);
      EscapeNulFree(s);
    }

    // ---------- values ----------

    /** `print_value`. */
    method PrintValue(item: Node, ghost D: set<Node>) returns (ok: bool)
      requires Valid() && buffer != null && item.Ok(D) && Sound(D)
      modifies this, heap, buffer
      ensures Prints(ok, Printable(item.value), Render(item.value, format, old(depth)))
      decreases item.value, 2
    {
      hide RenderItems, RenderMembers, Sound, Node.Owns, Chain, Valid, Pending, Quoted, NumberText, NulFree;
      Words();
      match item.kind
      case KInvalid => ok := false;
      case KNull => ok := PrintWord(NULL_TEXT);
      case KFalse => ok := PrintWord(FALSE_TEXT);
      case KTrue => ok := PrintWord(TRUE_TEXT);
      case KNumber => ok := PrintNumber(item.valuedouble);
      case KString => ok := PrintString(item.valuestring);
      case KArray => ok := PrintArray(item, D);
      case KObject => ok := PrintObject(item, D);
    }

    /** A value and what the loops in `print_array` and `print_object` write after it. */
    method PrintThen(x: Node, end: seq<byte>, always: bool, ghost D: set<Node>) returns (ok: bool)
      requires Valid() && buffer != null && x.Ok(D) && Sound(D)
      modifies this, heap, buffer
      ensures Appends(ok, Printable(x.value), Render(x.value, format, old(depth)) + end)
      decreases x.value, 3
    {
      hide Render, Sound, Node.Ok, Printable, Valid, Pending;
      ghost var t := text + Render(x.value, format, depth);
      ok := PrintValue(x, D);
      if !ok {
        return;
      }
      UpdateOffset(t);
      if always || end != [] {
        ok := Write(end, 1);
      }
    }

    /** The loop of `print_array`. */
    method PrintItems(item: Node, ghost D: set<Node>) returns (ok: bool)
      requires Valid() && buffer != null && length > 0
      requires item.Ok(D) && Sound(D) && item.kind == KArray
      modifies this, heap, buffer
      ensures Appends(ok, Printable(item.value), RenderItems(item.value.items, format, old(depth)))
      decreases item.value, 0
    {
      hide Render, RenderItems, Sound, Node.Ok, Valid, Pending;
      ArrayNode(item, D, format, depth);
      ghost var items, goal := item.value.items, text + RenderItems(item.value.items, format, depth);
      var current := item.child;
      ghost var i := 0;
      assert items[0..] == items;
      ok := true;
      while current != null
        invariant i <= |items| && current == (if i < |items| then item.elems[i] else null)
        invariant ok && Valid() && Moved() && buffer != null && length > 0
        invariant depth == old(depth) && heap.refusals == old(heap.refusals)
        invariant text + RenderItems(items[i..], format, depth) == goal
        invariant forall k | 0 <= k < i :: Printable(items[k])
        invariant item.Ok(D) && Sound(D)
        decreases |items| - i
      {
        ItemsCons(items, i, format, depth);
        ChildAt(item, D, i);
        var end := if current.next == null then [] else if format then [COMMA, SPACE] else [COMMA];
        ok := PrintThen(current, end, false, D);
        if !ok {
          return;
        }
        current := current.next;
        i := i + 1;
      }
      NoItems(items, format, depth);
    }

    /** `print_array`. */
    method PrintArray(item: Node, ghost D: set<Node>) returns (ok: bool)
      requires Valid() && buffer != null && item.Ok(D) && Sound(D) && item.kind == KArray
      modifies this, heap, buffer
      ensures Prints(ok, Printable(item.value), Render(item.value, format, old(depth)))
      decreases item.value, 1
    {
      hide Render, RenderItems, Printable, Sound, Node.Ok, Valid, Pending;
      ArrayNode(item, D, format, depth);
      ok := Write([LBRACKET], 0);
      if !ok {
        return;
      }
      depth := depth + 1;
      ok := PrintItems(item, D);
      if !ok {
        return;
      }
      assert text + [RBRACKET] == old(text) + Render(item.value, format, old(depth));
      ok := PrintWord([RBRACKET]);
      if ok {
        depth := depth - 1;
      }
    }

    /** The indentation, the key and the colon of one member. */
    method PrintKey(x: Node) returns (ok: bool)
      requires Valid() && buffer != null && x.key.Some?
      modifies this, heap, buffer
      ensures Appends(ok, true, Indent(format, old(depth)) + Quoted(x.key.value.Text()) + Colon(format))
    {
      hide Quoted, Escape, Valid, Pending, NulFree, CStr;
      ghost var t := text + Indent(format, depth) + Quoted(x.key.value.Text());
      Joined(text, Indent(format, depth), Quoted(x.key.value.Text()), Colon(format));
      if format {
        ok := Write(Tabs(depth), 0);
        if !ok {
          return;
        }
      }
      assert text + Quoted(x.key.value.Text()) == t;
      ok := PrintString(x.key);
      if !ok {
        return;
      }
      UpdateOffset(t);
      ok := Write(if format then [COLON, TAB] else [COLON], 0);
    }

    /** One round of the loop in `print_object`. */
    method PrintMember(x: Node, ghost D: set<Node>) returns (ok: bool)
      requires Valid() && buffer != null && x.Ok(D) && Sound(D) && x.key.Some?
      modifies this, heap, buffer
      ensures var m := Member(x.key.value.Text(), x.value);
        Appends(ok, Printable(x.value), RenderMember(m, x.next != null, format, old(depth)))
      decreases x.value, 4
    {
      hide Render, Quoted, Sound, Node.Ok, Printable, Valid, Pending, Indent, Colon, NulFree, RenderMember;
      var end := (if x.next != null then [COMMA] else []) + (if format then [NEWLINE] else []);
      MemberParts(text, Member(x.key.value.Text(), x.value), x.next != null, format, depth);
      ok := PrintKey(x);
      if !ok {
        return;
      }
      ok := PrintThen(x, end, true, D);
    }

    /** The loop of `print_object`. */
    method PrintMembers(item: Node, ghost D: set<Node>) returns (ok: bool)
      requires Valid() && buffer != null && length > 0
      requires item.Ok(D) && Sound(D) && item.kind == KObject
      modifies this, heap, buffer
      ensures Appends(ok, Printable(item.value), RenderMembers(item.value.members, format, old(depth)))
      decreases item.value, 0
    {
      hide Render, RenderMember, RenderMembers, Sound, Node.Ok, Valid, Pending, NulFree;
      ObjectNode(item, D, format, depth);
      ghost var members, goal := item.value.members, text + RenderMembers(item.value.members, format, depth);
      var current := item.child;
      ghost var i := 0;
      assert members[0..] == members;
      ok := true;
      while current != null
        invariant i <= |members| && current == (if i < |members| then item.elems[i] else null)
        invariant ok && Valid() && Moved() && buffer != null && length > 0
        invariant depth == old(depth) && heap.refusals == old(heap.refusals)
        invariant text + RenderMembers(members[i..], format, depth) == goal
        invariant forall k | 0 <= k < i :: Printable(members[k].val)
        invariant item.Ok(D) && Sound(D)
        decreases |members| - i
      {
        MembersCons(members, i, format, depth);
        ChildAt(item, D, i);
        assert current.value == members[i].val < members[i];
        ok := PrintMember(current, D);
        if !ok {
          return;
        }
        current := current.next;
        i := i + 1;
      }
      NoMembersLeft(members, format, depth);
    }

    /** `print_object`. */
    method PrintObject(item: Node, ghost D: set<Node>) returns (ok: bool)
      requires Valid() && buffer != null && item.Ok(D) && Sound(D) && item.kind == KObject
      modifies this, heap, buffer
      ensures Prints(ok, Printable(item.value), Render(item.value, format, old(depth)))
      decreases item.value, 1
    {
      hide Render, RenderMembers, Printable, Sound, Node.Ok, Valid, Pending, NulFree;
      hide Open, Close;
      CloseNulFree(format, depth);
      ObjectNode(item, D, format, depth);
      ghost var members := RenderMembers(item.value.members, format, depth + 1);
      Joined(text, Open(format), members, Close(format, depth));
      ok := Write(if format then [LBRACE, NEWLINE] else [LBRACE], 1);
      if !ok {
        return;
      }
      depth := depth + 1;
      ok := PrintMembers(item, D);
      if !ok {
        return;
      }
      ok := PrintWord((if format then Tabs(depth - 1) else []) + [RBRACE]);
      if ok {
        depth := depth - 1;
      }
    }
  }

  lemma Joined(t: seq<byte>, a: seq<byte>, b: seq<byte>, c: seq<byte>)
    ensures t + a + b + c == t + (a + b + c)
  {
  }

  /** The words are C strings. */
  lemma Words()
    ensures NulFree(NULL_TEXT) && NulFree(FALSE_TEXT) && NulFree(TRUE_TEXT)
  {
  }

  function RenderMember(m: Member, more: bool, fmt: bool, d: nat): seq<byte> {
    Indent(fmt, d) + Quoted(m.key) + Colon(fmt) + Render(m.val, fmt, d) + MemberEnd(more, fmt)
  }

  lemma MemberParts(t: seq<byte>, m: Member, more: bool, fmt: bool, d: nat)
    ensures var head, tail := Indent(fmt, d) + Quoted(m.key) + Colon(fmt), Render(m.val, fmt, d) + MemberEnd(more, fmt);
      RenderMember(m, more, fmt, d) == head + tail && t + head + tail == t + (head + tail)
  {
    hide Render, Quoted, Indent, Colon, MemberEnd;
  }

  lemma CloseNulFree(fmt: bool, d: nat)
    ensures NulFree(Close(fmt, d)) && Close(fmt, d) == (if fmt then Tabs(d) else []) + [RBRACE]
    ensures Open(fmt) == if fmt then [LBRACE, NEWLINE] else [LBRACE]
  {
  }

  lemma ObjectNode(item: Node, D: set<Node>, fmt: bool, d: nat)
    requires item.Ok(D) && item.kind == KObject
    ensures item.value.Obj? && item.child == First(item.elems) && |item.elems| == |item.value.members|
    ensures Render(item.value, fmt, d) == Open(fmt) + RenderMembers(item.value.members, fmt, d + 1) + Close(fmt, d)
  {
    hide RenderMembers;
  }

  /** The members from the `i`th on, as that member and the rest. */
  lemma MembersCons(members: seq<Member>, i: nat, fmt: bool, d: nat)
    requires i < |members|
    ensures RenderMembers(members[i..], fmt, d)
         == RenderMember(members[i], i + 1 < |members|, fmt, d) + RenderMembers(members[i + 1..], fmt, d)
  {
    hide Render, Quoted;
    assert members[i..][1..] == members[i + 1..];
  }

  lemma NoMembersLeft(members: seq<Member>, fmt: bool, d: nat)
    ensures RenderMembers(members[|members|..], fmt, d) == []
  {
  }

  lemma {:induction false} EscapeSplit(s: seq<byte>, i: nat)
    requires i <= |s|
    ensures Escape(s) == Escape(s[..i]) + Escape(s[i..])
  {
    if i > 0 {
      EscapeSplit(s[1..], i - 1);
      assert s[..i][1..] == s[1..][..i - 1];
      assert s[i..] == s[1..][i - 1..];
    } else {
      assert s[0..] == s;
    }
  }

  lemma ArrayNode(item: Node, D: set<Node>, fmt: bool, d: nat)
    requires item.Ok(D) && item.kind == KArray
    ensures item.value.Arr? && item.child == First(item.elems) && |item.elems| == |item.value.items|
    ensures Render(item.value, fmt, d) == [LBRACKET] + RenderItems(item.value.items, fmt, d + 1) + [RBRACKET]
  {
    hide RenderItems;
  }

  /** The items from the `i`th on, as that item and the rest. */
  lemma ItemsCons(items: seq<Value>, i: nat, fmt: bool, d: nat)
    requires i < |items|
    ensures RenderItems(items[i..], fmt, d)
         == (Render(items[i], fmt, d) + Separator(i + 1 < |items|, fmt)) + RenderItems(items[i + 1..], fmt, d)
  {
    assert items[i..][1..] == items[i + 1..];
  }

  lemma NoItems(items: seq<Value>, fmt: bool, d: nat)
    ensures RenderItems(items[|items|..], fmt, d) == []
  {
  }

  lemma EscapeNothing(s: seq<byte>)
    ensures s[..0] == [] && Escape(s[..0]) == []
  {
  }

  /** What one more byte adds to the escaped text. */
  lemma EscapeNext(s: seq<byte>, i: nat)
    requires i < |s|
    ensures s[..i + 1] == s[..i] + [s[i]] && Escape(s[..i + 1]) == Escape(s[..i]) + EscapeByte(s[i])
    ensures var c := s[i];
      if c == QUOTE || c == BACKSLASH || c == BACKSPACE || c == FORMFEED || c == NEWLINE || c == RETURN || c == TAB then
        |EscapeByte(c)| == 2
      else if c < 32 then |EscapeByte(c)| == 6
      else EscapeByte(c) == [c]
  {
    hide Escape;
    assert s[..i + 1] == s[..i] + [s[i]];
    EscapeAppend(s[..i], s[i]);
  }

  lemma EscapeAppend(s: seq<byte>, c: byte)
    ensures Escape(s + [c]) == Escape(s) + EscapeByte(c)
  {
    EscapeSplit(s + [c], |s|);
    assert (s + [c])[..|s|] == s;
    assert (s + [c])[|s|..] == [c];
    assert [c][1..] == [];
  }

  // ---------- entry points ----------

  /**
   * `cJSON_PrintPreallocated`: it succeeds exactly when the buffer has two bytes more than the text,
   * and then holds the text and a terminator.
   */
  method PrintPreallocated(item: Node, buf: array?<byte>, len: int, fmt: bool, heap: Heap, ghost D: set<Node>)
    returns (ok: bool)
    requires heap.Valid() && item.Ok(D) && Sound(D)
    requires len <= INT_MAX && (buf != null && len >= 0 ==> buf.Length == len)
    modifies heap, buf
    ensures ok <==> buf != null && Printable(item.value) && |Render(item.value, fmt, 0)| + 2 <= len
    ensures ok ==> buf[..|Render(item.value, fmt, 0)| + 1] == Render(item.value, fmt, 0) + [NUL]
    ensures heap.refusals == old(heap.refusals) && heap.live == old(heap.live)
  {
    hide Render;
    if len < 0 || buf == null {
      return false;
    }
    var p := new PrintBuffer(buf, heap, true, fmt, 0);
    ok := p.PrintValue(item, D);
    if ok {
      PendingOutput(p, Render(item.value, fmt, 0));
    }
  }

  lemma PendingOutput(p: PrintBuffer, t: seq<byte>)
    requires p.Pending([] + t)
    ensures p.buffer != null && |t| + 1 <= p.buffer.Length && p.buffer[..|t| + 1] == t + [NUL]
  {
    assert [] + t == t;
  }

  lemma PendingBlock(p: PrintBuffer, t: seq<byte>)
    requires p.Pending([] + t) && !p.noalloc
    ensures p.heap.Valid() && p.heap.live == p.others + {p.block} && p.block !in p.others
  {
  }

  /**
   * `cJSON_PrintBuffered`: with enough memory the first size of the buffer does not matter; it
   * succeeds exactly when the text and two bytes are at most INT_MAX.  A failed call leaves no block behind.  The
   * one size that does matter is zero without `realloc`: the first copy then reads a byte past the
   * empty block.
   */
  method PrintBuffered(item: Node, prebuffer: int, fmt: bool, heap: Heap, ghost D: set<Node>)
    returns (out: array?<byte>, block: nat, overread: bool)
    requires heap.Valid() && item.Ok(D) && Sound(D) && prebuffer <= INT_MAX
    modifies heap
    ensures heap.Valid() && heap.refusals >= old(heap.refusals)
    ensures out != null <==>
      && prebuffer >= 0 && Printable(item.value) && |Render(item.value, fmt, 0)| + 2 <= INT_MAX
      && heap.refusals == old(heap.refusals)
    ensures out != null ==> fresh(out) && |Render(item.value, fmt, 0)| + 1 <= out.Length
    ensures out != null ==> out[..|Render(item.value, fmt, 0)| + 1] == Render(item.value, fmt, 0) + [NUL]
    ensures out != null ==> block !in old(heap.live) && heap.live == old(heap.live) + {block}
    ensures out == null ==> heap.live == old(heap.live)
    ensures overread ==> prebuffer == 0 && !heap.reallocates
    ensures out != null ==> (overread <==> prebuffer == 0 && !heap.reallocates)
  {
    hide Render, Printable, Sound, Node.Ok, PrintBuffer.Pending;
    out, block, overread := null, 0, false;
    if prebuffer < 0 {
      return;
    }
    var first := heap.Allocate();
    if first == None {
      return;
    }
    var buf := new byte[prebuffer];
    var p := new PrintBuffer(buf, heap, false, fmt, first.value);
    assert p.others == old(heap.live);
    var ok := p.PrintValue(item, D);
    overread := p.overread;
    if !ok {
      if p.buffer != null {
        heap.Free(p.block);
      }
      return;
    }
    PendingOutput(p, Render(item.value, fmt, 0));
    PendingBlock(p, Render(item.value, fmt, 0));
    out, block := p.buffer, p.block;
  }

  /**
   * `print`, behind `cJSON_Print` and `cJSON_PrintUnformatted`: a block of exactly the text and its
   * terminator, or nothing and no block left behind.
   */
  method Print(item: Node, fmt: bool, heap: Heap, ghost D: set<Node>) returns (printed: array?<byte>, block: nat)
    requires heap.Valid() && item.Ok(D) && Sound(D)
    modifies heap
    ensures heap.Valid() && heap.refusals >= old(heap.refusals)
    ensures printed != null <==>
      Printable(item.value) && |Render(item.value, fmt, 0)| + 2 <= INT_MAX && heap.refusals == old(heap.refusals)
    ensures printed != null ==> fresh(printed) && printed[..] == Render(item.value, fmt, 0) + [NUL]
    ensures printed != null ==> block !in old(heap.live) && heap.live == old(heap.live) + {block}
    ensures printed == null ==> heap.live == old(heap.live)
  {
    hide Render, Printable, Sound, Node.Ok, PrintBuffer.Pending;
    printed, block := null, 0;
    var first := heap.Allocate();
    if first == None {
      return;
    }
    var buf := new byte[256];
    var p := new PrintBuffer(buf, heap, false, fmt, first.value);
    assert p.others == old(heap.live);
    var ok := p.PrintValue(item, D);
    if !ok {
      if p.buffer != null {
        heap.Free(p.block);
      }
      return;
    }
    PendingBlock(p, Render(item.value, fmt, 0));
    p.UpdateOffset([] + Render(item.value, fmt, 0));
    printed, block := Shrink(p);
    assert p.text == Render(item.value, fmt, 0);
  }

  function Min(a: nat, b: nat): nat { if a < b then a else b }

  /** The end of `print`: move the text into a block of its size. */
  method Shrink(p: PrintBuffer) returns (printed: array?<byte>, block: nat)
    requires p.Valid() && p.buffer != null && !p.noalloc && p.length > 0
    requires p.buffer[p.offset] == NUL
    modifies p.heap
    ensures p.heap.Valid() && p.heap.refusals >= old(p.heap.refusals)
    ensures printed != null <==> p.heap.refusals == old(p.heap.refusals)
    ensures printed != null ==> fresh(printed) && printed[..] == p.text + [NUL]
    ensures printed != null ==> block !in p.others && p.heap.live == p.others + {block}
    ensures printed == null ==> p.heap.live == p.others
  {
    printed, block := null, 0;
    var moved;
    if p.heap.reallocates {
      moved := p.heap.Reallocate(p.block);
    } else {
      moved := p.heap.Allocate();
    }
    if moved == None {
      p.heap.Free(p.block);
      return;
    }
    var out := new byte[p.offset + 1];
    PrintBuffer.Copy(p.buffer, out, Min(p.length, p.offset + 1));
    if !p.heap.reallocates {
      out[p.offset] := NUL;
      p.heap.Free(p.block);
    }
    assert out[..] == p.buffer[..p.offset] + [NUL];
    printed, block := out, moved.value;
  }
}
