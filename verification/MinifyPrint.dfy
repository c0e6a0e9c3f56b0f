/** Minifying a formatted print: when it gives the unformatted print, and what happens when it does not. */
module MinifiedPrint {
  import opened Bytes
  import opened Json
  import opened Numbers
  import opened ParseSpec
  import opened RoundTrip
  import opened Minification

  predicate EndsInBackslash(s: seq<byte>) {
    s != [] && s[|s| - 1] == BACKSLASH
  }

  /**
   * No key ends in a backslash, and a string does so only where nothing but closing brackets follows it
   * in the text (`last`): behind such a string `minify_string` does not see the closing quote.
   */
  predicate Safe(v: Value, last: bool) {
    match v
    case Str(s) => last || !EndsInBackslash(s)
    case Arr(items) => forall i | 0 <= i < |items| :: Safe(items[i], last && i == |items| - 1)
    case Obj(members) =>
      forall i | 0 <= i < |members| :: !EndsInBackslash(members[i].key) && Safe(members[i].val, false)
    case _ => true
  }

  // ---------- single bytes ----------

  lemma Blank(c: byte, t: seq<byte>)
    requires White(c)
    ensures Minified([c] + t) == Minified(t)
  {
    assert ([c] + t)[1..] == t;
  }

  lemma Kept(c: byte, t: seq<byte>)
    requires !White(c) && c != SLASH && c != QUOTE
    ensures Minified([c] + t) == [c] + Minified(t)
  {
    assert ([c] + t)[1..] == t;
  }

  lemma {:induction false} TabsVanish(d: nat, t: seq<byte>)
    ensures Minified(Tabs(d) + t) == Minified(t)
  {
    if d == 0 {
      assert Tabs(d) + t == t;
    } else {
      TabsVanish(d - 1, t);
      assert Tabs(d) + t == [TAB] + (Tabs(d - 1) + t);
      Blank(TAB, Tabs(d - 1) + t);
    }
  }

  predicate Simple(w: seq<byte>) {
    forall i | 0 <= i < |w| :: !White(w[i]) && w[i] != SLASH && w[i] != QUOTE
  }

  lemma {:induction false} SimpleKept(w: seq<byte>, t: seq<byte>)
    requires Simple(w)
    ensures Minified(w + t) == w + Minified(t)
  {
    if w == [] {
      assert w + t == t;
    } else {
      SimpleKept(w[1..], t);
      assert w + t == [w[0]] + (w[1..] + t);
      Kept(w[0], w[1..] + t);
    }
  }

  lemma SimpleWord(v: Value, fmt: bool, d: nat)
    requires v.Null? || v.True? || v.False? || v.Num?
    ensures Simple(Render(v, fmt, d))
  {
    hide NumberText;
    if v.Num? {
      PrintedBytes(v.number);
    }
  }

  // ---------- strings ----------

  lemma RestAfterEscape(c: byte, t: seq<byte>)
    requires c == BACKSLASH ==> t == [] || t[0] != QUOTE
    ensures StringRest(EscapeByte(c) + t) == |EscapeByte(c)| + StringRest(t)
  {
    hide StringRest;
    var e := EscapeByte(c);
    if |e| == 2 {
      RestAfterTwo(e[1], t);
    } else if |e| == 6 {
      RestAfterBackslash(e[1..], t);
      assert e == [BACKSLASH] + e[1..];
    } else {
      RestOfPlain(e, t);
    }
  }

  lemma RestAfterTwo(x: byte, t: seq<byte>)
    requires x == BACKSLASH ==> t == [] || t[0] != QUOTE
    ensures StringRest([BACKSLASH, x] + t) == 2 + StringRest(t)
  {
    var s := [BACKSLASH, x] + t;
    assert s[2..] == t;
    if x != QUOTE {
      var u := [x] + t;
      assert s[1..] == u && u[1..] == t;
      assert StringRest(u) == 1 + StringRest(t);
    }
  }

  lemma RestAfterBackslash(w: seq<byte>, t: seq<byte>)
    requires w != [] && forall i | 0 <= i < |w| :: w[i] != QUOTE && w[i] != BACKSLASH
    ensures StringRest([BACKSLASH] + w + t) == 1 + |w| + StringRest(t)
  {
    var s := [BACKSLASH] + w + t;
    assert s[1..] == w + t && s[1] == w[0];
    RestOfPlain(w, t);
  }

  lemma {:induction false} RestOfPlain(w: seq<byte>, t: seq<byte>)
    requires forall i | 0 <= i < |w| :: w[i] != QUOTE && w[i] != BACKSLASH
    ensures StringRest(w + t) == |w| + StringRest(t)
  {
    if w == [] {
      assert w + t == t;
    } else {
      RestOfPlain(w[1..], t);
      assert (w + t)[1..] == w[1..] + t;
    }
  }

  /** Where `minify_string` stops: at the closing quote, or beyond it behind a backslash. */
  lemma {:induction false} RestOfEscape(s: seq<byte>, t: seq<byte>)
    ensures StringRest(Escape(s) + [QUOTE] + t) == |Escape(s)| + 1 + (if EndsInBackslash(s) then StringRest(t) else 0)
  {
    if s == [] {
      assert Escape(s) + [QUOTE] + t == [QUOTE] + t;
    } else {
      var c, rest := s[0], s[1..];
      var u := Escape(rest) + [QUOTE] + t;
      assert Escape(s) + [QUOTE] + t == EscapeByte(c) + u;
      if c == BACKSLASH && rest == [] {
        assert u == [QUOTE] + t;
        var w := EscapeByte(c) + u;
        assert w[1..] == [BACKSLASH, QUOTE] + t;
        assert w[1..][2..] == t;
        assert Escape([]) == [];
      } else {
        assert rest != [] ==> rest[|rest| - 1] == s[|s| - 1];
        EscapeStart(rest, t);
        RestAfterEscape(c, u);
        RestOfEscape(rest, t);
      }
    }
  }

  lemma EscapeStart(s: seq<byte>, t: seq<byte>)
    ensures s != [] ==> (Escape(s) + [QUOTE] + t)[0] != QUOTE
  {
  }

  /** A string is kept with whatever is taken for a part of it. */
  lemma MinifiedString(s: seq<byte>, t: seq<byte>)
    ensures !EndsInBackslash(s) ==> Minified(Quoted(s) + t) == Quoted(s) + Minified(t)
    ensures EndsInBackslash(s) ==>
      Minified(Quoted(s) + t) == Quoted(s) + t[..StringRest(t)] + Minified(t[StringRest(t)..])
  {
    hide StringRest, Escape, EndsInBackslash, Minified;
    RestOfEscape(s, t);
    var w := Quoted(s) + t;
    assert w[1..] == Escape(s) + [QUOTE] + t;
    var n := 1 + StringRest(w[1..]);
    MinifiedQuote(w);
    if EndsInBackslash(s) {
      assert w[..n] == Quoted(s) + t[..StringRest(t)];
      assert w[n..] == t[StringRest(t)..];
    } else {
      assert w[..n] == Quoted(s) && w[n..] == t;
    }
  }

  lemma {:induction false} RestReaches(t: seq<byte>, k: nat)
    requires k <= |t| && forall j | 0 <= j < k :: t[j] != QUOTE
    ensures StringRest(t) >= k
  {
    if k > 0 {
      RestReaches(t[1..], k - 1);
      if t[0] == BACKSLASH && |t| > 1 && t[1] == QUOTE {
        assert k == 1;
      }
    }
  }

  // ---------- where the two texts part ----------

  /** The two texts differ at `k`, and the first has no quote up to there. */
  ghost predicate Parted(f: seq<byte>, u: seq<byte>, k: nat) {
    k < |f| && k < |u| && f[k] != u[k] && forall j | 0 <= j <= k :: f[j] != QUOTE
  }

  lemma PartedLater(w: seq<byte>, f: seq<byte>, u: seq<byte>, k: nat)
    requires Parted(f, u, k) && forall j | 0 <= j < |w| :: w[j] != QUOTE
    ensures Parted(w + f, w + u, |w| + k)
  {
    assert forall j | 0 <= j <= |w| + k :: (w + f)[j] == if j < |w| then w[j] else f[j - |w|];
  }

  lemma StringDiverges(s: seq<byte>, f: seq<byte>, u: seq<byte>, k: nat)
    requires EndsInBackslash(s) && Parted(f, u, k)
    ensures Minified(Quoted(s) + f) != Quoted(s) + u
  {
    hide Quoted, StringRest, Minified;
    MinifiedString(s, f);
    RestReaches(f, k + 1);
    var n := |Quoted(s)|;
    assert Minified(Quoted(s) + f)[n + k] == f[k];
    assert (Quoted(s) + u)[n + k] == u[k];
  }

  ghost predicate Brackets(t: seq<byte>) {
    forall i | 0 <= i < |t| :: t[i] == RBRACKET
  }

  lemma BracketsKept(t: seq<byte>)
    requires Brackets(t)
    ensures Minified(t) == t && StringRest(t) == |t|
  {
    SimpleKept(t, []);
    assert t + [] == t;
    RestReaches(t, |t|);
  }

  // ---------- safe values ----------

  lemma SafeItems(items: seq<Value>, last: bool)
    requires items != []
    ensures Safe(Arr(items), last) <==>
      Safe(items[0], last && items[1..] == []) && (items[1..] == [] || Safe(Arr(items[1..]), last))
  {
    var rest := items[1..];
    if Safe(Arr(items), last) {
      assert Safe(items[0], last && 0 == |items| - 1);
      forall i | 0 <= i < |rest| ensures Safe(rest[i], last && i == |rest| - 1) {
        assert rest[i] == items[i + 1];
      }
    }
    if Safe(items[0], last && rest == []) && (rest == [] || Safe(Arr(rest), last)) {
      forall i | 0 <= i < |items| ensures Safe(items[i], last && i == |items| - 1) {
        if i > 0 { assert items[i] == rest[i - 1]; }
      }
    }
  }

  lemma SafeMembers(members: seq<Member>, last: bool)
    requires members != []
    ensures Safe(Obj(members), last) <==>
      !EndsInBackslash(members[0].key) && Safe(members[0].val, false) && Safe(Obj(members[1..]), last)
  {
    var rest := members[1..];
    if !EndsInBackslash(members[0].key) && Safe(members[0].val, false) && Safe(Obj(rest), last) {
      forall i | 0 <= i < |members| ensures !EndsInBackslash(members[i].key) && Safe(members[i].val, false) {
        if i > 0 { assert members[i] == rest[i - 1]; }
      }
    }
  }

  /** Minifying a safe value turns its formatted text into the unformatted one, whatever follows. */
  lemma {:induction false} Commutes(v: Value, last: bool, d: nat, f: seq<byte>)
    requires Safe(v, last) && (last ==> Brackets(f))
    ensures Minified(Render(v, true, d) + f) == Render(v, false, d) + Minified(f)
    decreases v, 2
  {
    hide Minified, RenderItems, RenderMembers, ArrayBody, ObjectBody, StringRest, Escape, NumberText;
    match v
    case Str(s) =>
      MinifiedString(s, f);
      if EndsInBackslash(s) {
        BracketsKept(f);
        assert f[|f|..] == [] && f[..|f|] == f;
        MinifiedNothing();
      }
    case Arr(items) =>
      ArrayText(items, true, d);
      ArrayText(items, false, d);
      ItemsCommute(items, last, d + 1, f);
      assert Render(v, true, d) + f == [LBRACKET] + (ArrayBody(items, true, d + 1) + f);
      Kept(LBRACKET, ArrayBody(items, true, d + 1) + f);
    case Obj(members) =>
      ObjectText(members, true, d);
      ObjectText(members, false, d);
      BodyCommutes(members, d + 1, f);
      assert Render(v, true, d) + f == [LBRACE] + (ObjectBody(members, true, d + 1) + f);
      Kept(LBRACE, ObjectBody(members, true, d + 1) + f);
    case Invalid =>
      assert [] + f == f;
    case _ =>
      SimpleWord(v, true, d);
      SimpleKept(Render(v, true, d), f);
  }

  lemma MinifiedNothing()
    ensures Minified([]) == []
  {
  }

  lemma {:induction false} ItemsCommute(items: seq<Value>, last: bool, d: nat, f: seq<byte>)
    requires Safe(Arr(items), last) && (last ==> Brackets(f))
    ensures Minified(ArrayBody(items, true, d) + f) == ArrayBody(items, false, d) + Minified(f)
    decreases items, 1
  {
    hide Minified, Render, Safe;
    if items == [] {
      Kept(RBRACKET, f);
      assert ArrayBody([], true, d) == [RBRACKET] && ArrayBody([], false, d) == [RBRACKET];
    } else {
      var x, rest := items[0], items[1..];
      SafeItems(items, last);
      ItemsSplit(items, true, d);
      ItemsSplit(items, false, d);
      var g := ItemsTail(rest, true, d) + f;
      assert ArrayBody(items, true, d) + f == Render(x, true, d) + g;
      if rest == [] { assert ItemsTail(rest, true, d) == [RBRACKET]; }
      Commutes(x, last && rest == [], d, g);
      TailCommutes(rest, last, d, f);
    }
  }

  lemma {:induction false} TailCommutes(rest: seq<Value>, last: bool, d: nat, f: seq<byte>)
    requires (rest == [] || Safe(Arr(rest), last)) && (last ==> Brackets(f))
    ensures Minified(ItemsTail(rest, true, d) + f) == ItemsTail(rest, false, d) + Minified(f)
    decreases rest, 2
  {
    hide Minified, ArrayBody, Safe;
    if rest == [] {
      ItemsTailOfNothing(d);
      Kept(RBRACKET, f);
    } else {
      ItemsCommute(rest, last, d, f);
      var g := ArrayBody(rest, true, d) + f;
      assert ItemsTail(rest, true, d) + f == [COMMA] + ([SPACE] + g);
      Kept(COMMA, [SPACE] + g);
      Blank(SPACE, g);
    }
  }

  lemma ItemsTailOfNothing(d: nat)
    ensures ItemsTail([], true, d) == [RBRACKET] && ItemsTail([], false, d) == [RBRACKET]
  {
  }

  // ---------- members ----------

  /** The members from here on and the closing brace. */
  function Fields(members: seq<Member>, fmt: bool, d: nat): seq<byte>
    requires d > 0
  {
    RenderMembers(members, fmt, d) + Close(fmt, d - 1)
  }

  lemma {:induction false} BodyCommutes(members: seq<Member>, d: nat, f: seq<byte>)
    requires d > 0 && Safe(Obj(members), false)
    ensures Minified(ObjectBody(members, true, d) + f) == ObjectBody(members, false, d) + Minified(f)
    decreases members, 1
  {
    hide Minified, Fields, Safe;
    FieldsCommute(members, d, f);
    BodyOfFields(members, d);
    assert ObjectBody(members, true, d) + f == [NEWLINE] + (Fields(members, true, d) + f);
    Blank(NEWLINE, Fields(members, true, d) + f);
  }

  lemma BodyOfFields(members: seq<Member>, d: nat)
    requires d > 0
    ensures ObjectBody(members, true, d) == [NEWLINE] + Fields(members, true, d)
    ensures ObjectBody(members, false, d) == Fields(members, false, d)
  {
  }

  lemma {:induction false} FieldsCommute(members: seq<Member>, d: nat, f: seq<byte>)
    requires d > 0 && Safe(Obj(members), false)
    ensures Minified(Fields(members, true, d) + f) == Fields(members, false, d) + Minified(f)
    decreases members, 0
  {
    hide Minified, Render, Safe, MemberText, MembersTail, RenderMembers;
    if members == [] {
      NoFields(d);
      assert Fields([], true, d) + f == Tabs(d - 1) + ([RBRACE] + f);
      TabsVanish(d - 1, [RBRACE] + f);
      Kept(RBRACE, f);
    } else {
      var m, rest := members[0], members[1..];
      SafeMembers(members, false);
      MembersSplit(members, true, d);
      MembersSplit(members, false, d);
      var g := MembersTail(rest, true, d) + f;
      assert Fields(members, true, d) + f == Tabs(d) + (MemberText(m, true, d) + g);
      TabsVanish(d, MemberText(m, true, d) + g);
      MemberCommutes(m, d, g);
      EndCommutes(rest, d, f);
      NoIndent(MemberText(m, false, d), MembersTail(rest, false, d), d);
      assert Fields(members, false, d) == MemberText(m, false, d) + MembersTail(rest, false, d);
    }
  }

  lemma NoFields(d: nat)
    requires d > 0
    ensures Fields([], true, d) == Tabs(d - 1) + [RBRACE] && Fields([], false, d) == [RBRACE]
  {
  }

  lemma NoIndent(a: seq<byte>, b: seq<byte>, d: nat)
    ensures Indent(false, d) + (a + b) == a + b
  {
  }

  lemma {:induction false} MemberCommutes(m: Member, d: nat, f: seq<byte>)
    requires !EndsInBackslash(m.key) && Safe(m.val, false)
    ensures Minified(MemberText(m, true, d) + f) == MemberText(m, false, d) + Minified(f)
    decreases m, 0
  {
    hide Minified, Render, Safe, Quoted;
    var g := Render(m.val, true, d) + f;
    assert MemberText(m, true, d) + f == Quoted(m.key) + ([COLON] + ([TAB] + g));
    MinifiedString(m.key, [COLON] + ([TAB] + g));
    Kept(COLON, [TAB] + g);
    Blank(TAB, g);
    Commutes(m.val, false, d, f);
    assert MemberText(m, false, d) == Quoted(m.key) + ([COLON] + Render(m.val, false, d));
  }

  lemma {:induction false} EndCommutes(rest: seq<Member>, d: nat, f: seq<byte>)
    requires d > 0 && Safe(Obj(rest), false)
    ensures Minified(MembersTail(rest, true, d) + f) == MembersTail(rest, false, d) + Minified(f)
    decreases rest, 1
  {
    hide Minified, Safe, Fields;
    FieldsCommute(rest, d, f);
    TailOfFields(rest, d);
    var g := Fields(rest, true, d) + f;
    Blank(NEWLINE, g);
    if rest == [] {
      assert MembersTail(rest, true, d) + f == [NEWLINE] + g;
    } else {
      assert MembersTail(rest, true, d) + f == [COMMA] + ([NEWLINE] + g);
      Kept(COMMA, [NEWLINE] + g);
    }
  }

  lemma TailOfFields(rest: seq<Member>, d: nat)
    requires d > 0
    ensures MembersTail(rest, true, d) == (if rest == [] then [NEWLINE] else [COMMA, NEWLINE]) + Fields(rest, true, d)
    ensures MembersTail(rest, false, d) == (if rest == [] then [] else [COMMA]) + Fields(rest, false, d)
  {
  }

  // ---------- unsafe values ----------

  lemma EmptyIsSafe(last: bool)
    ensures Safe(Arr([]), last) && Safe(Obj([]), last)
  {
  }

  /** What follows a value: only closing brackets, or texts that part before the next quote. */
  ghost predicate Follow(last: bool, f: seq<byte>, u: seq<byte>, k: nat) {
    if last then Brackets(f) && f == u else Parted(f, u, k)
  }

  lemma CancelLeft(a: seq<byte>, b: seq<byte>, c: seq<byte>)
    requires b != c
    ensures a + b != a + c
  {
    assert (a + b)[|a|..] == b && (a + c)[|a|..] == c;
  }

  /** Minifying an unsafe value keeps white space that the unformatted text does not have. */
  lemma {:induction false} Diverges(v: Value, last: bool, d: nat, f: seq<byte>, u: seq<byte>, k: nat)
    requires Printable(v) && !Safe(v, last) && Follow(last, f, u, k)
    ensures Minified(Render(v, true, d) + f) != Render(v, false, d) + u
    decreases v, 2
  {
    hide Minified, RenderItems, RenderMembers, ArrayBody, ObjectBody, Escape, NumberText, StringRest, NulFree, Parted;
    hide EndsInBackslash, Fields;
    match v
    case Str(s) =>
      StringDiverges(s, f, u, k);
    case Arr(items) =>
      ArrayText(items, true, d);
      ArrayText(items, false, d);
      ItemsDiverge(items, last, d + 1, f, u, k);
      assert Render(v, true, d) + f == [LBRACKET] + (ArrayBody(items, true, d + 1) + f);
      assert Render(v, false, d) + u == [LBRACKET] + (ArrayBody(items, false, d + 1) + u);
      Kept(LBRACKET, ArrayBody(items, true, d + 1) + f);
      CancelLeft([LBRACKET], Minified(ArrayBody(items, true, d + 1) + f), ArrayBody(items, false, d + 1) + u);
    case Obj(members) =>
      ObjectText(members, true, d);
      ObjectText(members, false, d);
      BodyOfFields(members, d + 1);
      var g := Fields(members, true, d + 1) + f;
      FieldsDiverge(members, d + 1, f, u);
      assert Render(v, true, d) + f == [LBRACE] + ([NEWLINE] + g);
      assert Render(v, false, d) + u == [LBRACE] + (Fields(members, false, d + 1) + u);
      Kept(LBRACE, [NEWLINE] + g);
      Blank(NEWLINE, g);
      CancelLeft([LBRACE], Minified(g), Fields(members, false, d + 1) + u);
  }

  lemma {:induction false} ItemsDiverge(items: seq<Value>, last: bool, d: nat, f: seq<byte>, u: seq<byte>, k: nat)
    requires Printable(Arr(items)) && !Safe(Arr(items), last) && Follow(last, f, u, k)
    ensures Minified(ArrayBody(items, true, d) + f) != ArrayBody(items, false, d) + u
    decreases items, 1
  {
    hide Minified, Render, Printable, Plain, ArrayBody, ItemsTail, Follow;
    EmptyIsSafe(last);
    var x, rest := items[0], items[1..];
    SafeItems(items, last);
    ItemFacts(items);
    ItemsSplit(items, true, d);
    ItemsSplit(items, false, d);
    var g, w := ItemsTail(rest, true, d) + f, ItemsTail(rest, false, d) + u;
    assert ArrayBody(items, true, d) + f == Render(x, true, d) + g;
    assert ArrayBody(items, false, d) + u == Render(x, false, d) + w;
    if Safe(x, last && rest == []) {
      if last && rest == [] { ItemsTailOfNothing(d); }
      assert rest != [];
      Commutes(x, false, d, g);
      TailDiverges(rest, last, d, f, u, k);
      CancelLeft(Render(x, false, d), Minified(g), w);
    } else if rest == [] {
      var j := FollowBracket(last, f, u, k, d);
      Diverges(x, last, d, g, w, j);
    } else {
      TailParts(rest, d, f, u);
      Diverges(x, false, d, g, w, 1);
    }
  }

  lemma FollowBracket(last: bool, f: seq<byte>, u: seq<byte>, k: nat, d: nat) returns (j: nat)
    requires Follow(last, f, u, k)
    ensures Follow(last, ItemsTail([], true, d) + f, ItemsTail([], false, d) + u, j)
  {
    ItemsTailOfNothing(d);
    if !last { PartedLater([RBRACKET], f, u, k); }
    return k + 1;
  }

  lemma TailParts(rest: seq<Value>, d: nat, f: seq<byte>, u: seq<byte>)
    requires rest != [] && Printable(Arr(rest))
    ensures Parted(ItemsTail(rest, true, d) + f, ItemsTail(rest, false, d) + u, 1)
    ensures Follow(false, ItemsTail(rest, true, d) + f, ItemsTail(rest, false, d) + u, 1)
  {
    hide Render, ArrayBody;
    ItemFacts(rest);
    FirstByte(rest[0], false, d);
    ItemsSplit(rest, false, d);
    assert (ItemsTail(rest, false, d) + u)[1] == Render(rest[0], false, d)[0];
  }

  lemma {:induction false} TailDiverges(rest: seq<Value>, last: bool, d: nat, f: seq<byte>, u: seq<byte>, k: nat)
    requires rest != [] && Printable(Arr(rest)) && !Safe(Arr(rest), last) && Follow(last, f, u, k)
    ensures Minified(ItemsTail(rest, true, d) + f) != ItemsTail(rest, false, d) + u
    decreases rest, 2
  {
    hide Minified, ArrayBody, Safe, Printable, Plain, Follow;
    ItemsDiverge(rest, last, d, f, u, k);
    var g := ArrayBody(rest, true, d) + f;
    assert ItemsTail(rest, true, d) + f == [COMMA] + ([SPACE] + g);
    assert ItemsTail(rest, false, d) + u == [COMMA] + (ArrayBody(rest, false, d) + u);
    Kept(COMMA, [SPACE] + g);
    Blank(SPACE, g);
    CancelLeft([COMMA], Minified(g), ArrayBody(rest, false, d) + u);
  }

  lemma {:induction false} FieldsDiverge(members: seq<Member>, d: nat, f: seq<byte>, u: seq<byte>)
    requires d > 0 && Printable(Obj(members)) && !Safe(Obj(members), false)
    ensures Minified(Fields(members, true, d) + f) != Fields(members, false, d) + u
    decreases members, 0
  {
    hide Minified, Render, Printable, Plain, MemberText, MembersTail, RenderMembers;
    EmptyIsSafe(false);
    var m, rest := members[0], members[1..];
    SafeMembers(members, false);
    MemberFacts(members);
    MembersSplit(members, true, d);
    MembersSplit(members, false, d);
    NoIndent(MemberText(m, false, d), MembersTail(rest, false, d), d);
    var g, w := MembersTail(rest, true, d) + f, MembersTail(rest, false, d) + u;
    assert Fields(members, true, d) + f == Tabs(d) + (MemberText(m, true, d) + g);
    TabsVanish(d, MemberText(m, true, d) + g);
    assert Fields(members, false, d) + u == MemberText(m, false, d) + w;
    if EndsInBackslash(m.key) {
      KeyDiverges(m, d, g, w);
    } else if !Safe(m.val, false) {
      var k := EndParts(rest, d, f, u);
      MemberDiverges(m, d, g, w, k);
    } else {
      MemberCommutes(m, d, g);
      EndDiverges(rest, d, f, u);
      CancelLeft(MemberText(m, false, d), Minified(g), w);
    }
  }

  lemma KeyDiverges(m: Member, d: nat, f: seq<byte>, u: seq<byte>)
    requires Printable(m.val) && EndsInBackslash(m.key)
    ensures Minified(MemberText(m, true, d) + f) != MemberText(m, false, d) + u
  {
    hide Minified, Render, Quoted, Printable, Plain;
    FirstByte(m.val, false, d);
    var g, w := [COLON, TAB] + Render(m.val, true, d) + f, [COLON] + Render(m.val, false, d) + u;
    assert MemberText(m, true, d) + f == Quoted(m.key) + g;
    assert MemberText(m, false, d) + u == Quoted(m.key) + w;
    assert w[1] == Render(m.val, false, d)[0];
    StringDiverges(m.key, g, w, 1);
  }

  lemma {:induction false} MemberDiverges(m: Member, d: nat, f: seq<byte>, u: seq<byte>, k: nat)
    requires Printable(m.val) && !EndsInBackslash(m.key) && !Safe(m.val, false) && Parted(f, u, k)
    ensures Minified(MemberText(m, true, d) + f) != MemberText(m, false, d) + u
    decreases m, 0
  {
    hide Minified, Render, Quoted, Printable, Plain, Safe;
    var g, w := Render(m.val, true, d) + f, Render(m.val, false, d) + u;
    assert MemberText(m, true, d) + f == Quoted(m.key) + ([COLON] + ([TAB] + g));
    assert MemberText(m, false, d) + u == (Quoted(m.key) + [COLON]) + w;
    MinifiedString(m.key, [COLON] + ([TAB] + g));
    Kept(COLON, [TAB] + g);
    Blank(TAB, g);
    Diverges(m.val, false, d, f, u, k);
    CancelLeft(Quoted(m.key) + [COLON], Minified(g), w);
    assert Minified(MemberText(m, true, d) + f) == (Quoted(m.key) + [COLON]) + Minified(g);
  }

  lemma EndParts(rest: seq<Member>, d: nat, f: seq<byte>, u: seq<byte>) returns (k: nat)
    requires d > 0
    ensures Parted(MembersTail(rest, true, d) + f, MembersTail(rest, false, d) + u, k)
  {
    hide Render, Escape, RenderMembers;
    TailOfFields(rest, d);
    if rest == [] {
      NoFields(d);
      k := 0;
    } else {
      hide Quoted;
      MembersSplit(rest, false, d);
      assert Quoted(rest[0].key)[0] == QUOTE by { QuotedStart(rest[0].key); }
      assert Fields(rest, false, d)[0] == QUOTE;
      k := 1;
    }
  }

  lemma QuotedStart(s: seq<byte>)
    ensures |Quoted(s)| > 0 && Quoted(s)[0] == QUOTE
  {
  }

  lemma {:induction false} EndDiverges(rest: seq<Member>, d: nat, f: seq<byte>, u: seq<byte>)
    requires d > 0 && Printable(Obj(rest)) && !Safe(Obj(rest), false)
    ensures Minified(MembersTail(rest, true, d) + f) != MembersTail(rest, false, d) + u
    decreases rest, 1
  {
    hide Minified, Fields, Printable, Plain, Safe, MembersTail;
    EmptyIsSafe(false);
    FieldsDiverge(rest, d, f, u);
    TailOfFields(rest, d);
    var g := Fields(rest, true, d) + f;
    assert MembersTail(rest, true, d) + f == [COMMA] + ([NEWLINE] + g);
    assert MembersTail(rest, false, d) + u == [COMMA] + (Fields(rest, false, d) + u);
    Kept(COMMA, [NEWLINE] + g);
    Blank(NEWLINE, g);
    CancelLeft([COMMA], Minified(g), Fields(rest, false, d) + u);
  }

  // ---------- the theorem ----------

  /**
   * Minifying the formatted print of a value gives its unformatted print if and only if the value is
   * safe: a closing quote behind an escaped backslash is taken for an escaped quote.
   */
  lemma MinifyCommutesWithFormatting(v: Value)
    requires Printable(v)
    ensures Minified(Render(v, true, 0)) == Render(v, false, 0) <==> Safe(v, true)
  {
    hide Minified, Render, Safe, Printable, Plain;
    assert Render(v, true, 0) + [] == Render(v, true, 0);
    assert Render(v, false, 0) + [] == Render(v, false, 0);
    MinifiedNothing();
    if Safe(v, true) {
      Commutes(v, true, 0, []);
    } else {
      Diverges(v, true, 0, [], [], 0);
    }
  }

  /** The minified text of a safe value still parses to the value. */
  lemma MinifyThenParse(v: Value, requireEnd: bool)
    requires Printable(v) && Plain(v) && Safe(v, true) && Depth(v) <= NESTING_LIMIT
    ensures IsText(Minified(Render(v, true, 0)) + [NUL])
    ensures var u := Minified(Render(v, true, 0));
      ParseText(u + [NUL], requireEnd) == Some(Parsed(v, |u|))
  {
    hide Minified, Render, Safe, Printable, Plain, Depth, IsText, ParseText;
    MinifyCommutesWithFormatting(v);
    PrintThenParse(v, false, requireEnd);
  }

  /** The two-element array of a backslash and a string. */
  function Pair(s: seq<byte>): Value { Arr([Str([BACKSLASH]), Str(s)]) }

  lemma PairText(s: seq<byte>)
    requires Escape(s) == s && NulFree(s)
    ensures Render(Pair(s), true, 0) == [LBRACKET] + (Quoted([BACKSLASH]) + PairRest(s))
    ensures Printable(Pair(s)) && Plain(Pair(s)) && Depth(Pair(s)) == 1 && !Safe(Pair(s), true)
  {
    hide Quoted, Escape, RenderItems, NulFree, ItemsDepth;
    var items := [Str([BACKSLASH]), Str(s)];
    PairItems(s);
    QuotedText(s);
    assert NulFree([BACKSLASH]) by { Backslash(); }
    assert CStrings(items[0]) && CStrings(items[1]) && FiniteNumbers(items[0]) && FiniteNumbers(items[1]);
    assert Plain(Arr(items));
    assert !Safe(items[0], true && 0 == |items| - 1);
    assert Quoted([BACKSLASH]) + [COMMA, SPACE] + ([QUOTE] + s + [QUOTE]) + [RBRACKET]
        == Quoted([BACKSLASH]) + PairRest(s);
  }

  lemma PairItems(s: seq<byte>)
    ensures RenderItems([Str([BACKSLASH]), Str(s)], true, 1) == Quoted([BACKSLASH]) + [COMMA, SPACE] + Quoted(s)
    ensures ItemsDepth([Str([BACKSLASH]), Str(s)]) == 0
  {
    hide Quoted;
    var items, rest := [Str([BACKSLASH]), Str(s)], [Str(s)];
    assert items[1..] == rest && rest[1..] == [];
    assert RenderItems(rest, true, 1) == Quoted(s);
    assert ItemsDepth(rest) == 0;
  }

  lemma Backslash()
    ensures NulFree([BACKSLASH])
  {
  }

  lemma QuotedText(s: seq<byte>)
    ensures Quoted(s) == [QUOTE] + Escape(s) + [QUOTE]
  {
  }

  /** Bytes that are printed as they are, other than a slash. */
  predicate Ordinary(s: seq<byte>) {
    forall i | 0 <= i < |s| :: ShortEscape(s[i]) == None && s[i] >= 32 && s[i] != SLASH
  }

  lemma {:induction false} Unescaped(s: seq<byte>)
    requires Ordinary(s)
    ensures Escape(s) == s && NulFree(s)
  {
    if s != [] {
      Unescaped(s[1..]);
    }
  }

  function Unspaced(s: seq<byte>): (r: seq<byte>)
    ensures |r| <= |s| && (|r| == |s| <==> SPACE !in s)
  {
    if s == [] then []
    else
      assert s == [s[0]] + s[1..];
      (if s[0] == SPACE then [] else [s[0]]) + Unspaced(s[1..])
  }

  lemma {:induction false} UnspacedOrdinary(s: seq<byte>)
    requires Ordinary(s)
    ensures Ordinary(Unspaced(s))
  {
    if s != [] {
      UnspacedOrdinary(s[1..]);
    }
  }

  lemma {:induction false} UnspacedSame(s: seq<byte>)
    ensures Unspaced(s) == s <==> SPACE !in s
  {
    if s != [] {
      assert s == [s[0]] + s[1..];
      UnspacedSame(s[1..]);
    }
  }

  /** Outside a string ordinary bytes lose their spaces. */
  lemma {:induction false} OrdinaryMinified(s: seq<byte>, t: seq<byte>)
    requires Ordinary(s)
    ensures Minified(s + t) == Unspaced(s) + Minified(t)
  {
    hide Minified;
    if s == [] {
      assert s + t == t;
    } else {
      var c, rest := s[0], s[1..];
      OrdinaryMinified(rest, t);
      assert s + t == [c] + (rest + t);
      assert Unspaced(s) == (if c == SPACE then [] else [c]) + Unspaced(rest);
      assert ShortEscape(c) == None && c != SLASH;
      hide Unspaced, Ordinary;
      if c == SPACE {
        Blank(SPACE, rest + t);
      } else {
        Kept(c, rest + t);
        assert [c] + (Unspaced(rest) + Minified(t)) == ([c] + Unspaced(rest)) + Minified(t);
      }
    }
  }

  /**
   * Behind a string that ends in a backslash the next string is not taken for one: with any ordinary bytes in it, the
   * minified text parses to the value with their spaces removed.  So it is another value if and only if there are any.
   */
  lemma MinifyDropsSpaces(s: seq<byte>)
    requires Ordinary(s)
    ensures Printable(Pair(s)) && Plain(Pair(s)) && !Safe(Pair(s), true)
    ensures var w := Pair(Unspaced(s));
      && Minified(Render(Pair(s), true, 0)) == Render(w, true, 0)
      && IsText(Render(w, true, 0) + [NUL])
      && ParseText(Render(w, true, 0) + [NUL], true) == Some(Parsed(w, |Render(w, true, 0)|))
    ensures Pair(Unspaced(s)) != Pair(s) <==> SPACE in s
  {
    hide Render, ParseText, IsText, Minified, Printable, Plain, Safe, Depth, Escape, NulFree, Ordinary, Unspaced;
    var r := Unspaced(s);
    UnspacedOrdinary(s);
    UnspacedSame(s);
    Unescaped(s);
    Unescaped(r);
    PairText(s);
    PairText(r);
    PairMinified(s);
    PrintThenParse(Pair(r), true, true);
    assert Pair(s).items[1] == Str(s) && Pair(r).items[1] == Str(r);
  }

  /** The text of a pair: the opening, the first string, and the rest with the second one in it. */
  function PairRest(s: seq<byte>): seq<byte> { [COMMA, SPACE, QUOTE] + (s + [QUOTE, RBRACKET]) }

  lemma PairMinified(s: seq<byte>)
    requires Ordinary(s)
    ensures Minified([LBRACKET] + (Quoted([BACKSLASH]) + PairRest(s)))
         == [LBRACKET] + (Quoted([BACKSLASH]) + PairRest(Unspaced(s)))
  {
    hide Quoted, Minified, StringRest, Ordinary, Unspaced;
    var f, q, r := PairRest(s), Quoted([BACKSLASH]), Unspaced(s) + [QUOTE, RBRACKET];
    Kept(LBRACKET, q + f);
    MinifiedString([BACKSLASH], f);
    LostSpaces(f, s);
    assert q + f[..3] + r == q + ([COMMA, SPACE, QUOTE] + r);
  }

  lemma LostSpaces(f: seq<byte>, s: seq<byte>)
    requires Ordinary(s) && f == [COMMA, SPACE, QUOTE] + (s + [QUOTE, RBRACKET])
    ensures StringRest(f) == 3 && f[..3] == [COMMA, SPACE, QUOTE]
    ensures Minified(f[3..]) == Unspaced(s) + [QUOTE, RBRACKET]
  {
    hide Minified, StringRest;
    assert f == [COMMA, SPACE] + [QUOTE] + (s + [QUOTE, RBRACKET]);
    QuoteCloses([COMMA, SPACE], s + [QUOTE, RBRACKET]);
    StringToTheEnd();
    assert f[3..] == s + [QUOTE, RBRACKET];
    OrdinaryMinified(s, [QUOTE, RBRACKET]);
  }

  lemma QuoteCloses(w: seq<byte>, t: seq<byte>)
    requires forall i | 0 <= i < |w| :: w[i] != QUOTE && w[i] != BACKSLASH
    ensures StringRest(w + [QUOTE] + t) == |w| + 1
  {
    RestOfPlain(w, [QUOTE] + t);
    assert w + [QUOTE] + t == w + ([QUOTE] + t);
  }

  lemma StringToTheEnd()
    ensures Minified([QUOTE, RBRACKET]) == [QUOTE, RBRACKET]
  {
    BracketsKept([RBRACKET]);
    assert [QUOTE, RBRACKET][1..] == [RBRACKET];
  }
}
