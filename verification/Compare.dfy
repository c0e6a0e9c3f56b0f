/** `cJSON_Compare` decides equality of denotations: arrays are sequences, objects are finite maps. */
module Comparison {
  import opened Bytes
  import opened Doubles
  import opened Json
  import opened Allocation
  import opened Tree
  import Duplication

  datatype Denotation =
    | DInvalid
    | DNull
    | DFalse
    | DTrue
    | DNum(number: double)
    | DStr(text: seq<byte>)
    | DArr(items: seq<Denotation>)
    | DObj(fields: map<seq<byte>, Denotation>)

  function ToLower(c: byte): byte {
    if UPPER_A <= c <= 90 then c + 32 else c
  }

  function Fold(s: seq<byte>, caseSensitive: bool): (r: seq<byte>)
    ensures |r| == |s|
  {
    if caseSensitive then s else seq(|s|, i requires 0 <= i < |s| => ToLower(s[i]))
  }

  function Denote(v: Value, cs: bool): Denotation
    decreases v, 1
  {
    match v
    case Invalid => DInvalid
    case Null => DNull
    case False => DFalse
    case True => DTrue
    case Num(x) => DNum(Unsigned(x))
    case Str(s) => DStr(s)
    case Arr(items) => DArr(seq(|items|, i requires 0 <= i < |items| => Denote(items[i], cs)))
    case Obj(members) => DObj(Fields(members, cs))
  }

  /** Of two members with the same key the first one counts, as in `get_object_item`. */
  function Fields(members: seq<Member>, cs: bool): map<seq<byte>, Denotation>
    decreases members, 0
  {
    if members == [] then map[]
    else
      assert members[0].val < members[0];
      Fields(members[1..], cs)[Fold(members[0].key, cs) := Denote(members[0].val, cs)]
  }

  /** Members that share a key denote the same; so it is where every key occurs once. */
  ghost predicate Consistent(members: seq<Member>, cs: bool) {
    forall i, j | 0 <= i < j < |members| && Fold(members[i].key, cs) == Fold(members[j].key, cs) ::
      Denote(members[i].val, cs) == Denote(members[j].val, cs)
  }

  /** No part is invalid, every number is one, and within each object repeated keys agree. */
  ghost predicate Clean(v: Value, cs: bool) {
    match v
    case Invalid => false
    case Num(x) => x != NotANumber
    case Arr(items) => forall i | 0 <= i < |items| :: Clean(items[i], cs)
    case Obj(members) => Consistent(members, cs) && forall i | 0 <= i < |members| :: Clean(members[i].val, cs)
    case _ => true
  }

  /** The first member with the key `k` is the one at index `i`. */
  ghost predicate IsFirst(members: seq<Member>, k: seq<byte>, cs: bool, i: nat) {
    && i < |members| && Fold(members[i].key, cs) == k
    && forall j | 0 <= j < i :: Fold(members[j].key, cs) != k
  }

  lemma {:induction false} FieldOfFirst(members: seq<Member>, k: seq<byte>, cs: bool, i: nat)
    requires IsFirst(members, k, cs, i)
    ensures k in Fields(members, cs) && Fields(members, cs)[k] == Denote(members[i].val, cs)
  {
    if i > 0 {
      assert Fold(members[0].key, cs) != k;
      assert forall j | 0 <= j < i - 1 :: members[1..][j] == members[j + 1];
      FieldOfFirst(members[1..], k, cs, i - 1);
    }
  }

  lemma {:induction false} FirstOfField(members: seq<Member>, k: seq<byte>, cs: bool) returns (i: nat)
    requires k in Fields(members, cs)
    ensures IsFirst(members, k, cs, i)
  {
    if Fold(members[0].key, cs) == k {
      return 0;
    }
    var j := FirstOfField(members[1..], k, cs);
    assert forall m | 0 < m < |members| :: members[1..][m - 1] == members[m];
    return j + 1;
  }

  lemma {:induction false} KeyIsField(members: seq<Member>, cs: bool, i: nat)
    requires i < |members|
    ensures Fold(members[i].key, cs) in Fields(members, cs)
  {
    if i > 0 {
      KeyIsField(members[1..], cs, i - 1);
    }
  }

  /** With consistent members the map gives each member its denotation. */
  lemma FieldOfMember(members: seq<Member>, cs: bool, i: nat)
    requires i < |members| && Consistent(members, cs)
    ensures Fold(members[i].key, cs) in Fields(members, cs)
    ensures Fields(members, cs)[Fold(members[i].key, cs)] == Denote(members[i].val, cs)
  {
    hide Fields, Denote, Fold;
    KeyIsField(members, cs, i);
    var k := Fold(members[i].key, cs);
    var j := FirstOfField(members, k, cs);
    FieldOfFirst(members, k, cs, j);
    assert j <= i;
  }

  /** Every member of `a` has in `b` a first member with its key, and that one denotes the same. */
  ghost predicate Covers(a: seq<Member>, b: seq<Member>, cs: bool) {
    forall i | 0 <= i < |a| :: Covered(a[i], b, cs)
  }

  ghost predicate Covered(m: Member, b: seq<Member>, cs: bool) {
    Fold(m.key, cs) in Fields(b, cs) && Fields(b, cs)[Fold(m.key, cs)] == Denote(m.val, cs)
  }

  /** Covering in both directions, which the two loops check, is equality of the maps and consistency. */
  lemma CoversBothWays(a: seq<Member>, b: seq<Member>, cs: bool)
    ensures Covers(a, b, cs) && Covers(b, a, cs) <==>
      Fields(a, cs) == Fields(b, cs) && Consistent(a, cs) && Consistent(b, cs)
  {
    hide Fields, Denote, Fold;
    if Covers(a, b, cs) && Covers(b, a, cs) {
      FieldsWithin(a, b, cs);
      FieldsWithin(b, a, cs);
      assert Consistent(a, cs) by { CoveredIsConsistent(a, b, cs); }
      assert Consistent(b, cs) by { CoveredIsConsistent(b, a, cs); }
      assert Fields(a, cs) == Fields(b, cs);
    }
    if Fields(a, cs) == Fields(b, cs) && Consistent(a, cs) && Consistent(b, cs) {
      forall i | 0 <= i < |a| ensures Covered(a[i], b, cs) { FieldOfMember(a, cs, i); }
      forall i | 0 <= i < |b| ensures Covered(b[i], a, cs) { FieldOfMember(b, cs, i); }
    }
  }

  lemma FieldsWithin(a: seq<Member>, b: seq<Member>, cs: bool)
    requires Covers(a, b, cs)
    ensures forall k | k in Fields(a, cs) :: k in Fields(b, cs) && Fields(a, cs)[k] == Fields(b, cs)[k]
  {
    hide Fields, Denote, Fold;
    forall k | k in Fields(a, cs) ensures k in Fields(b, cs) && Fields(a, cs)[k] == Fields(b, cs)[k] {
      var i := FirstOfField(a, k, cs);
      FieldOfFirst(a, k, cs, i);
      assert Covered(a[i], b, cs);
    }
  }

  lemma CoveredIsConsistent(a: seq<Member>, b: seq<Member>, cs: bool)
    requires Covers(a, b, cs)
    ensures Consistent(a, cs)
  {
    hide Fields, Denote, Fold;
    forall i, j | 0 <= i < j < |a| && Fold(a[i].key, cs) == Fold(a[j].key, cs)
      ensures Denote(a[i].val, cs) == Denote(a[j].val, cs)
    {
      assert Covered(a[i], b, cs) && Covered(a[j], b, cs);
    }
  }

  lemma SubsetCovered(a: seq<Member>, b: seq<Member>, cs: bool)
    requires Consistent(b, cs) && multiset(a) <= multiset(b)
    ensures Covers(a, b, cs)
  {
    hide Fields, Denote, Fold, Consistent;
    forall i | 0 <= i < |a| ensures Covered(a[i], b, cs) {
      assert a[i] in multiset(a);
      assert a[i] in multiset(b);
      var j :| 0 <= j < |b| && b[j] == a[i];
      FieldOfMember(b, cs, j);
    }
  }

  /** The order of the members of an object does not matter. */
  lemma OrderBlind(a: seq<Member>, b: seq<Member>, cs: bool)
    requires Consistent(a, cs) && multiset(a) == multiset(b)
    ensures Denote(Obj(a), cs) == Denote(Obj(b), cs) && Consistent(b, cs)
  {
    hide Fields, Denote, Fold;
    SubsetCovered(b, a, cs);
    CoveredIsConsistent(b, a, cs);
    SubsetCovered(a, b, cs);
    CoversBothWays(a, b, cs);
    ObjectsDenote(a, b, cs);
  }

  lemma ObjectsDenote(a: seq<Member>, b: seq<Member>, cs: bool)
    ensures Denote(Obj(a), cs) == Denote(Obj(b), cs) <==> Fields(a, cs) == Fields(b, cs)
  {
    assert Denote(Obj(a), cs) == DObj(Fields(a, cs));
    assert Denote(Obj(b), cs) == DObj(Fields(b, cs));
  }

  // ---------- what equality means, member by member ----------

  /** Equal, or the same letter of the alphabet in two cases. */
  predicate SameLetter(a: byte, b: byte) {
    || a == b
    || ('A' as int <= a <= 'Z' as int && b == a + 32)
    || ('A' as int <= b <= 'Z' as int && a == b + 32)
  }

  predicate SameName(a: seq<byte>, b: seq<byte>, cs: bool) {
    if cs then a == b else |a| == |b| && forall k | 0 <= k < |a| :: SameLetter(a[k], b[k])
  }

  predicate SameNumber(x: double, y: double) {
    (x == y && x != NotANumber) || (x.Finite? && y.Finite? && x.significand == 0 && y.significand == 0)
  }

  /**
   * Two values that compare equal: of one kind, with the same contents.  For objects each name occurs in both, and
   * wherever it does the values are alike.  Nothing invalid is alike, and no NaN.
   */
  ghost predicate Alike(v: Value, w: Value, cs: bool)
    decreases v
  {
    match v
    case Invalid => false
    case Null => w == Null
    case False => w == False
    case True => w == True
    case Num(x) => w.Num? && SameNumber(x, w.number)
    case Str(s) => w == Str(s)
    case Arr(items) => w.Arr? && |items| == |w.items| && forall i | 0 <= i < |items| :: Alike(items[i], w.items[i], cs)
    case Obj(members) =>
      && w.Obj? && NamesWithin(members, w.members, cs) && NamesWithin(w.members, members, cs)
      && forall i, j | 0 <= i < |members| && 0 <= j < |w.members| ::
           SameName(members[i].key, w.members[j].key, cs) ==> Alike(members[i].val, w.members[j].val, cs)
  }

  ghost predicate NamesWithin(a: seq<Member>, b: seq<Member>, cs: bool) {
    forall i | 0 <= i < |a| :: NameIn(a[i], b, cs)
  }

  ghost predicate NameIn(m: Member, b: seq<Member>, cs: bool) {
    exists j | 0 <= j < |b| :: SameName(m.key, b[j].key, cs)
  }

  lemma FoldMeans(a: seq<byte>, b: seq<byte>, cs: bool)
    ensures Fold(a, cs) == Fold(b, cs) <==> SameName(a, b, cs)
  {
    if !cs && Fold(a, cs) == Fold(b, cs) {
      forall k | 0 <= k < |a| ensures SameLetter(a[k], b[k]) {
        assert Fold(a, cs)[k] == Fold(b, cs)[k];
      }
    }
  }

  lemma SameNumberMeans(x: double, y: double)
    ensures SameNumber(x, y) <==> Equal(x, y)
    ensures SameNumber(x, y) <==> x != NotANumber && y != NotANumber && Unsigned(x) == Unsigned(y)
  {
  }

  /** Clean on both sides and of one denotation, which is what the comparison decides. */
  ghost predicate SameDenotation(v: Value, w: Value, cs: bool) {
    Clean(v, cs) && Clean(w, cs) && Denote(v, cs) == Denote(w, cs)
  }

  /** In these terms: the comparison decides whether two values are alike. */
  lemma {:induction false} AlikeExactly(v: Value, w: Value, cs: bool)
    ensures Alike(v, w, cs) <==> SameDenotation(v, w, cs)
    decreases v
  {
    hide Fields, Fold, Consistent, SameName, NamesWithin;
    match v
    case Num(x) => if w.Num? { SameNumberMeans(x, w.number); }
    case Arr(items) =>
      if w.Arr? && |w.items| == |items| {
        forall i | 0 <= i < |items|
          ensures Alike(items[i], w.items[i], cs) <==> SameDenotation(items[i], w.items[i], cs)
        {
          AlikeExactly(items[i], w.items[i], cs);
        }
        ItemsDenote(items, w.items, cs);
      } else if w.Arr? {
        assert |Denote(v, cs).items| == |items| && |Denote(w, cs).items| == |w.items|;
      }
    case Obj(members) =>
      if w.Obj? {
        forall i, j | 0 <= i < |members| && 0 <= j < |w.members| ensures DecidedAt(members, w.members, i, j, cs) {
          assert members[i].val < members[i];
          AlikeExactly(members[i].val, w.members[j].val, cs);
          FoldMeans(members[i].key, w.members[j].key, cs);
          FoldMeans(w.members[j].key, members[i].key, cs);
        }
        MembersAlike(members, w.members, cs);
      }
    case _ =>
  }

  lemma ItemsDenote(x: seq<Value>, y: seq<Value>, cs: bool)
    requires |x| == |y|
    ensures Denote(Arr(x), cs) == Denote(Arr(y), cs) <==>
      forall i | 0 <= i < |x| :: Denote(x[i], cs) == Denote(y[i], cs)
  {
    var a, b := Denote(Arr(x), cs).items, Denote(Arr(y), cs).items;
    if a == b {
      forall i | 0 <= i < |x| ensures Denote(x[i], cs) == Denote(y[i], cs) {
        assert a[i] == b[i];
      }
    }
  }

  /** What is known of two members: when their names agree and when their values do. */
  ghost predicate DecidedAt(a: seq<Member>, b: seq<Member>, i: nat, j: nat, cs: bool)
    requires i < |a| && j < |b|
  {
    && (Fold(a[i].key, cs) == Fold(b[j].key, cs) <==> SameName(a[i].key, b[j].key, cs))
    && (Fold(a[i].key, cs) == Fold(b[j].key, cs) <==> SameName(b[j].key, a[i].key, cs))
    && (Alike(a[i].val, b[j].val, cs) <==> SameDenotation(a[i].val, b[j].val, cs))
  }

  lemma MembersAlike(a: seq<Member>, b: seq<Member>, cs: bool)
    requires forall i, j | 0 <= i < |a| && 0 <= j < |b| :: DecidedAt(a, b, i, j, cs)
    ensures Alike(Obj(a), Obj(b), cs) <==> SameDenotation(Obj(a), Obj(b), cs)
  {
    hide Fields, Fold, SameName, Denote, NamesWithin, DecidedAt;
    ObjectsDenote(a, b, cs);
    CoversBothWays(a, b, cs);
    if Alike(Obj(a), Obj(b), cs) {
      AlikeCovers(a, b, cs);
    }
    if SameDenotation(Obj(a), Obj(b), cs) {
      CleanAlike(a, b, cs);
    }
  }

  /** A member whose name occurs in `b`, always with the same denotation, is covered. */
  lemma CoveredBySame(m: Member, b: seq<Member>, j: nat, cs: bool)
    requires j < |b| && Fold(m.key, cs) == Fold(b[j].key, cs)
    requires forall i | 0 <= i < |b| && Fold(m.key, cs) == Fold(b[i].key, cs) :: SameDenotation(m.val, b[i].val, cs)
    ensures Covered(m, b, cs) && Clean(m.val, cs)
  {
    hide Fields, Fold, Denote, Clean;
    KeyIsField(b, cs, j);
    var f := FirstOfField(b, Fold(m.key, cs), cs);
    FieldOfFirst(b, Fold(m.key, cs), cs, f);
  }

  lemma Decide(a: seq<Member>, b: seq<Member>, i: nat, j: nat, cs: bool)
    requires i < |a| && j < |b| && DecidedAt(a, b, i, j, cs)
    ensures Fold(a[i].key, cs) == Fold(b[j].key, cs) <==> SameName(a[i].key, b[j].key, cs)
    ensures Fold(a[i].key, cs) == Fold(b[j].key, cs) <==> SameName(b[j].key, a[i].key, cs)
    ensures Alike(a[i].val, b[j].val, cs) <==> SameDenotation(a[i].val, b[j].val, cs)
    ensures Alike(a[i].val, b[j].val, cs) <==> SameDenotation(b[j].val, a[i].val, cs)
  {
    hide Alike, Fold, SameName;
  }

  lemma AlikeObjects(a: seq<Member>, b: seq<Member>, cs: bool)
    ensures Alike(Obj(a), Obj(b), cs) <==>
      && NamesWithin(a, b, cs) && NamesWithin(b, a, cs)
      && forall i, j | 0 <= i < |a| && 0 <= j < |b| ::
        SameName(a[i].key, b[j].key, cs) ==> Alike(a[i].val, b[j].val, cs)
  {
    hide NamesWithin, SameName;
  }

  lemma NameWithin(a: seq<Member>, b: seq<Member>, i: nat, cs: bool) returns (j: nat)
    requires i < |a| && NamesWithin(a, b, cs)
    ensures j < |b| && SameName(a[i].key, b[j].key, cs)
  {
    hide SameName;
    assert NameIn(a[i], b, cs);
    j :| 0 <= j < |b| && SameName(a[i].key, b[j].key, cs);
  }

  lemma AlikeCovers(a: seq<Member>, b: seq<Member>, cs: bool)
    requires Alike(Obj(a), Obj(b), cs) && forall i, j | 0 <= i < |a| && 0 <= j < |b| :: DecidedAt(a, b, i, j, cs)
    ensures Covers(a, b, cs) && Covers(b, a, cs) && AllClean(a, cs) && AllClean(b, cs)
  {
    hide Fields, Fold, SameName, SameDenotation, Clean, Covered, Alike, DecidedAt, NamesWithin;
    AlikeObjects(a, b, cs);
    forall i | 0 <= i < |a| ensures Covered(a[i], b, cs) && Clean(a[i].val, cs) {
      forall j | 0 <= j < |b| && Fold(a[i].key, cs) == Fold(b[j].key, cs)
        ensures SameDenotation(a[i].val, b[j].val, cs)
      {
        Decide(a, b, i, j, cs);
      }
      var j := NameWithin(a, b, i, cs);
      Decide(a, b, i, j, cs);
      CoveredBySame(a[i], b, j, cs);
    }
    forall j | 0 <= j < |b| ensures Covered(b[j], a, cs) && Clean(b[j].val, cs) {
      forall i | 0 <= i < |a| && Fold(b[j].key, cs) == Fold(a[i].key, cs)
        ensures SameDenotation(b[j].val, a[i].val, cs)
      {
        Decide(a, b, i, j, cs);
      }
      var i := NameWithin(b, a, j, cs);
      Decide(a, b, i, j, cs);
      CoveredBySame(b[j], a, i, cs);
    }
  }

  lemma NameOccurs(a: seq<Member>, b: seq<Member>, i: nat, cs: bool) returns (j: nat)
    requires i < |a| && Fields(a, cs) == Fields(b, cs)
    ensures j < |b| && Fold(b[j].key, cs) == Fold(a[i].key, cs)
  {
    hide Fields, Fold;
    KeyIsField(a, cs, i);
    j := FirstOfField(b, Fold(a[i].key, cs), cs);
  }

  lemma SameField(a: seq<Member>, b: seq<Member>, i: nat, j: nat, cs: bool)
    requires i < |a| && j < |b| && SameDenotation(Obj(a), Obj(b), cs) && Fold(a[i].key, cs) == Fold(b[j].key, cs)
    ensures SameDenotation(a[i].val, b[j].val, cs)
  {
    hide Fields, Fold, Denote;
    ObjectsDenote(a, b, cs);
    FieldOfMember(a, cs, i);
    FieldOfMember(b, cs, j);
  }

  lemma CleanNames(a: seq<Member>, b: seq<Member>, cs: bool)
    requires Fields(a, cs) == Fields(b, cs)
    ensures NamesWithin(a, b, cs)
  {
    hide Fields, Fold, SameName;
    forall i | 0 <= i < |a| ensures NameIn(a[i], b, cs) {
      var j := NameOccurs(a, b, i, cs);
      FoldMeans(a[i].key, b[j].key, cs);
    }
  }

  lemma CleanAlike(a: seq<Member>, b: seq<Member>, cs: bool)
    requires SameDenotation(Obj(a), Obj(b), cs)
    requires forall i, j | 0 <= i < |a| && 0 <= j < |b| :: DecidedAt(a, b, i, j, cs)
    ensures Alike(Obj(a), Obj(b), cs)
  {
    hide Fields, Fold, SameName, SameDenotation, Alike, DecidedAt, NamesWithin;
    AlikeObjects(a, b, cs);
    SameFields(a, b, cs);
    CleanNames(a, b, cs);
    CleanNames(b, a, cs);
    forall i, j | 0 <= i < |a| && 0 <= j < |b|
      ensures SameName(a[i].key, b[j].key, cs) ==> Alike(a[i].val, b[j].val, cs)
    {
      Decide(a, b, i, j, cs);
      if SameName(a[i].key, b[j].key, cs) { SameField(a, b, i, j, cs); }
    }
  }

  lemma SameFields(a: seq<Member>, b: seq<Member>, cs: bool)
    requires SameDenotation(Obj(a), Obj(b), cs)
    ensures Fields(a, cs) == Fields(b, cs)
  {
    hide Fields;
    ObjectsDenote(a, b, cs);
  }

  /** What an answer says: true only for equal denotations, true for clean trees that are equal, and
      between trees that share no node true only for clean ones. */
  ghost predicate Answers(r: bool, v: Value, w: Value, cs: bool, apart: bool) {
    && (r ==> Denote(v, cs) == Denote(w, cs))
    && (Clean(v, cs) && Clean(w, cs) && Denote(v, cs) == Denote(w, cs) ==> r)
    && (r && apart ==> Clean(v, cs) && Clean(w, cs))
  }

  // ---------- keys ----------

  /** The folded byte at an index; the terminator behind the text. */
  function ByteAt(s: seq<byte>, i: nat): int {
    if i < |s| then ToLower(s[i]) else 0
  }

  /** `case_insensitive_strcmp`, on the texts in front of the terminators. */
  method CompareFolded(a: seq<byte>, b: seq<byte>) returns (difference: int)
    requires NulFree(a) && NulFree(b)
    ensures difference == 0 <==> Fold(a, false) == Fold(b, false)
    ensures difference == 0 <==> SameName(a, b, false)
  {
    FoldMeans(a, b, false);
    var i := 0;
    while ByteAt(a, i) == ByteAt(b, i)
      invariant i <= |a| && i <= |b| && forall k | 0 <= k < i :: ToLower(a[k]) == ToLower(b[k])
      decreases |a| - i
    {
      if i == |a| {
        assert i == |b|;
        return 0;
      }
      i := i + 1;
    }
    difference := ByteAt(a, i) - ByteAt(b, i);
    FoldedBytes(a, b, i);
  }

  lemma FoldedBytes(a: seq<byte>, b: seq<byte>, i: nat)
    ensures Fold(a, false) == Fold(b, false) ==> ByteAt(a, i) == ByteAt(b, i)
  {
    assert i < |a| ==> Fold(a, false)[i] == ToLower(a[i]);
    assert i < |b| ==> Fold(b, false)[i] == ToLower(b[i]);
  }

  /** `strcmp(a, b) == 0` or the folding comparison, as `get_object_item` chooses. */
  method SameKey(a: seq<byte>, b: seq<byte>, cs: bool) returns (same: bool)
    requires NulFree(a) && NulFree(b)
    ensures same <==> Fold(a, cs) == Fold(b, cs)
  {
    if cs {
      return a == b;
    }
    var difference := CompareFolded(a, b);
    return difference == 0;
  }

  lemma NamesFold(name: seq<byte>, v: Value, cs: bool)
    ensures v.Obj? ==> forall i | 0 <= i < |v.members| ::
      Fold(v.members[i].key, cs) == Fold(name, cs) <==> SameName(name, v.members[i].key, cs)
  {
    hide Fold, SameName;
    if v.Obj? {
      forall i | 0 <= i < |v.members|
        ensures Fold(v.members[i].key, cs) == Fold(name, cs) <==> SameName(name, v.members[i].key, cs)
      {
        FoldMeans(name, v.members[i].key, cs);
      }
    }
  }

  /** `get_object_item`: the first member with the name. */
  method FindItem(obj: Node, name: seq<byte>, cs: bool, ghost D: set<Node>) returns (r: Node?, ghost at: nat)
    requires NulFree(name) && obj.kind == KObject && obj.Ok(D) && Sound(D)
    ensures obj.value.Obj? && |obj.value.members| == |obj.elems|
    ensures r == null ==> Fold(name, cs) !in Fields(obj.value.members, cs)
    ensures r != null ==> at < |obj.elems| && r == obj.elems[at]
    ensures r != null ==> IsFirst(obj.value.members, Fold(name, cs), cs, at)
    ensures r == null ==> forall i | 0 <= i < |obj.value.members| :: !SameName(name, obj.value.members[i].key, cs)
    ensures r != null ==> SameName(name, obj.value.members[at].key, cs)
    ensures r != null ==> forall i | 0 <= i < at :: !SameName(name, obj.value.members[i].key, cs)
  {
    hide Sound, Fold, Fields, Node.Owns, NulFree, SameName;
    NamesFold(name, obj.value, cs);
    at := 0;
    var current := obj.child;
    while current != null
      invariant at <= |obj.elems| && current == (if at < |obj.elems| then obj.elems[at] else null)
      invariant forall i | 0 <= i < at :: Fold(obj.value.members[i].key, cs) != Fold(name, cs)
      decreases |obj.elems| - at
    {
      ChildAt(obj, D, at);
      var same := SameKey(name, current.key.value.Text(), cs);
      if same {
        return current, at;
      }
      current, at := current.next, at + 1;
    }
    r := null;
    if Fold(name, cs) in Fields(obj.value.members, cs) {
      var i := FirstOfField(obj.value.members, Fold(name, cs), cs);
      assert false;
    }
  }

  // ---------- the comparison ----------

  lemma {:induction false} ItemDepth(items: seq<Value>, i: nat)
    requires i < |items|
    ensures Depth(items[i]) <= ItemsDepth(items)
  {
    if i > 0 {
      ItemDepth(items[1..], i - 1);
    }
  }

  lemma {:induction false} MemberDepth(members: seq<Member>, i: nat)
    requires i < |members|
    ensures Depth(members[i].val) <= MembersDepth(members)
  {
    if i > 0 {
      MemberDepth(members[1..], i - 1);
    }
  }

  lemma ChildDepth(n: Node, D: set<Node>, i: nat)
    requires n.Ok(D) && Sound(D) && i < |n.elems|
    ensures Depth(n.elems[i].value) < Depth(n.value)
  {
    hide Sound, Node.Owns, Chain;
    ChildAt(n, D, i);
    match n.value
    case Arr(items) => ItemDepth(items, i);
    case Obj(members) => MemberDepth(members, i);
    case _ =>
  }

  lemma ItemsAgree(x: seq<Value>, y: seq<Value>, cs: bool, apart: bool)
    requires |x| == |y| && forall k | 0 <= k < |x| :: Answers(true, x[k], y[k], cs, apart)
    ensures Answers(true, Arr(x), Arr(y), cs, apart)
  {
    forall k | 0 <= k < |x|
      ensures Denote(x[k], cs) == Denote(y[k], cs) && (apart ==> Clean(x[k], cs) && Clean(y[k], cs))
    {
      assert Answers(true, x[k], y[k], cs, apart);
    }
    assert Denote(Arr(x), cs).items == Denote(Arr(y), cs).items;
  }

  lemma ItemsDiffer(x: seq<Value>, y: seq<Value>, k: nat, cs: bool, apart: bool)
    requires k < |x| && k < |y| && Answers(false, x[k], y[k], cs, apart)
    ensures Answers(false, Arr(x), Arr(y), cs, apart)
  {
    assert Denote(Arr(x), cs).items[k] == Denote(x[k], cs);
    assert Denote(Arr(y), cs).items[k] == Denote(y[k], cs);
  }

  lemma LengthsDiffer(x: seq<Value>, y: seq<Value>, cs: bool, apart: bool)
    requires |x| != |y|
    ensures Answers(false, Arr(x), Arr(y), cs, apart)
  {
    assert |Denote(Arr(x), cs).items| == |x| && |Denote(Arr(y), cs).items| == |y|;
  }

  /** The loop over two arrays. */
  method CompareItems(a: Node, b: Node, cs: bool, ghost Da: set<Node>, ghost Db: set<Node>) returns (r: bool)
    requires a.kind == KArray && b.kind == KArray && a.Ok(Da) && Sound(Da) && b.Ok(Db) && Sound(Db)
    ensures a.value.Arr? && b.value.Arr? && Answers(r, a.value, b.value, cs, Da !! Db)
    decreases Depth(a.value) + Depth(b.value), 0
  {
    hide Sound, Node.Owns, Answers, Depth, Chain;
    var x, y := a.child, b.child;
    ghost var i := 0;
    while x != null && y != null
      invariant i <= |a.elems| && x == (if i < |a.elems| then a.elems[i] else null)
      invariant i <= |b.elems| && y == (if i < |b.elems| then b.elems[i] else null)
      invariant forall k | 0 <= k < i :: Answers(true, a.value.items[k], b.value.items[k], cs, Da !! Db)
      decreases |a.elems| - i
    {
      ChildAt(a, Da, i);
      ChildAt(b, Db, i);
      ChildDepth(a, Da, i);
      ChildDepth(b, Db, i);
      ChildrenDiffer(a, b, Da, Db, i, i);
      var same := Compare(x, y, cs, Da, Db);
      if !same {
        ItemsDiffer(a.value.items, b.value.items, i, cs, Da !! Db);
        return false;
      }
      x, y, i := x.next, y.next, i + 1;
    }
    if x != y {
      LengthsDiffer(a.value.items, b.value.items, cs, Da !! Db);
      return false;
    }
    ItemsAgree(a.value.items, b.value.items, cs, Da !! Db);
    return true;
  }

  lemma MemberMissing(a: seq<Member>, b: seq<Member>, i: nat, cs: bool, apart: bool)
    requires i < |a| && Fold(a[i].key, cs) !in Fields(b, cs)
    ensures Answers(false, Obj(a), Obj(b), cs, apart)
  {
    hide Fold;
    KeyIsField(a, cs, i);
    ObjectsDenote(a, b, cs);
  }

  lemma MemberDiffers(a: seq<Member>, b: seq<Member>, i: nat, at: nat, cs: bool, apart: bool)
    requires i < |a| && IsFirst(b, Fold(a[i].key, cs), cs, at) && Answers(false, a[i].val, b[at].val, cs, apart)
    ensures Answers(false, Obj(a), Obj(b), cs, apart)
  {
    hide Fold, Fields, Denote;
    ObjectsDenote(a, b, cs);
    FieldOfFirst(b, Fold(a[i].key, cs), cs, at);
    if Clean(Obj(a), cs) && Clean(Obj(b), cs) {
      FieldOfMember(a, cs, i);
    }
  }

  lemma MemberAgrees(m: Member, b: seq<Member>, at: nat, cs: bool, apart: bool)
    requires IsFirst(b, Fold(m.key, cs), cs, at) && Answers(true, m.val, b[at].val, cs, apart)
    ensures Covered(m, b, cs) && (apart ==> Clean(m.val, cs))
  {
    hide Fold, Fields, Denote;
    FieldOfFirst(b, Fold(m.key, cs), cs, at);
  }

  lemma ObjectsAgree(a: seq<Member>, b: seq<Member>, cs: bool, apart: bool)
    requires Covers(a, b, cs) && Covers(b, a, cs)
    requires apart ==> AllClean(a, cs) && AllClean(b, cs)
    ensures Answers(true, Obj(a), Obj(b), cs, apart)
  {
    hide Fold, Fields, Denote;
    CoversBothWays(a, b, cs);
    ObjectsDenote(a, b, cs);
  }

  ghost predicate AllClean(members: seq<Member>, cs: bool) {
    forall i | 0 <= i < |members| :: Clean(members[i].val, cs)
  }

  /** One member: look it up in the other object and compare. */
  method CompareMember(x: Node, a: Node, b: Node, cs: bool, ghost i: nat, ghost Da: set<Node>, ghost Db: set<Node>)
    returns (r: bool)
    requires a.kind == KObject && b.kind == KObject && a.Ok(Da) && Sound(Da) && b.Ok(Db) && Sound(Db)
    requires i < |a.elems| && x == a.elems[i]
    ensures a.value.Obj? && b.value.Obj? && i < |a.value.members|
    ensures r ==> Covered(a.value.members[i], b.value.members, cs) && (Da !! Db ==> Clean(a.value.members[i].val, cs))
    ensures !r ==> Answers(false, a.value, b.value, cs, Da !! Db)
    decreases Depth(a.value) + Depth(b.value), 0, 0
  {
    hide Sound, Node.Owns, Answers, Depth, Chain, Fold, Fields, Denote, Clean, Covered, IsFirst, Node.Ok;
    ChildAt(a, Da, i);
    ChildDepth(a, Da, i);
    ghost var at;
    var y;
    y, at := FindItem(b, x.key.value.Text(), cs, Db);
    if y == null {
      MemberMissing(a.value.members, b.value.members, i, cs, Da !! Db);
      return false;
    }
    ChildAt(b, Db, at);
    ChildDepth(b, Db, at);
    ChildrenDiffer(a, b, Da, Db, i, at);
    r := Compare(x, y, cs, Da, Db);
    if r {
      MemberAgrees(a.value.members[i], b.value.members, at, cs, Da !! Db);
    } else {
      MemberDiffers(a.value.members, b.value.members, i, at, cs, Da !! Db);
    }
  }

  lemma ChildrenDiffer(a: Node, b: Node, Da: set<Node>, Db: set<Node>, i: nat, j: nat)
    requires a.Ok(Da) && b.Ok(Db) && Sound(Da) && Sound(Db) && i < |a.elems| && j < |b.elems|
    ensures (a.elems[i] != b.elems[j] && Da !! Db) == (Da !! Db)
  {
    ChildAt(a, Da, i);
    ChildAt(b, Db, j);
  }

  /** The loop over the members of one object. */
  method CompareMembers(a: Node, b: Node, cs: bool, ghost Da: set<Node>, ghost Db: set<Node>) returns (r: bool)
    requires a.kind == KObject && b.kind == KObject && a.Ok(Da) && Sound(Da) && b.Ok(Db) && Sound(Db)
    ensures a.value.Obj? && b.value.Obj?
    ensures r ==> Covers(a.value.members, b.value.members, cs) && (Da !! Db ==> AllClean(a.value.members, cs))
    ensures !r ==> Answers(false, a.value, b.value, cs, Da !! Db)
    decreases Depth(a.value) + Depth(b.value), 0, 1
  {
    hide Sound, Node.Owns, Answers, Depth, Chain, Fold, Fields, Denote, Clean, Covered;
    var x := a.child;
    ghost var i := 0;
    while x != null
      invariant i <= |a.elems| && x == (if i < |a.elems| then a.elems[i] else null)
      invariant forall k | 0 <= k < i :: Covered(a.value.members[k], b.value.members, cs)
      invariant Da !! Db ==> forall k | 0 <= k < i :: Clean(a.value.members[k].val, cs)
      decreases |a.elems| - i
    {
      ChildAt(a, Da, i);
      r := CompareMember(x, a, b, cs, i, Da, Db);
      if !r {
        return;
      }
      x, i := x.next, i + 1;
    }
    return true;
  }

  lemma Swapped(v: Value, w: Value, cs: bool, apart: bool)
    requires Answers(false, w, v, cs, apart)
    ensures Answers(false, v, w, cs, apart)
  {
  }

  /**
   * `cJSON_Compare`.  A null pointer equals nothing, an invalid node equals nothing, a valid node equals
   * itself; otherwise the answer follows the denotations.
   */
  method Compare(a: Node?, b: Node?, cs: bool, ghost Da: set<Node>, ghost Db: set<Node>) returns (r: bool)
    requires (a != null ==> a.Ok(Da) && Sound(Da)) && (b != null ==> b.Ok(Db) && Sound(Db))
    ensures a == null || b == null ==> !r
    ensures a != null && b != null ==> Answers(r, a.value, b.value, cs, a != b && Da !! Db)
    ensures a != null && a == b ==> (r <==> a.kind != KInvalid)
    decreases if a != null && b != null then Depth(a.value) + Depth(b.value) else 0, 1
  {
    hide Sound, Node.Owns, Chain, Fold, Fields;
    if a == null || b == null || a.kind != b.kind || a.kind == KInvalid {
      return false;
    }
    if a == b {
      return true;
    }
    match a.kind
    case KNumber => return Equal(a.valuedouble, b.valuedouble);
    case KString => return a.valuestring.value.Text() == b.valuestring.value.Text();
    case KArray =>
      r := CompareItems(a, b, cs, Da, Db);
    case KObject =>
      r := CompareMembers(a, b, cs, Da, Db);
      if !r {
        return;
      }
      r := CompareMembers(b, a, cs, Db, Da);
      if !r {
        Swapped(a.value, b.value, cs, Da !! Db);
        return;
      }
      ObjectsAgree(a.value.members, b.value.members, cs, Da !! Db);
    case _ => return true;
  }

  /** Trees that share no node compare equal exactly if they are alike. */
  method CompareApart(a: Node, b: Node, cs: bool, ghost Da: set<Node>, ghost Db: set<Node>) returns (r: bool)
    requires a.Ok(Da) && Sound(Da) && b.Ok(Db) && Sound(Db) && a != b && Da !! Db
    ensures r <==> Alike(a.value, b.value, cs)
  {
    hide Sound, Node.Ok, Alike, Clean, Denote;
    AlikeExactly(a.value, b.value, cs);
    r := Compare(a, b, cs, Da, Db);
  }

  /** A copy made by `cJSON_Duplicate` equals its source exactly where the source is clean. */
  method CompareWithCopy(item: Node, cs: bool, heap: Heap, ghost D: set<Node>) returns (same: Option<bool>)
    requires heap.Valid() && item.Ok(D) && Sound(D)
    modifies heap
    ensures same.Some? <==> heap.refusals == old(heap.refusals)
    ensures same.Some? ==> (same.value <==> Clean(item.value, cs))
    ensures same.Some? ==> (same.value <==> Alike(item.value, item.value, cs))
  {
    hide Sound, Node.Ok, Clean, Denote, Alike;
    AlikeExactly(item.value, item.value, cs);
    var copy;
    ghost var K;
    copy, K := Duplication.Duplicate(item, true, heap, D);
    if copy == null {
      return None;
    }
    var r := Compare(item, copy, cs, D, K);
    return Some(r);
  }

  lemma OneField(k: seq<byte>, x: Value, cs: bool)
    ensures Fields([Member(k, x)], cs) == map[Fold(k, cs) := Denote(x, cs)]
  {
    assert [Member(k, x)][1..] == [];
  }

  /** With a repeated key a value need not equal its own copy. */
  lemma RepeatedKey(x: Value, y: Value, k: seq<byte>, cs: bool)
    requires Denote(x, cs) != Denote(y, cs)
    ensures !Clean(Obj([Member(k, x), Member(k, y)]), cs)
    ensures Denote(Obj([Member(k, x), Member(k, y)]), cs) == Denote(Obj([Member(k, x)]), cs)
  {
    var two, one := [Member(k, x), Member(k, y)], [Member(k, x)];
    FieldOfFirst(two, Fold(k, cs), cs, 0);
    FieldOfFirst(one, Fold(k, cs), cs, 0);
    assert two[1..] == [Member(k, y)] && one[1..] == [];
    assert Fold(two[0].key, cs) == Fold(two[1].key, cs);
    OneField(k, x, cs);
    OneField(k, y, cs);
    assert Fields(two, cs) == Fields(two[1..], cs)[Fold(k, cs) := Denote(x, cs)];
  }
}
