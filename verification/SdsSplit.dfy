/** What `sdssplitlen` and `sdsjoinsds` compute, and when each undoes the other. */
module SdsSplit {
  import opened Bytes

  /** Whether the separator stands at `i`. */
  predicate OccursAt(s: seq<byte>, sep: seq<byte>, i: nat) {
    i + |sep| <= |s| && s[i..i + |sep|] == sep
  }

  predicate Contains(s: seq<byte>, sep: seq<byte>) {
    exists i: nat | i <= |s| :: OccursAt(s, sep, i)
  }

  /** In front of a separator the token is found whole: the two together hold no earlier one. */
  predicate FoundWhole(t: seq<byte>, sep: seq<byte>) {
    forall i: nat | i < |t| :: !OccursAt(t + sep, sep, i)
  }

  /** Tokens from the leftmost separators, without overlap; `j` is where the search goes on. */
  function SplitFrom(s: seq<byte>, sep: seq<byte>, start: nat, j: nat): (r: seq<seq<byte>>)
    requires |sep| > 0 && start <= j && start <= |s|
    ensures r != []
    decreases |s| - j
  {
    if j + |sep| > |s| then [s[start..]]
    else if OccursAt(s, sep, j) then [s[start..j]] + SplitFrom(s, sep, j + |sep|, j + |sep|)
    else SplitFrom(s, sep, start, j + 1)
  }

  function Split(s: seq<byte>, sep: seq<byte>): seq<seq<byte>>
    requires |sep| > 0
  {
    if s == [] then [] else SplitFrom(s, sep, 0, 0)
  }

  function Join(ts: seq<seq<byte>>, sep: seq<byte>): seq<byte> {
    if ts == [] then [] else if |ts| == 1 then ts[0] else ts[0] + sep + Join(ts[1..], sep)
  }

  lemma JoinOne(t: seq<byte>, sep: seq<byte>)
    ensures Join([t], sep) == t
  {
  }

  lemma JoinCons(t: seq<byte>, rest: seq<seq<byte>>, sep: seq<byte>)
    requires rest != []
    ensures Join([t] + rest, sep) == t + sep + Join(rest, sep)
  {
    assert ([t] + rest)[1..] == rest;
  }

  lemma Rejoin(s: seq<byte>, sep: seq<byte>, start: nat, j: nat)
    requires start <= j && OccursAt(s, sep, j)
    ensures s[start..] == s[start..j] + (sep + s[j + |sep|..])
  {
    assert s[j..] == s[j..j + |sep|] + s[j + |sep|..];
  }

  /** Joining the tokens of a string gives the string back. */
  lemma {:induction false} JoinOfSplitFrom(s: seq<byte>, sep: seq<byte>, start: nat, j: nat)
    requires |sep| > 0 && start <= j && start <= |s|
    ensures Join(SplitFrom(s, sep, start, j), sep) == s[start..]
    decreases |s| - j
  {
    hide Join;
    if j + |sep| > |s| {
      JoinOne(s[start..], sep);
    } else {
      if OccursAt(s, sep, j) {
        var rest := SplitFrom(s, sep, j + |sep|, j + |sep|);
        JoinOfSplitFrom(s, sep, j + |sep|, j + |sep|);
        var t := s[start..j];
        JoinCons(t, rest, sep);
        assert s[start..] == t + (sep + s[j + |sep|..]) by { Rejoin(s, sep, start, j); }
        assert t + (sep + s[j + |sep|..]) == t + sep + s[j + |sep|..];
      } else {
        JoinOfSplitFrom(s, sep, start, j + 1);
      }
    }
  }

  lemma JoinOfSplit(s: seq<byte>, sep: seq<byte>)
    requires |sep| > 0
    ensures Join(Split(s, sep), sep) == s
  {
    if s != [] {
      JoinOfSplitFrom(s, sep, 0, 0);
    }
  }

  /** Every token but the last is found whole, and the last one holds no separator. */
  predicate Splittable(ts: seq<seq<byte>>, sep: seq<byte>) {
    && (forall i | 0 <= i < |ts| - 1 :: FoundWhole(ts[i], sep))
    && (ts != [] ==> !Contains(ts[|ts| - 1], sep))
  }

  lemma {:induction false} TokensOfSplitFrom(s: seq<byte>, sep: seq<byte>, start: nat, j: nat)
    requires |sep| > 0 && start <= j && start <= |s|
    requires forall i | start <= i < j :: !OccursAt(s, sep, i)
    ensures Splittable(SplitFrom(s, sep, start, j), sep)
    decreases |s| - j
  {
    var ts := SplitFrom(s, sep, start, j);
    if j + |sep| > |s| {
      LastToken(s, sep, start);
    } else if OccursAt(s, sep, j) {
      var rest := SplitFrom(s, sep, j + |sep|, j + |sep|);
      TokensOfSplitFrom(s, sep, j + |sep|, j + |sep|);
      TokenFound(s, sep, start, j);
      forall i | 0 <= i < |ts| - 1 ensures FoundWhole(ts[i], sep) {
        if i > 0 { assert ts[i] == rest[i - 1]; }
      }
      assert ts[|ts| - 1] == rest[|rest| - 1];
    } else {
      TokensOfSplitFrom(s, sep, start, j + 1);
    }
  }

  lemma Inside(s: seq<byte>, sep: seq<byte>, a: nat, b: nat, i: nat)
    requires a <= b <= |s|
    ensures OccursAt(s[a..b], sep, i) <==> a + i + |sep| <= b && OccursAt(s, sep, a + i)
  {
    if a + i + |sep| <= b {
      var t, n := s[a..b], |sep|;
      var u, v := t[i..i + n], s[a + i..a + i + n];
      assert forall k | 0 <= k < n :: u[k] == v[k];
    }
  }

  lemma LastToken(s: seq<byte>, sep: seq<byte>, start: nat)
    requires |sep| > 0 && start <= |s| && forall i | start <= i && i + |sep| <= |s| :: !OccursAt(s, sep, i)
    ensures !Contains(s[start..], sep)
  {
    assert s[start..] == s[start..|s|];
    forall i: nat | i <= |s[start..]| ensures !OccursAt(s[start..], sep, i) {
      Inside(s, sep, start, |s|, i);
    }
  }

  lemma TokenFound(s: seq<byte>, sep: seq<byte>, start: nat, j: nat)
    requires start <= j && OccursAt(s, sep, j) && forall i | start <= i < j :: !OccursAt(s, sep, i)
    ensures FoundWhole(s[start..j], sep)
  {
    var t := s[start..j];
    assert t + sep == s[start..j + |sep|];
    forall i: nat | i < |t| ensures !OccursAt(t + sep, sep, i) {
      Inside(s, sep, start, j + |sep|, i);
    }
  }

  /** No token of a string holds the separator. */
  lemma NoTokenContains(s: seq<byte>, sep: seq<byte>, k: nat)
    requires |sep| > 0 && k < |Split(s, sep)|
    ensures !Contains(Split(s, sep)[k], sep)
  {
    TokensOfSplitFrom(s, sep, 0, 0);
    var t := Split(s, sep)[k];
    if k < |Split(s, sep)| - 1 {
      assert FoundWhole(t, sep);
      forall i: nat | i <= |t| ensures !OccursAt(t, sep, i) {
        if i + |sep| <= |t| {
          assert !OccursAt(t + sep, sep, i);
          assert (t + sep)[i..i + |sep|] == t[i..i + |sep|];
        }
      }
    }
  }

  /** The search passes a token that is found whole. */
  lemma {:induction false} Search(s: seq<byte>, sep: seq<byte>, start: nat, j: nat, e: nat)
    requires |sep| > 0 && start <= j <= e && OccursAt(s, sep, e) && forall i | j <= i < e :: !OccursAt(s, sep, i)
    ensures SplitFrom(s, sep, start, j) == [s[start..e]] + SplitFrom(s, sep, e + |sep|, e + |sep|)
    decreases e - j
  {
    if j < e {
      Search(s, sep, start, j + 1, e);
    }
  }

  lemma {:induction false} SearchEnd(s: seq<byte>, sep: seq<byte>, start: nat, j: nat)
    requires |sep| > 0 && start <= j && start <= |s| && forall i | j <= i && i + |sep| <= |s| :: !OccursAt(s, sep, i)
    ensures SplitFrom(s, sep, start, j) == [s[start..]]
    decreases |s| - j
  {
    if j + |sep| <= |s| {
      SearchEnd(s, sep, start, j + 1);
    }
  }

  lemma {:induction false} SplitOfJoinFrom(s: seq<byte>, ts: seq<seq<byte>>, sep: seq<byte>, start: nat)
    requires |sep| > 0 && ts != [] && Splittable(ts, sep) && start <= |s| && s[start..] == Join(ts, sep)
    ensures SplitFrom(s, sep, start, start) == ts
    decreases |ts|
  {
    hide SplitFrom, OccursAt, FoundWhole, Contains, Splittable;
    var t, rest := ts[0], ts[1..];
    SplittableStep(ts, sep);
    if |ts| == 1 {
      NoneInside(s, t, sep, start);
      SearchEnd(s, sep, start, start);
    } else {
      var e := start + |t|;
      Parts(s, t, sep, Join(rest, sep), start);
      NoneBefore(s, t, sep, start);
      Search(s, sep, start, start, e);
      SplitOfJoinFrom(s, rest, sep, e + |sep|);
    }
  }

  lemma SplittableStep(ts: seq<seq<byte>>, sep: seq<byte>)
    requires ts != [] && Splittable(ts, sep)
    ensures |ts| == 1 ==> !Contains(ts[0], sep)
    ensures |ts| > 1 ==> FoundWhole(ts[0], sep) && Splittable(ts[1..], sep)
  {
    hide FoundWhole, Contains;
    var rest := ts[1..];
    forall i | 0 <= i < |rest| - 1 ensures FoundWhole(rest[i], sep) { assert rest[i] == ts[i + 1]; }
  }

  lemma NoneInside(s: seq<byte>, t: seq<byte>, sep: seq<byte>, start: nat)
    requires |sep| > 0 && start <= |s| && s[start..] == t && !Contains(t, sep)
    ensures forall i | start <= i && i + |sep| <= |s| :: !OccursAt(s, sep, i)
  {
    assert s[start..] == s[start..|s|];
    forall i | start <= i && i + |sep| <= |s| ensures !OccursAt(s, sep, i) {
      Inside(s, sep, start, |s|, i - start);
    }
  }

  lemma NoneBefore(s: seq<byte>, t: seq<byte>, sep: seq<byte>, start: nat)
    requires start + |t| + |sep| <= |s| && s[start..start + |t| + |sep|] == t + sep && FoundWhole(t, sep)
    ensures forall i | start <= i < start + |t| :: !OccursAt(s, sep, i)
  {
    forall i | start <= i < start + |t| ensures !OccursAt(s, sep, i) {
      assert !OccursAt(t + sep, sep, i - start);
      Inside(s, sep, start, start + |t| + |sep|, i - start);
    }
  }

  lemma Parts(s: seq<byte>, t: seq<byte>, sep: seq<byte>, rest: seq<byte>, start: nat)
    requires start <= |s| && s[start..] == t + sep + rest
    ensures var e := start + |t|;
      && e + |sep| <= |s| && OccursAt(s, sep, e) && s[start..e] == t
      && s[start..e + |sep|] == t + sep && s[e + |sep|..] == rest
  {
    var e := start + |t|;
    assert forall k | start <= k < |s| :: s[k] == s[start..][k - start];
  }

  /** Splitting a join gives the tokens back exactly for splittable lists other than the single empty token. */
  lemma SplitOfJoin(ts: seq<seq<byte>>, sep: seq<byte>)
    requires |sep| > 0
    ensures Split(Join(ts, sep), sep) == ts <==> Splittable(ts, sep) && ts != [[]]
  {
    var s := Join(ts, sep);
    if Splittable(ts, sep) && ts != [[]] && ts != [] {
      assert s[0..] == s;
      JoinNotEmpty(ts, sep);
      SplitOfJoinFrom(s, ts, sep, 0);
    }
    if Split(s, sep) == ts && s != [] {
      TokensOfSplitFrom(s, sep, 0, 0);
    }
  }

  lemma JoinNotEmpty(ts: seq<seq<byte>>, sep: seq<byte>)
    requires |sep| > 0 && ts != [[]] && ts != []
    ensures Join(ts, sep) != []
  {
    if |ts| == 1 { assert ts == [ts[0]]; }
  }

  /** With a separator of one byte it is enough that no token holds it. */
  lemma OneByteSeparator(ts: seq<seq<byte>>, c: byte)
    ensures Splittable(ts, [c]) <==> forall i | 0 <= i < |ts| :: !Contains(ts[i], [c])
  {
    forall i | 0 <= i < |ts| ensures FoundWhole(ts[i], [c]) <==> !Contains(ts[i], [c]) {
      OneByteToken(ts[i], c);
    }
  }

  lemma OneByteToken(t: seq<byte>, c: byte)
    ensures FoundWhole(t, [c]) <==> !Contains(t, [c])
  {
    forall i: nat | i < |t| ensures OccursAt(t + [c], [c], i) <==> OccursAt(t, [c], i) {
      assert (t + [c])[i..i + 1] == t[i..i + 1];
    }
  }
}
