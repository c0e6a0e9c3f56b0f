/** Appending in pieces: how often an sds string moves, and `sdsjoinsds`. */
module SdsJoin {
  import opened Bytes
  import opened Allocation
  import opened SdsLayout
  import opened SdsStrings
  import opened SdsSplit

  /** Length, capacity and number of reallocations of a string that started empty. */
  datatype Size = Size(len: nat, capacity: nat, moves: nat)

  function Append(z: Size, n: nat): Size {
    Size(z.len + n, Grown(z.capacity, z.len, n), z.moves + (if z.len + n <= z.capacity then 0 else 1))
  }

  function Track(pieces: seq<nat>): Size {
    if pieces == [] then Size(0, 0, 0) else Append(Track(pieces[..|pieces| - 1]), pieces[|pieces| - 1])
  }

  function Pow2(k: nat): (r: nat)
    ensures r > 0
  {
    if k == 0 then 1 else 2 * Pow2(k - 1)
  }

  /** The fewest bytes that can move a string `k` times: doubling first, then steps of a constant. */
  function Least(k: nat): nat {
    if k <= 20 then Pow2(k) - 1 else (k - 19) * MAX_PREALLOC + k - 22
  }

  lemma Powers()
    ensures Pow2(20) == MAX_PREALLOC
  {
    assert Pow2(10) == 1024;
  }

  lemma {:induction false} PowersGrow(j: nat, k: nat)
    requires j <= k
    ensures Pow2(j) <= Pow2(k)
  {
    if j < k {
      PowersGrow(j, k - 1);
    }
  }

  /** One byte more than the capacity that the last move left. */
  lemma LeastStep(k: nat, len: nat)
    requires len >= Least(k)
    ensures Grown(0, 0, len) + 1 >= Least(k + 1) && (len == Least(k) ==> k == 0 || Grown(0, 0, len) + 1 == Least(k + 1))
  {
    Powers();
    if k <= 20 {
      PowersGrow(k, 20);
    }
  }

  /**
   * Appending to an empty string, in any pieces, moves it `k` times only with `Least(k)` bytes: with N bytes at
   * most log2(N + 1) times below 2^20 bytes, and then once more for each further 2^20 bytes.
   */
  lemma {:induction false} GrowthBound(pieces: seq<nat>)
    ensures var z := Track(pieces);
      Least(z.moves) <= z.len <= z.capacity && Least(z.moves + 1) <= z.capacity + 1
    decreases |pieces|
  {
    hide Least;
    if pieces == [] {
      NoMoves();
    } else {
      var y, n := Track(pieces[..|pieces| - 1]), pieces[|pieces| - 1];
      GrowthBound(pieces[..|pieces| - 1]);
      if y.len + n > y.capacity {
        LeastStep(y.moves + 1, y.len + n);
      }
    }
  }

  /** In round numbers: at most 20 moves, and one more for each 2^20 bytes. */
  lemma MovesAtMost(pieces: seq<nat>)
    ensures Track(pieces).moves <= 20 + Track(pieces).len / 0x10_0000
  {
    hide Track;
    var z := Track(pieces);
    GrowthBound(pieces);
    if z.moves > 20 {
      assert (z.moves - 20) * MAX_PREALLOC <= z.len;
    }
  }

  lemma NoMoves()
    ensures Least(0) == 0 && Least(1) == 1
  {
    assert Pow2(1) == 2;
  }

  /** Pieces that fill the string up and overflow it by one byte each time: 1, 2, 4, ... while it doubles. */
  function Overflowing(k: nat): seq<nat> {
    if k == 0 then [] else
      LeastGrows(k - 1);
      Overflowing(k - 1) + [Least(k) - Least(k - 1)]
  }

  lemma LeastGrows(k: nat)
    ensures Least(k) < Least(k + 1)
  {
    Powers();
  }

  /** So the bound is attained for every number of moves. */
  lemma {:induction false} BoundAttained(k: nat)
    ensures Track(Overflowing(k)).len == Least(k) && Track(Overflowing(k)).moves == k
    ensures Track(Overflowing(k)).capacity + 1 == Least(k + 1)
  {
    hide Least;
    if k == 0 {
      NoMoves();
    } else {
      BoundAttained(k - 1);
      LeastGrows(k - 1);
      assert Overflowing(k)[..|Overflowing(k)| - 1] == Overflowing(k - 1);
      LeastStep(k, Least(k));
    }
  }

  /** What is still to be appended from token `j` on. */
  lemma JoinStep(ts: seq<seq<byte>>, sep: seq<byte>, j: nat)
    requires j < |ts|
    ensures j + 1 < |ts| ==> Join(ts[j..], sep) == ts[j] + sep + Join(ts[j + 1..], sep)
    ensures j + 1 == |ts| ==> Join(ts[j..], sep) == ts[j]
    ensures j + 1 == |ts| ==> Join(ts[j + 1..], sep) == []
  {
    assert ts[j..][1..] == ts[j + 1..];
  }

  /** What an append does to the size of a string that has been tracked. */
  lemma TrackAppend(pieces: seq<nat>, n: nat)
    ensures Track(pieces + [n]) == Append(Track(pieces), n)
  {
    assert (pieces + [n])[..|pieces| + 1 - 1] == pieces;
  }

  /** `sdscatlen` on a tracked string. */
  method CatTracked(s: Sds, t: seq<byte>, ghost z: Size) returns (ok: bool)
    requires s.Valid() && Representable(|s.Contents()| + |t|) && z.len == |s.Contents()| && z.capacity == s.Capacity()
    modifies s, s.mem, s.heap
    ensures s.Valid() && fresh({s.mem} - {old(s.mem)})
    ensures s.heap.refusals == old(s.heap.refusals) + (if ok then 0 else 1)
    ensures s.OneBlock()
    ensures ok ==> s.Contents() == old(s.Contents()) + t
    ensures ok ==>
      && Append(z, |t|).len == |s.Contents()| && Append(z, |t|).capacity == s.Capacity()
      && s.heap.requests == old(s.heap.requests) + Append(z, |t|).moves - z.moves >= old(s.heap.requests)
  {
    hide Len, Alloc;
    ok := s.CatLen(t);
  }

  /** What is appended and what is left make up the joined string. */
  ghost predicate Joining(join: Sds, left: seq<byte>, all: seq<byte>, pieces: seq<nat>, from: nat)
    reads join, join.mem, join.heap
  {
    && join.Valid() && join.Contents() + left == all && from <= join.heap.requests
    && Track(pieces) == Size(|join.Contents()|, join.Capacity(), join.heap.requests - from)
  }

  /** One append on the way. */
  method JoinPiece(join: Sds, t: seq<byte>, ghost left: seq<byte>, ghost all: seq<byte>, ghost pieces: seq<nat>,
                   ghost from: nat)
    returns (ok: bool)
    requires Joining(join, t + left, all, pieces, from) && Representable(|all|)
    modifies join, join.mem, join.heap
    ensures join.Valid() && fresh({join.mem} - {old(join.mem)})
    ensures join.heap.refusals == old(join.heap.refusals) + (if ok then 0 else 1)
    ensures join.OneBlock()
    ensures ok ==> Joining(join, left, all, pieces + [|t|], from)
  {
    hide Track, Join, Len, Alloc, Grown, Append;
    assert join.Contents() + (t + left) == (join.Contents() + t) + left;
    TrackAppend(pieces, |t|);
    ok := CatTracked(join, t, Track(pieces));
  }

  /**
   * `sdsjoinsds`: the tokens with the separator between them, in one new block.  A refused request, which the
   * C code does not test for, ends the call here; what had been joined then stays behind in its block.
   */
  method JoinSds(argv: seq<seq<byte>>, sep: seq<byte>, heap: Heap) returns (join: Sds?, ghost pieces: seq<nat>)
    requires heap.Valid() && Representable(|Join(argv, sep)|)
    modifies heap
    ensures heap.Valid() && (join != null <==> heap.refusals == old(heap.refusals))
    ensures join != null ==> fresh(join) && join.Valid() && join.Contents() == Join(argv, sep)
    ensures join != null ==> join.block !in old(heap.live) && heap.live == old(heap.live) + {join.block}
    ensures old(heap.live) <= heap.live && |heap.live - old(heap.live)| <= 1
    ensures join != null ==> heap.requests == old(heap.requests) + 1 + Track(pieces).moves
    ensures join != null ==> Least(heap.requests - old(heap.requests) - 1) <= |Join(argv, sep)|
  {
    hide Track, Join, Len, Alloc, Joining, Fine;
    pieces := [];
    join := NewLen(From([]), heap);
    if join == null {
      return;
    }
    ghost var all, from := Join(argv, sep), heap.requests;
    JoiningStarts(join, argv, sep, from);
    var j := 0;
    while j < |argv|
      invariant j <= |argv| && fresh(join) && fresh(join.mem) && join.heap == heap && heap.Valid()
      invariant heap.refusals == old(heap.refusals) && Joining(join, Join(argv[j..], sep), all, pieces, from)
      invariant heap.live == old(heap.live) + {join.block} && join.block !in old(heap.live)
    {
      var ok;
      ok, pieces := JoinToken(join, argv, sep, j, all, pieces, from);
      if !ok {
        OneMore(old(heap.live), heap.live, join.block);
        return null, pieces;
      }
      j := j + 1;
    }
    OneMore(old(heap.live), heap.live, join.block);
    JoiningEnds(join, argv, sep, all, pieces, from);
  }

  lemma OneMore(before: set<nat>, after: set<nat>, block: nat)
    requires after == before + {block}
    ensures before <= after && |after - before| <= 1
  {
    if block in before {
      assert after - before == {};
    } else {
      assert after - before == {block};
    }
  }

  /** One round: a token, and the separator if another one follows. */
  method JoinToken(join: Sds, argv: seq<seq<byte>>, sep: seq<byte>, j: nat, ghost all: seq<byte>,
                   ghost pieces: seq<nat>, ghost from: nat)
    returns (ok: bool, ghost out: seq<nat>)
    requires j < |argv| && Joining(join, Join(argv[j..], sep), all, pieces, from) && Representable(|all|)
    modifies join, join.mem, join.heap
    ensures join.Valid() && fresh({join.mem} - {old(join.mem)}) && join.OneBlock()
    ensures join.heap.refusals == old(join.heap.refusals) + (if ok then 0 else 1)
    ensures ok ==> Joining(join, Join(argv[j + 1..], sep), all, out, from)
  {
    hide Track, Join, Len, Alloc, Joining, Fine;
    JoinStep(argv, sep, j);
    ghost var rest := Join(argv[j + 1..], sep);
    ghost var left := if j != |argv| - 1 then sep + rest else rest;
    assert argv[j] + left == Join(argv[j..], sep);
    ok := JoinPiece(join, argv[j], left, all, pieces, from);
    out := pieces + [|argv[j]|];
    if ok && j != |argv| - 1 {
      ok := JoinPiece(join, sep, rest, all, out, from);
      out := out + [|sep|];
    }
  }

  lemma JoiningStarts(join: Sds, argv: seq<seq<byte>>, sep: seq<byte>, from: nat)
    requires join.Valid() && join.Contents() == [] && join.Capacity() == 0 && join.heap.requests == from
    ensures Joining(join, Join(argv[0..], sep), Join(argv, sep), [], from)
  {
    assert argv[0..] == argv;
    TrackNothing();
  }

  lemma JoiningEnds(join: Sds, argv: seq<seq<byte>>, sep: seq<byte>, all: seq<byte>, pieces: seq<nat>, from: nat)
    requires Joining(join, Join(argv[|argv|..], sep), all, pieces, from)
    ensures join.Valid() && join.Contents() == all && join.heap.requests == from + Track(pieces).moves
    ensures Least(Track(pieces).moves) <= |all|
  {
    hide Track, Least;
    assert argv[|argv|..] == [];
    assert join.Contents() + [] == join.Contents();
    GrowthBound(pieces);
  }

  lemma TrackNothing()
    ensures Track([]) == Size(0, 0, 0)
  {
  }
}
