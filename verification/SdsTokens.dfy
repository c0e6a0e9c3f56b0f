/** The loop of `sdssplitlen`, over strings in blocks of their own. */
module SdsTokens {
  import opened Bytes
  import opened Allocation
  import opened SdsLayout
  import opened SdsStrings
  import opened SdsSplit

  ghost function BlocksOf(list: seq<Sds>): set<nat>
    reads list
  {
    set t | t in list :: t.block
  }

  /** A token: a well-formed string with these bytes. */
  ghost predicate Token(t: Sds, bytes: seq<byte>, heap: Heap)
    reads t, t.mem
  {
    t.heap == heap && Fine(t.mem[..], t.s) && Body(t.mem[..], t.s) == bytes
  }

  /** Tokens in distinct blocks, which with the array's block are all that was allocated since `from`. */
  ghost predicate Built(list: seq<Sds>, want: seq<seq<byte>>, heap: Heap, base: set<nat>, block: nat, from: nat)
    reads heap, list, set t | t in list :: t.mem
  {
    && heap.Valid() && heap.live == base + {block} + BlocksOf(list)
    && List(list, want, heap, heap.requests, base, block, from)
  }

  ghost predicate List(list: seq<Sds>, want: seq<seq<byte>>, heap: Heap, requests: nat, base: set<nat>, block: nat,
                       from: nat)
    reads list, set t | t in list :: t.mem
  {
    && |list| == |want| && from <= block < requests
    && (forall b | b in base :: b < from)
    && (forall i | 0 <= i < |list| :: Token(list[i], want[i], heap))
    && (forall t | t in list :: from <= t.block < requests && t.block != block)
    && (forall i, j | 0 <= i < j < |list| :: list[i].block < list[j].block)
  }

  lemma BlocksGrow(list: seq<Sds>, t: Sds)
    ensures BlocksOf(list + [t]) == BlocksOf(list) + {t.block}
  {
    assert t in list + [t];
    assert forall u | u in list :: u in list + [t];
    assert forall u | u in list + [t] :: u in list || u == t;
  }

  lemma ListGrows(list: seq<Sds>, want: seq<seq<byte>>, t: Sds, bytes: seq<byte>, heap: Heap, base: set<nat>,
                  block: nat, from: nat)
    requires List(list, want, heap, t.block, base, block, from) && Token(t, bytes, heap)
    ensures List(list + [t], want + [bytes], heap, t.block + 1, base, block, from)
    ensures List(list, want, heap, t.block + 1, base, block, from)
  {
    hide Token;
    var l, w := list + [t], want + [bytes];
    forall i | 0 <= i < |l| ensures Token(l[i], w[i], heap) && from <= l[i].block <= t.block && l[i].block != block {
      if i < |list| { assert l[i] == list[i] && list[i] in list; }
    }
    forall i, j | 0 <= i < j < |l| ensures l[i].block < l[j].block {
      assert list[i] in list;
    }
  }

  lemma ListLater(list: seq<Sds>, want: seq<seq<byte>>, heap: Heap, requests: nat, later: nat, base: set<nat>,
                  block: nat, from: nat)
    requires List(list, want, heap, requests, base, block, from) && requests <= later
    ensures List(list, want, heap, later, base, block, from)
  {
  }

  /** `tokens[elements] = sdsnewlen(...)` */
  method AddToken(tokens: array<Sds?>, elements: nat, bytes: seq<byte>, heap: Heap,
                  ghost list: seq<Sds>, ghost want: seq<seq<byte>>, ghost base: set<nat>, ghost block: nat,
                  ghost from: nat) returns (t: Sds?)
    requires Built(list, want, heap, base, block, from) && Representable(|bytes|)
    requires |list| == elements < tokens.Length && tokens[..elements] == list
    modifies heap, tokens
    ensures t == null ==> Built(list, want, heap, base, block, from) && heap.refusals > old(heap.refusals)
    ensures t == null ==> tokens[..elements] == list
    ensures heap.Valid()
    ensures t != null ==>
      Built(list + [t], want + [bytes], heap, base, block, from) && heap.refusals == old(heap.refusals)
    ensures t != null ==> fresh(t) && fresh(t.mem) && tokens[..elements + 1] == list + [t]
  {
    hide Fine, Body, Len, Alloc, List, BlocksOf, Representable, Kind;
    t := NewLen(From(bytes), heap);
    tokens[elements] := t;
    if t == null {
      ListLater(list, want, heap, old(heap.requests), heap.requests, base, block, from);
    } else {
      BlocksGrow(list, t);
      ListGrows(list, want, t, bytes, heap, base, block, from);
    }
  }

  lemma BlocksShrink(list: seq<Sds>, i: nat)
    requires i < |list| && forall j, k | 0 <= j < k < |list| :: list[j].block < list[k].block
    ensures BlocksOf(list[i..]) - {list[i].block} == BlocksOf(list[i + 1..])
    ensures list[i].block in BlocksOf(list[i..])
  {
    assert list[i..][0] == list[i] && list[i..] == [list[i]] + list[i + 1..];
    assert forall t | t in list[i + 1..] :: t in list[i..];
    forall t | t in list[i + 1..] ensures t.block != list[i].block {
      var k :| 0 <= k < |list[i + 1..]| && list[i + 1..][k] == t;
      assert t == list[i + 1 + k];
    }
  }

  lemma Distinct(list: seq<Sds>, want: seq<seq<byte>>, heap: Heap, base: set<nat>, block: nat, from: nat)
    requires Built(list, want, heap, base, block, from)
    ensures heap.Valid() && heap.live == base + {block} + BlocksOf(list) && block !in base
    ensures forall j, k | 0 <= j < k < |list| :: list[j].block < list[k].block
    ensures forall k | 0 <= k < |list| :: list[k].block != block && list[k].block !in base
    ensures block !in BlocksOf(list) && BlocksOf(list) !! base
  {
  }

  /** The cleanup of `sdssplitlen`, and `sdsfreesplitres`: every block goes, once. */
  method FreeTokens(tokens: array<Sds?>, elements: nat, block: nat, heap: Heap,
                    ghost list: seq<Sds>, ghost want: seq<seq<byte>>, ghost base: set<nat>, ghost from: nat)
    requires Built(list, want, heap, base, block, from)
    requires |list| == elements <= tokens.Length && tokens[..elements] == list
    modifies heap`live
    ensures heap.Valid() && heap.live == base
  {
    hide Token, Built, List, BlocksOf;
    Distinct(list, want, heap, base, block, from);
    var i := 0;
    assert list[0..] == list;
    while i < elements
      invariant i <= elements && heap.Valid() && heap.live == base + {block} + BlocksOf(list[i..])
      invariant tokens[..elements] == list
    {
      assert tokens[i] == tokens[..elements][i] == list[i] && list[i] in list;
      BlocksShrink(list, i);
      heap.Free(tokens[i].block);
      i := i + 1;
    }
    NoBlocks(list[i..]);
    heap.Free(block);
  }

  lemma NoBlocks(list: seq<Sds>)
    requires list == []
    ensures BlocksOf(list) == {}
  {
  }

  /** Twice as many slots, by `realloc`. */
  method GrowSlots(tokens: array<Sds?>, elements: nat, block: nat, slots: nat, heap: Heap,
                   ghost list: seq<Sds>, ghost want: seq<seq<byte>>, ghost base: set<nat>, ghost from: nat)
    returns (newtokens: array?<Sds?>, newblock: nat)
    requires Built(list, want, heap, base, block, from)
    requires |list| == elements <= tokens.Length <= slots && tokens[..elements] == list
    modifies heap
    ensures newtokens == null ==> newblock == block && heap.refusals > old(heap.refusals)
    ensures newtokens != null ==> fresh(newtokens) && newtokens.Length == slots && newtokens[..elements] == list
    ensures newtokens != null ==> heap.refusals == old(heap.refusals)
    ensures Built(list, want, heap, base, newblock, from) && heap.Valid()
  {
    hide Token, List, BlocksOf;
    BlocksApart(list, want, heap, base, block, from);
    var moved := heap.Reallocate(block);
    if moved == None {
      ListLater(list, want, heap, old(heap.requests), heap.requests, base, block, from);
      return null, block;
    }
    newblock := moved.value;
    newtokens := new Sds?[slots](_ => null);
    forall i | 0 <= i < tokens.Length {
      newtokens[i] := tokens[i];
    }
    assert forall i | 0 <= i < elements :: newtokens[i] == tokens[i] == tokens[..elements][i];
  }

  lemma BlocksApart(list: seq<Sds>, want: seq<seq<byte>>, heap: Heap, base: set<nat>, block: nat, from: nat)
    requires Built(list, want, heap, base, block, from)
    ensures block !in BlocksOf(list) && block !in base && from <= block
    ensures forall newblock, later | heap.requests <= newblock < later ::
      List(list, want, heap, later, base, newblock, from)
    ensures forall newblock | newblock >= heap.requests :: newblock !in BlocksOf(list)
  {
  }

  /** The tokens up to `start` are in the array, which has room for one more. */
  ghost predicate Splitting(s: seq<byte>, sep: seq<byte>, start: nat, j: nat, vector: array<Sds?>,
                            list: seq<Sds>, want: seq<seq<byte>>, heap: Heap, base: set<nat>, block: nat, from: nat)
    reads vector, heap, list, set t | t in list :: t.mem
  {
    && sep != [] && start <= j && start <= |s| && |list| < vector.Length && vector[..|list|] == list
    && Built(list, want, heap, base, block, from)
    && SplitFrom(s, sep, 0, 0) == want + SplitFrom(s, sep, start, j)
  }

  /** Room for the next token and the final one, in a round of the loop. */
  method EnsureSlots(vector: array<Sds?>, elements: nat, block: nat, heap: Heap,
                     ghost list: seq<Sds>, ghost want: seq<seq<byte>>, ghost base: set<nat>, ghost from: nat)
    returns (newvector: array?<Sds?>, newblock: nat)
    requires Built(list, want, heap, base, block, from)
    requires |list| == elements < vector.Length && vector[..elements] == list
    modifies heap
    ensures newvector == null ==> heap.live == base && heap.Valid() && heap.refusals > old(heap.refusals)
    ensures newvector != null ==> newvector == vector || fresh(newvector)
    ensures newvector != null ==> elements + 2 <= newvector.Length && newvector[..elements] == list
    ensures newvector != null ==> Built(list, want, heap, base, newblock, from) && heap.refusals == old(heap.refusals)
  {
    hide List, Token, Built, BlocksOf;
    var slots := vector.Length;
    newvector, newblock := vector, block;
    if slots < elements + 2 {
      slots := slots * 2;
      newvector, newblock := GrowSlots(vector, elements, block, slots, heap, list, want, base, from);
      if newvector == null {
        FreeTokens(vector, elements, block, heap, list, want, base, from);
      }
    }
  }

  /** `tokens[elements] = sdsnewlen(...)`, and the way out when it fails. */
  method AddOrFree(vector: array<Sds?>, elements: nat, bytes: seq<byte>, block: nat, heap: Heap,
                   ghost list: seq<Sds>, ghost want: seq<seq<byte>>, ghost base: set<nat>, ghost from: nat)
    returns (t: Sds?)
    requires Built(list, want, heap, base, block, from) && Representable(|bytes|)
    requires |list| == elements < vector.Length && vector[..elements] == list
    modifies heap, vector
    ensures heap.Valid()
    ensures t == null ==> heap.live == base && heap.refusals > old(heap.refusals)
    ensures t != null ==>
      Built(list + [t], want + [bytes], heap, base, block, from) && heap.refusals == old(heap.refusals)
    ensures t != null ==> fresh(t) && fresh(t.mem) && vector[..elements + 1] == list + [t]
  {
    hide List, Token, Built, BlocksOf;
    t := AddToken(vector, elements, bytes, heap, list, want, base, block, from);
    if t == null {
      FreeTokens(vector, elements, block, heap, list, want, base, from);
    }
  }

  /**
   * `sdssplitlen`: an array with the tokens, each in a block of its own; a failed call leaves no block.
   * The array always has room for one more token, so the last one needs no test.
   */
  method SplitLen(s: seq<byte>, sep: seq<byte>, heap: Heap)
    returns (tokens: array?<Sds?>, block: nat, count: nat, ghost list: seq<Sds>)
    requires heap.Valid() && Representable(|s|)
    modifies heap
    ensures heap.Valid() && heap.refusals >= old(heap.refusals)
    ensures tokens == null <==> sep == [] || heap.refusals > old(heap.refusals)
    ensures tokens == null ==> heap.live == old(heap.live)
    ensures tokens != null ==>
      && sep != [] && count == |list| <= tokens.Length && tokens[..count] == list
      && Built(list, Split(s, sep), heap, old(heap.live), block, old(heap.requests))
  {
    hide List, SplitFrom, Token, Built, OccursAt, Split, BlocksOf, Heap.Valid;
    SplitIs(s, sep);
    Numbered(heap);
    tokens, block, count, list := null, 0, 0, [];
    if |sep| < 1 {
      return;
    }
    ghost var base, from := heap.live, heap.requests;
    var slots := 5;
    var granted := heap.Allocate();
    if granted == None {
      return;
    }
    block := granted.value;
    var vector: array<Sds?> := new Sds?[slots](_ => null);
    EmptyList(heap, base, block, from);
    if |s| == 0 {
      return vector, block, 0, [];
    }
    tokens, block, count, list := SplitLoop(s, sep, vector, block, heap, base, from);
  }

  /** The loop of `sdssplitlen` and the final token. */
  method SplitLoop(s: seq<byte>, sep: seq<byte>, first: array<Sds?>, firstBlock: nat, heap: Heap, ghost base: set<nat>,
                   ghost from: nat)
    returns (tokens: array?<Sds?>, block: nat, count: nat, ghost list: seq<Sds>)
    requires sep != [] && first.Length > 0 && Built([], [], heap, base, firstBlock, from) && Representable(|s|)
    modifies heap, first
    ensures heap.Valid() && heap.refusals >= old(heap.refusals)
    ensures tokens == null <==> heap.refusals > old(heap.refusals)
    ensures tokens == null ==> heap.live == base && count == 0
    ensures tokens != null ==> count == |list| <= tokens.Length && tokens[..count] == list
    ensures tokens != null ==> Built(list, SplitFrom(s, sep, 0, 0), heap, base, block, from)
  {
    hide List, SplitFrom, Token, Built, OccursAt, BlocksOf, Heap.Valid;
    var vector: array<Sds?> := first;
    var elements: nat, start: nat, j: nat := 0, 0, 0;
    ghost var want: seq<seq<byte>> := [];
    list, block := [], firstBlock;
    while j + (|sep| - 1) < |s|
      invariant elements == |list| && (vector == first || fresh(vector)) && heap.refusals == old(heap.refusals)
      invariant Splitting(s, sep, start, j, vector, list, want, heap, base, block, from)
      decreases |s| - j
    {
      var newvector, newblock := EnsureSlots(vector, elements, block, heap, list, want, base, from);
      if newvector == null {
        return null, 0, 0, [];
      }
      vector, block := newvector, newblock;
      SplitStep(s, sep, start, j);
      if OccursAt(s, sep, j) {
        var t := AddOrFree(vector, elements, s[start..j], block, heap, list, want, base, from);
        if t == null {
          return null, 0, 0, [];
        }
        Regroup(want, s[start..j], SplitFrom(s, sep, j + |sep|, j + |sep|));
        list, want := list + [t], want + [s[start..j]];
        elements := elements + 1;
        start := j + |sep|;
        j := j + |sep| - 1;
      }
      j := j + 1;
    }
    SplitStep(s, sep, start, j);
    var t := AddOrFree(vector, elements, s[start..], block, heap, list, want, base, from);
    if t == null {
      return null, 0, 0, [];
    }
    return vector, block, elements + 1, list + [t];
  }

  lemma Regroup(want: seq<seq<byte>>, t: seq<byte>, rest: seq<seq<byte>>)
    ensures want + ([t] + rest) == (want + [t]) + rest
  {
  }

  lemma EmptyList(heap: Heap, base: set<nat>, block: nat, from: nat)
    requires heap.Valid() && heap.live == base + {block}
    requires from <= block < heap.requests && forall b | b in base :: b < from
    ensures Built([], [], heap, base, block, from)
  {
    NoBlocks([]);
  }

  lemma Numbered(heap: Heap)
    requires heap.Valid()
    ensures forall b | b in heap.live :: b < heap.requests
  {
  }

  lemma SplitIs(s: seq<byte>, sep: seq<byte>)
    ensures sep != [] ==> Split(s, sep) == if s == [] then [] else SplitFrom(s, sep, 0, 0)
  {
  }

  lemma SplitStep(s: seq<byte>, sep: seq<byte>, start: nat, j: nat)
    requires |sep| > 0 && start <= j && start <= |s|
    ensures OccursAt(s, sep, j) ==> j + |sep| <= |s|
    ensures j + |sep| > |s| ==> SplitFrom(s, sep, start, j) == [s[start..]]
    ensures OccursAt(s, sep, j) ==>
      SplitFrom(s, sep, start, j) == [s[start..j]] + SplitFrom(s, sep, j + |sep|, j + |sep|)
    ensures j + |sep| <= |s| && !OccursAt(s, sep, j) ==> SplitFrom(s, sep, start, j) == SplitFrom(s, sep, start, j + 1)
  {
  }
}
