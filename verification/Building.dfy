/** Sibling lists under construction, and what they own. */
module Building {
  import opened Bytes
  import opened Doubles
  import opened Json
  import opened Allocation
  import opened Tree
  import opened Lifetime
  import opened Lists

  lemma EmptyGrowing(heap: Heap)
    requires heap.Valid()
    ensures Growing(heap, [], {}, heap.live, heap.requests)
  {
    NothingOwned([]);
  }

  ghost function NodesOf(list: seq<Node>): set<Node> {
    set n | n in list
  }

  /** A growing list together with its descendants is a sound set of nodes. */
  lemma GrowingSound(heap: Heap, list: seq<Node>, K: set<Node>, base: set<nat>, from: nat)
    requires Growing(heap, list, K, base, from)
    ensures Sound(K + NodesOf(list)) && NoReferences(K + NodesOf(list)) && Follows(list) && Apart(list) && Chain(list)
    ensures OwnedBy(list) <= heap.live && base == heap.live - OwnedBy(list) && base !! OwnedBy(list)
  {
    hide OwnedBy, Apart, Node.Means, Node.Owns;
  }

  lemma NewFrom(heap: Heap, list: seq<Node>, K: set<Node>, base: set<nat>, from: nat)
    requires Growing(heap, list, K, base, from)
    ensures heap.live == base + OwnedBy(list) && forall b | b in OwnedBy(list) :: from <= b
  {
  }

  lemma OkIntro(n: Node, D: set<Node>)
    requires n.child == First(n.elems) && Chain(n.elems) && (forall e | e in n.elems :: e in D && e != n)
    requires n.Means() && n.Owns()
    ensures n.Ok(D)
  {
  }

  function TailOf(tail: Node?): set<Node> {
    if tail == null then {} else {tail}
  }

  /**
   * A list under construction: linked, its nodes sound over the descendants `K`, and owning exactly
   * the blocks allocated since the heap held `base` and had served `from` requests.
   */
  ghost predicate Growing(heap: Heap, list: seq<Node>, K: set<Node>, base: set<nat>, from: nat)
    reads heap, list, K
  {
    && Chain(list) && Apart(list) && Sound(K) && NoReferences(K) && NoReferences(NodesOf(list))
    && (forall n | n in list :: n !in K && (forall e | e in n.elems :: e in K) && n.Ok(K))
    && heap.live == base + OwnedBy(list)
    && (forall b | b in OwnedBy(list) :: from <= b) && (forall b | b in base :: b < from)
  }

  lemma NoneAdded(list: seq<Node>, n: Node)
    requires NoReferences(NodesOf(list)) && !n.isReference
    ensures NoReferences(NodesOf(list + [n]))
  {
  }

  lemma BlankOk(n: Node, K: set<Node>)
    requires n.Blank() && n.key == None && n.owned == {n.block} && n.next == null && n.prev == null
    ensures n.Ok(K) && n.Owns() && Chain([n])
  {
    NothingOwned(n.elems);
  }

  lemma Extend(heap: Heap, list: seq<Node>, node: Node, K: set<Node>, base: set<nat>, from: nat)
    requires Chain(list + [node]) && Apart(list) && Sound(K) && NoReferences(K) && NoReferences(NodesOf(list + [node]))
    requires forall n | n in list + [node] :: n !in K && (forall e | e in n.elems :: e in K) && n.Ok(K)
    requires heap.live == base + OwnedBy(list) + node.owned && node.owned !! base + OwnedBy(list)
    requires forall b | b in OwnedBy(list) + node.owned :: from <= b
    requires forall b | b in base :: b < from
    ensures Growing(heap, list + [node], K, base, from)
  {
    hide Sound, Node.Ok, Chain;
    OwnedByAppend(list, node);
    forall i | 0 <= i < |list| ensures list[i].owned !! node.owned {
      assert list[i].owned <= OwnedBy(list) by { OwnedByPrefix(list, i); }
    }
  }

  /** Blocks allocated by the last request or later are apart from all that were live before. */
  lemma NewBlocksApart(before: set<nat>, after: set<nat>, base: set<nat>, others: set<nat>, from: nat, requests: nat)
    requires before <= after && from <= requests
    requires forall b | b in after - before :: requests <= b
    requires forall b | b in base + others + before :: b < requests
    requires before !! base + others && forall b | b in others + before :: from <= b
    ensures after !! base + others && forall b | b in others + after :: from <= b
  {
    forall b | b in after ensures b !in base + others && from <= b {
      if b !in before {
        assert b in after - before;
        assert b in base + others ==> b in base + others + before;
      } else {
        assert b in others + before;
      }
    }
    forall b | b in others + after ensures from <= b {
      assert b in after || b in others + before;
    }
  }

  /** Nodes sound over two sets of descendants are sound over both. */
  lemma Widen(front: seq<Node>, last: Node, K: set<Node>, D: set<Node>)
    requires Sound(K) && Sound(D) && last.Ok(D) && forall n | n in front :: n.Ok(K)
    ensures Sound(K + D) && forall n | n in front + [last] :: n.Ok(K + D) && forall e | e in n.elems :: e in K + D
  {
    hide Node.Means, Node.Owns, Chain;
  }

  /** What a growing list says about its last node and the others. */
  lemma Retract(heap: Heap, front: seq<Node>, last: Node, K: set<Node>, base: set<nat>, from: nat)
    requires Growing(heap, front + [last], K, base, from)
    ensures Chain(front + [last]) && Apart(front) && Sound(K) && last !in front && last !in K
    ensures NoReferences(K) && NoReferences(NodesOf(front + [last]))
    ensures forall n | n in front :: n !in K && (forall e | e in n.elems :: e in K) && n.Ok(K)
    ensures heap.live == base + OwnedBy(front) + last.owned && base + OwnedBy(front) !! last.owned
    ensures forall b | b in OwnedBy(front) + last.owned :: from <= b
    ensures forall b | b in base :: b < from
  {
    hide Sound, Node.Ok;
    var list := front + [last];
    OwnedByAppend(front, last);
    assert forall i | 0 <= i < |front| :: list[i] == front[i];
    assert list[|front|] == last;
    assert list[..|front|] == front;
    OwnedByPrefix(list, |front|);
  }

  lemma OwnedByAppend(list: seq<Node>, n: Node)
    ensures OwnedBy(list + [n]) == OwnedBy(list) + n.owned
  {
    assert (list + [n])[..|list|] == list;
    OwnedByPrefix(list + [n], |list|);
    assert (list + [n])[..|list| + 1] == list + [n];
  }

  ghost function ValuesOf(list: seq<Node>): seq<Value>
    reads list`value
  {
    if list == [] then [] else ValuesOf(list[..|list| - 1]) + [list[|list| - 1].value]
  }

  lemma ValuesDenote(list: seq<Node>, str: Option<CString>, x: double)
    ensures Denotes(KArray, str, x, list, Arr(ValuesOf(list)))
  {
    ValuesAt(list);
  }

  lemma MembersDenote(list: seq<Node>, str: Option<CString>, x: double)
    requires forall n | n in list :: n.key.Some?
    ensures Denotes(KObject, str, x, list, Obj(MembersOf(list)))
  {
    MembersAt(list);
  }

  lemma NoneOf()
    ensures ValuesOf([]) == [] && MembersOf([]) == []
  {
  }

  lemma ValuesAppend(list: seq<Node>, n: Node)
    ensures ValuesOf(list + [n]) == ValuesOf(list) + [n.value]
  {
    assert (list + [n])[..|list|] == list;
  }

  lemma {:induction false} ValuesAt(list: seq<Node>)
    ensures |ValuesOf(list)| == |list| && forall i | 0 <= i < |list| :: ValuesOf(list)[i] == list[i].value
  {
    if list != [] {
      var rest := list[..|list| - 1];
      ValuesAt(rest);
      assert forall i | 0 <= i < |rest| :: rest[i] == list[i];
    }
  }

  ghost function MemberOf(n: Node): Member
    reads n`key, n`value
  {
    Member(if n.key.Some? then n.key.value.Text() else [], n.value)
  }

  ghost function MembersOf(list: seq<Node>): seq<Member>
    reads list`key, list`value
  {
    if list == [] then [] else MembersOf(list[..|list| - 1]) + [MemberOf(list[|list| - 1])]
  }

  lemma MembersAppend(list: seq<Node>, n: Node)
    ensures MembersOf(list + [n]) == MembersOf(list) + [MemberOf(n)]
  {
    assert (list + [n])[..|list|] == list;
  }

  lemma {:induction false} MembersLength(list: seq<Node>)
    ensures |MembersOf(list)| == |list|
  {
    if list != [] {
      MembersLength(list[..|list| - 1]);
    }
  }

  lemma {:induction false} MemberAt(list: seq<Node>, i: nat)
    requires i < |list|
    ensures |MembersOf(list)| == |list| && MembersOf(list)[i] == MemberOf(list[i])
  {
    hide MemberOf;
    var rest := list[..|list| - 1];
    MembersLength(rest);
    if i < |rest| {
      MemberAt(rest, i);
    }
  }

  lemma MembersAt(list: seq<Node>)
    ensures |MembersOf(list)| == |list| && forall i | 0 <= i < |list| :: MembersOf(list)[i] == MemberOf(list[i])
  {
    hide MembersOf, MemberOf;
    MembersLength(list);
    forall i | 0 <= i < |list| ensures MembersOf(list)[i] == MemberOf(list[i]) {
      MemberAt(list, i);
    }
  }

  /** Allocate a node and attach it to the end of the list. */
  method AttachNew(heap: Heap, ghost list: seq<Node>, tail: Node?, ghost K: set<Node>, ghost base: set<nat>,
                   ghost from: nat)
    returns (node: Node?)
    requires heap.Valid() && Growing(heap, list, K, base, from) && from <= heap.requests
    requires tail == Last(list)
    modifies heap, TailOf(tail)`next
    ensures heap.Valid() && heap.requests > old(heap.requests)
    ensures node != null ==>
      fresh(node) && Growing(heap, list + [node], K, base, from) && heap.refusals == old(heap.refusals)
    ensures node != null ==>
      node.Blank() && node.Owns() && node.key == None && !node.keyIsConst && node.owned <= heap.live
    ensures node == null ==> Growing(heap, list, K, base, from) && heap.refusals > old(heap.refusals)
  {
    hide OwnedBy, Sound, Node.Ok, Node.Means, Node.Owns, Chain, Apart, NoReferences;
    var block := heap.Allocate();
    if block == None {
      return null;
    }
    node := new Node(block.value);
    BlankOk(node, K);
    NoneAdded(list, node);
    if tail != null {
      AttachAfter(tail, node, list);
    } else {
      assert list + [node] == [node];
    }
    assert node !in K && node.elems == [] && node.Ok(K);
    forall n | n in list ensures n.Ok(K) {
      assert old(n.Ok(K)) && tail !in n.elems;
    }
    Extend(heap, list, node, K, base, from);
  }

  /** The failure exit of `parse_array` and `parse_object`: the list so far is deleted. */
  method Abandon(heap: Heap, head: Node?, ghost list: seq<Node>, ghost K: set<Node>, ghost base: set<nat>,
                 ghost from: nat)
    requires heap.Valid() && Growing(heap, list, K, base, from) && head == First(list)
    modifies heap`live
    ensures heap.Valid() && heap.live == base
  {
    hide OwnedBy, Apart, Node.Ok;
    GrowingSound(heap, list, K, base, from);
    if head != null {
      Delete(head, heap, list, K + NodesOf(list));
    } else {
      NothingOwned(list);
    }
  }

  /** The success exit: the item takes the list as its children. */
  method Adopt(item: Node, kind: Kind, head: Node?, heap: Heap, ghost list: seq<Node>, ghost K: set<Node>,
               ghost from: nat, ghost v: Value)
    requires Growing(heap, list, K, heap.live - OwnedBy(list), from) && head == First(list)
    requires item.child == null && item.elems == [] && !item.isReference && item.Owns()
    requires item.owned <= heap.live - OwnedBy(list) && item !in list && item !in K
    requires Denotes(kind, item.valuestring, item.valuedouble, list, v)
    requires CutNumber(kind, item.valuedouble, item.valueint)
    modifies item`kind, item`child, item`elems, item`value, item`owned
    ensures item.kind == kind && item.value == v && item.owned == old(item.owned) + OwnedBy(list)
    ensures item.Ok(K + NodesOf(list)) && Sound(K + NodesOf(list)) && NoReferences(K + NodesOf(list))
    ensures OwnedBy(list) == old(OwnedBy(list))
  {
    hide OwnedBy, Apart, Node.Ok, Sound, Denotes, Chain;
    GrowingSound(heap, list, K, heap.live - OwnedBy(list), from);
    NothingOwned(item.elems);
    item.kind, item.child := kind, head;
    item.elems, item.value, item.owned := list, v, item.owned + OwnedBy(list);
    OkIntro(item, K + NodesOf(list));
  }

  method AdoptArray(item: Node, head: Node?, heap: Heap, ghost list: seq<Node>, ghost K: set<Node>, ghost from: nat)
    requires Growing(heap, list, K, heap.live - OwnedBy(list), from) && head == First(list)
    requires item.Blank() && item.Owns() && item.owned <= heap.live - OwnedBy(list) && item !in list && item !in K
    modifies item`kind, item`child, item`elems, item`value, item`owned
    ensures item.kind == KArray && item.value == Arr(old(ValuesOf(list)))
    ensures item.owned == old(item.owned) + old(OwnedBy(list))
    ensures item.Ok(K + NodesOf(list)) && Sound(K + NodesOf(list)) && NoReferences(K + NodesOf(list))
  {
    hide Growing, OwnedBy, Apart, Node.Ok, Sound, Denotes, Node.Owns;
    ValuesDenote(list, item.valuestring, item.valuedouble);
    Adopt(item, KArray, head, heap, list, K, from, Arr(ValuesOf(list)));
  }

  method AdoptObject(item: Node, head: Node?, heap: Heap, ghost list: seq<Node>, ghost K: set<Node>, ghost from: nat)
    requires Growing(heap, list, K, heap.live - OwnedBy(list), from) && head == First(list)
    requires item.Blank() && item.Owns() && item.owned <= heap.live - OwnedBy(list) && item !in list && item !in K
    requires forall n | n in list :: n.key.Some?
    modifies item`kind, item`child, item`elems, item`value, item`owned
    ensures item.kind == KObject && item.value == Obj(old(MembersOf(list)))
    ensures item.owned == old(item.owned) + old(OwnedBy(list))
    ensures item.Ok(K + NodesOf(list)) && Sound(K + NodesOf(list)) && NoReferences(K + NodesOf(list))
  {
    hide Growing, OwnedBy, Apart, Node.Ok, Sound, Denotes, Node.Owns;
    MembersDenote(list, item.valuestring, item.valuedouble);
    Adopt(item, KObject, head, heap, list, K, from, Obj(MembersOf(list)));
  }

  /** Attach a finished tree to the end of the list. */
  method AppendTree(heap: Heap, tail: Node?, node: Node, ghost list: seq<Node>, ghost K: set<Node>, ghost D: set<Node>,
                    ghost base: set<nat>, ghost from: nat)
    requires Chain(list) && Apart(list) && Sound(K) && Sound(D) && node.Ok(D) && Detached(node) && tail == Last(list)
    requires forall n | n in list :: n !in K && (forall e | e in n.elems :: e in K) && n.Ok(K)
    requires node !in list && node !in K && node !in D && forall n | n in list :: n !in D
    requires NoReferences(K + NodesOf(list)) && NoReferences(D) && !node.isReference
    requires heap.live == base + OwnedBy(list) + node.owned && node.owned !! base + OwnedBy(list)
    requires forall b | b in OwnedBy(list) + node.owned :: from <= b
    requires forall b | b in base :: b < from
    modifies TailOf(tail)`next, node`prev
    ensures Growing(heap, list + [node], K + D, base, from)
  {
    hide OwnedBy, Sound, Node.Ok, Apart;
    ChildrenIn(node, D);
    if tail != null {
      assert tail in list;
      AttachAfter(tail, node, list);
    } else {
      assert list + [node] == [node];
    }
    assert Chain(list + [node]);
    forall n | n in list ensures n.Ok(K) {
      assert old(n.Ok(K)) && tail !in n.elems && node !in n.elems;
    }
    assert forall k | 0 <= k < |node.elems| :: node.elems[k] in D;
    Widen(list, node, K, D);
    Extend(heap, list, node, K + D, base, from);
  }
}
