/** Freeing whole trees. */
module Lifetime {
  import opened Bytes
  import opened Allocation
  import opened Tree

  lemma OwnedByPrefix(list: seq<Node>, i: nat)
    requires i < |list|
    ensures OwnedBy(list[..i + 1]) == OwnedBy(list[..i]) + list[i].owned
    ensures list[i].owned <= OwnedBy(list)
    ensures Apart(list) ==> OwnedBy(list[..i]) !! list[i].owned
  {
    assert list[..i + 1] == list[..i] + [list[i]];
    assert list[i] in list;
    forall b | b in OwnedBy(list[..i + 1]) ensures b in OwnedBy(list[..i]) + list[i].owned {
      var e :| e in list[..i + 1] && b in e.owned;
      assert e in list[..i] || e == list[i];
    }
    forall b | b in OwnedBy(list[..i]) + list[i].owned ensures b in OwnedBy(list[..i + 1]) {
      if b in list[i].owned {
        assert list[i] in list[..i + 1];
      } else {
        var e :| e in list[..i] && b in e.owned;
        assert e in list[..i + 1];
      }
    }
  }

  ghost predicate Follows(list: seq<Node>)
    reads list
  {
    forall i | 0 <= i < |list| :: list[i].next == if i + 1 < |list| then list[i + 1] else null
  }

  lemma FollowsAt(list: seq<Node>, i: nat)
    requires Follows(list) && i < |list|
    ensures list[i].next == if i + 1 < |list| then list[i + 1] else null
  {
  }

  /** `cJSON_Delete`: the blocks of the list are freed, each of them once, and no others. */
  method Delete(item: Node?, heap: Heap, ghost list: seq<Node>, ghost D: set<Node>)
    requires heap.Valid() && item == First(list) && Follows(list) && Sound(D)
    requires forall n | n in list :: n in D
    requires Apart(list) && OwnedBy(list) <= heap.live
    modifies heap`live
    ensures heap.Valid() && heap.live == old(heap.live) - OwnedBy(list)
    decreases OwnedBy(list), 1
  {
    hide Sound, Node.Ok, OwnedBy, Apart;
    var current := item;
    ghost var i := 0;
    NothingOwned(list[..0]);
    while current != null
      invariant i <= |list| && current == (if i < |list| then list[i] else null)
      invariant Follows(list)
      invariant heap.Valid() && heap.live == old(heap.live) - OwnedBy(list[..i])
      decreases |list| - i
    {
      OwnedByPrefix(list, i);
      assert list[i] in list;
      var next := current.next;
      FollowsAt(list, i);
      SoundAt(D, current);
      Discard(current, heap, D);
      current := next;
      i := i + 1;
    }
    assert list[..i] == list;
  }

  lemma NothingOwned(list: seq<Node>)
    requires list == []
    ensures OwnedBy(list) == {}
  {
  }

  /** One round of the loop in `cJSON_Delete`. */
  method Discard(item: Node, heap: Heap, ghost D: set<Node>)
    requires heap.Valid() && item.Ok(D) && Sound(D) && item.owned <= heap.live
    modifies heap`live
    ensures heap.Valid() && heap.live == old(heap.live) - item.owned
    decreases item.owned, 0
  {
    hide Sound, OwnedBy, Apart, Node.Means;
    if !item.isReference && item.child != null {
      ChildrenOk(item, D);
      Delete(item.child, heap, item.elems, D);
    }
    if item.elems == [] { NothingOwned(item.elems); }
    if !item.isReference && item.valuestring.Some? {
      heap.Free(item.valuestring.value.block);
    }
    if !item.keyIsConst && item.key.Some? {
      heap.Free(item.key.value.block);
    }
    heap.Free(item.block);
  }

  lemma SoundAt(D: set<Node>, n: Node)
    requires Sound(D) && n in D
    ensures n.Ok(D)
  {
  }

  lemma ChildrenOk(n: Node, D: set<Node>)
    requires n.Ok(D) && Sound(D)
    ensures Follows(n.elems) && forall e | e in n.elems :: e in D
  {
  }

  /** Deleting a tree that stands alone. */
  method DeleteTree(item: Node, heap: Heap, ghost D: set<Node>)
    requires heap.Valid() && item.Ok(D) && Sound(D) && item !in D && item.next == null && item.owned <= heap.live
    modifies heap`live
    ensures heap.Valid() && heap.live == old(heap.live) - item.owned
  {
    hide Node.Means, Node.Owns;
    OneOwned(item);
    assert [item][0] == item;
    Delete(item, heap, [item], D + {item});
  }

  lemma OneOwned(n: Node)
    ensures OwnedBy([n]) == n.owned && Apart([n])
  {
    NothingOwned([n][..0]);
    OwnedByPrefix([n], 0);
    assert [n][..1] == [n];
  }
}
