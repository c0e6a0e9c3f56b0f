/** Editing the child list of a node: each edit is the same edit of a sequence. */
module Lists {
  import opened Bytes
  import opened Allocation
  import opened Tree
  import opened Lifetime

  /** The children of `parent`, as the links spell them out. */
  ghost predicate ChildList(parent: Node, elems: seq<Node>)
    reads parent`child, elems`next, elems`prev
  {
    parent.child == First(elems) && Chain(elems)
  }

  ghost predicate Detached(n: Node)
    reads n`next, n`prev
  {
    n.next == null && n.prev == null
  }

  function InsertAt<T>(s: seq<T>, i: nat, x: T): seq<T> {
    if i < |s| then s[..i] + [x] + s[i..] else s + [x]
  }

  function RemoveAt<T>(s: seq<T>, i: nat): seq<T>
    requires i < |s|
  {
    s[..i] + s[i + 1..]
  }

  function Where<T>(s: seq<T>, i: nat): nat { if i < |s| then i else |s| }

  /** Detaching what was inserted gives the old list back, wherever it went in. */
  lemma RemoveInserted<T>(s: seq<T>, i: nat, x: T)
    ensures Where(s, i) < |InsertAt(s, i, x)| && InsertAt(s, i, x)[Where(s, i)] == x
    ensures RemoveAt(InsertAt(s, i, x), Where(s, i)) == s
  {
    var t := InsertAt(s, i, x);
    assert t[..Where(s, i)] == s[..Where(s, i)];
    assert t[Where(s, i) + 1..] == s[Where(s, i)..];
  }

  /** Inserting a detached node at its old index gives the old list back. */
  lemma InsertRemoved<T>(s: seq<T>, i: nat)
    requires i < |s|
    ensures InsertAt(RemoveAt(s, i), i, s[i]) == s
  {
    if i < |s| - 1 {
      assert RemoveAt(s, i)[..i] == s[..i] && RemoveAt(s, i)[i..] == s[i + 1..];
    } else {
      assert RemoveAt(s, i) == s[..i];
    }
  }

  /** A frame of at most one node. */
  function Only(n: Node?): set<Node> {
    if n != null then {n} else {}
  }

  function Last(elems: seq<Node>): Node? {
    if elems == [] then null else elems[|elems| - 1]
  }

  /** `get_array_item`. */
  method ItemAt(parent: Node?, index: nat, ghost elems: seq<Node>) returns (r: Node?)
    requires parent != null ==> ChildList(parent, elems)
    ensures r == if parent != null && index < |elems| then elems[index] else null
  {
    if parent == null {
      return null;
    }
    r := parent.child;
    var left := index;
    ghost var i := 0;
    while r != null && left > 0
      invariant i <= |elems| && r == (if i < |elems| then elems[i] else null) && i + left == index
    {
      left := left - 1;
      r := r.next;
      i := i + 1;
    }
  }

  /** `cJSON_GetArrayItem`: no item at a negative index. */
  method GetArrayItem(parent: Node?, index: int, ghost elems: seq<Node>) returns (r: Node?)
    requires parent != null ==> ChildList(parent, elems)
    ensures r == if parent != null && 0 <= index < |elems| then elems[index] else null
  {
    if index < 0 {
      return null;
    }
    r := ItemAt(parent, index, elems);
  }

  /** `add_item_to_array`: the item becomes the last child. */
  method AddItemToArray(parent: Node?, item: Node?, ghost elems: seq<Node>) returns (ok: bool)
    requires parent != null ==> ChildList(parent, elems)
    requires item != null ==> Detached(item) && item !in elems
    modifies Only(parent)`child, elems`next, Only(item)`prev
    ensures ok <==> parent != null && item != null
    ensures ok ==> ChildList(parent, elems + [item])
    ensures !ok && parent != null ==> ChildList(parent, elems)
    ensures !ok && item != null ==> Detached(item)
  {
    if item == null || parent == null {
      return false;
    }
    var child := parent.child;
    if child == null {
      parent.child := item;
    } else {
      ghost var i := 0;
      ChainAt(elems, 0);
      while child.next != null
        invariant ChildList(parent, elems) && i < |elems| && child == elems[i]
        invariant child.next == After(elems, i)
        decreases |elems| - i
      {
        child := child.next;
        i := i + 1;
        ChainAt(elems, i);
      }
      AttachAfter(child, item, elems);
    }
    return true;
  }

  /** `suffix_object`: two assignments. */
  method AttachAfter(prev: Node, item: Node, ghost elems: seq<Node>)
    requires elems != [] && prev == Last(elems) && Chain(elems) && item !in elems && item.next == null
    modifies prev`next, item`prev
    ensures Chain(elems + [item])
  {
    prev.next := item;
    item.prev := prev;
    ghost var all := elems + [item];
    forall i | 0 <= i < |all| ensures all[i].next == After(all, i) && all[i].prev == Before(all, i) {
      if i < |elems| {
        assert elems[i] in elems && old(elems[i].next) == After(elems, i) && old(elems[i].prev) == Before(elems, i);
      }
    }
  }

  /**
   * `cJSON_InsertItemInArray`: before the node at `which`, or at the end when there is none.  Only in front of a
   * node must there be an item.
   */
  method InsertItemInArray(parent: Node?, which: int, item: Node?, ghost elems: seq<Node>)
    requires parent != null ==> ChildList(parent, elems)
    requires item != null ==> Detached(item) && item !in elems
    requires parent != null && 0 <= which < |elems| ==> item != null
    modifies Only(parent)`child, elems`next, elems`prev, Only(item)`next, Only(item)`prev
    ensures parent != null ==>
      ChildList(parent, if which < 0 || item == null then elems else InsertAt<Node>(elems, which, item))
    ensures item != null && (which < 0 || parent == null) ==> Detached(item)
  {
    if which < 0 {
      return;
    }
    var after := ItemAt(parent, which, elems);
    if after == null {
      var added := AddItemToArray(parent, item, elems);
      return;
    }
    InsertBefore(parent, which, after, item, elems);
  }

  /** The part of `cJSON_InsertItemInArray` for an index inside the list. */
  method InsertBefore(parent: Node, which: nat, after: Node, item: Node, ghost elems: seq<Node>)
    requires ChildList(parent, elems) && which < |elems| && after == elems[which] && Detached(item) && item !in elems
    modifies parent`child, elems`next, elems`prev, item`next, item`prev
    ensures ChildList(parent, InsertAt(elems, which, item))
  {
    ChainAt(elems, which);
    if which > 0 {
      ChainAt(elems, which - 1);
    }
    item.next := after;
    item.prev := after.prev;
    after.prev := item;
    if after == parent.child {
      assert which == 0;
      parent.child := item;
    } else {
      item.prev.next := item;
    }
    forall k | 0 <= k < |elems|
      ensures elems[k].next == (if k == which - 1 then item else After(elems, k))
      ensures elems[k].prev == (if k == which then item else Before(elems, k))
    {
      assert old(elems[k].next) == After(elems, k) && old(elems[k].prev) == Before(elems, k);
    }
    ChainInserted(elems, which, item);
  }

  lemma ChainInserted(elems: seq<Node>, w: nat, item: Node)
    requires w < |elems| && item !in elems && forall i, j | 0 <= i < j < |elems| :: elems[i] != elems[j]
    requires forall k | 0 <= k < |elems| :: elems[k].next == if k == w - 1 then item else After(elems, k)
    requires forall k | 0 <= k < |elems| :: elems[k].prev == if k == w then item else Before(elems, k)
    requires item.next == elems[w] && item.prev == Before(elems, w)
    ensures Chain(InsertAt(elems, w, item))
  {
    var all := InsertAt(elems, w, item);
    forall i, j | 0 <= i < j < |all| ensures all[i] != all[j] {
      InsertIndex(elems, w, item, i);
      InsertIndex(elems, w, item, j);
    }
    forall i | 0 <= i < |all| ensures all[i].next == After(all, i) && all[i].prev == Before(all, i) {
      InsertIndex(elems, w, item, i);
      if i > 0 { InsertIndex(elems, w, item, i - 1); }
      if i + 1 < |all| { InsertIndex(elems, w, item, i + 1); }
    }
  }

  lemma InsertIndex<T>(s: seq<T>, i: nat, x: T, k: nat)
    requires i < |s| && k <= |s|
    ensures InsertAt(s, i, x)[k] == if k < i then s[k] else if k == i then x else s[k - 1]
  {
  }

  lemma ChainRemoved(elems: seq<Node>, w: nat)
    requires w < |elems| && forall i, j | 0 <= i < j < |elems| :: elems[i] != elems[j]
    requires forall k | 0 <= k < |elems| && k != w ::
      elems[k].next == if k == w - 1 then After(elems, w) else After(elems, k)
    requires forall k | 0 <= k < |elems| && k != w ::
      elems[k].prev == if k == w + 1 then Before(elems, w) else Before(elems, k)
    ensures Chain(RemoveAt(elems, w))
  {
    var all := RemoveAt(elems, w);
    forall i, j | 0 <= i < j < |all| ensures all[i] != all[j] {
      RemoveIndex(elems, w, i);
      RemoveIndex(elems, w, j);
    }
    forall i | 0 <= i < |all| ensures all[i].next == After(all, i) && all[i].prev == Before(all, i) {
      RemoveIndex(elems, w, i);
      if i > 0 { RemoveIndex(elems, w, i - 1); }
      if i + 1 < |all| { RemoveIndex(elems, w, i + 1); }
    }
  }

  lemma RemoveIndex<T>(s: seq<T>, w: nat, k: nat)
    requires w < |s| && k < |s| - 1
    ensures RemoveAt(s, w)[k] == if k < w then s[k] else s[k + 1]
  {
  }

  /** `cJSON_DetachItemViaPointer`: the item leaves the list and stands alone. */
  method DetachItemViaPointer(parent: Node?, item: Node?, ghost elems: seq<Node>, ghost w: nat) returns (r: Node?)
    requires parent != null && item != null ==> ChildList(parent, elems) && w < |elems| && elems[w] == item
    modifies Only(parent)`child, elems`next, elems`prev
    ensures r == if parent == null then null else item
    ensures r != null ==> ChildList(parent, RemoveAt(elems, w)) && Detached(r)
    ensures r == null && parent != null && old(ChildList(parent, elems)) ==> ChildList(parent, elems)
  {
    if parent == null || item == null {
      return null;
    }
    ChainAt(elems, w);
    if item.prev != null {
      item.prev.next := item.next;
    }
    if item.next != null {
      item.next.prev := item.prev;
    }
    if item == parent.child {
      parent.child := item.next;
    }
    item.prev := null;
    item.next := null;
    forall k | 0 <= k < |elems| && k != w
      ensures elems[k].next == (if k == w - 1 then After(elems, w) else After(elems, k))
      ensures elems[k].prev == (if k == w + 1 then Before(elems, w) else Before(elems, k))
    {
      assert old(elems[k].next) == After(elems, k) && old(elems[k].prev) == Before(elems, k);
    }
    ChainRemoved(elems, w);
    return item;
  }

  /** `cJSON_DetachItemFromArray`: by index; nothing happens outside the list. */
  method DetachItemFromArray(parent: Node?, which: int, ghost elems: seq<Node>) returns (r: Node?)
    requires parent != null ==> ChildList(parent, elems)
    modifies Only(parent)`child, elems`next, elems`prev
    ensures r == if parent != null && 0 <= which < |elems| then elems[which] else null
    ensures r != null ==> ChildList(parent, RemoveAt(elems, which)) && Detached(r)
    ensures r == null && parent != null ==> ChildList(parent, elems)
  {
    hide ChildList, RemoveAt;
    if which < 0 {
      return null;
    }
    var item := ItemAt(parent, which, elems);
    r := DetachItemViaPointer(parent, item, elems, which);
  }

  lemma ChainReplaced(elems: seq<Node>, w: nat, item: Node)
    requires w < |elems| && item !in elems && forall i, j | 0 <= i < j < |elems| :: elems[i] != elems[j]
    requires forall k | 0 <= k < |elems| && k != w :: elems[k].next == if k == w - 1 then item else After(elems, k)
    requires forall k | 0 <= k < |elems| && k != w :: elems[k].prev == if k == w + 1 then item else Before(elems, k)
    requires item.next == After(elems, w) && item.prev == Before(elems, w)
    ensures Chain(elems[w := item])
  {
    var all := elems[w := item];
    forall i | 0 <= i < |all| ensures all[i].next == After(all, i) && all[i].prev == Before(all, i) {
      if i != w {
        assert all[i] == elems[i];
      }
    }
  }

  /** The neighbours of the node at `w` are told of another node in its place. */
  method PointNeighbours(prev: Node?, next: Node?, node: Node, ghost elems: seq<Node>, ghost w: nat)
    requires Chain(elems) && w < |elems| && prev == Before(elems, w) && next == After(elems, w) && node !in elems
    modifies elems`next, elems`prev
    ensures forall k | 0 <= k < |elems| :: elems[k].next == if k == w - 1 then node else After(elems, k)
    ensures forall k | 0 <= k < |elems| :: elems[k].prev == if k == w + 1 then node else Before(elems, k)
  {
    if next != null {
      next.prev := node;
    }
    if prev != null {
      prev.next := node;
    }
    forall k | 0 <= k < |elems| ensures elems[k].next == if k == w - 1 then node else After(elems, k) {
      assert old(elems[k].next) == After(elems, k);
    }
    forall k | 0 <= k < |elems| ensures elems[k].prev == if k == w + 1 then node else Before(elems, k) {
      assert old(elems[k].prev) == Before(elems, k);
    }
  }

  /** The relinking in `cJSON_ReplaceItemViaPointer`. */
  method Relink(parent: Node, item: Node, replacement: Node, ghost elems: seq<Node>, ghost w: nat)
    requires ChildList(parent, elems) && w < |elems| && elems[w] == item
    requires Detached(replacement) && replacement !in elems
    modifies parent`child, elems`next, elems`prev, replacement`next, replacement`prev
    ensures ChildList(parent, elems[w := replacement]) && Detached(item)
  {
    ChainAt(elems, w);
    replacement.next := item.next;
    replacement.prev := item.prev;
    assert Chain(elems);
    PointNeighbours(replacement.prev, replacement.next, replacement, elems, w);
    if parent.child == item {
      parent.child := replacement;
    }
    Isolate(item, replacement, elems, w);
    ChainReplaced(elems, w, replacement);
  }

  /** The replaced node lets go of its neighbours. */
  method Isolate(item: Node, other: Node, ghost elems: seq<Node>, ghost w: nat)
    requires w < |elems| && elems[w] == item && other !in elems
    requires forall i, j | 0 <= i < j < |elems| :: elems[i] != elems[j]
    requires forall k | 0 <= k < |elems| && k != w :: elems[k].next == if k == w - 1 then other else After(elems, k)
    requires forall k | 0 <= k < |elems| && k != w :: elems[k].prev == if k == w + 1 then other else Before(elems, k)
    modifies item`next, item`prev
    ensures Detached(item)
    ensures forall k | 0 <= k < |elems| && k != w :: elems[k].next == if k == w - 1 then other else After(elems, k)
    ensures forall k | 0 <= k < |elems| && k != w :: elems[k].prev == if k == w + 1 then other else Before(elems, k)
  {
    item.next := null;
    item.prev := null;
  }

  method DeleteAlone(item: Node, heap: Heap, ghost D: set<Node>)
    requires heap.Valid() && item.Ok(D) && Sound(D) && item !in D && Detached(item) && item.owned <= heap.live
    modifies heap`live
    ensures heap.live == old(heap.live) - item.owned
  {
    DeleteTree(item, heap, D);
  }

  /**
   * `cJSON_ReplaceItemViaPointer`: the replacement takes the place of the item, whose blocks are
   * freed; replacing an item by itself changes nothing.
   */
  method ReplaceItemViaPointer(parent: Node?, item: Node?, replacement: Node?, heap: Heap,
                               ghost elems: seq<Node>, ghost w: nat, ghost D: set<Node>) returns (ok: bool)
    requires parent != null && item != null && replacement != null ==>
      && ChildList(parent, elems) && w < |elems| && elems[w] == item
      && heap.Valid() && item.Ok(D) && Sound(D) && item !in D && item.owned <= heap.live
      && (replacement == item || (Detached(replacement) && replacement !in elems))
    requires parent != null && item != null && replacement != null ==>
      parent != item && parent !in D && replacement !in D && forall e | e in elems :: e !in D
    modifies Only(parent)`child, elems`next, elems`prev, Only(replacement)`next, Only(replacement)`prev, heap`live
    ensures ok <==> parent != null && item != null && replacement != null
    ensures ok ==> ChildList(parent, elems[w := replacement])
    ensures !ok && parent != null && old(ChildList(parent, elems)) ==> ChildList(parent, elems)
    ensures !ok && replacement != null && old(Detached(replacement)) ==> Detached(replacement)
    ensures heap.live == old(heap.live) - (if ok && replacement != item then item.owned else {})
    ensures ok && replacement != item ==> Detached(item)
  {
    if parent == null || replacement == null || item == null {
      return false;
    }
    hide Sound, ChildList, Detached, Node.Ok, Chain;
    if replacement == item {
      assert elems[w := replacement] == elems;
      return true;
    }
    ReplaceOther(parent, item, replacement, heap, elems, w, D);
    return true;
  }

  /** `cJSON_ReplaceItemInArray`: the same by index; nothing happens outside the list. */
  method ReplaceItemInArray(parent: Node?, which: int, replacement: Node?, heap: Heap, ghost elems: seq<Node>,
                            ghost D: set<Node>)
    requires parent != null ==> ChildList(parent, elems)
    requires parent != null && 0 <= which < |elems| && replacement != null ==>
      && heap.Valid() && elems[which].Ok(D) && Sound(D) && elems[which] !in D && elems[which].owned <= heap.live
      && (replacement == elems[which] || (Detached(replacement) && replacement !in elems))
      && parent != elems[which] && parent !in D && replacement !in D && forall e | e in elems :: e !in D
    modifies Only(parent)`child, elems`next, elems`prev, Only(replacement)`next, Only(replacement)`prev, heap`live
    ensures parent != null ==>
      ChildList(parent, if 0 <= which < |elems| && replacement != null then elems[which := replacement] else elems)
    ensures heap.live
         == old(heap.live)
            - (if parent != null && 0 <= which < |elems| && replacement != null && replacement != elems[which]
               then old(elems[which].owned) else {})
    ensures parent != null && 0 <= which < |elems| && replacement != null && replacement != elems[which] ==>
      Detached(elems[which])
    ensures replacement != null && (parent == null || which < 0 || which >= |elems|) && old(Detached(replacement)) ==>
      Detached(replacement)
  {
    hide Sound, ChildList, Detached, Node.Ok, Chain;
    if which < 0 {
      return;
    }
    var item := ItemAt(parent, which, elems);
    var ok := ReplaceItemViaPointer(parent, item, replacement, heap, elems, which, D);
  }

  /** The part of `cJSON_ReplaceItemViaPointer` after its checks. */
  method ReplaceOther(parent: Node, item: Node, replacement: Node, heap: Heap, ghost elems: seq<Node>, ghost w: nat,
                      ghost D: set<Node>)
    requires ChildList(parent, elems) && w < |elems| && elems[w] == item
    requires Detached(replacement) && replacement !in elems
    requires heap.Valid() && item.Ok(D) && Sound(D) && item !in D && item.owned <= heap.live
    requires parent != item && parent !in D && replacement !in D && forall e | e in elems :: e !in D
    modifies parent`child, elems`next, elems`prev, replacement`next, replacement`prev, heap`live
    ensures ChildList(parent, elems[w := replacement]) && Detached(item)
    ensures heap.live == old(heap.live) - item.owned
  {
    hide Sound, ChildList, Detached, Node.Ok, Chain;
    RelinkAndKeep(parent, item, replacement, elems, w, D);
    DeleteAlone(item, heap, D);
  }

  /** Relinking does not touch the tree below the item. */
  method RelinkAndKeep(parent: Node, item: Node, replacement: Node, ghost elems: seq<Node>, ghost w: nat,
                       ghost D: set<Node>)
    requires ChildList(parent, elems) && w < |elems| && elems[w] == item
    requires Detached(replacement) && replacement !in elems
    requires item.Ok(D) && Sound(D) && parent != item && parent !in D
    requires replacement !in D && forall e | e in elems :: e !in D
    modifies parent`child, elems`next, elems`prev, replacement`next, replacement`prev
    ensures ChildList(parent, elems[w := replacement]) && Detached(item)
    ensures item.Ok(D) && Sound(D)
  {
    hide Sound, ChildList, Detached, Node.Ok;
    ChildrenIn(item, D);
    assert forall k | 0 <= k < |item.elems| :: item.elems[k] in D && item.elems[k] !in elems;
    Relink(parent, item, replacement, elems, w);
  }

  lemma ChildrenIn(n: Node, D: set<Node>)
    requires n.Ok(D)
    ensures forall e | e in n.elems :: e in D
  {
  }
}
