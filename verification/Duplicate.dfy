/** `cJSON_Duplicate`: a deep or shallow copy that shares nothing owned with its source. */
module Duplication {
  import opened Bytes
  import opened Doubles
  import opened Json
  import opened Allocation
  import opened Tree
  import opened Lifetime
  import opened Lists
  import opened Building

  /** The value of a copy without its children. */
  function Shallow(v: Value): (r: Value)
    ensures r.Arr? == v.Arr? && r.Obj? == v.Obj?
    ensures (r.Arr? ==> r.items == []) && (r.Obj? ==> r.members == []) && (r.Arr? || r.Obj? || r == v)
  {
    match v
    case Arr(_) => Arr([])
    case Obj(_) => Obj([])
    case _ => v
  }

  ghost predicate SameKey(a: Node, b: Node)
    reads a`key, b`key
  {
    a.key.Some? == b.key.Some? && (a.key.Some? ==> a.key.value.Text() == b.key.value.Text())
  }

  /** `cJSON_strdup`: the text up to its terminator, in a block of its own. */
  method CopyString(s: CString, heap: Heap) returns (r: Option<CString>)
    requires heap.Valid()
    modifies heap
    ensures heap.Valid() && heap.requests > old(heap.requests)
    ensures r.Some? ==>
      && r.value == CString(old(heap.requests), s.Text()) && r.value.Text() == s.Text()
      && heap.live == old(heap.live) + {r.value.block} && heap.refusals == old(heap.refusals)
    ensures r.None? ==> heap.live == old(heap.live) && heap.refusals > old(heap.refusals)
  {
    var block := heap.Allocate();
    CStrOfNulFree(s.Text());
    r := if block.Some? then Some(CString(block.value, s.Text())) else None;
  }

  /** What a copy is: a fresh tree that owns exactly the blocks allocated for it. */
  twostate predicate Copied(item: Node, v: Value, heap: Heap, new r: Node, new K: set<Node>)
    reads heap, r, r.elems, K, item`key
  {
    && heap.Valid() && heap.refusals == old(heap.refusals) && heap.requests >= old(heap.requests)
    && fresh(r) && fresh(K) && Whole(r, K)
    && r.value == v && SameKey(item, r) && Detached(r)
    && heap.live == old(heap.live) + r.owned
    && forall b | b in r.owned :: old(heap.requests) <= b < heap.requests
  }

  /** A new node with the number and the string of the item. */
  method CopyValue(item: Node, heap: Heap) returns (r: Node?)
    requires heap.Valid()
    modifies heap
    ensures heap.Valid() && heap.refusals >= old(heap.refusals) && heap.requests >= old(heap.requests)
    ensures r != null ==>
      && fresh(r) && heap.refusals == old(heap.refusals) && heap.live == old(heap.live) + r.owned
      && r.Ok({}) && r.Owns() && Detached(r) && r.key == None && !r.keyIsConst
      && r.kind == KInvalid && r.child == null && r.elems == [] && !r.isReference
      && r.valuedouble == item.valuedouble && r.valueint == item.valueint
      && r.valuestring.Some? == item.valuestring.Some?
      && (r.valuestring.Some? ==> r.valuestring.value.Text() == item.valuestring.value.Text())
      && forall b | b in r.owned :: old(heap.requests) <= b < heap.requests
    ensures r == null ==> heap.live == old(heap.live) && heap.refusals > old(heap.refusals)
  {
    hide OwnedBy, CStr, Chain, Apart, Node.Ok;
    var block := heap.Allocate();
    if block == None {
      return null;
    }
    r := new Node(block.value);
    r.valuedouble, r.valueint := item.valuedouble, item.valueint;
    BlankOk(r, {});
    if item.valuestring.Some? {
      r := CopyText(item.valuestring.value, r, heap);
    }
  }

  method CopyText(s: CString, node: Node, heap: Heap) returns (r: Node?)
    requires heap.Valid() && node.Ok({}) && node.Owns() && node.owned == {node.block} <= heap.live && node.key == None
    requires node.Blank() && Detached(node) && !node.keyIsConst
    modifies heap, node`valuestring, node`owned
    ensures heap.Valid() && heap.refusals >= old(heap.refusals) && heap.requests >= old(heap.requests)
    ensures r != null ==> r == node && heap.refusals == old(heap.refusals) && r.Ok({}) && r.Owns()
    ensures r != null ==> r.valuestring.Some? && r.valuestring.value.Text() == s.Text()
    ensures r != null ==> r.owned == {r.block, old(heap.requests)} && heap.live == old(heap.live) + r.owned
    ensures r != null ==> heap.requests > old(heap.requests)
    ensures r == null ==> heap.live == old(heap.live) - {node.block} && heap.refusals > old(heap.refusals)
  {
    hide OwnedBy, CStr;
    NothingOwned(node.elems);
    var text := CopyString(s, heap);
    if text == None {
      DeleteTree(node, heap, {});
      return null;
    }
    node.valuestring, node.owned := text, node.owned + {text.value.block};
    return node;
  }

  /** The node and its strings.  (The type is set last here; until then only deletion can see it.) */
  method CopyFields(item: Node, heap: Heap, ghost D: set<Node>) returns (r: Node?)
    requires heap.Valid() && item.Ok(D)
    modifies heap
    ensures heap.Valid() && heap.refusals >= old(heap.refusals) && heap.requests >= old(heap.requests)
    ensures r != null ==> Copied(item, Shallow(item.value), heap, r, {})
    ensures r != null ==> r.kind == item.kind && r.child == null && r.elems == [] && r.Owns()
    ensures r != null ==> r.valuedouble == item.valuedouble && r.valueint == item.valueint
    ensures r != null ==> r.valuestring.Some? == item.valuestring.Some?
    ensures r != null && item.valuestring.Some? ==> r.valuestring.value.Text() == item.valuestring.value.Text()
    ensures r == null ==> heap.live == old(heap.live) && heap.refusals > old(heap.refusals)
  {
    hide Node.Ok, Node.Owns, OwnedBy, CStr;
    var node := CopyValue(item, heap);
    if node == null {
      return null;
    }
    ghost var before, requests := node.owned, heap.requests;
    r := CopyKey(item, node, heap);
    if r == null {
      return;
    }
    assert forall b | b in r.owned :: b in before || b in r.owned - before;
    SetKind(r, item, D);
  }

  method SetKind(r: Node, item: Node, ghost D: set<Node>)
    requires item.Ok(D) && r != item && r.Owns() && r.child == null && r.elems == []
    requires r.valuedouble == item.valuedouble && r.valueint == item.valueint
    requires r.valuestring.Some? == item.valuestring.Some?
    requires r.valuestring.Some? ==> r.valuestring.value.Text() == item.valuestring.value.Text()
    modifies r`kind, r`value
    ensures r.kind == item.kind && r.value == Shallow(item.value) && r.Ok({}) && r.Owns()
  {
    r.kind, r.value := item.kind, Shallow(item.value);
  }

  method CopyKey(item: Node, node: Node, heap: Heap) returns (r: Node?)
    requires heap.Valid() && node != item && node.Ok({}) && node.Owns() && node.owned <= heap.live && node.key == None
    requires node.kind == KInvalid && node.child == null && node.elems == []
    requires !node.isReference && Detached(node) && !node.keyIsConst
    modifies heap, node`key, node`keyIsConst, node`owned
    ensures heap.Valid() && heap.refusals >= old(heap.refusals) && heap.requests >= old(heap.requests)
    ensures r != null ==> r == node && heap.refusals == old(heap.refusals) && SameKey(item, r) && r.Owns()
    ensures r != null && item.key.Some? ==> r.keyIsConst == item.keyIsConst && (item.keyIsConst ==> r.key == item.key)
    ensures r != null && (item.key.None? || item.keyIsConst) ==> r.owned == old(r.owned)
    ensures r != null ==> heap.live == old(heap.live) + r.owned && old(r.owned) <= r.owned
    ensures r != null ==> forall b | b in r.owned - old(r.owned) :: old(heap.requests) <= b < heap.requests
    ensures r == null ==> heap.live == old(heap.live) - old(node.owned) && heap.refusals > old(heap.refusals)
  {
    if item.key.Some? {
      if item.keyIsConst {
        node.key, node.keyIsConst := item.key, true;
      } else {
        var text := CopyString(item.key.value, heap);
        if text == None {
          DeleteTree(node, heap, {});
          return null;
        }
        node.key, node.owned := text, node.owned + {text.value.block};
      }
    }
    return node;
  }

  /** The copies so far match the first children of the item. */
  ghost predicate Matching(list: seq<Node>, elems: seq<Node>)
    reads list`value, list`key, elems`value, elems`key
  {
    && |list| <= |elems|
    && forall i | 0 <= i < |list| :: list[i].value == elems[i].value && SameKey(elems[i], list[i])
  }

  /** The loop of `cJSON_Duplicate` over the children. */
  method CopyChildren(item: Node, heap: Heap, ghost D: set<Node>)
    returns (ok: bool, head: Node?, ghost list: seq<Node>, ghost K: set<Node>)
    requires heap.Valid() && item.Ok(D) && Sound(D)
    modifies heap
    ensures heap.Valid() && heap.refusals >= old(heap.refusals) && heap.requests >= old(heap.requests)
    ensures Growing(heap, list, K, old(heap.live), old(heap.requests)) && head == First(list)
    ensures (forall n | n in list :: fresh(n)) && fresh(K) && Matching(list, item.elems)
    ensures ok ==> |list| == |item.elems| && heap.refusals == old(heap.refusals)
    ensures !ok ==> heap.refusals > old(heap.refusals)
    decreases item.value, 0
  {
    hide Growing, Node.Ok, Sound, Denotes, Matching;
    head, list, K := null, [], {};
    NoneMatching(item.elems);
    EmptyGrowing(heap);
    ItemChild(item, D);
    ghost var base, from := heap.live, heap.requests;
    var child, tail: Node? := item.child, null;
    while child != null
      invariant |list| <= |item.elems| && child == (if |list| < |item.elems| then item.elems[|list|] else null)
      invariant heap.Valid() && heap.refusals == old(heap.refusals) && heap.requests >= old(heap.requests)
      invariant Growing(heap, list, K, base, from) && head == First(list) && tail == Last(list)
      invariant (forall n | n in list :: fresh(n)) && fresh(K) && Matching(list, item.elems)
      invariant item.Ok(D) && Sound(D)
      decreases |item.elems| - |list|
    {
      ChildAt(item, D, |list|);
      ChildSmaller(item, D, |list|);
      assert tail != null ==> tail in list;
      var copy;
      ghost var before := list;
      ok, copy, list, K := CopyChild(child, tail, heap, list, K, D, base, from);
      if !ok {
        return;
      }
      OneMoreMatching(before, copy, item.elems);
      if head == null {
        head := copy;
      }
      tail := copy;
      child := child.next;
    }
    ok := true;
  }

  lemma NoneMatching(elems: seq<Node>)
    ensures Matching([], elems)
  {
  }

  lemma OneMoreMatching(list: seq<Node>, copy: Node, elems: seq<Node>)
    requires Matching(list, elems) && |list| < |elems|
    requires copy.value == elems[|list|].value && SameKey(elems[|list|], copy)
    ensures Matching(list + [copy], elems)
  {
  }

  lemma ItemChild(item: Node, D: set<Node>)
    requires item.Ok(D)
    ensures item.child == First(item.elems)
  {
  }

  lemma ChildSmaller(n: Node, D: set<Node>, i: nat)
    requires n.Ok(D) && Sound(D) && i < |n.elems|
    ensures n.elems[i].value < n.value
  {
    if n.kind == KObject {
      assert n.value.members[i].val < n.value.members[i] < n.value;
    }
  }

  /** One round: copy the child and attach the copy. */
  method CopyChild(child: Node, tail: Node?, heap: Heap, ghost list: seq<Node>, ghost K: set<Node>, ghost D: set<Node>,
                   ghost base: set<nat>, ghost from: nat)
    returns (ok: bool, copy: Node?, ghost out: seq<Node>, ghost K2: set<Node>)
    requires heap.Valid() && child.Ok(D) && Sound(D) && from <= heap.requests
    requires Growing(heap, list, K, base, from) && tail == Last(list)
    modifies heap, TailOf(tail)`next
    ensures heap.Valid() && heap.refusals >= old(heap.refusals) && heap.requests >= old(heap.requests)
    ensures Growing(heap, out, K2, base, from) && fresh(K2 - K)
    ensures ok ==> copy != null && fresh(copy) && out == list + [copy] && heap.refusals == old(heap.refusals)
    ensures ok ==> copy.value == child.value && SameKey(child, copy)
    ensures !ok ==> out == list && heap.refusals > old(heap.refusals)
    decreases child.value, 2
  {
    hide Sound, OwnedBy, Chain, Apart, Node.Ok;
    ghost var requests := heap.requests;
    Unpack(heap, list, K, base, from);
    ghost var D2;
    copy, D2 := Duplicate(child, true, heap, D);
    out, K2 := list, K;
    if copy == null {
      assert K2 - K == {};
      return false, null, list, K;
    }
    NewBlocksApart({}, copy.owned, base, OwnedBy(list), from, requests);
    AppendTree(heap, tail, copy, list, K, D2, base, from);
    out, K2 := list + [copy], K + D2;
    ok := true;
  }

  lemma Unpack(heap: Heap, list: seq<Node>, K: set<Node>, base: set<nat>, from: nat)
    requires Growing(heap, list, K, base, from)
    ensures Chain(list) && Apart(list) && Sound(K) && NoReferences(K + NodesOf(list))
    ensures forall n | n in list :: n !in K && (forall e | e in n.elems :: e in K) && n.Ok(K)
    ensures heap.live == base + OwnedBy(list)
    ensures (forall b | b in OwnedBy(list) :: from <= b) && (forall b | b in base :: b < from)
  {
  }

  /**
   * `cJSON_Duplicate`: with enough memory a copy of the same value, all of whose blocks are new; a
   * failed call leaves no block behind.
   */
  method Duplicate(item: Node?, recurse: bool, heap: Heap, ghost D: set<Node>) returns (r: Node?, ghost K: set<Node>)
    requires heap.Valid() && (item != null ==> item.Ok(D) && Sound(D))
    modifies heap
    ensures heap.Valid() && heap.refusals >= old(heap.refusals) && heap.requests >= old(heap.requests)
    ensures r != null <==> item != null && heap.refusals == old(heap.refusals)
    ensures r != null ==> Copied(item, if recurse then item.value else Shallow(item.value), heap, r, K)
    ensures r == null ==> heap.live == old(heap.live)
    decreases if item != null then item.value else Invalid, 1
  {
    hide Growing, Node.Ok, Node.Owns, Sound, OwnedBy, Denotes, Matching, Chain, Apart, CStr, NoReferences, Under;
    hide SameKey, Shallow;
    K := {};
    if item == null {
      return null, {};
    }
    r := CopyFields(item, heap, D);
    if r == null || !recurse {
      return;
    }
    var ok, head;
    ghost var list;
    ghost var base, from := heap.live, heap.requests;
    ok, head, list, K := CopyChildren(item, heap, D);
    GrowingSound(heap, list, K, base, from);
    NewFrom(heap, list, K, base, from);
    ghost var v := PartialValue(item, r, list, D);
    Adopt(r, r.kind, head, heap, list, K, from, v);
    K := K + NodesOf(list);
    if !ok {
      DeleteTree(r, heap, K);
      return null, {};
    }
    WholePart(r, K);
    K := Part(r.elems, K);
  }

  /** The value the copy denotes while it has only the first children. */
  lemma PartialValue(item: Node, r: Node, list: seq<Node>, D: set<Node>) returns (v: Value)
    requires item.Ok(D) && r.kind == item.kind && Matching(list, item.elems)
    requires r.valuedouble == item.valuedouble && r.valueint == item.valueint
    requires r.valuestring.Some? == item.valuestring.Some?
    requires r.valuestring.Some? ==> r.valuestring.value.Text() == item.valuestring.value.Text()
    ensures Denotes(r.kind, r.valuestring, r.valuedouble, list, v) && CutNumber(r.kind, r.valuedouble, r.valueint)
    ensures |list| == |item.elems| ==> v == item.value
  {
    v := match item.value
      case Arr(items) => Arr(items[..|list|])
      case Obj(members) => Obj(members[..|list|])
      case w => w;
  }
}
