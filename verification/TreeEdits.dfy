/** The list edits seen from the tree: the value and the blocks of the node whose children change. */
module TreeEdits {
  import opened Bytes
  import opened Doubles
  import opened Json
  import opened Allocation
  import opened Tree
  import opened Lifetime
  import opened Lists
  import opened Building

  // ---------- what the edits do to values ----------

  function Inserted(v: Value, i: nat, m: Member): Value {
    match v
    case Arr(items) => Arr(InsertAt(items, i, m.val))
    case Obj(members) => Obj(InsertAt(members, i, m))
    case _ => v
  }

  function Size(v: Value): nat {
    match v
    case Arr(items) => |items|
    case Obj(members) => |members|
    case _ => 0
  }

  function Removed(v: Value, i: nat): Value
    requires i < Size(v)
  {
    match v
    case Arr(items) => Arr(RemoveAt(items, i))
    case Obj(members) => Obj(RemoveAt(members, i))
  }

  function Replaced(v: Value, i: nat, m: Member): Value
    requires i < Size(v)
  {
    match v
    case Arr(items) => Arr(items[i := m.val])
    case Obj(members) => Obj(members[i := m])
  }

  /** Taking out what was put in gives the old value back. */
  lemma InsertThenRemove(v: Value, i: nat, m: Member)
    requires v.Arr? || v.Obj?
    ensures var w, at := Inserted(v, i, m), if i < Size(v) then i else Size(v);
      at < Size(w) && Removed(w, at) == v
  {
    match v
    case Arr(items) => RemoveInserted(items, i, m.val);
    case Obj(members) => RemoveInserted(members, i, m);
  }

  /** Replacing is taking out and putting in. */
  lemma ReplaceIsRemoveInsert(v: Value, i: nat, m: Member)
    requires i < Size(v)
    ensures Replaced(v, i, m) == Inserted(Removed(v, i), i, m)
  {
    match v
    case Arr(items) => assert items[i := m.val] == items[..i] + [m.val] + items[i + 1..];
    case Obj(members) => assert members[i := m] == members[..i] + [m] + members[i + 1..];
  }

  /** Putting back what was taken out gives the old value back too. */
  lemma RemoveThenInsert(v: Value, i: nat)
    requires i < Size(v)
    ensures var m := match v
                     case Arr(items) => Member([], items[i])
                     case Obj(members) => members[i];
      Inserted(Removed(v, i), i, m) == v
  {
    match v
    case Arr(items) => InsertRemoved(items, i);
    case Obj(members) => InsertRemoved(members, i);
  }

  /** An array, or an object, whose children are its own; and what may be put into it. */
  ghost predicate Container(parent: Node)
    reads parent
  {
    (parent.kind == KArray || parent.kind == KObject) && !parent.isReference
  }

  ghost predicate Fits(parent: Node, item: Node)
    reads parent, item
  {
    parent.kind == KObject ==> item.key.Some?
  }

  lemma InsertedIndex<T>(s: seq<T>, i: nat, x: T, k: nat)
    requires k <= |s|
    ensures |InsertAt(s, i, x)| == |s| + 1
    ensures var at := if i < |s| then i else |s|;
      InsertAt(s, i, x)[k] == if k < at then s[k] else if k == at then x else s[k - 1]
  {
  }

  lemma InsertDenotes(kind: Kind, str: Option<CString>, x: double, list: seq<Node>, v: Value, i: nat, item: Node)
    requires Denotes(kind, str, x, list, v) && (kind == KArray || kind == KObject)
    requires kind == KObject ==> item.key.Some?
    ensures Denotes(kind, str, x, InsertAt(list, i, item), Inserted(v, i, MemberOf(item)))
  {
    if kind == KArray {
      InsertItems(list, v.items, i, item);
    } else {
      InsertMembers(list, v.members, i, item);
    }
  }

  lemma InsertItems(list: seq<Node>, items: seq<Value>, i: nat, item: Node)
    requires |items| == |list| && forall k | 0 <= k < |list| :: items[k] == list[k].value
    ensures |InsertAt(items, i, item.value)| == |InsertAt(list, i, item)|
    ensures forall k | 0 <= k < |InsertAt(list, i, item)| ::
      InsertAt(items, i, item.value)[k] == InsertAt(list, i, item)[k].value
  {
    hide InsertAt;
    InsertedIndex(list, i, item, 0);
    InsertedIndex(items, i, item.value, 0);
    forall k | 0 <= k < |InsertAt(list, i, item)|
      ensures InsertAt(items, i, item.value)[k] == InsertAt(list, i, item)[k].value
    {
      InsertedIndex(list, i, item, k);
      InsertedIndex(items, i, item.value, k);
    }
  }

  lemma InsertMembers(list: seq<Node>, members: seq<Member>, i: nat, item: Node)
    requires |members| == |list| && item.key.Some?
    requires forall k | 0 <= k < |list| :: list[k].key.Some? && members[k] == MemberOf(list[k])
    ensures |InsertAt(members, i, MemberOf(item))| == |InsertAt(list, i, item)|
    ensures forall k | 0 <= k < |InsertAt(list, i, item)| ::
      && InsertAt(list, i, item)[k].key.Some?
      && InsertAt(members, i, MemberOf(item))[k] == MemberOf(InsertAt(list, i, item)[k])
  {
    hide InsertAt, MemberOf;
    InsertedIndex(list, i, item, 0);
    InsertedIndex(members, i, MemberOf(item), 0);
    forall k | 0 <= k < |InsertAt(list, i, item)|
      ensures InsertAt(list, i, item)[k].key.Some?
      ensures InsertAt(members, i, MemberOf(item))[k] == MemberOf(InsertAt(list, i, item)[k])
    {
      InsertedIndex(list, i, item, k);
      InsertedIndex(members, i, MemberOf(item), k);
    }
  }

  lemma RemoveDenotes(kind: Kind, str: Option<CString>, x: double, list: seq<Node>, v: Value, i: nat)
    requires Denotes(kind, str, x, list, v) && (kind == KArray || kind == KObject) && i < |list|
    ensures Size(v) == |list| && Denotes(kind, str, x, RemoveAt(list, i), Removed(v, i))
  {
  }

  lemma ReplaceDenotes(kind: Kind, str: Option<CString>, x: double, list: seq<Node>, v: Value, i: nat, item: Node)
    requires Denotes(kind, str, x, list, v) && (kind == KArray || kind == KObject)
    requires (kind == KObject ==> item.key.Some?) && i < |list|
    ensures Size(v) == |list| && Denotes(kind, str, x, list[i := item], Replaced(v, i, MemberOf(item)))
  {
  }

  // ---------- what they do to ownership ----------

  lemma InsertOwned(list: seq<Node>, i: nat, item: Node)
    requires Apart(list) && item.owned !! OwnedBy(list)
    ensures OwnedBy(InsertAt(list, i, item)) == OwnedBy(list) + item.owned && Apart(InsertAt(list, i, item))
  {
    var all := InsertAt(list, i, item);
    assert forall n | n in all :: n in list || n == item;
    assert item in all && forall n | n in list :: n in all;
    forall j, k | 0 <= j < k < |all| ensures all[j].owned !! all[k].owned {
      if all[j] in list { assert all[j].owned <= OwnedBy(list); }
      if all[k] in list { assert all[k].owned <= OwnedBy(list); }
    }
  }

  lemma RemoveOwned(list: seq<Node>, i: nat)
    requires Apart(list) && i < |list|
    ensures OwnedBy(RemoveAt(list, i)) == OwnedBy(list) - list[i].owned && Apart(RemoveAt(list, i))
    ensures list[i].owned <= OwnedBy(list)
  {
  }

  /** The strings of a node lie in blocks of their own; the part of `Owns` that is not about children. */
  ghost predicate OwnApart(n: Node)
    reads n`isReference, n`keyIsConst, n`valuestring, n`key
  {
    && (n.valuestring.Some? && !n.isReference ==> n.valuestring.value.block != n.block)
    && (n.key.Some? && !n.keyIsConst ==> n.key.value.block != n.block)
    && (n.valuestring.Some? && !n.isReference && n.key.Some? && !n.keyIsConst ==>
          n.valuestring.value.block != n.key.value.block)
  }

  /** What a container says about its children and itself. */
  lemma ContainerFacts(parent: Node, D: set<Node>)
    requires Container(parent) && parent.Ok(D)
    ensures ChildList(parent, parent.elems) && Apart(parent.elems) && OwnApart(parent)
    ensures parent.owned == parent.OwnBlocks() + OwnedBy(parent.elems) && parent.OwnBlocks() !! OwnedBy(parent.elems)
    ensures Denotes(parent.kind, parent.valuestring, parent.valuedouble, parent.elems, parent.value)
    ensures Size(parent.value) == |parent.elems|
    ensures forall e | e in parent.elems :: e in D && e != parent
  {
  }

  /** The ghost fields of a node whose list of children has been edited. */
  ghost method Settle(parent: Node, list: seq<Node>, D: set<Node>, v: Value)
    requires Container(parent) && ChildList(parent, list) && OwnApart(parent)
    requires forall e | e in list :: e in D && e != parent
    requires Denotes(parent.kind, parent.valuestring, parent.valuedouble, list, v)
    requires Apart(list) && parent.OwnBlocks() !! OwnedBy(list)
    modifies parent`elems, parent`value, parent`owned
    ensures parent.elems == list && parent.value == v && parent.owned == parent.OwnBlocks() + old(OwnedBy(list))
    ensures parent.Ok(D)
  {
    hide OwnedBy, Apart, Node.Ok, Denotes, Chain;
    assert parent !in list && forall k | 0 <= k < |list| :: list[k] != parent;
    parent.elems, parent.value, parent.owned := list, v, parent.OwnBlocks() + OwnedBy(list);
    OkIntro(parent, D);
  }

  /** No other node of `D` has any of these nodes among its children. */
  ghost predicate Exclusive(list: seq<Node>, D: set<Node>)
    reads D
  {
    forall n, e | n in D && e in n.elems :: e !in list
  }

  /** The children of a list, a new node and those below them: none of them has a child in the list. */
  ghost predicate Ready(parent: Node, list: seq<Node>, item: Node, D: set<Node>, K: set<Node>)
    reads parent`child, list, item, item.elems, D, K
  {
    && ChildList(parent, list) && Sound(D) && Sound(K) && item.Ok(K) && Detached(item)
    && item != parent && parent !in D && parent !in K && item !in D && item !in K && item !in list
    && Exclusive(list, D + K + {item})
  }

  lemma ReadyParts(parent: Node, list: seq<Node>, item: Node, D: set<Node>, K: set<Node>)
    requires Ready(parent, list, item, D, K)
    ensures forall n | n in D :: n.Ok(D) && n != parent && Below(n, list, item, parent)
    ensures forall n | n in K :: n.Ok(K) && n != parent && Below(n, list, item, parent)
    ensures item.Ok(K) && Below(item, list, item, parent)
    ensures parent !in D + K + {item} && item !in list
  {
    hide Node.Means, Node.Owns, Chain;
  }

  /** No child of the node has its links changed. */
  ghost predicate Below(n: Node, list: seq<Node>, item: Node, parent: Node)
    reads n`elems
  {
    forall k | 0 <= k < |n.elems| :: n.elems[k] !in list && n.elems[k] != item && n.elems[k] != parent
  }

  /** Relinking keeps every other node as it is. */
  method AppendAndKeep(parent: Node, item: Node, ghost list: seq<Node>, ghost D: set<Node>, ghost K: set<Node>)
    requires Ready(parent, list, item, D, K)
    modifies parent`child, list`next, item`prev
    ensures ChildList(parent, list + [item]) && Sound(D + K + {item})
  {
    hide Sound, Node.Ok, ChildList, Chain, Exclusive;
    ReadyParts(parent, list, item, D, K);
    var ok := AddItemToArray(parent, item, list);
    forall n | n in D ensures n.Ok(D) { assert old(n.Ok(D)) && Below(n, list, item, parent); }
    forall n | n in K ensures n.Ok(K) { assert old(n.Ok(K)) && Below(n, list, item, parent); }
    assert item.Ok(K) by { assert old(item.Ok(K)) && Below(item, list, item, parent); }
    SoundAgain(D, K, item);
  }

  method InsertAndKeep(parent: Node, which: int, item: Node, ghost list: seq<Node>, ghost D: set<Node>,
                       ghost K: set<Node>)
    requires Ready(parent, list, item, D, K)
    modifies parent`child, list`next, list`prev, item`next, item`prev
    ensures ChildList(parent, if which < 0 then list else InsertAt<Node>(list, which, item))
    ensures Sound(D + K + {item}) && Sound(D) && Sound(K) && item.Ok(K)
    ensures which < 0 ==> Detached(item)
  {
    hide Sound, Node.Ok, ChildList, Chain, Exclusive, InsertAt;
    ReadyParts(parent, list, item, D, K);
    InsertItemInArray(parent, which, item, list);
    forall n | n in D ensures n.Ok(D) { assert old(n.Ok(D)) && Below(n, list, item, parent); }
    forall n | n in K ensures n.Ok(K) { assert old(n.Ok(K)) && Below(n, list, item, parent); }
    assert item.Ok(K) by { assert old(item.Ok(K)) && Below(item, list, item, parent); }
    SoundAgain(D, K, item);
    SoundFrom(D);
    SoundFrom(K);
  }

  lemma SoundAgain(D: set<Node>, K: set<Node>, item: Node)
    requires (forall n | n in D :: n.Ok(D)) && (forall n | n in K :: n.Ok(K)) && item.Ok(K)
    ensures Sound(D + K + {item})
  {
    hide Node.Means, Node.Owns, Chain;
  }

  /** The node with its new child. */
  ghost method Adopted(parent: Node, which: nat, item: Node, list: seq<Node>, D: set<Node>, v: Value)
    returns (E: set<Node>)
    requires Sound(D) && NoReferences(D) && parent !in D
    requires Container(parent) && ChildList(parent, InsertAt(list, which, item))
    requires OwnApart(parent) && Fits(parent, item)
    requires item in D && item != parent && forall e | e in list :: e in D && e != parent
    requires Denotes(parent.kind, parent.valuestring, parent.valuedouble, list, v)
    requires Apart(list) && parent.OwnBlocks() !! OwnedBy(list) && item.owned !! parent.OwnBlocks() + OwnedBy(list)
    modifies parent`elems, parent`value, parent`owned
    ensures parent.elems == InsertAt(list, which, item) && parent.value == Inserted(v, which, MemberOf(item))
    ensures parent.owned == parent.OwnBlocks() + old(OwnedBy(list)) + item.owned
    ensures Whole(parent, E) && E <= D
  {
    hide Sound, NoReferences, Under, Node.Ok, Denotes, OwnedBy, Apart, ChildList, Inserted;
    InsertOwned(list, which, item);
    InsertDenotes(parent.kind, parent.valuestring, parent.valuedouble, list, v, which, item);
    forall e | e in InsertAt(list, which, item) ensures e in D && e != parent {
      assert e in list || e == item;
    }
    Settle(parent, InsertAt(list, which, item), D, Inserted(v, which, MemberOf(item)));
    WholePart(parent, D);
    E := Part(parent.elems, D);
  }

  /** A tree that may become a child of another one: the two have no block in common. */
  ghost predicate Joinable(parent: Node, item: Node, D: set<Node>, K: set<Node>)
    reads parent, parent.elems, item, item.elems, D, K
  {
    && Container(parent) && Whole(parent, D) && Whole(item, K)
    && Detached(item) && Fits(parent, item) && item.owned !! parent.owned
  }

  /** What the owned blocks of a whole tree say about the nodes below its root. */
  lemma BelowRoot(root: Node, D: set<Node>, n: Node)
    requires Whole(root, D) && n in D
    ensures n.Owns() && n.block in n.owned && n.owned <= root.owned
    ensures root.block in root.owned && root.block !in n.owned
    ensures forall e | e in n.elems :: e in D && e.owned <= n.owned && n.block !in e.owned
  {
    hide Node.Means, Node.Owns, Chain, Apart, OwnedBy;
    assert n.Ok(D) && root.Ok(D);
    forall e | e in n.elems ensures e in D && e.owned <= n.owned && n.block !in e.owned {
      OwnsChild(n, e);
    }
    var c :| c in root.elems && n.owned <= c.owned;
    OwnsChild(root, c);
    OwnsItself(n);
  }

  lemma OwnsItself(n: Node)
    requires n.Owns()
    ensures n.block in n.owned
  {
  }

  /** In a whole tree no other node has a child of the root. */
  lemma OneParent(root: Node, D: set<Node>)
    requires Whole(root, D)
    ensures Exclusive(root.elems, D)
  {
    hide Node.Means, Node.Owns, Chain, Sound, Node.Ok, OwnedBy;
    forall n, e | n in D && e in n.elems ensures e !in root.elems {
      BelowRoot(root, D, n);
      BelowRoot(root, D, e);
      if e in root.elems {
        var c :| c in root.elems && n.owned <= c.owned;
        ApartChildren(root, D, c, e);
      }
    }
  }

  /** Children that share a block are the same child. */
  lemma ApartChildren(root: Node, D: set<Node>, c: Node, e: Node)
    requires Whole(root, D) && c in root.elems && e in root.elems
    ensures c == e || c.owned !! e.owned
  {
    hide Node.Means, OwnedBy, Chain, Sound;
    var i :| 0 <= i < |root.elems| && root.elems[i] == c;
    var j :| 0 <= j < |root.elems| && root.elems[j] == e;
    assert Apart(root.elems);
  }

  lemma JoinableReady(parent: Node, item: Node, D: set<Node>, K: set<Node>)
    requires Joinable(parent, item, D, K)
    ensures Ready(parent, parent.elems, item, D, K)
  {
    hide Node.Means, Node.Owns, Chain, Apart, OwnedBy, Sound;
    OneParent(parent, D);
    OwnsItself(item);
    OwnsItself(parent);
    forall n | n in D ensures n != item && n !in K && n != parent {
      BelowRoot(parent, D, n);
      if n in K { BelowRoot(item, K, n); }
    }
    forall n | n in K ensures n != parent { BelowRoot(item, K, n); }
    forall n, e | n in K + {item} && e in n.elems ensures e !in parent.elems {
      if n in K { BelowRoot(item, K, n); } else { OwnsChild(item, e); }
      assert e in K;
      BelowRoot(item, K, e);
    }
  }

  lemma NoneInBoth(D: set<Node>, K: set<Node>, item: Node)
    requires NoReferences(D) && NoReferences(K) && !item.isReference
    ensures NoReferences(D + K + {item})
  {
  }

  /** `cJSON_AddItemToArray` on a tree: the value gets the item at its end, the node its blocks. */
  method AppendChild(parent: Node, item: Node, ghost D: set<Node>, ghost K: set<Node>) returns (ghost E: set<Node>)
    requires Joinable(parent, item, D, K)
    modifies parent`child, parent`elems, parent`value, parent`owned, parent.elems`next, item`prev
    ensures Container(parent) && Whole(parent, E) && E <= D + K + {item}
    ensures parent.elems == old(parent.elems) + [item] && item.value == old(item.value)
    ensures parent.value == Inserted(old(parent.value), |old(parent.elems)|, MemberOf(item))
    ensures parent.owned == old(parent.owned) + old(item.owned)
  {
    hide Node.Ok, Denotes, OwnedBy, Apart, ChildList, Ready, Inserted, Sound, NoReferences, Under;
    ghost var list, v := parent.elems, parent.value;
    ContainerFacts(parent, D);
    JoinableReady(parent, item, D, K);
    ReadyParts(parent, list, item, D, K);
    AppendAndKeep(parent, item, list, D, K);
    NoneInBoth(D, K, item);
    E := Adopted(parent, |list|, item, list, D + K + {item}, v);
  }

  /** `cJSON_InsertItemInArray` on a tree; nothing happens at a negative index. */
  method InsertChild(parent: Node, which: int, item: Node, ghost D: set<Node>, ghost K: set<Node>)
    returns (ghost E: set<Node>)
    requires Joinable(parent, item, D, K)
    modifies parent`child, parent`elems, parent`value, parent`owned, parent.elems`next, parent.elems`prev, item`next,
      item`prev
    ensures Container(parent) && Whole(parent, E) && E <= D + K + {item} && item.value == old(item.value)
    ensures which >= 0 ==>
      && parent.elems == InsertAt(old(parent.elems), which, item)
      && parent.value == Inserted(old(parent.value), which, MemberOf(item))
      && parent.owned == old(parent.owned) + old(item.owned)
    ensures which < 0 ==>
      && parent.elems == old(parent.elems) && parent.value == old(parent.value) && parent.owned == old(parent.owned)
      && Joinable(parent, item, E, K)
  {
    hide Node.Ok, Denotes, OwnedBy, Apart, ChildList, Ready, Inserted, InsertAt, Sound, NoReferences, Under;
    ghost var list, v := parent.elems, parent.value;
    ContainerFacts(parent, D);
    JoinableReady(parent, item, D, K);
    ReadyParts(parent, list, item, D, K);
    InsertAndKeep(parent, which, item, list, D, K);
    NoneInBoth(D, K, item);
    if which >= 0 {
      E := Adopted(parent, which, item, list, D + K + {item}, v);
    } else {
      Settle(parent, list, D, v);
      E := D;
    }
  }

  // ---------- taking out and replacing ----------

  method DetachAndKeep(parent: Node, which: int, ghost list: seq<Node>, ghost D: set<Node>) returns (r: Node?)
    requires ChildList(parent, list) && Sound(D) && parent !in D && Exclusive(list, D)
    modifies parent`child, list`next, list`prev
    ensures r == if 0 <= which < |list| then list[which] else null
    ensures ChildList(parent, if r == null then list else RemoveAt(list, which)) && (r != null ==> Detached(r))
    ensures Sound(D)
  {
    hide Sound, Node.Ok, ChildList, Chain, Exclusive, RemoveAt, Detached;
    DetachParts(parent, list, D);
    r := DetachItemFromArray(parent, which, list);
    forall n | n in D ensures n.Ok(D) { assert old(n.Ok(D)) && Below(n, list, parent, parent); }
    SoundFrom(D);
  }

  lemma DetachParts(parent: Node, list: seq<Node>, D: set<Node>)
    requires Sound(D) && parent !in D && Exclusive(list, D)
    ensures forall n | n in D :: n.Ok(D) && n != parent && Below(n, list, parent, parent)
  {
    hide Node.Means, Node.Owns, Chain;
  }

  lemma SoundFrom(D: set<Node>)
    requires forall n | n in D :: n.Ok(D)
    ensures Sound(D)
  {
    hide Node.Means, Node.Owns, Chain;
  }

  /** The node without the child. */
  ghost method Orphaned(parent: Node, which: nat, list: seq<Node>, D: set<Node>, v: Value)
    requires Container(parent) && which < |list| && ChildList(parent, RemoveAt(list, which)) && OwnApart(parent)
    requires forall e | e in list :: e in D && e != parent
    requires Denotes(parent.kind, parent.valuestring, parent.valuedouble, list, v) && Size(v) == |list|
    requires Apart(list) && parent.OwnBlocks() !! OwnedBy(list)
    modifies parent`elems, parent`value, parent`owned
    ensures parent.elems == RemoveAt(list, which) && parent.value == Removed(v, which)
    ensures parent.owned == parent.OwnBlocks() + old(OwnedBy(list)) - list[which].owned
    ensures list[which].owned <= old(OwnedBy(list))
    ensures parent.Ok(D) && list[which].owned == old(list[which].owned)
  {
    hide Node.Ok, Denotes, OwnedBy, Apart, ChildList, Removed, Size;
    assert list[which] in list;
    RemoveOwned(list, which);
    RemoveDenotes(parent.kind, parent.valuestring, parent.valuedouble, list, v, which);
    forall e | e in RemoveAt(list, which) ensures e in D && e != parent {
      assert e in list;
    }
    Settle(parent, RemoveAt(list, which), D, Removed(v, which));
  }

  /** `cJSON_DetachItemFromArray` on a tree: the item takes its blocks with it, and two trees are left. */
  method DetachChild(parent: Node, which: int, ghost D: set<Node>)
    returns (r: Node?, ghost E: set<Node>, ghost K: set<Node>)
    requires Container(parent) && Whole(parent, D)
    modifies parent`child, parent`elems, parent`value, parent`owned, parent.elems`next, parent.elems`prev
    ensures r == if 0 <= which < |old(parent.elems)| then old(parent.elems)[which] else null
    ensures r == null ==>
      parent.elems == old(parent.elems) && parent.value == old(parent.value) && parent.owned == old(parent.owned)
    ensures r != null ==>
      && parent.elems == RemoveAt(old(parent.elems), which)
      && which < Size(old(parent.value)) && parent.value == Removed(old(parent.value), which)
      && r.value == old(r.value) && r.owned == old(r.owned)
      && parent.owned == old(parent.owned) - r.owned && r.owned <= old(parent.owned)
      && Whole(r, K) && Detached(r) && r in D
    ensures Container(parent) && Whole(parent, E) && E <= D && K <= D
  {
    hide Node.Ok, Denotes, OwnedBy, Apart, ChildList, Removed, Size, Exclusive, RemoveAt, Detached, Sound, NoReferences;
    hide Under;
    ghost var list, v := parent.elems, parent.value;
    ContainerFacts(parent, D);
    OneParent(parent, D);
    K := {};
    r := DetachAndKeep(parent, which, list, D);
    if r == null {
      Settle(parent, list, D, v);
    } else {
      Orphaned(parent, which, list, D, v);
      RootOf(r, D);
      K := Part(r.elems, D);
    }
    WholePart(parent, D);
    E := Part(parent.elems, D);
  }

  /** `cJSON_DeleteItemFromArray` on a tree: exactly the blocks of that child are freed. */
  method DeleteChild(parent: Node, which: int, heap: Heap, ghost D: set<Node>) returns (ghost E: set<Node>)
    requires Container(parent) && Whole(parent, D) && heap.Valid() && parent.owned <= heap.live
    modifies parent`child, parent`elems, parent`value, parent`owned, parent.elems`next, parent.elems`prev, heap`live
    ensures Container(parent) && Whole(parent, E) && E <= D
    ensures var list, v := old(parent.elems), old(parent.value);
      if 0 <= which < |list| then
        parent.elems == RemoveAt(list, which) && which < Size(v) && parent.value == Removed(v, which)
      else
        parent.elems == list && parent.value == v
    ensures var gone := if 0 <= which < |old(parent.elems)| then old(parent.elems[which].owned) else {};
      && gone <= old(parent.owned) && parent.owned == old(parent.owned) - gone
      && heap.live == old(heap.live) - gone
  {
    hide Node.Ok, Denotes, OwnedBy, Apart, Removed, Size, RemoveAt, Sound, NoReferences, Under;
    var r;
    ghost var K;
    r, E, K := DetachChild(parent, which, D);
    if r != null {
      DeleteTree(r, heap, K);
    }
  }

  lemma RootOf(n: Node, D: set<Node>)
    requires n in D && Sound(D) && NoReferences(D)
    ensures Whole(n, Part(n.elems, D))
  {
    hide Node.Means, Node.Owns, Chain;
    WholePart(n, D);
  }

  /** The replaced child and what is below it. */
  lemma ReplaceParts(parent: Node, list: seq<Node>, item: Node, D: set<Node>, K: set<Node>, w: nat)
    requires Ready(parent, list, item, D, K) && w < |list| && forall e | e in list :: e in D && e != parent
    ensures var old0, E := list[w], D - NodesOf(list);
      && old0.Ok(E) && Sound(E) && old0 !in E && old0 != parent && parent !in E && item !in E
      && (forall e | e in list :: e !in E) && item != old0
  {
    hide Node.Means, Node.Owns, Chain, ChildList;
  }

  method ReplaceAndKeep(parent: Node, which: int, item: Node, heap: Heap, ghost list: seq<Node>, ghost D: set<Node>,
                        ghost K: set<Node>)
    requires Ready(parent, list, item, D, K) && forall e | e in list :: e in D && e != parent
    requires heap.Valid() && (0 <= which < |list| ==> list[which].owned <= heap.live)
    modifies parent`child, list`next, list`prev, item`next, item`prev, heap`live
    ensures ChildList(parent, if 0 <= which < |list| then list[which := item] else list)
    ensures Sound(D + K + {item}) && Sound(D) && Sound(K) && item.Ok(K)
    ensures !(0 <= which < |list|) ==> Detached(item)
    ensures heap.live == old(heap.live) - (if 0 <= which < |list| then old(list[which].owned) else {})
    ensures 0 <= which < |list| ==> Detached(list[which])
  {
    hide Sound, Node.Ok, ChildList, Chain, Exclusive;
    ReadyParts(parent, list, item, D, K);
    if 0 <= which < |list| { ReplaceParts(parent, list, item, D, K, which); }
    ReplaceItemInArray(parent, which, item, heap, list, D - NodesOf(list));
    forall n | n in D ensures n.Ok(D) { assert old(n.Ok(D)) && Below(n, list, item, parent); }
    forall n | n in K ensures n.Ok(K) { assert old(n.Ok(K)) && Below(n, list, item, parent); }
    assert item.Ok(K) by { assert old(item.Ok(K)) && Below(item, list, item, parent); }
    SoundAgain(D, K, item);
    SoundFrom(D);
    SoundFrom(K);
  }

  /** The node with another child in that place. */
  ghost method Swapped(parent: Node, w: nat, item: Node, list: seq<Node>, D: set<Node>, v: Value) returns (E: set<Node>)
    requires Sound(D) && NoReferences(D) && parent !in D
    requires Container(parent) && w < |list| && ChildList(parent, list[w := item])
    requires OwnApart(parent) && Fits(parent, item)
    requires item in D && item != parent && forall e | e in list :: e in D && e != parent
    requires Denotes(parent.kind, parent.valuestring, parent.valuedouble, list, v) && Size(v) == |list|
    requires Apart(list) && parent.OwnBlocks() !! OwnedBy(list) && item.owned !! parent.OwnBlocks() + OwnedBy(list)
    modifies parent`elems, parent`value, parent`owned
    ensures parent.elems == list[w := item] && parent.value == Replaced(v, w, MemberOf(item))
    ensures parent.owned == parent.OwnBlocks() + (old(OwnedBy(list)) - list[w].owned) + item.owned
    ensures list[w].owned <= old(OwnedBy(list)) && list[w].owned == old(list[w].owned)
    ensures Whole(parent, E) && E <= D
  {
    hide Sound, NoReferences, Under, Node.Ok, Denotes, OwnedBy, Apart, ChildList, Replaced, Size;
    assert list[w] in list;
    ReplaceOwned(list, w, item);
    ReplaceDenotes(parent.kind, parent.valuestring, parent.valuedouble, list, v, w, item);
    forall e | e in list[w := item] ensures e in D && e != parent {
      assert e in list || e == item;
    }
    Settle(parent, list[w := item], D, Replaced(v, w, MemberOf(item)));
    WholePart(parent, D);
    E := Part(parent.elems, D);
  }

  lemma ReplaceOwned(list: seq<Node>, w: nat, item: Node)
    requires w < |list| && Apart(list) && item.owned !! OwnedBy(list)
    ensures OwnedBy(list[w := item]) == (OwnedBy(list) - list[w].owned) + item.owned && Apart(list[w := item])
    ensures list[w].owned <= OwnedBy(list)
  {
    RemoveOwned(list, w);
    InsertOwned(RemoveAt(list, w), w, item);
    assert InsertAt(RemoveAt(list, w), w, item) == list[w := item];
  }

  /**
   * `cJSON_ReplaceItemInArray` on a tree: the replaced item is freed with all it owns.  Nothing
   * happens outside the list.
   */
  method ReplaceChild(parent: Node, which: int, item: Node, heap: Heap, ghost D: set<Node>, ghost K: set<Node>)
    returns (ghost E: set<Node>)
    requires Joinable(parent, item, D, K) && heap.Valid() && parent.owned <= heap.live
    modifies parent`child, parent`elems, parent`value, parent`owned, parent.elems`next, parent.elems`prev, item`next,
      item`prev, heap`live
    ensures Container(parent) && Whole(parent, E) && E <= D + K + {item}
    ensures item.value == old(item.value) && item.owned == old(item.owned)
    ensures 0 <= which < |old(parent.elems)| ==>
      && parent.elems == old(parent.elems)[which := item]
      && which < Size(old(parent.value)) && parent.value == Replaced(old(parent.value), which, MemberOf(item))
    ensures 0 <= which < |old(parent.elems)| ==>
      var gone := old(parent.elems[which].owned);
      && gone <= old(parent.owned) && parent.owned == (old(parent.owned) - gone) + item.owned
      && heap.live == old(heap.live) - gone
    ensures which < 0 || which >= |old(parent.elems)| ==>
      && parent.elems == old(parent.elems) && parent.value == old(parent.value) && parent.owned == old(parent.owned)
      && heap.live == old(heap.live) && Joinable(parent, item, E, K)
  {
    hide Node.Ok, Denotes, OwnedBy, Apart, ChildList, Ready, Replaced, Size, Sound, Detached, NoReferences, Under, Part;
    hide MemberOf, OwnApart, Node.OwnBlocks;
    ghost var list, v := parent.elems, parent.value;
    ContainerFacts(parent, D);
    JoinableReady(parent, item, D, K);
    ReadyParts(parent, list, item, D, K);
    if 0 <= which < |list| { OwnedAt(list, which); }
    ReplaceAndKeep(parent, which, item, heap, list, D, K);
    NoneInBoth(D, K, item);
    if 0 <= which < |list| {
      E := Swapped(parent, which, item, list, D + K + {item}, v);
    } else {
      Settle(parent, list, D, v);
      E := D;
    }
  }

  /** Replacing a child by itself changes nothing. */
  method ReplaceByItself(parent: Node, which: int, item: Node, heap: Heap, ghost D: set<Node>)
    requires Container(parent) && Whole(parent, D) && 0 <= which < |parent.elems| && item == parent.elems[which]
    requires heap.Valid() && parent.owned <= heap.live
    modifies parent`child, parent`elems, parent`value, parent`owned, parent.elems`next, parent.elems`prev, heap`live
    ensures Container(parent) && Whole(parent, D) && heap.live == old(heap.live)
    ensures parent.elems == old(parent.elems) && parent.value == old(parent.value) && parent.owned == old(parent.owned)
  {
    hide Node.Ok, Denotes, OwnedBy, Apart, ChildList, Size, Sound, NoReferences, Under, Exclusive;
    ghost var list, v := parent.elems, parent.value;
    ContainerFacts(parent, D);
    OneParent(parent, D);
    DetachParts(parent, list, D);
    OwnedAt(list, which);
    ItselfParts(parent, list, D, which);
    ReplaceItemInArray(parent, which, item, heap, list, D - NodesOf(list));
    forall n | n in D ensures n.Ok(D) { assert old(n.Ok(D)) && Below(n, list, parent, parent); }
    SoundFrom(D);
    assert list[which := item] == list;
    Settle(parent, list, D, v);
  }

  lemma ItselfParts(parent: Node, list: seq<Node>, D: set<Node>, w: nat)
    requires Sound(D) && parent !in D && Exclusive(list, D) && w < |list|
    requires forall e | e in list :: e in D && e != parent
    ensures var E := D - NodesOf(list);
      list[w].Ok(E) && Sound(E) && list[w] !in E && list[w] != parent && parent !in E && forall e | e in list :: e !in E
  {
    hide Node.Means, Node.Owns, Chain;
  }

  lemma OwnedAt(list: seq<Node>, w: nat)
    requires w < |list|
    ensures list[w].owned <= OwnedBy(list)
  {
    assert list[w] in list;
  }
}
