/** cJSON nodes: sibling lists linked both ways, the value they denote and the blocks they own. */
module Tree {
  import opened Bytes
  import opened Doubles
  import opened Json

  /** A string in its own block; the bytes leave out the final terminator. */
  datatype CString = CString(block: nat, bytes: seq<byte>) {
    function Text(): seq<byte> { CStr(bytes) }
  }

  datatype Kind = KInvalid | KFalse | KTrue | KNull | KNumber | KString | KArray | KObject

  class Node {
    const block: nat
    var kind: Kind
    /** The flag `cJSON_IsReference`: the children and the string belong to another node. */
    var isReference: bool
    /** The flag `cJSON_StringIsConst`: the key belongs to the caller. */
    var keyIsConst: bool
    var valuestring: Option<CString>
    var valuedouble: double
    /** The number cut to an `int`, for callers; the library itself never reads it. */
    var valueint: int
    var key: Option<CString>
    var next: Node?
    var prev: Node?
    var child: Node?

    ghost var elems: seq<Node>
    ghost var value: Value
    ghost var owned: set<nat>

    /** `cJSON_New_Item` on a granted block: everything is zero. */
    constructor (block: nat)
      ensures this.block == block && Blank() && next == null && prev == null && key == None
      ensures owned == {block} && !keyIsConst
    {
      this.block := block;
      kind, isReference, keyIsConst := KInvalid, false, false;
      valuestring, valuedouble, valueint, key := None, Finite(false, 0, -1074), 0, None;
      next, prev, child := null, null, null;
      elems, value, owned := [], Invalid, {block};
    }

    /** A node that holds no value yet. */
    ghost predicate Blank()
      reads this
    {
      kind == KInvalid && !isReference && valuestring == None && child == null && elems == [] && value == Invalid
    }

    /** The value is the one the fields and the children denote. */
    ghost predicate Means()
      reads `kind, `valuestring, `valuedouble, `valueint, `elems, `value, elems`key, elems`value
    {
      Denotes(kind, valuestring, valuedouble, elems, value) && CutNumber(kind, valuedouble, valueint)
    }

    /** The blocks this node owns by itself. */
    ghost function OwnBlocks(): set<nat>
      reads `isReference, `keyIsConst, `valuestring, `key
    {
      {block}
      + (if valuestring.Some? && !isReference then {valuestring.value.block} else {})
      + (if key.Some? && !keyIsConst then {key.value.block} else {})
    }

    /** The owned blocks are its own and those of its children, no block twice. */
    ghost predicate Owns()
      reads `isReference, `keyIsConst, `valuestring, `key, `elems, `owned, elems
    {
      && owned == OwnBlocks() + (if isReference then {} else OwnedBy(elems))
      && (valuestring.Some? && !isReference ==> valuestring.value.block != block)
      && (key.Some? && !keyIsConst ==> key.value.block != block)
      && (valuestring.Some? && !isReference && key.Some? && !keyIsConst ==> valuestring.value.block != key.value.block)
      && (!isReference ==> Apart(elems) && OwnBlocks() !! OwnedBy(elems))
    }

    /** A well-linked node whose children lie in `D`; its own sibling links do not matter. */
    ghost predicate Ok(D: set<Node>)
      reads `kind, `isReference, `keyIsConst, `valuestring, `valuedouble, `valueint, `key, `child, `elems, `value,
        `owned, elems
    {
      && child == First(elems) && Chain(elems)
      && (forall e | e in elems :: e in D && e != this)
      && Means() && Owns()
    }
  }

  /** What `valueint` holds beside a number. */
  ghost predicate CutNumber(kind: Kind, x: double, n: int) {
    kind == KNumber && x != NotANumber ==> n == Saturated(x)
  }

  /** The value that fields and children denote together. */
  ghost predicate Denotes(kind: Kind, str: Option<CString>, x: double, elems: seq<Node>, v: Value)
    reads elems`key, elems`value
  {
    match kind
    case KInvalid => v == Invalid && elems == []
    case KFalse => v == False && elems == []
    case KTrue => v == True && elems == []
    case KNull => v == Null && elems == []
    case KNumber => v == Num(x) && elems == []
    case KString => str.Some? && v == Str(str.value.Text()) && elems == []
    case KArray =>
      && v.Arr? && |v.items| == |elems|
      && forall i | 0 <= i < |elems| :: v.items[i] == elems[i].value
    case KObject =>
      && v.Obj? && |v.members| == |elems|
      && forall i | 0 <= i < |elems| ::
           elems[i].key.Some? && v.members[i] == Member(elems[i].key.value.Text(), elems[i].value)
  }

  ghost function First(elems: seq<Node>): Node? {
    if elems == [] then null else elems[0]
  }

  ghost function After(elems: seq<Node>, i: nat): Node? {
    if i + 1 < |elems| then elems[i + 1] else null
  }

  ghost function Before(elems: seq<Node>, i: nat): Node? {
    if 0 < i <= |elems| then elems[i - 1] else null
  }

  /** The nodes are one sibling list: `next` and `prev` mirror each other and end in null. */
  ghost predicate Chain(elems: seq<Node>)
    reads elems`next, elems`prev
  {
    && (forall i, j | 0 <= i < j < |elems| :: elems[i] != elems[j])
    && (forall i | 0 <= i < |elems| :: elems[i].next == After(elems, i))
    && (forall i | 0 <= i < |elems| :: elems[i].prev == Before(elems, i))
  }

  lemma ChainAt(elems: seq<Node>, i: nat)
    requires Chain(elems) && i < |elems|
    ensures elems[i].next == After(elems, i) && elems[i].prev == Before(elems, i)
  {
  }

  ghost function OwnedBy(elems: seq<Node>): set<nat>
    reads elems`owned
  {
    set e, b | e in elems && b in e.owned :: b
  }

  ghost predicate Apart(elems: seq<Node>)
    reads elems`owned
  {
    forall i, j | 0 <= i < j < |elems| :: elems[i].owned !! elems[j].owned
  }

  /** Every node of `D` is well linked within `D`. */
  ghost predicate Sound(D: set<Node>)
    reads D
  {
    forall n | n in D :: (forall e | e in n.elems :: e in D) && n.Ok(D)
  }

  ghost predicate NoReferences(D: set<Node>)
    reads D`isReference
  {
    forall n | n in D :: !n.isReference
  }

  /** Every node of `D` lies at or below one of the listed nodes. */
  ghost predicate Under(list: seq<Node>, D: set<Node>)
    reads list`owned, D`owned
  {
    forall n | n in D :: exists c | c in list :: n.owned <= c.owned
  }

  /** A tree that owns all it is made of; `D` holds the nodes below its root and no others. */
  ghost predicate Whole(root: Node, D: set<Node>)
    reads root, root.elems, D
  {
    root.Ok(D) && Sound(D) && root !in D && !root.isReference && NoReferences(D) && Under(root.elems, D)
  }

  /** The nodes of `D` at or below the listed ones. */
  ghost function Part(list: seq<Node>, D: set<Node>): set<Node>
    reads list`owned, D`owned
  {
    set n | n in D && exists c | c in list :: n.owned <= c.owned
  }

  /** The blocks of a child are some of its parent's, and not the parent's own. */
  lemma OwnsChild(n: Node, e: Node)
    requires n.Owns() && !n.isReference && e in n.elems
    ensures e.owned <= n.owned && n.block in n.owned && n.block !in e.owned
  {
    assert e.owned <= OwnedBy(n.elems);
  }

  /** A part of a set of nodes is closed under taking children. */
  lemma PartSound(list: seq<Node>, D: set<Node>)
    requires Sound(D) && NoReferences(D)
    ensures Sound(Part(list, D)) && NoReferences(Part(list, D)) && Under(list, Part(list, D))
    ensures forall c | c in list && c in D :: c in Part(list, D)
  {
    hide Node.Means, Node.Owns, Chain;
    var P := Part(list, D);
    forall n | n in P ensures (forall e | e in n.elems :: e in P) && n.Ok(P) {
      assert n.Ok(D);
      forall e | e in n.elems ensures e in P {
        OwnsChild(n, e);
        var c :| c in list && n.owned <= c.owned;
        assert e.owned <= c.owned;
      }
    }
  }

  /** What lies below a root without references is a whole tree, whatever else `D` holds. */
  lemma WholePart(root: Node, D: set<Node>)
    requires root.Ok(D) && Sound(D) && NoReferences(D) && !root.isReference
    ensures Whole(root, Part(root.elems, D))
  {
    hide Node.Means, Node.Owns, Chain, Sound, NoReferences, Under;
    PartSound(root.elems, D);
    assert root !in Part(root.elems, D) by {
      forall c | c in root.elems ensures !(root.owned <= c.owned) {
        OwnsChild(root, c);
      }
    }
  }

  /** What the child at index `i` of a well-linked node is. */
  lemma ChildAt(n: Node, D: set<Node>, i: nat)
    requires n.Ok(D) && Sound(D) && i < |n.elems|
    ensures n.elems[i] in D && n.elems[i].Ok(D)
    ensures n.elems[i].next == After(n.elems, i) && n.elems[i].prev == Before(n.elems, i)
    ensures n.kind == KArray ==> n.value.Arr? && i < |n.value.items| && n.value.items[i] == n.elems[i].value
    ensures n.kind == KObject ==>
      && n.value.Obj? && i < |n.value.members| && n.elems[i].key.Some?
      && n.value.members[i] == Member(n.elems[i].key.value.Text(), n.elems[i].value)
  {
  }
}
