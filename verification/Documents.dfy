/** A document's whole life: parse, edit, print and delete compose, and leave nothing behind. */
module Documents {
  import opened Bytes
  import opened Json
  import opened Numbers
  import opened ParseSpec
  import opened ParseResult
  import opened Allocation
  import opened Tree
  import opened Lifetime
  import opened Lists
  import opened Building
  import opened TreeEdits
  import opened Parsing
  import opened Printing

  lemma PrintableParse(t: seq<byte>)
    requires IsText(t) && ParseText(t, true).Some?
    ensures Printable(ParseText(t, true).value.val)
  {
    hide ParseText;
    ParsedShape(t, true);
  }

  /** The value of the array with one more item. */
  function WithItem(v: Value, x: Value): Value {
    match v
    case Arr(items) => Arr(items + [x])
    case _ => v
  }

  lemma ArrayParts(n: Node, D: set<Node>)
    requires Whole(n, D)
    ensures (n.kind == KArray <==> n.value.Arr?) && (n.kind == KArray ==> Container(n) && |n.value.items| == |n.elems|)
    ensures forall e | e in n.elems :: e in D
  {
  }

  /** Parse the text and make its value the last item of an array. */
  method AppendParsed(root: Node, extra: seq<byte>, heap: Heap, ghost D: set<Node>)
    returns (ok: bool, ghost E: set<Node>)
    requires heap.Valid() && IsText(extra) && Container(root) && root.kind == KArray && Whole(root, D)
    requires root.owned <= heap.live
    modifies heap, root`child, root`elems, root`value, root`owned, root.elems`next
    ensures heap.Valid() && heap.refusals >= old(heap.refusals) && Whole(root, E)
    ensures ok <==> heap.refusals == old(heap.refusals) && ParseText(extra, true).Some?
    ensures ok ==> root.value == WithItem(old(root.value), ParseText(extra, true).value.val)
    ensures !ok ==> root.value == old(root.value)
    ensures root.owned <= heap.live && heap.live - root.owned == old(heap.live) - old(root.owned)
  {
    hide ParseText, Sound, NoReferences, Under, MemberOf, Inserted, Node.Ok;
    E := D;
    ArrayParts(root, D);
    var item, end, K := ParseWithOpts(Some(extra), true, heap);
    ok := item != null;
    if ok {
      Inserting(root.value, item, root.elems);
      assert item.owned !! root.owned;
      E := AppendChild(root, item, D, K);
    }
  }

  /** Append the value of one text to the array in another, print the result, and free both trees. */
  method AppendText(list: seq<byte>, extra: seq<byte>, fmt: bool, heap: Heap)
    returns (printed: array?<byte>, block: nat)
    requires heap.Valid() && IsText(list) && IsText(extra)
    modifies heap
    ensures heap.Valid() && heap.live == old(heap.live) + (if printed == null then {} else {block})
    ensures printed != null <==>
      && heap.refusals == old(heap.refusals) && ParseText(list, true).Some? && ParseText(extra, true).Some?
      && ParseText(list, true).value.val.Arr?
      && |Render(WithItem(ParseText(list, true).value.val, ParseText(extra, true).value.val), fmt, 0)| + 2 <= INT_MAX
    ensures printed != null ==>
      printed[..] == Render(WithItem(ParseText(list, true).value.val, ParseText(extra, true).value.val), fmt, 0) + [NUL]
  {
    hide ParseText, Render, Printable, WithItem, Sound, NoReferences, Under, Node.Ok;
    printed, block := null, 0;
    var root, end, D := ParseWithOpts(Some(list), true, heap);
    if root == null {
      return;
    }
    PrintableParse(list);
    ArrayParts(root, D);
    assert fresh(root);
    forall i | 0 <= i < |root.elems| ensures fresh(root.elems[i]) {
      assert root.elems[i] in root.elems && root.elems[i] in D;
    }
    var ok;
    if root.kind == KArray {
      ok, D := AppendParsed(root, extra, heap, D);
      if ok {
        PrintableParse(extra);
        PrintableWith(ParseText(list, true).value.val, ParseText(extra, true).value.val);
        printed, block := Print(root, fmt, heap, D);
      }
    }
    DeleteTree(root, heap, D);
  }

  lemma PrintableWith(v: Value, x: Value)
    requires Printable(v) && Printable(x)
    ensures Printable(WithItem(v, x))
  {
  }

  lemma Inserting(v: Value, item: Node, elems: seq<Node>)
    requires v.Arr? && |v.items| == |elems|
    ensures Inserted(v, |elems|, MemberOf(item)) == WithItem(v, item.value)
  {
  }
}
