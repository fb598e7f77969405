/** The hand-written doubly-linked list that holds non-owning references to
    `Tackle` records in insertion order (tackle.c:20-310). */
module TackleLists {
  import opened Seqs
  import opened Tackles

  class TackleListNode {
    const tackle: Tackle
    var nextNode: TackleListNode?
    var previousNode: TackleListNode?

    /** A detached node. The source never writes `previousNode` of a new node
        (tackle.c:62-64); the model takes it to be NULL, which is what the
        removal of a head node relies on. */
    constructor (t: Tackle)
      ensures tackle == t && nextNode == null && previousNode == null
    {
      tackle := t;
      nextNode := null;
      previousNode := null;
    }
  }

  class TackleList {
    var head: TackleListNode?
    var tail: TackleListNode?
    var nodeCount: nat
    /** The nodes from head to tail. */
    ghost var Nodes: seq<TackleListNode>
    /** The records the nodes refer to, in the same order. */
    ghost var Tackles: seq<Tackle>

    /** `head`, `tail`, the links and `nodeCount` describe `Nodes` exactly. */
    ghost predicate Valid()
      reads this, Nodes
    {
      && nodeCount == |Nodes| == |Tackles|
      && (Nodes == [] ==> head == null && tail == null)
      && (Nodes != [] ==> head == Nodes[0] && tail == Nodes[|Nodes| - 1])
      && (forall i :: 0 <= i < |Nodes| ==> Nodes[i].tackle == Tackles[i])
      && (Nodes != [] ==> head.previousNode == null && tail.nextNode == null)
      && (forall i :: 0 <= i < |Nodes| - 1 ==> Nodes[i].nextNode == Nodes[i + 1])
      && (forall i :: 0 < i < |Nodes| ==> Nodes[i].previousNode == Nodes[i - 1])
      && NoDuplicates(Nodes)
    }

    /** `TackleListCreate`: an empty list (allocation is taken to succeed). */
    constructor ()
      ensures Valid() && Nodes == [] && Tackles == []
    {
      head := null;
      tail := null;
      nodeCount := 0;
      Nodes := [];
      Tackles := [];
    }


    /** The state after `node` has been linked in after the tail the way
        `TackleListAppendNode` links it: only the old tail's forward link
        and the new node's links were written. */
    twostate predicate Appended(node: TackleListNode)
      reads *
    {
      && old(Valid()) && node !in old(Nodes)
      && Nodes == old(Nodes) + [node]
      && Tackles == old(Tackles) + [node.tackle]
      && nodeCount == |old(Nodes)| + 1
      && (forall i :: 0 <= i < |old(Nodes)| ==>
            old(Nodes)[i].previousNode == old(Nodes[i].previousNode))
      && (forall i :: 0 <= i < |old(Nodes)| - 1 ==>
            old(Nodes)[i].nextNode == old(Nodes[i].nextNode))
      && (old(Nodes) != [] ==> old(tail) != null && old(tail).nextNode == node)
      && node.nextNode == null
      && node.previousNode == (if old(Nodes) == [] then null else old(tail))
      && head == (if old(Nodes) == [] then node else old(head))
      && tail == node
    }

    /** What appending leaves is again a valid list. */
    twostate lemma RelinkedAfterAppend(node: TackleListNode)
      requires Appended(node)
      ensures Valid()
    {
      var nodes := old(Nodes);
      var n := |nodes|;
      assert NoDuplicates(Nodes) by {
        forall i, j | 0 <= i < j < |Nodes| ensures Nodes[i] != Nodes[j] {
          assert Nodes[i] == nodes[i];
          if j < n {
            assert Nodes[j] == nodes[j];
          }
        }
      }
    }

    /** The state after the node at position `k` has been unlinked the way
        `TackleListRemoveNode` unlinks it: the ghost sequences lose entry
        `k`, only that node's two neighbours had links rewritten, and they
        now point at each other (or the ends of the list moved to them). */
    twostate predicate Unlinked(k: int)
      reads *
    {
      && old(Valid()) && 0 <= k < |old(Nodes)|
      && Nodes == old(Nodes[..k] + Nodes[k + 1..])
      && Tackles == old(Tackles[..k] + Tackles[k + 1..])
      && nodeCount == |old(Nodes)| - 1
      && (forall i :: 0 <= i < |old(Nodes)| && (i < k - 1 || k + 1 < i) ==>
            && old(Nodes)[i].nextNode == old(Nodes[i].nextNode)
            && old(Nodes)[i].previousNode == old(Nodes[i].previousNode))
      && (k > 0 ==>
            && old(Nodes[k - 1]).previousNode == old(Nodes[k - 1].previousNode)
            && old(Nodes[k - 1]).nextNode
               == (if k < |old(Nodes)| - 1 then old(Nodes[k + 1]) else null))
      && (k < |old(Nodes)| - 1 ==>
            && old(Nodes[k + 1]).nextNode == old(Nodes[k + 1].nextNode)
            && old(Nodes[k + 1]).previousNode == (if k > 0 then old(Nodes[k - 1]) else null))
      && head == (if k > 0 then old(head)
                  else if k < |old(Nodes)| - 1 then old(Nodes[k + 1]) else null)
      && tail == (if k < |old(Nodes)| - 1 then old(tail)
                  else if k > 0 then old(Nodes[k - 1]) else null)
    }

    /** Unlinking keeps every surviving forward link. */
    twostate lemma NextLinksAfterRemoval(k: int)
      requires Unlinked(k)
      ensures forall j :: 0 <= j < |Nodes| - 1 ==> Nodes[j].nextNode == Nodes[j + 1]
    {
      var nodes := old(Nodes);
      forall j | 0 <= j < |Nodes| - 1
        ensures Nodes[j].nextNode == Nodes[j + 1]
      {
        assert Nodes[j] == nodes[Skip(j, k)] && Nodes[j + 1] == nodes[Skip(j + 1, k)];
      }
    }

    /** Unlinking keeps every surviving backward link. */
    twostate lemma PreviousLinksAfterRemoval(k: int)
      requires Unlinked(k)
      ensures forall j :: 0 < j < |Nodes| ==> Nodes[j].previousNode == Nodes[j - 1]
    {
      var nodes := old(Nodes);
      forall j | 0 < j < |Nodes|
        ensures Nodes[j].previousNode == Nodes[j - 1]
      {
        assert Nodes[j] == nodes[Skip(j, k)] && Nodes[j - 1] == nodes[Skip(j - 1, k)];
      }
    }

    /** What unlinking the node at position `k` leaves is again a valid list. */
    twostate lemma RelinkedAfterRemoval(k: int)
      requires Unlinked(k)
      ensures Valid()
    {
      var nodes := old(Nodes);
      var n := |nodes|;
      Splice(nodes, k);
      Splice(old(Tackles), k);
      NextLinksAfterRemoval(k);
      PreviousLinksAfterRemoval(k);
      if n > 1 {
        assert Nodes[0] == nodes[Skip(0, k)] && Nodes[n - 2] == nodes[Skip(n - 2, k)];
      }
    }
  }

  /** A `TackleListNode **` out-parameter that the caller may pass. */
  class NodeSlot {
    var node: TackleListNode?

    constructor ()
      ensures node == null
    {
      node := null;
    }
  }

  /** The node holding the first occurrence of `t`, or null. */
  ghost function NodeFor(list: TackleList, t: Tackle): (n: TackleListNode?)
    reads list
    requires |list.Nodes| == |list.Tackles|
  {
    if t in list.Tackles then list.Nodes[IndexOf(list.Tackles, t)] else null
  }

  /** `TackleListCreateNodeForTackle`: a detached node for `t`, NULL for NULL. */
  method TackleListCreateNodeForTackle(t: Tackle?) returns (tln: TackleListNode?)
    ensures t == null ==> tln == null
    ensures t != null ==>
      tln != null && fresh(tln) && tln.tackle == t && tln.nextNode == null && tln.previousNode == null
  {
    if t == null {
      return null;
    }
    tln := new TackleListNode(t);
  }

  /** `TackleListGetNodeForTackle`: walk from the head to the first node whose
      record is `t` (by identity); NULL if there is none or if an argument is NULL. */
  method TackleListGetNodeForTackle(tl: TackleList?, t: Tackle?) returns (tln: TackleListNode?)
    requires tl != null ==> tl.Valid()
    ensures tl == null || t == null ==> tln == null
    ensures tl != null && t != null ==> (tln == null <==> t !in tl.Tackles)
    ensures tl != null && t != null && tln != null ==>
      tln == tl.Nodes[IndexOf(tl.Tackles, t)] && tln.tackle == t
  {
    if tl == null || t == null {
      return null;
    }
    tln := tl.head;
    ghost var i := 0;
    while tln != null
      invariant 0 <= i <= |tl.Nodes|
      invariant tln == if i < |tl.Nodes| then tl.Nodes[i] else null
      invariant t !in tl.Tackles[..i]
      decreases |tl.Nodes| - i
    {
      if tln.tackle == t {
        assert tl.Tackles[i] == t;
        IndexOfFirst(tl.Tackles, t, i);
        return tln;
      }
      assert tl.Tackles[..i + 1] == tl.Tackles[..i] + [tl.Tackles[i]];
      assert i < |tl.Nodes| - 1 ==> tln.nextNode == tl.Nodes[i + 1];
      assert i == |tl.Nodes| - 1 ==> tln == tl.tail;
      tln := tln.nextNode;
      i := i + 1;
    }
    assert tl.Tackles[..i] == tl.Tackles;
    return null;
  }

  /** `TackleListContainsTackle`: whether `tackle` is in the list; when a slot
      is passed, the located node (or NULL) is written into it. With a NULL
      argument the answer is false and the slot is left alone. */
  method TackleListContainsTackle(list: TackleList?, tackle: Tackle?, pnode: NodeSlot?) returns (found: bool)
    requires list != null ==> list.Valid()
    modifies pnode
    ensures found <==> list != null && tackle != null && tackle in list.Tackles
    ensures (list == null || tackle == null) && pnode != null ==> unchanged(pnode)
    ensures list != null && tackle != null && pnode != null ==>
      pnode.node == NodeFor(list, tackle)
  {
    if list == null || tackle == null {
      return false;
    }
    var node := TackleListGetNodeForTackle(list, tackle);
    if pnode != null {
      pnode.node := node;
    }
    found := node != null;
  }

  /** `TackleListAppendNode`: link a detached node in after the tail. The
      head case does not write the node's `previousNode`, so the node must
      arrive with it NULL. */
  method TackleListAppendNode(list: TackleList?, node: TackleListNode?)
    requires list != null ==> list.Valid()
    requires list != null && node != null ==>
      && node !in list.Nodes
      && node.nextNode == null
      && (list.Nodes == [] ==> node.previousNode == null)
    modifies if list == null || node == null then {} else {list, node, list.tail}
    ensures list != null ==> list.Valid()
    ensures list != null && node != null ==>
      && list.Nodes == old(list.Nodes) + [node]
      && list.Tackles == old(list.Tackles) + [node.tackle]
    ensures list != null && node == null ==>
      list.Nodes == old(list.Nodes) && list.Tackles == old(list.Tackles)
  {
    if list == null || node == null {
      return;
    }
    ghost var nodes := list.Nodes;
    ghost var n := |nodes|;
    if list.head == null {
      list.head := node;
      list.tail := node;
    } else {
      var previous := list.tail;
      previous.nextNode := node;
      node.previousNode := previous;
      list.tail := node;
    }
    list.nodeCount := list.nodeCount + 1;
    list.Nodes := list.Nodes + [node];
    list.Tackles := list.Tackles + [node.tackle];
    forall j | 0 <= j < n
      ensures nodes[j].previousNode == old(nodes[j].previousNode)
      ensures j < n - 1 ==> nodes[j].nextNode == old(nodes[j].nextNode)
    {
      assert nodes[j] != node;
      assert j < n - 1 ==> nodes[j] != nodes[n - 1];
    }
    list.RelinkedAfterAppend(node);
  }

  /** The condition under which `TackleListRemoveNode` as written dereferences
      NULL: a node with neither neighbour makes line 203 write through
      `next` (and line 216 through `previous`). */
  ghost predicate RemoveNodeDereferencesNull(node: TackleListNode)
    reads node
  {
    node.previousNode == null && node.nextNode == null
  }

  /** In a valid list, the crash condition holds exactly for the sole node. */
  lemma SoleNodeRemovalDereferencesNull(list: TackleList, k: nat)
    requires list.Valid() && k < |list.Nodes|
    ensures RemoveNodeDereferencesNull(list.Nodes[k]) <==> |list.Nodes| == 1
  {
    if k > 0 {
      assert list.Nodes[k].previousNode == list.Nodes[k - 1];
    } else if |list.Nodes| > 1 {
      assert list.Nodes[0].nextNode == list.Nodes[1];
    }
  }

  /** `TackleListRemoveNode` as written: unlink `node`, the node at position
      `k`. It requires what the code needs to avoid dereferencing NULL: that
      the node is not the list's only one. */
  method TackleListRemoveNode(list: TackleList?, node: TackleListNode?, ghost k: nat)
    requires list != null ==> list.Valid()
    requires list != null && node != null ==>
      k < |list.Nodes| && list.Nodes[k] == node && !RemoveNodeDereferencesNull(node)
    modifies if list == null || node == null then {} else {list, node, node.previousNode, node.nextNode}
    ensures list != null ==> list.Valid()
    ensures list != null && node != null ==>
      && list.Nodes == old(list.Nodes[..k] + list.Nodes[k + 1..])
      && list.Tackles == old(list.Tackles[..k] + list.Tackles[k + 1..])
      && node.nextNode == null && node.previousNode == null
    ensures list != null && node == null ==>
      list.Nodes == old(list.Nodes) && list.Tackles == old(list.Tackles)
  {
    if list == null || node == null {
      return;
    }
    ghost var nodes := list.Nodes;
    ghost var n := |nodes|;
    assert k > 0 ==> node.previousNode == nodes[k - 1] && nodes[k - 1] != node;
    assert k == 0 ==> node.previousNode == null;
    assert k < n - 1 ==> node.nextNode == nodes[k + 1] && nodes[k + 1] != node;
    assert k == n - 1 ==> node.nextNode == null;
    var previous := node.previousNode;
    var next := node.nextNode;
    if previous == null {
      list.head := next;
      next.previousNode := null;
    } else if next != null {
      next.previousNode := previous;
    }
    node.previousNode := null;
    if next == null {
      list.tail := previous;
      previous.nextNode := null;
    } else if previous != null {
      previous.nextNode := next;
    }
    node.nextNode := null;
    list.nodeCount := list.nodeCount - 1;
    list.Nodes := list.Nodes[..k] + list.Nodes[k + 1..];
    list.Tackles := list.Tackles[..k] + list.Tackles[k + 1..];
    forall i | 0 <= i < n && (i < k - 1 || k + 1 < i)
      ensures nodes[i].nextNode == old(nodes[i].nextNode)
      ensures nodes[i].previousNode == old(nodes[i].previousNode)
    {
      assert nodes[i] != node;
      assert k > 0 ==> nodes[i] != nodes[k - 1];
      assert k < n - 1 ==> nodes[i] != nodes[k + 1];
    }
    list.RelinkedAfterRemoval(k);
  }

  /** `TackleListRemoveNode` with the two NULL dereferences guarded, so that
      removing the sole node empties the list. */
  method TackleListRemoveNodeGuarded(list: TackleList?, node: TackleListNode?, ghost k: nat)
    requires list != null ==> list.Valid()
    requires list != null && node != null ==> k < |list.Nodes| && list.Nodes[k] == node
    modifies if list == null || node == null then {} else {list, node, node.previousNode, node.nextNode}
    ensures list != null ==> list.Valid()
    ensures list != null && node != null ==>
      && list.Nodes == old(list.Nodes[..k] + list.Nodes[k + 1..])
      && list.Tackles == old(list.Tackles[..k] + list.Tackles[k + 1..])
      && node.nextNode == null && node.previousNode == null
    ensures list != null && node == null ==>
      list.Nodes == old(list.Nodes) && list.Tackles == old(list.Tackles)
  {
    if list == null || node == null {
      return;
    }
    ghost var nodes := list.Nodes;
    ghost var n := |nodes|;
    assert k > 0 ==> node.previousNode == nodes[k - 1] && nodes[k - 1] != node;
    assert k == 0 ==> node.previousNode == null;
    assert k < n - 1 ==> node.nextNode == nodes[k + 1] && nodes[k + 1] != node;
    assert k == n - 1 ==> node.nextNode == null;
    var previous := node.previousNode;
    var next := node.nextNode;
    if previous == null {
      list.head := next;
      if next != null {
        next.previousNode := null;
      }
    } else if next != null {
      next.previousNode := previous;
    }
    node.previousNode := null;
    if next == null {
      list.tail := previous;
      if previous != null {
        previous.nextNode := null;
      }
    } else if previous != null {
      previous.nextNode := next;
    }
    node.nextNode := null;
    list.nodeCount := list.nodeCount - 1;
    list.Nodes := list.Nodes[..k] + list.Nodes[k + 1..];
    list.Tackles := list.Tackles[..k] + list.Tackles[k + 1..];
    forall i | 0 <= i < n && (i < k - 1 || k + 1 < i)
      ensures nodes[i].nextNode == old(nodes[i].nextNode)
      ensures nodes[i].previousNode == old(nodes[i].previousNode)
    {
      assert nodes[i] != node;
      assert k > 0 ==> nodes[i] != nodes[k - 1];
      assert k < n - 1 ==> nodes[i] != nodes[k + 1];
    }
    list.RelinkedAfterRemoval(k);
  }

  /** `TackleListAddTackle`: append a node for `tackle` unless the list
      already holds that record (by identity); NULL arguments do nothing. */
  method TackleListAddTackle(list: TackleList?, tackle: Tackle?)
    requires list != null ==> list.Valid()
    modifies list, if list == null then [] else list.Nodes
    ensures list != null ==> list.Valid()
    ensures list != null && (tackle == null || tackle in old(list.Tackles)) ==>
      list.Nodes == old(list.Nodes) && list.Tackles == old(list.Tackles)
    ensures list != null && tackle != null && tackle !in old(list.Tackles) ==>
      && |list.Nodes| == |old(list.Nodes)| + 1
      && list.Nodes[..|old(list.Nodes)|] == old(list.Nodes)
      && fresh(list.Nodes[|old(list.Nodes)|])
      && list.Tackles == old(list.Tackles) + [tackle]
    ensures list != null && NoDuplicates(old(list.Tackles)) ==> NoDuplicates(list.Tackles)
  {
    if list == null || tackle == null {
      return;
    }
    var present := TackleListContainsTackle(list, tackle, null);
    if present {
      return;
    }
    var node := TackleListCreateNodeForTackle(tackle);
    if node == null {
      return;
    }
    TackleListAppendNode(list, node);
    if NoDuplicates(old(list.Tackles)) {
      AppendAbsentKeepsUnique(old(list.Tackles), tackle);
    }
  }

  /** `TackleListRemoveTackle`: unlink the node holding the first occurrence of
      `tackle`, keeping the order of the others; absent records and NULL
      arguments leave the list alone. The unlinking is the guarded one, so
      the sole node can be removed. */
  method TackleListRemoveTackle(list: TackleList?, tackle: Tackle?)
    requires list != null ==> list.Valid()
    modifies list, if list == null then [] else list.Nodes
    ensures list != null ==> list.Valid()
    ensures list != null && (tackle == null || tackle !in old(list.Tackles)) ==>
      list.Nodes == old(list.Nodes) && list.Tackles == old(list.Tackles)
    ensures list != null && tackle != null ==>
      list.Tackles == RemoveFirst(old(list.Tackles), tackle)
    ensures list != null && tackle != null && tackle in old(list.Tackles) ==>
      var k := IndexOf(old(list.Tackles), tackle);
      list.Nodes == old(list.Nodes[..k] + list.Nodes[k + 1..])
    ensures list != null && tackle != null && NoDuplicates(old(list.Tackles)) ==>
      tackle !in list.Tackles && NoDuplicates(list.Tackles)
  {
    if list == null || tackle == null {
      return;
    }
    var node := TackleListGetNodeForTackle(list, tackle);
    if node == null {
      return;
    }
    ghost var k := IndexOf(list.Tackles, tackle);
    assert k > 0 ==> node.previousNode == list.Nodes[k - 1];
    assert k < |list.Nodes| - 1 ==> node.nextNode == list.Nodes[k + 1];
    TackleListRemoveNodeGuarded(list, node, k);
    if NoDuplicates(old(list.Tackles)) {
      RemoveFirstFromUnique(old(list.Tackles), tackle);
    }
  }

  /** `TackleListFree`: remove records from the tail until the list is empty.
      The records themselves are not touched; releasing the memory is not
      modelled. */
  method TackleListFree(tl: TackleList?)
    requires tl != null ==> tl.Valid()
    modifies tl, if tl == null then {} else set n | n in tl.Nodes
    ensures tl != null ==> tl.Valid() && tl.Nodes == [] && tl.Tackles == []
  {
    if tl != null {
      var tln := tl.tail;
      while tln != null
        invariant tl.Valid() && tln == tl.tail
        invariant forall o :: o in tl.Nodes ==> o in old(tl.Nodes)
        decreases |tl.Nodes|
      {
        ghost var nodes := tl.Nodes;
        var t := tl.tail.tackle;
        assert t == tl.Tackles[|tl.Tackles| - 1];
        SpliceShrinks(nodes, IndexOf(tl.Tackles, t));
        TackleListRemoveTackle(tl, t);
        tln := tl.tail;
      }
    }
  }
}
