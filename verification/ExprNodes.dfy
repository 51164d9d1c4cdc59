/** Expression nodes and the singly linked lists they form. */
module ExprNodes {
  import opened Sequences
  import Spec = ExprSpec

  class ExprNode {
    const item: Spec.Node
    var next: ExprNode?
    var locked: bool

    constructor (item: Spec.Node)
      ensures this.item == item && next == null && !locked
    {
      this.item := item;
      next, locked := null, false;
    }

    // A locked node must not be relinked
    method SetNext(newNext: ExprNode?)
      requires !locked
      modifies this`next
      ensures next == newNext
    {
      next := newNext;
    }
  }

  // The successor of node `i`, or null at the end
  ghost function At(nodes: seq<ExprNode>, i: int): ExprNode? {
    if 0 <= i < |nodes| then nodes[i] else null
  }

  ghost predicate Chain(nodes: seq<ExprNode>)
    reads nodes
  {
    Distinct(nodes) && forall i {:trigger nodes[i].next} :: 0 <= i < |nodes| ==> nodes[i].next == At(nodes, i + 1)
  }

  ghost function Items(nodes: seq<ExprNode>): (items: seq<Spec.Node>)
    ensures |items| == |nodes| && forall i :: 0 <= i < |nodes| ==> items[i] == nodes[i].item
  {
    seq(|nodes|, i requires 0 <= i < |nodes| => nodes[i].item)
  }

  /** A list of distinct nodes, given by its ends and its length. */
  class ExprNodeList {
    var head: ExprNode?
    var tail: ExprNode?
    var size: nat
    ghost var nodes: seq<ExprNode>

    ghost predicate Valid()
      reads this, nodes
    {
      && Chain(nodes) && size == |nodes|
      && head == At(nodes, 0) && tail == At(nodes, |nodes| - 1)
    }

    // What the program asserts after each change
    ghost predicate CheckInvariants()
      reads this, if tail == null then {} else {tail}
    {
      && (tail != null ==> tail.next == null)
      && (head != null <==> tail != null)
      && (head == null <==> size == 0)
    }

    constructor ()
      ensures Valid() && nodes == []
    {
      head, tail, size, nodes := null, null, 0, [];
    }

    constructor FromNode(node: ExprNode)
      requires !node.locked
      modifies node`next
      ensures Valid() && nodes == [node]
    {
      head, tail, size, nodes := node, node, 1, [node];
      new;
      node.SetNext(null);
    }

    method PushBack(node: ExprNode?)
      requires Valid() && (node != null ==> node !in nodes && !node.locked)
      requires tail != null ==> !tail.locked
      modifies this, nodes, if node == null then {} else {node}
      ensures Valid() && CheckInvariants()
      ensures nodes == old(nodes) + if node == null then [] else [node]
    {
      if node == null {
        assert nodes + [] == nodes;
        return;
      }
      if head == null {
        head := node;
        tail := node;
      } else {
        tail.SetNext(node);
        tail := node;
      }
      node.SetNext(null);
      size := size + 1;
      nodes := nodes + [node];
    }

    // Appends the nodes of a list that is about to be dropped
    method ConcatMoved(other: ExprNodeList)
      requires Valid() && other.Valid() && other != this
      requires forall i, j :: 0 <= i < |nodes| && 0 <= j < |other.nodes| ==> nodes[i] != other.nodes[j]
      requires tail != null ==> !tail.locked
      modifies this, nodes
      ensures Valid() && CheckInvariants()
      ensures nodes == old(nodes) + other.nodes
      ensures other.nodes == old(other.nodes)
    {
      if other.size == 0 {
        assert nodes + other.nodes == nodes;
        return;
      }
      if head == null {
        head := other.head;
        tail := other.tail;
      } else {
        tail.SetNext(other.head);
        tail := other.tail;
      }
      size := size + other.size;
      nodes := nodes + other.nodes;
    }

    // Appends the nodes of another list and empties it
    method Concat(other: ExprNodeList)
      requires Valid() && other.Valid() && other != this
      requires forall i, j :: 0 <= i < |nodes| && 0 <= j < |other.nodes| ==> nodes[i] != other.nodes[j]
      requires tail != null ==> !tail.locked
      modifies this, other, nodes
      ensures Valid() && CheckInvariants() && other.Valid()
      ensures nodes == old(nodes) + old(other.nodes) && other.nodes == []
    {
      ConcatMoved(other);
      other.head := null;
      other.tail := null;
      other.size := 0;
      other.nodes := [];
    }

    // The nodes, found by following the links
    method Walk() returns (visited: seq<ExprNode>)
      requires Valid()
      ensures visited == nodes
    {
      visited := [];
      var i := 0;
      var node := head;
      while i < size
        invariant 0 <= i <= size && visited == nodes[..i] && node == At(nodes, i)
      {
        visited := visited + [node];
        assert nodes[i].next == At(nodes, i + 1);
        node, i := node.next, i + 1;
      }
    }
  }
}
