/** The mutable tree node of src/Node.java. Besides its four fields, each node
    carries two ghost fields: Repr, a set of objects holding every node of the
    subtree it roots (after a deletion it may still hold unlinked nodes), and
    Model, the abstract value (a Trees.Tree) of that subtree. */
module Nodes {
  import opened Trees

  class Node {
    var left: Node?
    var right: Node?
    // Never written after construction and never read by the tree.
    var parent: Node?
    var data: int

    ghost var Model: Tree
    ghost var Repr: set<object>

    /** The subtree rooted here is a finite tree whose two child subtrees share
        no node and do not contain this node, and Model is its abstract value. */
    ghost predicate Valid()
      reads this, Repr
      decreases Repr
    {
      this in Repr &&
      (left != null ==>
        left in Repr && left.Repr <= Repr && this !in left.Repr && left.Valid()) &&
      (right != null ==>
        right in Repr && right.Repr <= Repr && this !in right.Repr && right.Valid()) &&
      (left != null && right != null ==> left.Repr !! right.Repr) &&
      Model == Branch(ModelOf(left), data, ModelOf(right))
    }

    /** A fresh node is a leaf holding the given data, with no parent link. */
    constructor (data: int)
      ensures Valid() && fresh(Repr) && Repr == {this}
      ensures left == null && right == null && parent == null
      ensures this.data == data
      ensures Model == Branch(Empty, data, Empty)
    {
      this.left := null;
      this.right := null;
      this.parent := null;
      this.data := data;
      Model := Branch(Empty, data, Empty);
      Repr := {this};
    }
  }

  /** The abstract value of a child position: a null pointer is the empty subtree. */
  ghost function ModelOf(n: Node?): Tree
    reads n
  {
    if n == null then Empty else n.Model
  }

  /** The nodes reachable from a child position. */
  ghost function ReprOf(n: Node?): set<object>
    reads n
  {
    if n == null then {} else n.Repr
  }
}
