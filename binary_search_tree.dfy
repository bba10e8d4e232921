/** The mutable tree of src/BinarySearchTree.java: a root pointer, with
    insertion and deletion that rewire child pointers in place, membership
    lookup, and in-order enumeration. Every operation is proved to compute the
    corresponding function of module Trees on the tree's abstract value. */
module BinarySearchTrees {
  import opened Trees
  import opened Nodes

  class BinarySearchTree {
    var root: Node?
    ghost var Repr: set<object>

    /** The abstract value of the whole tree. */
    ghost function Model(): Tree
      reads this, root
    {
      ModelOf(root)
    }

    /** The tree owns its nodes, and their keys keep the search-tree ordering. */
    ghost predicate Valid()
      reads this, Repr
    {
      this in Repr &&
      (root != null ==>
        root in Repr && root.Repr <= Repr && this !in root.Repr && root.Valid()) &&
      Ordered(Model())
    }

    /** A new tree has no root: it is empty. */
    constructor ()
      ensures Valid() && fresh(Repr)
      ensures root == null && Model() == Empty
    {
      root := null;
      Repr := {this};
    }

    /** Adds x to the stored keys. The root changes only when the tree was
        empty; a key already present leaves the tree as it was. Returns the root. */
    method Insert(x: int) returns (r: Node)
      requires Valid()
      modifies Repr
      ensures Valid() && fresh(Repr - old(Repr))
      ensures Model() == Trees.Insert(old(Model()), x)
      ensures Keys(Model()) == old(Keys(Model())) + {x}
      ensures x in old(Keys(Model())) ==> Model() == old(Model())
      ensures x in old(Keys(Model())) ==> Repr <= old(Repr)
      ensures x !in old(Keys(Model())) ==> exists n: Node :: fresh(n) && Repr <= old(Repr) + {n}
      ensures old(root) != null ==> root == old(root)
      ensures r == root
    {
      ghost var added;
      root, added := InsertAt(root, x);
      Repr := {this} + root.Repr;
      InsertOrdered(old(Model()), x);
      InsertKeys(old(Model()), x);
      if x in old(Keys(Model())) {
        InsertPresent(old(Model()), x);
      }
      r := root;
    }

    /** Inserts x into the subtree at current and returns the node to hang at
        that position: current itself, with one child pointer rewired, or a
        new leaf when the position was empty. The ghost out-parameter added is
        the one node allocated, or null when x was already stored. */
    method InsertAt(current: Node?, x: int) returns (r: Node, ghost added: Node?)
      requires current != null ==> current.Valid()
      modifies ReprOf(current)
      ensures r.Valid()
      ensures r.Model == Trees.Insert(old(ModelOf(current)), x)
      ensures current != null ==> r == current
      ensures added == null <==> r.Model == old(ModelOf(current))
      ensures added != null ==> fresh(added)
      ensures r.Repr == old(ReprOf(current)) + (if added == null then {} else {added})
      decreases ReprOf(current), 1
    {
      if current == null {
        r := new Node(x);
        added := r;
      } else if x < current.data {
        added := InsertLeft(current, x);
        r := current;
      } else if x > current.data {
        added := InsertRight(current, x);
        r := current;
      } else {
        added := null;
        r := current;
      }
    }

    /** Inserts x, smaller than the key of current, into the left subtree of
        current, which keeps its place: its left child pointer is rewired to
        the result of the recursive insertion. */
    method InsertLeft(current: Node, x: int) returns (ghost added: Node?)
      requires current.Valid() && x < current.data
      modifies current.Repr
      ensures current.Valid()
      ensures current.Model == Trees.Insert(old(current.Model), x)
      ensures added == null <==> current.Model == old(current.Model)
      ensures added != null ==> fresh(added)
      ensures current.Repr == old(current.Repr) + (if added == null then {} else {added})
      decreases current.Repr, 0
    {
      var l;
      l, added := InsertAt(current.left, x);
      current.left := l;
      current.Repr := current.Repr + l.Repr;
      current.Model := Branch(l.Model, current.data, ModelOf(current.right));
    }

    /** Inserts x, larger than the key of current, into the right subtree of
        current, which keeps its place: its right child pointer is rewired to
        the result of the recursive insertion. */
    method InsertRight(current: Node, x: int) returns (ghost added: Node?)
      requires current.Valid() && x > current.data
      modifies current.Repr
      ensures current.Valid()
      ensures current.Model == Trees.Insert(old(current.Model), x)
      ensures added == null <==> current.Model == old(current.Model)
      ensures added != null ==> fresh(added)
      ensures current.Repr == old(current.Repr) + (if added == null then {} else {added})
      decreases current.Repr, 0
    {
      var rt;
      rt, added := InsertAt(current.right, x);
      current.right := rt;
      current.Repr := current.Repr + rt.Repr;
      current.Model := Branch(ModelOf(current.left), current.data, rt.Model);
    }

    /** Removes x from the stored keys, keeping every other key and the
        ordering; an empty tree or an absent key is left as it was, and the
        root node stays in place unless it holds x. */
    method Delete(x: int)
      requires Valid()
      modifies Repr
      ensures Valid() && Repr <= old(Repr)
      ensures Model() == Trees.Delete(old(Model()), x)
      ensures Keys(Model()) == old(Keys(Model())) - {x}
      ensures x !in old(Keys(Model())) ==> Model() == old(Model())
      ensures old(root) != null && x != old(root.data) ==> root == old(root)
      ensures old(root) != null && old(root.left) != null && old(root.right) != null ==>
        root == old(root)
    {
      if root != null {
        root := DeleteAt(root, x);
        Repr := {this} + ReprOf(root);
        DeleteOrdered(old(Model()), x);
        DeleteKeys(old(Model()), x);
        if x !in old(Keys(Model())) {
          DeleteAbsent(old(Model()), x);
        }
      }
    }

    /** Deletes x from the subtree at current and returns the subtree to hang
        at that position: current itself with one child pointer rewired while
        x is not at it (in particular when x is not stored), what RemoveNode
        makes of the node holding x, or null for an empty position. */
    method DeleteAt(current: Node?, x: int) returns (r: Node?)
      requires current != null ==> current.Valid()
      modifies ReprOf(current)
      ensures r != null ==> r.Valid()
      ensures ReprOf(r) <= old(ReprOf(current))
      ensures ModelOf(r) == Trees.Delete(old(ModelOf(current)), x)
      ensures current != null && x != old(current.data) ==> r == current
      ensures current != null && old(current.left) != null && old(current.right) != null ==>
        r == current
      decreases ReprOf(current), 1
    {
      if current == null {
        return null;
      }
      if x < current.data {
        var l := DeleteAt(current.left, x);
        current.left := l;
        current.Model := Branch(ModelOf(l), current.data, ModelOf(current.right));
        assert current.Valid();
        r := current;
      } else if x > current.data {
        var rt := DeleteAt(current.right, x);
        current.right := rt;
        current.Model := Branch(ModelOf(current.left), current.data, ModelOf(rt));
        assert current.Valid();
        r := current;
      } else {
        r := RemoveNode(current);
      }
    }

    /** Removes the node current from its subtree and returns what replaces
        it: nothing for a leaf, the only child for a node with one child, and
        for a node with two children the node itself, holding the leftmost key
        of its right subtree, which is then deleted from that subtree. */
    method RemoveNode(current: Node) returns (r: Node?)
      requires current.Valid()
      modifies current.Repr
      ensures r != null ==> r.Valid()
      ensures ReprOf(r) <= old(current.Repr)
      ensures ModelOf(r) == Trees.Delete(old(current.Model), old(current.data))
      ensures old(current.left) == null ==> r == old(current.right)
      ensures old(current.left) != null && old(current.right) == null ==> r == old(current.left)
      ensures old(current.left) != null && old(current.right) != null ==> r == current
      decreases current.Repr, 0
    {
      if current.left == null && current.right == null {
        r := null;
      } else if current.left == null {
        r := current.right;
      } else if current.right == null {
        r := current.left;
      } else {
        var m := LeftmostFrom(current.right);
        current.data := m;
        var rt := DeleteAt(current.right, m);
        current.right := rt;
        current.Model := Branch(current.left.Model, m, ModelOf(rt));
        assert current.Valid();
        r := current;
      }
    }

    /** Walks left children from n down to the last one and returns its key:
        in an ordered subtree, the smallest key stored there. */
    method LeftmostFrom(n: Node) returns (m: int)
      requires n.Valid()
      ensures m == Leftmost(n.Model)
      ensures m in Keys(n.Model)
      ensures Ordered(n.Model) ==> forall k :: k in Keys(n.Model) ==> m <= k
    {
      var temp: Node := n;
      while temp.left != null
        invariant temp.Valid()
        invariant Leftmost(temp.Model) == Leftmost(n.Model)
        decreases temp.Repr
      {
        temp := temp.left;
      }
      m := temp.data;
      if Ordered(n.Model) {
        LeftmostIsMinimum(n.Model);
      }
    }

    /** Whether x is stored in the tree. */
    function Contains(x: int): (found: bool)
      reads this, Repr
      requires Valid()
      ensures found <==> x in Keys(Model())
    {
      ContainsFrom(root, x)
    }

    /** Search by comparison from current: true on reaching a node holding x,
        false on reaching an empty position. */
    function ContainsFrom(current: Node?, x: int): (found: bool)
      reads if current == null then {} else current.Repr
      requires current != null ==> current.Valid()
      requires Ordered(ModelOf(current))
      ensures found <==> x in Keys(ModelOf(current))
      decreases ReprOf(current)
    {
      if current == null then false
      else if x < current.data then ContainsFrom(current.left, x)
      else if x > current.data then ContainsFrom(current.right, x)
      else true
    }

    /** The stored keys in ascending order, each exactly once; empty for an
        empty tree. */
    function InOrderTraversal(): (s: seq<int>)
      reads this, Repr
      requires Valid()
      ensures s == InOrder(Model())
      ensures StrictlyIncreasing(s)
      ensures forall k :: k in s <==> k in Keys(Model())
      ensures |s| == |Keys(Model())|
    {
      InOrderSorted(Model());
      InOrderLength(Model());
      InOrderTraversalFrom(root)
    }

    /** The keys of the subtree at current: left subtree, node, right subtree. */
    function InOrderTraversalFrom(current: Node?): (s: seq<int>)
      reads if current == null then {} else current.Repr
      requires current != null ==> current.Valid()
      ensures s == InOrder(ModelOf(current))
      decreases ReprOf(current)
    {
      if current == null then []
      else InOrderTraversalFrom(current.left) + [current.data] + InOrderTraversalFrom(current.right)
    }
  }
}
