/** The abstract value of a binary search tree over integer keys, and the
    algorithms of BinarySearchTree stated on that value: insertion, the
    three-case deletion, the in-order enumeration. The heap classes in
    node.dfy and binary_search_tree.dfy are proved to compute exactly these. */
module Trees {

  /** A subtree: absent (a null child pointer), or a node with its two subtrees. */
  datatype Tree = Empty | Branch(left: Tree, data: int, right: Tree)

  /** The set of keys stored in a subtree. */
  function Keys(t: Tree): set<int>
  {
    match t
    case Empty => {}
    case Branch(l, d, r) => Keys(l) + {d} + Keys(r)
  }

  /** The binary-search-tree ordering: at every node, the left subtree holds
      only smaller keys and the right subtree only larger ones. */
  predicate Ordered(t: Tree)
  {
    match t
    case Empty => true
    case Branch(l, d, r) =>
      Ordered(l) && Ordered(r) &&
      (forall k :: k in Keys(l) ==> k < d) &&
      (forall k :: k in Keys(r) ==> d < k)
  }

  predicate StrictlyIncreasing(s: seq<int>)
  {
    forall i, j :: 0 <= i < j < |s| ==> s[i] < s[j]
  }

  /** Left subtree, then the node, then the right subtree. */
  function InOrder(t: Tree): (s: seq<int>)
    ensures forall k :: k in s <==> k in Keys(t)
  {
    match t
    case Empty => []
    case Branch(l, d, r) => InOrder(l) + [d] + InOrder(r)
  }

  /** Descend by comparison; an absent position becomes a new leaf, an equal
      key leaves the subtree as it was. */
  function Insert(t: Tree, x: int): (r: Tree)
    ensures r.Branch?
  {
    match t
    case Empty => Branch(Empty, x, Empty)
    case Branch(l, d, rt) =>
      if x < d then Branch(Insert(l, x), d, rt)
      else if x > d then Branch(l, d, Insert(rt, x))
      else t
  }

  /** The key of the leftmost node: follow left children to the end. */
  function Leftmost(t: Tree): (m: int)
    requires t.Branch?
    ensures m in Keys(t)
  {
    if t.left == Empty then t.data else Leftmost(t.left)
  }

  /** Descend by comparison to the node holding x. A leaf is unlinked, a node
      with one child is replaced by that child, and a node with two children
      takes the leftmost key of its right subtree, which is then removed from
      that subtree. A key that is not found changes nothing. */
  function Delete(t: Tree, x: int): Tree
  {
    match t
    case Empty => Empty
    case Branch(l, d, rt) =>
      if x < d then Branch(Delete(l, x), d, rt)
      else if x > d then Branch(l, d, Delete(rt, x))
      else if l == Empty && rt == Empty then Empty
      else if l == Empty then rt
      else if rt == Empty then l
      else
        var m := Leftmost(rt);
        Branch(l, m, Delete(rt, m))
  }

  /** Insert the keys of xs one after the other, as a client of the tree does. */
  function InsertAll(t: Tree, xs: seq<int>): Tree
    decreases xs
  {
    if xs == [] then t else InsertAll(Insert(t, xs[0]), xs[1..])
  }

  // ---------------------------------------------------------------- insert

  /** Insertion adds exactly x to the stored keys. */
  lemma {:induction false} InsertKeys(t: Tree, x: int)
    ensures Keys(Insert(t, x)) == Keys(t) + {x}
  {
    match t
    case Empty =>
    case Branch(l, d, rt) =>
      if x < d {
        InsertKeys(l, x);
      } else if x > d {
        InsertKeys(rt, x);
      }
  }

  /** Only an empty tree gets a new root; otherwise the root keeps its key. */
  lemma InsertKeepsRoot(t: Tree, x: int)
    ensures Insert(t, x).Branch?
    ensures t.Branch? ==> Insert(t, x).data == t.data
    ensures t == Empty ==> Insert(t, x) == Branch(Empty, x, Empty)
  {
  }

  lemma {:induction false} InsertOrdered(t: Tree, x: int)
    requires Ordered(t)
    ensures Ordered(Insert(t, x))
  {
    match t
    case Empty =>
    case Branch(l, d, rt) =>
      if x < d {
        InsertOrdered(l, x);
        InsertKeys(l, x);
      } else if x > d {
        InsertOrdered(rt, x);
        InsertKeys(rt, x);
      }
  }

  /** Inserting a key that is already stored returns the very same tree. */
  lemma {:induction false} InsertPresent(t: Tree, x: int)
    requires Ordered(t) && x in Keys(t)
    ensures Insert(t, x) == t
  {
    match t
    case Branch(l, d, rt) =>
      if x < d {
        InsertPresent(l, x);
      } else if x > d {
        InsertPresent(rt, x);
      }
  }

  /** Inserting the same key twice is inserting it once, in any tree. */
  lemma {:induction false} InsertIdempotent(t: Tree, x: int)
    ensures Insert(Insert(t, x), x) == Insert(t, x)
  {
    match t
    case Empty =>
    case Branch(l, d, rt) =>
      if x < d {
        InsertIdempotent(l, x);
      } else if x > d {
        InsertIdempotent(rt, x);
      }
  }

  /** Inserting a key not yet stored lengthens the enumeration by exactly one. */
  lemma {:induction false} InsertGrows(t: Tree, x: int)
    requires x !in Keys(t)
    ensures |InOrder(Insert(t, x))| == |InOrder(t)| + 1
  {
    match t
    case Empty =>
    case Branch(l, d, rt) =>
      if x < d {
        InsertGrows(l, x);
      } else {
        InsertGrows(rt, x);
      }
  }

  lemma {:induction false} InsertAllOrdered(t: Tree, xs: seq<int>)
    requires Ordered(t)
    ensures Ordered(InsertAll(t, xs))
    decreases xs
  {
    if xs != [] {
      InsertOrdered(t, xs[0]);
      InsertAllOrdered(Insert(t, xs[0]), xs[1..]);
    }
  }

  lemma {:induction false} InsertAllKeys(t: Tree, xs: seq<int>)
    ensures Keys(InsertAll(t, xs)) == Keys(t) + set x | x in xs
    decreases xs
  {
    if xs != [] {
      InsertKeys(t, xs[0]);
      InsertAllKeys(Insert(t, xs[0]), xs[1..]);
      assert (set x | x in xs) == {xs[0]} + set x | x in xs[1..];
    }
  }

  // ---------------------------------------------------------------- delete

  /** A key that is not stored is never found, so nothing changes. */
  lemma {:induction false} DeleteAbsent(t: Tree, x: int)
    requires x !in Keys(t)
    ensures Delete(t, x) == t
  {
    match t
    case Empty =>
    case Branch(l, d, rt) =>
      if x < d {
        DeleteAbsent(l, x);
      } else if x > d {
        DeleteAbsent(rt, x);
      }
  }

  lemma {:induction false} LeftmostIsMinimum(t: Tree)
    requires Ordered(t) && t.Branch?
    ensures forall k :: k in Keys(t) ==> Leftmost(t) <= k
  {
    if t.left != Empty {
      LeftmostIsMinimum(t.left);
    }
  }

  lemma {:induction false} DeleteKeys(t: Tree, x: int)
    requires Ordered(t)
    ensures Keys(Delete(t, x)) == Keys(t) - {x}
  {
    match t
    case Empty =>
    case Branch(l, d, rt) =>
      if x < d {
        DeleteKeys(l, x);
      } else if x > d {
        DeleteKeys(rt, x);
      } else if l != Empty && rt != Empty {
        DeleteKeys(rt, Leftmost(rt));
      }
  }

  lemma {:induction false} DeleteOrdered(t: Tree, x: int)
    requires Ordered(t)
    ensures Ordered(Delete(t, x))
  {
    match t
    case Empty =>
    case Branch(l, d, rt) =>
      if x < d {
        DeleteOrdered(l, x);
        DeleteKeys(l, x);
      } else if x > d {
        DeleteOrdered(rt, x);
        DeleteKeys(rt, x);
      } else if l != Empty && rt != Empty {
        var m := Leftmost(rt);
        DeleteOrdered(rt, m);
        DeleteKeys(rt, m);
        LeftmostIsMinimum(rt);
      }
  }

  /** Deleting the key of a node with two children leaves its left subtree in
      place and puts in the node the in-order successor: the smallest stored
      key greater than the deleted one, taken from the right subtree. */
  lemma DeleteTakesSuccessor(t: Tree)
    requires Ordered(t) && t.Branch? && t.left.Branch? && t.right.Branch?
    ensures Delete(t, t.data).Branch?
    ensures Delete(t, t.data).left == t.left
    ensures Delete(t, t.data).data in Keys(t.right)
    ensures forall k :: k in Keys(t) && t.data < k ==> Delete(t, t.data).data <= k
  {
    LeftmostIsMinimum(t.right);
  }

  /** Removing a stored key shortens the enumeration by exactly one. */
  lemma {:induction false} DeleteShrinks(t: Tree, x: int)
    requires Ordered(t) && x in Keys(t)
    ensures |InOrder(Delete(t, x))| == |InOrder(t)| - 1
  {
    DeleteKeys(t, x);
    DeleteOrdered(t, x);
    InOrderLength(t);
    InOrderLength(Delete(t, x));
  }

  // ------------------------------------------------------------- traversal

  lemma ConcatIncreasing(a: seq<int>, d: int, b: seq<int>)
    requires StrictlyIncreasing(a) && StrictlyIncreasing(b)
    requires forall k :: k in a ==> k < d
    requires forall k :: k in b ==> d < k
    ensures StrictlyIncreasing(a + [d] + b)
  {
    var s := a + [d] + b;
    forall i, j | 0 <= i < j < |s|
      ensures s[i] < s[j]
    {
      if j < |a| {
      } else if i < |a| {
        assert s[i] in a;
        if j > |a| {
          assert s[j] == b[j - |a| - 1];
          assert s[j] in b;
        }
      } else if i == |a| {
        assert s[j] == b[j - |a| - 1];
        assert s[j] in b;
      } else {
        assert s[i] == b[i - |a| - 1] && s[j] == b[j - |a| - 1];
      }
    }
  }

  /** The enumeration of an ordered tree is strictly ascending, so it lists
      every stored key exactly once. */
  lemma {:induction false} InOrderSorted(t: Tree)
    requires Ordered(t)
    ensures StrictlyIncreasing(InOrder(t))
  {
    match t
    case Empty =>
    case Branch(l, d, r) =>
      InOrderSorted(l);
      InOrderSorted(r);
      ConcatIncreasing(InOrder(l), d, InOrder(r));
  }

  lemma {:induction false} InOrderLength(t: Tree)
    requires Ordered(t)
    ensures |InOrder(t)| == |Keys(t)|
  {
    match t
    case Empty =>
    case Branch(l, d, r) =>
      InOrderLength(l);
      InOrderLength(r);
      SeparatedUnionSize(Keys(l), d, Keys(r));
  }

  lemma SeparatedUnionSize(below: set<int>, d: int, above: set<int>)
    requires forall k :: k in below ==> k < d
    requires forall k :: k in above ==> d < k
    ensures |below + {d} + above| == |below| + 1 + |above|
  {
    assert below !! {d};
    assert forall k :: k in below + {d} ==> k <= d;
    assert (below + {d}) !! above;
  }

  /** Inserting distinct or repeated keys into an empty tree and enumerating
      the result gives those keys, ascending, each once: the enumeration is as
      long as the number of distinct keys inserted. */
  lemma InsertAllThenInOrder(xs: seq<int>)
    ensures StrictlyIncreasing(InOrder(InsertAll(Empty, xs)))
    ensures forall k :: k in InOrder(InsertAll(Empty, xs)) <==> k in xs
    ensures |InOrder(InsertAll(Empty, xs))| == |set x | x in xs|
  {
    InsertAllOrdered(Empty, xs);
    InsertAllKeys(Empty, xs);
    InOrderSorted(InsertAll(Empty, xs));
    InOrderLength(InsertAll(Empty, xs));
  }
}
