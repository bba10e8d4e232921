# BinarySearchTree, modelled in Dafny

This project models the repository's unbalanced binary search tree: the
`BinarySearchTree` class (`src/BinarySearchTree.java`) and its node record
(`src/Node.java`), with keys specialised to `int` (the tests store `Integer`).

- `trees.dfy`, module `Trees`: the abstract value of a (sub)tree,
  `datatype Tree = Empty | Branch(left, data, right)`. It defines the key set
  (`Keys`), the search-tree ordering (`Ordered`), the in-order enumeration
  (`InOrder`) and the algorithms: `Insert`, `Leftmost` and the three-case
  `Delete`. The lemmas prove what the tree promises: ordering is preserved,
  key sets change by exactly the inserted or deleted key, insertion is
  idempotent, and deletion of a node with two children promotes the in-order
  successor. They also prove that the enumeration is strictly ascending and
  lists every key once.
- `node.dfy`, module `Nodes`: the mutable `Node` class with the fields
  `left`, `right`, `parent` and `data`. Two ghost fields sit beside them:
  `Repr`, the objects of the subtree, and `Model`, its abstract `Tree`. The
  ghost fields let `Valid()` state that the subtree is finite and unshared,
  and that `Model` is its value.
- `binary_search_tree.dfy`, module `BinarySearchTrees`: the mutable
  `BinarySearchTree` class with its `root` pointer.
  - `Insert` and `Delete` reassign `root`.
  - `InsertAt` (with `InsertLeft` and `InsertRight`, one per direction of
    descent) and `DeleteAt` model the private recursive overloads. Each
    returns the node to hang at the current position, and the caller rewires
    its child pointer.
  - `RemoveNode` is the three-case removal of the node that holds the key.
  - `LeftmostFrom` walks left children in a loop to find the successor.
  - `Contains`/`ContainsFrom` and `InOrderTraversal`/`InOrderTraversalFrom`
    read the nodes recursively.
  - Every method and function is proved to compute the matching `Trees`
    function on the abstract value. `Valid()` includes the search-tree
    ordering, and every mutating method preserves it.
- `scenarios.dfy`, module `Scenarios`: the concrete scenarios of
  `test/BinarySearchTreeTest.java`, proved on the abstract value.

Where the code and its documentation disagree, this model follows the
documentation:

- `contains` (`src/BinarySearchTree.java:239-246`) is a stub that always
  returns `false`. Its comments describe an ordinary search, and that search
  is what is modelled.
- The public `delete` and the body of the private `delete`
  (`src/BinarySearchTree.java:83-95`, `:117-238`) do not carry out the
  removal that the doc comment (`:97-116`) describes. The model replaces
  that whole body by the documented three-case removal. The departures are:
  - the public `delete` never assigns `this.root` (`:87-89`);
  - every call compares against the root's data, not the current node's
    (`:121`);
  - a lone root is replaced by a node holding null (`:126`);
  - when the root's right child has no left child, that child becomes the
    root and the root's whole left subtree is dropped (`:133-135`);
  - children are dereferenced without a null check (`:139`, `:143`, `:167`,
    `:173`, `:183`);
  - when the matching key sits in a child of the node the public call starts
    from (for instance `delete(50)` on the test tree), `:167-168` and
    `:173-174` return at once and nothing is deleted;
  - below the root there is no one-child case: such a node falls through to
    `return null` (`:237`) and stays in the tree;
  - below the root the successor walk starts at the node being deleted
    (`temp = current.right` at `:201`, `temp = current.left` at `:221`), so
    the key copied in (`:204`, `:208`, `:224`, `:228`) comes from the LEFT
    subtree of that node, not from its right subtree;
  - a leaf successor has its data set to null instead of being unlinked
    (`:205`, `:225`).

  The test (`test/BinarySearchTreeTest.java:22-40`) expects the result of
  the documented removal, which is what the model computes.

## Model

| member | source | states |
|---|---|---|
| `Trees.InOrder` | src/BinarySearchTree.java:252-270 | the enumeration holds exactly the keys of the subtree |
| `Trees.InOrderSorted` | src/BinarySearchTree.java:252-270 | the in-order enumeration of an ordered tree is strictly ascending, so no key appears twice |
| `Trees.InOrderLength` | src/BinarySearchTree.java:252-270 | the enumeration of an ordered tree is as long as its key set: every key appears exactly once |
| `Trees.Insert` | src/BinarySearchTree.java:52-75 | the value-level insertion: descend left for a smaller key and right for a larger one, a null position becomes a new leaf, an equal key returns the subtree as it was; the result is never empty |
| `Trees.InsertKeys` | src/BinarySearchTree.java:52-75 | after insertion the key set is the old key set plus x |
| `Trees.InsertOrdered` | src/BinarySearchTree.java:60-68 | insertion, going left for smaller keys and right for larger ones, keeps the tree ordered |
| `Trees.InsertPresent` | src/BinarySearchTree.java:70-74 | inserting a key already stored returns the tree unchanged, with no duplicate node |
| `Trees.InsertIdempotent` | src/BinarySearchTree.java:70-74 | inserting the same key twice gives the same tree as inserting it once, in any tree |
| `Trees.InsertKeepsRoot` | src/BinarySearchTree.java:24-34 | the result of insertion is never empty; a non-empty tree keeps its root key; an empty tree becomes the new leaf |
| `Trees.InsertGrows` | src/BinarySearchTree.java:56-58 | inserting an absent key into any tree lengthens the enumeration by exactly one |
| `Trees.InsertAllKeys` | test/BinarySearchTreeTest.java:9-14 | a sequence of insertions stores exactly the old keys plus the inserted ones |
| `Trees.InsertAllOrdered` | test/BinarySearchTreeTest.java:9-14 | a sequence of insertions into an ordered tree leaves it ordered |
| `Trees.InsertAllThenInOrder` | test/BinarySearchTreeTest.java:44-52 | inserting any keys into a new tree and enumerating yields exactly those keys, ascending, each once, so the enumeration is as long as the number of distinct keys inserted |
| `Trees.Leftmost` | src/BinarySearchTree.java:137-148 | the key found by following left children is a key of the subtree |
| `Trees.LeftmostIsMinimum` | src/BinarySearchTree.java:108-110 | in an ordered subtree the leftmost key is its smallest key |
| `Trees.Delete` | src/BinarySearchTree.java:97-116 | the value-level documented removal: descend by comparison to the key; a leaf is unlinked, a node with one child is replaced by that child, a node with two children takes the leftmost key of its right subtree, which is removed there; an absent key changes nothing (its properties are the `Delete…` lemmas below) |
| `Trees.DeleteAbsent` | src/BinarySearchTree.java:179-185 | deleting a key that is not stored (in particular from an empty tree) leaves the tree unchanged |
| `Trees.DeleteKeys` | src/BinarySearchTree.java:97-110 | after deletion the key set is the old key set minus x: that key goes and every other key stays |
| `Trees.DeleteOrdered` | src/BinarySearchTree.java:97-110 | deletion, in each of the three cases, keeps the tree ordered |
| `Trees.DeleteTakesSuccessor` | src/BinarySearchTree.java:108-110 | deleting a node with two children keeps its left subtree and gives it the smallest key greater than the deleted one, taken from its right subtree |
| `Trees.DeleteShrinks` | src/BinarySearchTree.java:97-107 | deleting a stored key shortens the enumeration by exactly one |
| `Nodes.Node.constructor` | src/Node.java:7-12 | a fresh node has no left child, no right child and no parent, holds exactly the given data, and is a valid leaf |
| `BinarySearchTrees.BinarySearchTree.constructor` | src/BinarySearchTree.java:20-22 | a new tree has a null root and the empty value |
| `BinarySearchTrees.BinarySearchTree.Insert` | src/BinarySearchTree.java:31-34 | the root is reassigned to the result of the recursive insert; the tree stays valid and ordered; its value is `Trees.Insert` of the old value; its keys gain x; a present key changes nothing, neither the value nor the set of nodes; otherwise at most one fresh node joins the tree; a non-empty tree keeps its root node; the root is returned |
| `BinarySearchTrees.BinarySearchTree.InsertAt` | src/BinarySearchTree.java:52-75 | returns a new leaf for a null position, otherwise the same node; the subtree's value becomes `Trees.Insert` of the old one; exactly one fresh node joins the subtree when x is new, and none when x is already stored |
| `BinarySearchTrees.BinarySearchTree.InsertLeft` | src/BinarySearchTree.java:64-65 | for a key smaller than the node's, the left child pointer is rewired to the recursive insertion; the node stays valid, its value becomes `Trees.Insert` of the old one, and it gains exactly one fresh node or, when the value is unchanged, none |
| `BinarySearchTrees.BinarySearchTree.InsertRight` | src/BinarySearchTree.java:66-67 | for a key larger than the node's, the right child pointer is rewired to the recursive insertion; the node stays valid, its value becomes `Trees.Insert` of the old one, and it gains exactly one fresh node or, when the value is unchanged, none |
| `BinarySearchTrees.BinarySearchTree.Delete` | src/BinarySearchTree.java:83-95 | on a non-empty tree the root is reassigned to the result of the recursive delete; the tree stays valid and ordered; its value is `Trees.Delete` of the old value; its keys lose exactly x; an absent key changes nothing; the root node stays the root unless it holds x and has at most one child |
| `BinarySearchTrees.BinarySearchTree.DeleteAt` | src/BinarySearchTree.java:162-185 | descends left for a smaller key and right for a larger one, as `:166-178` do; while x is not at the current node, and when the node holding x has two children, the node itself is returned; the returned subtree's value is `Trees.Delete` of the old one, and it uses no node from outside the old subtree |
| `BinarySearchTrees.BinarySearchTree.RemoveNode` | src/BinarySearchTree.java:187-235 | a node without a left child is replaced by its right child (null for a leaf), a node with only a left child by that child node, and a node with two children is itself returned, holding the leftmost key of its right subtree, which is deleted there; the value is `Trees.Delete` of the old subtree at its own key |
| `BinarySearchTrees.BinarySearchTree.LeftmostFrom` | src/BinarySearchTree.java:202-213 | the loop down left children returns the leftmost key, which is stored in the subtree and, in an ordered subtree, is its smallest key |
| `BinarySearchTrees.BinarySearchTree.Contains` | src/BinarySearchTree.java:239-246 | true exactly when x is among the tree's keys, so false on an empty tree |
| `BinarySearchTrees.BinarySearchTree.ContainsFrom` | src/BinarySearchTree.java:240-244 | the search by comparison is true exactly when x is stored in the ordered subtree, and false on reaching a null position |
| `BinarySearchTrees.BinarySearchTree.InOrderTraversal` | src/BinarySearchTree.java:248-250 | the enumeration of the tree is strictly ascending, holds exactly its keys, has one entry per key, and is empty for a new tree |
| `BinarySearchTrees.BinarySearchTree.InOrderTraversalFrom` | src/BinarySearchTree.java:252-270 | reading the nodes left subtree, node, right subtree yields `Trees.InOrder` of the subtree's value |
| `Scenarios.InsertScenario` | test/BinarySearchTreeTest.java:8-18 | inserting 100, 50, 150, 101, 141 gives root 100, left child 50 and right child 150, and the enumeration 50 100 101 141 150 |
| `Scenarios.ContainsScenario` | src/BinarySearchTree.java:239-246 | on the nine-key tree of the delete test, 92 is stored and 999 is not |
| `Scenarios.DeleteScenario` | test/BinarySearchTreeTest.java:21-41 | deleting 100 promotes 101 to the root and leaves 1 4 20 50 92 101 141 150; deleting 4 then leaves 1 20 50 92 101 141 150 with 1 at root.left.left |

## Left out

- Generic keys and `Comparable.compareTo`: keys are `int`, compared with `<`.
- The string that `inOrderTraversal` builds (each key's `toString` and a trailing space, `src/BinarySearchTree.java:261-262`) is modelled as the sequence of keys.
- The `Node` returned by `delete`: its doc comments contradict each other (`:81` says the deleted node, `:115` the parent node), and the code returns neither consistently. Only the change to the tree is modelled.
- The departures of `delete` from its documentation listed above (faulting paths, the dropped left subtree, the early returns, the missing one-child case, the successor taken from the wrong subtree, data set to null) are not reproduced: the whole body is replaced by the documented algorithm.
- BinarySearchTrees.BinarySearchTree.DeleteAt: the source looks one level ahead to find the parent of the node holding the key and rewrites that parent's child pointer (`:166-178`, `:192-235`); the model instead returns the replacement subtree and the caller assigns it to its child pointer on return, as `insert` does (`:65`, `:67`).
- BinarySearchTrees.BinarySearchTree.RemoveNode: the successor is unlinked by the recursive `DeleteAt` on the right subtree of the node being deleted, replacing the leftmost node by its right child; the source's splice `temp.left = temp.left.right` (`:209`, `:229`) works on a different spine, as listed above.
- The `parent` field is kept and set to null by the constructor. Nothing else writes or reads it.
- Rebalancing is mentioned only in a comment (`src/BinarySearchTree.java:10-12`); no code implements it.
- The ghost `Repr` of a node may keep nodes that a deletion unlinked. It is an upper bound on the subtree's nodes, and no executable code reads it.
- The JUnit harness itself. Its scenarios are restated as lemmas in `scenarios.dfy` on the abstract value, not by driving the mutable tree.
