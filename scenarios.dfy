/** The scenarios of test/BinarySearchTreeTest.java, on the abstract value.
    The methods of BinarySearchTree are proved to compute Trees.Insert and
    Trees.Delete, so the same outcomes hold of the mutable tree. */
module Scenarios {
  import opened Trees

  function Leaf(x: int): Tree
  {
    Branch(Empty, x, Empty)
  }

  /** The tree left by inserting 100, 50, 150, 101, 141. */
  function AfterFive(): Tree
  {
    Branch(Leaf(50), 100, Branch(Branch(Empty, 101, Leaf(141)), 150, Empty))
  }

  /** The tree left by then inserting 1, 4, 92, 20. */
  function AfterNine(): Tree
  {
    Branch(Branch(Branch(Empty, 1, Branch(Empty, 4, Leaf(20))), 50, Leaf(92)),
           100,
           Branch(Branch(Empty, 101, Leaf(141)), 150, Empty))
  }

  lemma InsertScenario()
    ensures Insert(Insert(Insert(Insert(Insert(Empty, 100), 50), 150), 101), 141) == AfterFive()
    ensures InOrder(AfterFive()) == [50, 100, 101, 141, 150]
    ensures Insert(Insert(Insert(Insert(AfterFive(), 1), 4), 92), 20) == AfterNine()
  {
  }

  lemma ContainsScenario()
    ensures 92 in Keys(AfterNine()) && 999 !in Keys(AfterNine())
  {
  }

  /** Deleting the root 100 promotes its successor 101; deleting 4 then
      splices in its only child 20. */
  lemma DeleteScenario()
    ensures Delete(AfterNine(), 100) == Branch(AfterNine().left, 101, Branch(Leaf(141), 150, Empty))
    ensures InOrder(Delete(AfterNine(), 100)) == [1, 4, 20, 50, 92, 101, 141, 150]
    ensures Delete(Delete(AfterNine(), 100), 4).left.left.data == 1
    ensures InOrder(Delete(Delete(AfterNine(), 100), 4)) == [1, 20, 50, 92, 101, 141, 150]
  {
  }
}
