/** A concrete deletion on which the root that `RedBlackTree::delete`
  * keeps (src/rbtree.rs) is not the top of the tree. Node-level `delete`
  * hands back the parent of the node it started from, one level up;
  * when `delete_repair` rotates twice above that node, the true top is two
  * levels up. */
module RbFinding {
  import opened Arena
  import opened RbColor
  import opened RbLinks
  import opened RbInvariant
  import opened RbSteps
  import opened RbEdit

  /** The tree 10(B) over 5(B) and 20(R), where 20 is over 15(B) and
    * 25(B) and 15 has the right child 17(R); the arena holds 10, 5, 20,
    * 15, 25, 17 at 0 to 5. */
  function ExampleShape(): Shape
  {
    Cell(Cell(Empty, 1, Empty), 0, Cell(Cell(Empty, 3, Cell(Empty, 5, Empty)), 2, Cell(Empty, 4, Empty)))
  }

  function ExampleLinks(): Links
  {
    Links([1, NIL, 3, NIL, NIL, NIL], [2, NIL, 4, 5, NIL, NIL], [NIL, 0, 0, 2, 2, 3])
  }

  function ExampleColors(): seq<Color>
  {
    [Black, Black, Red, Black, Black, Red]
  }

  /** The example is well linked, its top is 10 and the leaf 5 sits at
    * depth 1. */
  lemma ExampleLinked()
    ensures Linked(ExampleShape(), ExampleLinks())
    ensures Top(ExampleShape()) == 0 && Depth(ExampleShape(), 1) == 1
  {
  }

  /** The example is a red-black tree with the black heights 1, 0, 1, 0,
    * 0, 0. */
  lemma ExampleIsRedBlack()
    ensures RB(Ids(ExampleShape()), ExampleLinks(), ExampleColors(), [1, 0, 1, 0, 0, 0])
  {
    assert Ids(ExampleShape()) == {0, 1, 2, 3, 4, 5};
  }

  /** `delete_repair` at 5: block 1 rotates at 10 and brings 20 to the
    * top; the parent 10 is now red over the black sibling 15 whose far
    * child 17 is red, so block 6 rotates at 10 again and brings 15 above
    * it. */
  lemma ExampleRepair()
    ensures DeleteRepairSteps(Painted(ExampleLinks(), ExampleColors()), 1, 2) == Painted(K2(), C2())
  {
    ExampleBlockOne();
    ExampleNearRed();
    ExampleFarRed();
    assert Sibling(K1(), 1) == 3 && Get(K1().parent, 1) == 0;
    assert Col(C1(), 0) == Red && Col(C1(), 3) == Black && Col(C1(), Get(K1().right, 3)) == Red;
  }

  /** The links and colours after block 1. */
  function K1(): Links
  {
    Links([1, NIL, 0, NIL, NIL, NIL], [3, NIL, 4, 5, NIL, NIL], [2, 0, NIL, 0, 2, 3])
  }

  function C1(): seq<Color>
  {
    [Red, Black, Black, Black, Black, Red]
  }

  /** The links and colours after block 6. */
  function K2(): Links
  {
    Links([1, NIL, 3, 0, NIL, NIL], [NIL, NIL, 4, 5, NIL, NIL], [3, 0, NIL, 2, 2, 3])
  }

  function C2(): seq<Color>
  {
    [Black, Black, Black, Red, Black, Black]
  }

  lemma ExampleBlockOne()
    ensures RedSiblingStep(Painted(ExampleLinks(), ExampleColors()), 1) == Painted(K1(), C1())
  {
  }

  /** Blocks 4 and 5 do not fire: the near child of 15 is empty. */
  lemma ExampleNearRed()
    ensures NearRedLeftStep(Painted(K1(), C1()), 1) == Painted(K1(), C1())
    ensures NearRedRightStep(Painted(K1(), C1()), 1) == Painted(K1(), C1())
  {
    assert Sibling(K1(), 1) == 3 && !IsRight(K1(), 1);
    assert Col(C1(), Get(K1().left, 3)) == Black;
  }

  /** Block 6 fires and block 7 then does not. */
  lemma ExampleFarRed()
    ensures FarRedLeftStep(Painted(K1(), C1()), 1) == Painted(K2(), C2())
    ensures FarRedRightStep(Painted(K2(), C2()), 1, 0) == Painted(K2(), C2())
  {
    assert RotateLeft(K1(), 0) == K2();
  }

  /** Deleting 5 (the black leaf 1) repairs as above and cuts 5 loose.
    * Node-level `delete` at the root 10 then returns 15, the parent of
    * 10, although 15 hangs below 20: the values 20 and 25 are no longer
    * below the root the tree keeps. */
  lemma RootRecoveryOneLevel()
    ensures var k := Detach(DeleteRepairSteps(Painted(ExampleLinks(), ExampleColors()), 1, Depth(ExampleShape(), 1) + 1).k, 1);
      && Recovered(k, 0) == 3
      && Get(k.parent, 3) == 2 && Get(k.parent, 2) == NIL && Get(k.parent, 4) == 2
  {
    ExampleLinked();
    ExampleRepair();
    ExampleDetach();
  }

  /** Cutting 5 loose after the repair: 10 forgets its left child. */
  lemma ExampleDetach()
    ensures Detach(K2(), 1) == Links([NIL, NIL, 3, 0, NIL, NIL], [NIL, NIL, 4, 5, NIL, NIL], [3, NIL, NIL, 2, 2, 3])
  {
  }
}
