/** Red-black tree (src/rbtree.rs). The nodes live in an arena: node `i`
  * stores `data[i]`, `color[i]` and the indices of its two children and its
  * parent (`NIL` for none), and the node-level operations update these in
  * place, statement by statement, where the source updates its shared node
  * cells. The ghost `shape` is the tree the links describe, and the ghost
  * black height `bh[i]` of each node carries the red-black invariant of
  * RbInvariant through the repairs. */
module RbTree {
  import opened Base
  import opened Arena
  import opened Subtrees
  import opened BsTree
  import opened RbColor
  import opened RbLinks
  import opened RbInvariant
  import opened RbSteps
  import opened RbEdit

  class RedBlackTree {
    var root: int
    var data: seq<int>
    var color: seq<Color>
    var left: seq<int>
    var right: seq<int>
    var parent: seq<int>
    ghost var bh: seq<nat>
    ghost var shape: Shape

    /** The links of the arena. */
    function K(): Links
      reads this`left, this`right, this`parent
    {
      Links(left, right, parent)
    }

    /** The links describe `shape`, and every per-node sequence covers the
      * whole arena. */
    ghost predicate Wired()
      reads this`shape, this`left, this`right, this`parent, this`data, this`color, this`bh
    {
      Linked(shape, K()) && |data| == |left| && |color| == |left| && |bh| == |left|
    }

    /** The nodes that belong to the tree. */
    ghost function Nodes(): set<nat>
      reads this`shape
    {
      Ids(shape)
    }

    /** The stored values in in-order position. */
    ghost function Seq(): seq<int>
      reads this`shape, this`data
    {
      Vals(InOrderIds(shape), data)
    }

    /** The values of the subtree at `x` in in-order position (none for `NIL`). */
    ghost function Sub(x: int): seq<int>
      reads this`shape, this`data
    {
      Vals(InOrderIds(SubAt(shape, x)), data)
    }

    /** The arena holds one red-black tree rooted at `root` whose values
      * ascend in order. */
    ghost predicate Valid()
      reads this
    {
      && Wired() && root == Top(shape)
      && StrictlyAscending(Seq()) && RB(Nodes(), K(), color, bh)
    }

    /** The tree as a value: each node carries its colour. */
    ghost function Abs(): Tree<Color>
      reads this
      requires Wired()
    {
      View(shape, data, color)
    }

    /** What a well-linked arena gives the invariant lemmas. */
    lemma Settle()
      requires Wired()
      ensures Sized(Nodes(), K(), color, bh) && Consistent(Nodes(), K())
      ensures Ranked(Nodes(), K(), Depths(shape, |parent|))
      ensures forall i | i in Nodes() :: i < |data|
    {
      LinkedConsistent(shape, K());
    }

    /** The subtree at a node: its values split around the node's own, and
      * its children's subtrees are the ones the links name. */
    lemma SubFacts(x: nat)
      requires Wired() && x in Nodes()
      ensures SubAt(shape, x).Cell? && SubAt(shape, x).id == x && x < |data|
      ensures Sub(x) == Sub(left[x]) + [data[x]] + Sub(right[x])
      ensures left[x] == Top(SubAt(shape, x).l) && right[x] == Top(SubAt(shape, x).r)
      ensures left[x] != NIL ==> left[x] in Nodes() && SubAt(shape, left[x]) == SubAt(shape, x).l
      ensures right[x] != NIL ==> right[x] in Nodes() && SubAt(shape, right[x]) == SubAt(shape, x).r
      ensures Sub(NIL) == []
    {
      SubAtFacts(shape, x);
      SubAtHangs(shape, x, left, right);
      SubAtChild(shape, x);
      var sx := SubAt(shape, x);
      ValsSplit(InOrderIds(sx.l), x, InOrderIds(sx.r), data);
      SubAtAbsent(shape, NIL);
    }

    /** `new`: the empty tree. */
    constructor ()
      ensures Valid() && Abs() == Nil
    {
      root := NIL;
      data, color, left, right, parent := [], [], [], [], [];
      bh := [];
      shape := Empty;
    }

    /** The colour checkers accept every valid non-empty tree, and the
      * tree is a binary search tree. */
    lemma ColorProperties()
      requires Valid()
      ensures Ordered(Abs())
      ensures root != NIL ==> CheckColorProperties(Abs())
    {
      ViewInOrder(shape, data, color);
      OrderedIffAscending(Abs());
      if root != NIL {
        Settle();
        ViewColors(Nodes(), K(), color, bh, shape, data);
        assert TopOk(K(), color, NIL, root);
      }
    }

    // -------------------------------------------------------------------
    // Rotations

    /** `rotate_left(x)`, in the source's order of updates: the right child
      * `y` of `x` moves up into `x`'s place. */
    method RotateLeft(x: nat) returns (y: int)
      requires Wired() && x in Nodes() && right[x] != NIL
      modifies this
      ensures K() == RbLinks.RotateLeft(old(K()), x)
      ensures shape == Graft(old(shape), x, RotLeftShape(old(SubAt(shape, x))))
      ensures Wired() && Nodes() == old(Nodes()) && InOrderIds(shape) == old(InOrderIds(shape))
      ensures Top(shape) == if x == old(Top(shape)) then y else old(Top(shape))
      ensures y == old(right[x]) && y in Nodes()
      ensures root == old(root) && data == old(data) && color == old(color) && bh == old(bh)
    {
      ghost var k0 := K();
      RotateLeftLinked(shape, k0, x);
      RotationBounds(shape, k0, x, true);
      var lefts, rights, parents := left, right, parent;
      var p := parents[x];
      y := rights[x];
      rights := rights[x := lefts[y]];
      if rights[x] != NIL {
        parents := parents[rights[x] := x];
      }
      parents := parents[x := y];
      lefts := lefts[y := x];
      if p != NIL {
        if lefts[p] == x {
          lefts := lefts[p := y];
        } else {
          rights := rights[p := y];
        }
      }
      parents := parents[y := p];
      left, right, parent := lefts, rights, parents;
      shape := Graft(shape, x, RotLeftShape(SubAt(shape, x)));
      assert K() == RbLinks.RotateLeft(k0, x);
    }

    /** `rotate_right(x)`: the mirror image; the parent's right slot is
      * examined first. */
    method RotateRight(x: nat) returns (y: int)
      requires Wired() && x in Nodes() && left[x] != NIL
      modifies this
      ensures K() == RbLinks.RotateRight(old(K()), x)
      ensures shape == Graft(old(shape), x, RotRightShape(old(SubAt(shape, x))))
      ensures Wired() && Nodes() == old(Nodes()) && InOrderIds(shape) == old(InOrderIds(shape))
      ensures Top(shape) == if x == old(Top(shape)) then y else old(Top(shape))
      ensures y == old(left[x]) && y in Nodes()
      ensures root == old(root) && data == old(data) && color == old(color) && bh == old(bh)
    {
      ghost var k0 := K();
      RotateRightLinked(shape, k0, x);
      RotationBounds(shape, k0, x, false);
      var lefts, rights, parents := left, right, parent;
      var p := parents[x];
      y := lefts[x];
      lefts := lefts[x := rights[y]];
      if lefts[x] != NIL {
        parents := parents[lefts[x] := x];
      }
      parents := parents[x := y];
      rights := rights[y := x];
      if p != NIL {
        if rights[p] == x {
          rights := rights[p := y];
        } else {
          lefts := lefts[p := y];
        }
      }
      parents := parents[y := p];
      left, right, parent := lefts, rights, parents;
      shape := Graft(shape, x, RotRightShape(SubAt(shape, x)));
      assert K() == RbLinks.RotateRight(k0, x);
    }

    // -------------------------------------------------------------------
    // Insertion

    /** `insert_repair(n)`: the red node `n` may sit below a red parent or
      * be a red top. A top turns black; below a black parent nothing is
      * wrong; under a black uncle one or two rotations and a recolouring
      * finish the repair; under a red uncle the recolouring moves the
      * problem two levels up. The tree keeps its nodes and their in-order
      * sequence, and the top that node-level `insert` recovers (the old
      * top's parent, or the old top) is the new top. */
    method InsertRepair(n: nat)
      requires Wired() && InsertInv(Nodes(), K(), color, bh, n)
      modifies this
      decreases Depth(shape, n), if Inner(K(), n) then 1 else 0
      ensures Wired() && RB(Nodes(), K(), color, bh)
      ensures Nodes() == old(Nodes()) && InOrderIds(shape) == old(InOrderIds(shape))
      ensures data == old(data) && root == old(root)
      ensures Recovered(K(), old(Top(shape))) == Top(shape)
    {
      Settle();
      ghost var ids, D := Nodes(), Depths(shape, |parent|);
      var p := parent[n];
      if p == NIL {
        InsertAtTop(ids, K(), color, bh, D, n);
        color := color[n := Black];
      } else if Col(color, p) == Black {
        InsertUnderBlack(ids, K(), color, bh, D, n);
        color := color[n := Red];
      } else {
        assert Agrees(ids, K(), n) && TopOk(K(), color, n, p);
        Family(ids, K(), n);
        Family(ids, K(), p);
        DepthParent(shape, NIL, parent, n);
        var uncle := Sibling(K(), p);
        if Col(color, uncle) == Black {
          if IsLeft(K(), n) && IsRight(K(), p) {
            InnerRotationMirror(ids, K(), color, bh, D, n);
            RotateDepth(shape, K(), p);
            var _ := RotateRight(p);
            InsertRepair(right[n]);
          } else if IsRight(K(), n) && IsLeft(K(), p) {
            InnerRotation(ids, K(), color, bh, D, n);
            RotateDepth(shape, K(), p);
            var _ := RotateLeft(p);
            InsertRepair(left[n]);
          } else if IsLeft(K(), n) {
            RepairOuterLeft(n);
          } else {
            RepairOuterRight(n);
          }
        } else {
          var g := Recolour(n);
          InsertRepair(g);
        }
      }
    }

    /** The black-uncle block of `insert_repair(n)` for a left child `n` of
      * a left child: a right rotation at the grandparent, then the new
      * parent of `n` turns black and its right child (the old grandparent)
      * red. The tree is red-black again, and the old parent takes the
      * grandparent's place, also as the recovered top. */
    method RepairOuterLeft(n: nat)
      requires Wired() && InsertInv(Nodes(), K(), color, bh, n)
      requires Col(color, Get(parent, n)) == Red && IsLeft(K(), n) && IsLeft(K(), Get(parent, n))
      requires Col(color, Sibling(K(), Get(parent, n))) == Black
      modifies this
      ensures Wired() && RB(Nodes(), K(), color, bh)
      ensures Nodes() == old(Nodes()) && InOrderIds(shape) == old(InOrderIds(shape))
      ensures var p := old(Get(parent, n)); var g := old(Grandparent(K(), n));
        && K() == RbLinks.RotateRight(old(K()), g)
        && color == Paint(Paint(old(color), p, Black), g, Red)
      ensures data == old(data) && root == old(root) && bh == old(bh)
      ensures Recovered(K(), old(Top(shape))) == Top(shape)
    {
      Settle();
      ghost var ids, D := Nodes(), Depths(shape, |parent|);
      Family(ids, K(), n);
      Family(ids, K(), Get(parent, n));
      OuterRotationMirror(ids, K(), color, bh, D, n);
      var g := Grandparent(K(), n);
      var _ := RotateRight(g);
      var q := parent[n];
      color := color[q := Black];
      var r := right[q];
      color := color[r := Red];
    }

    /** The mirror block for a right child `n` of a right child: a left
      * rotation at the grandparent, then the new parent of `n` turns black
      * and its left child (the old grandparent) red. */
    method RepairOuterRight(n: nat)
      requires Wired() && InsertInv(Nodes(), K(), color, bh, n)
      requires Col(color, Get(parent, n)) == Red && IsRight(K(), n) && IsRight(K(), Get(parent, n))
      requires Col(color, Sibling(K(), Get(parent, n))) == Black
      modifies this
      ensures Wired() && RB(Nodes(), K(), color, bh)
      ensures Nodes() == old(Nodes()) && InOrderIds(shape) == old(InOrderIds(shape))
      ensures var p := old(Get(parent, n)); var g := old(Grandparent(K(), n));
        && K() == RbLinks.RotateLeft(old(K()), g)
        && color == Paint(Paint(old(color), p, Black), g, Red)
      ensures data == old(data) && root == old(root) && bh == old(bh)
      ensures Recovered(K(), old(Top(shape))) == Top(shape)
    {
      Settle();
      ghost var ids, D := Nodes(), Depths(shape, |parent|);
      Family(ids, K(), n);
      Family(ids, K(), Get(parent, n));
      assert OuterCase(ids, K(), color, bh, D, n);
      OuterRotation(ids, K(), color, bh, D, n);
      var g := Grandparent(K(), n);
      var _ := RotateLeft(g);
      var q := parent[n];
      color := color[q := Black];
      var l := left[q];
      color := color[l := Red];
    }

    /** The red-uncle block of `insert_repair(n)`: the parent and the uncle
      * turn black and the grandparent `g` red, one black level higher,
      * which leaves `g` as the red node to repair, two levels up. */
    method Recolour(n: nat) returns (g: nat)
      requires Wired() && InsertInv(Nodes(), K(), color, bh, n)
      requires Col(color, Get(parent, n)) == Red && Col(color, Sibling(K(), Get(parent, n))) == Red
      modifies this
      ensures Wired() && shape == old(shape) && K() == old(K())
      ensures g == Grandparent(K(), n) && Depth(shape, g) < Depth(shape, n)
      ensures var p := Get(parent, n);
        color == Paint(Paint(Paint(old(color), p, Black), Sibling(K(), p), Black), g, Red)
      ensures bh == SetBh(old(bh), g, Bh(old(bh), g) + 1)
      ensures data == old(data) && root == old(root)
      ensures InsertInv(Nodes(), K(), color, bh, g)
    {
      Settle();
      ghost var ids, D := Nodes(), Depths(shape, |parent|);
      var p := parent[n];
      Family(ids, K(), n);
      Family(ids, K(), p);
      InsertRecolour(ids, K(), color, bh, D, n);
      DepthParent(shape, NIL, parent, n);
      DepthParent(shape, NIL, parent, p);
      var uncle := Sibling(K(), p);
      color := color[p := Black];
      color := color[uncle := Black];
      g := Grandparent(K(), n);
      color := color[g := Red];
      bh := SetBh(bh, g, Bh(bh, g) + 1);
    }

    /** Node-level `insert` from `node`, a node on the search path of `v`:
      * an equal value stops the descent; otherwise the descent continues
      * into the child the comparison picks, or a new red leaf is hung where
      * that child is absent. The in-order values become those of leaf
      * insertion, the tree stays red-black, and the node returned for the
      * old top (its parent, or itself) is the new top. */
    method InsertFrom(node: nat, v: int) returns (r: int)
      requires Wired() && RB(Nodes(), K(), color, bh)
      requires node in Nodes() && OnPath(shape, data, v, node)
      modifies this
      decreases SubAt(shape, node)
      ensures Wired() && RB(Nodes(), K(), color, bh) && root == old(root)
      ensures old(Nodes()) <= Nodes()
      ensures Seq() == InOrder(LeafInsert(old(Abs()), v, Red))
      ensures Recovered(K(), old(Top(shape))) == Top(shape)
      ensures node == old(Top(shape)) ==> r == Top(shape)
      ensures old(Search(node, v)) != NIL ==> shape == old(shape) && K() == old(K()) && color == old(color) && data == old(data) && bh == old(bh)
    {
      Settle();
      SubFacts(node);
      ghost var found := Search(node, v) != NIL;
      if data[node] == v {
        OnPathFound(shape, data, v, node, |data|);
        ViewInsert(shape, data, color, v, Red);
        ViewFrame(shape, data, color, data + [v], color + [Red]);
        ViewInOrder(shape, data, color);
        return node;
      }
      if data[node] > v {
        var next := left[node];
        if next != NIL {
          OnPathStep(shape, data, left, right, v, node);
          assert found ==> Search(next, v) != NIL;
          var _ := InsertFrom(next, v);
        } else {
          assert !found;
          var _ := InsertLeaf(node, v);
        }
      } else {
        var next := right[node];
        if next != NIL {
          OnPathStep(shape, data, left, right, v, node);
          assert found ==> Search(next, v) != NIL;
          var _ := InsertFrom(next, v);
        } else {
          assert !found;
          var _ := InsertLeaf(node, v);
        }
      }
      Settle();
      var up := parent[node];
      r := if up != NIL then up else node;
    }

    /** The empty-child case of node-level `insert`: a new red node `n`
      * holding `v` is hung below `node` on the side the comparison picks,
      * and `insert_repair` runs on it. */
    method InsertLeaf(node: nat, v: int) returns (n: nat)
      requires Wired() && RB(Nodes(), K(), color, bh)
      requires node in Nodes() && node < |data| && OnPath(shape, data, v, node) && data[node] != v
      requires if v < data[node] then left[node] == NIL else right[node] == NIL
      modifies this
      ensures n == old(|data|) && data == old(data) + [v] && Nodes() == old(Nodes()) + {n}
      ensures Wired() && RB(Nodes(), K(), color, bh) && root == old(root)
      ensures Seq() == InOrder(LeafInsert(old(Abs()), v, Red))
      ensures Recovered(K(), old(Top(shape))) == Top(shape)
    {
      n := HangRedLeaf(node, v);
      InsertRepair(n);
    }

    /** The new red leaf `n` holding `v` hangs in the empty slot of `node`. */
    method HangRedLeaf(node: nat, v: int) returns (n: nat)
      requires Wired() && RB(Nodes(), K(), color, bh)
      requires node in Nodes() && node < |data| && OnPath(shape, data, v, node) && data[node] != v
      requires if v < data[node] then left[node] == NIL else right[node] == NIL
      modifies this
      ensures n == old(|data|) && data == old(data) + [v] && Nodes() == old(Nodes()) + {n}
      ensures Wired() && InsertInv(Nodes(), K(), color, bh, n) && root == old(root)
      ensures Seq() == InOrder(LeafInsert(old(Abs()), v, Red)) && Top(shape) == old(Top(shape))
    {
      n := |data|;
      var toLeft := v < data[node];
      ghost var s' := InsertShape(shape, data, v, n);
      ghost var inserted := InOrder(LeafInsert(Abs(), v, Red));
      HangRed(shape, K(), color, bh, data, v, node);
      ViewInOrder(s', data + [v], color + [Red]);
      assert Vals(InOrderIds(s'), data + [v]) == inserted;
      AppendLeaf(node, v, toLeft, s');
    }

    /** Writes a new red leaf holding `v` at the end of the arena and hangs
      * it below `node`. */
    method AppendLeaf(node: nat, v: int, toLeft: bool, ghost s': Shape)
      modifies this
      ensures shape == s' && data == old(data) + [v] && color == old(color) + [Red] && bh == old(bh) + [0]
      ensures K() == Hang(old(K()), node, old(|data|), toLeft) && root == old(root)
    {
      var n := |data|;
      var lefts := if toLeft then Put(left + [NIL], node, n) else left + [NIL];
      var rights := if toLeft then right + [NIL] else Put(right + [NIL], node, n);
      shape := s';
      data, color, bh := data + [v], color + [Red], bh + [0];
      left, right, parent := lefts, rights, parent + [node];
    }

    /** Tree-level `insert`: an empty tree gets a black root; otherwise the
      * root's node-level insertion runs and its result becomes the root.
      * The values are the old ones plus `v`, in the order leaf insertion
      * gives, and the tree stays a valid red-black tree. */
    method Insert(v: int)
      requires Valid()
      modifies this
      ensures Valid()
      ensures Seq() == InOrder(LeafInsert(old(Abs()), v, Red))
      ensures Values(Abs()) == old(Values(Abs())) + {v}
      ensures v in old(Seq()) ==> shape == old(shape) && K() == old(K()) && color == old(color) && data == old(data) && bh == old(bh) && root == old(root)
    {
      ghost var t0 := Abs();
      ViewInOrder(shape, data, color);
      if root == NIL {
        var n := |data|;
        PlantRoot(K(), color, bh, data, v);
        data, color, bh := data + [v], color + [Black], bh + [0];
        left, right, parent := left + [NIL], right + [NIL], parent + [NIL];
        root := n;
        shape := Cell(Empty, n, Empty);
      } else {
        OnPathTop(shape, data, v);
        TopSub();
        SearchFinds(root, v);
        root := InsertFrom(root, v);
      }
      ViewInOrder(shape, data, color);
      AscendingInsert(t0, v, Abs());
    }

    // -------------------------------------------------------------------
    // Deletion repair

    /** Block 1 of `delete_repair(n)`: a red sibling turns black, the parent
      * red, and a rotation at the parent toward `n` brings the sibling up.
      * Afterwards `n` keeps its parent and has a black sibling; when the
      * block fired, the parent is red. */
    method RedSiblingBlock(n: nat, ghost gone: nat)
      requires Wired() && DeleteInv(Nodes(), K(), color, bh, n, gone)
      modifies this
      ensures Wired() && Nodes() == old(Nodes()) && InOrderIds(shape) == old(InOrderIds(shape))
      ensures data == old(data) && root == old(root) && bh == old(bh)
      ensures Painted(K(), color) == RedSiblingStep(old(Painted(K(), color)), n)
      ensures DeleteInv(Nodes(), K(), color, bh, n, gone)
      ensures Get(parent, n) == old(Get(parent, n)) && Col(color, Sibling(K(), n)) == Black
      ensures old(Col(color, Sibling(K(), n))) == Red ==> Col(color, Get(parent, n)) == Red
      ensures old(Col(color, Sibling(K(), n))) != Red ==> shape == old(shape) && K() == old(K()) && color == old(color)
    {
      Settle();
      ghost var ids, D := Nodes(), Depths(shape, |parent|);
      RedSiblingKeeps(ids, K(), color, bh, D, n, gone);
      var s := Sibling(K(), n);
      if Col(color, s) == Red {
        var p := parent[n];
        DeleteFamily(ids, K(), color, bh, D, n, gone);
        color := color[s := Black];
        color := color[p := Red];
        if IsLeft(K(), n) {
          var _ := RotateLeft(p);
        } else {
          var _ := RotateRight(p);
        }
      }
    }

    /** Block 4: `n` on the left with a black sibling whose near (left)
      * child is red and far child black; a right rotation at the sibling,
      * then the new sibling turns black and its right child red. Below a
      * parent, `n` keeps its side and a black sibling, and a left `n` now
      * has a red far nephew. */
    method NearRedLeftBlock(n: nat, ghost gone: nat)
      requires Wired() && DeleteInv(Nodes(), K(), color, bh, n, gone)
      requires var s := Sibling(K(), n); Get(parent, n) != NIL ==>
        Col(color, s) == Black && !(Col(color, Get(left, s)) == Black && Col(color, Get(right, s)) == Black)
      modifies this
      ensures Wired() && Nodes() == old(Nodes()) && InOrderIds(shape) == old(InOrderIds(shape))
      ensures data == old(data) && root == old(root) && bh == old(bh)
      ensures Painted(K(), color) == NearRedLeftStep(old(Painted(K(), color)), n)
      ensures DeleteInv(Nodes(), K(), color, bh, n, gone) && Get(parent, n) == old(Get(parent, n))
      ensures IsLeft(K(), n) == old(IsLeft(K(), n)) && IsRight(K(), n) == old(IsRight(K(), n))
      ensures Get(parent, n) != NIL ==> Col(color, Sibling(K(), n)) == Black
      ensures old(IsLeft(K(), n)) ==> Col(color, Get(right, Sibling(K(), n))) == Red
      ensures !old(IsLeft(K(), n)) ==> shape == old(shape) && K() == old(K()) && color == old(color)
    {
      Settle();
      ghost var ids, D := Nodes(), Depths(shape, |parent|);
      if Get(parent, n) != NIL {
        NearRedLeftKeeps(ids, K(), color, bh, D, n, gone);
      }
      var s := Sibling(K(), n);
      if IsLeft(K(), n) && Col(color, s) == Black {
        if Col(color, Get(right, s)) == Black && Col(color, Get(left, s)) == Red {
          DeleteFamily(ids, K(), color, bh, D, n, gone);
          var _ := RotateRight(s);
          var s' := Sibling(K(), n);
          color := Paint(color, s', Black);
          color := Paint(color, Get(right, s'), Red);
        }
      }
    }

    /** Block 5: the mirror image of block 4, for `n` on the right. */
    method NearRedRightBlock(n: nat, ghost gone: nat)
      requires Wired() && DeleteInv(Nodes(), K(), color, bh, n, gone)
      requires var s := Sibling(K(), n); Get(parent, n) != NIL ==>
        Col(color, s) == Black && !(Col(color, Get(left, s)) == Black && Col(color, Get(right, s)) == Black)
      modifies this
      ensures Wired() && Nodes() == old(Nodes()) && InOrderIds(shape) == old(InOrderIds(shape))
      ensures data == old(data) && root == old(root) && bh == old(bh)
      ensures Painted(K(), color) == NearRedRightStep(old(Painted(K(), color)), n)
      ensures DeleteInv(Nodes(), K(), color, bh, n, gone) && Get(parent, n) == old(Get(parent, n))
      ensures IsLeft(K(), n) == old(IsLeft(K(), n)) && IsRight(K(), n) == old(IsRight(K(), n))
      ensures Get(parent, n) != NIL ==> Col(color, Sibling(K(), n)) == Black
      ensures old(IsRight(K(), n)) ==> Col(color, Get(left, Sibling(K(), n))) == Red
      ensures !old(IsRight(K(), n)) ==> shape == old(shape) && K() == old(K()) && color == old(color)
    {
      Settle();
      ghost var ids, D := Nodes(), Depths(shape, |parent|);
      if Get(parent, n) != NIL {
        NearRedRightKeeps(ids, K(), color, bh, D, n, gone);
      }
      var s := Sibling(K(), n);
      if IsRight(K(), n) && Col(color, s) == Black {
        if Col(color, Get(right, s)) == Red && Col(color, Get(left, s)) == Black {
          DeleteFamily(ids, K(), color, bh, D, n, gone);
          var _ := RotateLeft(s);
          var s' := Sibling(K(), n);
          color := Paint(color, s', Black);
          color := Paint(color, Get(left, s'), Red);
        }
      }
    }

    /** Block 6: `n` on the left with a black sibling whose far (right)
      * child is red; a left rotation at the parent, then the sibling, now
      * above the parent, takes the parent's colour and the parent and its
      * new sibling turn black. This repairs the tree. */
    method FarRedLeftBlock(n: nat, ghost gone: nat)
      requires Wired()
      requires IsLeft(K(), n) ==> && DeleteInv(Nodes(), K(), color, bh, n, gone)
                                  && Col(color, Sibling(K(), n)) == Black
                                  && Col(color, Get(right, Sibling(K(), n))) == Red
      modifies this
      ensures Wired() && Nodes() == old(Nodes()) && InOrderIds(shape) == old(InOrderIds(shape))
      ensures data == old(data) && root == old(root)
      ensures Painted(K(), color) == FarRedLeftStep(old(Painted(K(), color)), n)
      ensures old(IsLeft(K(), n)) ==>
        && bh == RotatedBh(old(bh), old(Get(parent, n)), old(Sibling(K(), n)))
        && Repaired(Nodes(), K(), color, bh, gone) && !IsRight(K(), n)
      ensures !old(IsLeft(K(), n)) ==> shape == old(shape) && K() == old(K()) && color == old(color) && bh == old(bh)
    {
      var s := Sibling(K(), n);
      if IsLeft(K(), n) && Col(color, s) == Black {
        if Col(color, Get(right, s)) == Red {
          Settle();
          ghost var ids, D := Nodes(), Depths(shape, |parent|);
          FarRedLeftKeeps(ids, K(), color, bh, D, n, gone);
          DeleteFamily(ids, K(), color, bh, D, n, gone);
          var p := parent[n];
          var _ := RotateLeft(p);
          var g := Grandparent(K(), n);
          var q := Get(parent, n);
          color := Paint(color, g, Col(color, q));
          color := Paint(color, q, Black);
          color := Paint(color, Sibling(K(), q), Black);
          bh := RotatedBh(bh, p, s);
        }
      }
    }

    /** Block 7: the mirror image of block 6, for `n` on the right; the
      * rotation is at `p0`, the parent of `n` as read before block 3. */
    method FarRedRightBlock(n: nat, p0: int, ghost gone: nat)
      requires Wired()
      requires IsRight(K(), n) ==> && DeleteInv(Nodes(), K(), color, bh, n, gone)
                                   && Col(color, Sibling(K(), n)) == Black
                                   && Col(color, Get(left, Sibling(K(), n))) == Red
                                   && p0 == Get(parent, n)
      modifies this
      ensures Wired() && Nodes() == old(Nodes()) && InOrderIds(shape) == old(InOrderIds(shape))
      ensures data == old(data) && root == old(root)
      ensures Painted(K(), color) == FarRedRightStep(old(Painted(K(), color)), n, p0)
      ensures old(IsRight(K(), n)) ==>
        && bh == RotatedBh(old(bh), p0, old(Sibling(K(), n)))
        && Repaired(Nodes(), K(), color, bh, gone)
      ensures !old(IsRight(K(), n)) ==> shape == old(shape) && K() == old(K()) && color == old(color) && bh == old(bh)
    {
      var s := Sibling(K(), n);
      if IsRight(K(), n) && Col(color, s) == Black {
        if Col(color, Get(left, s)) == Red {
          Settle();
          ghost var ids, D := Nodes(), Depths(shape, |parent|);
          FarRedRightKeeps(ids, K(), color, bh, D, n, gone);
          DeleteFamily(ids, K(), color, bh, D, n, gone);
          var _ := RotateRight(p0);
          var g := Grandparent(K(), n);
          var q := Get(parent, n);
          color := Paint(color, g, Col(color, q));
          color := Paint(color, q, Black);
          color := Paint(color, Sibling(K(), q), Black);
          bh := RotatedBh(bh, p0, s);
        }
      }
    }

    /** `delete_repair(n)`: every path through `n` is one black node short,
      * counting the black leaf `gone` that is about to be removed as
      * absent. Block 1 gives `n` a black sibling; a black parent over a
      * black sibling with black children passes the shortfall up to the
      * parent (block 2); a red parent absorbs it (block 3); otherwise
      * blocks 4 to 7 rotate it away. The links and colours become those
      * of `DeleteRepairSteps`, the nodes and their in-order sequence stay,
      * and once `gone` is cut loose the tree is red-black. */
    method DeleteRepair(n: nat, ghost gone: nat)
      requires Wired() && DeleteInv(Nodes(), K(), color, bh, n, gone)
      modifies this
      decreases Depth(shape, n), 1
      ensures Wired() && Repaired(Nodes(), K(), color, bh, gone)
      ensures Nodes() == old(Nodes()) && InOrderIds(shape) == old(InOrderIds(shape))
      ensures data == old(data) && root == old(root)
      ensures Painted(K(), color) == DeleteRepairSteps(old(Painted(K(), color)), n, old(Depth(shape, n)) + 1)
    {
      RedSiblingBlock(n, gone);
      var s := Sibling(K(), n);
      var p := Get(parent, n);
      var nephewsBlack := Col(color, Get(left, s)) == Black && Col(color, Get(right, s)) == Black;
      if Col(color, p) == Black && Col(color, s) == Black && s != NIL && nephewsBlack {
        PassUp(n, gone);
      } else if Col(color, p) == Red && Col(color, s) == Black && nephewsBlack {
        RedParentAbsorbs(n, gone);
      } else {
        NephewBlocks(n, p, gone);
      }
    }

    /** Block 2: below a black parent, the black sibling with black
      * children turns red and the repair moves up to the parent. */
    method PassUp(n: nat, ghost gone: nat)
      requires Wired() && DeleteInv(Nodes(), K(), color, bh, n, gone)
      requires var s := Sibling(K(), n);
        && Col(color, Get(parent, n)) == Black && s != NIL && Col(color, s) == Black
        && Col(color, Get(left, s)) == Black && Col(color, Get(right, s)) == Black
      modifies this
      decreases Depth(shape, n), 0
      ensures Wired() && Repaired(Nodes(), K(), color, bh, gone)
      ensures Nodes() == old(Nodes()) && InOrderIds(shape) == old(InOrderIds(shape))
      ensures data == old(data) && root == old(root)
      ensures var up := Painted(old(K()), Paint(old(color), old(Sibling(K(), n)), Red));
        Painted(K(), color) == DeleteRepairSteps(up, old(Get(parent, n)), old(Depth(shape, n)))
    {
      Settle();
      ghost var ids, D := Nodes(), Depths(shape, |parent|);
      var s := Sibling(K(), n);
      var p := parent[n];
      BlackNephewsKeeps(ids, K(), color, bh, D, n, gone);
      DepthParent(shape, NIL, parent, n);
      color := Paint(color, s, Red);
      bh := Lower(bh, p);
      DeleteRepair(p, gone);
    }

    /** Block 3: below a red parent, the black sibling with black children
      * turns red and the parent black, which ends the repair. */
    method RedParentAbsorbs(n: nat, ghost gone: nat)
      requires Wired() && DeleteInv(Nodes(), K(), color, bh, n, gone)
      requires var s := Sibling(K(), n);
        && Col(color, Get(parent, n)) == Red && Col(color, s) == Black
        && Col(color, Get(left, s)) == Black && Col(color, Get(right, s)) == Black
      modifies this
      ensures Wired() && Repaired(Nodes(), K(), color, bh, gone)
      ensures shape == old(shape) && K() == old(K()) && data == old(data) && root == old(root)
      ensures color == Paint(Paint(old(color), old(Sibling(K(), n)), Red), old(Get(parent, n)), Black)
      ensures bh == Lower(old(bh), old(Get(parent, n)))
    {
      Settle();
      ghost var ids, D := Nodes(), Depths(shape, |parent|);
      DeleteFamily(ids, K(), color, bh, D, n, gone);
      BlackNephewsKeeps(ids, K(), color, bh, D, n, gone);
      var s := Sibling(K(), n);
      var p := parent[n];
      color := Paint(color, s, Red);
      color := Paint(color, p, Black);
      bh := Lower(bh, p);
    }

    /** Blocks 4 to 7 of `delete_repair(n)`, in turn, where `p` is the
      * parent of `n`: below a parent, `n` has a black sibling with a red
      * child, and the blocks that fire leave the tree repaired; a top `n`
      * needs no repair and no block fires. */
    method NephewBlocks(n: nat, p: int, ghost gone: nat)
      requires Wired() && DeleteInv(Nodes(), K(), color, bh, n, gone) && p == Get(parent, n)
      requires var s := Sibling(K(), n); p != NIL ==>
        Col(color, s) == Black && !(Col(color, Get(left, s)) == Black && Col(color, Get(right, s)) == Black)
      modifies this
      ensures Wired() && Repaired(Nodes(), K(), color, bh, gone)
      ensures Nodes() == old(Nodes()) && InOrderIds(shape) == old(InOrderIds(shape))
      ensures data == old(data) && root == old(root)
      ensures var st := old(Painted(K(), color));
        Painted(K(), color) == FarRedRightStep(FarRedLeftStep(NearRedRightStep(NearRedLeftStep(st, n), n), n), n, p)
    {
      Settle();
      ghost var ids, D := Nodes(), Depths(shape, |parent|);
      if p == NIL {
        DeleteAtTop(ids, K(), color, bh, D, n, gone);
      } else {
        DeleteFamily(ids, K(), color, bh, D, n, gone);
      }
      NearRedLeftBlock(n, gone);
      NearRedRightBlock(n, gone);
      FarRedLeftBlock(n, gone);
      FarRedRightBlock(n, p, gone);
    }

    // -------------------------------------------------------------------
    // Node-level queries

    /** The values in in-order position before the subtree at `x`. */
    ghost function Before(x: int): seq<int>
      reads this`shape, this`data
    {
      Vals(Prefix(shape, x), data)
    }

    /** The values in in-order position after the subtree at `x`. */
    ghost function After(x: int): seq<int>
      reads this`shape, this`data
    {
      Vals(Suffix(shape, x), data)
    }

    /** The subtree at `x` sits between its surroundings. */
    lemma Around(x: nat)
      requires Wired() && x in Nodes()
      ensures Seq() == Before(x) + Sub(x) + After(x)
    {
      SplitAt(shape, x);
      ValsAppend(Prefix(shape, x) + InOrderIds(SubAt(shape, x)), Suffix(shape, x), data);
      ValsAppend(Prefix(shape, x), InOrderIds(SubAt(shape, x)), data);
    }

    /** Where the subtree of the left child of `x` sits. */
    lemma LeftAround(x: nat)
      requires Wired() && x in Nodes() && Get(left, x) != NIL
      ensures Before(left[x]) == Before(x)
      ensures After(left[x]) == [data[x]] + Sub(right[x]) + After(x)
    {
      SubFacts(x);
      var sx := SubAt(shape, x);
      SplitLeft(shape, x, left[x]);
      var r, suf := InOrderIds(sx.r), Suffix(shape, x);
      assert Vals(r, data) == Sub(right[x]) by {
        if right[x] == NIL {
          assert sx.r == Empty;
        }
      }
      assert Vals([x], data) == [data[x]];
      calc {
        After(left[x]);
        Vals([x] + r + suf, data);
        { ValsAppend([x] + r, suf, data); ValsAppend([x], r, data); }
        Vals([x], data) + Vals(r, data) + Vals(suf, data);
      }
    }

    /** Where the subtree of the right child of `x` sits. */
    lemma RightAround(x: nat)
      requires Wired() && x in Nodes() && Get(right, x) != NIL
      ensures Before(right[x]) == Before(x) + Sub(left[x]) + [data[x]]
      ensures After(right[x]) == After(x)
    {
      SubFacts(x);
      var sx := SubAt(shape, x);
      SplitRight(shape, x, right[x]);
      var pre, l := Prefix(shape, x), InOrderIds(sx.l);
      assert Vals(l, data) == Sub(left[x]) by {
        if left[x] == NIL {
          assert sx.l == Empty;
        }
      }
      ValsAppend(pre + l, [x], data);
      ValsAppend(pre, l, data);
    }

    /** `get_max(x)`: the right-most value below `x`, which is the last of
      * the subtree's in-order values. */
    function GetMax(x: nat): (m: int)
      reads this
      requires Wired() && x in Nodes()
      decreases SubAt(shape, x)
      ensures Sub(x) != [] && m == Sub(x)[|Sub(x)| - 1]
    {
      SubFacts(x);
      if right[x] == NIL then data[x] else GetMax(right[x])
    }

    /** On a search tree the right-most value is the largest. */
    lemma GetMaxLargest(x: nat)
      requires Wired() && x in Nodes() && StrictlyAscending(Sub(x))
      ensures GetMax(x) in Sub(x) && forall y | y in Sub(x) :: y <= GetMax(x)
    {
      var s := Sub(x);
      forall y | y in s ensures y <= GetMax(x) {
        var i :| 0 <= i < |s| && s[i] == y;
        assert i < |s| - 1 ==> s[i] < s[|s| - 1];
      }
    }

    /** `search(x, v)`: the node below `x` that holds `v`, if any, found by
      * walking down the comparisons. */
    function Search(x: nat, v: int): (r: int)
      reads this
      requires Wired() && x in Nodes()
      decreases SubAt(shape, x)
      ensures r != NIL ==> r in Ids(SubAt(shape, x)) && r < |data| && data[r] == v
    {
      SubFacts(x);
      if data[x] == v then x
      else if v > data[x] then (if right[x] == NIL then NIL else Search(right[x], v))
      else (if left[x] == NIL then NIL else Search(left[x], v))
    }

    /** On a search tree, `search` finds `v` exactly when the subtree holds it. */
    lemma {:induction false} SearchFinds(x: nat, v: int)
      requires Wired() && x in Nodes() && StrictlyAscending(Sub(x))
      decreases SubAt(shape, x)
      ensures Search(x, v) != NIL <==> v in Sub(x)
    {
      SubFacts(x);
      var a, d, b := Sub(left[x]), data[x], Sub(right[x]);
      AscendingParts(a, d, b);
      if v > d && right[x] != NIL {
        SearchFinds(right[x], v);
      } else if v < d && left[x] != NIL {
        SearchFinds(left[x], v);
      }
    }

    /** `inorder_traverse(x, container)`: the values below `x`, in order,
      * pushed after what `container` held. */
    method InorderTraverse(x: nat, container: seq<int>) returns (out: seq<int>)
      requires Wired() && x in Nodes()
      decreases SubAt(shape, x)
      ensures out == container + Sub(x)
    {
      SubFacts(x);
      out := container;
      var l := left[x];
      if l != NIL {
        out := InorderTraverse(l, out);
      }
      out := out + [data[x]];
      var r := right[x];
      if r != NIL {
        out := InorderTraverse(r, out);
      }
    }

    // -------------------------------------------------------------------
    // Node-level delete: the cases at the node that holds the value

    /** Cutting the leaf `x` from its parent's slot (and, with `detach`,
      * `x` from its parent) leaves the tree without `x`. */
    lemma LeafCut(x: nat, detach: bool)
      requires Wired() && x in Nodes()
      requires Get(left, x) == NIL && Get(right, x) == NIL && Get(parent, x) != NIL
      ensures x < |data| && 0 <= parent[x] < |left|
      ensures var k' := if detach then Detach(K(), x) else Unlink(K(), x);
        var s' := Graft(shape, x, Empty);
        Linked(s', k') && Ids(s') == Nodes() - {x}
      ensures Vals(InOrderIds(Graft(shape, x, Empty)), data) == Before(x) + Remove(Sub(x), data[x]) + After(x)
    {
      ParentSlot(shape, K(), x);
      CutLeafLinked(shape, K(), x, if detach then Detach(K(), x) else Unlink(K(), x));
      LeafValues(x);
    }

    /** The values left once the leaf `x` is gone: those around it. */
    lemma LeafValues(x: nat)
      requires Wired() && x in Nodes() && Get(left, x) == NIL && Get(right, x) == NIL
      ensures x < |data|
      ensures Vals(InOrderIds(Graft(shape, x, Empty)), data) == Before(x) + Remove(Sub(x), data[x]) + After(x)
    {
      LeafAt(shape, K(), x);
      SubFacts(x);
      assert Sub(x) == [data[x]];
      ValsAppend(Prefix(shape, x), Suffix(shape, x), data);
    }

    /** A red node with at most one child is a leaf (its parent exists,
      * since the top is black); it is cut from its parent's slot. The
      * node keeps its own parent link, as in the source. */
    method CutRedLeaf(x: nat)
      requires Wired() && RB(Nodes(), K(), color, bh) && x in Nodes()
      requires Col(color, x) == Red && (Get(left, x) == NIL || Get(right, x) == NIL)
      modifies this
      ensures Wired() && RB(Nodes(), K(), color, bh)
      ensures Nodes() == old(Nodes()) - {x} && K() == Unlink(old(K()), x) && old(Get(parent, x)) != NIL
      ensures data == old(data) && color == old(color) && bh == old(bh) && root == old(root)
      ensures x < |data| && Seq() == old(Before(x)) + Remove(old(Sub(x)), data[x]) + old(After(x))
    {
      Settle();
      ShortNode(Nodes(), K(), color, bh, x);
      RemoveRedLeaf(Nodes(), K(), color, bh, x);
      LeafCut(x, false);
      var p := parent[x];
      if IsLeft(K(), x) {
        left := left[p := NIL];
      } else {
        right := right[p := NIL];
      }
      shape := Graft(shape, x, Empty);
    }

    /** A black leaf with a parent: `delete_repair` restores the colour
      * properties around it first, then the leaf is cut loose. */
    method CutBlackLeaf(x: nat)
      requires Wired() && RB(Nodes(), K(), color, bh) && x in Nodes()
      requires Col(color, x) == Black && Get(left, x) == NIL && Get(right, x) == NIL && Get(parent, x) != NIL
      modifies this
      ensures Wired() && RB(Nodes(), K(), color, bh)
      ensures Nodes() == old(Nodes()) - {x} && data == old(data) && root == old(root)
      ensures var st := DeleteRepairSteps(old(Painted(K(), color)), x, old(Depth(shape, x)) + 1);
        K() == Detach(st.k, x) && color == st.c
      ensures x < |data| && Seq() == old(Before(x)) + Remove(old(Sub(x)), data[x]) + old(After(x))
    {
      ghost var s0, k0 := shape, K();
      ghost var st := DeleteRepairSteps(Painted(K(), color), x, Depth(shape, x) + 1);
      ghost var before, here, after := Before(x), Remove(Sub(x), data[x]), After(x);
      LeafDoomed(x);
      DeleteRepair(x, x);
      assert Painted(K(), color) == st;
      LeafSplitSame(s0, k0, shape, K(), x);
      assert Before(x) == before && After(x) == after && Remove(Sub(x), data[x]) == here;
      DetachLeaf(x);
    }

    /** A black leaf below a parent starts `delete_repair` as its own
      * doomed node. */
    lemma LeafDoomed(x: nat)
      requires Wired() && RB(Nodes(), K(), color, bh) && x in Nodes()
      requires Col(color, x) == Black && Get(left, x) == NIL && Get(right, x) == NIL && Get(parent, x) != NIL
      ensures DeleteInv(Nodes(), K(), color, bh, x, x)
    {
      Settle();
      StartDelete(Nodes(), K(), color, bh, x);
    }

    /** The repaired black leaf is cut from its (possibly new) parent's
      * slot and forgets that parent. */
    method DetachLeaf(x: nat)
      requires Wired() && Repaired(Nodes(), K(), color, bh, x)
      modifies this
      ensures Wired() && RB(Nodes(), K(), color, bh)
      ensures Nodes() == old(Nodes()) - {x} && K() == Detach(old(K()), x)
      ensures data == old(data) && color == old(color) && bh == old(bh) && root == old(root)
      ensures x < |data| && Seq() == old(Before(x)) + Remove(old(Sub(x)), data[x]) + old(After(x))
    {
      Settle();
      RemoveGone(Nodes(), K(), color, bh, x);
      LeafCut(x, true);
      var p := parent[x];
      if IsLeft(K(), x) {
        left := left[p := NIL];
      } else {
        right := right[p := NIL];
      }
      parent := parent[x := NIL];
      shape := Graft(shape, x, Empty);
    }

    /** The values once `x` has taken the value of its only child `c` and
      * `c` is gone: those around `x`, with `c`'s value in the middle. */
    lemma SpliceValues(x: nat, c: nat, toLeft: bool)
      requires Wired() && x in Nodes() && StrictlyAscending(Sub(x))
      requires if toLeft then Get(left, x) == c && Get(right, x) == NIL
               else Get(right, x) == c && Get(left, x) == NIL
      requires Get(left, c) == NIL && Get(right, c) == NIL
      ensures x < |data| && c < |data| && c in Ids(SubAt(shape, x))
      ensures Vals(InOrderIds(Graft(shape, x, Cell(Empty, x, Empty))), data[x := data[c]])
        == Before(x) + Remove(Sub(x), data[x]) + After(x)
    {
      OnlyChildAt(shape, K(), x, c, toLeft);
      AroundOutside(shape, x);
      var pre, suf, d := Prefix(shape, x), Suffix(shape, x), data[x := data[c]];
      assert c in Ids(SubAt(shape, x));
      ValsFrame(pre, data, x, data[c]);
      ValsFrame(suf, data, x, data[c]);
      ValsSplit(pre, x, suf, d);
      OnlyChildValues(x, c, toLeft);
    }

    /** Removing the value of `x` from its two-node subtree leaves the
      * value of its child `c`. */
    lemma OnlyChildValues(x: nat, c: nat, toLeft: bool)
      requires Wired() && x in Nodes() && StrictlyAscending(Sub(x))
      requires if toLeft then Get(left, x) == c && Get(right, x) == NIL
               else Get(right, x) == c && Get(left, x) == NIL
      requires Get(left, c) == NIL && Get(right, c) == NIL
      ensures x < |data| && c < |data| && Remove(Sub(x), data[x]) == [data[c]]
    {
      OnlyChildShape(shape, K(), x, c, toLeft);
      SubFacts(x);
      var dc, dx := data[c], data[x];
      if toLeft {
        assert InOrderIds(SubAt(shape, x)) == [c] + [x] + [];
        ValsSplit([c], x, [], data);
        assert Sub(x) == [dc] + [dx] + [];
        AscendingParts([dc], dx, []);
        RemoveOnce([dc], dx, []);
      } else {
        assert InOrderIds(SubAt(shape, x)) == [] + [x] + [c];
        ValsSplit([], x, [c], data);
        assert Sub(x) == [] + [dx] + [dc];
        AscendingParts([], dx, [dc]);
        RemoveOnce([], dx, [dc]);
      }
    }

    /** Overwriting the value of `x` by `m` leaves its left subtree's
      * values as they were, and puts `m` right after them. */
    lemma PredecessorValues(x: nat, m: int)
      requires Wired() && x in Nodes() && Get(left, x) != NIL
      ensures x < |data| && left[x] in Nodes()
      ensures var l, d := left[x], data[x := m];
        && Vals(Prefix(shape, l), d) == Before(x)
        && Vals(InOrderIds(SubAt(shape, l)), d) == Sub(l)
        && Vals(Suffix(shape, l), d) == [m] + Sub(right[x]) + After(x)
    {
      SubFacts(x);
      SubAtFacts(shape, x);
      AroundOutside(shape, x);
      var sx := SubAt(shape, x);
      SplitLeft(shape, x, left[x]);
      InOrderIdsMembers(sx.l);
      ValsFrame(Prefix(shape, x), data, x, m);
      ValsFrame(InOrderIds(sx.l), data, x, m);
      PredecessorAfter(x, m);
    }

    /** The part of `PredecessorValues` after the left subtree. */
    lemma PredecessorAfter(x: nat, m: int)
      requires Wired() && x in Nodes() && Get(left, x) != NIL
      ensures x < |data| && left[x] in Nodes()
      ensures Vals([x] + InOrderIds(SubAt(shape, x).r) + Suffix(shape, x), data[x := m])
        == [m] + Sub(right[x]) + After(x)
    {
      SubFacts(x);
      SubAtFacts(shape, x);
      AroundOutside(shape, x);
      var sx, d := SubAt(shape, x), data[x := m];
      var r, suf := InOrderIds(sx.r), Suffix(shape, x);
      assert x !in r by {
        assert x !in Ids(sx.r);
        InOrderIdsMembers(sx.r);
      }
      assert x !in suf by {
        assert x in Ids(sx);
      }
      ValsFrame(r, data, x, m);
      ValsFrame(suf, data, x, m);
      assert Vals(r, data) == Sub(right[x]) by {
        if right[x] == NIL {
          assert sx.r == Empty;
        }
      }
      assert Vals([x], d) == [m] by {
        assert [x][1..] == [];
      }
      ValsAppend([x] + r, suf, d);
      ValsAppend([x], r, d);
    }

    /** A black node with one child, which is then a red leaf: the node
      * takes the child's value and links, and the child leaves the tree. */
    method SpliceChildUp(x: nat)
      requires Wired() && RB(Nodes(), K(), color, bh) && x in Nodes() && StrictlyAscending(Sub(x))
      requires Col(color, x) == Black && (Get(left, x) == NIL || Get(right, x) == NIL)
      requires Get(left, x) != NIL || Get(right, x) != NIL
      modifies this
      ensures Wired() && RB(Nodes(), K(), color, bh)
      ensures |data| == old(|data|) && x < |data|
      ensures var c := if old(Get(left, x)) != NIL then old(Get(left, x)) else old(Get(right, x));
        && 0 <= c < |data| && c != x && c in old(Ids(SubAt(shape, x)))
        && Nodes() == old(Nodes()) - {c} && data == old(data)[x := old(data)[c]]
      ensures K() == Links(Put(old(left), x, NIL), Put(old(right), x, NIL), old(parent))
      ensures color == old(color) && bh == old(bh) && root == old(root)
      ensures Seq() == old(Before(x)) + Remove(old(Sub(x)), old(data)[x]) + old(After(x))
    {
      Settle();
      ShortNode(Nodes(), K(), color, bh, x);
      var toLeft := left[x] != NIL;
      var child := if toLeft then left[x] else right[x];
      ghost var k' := Links(Put(left, x, NIL), Put(right, x, NIL), parent);
      SpliceChild(Nodes(), K(), color, bh, x, child, k');
      SpliceLinked(shape, K(), x, child, toLeft, k');
      SpliceValues(x, child, toLeft);
      var childData, childLeft, childRight := data[child], left[child], right[child];
      var lefts, rights, parents := left[x := childLeft], right[x := childRight], parent;
      // The child's own children (none, as it is a leaf) would be re-parented.
      if childLeft != NIL {
        parents := Put(parents, childLeft, x);
      }
      if childRight != NIL {
        parents := Put(parents, childRight, x);
      }
      data := data[x := childData];
      left, right, parent := lefts, rights, parents;
      shape := Graft(shape, x, Cell(Empty, x, Empty));
    }

    // -------------------------------------------------------------------
    // Node-level delete: the walk

    /** Below the smaller value, deleting from the left subtree is deleting
      * from the whole subtree; with no left subtree nothing is deleted. */
    lemma DescendLeft(x: nat, v: int)
      requires Wired() && x in Nodes() && StrictlyAscending(Sub(x)) && x < |data| && v < data[x]
      ensures Get(left, x) != NIL ==> StrictlyAscending(Sub(left[x]))
      ensures Get(left, x) != NIL ==>
        Before(left[x]) + Remove(Sub(left[x]), v) + After(left[x]) == Before(x) + Remove(Sub(x), v) + After(x)
      ensures Get(left, x) == NIL ==> Remove(Sub(x), v) == Sub(x)
    {
      SubFacts(x);
      var a, d, b := Sub(left[x]), data[x], Sub(right[x]);
      AscendingParts(a, d, b);
      RemoveBelow(a, d, b, v);
      if left[x] != NIL {
        LeftAround(x);
        var p, y, q := Before(x), Remove(a, v), After(x);
        Assoc(p + y, [d] + b, q);
        Assoc(p, y, [d] + b);
        Assoc(y, [d], b);
      }
    }

    /** The mirror image of `DescendLeft`. */
    lemma DescendRight(x: nat, v: int)
      requires Wired() && x in Nodes() && StrictlyAscending(Sub(x)) && x < |data| && data[x] < v
      ensures Get(right, x) != NIL ==> StrictlyAscending(Sub(right[x]))
      ensures Get(right, x) != NIL ==>
        Before(right[x]) + Remove(Sub(right[x]), v) + After(right[x]) == Before(x) + Remove(Sub(x), v) + After(x)
      ensures Get(right, x) == NIL ==> Remove(Sub(x), v) == Sub(x)
    {
      SubFacts(x);
      var a, d, b := Sub(left[x]), data[x], Sub(right[x]);
      AscendingParts(a, d, b);
      RemoveAbove(a, d, b, v);
      if right[x] != NIL {
        RightAround(x);
        Assoc(Before(x), a + [d], Remove(b, v));
      }
    }

    /** A black leaf without a parent is the whole tree. */
    lemma LoneRoot(x: nat)
      requires Wired() && x in Nodes()
      requires Get(left, x) == NIL && Get(right, x) == NIL && Get(parent, x) == NIL
      ensures shape == Cell(Empty, x, Empty) && x < |data|
      ensures Before(x) == [] && After(x) == [] && Remove(Sub(x), data[x]) == []
    {
      if x != Top(shape) {
        DepthParent(shape, NIL, parent, x);
      }
      LeafAt(shape, K(), x);
      SubFacts(x);
    }

    /** The subtree at the top is the whole tree. */
    lemma TopSub()
      requires Wired() && shape.Cell?
      ensures Top(shape) in Nodes() && Get(parent, Top(shape)) == NIL
      ensures Before(Top(shape)) == [] && After(Top(shape)) == [] && Sub(Top(shape)) == Seq()
    {
    }

    /** `delete(node, val)` at node level: the value leaves the subtree at
      * `node` (if it was there) and the tree stays a red-black tree. The
      * result is the node's parent if it has one, else the node itself;
      * `NIL` when the node was a lone black leaf, now removed. */
    method DeleteFrom(node: nat, v: int) returns (r: int)
      requires Wired() && RB(Nodes(), K(), color, bh) && node in Nodes() && StrictlyAscending(Sub(node))
      modifies this
      decreases SubAt(shape, node), 2
      ensures Wired() && RB(Nodes(), K(), color, bh) && root == old(root) && |data| == old(|data|)
      ensures Seq() == old(Before(node)) + Remove(old(Sub(node)), v) + old(After(node))
      ensures Nodes() <= old(Nodes()) && old(Nodes() - Ids(SubAt(shape, node))) <= Nodes()
      ensures r != NIL ==> r == Recovered(K(), node)
      ensures old(Get(parent, node)) == NIL ==> (r == NIL <==> Nodes() == {}) && (r != NIL ==> node in Nodes())
      ensures v !in old(Sub(node)) ==> shape == old(shape) && K() == old(K()) && color == old(color) && data == old(data) && bh == old(bh)
    {
      SubFacts(node);
      if data[node] == v {
        var emptied := DeleteHere(node);
        if emptied {
          return NIL;
        }
      } else {
        DescendFrom(node, v);
      }
      var up := parent[node];
      r := if up != NIL then up else node;
    }

    /** `delete` at the node that holds the value. It reports whether the
      * node was a lone black leaf, which the source answers with `None`. */
    method DeleteHere(node: nat) returns (emptied: bool)
      requires Wired() && RB(Nodes(), K(), color, bh) && node in Nodes() && StrictlyAscending(Sub(node))
      modifies this
      decreases SubAt(shape, node), 1
      ensures Wired() && RB(Nodes(), K(), color, bh) && root == old(root) && |data| == old(|data|)
      ensures node < |data| && Seq() == old(Before(node)) + Remove(old(Sub(node)), old(data)[node]) + old(After(node))
      ensures Nodes() <= old(Nodes()) && old(Nodes() - Ids(SubAt(shape, node))) <= Nodes()
      ensures emptied ==> Nodes() == {}
      ensures old(Get(parent, node)) == NIL ==> (emptied <==> Nodes() == {}) && (!emptied ==> node in Nodes())
    {
      Settle();
      SubFacts(node);
      var l, rt := left[node], right[node];
      emptied := false;
      if l != NIL && rt != NIL {
        ReplaceByPredecessor(node);
      } else if color[node] == Red {
        CutRedLeaf(node);
      } else if l == NIL && rt == NIL {
        if parent[node] == NIL {
          LoneRoot(node);
          shape := Empty;
          emptied := true;
        } else {
          CutBlackLeaf(node);
        }
      } else {
        SpliceChildUp(node);
      }
    }

    /** A node with two children takes the largest value of its left
      * subtree, which is then deleted from that subtree. */
    method ReplaceByPredecessor(node: nat)
      requires Wired() && RB(Nodes(), K(), color, bh) && node in Nodes() && StrictlyAscending(Sub(node))
      requires Get(left, node) != NIL && Get(right, node) != NIL
      modifies this
      decreases SubAt(shape, node), 0
      ensures Wired() && RB(Nodes(), K(), color, bh) && root == old(root) && |data| == old(|data|)
      ensures node < |data| && Seq() == old(Before(node)) + Remove(old(Sub(node)), old(data)[node]) + old(After(node))
      ensures Nodes() <= old(Nodes()) && old(Nodes() - Ids(SubAt(shape, node))) <= Nodes()
      ensures node in Nodes()
    {
      SubFacts(node);
      SubAtFacts(shape, node);
      var l := left[node];
      assert node !in Ids(SubAt(shape, l));
      var m := TakePredecessor(node);
      var _ := DeleteFrom(l, m);
    }

    /** The value of `node` is overwritten by `get_max` of its left
      * subtree: deleting that maximum from the left subtree then deletes
      * the node's old value from the whole subtree. */
    method TakePredecessor(node: nat) returns (m: int)
      requires Wired() && node in Nodes() && StrictlyAscending(Sub(node))
      requires Get(left, node) != NIL && Get(right, node) != NIL
      modifies this`data
      ensures Wired() && |data| == old(|data|) && node < |data| && left[node] in Nodes()
      ensures data == old(data)[node := m] && m in old(Sub(left[node]))
      ensures forall y | y in old(Sub(left[node])) :: y <= m
      ensures StrictlyAscending(Sub(left[node]))
      ensures Before(left[node]) + Remove(Sub(left[node]), m) + After(left[node])
        == old(Before(node)) + Remove(old(Sub(node)), old(data)[node]) + old(After(node))
    {
      SubFacts(node);
      var l := left[node];
      m := GetMax(l);
      PredecessorSwap(node, m);
      data := data[node := m];
    }

    /** Once `x` holds the maximum `m` of its left subtree, deleting `m`
      * from that subtree leaves the values that deleting the old value of
      * `x` from its own subtree would. */
    lemma PredecessorSwap(x: nat, m: int)
      requires Wired() && x in Nodes() && StrictlyAscending(Sub(x))
      requires Get(left, x) != NIL && Get(right, x) != NIL
      requires var a := Sub(Get(left, x)); a != [] && m == a[|a| - 1]
      ensures x < |data| && left[x] in Nodes()
      ensures m in Sub(left[x]) && forall y | y in Sub(left[x]) :: y <= m
      ensures var l, d := left[x], data[x := m];
        && StrictlyAscending(Vals(InOrderIds(SubAt(shape, l)), d))
        && Vals(Prefix(shape, l), d) + Remove(Vals(InOrderIds(SubAt(shape, l)), d), m) + Vals(Suffix(shape, l), d)
           == Before(x) + Remove(Sub(x), data[x]) + After(x)
    {
      SubFacts(x);
      var l := left[x];
      AscendingParts(Sub(l), data[x], Sub(right[x]));
      GetMaxLargest(l);
      assert GetMax(l) == m;
      PredecessorValues(x, m);
      var before, after, a, d, b := Before(x), After(x), Sub(l), data[x], Sub(right[x]);
      RemoveByPredecessor(a, d, b, m);
      var r := Remove(a, m);
      Assoc(before + r, [m] + b, after);
      Assoc(before, r, [m] + b);
      Assoc(r, [m], b);
    }

    /** `delete` at a node that does not hold the value: on to the child
      * the comparison names, if there is one. */
    method DescendFrom(node: nat, v: int)
      requires Wired() && RB(Nodes(), K(), color, bh) && node in Nodes() && StrictlyAscending(Sub(node))
      requires node < |data| && data[node] != v
      modifies this
      decreases SubAt(shape, node), 1
      ensures Wired() && RB(Nodes(), K(), color, bh) && root == old(root) && |data| == old(|data|)
      ensures Seq() == old(Before(node)) + Remove(old(Sub(node)), v) + old(After(node))
      ensures Nodes() <= old(Nodes()) && old(Nodes() - Ids(SubAt(shape, node))) <= Nodes()
      ensures node in Nodes()
      ensures v !in old(Sub(node)) ==> shape == old(shape) && K() == old(K()) && color == old(color) && data == old(data) && bh == old(bh)
    {
      SubFacts(node);
      SubAtFacts(shape, node);
      if data[node] > v {
        DescendLeft(node, v);
        var l := left[node];
        if l != NIL {
          var _ := DeleteFrom(l, v);
        } else {
          Around(node);
        }
      } else {
        DescendRight(node, v);
        var rt := right[node];
        if rt != NIL {
          var _ := DeleteFrom(rt, v);
        } else {
          Around(node);
        }
      }
    }

    // -------------------------------------------------------------------
    // Tree-level delete

    /** `RedBlackTree::delete`, with the root recovered correctly: the value
      * is gone, the rest stay, and the tree is again a red-black tree
      * whose root is the top of the arena. */
    method Delete(v: int)
      requires Valid()
      modifies this
      ensures Valid()
      ensures Seq() == Remove(old(Seq()), v)
      ensures Values(Abs()) == old(Values(Abs())) - {v}
      ensures Len(Abs()) == if v in old(Values(Abs())) then old(Len(Abs())) - 1 else old(Len(Abs()))
      ensures !Contains(Abs(), v)
      ensures v !in old(Seq()) ==> shape == old(shape) && K() == old(K()) && color == old(color) && data == old(data) && bh == old(bh) && root == old(root)
    {
      ghost var t0 := Abs();
      ViewInOrder(shape, data, color);
      if root != NIL {
        TopSub();
        ghost var absent := v !in Seq();
        ghost var top := root;
        var r := DeleteFrom(root, v);
        assert absent ==> top in Nodes() && r != NIL;
        if r == NIL {
          root := NIL;
        } else {
          Settle();
          Family(Nodes(), K(), root);
          root := Climb(r);
        }
      }
      ViewInOrder(shape, data, color);
      RemovedTree(t0, v, Abs());
    }

    /** From any node, follow parent links up to the top. */
    method Climb(n: nat) returns (t: nat)
      requires Wired() && n in Nodes()
      ensures t == Top(shape)
    {
      Settle();
      t := n;
      while parent[t] != NIL
        invariant t in Nodes()
        decreases Depth(shape, t)
      {
        DepthParent(shape, NIL, parent, t);
        t := parent[t];
      }
      if t != Top(shape) {
        DepthParent(shape, NIL, parent, t);
      }
    }

    /** `RedBlackTree::delete` as written: the root becomes what node-level
      * `delete` returns, the old root's parent if it has one, else the old
      * root (or nothing, once the tree is empty). The values and the colour
      * properties are right; the root need not be the top of the arena. */
    method DeleteAsWritten(v: int)
      requires Valid()
      modifies this
      ensures Wired() && RB(Nodes(), K(), color, bh)
      ensures Seq() == Remove(old(Seq()), v) && StrictlyAscending(Seq())
      ensures old(root) == NIL ==> root == NIL && Nodes() == {}
      ensures old(root) != NIL ==> root == if Nodes() == {} then NIL else Recovered(K(), old(root))
    {
      ghost var s0 := Seq();
      if root != NIL {
        TopSub();
        var r := DeleteFrom(root, v);
        root := r;
      }
      RemoveAscending(s0, v);
    }
  }

  /** Outside a shape's nodes there is no subtree. */
  lemma {:induction false} SubAtAbsent(s: Shape, x: int)
    requires x !in Ids(s)
    ensures SubAt(s, x) == Empty
  {
    match s
    case Empty =>
    case Cell(l, i, r) =>
      SubAtAbsent(r, x);
  }

  /** A tree whose in-order values are those of a leaf insertion into a
    * search tree ascends strictly and holds one value more. */
  lemma AscendingInsert(t: Tree<Color>, v: int, t': Tree<Color>)
    requires StrictlyAscending(InOrder(t)) && InOrder(t') == InOrder(LeafInsert(t, v, Red))
    ensures StrictlyAscending(InOrder(t')) && Values(t') == Values(t) + {v}
  {
    InsertAscends(t, v);
    SameValues(t', LeafInsert(t, v, Red));
  }

  /** Trees visited in the same order hold the same values. */
  lemma SameValues(t: Tree<Color>, u: Tree<Color>)
    requires InOrder(t) == InOrder(u)
    ensures Values(t) == Values(u)
  {
    ValuesInOrder(t);
    ValuesInOrder(u);
    forall y ensures y in Values(t) <==> y in Values(u) {
      assert y in Values(t) <==> y in InOrder(t);
      assert y in Values(u) <==> y in InOrder(u);
    }
  }

  /** The link rotations and the value-level rotations agree: viewing the
    * shape a rotation produces gives the rotated view of the old shape. */
  lemma {:induction false} RotationViews<M>(s: Shape, data: seq<int>, meta: seq<M>)
    requires Within(s, |data|) && |meta| == |data|
    ensures Within(RotLeftShape(s), |data|) && Within(RotRightShape(s), |data|)
    ensures s.Cell? && s.r.Cell? ==> var t := View(s, data, meta);
      t.Node? && t.right.Node? && View(RotLeftShape(s), data, meta) == RotatedLeft(t)
    ensures s.Cell? && s.l.Cell? ==> var t := View(s, data, meta);
      t.Node? && t.left.Node? && View(RotRightShape(s), data, meta) == RotatedRight(t)
  {
    if s.Cell? {
      var Cell(l, x, r) := s;
      assert View(s, data, meta) == Node(View(l, data, meta), data[x], meta[x], View(r, data, meta));
    }
  }

  /** Leaf insertion keeps a search tree's in-order values ascending. */
  lemma InsertAscends(t: Tree<Color>, v: int)
    requires StrictlyAscending(InOrder(t))
    ensures StrictlyAscending(InOrder(LeafInsert(t, v, Red)))
  {
    OrderedIffAscending(t);
    LeafInsertOrdered(t, v, Red);
    OrderedIffAscending(LeafInsert(t, v, Red));
  }

  /** A tree whose in-order values are those of an ordered tree without
    * `v`: ordered, `v` gone, and one node fewer exactly when `v` was there. */
  lemma RemovedTree(t: Tree<Color>, v: int, t': Tree<Color>)
    requires StrictlyAscending(InOrder(t)) && InOrder(t') == Remove(InOrder(t), v)
    ensures StrictlyAscending(InOrder(t')) && Values(t') == Values(t) - {v}
    ensures Len(t') == if v in Values(t) then Len(t) - 1 else Len(t)
    ensures !Contains(t', v)
  {
    var s, s' := InOrder(t), InOrder(t');
    RemoveAscending(s, v);
    RemoveMembers(s, v);
    ValuesInOrder(t);
    ValuesInOrder(t');
    forall y ensures y in Values(t') <==> y in Values(t) && y != v {
      assert y in Values(t') <==> y in s';
      assert y in Values(t) <==> y in s;
    }
  }

  /** The first node of an empty tree: a black cell `|data|` holding `v`,
    * with no children and no parent, is a one-node red-black tree. */
  lemma PlantRoot(k: Links, C: seq<Color>, B: seq<nat>, data: seq<int>, v: int)
    requires |data| == |C| == |B| == |k.left| == |k.right| == |k.parent|
    ensures var n := |data|; var s := Cell(Empty, n, Empty);
      var k' := Links(k.left + [NIL], k.right + [NIL], k.parent + [NIL]);
      && Linked(s, k') && RB(Ids(s), k', C + [Black], B + [0])
      && Vals(InOrderIds(s), data + [v]) == [v]
  {
    var n := |data|;
    var k' := Links(k.left + [NIL], k.right + [NIL], k.parent + [NIL]);
    assert Fits(k', C + [Black], B + [0], NIL, n);
    assert RedOkAt(k', C + [Black], NIL, n) && TopOk(k', C + [Black], NIL, n);
  }

  /** Hanging a new red node `|data|` with value `v` in the empty slot
    * below `x` that ends the search path of `v`: the arena stays well
    * linked, its view is the leaf insertion of `v`, and `insert_repair`
    * can start from the new node. */
  lemma HangRed(s: Shape, k: Links, C: seq<Color>, B: seq<nat>, data: seq<int>, v: int, x: nat)
    requires Linked(s, k) && |data| == |C| == |B| == |k.left| && RB(Ids(s), k, C, B)
    requires x in Ids(s) && OnPath(s, data, v, x) && data[x] != v
    requires if v < data[x] then Get(k.left, x) == NIL else Get(k.right, x) == NIL
    ensures var n := |data|; var s' := InsertShape(s, data, v, n); var k' := Hang(k, x, n, v < data[x]);
      && Linked(s', k') && Ids(s') == Ids(s) + {n} && Top(s') == Top(s)
      && InsertInv(Ids(s'), k', C + [Red], B + [0], n)
      && Within(s', |data| + 1)
      && View(s', data + [v], C + [Red]) == LeafInsert(View(s, data, C), v, Red)
  {
    var n := |data|;
    var toLeft := v < data[x];
    var k' := Hang(k, x, n, toLeft);
    LinkedConsistent(s, k);
    AttachLeaf(s, data, k.left, k.right, k'.left, k'.right, v, x, n);
    SubAtFacts(s, x);
    SubAtHangs(s, x, k.left, k.right);
    AttachLeafParents(s, data, k.parent, NIL, v, x, n);
    AttachRed(Ids(s), k, C, B, x, toLeft);
    ViewInsert(s, data, C, v, Red);
  }
}
