/** The link edits of node-level `insert` and `delete` in src/rbtree.rs
  * other than rotations: hanging a new red leaf, cutting a leaf loose,
  * pulling a node's only child up into it, and what each does to the
  * red-black properties; the rotation cases of `insert_repair` with the
  * facts its recursion needs. The last lemma reads the colour checkers of
  * RbColor off a red-black arena. */
module RbEdit {
  import opened Base
  import opened Arena
  import opened RbColor
  import opened RbLinks
  import opened RbInvariant
  import opened RbSteps
  import opened Subtrees

  /** A new node `n`, appended to the arena, hung below `x` on the left
    * (`toLeft`) or on the right, with `x` as its parent. */
  function Hang(k: Links, x: int, n: int, toLeft: bool): (k': Links)
    ensures |k'.left| == |k.left| + 1 && |k'.right| == |k.right| + 1 && |k'.parent| == |k.parent| + 1
  {
    var left, right := k.left + [NIL], k.right + [NIL];
    Links(if toLeft then Put(left, x, n) else left, if toLeft then right else Put(right, x, n), k.parent + [x])
  }

  /** The parent of `x` forgets it: the slot that held `x` becomes empty
    * (the left one when `x` is the left child, else the right one). */
  function Unlink(k: Links, x: int): (k': Links)
    ensures |k'.left| == |k.left| && |k'.right| == |k.right| && k'.parent == k.parent
  {
    var p := Get(k.parent, x);
    if p != NIL && Get(k.left, p) == x then Links(Put(k.left, p, NIL), k.right, k.parent)
    else Links(k.left, Put(k.right, p, NIL), k.parent)
  }

  /** `Unlink`, and `x` forgets its parent too. */
  function Detach(k: Links, x: int): (k': Links)
    ensures |k'.left| == |k.left| && |k'.right| == |k.right| && |k'.parent| == |k.parent|
  {
    var u := Unlink(k, x);
    Links(u.left, u.right, Put(u.parent, x, NIL))
  }

  /** A new red leaf below `x`, in a slot that was empty, breaks at most
    * property 4, and only at the new leaf: the insertion invariant holds. */
  lemma AttachRed(ids: set<nat>, k: Links, C: seq<Color>, B: seq<nat>, x: nat, toLeft: bool)
    requires Sized(ids, k, C, B) && Consistent(ids, k) && RB(ids, k, C, B) && x in ids
    requires if toLeft then Get(k.left, x) == NIL else Get(k.right, x) == NIL
    ensures var n := |C|;
      InsertInv(ids + {n}, Hang(k, x, n, toLeft), C + [Red], B + [0], n)
  {
    var n := |C|;
    var k', C', B' := Hang(k, x, n, toLeft), C + [Red], B + [0];
    assert Col(C', n) == Red && Bh(B', n) == 0 && H(C', B', NIL, n) == 0;
    assert Get(k'.left, n) == NIL && Get(k'.right, n) == NIL && Get(k'.parent, n) == x;
    forall i | i in ids + {n}
      ensures Fits(k', C', B', NIL, i) && RedOkAt(k', C', n, i) && TopOk(k', C', n, i)
    {
      if i != n {
        assert Agrees(ids, k, i) && Fits(k, C, B, NIL, i) && RedOkAt(k, C, NIL, i) && TopOk(k, C, NIL, i);
        var l, r := Get(k.left, i), Get(k.right, i);
        assert Col(C', i) == Col(C, i) && Bh(B', i) == Bh(B, i) && Get(k'.parent, i) == Get(k.parent, i);
        if i == x {
          if toLeft {
            assert Get(k'.left, i) == n && Get(k'.right, i) == r;
            assert r != NIL ==> Col(C', r) == Col(C, r) && Bh(B', r) == Bh(B, r);
          } else {
            assert Get(k'.right, i) == n && Get(k'.left, i) == l;
            assert l != NIL ==> Col(C', l) == Col(C, l) && Bh(B', l) == Bh(B, l);
          }
        } else {
          assert Get(k'.left, i) == l && Get(k'.right, i) == r;
          assert l != NIL ==> Col(C', l) == Col(C, l) && Bh(B', l) == Bh(B, l);
          assert r != NIL ==> Col(C', r) == Col(C, r) && Bh(B', r) == Bh(B, r);
        }
      }
    }
  }

  /** A node with at most one child: a red one is a leaf; a black one with
    * a child has black height 0 and its child is a red leaf. */
  lemma ShortNode(ids: set<nat>, k: Links, C: seq<Color>, B: seq<nat>, x: nat)
    requires Sized(ids, k, C, B) && Consistent(ids, k) && RB(ids, k, C, B) && x in ids
    requires Get(k.left, x) == NIL || Get(k.right, x) == NIL
    ensures Bh(B, x) == 0
    ensures Col(C, x) == Red ==> Get(k.left, x) == NIL && Get(k.right, x) == NIL
    ensures var c := if Get(k.left, x) != NIL then Get(k.left, x) else Get(k.right, x);
      c != NIL ==> && c in ids && Col(C, c) == Red && Bh(B, c) == 0
                   && Get(k.left, c) == NIL && Get(k.right, c) == NIL && Get(k.parent, c) == x
  {
    assert Agrees(ids, k, x) && Fits(k, C, B, NIL, x) && RedOkAt(k, C, NIL, x);
    var c := if Get(k.left, x) != NIL then Get(k.left, x) else Get(k.right, x);
    if c != NIL {
      assert Agrees(ids, k, c) && Fits(k, C, B, NIL, c) && RedOkAt(k, C, NIL, c);
      var l, r := Get(k.left, c), Get(k.right, c);
      assert l != NIL ==> Agrees(ids, k, l);
      assert r != NIL ==> Agrees(ids, k, r);
    }
  }

  /** A red leaf cut loose from its parent leaves a red-black tree. */
  lemma RemoveRedLeaf(ids: set<nat>, k: Links, C: seq<Color>, B: seq<nat>, x: nat)
    requires Sized(ids, k, C, B) && Consistent(ids, k) && RB(ids, k, C, B) && x in ids
    requires Col(C, x) == Red && Get(k.left, x) == NIL && Get(k.right, x) == NIL
    ensures Get(k.parent, x) != NIL
    ensures RB(ids - {x}, Unlink(k, x), C, B)
  {
    assert Agrees(ids, k, x) && Fits(k, C, B, NIL, x) && TopOk(k, C, NIL, x);
    var p := Get(k.parent, x);
    var k' := Unlink(k, x);
    forall i | i in ids - {x}
      ensures Fits(k', C, B, NIL, i) && RedOkAt(k', C, NIL, i) && TopOk(k', C, NIL, i)
    {
      assert Agrees(ids, k, i) && Fits(k, C, B, NIL, i) && RedOkAt(k, C, NIL, i) && TopOk(k, C, NIL, i);
    }
  }

  /** A black node `x` whose only child `c` is a red leaf takes over the
    * child's (empty) links; without `c` the arena is a red-black tree. */
  lemma SpliceChild(ids: set<nat>, k: Links, C: seq<Color>, B: seq<nat>, x: nat, c: nat, k': Links)
    requires Sized(ids, k, C, B) && Consistent(ids, k) && RB(ids, k, C, B) && x in ids && c in ids
    requires Col(C, x) == Black && Bh(B, x) == 0 && Get(k.parent, c) == x
    requires Get(k.left, x) == c || Get(k.right, x) == c
    requires Get(k.left, c) == NIL && Get(k.right, c) == NIL
    requires k' == Links(Put(k.left, x, NIL), Put(k.right, x, NIL), k.parent)
    ensures RB(ids - {c}, k', C, B)
  {
    forall i | i in ids - {c}
      ensures Fits(k', C, B, NIL, i) && RedOkAt(k', C, NIL, i) && TopOk(k', C, NIL, i)
    {
      assert Agrees(ids, k, i) && Fits(k, C, B, NIL, i) && RedOkAt(k, C, NIL, i) && TopOk(k, C, NIL, i);
    }
  }

  /** A black leaf with a parent is where `delete_repair` starts: removing
    * it would leave its parent one black node short on its side. */
  lemma StartDelete(ids: set<nat>, k: Links, C: seq<Color>, B: seq<nat>, x: nat)
    requires Sized(ids, k, C, B) && Consistent(ids, k) && RB(ids, k, C, B) && x in ids
    requires Col(C, x) == Black && Get(k.left, x) == NIL && Get(k.right, x) == NIL && Get(k.parent, x) != NIL
    ensures DeleteInv(ids, k, C, B, x, x)
  {
    assert Agrees(ids, k, x) && Fits(k, C, B, NIL, x);
    var g := Get(k.parent, x);
    assert Agrees(ids, k, g) && Fits(k, C, B, NIL, g);
    forall i | i in ids && i != g ensures Fits(k, C, B, x, i) {
      assert Agrees(ids, k, i) && Fits(k, C, B, NIL, i);
    }
  }

  /** Once repaired, the doomed leaf can be cut loose (and forget its
    * parent): what remains is a red-black tree. */
  lemma RemoveGone(ids: set<nat>, k: Links, C: seq<Color>, B: seq<nat>, gone: nat)
    requires Sized(ids, k, C, B) && Consistent(ids, k) && Repaired(ids, k, C, B, gone)
    ensures RB(ids - {gone}, Detach(k, gone), C, B)
  {
    assert Agrees(ids, k, gone);
    var k' := Detach(k, gone);
    forall i | i in ids - {gone}
      ensures Fits(k', C, B, NIL, i) && RedOkAt(k', C, NIL, i) && TopOk(k', C, NIL, i)
    {
      assert Agrees(ids, k, i) && Fits(k, C, B, gone, i) && RedOkAt(k, C, NIL, i) && TopOk(k, C, NIL, i);
    }
  }

  /** Below a red-black arena, the value-level checkers agree: `black_height`
    * returns one more than the top's black-node count, `check_coloring`
    * succeeds and `color` reads the top's colour. */
  lemma {:induction false} ViewColors(ids: set<nat>, k: Links, C: seq<Color>, B: seq<nat>, t: Shape, data: seq<int>)
    requires Sized(ids, k, C, B) && RB(ids, k, C, B) && Ids(t) <= ids && |data| == |C|
    requires Distinct(t) && Hangs(t, k.left, k.right)
    ensures Within(t, |data|)
    ensures BlackHeight(View(t, data, C)) == Some(BH(C, B, Top(t)) + 1)
    ensures ColorOf(View(t, data, C)) == Col(C, Top(t))
    ensures t.Cell? ==> CheckColoring(View(t, data, C))
  {
    match t
    case Empty =>
    case Cell(l, i, r) =>
      ViewColors(ids, k, C, B, l, data);
      ViewColors(ids, k, C, B, r, data);
      assert Fits(k, C, B, NIL, i) && RedOkAt(k, C, NIL, i);
  }

  // ---------------------------------------------------------------------
  // The shapes left by the removals of node-level `delete`

  /** The subtree at a node without children is that node alone, and
    * grafting nothing in its place closes its gap in in-order position. */
  lemma LeafAt(s: Shape, k: Links, x: nat)
    requires Linked(s, k) && x in Ids(s) && Get(k.left, x) == NIL && Get(k.right, x) == NIL
    ensures SubAt(s, x) == Cell(Empty, x, Empty)
    ensures InOrderIds(s) == Prefix(s, x) + [x] + Suffix(s, x)
    ensures InOrderIds(Graft(s, x, Empty)) == Prefix(s, x) + Suffix(s, x)
  {
    SubAtFacts(s, x);
    SubAtHangs(s, x, k.left, k.right);
    var sx := SubAt(s, x);
    assert sx.l == Empty && sx.r == Empty;
    GraftInOrder(s, x, Empty);
    SplitAt(s, x);
  }

  /** Cutting the leaf `x` loose from its parent (and, or not, `x` from
    * its parent) leaves the arena describing the shape without `x`. */
  lemma CutLeafLinked(s: Shape, k: Links, x: nat, k': Links)
    requires Linked(s, k) && x in Ids(s) && Get(k.left, x) == NIL && Get(k.right, x) == NIL
    requires Get(k.parent, x) != NIL
    requires k' == Unlink(k, x) || k' == Detach(k, x)
    ensures var s' := Graft(s, x, Empty);
      && Linked(s', k') && Ids(s') == Ids(s) - {x} && Top(s') == Top(s)
  {
    LeafAt(s, k, x);
    assert x != Top(s);
    if k' == Unlink(k, x) {
      GraftRelink(s, x, Empty, k, k');
    } else {
      GraftRelink(s, x, Empty, k, k');
    }
  }

  /** A leaf keeps its place in in-order position across a change of
    * shape that keeps the in-order sequence of nodes. */
  lemma LeafSplitSame(s: Shape, k: Links, t: Shape, k2: Links, x: nat)
    requires Linked(s, k) && Linked(t, k2) && x in Ids(s) && x in Ids(t)
    requires Get(k.left, x) == NIL && Get(k.right, x) == NIL
    requires Get(k2.left, x) == NIL && Get(k2.right, x) == NIL
    requires InOrderIds(s) == InOrderIds(t)
    ensures SubAt(s, x) == SubAt(t, x) && Prefix(s, x) == Prefix(t, x) && Suffix(s, x) == Suffix(t, x)
  {
    LeafAt(s, k, x);
    LeafAt(t, k2, x);
    AroundOutside(s, x);
    AroundOutside(t, x);
    SplitUnique(Prefix(s, x), Suffix(s, x), Prefix(t, x), Suffix(t, x), x);
  }

  /** The subtree at a node whose only child `c` is a leaf: the two of
    * them, `c` on the side `toLeft` says. */
  lemma OnlyChildShape(s: Shape, k: Links, x: nat, c: nat, toLeft: bool)
    requires Linked(s, k) && x in Ids(s)
    requires if toLeft then Get(k.left, x) == c && Get(k.right, x) == NIL
             else Get(k.right, x) == c && Get(k.left, x) == NIL
    requires Get(k.left, c) == NIL && Get(k.right, c) == NIL
    ensures SubAt(s, x) == if toLeft then Cell(Cell(Empty, c, Empty), x, Empty)
                           else Cell(Empty, x, Cell(Empty, c, Empty))
  {
    SubAtFacts(s, x);
    SubAtHangs(s, x, k.left, k.right);
    var sx := SubAt(s, x);
    if toLeft {
      assert sx.r == Empty && sx.l.Cell? && sx.l.id == c;
      assert Hangs(sx.l, k.left, k.right);
    } else {
      assert sx.l == Empty && sx.r.Cell? && sx.r.id == c;
      assert Hangs(sx.r, k.left, k.right);
    }
  }

  /** That node and its child in in-order position, before and after the
    * node is left standing alone. */
  lemma OnlyChildAt(s: Shape, k: Links, x: nat, c: nat, toLeft: bool)
    requires Linked(s, k) && x in Ids(s)
    requires if toLeft then Get(k.left, x) == c && Get(k.right, x) == NIL
             else Get(k.right, x) == c && Get(k.left, x) == NIL
    requires Get(k.left, c) == NIL && Get(k.right, c) == NIL
    ensures Ids(SubAt(s, x)) == {x, c} && x != c
    ensures InOrderIds(s) == Prefix(s, x) + (if toLeft then [c, x] else [x, c]) + Suffix(s, x)
    ensures InOrderIds(Graft(s, x, Cell(Empty, x, Empty))) == Prefix(s, x) + [x] + Suffix(s, x)
  {
    OnlyChildShape(s, k, x, c, toLeft);
    SubAtFacts(s, x);
    var t := SubAt(s, x);
    if toLeft {
      assert InOrderIds(t.l) == [c];
      assert InOrderIds(t) == [c, x];
    } else {
      assert InOrderIds(t.r) == [c];
      assert InOrderIds(t) == [x, c];
    }
    SplitAt(s, x);
    assert InOrderIds(Cell(Empty, x, Empty)) == [x];
    GraftInOrder(s, x, Cell(Empty, x, Empty));
  }

  /** A node of a well-linked arena with a parent is one of its children. */
  lemma ParentSlot(s: Shape, k: Links, x: nat)
    requires Linked(s, k) && x in Ids(s) && Get(k.parent, x) != NIL
    ensures var q := k.parent[x]; q in Ids(s) && q != x && (k.left[q] == x || k.right[q] == x)
  {
    LinkedConsistent(s, k);
    assert Agrees(Ids(s), k, x);
    assert Agrees(Ids(s), k, k.parent[x]);
  }

  /** The node, with both its slots emptied, stands alone where its
    * subtree was, and `c` leaves the shape. */
  lemma SpliceLinked(s: Shape, k: Links, x: nat, c: nat, toLeft: bool, k': Links)
    requires Linked(s, k) && x in Ids(s)
    requires if toLeft then Get(k.left, x) == c && Get(k.right, x) == NIL
             else Get(k.right, x) == c && Get(k.left, x) == NIL
    requires Get(k.left, c) == NIL && Get(k.right, c) == NIL
    requires k' == Links(Put(k.left, x, NIL), Put(k.right, x, NIL), k.parent)
    ensures var s' := Graft(s, x, Cell(Empty, x, Empty));
      Linked(s', k') && Ids(s') == Ids(s) - {c} && Top(s') == Top(s)
  {
    OnlyChildShape(s, k, x, c, toLeft);
    SubAtFacts(s, x);
    if k.parent[x] != NIL {
      ParentSlot(s, k, x);
    }
    GraftRelink(s, x, Cell(Empty, x, Empty), k, k');
  }

  // ---------------------------------------------------------------------
  // The rotation cases of `insert_repair`

  /** `n` and its parent lean opposite ways: the first two rotation
    * cases of `insert_repair`. */
  predicate Inner(k: Links, n: int)
  {
    var p := Get(k.parent, n);
    (IsLeft(k, n) && IsRight(k, p)) || (IsRight(k, n) && IsLeft(k, p))
  }

  /** `n` the right child of a red left child `p`: rotating left at `p`
    * makes `p` the left child of `n`, no longer an inner case, and `p`
    * takes over the role of `n`. */
  lemma InnerRotation(ids: set<nat>, k: Links, C: seq<Color>, B: seq<nat>, D: seq<nat>, n: nat)
    requires InsertAt(ids, k, C, B, D, n)
    requires Get(k.parent, n) != NIL && Col(C, Get(k.parent, n)) == Red
    requires IsRight(k, n) && IsLeft(k, Get(k.parent, n))
    ensures var p := Get(k.parent, n); var k' := RotateLeft(k, p);
      && p in ids && Get(k.right, p) != NIL
      && InsertInv(ids, k', C, B, p) && Get(k'.left, n) == p && !Inner(k', p)
  {
    var p := Get(k.parent, n);
    assert Agrees(ids, k, n) && Agrees(ids, k, p) && Below(k, D, n) && Below(k, D, p);
    var g := Get(k.parent, p);
    assert Agrees(ids, k, g);
    RotateLeftIs(ids, k, D, p);
    InsertInner(ids, k, C, B, D, n, RotateLeft(k, p));
  }

  /** The mirror image of `InnerRotation`. */
  lemma InnerRotationMirror(ids: set<nat>, k: Links, C: seq<Color>, B: seq<nat>, D: seq<nat>, n: nat)
    requires InsertAt(ids, k, C, B, D, n)
    requires Get(k.parent, n) != NIL && Col(C, Get(k.parent, n)) == Red
    requires IsLeft(k, n) && IsRight(k, Get(k.parent, n))
    ensures var p := Get(k.parent, n); var k' := RotateRight(k, p);
      && p in ids && Get(k.left, p) != NIL
      && InsertInv(ids, k', C, B, p) && Get(k'.right, n) == p && !Inner(k', p)
  {
    var p := Get(k.parent, n);
    assert Agrees(ids, k, n) && Agrees(ids, k, p) && Below(k, D, n) && Below(k, D, p);
    var g := Get(k.parent, p);
    assert Agrees(ids, k, g);
    RotateRightIs(ids, k, D, p);
    InsertInnerMirror(ids, k, C, B, D, n, RotateRight(k, p));
  }

  /** `n` the right child of a red right child `p` of `g`, under a black
    * uncle: a left rotation at `g` keeps `n` below `p` and puts `g` to the
    * left of `p`; painting `p` black and `g` red leaves a red-black tree. */
  lemma OuterRotation(ids: set<nat>, k: Links, C: seq<Color>, B: seq<nat>, D: seq<nat>, n: nat)
    requires OuterCase(ids, k, C, B, D, n)
    ensures var p := Get(k.parent, n); var g := Get(k.parent, p); var k' := RotateLeft(k, g);
      && g in ids && Get(k.right, g) == p
      && Get(k'.parent, n) == p && Get(k'.left, p) == g && Get(k'.parent, g) == p
      && RB(ids, k', Paint(Paint(C, p, Black), g, Red), B)
  {
    var p := Get(k.parent, n);
    assert Agrees(ids, k, n) && Agrees(ids, k, p) && Below(k, D, n) && Below(k, D, p) && TopOk(k, C, n, p);
    var g := Get(k.parent, p);
    assert Agrees(ids, k, g);
    RotateLeftIs(ids, k, D, g);
    InsertOuter(ids, k, C, B, D, n, RotateLeft(k, g));
    assert SameParent(k, RotateLeft(k, g), n);
  }

  /** The mirror image of `OuterRotation`: `n` the left child of a red
    * left child, rotating right at the grandparent. */
  lemma OuterRotationMirror(ids: set<nat>, k: Links, C: seq<Color>, B: seq<nat>, D: seq<nat>, n: nat)
    requires InsertAt(ids, k, C, B, D, n)
    requires var p := Get(k.parent, n);
      && p != NIL && Col(C, p) == Red && Get(k.left, p) == n
      && Get(k.left, Get(k.parent, p)) == p && Col(C, Get(k.right, Get(k.parent, p))) == Black
    ensures var p := Get(k.parent, n); var g := Get(k.parent, p); var k' := RotateRight(k, g);
      && g in ids && Get(k.left, g) == p
      && Get(k'.parent, n) == p && Get(k'.right, p) == g && Get(k'.parent, g) == p
      && RB(ids, k', Paint(Paint(C, p, Black), g, Red), B)
  {
    var p := Get(k.parent, n);
    assert Agrees(ids, k, n) && Agrees(ids, k, p) && Below(k, D, n) && Below(k, D, p) && TopOk(k, C, n, p);
    var g := Get(k.parent, p);
    assert Agrees(ids, k, g);
    SwapInvariants(ids, k, C, B, NIL, NIL, n);
    SwapRanked(ids, k, D);
    assert OuterCase(ids, Swap(k), C, B, D, n);
    RotateRightIs(ids, k, D, g);
    InsertOuterMirror(ids, k, C, B, D, n, RotateRight(k, g));
    assert SameParent(Swap(k), Swap(RotateRight(k, g)), n);
  }

  /** A rotation at `x` sinks `x` one level. */
  lemma RotateDepth(s: Shape, k: Links, x: nat)
    requires Linked(s, k) && x in Ids(s)
    ensures Get(k.right, x) != NIL ==> Depth(Graft(s, x, RotLeftShape(SubAt(s, x))), x) == Depth(s, x) + 1
    ensures Get(k.left, x) != NIL ==> Depth(Graft(s, x, RotRightShape(SubAt(s, x))), x) == Depth(s, x) + 1
  {
    var sx := SubAt(s, x);
    SubAtFacts(s, x);
    if Get(k.right, x) != NIL {
      RotationNodes(s, k, x, true);
      RotShapeFacts(sx);
      var t := RotLeftShape(sx);
      assert t.l.id == x && t.id != x;
      assert Depth(t, x) == 1 + Depth(t.l, x) == 1;
      GraftDepth(s, x, t, x);
    }
    if Get(k.left, x) != NIL {
      RotationNodes(s, k, x, false);
      RotShapeFacts(sx);
      var t := RotRightShape(sx);
      assert t.r.id == x && t.id != x && x !in Ids(t.l);
      assert Depth(t, x) == 1 + Depth(t.r, x) == 1;
      GraftDepth(s, x, t, x);
    }
  }
}
