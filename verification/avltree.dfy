/** AVL tree node machinery (src/avltree.rs). A node stores a height field
  * that only `update_height` writes. Insertion is the plain leaf insertion of
  * the binary search tree: a new node carries stored height 0, and nothing is
  * rotated or re-measured. The rotations keep the node they run on in place,
  * swap its value with the promoted child's and rebuild the links below it;
  * `rebalance` chooses between a single and a double rotation from the
  * balance factors. The value-level functions `LeftRotation`,
  * `RightRotation` and `Rebalanced` specify the arena methods of the class
  * `AVLTree`. */
module AvlTree {
  import opened Base
  import opened Arena
  import opened Subtrees
  import opened BsTree

  /** The balance factor of a node: left height minus right height. */
  function Factor<M>(t: Tree<M>): int
    requires t.Node?
  {
    Height(t.left) - Height(t.right)
  }

  /** The balance factor fits the signed byte the source returns it in. */
  predicate Fits<M>(t: Tree<M>)
  {
    t.Nil? || -127 <= Factor(t) <= 127
  }

  /** The factors `rebalance` computes fit: the node's own, and the heavier
    * child's when the node's is 2 or -2 (the only case that reads it). */
  predicate FactorsFit<M>(t: Tree<M>)
  {
    t.Node? && Fits(t) && (Factor(t) == 2 ==> Fits(t.left)) && (Factor(t) == -2 ==> Fits(t.right))
  }

  /** The AVL balance condition at every node. */
  predicate Balanced<M>(t: Tree<M>)
  {
    match t
    case Nil => true
    case Node(l, _, _, r) => Balanced(l) && Balanced(r) && -1 <= Height(l) - Height(r) <= 1
  }

  /** `rotate_left` on the value level: the right child is promoted and the
    * node demoted to its left; both get stored heights equal to their real
    * heights. Without a right child nothing changes. */
  function LeftRotation(t: Tree<nat>): (r: Tree<nat>)
    ensures InOrder(r) == InOrder(t)
    ensures t.Node? && t.right.Node? ==>
      r.Node? && r.left.Node? && r.meta == Height(r) && r.left.meta == Height(r.left)
    ensures !(t.Node? && t.right.Node?) ==> r == t
  {
    match t
    case Node(a, x, _, Node(b, y, _, c)) =>
      var lower := Node(a, x, Larger(Height(a), Height(b)) + 1, b);
      assert InOrder(t) == InOrder(lower) + [y] + InOrder(c);
      Node(lower, y, Larger(Height(lower), Height(c)) + 1, c)
    case _ => t
  }

  /** `rotate_right` on the value level, the mirror image of `LeftRotation`. */
  function RightRotation(t: Tree<nat>): (r: Tree<nat>)
    ensures InOrder(r) == InOrder(t)
    ensures t.Node? && t.left.Node? ==>
      r.Node? && r.right.Node? && r.meta == Height(r) && r.right.meta == Height(r.right)
    ensures !(t.Node? && t.left.Node?) ==> r == t
  {
    match t
    case Node(Node(a, x, _, b), y, _, c) =>
      var lower := Node(b, y, Larger(Height(b), Height(c)) + 1, c);
      assert InOrder(t) == InOrder(a) + [x] + InOrder(lower);
      Node(a, x, Larger(Height(a), Height(lower)) + 1, lower)
    case _ => t
  }

  /** On a node whose two top stored heights are real, the right rotation
    * undoes the left rotation. */
  lemma {:induction false} RightUndoesLeft(t: Tree<nat>)
    requires t.Node? && t.right.Node? && t.meta == Height(t) && t.right.meta == Height(t.right)
    ensures RightRotation(LeftRotation(t)) == t
  {
  }

  /** And the left rotation undoes the right rotation. */
  lemma {:induction false} LeftUndoesRight(t: Tree<nat>)
    requires t.Node? && t.left.Node? && t.meta == Height(t) && t.left.meta == Height(t.left)
    ensures LeftRotation(RightRotation(t)) == t
  {
  }

  /** `rebalance` on the value level: at factor -2 the right child is first
    * rotated right if its own factor is 1, then the node is rotated left; at
    * factor 2 the mirror image; any other factor leaves the node alone. The
    * flag says whether a rotation took place. */
  function Rebalanced(t: Tree<nat>): (r: (Tree<nat>, bool))
    requires FactorsFit(t)
    ensures r.1 <==> Factor(t) == 2 || Factor(t) == -2
    ensures !r.1 ==> r.0 == t
    ensures InOrder(r.0) == InOrder(t)
  {
    if Factor(t) == -2 then
      var right := if Factor(t.right) == 1 then RightRotation(t.right) else t.right;
      assert InOrder(t.(right := right)) == InOrder(t);
      (LeftRotation(t.(right := right)), true)
    else if Factor(t) == 2 then
      var left := if Factor(t.left) == -1 then LeftRotation(t.left) else t.left;
      assert InOrder(t.(left := left)) == InOrder(t);
      (RightRotation(t.(left := left)), true)
    else
      (t, false)
  }

  /** Rebalancing keeps the binary-search-tree invariant. */
  lemma {:induction false} RebalancedOrdered(t: Tree<nat>)
    requires FactorsFit(t) && Ordered(t)
    ensures Ordered(Rebalanced(t).0)
  {
    OrderedIffAscending(t);
    OrderedIffAscending(Rebalanced(t).0);
  }

  /** A node whose subtrees are AVL-balanced and whose factor is 2 or -2 is
    * balanced by `rebalance`, which lowers it by at most one level. */
  lemma {:induction false} RebalancedBalances(t: Tree<nat>)
    requires t.Node? && Balanced(t.left) && Balanced(t.right) && (Factor(t) == 2 || Factor(t) == -2)
    ensures FactorsFit(t)
    ensures Balanced(Rebalanced(t).0)
    ensures Height(t) - 1 <= Height(Rebalanced(t).0) <= Height(t)
  {
    if Factor(t) == -2 {
      RebalanceRightHeavy(t);
    } else {
      RebalanceLeftHeavy(t);
    }
  }

  lemma {:induction false} RebalanceRightHeavy(t: Tree<nat>)
    requires t.Node? && Balanced(t.left) && Balanced(t.right) && Factor(t) == -2
    ensures FactorsFit(t)
    ensures Balanced(Rebalanced(t).0)
    ensures Height(t) - 1 <= Height(Rebalanced(t).0) <= Height(t)
  {
    var Node(l, x, hx, r) := t;
    var Node(b, y, hy, c) := r;
    if Factor(r) == 1 {
      var Node(b1, z, hz, b2) := b;
      var r' := RightRotation(r);
      assert r' == Node(b1, z, r'.meta, Node(b2, y, r'.right.meta, c));
      var top := LeftRotation(Node(l, x, hx, r'));
      assert top == Node(Node(l, x, top.left.meta, b1), z, top.meta, Node(b2, y, r'.right.meta, c));
      DoubleRotation(l, b1, b2, c, x, z, y, top.left.meta, top.meta, r'.right.meta);
    } else {
      var top := LeftRotation(t);
      assert top == Node(Node(l, x, top.left.meta, b), y, top.meta, c);
      SingleRotation(l, b, c, x, y, top.left.meta, top.meta);
    }
  }

  lemma {:induction false} RebalanceLeftHeavy(t: Tree<nat>)
    requires t.Node? && Balanced(t.left) && Balanced(t.right) && Factor(t) == 2
    ensures FactorsFit(t)
    ensures Balanced(Rebalanced(t).0)
    ensures Height(t) - 1 <= Height(Rebalanced(t).0) <= Height(t)
  {
    var Node(l, y, hy, c) := t;
    var Node(a, x, hx, b) := l;
    if Factor(l) == -1 {
      var Node(b1, z, hz, b2) := b;
      var l' := LeftRotation(l);
      assert l' == Node(Node(a, x, l'.left.meta, b1), z, l'.meta, b2);
      var top := RightRotation(Node(l', y, hy, c));
      assert top == Node(Node(a, x, l'.left.meta, b1), z, top.meta, Node(b2, y, top.right.meta, c));
      DoubleRotation(a, b1, b2, c, x, z, y, l'.left.meta, top.meta, top.right.meta);
    } else {
      var top := RightRotation(t);
      assert top == Node(a, x, top.meta, Node(b, y, top.right.meta, c));
      SingleRotation(a, b, c, x, y, top.meta, top.right.meta);
    }
  }

  /** The result of a single rotation, `(p x q) y r`, is balanced when its
    * parts are and the heights fit. */
  lemma {:induction false} SingleRotation(p: Tree<nat>, q: Tree<nat>, r: Tree<nat>, x: int, y: int, m1: nat, m2: nat)
    requires Balanced(p) && Balanced(q) && Balanced(r)
    requires Height(r) == Height(p) + 1 || Height(p) == Height(r) + 1
    requires Larger(Height(p), Height(r)) - 1 <= Height(q) <= Larger(Height(p), Height(r))
    ensures Height(r) == Height(p) + 1 ==>
      Balanced(Node(Node(p, x, m1, q), y, m2, r)) && Height(Node(Node(p, x, m1, q), y, m2, r)) == Height(q) + 2
    ensures Height(p) == Height(r) + 1 ==>
      Balanced(Node(p, x, m1, Node(q, y, m2, r))) && Height(Node(p, x, m1, Node(q, y, m2, r))) == Height(q) + 2
  {
  }

  /** The result of a double rotation, `(p x q) z (s y r)`, is balanced when
    * its parts are and the heights fit. */
  lemma {:induction false} DoubleRotation(p: Tree<nat>, q: Tree<nat>, s: Tree<nat>, r: Tree<nat>,
                                          x: int, z: int, y: int, m1: nat, m2: nat, m3: nat)
    requires Balanced(p) && Balanced(q) && Balanced(s) && Balanced(r) && Height(p) == Height(r)
    requires Height(p) - 1 <= Height(q) <= Height(p) && Height(p) - 1 <= Height(s) <= Height(p)
    ensures Balanced(Node(Node(p, x, m1, q), z, m2, Node(s, y, m3, r)))
    ensures Height(Node(Node(p, x, m1, q), z, m2, Node(s, y, m3, r))) == Height(p) + 2
  {
  }

  lemma {:induction false} BalancedNode(l: Tree<nat>, d: int, m: nat, r: Tree<nat>)
    requires Balanced(l) && Balanced(r) && -1 <= Height(l) - Height(r) <= 1
    ensures Balanced(Node(l, d, m, r))
  {
  }

  // ---------------------------------------------------------------------
  // The rotations on the arena

  /** Storing a new height at `x` changes only the metadata of the subtree
    * at `x`, and nothing of the in-order sequence. */
  lemma {:induction false} MetaUpdate<M>(s: Shape, d: seq<int>, m: seq<M>, x: nat, k: M)
    requires Within(s, |d|) && |m| == |d| && Distinct(s) && x in Ids(s)
    ensures View(SubAt(s, x), d, m[x := k]) == Node(View(SubAt(s, x).l, d, m), d[x], k, View(SubAt(s, x).r, d, m))
    ensures Local(s, d, m, s, d, m[x := k], x)
    ensures InOrder(View(s, d, m[x := k])) == InOrder(View(s, d, m))
    ensures Ordered(View(s, d, m)) ==> Ordered(View(s, d, m[x := k]))
  {
    SubAtFacts(s, x);
    var sx := SubAt(s, x);
    ViewFrame(sx.l, d, m, d, m[x := k]);
    ViewFrame(sx.r, d, m, d, m[x := k]);
    GraftSelf(s, x);
    ViewInOrder(s, d, m);
    ViewInOrder(s, d, m[x := k]);
    OrderedIffAscending(View(s, d, m));
    OrderedIffAscending(View(s, d, m[x := k]));
  }

  /** The value-level steps of `rotate_left` put together: links and values
    * rearranged (`top1`), the demoted node re-measured (`lower2`, `top2`),
    * then the top node re-measured (`top3`). */
  lemma {:induction false} LeftRotationAssembled(t0: Tree<nat>, top1: Tree<nat>, lower2: Tree<nat>, top2: Tree<nat>, top3: Tree<nat>)
    requires t0.Node? && t0.right.Node?
    requires top1 == Node(Node(t0.left, t0.data, t0.right.meta, t0.right.left), t0.right.data, t0.meta, t0.right.right)
    requires lower2 == top1.left.(meta := Height(lower2))
    requires top2 == Node(lower2, top1.data, top1.meta, top1.right)
    requires top3 == top2.(meta := Height(top3))
    ensures top3 == LeftRotation(t0)
  {
  }

  /** The value-level steps of `rotate_right` put together. */
  lemma {:induction false} RightRotationAssembled(t0: Tree<nat>, top1: Tree<nat>, lower2: Tree<nat>, top2: Tree<nat>, top3: Tree<nat>)
    requires t0.Node? && t0.left.Node?
    requires top1 == Node(t0.left.left, t0.left.data, t0.meta, Node(t0.left.right, t0.data, t0.left.meta, t0.right))
    requires lower2 == top1.right.(meta := Height(lower2))
    requires top2 == Node(top1.left, top1.data, top1.meta, lower2)
    requires top3 == top2.(meta := Height(top3))
    ensures top3 == RightRotation(t0)
  {
  }

  /** Grafting a subtree with the same top and nodes, linked by the new
    * arrays, which agree with the old ones outside it, keeps the arena well
    * formed. */
  lemma {:induction false} GraftWell(s: Shape, d: seq<int>, L: seq<int>, R: seq<int>, x: nat, u: Shape,
                  d': seq<int>, L': seq<int>, R': seq<int>)
    requires WellFormed(s, d, L, R) && x in Ids(s)
    requires Top(u) == x && Ids(u) == Ids(SubAt(s, x)) && Distinct(u) && Hangs(u, L', R')
    requires |L'| == |L| && |R'| == |R| && |d'| == |d|
    requires forall i | 0 <= i < |L| && i !in Ids(SubAt(s, x)) :: L'[i] == L[i] && R'[i] == R[i]
    ensures WellFormed(Graft(s, x, u), d', L', R') && Top(Graft(s, x, u)) == Top(s)
    ensures Ids(Graft(s, x, u)) == Ids(s) && SubAt(Graft(s, x, u), x) == u
  {
    SubAtFacts(s, x);
    GraftHangs(s, x, u, L, R, L', R');
    GraftFacts(s, x, u);
  }

  /** Grafting a subtree with the same in-order sequence, with values and
    * metadata unchanged outside it, is a local change that keeps the
    * binary-search-tree invariant. */
  lemma {:induction false} GraftOrdered<M>(s: Shape, d: seq<int>, m: seq<M>, x: nat, u: Shape, d': seq<int>, m': seq<M>)
    requires Within(s, |d|) && |m| == |d| && |d'| == |d| && |m'| == |d| && Distinct(s) && x in Ids(s)
    requires Top(u) == x && Ids(u) == Ids(SubAt(s, x)) && Distinct(u) && Within(u, |d|)
    requires forall i | i in Ids(s) && i !in Ids(SubAt(s, x)) :: d'[i] == d[i] && m'[i] == m[i]
    requires InOrder(View(u, d', m')) == InOrder(View(SubAt(s, x), d, m))
    requires Ordered(View(s, d, m))
    ensures Within(Graft(s, x, u), |d'|)
    ensures Ordered(View(Graft(s, x, u), d', m')) && Local(s, d, m, Graft(s, x, u), d', m', x)
  {
    SubAtFacts(s, x);
    GraftFacts(s, x, u);
    GraftView(s, d, m, x, u, d', m');
    ViewWithInOrder(s, d, m, x, View(u, d', m'));
    OrderedIffAscending(View(s, d, m));
    OrderedIffAscending(View(Graft(s, x, u), d', m'));
  }

  /** The link and value changes of `rotate_left` at `x`, whose subtree is
    * `a x (b y c)`: the result is the well-formed, still ordered arena with
    * the subtree `(a x b) y c` in place, where node `x` now holds `y`'s
    * value and node `y` holds `x`'s. */
  lemma {:induction false} LeftRotationArena(s: Shape, d: seq<int>, h: seq<nat>, L: seq<int>, R: seq<int>,
                          x: nat, y: nat, a: Shape, b: Shape, c: Shape,
                          d': seq<int>, L': seq<int>, R': seq<int>)
    requires WellFormed(s, d, L, R) && |h| == |d| && Ordered(View(s, d, h)) && x in Ids(s)
    requires SubAt(s, x) == Cell(a, x, Cell(b, y, c))
    requires |L'| == |L| && |R'| == |R| && |d'| == |d| && x < |d| && y < |d|
    requires Within(a, |d|) && Within(b, |d|) && Within(c, |d|)
    requires L'[x] == y && R'[x] == Top(c) && L'[y] == Top(a) && R'[y] == Top(b)
    requires forall i | 0 <= i < |L| && i != x && i != y :: L'[i] == L[i] && R'[i] == R[i]
    requires d' == d[x := d[y]][y := d[x]]
    ensures var s' := Graft(s, x, Cell(Cell(a, y, b), x, c));
      && WellFormed(s', d', L', R') && Top(s') == Top(s) && Ordered(View(s', d', h))
      && Local(s, d, h, s', d', h, x) && SubAt(s', x) == Cell(Cell(a, y, b), x, c) && Ids(s') == Ids(s)
      && View(SubAt(s', x), d', h)
         == Node(Node(View(a, d, h), d[x], h[y], View(b, d, h)), d[y], h[x], View(c, d, h))
  {
    var u := Cell(Cell(a, y, b), x, c);
    SubAtFacts(s, x);
    RotatedHangs(s, L, R, x, y, a, b, c, L', R', u, true);
    GraftWell(s, d, L, R, x, u, d', L', R');
    RotatedViews(a, b, c, x, y, d, h, d');
    GraftOrdered(s, d, h, x, u, d', h);
  }

  /** The rearranged subtree `u` over the nodes `a`, `b`, `c`, `x`, `y` of
    * the subtree at `x` is linked by the new arrays and keeps its nodes. */
  lemma {:induction false} RotatedHangs(s: Shape, L: seq<int>, R: seq<int>, x: nat, y: nat, a: Shape, b: Shape, c: Shape,
                     L': seq<int>, R': seq<int>, u: Shape, promotedRight: bool)
    requires Distinct(s) && Hangs(s, L, R) && x in Ids(s) && |L| == |R|
    requires |L'| == |L| && |R'| == |R| && x < |L| && y < |L|
    requires promotedRight ==>
      (SubAt(s, x) == Cell(a, x, Cell(b, y, c)) && u == Cell(Cell(a, y, b), x, c)
       && L'[x] == y && R'[x] == Top(c) && L'[y] == Top(a) && R'[y] == Top(b))
    requires !promotedRight ==>
      (SubAt(s, x) == Cell(Cell(a, y, b), x, c) && u == Cell(a, x, Cell(b, y, c))
       && L'[x] == Top(a) && R'[x] == y && L'[y] == Top(b) && R'[y] == Top(c))
    requires forall i | 0 <= i < |L| && i != x && i != y :: L'[i] == L[i] && R'[i] == R[i]
    ensures Top(u) == x && Ids(u) == Ids(SubAt(s, x)) && Distinct(u) && Hangs(u, L', R')
    ensures forall i | 0 <= i < |L| && i !in Ids(SubAt(s, x)) :: L'[i] == L[i] && R'[i] == R[i]
  {
    SubAtFacts(s, x);
    SubAtHangs(s, x, L, R);
    HangsFrame(a, L, R, L', R');
    HangsFrame(b, L, R, L', R');
    HangsFrame(c, L, R, L', R');
  }

  /** The views of the two arrangements `a x (b y c)` and `(a x b) y c` of
    * the same nodes, where the values of `x` and `y` are swapped in `d'`:
    * each is the other rotated, and both have the same in-order sequence. */
  lemma {:induction false} RotatedViews(a: Shape, b: Shape, c: Shape, x: nat, y: nat, d: seq<int>, h: seq<nat>, d': seq<int>)
    requires Within(a, |d|) && Within(b, |d|) && Within(c, |d|) && |h| == |d| && x < |d| && y < |d| && x != y
    requires x !in Ids(a) && x !in Ids(b) && x !in Ids(c) && y !in Ids(a) && y !in Ids(b) && y !in Ids(c)
    requires d' == d[x := d[y]][y := d[x]]
    ensures var A, B, C := View(a, d, h), View(b, d, h), View(c, d, h);
      && View(Cell(Cell(a, y, b), x, c), d', h) == Node(Node(A, d[x], h[y], B), d[y], h[x], C)
      && View(Cell(a, x, Cell(b, y, c)), d', h) == Node(A, d[y], h[x], Node(B, d[x], h[y], C))
      && InOrder(View(Cell(Cell(a, y, b), x, c), d', h)) == InOrder(View(Cell(a, x, Cell(b, y, c)), d, h))
      && InOrder(View(Cell(a, x, Cell(b, y, c)), d', h)) == InOrder(View(Cell(Cell(a, y, b), x, c), d, h))
  {
    ViewFrame(a, d, h, d', h);
    ViewFrame(b, d, h, d', h);
    ViewFrame(c, d, h, d', h);
    var A, B, C := InOrder(View(a, d, h)), InOrder(View(b, d, h)), InOrder(View(c, d, h));
    Regroup(A + [d[x]], B, [d[y]], C);
    Regroup(A + [d[y]], B, [d[x]], C);
  }

  /** Moving the parentheses of a four-part concatenation. */
  lemma Regroup(p: seq<int>, b: seq<int>, m: seq<int>, c: seq<int>)
    ensures p + b + m + c == p + (b + m + c)
  {
    Assoc(p + b, m, c);
    Assoc(p, b, m + c);
    Assoc(b, m, c);
  }

  /** The link and value changes of `rotate_right` at `y`, whose subtree is
    * `(a x b) y c`: the mirror image of `LeftRotationArena`. */
  lemma {:induction false} RightRotationArena(s: Shape, d: seq<int>, h: seq<nat>, L: seq<int>, R: seq<int>,
                           y: nat, x: nat, a: Shape, b: Shape, c: Shape,
                           d': seq<int>, L': seq<int>, R': seq<int>)
    requires WellFormed(s, d, L, R) && |h| == |d| && Ordered(View(s, d, h)) && y in Ids(s)
    requires SubAt(s, y) == Cell(Cell(a, x, b), y, c)
    requires |L'| == |L| && |R'| == |R| && |d'| == |d| && x < |d| && y < |d|
    requires Within(a, |d|) && Within(b, |d|) && Within(c, |d|)
    requires L'[y] == Top(a) && R'[y] == x && L'[x] == Top(b) && R'[x] == Top(c)
    requires forall i | 0 <= i < |L| && i != x && i != y :: L'[i] == L[i] && R'[i] == R[i]
    requires d' == d[y := d[x]][x := d[y]]
    ensures var s' := Graft(s, y, Cell(a, y, Cell(b, x, c)));
      && WellFormed(s', d', L', R') && Top(s') == Top(s) && Ordered(View(s', d', h))
      && Local(s, d, h, s', d', h, y) && SubAt(s', y) == Cell(a, y, Cell(b, x, c)) && Ids(s') == Ids(s)
      && View(SubAt(s', y), d', h)
         == Node(View(a, d, h), d[x], h[y], Node(View(b, d, h), d[y], h[x], View(c, d, h)))
  {
    var u := Cell(a, y, Cell(b, x, c));
    SubAtFacts(s, y);
    RotatedHangs(s, L, R, y, x, a, b, c, L', R', u, false);
    GraftWell(s, d, L, R, y, u, d', L', R');
    RotatedViews(a, b, c, y, x, d, h, d');
    GraftOrdered(s, d, h, y, u, d', h);
  }

  /** The tree: an arena of nodes with value, child links and stored height,
    * and the index of the root (`NIL` when the tree is empty). The source's
    * parent link is never set or read and is not kept. */
  class AVLTree {
    var root: int
    var data: seq<int>
    var left: seq<int>
    var right: seq<int>
    var height: seq<nat>
    ghost var shape: Shape

    /** The arena holds one well-linked tree that satisfies the
      * binary-search-tree invariant. Stored heights may be stale. */
    ghost predicate Valid()
      reads this
    {
      && WellFormed(shape, data, left, right) && |height| == |data|
      && root == Top(shape) && Ordered(View(shape, data, height))
    }

    /** The tree as a value, with stored heights as node metadata. */
    ghost function Abs(): Tree<nat>
      reads this
      requires Valid()
    {
      View(shape, data, height)
    }

    /** The subtree at node `i`. */
    ghost function SubView(i: int): (t: Tree<nat>)
      reads this
      requires Valid()
      ensures i in Ids(shape) ==> t.Node? && t.data == data[i] && t.meta == height[i]
    {
      View(SubAt(shape, i), data, height)
    }

    /** The child links of a node lead to the subtrees of its view. */
    lemma {:induction false} ChildViews(x: nat)
      requires Valid() && x in Ids(shape)
      ensures left[x] == Top(SubAt(shape, x).l) && right[x] == Top(SubAt(shape, x).r)
      ensures left[x] == NIL <==> SubView(x).left.Nil?
      ensures right[x] == NIL <==> SubView(x).right.Nil?
      ensures left[x] != NIL ==>
        (left[x] in Ids(shape) && SubAt(shape, left[x]) == SubAt(shape, x).l && SubView(left[x]) == SubView(x).left)
      ensures right[x] != NIL ==>
        (right[x] in Ids(shape) && SubAt(shape, right[x]) == SubAt(shape, x).r && SubView(right[x]) == SubView(x).right)
    {
      ChildLinks(x);
      var sx := SubAt(shape, x);
      assert SubView(x) == Node(View(sx.l, data, height), data[x], height[x], View(sx.r, data, height));
    }

    lemma {:induction false} ChildLinks(x: nat)
      requires Valid() && x in Ids(shape)
      ensures SubAt(shape, x).Cell? && SubAt(shape, x).id == x
      ensures left[x] == Top(SubAt(shape, x).l) && right[x] == Top(SubAt(shape, x).r)
      ensures SubAt(shape, x).l.Cell? ==> SubAt(shape, left[x]) == SubAt(shape, x).l && left[x] in Ids(shape)
      ensures SubAt(shape, x).r.Cell? ==> SubAt(shape, right[x]) == SubAt(shape, x).r && right[x] in Ids(shape)
    {
      SubAtFacts(shape, x);
      SubAtHangs(shape, x, left, right);
      SubAtChild(shape, x);
    }

    /** `new`: the empty tree. */
    constructor ()
      ensures Valid() && Abs() == Nil
    {
      root := NIL;
      data, left, right, height := [], [], [], [];
      shape := Empty;
    }

    /** Tree-level `insert`: an empty tree gets a root of stored height 0,
      * otherwise the root's node-level insertion takes over. No rotation,
      * no height update. */
    method Insert(v: int)
      requires Valid()
      modifies this
      ensures Valid()
      ensures Abs() == LeafInsert(old(Abs()), v, 0)
    {
      if root == NIL {
        var n := |data|;
        data, left, right, height := data + [v], left + [NIL], right + [NIL], height + [0];
        root := n;
        shape := Cell(Empty, n, Empty);
        assert View(shape, data, height) == Node(Nil, v, 0, Nil);
        assert WellFormed(shape, data, left, right);
        assert Ordered(View(shape, data, height));
      } else {
        OnPathTop(shape, data, v);
        InsertFrom(root, v);
      }
    }

    /** Node-level `insert` at `node`, a node on the search path of `v`:
      * stop on an equal value, descend into the child the comparison picks,
      * or hang a new node of stored height 0 where that child is absent. */
    method InsertFrom(node: nat, v: int)
      requires Valid() && node in Ids(shape) && OnPath(shape, data, v, node)
      modifies this
      decreases SubAt(shape, node)
      ensures Valid() && root == old(root)
      ensures Abs() == LeafInsert(old(Abs()), v, 0)
    {
      if data[node] == v {
        FoundOnPath<nat>(shape, data, height, v, node, 0);
        return;
      }
      var next := if v < data[node] then left[node] else right[node];
      if next != NIL {
        OnPathStep(shape, data, left, right, v, node);
        ChildViews(node);
        InsertFrom(next, v);
      } else {
        HangLeaf<nat>(shape, data, height, left, right, v, node, 0);
        LeafInsertOrdered<nat>(Abs(), v, 0);
        var n := |data|;
        shape := InsertShape(shape, data, v, n);
        if v < data[node] {
          left := (left + [NIL])[node := n];
          right := right + [NIL];
        } else {
          left := left + [NIL];
          right := (right + [NIL])[node := n];
        }
        data := data + [v];
        height := height + [0];
      }
    }

    /** The query layer's `height` on a node: the real height of its
      * subtree, measured by recursion over the links. */
    function NodeHeight(i: nat): (h: nat)
      reads this
      requires Valid() && i in Ids(shape)
      ensures h == Height(SubView(i))
      decreases SubAt(shape, i)
    {
      ChildViews(i);
      var lh := if left[i] == NIL then 0 else NodeHeight(left[i]);
      var rh := if right[i] == NIL then 0 else NodeHeight(right[i]);
      Larger(lh, rh) + 1
    }

    /** `left_height`: the real height of the left subtree, 0 if absent. */
    function LeftHeight(x: nat): (h: nat)
      reads this
      requires Valid() && x in Ids(shape)
      ensures h == Height(SubView(x).left)
    {
      ChildViews(x);
      if left[x] == NIL then 0 else NodeHeight(left[x])
    }

    /** `right_height`: the real height of the right subtree, 0 if absent. */
    function RightHeight(x: nat): (h: nat)
      reads this
      requires Valid() && x in Ids(shape)
      ensures h == Height(SubView(x).right)
    {
      ChildViews(x);
      if right[x] == NIL then 0 else NodeHeight(right[x])
    }

    /** `balance_factor`: left height minus right height, computed as the
      * source does from the non-negative difference and its sign. */
    function BalanceFactor(x: nat): (bf: int)
      reads this
      requires Valid() && x in Ids(shape) && Fits(SubView(x))
      ensures bf == Factor(SubView(x))
      ensures -127 <= bf <= 127
    {
      var lh := LeftHeight(x);
      var rh := RightHeight(x);
      if lh >= rh then lh - rh else -(rh - lh)
    }

    /** `update_height`: the stored height of `x` becomes one more than the
      * larger real height of its children; nothing else changes. */
    method UpdateHeight(x: nat)
      requires Valid() && x in Ids(shape)
      modifies this
      ensures Valid() && root == old(root) && shape == old(shape)
      ensures data == old(data) && left == old(left) && right == old(right)
      ensures height == old(height)[x := Larger(Height(old(SubView(x)).left), Height(old(SubView(x)).right)) + 1]
      ensures SubView(x) == old(SubView(x)).(meta := Height(SubView(x)))
      ensures Local(old(shape), old(data), old(height), shape, data, height, x)
    {
      var lh := LeftHeight(x);
      var rh := RightHeight(x);
      ghost var t0 := SubView(x);
      ghost var v0 := View(shape, data, height);
      var k := Larger(lh, rh) + 1;
      MetaUpdate<nat>(shape, data, height, x, k);
      height := height[x := k];
      assert SubView(x) == t0.(meta := k);
    }

    /** `rotate_left`: without a right child, report false and change
      * nothing. Otherwise promote the right child: the subtree at `x`
      * becomes its left rotation, whose two top nodes get fresh stored
      * heights, and the rest of the tree is untouched. */
    method RotateLeft(x: nat) returns (rotated: bool)
      requires Valid() && x in Ids(shape)
      modifies this
      ensures Valid() && root == old(root)
      ensures rotated <==> old(SubView(x)).right.Node?
      ensures !rotated ==> unchanged(this)
      ensures Local(old(shape), old(data), old(height), shape, data, height, x)
      ensures SubView(x) == LeftRotation(old(SubView(x)))
      ensures Abs() == ViewWith(old(shape), old(data), old(height), x, SubView(x))
    {
      ChildViews(x);
      var y := right[x];
      if y == NIL {
        LocalRefl<nat>(shape, data, height, x);
        LocalView<nat>(shape, data, height, shape, data, height, x);
        return false;
      }
      ghost var s0, d0, h0 := shape, data, height;
      ghost var t0 := SubView(x);
      ChildViews(y);
      ghost var sx := SubAt(shape, x);
      SubAtFacts(shape, x);
      assert x != y;
      // take the right child's children, swap values, relink
      var L, R, D := left, right, data;
      var b := L[y];
      var c := R[y];
      R := R[x := c];
      D := D[x := D[y]][y := D[x]];
      var a := L[x];
      R := R[y := b];
      L := L[y := a][x := y];
      LeftRotationArena(s0, d0, h0, left, right, x, y, sx.l, sx.r.l, sx.r.r, D, L, R);
      left, right, data := L, R, D;
      shape := Graft(s0, x, Cell(Cell(sx.l, y, sx.r.l), x, sx.r.r));
      ghost var s1, d1 := shape, data;
      ghost var top1 := SubView(x);
      ChildLinks(x);
      ghost var lower1 := SubView(y);
      assert lower1 == top1.left;
      UpdateHeight(y);
      ghost var h2 := height;
      ghost var lower2 := SubView(y);
      LocalNestLeft<nat>(s1, d1, h0, s1, d1, h2, x, y);
      ghost var top2 := SubView(x);
      UpdateHeight(x);
      LeftRotationAssembled(t0, top1, lower2, top2, SubView(x));
      LocalTrans<nat>(s1, d1, h0, s1, d1, h2, s1, d1, height, x);
      LocalTrans<nat>(s0, d0, h0, s1, d1, h0, s1, d1, height, x);
      LocalView<nat>(s0, d0, h0, shape, data, height, x);
      rotated := true;
    }

    /** `rotate_right`: the mirror image of `rotate_left`. */
    method RotateRight(y: nat) returns (rotated: bool)
      requires Valid() && y in Ids(shape)
      modifies this
      ensures Valid() && root == old(root)
      ensures rotated <==> old(SubView(y)).left.Node?
      ensures !rotated ==> unchanged(this)
      ensures Local(old(shape), old(data), old(height), shape, data, height, y)
      ensures SubView(y) == RightRotation(old(SubView(y)))
      ensures Abs() == ViewWith(old(shape), old(data), old(height), y, SubView(y))
    {
      ChildViews(y);
      var x := left[y];
      if x == NIL {
        LocalRefl<nat>(shape, data, height, y);
        LocalView<nat>(shape, data, height, shape, data, height, y);
        return false;
      }
      ghost var s0, d0, h0 := shape, data, height;
      ghost var t0 := SubView(y);
      ChildViews(x);
      ghost var sy := SubAt(shape, y);
      SubAtFacts(shape, y);
      assert x != y;
      // take the left child's children, swap values, relink
      var L, R, D := left, right, data;
      var b := R[x];
      var a := L[x];
      L := L[y := a];
      D := D[y := D[x]][x := D[y]];
      var c := R[y];
      L := L[x := b];
      R := R[x := c][y := x];
      RightRotationArena(s0, d0, h0, left, right, y, x, sy.l.l, sy.l.r, sy.r, D, L, R);
      left, right, data := L, R, D;
      shape := Graft(s0, y, Cell(sy.l.l, y, Cell(sy.l.r, x, sy.r)));
      ghost var s1, d1 := shape, data;
      ghost var top1 := SubView(y);
      ChildLinks(y);
      ghost var lower1 := SubView(x);
      assert lower1 == top1.right;
      UpdateHeight(x);
      ghost var h2 := height;
      ghost var lower2 := SubView(x);
      LocalNestRight<nat>(s1, d1, h0, s1, d1, h2, y, x);
      ghost var top2 := SubView(y);
      UpdateHeight(y);
      RightRotationAssembled(t0, top1, lower2, top2, SubView(y));
      LocalTrans<nat>(s1, d1, h0, s1, d1, h2, s1, d1, height, y);
      LocalTrans<nat>(s0, d0, h0, s1, d1, h0, s1, d1, height, y);
      LocalView<nat>(s0, d0, h0, shape, data, height, y);
      rotated := true;
    }

    /** `rebalance`: at factor -2 rotate the right child right when its
      * factor is 1, then rotate `x` left; at factor 2 the mirror image;
      * otherwise report false and change nothing. */
    method Rebalance(x: nat) returns (done: bool)
      requires Valid() && x in Ids(shape) && FactorsFit(SubView(x))
      modifies this
      ensures Valid() && root == old(root)
      ensures Local(old(shape), old(data), old(height), shape, data, height, x)
      ensures (SubView(x), done) == Rebalanced(old(SubView(x)))
      ensures Abs() == ViewWith(old(shape), old(data), old(height), x, SubView(x))
    {
      ghost var s0, d0, h0 := shape, data, height;
      ghost var t0 := SubView(x);
      SubAtFacts(shape, x);
      LocalRefl<nat>(shape, data, height, x);
      ChildViews(x);
      var bf := BalanceFactor(x);
      if bf == -2 {
        var r := right[x];
        var rbf := BalanceFactor(r);
        if rbf == 1 {
          var turned := RotateRight(r);
          LocalNestRight<nat>(s0, d0, h0, shape, data, height, x, r);
          LocalView<nat>(s0, d0, h0, shape, data, height, x);
        }
        ghost var s1, d1, h1 := shape, data, height;
        assert SubView(x) == t0.(right := if Factor(t0.right) == 1 then RightRotation(t0.right) else t0.right);
        var turned := RotateLeft(x);
        LocalTrans<nat>(s0, d0, h0, s1, d1, h1, shape, data, height, x);
        done := true;
      } else if bf == 2 {
        var l := left[x];
        var lbf := BalanceFactor(l);
        if lbf == -1 {
          var turned := RotateLeft(l);
          LocalNestLeft<nat>(s0, d0, h0, shape, data, height, x, l);
          LocalView<nat>(s0, d0, h0, shape, data, height, x);
        }
        ghost var s1, d1, h1 := shape, data, height;
        assert SubView(x) == t0.(left := if Factor(t0.left) == -1 then LeftRotation(t0.left) else t0.left);
        var turned := RotateRight(x);
        LocalTrans<nat>(s0, d0, h0, s1, d1, h1, shape, data, height, x);
        done := true;
      } else {
        done := false;
      }
      LocalView<nat>(s0, d0, h0, shape, data, height, x);
    }
  }
}
