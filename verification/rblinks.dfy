/** Link rotations of the red-black tree (src/rbtree.rs). Unlike the AVL
  * rotations, which swap values and keep the top node in place, these
  * relink three or four nodes: the child moves up, takes the old top's place
  * under its parent, and the parent links follow. `RotateLeft` and
  * `RotateRight` are the link updates in the source's own order; the lemmas
  * show what they do to a well-linked arena and its shape. */
module RbLinks {
  import opened Base
  import opened Arena
  import opened Subtrees

  /** The link of node `i`, `NIL` outside the arena. */
  function Get(s: seq<int>, i: int): int
  {
    if 0 <= i < |s| then s[i] else NIL
  }

  /** Set the link of node `i`; a `NIL` (or absent) node has no link to set. */
  function Put(s: seq<int>, i: int, v: int): (s': seq<int>)
    ensures |s'| == |s|
  {
    if 0 <= i < |s| then s[i := v] else s
  }

  datatype Links = Links(left: seq<int>, right: seq<int>, parent: seq<int>)

  /** The same links seen in a mirror: left and right exchanged. */
  function Swap(k: Links): Links
  {
    Links(k.right, k.left, k.parent)
  }

  /** `rotate_left` at `x`: its right child `y` moves up, `y`'s left
    * subtree becomes `x`'s right subtree, and `x`'s parent (if any) now
    * points at `y` on the side where it pointed at `x`. */
  function RotateLeft(k: Links, x: int): (k': Links)
    ensures |k'.left| == |k.left| && |k'.right| == |k.right| && |k'.parent| == |k.parent|
  {
    var y := Get(k.right, x);
    var b := Get(k.left, y);
    var g := Get(k.parent, x);
    var right := Put(k.right, x, b);
    var moved := if b != NIL then Put(k.parent, b, x) else k.parent;
    var parent := Put(moved, x, y);
    var left := Put(k.left, y, x);
    if g != NIL && Get(left, g) == x then
      Links(Put(left, g, y), right, Put(parent, y, g))
    else if g != NIL then
      Links(left, Put(right, g, y), Put(parent, y, g))
    else
      Links(left, right, Put(parent, y, g))
  }

  /** `rotate_right` at `x`: its left child `y` moves up; the parent's slot
    * is found by testing the right side first. */
  function RotateRight(k: Links, x: int): (k': Links)
    ensures |k'.left| == |k.left| && |k'.right| == |k.right| && |k'.parent| == |k.parent|
  {
    var y := Get(k.left, x);
    var b := Get(k.right, y);
    var g := Get(k.parent, x);
    var left := Put(k.left, x, b);
    var moved := if b != NIL then Put(k.parent, b, x) else k.parent;
    var parent := Put(moved, x, y);
    var right := Put(k.right, y, x);
    if g != NIL && Get(right, g) == x then
      Links(left, Put(right, g, y), Put(parent, y, g))
    else if g != NIL then
      Links(Put(left, g, y), right, Put(parent, y, g))
    else
      Links(left, right, Put(parent, y, g))
  }

  /** The two rotations are mirror images of each other. */
  lemma RotateMirror(k: Links, x: int)
    ensures RotateRight(k, x) == Swap(RotateLeft(Swap(k), x))
    ensures RotateLeft(k, x) == Swap(RotateRight(Swap(k), x))
  {
  }

  /** The shape after a left rotation at the top of `t`. */
  function RotLeftShape(t: Shape): Shape
  {
    if t.Cell? && t.r.Cell? then Cell(Cell(t.l, t.id, t.r.l), t.r.id, t.r.r) else t
  }

  /** The shape after a right rotation at the top of `t`. */
  function RotRightShape(t: Shape): Shape
  {
    if t.Cell? && t.l.Cell? then Cell(t.l.l, t.l.id, Cell(t.l.r, t.id, t.r)) else t
  }

  /** The arena links agree with the shape, whose top has no parent. */
  ghost predicate Linked(s: Shape, k: Links)
  {
    && Distinct(s) && Hangs(s, k.left, k.right) && Parents(s, NIL, k.parent)
    && |k.left| == |k.right| == |k.parent|
  }

  // ---------------------------------------------------------------------
  // Grafting with a change of top

  /** Replacing the subtree at `x` by `t`, built from some of its nodes,
    * keeps the arena well linked when the new links hang `t` where `x`
    * hung and leave every other node outside the subtree as it was. */
  lemma GraftRelink(s: Shape, x: nat, t: Shape, k: Links, k': Links)
    requires Linked(s, k) && x in Ids(s) && Distinct(t) && Ids(t) <= Ids(SubAt(s, x))
    requires Hangs(t, k'.left, k'.right) && Parents(t, k.parent[x], k'.parent)
    requires |k'.left| == |k'.right| == |k'.parent| == |k.left|
    requires forall i | i in Ids(s) && i !in Ids(SubAt(s, x)) :: k'.parent[i] == k.parent[i]
    requires forall i | i in Ids(s) && i !in Ids(SubAt(s, x)) && i != k.parent[x] ::
      k'.left[i] == k.left[i] && k'.right[i] == k.right[i]
    requires var q := k.parent[x]; q in Ids(s) ==>
      if k.left[q] == x then k'.left[q] == Top(t) && k'.right[q] == k.right[q]
      else k'.right[q] == Top(t) && k'.left[q] == k.left[q]
    ensures Linked(Graft(s, x, t), k')
    ensures Ids(Graft(s, x, t)) == Ids(s) - Ids(SubAt(s, x)) + Ids(t)
    ensures Top(Graft(s, x, t)) == if x == Top(s) then Top(t) else Top(s)
  {
    GraftSome(s, x, t);
    GraftHangsRelink(s, NIL, x, t, k.left, k.right, k.parent, k'.left, k'.right);
    GraftParents(s, NIL, x, t, k.parent, k'.parent);
  }

  /** The nodes, distinctness and top of a graft built from some of the
    * replaced subtree's nodes. */
  lemma {:induction false} GraftSome(s: Shape, x: int, t: Shape)
    requires Distinct(s) && x in Ids(s) && Distinct(t) && Ids(t) <= Ids(SubAt(s, x))
    ensures Distinct(Graft(s, x, t))
    ensures Ids(Graft(s, x, t)) == Ids(s) - Ids(SubAt(s, x)) + Ids(t)
    ensures Top(Graft(s, x, t)) == if x == Top(s) then Top(t) else Top(s)
  {
    match s
    case Cell(l, i, r) =>
      if i == x {
      } else if x in Ids(l) {
        SubAtFacts(l, x);
        GraftSome(l, x, t);
      } else {
        SubAtFacts(r, x);
        GraftSome(r, x, t);
      }
  }

  lemma {:induction false} GraftHangsRelink(s: Shape, p: int, x: nat, t: Shape,
                                            L: seq<int>, R: seq<int>, P: seq<int>, L': seq<int>, R': seq<int>)
    requires Distinct(s) && Hangs(s, L, R) && Parents(s, p, P) && x in Ids(s) && (p == NIL || p !in Ids(s))
    requires Hangs(t, L', R') && |L'| == |R'| == |L|
    requires forall i | i in Ids(s) && i !in Ids(SubAt(s, x)) && i != P[x] :: L'[i] == L[i] && R'[i] == R[i]
    requires var q := P[x]; q in Ids(s) ==>
      if L[q] == x then L'[q] == Top(t) && R'[q] == R[q] else R'[q] == Top(t) && L'[q] == L[q]
    ensures Hangs(Graft(s, x, t), L', R')
  {
    match s
    case Cell(l, i, r) =>
      if i == x {
      } else if x in Ids(l) {
        SubAtFacts(l, x);
        assert SubAt(s, x) == SubAt(l, x);
        if x != l.id {
          DepthParent(l, i, P, x);
        }
        GraftHangsRelink(l, i, x, t, L, R, P, L', R');
        GraftTopOf(l, x, t);
        HangsFrame(r, L, R, L', R');
      } else {
        SubAtFacts(r, x);
        assert SubAt(s, x) == SubAt(r, x);
        if x != r.id {
          DepthParent(r, i, P, x);
        }
        GraftHangsRelink(r, i, x, t, L, R, P, L', R');
        GraftTopOf(r, x, t);
        HangsFrame(l, L, R, L', R');
      }
  }

  /** The top of a graft: the graft's own top when it replaces the whole. */
  lemma GraftTopOf(s: Shape, x: int, t: Shape)
    requires x in Ids(s)
    ensures Top(Graft(s, x, t)) == if x == Top(s) then Top(t) else Top(s)
  {
  }

  lemma {:induction false} GraftParents(s: Shape, p: int, x: nat, t: Shape, P: seq<int>, P': seq<int>)
    requires Distinct(s) && Parents(s, p, P) && x in Ids(s) && (p == NIL || p !in Ids(s))
    requires Parents(t, P[x], P')
    requires forall i | i in Ids(s) && i !in Ids(SubAt(s, x)) :: i < |P'| && P'[i] == P[i]
    ensures Parents(Graft(s, x, t), p, P')
  {
    match s
    case Cell(l, i, r) =>
      if i == x {
      } else if x in Ids(l) {
        SubAtFacts(l, x);
        assert SubAt(s, x) == SubAt(l, x);
        GraftParents(l, i, x, t, P, P');
        ParentsFrame(r, i, P, P');
      } else {
        SubAtFacts(r, x);
        assert SubAt(s, x) == SubAt(r, x);
        GraftParents(r, i, x, t, P, P');
        ParentsFrame(l, i, P, P');
      }
  }

  /** The in-order node sequence after a graft. */
  lemma {:induction false} GraftInOrder(s: Shape, x: int, t: Shape)
    requires Distinct(s) && x in Ids(s)
    ensures InOrderIds(Graft(s, x, t)) == Prefix(s, x) + InOrderIds(t) + Suffix(s, x)
  {
    match s
    case Cell(l, i, r) =>
      if i == x {
      } else if x in Ids(l) {
        GraftInOrder(l, x, t);
        Assoc(Prefix(l, x) + InOrderIds(t), Suffix(l, x), [i] + InOrderIds(r));
      } else {
        assert x in Ids(r);
        GraftInOrder(r, x, t);
        Assoc(InOrderIds(l) + [i], Prefix(r, x), InOrderIds(t));
        Assoc(InOrderIds(l) + [i], Prefix(r, x) + InOrderIds(t), Suffix(r, x));
      }
  }

  /** Depths inside a graft add up. */
  lemma {:induction false} GraftDepth(s: Shape, x: int, t: Shape, j: int)
    requires Distinct(s) && x in Ids(s) && Ids(t) <= Ids(SubAt(s, x)) && j in Ids(t)
    ensures Depth(Graft(s, x, t), j) == Depth(s, x) + Depth(t, j)
  {
    match s
    case Cell(l, i, r) =>
      if i == x {
      } else if x in Ids(l) {
        SubAtFacts(l, x);
        GraftDepth(l, x, t, j);
        GraftKeeps(l, x, t, j);
      } else {
        SubAtFacts(r, x);
        GraftDepth(r, x, t, j);
        GraftKeeps(r, x, t, j);
        assert j !in Ids(l);
      }
  }

  /** The nodes of the graft are nodes of the grafted shape. */
  lemma {:induction false} GraftKeeps(s: Shape, x: int, t: Shape, j: int)
    requires x in Ids(s) && j in Ids(t)
    ensures j in Ids(Graft(s, x, t))
  {
    match s
    case Cell(l, i, r) =>
      if i == x {
      } else if x in Ids(l) {
        GraftKeeps(l, x, t, j);
      } else {
        GraftKeeps(r, x, t, j);
      }
  }

  /** The graft is the subtree at its own top. */
  lemma {:induction false} SubAtGraftTop(s: Shape, x: int, t: Shape)
    requires Distinct(s) && x in Ids(s) && Ids(t) <= Ids(SubAt(s, x)) && t.Cell?
    ensures SubAt(Graft(s, x, t), t.id) == t
  {
    match s
    case Cell(l, i, r) =>
      if i == x {
      } else if x in Ids(l) {
        SubAtFacts(l, x);
        SubAtGraftTop(l, x, t);
        GraftKeeps(l, x, t, t.id);
      } else {
        SubAtFacts(r, x);
        SubAtGraftTop(r, x, t);
        GraftKeeps(r, x, t, t.id);
        assert t.id !in Ids(l) && t.id != i;
        assert t.id !in Ids(Graft(l, x, t));
      }
  }

  // ---------------------------------------------------------------------
  // Rotations on a well-linked arena

  /** What `RotateLeft` does, link by link, when the nodes it touches are
    * distinct: `y` takes `x`'s place under `g`, `x` hangs left of `y`,
    * and `y`'s old left subtree `b` moves under `x`. */
  lemma RotateLeftEffect(k: Links, x: nat, y: nat, b: int, g: int)
    requires |k.left| == |k.right| == |k.parent| && x < |k.left| && y < |k.left|
    requires y == k.right[x] && b == k.left[y] && g == k.parent[x]
    requires -1 <= b < |k.left| && -1 <= g < |k.left| && x != y && b != x && b != y && g != x && g != y
    requires g != NIL ==> g != b
    ensures var k' := RotateLeft(k, x);
      && k'.left[y] == x && k'.right[x] == b && k'.parent[x] == y && k'.parent[y] == g
      && k'.left[x] == k.left[x] && k'.right[y] == k.right[y]
      && (b != NIL ==> k'.parent[b] == x)
      && (g != NIL ==> k'.parent[g] == k.parent[g])
      && (g != NIL ==> if k.left[g] == x then k'.left[g] == y && k'.right[g] == k.right[g]
                       else k'.right[g] == y && k'.left[g] == k.left[g])
      && (forall i | 0 <= i < |k.left| && i != x && i != y && i != g ::
            k'.left[i] == k.left[i] && k'.right[i] == k.right[i])
      && (forall i | 0 <= i < |k.left| && i != x && i != y && i != b :: k'.parent[i] == k.parent[i])
  {
  }

  /** The mirror image of `RotateLeftEffect`. */
  lemma RotateRightEffect(k: Links, x: nat, y: nat, b: int, g: int)
    requires |k.left| == |k.right| == |k.parent| && x < |k.left| && y < |k.left|
    requires y == k.left[x] && b == k.right[y] && g == k.parent[x]
    requires -1 <= b < |k.left| && -1 <= g < |k.left| && x != y && b != x && b != y && g != x && g != y
    requires g != NIL ==> g != b
    ensures var k' := RotateRight(k, x);
      && k'.right[y] == x && k'.left[x] == b && k'.parent[x] == y && k'.parent[y] == g
      && k'.right[x] == k.right[x] && k'.left[y] == k.left[y]
      && (b != NIL ==> k'.parent[b] == x)
      && (g != NIL ==> k'.parent[g] == k.parent[g])
      && (g != NIL ==> if k.right[g] == x then k'.right[g] == y && k'.left[g] == k.left[g]
                       else k'.left[g] == y && k'.right[g] == k.right[g])
      && (forall i | 0 <= i < |k.left| && i != x && i != y && i != g ::
            k'.left[i] == k.left[i] && k'.right[i] == k.right[i])
      && (forall i | 0 <= i < |k.left| && i != x && i != y && i != b :: k'.parent[i] == k.parent[i])
  {
    RotateMirror(k, x);
    RotateLeftEffect(Swap(k), x, y, b, g);
  }

  /** The indices a rotation at `x` touches are inside the arena. */
  lemma RotationBounds(s: Shape, k: Links, x: nat, toRight: bool)
    requires Linked(s, k) && x in Ids(s)
    requires if toRight then k.right[x] != NIL else k.left[x] != NIL
    ensures var y := if toRight then k.right[x] else k.left[x];
      && x < |k.left| && 0 <= y < |k.left| && y in Ids(s) && -1 <= k.parent[x] < |k.left|
    ensures var y := if toRight then k.right[x] else k.left[x];
      var b := if toRight then k.left[y] else k.right[y];
      -1 <= b < |k.left|
  {
    RotationNodes(s, k, x, toRight);
  }

  /** The nodes a rotation at `x` touches, read off a well-linked arena:
    * `x`, its child `y` on side `toRight` (right when true), the inner
    * grandchild `b` and the parent `g` are distinct, and `g` lies outside
    * the subtree at `x`. */
  lemma RotationNodes(s: Shape, k: Links, x: nat, toRight: bool)
    requires Linked(s, k) && x in Ids(s)
    requires if toRight then k.right[x] != NIL else k.left[x] != NIL
    ensures var sx := SubAt(s, x);
      var y := if toRight then k.right[x] else k.left[x];
      var b := if toRight then Get(k.left, y) else Get(k.right, y);
      && sx.Cell? && sx.id == x && Distinct(sx) && Ids(sx) <= Ids(s)
      && (if toRight then sx.r.Cell? && sx.r.id == y && b == Top(sx.r.l)
          else sx.l.Cell? && sx.l.id == y && b == Top(sx.l.r))
      && 0 <= y < |k.left| && y != x && -1 <= b < |k.left| && b != x && b != y
      && -1 <= k.parent[x] < |k.left| && k.parent[x] != x && k.parent[x] != y
      && (k.parent[x] != NIL ==> k.parent[x] != b && k.parent[x] in Ids(s))
      && (k.parent[x] != NIL ==> (k.left[k.parent[x]] == x <==> k.right[k.parent[x]] != x))
      && (k.parent[x] == NIL || k.parent[x] !in Ids(sx))
      && Parents(sx, k.parent[x], k.parent)
      && Hangs(sx, k.left, k.right)
  {
    SubAtFacts(s, x);
    SubAtHangs(s, x, k.left, k.right);
    SubAtParents(s, NIL, k.parent, x);
    var sx := SubAt(s, x);
    LinkFacts(s, NIL, k.left, k.right, k.parent);
    if x != Top(s) {
      DepthParent(s, NIL, k.parent, x);
    }
    if toRight {
      SubAtHangs(sx, sx.r.id, k.left, k.right);
    } else {
      SubAtHangs(sx, sx.l.id, k.left, k.right);
    }
  }

  /** A left rotation at `x` keeps the arena well linked; the shape is the
    * old one with the subtree at `x` rotated, the in-order node sequence is
    * unchanged, and the right child becomes the top if `x` was. */
  lemma RotateLeftLinked(s: Shape, k: Links, x: nat)
    requires Linked(s, k) && x in Ids(s) && k.right[x] != NIL
    ensures var s' := Graft(s, x, RotLeftShape(SubAt(s, x)));
      && Linked(s', RotateLeft(k, x)) && Ids(s') == Ids(s)
      && InOrderIds(s') == InOrderIds(s)
      && Top(s') == (if x == Top(s) then k.right[x] else Top(s))
  {
    RotationNodes(s, k, x, true);
    var sx := SubAt(s, x);
    var y := k.right[x];
    var a, b, c := sx.l, sx.r.l, sx.r.r;
    var t := Cell(Cell(a, x, b), y, c);
    var g := k.parent[x];
    RotateLeftEffect(k, x, y, Top(b), g);
    var k' := RotateLeft(k, x);
    RotatedLeftLinked(sx, k, k', g);
    RotShapeFacts(sx);
    forall i | i in Ids(s) && i !in Ids(sx)
      ensures k'.parent[i] == k.parent[i]
      ensures i != g ==> k'.left[i] == k.left[i] && k'.right[i] == k.right[i]
    {
      assert i != x && i != y && i != Top(b);
    }
    GraftRelink(s, x, t, k, k');
    GraftInOrder(s, x, t);
    SplitAt(s, x);
    SubAtGraftTop(s, x, t);
  }

  /** The rotated subtree itself is well linked under `g`. */
  lemma RotatedLeftLinked(sx: Shape, k: Links, k': Links, g: int)
    requires sx.Cell? && sx.r.Cell? && Distinct(sx) && Hangs(sx, k.left, k.right) && Parents(sx, g, k.parent)
    requires g == NIL || g !in Ids(sx)
    requires |k'.left| == |k'.right| == |k'.parent| == |k.left| == |k.right| == |k.parent|
    requires var x, y, b := sx.id, sx.r.id, sx.r.l;
      && k'.left[y] == x && k'.right[x] == Top(b) && k'.parent[x] == y && k'.parent[y] == g
      && k'.left[x] == k.left[x] && k'.right[y] == k.right[y]
      && (b.Cell? ==> b.id < |k'.parent| && k'.parent[b.id] == x)
      && (forall i | 0 <= i < |k.left| && i != x && i != y && i != g ::
            k'.left[i] == k.left[i] && k'.right[i] == k.right[i])
      && (forall i | 0 <= i < |k.left| && i != x && i != y && i != Top(b) :: k'.parent[i] == k.parent[i])
    ensures Hangs(RotLeftShape(sx), k'.left, k'.right) && Parents(RotLeftShape(sx), g, k'.parent)
  {
    var x, y := sx.id, sx.r.id;
    var a, b, c := sx.l, sx.r.l, sx.r.r;
    forall i | i in Ids(a) ensures k'.left[i] == k.left[i] && k'.right[i] == k.right[i] && k'.parent[i] == k.parent[i] {
      assert i in Ids(sx) && i != x && i != y && i != g && i != Top(b);
    }
    forall i | i in Ids(b) ensures k'.left[i] == k.left[i] && k'.right[i] == k.right[i] {
      assert i in Ids(sx) && i != x && i != y && i != g;
    }
    forall i | i in Ids(b) && i != Top(b) ensures k'.parent[i] == k.parent[i] {
      assert i in Ids(sx) && i != x && i != y;
    }
    forall i | i in Ids(c) ensures k'.left[i] == k.left[i] && k'.right[i] == k.right[i] && k'.parent[i] == k.parent[i] {
      assert i in Ids(sx) && i != x && i != y && i != g && i != Top(b);
    }
    HangsFrame(a, k.left, k.right, k'.left, k'.right);
    HangsFrame(b, k.left, k.right, k'.left, k'.right);
    HangsFrame(c, k.left, k.right, k'.left, k'.right);
    ParentsFrame(a, x, k.parent, k'.parent);
    ParentsRetop(b, y, k.parent, x, k'.parent);
    ParentsFrame(c, y, k.parent, k'.parent);
  }

  /** A rotation rearranges a subtree without changing its nodes or their
    * in-order sequence. */
  lemma RotShapeFacts(sx: Shape)
    requires Distinct(sx)
    ensures Distinct(RotLeftShape(sx)) && Ids(RotLeftShape(sx)) == Ids(sx)
    ensures InOrderIds(RotLeftShape(sx)) == InOrderIds(sx)
    ensures Distinct(RotRightShape(sx)) && Ids(RotRightShape(sx)) == Ids(sx)
    ensures InOrderIds(RotRightShape(sx)) == InOrderIds(sx)
  {
    if sx.Cell? && sx.r.Cell? {
      Assoc(InOrderIds(sx.l) + [sx.id], InOrderIds(sx.r.l) + [sx.r.id], InOrderIds(sx.r.r));
    }
    if sx.Cell? && sx.l.Cell? {
      Assoc(InOrderIds(sx.l.l), [sx.l.id] + InOrderIds(sx.l.r), [sx.id] + InOrderIds(sx.r));
    }
  }

  /** The mirror image of `RotateLeftLinked`. */
  lemma RotateRightLinked(s: Shape, k: Links, x: nat)
    requires Linked(s, k) && x in Ids(s) && k.left[x] != NIL
    ensures var s' := Graft(s, x, RotRightShape(SubAt(s, x)));
      && Linked(s', RotateRight(k, x)) && Ids(s') == Ids(s)
      && InOrderIds(s') == InOrderIds(s)
      && Top(s') == (if x == Top(s) then k.left[x] else Top(s))
  {
    RotationNodes(s, k, x, false);
    var sx := SubAt(s, x);
    var y := k.left[x];
    var a, b, c := sx.l.l, sx.l.r, sx.r;
    var t := Cell(a, y, Cell(b, x, c));
    var g := k.parent[x];
    RotateRightEffect(k, x, y, Top(b), g);
    var k' := RotateRight(k, x);
    RotatedRightLinked(sx, k, k', g);
    RotShapeFacts(sx);
    forall i | i in Ids(s) && i !in Ids(sx)
      ensures k'.parent[i] == k.parent[i]
      ensures i != g ==> k'.left[i] == k.left[i] && k'.right[i] == k.right[i]
    {
      assert i != x && i != y && i != Top(b);
    }
    GraftRelink(s, x, t, k, k');
    GraftInOrder(s, x, t);
    SplitAt(s, x);
    SubAtGraftTop(s, x, t);
  }

  /** The mirror image of `RotatedLeftLinked`. */
  lemma RotatedRightLinked(sx: Shape, k: Links, k': Links, g: int)
    requires sx.Cell? && sx.l.Cell? && Distinct(sx) && Hangs(sx, k.left, k.right) && Parents(sx, g, k.parent)
    requires g == NIL || g !in Ids(sx)
    requires |k'.left| == |k'.right| == |k'.parent| == |k.left| == |k.right| == |k.parent|
    requires var x, y, b := sx.id, sx.l.id, sx.l.r;
      && k'.right[y] == x && k'.left[x] == Top(b) && k'.parent[x] == y && k'.parent[y] == g
      && k'.right[x] == k.right[x] && k'.left[y] == k.left[y]
      && (b.Cell? ==> b.id < |k'.parent| && k'.parent[b.id] == x)
      && (forall i | 0 <= i < |k.left| && i != x && i != y && i != g ::
            k'.left[i] == k.left[i] && k'.right[i] == k.right[i])
      && (forall i | 0 <= i < |k.left| && i != x && i != y && i != Top(b) :: k'.parent[i] == k.parent[i])
    ensures Hangs(RotRightShape(sx), k'.left, k'.right) && Parents(RotRightShape(sx), g, k'.parent)
  {
    var x, y := sx.id, sx.l.id;
    var a, b, c := sx.l.l, sx.l.r, sx.r;
    forall i | i in Ids(a) ensures k'.left[i] == k.left[i] && k'.right[i] == k.right[i] && k'.parent[i] == k.parent[i] {
      assert i in Ids(sx) && i != x && i != y && i != g && i != Top(b);
    }
    forall i | i in Ids(b) ensures k'.left[i] == k.left[i] && k'.right[i] == k.right[i] {
      assert i in Ids(sx) && i != x && i != y && i != g;
    }
    forall i | i in Ids(b) && i != Top(b) ensures k'.parent[i] == k.parent[i] {
      assert i in Ids(sx) && i != x && i != y;
    }
    forall i | i in Ids(c) ensures k'.left[i] == k.left[i] && k'.right[i] == k.right[i] && k'.parent[i] == k.parent[i] {
      assert i in Ids(sx) && i != x && i != y && i != g && i != Top(b);
    }
    HangsFrame(a, k.left, k.right, k'.left, k'.right);
    HangsFrame(b, k.left, k.right, k'.left, k'.right);
    HangsFrame(c, k.left, k.right, k'.left, k'.right);
    ParentsFrame(a, y, k.parent, k'.parent);
    ParentsRetop(b, y, k.parent, x, k'.parent);
    ParentsFrame(c, x, k.parent, k'.parent);
  }

  /** The parent of a node lies outside the node's subtree. */
  lemma {:induction false} SubAtParents(s: Shape, p: int, P: seq<int>, x: int)
    requires Distinct(s) && Parents(s, p, P) && x in Ids(s) && (p == NIL || p !in Ids(s))
    ensures P[x] == NIL || P[x] !in Ids(SubAt(s, x))
    ensures Parents(SubAt(s, x), P[x], P)
  {
    match s
    case Cell(l, i, r) =>
      if i == x {
      } else if x in Ids(l) {
        SubAtFacts(l, x);
        SubAtParents(l, i, P, x);
      } else {
        SubAtFacts(r, x);
        SubAtParents(r, i, P, x);
      }
  }
}
