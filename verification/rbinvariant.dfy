/** The red-black properties kept node by node. Each arena node `i` stores
  * a ghost black height `B[i]`: the number of black nodes on every path
  * from below `i` down to an absent child. The tree is a red-black tree
  * when every node's two children agree with `B[i]`, no red node has a red
  * child and the top is black; the repairs of `insert_repair` and
  * `delete_repair` in src/rbtree.rs each restore these local facts, case by
  * case, from a state where one of them is broken at a single place.
  *
  * Every property is stated per node (`Agrees`, `Fits`, `RedOkAt`,
  * `TopOk`, `Below`) and quantified over the nodes with that per-node
  * predicate as the trigger, so a proof speaks about exactly the nodes it
  * names. */
module RbInvariant {
  import opened Base
  import opened Arena
  import opened RbColor
  import opened RbLinks

  /** `color`: the colour of node `j`, black for an absent node. */
  function Col(C: seq<Color>, j: int): Color
  {
    if 0 <= j < |C| then C[j] else Black
  }

  function Bh(B: seq<nat>, j: int): nat
  {
    if 0 <= j < |B| then B[j] else 0
  }

  /** Black nodes from `j` (included) down to an absent child; 0 for `NIL`. */
  function BH(C: seq<Color>, B: seq<nat>, j: int): nat
  {
    if j == NIL then 0 else Bh(B, j) + (if Col(C, j) == Black then 1 else 0)
  }

  /** The black height seen from the parent, counting the node `gone`,
    * which is about to be removed, as already absent. */
  function H(C: seq<Color>, B: seq<nat>, gone: int, j: int): nat
  {
    if j == gone then 0 else BH(C, B, j)
  }

  /** The other child of `g`, next to its child `n` (`sibling`). */
  function Sib(k: Links, g: int, n: int): int
  {
    if Get(k.left, g) == n then Get(k.right, g) else Get(k.left, g)
  }

  function Rank(D: seq<nat>, j: int): nat
  {
    if 0 <= j < |D| then D[j] else 0
  }

  /** Node `i` painted `c` (no change for an absent node). */
  function Paint(C: seq<Color>, i: int, c: Color): (C': seq<Color>)
    ensures |C'| == |C|
    ensures 0 <= i < |C| ==> Col(C', i) == c
    ensures forall j | j != i :: Col(C', j) == Col(C, j)
  {
    if 0 <= i < |C| then C[i := c] else C
  }

  /** Node `i`'s black height set to `v` (no change for an absent node). */
  function SetBh(B: seq<nat>, i: int, v: nat): (B': seq<nat>)
    ensures |B'| == |B|
    ensures 0 <= i < |B| ==> Bh(B', i) == v
    ensures forall j | j != i :: Bh(B', j) == Bh(B, j)
  {
    if 0 <= i < |B| then B[i := v] else B
  }

  /** Node `i`'s black height one lower (it is at least one wherever the
    * repairs lower it). */
  function Lower(B: seq<nat>, i: int): (B': seq<nat>)
    ensures |B'| == |B|
    ensures 0 <= i < |B| && Bh(B, i) > 0 ==> Bh(B', i) + 1 == Bh(B, i)
    ensures forall j | j != i :: Bh(B', j) == Bh(B, j)
  {
    SetBh(B, i, if Bh(B, i) > 0 then Bh(B, i) - 1 else 0)
  }

  ghost predicate Sized(ids: set<nat>, k: Links, C: seq<Color>, B: seq<nat>)
  {
    && |k.left| == |k.right| == |k.parent| == |C| == |B|
    && forall i | i in ids :: i < |C|
  }

  /** Node `i`'s links agree with its children's and its parent's. */
  ghost predicate Agrees(ids: set<nat>, k: Links, i: int)
  {
    var l, r, p := Get(k.left, i), Get(k.right, i), Get(k.parent, i);
    && l != i && r != i
    && (l != NIL ==> l in ids && Get(k.parent, l) == i && l != r)
    && (r != NIL ==> r in ids && Get(k.parent, r) == i)
    && (p != NIL ==> p in ids && (Get(k.left, p) == i || Get(k.right, p) == i))
  }

  ghost predicate Consistent(ids: set<nat>, k: Links)
  {
    forall i {:trigger Agrees(ids, k, i)} | i in ids :: Agrees(ids, k, i)
  }

  /** Node `i`'s parent ranks strictly lower (depths will do). */
  ghost predicate Below(k: Links, D: seq<nat>, i: int)
  {
    Get(k.parent, i) != NIL ==> Rank(D, Get(k.parent, i)) < Rank(D, i)
  }

  /** No chain of parent links comes back to where it started. */
  ghost predicate Ranked(ids: set<nat>, k: Links, D: seq<nat>)
  {
    forall i {:trigger Below(k, D, i)} | i in ids :: Below(k, D, i)
  }

  /** Property 5 at node `i`: both children have the black height `B[i]`. */
  ghost predicate Fits(k: Links, C: seq<Color>, B: seq<nat>, gone: int, i: int)
  {
    H(C, B, gone, Get(k.left, i)) == Bh(B, i) && H(C, B, gone, Get(k.right, i)) == Bh(B, i)
  }

  /** Property 5, node by node, except at node `except`. */
  ghost predicate Balanced(ids: set<nat>, k: Links, C: seq<Color>, B: seq<nat>, gone: int, except: int)
  {
    forall i {:trigger Fits(k, C, B, gone, i)} | i in ids && i != except :: Fits(k, C, B, gone, i)
  }

  /** Property 4 at node `i`, except that the red node `n` may hang below it. */
  ghost predicate RedOkAt(k: Links, C: seq<Color>, n: int, i: int)
  {
    Col(C, i) == Red ==>
      && (Col(C, Get(k.left, i)) == Black || Get(k.left, i) == n)
      && (Col(C, Get(k.right, i)) == Black || Get(k.right, i) == n)
  }

  ghost predicate RedOk(ids: set<nat>, k: Links, C: seq<Color>, n: int)
  {
    forall i {:trigger RedOkAt(k, C, n, i)} | i in ids :: RedOkAt(k, C, n, i)
  }

  /** Property 2 at node `i`: a top is black, unless it is `n`. */
  ghost predicate TopOk(k: Links, C: seq<Color>, n: int, i: int)
  {
    Get(k.parent, i) == NIL ==> Col(C, i) == Black || i == n
  }

  ghost predicate TopBlack(ids: set<nat>, k: Links, C: seq<Color>, n: int)
  {
    forall i {:trigger TopOk(k, C, n, i)} | i in ids :: TopOk(k, C, n, i)
  }

  /** The arena's nodes form a red-black tree. */
  ghost predicate RB(ids: set<nat>, k: Links, C: seq<Color>, B: seq<nat>)
  {
    Balanced(ids, k, C, B, NIL, NIL) && RedOk(ids, k, C, NIL) && TopBlack(ids, k, C, NIL)
  }

  /** During `insert_repair(n)`: `n` is red and may be the red child of a
    * red parent, or a red top; nothing else is wrong. */
  ghost predicate InsertInv(ids: set<nat>, k: Links, C: seq<Color>, B: seq<nat>, n: nat)
  {
    && n in ids && Col(C, n) == Red
    && Balanced(ids, k, C, B, NIL, NIL) && RedOk(ids, k, C, n) && TopBlack(ids, k, C, n)
  }

  /** The node `gone` about to be removed is a black leaf below some parent. */
  ghost predicate Doomed(ids: set<nat>, k: Links, C: seq<Color>, B: seq<nat>, gone: nat)
  {
    && gone in ids && Col(C, gone) == Black && Bh(B, gone) == 0
    && Get(k.left, gone) == NIL && Get(k.right, gone) == NIL && Get(k.parent, gone) != NIL
  }

  /** During `delete_repair(n)`: counting `gone` as absent, every path
    * through `n` has one black node too few; the parent of `n` is the one
    * node whose children disagree, by exactly that one. */
  ghost predicate DeleteInv(ids: set<nat>, k: Links, C: seq<Color>, B: seq<nat>, n: nat, gone: nat)
  {
    var g := Get(k.parent, n);
    && n in ids && Col(C, n) == Black && Doomed(ids, k, C, B, gone)
    && Balanced(ids, k, C, B, gone, g)
    && (g != NIL ==> H(C, B, gone, n) + 1 == Bh(B, g) == H(C, B, gone, Sib(k, g, n)))
    && RedOk(ids, k, C, NIL) && TopBlack(ids, k, C, NIL)
  }

  /** After `delete_repair`: a red-black tree once `gone` is unlinked. */
  ghost predicate Repaired(ids: set<nat>, k: Links, C: seq<Color>, B: seq<nat>, gone: nat)
  {
    && Doomed(ids, k, C, B, gone)
    && Balanced(ids, k, C, B, gone, NIL) && RedOk(ids, k, C, NIL) && TopBlack(ids, k, C, NIL)
  }

  // ---------------------------------------------------------------------
  // Links and mirrors

  /** The depth of each of the first `n` arena slots in `s`. */
  function Depths(s: Shape, n: nat): (D: seq<nat>)
    ensures |D| == n && forall i | 0 <= i < n :: D[i] == Depth(s, i)
  {
    seq(n, i => Depth(s, i))
  }

  /** A well-linked arena is consistent node by node, and its depths rank it. */
  lemma LinkedConsistent(s: Shape, k: Links)
    requires Linked(s, k)
    ensures Consistent(Ids(s), k)
    ensures Ranked(Ids(s), k, Depths(s, |k.parent|))
  {
    LinkFacts(s, NIL, k.left, k.right, k.parent);
    var D := Depths(s, |k.parent|);
    forall i | i in Ids(s) ensures Agrees(Ids(s), k, i) && Below(k, D, i) {
      if k.parent[i] != NIL {
        DepthParent(s, NIL, k.parent, i);
      }
    }
  }

  /** Every invariant reads the same in a mirror. */
  lemma SwapInvariants(ids: set<nat>, k: Links, C: seq<Color>, B: seq<nat>, gone: int, except: int, n: int)
    ensures Consistent(ids, Swap(k)) <==> Consistent(ids, k)
    ensures Balanced(ids, Swap(k), C, B, gone, except) <==> Balanced(ids, k, C, B, gone, except)
    ensures RedOk(ids, Swap(k), C, n) <==> RedOk(ids, k, C, n)
    ensures TopBlack(ids, Swap(k), C, n) <==> TopBlack(ids, k, C, n)
  {
    forall i ensures Agrees(ids, Swap(k), i) <==> Agrees(ids, k, i) {
    }
    forall i ensures Fits(Swap(k), C, B, gone, i) <==> Fits(k, C, B, gone, i) {
    }
    forall i ensures RedOkAt(Swap(k), C, n, i) <==> RedOkAt(k, C, n, i) {
    }
    forall i ensures TopOk(Swap(k), C, n, i) <==> TopOk(k, C, n, i) {
    }
  }

  lemma SwapRanked(ids: set<nat>, k: Links, D: seq<nat>)
    ensures Ranked(ids, Swap(k), D) <==> Ranked(ids, k, D)
  {
    forall i ensures Below(Swap(k), D, i) <==> Below(k, D, i) {
    }
  }

  /** The delete invariants read the same in a mirror. */
  lemma SwapDelete(ids: set<nat>, k: Links, C: seq<Color>, B: seq<nat>, n: nat, gone: nat)
    requires var g := Get(k.parent, n); g != NIL ==> (Get(k.left, g) == n) != (Get(k.right, g) == n)
    ensures DeleteInv(ids, Swap(k), C, B, n, gone) <==> DeleteInv(ids, k, C, B, n, gone)
    ensures Repaired(ids, Swap(k), C, B, gone) <==> Repaired(ids, k, C, B, gone)
  {
    SwapInvariants(ids, k, C, B, gone, Get(k.parent, n), NIL);
    SwapInvariants(ids, k, C, B, gone, NIL, NIL);
  }

  // ---------------------------------------------------------------------
  // Frames: a repair step changes the arena only around a few nodes

  /** Node `i` keeps its two children. */
  ghost predicate SameKids(k: Links, k': Links, i: int)
  {
    Get(k'.left, i) == Get(k.left, i) && Get(k'.right, i) == Get(k.right, i)
  }

  /** Node `i` keeps its parent. */
  ghost predicate SameParent(k: Links, k': Links, i: int)
  {
    Get(k'.parent, i) == Get(k.parent, i)
  }

  /** Node `i` does not come to the top. */
  ghost predicate StaysBelow(k: Links, k': Links, i: int)
  {
    Get(k'.parent, i) == NIL ==> Get(k.parent, i) == NIL
  }

  /** Links change only at the nodes `T`, and no node outside `T` comes to
    * the top. */
  ghost predicate LinkFrame(ids: set<nat>, k: Links, k': Links, T: set<int>)
  {
    && (forall i {:trigger SameKids(k, k', i)} | i in ids && i !in T :: SameKids(k, k', i))
    && (forall i {:trigger StaysBelow(k, k', i)} | i in ids && i !in T :: StaysBelow(k, k', i))
  }

  /** Node `j` keeps its colour and black height. */
  ghost predicate Kept(C: seq<Color>, B: seq<nat>, C': seq<Color>, B': seq<nat>, j: int)
  {
    Col(C', j) == Col(C, j) && Bh(B', j) == Bh(B, j)
  }

  /** Node `j` keeps its black height. */
  ghost predicate KeptBh(B: seq<nat>, B': seq<nat>, j: int)
  {
    Bh(B', j) == Bh(B, j)
  }

  /** Node `r` hangs below one of the nodes `T`. */
  ghost predicate HangsIn(ids: set<nat>, k: Links, T: set<int>, r: int)
  {
    r in ids && Get(k.parent, r) in T
  }

  /** Colours and black heights change only at the nodes `R`, whose parents
    * are in `T`, and black heights only inside `T`. */
  ghost predicate PaintFrame(ids: set<nat>, k: Links, C: seq<Color>, B: seq<nat>,
                             C': seq<Color>, B': seq<nat>, T: set<int>, R: set<int>)
  {
    && (forall j {:trigger Kept(C, B, C', B', j)} | j !in R :: Kept(C, B, C', B', j))
    && (forall j {:trigger KeptBh(B, B', j)} | j !in T :: KeptBh(B, B', j))
    && (forall r {:trigger HangsIn(ids, k, T, r)} | r in R :: HangsIn(ids, k, T, r))
  }

  /** `k'` is `k` rotated left at `x`, node by node: the right child `y`
    * of `x` moves up into the slot of `x` under its parent `g`, `x` becomes
    * the left child of `y`, and the inner grandchild `b` moves across to
    * `x`; no other node is relinked. */
  ghost predicate LeftRotated(ids: set<nat>, k: Links, k': Links, x: int)
  {
    var y := Get(k.right, x);
    var b := Get(k.left, y);
    var g := Get(k.parent, x);
    && x != NIL && y != NIL
    && Get(k'.left, y) == x && Get(k'.right, x) == b && Get(k'.parent, x) == y && Get(k'.parent, y) == g
    && Get(k'.left, x) == Get(k.left, x) && Get(k'.right, y) == Get(k.right, y)
    && (b != NIL ==> Get(k'.parent, b) == x)
    && (g != NIL ==> Get(k'.parent, g) == Get(k.parent, g))
    && (g != NIL ==>
          if Get(k.left, g) == x then Get(k'.left, g) == y && Get(k'.right, g) == Get(k.right, g)
          else Get(k'.right, g) == y && Get(k'.left, g) == Get(k.left, g))
    && LinkFrame(ids, k, k', {x, y, g})
    && (forall i {:trigger SameParent(k, k', i)} | i in ids && i != x && i != y && i != b :: SameParent(k, k', i))
  }

  /** `k'` is `k` rotated right at `x`: the mirror image. */
  ghost predicate RightRotated(ids: set<nat>, k: Links, k': Links, x: int)
  {
    LeftRotated(ids, Swap(k), Swap(k'), x)
  }

  /** Where a rotation at `x` is possible: the arena is consistent and
    * ranked, and `x` has a child on the side that moves up. */
  ghost predicate Rotatable(ids: set<nat>, k: Links, D: seq<nat>, x: int, toRight: bool)
  {
    && |k.left| == |k.right| == |k.parent| && (forall i | i in ids :: i < |k.left|)
    && Consistent(ids, k) && Ranked(ids, k, D) && x in ids
    && (if toRight then Get(k.left, x) != NIL else Get(k.right, x) != NIL)
  }

  /** `rotate_left` does what `LeftRotated` describes. */
  lemma RotateLeftIs(ids: set<nat>, k: Links, D: seq<nat>, x: nat)
    requires Rotatable(ids, k, D, x, false)
    ensures LeftRotated(ids, k, RotateLeft(k, x), x)
  {
    var y := Get(k.right, x);
    var g := Get(k.parent, x);
    assert Agrees(ids, k, x) && Agrees(ids, k, y) && Below(k, D, x) && Below(k, D, y);
    var b := Get(k.left, y);
    assert b != NIL ==> Agrees(ids, k, b) && Below(k, D, b);
    assert g != NIL ==> Agrees(ids, k, g);
    RotateLeftEffect(k, x, y, b, g);
  }

  lemma SwapSwap(k: Links)
    ensures Swap(Swap(k)) == k
  {
  }

  /** `rotate_right` does what `RightRotated` describes. */
  lemma RotateRightIs(ids: set<nat>, k: Links, D: seq<nat>, x: nat)
    requires Rotatable(ids, k, D, x, true)
    ensures RightRotated(ids, k, RotateRight(k, x), x)
  {
    SwapInvariants(ids, k, [], [], NIL, NIL, NIL);
    SwapRanked(ids, k, D);
    RotateLeftIs(ids, Swap(k), D, x);
    RotateMirror(k, x);
    SwapSwap(RotateLeft(Swap(k), x));
  }

  /** Away from the change, every node stays as balanced as it was. */
  lemma BalancedFrame(ids: set<nat>, k: Links, C: seq<Color>, B: seq<nat>,
                      k': Links, C': seq<Color>, B': seq<nat>, T: set<int>, R: set<int>, gone: int, except: int)
    requires Consistent(ids, k) && Balanced(ids, k, C, B, gone, except)
    requires LinkFrame(ids, k, k', T) && PaintFrame(ids, k, C, B, C', B', T, R)
    ensures forall i {:trigger Fits(k', C', B', gone, i)} | i in ids && i !in T && i != except ::
      Fits(k', C', B', gone, i)
  {
    forall i | i in ids && i !in T && i != except
      ensures Fits(k', C', B', gone, i)
    {
      assert Agrees(ids, k, i) && Fits(k, C, B, gone, i) && SameKids(k, k', i) && KeptBh(B, B', i);
      var l, r := Get(k.left, i), Get(k.right, i);
      assert !HangsIn(ids, k, T, l) && !HangsIn(ids, k, T, r);
      assert Kept(C, B, C', B', l) && Kept(C, B, C', B', r);
    }
  }

  /** Away from the change, no red node has a red child, provided the red
    * node `n` that could hang below a red node hangs below a touched one. */
  lemma RedOkFrame(ids: set<nat>, k: Links, C: seq<Color>, B: seq<nat>,
                   k': Links, C': seq<Color>, B': seq<nat>, T: set<int>, R: set<int>, n: int)
    requires Consistent(ids, k) && RedOk(ids, k, C, n)
    requires n == NIL || Get(k.parent, n) in T || Get(k.parent, n) in R
    requires LinkFrame(ids, k, k', T) && PaintFrame(ids, k, C, B, C', B', T, R)
    ensures forall i {:trigger RedOkAt(k', C', NIL, i)} | i in ids && i !in T && i !in R ::
      RedOkAt(k', C', NIL, i)
  {
    forall i | i in ids && i !in T && i !in R
      ensures RedOkAt(k', C', NIL, i)
    {
      assert Agrees(ids, k, i) && RedOkAt(k, C, n, i) && SameKids(k, k', i) && Kept(C, B, C', B', i);
      var l, r := Get(k.left, i), Get(k.right, i);
      assert !HangsIn(ids, k, T, l) && !HangsIn(ids, k, T, r);
      assert Kept(C, B, C', B', l) && Kept(C, B, C', B', r);
    }
  }

  /** Away from the change, no red node comes to the top. */
  lemma TopFrame(ids: set<nat>, k: Links, C: seq<Color>, B: seq<nat>,
                 k': Links, C': seq<Color>, B': seq<nat>, T: set<int>, R: set<int>, n: int)
    requires TopBlack(ids, k, C, n)
    requires n == NIL || n in T || n in R || Get(k'.parent, n) != NIL
    requires LinkFrame(ids, k, k', T) && PaintFrame(ids, k, C, B, C', B', T, R)
    ensures forall i {:trigger TopOk(k', C', NIL, i)} | i in ids && i !in T && i !in R ::
      TopOk(k', C', NIL, i)
  {
    forall i | i in ids && i !in T && i !in R
      ensures TopOk(k', C', NIL, i)
    {
      assert TopOk(k, C, n, i) && StaysBelow(k, k', i) && Kept(C, B, C', B', i);
    }
  }

  // ---------------------------------------------------------------------
  // The cases of `insert_repair`

  /** Where `insert_repair(n)` does its work. */
  ghost predicate InsertAt(ids: set<nat>, k: Links, C: seq<Color>, B: seq<nat>, D: seq<nat>, n: nat)
  {
    Sized(ids, k, C, B) && Consistent(ids, k) && Ranked(ids, k, D) && InsertInv(ids, k, C, B, n)
  }

  /** No parent: `n` is the top and turns black. */
  lemma InsertAtTop(ids: set<nat>, k: Links, C: seq<Color>, B: seq<nat>, D: seq<nat>, n: nat)
    requires InsertAt(ids, k, C, B, D, n) && Get(k.parent, n) == NIL
    ensures RB(ids, k, Paint(C, n, Black), B)
  {
    var C' := Paint(C, n, Black);
    var T, R := {NIL}, {n};
    assert Agrees(ids, k, n);
    assert LinkFrame(ids, k, k, T);
    assert PaintFrame(ids, k, C, B, C', B, T, R);
    BalancedFrame(ids, k, C, B, k, C', B, T, R, NIL, NIL);
    RedOkFrame(ids, k, C, B, k, C', B, T, R, n);
    TopFrame(ids, k, C, B, k, C', B, T, R, n);
    assert Fits(k, C, B, NIL, n);
    assert Fits(k, C', B, NIL, n);
  }

  /** A black parent: the red `n` below it breaks nothing. */
  lemma InsertUnderBlack(ids: set<nat>, k: Links, C: seq<Color>, B: seq<nat>, D: seq<nat>, n: nat)
    requires InsertAt(ids, k, C, B, D, n)
    requires Get(k.parent, n) != NIL && Col(C, Get(k.parent, n)) == Black
    ensures RB(ids, k, Paint(C, n, Red), B)
  {
    var p := Get(k.parent, n);
    assert Agrees(ids, k, n);
    assert Paint(C, n, Red) == C;
    forall i | i in ids ensures RedOkAt(k, C, NIL, i) && TopOk(k, C, NIL, i) {
      assert RedOkAt(k, C, n, i) && TopOk(k, C, n, i) && Agrees(ids, k, i);
      if Get(k.left, i) == n || Get(k.right, i) == n {
        assert i == p;
      }
    }
  }

  /** A red parent and a red uncle: parent and uncle turn black, the
    * grandparent red, and the grandparent takes over the role of `n`. */
  lemma InsertRecolour(ids: set<nat>, k: Links, C: seq<Color>, B: seq<nat>, D: seq<nat>, n: nat)
    requires InsertAt(ids, k, C, B, D, n)
    requires var p := Get(k.parent, n);
      p != NIL && Col(C, p) == Red && Col(C, Sib(k, Get(k.parent, p), p)) == Red
    ensures var p := Get(k.parent, n); var g := Get(k.parent, p); var u := Sib(k, g, p);
      && g != NIL && g in ids
      && InsertInv(ids, k, Paint(Paint(Paint(C, p, Black), u, Black), g, Red), SetBh(B, g, Bh(B, g) + 1), g)
  {
    var p := Get(k.parent, n);
    assert Agrees(ids, k, n) && TopOk(k, C, n, p);
    var g := Get(k.parent, p);
    assert Agrees(ids, k, p) && Agrees(ids, k, g);
    var u := Sib(k, g, p);
    var C' := Paint(Paint(Paint(C, p, Black), u, Black), g, Red);
    var B' := SetBh(B, g, Bh(B, g) + 1);
    assert Below(k, D, p) && Below(k, D, g) && KeptBh(B, B', Get(k.parent, g));
    assert PaintFrame(ids, k, C, B, C', B', {g, Get(k.parent, g)}, {p, u, g});
    RecolourCore(ids, k, C, B, D, n, C', B');
  }

  /** A red parent and a red uncle, and a recolouring `C'`, `B'` that
    * makes them black and the grandparent red, one level higher. */
  ghost predicate RecolourCase(ids: set<nat>, k: Links, C: seq<Color>, B: seq<nat>, D: seq<nat>, n: nat,
                               C': seq<Color>, B': seq<nat>)
  {
    var p := Get(k.parent, n); var g := Get(k.parent, p); var u := Sib(k, g, p);
    && InsertAt(ids, k, C, B, D, n)
    && p != NIL && Col(C, p) == Red && Col(C, u) == Red
    && PaintFrame(ids, k, C, B, C', B', {g, Get(k.parent, g)}, {p, u, g})
    && Col(C', p) == Black && Col(C', u) == Black && Col(C', g) == Red && Bh(B', g) == Bh(B, g) + 1
    && KeptBh(B, B', Get(k.parent, g))
  }

  /** `InsertRecolour` for any recolouring that has its effect. */
  lemma RecolourCore(ids: set<nat>, k: Links, C: seq<Color>, B: seq<nat>, D: seq<nat>, n: nat,
                     C': seq<Color>, B': seq<nat>)
    requires RecolourCase(ids, k, C, B, D, n, C', B')
    ensures var g := Get(k.parent, Get(k.parent, n));
      g != NIL && g in ids && InsertInv(ids, k, C', B', g)
  {
    var p := Get(k.parent, n);
    assert Agrees(ids, k, n) && TopOk(k, C, n, p);
    var g := Get(k.parent, p);
    assert Agrees(ids, k, p) && Agrees(ids, k, g);
    var u := Sib(k, g, p);
    RecolourFits(ids, k, C, B, D, n, C', B');
    RecolourRedOk(ids, k, C, B, D, n, C', B');
    forall i | i in ids ensures TopOk(k, C', g, i) {
      assert TopOk(k, C, n, i);
      if i != p && i != u && i != g {
        assert Kept(C, B, C', B', i);
      }
    }
  }

  lemma RecolourFits(ids: set<nat>, k: Links, C: seq<Color>, B: seq<nat>, D: seq<nat>, n: nat,
                     C': seq<Color>, B': seq<nat>)
    requires RecolourCase(ids, k, C, B, D, n, C', B')
    ensures Balanced(ids, k, C', B', NIL, NIL)
  {
    var p := Get(k.parent, n);
    assert Agrees(ids, k, n) && Below(k, D, n) && TopOk(k, C, n, p);
    var g := Get(k.parent, p);
    assert Agrees(ids, k, p) && Below(k, D, p);
    var u := Sib(k, g, p);
    assert Agrees(ids, k, g) && Fits(k, C, B, NIL, g) && RedOkAt(k, C, n, g);
    var gg := Get(k.parent, g);
    var T, R := {g, gg}, {p, u, g};
    assert LinkFrame(ids, k, k, T);
    BalancedFrame(ids, k, C, B, k, C', B', T, R, NIL, NIL);
    assert gg != NIL ==> Agrees(ids, k, gg) && Below(k, D, g) && Fits(k, C, B, NIL, gg);
    assert p !in T && u !in T && KeptBh(B, B', p) && KeptBh(B, B', u);
    forall i | i in ids ensures Fits(k, C', B', NIL, i) {
      if i == g {
      } else if i == gg {
        var o := Sib(k, gg, g);
        assert Kept(C, B, C', B', o);
      } else {
        assert i !in T;
      }
    }
  }

  lemma RecolourRedOk(ids: set<nat>, k: Links, C: seq<Color>, B: seq<nat>, D: seq<nat>, n: nat,
                      C': seq<Color>, B': seq<nat>)
    requires RecolourCase(ids, k, C, B, D, n, C', B')
    ensures RedOk(ids, k, C', Get(k.parent, Get(k.parent, n)))
  {
    var p := Get(k.parent, n);
    assert Agrees(ids, k, n) && Below(k, D, n) && TopOk(k, C, n, p);
    var g := Get(k.parent, p);
    assert Agrees(ids, k, p) && Below(k, D, p);
    var u := Sib(k, g, p);
    assert Agrees(ids, k, g);
    var gg := Get(k.parent, g);
    var T, R := {g, gg}, {p, u, g};
    assert LinkFrame(ids, k, k, T);
    RedOkFrame(ids, k, C, B, k, C', B', T, R, n);
    assert gg != NIL ==> Agrees(ids, k, gg) && Below(k, D, g) && RedOkAt(k, C, n, gg);
    forall i | i in ids ensures RedOkAt(k, C', g, i) {
      if i == p || i == u || i == g {
      } else if i == gg {
        assert Get(k.left, gg) != n && Get(k.right, gg) != n;
        var o := Sib(k, gg, g);
        assert Kept(C, B, C', B', o) && Kept(C, B, C', B', gg);
      } else {
        assert RedOkAt(k, C', NIL, i);
      }
    }
  }

  /** A black uncle and `n` the right child of a left child: rotating
    * left at the parent makes the parent the left child of `n`, and the
    * parent takes over the role of `n`. */
  lemma InsertInner(ids: set<nat>, k: Links, C: seq<Color>, B: seq<nat>, D: seq<nat>, n: nat, k': Links)
    requires InsertAt(ids, k, C, B, D, n)
    requires var p := Get(k.parent, n);
      && p != NIL && Col(C, p) == Red && Get(k.right, p) == n && Get(k.left, Get(k.parent, p)) == p
    requires LeftRotated(ids, k, k', Get(k.parent, n))
    ensures InsertInv(ids, k', C, B, Get(k.parent, n))
  {
    var p := Get(k.parent, n);
    assert Agrees(ids, k, n) && Below(k, D, n) && TopOk(k, C, n, p);
    var g := Get(k.parent, p);
    assert Agrees(ids, k, p) && Below(k, D, p) && Agrees(ids, k, g);
    var b := Get(k.left, n);
    assert b != NIL ==> Agrees(ids, k, b) && Below(k, D, b);
    var T, R: set<int> := {p, n, g}, {};
    assert PaintFrame(ids, k, C, B, C, B, T, R);
    BalancedFrame(ids, k, C, B, k', C, B, T, R, NIL, NIL);
    RedOkFrame(ids, k, C, B, k', C, B, T, R, n);
    TopFrame(ids, k, C, B, k', C, B, T, R, n);
    assert Fits(k, C, B, NIL, p) && Fits(k, C, B, NIL, n) && Fits(k, C, B, NIL, g);
    assert RedOkAt(k, C, n, p) && RedOkAt(k, C, n, n) && RedOkAt(k, C, n, g) && TopOk(k, C, n, g);
    forall i | i in ids ensures Fits(k', C, B, NIL, i) && RedOkAt(k', C, p, i) && TopOk(k', C, p, i) {
      if i !in T {
        assert RedOkAt(k', C, NIL, i) && TopOk(k', C, NIL, i);
      }
    }
  }

  /** The situation of the outer case of `insert_repair`: `n` is the right
    * child of a red right child `p` of `g`, whose left child is black. */
  ghost predicate OuterCase(ids: set<nat>, k: Links, C: seq<Color>, B: seq<nat>, D: seq<nat>, n: nat)
  {
    var p := Get(k.parent, n);
    && InsertAt(ids, k, C, B, D, n)
    && p != NIL && Col(C, p) == Red && Get(k.right, p) == n
    && Get(k.right, Get(k.parent, p)) == p && Col(C, Get(k.left, Get(k.parent, p))) == Black
  }

  /** A black uncle and `n` the right child of a right child: rotating left
    * at the grandparent, the parent turns black and the grandparent red. */
  lemma InsertOuter(ids: set<nat>, k: Links, C: seq<Color>, B: seq<nat>, D: seq<nat>, n: nat, k': Links)
    requires OuterCase(ids, k, C, B, D, n)
    requires LeftRotated(ids, k, k', Get(k.parent, Get(k.parent, n)))
    ensures var p := Get(k.parent, n);
      RB(ids, k', Paint(Paint(C, p, Black), Get(k.parent, p), Red), B)
  {
    var p := Get(k.parent, n);
    assert Agrees(ids, k, n) && Below(k, D, n) && TopOk(k, C, n, p);
    var g := Get(k.parent, p);
    assert Agrees(ids, k, p) && Below(k, D, p) && Agrees(ids, k, g);
    var b, gg, u := Get(k.left, p), Get(k.parent, g), Get(k.left, g);
    assert b != NIL ==> Agrees(ids, k, b) && Below(k, D, b);
    assert gg != NIL ==> Agrees(ids, k, gg) && Below(k, D, g);
    var C' := Paint(Paint(C, p, Black), g, Red);
    var T, R := {g, p, gg}, {p, g};
    assert SameParent(k, k', n);
    assert PaintFrame(ids, k, C, B, C', B, T, R);
    BalancedFrame(ids, k, C, B, k', C', B, T, R, NIL, NIL);
    RedOkFrame(ids, k, C, B, k', C', B, T, R, n);
    TopFrame(ids, k, C, B, k', C', B, T, R, n);
    assert Fits(k, C, B, NIL, p) && Fits(k, C, B, NIL, g);
    assert RedOkAt(k, C, n, p) && RedOkAt(k, C, n, g);
    forall i | i in ids ensures Fits(k', C', B, NIL, i) {
      if i == gg {
        assert Fits(k, C, B, NIL, gg);
      }
    }
    forall i | i in ids ensures RedOkAt(k', C', NIL, i) && TopOk(k', C', NIL, i) {
      if i == gg {
        assert RedOkAt(k, C, n, gg) && TopOk(k, C, n, gg);
      }
    }
  }

  /** The mirror image of `InsertInner`: `n` the left child of a right
    * child, rotating right at the parent. */
  lemma InsertInnerMirror(ids: set<nat>, k: Links, C: seq<Color>, B: seq<nat>, D: seq<nat>, n: nat, k': Links)
    requires InsertAt(ids, k, C, B, D, n)
    requires var p := Get(k.parent, n);
      && p != NIL && Col(C, p) == Red && Get(k.left, p) == n && Get(k.right, Get(k.parent, p)) == p
    requires RightRotated(ids, k, k', Get(k.parent, n))
    ensures InsertInv(ids, k', C, B, Get(k.parent, n))
  {
    var p := Get(k.parent, n);
    SwapInvariants(ids, k, C, B, NIL, NIL, n);
    SwapInvariants(ids, k', C, B, NIL, NIL, p);
    SwapRanked(ids, k, D);
    InsertInner(ids, Swap(k), C, B, D, n, Swap(k'));
  }

  /** The mirror image of `InsertOuter`: `n` the left child of a left
    * child, rotating right at the grandparent. */
  lemma InsertOuterMirror(ids: set<nat>, k: Links, C: seq<Color>, B: seq<nat>, D: seq<nat>, n: nat, k': Links)
    requires OuterCase(ids, Swap(k), C, B, D, n)
    requires RightRotated(ids, k, k', Get(k.parent, Get(k.parent, n)))
    ensures var p := Get(k.parent, n);
      RB(ids, k', Paint(Paint(C, p, Black), Get(k.parent, p), Red), B)
  {
    var p := Get(k.parent, n);
    var C' := Paint(Paint(C, p, Black), Get(k.parent, p), Red);
    InsertOuter(ids, Swap(k), C, B, D, n, Swap(k'));
    SwapInvariants(ids, k', C', B, NIL, NIL, NIL);
  }

  // ---------------------------------------------------------------------
  // The cases of `delete_repair`

  /** Where `delete_repair(n)` does its work. */
  ghost predicate DeleteAt(ids: set<nat>, k: Links, C: seq<Color>, B: seq<nat>, D: seq<nat>, n: nat, gone: nat)
  {
    Sized(ids, k, C, B) && Consistent(ids, k) && Ranked(ids, k, D) && DeleteInv(ids, k, C, B, n, gone)
  }

  /** A top `n` leaves nothing to repair. */
  lemma DeleteAtTop(ids: set<nat>, k: Links, C: seq<Color>, B: seq<nat>, D: seq<nat>, n: nat, gone: nat)
    requires DeleteAt(ids, k, C, B, D, n, gone) && Get(k.parent, n) == NIL
    ensures Repaired(ids, k, C, B, gone)
  {
  }

  /** Below its parent `p`, the node `n` has a sibling `s`, present since
    * its side carries more black nodes; `n` hangs on exactly one side. */
  lemma DeleteFamily(ids: set<nat>, k: Links, C: seq<Color>, B: seq<nat>, D: seq<nat>, n: nat, gone: nat)
    requires DeleteAt(ids, k, C, B, D, n, gone) && Get(k.parent, n) != NIL
    ensures var p := Get(k.parent, n); var s := Sib(k, p, n);
      && p in ids && s in ids && s != n && s != gone && Get(k.parent, s) == p && Bh(B, p) > 0
      && (Get(k.left, p) == n || Get(k.right, p) == n)
      && (Get(k.left, p) == n <==> Get(k.right, p) == s)
      && (Get(k.left, p) == n <==> Get(k.right, p) != n)
  {
    var p := Get(k.parent, n);
    assert Agrees(ids, k, n) && Agrees(ids, k, p);
  }

  /** The red-sibling case (`n` on the left): the sibling `s` turns black,
    * the parent `p` red, and a left rotation at `p` brings `s` up. */
  ghost predicate RedSiblingCase(ids: set<nat>, k: Links, C: seq<Color>, B: seq<nat>, D: seq<nat>, n: nat, gone: nat,
                                 k': Links, C': seq<Color>)
  {
    var p := Get(k.parent, n); var s := Get(k.right, p);
    && DeleteAt(ids, k, C, B, D, n, gone) && p != NIL && Get(k.left, p) == n && Col(C, s) == Red
    && LeftRotated(ids, k, k', p)
    && PaintFrame(ids, k, C, B, C', B, {p, s, Get(k.parent, p)}, {s, p})
    && Col(C', s) == Black && Col(C', p) == Red
  }

  /** After the red-sibling step, `n` still lacks one black node, under a
    * red parent whose other child is black. */
  lemma RedSiblingCore(ids: set<nat>, k: Links, C: seq<Color>, B: seq<nat>, D: seq<nat>, n: nat, gone: nat,
                       k': Links, C': seq<Color>)
    requires RedSiblingCase(ids, k, C, B, D, n, gone, k', C')
    ensures DeleteInv(ids, k', C', B, n, gone)
    ensures Col(C', Get(k'.right, Get(k.parent, n))) == Black
  {
    var p := Get(k.parent, n);
    assert Agrees(ids, k, n) && Below(k, D, n);
    var s := Get(k.right, p);
    assert Agrees(ids, k, p) && Agrees(ids, k, s) && Below(k, D, s);
    var gp, sl := Get(k.parent, p), Get(k.left, s);
    assert gp != NIL ==> Agrees(ids, k, gp) && Below(k, D, p);
    assert sl != NIL ==> Agrees(ids, k, sl) && Below(k, D, sl);
    assert RedOkAt(k, C, NIL, p) && RedOkAt(k, C, NIL, s) && Fits(k, C, B, gone, s);
    assert SameParent(k, k', n) && Kept(C, B, C', B, n) && Kept(C, B, C', B, sl);
    assert SameKids(k, k', gone) && StaysBelow(k, k', gone) && Kept(C, B, C', B, gone);
    RedSiblingFits(ids, k, C, B, D, n, gone, k', C');
    RedSiblingRedOk(ids, k, C, B, D, n, gone, k', C');
  }

  lemma RedSiblingFits(ids: set<nat>, k: Links, C: seq<Color>, B: seq<nat>, D: seq<nat>, n: nat, gone: nat,
                       k': Links, C': seq<Color>)
    requires RedSiblingCase(ids, k, C, B, D, n, gone, k', C')
    ensures Balanced(ids, k', C', B, gone, Get(k.parent, n))
  {
    var p := Get(k.parent, n);
    assert Agrees(ids, k, n) && Below(k, D, n);
    var s := Get(k.right, p);
    assert Agrees(ids, k, p) && Agrees(ids, k, s) && Below(k, D, s);
    var gp, sl := Get(k.parent, p), Get(k.left, s);
    assert gp != NIL ==> Agrees(ids, k, gp) && Below(k, D, p) && Fits(k, C, B, gone, gp);
    assert sl != NIL ==> Agrees(ids, k, sl) && Below(k, D, sl);
    assert RedOkAt(k, C, NIL, p) && Fits(k, C, B, gone, s);
    var T, R := {p, s, gp}, {s, p};
    BalancedFrame(ids, k, C, B, k', C', B, T, R, gone, p);
    var sr := Get(k.right, s);
    assert Kept(C, B, C', B, sr);
    forall i | i in ids && i != p ensures Fits(k', C', B, gone, i) {
      if i == s {
      } else if i == gp {
        var o := Sib(k, gp, p);
        assert Kept(C, B, C', B, o);
      } else {
        assert i !in T;
      }
    }
  }

  lemma RedSiblingRedOk(ids: set<nat>, k: Links, C: seq<Color>, B: seq<nat>, D: seq<nat>, n: nat, gone: nat,
                        k': Links, C': seq<Color>)
    requires RedSiblingCase(ids, k, C, B, D, n, gone, k', C')
    ensures RedOk(ids, k', C', NIL) && TopBlack(ids, k', C', NIL)
  {
    var p := Get(k.parent, n);
    assert Agrees(ids, k, n) && Below(k, D, n);
    var s := Get(k.right, p);
    assert Agrees(ids, k, p) && Agrees(ids, k, s) && Below(k, D, s);
    var gp, sl := Get(k.parent, p), Get(k.left, s);
    assert gp != NIL ==> Agrees(ids, k, gp) && Below(k, D, p) && RedOkAt(k, C, NIL, gp) && TopOk(k, C, NIL, gp);
    assert sl != NIL ==> Agrees(ids, k, sl) && Below(k, D, sl);
    assert RedOkAt(k, C, NIL, p) && RedOkAt(k, C, NIL, s);
    var T, R := {p, s, gp}, {s, p};
    RedOkFrame(ids, k, C, B, k', C', B, T, R, NIL);
    TopFrame(ids, k, C, B, k', C', B, T, R, NIL);
    assert Kept(C, B, C', B, n) && Kept(C, B, C', B, sl);
    forall i | i in ids ensures RedOkAt(k', C', NIL, i) && TopOk(k', C', NIL, i) {
      if i == p || i == s {
      } else if i == gp {
        var o := Sib(k, gp, p);
        assert Kept(C, B, C', B, o) && Kept(C, B, C', B, gp);
      } else {
        assert i !in T && i !in R;
      }
    }
  }

  /** A black sibling with two black children below a parent of colour
    * `pc`: the sibling turns red and the parent black, and the parent's
    * black height drops by one. */
  ghost predicate BlackNephewsCase(ids: set<nat>, k: Links, C: seq<Color>, B: seq<nat>, D: seq<nat>, n: nat, gone: nat,
                                   pc: Color, C': seq<Color>, B': seq<nat>)
  {
    var p := Get(k.parent, n); var s := Sib(k, p, n);
    && DeleteAt(ids, k, C, B, D, n, gone) && p != NIL && Col(C, p) == pc && Col(C, s) == Black
    && Col(C, Get(k.left, s)) == Black && Col(C, Get(k.right, s)) == Black
    && PaintFrame(ids, k, C, B, C', B', {p, Get(k.parent, p)}, {s, p})
    && Col(C', s) == Red && Col(C', p) == Black && Bh(B', p) + 1 == Bh(B, p)
    && KeptBh(B, B', Get(k.parent, p))
  }

  /** The parent was black: the shortfall of one black node moves up from
    * `n` to its parent. */
  lemma PushUpCore(ids: set<nat>, k: Links, C: seq<Color>, B: seq<nat>, D: seq<nat>, n: nat, gone: nat,
                   C': seq<Color>, B': seq<nat>)
    requires BlackNephewsCase(ids, k, C, B, D, n, gone, Black, C', B')
    ensures DeleteInv(ids, k, C', B', Get(k.parent, n), gone)
  {
    var p := Get(k.parent, n);
    DeleteFamily(ids, k, C, B, D, n, gone);
    var s := Sib(k, p, n);
    assert Agrees(ids, k, n) && Below(k, D, n) && Agrees(ids, k, p) && Agrees(ids, k, s) && Fits(k, C, B, gone, s);
    var gp := Get(k.parent, p);
    assert gp != NIL ==> Agrees(ids, k, gp) && Below(k, D, p) && Fits(k, C, B, gone, gp);
    assert Kept(C, B, C', B', gone) && Kept(C, B, C', B', Sib(k, gp, p));
    BlackNephewsFits(ids, k, C, B, D, n, gone, Black, C', B');
    BlackNephewsRedOk(ids, k, C, B, D, n, gone, Black, C', B');
  }

  /** The parent was red: it takes over the missing black node and the
    * tree is repaired. */
  lemma AbsorbCore(ids: set<nat>, k: Links, C: seq<Color>, B: seq<nat>, D: seq<nat>, n: nat, gone: nat,
                   C': seq<Color>, B': seq<nat>)
    requires BlackNephewsCase(ids, k, C, B, D, n, gone, Red, C', B')
    ensures Repaired(ids, k, C', B', gone)
  {
    var p := Get(k.parent, n);
    DeleteFamily(ids, k, C, B, D, n, gone);
    var gp := Get(k.parent, p);
    assert Agrees(ids, k, n) && Agrees(ids, k, p);
    BlackNephewsFits(ids, k, C, B, D, n, gone, Red, C', B');
    BlackNephewsRedOk(ids, k, C, B, D, n, gone, Red, C', B');
    assert gp != NIL ==> Agrees(ids, k, gp) && Below(k, D, p) && Fits(k, C, B, gone, gp) && RedOkAt(k, C, NIL, gp);
    assert Kept(C, B, C', B', gone) && Kept(C, B, C', B', Sib(k, gp, p));
    assert Fits(k, C', B', gone, gp);
  }

  /** With the black nephews, every node but the grandparent keeps its
    * two sides level, and the grandparent too when the parent was red. */
  lemma BlackNephewsFits(ids: set<nat>, k: Links, C: seq<Color>, B: seq<nat>, D: seq<nat>, n: nat, gone: nat,
                         pc: Color, C': seq<Color>, B': seq<nat>)
    requires BlackNephewsCase(ids, k, C, B, D, n, gone, pc, C', B')
    ensures Balanced(ids, k, C', B', gone, Get(k.parent, Get(k.parent, n)))
  {
    var p := Get(k.parent, n);
    DeleteFamily(ids, k, C, B, D, n, gone);
    var s := Sib(k, p, n);
    assert Agrees(ids, k, n) && Below(k, D, n) && Agrees(ids, k, p) && Fits(k, C, B, gone, s);
    var gp := Get(k.parent, p);
    assert gp != NIL ==> Agrees(ids, k, gp) && Below(k, D, p);
    var T, R := {p, gp}, {s, p};
    assert LinkFrame(ids, k, k, T);
    BalancedFrame(ids, k, C, B, k, C', B', T, R, gone, p);
    var sl, sr := Get(k.left, s), Get(k.right, s);
    assert Agrees(ids, k, s) && Below(k, D, s);
    assert sl != NIL ==> Below(k, D, sl);
    assert sr != NIL ==> Below(k, D, sr);
    assert Agrees(ids, k, s) && Kept(C, B, C', B', sl) && Kept(C, B, C', B', sr) && Kept(C, B, C', B', n);
    assert KeptBh(B, B', s);
    forall i | i in ids && i != gp ensures Fits(k, C', B', gone, i) {
      if i == p {
      } else if i == s {
      } else {
        assert i !in T;
      }
    }
  }

  lemma BlackNephewsRedOk(ids: set<nat>, k: Links, C: seq<Color>, B: seq<nat>, D: seq<nat>, n: nat, gone: nat,
                          pc: Color, C': seq<Color>, B': seq<nat>)
    requires BlackNephewsCase(ids, k, C, B, D, n, gone, pc, C', B')
    ensures RedOk(ids, k, C', NIL) && TopBlack(ids, k, C', NIL)
  {
    var p := Get(k.parent, n);
    DeleteFamily(ids, k, C, B, D, n, gone);
    var s := Sib(k, p, n);
    assert Agrees(ids, k, n) && Below(k, D, n) && Agrees(ids, k, p) && Agrees(ids, k, s);
    var gp := Get(k.parent, p);
    assert gp != NIL ==> Agrees(ids, k, gp) && Below(k, D, p) && RedOkAt(k, C, NIL, gp) && TopOk(k, C, NIL, gp);
    var T, R := {p, gp}, {s, p};
    assert LinkFrame(ids, k, k, T);
    RedOkFrame(ids, k, C, B, k, C', B', T, R, NIL);
    TopFrame(ids, k, C, B, k, C', B', T, R, NIL);
    var sl, sr := Get(k.left, s), Get(k.right, s);
    assert Agrees(ids, k, s) && Below(k, D, s);
    assert sl != NIL ==> Below(k, D, sl);
    assert sr != NIL ==> Below(k, D, sr);
    assert Kept(C, B, C', B', sl) && Kept(C, B, C', B', sr) && Kept(C, B, C', B', n);
    forall i | i in ids ensures RedOkAt(k, C', NIL, i) && TopOk(k, C', NIL, i) {
      if i == p || i == s {
      } else if i == gp {
        assert Kept(C, B, C', B', gp) && Kept(C, B, C', B', Sib(k, gp, p));
      } else {
        assert i !in T && i !in R;
      }
    }
  }

  /** The near-red-nephew case (`n` on the right): the black sibling `s`
    * has a black outer (left) and a red inner (right) child `c`; a left
    * rotation at `s` brings `c` up, and `c` turns black and `s` red. */
  ghost predicate NearRedCase(ids: set<nat>, k: Links, C: seq<Color>, B: seq<nat>, D: seq<nat>, n: nat, gone: nat,
                              k': Links, C': seq<Color>)
  {
    var p := Get(k.parent, n); var s := Get(k.left, p); var c := Get(k.right, s);
    && DeleteAt(ids, k, C, B, D, n, gone) && p != NIL && Get(k.right, p) == n
    && Col(C, s) == Black && Col(C, Get(k.left, s)) == Black && Col(C, c) == Red
    && LeftRotated(ids, k, k', s)
    && PaintFrame(ids, k, C, B, C', B, {s, c, p}, {c, s})
    && Col(C', c) == Black && Col(C', s) == Red
  }

  /** After the near-red-nephew step, the new sibling is black with a red
    * outer child. */
  lemma NearRedCore(ids: set<nat>, k: Links, C: seq<Color>, B: seq<nat>, D: seq<nat>, n: nat, gone: nat,
                    k': Links, C': seq<Color>)
    requires NearRedCase(ids, k, C, B, D, n, gone, k', C')
    ensures DeleteInv(ids, k', C', B, n, gone)
    ensures var p := Get(k.parent, n);
      && Get(k'.parent, n) == p && Get(k'.right, p) == n
      && Col(C', Get(k'.left, p)) == Black && Col(C', Get(k'.left, Get(k'.left, p))) == Red
  {
    var p := Get(k.parent, n);
    DeleteFamily(ids, k, C, B, D, n, gone);
    var s := Get(k.left, p);
    assert Agrees(ids, k, n) && Agrees(ids, k, p) && Agrees(ids, k, s) && Below(k, D, s) && Fits(k, C, B, gone, s);
    var c := Get(k.right, s);
    assert Agrees(ids, k, c) && Below(k, D, c);
    assert SameParent(k, k', n) && Kept(C, B, C', B, n);
    assert SameKids(k, k', gone) && StaysBelow(k, k', gone) && Kept(C, B, C', B, gone);
    NearRedFits(ids, k, C, B, D, n, gone, k', C');
    NearRedRedOk(ids, k, C, B, D, n, gone, k', C');
  }

  lemma NearRedFits(ids: set<nat>, k: Links, C: seq<Color>, B: seq<nat>, D: seq<nat>, n: nat, gone: nat,
                    k': Links, C': seq<Color>)
    requires NearRedCase(ids, k, C, B, D, n, gone, k', C')
    ensures Balanced(ids, k', C', B, gone, Get(k.parent, n))
  {
    var p := Get(k.parent, n);
    DeleteFamily(ids, k, C, B, D, n, gone);
    var s := Get(k.left, p);
    assert Agrees(ids, k, n) && Agrees(ids, k, p) && Agrees(ids, k, s) && Below(k, D, s) && Fits(k, C, B, gone, s);
    var c := Get(k.right, s);
    assert Agrees(ids, k, c) && Below(k, D, c) && Fits(k, C, B, gone, c) && RedOkAt(k, C, NIL, c);
    var b := Get(k.left, c);
    assert b != NIL ==> Agrees(ids, k, b) && Below(k, D, b);
    var T, R := {s, c, p}, {c, s};
    BalancedFrame(ids, k, C, B, k', C', B, T, R, gone, p);
    var a, d := Get(k.left, s), Get(k.right, c);
    assert a != NIL ==> Agrees(ids, k, a) && Below(k, D, a);
    assert d != NIL ==> Agrees(ids, k, d) && Below(k, D, d);
    assert Kept(C, B, C', B, a) && Kept(C, B, C', B, b) && Kept(C, B, C', B, d);
    forall i | i in ids && i != p ensures Fits(k', C', B, gone, i) {
      if i == s {
      } else if i == c {
      } else {
        assert i !in T;
      }
    }
  }

  lemma NearRedRedOk(ids: set<nat>, k: Links, C: seq<Color>, B: seq<nat>, D: seq<nat>, n: nat, gone: nat,
                     k': Links, C': seq<Color>)
    requires NearRedCase(ids, k, C, B, D, n, gone, k', C')
    ensures RedOk(ids, k', C', NIL) && TopBlack(ids, k', C', NIL)
  {
    var p := Get(k.parent, n);
    DeleteFamily(ids, k, C, B, D, n, gone);
    var s := Get(k.left, p);
    assert Agrees(ids, k, n) && Agrees(ids, k, p) && Agrees(ids, k, s) && Below(k, D, s);
    var c := Get(k.right, s);
    assert Agrees(ids, k, c) && Below(k, D, c) && RedOkAt(k, C, NIL, c) && RedOkAt(k, C, NIL, p);
    var b := Get(k.left, c);
    assert b != NIL ==> Agrees(ids, k, b) && Below(k, D, b);
    var T, R := {s, c, p}, {c, s};
    RedOkFrame(ids, k, C, B, k', C', B, T, R, NIL);
    TopFrame(ids, k, C, B, k', C', B, T, R, NIL);
    assert TopOk(k, C, NIL, p);
    var a := Get(k.left, s);
    assert a != NIL ==> Agrees(ids, k, a) && Below(k, D, a);
    assert Kept(C, B, C', B, a) && Kept(C, B, C', B, b) && Kept(C, B, C', B, n) && Kept(C, B, C', B, p);
    forall i | i in ids ensures RedOkAt(k', C', NIL, i) && TopOk(k', C', NIL, i) {
      if i == p || i == s || i == c {
      } else {
        assert i !in T && i !in R;
      }
    }
  }

  /** The far-red-nephew case (`n` on the left): the black sibling `s` has
    * a red outer (right) child `c`; a left rotation at the parent `p`
    * brings `s` up in `p`'s colour, and `p` and `c` turn black. */
  ghost predicate FarRedCase(ids: set<nat>, k: Links, C: seq<Color>, B: seq<nat>, D: seq<nat>, n: nat, gone: nat,
                             k': Links, C': seq<Color>, B': seq<nat>)
  {
    var p := Get(k.parent, n); var s := Get(k.right, p); var c := Get(k.right, s);
    && DeleteAt(ids, k, C, B, D, n, gone) && p != NIL && Get(k.left, p) == n
    && Col(C, s) == Black && Col(C, c) == Red
    && LeftRotated(ids, k, k', p)
    && PaintFrame(ids, k, C, B, C', B', {p, s, Get(k.parent, p)}, {s, p, c})
    && Col(C', s) == Col(C, p) && Col(C', p) == Black && Col(C', c) == Black
    && Bh(B', p) + 1 == Bh(B, p) && Bh(B', s) == Bh(B, p) && KeptBh(B, B', Get(k.parent, p))
  }

  /** The far-red-nephew step repairs the tree. */
  lemma FarRedCore(ids: set<nat>, k: Links, C: seq<Color>, B: seq<nat>, D: seq<nat>, n: nat, gone: nat,
                   k': Links, C': seq<Color>, B': seq<nat>)
    requires FarRedCase(ids, k, C, B, D, n, gone, k', C', B')
    ensures Repaired(ids, k', C', B', gone)
    ensures var p := Get(k.parent, n); Get(k'.parent, n) == p && Get(k'.left, p) == n
  {
    var p := Get(k.parent, n);
    DeleteFamily(ids, k, C, B, D, n, gone);
    var s := Get(k.right, p);
    assert Agrees(ids, k, n) && Agrees(ids, k, p) && Agrees(ids, k, s) && Below(k, D, s);
    var c, gp := Get(k.right, s), Get(k.parent, p);
    assert Agrees(ids, k, c) && Below(k, D, c);
    assert gp != NIL ==> Agrees(ids, k, gp) && Below(k, D, p);
    assert SameParent(k, k', n) && Kept(C, B, C', B', n);
    assert SameKids(k, k', gone) && StaysBelow(k, k', gone) && Kept(C, B, C', B', gone);
    FarRedFits(ids, k, C, B, D, n, gone, k', C', B');
    FarRedRedOk(ids, k, C, B, D, n, gone, k', C', B');
  }

  lemma FarRedFits(ids: set<nat>, k: Links, C: seq<Color>, B: seq<nat>, D: seq<nat>, n: nat, gone: nat,
                   k': Links, C': seq<Color>, B': seq<nat>)
    requires FarRedCase(ids, k, C, B, D, n, gone, k', C', B')
    ensures Balanced(ids, k', C', B', gone, NIL)
  {
    var p := Get(k.parent, n);
    DeleteFamily(ids, k, C, B, D, n, gone);
    var s := Get(k.right, p);
    assert Agrees(ids, k, n) && Agrees(ids, k, p) && Agrees(ids, k, s) && Below(k, D, s) && Fits(k, C, B, gone, s);
    var c, gp, b := Get(k.right, s), Get(k.parent, p), Get(k.left, s);
    assert Agrees(ids, k, c) && Below(k, D, c) && Fits(k, C, B, gone, c);
    assert gp != NIL ==> Agrees(ids, k, gp) && Below(k, D, p) && Fits(k, C, B, gone, gp);
    assert b != NIL ==> Agrees(ids, k, b) && Below(k, D, b);
    var T, R := {p, s, gp}, {s, p, c};
    BalancedFrame(ids, k, C, B, k', C', B', T, R, gone, p);
    assert n != s && n != p && n != c;
    assert b != s && b != p && b != c;
    assert Kept(C, B, C', B', n) && Kept(C, B, C', B', b) && KeptBh(B, B', c);
    assert Get(k'.left, p) == n && Get(k'.right, p) == b;
    assert Sib(k, p, n) == s && H(C, B, gone, n) + 1 == Bh(B, p) == H(C, B, gone, s);
    assert H(C', B', gone, n) == H(C, B, gone, n) && H(C', B', gone, b) == H(C, B, gone, b);
    assert Fits(k', C', B', gone, p);
    assert Get(k'.left, s) == p && Get(k'.right, s) == c && Bh(B', c) == Bh(B, c) && c != gone;
    assert Fits(k', C', B', gone, s);
    if gp != NIL {
      assert H(C', B', gone, s) == H(C, B, gone, p);
      assert Kept(C, B, C', B', Sib(k, gp, p));
      if Get(k.left, gp) == p {
        assert Get(k'.left, gp) == s && Get(k'.right, gp) == Get(k.right, gp);
      } else {
        assert Get(k'.right, gp) == s && Get(k'.left, gp) == Get(k.left, gp);
      }
      assert Fits(k', C', B', gone, gp);
    }
    forall i | i in ids ensures Fits(k', C', B', gone, i) {
      if i != p && i != s && i != gp {
        assert i !in T;
      }
    }
  }

  lemma FarRedRedOk(ids: set<nat>, k: Links, C: seq<Color>, B: seq<nat>, D: seq<nat>, n: nat, gone: nat,
                    k': Links, C': seq<Color>, B': seq<nat>)
    requires FarRedCase(ids, k, C, B, D, n, gone, k', C', B')
    ensures RedOk(ids, k', C', NIL) && TopBlack(ids, k', C', NIL)
  {
    var p := Get(k.parent, n);
    DeleteFamily(ids, k, C, B, D, n, gone);
    var s := Get(k.right, p);
    assert Agrees(ids, k, n) && Agrees(ids, k, p) && Agrees(ids, k, s) && Below(k, D, s);
    var c, gp, b := Get(k.right, s), Get(k.parent, p), Get(k.left, s);
    assert Agrees(ids, k, c) && Below(k, D, c) && RedOkAt(k, C, NIL, p) && TopOk(k, C, NIL, p);
    assert gp != NIL ==> Agrees(ids, k, gp) && Below(k, D, p) && RedOkAt(k, C, NIL, gp) && TopOk(k, C, NIL, gp);
    assert b != NIL ==> Agrees(ids, k, b) && Below(k, D, b);
    var T, R := {p, s, gp}, {s, p, c};
    RedOkFrame(ids, k, C, B, k', C', B', T, R, NIL);
    TopFrame(ids, k, C, B, k', C', B', T, R, NIL);
    assert Kept(C, B, C', B', n) && Kept(C, B, C', B', b);
    forall i | i in ids ensures RedOkAt(k', C', NIL, i) && TopOk(k', C', NIL, i) {
      if i == p || i == s || i == c {
      } else if i == gp {
        assert Kept(C, B, C', B', gp) && Kept(C, B, C', B', Sib(k, gp, p));
      } else {
        assert i !in T && i !in R;
      }
    }
  }
}
