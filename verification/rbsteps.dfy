/** The navigation helpers of src/rbtree.rs (`grandparent`, `sibling`,
  * `is_left`, `is_right`) on arena links, each block of `delete_repair` as
  * a function of the links and colours it starts from, the whole of
  * `delete_repair` as their composition, and, block by block, the proof
  * that each step keeps the repair invariant of RbInvariant. */
module RbSteps {
  import opened Arena
  import opened RbColor
  import opened RbLinks
  import opened RbInvariant

  /** `grandparent`: the parent's parent, `NIL` when there is none. */
  function Grandparent(k: Links, n: int): int
  {
    Get(k.parent, Get(k.parent, n))
  }

  /** `sibling`: the parent's right child when `n` is its left child, its
    * left child otherwise; `NIL` without a parent. */
  function Sibling(k: Links, n: int): int
  {
    var p := Get(k.parent, n);
    if p == NIL then NIL else Sib(k, p, n)
  }

  /** `is_left`: `n` has a parent and is its left child. */
  predicate IsLeft(k: Links, n: int)
  {
    var p := Get(k.parent, n);
    p != NIL && Get(k.left, p) == n
  }

  /** `is_right`: `n` has a parent and is its right child. */
  predicate IsRight(k: Links, n: int)
  {
    var p := Get(k.parent, n);
    p != NIL && Get(k.right, p) == n
  }

  /** What node-level `insert` and `delete` return for the node they
    * started from: its parent if it has one, else the node itself. */
  function Recovered(k: Links, x: int): int
  {
    var p := Get(k.parent, x);
    if p != NIL then p else x
  }

  /** On a consistent arena the helpers say what their names promise: a node
    * with a parent is exactly one of its children, its sibling is the other
    * child, and every node they return is in the arena. */
  lemma Family(ids: set<nat>, k: Links, n: nat)
    requires Consistent(ids, k) && n in ids
    ensures var p := Get(k.parent, n);
      && (p != NIL <==> IsLeft(k, n) || IsRight(k, n))
      && !(IsLeft(k, n) && IsRight(k, n))
      && (IsLeft(k, n) ==> Sibling(k, n) == Get(k.right, p))
      && (IsRight(k, n) ==> Sibling(k, n) == Get(k.left, p))
      && (p != NIL ==> p in ids)
      && (Sibling(k, n) != NIL ==> Sibling(k, n) in ids && Sibling(k, n) != n && Get(k.parent, Sibling(k, n)) == p)
      && (Grandparent(k, n) != NIL ==> Grandparent(k, n) in ids && Get(k.parent, Get(k.parent, n)) == Grandparent(k, n))
  {
    assert Agrees(ids, k, n);
    var p := Get(k.parent, n);
    if p != NIL {
      assert Agrees(ids, k, p);
    }
  }

  // ---------------------------------------------------------------------
  // `delete_repair`, block by block

  /** The links and colours of the arena, which `delete_repair` changes. */
  datatype Painted = Painted(k: Links, c: seq<Color>)

  /** The black heights after a rotation at `p` that brings the sibling `s`
    * up in `p`'s place: `s` takes `p`'s height and `p` loses one. */
  function RotatedBh(B: seq<nat>, p: int, s: int): seq<nat>
  {
    SetBh(Lower(B, p), s, Bh(B, p))
  }

  /** Block 1: a red sibling turns black, the parent red, and a rotation at
    * the parent toward `n` brings the sibling up. */
  function RedSiblingStep(st: Painted, n: int): Painted
  {
    var s := Sibling(st.k, n);
    if Col(st.c, s) == Red then
      var p := Get(st.k.parent, n);
      var c := Paint(Paint(st.c, s, Black), p, Red);
      Painted(if IsLeft(st.k, n) then RotateLeft(st.k, p) else RotateRight(st.k, p), c)
    else
      st
  }

  /** Block 4: `n` on the left, a black sibling whose near (left) child is
    * red and far child black; a right rotation at the sibling, then the
    * new sibling turns black and its right child red. */
  function NearRedLeftStep(st: Painted, n: int): Painted
  {
    var s := Sibling(st.k, n);
    if IsLeft(st.k, n) && Col(st.c, s) == Black
       && Col(st.c, Get(st.k.right, s)) == Black && Col(st.c, Get(st.k.left, s)) == Red then
      var k := RotateRight(st.k, s);
      var s' := Sibling(k, n);
      Painted(k, Paint(Paint(st.c, s', Black), Get(k.right, s'), Red))
    else
      st
  }

  /** Block 5: the mirror image of block 4, for `n` on the right. */
  function NearRedRightStep(st: Painted, n: int): Painted
  {
    var s := Sibling(st.k, n);
    if IsRight(st.k, n) && Col(st.c, s) == Black
       && Col(st.c, Get(st.k.right, s)) == Red && Col(st.c, Get(st.k.left, s)) == Black then
      var k := RotateLeft(st.k, s);
      var s' := Sibling(k, n);
      Painted(k, Paint(Paint(st.c, s', Black), Get(k.left, s'), Red))
    else
      st
  }

  /** Block 6: `n` on the left, a black sibling whose far (right) child is
    * red; a left rotation at the parent, then the new grandparent takes
    * the parent's colour and the parent and its sibling turn black. */
  function FarRedLeftStep(st: Painted, n: int): Painted
  {
    var s := Sibling(st.k, n);
    if IsLeft(st.k, n) && Col(st.c, s) == Black && Col(st.c, Get(st.k.right, s)) == Red then
      var k := RotateLeft(st.k, Get(st.k.parent, n));
      var g, p := Grandparent(k, n), Get(k.parent, n);
      var c := Paint(st.c, g, Col(st.c, p));
      Painted(k, Paint(Paint(c, p, Black), Sibling(k, p), Black))
    else
      st
  }

  /** Block 7: the mirror image of block 6, rotating at `p0`, the parent
    * that the source read before block 3. */
  function FarRedRightStep(st: Painted, n: int, p0: int): Painted
  {
    var s := Sibling(st.k, n);
    if IsRight(st.k, n) && Col(st.c, s) == Black && Col(st.c, Get(st.k.left, s)) == Red then
      var k := RotateRight(st.k, p0);
      var g, p := Grandparent(k, n), Get(k.parent, n);
      var c := Paint(st.c, g, Col(st.c, p));
      Painted(k, Paint(Paint(c, p, Black), Sibling(k, p), Black))
    else
      st
  }

  /** `delete_repair(n)` as a whole: block 1, then block 2 (a black
    * parent over a black sibling with black children: the sibling turns
    * red and the repair moves up to the parent) or block 3 (the same below
    * a red parent, which turns black), else blocks 4 to 7 in turn. `fuel`
    * bounds the climb; the depth of `n` plus one always suffices. */
  function DeleteRepairSteps(st: Painted, n: int, fuel: nat): Painted
    decreases fuel, 0
  {
    if fuel == 0 then st else RepairStep(st, n, fuel - 1)
  }

  /** One round of `delete_repair(n)`, with `fuel` rounds left for the
    * climb of block 2. */
  function RepairStep(st: Painted, n: int, fuel: nat): Painted
    decreases fuel, 1
  {
    var st1 := RedSiblingStep(st, n);
    var s, p := Sibling(st1.k, n), Get(st1.k.parent, n);
    var nephewsBlack := Col(st1.c, Get(st1.k.left, s)) == Black && Col(st1.c, Get(st1.k.right, s)) == Black;
    if Col(st1.c, p) == Black && Col(st1.c, s) == Black && s != NIL && nephewsBlack then
      DeleteRepairSteps(Painted(st1.k, Paint(st1.c, s, Red)), p, fuel)
    else if Col(st1.c, p) == Red && Col(st1.c, s) == Black && nephewsBlack then
      Painted(st1.k, Paint(Paint(st1.c, s, Red), p, Black))
    else
      FarRedRightStep(FarRedLeftStep(NearRedRightStep(NearRedLeftStep(st1, n), n), n), n, p)
  }

  // ---------------------------------------------------------------------
  // Mirrors

  /** The repair invariant seen in a mirror. */
  lemma SwapAt(ids: set<nat>, k: Links, C: seq<Color>, B: seq<nat>, D: seq<nat>, n: nat, gone: nat)
    requires DeleteAt(ids, k, C, B, D, n, gone)
    ensures DeleteAt(ids, Swap(k), C, B, D, n, gone)
    ensures Sibling(Swap(k), n) == Sibling(k, n)
    ensures IsLeft(Swap(k), n) == IsRight(k, n) && IsRight(Swap(k), n) == IsLeft(k, n)
  {
    SwapInvariants(ids, k, C, B, gone, NIL, NIL);
    SwapRanked(ids, k, D);
    Family(ids, k, n);
    SwapDelete(ids, k, C, B, n, gone);
  }

  // ---------------------------------------------------------------------
  // Block 1

  /** Block 1 with `n` on the left. */
  lemma RedSiblingLeft(ids: set<nat>, k: Links, C: seq<Color>, B: seq<nat>, D: seq<nat>, n: nat, gone: nat)
    requires DeleteAt(ids, k, C, B, D, n, gone) && IsLeft(k, n) && Col(C, Sibling(k, n)) == Red
    ensures var p, s := Get(k.parent, n), Sibling(k, n); var k' := RotateLeft(k, p);
      var C' := Paint(Paint(C, s, Black), p, Red);
      && DeleteInv(ids, k', C', B, n, gone)
      && Get(k'.parent, n) == p && Get(k'.left, p) == n && Get(k'.right, p) != n
      && Col(C', Get(k'.right, p)) == Black
  {
    var p := Get(k.parent, n);
    DeleteFamily(ids, k, C, B, D, n, gone);
    var s := Get(k.right, p);
    assert Agrees(ids, k, p) && Agrees(ids, k, s) && Below(k, D, n);
    var gp := Get(k.parent, p);
    var k' := RotateLeft(k, p);
    var C' := Paint(Paint(C, s, Black), p, Red);
    RotateLeftIs(ids, k, D, p);
    assert PaintFrame(ids, k, C, B, C', B, {p, s, gp}, {s, p}) by {
      assert HangsIn(ids, k, {p, s, gp}, s) && HangsIn(ids, k, {p, s, gp}, p);
    }
    RedSiblingCore(ids, k, C, B, D, n, gone, k', C');
    assert SameParent(k, k', n);
  }

  /** Block 1 with `n` on the right: the mirror image. */
  lemma RedSiblingRight(ids: set<nat>, k: Links, C: seq<Color>, B: seq<nat>, D: seq<nat>, n: nat, gone: nat)
    requires DeleteAt(ids, k, C, B, D, n, gone) && IsRight(k, n) && Col(C, Sibling(k, n)) == Red
    ensures var p, s := Get(k.parent, n), Sibling(k, n); var k' := RotateRight(k, p);
      var C' := Paint(Paint(C, s, Black), p, Red);
      && DeleteInv(ids, k', C', B, n, gone)
      && Get(k'.parent, n) == p && Get(k'.right, p) == n && Get(k'.left, p) != n
      && Col(C', Get(k'.left, p)) == Black
  {
    var p := Get(k.parent, n);
    SwapAt(ids, k, C, B, D, n, gone);
    RedSiblingLeft(ids, Swap(k), C, B, D, n, gone);
    RotateMirror(k, p);
    var k' := RotateRight(k, p);
    SwapSwap(RotateLeft(Swap(k), p));
    SwapDelete(ids, k', Paint(Paint(C, Sibling(k, n), Black), p, Red), B, n, gone);
  }

  /** Block 1 keeps the repair invariant, leaves `n` under the same parent,
    * and leaves it a black sibling; when it fires, the parent is red. */
  lemma RedSiblingKeeps(ids: set<nat>, k: Links, C: seq<Color>, B: seq<nat>, D: seq<nat>, n: nat, gone: nat)
    requires DeleteAt(ids, k, C, B, D, n, gone)
    ensures var st := RedSiblingStep(Painted(k, C), n); var p := Get(k.parent, n);
      && DeleteInv(ids, st.k, st.c, B, n, gone)
      && Get(st.k.parent, n) == p
      && Col(st.c, Sibling(st.k, n)) == Black
      && (Col(C, Sibling(k, n)) == Red ==> Col(st.c, p) == Red && p != NIL)
  {
    var p := Get(k.parent, n);
    if p != NIL && Col(C, Sibling(k, n)) == Red {
      DeleteFamily(ids, k, C, B, D, n, gone);
      if IsLeft(k, n) {
        RedSiblingLeft(ids, k, C, B, D, n, gone);
      } else {
        RedSiblingRight(ids, k, C, B, D, n, gone);
      }
    }
  }

  // ---------------------------------------------------------------------
  // Blocks 2 and 3

  /** Blocks 2 and 3: below a black parent the shortfall moves up to the
    * parent, whose black height drops by one; below a red parent the
    * tree is repaired. */
  lemma BlackNephewsKeeps(ids: set<nat>, k: Links, C: seq<Color>, B: seq<nat>, D: seq<nat>, n: nat, gone: nat)
    requires DeleteAt(ids, k, C, B, D, n, gone)
    requires var s := Sibling(k, n);
      && s != NIL && Col(C, s) == Black && Col(C, Get(k.left, s)) == Black && Col(C, Get(k.right, s)) == Black
    ensures var p, s := Get(k.parent, n), Sibling(k, n);
      && p != NIL
      && (Col(C, p) == Black ==> DeleteInv(ids, k, Paint(C, s, Red), Lower(B, p), p, gone))
      && (Col(C, p) == Red ==> Repaired(ids, k, Paint(Paint(C, s, Red), p, Black), Lower(B, p), gone))
  {
    var p := Get(k.parent, n);
    DeleteFamily(ids, k, C, B, D, n, gone);
    var s := Sib(k, p, n);
    assert Below(k, D, p);
    var gp := Get(k.parent, p);
    var B' := Lower(B, p);
    var C' := if Col(C, p) == Black then Paint(C, s, Red) else Paint(Paint(C, s, Red), p, Black);
    assert PaintFrame(ids, k, C, B, C', B', {p, gp}, {s, p}) by {
      assert HangsIn(ids, k, {p, gp}, s) && HangsIn(ids, k, {p, gp}, p);
    }
    assert KeptBh(B, B', gp);
    if Col(C, p) == Black {
      PushUpCore(ids, k, C, B, D, n, gone, C', B');
    } else {
      AbsorbCore(ids, k, C, B, D, n, gone, C', B');
    }
  }

  // ---------------------------------------------------------------------
  // Blocks 4 and 5

  /** Block 5 on its own: `n` on the right, its sibling `s` black with a
    * black left and a red right child `c`. */
  lemma NearRedRight(ids: set<nat>, k: Links, C: seq<Color>, B: seq<nat>, D: seq<nat>, n: nat, gone: nat)
    requires DeleteAt(ids, k, C, B, D, n, gone) && IsRight(k, n)
    requires var s := Sibling(k, n);
      Col(C, s) == Black && Col(C, Get(k.left, s)) == Black && Col(C, Get(k.right, s)) == Red
    ensures var p, s := Get(k.parent, n), Sibling(k, n); var c := Get(k.right, s);
      var k' := RotateLeft(k, s);
      && Sibling(k', n) == c && Get(k'.left, c) == s
      && DeleteInv(ids, k', Paint(Paint(C, c, Black), s, Red), B, n, gone)
      && Get(k'.parent, n) == p && IsRight(k', n) && !IsLeft(k', n)
  {
    var p := Get(k.parent, n);
    DeleteFamily(ids, k, C, B, D, n, gone);
    var s := Get(k.left, p);
    assert Agrees(ids, k, p) && Agrees(ids, k, s);
    var c := Get(k.right, s);
    var k' := RotateLeft(k, s);
    var C' := Paint(Paint(C, c, Black), s, Red);
    RotateLeftIs(ids, k, D, s);
    assert PaintFrame(ids, k, C, B, C', B, {s, c, p}, {c, s}) by {
      assert HangsIn(ids, k, {s, c, p}, c) && HangsIn(ids, k, {s, c, p}, s);
    }
    NearRedCore(ids, k, C, B, D, n, gone, k', C');
  }

  /** Block 4 on its own: the mirror image of block 5. */
  lemma NearRedLeft(ids: set<nat>, k: Links, C: seq<Color>, B: seq<nat>, D: seq<nat>, n: nat, gone: nat)
    requires DeleteAt(ids, k, C, B, D, n, gone) && IsLeft(k, n)
    requires var s := Sibling(k, n);
      Col(C, s) == Black && Col(C, Get(k.right, s)) == Black && Col(C, Get(k.left, s)) == Red
    ensures var p, s := Get(k.parent, n), Sibling(k, n); var c := Get(k.left, s);
      var k' := RotateRight(k, s);
      && Sibling(k', n) == c && Get(k'.right, c) == s
      && DeleteInv(ids, k', Paint(Paint(C, c, Black), s, Red), B, n, gone)
      && Get(k'.parent, n) == p && IsLeft(k', n) && !IsRight(k', n)
  {
    var s := Sibling(k, n);
    SwapAt(ids, k, C, B, D, n, gone);
    NearRedRight(ids, Swap(k), C, B, D, n, gone);
    RotateMirror(k, s);
    var k' := RotateRight(k, s);
    SwapSwap(RotateLeft(Swap(k), s));
    SwapDelete(ids, k', Paint(Paint(C, Get(k.left, s), Black), s, Red), B, n, gone);
  }

  /** Block 4 keeps the repair invariant and leaves `n` where it was; after
    * it, a left `n` has a black sibling with a red far (right) child, and
    * for a right `n` nothing changes. */
  lemma NearRedLeftKeeps(ids: set<nat>, k: Links, C: seq<Color>, B: seq<nat>, D: seq<nat>, n: nat, gone: nat)
    requires DeleteAt(ids, k, C, B, D, n, gone) && Get(k.parent, n) != NIL
    requires var s := Sibling(k, n);
      Col(C, s) == Black && !(Col(C, Get(k.left, s)) == Black && Col(C, Get(k.right, s)) == Black)
    ensures var st := NearRedLeftStep(Painted(k, C), n); var s' := Sibling(st.k, n);
      && DeleteInv(ids, st.k, st.c, B, n, gone)
      && Get(st.k.parent, n) == Get(k.parent, n)
      && IsLeft(st.k, n) == IsLeft(k, n) && IsRight(st.k, n) == IsRight(k, n)
      && Col(st.c, s') == Black
      && (IsLeft(k, n) ==> Col(st.c, Get(st.k.right, s')) == Red)
      && (!IsLeft(k, n) ==> st == Painted(k, C))
  {
    var s := Sibling(k, n);
    if IsLeft(k, n) && Col(C, Get(k.right, s)) == Black && Col(C, Get(k.left, s)) == Red {
      DeleteFamily(ids, k, C, B, D, n, gone);
      NearRedLeft(ids, k, C, B, D, n, gone);
    }
  }

  /** Block 5 keeps the repair invariant and leaves `n` where it was; after
    * it, a right `n` has a black sibling with a red far (left) child, and
    * for a left `n` nothing changes. */
  lemma NearRedRightKeeps(ids: set<nat>, k: Links, C: seq<Color>, B: seq<nat>, D: seq<nat>, n: nat, gone: nat)
    requires DeleteAt(ids, k, C, B, D, n, gone) && Get(k.parent, n) != NIL
    requires var s := Sibling(k, n);
      && Col(C, s) == Black && !(Col(C, Get(k.left, s)) == Black && Col(C, Get(k.right, s)) == Black)
    ensures var st := NearRedRightStep(Painted(k, C), n); var s' := Sibling(st.k, n);
      && DeleteInv(ids, st.k, st.c, B, n, gone)
      && Get(st.k.parent, n) == Get(k.parent, n)
      && IsLeft(st.k, n) == IsLeft(k, n) && IsRight(st.k, n) == IsRight(k, n)
      && Col(st.c, s') == Black
      && (IsRight(k, n) ==> Col(st.c, Get(st.k.left, s')) == Red)
      && (!IsRight(k, n) ==> st == Painted(k, C))
  {
    var s := Sibling(k, n);
    if IsRight(k, n) && Col(C, Get(k.right, s)) == Red && Col(C, Get(k.left, s)) == Black {
      DeleteFamily(ids, k, C, B, D, n, gone);
      NearRedRight(ids, k, C, B, D, n, gone);
    }
  }

  // ---------------------------------------------------------------------
  // Blocks 6 and 7

  /** Block 6 on its own: `n` on the left, its sibling `s` black with a red
    * right child `c`; it repairs the tree. */
  lemma FarRedLeft(ids: set<nat>, k: Links, C: seq<Color>, B: seq<nat>, D: seq<nat>, n: nat, gone: nat)
    requires DeleteAt(ids, k, C, B, D, n, gone) && IsLeft(k, n)
    requires var s := Sibling(k, n); Col(C, s) == Black && Col(C, Get(k.right, s)) == Red
    ensures var p, s := Get(k.parent, n), Sibling(k, n); var st := FarRedLeftStep(Painted(k, C), n);
      && st.k == RotateLeft(k, p)
      && st.c == Paint(Paint(Paint(C, s, Col(C, p)), p, Black), Get(k.right, s), Black)
      && Repaired(ids, st.k, st.c, RotatedBh(B, p, s), gone)
      && Get(st.k.parent, n) == p && Get(st.k.parent, p) == s && Get(st.k.left, s) == p && Get(st.k.right, s) != p
      && IsLeft(st.k, n) && !IsRight(st.k, n)
  {
    var p := Get(k.parent, n);
    DeleteFamily(ids, k, C, B, D, n, gone);
    var s := Get(k.right, p);
    assert Agrees(ids, k, p) && Agrees(ids, k, s) && Below(k, D, p) && Below(k, D, s);
    var c, gp := Get(k.right, s), Get(k.parent, p);
    assert Below(k, D, c);
    var k' := RotateLeft(k, p);
    RotateLeftIs(ids, k, D, p);
    assert SameParent(k, k', n);
    var C' := Paint(Paint(Paint(C, s, Col(C, p)), p, Black), c, Black);
    var B' := RotatedBh(B, p, s);
    assert FarRedLeftStep(Painted(k, C), n) == Painted(k', C');
    assert PaintFrame(ids, k, C, B, C', B', {p, s, gp}, {s, p, c}) by {
      assert HangsIn(ids, k, {p, s, gp}, c) && HangsIn(ids, k, {p, s, gp}, s) && HangsIn(ids, k, {p, s, gp}, p);
    }
    FarRedCore(ids, k, C, B, D, n, gone, k', C', B');
  }

  /** Block 7 on its own: the mirror image of block 6. */
  lemma FarRedRight(ids: set<nat>, k: Links, C: seq<Color>, B: seq<nat>, D: seq<nat>, n: nat, gone: nat)
    requires DeleteAt(ids, k, C, B, D, n, gone) && IsRight(k, n)
    requires var s := Sibling(k, n); Col(C, s) == Black && Col(C, Get(k.left, s)) == Red
    ensures var p, s := Get(k.parent, n), Sibling(k, n); var st := FarRedRightStep(Painted(k, C), n, p);
      && st.k == RotateRight(k, p)
      && Repaired(ids, st.k, st.c, RotatedBh(B, p, s), gone)
      && IsRight(st.k, n) && !IsLeft(st.k, n)
  {
    var p, s := Get(k.parent, n), Sibling(k, n);
    SwapAt(ids, k, C, B, D, n, gone);
    FarRedLeft(ids, Swap(k), C, B, D, n, gone);
    RotateMirror(k, p);
    var k' := RotateRight(k, p);
    SwapSwap(RotateLeft(Swap(k), p));
    var C' := Paint(Paint(Paint(C, s, Col(C, p)), p, Black), Get(k.left, s), Black);
    assert Grandparent(k', n) == s && Sibling(k', p) == Get(k.left, s);
    assert FarRedRightStep(Painted(k, C), n, p) == Painted(k', C');
    SwapDelete(ids, k', C', RotatedBh(B, p, s), n, gone);
  }

  /** Block 6 repairs the tree when it fires, that is when `n` is on the
    * left; otherwise it changes nothing. */
  lemma FarRedLeftKeeps(ids: set<nat>, k: Links, C: seq<Color>, B: seq<nat>, D: seq<nat>, n: nat, gone: nat)
    requires DeleteAt(ids, k, C, B, D, n, gone) && Get(k.parent, n) != NIL
    requires var s := Sibling(k, n);
      Col(C, s) == Black && (IsLeft(k, n) ==> Col(C, Get(k.right, s)) == Red)
    ensures var st := FarRedLeftStep(Painted(k, C), n);
      && (IsLeft(k, n) ==> Repaired(ids, st.k, st.c, RotatedBh(B, Get(k.parent, n), Sibling(k, n)), gone) && !IsRight(st.k, n))
      && (!IsLeft(k, n) ==> st == Painted(k, C))
  {
    if IsLeft(k, n) {
      FarRedLeft(ids, k, C, B, D, n, gone);
    }
  }

  /** Block 7 repairs the tree when it fires, that is when `n` is on the
    * right; otherwise it changes nothing. */
  lemma FarRedRightKeeps(ids: set<nat>, k: Links, C: seq<Color>, B: seq<nat>, D: seq<nat>, n: nat, gone: nat)
    requires DeleteAt(ids, k, C, B, D, n, gone) && Get(k.parent, n) != NIL
    requires var s := Sibling(k, n);
      Col(C, s) == Black && (IsRight(k, n) ==> Col(C, Get(k.left, s)) == Red)
    ensures var p := Get(k.parent, n); var st := FarRedRightStep(Painted(k, C), n, p);
      && (IsRight(k, n) ==> Repaired(ids, st.k, st.c, RotatedBh(B, p, Sibling(k, n)), gone))
      && (!IsRight(k, n) ==> st == Painted(k, C))
  {
    if IsRight(k, n) {
      FarRedRight(ids, k, C, B, D, n, gone);
    }
  }
}
