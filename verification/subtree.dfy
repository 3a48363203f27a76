/** Changes confined to one subtree. The AVL rotations keep the node they
  * work on in place and rearrange only what hangs below it; `Graft` and
  * `ViewWith` describe such a change on the shape and on the view, and
  * `Local` packs it up as a relation between two arena states. */
module Subtrees {
  import opened Base
  import opened Arena

  /** The shape with the subtree at `x` replaced by `t`. */
  function Graft(s: Shape, x: int, t: Shape): Shape
  {
    match s
    case Empty => Empty
    case Cell(l, i, r) =>
      if i == x then t
      else if x in Ids(l) then Cell(Graft(l, x, t), i, r)
      else if x in Ids(r) then Cell(l, i, Graft(r, x, t))
      else s
  }

  /** The view with the subtree at `x` replaced by the value tree `tv`. */
  function ViewWith<M>(s: Shape, data: seq<int>, meta: seq<M>, x: int, tv: Tree<M>): Tree<M>
    requires Within(s, |data|) && |meta| == |data|
  {
    match s
    case Empty => Nil
    case Cell(l, i, r) =>
      if i == x then tv
      else Node(ViewWith(l, data, meta, x, tv), data[i], meta[i], ViewWith(r, data, meta, x, tv))
  }

  /** From state 0 to state 1 only the subtree at `x` changed: the rest of
    * the shape and the entries of every node outside that subtree are as
    * they were, and the subtree keeps its top and its set of nodes. */
  ghost predicate Local<M>(s0: Shape, d0: seq<int>, m0: seq<M>, s1: Shape, d1: seq<int>, m1: seq<M>, x: int)
  {
    && Within(s0, |d0|) && Within(s1, |d0|) && |d1| == |d0| && |m0| == |d0| && |m1| == |d0|
    && x in Ids(s0)
    && Top(SubAt(s1, x)) == x
    && Ids(SubAt(s1, x)) == Ids(SubAt(s0, x)) && Distinct(SubAt(s1, x))
    && s1 == Graft(s0, x, SubAt(s1, x))
    && (forall i | i in Ids(s0) && i !in Ids(SubAt(s0, x)) :: d1[i] == d0[i] && m1[i] == m0[i])
  }

  lemma {:induction false} WithinIds(s: Shape, n: int)
    requires forall i | i in Ids(s) :: i < n
    ensures Within(s, n)
  {
    match s
    case Empty =>
    case Cell(l, i, r) =>
      assert i in Ids(s);
      forall j | j in Ids(l) ensures j < n { assert j in Ids(s); }
      forall j | j in Ids(r) ensures j < n { assert j in Ids(s); }
      WithinIds(l, n);
      WithinIds(r, n);
  }

  lemma {:induction false} ViewWithAbsent<M>(s: Shape, data: seq<int>, meta: seq<M>, x: int, tv: Tree<M>)
    requires Within(s, |data|) && |meta| == |data| && x !in Ids(s)
    ensures ViewWith(s, data, meta, x, tv) == View(s, data, meta)
  {
    match s
    case Empty =>
    case Cell(l, i, r) =>
      ViewWithAbsent(l, data, meta, x, tv);
      ViewWithAbsent(r, data, meta, x, tv);
  }

  /** Replacing a subtree by one with the same in-order sequence keeps the
    * in-order sequence of the whole. */
  lemma {:induction false} ViewWithInOrder<M>(s: Shape, data: seq<int>, meta: seq<M>, x: int, tv: Tree<M>)
    requires Within(s, |data|) && |meta| == |data| && Distinct(s) && x in Ids(s)
    requires InOrder(tv) == InOrder(View(SubAt(s, x), data, meta))
    ensures InOrder(ViewWith(s, data, meta, x, tv)) == InOrder(View(s, data, meta))
  {
    match s
    case Cell(l, i, r) =>
      if i == x {
      } else if x in Ids(l) {
        ViewWithInOrder(l, data, meta, x, tv);
        ViewWithAbsent(r, data, meta, x, tv);
      } else {
        ViewWithInOrder(r, data, meta, x, tv);
        ViewWithAbsent(l, data, meta, x, tv);
      }
  }

  /** Grafting a subtree with the same top and nodes keeps the shape's
    * nodes, top and distinctness. */
  lemma {:induction false} GraftFacts(s: Shape, x: int, t: Shape)
    requires Distinct(s) && x in Ids(s) && Distinct(t)
    requires Top(t) == x && Ids(t) == Ids(SubAt(s, x))
    ensures Ids(Graft(s, x, t)) == Ids(s) && Top(Graft(s, x, t)) == Top(s)
    ensures Distinct(Graft(s, x, t)) && SubAt(Graft(s, x, t), x) == t
  {
    match s
    case Cell(l, i, r) =>
      if i == x {
      } else if x in Ids(l) {
        GraftFacts(l, x, t);
      } else {
        GraftFacts(r, x, t);
      }
  }

  /** Child links stay consistent when the new subtree is linked by the new
    * arrays and the arrays are unchanged outside the old subtree. */
  lemma {:induction false} GraftHangs(s: Shape, x: int, t: Shape, left: seq<int>, right: seq<int>, left': seq<int>, right': seq<int>)
    requires Distinct(s) && x in Ids(s) && Hangs(s, left, right) && Hangs(t, left', right')
    requires Top(t) == x && Ids(t) == Ids(SubAt(s, x))
    requires forall i | i in Ids(s) && i !in Ids(SubAt(s, x)) ::
      i < |left'| && i < |right'| && left'[i] == left[i] && right'[i] == right[i]
    ensures Hangs(Graft(s, x, t), left', right')
  {
    match s
    case Cell(l, i, r) =>
      if i == x {
      } else if x in Ids(l) {
        SubAtFacts(l, x);
        GraftHangs(l, x, t, left, right, left', right');
        HangsFrame(r, left, right, left', right');
        GraftTop(l, x, t);
      } else {
        SubAtFacts(r, x);
        GraftHangs(r, x, t, left, right, left', right');
        HangsFrame(l, left, right, left', right');
        GraftTop(r, x, t);
      }
  }

  lemma {:induction false} GraftTop(s: Shape, x: int, t: Shape)
    requires x in Ids(s) && s.Cell? && (s.id == x ==> Top(t) == x)
    ensures Top(Graft(s, x, t)) == Top(s)
  {
    if s.id != x {
      assert x in Ids(s.l) || x in Ids(s.r);
    }
  }

  /** The view of a grafted shape is the old view with the subtree at `x`
    * replaced by the view of the graft. */
  lemma {:induction false} GraftView<M>(s: Shape, d: seq<int>, m: seq<M>, x: int, t: Shape, d': seq<int>, m': seq<M>)
    requires Within(s, |d|) && |m| == |d| && |d'| == |d| && |m'| == |d| && Distinct(s) && x in Ids(s)
    requires Within(t, |d|)
    requires forall i | i in Ids(s) && i !in Ids(SubAt(s, x)) :: d'[i] == d[i] && m'[i] == m[i]
    ensures Within(Graft(s, x, t), |d'|)
    ensures View(Graft(s, x, t), d', m') == ViewWith(s, d, m, x, View(t, d', m'))
  {
    match s
    case Cell(l, i, r) =>
      if i == x {
      } else if x in Ids(l) {
        SubAtFacts(l, x);
        GraftView(l, d, m, x, t, d', m');
        ViewWithAbsent(r, d, m, x, View(t, d', m'));
        ViewFrame(r, d, m, d', m');
      } else {
        SubAtFacts(r, x);
        GraftView(r, d, m, x, t, d', m');
        ViewWithAbsent(l, d, m, x, View(t, d', m'));
        ViewFrame(l, d, m, d', m');
      }
  }

  /** A graft below `x` is a graft at `x`. */
  lemma {:induction false} GraftNest(s: Shape, x: int, c: int, t: Shape)
    requires Distinct(s) && x in Ids(s) && c in Ids(SubAt(s, x))
    ensures Graft(s, c, t) == Graft(s, x, Graft(SubAt(s, x), c, t))
  {
    match s
    case Cell(l, i, r) =>
      if i == x {
      } else if x in Ids(l) {
        SubAtFacts(l, x);
        GraftNest(l, x, c, t);
      } else {
        SubAtFacts(r, x);
        GraftNest(r, x, c, t);
      }
  }

  /** The graft is found again at `x`. */
  lemma {:induction false} SubAtGraft(s: Shape, x: int, u: Shape)
    requires x in Ids(s) && Top(u) == x
    ensures x in Ids(Graft(s, x, u)) && SubAt(Graft(s, x, u), x) == u
  {
    match s
    case Cell(l, i, r) =>
      if i == x {
      } else if x in Ids(l) {
        SubAtGraft(l, x, u);
      } else {
        SubAtGraft(r, x, u);
      }
  }

  /** Grafting twice at the same node keeps only the second graft. */
  lemma {:induction false} GraftTwice(s: Shape, x: int, t1: Shape, t2: Shape)
    requires Distinct(s) && x in Ids(s) && Top(t1) == x
    ensures Graft(Graft(s, x, t1), x, t2) == Graft(s, x, t2)
  {
    match s
    case Cell(l, i, r) =>
      if i == x {
      } else if x in Ids(l) {
        GraftTwice(l, x, t1, t2);
        GraftIds(l, x, t1);
      } else {
        GraftTwice(r, x, t1, t2);
        GraftIds(r, x, t1);
      }
  }

  /** `x` stays in a shape grafted at `x` with a subtree topped by `x`. */
  lemma {:induction false} GraftIds(s: Shape, x: int, t: Shape)
    requires x in Ids(s) && Top(t) == x
    ensures x in Ids(Graft(s, x, t))
    ensures x !in Ids(s) - Ids(SubAt(s, x))
  {
    match s
    case Cell(l, i, r) =>
      if i == x {
      } else if x in Ids(l) {
        GraftIds(l, x, t);
      } else {
        GraftIds(r, x, t);
      }
  }

  // ---------------------------------------------------------------------
  // Local changes

  /** A local change at `x` determines the whole view from the subtree. */
  lemma {:induction false} LocalView<M>(s0: Shape, d0: seq<int>, m0: seq<M>, s1: Shape, d1: seq<int>, m1: seq<M>, x: int)
    requires Local(s0, d0, m0, s1, d1, m1, x) && Distinct(s0)
    ensures Within(s1, |d1|) && Ids(s1) == Ids(s0) && Distinct(s1) && x in Ids(s1)
    ensures View(s1, d1, m1) == ViewWith(s0, d0, m0, x, View(SubAt(s1, x), d1, m1))
  {
    SubAtFacts(s0, x);
    WithinIds(SubAt(s1, x), |d0|);
    GraftFacts(s0, x, SubAt(s1, x));
    GraftIds(s0, x, SubAt(s1, x));
    GraftView(s0, d0, m0, x, SubAt(s1, x), d1, m1);
  }

  /** Nothing changed is a local change. */
  lemma {:induction false} LocalRefl<M>(s: Shape, d: seq<int>, m: seq<M>, x: int)
    requires Within(s, |d|) && |m| == |d| && Distinct(s) && x in Ids(s)
    ensures Local(s, d, m, s, d, m, x)
  {
    SubAtFacts(s, x);
    GraftSelf(s, x);
  }

  lemma {:induction false} GraftSelf(s: Shape, x: int)
    requires Distinct(s) && x in Ids(s)
    ensures Graft(s, x, SubAt(s, x)) == s
  {
    match s
    case Cell(l, i, r) =>
      if i == x {
      } else if x in Ids(l) {
        GraftSelf(l, x);
      } else {
        GraftSelf(r, x);
      }
  }

  /** Two local changes at the same node make one. */
  lemma {:induction false} LocalTrans<M>(s0: Shape, d0: seq<int>, m0: seq<M>, s1: Shape, d1: seq<int>, m1: seq<M>,
                      s2: Shape, d2: seq<int>, m2: seq<M>, x: int)
    requires Distinct(s0)
    requires Local(s0, d0, m0, s1, d1, m1, x) && Local(s1, d1, m1, s2, d2, m2, x)
    ensures Local(s0, d0, m0, s2, d2, m2, x)
  {
    SubAtFacts(s0, x);
    var t1 := SubAt(s1, x);
    assert t1.Cell? && Top(t1) == x;
    GraftTwice(s0, x, t1, SubAt(s2, x));
    GraftIds(s0, x, t1);
    forall i | i in Ids(s0) && i !in Ids(SubAt(s0, x)) ensures d2[i] == d0[i] && m2[i] == m0[i] {
      GraftOutside(s0, x, t1, i);
    }
  }

  /** A node outside the subtree at `x` stays outside after a graft at `x`
    * with the same set of nodes. */
  lemma {:induction false} GraftOutside(s: Shape, x: int, t: Shape, i: nat)
    requires Distinct(s) && x in Ids(s) && Top(t) == x && Ids(t) == Ids(SubAt(s, x)) && Distinct(t)
    requires i in Ids(s) && i !in Ids(SubAt(s, x))
    ensures i in Ids(Graft(s, x, t)) && i !in Ids(SubAt(Graft(s, x, t), x))
  {
    GraftFacts(s, x, t);
  }

  /** A local change at a child of `x` is a local change at `x`, and the
    * subtree at `x` is the old one with that child's subtree replaced. */
  lemma {:induction false} LocalNestRight<M>(s0: Shape, d0: seq<int>, m0: seq<M>, s1: Shape, d1: seq<int>, m1: seq<M>, x: int, c: int)
    requires Distinct(s0) && x in Ids(s0) && SubAt(s0, x).r.Cell? && c == SubAt(s0, x).r.id
    requires Local(s0, d0, m0, s1, d1, m1, c)
    ensures Local(s0, d0, m0, s1, d1, m1, x)
    ensures View(SubAt(s1, x), d1, m1) == Node(View(SubAt(s0, x).l, d0, m0), d0[x], m0[x], View(SubAt(s1, c), d1, m1))
  {
    SubAtFacts(s0, x);
    SubAtChild(s0, x);
    var sx := SubAt(s0, x);
    var tc := SubAt(s1, c);
    var u := Cell(sx.l, x, tc);
    assert Graft(sx, c, tc) == u by {
      assert c != x && c !in Ids(sx.l) && c in Ids(sx.r);
    }
    NestAt(s0, d0, m0, s1, d1, m1, x, c, u);
    ViewFrame(sx.l, d0, m0, d1, m1);
  }

  lemma {:induction false} LocalNestLeft<M>(s0: Shape, d0: seq<int>, m0: seq<M>, s1: Shape, d1: seq<int>, m1: seq<M>, x: int, c: int)
    requires Distinct(s0) && x in Ids(s0) && SubAt(s0, x).l.Cell? && c == SubAt(s0, x).l.id
    requires Local(s0, d0, m0, s1, d1, m1, c)
    ensures Local(s0, d0, m0, s1, d1, m1, x)
    ensures View(SubAt(s1, x), d1, m1) == Node(View(SubAt(s1, c), d1, m1), d0[x], m0[x], View(SubAt(s0, x).r, d0, m0))
  {
    SubAtFacts(s0, x);
    SubAtChild(s0, x);
    var sx := SubAt(s0, x);
    var tc := SubAt(s1, c);
    var u := Cell(tc, x, sx.r);
    assert Graft(sx, c, tc) == u by {
      assert c != x && c in Ids(sx.l);
    }
    NestAt(s0, d0, m0, s1, d1, m1, x, c, u);
    ViewFrame(sx.r, d0, m0, d1, m1);
  }

  /** The common part of the two nesting lemmas: `u` is the subtree at `x`
    * with the graft at `c` done inside it. */
  lemma {:induction false} NestAt<M>(s0: Shape, d0: seq<int>, m0: seq<M>, s1: Shape, d1: seq<int>, m1: seq<M>, x: int, c: int, u: Shape)
    requires Distinct(s0) && x in Ids(s0) && c in Ids(SubAt(s0, x)) && c != x
    requires Local(s0, d0, m0, s1, d1, m1, c)
    requires u == Graft(SubAt(s0, x), c, SubAt(s1, c))
    ensures Local(s0, d0, m0, s1, d1, m1, x) && SubAt(s1, x) == u
    ensures forall i | i in Ids(SubAt(s0, x)) && i !in Ids(SubAt(s0, c)) :: d1[i] == d0[i] && m1[i] == m0[i]
  {
    SubAtFacts(s0, x);
    var sx := SubAt(s0, x);
    var tc := SubAt(s1, c);
    SubAtInner(s0, x, c);
    SubAtFacts(sx, c);
    GraftFacts(sx, c, tc);
    GraftNest(s0, x, c, tc);
    SubAtGraft(s0, x, u);
  }

  /** The subtree at a node below `x` is found inside the subtree at `x`. */
  lemma {:induction false} SubAtInner(s: Shape, x: int, c: int)
    requires Distinct(s) && x in Ids(s) && c in Ids(SubAt(s, x))
    ensures SubAt(SubAt(s, x), c) == SubAt(s, c)
    ensures Ids(SubAt(s, c)) <= Ids(SubAt(s, x))
  {
    match s
    case Cell(l, i, r) =>
      if i == x {
      } else if x in Ids(l) {
        SubAtFacts(l, x);
        SubAtInner(l, x, c);
      } else {
        SubAtFacts(r, x);
        assert c !in Ids(l) && c != i;
        SubAtInner(r, x, c);
      }
  }
}
