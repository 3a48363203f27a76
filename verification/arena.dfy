/** The node store shared by the three trees. The source links nodes with
  * shared, reference-counted cells; here the nodes of a tree live in an arena:
  * node `i` is described by `data[i]`, `left[i]`, `right[i]` (and, per tree
  * kind, more fields), with `NIL` standing for an absent link. A ghost
  * `Shape` records which node index sits where; the predicates below tie the
  * arena's links to it, so that every operation can be specified against the
  * value-level tree `View(shape, ...)` of the query layer. */
module Arena {
  import opened Base

  const NIL: int := -1

  datatype Shape = Empty | Cell(l: Shape, id: nat, r: Shape)

  function Top(s: Shape): int
  {
    if s.Empty? then NIL else s.id
  }

  function Ids(s: Shape): set<nat>
  {
    match s
    case Empty => {}
    case Cell(l, i, r) => Ids(l) + {i} + Ids(r)
  }

  /** Node indices in in-order position. */
  function InOrderIds(s: Shape): seq<nat>
  {
    match s
    case Empty => []
    case Cell(l, i, r) => InOrderIds(l) + [i] + InOrderIds(r)
  }

  /** No node index occurs twice. */
  predicate Distinct(s: Shape)
  {
    match s
    case Empty => true
    case Cell(l, i, r) =>
      Distinct(l) && Distinct(r) && i !in Ids(l) && i !in Ids(r) && Ids(l) !! Ids(r)
  }

  /** Every node index of the shape is below `n`. */
  predicate Within(s: Shape, n: int)
    ensures Within(s, n) ==> forall i | i in Ids(s) :: i < n
  {
    match s
    case Empty => true
    case Cell(l, i, r) => i < n && Within(l, n) && Within(r, n)
  }

  /** Every node's child links agree with the shape. */
  predicate Hangs(s: Shape, left: seq<int>, right: seq<int>)
    ensures Hangs(s, left, right) ==> Within(s, |left|) && Within(s, |right|)
  {
    match s
    case Empty => true
    case Cell(l, i, r) =>
      && i < |left| && i < |right|
      && left[i] == Top(l) && right[i] == Top(r)
      && Hangs(l, left, right) && Hangs(r, left, right)
  }

  /** Every node's parent link agrees with the shape; the top's parent is `p`. */
  predicate Parents(s: Shape, p: int, parent: seq<int>)
    ensures Parents(s, p, parent) ==> Within(s, |parent|)
  {
    match s
    case Empty => true
    case Cell(l, i, r) =>
      i < |parent| && parent[i] == p && Parents(l, i, parent) && Parents(r, i, parent)
  }

  /** The value-level tree the arena holds below the shape `s`. */
  function View<M>(s: Shape, data: seq<int>, meta: seq<M>): Tree<M>
    requires Within(s, |data|) && |meta| == |data|
  {
    match s
    case Empty => Nil
    case Cell(l, i, r) => Node(View(l, data, meta), data[i], meta[i], View(r, data, meta))
  }

  /** The values stored at a sequence of node indices (0 for an index
    * outside the arena, which well-formed arenas never hold). */
  function Vals(ids: seq<nat>, data: seq<int>): (vs: seq<int>)
    ensures |vs| == |ids|
  {
    if ids == [] then [] else [At(data, ids[0])] + Vals(ids[1..], data)
  }

  function At(data: seq<int>, i: nat): int
  {
    if i < |data| then data[i] else 0
  }

  lemma {:induction false} ValsIndex(ids: seq<nat>, data: seq<int>, k: nat)
    requires k < |ids|
    ensures Vals(ids, data)[k] == At(data, ids[k])
  {
    if k > 0 {
      ValsIndex(ids[1..], data, k - 1);
    }
  }

  lemma {:induction false} ValsAppend(a: seq<nat>, b: seq<nat>, data: seq<int>)
    ensures Vals(a + b, data) == Vals(a, data) + Vals(b, data)
  {
    if a == [] {
      assert a + b == b;
    } else {
      assert (a + b)[1..] == a[1..] + b;
      ValsAppend(a[1..], b, data);
    }
  }

  lemma ValsSplit(a: seq<nat>, i: nat, b: seq<nat>, data: seq<int>)
    ensures Vals(a + [i] + b, data) == Vals(a, data) + [At(data, i)] + Vals(b, data)
  {
    ValsAppend(a, [i], data);
    ValsAppend(a + [i], b, data);
  }

  lemma Assoc<T>(a: seq<T>, b: seq<T>, c: seq<T>)
    ensures a + b + c == a + (b + c)
  {
  }

  lemma {:induction false} InOrderIdsMembers(s: Shape)
    ensures forall i :: i in InOrderIds(s) <==> i in Ids(s)
  {
    match s
    case Empty =>
    case Cell(l, _, r) =>
      InOrderIdsMembers(l);
      InOrderIdsMembers(r);
  }

  predicate Unique(ids: seq<nat>)
  {
    forall a, b | 0 <= a < b < |ids| :: ids[a] != ids[b]
  }

  /** The subtree whose top is `x` (empty when `x` is not in the shape). */
  function SubAt(s: Shape, x: int): (t: Shape)
    ensures x in Ids(s) ==> t.Cell? && t.id == x && Ids(t) <= Ids(s)
    ensures forall n | Within(s, n) :: Within(t, n)
  {
    match s
    case Empty => Empty
    case Cell(l, i, r) =>
      if i == x then s else if x in Ids(l) then SubAt(l, x) else SubAt(r, x)
  }

  /** Number of links from the top of `s` down to `x`. */
  function Depth(s: Shape, x: int): nat
  {
    match s
    case Empty => 0
    case Cell(l, i, r) =>
      if i == x then 0
      else if x in Ids(l) then 1 + Depth(l, x)
      else if x in Ids(r) then 1 + Depth(r, x)
      else 0
  }

  /** Node indices in in-order position before the subtree at `x`. */
  function Prefix(s: Shape, x: int): seq<nat>
  {
    match s
    case Empty => []
    case Cell(l, i, r) =>
      if i == x then []
      else if x in Ids(l) then Prefix(l, x)
      else InOrderIds(l) + [i] + Prefix(r, x)
  }

  /** Node indices in in-order position after the subtree at `x`. */
  function Suffix(s: Shape, x: int): seq<nat>
  {
    match s
    case Empty => []
    case Cell(l, i, r) =>
      if i == x then []
      else if x in Ids(l) then Suffix(l, x) + [i] + InOrderIds(r)
      else Suffix(r, x)
  }

  // ---------------------------------------------------------------------
  // Structural facts

  lemma {:induction false} DistinctUnique(s: Shape)
    requires Distinct(s)
    ensures Unique(InOrderIds(s))
  {
    match s
    case Empty =>
    case Cell(l, i, r) =>
      DistinctUnique(l);
      DistinctUnique(r);
      InOrderIdsMembers(l);
      InOrderIdsMembers(r);
      var a, b := InOrderIds(l), InOrderIds(r);
      var ids := InOrderIds(s);
      forall x, y | 0 <= x < y < |ids| ensures ids[x] != ids[y] {
        if y < |a| {
          assert ids[x] == a[x] && ids[y] == a[y];
        } else if x < |a| {
          assert ids[x] == a[x] && a[x] in a;
          if y == |a| { } else { assert ids[y] == b[y - |a| - 1]; assert ids[y] in b; }
        } else if x == |a| {
          assert ids[y] == b[y - |a| - 1] && ids[y] in b;
        } else {
          assert ids[x] == b[x - |a| - 1] && ids[y] == b[y - |a| - 1];
        }
      }
  }

  lemma {:induction false} SubAtFacts(s: Shape, x: int)
    requires Distinct(s) && x in Ids(s)
    ensures SubAt(s, x).Cell? && SubAt(s, x).id == x
    ensures Ids(SubAt(s, x)) <= Ids(s) && Distinct(SubAt(s, x))
  {
    match s
    case Cell(l, i, r) =>
      if i == x {
      } else if x in Ids(l) {
        SubAtFacts(l, x);
      } else {
        SubAtFacts(r, x);
      }
  }

  lemma {:induction false} SubAtHangs(s: Shape, x: int, left: seq<int>, right: seq<int>)
    requires Distinct(s) && x in Ids(s) && Hangs(s, left, right)
    ensures Hangs(SubAt(s, x), left, right)
    ensures left[x] == Top(SubAt(s, x).l) && right[x] == Top(SubAt(s, x).r)
  {
    match s
    case Cell(l, i, r) =>
      if i == x {
      } else if x in Ids(l) {
        SubAtHangs(l, x, left, right);
      } else {
        SubAtHangs(r, x, left, right);
      }
  }

  /** The subtree at a child of `x` is the matching half of the subtree at `x`. */
  lemma {:induction false} SubAtChild(s: Shape, x: int)
    requires Distinct(s) && x in Ids(s)
    ensures SubAt(s, x).l.Cell? ==> SubAt(s, SubAt(s, x).l.id) == SubAt(s, x).l
    ensures SubAt(s, x).r.Cell? ==> SubAt(s, SubAt(s, x).r.id) == SubAt(s, x).r
  {
    match s
    case Cell(l, i, r) =>
      if i == x {
        if l.Cell? { SubAtTop(l); }
        if r.Cell? { SubAtTop(r); assert r.id !in Ids(l); }
      } else if x in Ids(l) {
        SubAtChild(l, x);
        SubAtFacts(l, x);
      } else {
        SubAtChild(r, x);
        SubAtFacts(r, x);
      }
  }

  lemma SubAtTop(s: Shape)
    requires s.Cell?
    ensures SubAt(s, s.id) == s
  {
  }

  lemma {:induction false} HangsFrame(s: Shape, left: seq<int>, right: seq<int>, left': seq<int>, right': seq<int>)
    requires Hangs(s, left, right)
    requires forall i | i in Ids(s) :: i < |left'| && i < |right'| && left'[i] == left[i] && right'[i] == right[i]
    ensures Hangs(s, left', right')
  {
    match s
    case Empty =>
    case Cell(l, _, r) =>
      HangsFrame(l, left, right, left', right');
      HangsFrame(r, left, right, left', right');
  }

  lemma {:induction false} ParentsFrame(s: Shape, p: int, parent: seq<int>, parent': seq<int>)
    requires Parents(s, p, parent)
    requires forall i | i in Ids(s) :: i < |parent'| && parent'[i] == parent[i]
    ensures Parents(s, p, parent')
  {
    match s
    case Empty =>
    case Cell(l, i, r) =>
      ParentsFrame(l, i, parent, parent');
      ParentsFrame(r, i, parent, parent');
  }

  /** Re-hanging a subtree under a new parent only needs its top's link changed. */
  lemma ParentsRetop(s: Shape, p: int, parent: seq<int>, q: int, parent': seq<int>)
    requires Distinct(s) && Parents(s, p, parent)
    requires s.Cell? ==> s.id < |parent'| && parent'[s.id] == q
    requires forall i | i in Ids(s) && i != Top(s) :: i < |parent'| && parent'[i] == parent[i]
    ensures Parents(s, q, parent')
  {
    match s
    case Empty =>
    case Cell(l, i, r) =>
      ParentsFrame(l, i, parent, parent');
      ParentsFrame(r, i, parent, parent');
  }

  lemma {:induction false} ViewInOrder<M>(s: Shape, data: seq<int>, meta: seq<M>)
    requires Within(s, |data|) && |meta| == |data|
    ensures InOrder(View(s, data, meta)) == Vals(InOrderIds(s), data)
  {
    match s
    case Empty =>
    case Cell(l, i, r) =>
      var a, b := InOrderIds(l), InOrderIds(r);
      ViewInOrder(l, data, meta);
      ViewInOrder(r, data, meta);
      ValsSplit(a, i, b, data);
  }

  /** The view depends only on the arena entries of the shape's own nodes. */
  lemma {:induction false} ViewFrame<M>(s: Shape, data: seq<int>, meta: seq<M>, data': seq<int>, meta': seq<M>)
    requires Within(s, |data|) && |meta| == |data| && |meta'| == |data'|
    requires forall i | i in Ids(s) :: i < |data'| && data'[i] == data[i] && meta'[i] == meta[i]
    ensures Within(s, |data'|) && View(s, data', meta') == View(s, data, meta)
  {
    match s
    case Empty =>
    case Cell(l, i, r) =>
      assert i in Ids(s);
      ViewFrame(l, data, meta, data', meta');
      ViewFrame(r, data, meta, data', meta');
  }

  lemma {:induction false} SplitAt(s: Shape, x: int)
    requires Distinct(s) && x in Ids(s)
    ensures InOrderIds(s) == Prefix(s, x) + InOrderIds(SubAt(s, x)) + Suffix(s, x)
  {
    match s
    case Cell(l, i, r) =>
      if i == x {
      } else if x in Ids(l) {
        SplitAt(l, x);
        Assoc(Prefix(l, x) + InOrderIds(SubAt(l, x)), Suffix(l, x), [i] + InOrderIds(r));
      } else {
        SplitAt(r, x);
        Assoc(InOrderIds(l) + [i], Prefix(r, x), InOrderIds(SubAt(r, x)));
        Assoc(InOrderIds(l) + [i], Prefix(r, x) + InOrderIds(SubAt(r, x)), Suffix(r, x));
      }
  }

  /** Where the left child `c` of `x` sits in in-order position. */
  lemma {:induction false} SplitLeft(s: Shape, x: int, c: int)
    requires Distinct(s) && x in Ids(s) && SubAt(s, x).l.Cell? && c == SubAt(s, x).l.id
    ensures Prefix(s, c) == Prefix(s, x)
    ensures Suffix(s, c) == [x] + InOrderIds(SubAt(s, x).r) + Suffix(s, x)
  {
    match s
    case Cell(l, i, r) =>
      if i == x {
        assert Prefix(l, c) == [] && Suffix(l, c) == [];
      } else if x in Ids(l) {
        SubAtFacts(l, x);
        assert c in Ids(SubAt(l, x));
        SplitLeft(l, x, c);
      } else {
        SubAtFacts(r, x);
        assert c in Ids(SubAt(r, x));
        assert c !in Ids(l) && c != i;
        SplitLeft(r, x, c);
      }
  }

  /** Where the right child `c` of `x` sits in in-order position. */
  lemma {:induction false} SplitRight(s: Shape, x: int, c: int)
    requires Distinct(s) && x in Ids(s) && SubAt(s, x).r.Cell? && c == SubAt(s, x).r.id
    ensures Prefix(s, c) == Prefix(s, x) + InOrderIds(SubAt(s, x).l) + [x]
    ensures Suffix(s, c) == Suffix(s, x)
  {
    match s
    case Cell(l, i, r) =>
      if i == x {
        assert c !in Ids(l);
        assert Prefix(r, c) == [] && Suffix(r, c) == [];
        assert Prefix(s, c) == InOrderIds(l) + [i] + [];
      } else if x in Ids(l) {
        SubAtFacts(l, x);
        assert c in Ids(SubAt(l, x));
        SplitRight(l, x, c);
      } else {
        SubAtFacts(r, x);
        assert c in Ids(SubAt(r, x));
        assert c !in Ids(l) && c != i;
        SplitRight(r, x, c);
        var t := SubAt(r, x);
        assert Prefix(s, c) == InOrderIds(l) + [i] + (Prefix(r, x) + InOrderIds(t.l) + [x]);
        assert Prefix(s, x) == InOrderIds(l) + [i] + Prefix(r, x);
      }
  }

  /** The nodes before and after the subtree at `x` lie outside it. */
  lemma {:induction false} AroundOutside(s: Shape, x: int)
    requires Distinct(s) && x in Ids(s)
    ensures forall i | i in Prefix(s, x) :: i in Ids(s) && i !in Ids(SubAt(s, x))
    ensures forall i | i in Suffix(s, x) :: i in Ids(s) && i !in Ids(SubAt(s, x))
  {
    match s
    case Cell(l, i, r) =>
      InOrderIdsMembers(l);
      InOrderIdsMembers(r);
      if i == x {
      } else if x in Ids(l) {
        AroundOutside(l, x);
        SubAtFacts(l, x);
      } else {
        AroundOutside(r, x);
        SubAtFacts(r, x);
      }
  }

  /** Values read at nodes other than `x` ignore a change at `x`. */
  lemma {:induction false} ValsFrame(ids: seq<nat>, data: seq<int>, x: nat, w: int)
    requires x < |data| && x !in ids
    ensures Vals(ids, data[x := w]) == Vals(ids, data)
  {
    if ids != [] {
      assert ids[0] != x && x !in ids[1..];
      ValsFrame(ids[1..], data, x, w);
    }
  }

  /** A node that occurs once splits a sequence in one way only. */
  lemma SplitUnique(a: seq<nat>, b: seq<nat>, c: seq<nat>, d: seq<nat>, x: nat)
    requires a + [x] + b == c + [x] + d && x !in a && x !in c
    ensures a == c && b == d
  {
    var s := a + [x] + b;
    var t := c + [x] + d;
    assert s[|a|] == x && t[|c|] == x;
    assert forall j | 0 <= j < |a| :: s[j] == a[j] != x;
    assert forall j | 0 <= j < |c| :: t[j] == c[j] != x;
    assert |a| == |c|;
    assert a == s[..|a|] && c == s[..|c|];
    assert b == s[|a| + 1..] && d == s[|c| + 1..];
  }

  /** What the links of a well-formed arena say, one node at a time. */
  lemma {:induction false} LinkFacts(s: Shape, p: int, left: seq<int>, right: seq<int>, parent: seq<int>)
    requires Distinct(s) && Hangs(s, left, right) && Parents(s, p, parent)
    requires p == NIL || p !in Ids(s)
    ensures forall i | i in Ids(s) :: left[i] != i && right[i] != i
    ensures forall i | i in Ids(s) && left[i] != NIL :: left[i] in Ids(s) && parent[left[i]] == i
    ensures forall i | i in Ids(s) && right[i] != NIL :: right[i] in Ids(s) && parent[right[i]] == i
    ensures forall i | i in Ids(s) && left[i] != NIL :: left[i] != right[i]
    ensures forall i | i in Ids(s) :: parent[i] == p <==> i == Top(s)
    ensures forall i | i in Ids(s) && i != Top(s) ::
      parent[i] in Ids(s) && (left[parent[i]] == i || right[parent[i]] == i)
  {
    match s
    case Empty =>
    case Cell(l, i, r) =>
      LinkFacts(l, i, left, right, parent);
      LinkFacts(r, i, left, right, parent);
  }

  /** Parent links lead one level up. */
  lemma {:induction false} DepthParent(s: Shape, p: int, parent: seq<int>, x: nat)
    requires Distinct(s) && Parents(s, p, parent) && x in Ids(s) && x != Top(s)
    requires p == NIL || p !in Ids(s)
    ensures parent[x] in Ids(s) && Depth(s, parent[x]) + 1 == Depth(s, x)
  {
    match s
    case Cell(l, i, r) =>
      if x in Ids(l) {
        if x == l.id { } else { DepthParent(l, i, parent, x); }
      } else {
        if x == r.id { } else { DepthParent(r, i, parent, x); }
      }
  }

  // ---------------------------------------------------------------------
  // Search path and leaf insertion

  /** Node `p` lies on the search path of `v`: every node above it holds a
    * different value and sends `v` toward `p`. */
  predicate OnPath(s: Shape, data: seq<int>, v: int, p: int)
    requires Within(s, |data|)
  {
    match s
    case Empty => false
    case Cell(l, i, r) =>
      i == p || (v != data[i] && if v < data[i] then OnPath(l, data, v, p) else OnPath(r, data, v, p))
  }

  /** Leaf insertion by descent, the new node getting index `n`. A value
    * already on the path leaves the shape as it is. */
  function InsertShape(s: Shape, data: seq<int>, v: int, n: nat): Shape
    requires Within(s, |data|)
  {
    match s
    case Empty => Cell(Empty, n, Empty)
    case Cell(l, i, r) =>
      if v == data[i] then s
      else if v < data[i] then Cell(InsertShape(l, data, v, n), i, r)
      else Cell(l, i, InsertShape(r, data, v, n))
  }

  lemma {:induction false} OnPathIn(s: Shape, data: seq<int>, v: int, p: int)
    requires Within(s, |data|) && OnPath(s, data, v, p)
    ensures p in Ids(s)
  {
    match s
    case Cell(l, i, r) =>
      if i != p {
        if v < data[i] { OnPathIn(l, data, v, p); } else { OnPathIn(r, data, v, p); }
      }
  }

  lemma {:induction false} OnPathTop(s: Shape, data: seq<int>, v: int)
    requires Within(s, |data|) && s.Cell?
    ensures OnPath(s, data, v, s.id)
  {
  }

  /** The search continues from `p` to the child the comparison selects. */
  lemma {:induction false} OnPathStep(s: Shape, data: seq<int>, left: seq<int>, right: seq<int>, v: int, p: nat)
    requires Within(s, |data|) && Distinct(s) && Hangs(s, left, right) && OnPath(s, data, v, p)
    requires |left| == |right| == |data| && p < |data| && data[p] != v
    ensures v < data[p] && left[p] != NIL ==> OnPath(s, data, v, left[p])
    ensures v > data[p] && right[p] != NIL ==> OnPath(s, data, v, right[p])
  {
    match s
    case Cell(l, i, r) =>
      if i == p {
      } else if v < data[i] {
        OnPathIn(l, data, v, p);
        OnPathStep(l, data, left, right, v, p);
      } else {
        OnPathIn(r, data, v, p);
        OnPathStep(r, data, left, right, v, p);
      }
  }

  /** Finding `v` on the path means the insertion changes nothing. */
  lemma {:induction false} OnPathFound(s: Shape, data: seq<int>, v: int, p: nat, n: nat)
    requires Within(s, |data|) && OnPath(s, data, v, p) && p < |data| && data[p] == v
    ensures InsertShape(s, data, v, n) == s
  {
    match s
    case Cell(l, i, r) =>
      if i != p {
        if v < data[i] { OnPathFound(l, data, v, p, n); } else { OnPathFound(r, data, v, p, n); }
      }
  }

  /** Hanging a new leaf `n` in the empty slot that ends the search path:
    * `left'` and `right'` are the links with that slot filled and the new
    * node's own links empty. */
  lemma {:induction false} AttachLeaf(s: Shape, data: seq<int>, left: seq<int>, right: seq<int>,
                                      left': seq<int>, right': seq<int>, v: int, p: nat, n: nat)
    requires Within(s, |data|) && Distinct(s) && Hangs(s, left, right) && OnPath(s, data, v, p)
    requires n == |data| == |left| == |right| && p < n && data[p] != v
    requires |left'| == |right'| == n + 1 && left'[n] == NIL && right'[n] == NIL
    requires forall i | 0 <= i < n && i != p :: left'[i] == left[i] && right'[i] == right[i]
    requires v < data[p] ==> left[p] == NIL && left'[p] == n && right'[p] == right[p]
    requires v > data[p] ==> right[p] == NIL && right'[p] == n && left'[p] == left[p]
    ensures Hangs(InsertShape(s, data, v, n), left', right')
    ensures Distinct(InsertShape(s, data, v, n))
    ensures Ids(InsertShape(s, data, v, n)) == Ids(s) + {n}
    ensures Top(InsertShape(s, data, v, n)) == Top(s)
  {
    match s
    case Cell(l, i, r) =>
      if i == p {
        if v < data[p] {
          assert l == Empty;
          HangsFrame(r, left, right, left', right');
        } else {
          assert r == Empty;
          HangsFrame(l, left, right, left', right');
        }
      } else if v < data[i] {
        OnPathIn(l, data, v, p);
        AttachLeaf(l, data, left, right, left', right', v, p, n);
        HangsFrame(r, left, right, left', right');
      } else {
        OnPathIn(r, data, v, p);
        AttachLeaf(r, data, left, right, left', right', v, p, n);
        HangsFrame(l, left, right, left', right');
      }
  }

  /** The new leaf's parent link points at the node it hangs from. */
  lemma {:induction false} AttachLeafParents(s: Shape, data: seq<int>, parent: seq<int>, q: int, v: int, p: nat, n: nat)
    requires Within(s, |data|) && Distinct(s) && Parents(s, q, parent) && OnPath(s, data, v, p)
    requires n == |data| == |parent| && p < n && data[p] != v
    requires SubAt(s, p).Cell? && (if v < data[p] then SubAt(s, p).l == Empty else SubAt(s, p).r == Empty)
    ensures Parents(InsertShape(s, data, v, n), q, parent + [p])
  {
    var parent' := parent + [p];
    match s
    case Cell(l, i, r) =>
      if i == p {
        if v < data[p] {
          ParentsFrame(r, i, parent, parent');
        } else {
          ParentsFrame(l, i, parent, parent');
        }
      } else if v < data[i] {
        OnPathIn(l, data, v, p);
        AttachLeafParents(l, data, parent, i, v, p, n);
        ParentsFrame(r, i, parent, parent');
      } else {
        OnPathIn(r, data, v, p);
        assert p !in Ids(l);
        AttachLeafParents(r, data, parent, i, v, p, n);
        ParentsFrame(l, i, parent, parent');
      }
  }
}
