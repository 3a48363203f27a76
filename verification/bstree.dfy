/** Binary search tree (src/bstree.rs). `insert` walks down by comparison
  * and hangs a new leaf in the empty slot where the walk ends; a value that
  * is already present is left alone. The same leaf insertion is the first
  * step of the AVL and red-black insertions, so its value-level form
  * `LeafInsert` lives here. */
module BsTree {
  import opened Base
  import opened Arena

  /** Leaf insertion on the value level; the new node carries metadata `m`. */
  function LeafInsert<M>(t: Tree<M>, v: int, m: M): (r: Tree<M>)
    ensures Values(r) == Values(t) + {v}
  {
    match t
    case Nil => Node(Nil, v, m, Nil)
    case Node(l, d, k, r) =>
      if v == d then t
      else if v < d then Node(LeafInsert(l, v, m), d, k, r)
      else Node(l, d, k, LeafInsert(r, v, m))
  }

  /** Leaf insertion keeps the binary-search-tree invariant. */
  lemma {:induction false} LeafInsertOrdered<M>(t: Tree<M>, v: int, m: M)
    requires Ordered(t)
    ensures Ordered(LeafInsert(t, v, m))
  {
    match t
    case Nil =>
    case Node(l, d, _, r) =>
      if v < d {
        LeafInsertOrdered(l, v, m);
      } else if v > d {
        LeafInsertOrdered(r, v, m);
      }
  }

  /** Leaf insertion adds at most one level. */
  lemma {:induction false} LeafInsertHeight<M>(t: Tree<M>, v: int, m: M)
    ensures Height(t) <= Height(LeafInsert(t, v, m)) <= Height(t) + 1
  {
    match t
    case Nil =>
    case Node(l, d, _, r) =>
      if v < d {
        LeafInsertHeight(l, v, m);
      } else if v > d {
        LeafInsertHeight(r, v, m);
      }
  }

  /** Inserting a value the search finds changes nothing; otherwise
    * exactly one node is added. */
  lemma {:induction false} LeafInsertLen<M>(t: Tree<M>, v: int, m: M)
    ensures Contains(t, v) ==> LeafInsert(t, v, m) == t
    ensures !Contains(t, v) ==> Len(LeafInsert(t, v, m)) == Len(t) + 1
  {
    match t
    case Nil =>
    case Node(l, d, _, r) =>
      if v < d {
        LeafInsertLen(l, v, m);
      } else if v > d {
        LeafInsertLen(r, v, m);
      }
  }

  /** Appending node `n` to the arena and hanging it by `InsertShape` is
    * leaf insertion on the view. */
  lemma {:induction false} ViewInsert<M>(s: Shape, data: seq<int>, meta: seq<M>, v: int, m: M)
    requires Within(s, |data|) && |meta| == |data|
    ensures Within(InsertShape(s, data, v, |data|), |data| + 1)
    ensures View(InsertShape(s, data, v, |data|), data + [v], meta + [m])
         == LeafInsert(View(s, data, meta), v, m)
  {
    var n := |data|;
    match s
    case Empty =>
    case Cell(l, i, r) =>
      ViewInsert(l, data, meta, v, m);
      ViewInsert(r, data, meta, v, m);
      if v == data[i] {
        ViewFrame(s, data, meta, data + [v], meta + [m]);
      } else if v < data[i] {
        ViewFrame(r, data, meta, data + [v], meta + [m]);
      } else {
        ViewFrame(l, data, meta, data + [v], meta + [m]);
      }
  }

  /** Every stored node contributes its value to the view. */
  lemma {:induction false} ViewHas<M>(s: Shape, data: seq<int>, meta: seq<M>, x: nat)
    requires Within(s, |data|) && |meta| == |data| && x in Ids(s)
    ensures data[x] in Values(View(s, data, meta))
  {
    match s
    case Cell(l, i, r) =>
      if x in Ids(l) { ViewHas(l, data, meta, x); }
      else if x in Ids(r) { ViewHas(r, data, meta, x); }
  }

  function Units(n: nat): (u: seq<()>)
    ensures |u| == n
  {
    seq(n, _ => ())
  }

  /** The arena holds one tree whose child links agree with `shape`. */
  ghost predicate WellFormed(shape: Shape, data: seq<int>, left: seq<int>, right: seq<int>)
  {
    && |left| == |data| && |right| == |data|
    && Within(shape, |data|) && Distinct(shape) && Hangs(shape, left, right)
  }

  /** The value-level tree of a plain arena. */
  ghost function Plain(shape: Shape, data: seq<int>): Tree<()>
    requires Within(shape, |data|)
  {
    View(shape, data, Units(|data|))
  }

  /** The last step of node-level `insert`: the search for `v` ended at `p`
    * whose selected child slot is empty, and a new node `|data|` with
    * metadata `m` is hung there. The result is again well formed, and its
    * view is the leaf insertion of `v` into the old view. */
  lemma HangLeaf<M>(shape: Shape, data: seq<int>, meta: seq<M>, left: seq<int>, right: seq<int>, v: int, p: nat, m: M)
    requires WellFormed(shape, data, left, right) && |meta| == |data|
    requires p in Ids(shape) && OnPath(shape, data, v, p)
    requires data[p] != v && (if v < data[p] then left[p] else right[p]) == NIL
    ensures var n := |data|;
      var left' := if v < data[p] then (left + [NIL])[p := n] else left + [NIL];
      var right' := if v < data[p] then right + [NIL] else (right + [NIL])[p := n];
      var shape' := InsertShape(shape, data, v, n);
      && WellFormed(shape', data + [v], left', right')
      && Top(shape') == Top(shape)
      && View(shape', data + [v], meta + [m]) == LeafInsert(View(shape, data, meta), v, m)
  {
    var n := |data|;
    var left' := if v < data[p] then (left + [NIL])[p := n] else left + [NIL];
    var right' := if v < data[p] then right + [NIL] else (right + [NIL])[p := n];
    AttachLeaf(shape, data, left, right, left', right', v, p, n);
    ViewInsert(shape, data, meta, v, m);
  }

  /** Finding `v` at `p`: leaf insertion changes nothing. */
  lemma FoundOnPath<M>(shape: Shape, data: seq<int>, meta: seq<M>, v: int, p: nat, m: M)
    requires Within(shape, |data|) && |meta| == |data| && Ordered(View(shape, data, meta))
    requires p in Ids(shape) && data[p] == v
    ensures LeafInsert(View(shape, data, meta), v, m) == View(shape, data, meta)
  {
    ViewHas(shape, data, meta, p);
    LeafInsertLen(View(shape, data, meta), v, m);
  }

  /** The tree: an arena of nodes and the index of the root (`NIL` when the
    * tree is empty). Nodes carry no metadata. */
  class BinarySearchTree {
    var root: int
    var data: seq<int>
    var left: seq<int>
    var right: seq<int>
    ghost var shape: Shape

    ghost function Abs(): Tree<()>
      reads this
      requires Within(shape, |data|)
    {
      Plain(shape, data)
    }

    /** The arena holds one well-linked tree that satisfies the
      * binary-search-tree invariant. */
    ghost predicate Valid()
      reads this
    {
      WellFormed(shape, data, left, right) && root == Top(shape) && Ordered(Abs())
    }

    /** `new`: the empty tree. */
    constructor ()
      ensures Valid() && Abs() == Nil
    {
      root := NIL;
      data, left, right := [], [], [];
      shape := Empty;
    }

    /** Tree-level `insert`: an empty tree gets a root, otherwise the root's
      * node-level insertion takes over. */
    method Insert(v: int)
      requires Valid()
      modifies this
      ensures Valid()
      ensures Abs() == LeafInsert(old(Abs()), v, ())
    {
      if root == NIL {
        var n := |data|;
        data, left, right := data + [v], left + [NIL], right + [NIL];
        root := n;
        shape := Cell(Empty, n, Empty);
        assert Units(n + 1)[n] == ();
        assert View(shape, data, Units(n + 1)) == Node(Nil, v, (), Nil);
      } else {
        OnPathTop(shape, data, v);
        InsertFrom(root, v);
      }
    }

    /** Node-level `insert` at `node`, a node on the search path of `v`:
      * stop on an equal value, descend into the child the comparison picks,
      * or hang a new leaf where that child is absent. */
    method InsertFrom(node: nat, v: int)
      requires Valid() && node in Ids(shape) && OnPath(shape, data, v, node)
      modifies this
      decreases SubAt(shape, node)
      ensures Valid() && root == old(root)
      ensures Abs() == LeafInsert(old(Abs()), v, ())
    {
      if data[node] == v {
        FoundOnPath(shape, data, Units(|data|), v, node, ());
        return;
      }
      var next := if v < data[node] then left[node] else right[node];
      if next != NIL {
        OnPathStep(shape, data, left, right, v, node);
        SubAtHangs(shape, node, left, right);
        SubAtChild(shape, node);
        ghost var sub := SubAt(shape, node);
        assert next in Ids(if v < data[node] then sub.l else sub.r);
        InsertFrom(next, v);
      } else {
        HangLeaf(shape, data, Units(|data|), left, right, v, node, ());
        LeafInsertOrdered(Abs(), v, ());
        assert Units(|data|) + [()] == Units(|data| + 1);
        var n := |data|;
        shape := InsertShape(shape, data, v, n);
        if v < data[node] {
          left := (left + [NIL])[node := n];
          right := right + [NIL];
        } else {
          left := left + [NIL];
          right := (right + [NIL])[node := n];
        }
        data := data + [v];
      }
    }
  }

  function InsertAll(t: Tree<()>, vs: seq<int>): Tree<()>
    decreases |vs|
  {
    if vs == [] then t else InsertAll(LeafInsert(t, vs[0], ()), vs[1..])
  }

  function Leaf(v: int): Tree<()>
  {
    Node(Nil, v, (), Nil)
  }

  /** The documented in-order example: inserting 1, 0, 5, 3, 2 yields the
    * in-order sequence 0 1 2 3 5, minimum 0 and maximum 5. */
  lemma InOrderExample()
    ensures InOrder(InsertAll(Nil, [1, 0, 5, 3, 2])) == [0, 1, 2, 3, 5]
    ensures Min(InsertAll(Nil, [1, 0, 5, 3, 2])) == Some(0)
    ensures Max(InsertAll(Nil, [1, 0, 5, 3, 2])) == Some(5)
  {
    ExampleTree();
    var t5 := Node(Leaf(0), 1, (), Node(Node(Leaf(2), 3, (), Nil), 5, (), Nil));
    assert InOrder(Node(Leaf(2), 3, (), Nil)) == [2, 3];
    assert InOrder(Node(Node(Leaf(2), 3, (), Nil), 5, (), Nil)) == [2, 3, 5];
    assert InOrder(t5) == [0, 1] + [2, 3, 5];
  }

  /** The tree that inserting 1, 0, 5, 3, 2 builds. */
  lemma ExampleTree()
    ensures InsertAll(Nil, [1, 0, 5, 3, 2]) == Node(Leaf(0), 1, (), Node(Node(Leaf(2), 3, (), Nil), 5, (), Nil))
  {
    var t2 := Node(Leaf(0), 1, (), Nil);
    var t3 := Node(Leaf(0), 1, (), Leaf(5));
    var t4 := Node(Leaf(0), 1, (), Node(Leaf(3), 5, (), Nil));
    var t5 := Node(Leaf(0), 1, (), Node(Node(Leaf(2), 3, (), Nil), 5, (), Nil));
    assert LeafInsert(Nil, 1, ()) == Leaf(1);
    assert LeafInsert(Leaf(1), 0, ()) == t2;
    assert LeafInsert(t2, 5, ()) == t3;
    assert LeafInsert(Leaf(5), 3, ()) == Node(Leaf(3), 5, (), Nil);
    assert LeafInsert(t3, 3, ()) == t4;
    assert LeafInsert(Leaf(3), 2, ()) == Node(Leaf(2), 3, (), Nil);
    assert LeafInsert(Node(Leaf(3), 5, (), Nil), 2, ()) == Node(Node(Leaf(2), 3, (), Nil), 5, (), Nil);
    assert LeafInsert(t4, 2, ()) == t5;
    assert InsertAll(Nil, [1, 0, 5, 3, 2]) == InsertAll(Leaf(1), [0, 5, 3, 2]);
    assert InsertAll(Leaf(1), [0, 5, 3, 2]) == InsertAll(t2, [5, 3, 2]);
    assert InsertAll(t2, [5, 3, 2]) == InsertAll(t3, [3, 2]);
    assert InsertAll(t3, [3, 2]) == InsertAll(t4, [2]);
    assert InsertAll(t4, [2]) == InsertAll(t5, []);
  }

  /** The documented length example (three distinct insertions give length
    * 3) and the unit test (one insertion gives height 1). */
  lemma SizeExamples()
    ensures Len(InsertAll(Nil, [1, 10, 13])) == 3
    ensures Height(InsertAll(Nil, [0])) == 1
    ensures CountLeaves(InsertAll(Nil, [1])) == 1
    ensures Contains(InsertAll(Nil, [1]), 1) && !Contains(InsertAll(Nil, [1]), 0)
    ensures !IsEmpty(InsertAll(Nil, [1]))
  {
    assert LeafInsert(Nil, 1, ()) == Leaf(1);
    assert LeafInsert(Nil, 0, ()) == Leaf(0);
    assert LeafInsert(Leaf(1), 10, ()) == Node(Nil, 1, (), Leaf(10));
    assert LeafInsert(Leaf(10), 13, ()) == Node(Nil, 10, (), Leaf(13));
    assert LeafInsert(Node(Nil, 1, (), Leaf(10)), 13, ()) == Node(Nil, 1, (), Node(Nil, 10, (), Leaf(13)));
    assert InsertAll(Nil, [1, 10, 13]) == InsertAll(Leaf(1), [10, 13]);
    assert InsertAll(Leaf(1), [10, 13]) == InsertAll(Node(Nil, 1, (), Leaf(10)), [13]);
    assert InsertAll(Node(Nil, 1, (), Leaf(10)), [13]) == InsertAll(Node(Nil, 1, (), Node(Nil, 10, (), Leaf(13))), []);
    assert InsertAll(Nil, [0]) == InsertAll(Leaf(0), []);
    assert InsertAll(Nil, [1]) == InsertAll(Leaf(1), []);
  }

  /** The count-leaves documentation remarks that the height is "still 1"
    * after inserting 1 and then 0; the code gives 2, since 0 hangs below 1. */
  lemma HeightAfterTwoInserts()
    ensures Height(InsertAll(Nil, [1, 0])) == 2
  {
    assert LeafInsert(Nil, 1, ()) == Leaf(1);
    assert LeafInsert(Leaf(1), 0, ()) == Node(Leaf(0), 1, (), Nil);
    assert InsertAll(Nil, [1, 0]) == InsertAll(Leaf(1), [0]);
    assert InsertAll(Leaf(1), [0]) == InsertAll(Node(Leaf(0), 1, (), Nil), []);
  }
}
