/** The query layer shared by the three trees (the `QueryableTreeNode` and
  * `QueryableTree` defaults): pure recursive functions over a value-level
  * binary tree. A node carries per-kind metadata `M`: nothing for the plain
  * binary search tree, the stored height for the AVL tree, the colour for the
  * red-black tree. The absent tree `Nil` plays the part of an absent root or
  * child, so each node-level query and its tree-level wrapper are one
  * function here, except `min`/`max`, whose node level has no empty case. */
module Base {

  datatype Option<T> = None | Some(value: T)

  datatype Tree<M> = Nil | Node(left: Tree<M>, data: int, meta: M, right: Tree<M>)

  /** In-order visiting: left subtree, node, right subtree. */
  function InOrder<M>(t: Tree<M>): seq<int>
  {
    match t
    case Nil => []
    case Node(l, d, _, r) => InOrder(l) + [d] + InOrder(r)
  }

  /** The set of stored values. */
  function Values<M>(t: Tree<M>): set<int>
  {
    match t
    case Nil => {}
    case Node(l, d, _, r) => Values(l) + {d} + Values(r)
  }

  /** The binary-search-tree invariant: everything in the left subtree is
    * smaller than the node, everything in the right subtree larger. */
  ghost predicate Ordered<M>(t: Tree<M>)
  {
    match t
    case Nil => true
    case Node(l, d, _, r) =>
      && Ordered(l) && Ordered(r)
      && (forall x | x in Values(l) :: x < d)
      && (forall x | x in Values(r) :: d < x)
  }

  predicate StrictlyAscending(s: seq<int>)
  {
    forall i, j | 0 <= i < j < |s| :: s[i] < s[j]
  }

  function Pow2(n: nat): (p: nat)
    ensures p >= 1
  {
    if n == 0 then 1 else 2 * Pow2(n - 1)
  }

  function Larger(a: nat, b: nat): nat
  {
    if a < b then b else a
  }

  /** `height`: an absent subtree counts 0, a node one more than its taller child. */
  function Height<M>(t: Tree<M>): (h: nat)
    ensures h == 0 <==> t.Nil?
  {
    match t
    case Nil => 0
    case Node(l, _, _, r) => Larger(Height(l), Height(r)) + 1
  }

  /** `len`: the number of nodes. */
  function Len<M>(t: Tree<M>): (n: nat)
    ensures n == |InOrder(t)|
  {
    match t
    case Nil => 0
    case Node(l, _, _, r) => Len(l) + Len(r) + 1
  }

  /** `count_leaves`: a childless node is one leaf, a node with one child
    * passes its child's count through, a node with two children adds both. */
  function CountLeaves<M>(t: Tree<M>): (c: nat)
    ensures t.Nil? ==> c == 0
    ensures t.Node? ==> 1 <= c <= Len(t)
  {
    match t
    case Nil => 0
    case Node(Nil, _, _, Nil) => 1
    case Node(Nil, _, _, r) => CountLeaves(r)
    case Node(l, _, _, Nil) => CountLeaves(l)
    case Node(l, _, _, r) => CountLeaves(l) + CountLeaves(r)
  }

  /** Node-level `min`: follow left children to the end. */
  function NodeMin<M>(t: Tree<M>): (m: int)
    requires t.Node?
    ensures m == InOrder(t)[0]
  {
    if t.left.Nil? then t.data else NodeMin(t.left)
  }

  /** Node-level `max`: follow right children to the end. */
  function NodeMax<M>(t: Tree<M>): (m: int)
    requires t.Node?
    ensures m == InOrder(t)[|InOrder(t)| - 1]
  {
    if t.right.Nil? then t.data else NodeMax(t.right)
  }

  /** Tree-level `min`: absent on the empty tree. */
  function Min<M>(t: Tree<M>): (r: Option<int>)
    ensures r.None? <==> t.Nil?
    ensures r.Some? ==> r.value in Values(t)
    ensures r.Some? && Ordered(t) ==> forall x | x in Values(t) :: r.value <= x
  {
    match t
    case Nil => None
    case Node(_, _, _, _) =>
      OrderedIffAscending(t);
      ValuesInOrder(t);
      Some(NodeMin(t))
  }

  /** Tree-level `max`: absent on the empty tree. */
  function Max<M>(t: Tree<M>): (r: Option<int>)
    ensures r.None? <==> t.Nil?
    ensures r.Some? ==> r.value in Values(t)
    ensures r.Some? && Ordered(t) ==> forall x | x in Values(t) :: x <= r.value
  {
    match t
    case Nil => None
    case Node(_, _, _, _) =>
      OrderedIffAscending(t);
      ValuesInOrder(t);
      Some(NodeMax(t))
  }

  /** `contains`: descend by comparison. A hit is always a stored value;
    * on an ordered tree every stored value is found. */
  function Contains<M>(t: Tree<M>, v: int): (b: bool)
    ensures b ==> v in Values(t)
    ensures Ordered(t) ==> (b <==> v in Values(t))
  {
    match t
    case Nil => false
    case Node(l, d, _, r) =>
      if d == v then true
      else if d < v then Contains(r, v)
      else Contains(l, v)
  }

  /** `is_empty`: the root is absent. */
  function IsEmpty<M>(t: Tree<M>): (b: bool)
    ensures b <==> Len(t) == 0
  {
    t.Nil?
  }

  /** On an empty tree every query answers with its neutral value. */
  lemma EmptyQueries<M>(v: int)
    ensures Height<M>(Nil) == 0 && Len<M>(Nil) == 0 && CountLeaves<M>(Nil) == 0
    ensures IsEmpty<M>(Nil) && Min<M>(Nil) == None && Max<M>(Nil) == None
    ensures !Contains<M>(Nil, v)
  {
  }

  /** The stored values are exactly the values visited in order. */
  lemma {:induction false} ValuesInOrder<M>(t: Tree<M>)
    ensures forall x :: x in Values(t) <==> x in InOrder(t)
  {
    match t
    case Nil =>
    case Node(l, _, _, r) =>
      ValuesInOrder(l);
      ValuesInOrder(r);
  }

  /** A tree of height h has between h and 2^h - 1 nodes. */
  lemma {:induction false} HeightBounds<M>(t: Tree<M>)
    ensures Height(t) <= Len(t) < Pow2(Height(t))
  {
    match t
    case Nil =>
    case Node(l, _, _, r) =>
      HeightBounds(l);
      HeightBounds(r);
      var h := Height(t);
      assert Pow2(h) == 2 * Pow2(h - 1);
      assert Pow2(Height(l)) <= Pow2(h - 1) by { Pow2Monotone(Height(l), h - 1); }
      assert Pow2(Height(r)) <= Pow2(h - 1) by { Pow2Monotone(Height(r), h - 1); }
  }

  lemma {:induction false} Pow2Monotone(a: nat, b: nat)
    requires a <= b
    ensures Pow2(a) <= Pow2(b)
  {
    if a < b {
      Pow2Monotone(a, b - 1);
    }
  }

  /** The binary-search-tree invariant holds exactly when in-order visiting
    * yields a strictly ascending sequence. */
  lemma OrderedIffAscending<M>(t: Tree<M>)
    ensures Ordered(t) <==> StrictlyAscending(InOrder(t))
  {
    if Ordered(t) {
      OrderedAscending(t);
    }
    if StrictlyAscending(InOrder(t)) {
      AscendingOrdered(t);
    }
  }

  lemma {:induction false} OrderedAscending<M>(t: Tree<M>)
    requires Ordered(t)
    ensures StrictlyAscending(InOrder(t))
  {
    match t
    case Nil =>
    case Node(l, d, _, r) =>
      OrderedAscending(l);
      OrderedAscending(r);
      ValuesInOrder(l);
      ValuesInOrder(r);
      var sl, sr := InOrder(l), InOrder(r);
      var s := InOrder(t);
      forall i, j | 0 <= i < j < |s|
        ensures s[i] < s[j]
      {
        if j < |sl| {
          assert s[i] == sl[i] && s[j] == sl[j];
        } else if i < |sl| {
          assert s[i] == sl[i] && sl[i] in Values(l);
          if j > |sl| { assert s[j] == sr[j - |sl| - 1]; assert s[j] in Values(r); }
        } else if i == |sl| {
          assert s[j] == sr[j - |sl| - 1];
          assert s[j] in Values(r);
        } else {
          assert s[i] == sr[i - |sl| - 1] && s[j] == sr[j - |sl| - 1];
        }
      }
  }

  lemma {:induction false} AscendingOrdered<M>(t: Tree<M>)
    requires StrictlyAscending(InOrder(t))
    ensures Ordered(t)
  {
    match t
    case Nil =>
    case Node(l, d, _, r) =>
      var sl, sr := InOrder(l), InOrder(r);
      var s := InOrder(t);
      assert StrictlyAscending(sl) by {
        forall i, j | 0 <= i < j < |sl| ensures sl[i] < sl[j] { assert s[i] == sl[i] && s[j] == sl[j]; }
      }
      assert StrictlyAscending(sr) by {
        forall i, j | 0 <= i < j < |sr| ensures sr[i] < sr[j] {
          assert s[|sl| + 1 + i] == sr[i] && s[|sl| + 1 + j] == sr[j];
        }
      }
      AscendingOrdered(l);
      AscendingOrdered(r);
      ValuesInOrder(l);
      ValuesInOrder(r);
      forall x | x in Values(l) ensures x < d {
        var i :| 0 <= i < |sl| && sl[i] == x;
        assert s[i] == x && s[|sl|] == d;
      }
      forall x | x in Values(r) ensures d < x {
        var i :| 0 <= i < |sr| && sr[i] == x;
        assert s[|sl| + 1 + i] == x && s[|sl|] == d;
      }
  }

  // ---------------------------------------------------------------------
  // Removing a value from an in-order sequence

  /** `s` without its occurrences of `v`, the rest in order. */
  function Remove(s: seq<int>, v: int): (r: seq<int>)
    ensures |r| <= |s|
  {
    if s == [] then [] else (if s[0] == v then [] else [s[0]]) + Remove(s[1..], v)
  }

  /** What is left is exactly what was there, except `v`. */
  lemma {:induction false} RemoveMembers(s: seq<int>, v: int)
    ensures forall y :: y in Remove(s, v) <==> y in s && y != v
  {
    if s != [] {
      RemoveMembers(s[1..], v);
      assert s == [s[0]] + s[1..];
    }
  }

  lemma {:induction false} RemoveAppend(a: seq<int>, b: seq<int>, v: int)
    ensures Remove(a + b, v) == Remove(a, v) + Remove(b, v)
  {
    if a == [] {
      assert a + b == b;
    } else {
      assert (a + b)[0] == a[0] && (a + b)[1..] == a[1..] + b;
      RemoveAppend(a[1..], b, v);
    }
  }

  /** Removing an absent value changes nothing. */
  lemma {:induction false} RemoveAbsent(s: seq<int>, v: int)
    requires v !in s
    ensures Remove(s, v) == s
  {
    if s != [] {
      assert s[0] != v && v !in s[1..];
      RemoveAbsent(s[1..], v);
      assert s == [s[0]] + s[1..];
    }
  }

  /** Removing the one occurrence of `v` closes the gap. */
  lemma RemoveOnce(a: seq<int>, v: int, b: seq<int>)
    requires v !in a && v !in b
    ensures Remove(a + [v] + b, v) == a + b
  {
    RemoveAppend(a + [v], b, v);
    RemoveAppend(a, [v], v);
    RemoveAbsent(a, v);
    RemoveAbsent(b, v);
    assert Remove([v], v) == [] by {
      assert [v][1..] == [];
    }
    assert Remove(a + [v], v) == a;
  }

  /** Removing from a strictly ascending sequence keeps it strictly
    * ascending and drops exactly one element when the value is there. */
  lemma RemoveAscending(s: seq<int>, v: int)
    requires StrictlyAscending(s)
    ensures StrictlyAscending(Remove(s, v))
    ensures |Remove(s, v)| == if v in s then |s| - 1 else |s|
  {
    if v in s {
      var i :| 0 <= i < |s| && s[i] == v;
      var a, b := s[..i], s[i + 1..];
      assert s == a + [v] + b;
      AscendingParts(a, v, b);
      RemoveOnce(a, v, b);
      AscendingDrop(a, v, b);
    } else {
      RemoveAbsent(s, v);
    }
  }

  /** Dropping an element from a strictly ascending sequence keeps the
    * rest strictly ascending. */
  lemma AscendingDrop(a: seq<int>, d: int, b: seq<int>)
    requires StrictlyAscending(a + [d] + b)
    ensures StrictlyAscending(a + b)
  {
    var s, r := a + [d] + b, a + b;
    forall x, y | 0 <= x < y < |r| ensures r[x] < r[y] {
      var x', y' := if x < |a| then x else x + 1, if y < |a| then y else y + 1;
      assert r[x] == s[x'] && r[y] == s[y'];
    }
  }

  /** The pieces around an element of a strictly ascending sequence. */
  lemma AscendingParts(a: seq<int>, d: int, b: seq<int>)
    requires StrictlyAscending(a + [d] + b)
    ensures StrictlyAscending(a) && StrictlyAscending(b)
    ensures forall y | y in a :: y < d
    ensures forall y | y in b :: d < y
  {
    var s := a + [d] + b;
    forall i, j | 0 <= i < j < |b| ensures b[i] < b[j] {
      assert b[i] == s[|a| + 1 + i] && b[j] == s[|a| + 1 + j];
    }
    forall i, j | 0 <= i < j < |a| ensures a[i] < a[j] {
      assert a[i] == s[i] && a[j] == s[j];
    }
    forall y | y in a ensures y < d {
      var i :| 0 <= i < |a| && a[i] == y;
      assert s[i] == y && s[|a|] == d;
    }
    forall y | y in b ensures d < y {
      var i :| 0 <= i < |b| && b[i] == y;
      assert s[|a| + 1 + i] == y && s[|a|] == d;
    }
  }

  /** Removing a value below the middle element `d` leaves `d` and all
    * that follows it. */
  lemma RemoveBelow(a: seq<int>, d: int, b: seq<int>, v: int)
    requires StrictlyAscending(a + [d] + b) && v < d
    ensures Remove(a + [d] + b, v) == Remove(a, v) + [d] + b
  {
    AscendingParts(a, d, b);
    RemoveAppend(a + [d], b, v);
    RemoveAppend(a, [d], v);
    assert Remove([d], v) == [d];
    RemoveAbsent(b, v);
  }

  /** Removing a value above the middle element `d` leaves `d` and all
    * that precedes it. */
  lemma RemoveAbove(a: seq<int>, d: int, b: seq<int>, v: int)
    requires StrictlyAscending(a + [d] + b) && d < v
    ensures Remove(a + [d] + b, v) == a + [d] + Remove(b, v)
  {
    AscendingParts(a, d, b);
    RemoveAppend(a + [d], b, v);
    RemoveAppend(a, [d], v);
    assert Remove([d], v) == [d];
    RemoveAbsent(a, v);
  }

  /** Removing the middle element `d` by moving the last element `m` of
    * `a` into its place and removing `m` from `a` instead. */
  lemma RemoveByPredecessor(a: seq<int>, d: int, b: seq<int>, m: int)
    requires StrictlyAscending(a + [d] + b) && a != [] && m == a[|a| - 1]
    ensures Remove(a, m) + [m] + b == Remove(a + [d] + b, d)
  {
    AscendingParts(a, d, b);
    var a' := a[..|a| - 1];
    assert a == a' + [m] + [];
    assert a' + [] == a';
    assert m !in a' by {
      forall j | 0 <= j < |a'| ensures a'[j] != m {
        assert a'[j] == a[j] && a[j] < a[|a| - 1];
      }
    }
    RemoveOnce(a', m, []);
    assert Remove(a, m) + [m] == a;
    assert d !in a && d !in b;
    RemoveOnce(a, d, b);
  }
}
