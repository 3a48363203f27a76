/** The colour layer of the red-black tree at the level of values: the
  * colour checkers of `src/rbtree.rs` (`color`, `check_coloring`,
  * `black_height`, `check_color_properties`) as recursive functions over a
  * value tree whose nodes carry a colour, each proved equal to a reference
  * statement of the red-black property it checks, and the two rotations as
  * value-level rearrangements. */
module RbColor {
  import opened Base

  datatype Color = Red | Black

  /** `color`: an absent node counts as black. */
  function ColorOf(t: Tree<Color>): Color
  {
    if t.Nil? then Black else t.meta
  }

  // ---------------------------------------------------------------------
  // Reference statements of the colour properties

  /** Every subtree, each node counted once as the top of its own subtree. */
  function Subtrees(t: Tree<Color>): set<Tree<Color>>
  {
    match t
    case Nil => {}
    case Node(l, _, _, r) => {t} + Subtrees(l) + Subtrees(r)
  }

  /** Property 4: no red node has a red child (absent children are black). */
  ghost predicate NoRedRed(t: Tree<Color>)
  {
    forall u | u in Subtrees(t) && u.Node? && u.meta == Red :: ColorOf(u.left) == Black && ColorOf(u.right) == Black
  }

  /** The number of black nodes met on each path from the top down to an
    * absent child, the absent child itself counting as one black node. */
  ghost function BlackCounts(t: Tree<Color>): (ks: set<nat>)
    ensures ks != {}
  {
    match t
    case Nil => {1}
    case Node(l, _, c, r) =>
      var below := BlackCounts(l) + BlackCounts(r);
      var b := if c == Black then 1 else 0;
      var ks := set j | j in below :: j + b;
      var k :| k in below;
      assert k + b in ks;
      ks
  }

  /** Property 5: every path carries the same number of black nodes. */
  ghost predicate Uniform(t: Tree<Color>)
  {
    forall a, b | a in BlackCounts(t) && b in BlackCounts(t) :: a == b
  }

  // ---------------------------------------------------------------------
  // The checkers

  /** `black_height`: 1 for an absent node; `None` as soon as the two
    * children disagree (or either already failed); otherwise the children's
    * count plus one for a black node. It succeeds exactly when every path
    * has the same number of black nodes, and then returns that number. */
  function BlackHeight(t: Tree<Color>): (r: Option<nat>)
    ensures r.Some? <==> Uniform(t)
    ensures r.Some? ==> BlackCounts(t) == {r.value}
  {
    match t
    case Nil => Some(1)
    case Node(l, _, c, r) =>
      var lh := BlackHeight(l);
      var rh := BlackHeight(r);
      var b := if c == Black then 1 else 0;
      var below := BlackCounts(l) + BlackCounts(r);
      assert BlackCounts(t) == set j | j in below :: j + b;
      if lh.Some? && rh.Some? then
        if lh.value != rh.value then
          assert lh.value + b in BlackCounts(t) && rh.value + b in BlackCounts(t);
          None
        else
          assert below == {lh.value};
          assert BlackCounts(t) == {lh.value + b};
          Some(lh.value + b)
      else
        NotUniformBelow(t);
        None
  }

  /** A node whose child is not uniform is not uniform itself. */
  lemma NotUniformBelow(t: Tree<Color>)
    requires t.Node? && (!Uniform(t.left) || !Uniform(t.right))
    ensures !Uniform(t)
  {
    var b := if t.meta == Black then 1 else 0;
    var below := BlackCounts(t.left) + BlackCounts(t.right);
    assert BlackCounts(t) == set j | j in below :: j + b;
    var x, y :| x in below && y in below && x != y;
    assert x + b in BlackCounts(t) && y + b in BlackCounts(t);
  }

  /** `check_coloring` (the source calls it on a present node only): false
    * as soon as a red node has a red child, otherwise the verdict of the
    * present children. It succeeds exactly when no red node has a red child. */
  function CheckColoring(t: Tree<Color>): (ok: bool)
    requires t.Node?
    ensures ok <==> NoRedRed(t)
  {
    var here := !(t.meta == Red && (ColorOf(t.left) == Red || ColorOf(t.right) == Red));
    var okl := t.left.Nil? || CheckColoring(t.left);
    var okr := t.right.Nil? || CheckColoring(t.right);
    assert Subtrees(t) == {t} + Subtrees(t.left) + Subtrees(t.right);
    assert t.left.Nil? ==> NoRedRed(t.left);
    assert t.right.Nil? ==> NoRedRed(t.right);
    here && okl && okr
  }

  /** `check_color_properties`: the top is not red, no red node has a red
    * child, and `black_height` succeeds; that is, the tree is a red-black
    * tree with a black root. */
  function CheckColorProperties(t: Tree<Color>): (ok: bool)
    requires t.Node?
    ensures ok <==> t.meta == Black && NoRedRed(t) && Uniform(t)
  {
    if t.meta == Red then false
    else if !CheckColoring(t) then false
    else if BlackHeight(t).None? then false
    else true
  }

  // ---------------------------------------------------------------------
  // Rotations on values

  /** The value-level effect of `rotate_left` at a node with a right child:
    * the right child moves up and the node becomes its left child. */
  function RotatedLeft<M>(t: Tree<M>): (r: Tree<M>)
    requires t.Node? && t.right.Node?
    ensures r.Node? && r.left.Node? && InOrder(r) == InOrder(t)
  {
    var Node(a, x, mx, Node(b, y, my, c)) := t;
    assert InOrder(a) + [x] + (InOrder(b) + [y] + InOrder(c)) == (InOrder(a) + [x] + InOrder(b)) + [y] + InOrder(c);
    Node(Node(a, x, mx, b), y, my, c)
  }

  /** The value-level effect of `rotate_right` at a node with a left child. */
  function RotatedRight<M>(t: Tree<M>): (r: Tree<M>)
    requires t.Node? && t.left.Node?
    ensures r.Node? && r.right.Node? && InOrder(r) == InOrder(t)
  {
    var Node(Node(a, x, mx, b), y, my, c) := t;
    assert (InOrder(a) + [x] + InOrder(b)) + [y] + InOrder(c) == InOrder(a) + [x] + (InOrder(b) + [y] + InOrder(c));
    Node(a, x, mx, Node(b, y, my, c))
  }

  /** Each rotation undoes the other. */
  lemma RotationsUndo<M>(t: Tree<M>)
    ensures t.Node? && t.right.Node? ==> RotatedRight(RotatedLeft(t)) == t
    ensures t.Node? && t.left.Node? ==> RotatedLeft(RotatedRight(t)) == t
  {
  }

  /** A rotation keeps the binary-search-tree invariant and the stored values. */
  lemma RotationOrdered<M>(t: Tree<M>)
    requires t.Node? && t.right.Node?
    ensures Ordered(RotatedLeft(t)) <==> Ordered(t)
    ensures Values(RotatedLeft(t)) == Values(t)
  {
    OrderedIffAscending(t);
    OrderedIffAscending(RotatedLeft(t));
    ValuesInOrder(t);
    ValuesInOrder(RotatedLeft(t));
  }
}
