# Search trees: a verified model of the query layer, the binary search tree, the AVL tree and the red-black tree

The library stores ordered keys in three kinds of binary tree. All three share a
query layer of read-only operations: `height`, `len`, `count_leaves`, `min`,
`max`, `contains`, `is_empty` and in-order printing. On top of it sit three
mutation layers:

- an unbalanced binary search tree that inserts by descent;
- an AVL tree. Its nodes store a height, and it has rotation and rebalancing
  primitives, but its `insert` uses neither;
- a red-black tree. Its nodes carry a colour and a parent link, and it has
  insert and delete with the full repair case analysis.

The model works on two levels.

- **Values.** `Base.Tree<M>` is an immutable binary tree whose nodes hold an
  `int` key and per-kind metadata `M`. The metadata is nothing for the search
  tree, the stored height for the AVL tree and the colour for the red-black
  tree. The query layer is a set of recursive functions on it (`base.dfy`).
  Leaf insertion, the AVL rotations and the colour checkers also have
  value-level forms (`bstree.dfy`, `avltree.dfy`, `rbcolor.dfy`).
- **Arenas.** Each tree kind is a class whose nodes live in sequence fields:
  `data`, `left`, `right`, plus `height`, or plus `color` and `parent`. `NIL`
  (-1) stands for an absent link. The methods update these fields in place,
  in the order in which the source updates its shared node cells. A ghost
  `shape` (module `Arena`) is the tree of node indices that the links
  describe. It ties each arena to its value-level view: `Abs()` for the
  whole tree, `SubView`/`Sub` for a subtree.

The red-black tree also keeps a ghost black height per node. This carries the
red-black properties through the repairs as local, per-node facts
(`rbinvariant.dfy`). Each block of `delete_repair` is a function of the links
and colours it starts from (`rbsteps.dfy`). The repair method is proved to
produce exactly their composition, `DeleteRepairSteps`.

Where the code differs from what its documentation or the textbook algorithm
leads one to expect, the model follows the code:

- The binary search tree and the AVL tree have no deletion: `delete` is
  `unimplemented!()` (src/bstree.rs:125-127, src/avltree.rs:185-187 and
  231-233).
- AVL `insert` is plain leaf insertion. The new node's stored height is 0, and
  nothing is re-measured or rotated (src/avltree.rs:50-77, 214-219). The model
  proves that rotations and rebalancing keep the search order, and that
  `rebalance` restores balance (`AvlTree.RebalancedBalances`). It does not
  claim the tree stays balanced, because `insert` never rebalances.
- The AVL rotations swap the values of the two nodes involved. The node being
  rotated stays at the top of its subtree.
- With the needed child absent, a rotation returns `false` and changes
  nothing.
- `black_height` counts an absent child as 1 and a node itself when it is
  black.
- The red-black two-child deletion takes the in-order predecessor (`get_max`
  of the left subtree).

## Model

| member | source | states |
|---|---|---|
| Base.Height | src/base.rs:27-35 | The height is 0 exactly for the absent tree. |
| Base.HeightBounds | src/base.rs:27-35 | A tree of height h has between h and 2^h - 1 nodes. |
| Base.Len | src/base.rs:105-113 | The node count equals the length of the in-order sequence. |
| Base.CountLeaves | src/base.rs:39-52 | No leaves for the absent tree; otherwise at least one leaf and no more leaves than nodes. |
| Base.NodeMin | src/base.rs:69-74 | Following left children ends at the first value in in-order position. |
| Base.NodeMax | src/base.rs:78-83 | Following right children ends at the last value in in-order position. |
| Base.Min | src/base.rs:233-238 | `None` exactly for the empty tree. Otherwise a stored value, and on a search tree no larger than any stored value. |
| Base.Max | src/base.rs:257-262 | `None` exactly for the empty tree. Otherwise a stored value, and on a search tree no smaller than any stored value. |
| Base.Contains | src/base.rs:88-100 | A hit is always a stored value. On a search tree the descent finds v exactly when v is stored. |
| Base.IsEmpty | src/base.rs:209-214 | True exactly when the tree has no nodes. |
| Base.EmptyQueries | src/base.rs:143-303 | On the empty tree: height 0, length 0, no leaves, empty, no min, no max, contains nothing. |
| Base.ValuesInOrder | src/base.rs:57-65 | The in-order walk visits exactly the stored values. |
| Base.OrderedIffAscending | src/base.rs:186-194 | The search-tree invariant holds exactly when the in-order sequence is strictly ascending. |
| BsTree.LeafInsert | src/bstree.rs:44-57 | Leaf insertion stores exactly the old values plus v. |
| BsTree.LeafInsertOrdered | src/bstree.rs:44-57 | Leaf insertion keeps the search-tree invariant. |
| BsTree.LeafInsertHeight | src/bstree.rs:44-57 | Leaf insertion adds at most one level. |
| BsTree.LeafInsertLen | src/bstree.rs:44-57 | A value already found leaves the tree unchanged; otherwise exactly one node is added. |
| BsTree.BinarySearchTree.constructor | src/bstree.rs:88-90 | `new` gives a valid, empty tree. |
| BsTree.BinarySearchTree.Insert | src/bstree.rs:103-113 | The tree stays a valid search tree, and its view becomes the leaf insertion of v. |
| BsTree.BinarySearchTree.InsertFrom | src/bstree.rs:44-57 | Node-level insert from a node on the search path of v: the whole tree becomes the leaf insertion of v, and the root stays. |
| BsTree.InOrderExample | src/base.rs:226-238 | Inserting 1, 0, 5, 3, 2 gives the in-order sequence 0 1 2 3 5, minimum 0 and maximum 5. |
| BsTree.SizeExamples | src/base.rs:286-303 | Inserting 1, 10, 13 gives length 3. One insertion gives height 1, one leaf, a non-empty tree that contains only that value. |
| BsTree.HeightAfterTwoInserts | src/base.rs:136-141 | Inserting 1 then 0 gives height 2, while the documentation comment says "still 1". |
| AvlTree.LeftRotation | src/avltree.rs:111-133 | The right child is promoted and both nodes get their real heights. The in-order sequence is unchanged. Without a right child nothing changes. |
| AvlTree.RightRotation | src/avltree.rs:136-158 | The mirror image of the left rotation, with the same guarantees. |
| AvlTree.RightUndoesLeft | src/avltree.rs:111-158 | On a node whose top stored heights are real, rotating right undoes rotating left. |
| AvlTree.LeftUndoesRight | src/avltree.rs:111-158 | Rotating left undoes rotating right. |
| AvlTree.Rebalanced | src/avltree.rs:161-182 | Needs only the factors the source computes to fit a signed byte: the node's, and the heavier child's at ±2. Reports a rotation exactly at balance factor 2 or -2. Otherwise the tree is unchanged. The in-order sequence is always kept. |
| AvlTree.RebalancedOrdered | src/avltree.rs:161-182 | Rebalancing keeps the search-tree invariant. |
| AvlTree.RebalancedBalances | src/avltree.rs:161-182 | A node with AVL-balanced subtrees and factor ±2 becomes AVL-balanced, one level lower or at the same height. |
| AvlTree.AVLTree.constructor | src/avltree.rs:200-202 | `new` gives a valid, empty tree. |
| AvlTree.AVLTree.Insert | src/avltree.rs:214-219 | The view becomes the leaf insertion of v with stored height 0, and the tree stays a valid search tree. |
| AvlTree.AVLTree.InsertFrom | src/avltree.rs:61-77 | Node-level insert: the whole view becomes the leaf insertion of v with stored height 0. |
| AvlTree.AVLTree.NodeHeight | src/base.rs:27-35 | The height computed over the links is the real height of the node's subtree. |
| AvlTree.AVLTree.LeftHeight | src/avltree.rs:80-82 | The real height of the left subtree, 0 when absent. |
| AvlTree.AVLTree.RightHeight | src/avltree.rs:85-87 | The real height of the right subtree, 0 when absent. |
| AvlTree.AVLTree.BalanceFactor | src/avltree.rs:95-108 | The left height minus the right height, inside the signed-byte range. |
| AvlTree.AVLTree.UpdateHeight | src/avltree.rs:90-92 | Only the stored height of x changes, to one more than its taller child's real height. The order and every other node are unchanged. |
| AvlTree.AVLTree.RotateLeft | src/avltree.rs:111-133 | Returns true exactly when a right child exists. The subtree becomes its value-level left rotation, and the rest of the tree is untouched. |
| AvlTree.AVLTree.RotateRight | src/avltree.rs:136-158 | The mirror image of `RotateLeft`. |
| AvlTree.AVLTree.Rebalance | src/avltree.rs:161-182 | Under the same byte-range condition as `Rebalanced`, the subtree and the flag are those of `Rebalanced`. The child's factor is read only at ±2. The rest of the tree is untouched and stays a valid search tree. |
| RbColor.BlackHeight | src/rbtree.rs:485-511 | Succeeds exactly when every path carries the same number of black nodes, and then returns that number. |
| RbColor.CheckColoring | src/rbtree.rs:451-481 | True exactly when no red node has a red child. |
| RbColor.CheckColorProperties | src/rbtree.rs:428-448 | True exactly when the top is black, no red node has a red child, and the black count is uniform. |
| RbColor.RotatedLeft | src/rbtree.rs:93-115 | On the value level, a left rotation keeps the in-order sequence. |
| RbColor.RotatedRight | src/rbtree.rs:67-89 | On the value level, a right rotation keeps the in-order sequence. |
| RbColor.RotationsUndo | src/rbtree.rs:67-115 | Each rotation undoes the other. |
| RbColor.RotationOrdered | src/rbtree.rs:93-115 | A rotation keeps the stored values, and it keeps the search-tree invariant in both directions. |
| RbTree.RotationViews | src/rbtree.rs:67-115 | The shapes the link rotations produce view as the value-level rotations of the old view, left and right. |
| RbLinks.RotateMirror | src/rbtree.rs:67-115 | The right rotation is the left rotation seen in a mirror. |
| RbLinks.RotateLeftEffect | src/rbtree.rs:93-115 | The left rotation link by link: the child takes x's slot under its parent, x hangs to its left, and the inner grandchild moves to x. |
| RbLinks.RotateRightEffect | src/rbtree.rs:67-89 | The right rotation link by link, the mirror image. |
| RbLinks.RotateLeftLinked | src/rbtree.rs:93-115 | The arena stays well linked. The new shape is the old one with the subtree at x rotated, the in-order node sequence is unchanged, and the child becomes the top if x was. |
| RbLinks.RotateRightLinked | src/rbtree.rs:67-89 | The same for the right rotation. |
| RbSteps.Family | src/rbtree.rs:546-589 | On a consistent arena, a node with a parent is exactly one of its children, and `sibling` is the other. Every node the helpers return is in the arena. |
| RbSteps.RedSiblingKeeps | src/rbtree.rs:303-314 | Block 1 keeps the deletion invariant and the parent of n, and leaves n a black sibling. When it fires, the parent becomes red. |
| RbSteps.BlackNephewsKeeps | src/rbtree.rs:316-349 | Block 2 moves the missing black node up to the parent. Block 3 repairs the tree. |
| RbSteps.NearRedLeftKeeps | src/rbtree.rs:351-366 | Block 4 keeps the invariant and leaves a left n with a red far nephew. |
| RbSteps.NearRedRightKeeps | src/rbtree.rs:368-384 | Block 5, the mirror image. |
| RbSteps.FarRedLeftKeeps | src/rbtree.rs:386-401 | Block 6 repairs the tree when n is on the left, and changes nothing otherwise. |
| RbSteps.FarRedRightKeeps | src/rbtree.rs:403-417 | Block 7 repairs the tree when n is on the right, and changes nothing otherwise. |
| RbInvariant.RotateLeftIs | src/rbtree.rs:93-115 | On a consistent, ranked arena, the left rotation relinks exactly x, its child, the inner grandchild and the parent. |
| RbInvariant.RotateRightIs | src/rbtree.rs:67-89 | The same for the right rotation. |
| RbInvariant.InsertAtTop | src/rbtree.rs:163-164 | A red top painted black leaves a red-black tree. |
| RbInvariant.InsertUnderBlack | src/rbtree.rs:165-168 | A red node below a black parent leaves a red-black tree. |
| RbInvariant.InsertRecolour | src/rbtree.rs:199-205 | Recolouring under a red uncle moves the red-red conflict to the grandparent, one black level higher. |
| RbInvariant.InsertInner | src/rbtree.rs:177-180 | The inner rotation makes the old parent the node to repair. |
| RbInvariant.InsertOuter | src/rbtree.rs:189-196 | The outer rotation and recolouring leave a red-black tree. |
| RbInvariant.InsertInnerMirror | src/rbtree.rs:173-176 | The mirror image of `InsertInner`. |
| RbInvariant.InsertOuterMirror | src/rbtree.rs:181-188 | The mirror image of `InsertOuter`. |
| RbInvariant.DeleteAtTop | src/rbtree.rs:302-417 | At the top there is nothing to repair. |
| RbEdit.AttachRed | src/rbtree.rs:128-147 | A new red leaf in an empty slot breaks only property 4, and only at the leaf. |
| RbEdit.ShortNode | src/rbtree.rs:226-277 | A red node with at most one child is a leaf. A black node with one child has a red leaf as that child. |
| RbEdit.RemoveRedLeaf | src/rbtree.rs:228-238 | Cutting a red leaf loose leaves a red-black tree. |
| RbEdit.SpliceChild | src/rbtree.rs:261-277 | A black node that takes over its red leaf child leaves a red-black tree without the child. |
| RbEdit.StartDelete | src/rbtree.rs:241-247 | A black leaf with a parent satisfies the invariant `delete_repair` starts from. |
| RbEdit.RemoveGone | src/rbtree.rs:248-255 | Once repaired, the black leaf can be cut loose, and a red-black tree remains. |
| RbEdit.ViewColors | src/rbtree.rs:428-511 | On a red-black arena, `black_height` and `check_coloring` succeed and `color` reads the top's colour. |
| RbEdit.InnerRotation | src/rbtree.rs:177-180 | After the inner rotation, the old parent is no longer an inner case. |
| RbEdit.OuterRotation | src/rbtree.rs:189-196 | The outer rotation keeps the node below its parent, and the recolouring completes the repair. |
| RbTree.RedBlackTree.constructor | src/rbtree.rs:723-725 | `new` gives a valid, empty tree. |
| RbTree.RedBlackTree.ColorProperties | src/rbtree.rs:428-448 | Every valid tree is a search tree, and the colour checkers accept it when it is not empty. |
| RbTree.RedBlackTree.RotateLeft | src/rbtree.rs:93-115 | The links become `RbLinks.RotateLeft` of the old ones, and the shape becomes the rotated graft. Nodes, in-order sequence, values and colours stay. |
| RbTree.RedBlackTree.RotateRight | src/rbtree.rs:67-89 | The same for the right rotation. |
| RbTree.RedBlackTree.InsertRepair | src/rbtree.rs:160-209 | From the insertion invariant, the result is a red-black tree with the same nodes and in-order sequence. The node that `insert` recovers is the new top. |
| RbTree.RedBlackTree.RepairOuterLeft | src/rbtree.rs:181-188 | The outer left-left case leaves a red-black tree whose recovered top is the true top. |
| RbTree.RedBlackTree.RepairOuterRight | src/rbtree.rs:189-196 | The outer right-right case, the mirror image. |
| RbTree.RedBlackTree.Recolour | src/rbtree.rs:199-205 | The red-uncle recolouring leaves the insertion invariant at the grandparent, which it returns. |
| RbTree.RedBlackTree.InsertFrom | src/rbtree.rs:119-157 | The in-order values become those of leaf insertion, and the tree stays red-black. The returned node (parent or self) is the new top. When the search from `node` finds v, no value, link or colour changes. |
| RbTree.RedBlackTree.InsertLeaf | src/rbtree.rs:128-133 | A new red leaf is hung below `node` and repaired. |
| RbTree.RedBlackTree.HangRedLeaf | src/rbtree.rs:129-131 | The new red leaf is linked into the empty slot, and the insertion invariant holds. |
| RbTree.RedBlackTree.Insert | src/rbtree.rs:758-774 | The tree stays valid. Its in-order values are those of leaf insertion, and its values are the old ones plus v. Inserting a value already present changes no value, link, colour or root. |
| RbTree.RedBlackTree.RedSiblingBlock | src/rbtree.rs:303-314 | Block 1 in place: the new links and colours are `RedSiblingStep` of the old ones, and the invariant is kept. |
| RbTree.RedBlackTree.NearRedLeftBlock | src/rbtree.rs:351-366 | Block 4 in place, equal to `NearRedLeftStep`. |
| RbTree.RedBlackTree.NearRedRightBlock | src/rbtree.rs:368-384 | Block 5 in place, equal to `NearRedRightStep`. |
| RbTree.RedBlackTree.FarRedLeftBlock | src/rbtree.rs:386-401 | Block 6 in place, equal to `FarRedLeftStep`. |
| RbTree.RedBlackTree.FarRedRightBlock | src/rbtree.rs:403-417 | Block 7 in place, equal to `FarRedRightStep`. |
| RbTree.RedBlackTree.DeleteRepair | src/rbtree.rs:302-417 | The links and colours become `DeleteRepairSteps` of the old ones. Nodes and in-order sequence stay, and the tree is red-black once `gone` is cut loose. |
| RbTree.RedBlackTree.PassUp | src/rbtree.rs:316-334 | Block 2 paints the sibling red and continues the repair at the parent. |
| RbTree.RedBlackTree.RedParentAbsorbs | src/rbtree.rs:336-349 | Block 3 paints the sibling red and the parent black, which completes the repair. |
| RbTree.RedBlackTree.NephewBlocks | src/rbtree.rs:351-417 | Blocks 4 to 7 in turn complete the repair. |
| RbTree.RedBlackTree.GetMax | src/rbtree.rs:537-544 | The last value of the subtree in in-order position. |
| RbTree.RedBlackTree.GetMaxLargest | src/rbtree.rs:537-544 | On a search tree, that value is the largest in the subtree. |
| RbTree.RedBlackTree.Search | src/rbtree.rs:516-535 | A node that is found lies in the subtree and holds v. |
| RbTree.RedBlackTree.SearchFinds | src/rbtree.rs:516-535 | On a search tree, `search` finds v exactly when the subtree holds it. |
| RbTree.RedBlackTree.InorderTraverse | src/rbtree.rs:632-642 | The container gets the subtree's values appended in order. |
| RbTree.RedBlackTree.CutRedLeaf | src/rbtree.rs:228-238 | The red leaf leaves the tree, which stays red-black, and its value leaves the in-order sequence. |
| RbTree.RedBlackTree.CutBlackLeaf | src/rbtree.rs:246-256 | The repair runs, then the black leaf is cut loose. The tree is red-black without the leaf's value. |
| RbTree.RedBlackTree.DetachLeaf | src/rbtree.rs:248-255 | The leaf is cut from its parent's slot and forgets its parent. |
| RbTree.RedBlackTree.SpliceChildUp | src/rbtree.rs:261-277 | The node takes its only child's value and links, the child leaves the tree, and the tree stays red-black. |
| RbTree.RedBlackTree.DeleteFrom | src/rbtree.rs:212-299 | v leaves the subtree and the tree stays red-black. The result is the node's parent if it has one, else the node; `NIL` once a lone black leaf is removed. When the subtree lacks v, no value, link or colour changes. |
| RbTree.RedBlackTree.DeleteHere | src/rbtree.rs:214-280 | The node's own value leaves its subtree. It reports a lone black root leaf, which the source answers with `None`. |
| RbTree.RedBlackTree.ReplaceByPredecessor | src/rbtree.rs:221-225 | With two children, the node's value leaves the subtree by way of its predecessor. |
| RbTree.RedBlackTree.TakePredecessor | src/rbtree.rs:222-223 | The node takes the largest value of its left subtree. |
| RbTree.RedBlackTree.PredecessorSwap | src/rbtree.rs:221-225 | Removing the predecessor from the left subtree, after the copy, removes the old value from the whole subtree. |
| RbTree.RedBlackTree.DescendFrom | src/rbtree.rs:281-291 | Deletion descends to the child the comparison names. The in-order sequence loses v from the subtree and the tree stays red-black. When the subtree lacks v, no value, link or colour changes. |
| RbTree.RedBlackTree.Delete | src/rbtree.rs:786-794 | Corrected root recovery: the tree stays valid, its in-order values are the old ones without v, it has one node fewer exactly when v was present, and it no longer contains v. Deleting an absent value changes no value, link, colour or root. |
| RbTree.RedBlackTree.Climb | src/rbtree.rs:293-298 | Following parent links from any node reaches the top of the tree. |
| RbTree.RedBlackTree.DeleteAsWritten | src/rbtree.rs:786-794 | As written: values and colours are right, but the root becomes the old root's parent (or the old root), not necessarily the top. |
| RbTree.AscendingInsert | src/rbtree.rs:758-774 | After insertion the in-order values ascend strictly and hold v in addition. |
| RbTree.RemovedTree | src/rbtree.rs:786-794 | After deletion the in-order values ascend strictly, v is gone, and the length drops by one exactly when v was present. |
| RbFinding.ExampleIsRedBlack | src/rbtree.rs:428-511 | The tree 10B(5B, 20R(15B(-, 17R), 25B)) satisfies the red-black properties. |
| RbFinding.ExampleRepair | src/rbtree.rs:302-417 | `delete_repair` at 5 in that tree runs block 1 and then block 6, and brings 15 above 10. |
| RbFinding.RootRecoveryOneLevel | src/rbtree.rs:293-298 | After deleting 5, node-level `delete` at 10 returns 15, which hangs below 20, the true top. |

## Left out

- Printing (`print_inorder`, src/base.rs:57-65 and 186-194) is modelled as the in-order sequence `Base.InOrder`; the console output is not modelled.
- Keys are `int`; the source is generic over any `Ord + Copy` type.
- Shared ownership (`Rc<RefCell<..>>`), weak parent links and aliasing are modelled as indices into one arena per tree. Deleted nodes stay in the arena, unreachable; nothing is freed.
- `Drop`, `clear`, `is_equal`, `preorder_traverse` and `postorder_traverse` of the red-black tree (src/rbtree.rs:598-617, 620-630, 644-672, 681-692, 796-798) are not part of this model. They are memory management, a structural comparison used by tests, and two traversals nothing in the core calls.
- Binary-search-tree and AVL `delete` are `unimplemented!()` in the source and have no model.
- AvlTree.AVLTree.BalanceFactor: requires that the factor fits in a signed byte (`Fits`); the source's `as i8` cast would wrap larger differences, which the model does not follow.
- AvlTree.AVLTree.Rebalance: requires (`FactorsFit`) that the factors it reads fit in a signed byte, the node's and, at ±2, the heavier child's, for the same reason; `AvlTree.Rebalanced` and `AvlTree.RebalancedOrdered` state the same condition.
- AvlTree.RebalancedBalances: stated for a node whose subtrees are already balanced; nothing in the source calls `rebalance`, so no whole-tree balance is claimed.
- RbSteps.BlackNephewsKeeps: block 3 with an absent sibling would panic on `unwrap` in the source; under the deletion invariant the sibling exists, and the step function paints nothing there.
- RbTree.RedBlackTree.DeleteRepair: the climb of block 2 is bounded by a fuel argument of `DeleteRepairSteps` (the depth of the node plus one, which always suffices); fuel exhaustion is not a source behaviour.
- The unit tests (src/rbtree.rs:810-1069) and the benchmarks are not modelled; the randomised test needs a random-number generator.

## Findings

| source | as written | input that shows it | evidently intended | confidence | as-written member | corrected member |
|---|---|---|---|---|---|---|
| src/rbtree.rs:293-298 | Node-level `delete` returns the parent of the node it started from (or the node itself), and `RedBlackTree::delete` (src/rbtree.rs:786-794) makes that the root. | The tree 10B(5B, 20R(15B(-, 17R), 25B)), which inserting 10, 5, 20, 15, 25, 17 builds; delete 5. `delete_repair` rotates at 10 twice and 20 becomes the top, but the root becomes 15: 20 and 25 are lost from the tree. | The root after deletion is the top of the tree, found by following parent links. | not executed | RbTree.RedBlackTree.DeleteAsWritten, RbFinding.RootRecoveryOneLevel | RbTree.RedBlackTree.Delete |
