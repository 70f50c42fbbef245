# CBSTree: a binary search tree of unique values, modelled in Dafny

`CBSTree<NodeType>` (cbstree.h, cbstree.cpp) is a binary search tree whose
nodes are owned through a single root link. Its public interface inserts,
finds and deletes values, reports the node count and the height, walks the
tree in pre-, in- and post-order calling a visitor on every value, copies and
assigns whole trees, releases every node, and rebalances the tree. To
rebalance, it saves the values in order into an array, releases all nodes,
and re-inserts the values middle-first.

The model instantiates `NodeType` with `int` and is split as follows:

- `trees.dfy` (module `TreeNodes`): the node shape as a value datatype
  `Tree = Leaf | Node(left, value, right)`, where `Leaf` is a NULL link. It
  also holds the specification functions: values, node count, height in edges
  (-1 for an empty tree), the BST ordering, and the three walks.
- `tree_ops.dfy` (module `TreeOps`): the protected recursive helpers.
  - The helpers that take a subtree pointer and return the possibly new
    subtree pointer are functions from the old subtree to the new one:
    `Insert`, `Delete`, `Retrieve` and `CopyTree`.
  - `FindMinNode` is a method with the source's loop.
  - `CountNodes` and `DestroyNodes` are recursive methods.
  - `SaveToArray` is a recursive method that writes into an `array<int>`.
- `rebalance.dfy` (module `Rebalance`): the tree `Repopulate` builds from a
  sorted buffer, the proof that it reproduces the buffer in order, and the
  proof that it has the least height any tree with that many nodes can have.
- `cbstree.dfy` (module `BinarySearchTree`): the class `CBSTree`.
  - It has one field, `root`, that its methods reassign.
  - `Valid()` is the class invariant: the tree is ordered.
- `as_written.dfy` (module `AsWritten`): `InsertItem`, `DeleteItem` and the
  copy constructor as the C++ writes them (see Findings).

Many bodies in cbstree.cpp are empty or unfinished: they are `???` or blank,
or they do not compile. Examples are `DestroyNodes` returning a value from a
`void` function, and the unbalanced braces in `Delete`. For every such
operation, the model follows the behaviour its header comment documents.
Two bodies compile and disagree with their comments: `InsertItem` and the
copy constructor. `DeleteItem` drops `Delete`'s result in the same way, but
it does not compile as written: cbstree.cpp:231 passes `&bItemDeleted`, a
pointer, where cbstree.cpp:159 declares a `bool&` parameter. The model
follows the comments for all three, and each dropped result is listed under
Findings.

## Model

| member | source | states |
|---|---|---|
| TreeNodes.HeightOfEmpty | cbstree.cpp:79-84 | height counts edges: it is at least -1, and -1 exactly for the empty tree |
| TreeNodes.PreOrder | cbstree.cpp:576-582 | the values a pre-order walk reports, node before left and right subtrees; its contract is carried by WalkLengths, WalkMembers and PreOrderVisitsEachNodeOnce |
| TreeNodes.InOrder | cbstree.cpp:353-359 | the values an in-order walk reports, left subtree, node, right subtree; its contract is carried by WalkLengths, WalkMembers, InOrderVisitsEachNodeOnce and BSTIffInOrderIncreasing |
| TreeNodes.PostOrder | cbstree.cpp:520-526 | the values a post-order walk reports, both subtrees before the node; its contract is carried by WalkLengths, WalkMembers and PostOrderVisitsEachNodeOnce |
| TreeNodes.WalkLengths | cbstree.cpp:335-336 | each of the pre-, in- and post-order walks calls the visitor once per node: its length is the node count |
| TreeNodes.WalkMembers | cbstree.cpp:502-503 | each walk visits exactly the values held in the tree |
| TreeNodes.PreOrderVisitsEachNodeOnce | cbstree.cpp:558-559 | the pre-order walk visits every node exactly once (same multiset of values as the tree) |
| TreeNodes.InOrderVisitsEachNodeOnce | cbstree.cpp:335-336 | the in-order walk visits every node exactly once |
| TreeNodes.PostOrderVisitsEachNodeOnce | cbstree.cpp:502-503 | the post-order walk visits every node exactly once |
| TreeNodes.BSTIffInOrderIncreasing | cbstree.cpp:722-723 | a tree is ordered if and only if its in-order walk is strictly ascending, which is why SaveToArray fills the array in sorted order |
| TreeNodes.BSTValuesUnique | cbstree.cpp:391-393 | an ordered tree holds no value twice: its node count is the number of distinct values |
| TreeNodes.SameWalkSameValues | cbstree.cpp:614-619 | two trees with the same in-order walk hold the same values in the same number of nodes |
| TreeOps.Insert | cbstree.cpp:414-437 | the recursive descent itself; its contract is carried by InsertKeepsOrder (next row) |
| TreeOps.InsertKeepsOrder | cbstree.cpp:389-437 | Insert adds exactly the new item and keeps the tree ordered; an absent item hangs from one new leaf and the count grows by one; a duplicate leaves the tree unchanged |
| TreeOps.InsertAllKeepsOrder | cbstree.cpp:40-43 | inserting a sequence of values one by one adds exactly those values and keeps the tree ordered |
| TreeOps.PreOrderInsertRebuilds | cbstree.cpp:40-43 | inserting an ordered tree's values in pre-order into an empty tree rebuilds exactly that tree |
| TreeOps.CopyTree | cbstree.cpp:38-73 | the copy holds the source's values, and for an ordered source it is the source's very shape |
| TreeOps.Retrieve | cbstree.cpp:672-716 | the result is a node holding the target inside the tree, or empty (NULL); its values are among the tree's; in an ordered tree it is a node exactly when the target is present |
| TreeOps.MinValue | cbstree.cpp:274-277 | the leftmost value is in the tree and, in an ordered tree, no larger than any value |
| TreeOps.FindMinNode | cbstree.cpp:274-299 | the loop stops at a node without a left child, inside the given subtree, holding its smallest value |
| TreeOps.Delete | cbstree.cpp:130-208 | the flag is set exactly when the target was present; in an ordered tree the result is ordered, lacks exactly the target, and has one node fewer; a missed target leaves the subtree unchanged |
| TreeOps.CountNodes | cbstree.cpp:77-126 | starting from the parent's depth and a running count, it returns the deepest depth reached (parent depth + 1 + height) and the count plus the subtree's nodes |
| TreeOps.DestroyNodes | cbstree.cpp:237-270 | nodes are released children first (post-order), each exactly once |
| TreeOps.SaveToArray | cbstree.cpp:720-755 | the subtree's in-order walk is written from `index` on, every other cell is untouched, and the returned index is just past the last written cell |
| TreeOps.SaveAroundValue | cbstree.cpp:736-741 | writing the left subtree, then the node's value at the updated index, then the right subtree, writes the node's in-order run in one piece |
| Rebalance.BalancedInOrder | cbstree.cpp:642-645 | the tree built middle-first from an array range walks in order back to that range |
| Rebalance.InsertAroundMiddle | cbstree.cpp:642-645 | inserting the middle element, then the left half middle-first, then the right half middle-first, is the middle-first insertion of the whole range |
| Rebalance.MinHeight | cbstree.cpp:614 | the least height for n nodes is -1 exactly for no nodes and never below -1 |
| Rebalance.NoTreeBelowMinHeight | cbstree.cpp:614 | no tree with n nodes is lower than MinHeight(n) (floor of log2 n) |
| Rebalance.BalancedHeight | cbstree.cpp:642-645 | the middle-first tree over a range of n elements has height exactly MinHeight(n): the optimal height |
| Rebalance.BalancedHeightAll | cbstree.cpp:642-645 | the same, for the whole array |
| Rebalance.RebuildSorted | cbstree.cpp:642-645 | inserting a strictly ascending array middle-first into an empty tree yields the balanced tree: ordered, walking in order back to the array, of optimal height |
| Rebalance.RebuildKeepsValues | cbstree.cpp:614-619 | rebuilding an ordered tree middle-first from its in-order walk gives the balanced tree over that walk, which keeps the walk, values and node count and has the optimal height for that count |
| BinarySearchTree.CBSTree.constructor | cbstree.h:20 | a new tree is empty |
| BinarySearchTree.CBSTree.Copy | cbstree.cpp:16-34 | the root is set to CopyTree's result: ordered, with the same values and shape as the other tree |
| BinarySearchTree.CBSTree.Assign | cbstree.cpp:759-786 | self-assignment changes nothing and releases nothing; otherwise the old nodes are released in post-order and the tree becomes a copy of the right-hand side, which is left untouched |
| BinarySearchTree.CBSTree.DeleteItem | cbstree.cpp:212-233 | returns true exactly when the target was present; the target is gone, every other value stays, the tree stays ordered, and the count drops by one only on success |
| BinarySearchTree.CBSTree.DestroyTree | cbstree.h:26 | every node is released in post-order and the root becomes empty |
| BinarySearchTree.CBSTree.GetTreeInfo | cbstree.cpp:303-329 | the count is the number of nodes (and of distinct values); the height is in edges; the count is 0 exactly when the height is -1 |
| BinarySearchTree.CBSTree.InOrderTraverse | cbstree.cpp:363-385 | the visitor sees every value once, in strictly ascending order |
| BinarySearchTree.CBSTree.InsertItem | cbstree.cpp:441-469 | returns true exactly when the item was absent; the values gain exactly the item, the tree stays ordered, a new item hangs from one new leaf, and a duplicate leaves the tree unchanged |
| BinarySearchTree.CBSTree.IsTreeEmpty | cbstree.h:30 | true exactly when the root link is empty, that is when the tree holds no values |
| BinarySearchTree.CBSTree.ItemInTree | cbstree.cpp:473-496 | true exactly when the target is in the tree |
| BinarySearchTree.CBSTree.PostOrderTraverse | cbstree.cpp:530-552 | the visitor sees every value once, children before parent |
| BinarySearchTree.CBSTree.PreOrderTraverse | cbstree.cpp:586-608 | the visitor sees every value once, parent before children |
| BinarySearchTree.CBSTree.RebalanceTree | cbstree.cpp:612-636 | after saving, releasing and repopulating, the tree is the middle-first tree over its old sorted values: ordered, with the same in-order walk, values and count, and of the optimal height for its count |
| BinarySearchTree.CBSTree.Repopulate | cbstree.cpp:640-668 | the tree becomes the old tree with the range's elements inserted middle-first (mid = (first + last) / 2), recursively left then right |
| AsWritten.InsertItemAsWrittenAlwaysReportsTrue | cbstree.cpp:457-469 | as written, InsertItem reports true on every call, even for a duplicate that leaves an ordered tree unchanged |
| AsWritten.InsertItemAsWrittenLosesFirstItem | cbstree.cpp:457-469 | as written, inserting into an empty tree reports true but the tree stays empty |
| AsWritten.DeleteItemAsWrittenKeepsRoot | cbstree.cpp:227-233 | as written, deleting the value of a root with at most one child reports true while the value stays in the tree |
| AsWritten.DeleteItemAsWrittenElsewhere | cbstree.cpp:227-233 | in every other case the dropped return value loses nothing: Delete keeps the root node of a non-empty tree, so on an ordered tree the as-written call reports true exactly when the target was present, removes exactly the target, and keeps the order |
| AsWritten.CopyAsWrittenCopiesNothing | cbstree.cpp:29-34 | as written, the copy constructor leaves its root uninitialised; even when that root happens to be empty, the new tree holds none of the source's values |

## Left out

- Node identity and pointers: nodes are values, so in-place rewriting of child links, aliasing between trees, and the difference between a copy and a shared tree are not modelled. `Copy` and `Assign` state equal values and shape, not distinct nodes.
- Memory management: `new`, `delete`, `free` and the array that `RebalanceTree` allocates and releases are not modelled. `DestroyNodes` and `DestroyTree` return the values in the order their nodes would be released.
- The destructor `~CBSTree` (cbstree.h:22) only calls `DestroyTree`, which is modelled. Destruction itself is not modelled.
- The visitor function pointer: each traversal returns the sequence of values the visitor would be called with, in call order.
- `NodeType` is `int`, compared with `<` and `>`. Generic element types are not modelled.
- The `int` counters in `CountNodes` and `GetTreeInfo` are unbounded: overflow for more than 2^31 - 1 nodes is not modelled.
- Bodies that do not compile or do not match their own header comments are modelled as the comments describe. These are `CopyTree`, where the C++ returns the source pointer and never visits the children; `CountNodes`, which resets the count on a NULL link; `Delete`; `DestroyNodes`; and `Insert`. At cbstree.cpp:427, `Insert` reads `nodePtr->left` where the member is `m_left`, and the model reads `m_left`. `Insert` also never updates `m_root`, although the comment at cbstree.cpp:396-397 says it does.
- The copy constructor (cbstree.cpp:30-34) never initialises `m_root` and discards `CopyTree`'s result (see Findings). The model stores the result in the root, as the comment at cbstree.cpp:18-20 says. The uninitialised root is modelled only as a parameter of the as-written member; the undefined behaviour of reading it is not modelled.
- BinarySearchTree.CBSTree.Repopulate: the array's contents are passed as a ghost parameter `values` equal to `buffer[..]`, so that the result can be stated as a function of them. The model does not require the array to be sorted; `RebalanceTree` supplies a sorted one.
- BinarySearchTree.CBSTree.RebalanceTree: the height that `GetTreeInfo` returns is not used, as in the documented algorithm.
- AsWritten.DeleteItemAsWrittenKeepsRoot: only the dropped root pointer is modelled as written. The flag is taken as documented, because the C++ recursive calls omit the flag argument and do not compile.
- main.cpp (the test driver) and ctreenode.h (the node template) are not part of this model.

## Findings

| source | as written | input that shows it | evidently intended | confidence | as-written member | corrected member |
|---|---|---|---|---|---|---|
| cbstree.cpp:460-467 | InsertItem returns whether `Insert` returned non-NULL, which is always the case | inserting 5 into the empty tree reports true and stores nothing; with the root stored (as intended), inserting 5 a second time would also report true | true only when the item was absent and has been added | not executed | AsWritten.InsertItemAsWrittenAlwaysReportsTrue | BinarySearchTree.CBSTree.InsertItem |
| cbstree.cpp:460 | `Insert`'s returned pointer is never stored in `m_root` | inserting 7 into an empty tree leaves the tree empty | the new node becomes the root (as the comment at cbstree.cpp:396-397 says) | not executed | AsWritten.InsertItemAsWrittenLosesFirstItem | BinarySearchTree.CBSTree.InsertItem |
| cbstree.cpp:231 | DeleteItem drops the subtree pointer `Delete` returns | deleting 5 from the one-node tree holding 5 reports true but the root still holds 5 (and points to a released node) | the returned subtree becomes the new root | not executed | AsWritten.DeleteItemAsWrittenKeepsRoot | BinarySearchTree.CBSTree.DeleteItem |
| cbstree.cpp:32 | the copy constructor calls `CopyTree` and drops its result, so `m_root` is never set | copying the one-node tree holding 5 into an object whose root happens to be NULL gives an empty tree | the root is set to `CopyTree`'s result (as the comment at cbstree.cpp:18-20 says) | not executed | AsWritten.CopyAsWrittenCopiesNothing | BinarySearchTree.CBSTree.Copy |
