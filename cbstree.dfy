// The CBSTree class: a binary search tree of unique values owned through its
// root link. Node storage is the value `root`; every public operation that
// changes the tree assigns the subtree its recursive helper returns.

module BinarySearchTree {
  import opened TreeNodes
  import opened TreeOps
  import opened Rebalance

  class CBSTree {
    var root: Tree

    /** Class invariant: the nodes are ordered (and so hold unique values). */
    ghost predicate Valid()
      reads this
    {
      IsBST(root)
    }

    /** The set of values the tree holds. */
    ghost function Contents(): set<int>
      reads this
    {
      Elements(root)
    }

    /** Default constructor: an empty tree. */
    constructor ()
      ensures Valid() && root == Leaf && Contents() == {}
    {
      root := Leaf;
    }

    /** Copy constructor: a pre-order clone of `other`, same shape and values. */
    constructor Copy(other: CBSTree)
      requires other.Valid()
      ensures Valid()
      ensures root == other.root && Contents() == other.Contents()
    {
      root := CopyTree(other.root);
    }

    /**
     * operator=: a no-op on self; otherwise release all nodes and clone `rhs`.
     * `released` lists the values of the released nodes in release order.
     */
    method Assign(rhs: CBSTree) returns (released: seq<int>)
      requires Valid() && rhs.Valid()
      modifies this
      ensures Valid()
      ensures root == old(rhs.root)
      ensures rhs == this ==> root == old(root) && released == []
      ensures rhs != this ==> unchanged(rhs) && released == old(PostOrder(root))
    {
      released := [];
      if rhs != this {
        released := DestroyTree();
        root := CopyTree(rhs.root);
      }
    }

    /**
     * Remove `target`. Returns true exactly when it was in the tree; every other
     * value stays and the ordering is kept.
     */
    method DeleteItem(target: int) returns (deleted: bool)
      requires Valid()
      modifies this
      ensures Valid()
      ensures deleted <==> target in old(Contents())
      ensures Contents() == old(Contents()) - {target}
      ensures Size(root) == if deleted then old(Size(root)) - 1 else old(Size(root))
      ensures !deleted ==> root == old(root)
    {
      var res := Delete(target, root);
      root, deleted := res.0, res.1;
    }

    /**
     * Release every node, children before parent, and leave the tree empty.
     * `released` lists the values in the order their nodes are released.
     */
    method DestroyTree() returns (released: seq<int>)
      modifies this
      ensures Valid() && root == Leaf && Contents() == {}
      ensures released == old(PostOrder(root))
    {
      released := DestroyNodes(root);
      root := Leaf;
    }

    /** Node count and height in edges (-1 for an empty tree). */
    method GetTreeInfo() returns (numNodes: int, height: int)
      requires Valid()
      ensures numNodes == Size(root) == |Contents()|
      ensures height == Height(root)
      ensures numNodes == 0 <==> height == -1
    {
      BSTValuesUnique(root);
      HeightOfEmpty(root);
      height, numNodes := CountNodes(root, -1, 0);
    }

    /** The values the visitor is called with by an in-order walk: ascending, one per node. */
    method InOrderTraverse() returns (visited: seq<int>)
      requires Valid()
      ensures visited == InOrder(root)
      ensures StrictlyIncreasing(visited)
      ensures multiset(visited) == Values(root)
    {
      BSTIffInOrderIncreasing(root);
      InOrderVisitsEachNodeOnce(root);
      visited := InOrder(root);
    }

    /**
     * Insert `newItem`. Returns true when it was absent and now sits in a new
     * leaf; false, with the tree unchanged, when it was already present.
     */
    method InsertItem(newItem: int) returns (inserted: bool)
      requires Valid()
      modifies this
      ensures Valid()
      ensures inserted <==> newItem !in old(Contents())
      ensures Contents() == old(Contents()) + {newItem}
      ensures inserted ==> GrowsByLeaf(old(root), root, newItem) && Size(root) == old(Size(root)) + 1
      ensures !inserted ==> root == old(root)
    {
      InsertKeepsOrder(newItem, root);
      var newRoot := Insert(newItem, root);
      inserted := newRoot != root;
      root := newRoot;
    }

    /** True exactly when the root link is empty, that is when the tree holds no values. */
    method IsTreeEmpty() returns (empty: bool)
      ensures empty <==> root == Leaf
      ensures empty <==> Contents() == {}
    {
      empty := root == Leaf;
      assert root.Node? ==> root.value in Contents();
    }

    /** True exactly when `target` is in the tree. */
    method ItemInTree(target: int) returns (found: bool)
      requires Valid()
      ensures found <==> target in Contents()
    {
      found := Retrieve(target, root).Node?;
    }

    /** The values the visitor is called with by a post-order walk: children before parent. */
    method PostOrderTraverse() returns (visited: seq<int>)
      requires Valid()
      ensures visited == PostOrder(root)
      ensures multiset(visited) == Values(root)
    {
      PostOrderVisitsEachNodeOnce(root);
      visited := PostOrder(root);
    }

    /** The values the visitor is called with by a pre-order walk: parent before children. */
    method PreOrderTraverse() returns (visited: seq<int>)
      requires Valid()
      ensures visited == PreOrder(root)
      ensures multiset(visited) == Values(root)
    {
      PreOrderVisitsEachNodeOnce(root);
      visited := PreOrder(root);
    }

    /**
     * Snapshot the values in order, release every node, and rebuild the tree
     * middle-first: same values, least possible height.
     */
    method RebalanceTree()
      requires Valid()
      modifies this
      ensures Valid()
      ensures InOrder(root) == old(InOrder(root))
      ensures Contents() == old(Contents())
      ensures Size(root) == old(Size(root))
      ensures Height(root) == MinHeight(Size(root))
      ensures root == BalancedTree(old(InOrder(root)), 0, |old(InOrder(root))| - 1)
    {
      ghost var original, sorted := root, InOrder(root);
      var numNodes, height := GetTreeInfo();
      var buffer := new int[numNodes];
      ghost var blank := buffer[..];
      assert blank[..0] == [] && blank[numNodes..] == [];
      var index := SaveToArray(root, buffer, 0);
      assert buffer[..] == [] + sorted + [];
      var released := DestroyTree();
      ghost var emptied := root;
      Repopulate(buffer, 0, numNodes - 1, sorted);
      RebuildKeepsValues(original, sorted, emptied, numNodes - 1, root);
    }

    /**
     * Insert the middle element of buffer[first..last] (inclusive bounds),
     * then the middles of the ranges before and after it, recursively.
     */
    method Repopulate(buffer: array<int>, first: int, last: int, ghost values: seq<int>)
      requires buffer[..] == values
      requires 0 <= first <= last + 1 <= buffer.Length
      modifies this
      ensures root == InsertAll(old(root), PreOrder(BalancedTree(values, first, last)))
      decreases last + 1 - first
    {
      if first <= last {
        ghost var start := root;
        var mid := (first + last) / 2;
        root := Insert(buffer[mid], root);
        Repopulate(buffer, first, mid - 1, values);
        ghost var afterLower := root;
        Repopulate(buffer, mid + 1, last, values);
        InsertAroundMiddle(values, first, last, start, afterLower, root);
      }
    }
  }
}
