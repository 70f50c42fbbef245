// CBSTree::InsertItem, CBSTree::DeleteItem and the copy constructor as the
// C++ writes them: each calls a recursive helper and drops the subtree
// pointer it returns. Child links below the root are rewritten in place by
// the helpers, so only a change of the root pointer itself is lost. The class
// in cbstree.dfy models the evidently intended behaviour, which stores the
// returned subtree as the new root.

module AsWritten {
  import opened TreeNodes
  import opened TreeOps

  /**
   * InsertItem as written: the tree after the call and the reported result.
   * An empty tree stays empty (the new node is never linked to the root), and
   * the result is "Insert returned a non-NULL pointer".
   */
  function InsertItemAsWritten(root: Tree, newItem: int): (res: (Tree, bool))
  {
    (if root == Leaf then Leaf else Insert(newItem, root), Insert(newItem, root) != Leaf)
  }

  /**
   * As written, InsertItem reports success for every call, so a duplicate
   * that leaves a BST unchanged is still reported as inserted.
   */
  lemma InsertItemAsWrittenAlwaysReportsTrue(root: Tree, newItem: int)
    ensures InsertItemAsWritten(root, newItem).1
    ensures IsBST(root) && newItem in Elements(root) ==> InsertItemAsWritten(root, newItem).0 == root
  {
    InsertKeepsOrder(newItem, root);
  }

  /** As written, inserting into an empty tree reports success but the tree stays empty. */
  lemma InsertItemAsWrittenLosesFirstItem(newItem: int)
    ensures InsertItemAsWritten(Leaf, newItem).1
    ensures newItem !in Elements(InsertItemAsWritten(Leaf, newItem).0)
  {
  }

  /**
   * DeleteItem as written: the tree after the call and the reported result.
   * When the root itself is removed because it has at most one child, the
   * subtree Delete returns is dropped and the class keeps its old root.
   */
  function DeleteItemAsWritten(root: Tree, target: int): (res: (Tree, bool))
  {
    var (newRoot, deleted) := Delete(target, root);
    if root.Node? && root.value == target && (root.left == Leaf || root.right == Leaf) then (root, deleted)
    else (newRoot, deleted)
  }

  /**
   * As written, deleting the value at a root with at most one child reports
   * success while the value is still in the tree.
   */
  lemma DeleteItemAsWrittenKeepsRoot(root: Tree)
    requires IsBST(root) && root.Node? && (root.left == Leaf || root.right == Leaf)
    ensures DeleteItemAsWritten(root, root.value).1
    ensures root.value in Elements(DeleteItemAsWritten(root, root.value).0)
  {
  }

  /**
   * Away from that case the dropped pointer loses nothing: Delete keeps the
   * root node of a non-empty tree (it recurses below it, or overwrites its
   * value with the successor's), so the as-written call still keeps
   * DeleteItem's documented promises on an ordered tree.
   */
  lemma DeleteItemAsWrittenElsewhere(root: Tree, target: int)
    requires !(root.Node? && root.value == target && (root.left == Leaf || root.right == Leaf))
    ensures root.Node? ==> Delete(target, root).0.Node?
    ensures IsBST(root) ==>
      (DeleteItemAsWritten(root, target).1 <==> target in Elements(root)) &&
      Elements(DeleteItemAsWritten(root, target).0) == Elements(root) - {target} &&
      IsBST(DeleteItemAsWritten(root, target).0)
  {
  }

  /**
   * The copy constructor as written: `m_root` is never initialised, and the
   * pointer CopyTree returns is dropped. CopyTree's only effect on the new
   * object is an InsertItem of the source root's value, with its own dropped
   * result. `uninitialised` stands for whatever `m_root` happens to hold; the
   * model covers a source with a root, since CopyTree dereferences a NULL source.
   */
  function CopyAsWritten(uninitialised: Tree, other: Tree): (root: Tree)
    requires other.Node?
  {
    InsertItemAsWritten(uninitialised, other.value).0
  }

  /**
   * As written, even when the uninitialised root happens to be empty, the copy
   * holds none of the source's values: it is not a copy of `other`.
   */
  lemma CopyAsWrittenCopiesNothing(other: Tree)
    requires other.Node?
    ensures CopyAsWritten(Leaf, other) == Leaf != other
    ensures Elements(CopyAsWritten(Leaf, other)) !! Elements(other)
  {
  }
}
