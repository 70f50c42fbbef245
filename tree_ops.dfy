// The protected recursive helpers of CBSTree (cbstree.cpp). Each helper that
// the C++ writes as "take a subtree pointer, return the (possibly new) subtree
// pointer" is a function from the old subtree to the new one.

module TreeOps {
  import opened TreeNodes

  /** `r` is `t` with exactly one empty link replaced by a new leaf holding `v`. */
  ghost predicate GrowsByLeaf(t: Tree, r: Tree, v: int)
  {
    match t
    case Leaf => r == Node(Leaf, v, Leaf)
    case Node(l, x, rt) =>
      r.Node? && r.value == x &&
      ((r.right == rt && GrowsByLeaf(l, r.left, v)) ||
       (r.left == l && GrowsByLeaf(rt, r.right, v)))
  }

  /** CBSTree::Insert: descend by comparison; a new value becomes a leaf, a duplicate changes nothing. */
  function Insert(newItem: int, t: Tree): (r: Tree)
  {
    match t
    case Leaf => Node(Leaf, newItem, Leaf)
    case Node(l, v, rt) =>
      if newItem < v then Node(Insert(newItem, l), v, rt)
      else if newItem > v then Node(l, v, Insert(newItem, rt))
      else t
  }

  /**
   * Insert adds exactly `newItem` to the values and keeps a BST ordered: an
   * absent value hangs from one new leaf, a present one leaves the tree as it was.
   */
  lemma {:induction false} InsertKeepsOrder(newItem: int, t: Tree)
    ensures Insert(newItem, t).Node?
    ensures Elements(Insert(newItem, t)) == Elements(t) + {newItem}
    ensures IsBST(t) ==> IsBST(Insert(newItem, t))
    ensures IsBST(t) && newItem in Elements(t) ==> Insert(newItem, t) == t
    ensures IsBST(t) && newItem !in Elements(t) ==>
      GrowsByLeaf(t, Insert(newItem, t), newItem) && Size(Insert(newItem, t)) == Size(t) + 1
  {
    match t
    case Leaf =>
    case Node(l, v, rt) =>
      if newItem < v {
        InsertKeepsOrder(newItem, l);
      } else if newItem > v {
        InsertKeepsOrder(newItem, rt);
      }
  }

  /** Inserting the values of `xs` one after another, first to last. */
  function InsertAll(t: Tree, xs: seq<int>): (r: Tree)
    decreases |xs|
  {
    if xs == [] then t else InsertAll(Insert(xs[0], t), xs[1..])
  }

  /** Inserting a sequence adds exactly its values and keeps a BST ordered. */
  lemma {:induction false} InsertAllKeepsOrder(t: Tree, xs: seq<int>)
    ensures Elements(InsertAll(t, xs)) == Elements(t) + set x | x in xs
    ensures IsBST(t) ==> IsBST(InsertAll(t, xs))
    decreases |xs|
  {
    if xs != [] {
      InsertKeepsOrder(xs[0], t);
      InsertAllKeepsOrder(Insert(xs[0], t), xs[1..]);
      assert (set x | x in xs) == {xs[0]} + set x | x in xs[1..];
    }
  }

  /** Inserting `xs + ys` is inserting `xs`, then `ys`. */
  lemma {:induction false} InsertAllConcat(t: Tree, xs: seq<int>, ys: seq<int>)
    ensures InsertAll(t, xs + ys) == InsertAll(InsertAll(t, xs), ys)
    decreases |xs|
  {
    if xs != [] {
      assert xs + ys != [] && (xs + ys)[0] == xs[0];
      assert (xs + ys)[1..] == xs[1..] + ys;
      InsertAllConcat(Insert(xs[0], t), xs[1..], ys);
    } else {
      assert xs + ys == ys;
    }
  }

  /** Values all smaller than a node's value are inserted into its left subtree only. */
  lemma {:induction false} InsertAllBelow(l: Tree, v: int, r: Tree, xs: seq<int>)
    requires forall x :: x in xs ==> x < v
    ensures InsertAll(Node(l, v, r), xs) == Node(InsertAll(l, xs), v, r)
    decreases |xs|
  {
    if xs != [] {
      assert xs[0] in xs;
      assert forall x :: x in xs[1..] ==> x in xs;
      InsertAllBelow(Insert(xs[0], l), v, r, xs[1..]);
    }
  }

  /** Values all larger than a node's value are inserted into its right subtree only. */
  lemma {:induction false} InsertAllAbove(l: Tree, v: int, r: Tree, xs: seq<int>)
    requires forall x :: x in xs ==> v < x
    ensures InsertAll(Node(l, v, r), xs) == Node(l, v, InsertAll(r, xs))
    decreases |xs|
  {
    if xs != [] {
      assert xs[0] in xs;
      assert forall x :: x in xs[1..] ==> x in xs;
      InsertAllAbove(l, v, Insert(xs[0], r), xs[1..]);
    }
  }

  /** Inserting a BST's values in pre-order into an empty tree rebuilds that very tree. */
  lemma {:induction false} PreOrderInsertRebuilds(t: Tree)
    ensures IsBST(t) ==> InsertAll(Leaf, PreOrder(t)) == t
  {
    match t
    case Leaf =>
    case Node(l, v, r) =>
      if !IsBST(t) {
        return;
      }
      var pl, pr := PreOrder(l), PreOrder(r);
      WalkMembers(l);
      WalkMembers(r);
      assert PreOrder(t) == [v] + pl + pr;
      InsertAllConcat(Leaf, [v] + pl, pr);
      InsertAllConcat(Leaf, [v], pl);
      assert InsertAll(Leaf, [v]) == Node(Leaf, v, Leaf);
      InsertAllBelow(Leaf, v, Leaf, pl);
      PreOrderInsertRebuilds(l);
      InsertAllAbove(l, v, Leaf, pr);
      PreOrderInsertRebuilds(r);
  }

  /** CBSTree::CopyTree: a pre-order walk of the source that inserts each value into the copy. */
  function CopyTree(source: Tree): (copy: Tree)
    ensures Elements(copy) == Elements(source)
    ensures IsBST(source) ==> copy == source
  {
    PreOrderInsertRebuilds(source);
    InsertAllKeepsOrder(Leaf, PreOrder(source));
    var copy := InsertAll(Leaf, PreOrder(source));
    assert Elements(copy) == Elements(source) by {
      WalkMembers(source);
      assert Elements(copy) == (set x | x in PreOrder(source));
      forall x ensures x in Elements(copy) <==> x in Elements(source) {
        assert x in Elements(copy) <==> x in PreOrder(source);
      }
    }
    copy
  }

  /** CBSTree::Retrieve: the node holding `target`, or an empty subtree (NULL) when there is none. */
  function Retrieve(target: int, t: Tree): (found: Tree)
    ensures found.Node? ==> found.value == target && SubtreeOf(found, t)
    ensures Elements(found) <= Elements(t)
    ensures IsBST(t) ==> (found.Node? <==> target in Elements(t))
  {
    match t
    case Leaf => Leaf
    case Node(l, v, r) =>
      if target < v then Retrieve(target, l)
      else if target > v then Retrieve(target, r)
      else t
  }

  /** The value of the leftmost node, which is the smallest value of a BST. */
  function MinValue(t: Tree): (m: int)
    requires t.Node?
    ensures m in Elements(t)
    ensures IsBST(t) ==> forall x :: x in Elements(t) ==> m <= x
  {
    if t.left == Leaf then t.value else MinValue(t.left)
  }

  /** CBSTree::FindMinNode: follow left links from `t` down to the leftmost node. */
  method FindMinNode(t: Tree) returns (minNode: Tree)
    requires t.Node?
    ensures minNode.Node? && minNode.left == Leaf
    ensures SubtreeOf(minNode, t)
    ensures minNode.value == MinValue(t)
  {
    minNode := t;
    while minNode.left != Leaf
      invariant minNode.Node? && SubtreeOf(minNode, t)
      invariant MinValue(minNode) == MinValue(t)
      decreases minNode
    {
      SubtreeOfLeftChild(minNode, t);
      minNode := minNode.left;
    }
  }

  /**
   * CBSTree::Delete: remove `target` from the subtree. Returns the new subtree and
   * whether a node was removed. A node with at most one child is replaced by that
   * child; a node with two children takes the smallest value of its right subtree,
   * which is then deleted from the right subtree.
   */
  function Delete(target: int, t: Tree): (res: (Tree, bool))
    decreases t
    ensures res.1 ==> target in Elements(t)
    ensures !res.1 ==> res.0 == t
    ensures IsBST(t) ==> res.1 == (target in Elements(t))
    ensures IsBST(t) ==> IsBST(res.0) && Elements(res.0) == Elements(t) - {target}
    ensures IsBST(t) ==> Size(res.0) == if res.1 then Size(t) - 1 else Size(t)
  {
    match t
    case Leaf => (Leaf, false)
    case Node(l, v, r) =>
      if target < v then
        var (newLeft, deleted) := Delete(target, l);
        (Node(newLeft, v, r), deleted)
      else if target > v then
        var (newRight, deleted) := Delete(target, r);
        (Node(l, v, newRight), deleted)
      else if l.Node? && r.Node? then
        var successor := MinValue(r);
        var (newRight, _) := Delete(successor, r);
        (Node(l, successor, newRight), true)
      else if l == Leaf then (r, true)
      else (l, true)
  }

  /**
   * CBSTree::CountNodes: `currDepth` is the depth of the parent of `t` and
   * `numNodes` the count so far. Returns the depth of the deepest node below
   * the parent (the parent's own depth when `t` is empty) and the count
   * increased by the nodes of `t`.
   */
  method CountNodes(t: Tree, currDepth: int, numNodes: int) returns (deepest: int, newNumNodes: int)
    ensures newNumNodes == numNodes + Size(t)
    ensures deepest == currDepth + 1 + Height(t)
  {
    match t
    case Leaf =>
      deepest, newNumNodes := currDepth, numNodes;
    case Node(l, _, r) =>
      var leftDeepest, afterLeft := CountNodes(l, currDepth + 1, numNodes + 1);
      var rightDeepest, afterRight := CountNodes(r, currDepth + 1, afterLeft);
      deepest := if leftDeepest < rightDeepest then rightDeepest else leftDeepest;
      newNumNodes := afterRight;
  }

  /** CBSTree::DestroyNodes: release both subtrees, then the node; returns the values in release order. */
  method DestroyNodes(t: Tree) returns (released: seq<int>)
    ensures released == PostOrder(t)
  {
    match t
    case Leaf =>
      released := [];
    case Node(l, v, r) =>
      var releasedLeft := DestroyNodes(l);
      var releasedRight := DestroyNodes(r);
      released := releasedLeft + releasedRight + [v];
  }

  /**
   * CBSTree::SaveToArray: write the values of `t` in order into `buffer` from
   * position `index` on; returns the index just past the last value written.
   */
  method SaveToArray(t: Tree, buffer: array<int>, index: nat) returns (nextIndex: nat)
    requires index + Size(t) <= buffer.Length
    modifies buffer
    ensures nextIndex == index + Size(t)
    ensures buffer[..] == old(buffer[..index]) + InOrder(t) + old(buffer[nextIndex..])
  {
    match t
    case Leaf =>
      nextIndex := index;
    case Node(l, v, r) =>
      ghost var before := buffer[..];
      var i := SaveToArray(l, buffer, index);
      ghost var afterLeft := buffer[..];
      buffer[i] := v;
      ghost var afterValue := buffer[..];
      nextIndex := SaveToArray(r, buffer, i + 1);
      SaveAroundValue(t, before, afterLeft, afterValue, buffer[..], index, i, nextIndex);
  }

  /** Writing the left run, then the node's value after it, then the right run after that, writes the node's run. */
  lemma SaveAroundValue(t: Tree, before: seq<int>, afterLeft: seq<int>, afterValue: seq<int>, after: seq<int>,
                        index: nat, i: nat, next: nat)
    requires t.Node? && i == index + Size(t.left) && next == i + 1 + Size(t.right) <= |before| == |afterLeft|
    requires afterLeft == before[..index] + InOrder(t.left) + before[i..]
    requires afterValue == afterLeft[i := t.value]
    requires after == afterValue[..i + 1] + InOrder(t.right) + afterValue[next..]
    ensures after == before[..index] + InOrder(t) + before[next..]
  {
    WalkLengths(t.left);
    WalkLengths(t.right);
    SaveRuns(before, afterLeft, afterValue, after, index, InOrder(t.left), t.value, InOrder(t.right));
  }

  /** The same, for runs given as sequences. */
  lemma SaveRuns(before: seq<int>, afterLeft: seq<int>, afterValue: seq<int>, after: seq<int>,
                 index: nat, left: seq<int>, v: int, right: seq<int>)
    requires index + |left| + 1 + |right| <= |before|
    requires afterLeft == before[..index] + left + before[index + |left|..]
    requires index + |left| < |afterLeft| && afterValue == afterLeft[index + |left| := v]
    requires after == afterValue[..index + |left| + 1] + right + afterValue[index + |left| + 1 + |right|..]
    ensures after == before[..index] + (left + [v] + right) + before[index + |left| + 1 + |right|..]
  {
    var i, next := index + |left|, index + |left| + 1 + |right|;
    assert afterValue[..i + 1] == before[..index] + left + [v];
    assert afterValue[next..] == before[next..];
  }
}
