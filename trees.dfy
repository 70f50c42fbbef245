// The node shape used by CBSTree (a CTreeNode<int> with m_value, m_left and
// m_right) and the specification functions the rest of the model is stated in.

module TreeNodes {

  /** A subtree: an absent link (NULL) or a node owning its two children. */
  datatype Tree = Leaf | Node(left: Tree, value: int, right: Tree)

  /** The set of values held in a subtree. */
  function Elements(t: Tree): (s: set<int>)
  {
    match t
    case Leaf => {}
    case Node(l, v, r) => Elements(l) + {v} + Elements(r)
  }

  /** The values held in a subtree, one occurrence per node. */
  function Values(t: Tree): (m: multiset<int>)
  {
    match t
    case Leaf => multiset{}
    case Node(l, v, r) => Values(l) + multiset{v} + Values(r)
  }

  /** Number of nodes. */
  function Size(t: Tree): (n: nat)
  {
    match t
    case Leaf => 0
    case Node(l, _, r) => Size(l) + 1 + Size(r)
  }

  /** Edge count of the longest root-to-leaf path; -1 for an empty subtree. */
  function Height(t: Tree): (h: int)
  {
    match t
    case Leaf => -1
    case Node(l, _, r) =>
      var hl, hr := Height(l), Height(r);
      1 + (if hl < hr then hr else hl)
  }

  /** Heights start at -1, which only the empty tree has. */
  lemma {:induction false} HeightOfEmpty(t: Tree)
    ensures Height(t) >= -1
    ensures Height(t) == -1 <==> t == Leaf
  {
    match t
    case Leaf =>
    case Node(l, _, r) =>
      HeightOfEmpty(l);
      HeightOfEmpty(r);
  }

  /** Binary-search-tree ordering: left values are smaller, right values larger. */
  ghost predicate IsBST(t: Tree)
  {
    match t
    case Leaf => true
    case Node(l, v, r) =>
      IsBST(l) && IsBST(r) &&
      (forall x :: x in Elements(l) ==> x < v) &&
      (forall x :: x in Elements(r) ==> v < x)
  }

  /** `s` is `t` itself or a subtree of one of its children. */
  ghost predicate SubtreeOf(s: Tree, t: Tree)
  {
    s == t || (t.Node? && (SubtreeOf(s, t.left) || SubtreeOf(s, t.right)))
  }

  ghost predicate StrictlyIncreasing(s: seq<int>)
  {
    forall i, j :: 0 <= i < j < |s| ==> s[i] < s[j]
  }

  /** Values in visit order of a pre-order walk (node, left, right). */
  function PreOrder(t: Tree): (s: seq<int>)
  {
    match t
    case Leaf => []
    case Node(l, v, r) => [v] + PreOrder(l) + PreOrder(r)
  }

  /** Values in visit order of an in-order walk (left, node, right). */
  function InOrder(t: Tree): (s: seq<int>)
  {
    match t
    case Leaf => []
    case Node(l, v, r) => InOrder(l) + [v] + InOrder(r)
  }

  /** Values in visit order of a post-order walk (left, right, node). */
  function PostOrder(t: Tree): (s: seq<int>)
  {
    match t
    case Leaf => []
    case Node(l, v, r) => PostOrder(l) + PostOrder(r) + [v]
  }

  /** Each walk has exactly one entry per node. */
  lemma {:induction false} WalkLengths(t: Tree)
    ensures |PreOrder(t)| == |InOrder(t)| == |PostOrder(t)| == Size(t)
  {
    match t
    case Leaf =>
    case Node(l, _, r) =>
      WalkLengths(l);
      WalkLengths(r);
  }

  /** Each walk visits exactly the values held in the tree. */
  lemma {:induction false} WalkMembers(t: Tree)
    ensures forall x :: x in PreOrder(t) <==> x in Elements(t)
    ensures forall x :: x in InOrder(t) <==> x in Elements(t)
    ensures forall x :: x in PostOrder(t) <==> x in Elements(t)
  {
    match t
    case Leaf =>
    case Node(l, _, r) =>
      WalkMembers(l);
      WalkMembers(r);
  }

  /**
   * Each walk visits every node exactly once: the values it reports, with
   * multiplicity, are the tree's.
   */
  lemma {:induction false} PreOrderVisitsEachNodeOnce(t: Tree)
    ensures multiset(PreOrder(t)) == Values(t)
  {
    match t
    case Leaf =>
    case Node(l, v, r) =>
      PreOrderVisitsEachNodeOnce(l);
      PreOrderVisitsEachNodeOnce(r);
  }

  lemma {:induction false} InOrderVisitsEachNodeOnce(t: Tree)
    ensures multiset(InOrder(t)) == Values(t)
  {
    match t
    case Leaf =>
    case Node(l, v, r) =>
      InOrderVisitsEachNodeOnce(l);
      InOrderVisitsEachNodeOnce(r);
  }

  lemma {:induction false} PostOrderVisitsEachNodeOnce(t: Tree)
    ensures multiset(PostOrder(t)) == Values(t)
  {
    match t
    case Leaf =>
    case Node(l, v, r) =>
      PostOrderVisitsEachNodeOnce(l);
      PostOrderVisitsEachNodeOnce(r);
  }

  /** Trees with the same in-order walk hold the same values in the same number of nodes. */
  lemma SameWalkSameValues(a: Tree, b: Tree)
    requires InOrder(a) == InOrder(b)
    ensures Elements(a) == Elements(b) && Size(a) == Size(b)
  {
    WalkLengths(a);
    WalkLengths(b);
    WalkMembers(a);
    WalkMembers(b);
    forall x ensures x in Elements(a) <==> x in Elements(b) {
      assert x in InOrder(a) <==> x in InOrder(b);
    }
  }

  /** A tree is a BST exactly when its in-order walk is strictly increasing. */
  lemma {:induction false} BSTIffInOrderIncreasing(t: Tree)
    ensures IsBST(t) <==> StrictlyIncreasing(InOrder(t))
  {
    match t
    case Leaf =>
    case Node(l, v, r) =>
      BSTIffInOrderIncreasing(l);
      BSTIffInOrderIncreasing(r);
      WalkMembers(l);
      WalkMembers(r);
      if IsBST(t) {
        IncreasingJoin(InOrder(l), v, InOrder(r));
      }
      if StrictlyIncreasing(InOrder(t)) {
        IncreasingSplit(InOrder(l), v, InOrder(r));
      }
  }

  /** Two increasing runs separated by a pivot form one increasing run. */
  lemma IncreasingJoin(a: seq<int>, v: int, b: seq<int>)
    requires StrictlyIncreasing(a) && StrictlyIncreasing(b)
    requires forall x :: x in a ==> x < v
    requires forall x :: x in b ==> v < x
    ensures StrictlyIncreasing(a + [v] + b)
  {
    var s := a + [v] + b;
    forall i, j | 0 <= i < j < |s| ensures s[i] < s[j] {
      if j < |a| {
        assert s[i] == a[i] && s[j] == a[j];
      } else if j == |a| {
        assert s[i] == a[i] && a[i] in a;
      } else if i < |a| {
        assert s[i] == a[i] && a[i] in a;
        assert s[j] == b[j - |a| - 1] && b[j - |a| - 1] in b;
      } else if i == |a| {
        assert s[j] == b[j - |a| - 1] && b[j - |a| - 1] in b;
      } else {
        assert s[i] == b[i - |a| - 1] && s[j] == b[j - |a| - 1];
      }
    }
  }

  /** An increasing run split at a pivot gives increasing runs on either side of it. */
  lemma IncreasingSplit(a: seq<int>, v: int, b: seq<int>)
    requires StrictlyIncreasing(a + [v] + b)
    ensures StrictlyIncreasing(a) && StrictlyIncreasing(b)
    ensures forall x :: x in a ==> x < v
    ensures forall x :: x in b ==> v < x
  {
    var s := a + [v] + b;
    assert s[|a|] == v;
    forall i, j | 0 <= i < j < |a| ensures a[i] < a[j] {
      assert s[i] == a[i] && s[j] == a[j];
    }
    forall i, j | 0 <= i < j < |b| ensures b[i] < b[j] {
      assert s[|a| + 1 + i] == b[i] && s[|a| + 1 + j] == b[j];
    }
    forall x | x in a ensures x < v {
      var i :| 0 <= i < |a| && a[i] == x;
      assert s[i] == x;
    }
    forall x | x in b ensures v < x {
      var j :| 0 <= j < |b| && b[j] == x;
      assert s[|a| + 1 + j] == x;
    }
  }

  /** In a BST no value occurs twice: the node count equals the number of distinct values. */
  lemma {:induction false} BSTValuesUnique(t: Tree)
    requires IsBST(t)
    ensures |Elements(t)| == Size(t)
  {
    match t
    case Leaf =>
    case Node(l, v, r) =>
      BSTValuesUnique(l);
      BSTValuesUnique(r);
      forall x | x in Elements(l) ensures x !in Elements(r) {
        assert x < v;
      }
      assert Elements(l) !! Elements(r);
      assert v !in Elements(l) + Elements(r);
      assert |Elements(l) + Elements(r)| == |Elements(l)| + |Elements(r)|;
      assert Elements(t) == (Elements(l) + Elements(r)) + {v};
  }

  /** The left child of a subtree of `t` is itself a subtree of `t`. */
  lemma {:induction false} SubtreeOfLeftChild(s: Tree, t: Tree)
    requires s.Node? && SubtreeOf(s, t)
    ensures SubtreeOf(s.left, t)
  {
    if s != t {
      if SubtreeOf(s, t.left) {
        SubtreeOfLeftChild(s, t.left);
      } else {
        SubtreeOfLeftChild(s, t.right);
      }
    }
  }
}
