// The shape CBSTree::Repopulate builds from a sorted buffer, and why that
// shape has the least height any tree with the same number of nodes can have.

module Rebalance {
  import opened TreeNodes
  import opened TreeOps

  /**
   * The tree Repopulate builds from values[first..last] (inclusive bounds):
   * the element at (first+last)/2 at the root, the elements before it in the
   * left subtree and those after it in the right, each built the same way.
   */
  function BalancedTree(values: seq<int>, first: int, last: int): (b: Tree)
    requires 0 <= first <= last + 1 <= |values|
    decreases last + 1 - first
  {
    if first > last then Leaf
    else
      var mid := (first + last) / 2;
      Node(BalancedTree(values, first, mid - 1), values[mid], BalancedTree(values, mid + 1, last))
  }

  /** values[first..last] (inclusive bounds), element by element. */
  function Range(values: seq<int>, first: int, last: int): (r: seq<int>)
    requires 0 <= first <= last + 1 <= |values|
    decreases last + 1 - first
  {
    if first > last then [] else [values[first]] + Range(values, first + 1, last)
  }

  /** A range is the part before position `mid`, the element there, and the part after it. */
  lemma {:induction false} RangeAround(values: seq<int>, first: int, mid: int, last: int)
    requires 0 <= first <= mid <= last < |values|
    ensures Range(values, first, last) == Range(values, first, mid - 1) + [values[mid]] + Range(values, mid + 1, last)
    decreases mid - first
  {
    if first < mid {
      RangeAround(values, first + 1, mid, last);
      assert [values[first]] + (Range(values, first + 1, mid - 1) + [values[mid]] + Range(values, mid + 1, last))
          == ([values[first]] + Range(values, first + 1, mid - 1)) + [values[mid]] + Range(values, mid + 1, last);
    }
  }

  /** The range from `first` to the end is the suffix from `first`. */
  lemma {:induction false} RangeToEnd(values: seq<int>, first: int)
    requires 0 <= first <= |values|
    ensures Range(values, first, |values| - 1) == values[first..]
    decreases |values| - first
  {
    if first < |values| {
      RangeToEnd(values, first + 1);
      assert values[first..] == [values[first]] + values[first + 1..];
    }
  }

  /** The in-order walk of the balanced tree gives back the range it was built from. */
  lemma {:induction false} BalancedInOrder(values: seq<int>, first: int, last: int)
    requires 0 <= first <= last + 1 <= |values|
    ensures InOrder(BalancedTree(values, first, last)) == Range(values, first, last)
    decreases last + 1 - first
  {
    if first <= last {
      var mid := (first + last) / 2;
      BalancedInOrder(values, first, mid - 1);
      BalancedInOrder(values, mid + 1, last);
      RangeAround(values, first, mid, last);
    }
  }

  /**
   * Inserting the middle value, then the balanced order of the range before it,
   * then that of the range after it, inserts the balanced order of the whole range.
   */
  lemma InsertAroundMiddle(values: seq<int>, first: int, last: int, start: Tree, afterLower: Tree, afterUpper: Tree)
    requires 0 <= first <= last < |values|
    requires afterLower == InsertAll(Insert(values[(first + last) / 2], start), PreOrder(BalancedTree(values, first, (first + last) / 2 - 1)))
    requires afterUpper == InsertAll(afterLower, PreOrder(BalancedTree(values, (first + last) / 2 + 1, last)))
    ensures afterUpper == InsertAll(start, PreOrder(BalancedTree(values, first, last)))
  {
    var mid := (first + last) / 2;
    var lower, upper := PreOrder(BalancedTree(values, first, mid - 1)), PreOrder(BalancedTree(values, mid + 1, last));
    assert PreOrder(BalancedTree(values, first, last)) == [values[mid]] + lower + upper;
    InsertAllConcat(start, [values[mid]] + lower, upper);
    InsertAllConcat(start, [values[mid]], lower);
    assert InsertAll(start, [values[mid]]) == Insert(values[mid], start);
  }

  /** The least height of a tree with `n` nodes: floor(log2 n), and -1 for no nodes. */
  function MinHeight(n: nat): (h: int)
    ensures h >= -1
    ensures h == -1 <==> n == 0
  {
    if n == 0 then -1 else 1 + MinHeight(n / 2)
  }

  lemma {:induction false} MinHeightMonotone(a: nat, b: nat)
    ensures a <= b ==> MinHeight(a) <= MinHeight(b)
    decreases b
  {
    if 0 < a <= b {
      MinHeightMonotone(a / 2, b / 2);
    }
  }

  /** No tree is lower than the least height for its node count. */
  lemma {:induction false} NoTreeBelowMinHeight(t: Tree)
    ensures MinHeight(Size(t)) <= Height(t)
  {
    match t
    case Leaf =>
    case Node(l, _, r) =>
      NoTreeBelowMinHeight(l);
      NoTreeBelowMinHeight(r);
      var n := Size(t);
      if Size(l) <= Size(r) {
        MinHeightMonotone(n / 2, Size(r));
      } else {
        MinHeightMonotone(n / 2, Size(l));
      }
  }

  /** The balanced tree over a range has exactly the least height for the range's length. */
  lemma {:induction false} BalancedHeight(values: seq<int>, first: int, last: int)
    requires 0 <= first <= last + 1 <= |values|
    ensures Height(BalancedTree(values, first, last)) == MinHeight(last + 1 - first)
    decreases last + 1 - first
  {
    if first <= last {
      var mid := (first + last) / 2;
      BalancedHeight(values, first, mid - 1);
      BalancedHeight(values, mid + 1, last);
      NodeAtMinHeight(BalancedTree(values, first, last), BalancedTree(values, first, mid - 1),
        values[mid], BalancedTree(values, mid + 1, last), mid - first, last - mid);
    }
  }

  /** A node over subtrees at least height, the right one holding as many nodes as the left or one more, is at least height. */
  lemma NodeAtMinHeight(t: Tree, lower: Tree, v: int, upper: Tree, nl: nat, nr: nat)
    requires t == Node(lower, v, upper)
    requires nl <= nr <= nl + 1
    requires Height(lower) == MinHeight(nl) && Height(upper) == MinHeight(nr)
    ensures Height(t) == MinHeight(nl + nr + 1)
  {
    MinHeightMonotone(nl, nr);
    assert (nl + nr + 1) / 2 == nr;
  }

  lemma BalancedHeightAll(values: seq<int>)
    ensures Height(BalancedTree(values, 0, |values| - 1)) == MinHeight(|values|)
  {
    BalancedHeight(values, 0, |values| - 1);
  }

  /**
   * Inserting strictly increasing values middle-first into an empty tree gives
   * the balanced tree: a BST of least height whose in-order walk is `values`.
   */
  lemma RebuildSorted(values: seq<int>)
    requires StrictlyIncreasing(values)
    ensures InsertAll(Leaf, PreOrder(BalancedTree(values, 0, |values| - 1))) == BalancedTree(values, 0, |values| - 1)
    ensures IsBST(BalancedTree(values, 0, |values| - 1))
    ensures InOrder(BalancedTree(values, 0, |values| - 1)) == values
    ensures Height(BalancedTree(values, 0, |values| - 1)) == MinHeight(|values|)
  {
    var b := BalancedTree(values, 0, |values| - 1);
    BalancedInOrder(values, 0, |values| - 1);
    RangeToEnd(values, 0);
    BSTIffInOrderIncreasing(b);
    PreOrderInsertRebuilds(b);
    BalancedHeightAll(values);
  }

  /**
   * Rebuilding a BST middle-first from its in-order walk keeps its walk, its
   * values and its node count, and gives the least height for that count.
   */
  lemma RebuildKeepsValues(original: Tree, sorted: seq<int>, start: Tree, last: int, rebuilt: Tree)
    requires IsBST(original) && sorted == InOrder(original)
    requires start == Leaf && last == |sorted| - 1
    requires rebuilt == InsertAll(start, PreOrder(BalancedTree(sorted, 0, last)))
    ensures rebuilt == BalancedTree(sorted, 0, |sorted| - 1)
    ensures IsBST(rebuilt) && InOrder(rebuilt) == sorted
    ensures Elements(rebuilt) == Elements(original) && Size(rebuilt) == Size(original)
    ensures Height(rebuilt) == MinHeight(Size(rebuilt))
  {
    BSTIffInOrderIncreasing(original);
    RebuildSorted(sorted);
    SameWalkSameValues(rebuilt, original);
    WalkLengths(original);
  }
}
