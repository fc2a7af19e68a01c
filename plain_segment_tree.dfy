/**
 * The earlier, non-lazy segment tree (generic_segment_tree.cpp): build,
 * point overwrite, and a const range query.  Its make_lazy only allocates a
 * pending array of `size` zeros that nothing ever reads.
 */
module PlainSegmentTree {
  import opened SegmentTreeMath
  import opened TreeLayout

  class SegmentTree {
    const op: (int, int) -> int
    const tree: array<int>
    var lazy: array<int>
    const size: int

    /** Leaves at slots size .. 2*size-1, every internal node the op of its two children. */
    ghost predicate Valid()
      reads this, tree
    {
      && Pow2(size) && tree.Length == 2 * size
      && IsMonoid(op)
      && Built(op, tree[..], size)
    }

    /** The padded array the tree stands for: the input, then identity padding. */
    ghost function Contents(): (s: seq<int>)
      reads this, tree
      requires Valid()
    {
      tree[size..]
    }

    constructor (vec: seq<int>, func: (int, int) -> int)
      requires |vec| >= 2 && IsMonoid(func)
      ensures Valid() && fresh(tree) && fresh(lazy) && lazy.Length == 0
      ensures op == func && size == NextPowerOfTwo(|vec|)
      ensures Contents() == vec + Zeros(size - |vec|)
      ensures tree[0] == 0
    {
      op := func;
      size := NextPowerOfTwo(|vec|);
      tree := new int[2 * NextPowerOfTwo(|vec|)](_ => 0);
      new;
      for k := 0 to |vec|
        invariant forall j :: 0 <= j < k ==> tree[size + j] == vec[j]
        invariant forall j :: 0 <= j < 2 * size && !(size <= j < size + k) ==> tree[j] == 0
      {
        tree[size + k] := vec[k];
      }
      assert tree[size..] == vec + Zeros(size - |vec|);
      var i := size - 1;
      while i >= 1
        invariant 0 <= i < size
        invariant tree[size..] == vec + Zeros(size - |vec|) && tree[0] == 0
        invariant forall k :: i < k < size ==> Combines(op, tree[..], k)
      {
        ghost var before := tree[..];
        tree[i] := op(tree[LeftChild(i)], tree[RightChild(i)]);
        assert tree[..] == before[i := tree[i]];
        CombinesAfterWrite(op, before, i, tree[i]);
        assert Combines(op, tree[..], i);
        forall k | i < k < size ensures Combines(op, tree[..], k) {
          assert Combines(op, before, k);
        }
        i := i - 1;
      }
      lazy := new int[0];
    }

    /** make_lazy: a pending array of `size` zeros, which no query reads. */
    method MakeLazy()
      requires Valid()
      modifies this
      ensures Valid() && Contents() == old(Contents())
      ensures fresh(lazy) && lazy.Length == size && AllZero(lazy[..])
    {
      lazy := new int[size](_ => 0);
    }

    /** Overwrites element index and recomputes exactly the ancestors of its leaf. */
    method Update(index: int, value: int)
      requires Valid() && 0 <= index < size
      modifies tree
      ensures Valid()
      ensures Contents() == old(Contents())[index := value]
      ensures forall j :: 0 <= j < tree.Length && !InSubtree(index + size, j) ==> tree[j] == old(tree[j])
    {
      var leaf := index + size;
      ghost var start := tree[..];
      tree[leaf] := value;
      assert tree[..] == start[leaf := value];
      CombinesAfterWrite(op, start, leaf, value);
      var i := leaf / 2;
      forall k | 1 <= k < size && k != i ensures Combines(op, tree[..], k) {
        assert Combines(op, start, k);
      }
      while i >= 1
        invariant 0 <= i < size
        invariant i == 0 || InSubtree(leaf, i)
        invariant forall k :: 1 <= k < size && k != i ==> Combines(op, tree[..], k)
        invariant tree[size..] == old(tree[size..])[index := value]
        invariant forall j :: 0 <= j < tree.Length && !InSubtree(leaf, j) ==> tree[j] == old(tree[j])
      {
        ghost var before := tree[..];
        tree[i] := op(tree[LeftChild(i)], tree[RightChild(i)]);
        assert tree[..] == before[i := tree[i]];
        CombinesAfterWrite(op, before, i, tree[i]);
        assert Combines(op, tree[..], i);
        forall k | 1 <= k < size && k != i && k != i / 2 ensures Combines(op, tree[..], k) {
          assert Combines(op, before, k);
        }
        if i >= 2 {
          ChildSubtreeInParent(leaf, i / 2);
        }
        i := i / 2;
      }
    }

    /** query_range: the fold of the elements at positions max(left, 0) .. min(right, size - 1). */
    function QueryRange(left: int, right: int): (r: int)
      reads this, tree
      requires Valid()
      ensures r == FoldWindow(op, Contents(), left, right)
    {
      RootSpan(size);
      assert tree[..][size + 0 .. size + (size - 1) + 1] == Contents();
      RecursiveQueryRange(op, tree[..], size, 1, 0, size - 1, left, right)
    }
  }

  /**
   * recursive_query_range, which is const: node `node` covers low..high, and
   * the result is the fold of the covered elements that also lie in
   * left..right.
   */
  function RecursiveQueryRange(op: (int, int) -> int, tree: seq<int>, size: int,
                               node: int, low: int, high: int, left: int, right: int): (r: int)
    requires |tree| == 2 * size && Built(op, tree, size) && IsMonoid(op)
    requires Span(size, node, low, high)
    ensures r == FoldWindow(op, tree[size + low .. size + high + 1], left - low, right - low)
    decreases high - low
  {
    SpanFacts(size, node, low, high);
    if low >= left && high <= right then
      QueryCovered(op, tree, size, node, low, high, left, right);
      tree[node]
    else if high < left || low > right then
      QueryDisjoint(op, tree, size, low, high, left, right);
      0
    else
      SpanChildren(size, node, low, high);
      var middle := (low + high) / 2;
      var x := RecursiveQueryRange(op, tree, size, LeftChild(node), low, middle, left, right);
      var y := RecursiveQueryRange(op, tree, size, RightChild(node), middle + 1, high, left, right);
      QueryJoin(op, tree, size, low, middle, high, left, right, x, y);
      op(x, y)
  }

  /** A node whose interval lies inside left..right answers with its stored value. */
  lemma QueryCovered(op: (int, int) -> int, tree: seq<int>, size: int, node: int, low: int, high: int,
                     left: int, right: int)
    requires |tree| == 2 * size && Built(op, tree, size) && IsMonoid(op)
    requires Span(size, node, low, high) && left <= low && high <= right
    ensures 1 <= node < |tree| && 0 <= low <= high < size
    ensures tree[node] == FoldWindow(op, tree[size + low .. size + high + 1], left - low, right - low)
  {
    SpanFacts(size, node, low, high);
    NodeIsFold(op, tree, size, node, low, high);
    FoldWindowWhole(op, tree[size + low .. size + high + 1], left - low, right - low);
  }

  /** A node whose interval misses left..right answers with the identity. */
  lemma QueryDisjoint(op: (int, int) -> int, tree: seq<int>, size: int, low: int, high: int, left: int, right: int)
    requires |tree| == 2 * size && 0 <= low <= high < size && (high < left || low > right)
    ensures 0 == FoldWindow(op, tree[size + low .. size + high + 1], left - low, right - low)
  {
    FoldWindowOutside(op, tree[size + low .. size + high + 1], left - low, right - low);
  }

  /** The answers for the two halves of low..high combine into the answer for low..high. */
  lemma QueryJoin(op: (int, int) -> int, tree: seq<int>, size: int, low: int, middle: int, high: int,
                  left: int, right: int, x: int, y: int)
    requires IsMonoid(op) && |tree| == 2 * size && 0 <= low <= middle < high < size
    requires x == FoldWindow(op, tree[size + low .. size + middle + 1], left - low, right - low)
    requires y == FoldWindow(op, tree[size + middle + 1 .. size + high + 1], left - (middle + 1), right - (middle + 1))
    ensures op(x, y) == FoldWindow(op, tree[size + low .. size + high + 1], left - low, right - low)
  {
    FoldWindowSlices(op, tree, size + low, size + middle + 1, size + high + 1, left - low, right - low,
                     left - (middle + 1), right - (middle + 1), x, y);
  }
}
