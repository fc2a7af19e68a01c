/**
 * The current segment tree (generic_segment_tree.h): the non-lazy build and
 * point overwrite, plus an optional lazy mode in which a range of elements
 * can be increased by a value and queries push pending amounts down as they
 * descend.
 *
 * The lazy bookkeeping always works with +, whatever op is, so range updates
 * are stated for op == + (and, for any op, for the update by 0 over the
 * whole array that make_lazy issues).
 */
module LazySegmentTree {
  import opened SegmentTreeMath
  import opened TreeLayout
  import opened LazyPropagation
  import opened LazyOperations

  function Plus(a: int, b: int): int { a + b }

  /**
   * update(index, value) on a lazy tree with something pending above the
   * leaf: the ancestors are recomputed from their children's stored values,
   * which leaves the pending amounts in place on top of the new value.  The
   * state is the one the covered branch of update_range_lazy leaves at the
   * root when [0, 0, 0, 0] is raised by 5 everywhere: 20 at the root, 5
   * pending at both of its children.  Writing 1 at index 0 then yields 6
   * there instead of 1, and it also breaks the node invariant at the root:
   * the root stores 1 while its children stand for 21, so a query covering
   * the whole array answers 1 while the elements read one by one sum to 21.
   */
  lemma PointWriteKeepsPending()
    ensures var t, z := [0, 20, 0, 0, 0, 0, 0, 0], [0, 0, 5, 5, 0, 0, 0, 0];
      var w := PointWrite(Plus, t, 4, 0, 1);
      && Shape(t, z, 4) && SubtreeOk(Plus, t, z, 4, 1)
      && Elems(t, z, 4, 1) == [5, 5, 5, 5]
      && Shape(w, z, 4)
      && Elems(w, z, 4, 1) == [6, 5, 5, 5]
      && w[1] == 1 && Eff(w, z, 4, 2) + Eff(w, z, 4, 3) == 21
      && !Cond(Plus, w, z, 4, 1)
  {
    var t, z := [0, 20, 0, 0, 0, 0, 0, 0], [0, 0, 5, 5, 0, 0, 0, 0];
    assert Width(4, 2) == 2 && Width(4, 3) == 2;
    forall k | 1 <= k < 4 && InSubtree(k, 1) ensures Cond(Plus, t, z, 4, k) {
      assert k == 1 || k == 2 || k == 3;
    }
    var w := [0, 1, 1, 0, 1, 0, 0, 0];
    assert PointWrite(Plus, t, 4, 0, 1) == w;
    assert Elems(t, z, 4, 2) == [5, 5] && Elems(t, z, 4, 3) == [5, 5];
    assert Elems(w, z, 4, 2) == [6, 5] && Elems(w, z, 4, 3) == [5, 5];
  }

  class SegmentTree {
    const op: (int, int) -> int
    const tree: array<int>
    var lazy: array<int>
    const size: int

    /** Array sizes: 2*size tree slots, and either no lazy array or one slot per tree slot. */
    ghost predicate Shaped()
      reads this
    {
      && Pow2(size) && tree.Length == 2 * size
      && (lazy.Length == 0 || lazy.Length == 2 * size)
      && tree != lazy
    }

    /** The pending amounts: all zero while the tree is not lazy. */
    ghost function Pending(): (z: seq<int>)
      reads this, lazy
      requires Shaped()
      ensures |z| == 2 * size
    {
      if lazy.Length == 0 then Zeros(2 * size) else lazy[..]
    }

    /** The node invariant at every internal node; pending amounts only when op is +. */
    ghost predicate Valid()
      reads this, tree, lazy
    {
      && Shaped()
      && IsMonoid(op)
      && (IsAddition(op) || AllZero(Pending()))
      && SubtreeOk(op, tree[..], Pending(), size, 1)
    }

    /** The padded array the tree stands for, pending amounts included. */
    ghost function Contents(): (s: seq<int>)
      reads this, tree, lazy
      requires Valid()
      ensures |s| == size
    {
      RootSpan(size);
      ElemsLength(tree[..], Pending(), size, 1, 0, size - 1);
      Elems(tree[..], Pending(), size, 1)
    }

    constructor (vec: seq<int>, func: (int, int) -> int)
      requires |vec| >= 2 && IsMonoid(func)
      ensures Valid() && fresh(tree) && fresh(lazy) && lazy.Length == 0
      ensures op == func && size == NextPowerOfTwo(|vec|)
      ensures Contents() == vec + Zeros(size - |vec|)
      ensures Built(op, tree[..], size) && tree[size..] == vec + Zeros(size - |vec|) && tree[0] == 0
    {
      op := func;
      size := NextPowerOfTwo(|vec|);
      tree := new int[2 * NextPowerOfTwo(|vec|)](_ => 0);
      lazy := new int[0];
      new;
      for k := 0 to |vec|
        modifies tree
        invariant forall j :: 0 <= j < k ==> tree[size + j] == vec[j]
        invariant forall j :: 0 <= j < 2 * size && !(size <= j < size + k) ==> tree[j] == 0
      {
        tree[size + k] := vec[k];
      }
      assert tree[size..] == vec + Zeros(size - |vec|);
      BuildInternal();
      BuiltIsSubtreeOk(op, tree[..], Pending(), size);
      RootSpan(size);
      ElemsZeroLazy(tree[..], Pending(), size, 1, 0, size - 1);
    }

    /** The constructor's second loop: nodes size-1 down to 1 each become the op of their children. */
    method BuildInternal()
      requires tree.Length == 2 * size && size >= 1
      modifies tree
      ensures Built(op, tree[..], size)
      ensures tree[size..] == old(tree[size..]) && tree[0] == old(tree[0])
    {
      var i := size - 1;
      while i >= 1
        invariant 0 <= i < size
        invariant tree[size..] == old(tree[size..]) && tree[0] == old(tree[0])
        invariant forall k :: i < k < size ==> Combines(op, tree[..], k)
      {
        ghost var before := tree[..];
        RecomputeNode(i);
        CombinesAfterWrite(op, before, i, tree[i]);
        forall k | i < k < size ensures Combines(op, tree[..], k) {
          assert Combines(op, before, k);
        }
        i := i - 1;
      }
    }

    /**
     * make_lazy: plain construction, then a pending array of 2*size zeros,
     * then an update adding 0 to every element, which changes nothing.
     */
    static method MakeLazy(vec: seq<int>, func: (int, int) -> int) returns (t: SegmentTree)
      requires |vec| >= 2 && IsMonoid(func)
      ensures fresh(t) && fresh(t.tree) && fresh(t.lazy)
      ensures t.Valid() && t.op == func && t.size == NextPowerOfTwo(|vec|)
      ensures t.lazy.Length == 2 * t.size && AllZero(t.lazy[..])
      ensures t.Contents() == vec + Zeros(t.size - |vec|)
      ensures Built(func, t.tree[..], t.size) && t.tree[t.size..] == vec + Zeros(t.size - |vec|) && t.tree[0] == 0
    {
      t := new SegmentTree(vec, func);
      ghost var contents := t.Contents();
      t.lazy := new int[2 * t.size](_ => 0);
      assert t.lazy[..] == Zeros(2 * t.size);
      assert t.Contents() == contents;
      t.UpdateRange(0, t.size, 0);
    }

    /** update_range: every element at positions left..right is increased by val. */
    method UpdateRange(left: int, right: int, val: int)
      requires Valid() && lazy.Length == 2 * size
      requires IsAddition(op) || (val == 0 && left <= 0 && size - 1 <= right)
      modifies tree, lazy
      ensures Valid()
      ensures Contents() == AddOnRange(old(Contents()), left, right, val)
      ensures old(AllZero(lazy[..])) && val == 0 ==> tree[..] == old(tree[..]) && lazy[..] == old(lazy[..])
    {
      RootSpan(size);
      UpdateRangeLazy(1, 0, size - 1, left, right, val);
    }

    /**
     * query_point: the difference of two prefix queries, which is the
     * element at index when op is + (and 0 outside the array).
     */
    method QueryPoint(index: int) returns (r: int)
      requires Valid()
      modifies tree, lazy
      ensures Valid() && Contents() == old(Contents())
      ensures r == FoldWindow(op, old(Contents()), 0, index) - FoldWindow(op, old(Contents()), 0, index - 1)
      ensures IsAddition(op) ==> r == if 0 <= index < size then old(Contents())[index] else 0
    {
      var upTo := QueryRange(0, index);
      var before := QueryRange(0, index - 1);
      r := upTo - before;
      if IsAddition(op) {
        PrefixDifference(op, old(Contents()), index);
      }
    }

    /**
     * update: overwrites the leaf of index and recomputes its ancestors from
     * their children's stored values.  This is right only when nothing is
     * pending; PointWriteKeepsPending shows what goes wrong otherwise, and
     * SetElement is the corrected operation.
     */
    method Update(index: int, value: int)
      requires Shaped() && 0 <= index < size
      modifies tree
      ensures tree[..] == PointWrite(op, old(tree[..]), size, index, value)
      ensures old(Valid() && AllZero(Pending())) ==> Valid() && Contents() == old(Contents())[index := value]
    {
      ghost var start := tree[..];
      WriteLeaf(index, value);
      RecomputeAncestors((index + size) / 2);
      if old(Valid()) && AllZero(Pending()) {
        PointWriteClean(op, start, Pending(), size, index, value);
      }
    }

    /** The upward pass of update: nodes i, i/2, ..., 1 each become the op of their children. */
    method RecomputeAncestors(i: int)
      requires tree.Length == 2 * size && 0 <= i < size
      modifies tree
      ensures tree[..] == Recompute(op, old(tree[..]), i)
    {
      ghost var target := Recompute(op, tree[..], i);
      var j := i;
      while j >= 1
        invariant 0 <= j < size
        invariant Recompute(op, tree[..], j) == target
      {
        ghost var before := tree[..];
        RecomputeNode(j);
        RecomputeStep(op, before, j);
        j := j / 2;
      }
    }

    /** The first statement of update: the leaf of index takes value; nothing else changes. */
    method WriteLeaf(index: int, value: int)
      requires tree.Length == 2 * size && 0 <= index < size
      modifies tree
      ensures tree[..] == old(tree[..])[index + size := value]
    {
      tree[index + size] := value;
    }

    /** Node j becomes the op of its two children; nothing else changes. */
    method RecomputeNode(j: int)
      requires tree.Length == 2 * size && 1 <= j < size
      modifies tree
      ensures tree[..] == old(tree[..])[j := op(old(tree[2 * j]), old(tree[2 * j + 1]))]
    {
      tree[j] := op(tree[LeftChild(j)], tree[RightChild(j)]);
    }

    /**
     * The point overwrite the lazy tree needs: on a lazy tree, read the
     * element and add the difference to it as a one-element range update.
     */
    method SetElement(index: int, value: int)
      requires Valid() && 0 <= index < size && (lazy.Length == 0 || IsAddition(op))
      modifies tree, lazy
      ensures Valid() && Contents() == old(Contents())[index := value]
    {
      if lazy.Length == 0 {
        Update(index, value);
      } else {
        var current := QueryPoint(index);
        UpdateRange(index, index, value - current);
        AddOnRangePoint(old(Contents()), index, value - current);
      }
    }

    /** query_range: the fold of the elements at positions left..right (clamped to the array). */
    method QueryRange(left: int, right: int) returns (r: int)
      requires Valid()
      modifies tree, lazy
      ensures Valid() && Contents() == old(Contents())
      ensures r == FoldWindow(op, old(Contents()), left, right)
      ensures old(AllZero(Pending())) ==> tree[..] == old(tree[..]) && lazy[..] == old(lazy[..])
    {
      RootSpan(size);
      r := RecursiveQueryRange(1, 0, size - 1, left, right);
    }

    /**
     * The step both recursive operations take on entering a node: the
     * pending amount at node is moved into tree[node] (once per element
     * below it) and into the children's pending amounts.
     */
    method Propagate(node: int, low: int, high: int)
      requires Shaped() && lazy.Length == 2 * size && Node(size, node, low, high)
      modifies tree, lazy
      ensures (tree[..], lazy[..]) == PushPending(old(tree[..]), old(lazy[..]), node, low, high)
    {
      if lazy[node] != 0 {
        tree[node] := tree[node] + (high - low + 1) * lazy[node];
        if low != high {
          lazy[LeftChild(node)] := lazy[LeftChild(node)] + lazy[node];
          lazy[RightChild(node)] := lazy[RightChild(node)] + lazy[node];
        }
        lazy[node] := 0;
      }
    }

    /**
     * update_range_lazy: node covers start..end.  On return nothing is
     * pending at node, the invariant holds below it, and the elements below
     * it that lie in left..right have grown by val.
     */
    method UpdateRangeLazy(node: int, start: int, end: int, left: int, right: int, val: int)
      requires Shaped() && lazy.Length == 2 * size && Span(size, node, start, end)
      requires SubtreeOk(op, tree[..], lazy[..], size, node)
      requires IsAddition(op) || (AllZero(lazy[..]) && val == 0 && left <= start && end <= right)
      modifies tree, lazy
      decreases end - start, 2
      ensures RangeAdded(op, old(tree[..]), old(lazy[..]), tree[..], lazy[..], size, node, start, end, left, right, val)
    {
      ghost var t, z := tree[..], lazy[..];
      SpanNode(size, node, start, end);
      Propagate(node, start, end);
      PushPendingSpec(op, t, z, size, node, start, end);
      ghost var t1, z1 := tree[..], lazy[..];
      if end < left || start > right {
        AddDisjoint(op, t, z, t1, z1, size, node, start, end, left, right, val);
        return;
      }
      if start >= left && end <= right {
        tree[node] := tree[node] + (end - start + 1) * val;
        if start != end {
          lazy[LeftChild(node)] := lazy[LeftChild(node)] + val;
          lazy[RightChild(node)] := lazy[RightChild(node)] + val;
        }
        AddCovered(op, t, z, t1, z1, tree[..], lazy[..], size, node, start, end, left, right, val);
        return;
      }
      UpdateHalves(node, start, end, left, right, val);
      AddAfterPush(op, t, z, t1, z1, tree[..], lazy[..], size, node, start, end, left, right, val);
    }

    /**
     * The partial-overlap case of update_range_lazy, once the propagation
     * step has run at node: update both halves, then recompute tree[node]
     * from the children.
     */
    method UpdateHalves(node: int, start: int, end: int, left: int, right: int, val: int)
      requires Shaped() && lazy.Length == 2 * size && Span(size, node, start, end) && Node(size, node, start, end)
      requires start < end && lazy[node] == 0 && IsAddition(op)
      requires SubtreeOk(op, tree[..], lazy[..], size, node)
      modifies tree, lazy
      decreases end - start, 1
      ensures RangeAdded(op, old(tree[..]), old(lazy[..]), tree[..], lazy[..], size, node, start, end, left, right, val)
    {
      ghost var t1, z1 := tree[..], lazy[..];
      SplitStart(op, t1, z1, size, node, start, end);
      var mid := (start + end) / 2;
      UpdateRangeLazy(LeftChild(node), start, mid, left, right, val);
      SecondChildOk(op, t1, z1, tree[..], lazy[..], size, node);
      UpdateRightHalf(node, start, end, left, right, val, t1, z1);
    }

    /**
     * The rest of the partial-overlap case, once the left half has been
     * updated from state (t1, z1): update the right half, then recompute
     * tree[node] from the children.
     */
    method UpdateRightHalf(node: int, start: int, end: int, left: int, right: int, val: int,
                           ghost t1: seq<int>, ghost z1: seq<int>)
      requires Shaped() && lazy.Length == 2 * size && Span(size, node, start, end) && Node(size, node, start, end)
      requires Shape(t1, z1, size) && start < end && z1[node] == 0 && IsAddition(op)
      requires SubtreeOk(op, t1, z1, size, node)
      requires RangeAdded(op, t1, z1, tree[..], lazy[..], size, 2 * node, start, (start + end) / 2, left, right, val)
      requires SubtreeOk(op, tree[..], lazy[..], size, 2 * node + 1)
      modifies tree, lazy
      decreases end - start, 0
      ensures RangeAdded(op, t1, z1, tree[..], lazy[..], size, node, start, end, left, right, val)
    {
      ghost var t2, z2 := tree[..], lazy[..];
      SpanChildren(size, node, start, end);
      UpdateRangeLazy(RightChild(node), (start + end) / 2 + 1, end, left, right, val);
      ghost var t3, z3 := tree[..], lazy[..];
      tree[node] := tree[LeftChild(node)] + tree[RightChild(node)];
      assert tree[..] == t3[node := t3[2 * node] + t3[2 * node + 1]];
      AddJoin(op, t1, z1, t2, z2, t3, z3, size, node, start, end, left, right, val);
    }

    /**
     * recursive_query_range: node covers low..high; the answer is the fold of
     * its elements that lie in left..right.  Pending amounts on the way are
     * pushed down (when the tree is lazy), which changes no element.
     */
    method RecursiveQueryRange(node: int, low: int, high: int, left: int, right: int) returns (r: int)
      requires Shaped() && IsMonoid(op) && (IsAddition(op) || AllZero(Pending()))
      requires Span(size, node, low, high) && SubtreeOk(op, tree[..], Pending(), size, node)
      modifies tree, lazy
      decreases high - low, 2
      ensures RangeQueried(op, old(tree[..]), old(Pending()), tree[..], Pending(), size, node, low, high, left, right, r)
    {
      ghost var t, z := tree[..], Pending();
      SpanNode(size, node, low, high);
      if lazy.Length != 0 {
        Propagate(node, low, high);
        PushPendingSpec(op, t, z, size, node, low, high);
      } else {
        PushedNothing(op, t, z, size, node, low, high);
      }
      ghost var t1, z1 := tree[..], Pending();
      if low >= left && high <= right {
        QueryCoveredStep(op, t, z, t1, z1, size, node, low, high, left, right);
        return tree[node];
      }
      if high < left || low > right {
        QueryDisjointStep(op, t, z, t1, z1, size, node, low, high, left, right);
        return 0;
      }
      r := QueryHalves(node, low, high, left, right);
      QueryAfterPush(op, t, z, t1, z1, tree[..], Pending(), size, node, low, high, left, right, r);
    }

    /**
     * The partial-overlap case of recursive_query_range, once the
     * propagation step has run at node: the op of the answers for both halves.
     */
    method QueryHalves(node: int, low: int, high: int, left: int, right: int) returns (r: int)
      requires Shaped() && IsMonoid(op) && (IsAddition(op) || AllZero(Pending()))
      requires Span(size, node, low, high) && Node(size, node, low, high) && low < high
      requires Pending()[node] == 0 && SubtreeOk(op, tree[..], Pending(), size, node)
      modifies tree, lazy
      decreases high - low, 1
      ensures RangeQueried(op, old(tree[..]), old(Pending()), tree[..], Pending(), size, node, low, high, left, right, r)
    {
      ghost var t1, z1 := tree[..], Pending();
      SplitStart(op, t1, z1, size, node, low, high);
      var middle := (low + high) / 2;
      var x := RecursiveQueryRange(LeftChild(node), low, middle, left, right);
      SecondChildOk(op, t1, z1, tree[..], Pending(), size, node);
      r := QueryRightHalf(node, low, high, left, right, x, t1, z1);
    }

    /**
     * The rest of the partial-overlap case, once the left half has answered
     * x from state (t1, z1): answer the right half and combine.
     */
    method QueryRightHalf(node: int, low: int, high: int, left: int, right: int, x: int,
                          ghost t1: seq<int>, ghost z1: seq<int>) returns (r: int)
      requires Shaped() && IsMonoid(op) && (IsAddition(op) || AllZero(Pending()))
      requires Shape(t1, z1, size) && Span(size, node, low, high) && low < high && node < size
      requires SubtreeOk(op, t1, z1, size, node) && z1[node] == 0
      requires RangeQueried(op, t1, z1, tree[..], Pending(), size, 2 * node, low, (low + high) / 2, left, right, x)
      requires SubtreeOk(op, tree[..], Pending(), size, 2 * node + 1)
      modifies tree, lazy
      decreases high - low, 0
      ensures RangeQueried(op, t1, z1, tree[..], Pending(), size, node, low, high, left, right, r)
    {
      ghost var t2, z2 := tree[..], Pending();
      SpanChildren(size, node, low, high);
      var y := RecursiveQueryRange(RightChild(node), (low + high) / 2 + 1, high, left, right);
      QueryJoinStep(op, t1, z1, t2, z2, tree[..], Pending(), size, node, low, high, left, right, x, y);
      r := op(x, y);
    }
  }
}
