/**
 * What one call of the lazy tree's recursive operations does, stated on
 * (tree, lazy) snapshots taken before and after it: the propagation step
 * changes no element, update_range_lazy adds its value exactly on
 * left..right, and recursive_query_range returns the fold of left..right
 * without changing any element.  Each lemma below is one case of one
 * operation, from the facts about the recursive calls to the facts about
 * the call that made them.
 */
module LazyOperations {
  import opened SegmentTreeMath
  import opened TreeLayout
  import opened LazyPropagation

  /**
   * The propagation step at node n covering low..high: when something is
   * pending at n it goes into tree[n] once per element and, for an internal
   * node, into both children's pending amounts; n's pending amount becomes 0.
   */
  function PushPending(t: seq<int>, z: seq<int>, n: int, low: int, high: int): (r: (seq<int>, seq<int>))
    requires |t| == |z| && 1 <= n < |t| && (low != high ==> 2 * n + 1 < |z|)
    ensures |r.0| == |t| && |r.1| == |z| && r.1[n] == 0
    ensures forall j :: 0 <= j < |t| && j != n ==> r.0[j] == t[j]
  {
    if z[n] == 0 then (t, z)
    else
      var t' := t[n := t[n] + (high - low + 1) * z[n]];
      if low != high then
        (t', z[2 * n := z[2 * n] + z[n]][2 * n + 1 := z[2 * n + 1] + z[n]][n := 0])
      else
        (t', z[n := 0])
  }

  /** A change confined to a subtree is the same change as seen from any enclosing subtree. */
  lemma AgreeOutsideTrans(a: seq<int>, b: seq<int>, c: seq<int>, n: int)
    requires AgreeOutside(a, b, n) && AgreeOutside(b, c, n)
    ensures AgreeOutside(a, c, n)
  {
    forall j | 0 <= j < |a| && !InSubtree(j, n) ensures a[j] == c[j] {
      assert a[j] == b[j];
    }
  }

  lemma AgreeOnBelow(z: seq<int>, z': seq<int>, n: int)
    requires AgreeOn(z, z', n)
    ensures AgreeBelow(z, z', n)
  {
  }

  // ---------------------------------------------------------------------
  // The propagation step
  // ---------------------------------------------------------------------

  /** The linear consequences of Span that the slot arithmetic needs, stated without Span's recursion. */
  predicate Node(size: int, n: int, low: int, high: int)
  {
    1 <= n < 2 * size && 0 <= low <= high < size && (low != high ==> n < size)
  }

  lemma {:induction false} SpanNode(size: int, n: int, low: int, high: int)
    requires Span(size, n, low, high)
    ensures Node(size, n, low, high)
  {
    SpanFacts(size, n, low, high);
  }

  /** The propagation step clears n's pending amount, touches only n's subtree, and does nothing when nothing is pending. */
  lemma {:induction false} PushPendingFrame(t: seq<int>, z: seq<int>, size: int, n: int, low: int, high: int)
    requires Shape(t, z, size) && Span(size, n, low, high) && Node(size, n, low, high)
    ensures var p := PushPending(t, z, n, low, high);
      && p.1[n] == 0 && AgreeOutside(t, p.0, n) && AgreeOutside(z, p.1, n)
      && (z[n] == 0 ==> p == (t, z))
  {
    SpanFacts(size, n, low, high);
    if z[n] != 0 && low != high {
      SpanChildren(size, n, low, high);
      assert InSubtree(2 * n, n) && InSubtree(2 * n + 1, n);
    }
  }

  /** The propagation step changes neither the elements under n nor what n contributes to its parent. */
  lemma {:induction false} PushPendingElems(t: seq<int>, z: seq<int>, size: int, n: int, low: int, high: int)
    requires Shape(t, z, size) && Span(size, n, low, high) && Node(size, n, low, high)
    ensures var p := PushPending(t, z, n, low, high);
      && Elems(p.0, p.1, size, n) == Elems(t, z, size, n)
      && Eff(p.0, p.1, size, n) == Eff(t, z, size, n)
  {
    SpanFacts(size, n, low, high);
    if z[n] != 0 {
      var p := PushPending(t, z, n, low, high);
      if low != high {
        PushElemsInternal(t, z, p.0, p.1, size, n);
      }
    }
  }

  /** Moving an internal node's pending amount down to its children leaves its logical array alone. */
  lemma PushElemsInternal(t: seq<int>, z: seq<int>, t': seq<int>, z': seq<int>, size: int, n: int)
    requires Shape(t, z, size) && 1 <= n < size
    requires |t'| == |t| && t' == t[n := t'[n]]
    requires z' == z[2 * n := z[2 * n] + z[n]][2 * n + 1 := z[2 * n + 1] + z[n]][n := 0]
    ensures Elems(t', z', size, n) == Elems(t, z, size, n)
  {
    var d := z[n];
    var z0 := z[n := 0];
    ElemsBump(t, z0, size, n, d);
    assert z0[n := z0[n] + d] == z;
    assert z' == z0[2 * n := z0[2 * n] + d][2 * n + 1 := z0[2 * n + 1] + d];
    ApplyInternalElems(t, z0, t', z', size, n, d);
  }

  /** The propagation step keeps the invariant below n. */
  lemma {:induction false} PushPendingInv(op: (int, int) -> int, t: seq<int>, z: seq<int>, size: int, n: int, low: int, high: int)
    requires Shape(t, z, size) && Span(size, n, low, high) && Node(size, n, low, high)
    requires SubtreeOk(op, t, z, size, n) && (IsAddition(op) || AllZero(z))
    ensures var p := PushPending(t, z, n, low, high);
      SubtreeOk(op, p.0, p.1, size, n)
  {
    if z[n] != 0 {
      var p := PushPending(t, z, n, low, high);
      PushDown(op, t, z, p.0, p.1, size, n, low, high);
    }
  }

  /**
   * What the propagation step guarantees, from the snapshot (t, z) before
   * it to the snapshot (t1, z1) after it: nothing pending at n, the same
   * elements under n and the same contribution to n's parent, nothing
   * outside n's subtree touched, no change at all when nothing was pending,
   * and the invariant below n kept.
   */
  ghost predicate Pushed(op: (int, int) -> int, t: seq<int>, z: seq<int>, t1: seq<int>, z1: seq<int>,
                         size: int, n: int)
    requires Shape(t, z, size) && Shape(t1, z1, size) && 1 <= n < 2 * size
  {
    && z1[n] == 0
    && Elems(t1, z1, size, n) == Elems(t, z, size, n)
    && Eff(t1, z1, size, n) == Eff(t, z, size, n)
    && AgreeOutside(t, t1, n) && AgreeOutside(z, z1, n)
    && (z[n] == 0 ==> t1 == t && z1 == z)
    && (SubtreeOk(op, t, z, size, n) && (IsAddition(op) || AllZero(z)) ==> SubtreeOk(op, t1, z1, size, n))
  }

  lemma {:induction false} PushPendingSpec(op: (int, int) -> int, t: seq<int>, z: seq<int>, size: int, n: int, low: int, high: int)
    requires Shape(t, z, size) && Span(size, n, low, high) && Node(size, n, low, high)
    ensures var p := PushPending(t, z, n, low, high);
      Shape(p.0, p.1, size) && Pushed(op, t, z, p.0, p.1, size, n)
  {
    PushPendingFrame(t, z, size, n, low, high);
    PushPendingElems(t, z, size, n, low, high);
    if SubtreeOk(op, t, z, size, n) && (IsAddition(op) || AllZero(z)) {
      PushPendingInv(op, t, z, size, n, low, high);
    }
  }

  /** With nothing pending anywhere, the step changes nothing. */
  lemma PushedClean(op: (int, int) -> int, t: seq<int>, z: seq<int>, t1: seq<int>, z1: seq<int>, size: int, n: int)
    requires Shape(t, z, size) && Shape(t1, z1, size) && 1 <= n < 2 * size
    requires Pushed(op, t, z, t1, z1, size, n) && AllZero(z)
    ensures t1 == t && z1 == z
  {
  }

  // ---------------------------------------------------------------------
  // The descent shared by update_range_lazy and recursive_query_range
  // ---------------------------------------------------------------------

  /**
   * An internal node on which the propagation step has run: its children's
   * ranges are the two halves of its own, and the invariant holds below the
   * first child.
   */
  lemma SplitStart(op: (int, int) -> int, t1: seq<int>, z1: seq<int>, size: int, n: int, low: int, high: int)
    requires Shape(t1, z1, size) && Span(size, n, low, high) && Node(size, n, low, high) && low < high
    requires SubtreeOk(op, t1, z1, size, n)
    ensures n < size
    ensures Span(size, 2 * n, low, (low + high) / 2) && Node(size, 2 * n, low, (low + high) / 2)
    ensures Span(size, 2 * n + 1, (low + high) / 2 + 1, high) && Node(size, 2 * n + 1, (low + high) / 2 + 1, high)
    ensures SubtreeOk(op, t1, z1, size, 2 * n)
  {
    SpanChildren(size, n, low, high);
    SpanNode(size, 2 * n, low, (low + high) / 2);
    SpanNode(size, 2 * n + 1, (low + high) / 2 + 1, high);
    SubtreeOkSplit(op, t1, z1, size, n);
  }

  /**
   * After the first recursive call, which changed only the first child's
   * subtree, the second child's subtree is as the propagation step left it,
   * invariant included.
   */
  lemma SecondChildOk(op: (int, int) -> int, t1: seq<int>, z1: seq<int>, t2: seq<int>, z2: seq<int>,
                      size: int, n: int)
    requires Shape(t1, z1, size) && Shape(t2, z2, size) && 1 <= n < size
    requires SubtreeOk(op, t1, z1, size, n)
    requires AgreeOutside(t1, t2, 2 * n) && AgreeOutside(z1, z2, 2 * n)
    ensures AgreeOn(t1, t2, 2 * n + 1) && AgreeOn(z1, z2, 2 * n + 1)
    ensures SubtreeOk(op, t2, z2, size, 2 * n + 1)
  {
    SubtreeOkSplit(op, t1, z1, size, n);
    ChildFrame(t1, t2, n);
    ChildFrame(z1, z2, n);
    AgreeOnBelow(z1, z2, 2 * n + 1);
    SubtreeOkFrame(op, t1, z1, t2, z2, size, 2 * n + 1);
  }

  // ---------------------------------------------------------------------
  // update_range_lazy
  // ---------------------------------------------------------------------

  /**
   * What update_range_lazy(n, start, end, left, right, val) guarantees,
   * from the snapshot (t, z) it starts on to the snapshot (t', z') it
   * leaves: nothing pending at n, the invariant below n, the elements under
   * n that lie in left..right grown by val and the others unchanged,
   * nothing outside n's subtree touched, and on a tree with nothing pending
   * an update by 0 changes nothing at all.
   */
  ghost predicate RangeAdded(op: (int, int) -> int, t: seq<int>, z: seq<int>, t': seq<int>, z': seq<int>,
                             size: int, n: int, start: int, end: int, left: int, right: int, val: int)
    requires Shape(t, z, size) && Shape(t', z', size) && 1 <= n < 2 * size
  {
    && z'[n] == 0
    && SubtreeOk(op, t', z', size, n)
    && Elems(t', z', size, n) == AddOnRange(Elems(t, z, size, n), left - start, right - start, val)
    && AgreeOutside(t, t', n) && AgreeOutside(z, z', n)
    && (AllZero(z) && val == 0 ==> t' == t && z' == z)
  }

  /** The node lies outside left..right: only the propagation step happens. */
  lemma {:induction false} AddDisjoint(op: (int, int) -> int, t: seq<int>, z: seq<int>, t1: seq<int>, z1: seq<int>,
                    size: int, n: int, start: int, end: int, left: int, right: int, val: int)
    requires Shape(t, z, size) && Shape(t1, z1, size) && Span(size, n, start, end)
    requires SubtreeOk(op, t, z, size, n) && (IsAddition(op) || AllZero(z))
    requires Pushed(op, t, z, t1, z1, size, n)
    requires end < left || start > right
    ensures RangeAdded(op, t, z, t1, z1, size, n, start, end, left, right, val)
  {
    ElemsLength(t, z, size, n, start, end);
    AddOnRangeExtremes(Elems(t, z, size, n), left - start, right - start, val);
  }

  /**
   * The node lies inside left..right: after the propagation step, tree[n]
   * grows by val once per element and both children's pending amounts by val.
   */
  lemma {:induction false} AddCovered(op: (int, int) -> int, t: seq<int>, z: seq<int>, t1: seq<int>, z1: seq<int>,
                   t': seq<int>, z': seq<int>, size: int, n: int, start: int, end: int,
                   left: int, right: int, val: int)
    requires Shape(t, z, size) && Shape(t1, z1, size) && Span(size, n, start, end) && Node(size, n, start, end)
    requires SubtreeOk(op, t, z, size, n) && (IsAddition(op) || (AllZero(z) && val == 0))
    requires Pushed(op, t, z, t1, z1, size, n)
    requires left <= start && end <= right
    requires t' == t1[n := t1[n] + (end - start + 1) * val]
    requires z' == if start == end then z1 else z1[2 * n := z1[2 * n] + val][2 * n + 1 := z1[2 * n + 1] + val]
    ensures Shape(t', z', size)
    ensures RangeAdded(op, t, z, t', z', size, n, start, end, left, right, val)
  {
    ApplyAtNode(op, t1, z1, t', z', size, n, start, end, val);
    ElemsLength(t, z, size, n, start, end);
    AddOnRangeExtremes(Elems(t, z, size, n), left - start, right - start, val);
    CoveredFrame(t1, z1, t', z', n, start == end, val);
    AgreeOutsideTrans(t, t1, t', n);
    AgreeOutsideTrans(z, z1, z', n);
  }

  /** The covered case writes only n and, at an internal node, n's children. */
  lemma CoveredFrame(t1: seq<int>, z1: seq<int>, t': seq<int>, z': seq<int>, n: int, leaf: bool, val: int)
    requires 1 <= n < |t1| && |z1| == |t1| && (!leaf ==> 2 * n + 1 < |z1|)
    requires |t'| == |t1| && t' == t1[n := t'[n]]
    requires z' == if leaf then z1 else z1[2 * n := z1[2 * n] + val][2 * n + 1 := z1[2 * n + 1] + val]
    ensures AgreeOutside(t1, t', n) && AgreeOutside(z1, z', n)
  {
    assert InSubtree(2 * n, n) && InSubtree(2 * n + 1, n);
  }

  /**
   * A call that starts with the propagation step: what the rest of the call
   * does from the pushed snapshot (t1, z1) is what the whole call does from
   * (t, z), since the step changes no element.
   */
  lemma {:induction false} AddAfterPush(op: (int, int) -> int, t: seq<int>, z: seq<int>, t1: seq<int>, z1: seq<int>,
                                        t': seq<int>, z': seq<int>, size: int, n: int, start: int, end: int,
                                        left: int, right: int, val: int)
    requires Shape(t, z, size) && Shape(t1, z1, size) && Shape(t', z', size) && 1 <= n < 2 * size
    requires SubtreeOk(op, t, z, size, n) && (IsAddition(op) || AllZero(z))
    requires Pushed(op, t, z, t1, z1, size, n)
    requires RangeAdded(op, t1, z1, t', z', size, n, start, end, left, right, val)
    ensures RangeAdded(op, t, z, t', z', size, n, start, end, left, right, val)
  {
    AgreeOutsideTrans(t, t1, t', n);
    AgreeOutsideTrans(z, z1, z', n);
  }

  /**
   * After both recursive calls, tree[n] := tree[2n] + tree[2n+1] completes
   * the update at n, counted from the snapshot (t1, z1) after the
   * propagation step.
   */
  lemma {:induction false} AddJoin(op: (int, int) -> int, t1: seq<int>, z1: seq<int>,
                t2: seq<int>, z2: seq<int>, t3: seq<int>, z3: seq<int>, size: int, n: int, start: int, end: int,
                left: int, right: int, val: int)
    requires Shape(t1, z1, size) && Shape(t2, z2, size) && Shape(t3, z3, size)
    requires Span(size, n, start, end) && Node(size, n, start, end)
    requires start < end && z1[n] == 0 && SubtreeOk(op, t1, z1, size, n) && IsAddition(op)
    requires RangeAdded(op, t1, z1, t2, z2, size, 2 * n, start, (start + end) / 2, left, right, val)
    requires RangeAdded(op, t2, z2, t3, z3, size, 2 * n + 1, (start + end) / 2 + 1, end, left, right, val)
    ensures RangeAdded(op, t1, z1, t3[n := t3[2 * n] + t3[2 * n + 1]], z3, size, n, start, end, left, right, val)
  {
    AddJoinState(op, t1, z1, t2, z2, t3, z3, size, n, start, end, left, right, val);
    if AllZero(z1) && val == 0 {
      AddJoinClean(op, t1, z1, t2, z2, t3, z3, size, n);
    }
  }

  /** The state half of AddJoin, from the snapshot (t1, z1) after the propagation step. */
  lemma AddJoinState(op: (int, int) -> int, t1: seq<int>, z1: seq<int>, t2: seq<int>, z2: seq<int>,
                     t3: seq<int>, z3: seq<int>, size: int, n: int, start: int, end: int,
                     left: int, right: int, val: int)
    requires Shape(t1, z1, size) && Shape(t2, z2, size) && Shape(t3, z3, size)
    requires Span(size, n, start, end) && Node(size, n, start, end)
    requires start < end && z1[n] == 0 && IsAddition(op)
    requires RangeAdded(op, t1, z1, t2, z2, size, 2 * n, start, (start + end) / 2, left, right, val)
    requires RangeAdded(op, t2, z2, t3, z3, size, 2 * n + 1, (start + end) / 2 + 1, end, left, right, val)
    ensures var t4 := t3[n := t3[2 * n] + t3[2 * n + 1]];
      && z3[n] == 0
      && SubtreeOk(op, t4, z3, size, n)
      && Elems(t4, z3, size, n) == AddOnRange(Elems(t1, z1, size, n), left - start, right - start, val)
      && AgreeOutside(t1, t4, n) && AgreeOutside(z1, z3, n)
  {
    SpanChildren(size, n, start, end);
    SplitFrames(t1, z1, t2, z2, t3, z3, n);
    ElemsLength(t1, z1, size, 2 * n, start, (start + end) / 2);
    UpdateSplitElems(t1, z1, t2, z2, t3, z3, size, n, start, end, left, right, val);
    SubtreeOkFrame(op, t2, z2, t3, z3, size, 2 * n);
    Recombine(op, t3, z3, size, n);
    assert AgreeOutside(t3, t3[n := t3[2 * n] + t3[2 * n + 1]], n);
    AgreeOutsideTrans(t1, t3, t3[n := t3[2 * n] + t3[2 * n + 1]], n);
  }

  /** An update by 0 on a tree with nothing pending: the recombination rewrites the value tree[n] already holds. */
  lemma AddJoinClean(op: (int, int) -> int, t: seq<int>, z: seq<int>, t2: seq<int>, z2: seq<int>,
                     t3: seq<int>, z3: seq<int>, size: int, n: int)
    requires Shape(t, z, size) && 1 <= n < size && IsAddition(op) && AllZero(z)
    requires SubtreeOk(op, t, z, size, n)
    requires t2 == t && z2 == z && (AllZero(z2) ==> t3 == t2 && z3 == z2)
    ensures t3[n := t3[2 * n] + t3[2 * n + 1]] == t && z3 == z
  {
    assert Cond(op, t, z, size, n);
    assert z[2 * n] == 0 && z[2 * n + 1] == 0;
  }

  // ---------------------------------------------------------------------
  // recursive_query_range
  // ---------------------------------------------------------------------

  /**
   * What recursive_query_range(n, low, high, left, right) guarantees, from
   * the snapshot (t, z) it starts on to the snapshot (t', z') it leaves: the
   * answer v is the fold of the elements under n that lie in left..right,
   * the elements under n and n's contribution to its parent are unchanged,
   * the invariant holds below n, nothing outside n's subtree is touched, and
   * on a tree with nothing pending nothing changes at all.
   */
  ghost predicate RangeQueried(op: (int, int) -> int, t: seq<int>, z: seq<int>, t': seq<int>, z': seq<int>,
                               size: int, n: int, low: int, high: int, left: int, right: int, v: int)
    requires Shape(t, z, size) && Shape(t', z', size) && 1 <= n < 2 * size
  {
    && v == FoldWindow(op, Elems(t, z, size, n), left - low, right - low)
    && Elems(t', z', size, n) == Elems(t, z, size, n)
    && Eff(t', z', size, n) == Eff(t, z, size, n)
    && SubtreeOk(op, t', z', size, n)
    && AgreeOutside(t, t', n) && AgreeOutside(z, z', n)
    && (AllZero(z) ==> t' == t && z' == z)
  }

  /** On a tree that is not lazy the propagation step is skipped, which is what it would do anyway. */
  lemma PushedNothing(op: (int, int) -> int, t: seq<int>, z: seq<int>, size: int, n: int, low: int, high: int)
    requires Shape(t, z, size) && Span(size, n, low, high) && Node(size, n, low, high) && AllZero(z)
    ensures Pushed(op, t, z, t, z, size, n)
  {
    PushPendingSpec(op, t, z, size, n, low, high);
  }

  /** The node lies inside left..right: after the propagation step, tree[n] is the answer. */
  lemma {:induction false} QueryCoveredStep(op: (int, int) -> int, t: seq<int>, z: seq<int>, t1: seq<int>, z1: seq<int>,
                                            size: int, n: int, low: int, high: int, left: int, right: int)
    requires Shape(t, z, size) && Shape(t1, z1, size) && Span(size, n, low, high)
    requires IsMonoid(op) && SubtreeOk(op, t, z, size, n) && (IsAddition(op) || AllZero(z))
    requires Pushed(op, t, z, t1, z1, size, n)
    requires left <= low && high <= right
    ensures 1 <= n < |t1|
    ensures RangeQueried(op, t, z, t1, z1, size, n, low, high, left, right, t1[n])
  {
    SpanFacts(size, n, low, high);
    if !IsAddition(op) {
      assert t1 == t && z1 == z;
    }
    EffIsFold(op, t1, z1, size, n, low, high);
    ElemsLength(t, z, size, n, low, high);
    FoldWindowWhole(op, Elems(t, z, size, n), left - low, right - low);
  }

  /** The node lies outside left..right: the answer is the identity. */
  lemma {:induction false} QueryDisjointStep(op: (int, int) -> int, t: seq<int>, z: seq<int>, t1: seq<int>, z1: seq<int>,
                                             size: int, n: int, low: int, high: int, left: int, right: int)
    requires Shape(t, z, size) && Shape(t1, z1, size) && Span(size, n, low, high)
    requires SubtreeOk(op, t, z, size, n) && (IsAddition(op) || AllZero(z))
    requires Pushed(op, t, z, t1, z1, size, n)
    requires high < left || low > right
    ensures RangeQueried(op, t, z, t1, z1, size, n, low, high, left, right, 0)
  {
    ElemsLength(t, z, size, n, low, high);
    FoldWindowOutside(op, Elems(t, z, size, n), left - low, right - low);
  }

  /** As AddAfterPush, for recursive_query_range. */
  lemma {:induction false} QueryAfterPush(op: (int, int) -> int, t: seq<int>, z: seq<int>, t1: seq<int>, z1: seq<int>,
                                          t': seq<int>, z': seq<int>, size: int, n: int, low: int, high: int,
                                          left: int, right: int, v: int)
    requires Shape(t, z, size) && Shape(t1, z1, size) && Shape(t', z', size) && 1 <= n < 2 * size
    requires SubtreeOk(op, t, z, size, n) && (IsAddition(op) || AllZero(z))
    requires Pushed(op, t, z, t1, z1, size, n)
    requires RangeQueried(op, t1, z1, t', z', size, n, low, high, left, right, v)
    ensures RangeQueried(op, t, z, t', z', size, n, low, high, left, right, v)
  {
    AgreeOutsideTrans(t, t1, t', n);
    AgreeOutsideTrans(z, z1, z', n);
  }

  /**
   * After both recursive calls, the op of their answers is the answer at n,
   * and what the calls changed below n changes nothing a reader of n sees;
   * counted from the snapshot (t1, z1) after the propagation step.
   */
  lemma {:induction false} QueryJoinStep(op: (int, int) -> int, t1: seq<int>, z1: seq<int>,
                                         t2: seq<int>, z2: seq<int>, t3: seq<int>, z3: seq<int>,
                                         size: int, n: int, low: int, high: int, left: int, right: int, x: int, y: int)
    requires Shape(t1, z1, size) && Shape(t2, z2, size) && Shape(t3, z3, size)
    requires Span(size, n, low, high) && low < high && n < size
    requires IsMonoid(op) && SubtreeOk(op, t1, z1, size, n) && z1[n] == 0
    requires RangeQueried(op, t1, z1, t2, z2, size, 2 * n, low, (low + high) / 2, left, right, x)
    requires RangeQueried(op, t2, z2, t3, z3, size, 2 * n + 1, (low + high) / 2 + 1, high, left, right, y)
    ensures RangeQueried(op, t1, z1, t3, z3, size, n, low, high, left, right, op(x, y))
  {
    var mid := (low + high) / 2;
    SpanChildren(size, n, low, high);
    SplitFrames(t1, z1, t2, z2, t3, z3, n);
    ElemsFrame(t1, z1, t2, z2, size, 2 * n + 1);
    assert Eff(t2, z2, size, 2 * n + 1) == Eff(t1, z1, size, 2 * n + 1);
    ElemsLength(t1, z1, size, 2 * n, low, mid);
    QuerySplitFold(op, t1, z1, size, n, low, high, left, right, x, y);
    QuerySplitState(op, t1, z1, t2, z2, t3, z3, size, n);
  }
}
