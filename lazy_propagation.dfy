/**
 * The three local steps the lazy segment tree performs at one node, stated
 * on (tree, lazy) snapshots: pushing a node's pending amount to its
 * children, applying a range increment to a fully covered node, and
 * recomputing a node from its two freshly updated children.  Each keeps the
 * node invariant below the node and says what happens to the logical
 * elements under it.
 */
module LazyPropagation {
  import opened SegmentTreeMath
  import opened TreeLayout

  /** A node, its two children and their subtrees are pairwise apart where it matters for frames. */
  lemma {:induction false} ChildrenApart(n: int)
    requires n >= 1
    ensures !InSubtree(n, 2 * n) && !InSubtree(n, 2 * n + 1)
    ensures !InSubtree(2 * n + 1, 2 * n) && !InSubtree(2 * n, 2 * n + 1)
  {
    NodeOutsideChildren(n);
    SiblingsDisjoint(2 * n, n);
    SiblingsDisjoint(2 * n + 1, n);
  }

  /**
   * Writing n's own slot and its children's pending amounts leaves each
   * child's slots alone, and the pending amounts strictly below each child.
   */
  lemma ChildrenFrames(t: seq<int>, z: seq<int>, t': seq<int>, z': seq<int>, n: int, v: int, l: int, r: int)
    requires 1 <= n && 2 * n + 1 < |t| && |t| == |z|
    requires t' == t[n := v] && z' == z[2 * n := l][2 * n + 1 := r]
    ensures AgreeOn(t, t', 2 * n) && AgreeBelow(z, z', 2 * n)
    ensures AgreeOn(t, t', 2 * n + 1) && AgreeBelow(z, z', 2 * n + 1)
  {
    ChildrenApart(n);
  }

  /** Elements half of the full-overlap step at an internal node. */
  lemma ApplyInternalElems(t: seq<int>, z: seq<int>, t': seq<int>, z': seq<int>, size: int, n: int, d: int)
    requires Shape(t, z, size) && Shape(t', z', size) && 1 <= n < size
    requires z[n] == 0
    requires t' == t[n := t'[n]]
    requires z' == z[2 * n := z[2 * n] + d][2 * n + 1 := z[2 * n + 1] + d]
    ensures Elems(t', z', size, n) == Shift(Elems(t, z, size, n), d)
  {
    ChildrenApart(n);
    var zl := z[2 * n := z[2 * n] + d];
    var zr := z[2 * n + 1 := z[2 * n + 1] + d];
    assert AgreeOn(t', t, 2 * n) && AgreeOn(z', zl, 2 * n);
    ElemsFrame(t', z', t, zl, size, 2 * n);
    ElemsBump(t, z, size, 2 * n, d);
    assert AgreeOn(t', t, 2 * n + 1) && AgreeOn(z', zr, 2 * n + 1);
    ElemsFrame(t', z', t, zr, size, 2 * n + 1);
    ElemsBump(t, z, size, 2 * n + 1, d);
    ElemsUnpended(t', z', size, n);
    ElemsUnpended(t, z, size, n);
    ShiftAppend(Elems(t, z, size, 2 * n), Elems(t, z, size, 2 * n + 1), d);
  }

  /** At n itself: tree[n] grows by both children's widths times d, as their effective values do. */
  lemma {:induction false} ApplyInternalCond(op: (int, int) -> int, t: seq<int>, z: seq<int>, t': seq<int>, z': seq<int>,
                          size: int, n: int, d: int)
    requires Shape(t, z, size) && Shape(t', z', size) && 1 <= n < size
    requires IsAddition(op)
    requires Cond(op, t, z, size, n)
    requires t' == t[n := t[n] + 2 * (Width(size, 2 * n) * d)]
    requires z' == z[2 * n := z[2 * n] + d][2 * n + 1 := z[2 * n + 1] + d]
    requires Width(size, 2 * n + 1) == Width(size, 2 * n)
    ensures Cond(op, t', z', size, n)
  {
    var h := Width(size, 2 * n);
    assert t'[2 * n] == t[2 * n] && z'[2 * n] == z[2 * n] + d;
    assert t'[2 * n + 1] == t[2 * n + 1] && z'[2 * n + 1] == z[2 * n + 1] + d;
    assert h * (z[2 * n] + d) == h * z[2 * n] + h * d;
    assert h * (z[2 * n + 1] + d) == h * z[2 * n + 1] + h * d;
    assert Eff(t', z', size, 2 * n) == Eff(t, z, size, 2 * n) + h * d;
    assert Eff(t', z', size, 2 * n + 1) == Eff(t, z, size, 2 * n + 1) + h * d;
  }

  /**
   * Rewriting n's slot and its children's pending amounts keeps the
   * invariant below n once it holds at n itself.
   */
  lemma ChildrenUntouchedOk(op: (int, int) -> int, t: seq<int>, z: seq<int>, t': seq<int>, z': seq<int>,
                            size: int, n: int, v: int, l: int, r: int)
    requires Shape(t, z, size) && 1 <= n < size
    requires t' == t[n := v] && z' == z[2 * n := l][2 * n + 1 := r]
    requires SubtreeOk(op, t, z, size, n)
    requires Cond(op, t', z', size, n)
    ensures SubtreeOk(op, t', z', size, n)
  {
    SubtreeOkSplit(op, t, z, size, n);
    ChildrenFrames(t, z, t', z', n, v, l, r);
    SubtreeOkFrame(op, t, z, t', z', size, 2 * n);
    SubtreeOkFrame(op, t, z, t', z', size, 2 * n + 1);
    SubtreeOkSplit(op, t', z', size, n);
  }

  /** The full-overlap step at an internal node whose children each have w leaves. */
  lemma ApplyInternal(op: (int, int) -> int, t: seq<int>, z: seq<int>, t': seq<int>, z': seq<int>,
                      size: int, n: int, width: int, w: int, d: int)
    requires Shape(t, z, size) && 1 <= n < size
    requires w == Width(size, 2 * n) && w == Width(size, 2 * n + 1) && width == 2 * w
    requires IsAddition(op) && z[n] == 0
    requires SubtreeOk(op, t, z, size, n)
    requires t' == t[n := t[n] + width * d]
    requires z' == z[2 * n := z[2 * n] + d][2 * n + 1 := z[2 * n + 1] + d]
    ensures Elems(t', z', size, n) == Shift(Elems(t, z, size, n), d)
    ensures SubtreeOk(op, t', z', size, n)
  {
    Doubling(w, d);
    assert width * d == 2 * (w * d);
    ApplyInternalElems(t, z, t', z', size, n, d);
    SubtreeOkSplit(op, t, z, size, n);
    ApplyInternalCond(op, t, z, t', z', size, n, d);
    ChildrenUntouchedOk(op, t, z, t', z', size, n, t'[n], z'[2 * n], z'[2 * n + 1]);
  }

  /**
   * Full-overlap step of update_range_lazy: with nothing pending at n, adding
   * width * d to tree[n] and d to both children's pending amounts adds d to
   * every logical element under n and keeps the invariant below n.
   */
  lemma {:induction false} ApplyAtNode(op: (int, int) -> int, t: seq<int>, z: seq<int>, t': seq<int>, z': seq<int>,
                    size: int, n: int, low: int, high: int, d: int)
    requires Shape(t, z, size) && Span(size, n, low, high) && (low < high ==> n < size)
    requires IsAddition(op) || d == 0
    requires z[n] == 0
    requires SubtreeOk(op, t, z, size, n)
    requires t' == t[n := t[n] + (high - low + 1) * d]
    requires z' == if low == high then z else z[2 * n := z[2 * n] + d][2 * n + 1 := z[2 * n + 1] + d]
    ensures Shape(t', z', size)
    ensures Elems(t', z', size, n) == Shift(Elems(t, z, size, n), d)
    ensures SubtreeOk(op, t', z', size, n)
  {
    SpanFacts(size, n, low, high);
    if d == 0 {
      UpdateSame(t, n);
      if low < high {
        UpdateSame(z, 2 * n);
        UpdateSame(z, 2 * n + 1);
      }
      ShiftZero(Elems(t, z, size, n));
    } else if low < high {
      ApplyAtInternal(op, t, z, t', z', size, n, low, high, d);
    } else {
      ApplyAtLeaf(op, t, z, t', size, n, d);
    }
  }

  /** The leaf case of ApplyAtNode: the leaf's one element grows by d. */
  lemma {:induction false} ApplyAtLeaf(op: (int, int) -> int, t: seq<int>, z: seq<int>, t': seq<int>, size: int, n: int, d: int)
    requires Shape(t, z, size) && size <= n < 2 * size
    requires t' == t[n := t[n] + d]
    ensures Shape(t', z, size)
    ensures Elems(t', z, size, n) == Shift(Elems(t, z, size, n), d)
    ensures SubtreeOk(op, t', z, size, n)
  {
    ShiftSingleton(t[n] + z[n], d);
    LeafSubtreeOk(op, t', z, size, n);
  }

  /** The internal-node case of ApplyAtNode, with the children's widths read off their ranges. */
  lemma ApplyAtInternal(op: (int, int) -> int, t: seq<int>, z: seq<int>, t': seq<int>, z': seq<int>,
                        size: int, n: int, low: int, high: int, d: int)
    requires Shape(t, z, size) && Span(size, n, low, high) && low < high && n < size
    requires IsAddition(op) && z[n] == 0
    requires SubtreeOk(op, t, z, size, n)
    requires t' == t[n := t[n] + (high - low + 1) * d]
    requires z' == z[2 * n := z[2 * n] + d][2 * n + 1 := z[2 * n + 1] + d]
    ensures Elems(t', z', size, n) == Shift(Elems(t, z, size, n), d)
    ensures SubtreeOk(op, t', z', size, n)
  {
    SpanChildren(size, n, low, high);
    SpanFacts(size, 2 * n, low, (low + high) / 2);
    SpanFacts(size, 2 * n + 1, (low + high) / 2 + 1, high);
    ApplyInternal(op, t, z, t', z', size, n, high - low + 1, Width(size, 2 * n), d);
  }

  /**
   * The propagate-on-entry step: moving n's pending amount into tree[n]
   * (scaled by the width) and into the children's pending amounts changes
   * neither the logical elements under n nor what n contributes to its
   * parent, and keeps the invariant below n.
   */
  lemma {:induction false} PushDown(op: (int, int) -> int, t: seq<int>, z: seq<int>, t': seq<int>, z': seq<int>,
                 size: int, n: int, low: int, high: int)
    requires Shape(t, z, size) && Span(size, n, low, high) && n < 2 * size
    requires low < high ==> n < size
    requires IsAddition(op)
    requires SubtreeOk(op, t, z, size, n)
    requires t' == t[n := t[n] + (high - low + 1) * z[n]]
    requires z' == if low == high then z[n := 0]
                   else z[2 * n := z[2 * n] + z[n]][2 * n + 1 := z[2 * n + 1] + z[n]][n := 0]
    ensures Shape(t', z', size) && z'[n] == 0
    ensures Elems(t', z', size, n) == Elems(t, z, size, n)
    ensures Eff(t', z', size, n) == Eff(t, z, size, n)
    ensures SubtreeOk(op, t', z', size, n)
  {
    SpanFacts(size, n, low, high);
    var d := z[n];
    var z0 := z[n := 0];
    ElemsBump(t, z0, size, n, d);
    assert z0[n := z0[n] + d] == z;
    SubtreeOkFrame(op, t, z, t, z0, size, n);
    if low < high {
      assert z' == z0[2 * n := z0[2 * n] + d][2 * n + 1 := z0[2 * n + 1] + d];
    }
    ApplyAtNode(op, t, z0, t', z', size, n, low, high, d);
    var e := Elems(t, z0, size, n);
    assert Shift(e, d) == Elems(t, z, size, n);
  }

  /**
   * The partial-overlap tail of update_range_lazy: once n has nothing
   * pending, tree[n] := tree[2n] + tree[2n+1] makes the logical elements
   * under n those of its two children.
   */
  lemma RecombineElems(t: seq<int>, z: seq<int>, size: int, n: int)
    requires Shape(t, z, size) && 1 <= n < size
    requires z[n] == 0
    ensures Elems(t[n := t[2 * n] + t[2 * n + 1]], z, size, n)
            == Elems(t, z, size, 2 * n) + Elems(t, z, size, 2 * n + 1)
  {
    var t' := t[n := t[2 * n] + t[2 * n + 1]];
    ChildrenApart(n);
    ElemsFrame(t, z, t', z, size, 2 * n);
    ElemsFrame(t, z, t', z, size, 2 * n + 1);
    ShiftZero(Elems(t, z, size, 2 * n) + Elems(t, z, size, 2 * n + 1));
  }

  /**
   * When both children have nothing pending, the same assignment
   * re-establishes the invariant at n.
   */
  lemma Recombine(op: (int, int) -> int, t: seq<int>, z: seq<int>, size: int, n: int)
    requires Shape(t, z, size) && 1 <= n < size
    requires IsAddition(op)
    requires z[2 * n] == 0 && z[2 * n + 1] == 0
    requires SubtreeOk(op, t, z, size, 2 * n) && SubtreeOk(op, t, z, size, 2 * n + 1)
    ensures SubtreeOk(op, t[n := t[2 * n] + t[2 * n + 1]], z, size, n)
  {
    var t' := t[n := t[2 * n] + t[2 * n + 1]];
    ChildrenApart(n);
    SubtreeOkFrame(op, t, z, t', z, size, 2 * n);
    SubtreeOkFrame(op, t, z, t', z, size, 2 * n + 1);
    assert Cond(op, t', z, size, n);
    SubtreeOkSplit(op, t', z, size, n);
  }

  /** t' differs from t only at slots inside the subtree of n. */
  ghost predicate AgreeOutside(t: seq<int>, t': seq<int>, n: int)
  {
    |t| == |t'| && forall j {:trigger t[j], t'[j]} :: 0 <= j < |t| && !InSubtree(j, n) ==> t[j] == t'[j]
  }

  /** A change confined to one child's subtree leaves the sibling's subtree and the parent's slot alone. */
  lemma ChildFrame(t: seq<int>, t': seq<int>, n: int)
    requires n >= 1
    ensures AgreeOutside(t, t', 2 * n) ==> AgreeOn(t, t', 2 * n + 1) && AgreeOutside(t, t', n)
    ensures AgreeOutside(t, t', 2 * n + 1) ==> AgreeOn(t, t', 2 * n) && AgreeOutside(t, t', n)
  {
    forall j | 0 <= j < |t|
      ensures !(InSubtree(j, 2 * n) && InSubtree(j, 2 * n + 1))
      ensures InSubtree(j, 2 * n) || InSubtree(j, 2 * n + 1) ==> InSubtree(j, n)
    {
      SiblingsDisjoint(j, n);
      ChildSubtreeInParent(j, n);
    }
  }

  /**
   * The frames of the two recursive calls at n (left child from state 1 to
   * 2, right child from state 2 to 3), restated per subtree.
   */
  lemma SplitFrames(t1: seq<int>, z1: seq<int>, t2: seq<int>, z2: seq<int>, t3: seq<int>, z3: seq<int>, n: int)
    requires n >= 1
    requires AgreeOutside(t1, t2, 2 * n) && AgreeOutside(z1, z2, 2 * n)
    requires AgreeOutside(t2, t3, 2 * n + 1) && AgreeOutside(z2, z3, 2 * n + 1)
    ensures AgreeOn(t1, t2, 2 * n + 1) && AgreeOn(z1, z2, 2 * n + 1)
    ensures AgreeOn(t2, t3, 2 * n) && AgreeOn(z2, z3, 2 * n) && AgreeBelow(z2, z3, 2 * n)
    ensures AgreeOutside(t1, t3, n) && AgreeOutside(z1, z3, n)
    ensures 2 * n < |z1| ==> z3[2 * n] == z2[2 * n]
    ensures n < |t1| ==> t3[n] == t1[n]
    ensures n < |z1| ==> z3[n] == z1[n]
  {
    ChildFrame(t1, t2, n);
    ChildFrame(z1, z2, n);
    ChildFrame(t2, t3, n);
    ChildFrame(z2, z3, n);
    NodeOutsideChildren(n);
    if n < |t1| {
      assert t1[n] == t2[n];
    }
    if n < |z1| {
      assert z1[n] == z2[n];
    }
    forall j | 0 <= j < |t1| && !InSubtree(j, n) ensures t1[j] == t3[j] {
      assert t1[j] == t2[j];
    }
    forall j | 0 <= j < |z1| && !InSubtree(j, n) ensures z1[j] == z3[j] {
      assert z1[j] == z2[j];
    }
  }

  /** Elements half of the partial-overlap case of update_range_lazy. */
  lemma UpdateSplitElems(t1: seq<int>, z1: seq<int>, t2: seq<int>, z2: seq<int>,
                         t3: seq<int>, z3: seq<int>, size: int, n: int, start: int, end: int,
                         left: int, right: int, val: int)
    requires Shape(t1, z1, size) && Shape(t2, z2, size) && Shape(t3, z3, size)
    requires 1 <= n < size && |Elems(t1, z1, size, 2 * n)| == (start + end) / 2 - start + 1
    requires z1[n] == 0 && z3[n] == 0
    requires AgreeOn(t1, t2, 2 * n + 1) && AgreeOn(z1, z2, 2 * n + 1)
    requires AgreeOn(t2, t3, 2 * n) && AgreeOn(z2, z3, 2 * n)
    requires Elems(t2, z2, size, 2 * n)
             == AddOnRange(Elems(t1, z1, size, 2 * n), left - start, right - start, val)
    requires Elems(t3, z3, size, 2 * n + 1)
             == AddOnRange(Elems(t2, z2, size, 2 * n + 1), left - ((start + end) / 2 + 1), right - ((start + end) / 2 + 1), val)
    ensures Elems(t3[n := t3[2 * n] + t3[2 * n + 1]], z3, size, n)
            == AddOnRange(Elems(t1, z1, size, n), left - start, right - start, val)
  {
    var mid := (start + end) / 2;
    ElemsFrame(t2, z2, t3, z3, size, 2 * n);
    ElemsFrame(t1, z1, t2, z2, size, 2 * n + 1);
    RecombineElems(t3, z3, size, n);
    var a := Elems(t1, z1, size, 2 * n);
    var b := Elems(t1, z1, size, 2 * n + 1);
    AddOnRangeAppend(a, b, left - start, right - start, left - (mid + 1), right - (mid + 1), val);
    ShiftZero(a + b);
  }

  /** Elements half of the partial-overlap case of recursive_query_range: the two answers combine. */
  lemma QuerySplitFold(op: (int, int) -> int, t: seq<int>, z: seq<int>, size: int, n: int,
                       low: int, high: int, left: int, right: int, x: int, y: int)
    requires Shape(t, z, size) && 1 <= n < size && IsMonoid(op) && z[n] == 0
    requires |Elems(t, z, size, 2 * n)| == (low + high) / 2 - low + 1
    requires x == FoldWindow(op, Elems(t, z, size, 2 * n), left - low, right - low)
    requires y == FoldWindow(op, Elems(t, z, size, 2 * n + 1),
                                  left - ((low + high) / 2 + 1), right - ((low + high) / 2 + 1))
    ensures op(x, y) == FoldWindow(op, Elems(t, z, size, n), left - low, right - low)
  {
    var mid := (low + high) / 2;
    var a := Elems(t, z, size, 2 * n);
    var b := Elems(t, z, size, 2 * n + 1);
    ElemsUnpended(t, z, size, n);
    FoldWindowSplit(op, a, b, left - low, right - low, left - (mid + 1), right - (mid + 1), x, y);
  }

  /**
   * State half of the partial-overlap case of recursive_query_range: the
   * node's elements, contribution and invariant are those after the push-down.
   */
  lemma QuerySplitState(op: (int, int) -> int, t1: seq<int>, z1: seq<int>, t2: seq<int>, z2: seq<int>,
                        t3: seq<int>, z3: seq<int>, size: int, n: int)
    requires Shape(t1, z1, size) && Shape(t2, z2, size) && Shape(t3, z3, size)
    requires 1 <= n < size && SubtreeOk(op, t1, z1, size, n)
    requires t3[n] == t1[n] && z3[n] == z1[n]
    requires AgreeOn(t2, t3, 2 * n) && AgreeOn(z2, z3, 2 * n) && AgreeBelow(z2, z3, 2 * n)
    requires Elems(t2, z2, size, 2 * n) == Elems(t1, z1, size, 2 * n)
    requires Eff(t2, z2, size, 2 * n) == Eff(t1, z1, size, 2 * n) && SubtreeOk(op, t2, z2, size, 2 * n)
    requires Elems(t3, z3, size, 2 * n + 1) == Elems(t1, z1, size, 2 * n + 1)
    requires Eff(t3, z3, size, 2 * n + 1) == Eff(t1, z1, size, 2 * n + 1) && SubtreeOk(op, t3, z3, size, 2 * n + 1)
    ensures Elems(t3, z3, size, n) == Elems(t1, z1, size, n)
    ensures Eff(t3, z3, size, n) == Eff(t1, z1, size, n)
    ensures SubtreeOk(op, t3, z3, size, n)
  {
    ElemsFrame(t2, z2, t3, z3, size, 2 * n);
    SubtreeOkFrame(op, t2, z2, t3, z3, size, 2 * n);
    NodeOutsideChildren(n);
    assert t3[2 * n] == t2[2 * n] && z3[2 * n] == z2[2 * n];
    assert Eff(t3, z3, size, 2 * n) == Eff(t1, z1, size, 2 * n);
    SubtreeOkSplit(op, t1, z1, size, n);
    assert Cond(op, t3, z3, size, n);
    SubtreeOkSplit(op, t3, z3, size, n);
  }
}
