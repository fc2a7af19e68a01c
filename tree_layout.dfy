/**
 * The implicit binary tree inside the flat `tree` vector: node 1 is the
 * root, node i has children 2i and 2i+1, and with `size` leaves (a power of
 * two) the leaves are slots size .. 2*size-1.  This module gives each node
 * its width and its interval low..high, the subtree relation used for frame
 * reasoning, the node invariant that the lazy bookkeeping keeps, and the
 * logical array that a (tree, lazy) pair stands for.
 */
module TreeLayout {
  import opened SegmentTreeMath

  /** Number of leaves below node j. */
  function Width(size: int, j: int): (w: int)
    requires 1 <= j
    decreases size - j
    ensures w >= 1
  {
    if j >= size then 1 else 2 * Width(size, 2 * j)
  }

  /**
   * Node `node` covers positions low..high of the padded array: the root
   * covers 0..size-1, and each node's interval is the left or right half of
   * its parent's (the left child's interval doubled to the right, or the
   * right child's doubled to the left, gives the parent's).
   */
  ghost predicate Span(size: int, node: int, low: int, high: int)
    decreases if node < 1 then 0 else node
  {
    && 1 <= node < 2 * size && 0 <= low <= high < size
    && if node == 1 then Pow2(size) && low == 0 && high == size - 1
       else if node % 2 == 0 then Span(size, node / 2, low, 2 * high - low + 1)
       else Span(size, node / 2, 2 * low - high - 1, high)
  }

  /**
   * The closed form of a span: the width is a power of two and the node
   * sits at level size / width, offset low / width.
   */
  ghost predicate Placed(size: int, node: int, low: int, high: int)
  {
    && 1 <= node && 0 <= low <= high < size
    && Pow2(high - low + 1)
    && node * (high - low + 1) == low + size
  }

  lemma Doubling(p: int, w: int)
    ensures p * (2 * w) == (2 * p) * w && (2 * p + 1) * w == (2 * p) * w + w
    ensures (2 * p) * w == 2 * (p * w)
  {
  }

  lemma {:induction false} SpanPlaced(size: int, node: int, low: int, high: int)
    requires Span(size, node, low, high)
    ensures Placed(size, node, low, high)
    decreases if node < 1 then 0 else node
  {
    if node > 1 {
      var p := node / 2;
      var w := high - low + 1;
      assert Pow2(2 * w) ==> Pow2(w);
      Doubling(p, w);
      if node % 2 == 0 {
        SpanPlaced(size, p, low, 2 * high - low + 1);
        assert node == 2 * p;
      } else {
        SpanPlaced(size, p, 2 * low - high - 1, high);
        assert node == 2 * p + 1;
      }
    }
  }

  lemma {:induction false} WidthAt(size: int, n: int, v: int)
    requires 1 <= n && Pow2(v) && size <= n * v < 2 * size
    ensures Width(size, n) == v
    decreases v
  {
    if v > 1 {
      var u := v / 2;
      assert v == 2 * u && Pow2(u) && u >= 1;
      assert n * v == 2 * (n * u);
      assert n * u >= n;
      assert (2 * n) * u == n * v;
      WidthAt(size, 2 * n, u);
    }
  }

  /** The root covers the whole padded array. */
  lemma {:induction false} RootSpan(size: int)
    requires Pow2(size)
    ensures Span(size, 1, 0, size - 1)
  {
  }

  /** A span is a real node: in bounds, of the stated width, and a leaf exactly when it covers one position. */
  lemma {:induction false} SpanFacts(size: int, node: int, low: int, high: int)
    requires Span(size, node, low, high)
    ensures 1 <= node < 2 * size && 0 <= low <= high < size
    ensures Width(size, node) == high - low + 1
    ensures node >= size <==> low == high
    ensures low == high ==> node == size + low
  {
    SpanPlaced(size, node, low, high);
    var w := high - low + 1;
    assert w >= 1;
    assert node * w >= node;
    WidthAt(size, node, w);
    if w > 1 {
      assert w >= 2;
      assert node * w >= 2 * node;
    }
  }

  /** The query and update recursions split low..high at the midpoint; these are the children's spans. */
  lemma SpanChildren(size: int, node: int, low: int, high: int)
    requires Span(size, node, low, high) && low < high
    ensures node < size && Width(size, node) == high - low + 1
    ensures Span(size, 2 * node, low, (low + high) / 2)
    ensures Span(size, 2 * node + 1, (low + high) / 2 + 1, high)
    ensures (low + high) / 2 - low + 1 == high - (low + high) / 2
  {
    SpanFacts(size, node, low, high);
    SpanPlaced(size, node, low, high);
    var w := high - low + 1;
    assert w >= 2 && w % 2 == 0;
    var mid := (low + high) / 2;
    assert 2 * mid - low + 1 == high;
    assert 2 * (mid + 1) - high - 1 == low;
  }

  /** j lies in the subtree rooted at n (j is n or one of its descendants). */
  predicate InSubtree(j: int, n: int)
    decreases if j < 0 then 0 else j
  {
    j == n || (j > n && n >= 1 && InSubtree(j / 2, n))
  }

  lemma {:induction false} ChildSubtreeInParent(j: int, n: int)
    requires n >= 1
    ensures InSubtree(j, 2 * n) ==> InSubtree(j, n)
    ensures InSubtree(j, 2 * n + 1) ==> InSubtree(j, n)
    decreases if j < 0 then 0 else j
  {
    if j > 2 * n {
      ChildSubtreeInParent(j / 2, n);
    }
  }

  lemma ChildrenInSubtree(k: int, n: int)
    requires n >= 1 && InSubtree(k, n)
    ensures InSubtree(2 * k, n) && InSubtree(2 * k + 1, n)
  {
  }

  lemma {:induction false} SubtreeSplit(j: int, n: int)
    requires n >= 1 && InSubtree(j, n) && j != n
    ensures InSubtree(j, 2 * n) || InSubtree(j, 2 * n + 1)
    decreases if j < 0 then 0 else j
  {
    if j / 2 != n {
      SubtreeSplit(j / 2, n);
      assert j / 2 >= 2 * n;
    }
  }

  lemma {:induction false} SiblingsDisjoint(j: int, n: int)
    requires n >= 1
    ensures !(InSubtree(j, 2 * n) && InSubtree(j, 2 * n + 1))
    decreases if j < 0 then 0 else j
  {
    if j == 2 * n + 1 {
      assert !InSubtree(n, 2 * n);
    } else if j > 2 * n + 1 {
      SiblingsDisjoint(j / 2, n);
    }
  }

  lemma {:induction false} RootCoversAll(j: int)
    requires j >= 1
    ensures InSubtree(j, 1)
    decreases j
  {
    if j > 1 {
      RootCoversAll(j / 2);
    }
  }

  /** A node is not inside either of its children's subtrees. */
  lemma {:induction false} NodeOutsideChildren(n: int)
    requires n >= 1
    ensures !InSubtree(n, 2 * n) && !InSubtree(n, 2 * n + 1)
  {
  }

  ghost predicate Shape(t: seq<int>, z: seq<int>, size: int)
  {
    size >= 1 && |t| == 2 * size && |z| == 2 * size
  }

  /** What node j contributes to its parent: its stored value plus its own pending amount for each leaf below it. */
  function Eff(t: seq<int>, z: seq<int>, size: int, j: int): int
    requires Shape(t, z, size) && 1 <= j < 2 * size
  {
    t[j] + Width(size, j) * z[j]
  }

  /**
   * Invariant at internal node k.  With every pending amount zero it reads
   * tree[k] == op(tree[2k], tree[2k+1]); with op == + it says tree[k] already
   * includes everything pending at or below its children.
   */
  ghost predicate Cond(op: (int, int) -> int, t: seq<int>, z: seq<int>, size: int, k: int)
    requires Shape(t, z, size) && 1 <= k < size
  {
    t[k] == op(Eff(t, z, size, 2 * k), Eff(t, z, size, 2 * k + 1))
  }

  /** The invariant at every internal node of the subtree of n. */
  ghost predicate SubtreeOk(op: (int, int) -> int, t: seq<int>, z: seq<int>, size: int, n: int)
    requires Shape(t, z, size)
  {
    forall k {:trigger Cond(op, t, z, size, k)} :: 1 <= k < size && InSubtree(k, n) ==> Cond(op, t, z, size, k)
  }

  lemma SubtreeOkSplit(op: (int, int) -> int, t: seq<int>, z: seq<int>, size: int, n: int)
    requires Shape(t, z, size) && 1 <= n < size
    ensures SubtreeOk(op, t, z, size, n) <==>
      Cond(op, t, z, size, n) && SubtreeOk(op, t, z, size, 2 * n) && SubtreeOk(op, t, z, size, 2 * n + 1)
  {
    forall k | 1 <= k < size
      ensures InSubtree(k, 2 * n) || InSubtree(k, 2 * n + 1) ==> InSubtree(k, n)
      ensures InSubtree(k, n) && k != n ==> InSubtree(k, 2 * n) || InSubtree(k, 2 * n + 1)
    {
      ChildSubtreeInParent(k, n);
      if k != n && InSubtree(k, n) {
        SubtreeSplit(k, n);
      }
    }
  }

  /** Nodes at or beyond `size` are leaves: nothing internal below them. */
  lemma LeafSubtreeOk(op: (int, int) -> int, t: seq<int>, z: seq<int>, size: int, n: int)
    requires Shape(t, z, size) && size <= n
    ensures SubtreeOk(op, t, z, size, n)
  {
  }

  /** The plain (non-lazy) build invariant. */
  ghost predicate Built(op: (int, int) -> int, t: seq<int>, size: int)
    requires |t| == 2 * size
  {
    forall k :: 1 <= k < size ==> Combines(op, t, k)
  }

  /** A built tree is determined by its leaves: slots 1 .. 2*size-1 agree. */
  lemma {:induction false} BuiltUnique(op: (int, int) -> int, t: seq<int>, t': seq<int>, size: int, k: int)
    requires |t| == 2 * size && |t'| == 2 * size && Built(op, t, size) && Built(op, t', size)
    requires t[size..] == t'[size..] && 1 <= k < 2 * size
    ensures t[k] == t'[k]
    decreases 2 * size - k
  {
    if k >= size {
      assert t[k] == t[size..][k - size];
    } else {
      BuiltUnique(op, t, t', size, 2 * k);
      BuiltUnique(op, t, t', size, 2 * k + 1);
      assert Combines(op, t, k) && Combines(op, t', k);
    }
  }

  /** Node k holds the op of its two children. */
  ghost predicate Combines(op: (int, int) -> int, t: seq<int>, k: int)
    requires 1 <= k && 2 * k + 1 < |t|
  {
    t[k] == op(t[2 * k], t[2 * k + 1])
  }

  /** Writing slot i leaves Combines unchanged at every node that neither is i nor has i as a child. */
  lemma CombinesAfterWrite(op: (int, int) -> int, t: seq<int>, i: int, v: int)
    requires 0 <= i < |t|
    ensures forall k :: 1 <= k && 2 * k + 1 < |t| && k != i && 2 * k != i && 2 * k + 1 != i ==>
      (Combines(op, t[i := v], k) <==> Combines(op, t, k))
  {
  }

  lemma BuiltIsSubtreeOk(op: (int, int) -> int, t: seq<int>, z: seq<int>, size: int)
    requires Shape(t, z, size) && AllZero(z)
    ensures Built(op, t, size) <==> SubtreeOk(op, t, z, size, 1)
  {
    if Built(op, t, size) {
      forall k | 1 <= k < size && InSubtree(k, 1)
        ensures Cond(op, t, z, size, k)
      {
        assert Combines(op, t, k);
        assert z[2 * k] == 0 && z[2 * k + 1] == 0;
      }
    }
    if SubtreeOk(op, t, z, size, 1) {
      forall k | 1 <= k < size
        ensures Combines(op, t, k)
      {
        RootCoversAll(k);
        assert Cond(op, t, z, size, k);
        assert z[2 * k] == 0 && z[2 * k + 1] == 0;
      }
    }
  }

  /**
   * The slots the point update's loop writes, from node i up to the root:
   * each becomes the op of its two children.
   */
  function Recompute(op: (int, int) -> int, t: seq<int>, i: int): (r: seq<int>)
    requires 0 <= i && 2 * i + 1 < |t|
    ensures |r| == |t|
    decreases i
  {
    if i == 0 then t else Recompute(op, t[i := op(t[2 * i], t[2 * i + 1])], i / 2)
  }

  lemma RecomputeStep(op: (int, int) -> int, t: seq<int>, i: int)
    requires 1 <= i && 2 * i + 1 < |t|
    ensures Recompute(op, t, i) == Recompute(op, t[i := op(t[2 * i], t[2 * i + 1])], i / 2)
  {
  }

  /** The tree vector after update(index, value): the leaf written, then its ancestors recomputed. */
  function PointWrite(op: (int, int) -> int, t: seq<int>, size: int, index: int, value: int): (r: seq<int>)
    requires |t| == 2 * size && 0 <= index < size
    ensures |r| == |t|
  {
    Recompute(op, t[index + size := value], (index + size) / 2)
  }

  /** Recomputing from i upwards repairs a tree whose only broken node is i, and leaves the leaves alone. */
  lemma {:induction false} RecomputeBuilt(op: (int, int) -> int, t: seq<int>, size: int, i: int)
    requires |t| == 2 * size && 0 <= i < size
    requires forall k :: 1 <= k < size && k != i ==> Combines(op, t, k)
    ensures Built(op, Recompute(op, t, i), size)
    ensures Recompute(op, t, i)[size..] == t[size..]
    decreases i
  {
    if i >= 1 {
      var t' := t[i := op(t[2 * i], t[2 * i + 1])];
      CombinesAfterWrite(op, t, i, t'[i]);
      forall k | 1 <= k < size && k != i / 2 ensures Combines(op, t', k) {
        if k != i {
          assert Combines(op, t, k);
        }
      }
      RecomputeBuilt(op, t', size, i / 2);
      assert t'[size..] == t[size..];
    }
  }

  /** On a built tree, update(index, value) overwrites exactly one element and keeps the tree built. */
  lemma PointWriteBuilt(op: (int, int) -> int, t: seq<int>, size: int, index: int, value: int)
    requires |t| == 2 * size && 0 <= index < size && Built(op, t, size)
    ensures Built(op, PointWrite(op, t, size, index, value), size)
    ensures PointWrite(op, t, size, index, value)[size..] == t[size..][index := value]
  {
    var leaf := index + size;
    var t0 := t[leaf := value];
    assert PointWrite(op, t, size, index, value) == Recompute(op, t0, leaf / 2);
    LeafWriteCombines(op, t, t0, size, leaf, value);
    RecomputeBuilt(op, t0, size, leaf / 2);
    assert t0[size..] == t[size..][index := value];
  }

  /** The recompute pass from i writes only i and its ancestors. */
  lemma {:induction false} RecomputeFrame(op: (int, int) -> int, t: seq<int>, i: int, j: int)
    requires 0 <= i && 2 * i + 1 < |t| && 0 <= j < |t|
    requires j == 0 || !InSubtree(i, j)
    ensures Recompute(op, t, i)[j] == t[j]
    decreases i
  {
    if i >= 1 {
      RecomputeFrame(op, t[i := op(t[2 * i], t[2 * i + 1])], i / 2, j);
    }
  }

  /** update(index, value) changes no slot other than the leaf of index and that leaf's ancestors. */
  lemma PointWriteFrame(op: (int, int) -> int, t: seq<int>, size: int, index: int, value: int)
    requires |t| == 2 * size && 0 <= index < size
    ensures forall j :: 0 <= j < |t| && !InSubtree(index + size, j) ==> PointWrite(op, t, size, index, value)[j] == t[j]
  {
    var leaf := index + size;
    forall j | 0 <= j < |t| && !InSubtree(leaf, j) ensures PointWrite(op, t, size, index, value)[j] == t[j] {
      RecomputeFrame(op, t[leaf := value], leaf / 2, j);
    }
  }

  /** Overwriting a leaf of a built tree leaves every node but the leaf's parent combining. */
  lemma LeafWriteCombines(op: (int, int) -> int, t: seq<int>, t': seq<int>, size: int, leaf: int, value: int)
    requires |t| == 2 * size && size <= leaf < 2 * size && Built(op, t, size) && t' == t[leaf := value]
    ensures forall k :: 1 <= k < size && k != leaf / 2 ==> Combines(op, t', k)
  {
    CombinesAfterWrite(op, t, leaf, value);
    forall k | 1 <= k < size && k != leaf / 2 ensures Combines(op, t', k) {
      assert Combines(op, t, k);
    }
  }

  /**
   * The logical array under node n: a leaf's value is its slot plus its own
   * pending amount, and a pending amount at an internal node is added to
   * every leaf below it.
   */
  ghost function Elems(t: seq<int>, z: seq<int>, size: int, n: int): seq<int>
    requires Shape(t, z, size) && 1 <= n < 2 * size
    decreases size - n, 1
  {
    if n >= size then [t[n] + z[n]]
    else Shift(ChildElems(t, z, size, n), z[n])
  }

  /** The two children's logical arrays side by side, before n's own pending amount is added. */
  ghost function ChildElems(t: seq<int>, z: seq<int>, size: int, n: int): seq<int>
    requires Shape(t, z, size) && 1 <= n < size
    decreases size - n, 0
  {
    Elems(t, z, size, 2 * n) + Elems(t, z, size, 2 * n + 1)
  }

  /** With nothing pending at an internal node, its logical array is its children's side by side. */
  lemma ElemsUnpended(t: seq<int>, z: seq<int>, size: int, n: int)
    requires Shape(t, z, size) && 1 <= n < size && z[n] == 0
    ensures Elems(t, z, size, n) == Elems(t, z, size, 2 * n) + Elems(t, z, size, 2 * n + 1)
  {
    ShiftZero(ChildElems(t, z, size, n));
  }

  lemma {:induction false} ElemsLength(t: seq<int>, z: seq<int>, size: int, n: int, low: int, high: int)
    requires Shape(t, z, size) && Span(size, n, low, high)
    ensures 1 <= n < 2 * size && |Elems(t, z, size, n)| == high - low + 1
    decreases high - low
  {
    SpanFacts(size, n, low, high);
    if low < high {
      SpanChildren(size, n, low, high);
      var mid := (low + high) / 2;
      ElemsLength(t, z, size, 2 * n, low, mid);
      ElemsLength(t, z, size, 2 * n + 1, mid + 1, high);
    }
  }

  ghost predicate AgreeOn(t: seq<int>, t': seq<int>, n: int)
  {
    |t| == |t'| && forall j {:trigger t[j], t'[j]} :: 0 <= j < |t| && InSubtree(j, n) ==> t[j] == t'[j]
  }

  ghost predicate AgreeBelow(z: seq<int>, z': seq<int>, n: int)
  {
    |z| == |z'| && forall j {:trigger z[j], z'[j]} :: 0 <= j < |z| && InSubtree(j, n) && j != n ==> z[j] == z'[j]
  }

  /** The logical array under n depends only on the slots of n's subtree. */
  lemma {:induction false} ElemsFrame(t: seq<int>, z: seq<int>, t': seq<int>, z': seq<int>, size: int, n: int)
    requires Shape(t, z, size) && Shape(t', z', size) && 1 <= n < 2 * size
    requires AgreeOn(t, t', n) && AgreeOn(z, z', n)
    ensures Elems(t, z, size, n) == Elems(t', z', size, n)
    decreases size - n
  {
    if n < size {
      forall j | 0 <= j < 2 * size {
        ChildSubtreeInParent(j, n);
      }
      ElemsFrame(t, z, t', z', size, 2 * n);
      ElemsFrame(t, z, t', z', size, 2 * n + 1);
    }
  }

  /** The invariant below n depends only on n's subtree, and not on n's own pending amount. */
  lemma SubtreeOkFrame(op: (int, int) -> int, t: seq<int>, z: seq<int>, t': seq<int>, z': seq<int>, size: int, n: int)
    requires Shape(t, z, size) && Shape(t', z', size) && 1 <= n
    requires AgreeOn(t, t', n) && AgreeBelow(z, z', n)
    requires SubtreeOk(op, t, z, size, n)
    ensures SubtreeOk(op, t', z', size, n)
  {
    forall k | 1 <= k < size && InSubtree(k, n)
      ensures Cond(op, t', z', size, k)
    {
      ChildrenInSubtree(k, n);
      assert Cond(op, t, z, size, k);
    }
  }

  /** Adding d to the pending amount of c adds d to every logical element under c. */
  lemma ElemsBump(t: seq<int>, z: seq<int>, size: int, c: int, d: int)
    requires Shape(t, z, size) && 1 <= c < 2 * size
    ensures Elems(t, z[c := z[c] + d], size, c) == Shift(Elems(t, z, size, c), d)
  {
    var z' := z[c := z[c] + d];
    if c < size {
      NodeOutsideChildren(c);
      ElemsFrame(t, z, t, z', size, 2 * c);
      ElemsFrame(t, z, t, z', size, 2 * c + 1);
    }
  }

  /**
   * The central abstraction fact: what a node contributes (Eff) is the fold
   * of the logical elements below it, when op is addition or nothing is
   * pending anywhere.
   */
  lemma {:induction false} EffIsFold(op: (int, int) -> int, t: seq<int>, z: seq<int>, size: int, n: int, low: int, high: int)
    requires Shape(t, z, size) && Span(size, n, low, high)
    requires IsMonoid(op) && (IsAddition(op) || AllZero(z))
    requires SubtreeOk(op, t, z, size, n)
    ensures 1 <= n < 2 * size
    ensures Eff(t, z, size, n) == Fold(op, Elems(t, z, size, n))
    decreases high - low
  {
    SpanFacts(size, n, low, high);
    if low == high {
      FoldSingleton(op, t[n] + z[n]);
    } else {
      SpanChildren(size, n, low, high);
      SubtreeOkSplit(op, t, z, size, n);
      var mid := (low + high) / 2;
      EffIsFold(op, t, z, size, 2 * n, low, mid);
      EffIsFold(op, t, z, size, 2 * n + 1, mid + 1, high);
      ElemsLength(t, z, size, 2 * n, low, mid);
      ElemsLength(t, z, size, 2 * n + 1, mid + 1, high);
      EffStep(op, t, z, size, n, low, high);
    }
  }

  /** One level of EffIsFold: from the children's facts to the parent's. */
  lemma {:induction false} EffStep(op: (int, int) -> int, t: seq<int>, z: seq<int>, size: int, n: int, low: int, high: int)
    requires Shape(t, z, size) && Span(size, n, low, high) && low < high
    requires IsMonoid(op) && (IsAddition(op) || AllZero(z))
    requires n < size && Cond(op, t, z, size, n) && Width(size, n) == high - low + 1
    requires |Elems(t, z, size, 2 * n)| + |Elems(t, z, size, 2 * n + 1)| == high - low + 1
    requires Eff(t, z, size, 2 * n) == Fold(op, Elems(t, z, size, 2 * n))
    requires Eff(t, z, size, 2 * n + 1) == Fold(op, Elems(t, z, size, 2 * n + 1))
    ensures Eff(t, z, size, n) == Fold(op, Elems(t, z, size, n))
  {
    var a := Elems(t, z, size, 2 * n);
    var b := Elems(t, z, size, 2 * n + 1);
    FoldShiftAppend(op, a, b, z[n]);
  }

  /** With nothing pending, the logical elements under a node are exactly its leaf slots. */
  lemma {:induction false} ElemsZeroLazy(t: seq<int>, z: seq<int>, size: int, n: int, low: int, high: int)
    requires Shape(t, z, size) && Span(size, n, low, high) && AllZero(z)
    ensures Elems(t, z, size, n) == t[size + low .. size + high + 1]
    decreases high - low
  {
    SpanFacts(size, n, low, high);
    if low < high {
      SpanChildren(size, n, low, high);
      var mid := (low + high) / 2;
      ElemsZeroLazy(t, z, size, 2 * n, low, mid);
      ElemsZeroLazy(t, z, size, 2 * n + 1, mid + 1, high);
      var a := Elems(t, z, size, 2 * n);
      var b := Elems(t, z, size, 2 * n + 1);
      ElemsUnpended(t, z, size, n);
      SliceSplit(t, size + low, size + mid + 1, size + high + 1);
    }
  }

  /** With nothing pending, update(index, value) keeps the invariant and overwrites exactly one element. */
  lemma PointWriteClean(op: (int, int) -> int, t: seq<int>, z: seq<int>, size: int, index: int, value: int)
    requires Shape(t, z, size) && Pow2(size) && AllZero(z) && SubtreeOk(op, t, z, size, 1) && 0 <= index < size
    ensures SubtreeOk(op, PointWrite(op, t, size, index, value), z, size, 1)
    ensures |Elems(t, z, size, 1)| == size
    ensures Elems(PointWrite(op, t, size, index, value), z, size, 1) == Elems(t, z, size, 1)[index := value]
  {
    var t' := PointWrite(op, t, size, index, value);
    BuiltIsSubtreeOk(op, t, z, size);
    PointWriteBuilt(op, t, size, index, value);
    BuiltIsSubtreeOk(op, t', z, size);
    RootSpan(size);
    ElemsZeroLazy(t, z, size, 1, 0, size - 1);
    ElemsZeroLazy(t', z, size, 1, 0, size - 1);
    assert t[size..2 * size] == t[size..];
    assert t'[size..2 * size] == t'[size..];
  }

  /** In a plainly built tree every node holds the fold of the leaves it covers. */
  lemma NodeIsFold(op: (int, int) -> int, t: seq<int>, size: int, n: int, low: int, high: int)
    requires |t| == 2 * size && Built(op, t, size) && IsMonoid(op) && Span(size, n, low, high)
    ensures 1 <= n < 2 * size
    ensures t[n] == Fold(op, t[size + low .. size + high + 1])
  {
    SpanFacts(size, n, low, high);
    NodeFoldRange(op, t, size, n, low, high);
    FoldRangeSlice(op, t, size + low, size + high + 1);
  }

  /** NodeIsFold, stated on the leaf slots of the whole array. */
  lemma {:induction false} NodeFoldRange(op: (int, int) -> int, t: seq<int>, size: int, n: int, low: int, high: int)
    requires |t| == 2 * size && Built(op, t, size) && IsMonoid(op) && Span(size, n, low, high)
    ensures 1 <= n < 2 * size && 0 <= low <= high < size
    ensures t[n] == FoldRange(op, t, size + low, size + high + 1)
    decreases high - low
  {
    SpanFacts(size, n, low, high);
    if low < high {
      SpanChildren(size, n, low, high);
      var mid := (low + high) / 2;
      NodeFoldRange(op, t, size, 2 * n, low, mid);
      NodeFoldRange(op, t, size, 2 * n + 1, mid + 1, high);
      assert Combines(op, t, n);
      FoldRangeSplit(op, t, size + low, size + mid + 1, size + high + 1);
    }
  }
}
