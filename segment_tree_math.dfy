/**
 * Sequence-level vocabulary shared by both segment tree models: the combining
 * operation and its algebraic requirements, folds over a range of elements,
 * the "add a delta to a range" reference update, and the capacity rounding
 * done by next_power_of_2.
 */
module SegmentTreeMath {

  /** Powers of two: 1, 2, 4, ... */
  ghost predicate Pow2(n: int)
    decreases if n < 0 then 0 else n
  {
    n == 1 || (n > 1 && n % 2 == 0 && Pow2(n / 2))
  }

  function Pow(k: nat): (p: int)
    ensures p >= 1 && Pow2(p)
  {
    if k == 0 then 1 else 2 * Pow(k - 1)
  }

  /** Number of significant bits of n, i.e. 32 - clz(n) for a 32-bit n > 0. */
  function BitLength(n: nat): nat
  {
    if n == 0 then 0 else 1 + BitLength(n / 2)
  }

  lemma {:induction false} BitLengthBounds(n: nat)
    requires n >= 1
    ensures BitLength(n) >= 1
    ensures Pow(BitLength(n) - 1) <= n < Pow(BitLength(n))
  {
    if n > 1 {
      BitLengthBounds(n / 2);
    }
  }

  /**
   * next_power_of_2(x) computes 1 << (32 - clz(x - 1)).  At x == 1 the
   * argument of clz is 0, which is undefined, so x >= 2 is required.  The
   * result is a power of two that is at least x and whose half is below x.
   */
  function NextPowerOfTwo(x: int): (p: int)
    requires x >= 2
    ensures Pow2(p) && x <= p && p / 2 < x
  {
    BitLengthBounds(x - 1);
    Pow(BitLength(x - 1))
  }

  lemma {:induction false} Pow2Ordered(q: int, p: int)
    requires Pow2(q) && Pow2(p) && q < p
    ensures q <= p / 2
  {
    if q > 1 {
      Pow2Ordered(q / 2, p / 2);
    }
  }

  /** No power of two between x and NextPowerOfTwo(x): it is the least one. */
  lemma {:induction false} NextPowerOfTwoIsLeast(x: int, q: int)
    requires x >= 2 && Pow2(q) && x <= q
    ensures NextPowerOfTwo(x) <= q
  {
    var p := NextPowerOfTwo(x);
    if q < p {
      Pow2Ordered(q, p);
    }
  }

  /** left_child: an even slot whose parent, slot / 2, is index again. */
  function LeftChild(index: int): (c: int)
    ensures c / 2 == index && c % 2 == 0
  {
    2 * index
  }

  /** right_child: the odd slot beside the left child, with the same parent. */
  function RightChild(index: int): (c: int)
    ensures c / 2 == index && c % 2 == 1 && c == LeftChild(index) + 1
  {
    2 * index + 1
  }

  /** The element type's default value T{} plays the identity: op must be associative with 0 as identity. */
  ghost predicate IsMonoid(op: (int, int) -> int)
  {
    && (forall a, b, c :: Associates(op, a, b, c))
    && (forall a :: op(0, a) == a && op(a, 0) == a)
  }

  /** Associativity at one triple; kept as a separate predicate so the solver only regroups where a proof asks. */
  ghost predicate Associates(op: (int, int) -> int, a: int, b: int, c: int)
  {
    op(op(a, b), c) == op(a, op(b, c))
  }

  /** The lazy machinery is only meaningful when op is addition. */
  ghost predicate IsAddition(op: (int, int) -> int)
  {
    forall a, b :: op(a, b) == a + b
  }

  /** Left-to-right fold of s through op, starting from the identity 0. */
  function Fold(op: (int, int) -> int, s: seq<int>): int
  {
    FoldRange(op, s, 0, |s|)
  }

  /** Left-to-right fold of the elements of s at positions a .. b-1. */
  function FoldRange(op: (int, int) -> int, s: seq<int>, a: int, b: int): int
    requires 0 <= a <= b <= |s|
    decreases b - a
  {
    if a == b then 0 else op(FoldRange(op, s, a, b - 1), s[b - 1])
  }

  /** Folding a range in two pieces and combining the results gives the fold of the whole range. */
  lemma {:induction false} FoldRangeSplit(op: (int, int) -> int, s: seq<int>, a: int, m: int, b: int)
    requires IsMonoid(op) && 0 <= a <= m <= b <= |s|
    ensures FoldRange(op, s, a, b) == op(FoldRange(op, s, a, m), FoldRange(op, s, m, b))
    decreases b - m
  {
    if m < b {
      FoldRangeSplit(op, s, a, m, b - 1);
      assert Associates(op, FoldRange(op, s, a, m), FoldRange(op, s, m, b - 1), s[b - 1]);
    }
  }

  /** A range inside a folds the same within a + b. */
  lemma {:induction false} FoldRangeLeft(op: (int, int) -> int, a: seq<int>, b: seq<int>, i: int, j: int)
    requires 0 <= i <= j <= |a|
    ensures FoldRange(op, a + b, i, j) == FoldRange(op, a, i, j)
    decreases j - i
  {
    if i < j {
      FoldRangeLeft(op, a, b, i, j - 1);
      assert (a + b)[j - 1] == a[j - 1];
    }
  }

  /** A range inside b folds the same within a + b, |a| positions further on. */
  lemma {:induction false} FoldRangeRight(op: (int, int) -> int, a: seq<int>, b: seq<int>, i: int, j: int)
    requires |a| <= i <= j <= |a| + |b|
    ensures FoldRange(op, a + b, i, j) == FoldRange(op, b, i - |a|, j - |a|)
    decreases j - i
  {
    if i < j {
      FoldRangeRight(op, a, b, i, j - 1);
      assert (a + b)[j - 1] == b[j - 1 - |a|];
    }
  }

  /** Folding a slice is folding the same range of the whole sequence. */
  lemma FoldRangeSlice(op: (int, int) -> int, s: seq<int>, i: int, j: int)
    requires 0 <= i <= j <= |s|
    ensures Fold(op, s[i..j]) == FoldRange(op, s, i, j)
  {
    FoldRangeOffset(op, s, i, j, j - i);
  }

  lemma {:induction false} FoldRangeOffset(op: (int, int) -> int, s: seq<int>, i: int, j: int, k: int)
    requires 0 <= i <= j <= |s| && 0 <= k <= j - i
    ensures FoldRange(op, s[i..j], 0, k) == FoldRange(op, s, i, i + k)
    decreases k
  {
    if k > 0 {
      FoldRangeOffset(op, s, i, j, k - 1);
      assert s[i..j][k - 1] == s[i + k - 1];
    }
  }

  lemma FoldAppend(op: (int, int) -> int, a: seq<int>, b: seq<int>)
    requires IsMonoid(op)
    ensures Fold(op, a + b) == op(Fold(op, a), Fold(op, b))
  {
    FoldRangeSplit(op, a + b, 0, |a|, |a| + |b|);
    FoldRangeLeft(op, a, b, 0, |a|);
    FoldRangeRight(op, a, b, |a|, |a| + |b|);
  }

  function Zeros(n: nat): (s: seq<int>)
    ensures |s| == n && AllZero(s)
  {
    seq(n, _ => 0)
  }

  ghost predicate AllZero(s: seq<int>)
  {
    forall i :: 0 <= i < |s| ==> s[i] == 0
  }

  /** Cutting a slice at an inner point gives two adjacent slices. */
  lemma SliceSplit(s: seq<int>, i: int, j: int, k: int)
    requires 0 <= i <= j <= k <= |s|
    ensures s[i..k] == s[i..j] + s[j..k]
  {
  }

  /** The fold of one element is that element. */
  lemma FoldSingleton(op: (int, int) -> int, x: int)
    requires IsMonoid(op)
    ensures Fold(op, [x]) == x
  {
    assert FoldRange(op, [x], 0, 0) == 0;
  }

  /** Writing back the value a slot already holds changes nothing. */
  lemma UpdateSame(s: seq<int>, i: int)
    requires 0 <= i < |s|
    ensures s[i := s[i]] == s
  {
  }

  /** Every element increased by d. */
  function Shift(s: seq<int>, d: int): seq<int>
  {
    seq(|s|, i requires 0 <= i < |s| => s[i] + d)
  }

  /** Reference range update: d added at positions lo..hi (inclusive), nothing elsewhere. */
  function AddOnRange(s: seq<int>, lo: int, hi: int, d: int): (r: seq<int>)
    ensures |r| == |s|
    ensures forall i :: 0 <= i < |s| && lo <= i <= hi ==> r[i] == s[i] + d
    ensures forall i :: 0 <= i < |s| && !(lo <= i <= hi) ==> r[i] == s[i]
  {
    seq(|s|, i requires 0 <= i < |s| => if lo <= i <= hi then s[i] + d else s[i])
  }

  /**
   * The fold of the elements of s at positions lo..hi (inclusive), with both
   * bounds clamped to the positions s has; the identity when the clamped
   * range is empty.
   */
  function FoldWindow(op: (int, int) -> int, s: seq<int>, lo: int, hi: int): int
  {
    FoldRange(op, s, WindowStart(s, lo), WindowEnd(s, lo, hi))
  }

  /** First position inside the window lo..hi of s. */
  function WindowStart(s: seq<int>, lo: int): (a: int)
    ensures 0 <= a <= |s|
  {
    if lo < 0 then 0 else if lo > |s| then |s| else lo
  }

  /** One past the last position inside the window lo..hi of s. */
  function WindowEnd(s: seq<int>, lo: int, hi: int): (b: int)
    ensures WindowStart(s, lo) <= b <= |s|
  {
    var a := WindowStart(s, lo);
    if hi + 1 < a then a else if hi + 1 > |s| then |s| else hi + 1
  }

  /** Where the window of a + b starts and ends, relative to the windows of a and of b. */
  lemma WindowBounds(a: seq<int>, b: seq<int>, lo: int, hi: int)
    ensures var x, y := WindowStart(a + b, lo), WindowEnd(a + b, lo, hi);
      && WindowStart(a, lo) == (if x < |a| then x else |a|)
      && WindowEnd(a, lo, hi) == (if y < |a| then y else |a|)
      && WindowStart(b, lo - |a|) == (if x < |a| then 0 else x - |a|)
      && WindowEnd(b, lo - |a|, hi - |a|) == (if y < |a| then 0 else y - |a|)
  {
  }

  /** A window covering every position folds to the fold of the whole sequence. */
  lemma FoldWindowWhole(op: (int, int) -> int, s: seq<int>, lo: int, hi: int)
    requires lo <= 0 && |s| - 1 <= hi
    ensures FoldWindow(op, s, lo, hi) == Fold(op, s)
  {
  }

  /** A window lying before or after every position folds to the identity. */
  lemma FoldWindowOutside(op: (int, int) -> int, s: seq<int>, lo: int, hi: int)
    requires hi < 0 || |s| - 1 < lo
    ensures FoldWindow(op, s, lo, hi) == 0
  {
  }

  /** A window inside the positions of s folds exactly the elements lo..hi. */
  lemma FoldWindowInside(op: (int, int) -> int, s: seq<int>, lo: int, hi: int)
    requires 0 <= lo <= hi < |s|
    ensures FoldWindow(op, s, lo, hi) == Fold(op, s[lo..hi + 1])
  {
    FoldRangeSlice(op, s, lo, hi + 1);
  }

  /** A window whose bounds are crossed (lo > hi) folds to the identity. */
  lemma FoldWindowEmpty(op: (int, int) -> int, s: seq<int>, lo: int, hi: int)
    requires hi < lo
    ensures FoldWindow(op, s, lo, hi) == 0
  {
  }

  /** Splitting a window at the boundary between a and b splits its fold. */
  lemma FoldWindowSplit(op: (int, int) -> int, a: seq<int>, b: seq<int>, lo: int, hi: int, lo': int, hi': int, x: int, y: int)
    requires IsMonoid(op) && lo' == lo - |a| && hi' == hi - |a|
    requires x == FoldWindow(op, a, lo, hi) && y == FoldWindow(op, b, lo', hi')
    ensures FoldWindow(op, a + b, lo, hi) == op(x, y)
  {
    WindowBounds(a, b, lo, hi);
    var start, end := WindowStart(a + b, lo), WindowEnd(a + b, lo, hi);
    var m := if start > |a| then start else if end < |a| then end else |a|;
    FoldRangeSplit(op, a + b, start, m, end);
    if m <= |a| {
      FoldRangeLeft(op, a, b, start, m);
    }
    if |a| <= m {
      FoldRangeRight(op, a, b, m, end);
    }
  }

  /** FoldWindowSplit for two adjacent slices of one sequence. */
  lemma FoldWindowSlices(op: (int, int) -> int, s: seq<int>, i: int, j: int, k: int,
                          lo: int, hi: int, lo': int, hi': int, x: int, y: int)
    requires IsMonoid(op) && 0 <= i <= j <= k <= |s| && lo' == lo - (j - i) && hi' == hi - (j - i)
    requires x == FoldWindow(op, s[i..j], lo, hi) && y == FoldWindow(op, s[j..k], lo', hi')
    ensures FoldWindow(op, s[i..k], lo, hi) == op(x, y)
  {
    SliceSplit(s, i, j, k);
    FoldWindowSplit(op, s[i..j], s[j..k], lo, hi, lo', hi', x, y);
  }

  lemma ShiftAppend(a: seq<int>, b: seq<int>, d: int)
    ensures Shift(a + b, d) == Shift(a, d) + Shift(b, d)
  {
  }

  lemma ShiftSingleton(x: int, d: int)
    ensures Shift([x], d) == [x + d]
  {
  }

  lemma ShiftZero(s: seq<int>)
    ensures Shift(s, 0) == s
  {
  }

  /** A range update that covers every position shifts everything; one that covers none changes nothing. */
  lemma AddOnRangeExtremes(s: seq<int>, lo: int, hi: int, d: int)
    ensures lo <= 0 && |s| - 1 <= hi ==> AddOnRange(s, lo, hi, d) == Shift(s, d)
    ensures hi < 0 || |s| - 1 < lo ==> AddOnRange(s, lo, hi, d) == s
  {
  }

  /** A one-position range update changes exactly that position. */
  lemma AddOnRangePoint(s: seq<int>, i: int, d: int)
    requires 0 <= i < |s|
    ensures AddOnRange(s, i, i, d) == s[i := s[i] + d]
  {
  }

  lemma AddOnRangeAppend(a: seq<int>, b: seq<int>, lo: int, hi: int, lo': int, hi': int, d: int)
    requires lo' == lo - |a| && hi' == hi - |a|
    ensures AddOnRange(a + b, lo, hi, d) == AddOnRange(a, lo, hi, d) + AddOnRange(b, lo', hi', d)
  {
    var l := AddOnRange(a + b, lo, hi, d);
    var r := AddOnRange(a, lo, hi, d) + AddOnRange(b, lo - |a|, hi - |a|, d);
    forall i | 0 <= i < |l| ensures l[i] == r[i] {
      if i >= |a| {
        assert (a + b)[i] == b[i - |a|];
      }
    }
  }

  /** Under addition, shifting every element by d adds d per element to the fold of a prefix. */
  lemma {:induction false} FoldRangeShift(op: (int, int) -> int, s: seq<int>, d: int, k: int)
    requires IsAddition(op) && 0 <= k <= |s|
    ensures FoldRange(op, Shift(s, d), 0, k) == FoldRange(op, s, 0, k) + k * d
    decreases k
  {
    if k > 0 {
      FoldRangeShift(op, s, d, k - 1);
    }
  }

  /** Under addition, shifting every element by d adds |s| * d to the fold. */
  lemma FoldShift(op: (int, int) -> int, s: seq<int>, d: int)
    requires IsAddition(op)
    ensures Fold(op, Shift(s, d)) == Fold(op, s) + |s| * d
  {
    FoldRangeShift(op, s, d, |s|);
  }

  /** Folding two blocks after shifting both by d: the two folds combined, plus d per element. */
  lemma {:induction false} FoldShiftAppend(op: (int, int) -> int, a: seq<int>, b: seq<int>, d: int)
    requires IsMonoid(op) && (IsAddition(op) || d == 0)
    ensures Fold(op, Shift(a + b, d)) == op(Fold(op, a), Fold(op, b)) + (|a| + |b|) * d
  {
    FoldAppend(op, a, b);
    if IsAddition(op) {
      FoldShift(op, a + b, d);
    } else {
      ShiftZero(a + b);
    }
  }

  /**
   * query_point(i) is prefix(i) - prefix(i - 1); under addition that is
   * element i when i is a position, and 0 otherwise.
   */
  lemma PrefixDifference(op: (int, int) -> int, s: seq<int>, i: int)
    requires IsAddition(op)
    ensures FoldWindow(op, s, 0, i) - FoldWindow(op, s, 0, i - 1)
            == if 0 <= i < |s| then s[i] else 0
  {
  }
}
