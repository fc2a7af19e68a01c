# gx::segment_tree in Dafny

This project models `gx::segment_tree<T>`, an array-backed segment tree, and proves properties of the model. The tree lives in one flat vector `tree` of length `2*size_`:
- `size_` is the input length rounded up to a power of two.
- The elements sit at the leaves, slots `size_ .. 2*size_-1`. The leaves past the input hold `T{}`.
- Node `i` has children `2i` and `2i+1`. Every internal node holds `op` of its two children.
- Slot 0 is never used.

Two versions of the class are modelled:
- `src/range_queries/generic_segment_tree.h`, the current one. It can also run in lazy mode. There a second vector `lazy` holds amounts not yet added below a node. `update_range` adds a value to every element in a range. Queries push those amounts down as they descend.
- `src/range_queries/generic_segment_tree.cpp`, the older one. It has no lazy mode, and its query is `const`.

`T` is `int` and `T{}` is `0`. The operation `op` is a function value. It is required to be associative with `0` as a two-sided identity (`IsMonoid`). The lazy bookkeeping in the source always adds with `+`, whatever `op` is. So range updates are proved for `op == +`. For any monoid they are proved only for the update by `0` over the whole array that `make_lazy` issues.

Modules:
- `SegmentTreeMath` (segment_tree_math.dfy) holds the vocabulary on sequences:
  - `next_power_of_2`;
  - the monoid and addition predicates;
  - `FoldRange` and `Fold`;
  - `FoldWindow`, the fold over positions `lo..hi` clamped to the sequence, which is the meaning of a query;
  - `AddOnRange`, the meaning of a range update.
- `TreeLayout` (tree_layout.dfy) holds the implicit tree:
  - `Span`: node `n` covers positions `low..high`.
  - `InSubtree`: the subtree relation used to state frames.
  - `Elems`: the logical array that a `(tree, lazy)` pair stands for. A leaf is its slot plus its own pending amount. A pending amount at an internal node is added to every leaf below it.
  - `Cond`, the node invariant of lazy mode: `tree[k] == op(Eff(2k), Eff(2k+1))`, where `Eff(j) = tree[j] + width(j)*lazy[j]`.
  - `Recompute` and `PointWrite`: the ancestor loop of `update`, as a function.
- `LazyPropagation` and `LazyOperations` (lazy_propagation.dfy, lazy_operations.dfy) hold the step lemmas of the recursive descent, on sequence snapshots `(t, z)`:
  - `PushPending` is the propagation block.
  - `Pushed`, `RangeAdded` and `RangeQueried` relate the state before and after one call at one node.
- `LazySegmentTree` (lazy_segment_tree.dfy) holds the header's class. Its `tree` and `lazy` are arrays that the methods update in place, with `Valid()` and `Contents()` as the invariant and the abstraction.
- `PlainSegmentTree` (plain_segment_tree.dfy) holds the older class. Its `const` query is a function.

Where the comments in the source and the code disagree, the model follows the code:
- The doc comment of `update_range` says the elements are "updated to" the value, but the code adds the value. `UpdateRange` adds.
- `size_` is described as "the number of elements in the original array", but it is the padded power-of-two capacity.

## Model

| member | source | states |
|---|---|---|
| SegmentTreeMath.NextPowerOfTwo | src/range_queries/generic_segment_tree.h:14-16 | for x >= 2 the result is a power of two, at least x, whose half is below x |
| SegmentTreeMath.NextPowerOfTwoIsLeast | src/range_queries/generic_segment_tree.h:14-16 | no power of two at or above x is smaller than the result: it is the least such power |
| SegmentTreeMath.LeftChild | src/range_queries/generic_segment_tree.h:142 | left_child: slot 2*index, an even slot whose parent slot / 2 is index again |
| SegmentTreeMath.RightChild | src/range_queries/generic_segment_tree.h:143 | right_child: the odd slot next to the left child, with the same parent index |
| SegmentTreeMath.FoldRangeSplit | src/range_queries/generic_segment_tree.cpp:72-76 | for an associative op with identity, the fold of a..b is op of the folds of a..m and m..b, for every cut m |
| SegmentTreeMath.FoldAppend | src/range_queries/generic_segment_tree.cpp:72-76 | the fold of a concatenation is op of the two folds |
| SegmentTreeMath.FoldWindowInside | src/range_queries/generic_segment_tree.cpp:52-54 | for 0 <= l <= r < n the query window folds exactly the elements l..r |
| SegmentTreeMath.FoldWindowEmpty | src/range_queries/generic_segment_tree.cpp:68-70 | a query with l > r yields T{} |
| SegmentTreeMath.FoldWindowOutside | src/range_queries/generic_segment_tree.cpp:68-70 | a window lying wholly before or after the positions yields T{} |
| SegmentTreeMath.FoldWindowWhole | src/range_queries/generic_segment_tree.cpp:64-66 | a window covering every position folds the whole sequence |
| SegmentTreeMath.FoldWindowSplit | src/range_queries/generic_segment_tree.cpp:72-76 | the window over a + b is op of the window over a and the shifted window over b |
| SegmentTreeMath.FoldWindowSlices | src/range_queries/generic_segment_tree.cpp:72-76 | the same split, for two adjacent slices of one sequence |
| SegmentTreeMath.AddOnRange | src/range_queries/generic_segment_tree.h:43-52 | the reference range update: positions lo..hi (clamped) grow by d, every other position is unchanged, the length is kept |
| SegmentTreeMath.AddOnRangeAppend | src/range_queries/generic_segment_tree.h:103-106 | a range update over a + b is the update over a beside the shifted update over b |
| SegmentTreeMath.AddOnRangeExtremes | src/range_queries/generic_segment_tree.h:90-101 | a range covering everything adds d to every element, and a range missing everything changes nothing |
| SegmentTreeMath.AddOnRangePoint | src/range_queries/generic_segment_tree.h:50-52 | a one-position range update is a point write of s[i] + d |
| SegmentTreeMath.FoldRangeShift | src/range_queries/generic_segment_tree.h:96 | with +, raising each of k elements by d raises their sum by k*d |
| SegmentTreeMath.FoldShift | src/range_queries/generic_segment_tree.h:96 | the whole-sequence form: the sum rises by length*d |
| SegmentTreeMath.FoldShiftAppend | src/range_queries/generic_segment_tree.h:81 | the fold of two children's arrays raised by a pending d is op of their folds plus width*d (d is 0 unless op is +) |
| SegmentTreeMath.PrefixDifference | src/range_queries/generic_segment_tree.h:54-56 | with +, the prefix fold up to i minus the prefix fold up to i-1 is element i, or 0 outside the array |
| TreeLayout.RootSpan | src/range_queries/generic_segment_tree.h:70 | the root, node 1, covers positions 0..size-1 |
| TreeLayout.SpanFacts | src/range_queries/generic_segment_tree.h:111-141 | a node reached by the descent has index in 1..2*size-1 and width high-low+1; it is a leaf iff low == high, and then its slot is size+low |
| TreeLayout.SpanChildren | src/range_queries/generic_segment_tree.h:135-140 | the children of an internal node cover low..middle and middle+1..high, two halves of equal width |
| TreeLayout.SiblingsDisjoint | src/range_queries/generic_segment_tree.h:142-143 | no slot lies below both children 2n and 2n+1 |
| TreeLayout.RootCoversAll | src/range_queries/generic_segment_tree.h:142-143 | every slot from 1 up lies in the subtree of the root |
| TreeLayout.BuiltIsSubtreeOk | src/range_queries/generic_segment_tree.h:30-32 | with nothing pending, the lazy node invariant holds everywhere iff every internal node is op of its children |
| TreeLayout.BuiltUnique | src/range_queries/generic_segment_tree.h:26-33 | two built trees with the same leaves agree on every slot from 1 up, so the build is determined by the input |
| TreeLayout.Recompute | src/range_queries/generic_segment_tree.h:63-65 | the ancestor loop of update as a function on the tree: same length; RecomputeBuilt and RecomputeFrame state what it repairs and what it leaves alone |
| TreeLayout.PointWrite | src/range_queries/generic_segment_tree.h:61-66 | the whole of update as a function: the leaf write, then Recompute from the leaf's parent; same length; PointWriteBuilt, PointWriteFrame and PointWriteClean state its meaning |
| TreeLayout.RecomputeBuilt | src/range_queries/generic_segment_tree.h:63-65 | when only node i fails to combine, the pass from i up to the root makes every node combine and leaves the leaves alone |
| TreeLayout.RecomputeFrame | src/range_queries/generic_segment_tree.h:63-65 | the pass from i writes no slot other than i and its ancestors |
| TreeLayout.PointWriteBuilt | src/range_queries/generic_segment_tree.h:61-66 | on a built tree, update keeps it built and its leaves become the old leaves with index set to value |
| TreeLayout.PointWriteFrame | src/range_queries/generic_segment_tree.h:61-66 | update changes no slot other than the leaf of index and that leaf's ancestors |
| TreeLayout.PointWriteClean | src/range_queries/generic_segment_tree.h:61-66 | with nothing pending, after update the invariant holds and the logical array is the old one with index set to value |
| TreeLayout.ElemsZeroLazy | src/range_queries/generic_segment_tree.h:26-33 | with nothing pending, the logical array under a node is exactly its leaf slots |
| TreeLayout.ElemsFrame | src/range_queries/generic_segment_tree.h:142-143 | the logical array under n depends only on the slots of n's subtree |
| TreeLayout.EffIsFold | src/range_queries/generic_segment_tree.h:124-127 | under the invariant, a node's stored value plus width times its pending amount is the fold of its logical elements |
| TreeLayout.NodeIsFold | src/range_queries/generic_segment_tree.cpp:64-66 | in a built tree each node holds the fold of the leaves it covers |
| TreeLayout.NodeFoldRange | src/range_queries/generic_segment_tree.cpp:32-34 | the same fact as a fold over slot positions size+low .. size+high |
| LazyPropagation.PushDown | src/range_queries/generic_segment_tree.h:112-121 | the propagation step clears the node's pending amount, keeps its logical array and effective value, and keeps the invariant below it |
| LazyPropagation.ApplyAtNode | src/range_queries/generic_segment_tree.h:95-101 | adding width*d to a node and pending d at its children raises each of its logical elements by d and keeps the invariant |
| LazyPropagation.ApplyAtLeaf | src/range_queries/generic_segment_tree.h:96 | at a leaf the covered branch raises its one element by d |
| LazyPropagation.Recombine | src/range_queries/generic_segment_tree.h:107 | with + and nothing pending at the children, tree[node] = tree[2n] + tree[2n+1] restores the invariant at node |
| LazyPropagation.UpdateSplitElems | src/range_queries/generic_segment_tree.h:103-107 | if each half has received its part of the range update, the node's logical array has received the whole range update |
| LazyPropagation.QuerySplitFold | src/range_queries/generic_segment_tree.h:135-140 | op of the two halves' answers is the answer for the node |
| LazyPropagation.SplitFrames | src/range_queries/generic_segment_tree.h:104-105 | after the left call and then the right call, each child's subtree is untouched by the other call, and nothing outside the node changed |
| LazyOperations.PushPending | src/range_queries/generic_segment_tree.h:80-89 | the propagation block as a function on (tree, lazy), also run at h:113-120: lazy[node] ends at 0 and no tree slot other than node changes; the lemmas below state what it keeps |
| LazyOperations.PushPendingFrame | src/range_queries/generic_segment_tree.h:80-89 | the propagation block clears lazy[node], changes nothing outside the node's subtree, and changes nothing at all when lazy[node] is 0 |
| LazyOperations.PushPendingElems | src/range_queries/generic_segment_tree.h:80-89 | the propagation block keeps the node's logical array and effective value |
| LazyOperations.PushPendingInv | src/range_queries/generic_segment_tree.h:80-89 | the propagation block keeps the invariant below the node |
| LazyOperations.PushPendingSpec | src/range_queries/generic_segment_tree.h:112-121 | the propagation block satisfies Pushed: everything the callers rely on |
| LazyOperations.PushedClean | src/range_queries/generic_segment_tree.h:112-121 | when the lazy vector is all zero, propagation leaves both vectors as they were |
| LazyOperations.SplitStart | src/range_queries/generic_segment_tree.h:103-104 | in the split case the node is internal, both children get their spans, and the left child's subtree satisfies the invariant |
| LazyOperations.SecondChildOk | src/range_queries/generic_segment_tree.h:105 | the left call leaves the right child's subtree, and so its invariant, as it was |
| LazyOperations.AddDisjoint | src/range_queries/generic_segment_tree.h:91-93 | a node outside left..right gets only the propagation step, and that already is the range update over it: none of its elements changes, the invariant holds, nothing outside changes |
| LazyOperations.AddCovered | src/range_queries/generic_segment_tree.h:95-101 | a node inside left..right: every element below it grows by val, nothing is pending at it, the invariant holds, nothing outside changes |
| LazyOperations.AddJoin | src/range_queries/generic_segment_tree.h:103-107 | the two recursive updates and the recombination give the range update over the node |
| LazyOperations.AddAfterPush | src/range_queries/generic_segment_tree.h:79-108 | a range update stated from the pushed state is also one from the state on entry |
| LazyOperations.QueryCoveredStep | src/range_queries/generic_segment_tree.h:124-127 | after propagation, a covered node's stored value is the fold of its elements in the window, and the state still stands for the same array |
| LazyOperations.QueryDisjointStep | src/range_queries/generic_segment_tree.h:130-133 | a disjoint node answers T{}, the fold of its empty window |
| LazyOperations.QueryJoinStep | src/range_queries/generic_segment_tree.h:135-140 | op of the halves' answers answers for the node, and the array below it is unchanged |
| LazyOperations.QueryAfterPush | src/range_queries/generic_segment_tree.h:111-141 | a query answer stated from the pushed state is also one from the state on entry |
| LazySegmentTree.PointWriteKeepsPending | src/range_queries/generic_segment_tree.h:61-66 | on the state that the covered branch (h:95-100) leaves at the root after raising [0, 0, 0, 0] by 5, which stands for [5, 5, 5, 5], update(0, 1) gives the array [6, 5, 5, 5], stores 1 at the root while its children stand for 21, and so breaks the node invariant at the root |
| LazySegmentTree.SegmentTree.constructor | src/range_queries/generic_segment_tree.h:26-33 | size is next_power_of_2(n); the leaves are the input then zeros; slot 0 is 0; every internal node combines; not lazy; the array is the padded input |
| LazySegmentTree.SegmentTree.BuildInternal | src/range_queries/generic_segment_tree.h:30-32 | the build loop makes every internal node combine and leaves the leaves and slot 0 alone |
| LazySegmentTree.SegmentTree.MakeLazy | src/range_queries/generic_segment_tree.h:36-41 | the tree is the same as a plain build; lazy has 2*size zeros; the update by 0 changed nothing |
| LazySegmentTree.SegmentTree.UpdateRange | src/range_queries/generic_segment_tree.h:50-52 | the array becomes AddOnRange(old array, left, right, val); the invariant is kept; an update by 0 with nothing pending leaves both vectors as they were |
| LazySegmentTree.SegmentTree.QueryPoint | src/range_queries/generic_segment_tree.h:54-56 | the answer is the difference of two prefix folds, which with + is the element at index (0 outside); the array is unchanged |
| LazySegmentTree.SegmentTree.Update | src/range_queries/generic_segment_tree.h:61-66 | the new tree is PointWrite of the old; if nothing was pending, the invariant holds and the array is the old one with index set to value |
| LazySegmentTree.SegmentTree.WriteLeaf | src/range_queries/generic_segment_tree.h:62 | slot index+size becomes value, nothing else changes |
| LazySegmentTree.SegmentTree.RecomputeAncestors | src/range_queries/generic_segment_tree.h:63-65 | the loop leaves the tree as Recompute of the tree it started from |
| LazySegmentTree.SegmentTree.RecomputeNode | src/range_queries/generic_segment_tree.h:64 | node j becomes op of its children, nothing else changes |
| LazySegmentTree.SegmentTree.SetElement | src/range_queries/generic_segment_tree.h:61-66 | the corrected point overwrite: the array becomes the old one with index set to value, pending amounts or not |
| LazySegmentTree.SegmentTree.QueryRange | src/range_queries/generic_segment_tree.h:68-71 | the answer is the fold of the elements at max(left,0)..min(right,size-1); the array is unchanged; nothing moves when nothing is pending |
| LazySegmentTree.SegmentTree.Propagate | src/range_queries/generic_segment_tree.h:112-121 | the new (tree, lazy) pair is PushPending of the old |
| LazySegmentTree.SegmentTree.UpdateRangeLazy | src/range_queries/generic_segment_tree.h:79-108 | the states before and after satisfy RangeAdded: nothing pending at node, invariant below it, its elements in left..right raised by val, nothing outside changed |
| LazySegmentTree.SegmentTree.UpdateHalves | src/range_queries/generic_segment_tree.h:103-105 | the split case, from the pushed state: RangeAdded at node |
| LazySegmentTree.SegmentTree.UpdateRightHalf | src/range_queries/generic_segment_tree.h:105-107 | the right call and the recombination complete RangeAdded at node from the state before the left call |
| LazySegmentTree.SegmentTree.RecursiveQueryRange | src/range_queries/generic_segment_tree.h:111-141 | the states before and after satisfy RangeQueried: the answer is the fold of the node's elements in the window, the array below it is unchanged, the invariant holds, nothing outside changed |
| LazySegmentTree.SegmentTree.QueryHalves | src/range_queries/generic_segment_tree.h:135-138 | the split case, from the pushed state: RangeQueried at node |
| LazySegmentTree.SegmentTree.QueryRightHalf | src/range_queries/generic_segment_tree.h:138-140 | the right call and op complete RangeQueried at node from the state before the left call |
| PlainSegmentTree.SegmentTree.constructor | src/range_queries/generic_segment_tree.cpp:26-35 | size is next_power_of_2(n); the leaves are the input then zeros; slot 0 is 0; every internal node combines |
| PlainSegmentTree.SegmentTree.MakeLazy | src/range_queries/generic_segment_tree.cpp:40 | lazy becomes size zeros; the tree and the array are unchanged |
| PlainSegmentTree.SegmentTree.Update | src/range_queries/generic_segment_tree.cpp:45-50 | every internal node combines again; the leaves are the old ones with index set to value; only the leaf and its ancestors change |
| PlainSegmentTree.SegmentTree.QueryRange | src/range_queries/generic_segment_tree.cpp:52-54 | the answer is the fold of the elements at max(left,0)..min(right,size-1) |
| PlainSegmentTree.RecursiveQueryRange | src/range_queries/generic_segment_tree.cpp:61-77 | the answer for a node is the fold of its leaves that lie in left..right |
| PlainSegmentTree.QueryCovered | src/range_queries/generic_segment_tree.cpp:64-66 | a covered node's stored value is that answer |
| PlainSegmentTree.QueryDisjoint | src/range_queries/generic_segment_tree.cpp:68-70 | a disjoint node's answer is T{} |
| PlainSegmentTree.QueryJoin | src/range_queries/generic_segment_tree.cpp:72-76 | op of the two halves' answers is the node's answer |

## Left out

- `T` is `int` and `op` is a Dafny function value. The generic type and the `std::function` wrapper are not modelled.
- Integers are unbounded. 32-bit overflow of the elements, of `(end - start + 1) * val`, and of `1 << (32 - clz(x - 1))` for inputs above 2^31 is not modelled.
- The unused constant `int_max` is not modelled.
- NextPowerOfTwo: requires x >= 2. For a one-element input the source evaluates `__builtin_clz(0)`, which is undefined. For an empty input it shifts by 32. So both constructors require at least two elements.
- NextPowerOfTwo: is computed by counting bits rather than with `__builtin_clz`. The result is specified by its properties.
- LazySegmentTree.SegmentTree.UpdateRange: requires the lazy vector (length 2*size). On a tree that is not lazy, the source reads `lazy[node]` out of bounds.
- LazySegmentTree.SegmentTree.UpdateRange: requires op to be +, except for the update by 0 over the whole array. The bookkeeping adds with + whatever op is. So there is no correct meaning to prove for max or xor.
- LazySegmentTree.SegmentTree.QueryPoint: its element-reading promise is stated only for op == +. For other ops it states only the difference of the two prefix folds.
- LazySegmentTree.SegmentTree.Update: its promise about the logical array is stated only when nothing is pending. With pending amounts the source gives a wrong result; see Findings.
- LazySegmentTree.SegmentTree.QueryRange: requires the invariant. Queries on a lazy tree with op other than + are modelled only while nothing is pending, which is the only state `make_lazy` leaves for such ops.
- PlainSegmentTree.SegmentTree.MakeLazy: models the older file's resize to `size_` entries. Nothing in that file reads `lazy`.
- The tests over max and xor (tests/max_segment_tree.cc, tests/xor_segment_tree.cc) are not reproduced:
  - max with identity 0 is not a monoid over all integers, because negatives break the identity law;
  - xor is not defined on `int` here.
- The recursion with the right child in its own method is the same call sequence as the source, split for proof size. Evaluation order of `op`'s two arguments in the query is left to right in the model. C++ leaves it unspecified; the two calls touch disjoint subtrees, so the result is the same.
- Copying and moving of the object, the deleted default constructor, and the destructor are not modelled.

## Findings

| source | as written | input that shows it | evidently intended | confidence | as-written member | corrected member |
|---|---|---|---|---|---|---|
| src/range_queries/generic_segment_tree.h:61-66 | `update` writes the leaf and recomputes the ancestors from their children, but leaves the pending amounts of the lazy vector in place above the leaf | `make_lazy({0,0,0,0}, +)`, `update_range(0, 3, 5)` (tree [0,20,0,0,0,0,0,0], lazy [0,0,5,5,0,0,0,0]), then `update(0, 1)`: the array reads [6,5,5,5]; the root stores 1 while its children stand for 21, so `query_range(0, 3)` answers 1 while the point reads sum to 21 | the array reads [1,5,5,5], and range and point reads agree | not executed; the counterexample is proved in the model | LazySegmentTree.PointWriteKeepsPending | LazySegmentTree.SegmentTree.SetElement |
