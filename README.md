# KD-tree over integer points, in Dafny

This project models the core of the KDTree library (`KDTree/`) and proves
properties of the model. The library does three things:

- It builds a KD-tree from a collection of vectors. Every vector is cut or
  padded to `numberAxis` coordinates, duplicates are dropped, and the tree is
  built by recursive median splitting: sort the slice on the current axis,
  make element `len / 2` the node, and recurse on both halves with the next
  axis.
- It answers nearest-neighbour queries in two ways:
  - `FindNearestRecursion` works top down and prunes far subtrees.
  - `FindNearest` works bottom up. It descends to a leaf, climbs through
    parents, and jumps into unvisited sibling branches.
- Both searches report `NodeVisited`, `BestNodeChanged` and
  `SwitchedSiblingBranch` events.

Coordinates are `int`, as in the library's own `Program.cs`. Squared
distances are exact natural numbers. The `double.MaxValue` initial best
distance is `None`.

A node is identified by its position: the sequence of `Left`/`Right` steps
from the root (`KDTreeNode.Pos`). With positions, `Parent` is the position
without its last step, and the sibling is the position with its last step
flipped. The `Parent`, `Left` and `Right` links therefore agree by
construction (`KDTreeNode.ParentLink`).

Exceptions are `Err` values of a `Result`:

- an empty input
- a negative axis count
- a target of the wrong length
- a query on a tree of zero axes, which reads `target[0]`

Events are returned as a sequence, in the order they are raised.

Files:

- `Wrappers.dfy`: `Option` and `Result`.
- `ArrayIndexComparer.dfy`: the per-axis comparer the sort uses.
- `ArrayEqualityComparer.dfy`: whole-array equality and hashing, used by
  `Distinct`.
- `KDTreeNode.dfy`: the tree datatype, its accessors, and construction by
  `Create`/`CreateRecursion`.
- `KDTree.dfy`: the constructor pipeline, the distance functions, the
  descent `FindLeafByAsix`, both searches, and their event logs.

The recursive search is a method, `FindNearestRecursionFrom`. It is proved
equal to a specification function, `SearchFrom`, and lemmas about
`SearchFrom` give exactness and the event-log properties.

The iterative search is a method with a `while` loop over a `visited` set.
Its invariant is `Searching`:

- every branch left aside on the path to the current node is visited, or is
  unvisited with nothing below it visited;
- every unvisited branch was left aside either because it was the far side
  of its split or because it was empty;
- the best candidate is no farther than every visited node;
- the events log the visited nodes.

When every descent ends at a true leaf, the invariant also covers every
finished subtree. That holds on full trees (every node has no child or
two). It also holds for the corrected descent. Exactness follows from it.

## Model

| member | source | states |
|---|---|---|
| ArrayIndexComparer.Compare | KDTree/ArrayIndexComparer.cs:6-13 | Null sorts before every array and two nulls tie. Two arrays compare by the sign of their coordinates at `index` alone, with both directions of each case. |
| ArrayIndexComparer.CompareAntisymmetric | KDTree/ArrayIndexComparer.cs:6-13 | Swapping the arguments negates the result. |
| ArrayIndexComparer.CompareTotalPreorder | KDTree/ArrayIndexComparer.cs:6-13 | "Compares at most 0" is reflexive, total and transitive. |
| ArrayIndexComparer.CompareIgnoresOtherAxes | KDTree/ArrayIndexComparer.cs:12 | Arrays that agree at `index` tie even when they differ elsewhere. Changing any other coordinate of either array never changes the result. |
| ArrayEqualityComparer.SequenceEqual | KDTree/ArrayEqualityComparer.cs:14 | The length check and the element-by-element walk hold exactly when the sequences are equal. |
| ArrayEqualityComparer.Equals | KDTree/ArrayEqualityComparer.cs:10-15 | True exactly when both arrays are non-null, of equal length, and equal at every index. |
| ArrayEqualityComparer.NullEqualsNothing | KDTree/ArrayEqualityComparer.cs:12 | A null array equals nothing, not even another null. |
| ArrayEqualityComparer.EqualsIsOrderSensitive | KDTree/ArrayEqualityComparer.cs:14 | `[1, 2]` is not equal to `[2, 1]`, and is equal to `[1, 2]`. |
| ArrayEqualityComparer.EqualsIsEquivalence | KDTree/ArrayEqualityComparer.cs:14 | On non-null arrays, equality is reflexive, symmetric and transitive. |
| ArrayEqualityComparer.GetHashCode | KDTree/ArrayEqualityComparer.cs:17-25 | The loop adds every element from first to last, then finalises. The result is the finalised fold of the hasher over the array. |
| ArrayEqualityComparer.EqualArraysHashEqually | KDTree/ArrayEqualityComparer.cs:10-25 | Arrays the comparer calls equal get equal hash codes. |
| KDTreeNode.ParentLink | KDTree/KDTreeNode.cs:57-60 | Every non-root node has a parent node. It sits in the parent's slot named by its last step, and its sibling sits in the other slot. |
| KDTreeNode.Parent | KDTree/KDTreeNode.cs:16 | Null exactly for the root. Otherwise the node's position is its parent's position extended by one step. |
| KDTreeNode.RootIsWholeTree | KDTree/KDTreeNode.cs:22 | `IsRoot` holds exactly for the node that is the whole tree. |
| KDTreeNode.SplitsAtCoordinate | KDTree/KDTreeNode.cs:25 | On a node's own axis, its indexer value is at least every left point's coordinate and at most every right point's coordinate. |
| KDTreeNode.LeafHasNoChildPositions | KDTree/KDTreeNode.cs:23 | `IsLeaf` holds exactly when neither child position is a node. |
| KDTreeNode.PointsCountNodes | KDTree/KDTreeNode.cs:39-60 | The subtree stores as many points as it has nodes. |
| KDTreeNode.Insert | KDTree/KDTreeNode.cs:55 | Inserting into an ascending slice gives an ascending permutation of the slice plus the point. |
| KDTreeNode.SortByAxis | KDTree/KDTreeNode.cs:55 | `Array.Sort` with the axis comparer gives a permutation of the slice, ascending on the axis. |
| KDTreeNode.CreateRecursion | KDTree/KDTreeNode.cs:36-63 | The subtree stores exactly the slice's multiset of points. It is null exactly for an empty slice, and its root splits on `axis`. |
| KDTreeNode.Create | KDTree/KDTreeNode.cs:27-34 | For a non-empty slice, the root is non-null and stores exactly the slice's points. |
| KDTreeNode.CreateMedian | KDTree/KDTreeNode.cs:55-60 | The node is an input point. `len / 2` points, none above it on its axis, go left. The other `len - len / 2 - 1` points, none below it, go right. |
| KDTreeNode.CreateWellFormed | KDTree/KDTreeNode.cs:55-60 | The tree satisfies the partition invariant at every node: left subtree at or below, right subtree at or above, on the node's axis. |
| KDTreeNode.CreateAxisByDepth | KDTree/KDTreeNode.cs:59-60 | The node at depth `d` splits on axis `(axis + d) % maxAxis`. |
| KDTreeNode.CreateBalanced | KDTree/KDTreeNode.cs:56-60 | Every node of `n` nodes has `n / 2` nodes on its left, and the tree has as many nodes as the slice has points. |
| KDTreeNode.BalancedHeight | KDTree/KDTreeNode.cs:56-60 | A balanced tree of `n` nodes is at most `floor(log2 n) + 1` high. |
| KDTreeNode.BalancedPowerIsFull | KDTree/KDTreeNode.cs:56-60 | A balanced tree of `2^h - 1` nodes is full. |
| KDTree.Normalize | KDTree/KDTree.cs:22-23 | The result has exactly `numberAxis` coordinates: the input's coordinates first, then `zeroValue` padding. |
| KDTree.Distinct | KDTree/KDTree.cs:24 | No two kept points are equal under the comparer. The kept points are exactly the input points. |
| KDTree.Construct | KDTree/KDTree.cs:17-28 | Empty input gives `EmptyVectors`. A negative axis count gives `NegativeAxisCount`. Otherwise the result is a tree of `numberAxis` axes with a root. |
| KDTree.ConstructStoresEachVectorOnce | KDTree/KDTree.cs:22-27 | Every normalised input vector is stored, every stored point is a normalised input vector, and no point is stored twice. |
| KDTree.ConstructIsValid | KDTree/KDTree.cs:17-28 | The built tree satisfies the partition invariant and is balanced. The node at depth `d` splits on axis `d % numberAxis`. |
| KDTree.CalcDistanceSquare | KDTree/KDTree.cs:177-187 | The loop's accumulator is the sum of squared differences over the first `axisCount` coordinates. |
| KDTree.DistanceSquareZeroIff | KDTree/KDTree.cs:177-187 | The squared distance between points of equal length is zero exactly when they are equal. |
| KDTree.CalcDistanceSquareByAxis | KDTree/KDTree.cs:170-175 | The squared difference on one axis is zero exactly when the two points agree on that axis. Its bound by the full distance is `KDTree.AxisDistanceBelowDistance`. |
| KDTree.NearSide | KDTree/KDTree.cs:67-74 | The near side is the left child exactly when the index comparer that construction sorts by ranks the target strictly before the node on the node's axis. The pruning bound on the far side is `KDTree.FarSideBound`. |
| KDTree.AxisDistanceBelowDistance | KDTree/KDTree.cs:170-187 | The squared difference on any one axis is at most the full squared distance. |
| KDTree.FarSideBound | KDTree/KDTree.cs:84-86 | Every point of a node's far subtree is at least the node's axis distance from the target. |
| KDTree.FarSidePruned | KDTree/KDTree.cs:82-91 | When the axis distance is no less than the best distance, no point on the far side is closer than the best. |
| KDTree.FindLeafByAxis | KDTree/KDTree.cs:148-167 | The result is a node under the start, reached by near steps only, and its near child is null. When the start's near child is null, the result is the start. |
| KDTree.FindTrueLeaf | KDTree/KDTree.cs:148-167 | The corrected descent goes on into the only child of a node. It ends at a true leaf under the start, and each step is a near step or a step past an empty branch. |
| KDTree.FindNearestRecursionFrom | KDTree/KDTree.cs:50-92 | The private recursion computes `SearchFrom`: the new best candidate and the events of the search from the node. |
| KDTree.SearchFromFinds | KDTree/KDTree.cs:50-92 | The best candidate is a node at its true distance. The best distance never grows, and on a tie the earlier best is kept. No point of the searched subtree is closer than the result. |
| KDTree.SearchFromLogged | KDTree/KDTree.cs:50-92 | The events start with the visit of the node. Each `BestNodeChanged` directly follows the visit of its node. Each switch happens only when the axis distance is below the best distance. Every visited node lies in the subtree and is visited once. |
| KDTree.SearchFromNamesBest | KDTree/KDTree.cs:57-62 | The last `BestNodeChanged` names the resulting best node. With no such event, the best is unchanged. |
| KDTree.FindNearestRecursion | KDTree/KDTree.cs:36-48 | A target of the wrong length gives an error with no events. With zero axes the root is visited and made best, and then `IndexOutOfRange` follows. Otherwise the result is a nearest neighbour among all stored points, and the last best-node event names it. |
| KDTree.Descend | KDTree/KDTree.cs:106 | A descent from a node, as written or corrected. As written it takes near steps only and stops at the first node whose near child is null. Corrected, it ends at a true leaf. As written it also ends at a leaf when the tree is full. |
| KDTree.SearchStarts | KDTree/KDTree.cs:102-106 | After the first descent, with nothing visited, no best and no events, the loop invariant holds. |
| KDTree.NodeLogged | KDTree/KDTree.cs:110-117 | Logging the visit of an unvisited node keeps the log well ordered, free of repeats and justified, and its visits equal the visited set. |
| KDTree.VisitStep | KDTree/KDTree.cs:109-118 | Visiting the current node keeps every invariant. The best becomes the node exactly on a strictly smaller distance. |
| KDTree.RootStep | KDTree/KDTree.cs:120-121 | When the root has been visited, the best is closest among the visited nodes. When every descent reached a leaf, it is closest in the whole tree. |
| KDTree.ClimbStep | KDTree/KDTree.cs:123-138 | Climbing to the parent keeps the invariant when the sibling is visited, null, or pruned by the parent's split. |
| KDTree.JumpStep | KDTree/KDTree.cs:125-135 | Logging the switch and jumping to the leaf of a descent from the unvisited sibling keeps the invariant. |
| KDTree.VisitNode | KDTree/KDTree.cs:109-118 | The visit appends `NodeVisited`, plus `BestNodeChanged` exactly when the distance is strictly below the best, and moves to the state after the visit. |
| KDTree.ClimbOrSwitch | KDTree/KDTree.cs:123-138 | When the parent's other child is an unvisited node and the parent's axis distance is below the best distance, it logs the switch with the best distance and moves to where a descent into that sibling stops: a true leaf when corrected, the first node with a null near child as written. Otherwise it climbs to the parent and logs nothing. Either way the loop invariant holds again. |
| KDTree.ClimbingSearch | KDTree/KDTree.cs:97-143 | The loop always ends. Wrong-length and zero-axis targets give errors. Otherwise the result is a node closest among the visited nodes, each visited once. It is a nearest neighbour whenever every descent ends at a leaf. |
| KDTree.FindNearest | KDTree/KDTree.cs:97-143 | The as-written search always ends in a node closest among those it visited. It is a nearest neighbour on full trees. When the first descent stops at the root, the root is the result. |
| KDTree.FindNearestCorrected | KDTree/KDTree.cs:97-143 | With the corrected descent, the result is a nearest neighbour on every valid tree. |
| KDTree.NearestAreEquallyFar | KDTree/KDTree.cs:36-48 | Two nearest neighbours are equally far from the target. So on full trees both searches return nodes at the same distance. |
| KDTree.SmallTree | KDTree/KDTree.cs:17-28 | The tree built from `[[0, 50], [10, 0]]` on two axes is the root `[10, 0]` with the single left child `[0, 50]`. |
| KDTree.FindNearestMissesNearest | KDTree/KDTree.cs:148-167 | On that tree with target `[10, 50]`, `FindNearest` returns the root, at squared distance 2500, and this is not a nearest neighbour: `[0, 50]` is at 100. |

## Left out

- Floating point: the source accumulates distances in `double` after `Convert.ToDouble`. The model uses exact integer squared distances, so rounding and `int` overflow of `x[i] - y[i]` are not modelled.
- `double.MaxValue` as the initial best distance is modelled as "no best yet". In the source no real distance reaches it: coordinates are 32-bit `int`, so each squared difference is below 2^64 and a sum over any realistic number of axes stays far below `double.MaxValue` (about 1.8 × 10^308). In the model coordinates are unbounded, and the floating-point line above covers the difference.
- Event handlers are not modelled. The events are returned as a sequence in the order they are raised, and handler side effects are out of scope.
- `System.HashCode` internals and their per-process random seed: `ArrayEqualityComparer.GetHashCode` takes the accumulator as a parameter (`Hasher`).
- `Array.Sort`'s introsort and its unstable order of ties. `KDTreeNode.SortByAxis` is one ascending permutation. Every construction lemma uses only "ascending permutation", so it holds whatever order the tie-breaks give.
- KDTreeNode.CreateRecursion: it is modelled on values. The in-place sort of the caller's array and the private `Left`/`Right` setters become a pure function that returns the subtree. The aliasing of the input array and the later mutation of its order are not captured.
- The `comparerDict` cache in `Create` is not modelled. It only reuses comparer objects and changes no result.
- Node identity: nodes are identified by position rather than by reference. `visited` is a set of positions, equivalent to the source's `HashSet` of node references because each position holds one node.
- The generic `INumber<T>` parameter: only `int` is modelled.
- `ToString` of a node is not modelled. It is display only.
- KDTree.FindNearest: exactness is stated only for full trees, because on other trees the source's search is not exact (see Findings).
- The interactive demo (`KDTreeDemo/`) and `Program.cs` are not part of this model.

## Findings

| source | as written | input that shows it | evidently intended | confidence | as-written member | corrected member |
|---|---|---|---|---|---|---|
| KDTree/KDTree.cs:153-163 | `FindLeafByAsix` stops at the first node whose child on the target's side is null, even when the other child exists. `FindNearest` only ever looks at the other slot of a node's parent, so that child is never examined. `FindNearest` is exact only on full trees. | vectors `[[0, 50], [10, 0]]`, `numberAxis` 2, `zeroValue` 0, target `[10, 50]`: `FindNearest` returns `[10, 0]` at squared distance 2500, although `[0, 50]` is at 100. `FindNearestRecursion` returns `[0, 50]`. | Both searches return a nearest neighbour on every tree. That is the case when the descent goes on into the only child of a node. | high (not executed) | KDTree.FindNearestMissesNearest | KDTree.FindNearestCorrected |

The source documents `FindNearestRecursion` as the recursive
implementation of `FindNearest` (KDTree/KDTree.cs:33-35). It documents
`FindNearest` as finding the node nearest to `targetValue`
(KDTree/KDTree.cs:94-96). The code does not do that on trees that are not
full, as the row above shows; the model follows the code. With `2^h - 1` distinct points
the built tree is full (`KDTreeNode.BalancedPowerIsFull`). On such trees
`KDTree.FindNearest` is exact. By `KDTree.NearestAreEquallyFar` it then finds
the same nearest distance as `KDTree.FindNearestRecursion`.
