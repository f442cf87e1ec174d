/** The KD-tree over `int` coordinates (KDTree/KDTree.cs): construction from
    raw vectors, squared distances, and the two nearest-neighbour searches
    with the events they report to observers. */
module KDTree {
  import opened Wrappers
  import opened KDTreeNode
  import ArrayEqualityComparer
  import ArrayIndexComparer

  /** The exceptions the source lets escape. */
  datatype Error =
    | EmptyVectors          // the constructor got no vectors
    | NegativeAxisCount     // Enumerable.Repeat refuses a negative count
    | TargetLengthMismatch  // a query target does not have one coordinate per axis
    | IndexOutOfRange       // a query on a tree of zero axes reads target[0]

  /** A built tree: its root and its fixed number of axes. */
  datatype KDTree = KDTree(root: Tree, axisCount: nat)

  // ---------------------------------------------------------------------
  // Construction

  function Repeat(x: int, n: nat): (r: seq<int>)
    ensures |r| == n && forall i | 0 <= i < n :: r[i] == x
  {
    seq(n, _ => x)
  }

  /** `set.Concat(emptyVector).Take(numberAxis)`: the vector cut or padded
      with `zeroValue` to exactly `numberAxis` coordinates. */
  function Normalize(v: seq<int>, numberAxis: nat, zeroValue: int): (r: Point)
    ensures |r| == numberAxis
    ensures forall i | 0 <= i < numberAxis :: r[i] == if i < |v| then v[i] else zeroValue
  {
    (v + Repeat(zeroValue, numberAxis))[..numberAxis]
  }

  /** LINQ `Distinct` with the array comparer: each point is kept the first
      time it appears, in input order. */
  function Distinct(s: seq<Point>): (r: seq<Point>)
    ensures forall i, j | 0 <= i < j < |r| :: !ArrayEqualityComparer.Equals(Some(r[i]), Some(r[j]))
    ensures forall v :: v in r <==> v in s
    ensures |r| <= |s|
    decreases |s|
  {
    if s == [] then []
    else
      var seen := Distinct(s[..|s| - 1]);
      var last := s[|s| - 1];
      assert forall v :: v in s <==> v in s[..|s| - 1] || v == last by {
        assert s == s[..|s| - 1] + [last];
      }
      if exists i | 0 <= i < |seen| :: ArrayEqualityComparer.Equals(Some(seen[i]), Some(last)) then seen
      else seen + [last]
  }

  /** The constructor `KDTree(vectors, numberAxis, zeroValue)`: refuses an
      empty input, normalises every vector, drops duplicates and builds the
      tree from axis 0. */
  function Construct(vectors: seq<seq<int>>, numberAxis: int, zeroValue: int): (r: Result<KDTree, Error>)
    ensures vectors == [] ==> r == Err(EmptyVectors)
    ensures vectors != [] && numberAxis < 0 ==> r == Err(NegativeAxisCount)
    ensures vectors != [] && numberAxis >= 0 ==>
              r.Ok? && r.value.axisCount == numberAxis && r.value.root.Node?
  {
    if vectors == [] then Err(EmptyVectors)
    else if numberAxis < 0 then Err(NegativeAxisCount)
    else
      var distinct := Distinct(EqualLength(vectors, numberAxis, zeroValue));
      DistinctIsBuildable(vectors, numberAxis, zeroValue);
      Ok(KDTree(Create(0, numberAxis, distinct), numberAxis))
  }

  /** The normalised vectors, in input order. */
  function EqualLength(vectors: seq<seq<int>>, numberAxis: nat, zeroValue: int): (r: seq<Point>)
    ensures |r| == |vectors|
    ensures forall i | 0 <= i < |r| :: r[i] == Normalize(vectors[i], numberAxis, zeroValue)
  {
    seq(|vectors|, i requires 0 <= i < |vectors| => Normalize(vectors[i], numberAxis, zeroValue))
  }

  /** What `Create` needs of the distinct points: one at least, all of
      `numberAxis` coordinates, and a single one when there are no axes. */
  lemma DistinctIsBuildable(vectors: seq<seq<int>>, numberAxis: nat, zeroValue: int)
    requires vectors != []
    ensures var distinct := Distinct(EqualLength(vectors, numberAxis, zeroValue));
      && distinct != []
      && AllOfLength(distinct, numberAxis)
      && (|distinct| >= 2 ==> 0 < numberAxis)
  {
    var normalised := EqualLength(vectors, numberAxis, zeroValue);
    var distinct := Distinct(normalised);
    assert normalised[0] in normalised;
    forall v <- distinct ensures |v| == numberAxis {
      var i :| 0 <= i < |normalised| && normalised[i] == v;
    }
    if numberAxis == 0 {
      EmptyPointsAreEqual(distinct);
    }
  }

  lemma EmptyPointsAreEqual(s: seq<Point>)
    requires forall v <- s :: v == []
    ensures |s| >= 2 ==> ArrayEqualityComparer.Equals(Some(s[0]), Some(s[1]))
  {
    if |s| >= 2 {
      assert s[0] in s && s[1] in s;
    }
  }

  /** No point is stored twice. */
  lemma {:induction false} PairwiseDistinctCountsOnce(s: seq<Point>)
    requires forall i, j | 0 <= i < j < |s| :: s[i] != s[j]
    ensures forall u :: multiset(s)[u] <= 1
    decreases |s|
  {
    if s != [] {
      var init := s[..|s| - 1];
      PairwiseDistinctCountsOnce(init);
      assert s == init + [s[|s| - 1]];
      assert s[|s| - 1] !in init;
    }
  }

  /** The built tree stores exactly the normalised input vectors, each once:
      every input vector, cut or padded to `numberAxis` coordinates, is a
      stored point, every stored point comes from an input vector, and no
      point is stored twice. */
  lemma ConstructStoresEachVectorOnce(vectors: seq<seq<int>>, numberAxis: int, zeroValue: int)
    requires vectors != [] && numberAxis >= 0
    ensures var tree := Construct(vectors, numberAxis, zeroValue).value;
      && (forall v <- vectors :: Normalize(v, numberAxis, zeroValue) in Points(tree.root))
      && (forall u | u in Points(tree.root) :: exists v <- vectors :: u == Normalize(v, numberAxis, zeroValue))
      && (forall u :: Points(tree.root)[u] <= 1)
  {
    var normalised := EqualLength(vectors, numberAxis, zeroValue);
    var distinct := Distinct(normalised);
    DistinctIsBuildable(vectors, numberAxis, zeroValue);
    var tree := Construct(vectors, numberAxis, zeroValue).value;
    assert Points(tree.root) == multiset(distinct);
    forall v <- vectors ensures Normalize(v, numberAxis, zeroValue) in Points(tree.root) {
      var i :| 0 <= i < |vectors| && vectors[i] == v;
      assert normalised[i] in normalised;
    }
    forall u | u in Points(tree.root) ensures exists v <- vectors :: u == Normalize(v, numberAxis, zeroValue) {
      assert u in distinct;
      var i :| 0 <= i < |normalised| && normalised[i] == u;
      assert vectors[i] in vectors;
    }
    PairwiseDistinctCountsOnce(distinct);
  }

  /** The invariant of every constructed tree: a root exists and, when there
      are axes, the KD-tree invariant holds; a tree of no axes is the single
      empty point. */
  ghost predicate Valid(tree: KDTree)
  {
    && tree.root.Node?
    && (tree.axisCount > 0 ==> WellFormed(tree.root, tree.axisCount))
    && (tree.axisCount == 0 ==> tree.root == Node([], 0, Nil, Nil))
  }

  /** The constructor builds a valid, balanced tree whose node at depth `d`
      splits on axis `d % numberAxis`. */
  lemma ConstructIsValid(vectors: seq<seq<int>>, numberAxis: int, zeroValue: int)
    requires vectors != [] && numberAxis >= 0
    ensures var tree := Construct(vectors, numberAxis, zeroValue).value;
      && Valid(tree)
      && Balanced(tree.root)
      && (numberAxis > 0 ==> forall p | IsNode(tree.root, p) :: At(tree.root, p).axis == |p| % numberAxis)
  {
    var distinct := Distinct(EqualLength(vectors, numberAxis, zeroValue));
    DistinctIsBuildable(vectors, numberAxis, zeroValue);
    var tree := Construct(vectors, numberAxis, zeroValue).value;
    assert tree.root == CreateRecursion(0, numberAxis, distinct);
    CreateBalanced(0, numberAxis, distinct);
    if numberAxis > 0 {
      CreateWellFormed(0, numberAxis, distinct);
      forall p | IsNode(tree.root, p) ensures At(tree.root, p).axis == |p| % numberAxis {
        CreateAxisByDepth(0, numberAxis, distinct, p);
      }
    } else {
      assert distinct == [distinct[0]] && distinct[0] == [];
    }
  }

  // ---------------------------------------------------------------------
  // Distances

  function Square(x: int): nat
  {
    if x < 0 then (-x) * (-x) else x * x
  }

  /** The squared Euclidean distance: the sum, over the axes both points
      have, of the squared coordinate differences. */
  function DistanceSquare(x: Point, y: Point): nat
    decreases |x|
  {
    if x == [] || y == [] then 0 else Square(x[0] - y[0]) + DistanceSquare(x[1..], y[1..])
  }

  lemma {:induction false} DistanceSquareSnoc(x: Point, y: Point)
    requires |x| == |y| > 0
    ensures DistanceSquare(x, y) == DistanceSquare(x[..|x| - 1], y[..|y| - 1]) + Square(x[|x| - 1] - y[|y| - 1])
    decreases |x|
  {
    if |x| > 1 {
      DistanceSquareSnoc(x[1..], y[1..]);
      assert x[1..][..|x| - 2] == x[..|x| - 1][1..];
      assert y[1..][..|y| - 2] == y[..|y| - 1][1..];
    }
  }

  /** `CalcDistanceSquareByAxis`: the squared difference on one axis. */
  function CalcDistanceSquareByAxis(x: Point, y: Point, axis: nat): (r: nat)
    requires axis < |x| && axis < |y|
    ensures r == 0 <==> x[axis] == y[axis]
  {
    Square(x[axis] - y[axis])
  }

  /** `CalcDistanceSquare`: accumulates the squared differences of the first
      `axisCount` coordinates. */
  method CalcDistanceSquare(axisCount: nat, x: Point, y: Point) returns (distanceSquare: nat)
    requires axisCount <= |x| && axisCount <= |y|
    ensures distanceSquare == DistanceSquare(x[..axisCount], y[..axisCount])
  {
    distanceSquare := 0;
    for indexAxis := 0 to axisCount
      invariant distanceSquare == DistanceSquare(x[..indexAxis], y[..indexAxis])
    {
      DistanceSquareSnoc(x[..indexAxis + 1], y[..indexAxis + 1]);
      assert x[..indexAxis + 1][..indexAxis] == x[..indexAxis];
      assert y[..indexAxis + 1][..indexAxis] == y[..indexAxis];
      distanceSquare := distanceSquare + Square(x[indexAxis] - y[indexAxis]);
    }
  }

  /** A squared distance is zero exactly for equal points. */
  lemma {:induction false} DistanceSquareZeroIff(x: Point, y: Point)
    requires |x| == |y|
    ensures DistanceSquare(x, y) == 0 <==> x == y
    decreases |x|
  {
    if x != [] {
      DistanceSquareZeroIff(x[1..], y[1..]);
      assert x == [x[0]] + x[1..] && y == [y[0]] + y[1..];
    }
  }

  /** The distance on one axis never exceeds the full squared distance. */
  lemma {:induction false} AxisDistanceBelowDistance(x: Point, y: Point, axis: nat)
    requires |x| == |y| && axis < |x|
    ensures CalcDistanceSquareByAxis(x, y, axis) <= DistanceSquare(x, y)
    decreases |x|
  {
    if axis > 0 {
      AxisDistanceBelowDistance(x[1..], y[1..], axis - 1);
    }
  }

  lemma SquareMonotone(a: int, b: int)
    requires 0 <= a <= b
    ensures Square(a) <= Square(b)
  {
    assert a * a <= a * b <= b * b;
  }

  // ---------------------------------------------------------------------
  // Searching: vocabulary

  /** What the observers are told, in order. A node is named by its position. */
  datatype Event =
    | NodeVisited(node: Pos)
    | BestNodeChanged(node: Pos)
    | SwitchedSiblingBranch(node: Pos, bestDistance: nat)

  /** The best node found so far, with its squared distance to the target.
      Before the first visit there is none (`double.MaxValue`). */
  datatype Candidate = Candidate(node: Pos, distance: nat)

  /** A query that gets past the argument checks. */
  ghost predicate Searchable(tree: KDTree, target: Point)
  {
    Valid(tree) && tree.axisCount > 0 && |target| == tree.axisCount
  }

  /** The node at `p` exists and its split can be read from the target. */
  ghost predicate Splits(tree: KDTree, target: Point, p: Pos)
  {
    var n := At(tree.root, p);
    n.Node? && n.axis < |target| && n.axis < |n.value|
  }

  /** The child slot on the target's side of node `n`'s split: left exactly
      when the target is below the node on the node's axis. */
  function NearSide(n: Tree, target: Point): (r: Side)
    requires n.Node? && n.axis < |target| && n.axis < |n.value|
    ensures r == Left <==> ArrayIndexComparer.Compare(n.axis, Some(target), Some(n.value)) < 0
  {
    if target[n.axis] < Coordinate(n, n.axis) then Left else Right
  }

  /** Step `i` of the path `p` goes to the target's side of the node above it. */
  ghost predicate NearStep(tree: KDTree, target: Point, p: Pos, i: nat)
  {
    i < |p| && Splits(tree, target, p[..i]) && p[i] == NearSide(At(tree.root, p[..i]), target)
  }

  /** Step `i` of `p` is a near step, or a step taken because nothing is on
      the other side. */
  ghost predicate DescentStep(tree: KDTree, target: Point, p: Pos, i: nat)
  {
    i < |p| && (NearStep(tree, target, p, i) || !IsNode(tree.root, Off(p, i)))
  }

  /** A descent by near steps ends at `p`: the near child of `p` is null. */
  ghost predicate StopsAt(tree: KDTree, target: Point, p: Pos)
  {
    Splits(tree, target, p) && Child(At(tree.root, p), NearSide(At(tree.root, p), target)).Nil?
  }

  /** The candidate names a node of the tree and its true squared distance. */
  ghost predicate Fits(tree: KDTree, target: Point, best: Option<Candidate>)
  {
    best.Some? ==>
      IsNode(tree.root, best.value.node)
      && best.value.distance == DistanceSquare(target, At(tree.root, best.value.node).value)
  }

  /** No point of `sub` is closer to the target than the candidate. */
  ghost predicate Covered(target: Point, best: Option<Candidate>, sub: Tree)
  {
    forall u | u in Points(sub) :: best.Some? && best.value.distance <= DistanceSquare(target, u)
  }

  /** The node at `p` is a nearest neighbour of the target. */
  ghost predicate IsNearest(tree: KDTree, target: Point, p: Pos)
  {
    IsNode(tree.root, p)
    && forall u | u in Points(tree.root) :: DistanceSquare(target, At(tree.root, p).value) <= DistanceSquare(target, u)
  }

  /** The nodes reported as visited, in order. */
  function Visits(events: seq<Event>): (r: seq<Pos>)
    ensures forall x <- r :: NodeVisited(x) in events
  {
    if events == [] then []
    else
      var last := events[|events| - 1];
      Visits(events[..|events| - 1]) + if last.NodeVisited? then [last.node] else []
  }

  /** The node of the last `BestNodeChanged` event. */
  function LastBest(events: seq<Event>): Option<Pos>
  {
    if events == [] then None
    else if events[|events| - 1].BestNodeChanged? then Some(events[|events| - 1].node)
    else LastBest(events[..|events| - 1])
  }

  ghost predicate NoRepeats(s: seq<Pos>)
  {
    forall i, j | 0 <= i < j < |s| :: s[i] != s[j]
  }

  /** A node becomes the best only right after it is visited: every
      `BestNodeChanged` event directly follows the `NodeVisited` event of the
      same node. */
  ghost predicate EventsWellOrdered(events: seq<Event>)
    decreases |events|
  {
    events != [] ==>
      var n := |events|;
      && EventsWellOrdered(events[..n - 1])
      && (events[n - 1].BestNodeChanged? ==> n >= 2 && events[n - 2] == NodeVisited(events[n - 1].node))
  }

  /** A sibling branch is entered only when the splitting node's distance on
      its axis is below the best distance at that moment. */
  ghost predicate SwitchesJustified(tree: KDTree, target: Point, events: seq<Event>)
  {
    forall e <- events | e.SwitchedSiblingBranch? ::
      Splits(tree, target, e.node)
      && CalcDistanceSquareByAxis(target, At(tree.root, e.node).value, At(tree.root, e.node).axis) < e.bestDistance
  }

  // ---------------------------------------------------------------------
  // Searching: facts about trees, distances and event logs

  lemma SplitsAt(tree: KDTree, target: Point, p: Pos)
    requires Searchable(tree, target) && IsNode(tree.root, p)
    ensures Splits(tree, target, p) && WellFormed(At(tree.root, p), tree.axisCount)
    ensures |At(tree.root, p).value| == |target|
  {
    WellFormedAt(tree.root, tree.axisCount, p);
  }

  /** Every point in the far subtree of a node is at least the node's
      distance on its axis away from the target: the pruning rule. */
  lemma FarSideBound(n: Tree, target: Point, u: Point)
    requires n.Node? && WellFormed(n, |target|)
    requires u in Points(Child(n, Flip(NearSide(n, target))))
    ensures CalcDistanceSquareByAxis(target, n.value, n.axis) <= DistanceSquare(target, u)
  {
    FarSideCoordinate(n, target, u);
    var a := n.axis;
    SquareFarther(target[a], n.value[a], u[a]);
    AxisDistanceBelowDistance(target, u, a);
  }

  /** On the node's axis, a far-side point lies beyond the node, seen from
      the target. */
  lemma FarSideCoordinate(n: Tree, target: Point, u: Point)
    requires n.Node? && WellFormed(n, |target|)
    requires u in Points(Child(n, Flip(NearSide(n, target))))
    ensures |u| == |target|
    ensures var a, t := n.axis, target[n.axis];
      t < n.value[a] <= u[a] || u[a] <= n.value[a] <= t
  {
    PointsOfLength(Child(n, Flip(NearSide(n, target))), |target|);
    if target[n.axis] < n.value[n.axis] {
      assert u in Points(n.right);
    } else {
      assert u in Points(n.left);
    }
  }

  /** A coordinate beyond `v`, seen from `t`, is at least as far as `v`. */
  lemma SquareFarther(t: int, v: int, w: int)
    requires t < v <= w || w <= v <= t
    ensures Square(t - v) <= Square(t - w)
  {
    if t < v {
      SquareMonotone(v - t, w - t);
    } else {
      SquareMonotone(t - v, t - w);
    }
  }

  /** A candidate that does not get worse keeps covering what it covered. */
  lemma CoveredMonotone(target: Point, best: Option<Candidate>, better: Candidate, sub: Tree)
    requires Covered(target, best, sub)
    requires best.Some? ==> better.distance <= best.value.distance
    ensures Covered(target, Some(better), sub)
  {
  }

  lemma {:induction false} VisitsAppend(a: seq<Event>, b: seq<Event>)
    ensures Visits(a + b) == Visits(a) + Visits(b)
    decreases |b|
  {
    if b == [] {
      assert a + b == a;
    } else {
      var b' := b[..|b| - 1];
      assert (a + b)[..|a + b| - 1] == a + b';
      VisitsAppend(a, b');
    }
  }

  lemma {:induction false} LastBestAppend(a: seq<Event>, b: seq<Event>)
    ensures LastBest(a + b) == if LastBest(b).Some? then LastBest(b) else LastBest(a)
    decreases |b|
  {
    if b == [] {
      assert a + b == a;
    } else {
      var b' := b[..|b| - 1];
      assert (a + b)[..|a + b| - 1] == a + b';
      LastBestAppend(a, b');
    }
  }

  lemma {:induction false} WellOrderedAppend(a: seq<Event>, b: seq<Event>)
    requires EventsWellOrdered(a) && EventsWellOrdered(b)
    requires b != [] ==> !b[0].BestNodeChanged?
    ensures EventsWellOrdered(a + b)
    decreases |b|
  {
    if b == [] {
      assert a + b == a;
    } else {
      var b' := b[..|b| - 1];
      assert (a + b)[..|a + b| - 1] == a + b';
      WellOrderedAppend(a, b');
      if |b| >= 2 {
        assert (a + b)[|a + b| - 2] == b[|b| - 2];
      }
    }
  }

  lemma NoRepeatsAppend(a: seq<Pos>, b: seq<Pos>)
    requires NoRepeats(a) && NoRepeats(b)
    requires forall x <- a :: x !in b
    ensures NoRepeats(a + b)
  {
    forall i, j | 0 <= i < j < |a + b| ensures (a + b)[i] != (a + b)[j] {
      if j >= |a| {
        assert (a + b)[j] == b[j - |a|];
        if i < |a| {
          assert (a + b)[i] in a;
        } else {
          assert (a + b)[i] == b[i - |a|];
        }
      }
    }
  }

  /** Logging a visit, and an improvement when there is one. */
  lemma VisitLogged(events: seq<Event>, x: Pos, improved: bool)
    requires EventsWellOrdered(events)
    ensures var log := if improved then [NodeVisited(x), BestNodeChanged(x)] else [NodeVisited(x)];
      && EventsWellOrdered(events + log)
      && Visits(events + log) == Visits(events) + [x]
      && LastBest(events + log) == if improved then Some(x) else LastBest(events)
  {
    var log := if improved then [NodeVisited(x), BestNodeChanged(x)] else [NodeVisited(x)];
    assert log[..1] == [NodeVisited(x)] && [NodeVisited(x)][..0] == [];
    assert Visits([NodeVisited(x)]) == [x];
    if improved {
      assert Visits(log) == Visits([NodeVisited(x)]);
    }
    WellOrderedAppend(events, log);
    VisitsAppend(events, log);
    LastBestAppend(events, log);
  }

  /** Logging a switch to a sibling branch. */
  lemma SwitchLogged(events: seq<Event>, x: Pos, d: nat)
    requires EventsWellOrdered(events)
    ensures EventsWellOrdered(events + [SwitchedSiblingBranch(x, d)])
    ensures Visits(events + [SwitchedSiblingBranch(x, d)]) == Visits(events)
    ensures LastBest(events + [SwitchedSiblingBranch(x, d)]) == LastBest(events)
  {
    WellOrderedAppend(events, [SwitchedSiblingBranch(x, d)]);
    VisitsAppend(events, [SwitchedSiblingBranch(x, d)]);
    LastBestAppend(events, [SwitchedSiblingBranch(x, d)]);
  }

  /** Extending a descent by one more allowed step keeps it a descent. */
  lemma DescentExtends(tree: KDTree, target: Point, start: Pos, leaf: Pos, d: Side, near: bool)
    requires Below(start, leaf)
    requires near ==> forall i | |start| <= i < |leaf| :: NearStep(tree, target, leaf, i)
    requires forall i | |start| <= i < |leaf| :: DescentStep(tree, target, leaf, i)
    requires DescentStep(tree, target, leaf + [d], |leaf|)
    requires near ==> NearStep(tree, target, leaf + [d], |leaf|)
    ensures Below(start, leaf + [d])
    ensures near ==> forall i | |start| <= i < |leaf| + 1 :: NearStep(tree, target, leaf + [d], i)
    ensures forall i | |start| <= i < |leaf| + 1 :: DescentStep(tree, target, leaf + [d], i)
  {
    assert (leaf + [d])[..|start|] == leaf[..|start|];
    forall i | |start| <= i < |leaf|
      ensures near ==> NearStep(tree, target, leaf + [d], i)
      ensures DescentStep(tree, target, leaf + [d], i)
    {
      assert DescentStep(tree, target, leaf, i);
      assert (leaf + [d])[..i] == leaf[..i] && (leaf + [d])[i] == leaf[i];
      assert Off(leaf + [d], i) == Off(leaf, i);
      assert NearStep(tree, target, leaf + [d], i) <==> NearStep(tree, target, leaf, i);
    }
  }

  /** `FindLeafByAsix`: from `start`, keep stepping to the child on the
      target's side of each split, and stop at the first node whose child on
      that side is null, even when its other child is not. */
  method FindLeafByAxis(tree: KDTree, start: Pos, target: Point) returns (leaf: Pos)
    requires Searchable(tree, target) && IsNode(tree.root, start)
    ensures IsNode(tree.root, leaf) && Below(start, leaf)
    ensures forall i | |start| <= i < |leaf| :: NearStep(tree, target, leaf, i)
    ensures forall i | |start| <= i < |leaf| :: DescentStep(tree, target, leaf, i)
    ensures StopsAt(tree, target, leaf)
    ensures StopsAt(tree, target, start) ==> leaf == start
  {
    leaf := start;
    while true
      invariant IsNode(tree.root, leaf) && Below(start, leaf)
      invariant forall i | |start| <= i < |leaf| :: NearStep(tree, target, leaf, i)
      invariant forall i | |start| <= i < |leaf| :: DescentStep(tree, target, leaf, i)
      invariant StopsAt(tree, target, start) ==> leaf == start
      decreases At(tree.root, leaf)
    {
      SplitsAt(tree, target, leaf);
      var node := At(tree.root, leaf);
      var d := NearSide(node, target);
      if Child(node, d).Nil? {
        break;
      }
      AtChild(tree.root, leaf, d);
      assert (leaf + [d])[..|leaf|] == leaf;
      DescentExtends(tree, target, start, leaf, d, true);
      leaf := leaf + [d];
    }
  }

  /** The evidently intended descent: like `FindLeafByAxis`, but when the
      child on the target's side is null it goes on into the other child, so
      it always ends at a leaf. */
  method FindTrueLeaf(tree: KDTree, start: Pos, target: Point) returns (leaf: Pos)
    requires Searchable(tree, target) && IsNode(tree.root, start)
    ensures IsNode(tree.root, leaf) && Below(start, leaf) && IsLeaf(At(tree.root, leaf))
    ensures forall i | |start| <= i < |leaf| :: DescentStep(tree, target, leaf, i)
    ensures IsLeaf(At(tree.root, start)) ==> leaf == start
  {
    leaf := start;
    while true
      invariant IsNode(tree.root, leaf) && Below(start, leaf)
      invariant forall i | |start| <= i < |leaf| :: DescentStep(tree, target, leaf, i)
      invariant IsLeaf(At(tree.root, start)) ==> leaf == start
      decreases At(tree.root, leaf)
    {
      SplitsAt(tree, target, leaf);
      var node := At(tree.root, leaf);
      var d := NearSide(node, target);
      if Child(node, d).Nil? {
        if Child(node, Flip(d)).Nil? {
          break;
        }
        d := Flip(d);
      }
      AtChild(tree.root, leaf, d);
      AtChild(tree.root, leaf, Flip(d));
      assert (leaf + [d])[..|leaf|] == leaf;
      assert Off(leaf + [d], |leaf|) == leaf + [Flip(d)];
      DescentExtends(tree, target, start, leaf, d, false);
      leaf := leaf + [d];
    }
  }

  // ---------------------------------------------------------------------
  // The recursive search

  /** The events raised while searching the subtree at `p`: the first is
      the visit of `p`, a node becomes best only right after its visit, a
      sibling branch is entered only when it may hold a closer point, and
      every visited node lies in the subtree and is visited once. */
  ghost predicate SubtreeLog(tree: KDTree, target: Point, p: Pos, events: seq<Event>)
  {
    && (events != [] ==> events[0] == NodeVisited(p))
    && EventsWellOrdered(events)
    && SwitchesJustified(tree, target, events)
    && NoRepeats(Visits(events))
    && forall x <- Visits(events) :: Below(p, x)
  }

  /** The private `FindNearestRecursion(targetValue, currentNode, ref
      bestDistance, ref bestNode)`, as a function of the best candidate so
      far: visit the node at `p`, search the child on the target's side, then
      the other child unless its whole slab is no closer than the best so
      far. Gives the new best and the events raised, in order. */
  ghost function SearchFrom(tree: KDTree, target: Point, p: Pos, best: Option<Candidate>): (Candidate, seq<Event>)
    requires Searchable(tree, target) && IsNode(tree.root, p)
    decreases At(tree.root, p)
  {
    ReadableAt(tree, target, p);
    var n := At(tree.root, p);
    var d := DistanceSquare(target, n.value);
    var improved := best.None? || d < best.value.distance;
    var afterVisit := if improved then Candidate(p, d) else best.value;
    var visitLog := if improved then [NodeVisited(p), BestNodeChanged(p)] else [NodeVisited(p)];
    var near := NearSide(n, target);
    AtChild(tree.root, p, near);
    AtChild(tree.root, p, Flip(near));
    var (afterNear, nearEvents) :=
      if Child(n, near).Node? then SearchFrom(tree, target, p + [near], Some(afterVisit)) else (afterVisit, []);
    if Child(n, Flip(near)).Node? && CalcDistanceSquareByAxis(target, n.value, n.axis) < afterNear.distance then
      var (afterFar, farEvents) := SearchFrom(tree, target, p + [Flip(near)], Some(afterNear));
      (afterFar, visitLog + nearEvents + [SwitchedSiblingBranch(p, afterNear.distance)] + farEvents)
    else
      (afterNear, visitLog + nearEvents)
  }

  /** The private recursion, computing `SearchFrom`. */
  method FindNearestRecursionFrom(tree: KDTree, target: Point, p: Pos, best: Option<Candidate>)
    returns (newBest: Candidate, events: seq<Event>)
    requires Searchable(tree, target) && IsNode(tree.root, p)
    ensures (newBest, events) == SearchFrom(tree, target, p, best)
    decreases At(tree.root, p)
  {
    ghost var afterVisit, visitSteps, _, afterNear, nearSteps, farSearched := SearchFromSteps(tree, target, p, best);
    var current := At(tree.root, p);
    var distance := CalcDistanceSquare(tree.axisCount, target, current.value);
    assert target[..tree.axisCount] == target && current.value[..tree.axisCount] == current.value;
    var visitLog := [NodeVisited(p)];
    var b := best;
    if best.None? || distance < best.value.distance {
      b := Some(Candidate(p, distance));
      visitLog := visitLog + [BestNodeChanged(p)];
    }
    assert b == Some(afterVisit) && visitLog == visitSteps;

    var near, far := Left, Right;
    if !(target[current.axis] < Coordinate(current, current.axis)) {
      near, far := Right, Left;
    }
    assert near == NearSide(current, target) && far == Flip(near);

    var nearEvents: seq<Event> := [];
    if Child(current, near).Node? {
      var nearBest;
      nearBest, nearEvents := FindNearestRecursionFrom(tree, target, p + [near], b);
      b := Some(nearBest);
    }
    assert b == Some(afterNear) && nearEvents == nearSteps;

    events := visitLog + nearEvents;
    if Child(current, far).Node? {
      var axisDistance := CalcDistanceSquareByAxis(target, current.value, current.axis);
      if axisDistance < b.value.distance {
        var farBest, farEvents := FindNearestRecursionFrom(tree, target, p + [far], b);
        events := events + [SwitchedSiblingBranch(p, b.value.distance)] + farEvents;
        b := Some(farBest);
      }
    }
    newBest := b.value;
  }

  /** The steps of `SearchFrom` at `p`, named: the candidate and log after
      the visit, the near side, the result of the near child's search, and
      whether the far child is searched. */
  lemma SearchFromSteps(tree: KDTree, target: Point, p: Pos, best: Option<Candidate>)
    returns (afterVisit: Candidate, visitLog: seq<Event>, near: Side,
             afterNear: Candidate, nearEvents: seq<Event>, farSearched: bool)
    requires Searchable(tree, target) && IsNode(tree.root, p)
    ensures var n := At(tree.root, p);
      && n.Node? && n.axis < |target| && |n.value| == |target|
      && near == NearSide(n, target)
      && At(tree.root, p + [near]) == Child(n, near)
      && At(tree.root, p + [Flip(near)]) == Child(n, Flip(near))
    ensures var n := At(tree.root, p); var d := DistanceSquare(target, n.value);
      if best.None? || d < best.value.distance then
        afterVisit == Candidate(p, d) && visitLog == [NodeVisited(p), BestNodeChanged(p)]
      else
        afterVisit == best.value && visitLog == [NodeVisited(p)]
    ensures var n := At(tree.root, p);
      if Child(n, near).Node? then (afterNear, nearEvents) == SearchFrom(tree, target, p + [near], Some(afterVisit))
      else afterNear == afterVisit && nearEvents == []
    ensures var n := At(tree.root, p);
      farSearched <==> Child(n, Flip(near)).Node? && CalcDistanceSquareByAxis(target, n.value, n.axis) < afterNear.distance
    ensures farSearched ==>
      var (afterFar, farEvents) := SearchFrom(tree, target, p + [Flip(near)], Some(afterNear));
      SearchFrom(tree, target, p, best)
        == (afterFar, visitLog + nearEvents + [SwitchedSiblingBranch(p, afterNear.distance)] + farEvents)
    ensures !farSearched ==> SearchFrom(tree, target, p, best) == (afterNear, visitLog + nearEvents)
  {
    ReadableAt(tree, target, p);
    var n := At(tree.root, p);
    var d := DistanceSquare(target, n.value);
    var improved := best.None? || d < best.value.distance;
    afterVisit := if improved then Candidate(p, d) else best.value;
    visitLog := if improved then [NodeVisited(p), BestNodeChanged(p)] else [NodeVisited(p)];
    near := NearSide(n, target);
    AtChild(tree.root, p, near);
    AtChild(tree.root, p, Flip(near));
    afterNear, nearEvents := afterVisit, [];
    if Child(n, near).Node? {
      afterNear, nearEvents := SearchFrom(tree, target, p + [near], Some(afterVisit)).0,
                               SearchFrom(tree, target, p + [near], Some(afterVisit)).1;
    }
    farSearched := Child(n, Flip(near)).Node? && CalcDistanceSquareByAxis(target, n.value, n.axis) < afterNear.distance;
  }

  /** The search from `p` keeps a best candidate that is a node at its
      distance, never gets worse, keeps the earlier best on a tie, and ends
      with no point of the subtree at `p` closer than it. */
  lemma {:induction false} SearchFromFinds(tree: KDTree, target: Point, p: Pos, best: Option<Candidate>)
    requires Searchable(tree, target) && IsNode(tree.root, p) && Fits(tree, target, best)
    ensures var newBest := SearchFrom(tree, target, p, best).0;
      && Fits(tree, target, Some(newBest))
      && (best.Some? ==> newBest.distance <= best.value.distance)
      && (best.Some? && newBest.distance == best.value.distance ==> newBest == best.value)
      && Covered(target, Some(newBest), At(tree.root, p))
    decreases At(tree.root, p)
  {
    var afterVisit, visitLog, near, afterNear, nearEvents, farSearched := SearchFromSteps(tree, target, p, best);
    var n := At(tree.root, p);
    if Child(n, near).Node? {
      SearchFromFinds(tree, target, p + [near], Some(afterVisit));
    }
    var newBest := SearchFrom(tree, target, p, best).0;
    if farSearched {
      SearchFromFinds(tree, target, p + [Flip(near)], Some(afterNear));
    } else {
      if Child(n, Flip(near)).Node? {
        FarSidePruned(tree, target, p, afterNear);
      }
      CoveredMonotone(target, Some(afterNear), newBest, Child(n, Flip(near)));
    }
    CoveredMonotone(target, Some(afterNear), newBest, Child(n, near));
    NodeCovered(target, n, near, newBest);
  }

  /** The events of the search from `p` form a log of the subtree at `p`. */
  lemma {:induction false} SearchFromLogged(tree: KDTree, target: Point, p: Pos, best: Option<Candidate>)
    requires Searchable(tree, target) && IsNode(tree.root, p)
    ensures var events := SearchFrom(tree, target, p, best).1;
      events != [] && SubtreeLog(tree, target, p, events)
    decreases At(tree.root, p)
  {
    var afterVisit, visitLog, near, afterNear, nearEvents, farSearched := SearchFromSteps(tree, target, p, best);
    var n := At(tree.root, p);
    EmptyLog(tree, target, p + [near]);
    EmptyLog(tree, target, p + [Flip(near)]);
    if Child(n, near).Node? {
      SearchFromLogged(tree, target, p + [near], Some(afterVisit));
    }
    if farSearched {
      SearchFromLogged(tree, target, p + [Flip(near)], Some(afterNear));
      var switchEvent := [SwitchedSiblingBranch(p, afterNear.distance)];
      assert SwitchesJustified(tree, target, switchEvent);
      RecursionLogged(tree, target, p, near, visitLog, nearEvents, switchEvent,
                      SearchFrom(tree, target, p + [Flip(near)], Some(afterNear)).1);
    } else {
      RecursionLogged(tree, target, p, near, visitLog, nearEvents, [], []);
      assert visitLog + nearEvents + [] + [] == visitLog + nearEvents;
    }
  }

  /** The last best-node event of `events` names `after`; with no such
      event the best `before` is unchanged. */
  ghost predicate NamesBest(events: seq<Event>, before: Option<Candidate>, after: Candidate)
  {
    && (LastBest(events) == None ==> before == Some(after))
    && (LastBest(events).Some? ==> LastBest(events).value == after.node)
  }

  lemma NamesBestJoin(a: seq<Event>, b: seq<Event>, before: Option<Candidate>, mid: Candidate, after: Candidate)
    requires NamesBest(a, before, mid) && NamesBest(b, Some(mid), after)
    ensures NamesBest(a + b, before, after)
  {
    LastBestAppend(a, b);
  }

  /** The log of a visit names the best after it. */
  lemma VisitNamesBest(p: Pos, d: nat, best: Option<Candidate>)
    ensures if best.None? || d < best.value.distance then
        NamesBest([NodeVisited(p), BestNodeChanged(p)], best, Candidate(p, d))
      else
        NamesBest([NodeVisited(p)], best, best.value)
  {
    assert [NodeVisited(p), BestNodeChanged(p)][..1] == [NodeVisited(p)];
    assert [NodeVisited(p)][..0] == [];
  }

  /** The last best-node event of the search from `p` names the new best;
      with no such event the best is unchanged. */
  lemma {:induction false} SearchFromNamesBest(tree: KDTree, target: Point, p: Pos, best: Option<Candidate>)
    requires Searchable(tree, target) && IsNode(tree.root, p)
    ensures var r := SearchFrom(tree, target, p, best); NamesBest(r.1, best, r.0)
    decreases At(tree.root, p)
  {
    var afterVisit, visitLog, near, afterNear, nearEvents, farSearched := SearchFromSteps(tree, target, p, best);
    var n := At(tree.root, p);
    VisitNamesBest(p, DistanceSquare(target, n.value), best);
    if Child(n, near).Node? {
      SearchFromNamesBest(tree, target, p + [near], Some(afterVisit));
    }
    assert NamesBest(nearEvents, Some(afterVisit), afterNear);
    NamesBestJoin(visitLog, nearEvents, best, afterVisit, afterNear);
    var log := visitLog + nearEvents;
    if farSearched {
      var switchEvent := [SwitchedSiblingBranch(p, afterNear.distance)];
      var far := SearchFrom(tree, target, p + [Flip(near)], Some(afterNear));
      SearchFromNamesBest(tree, target, p + [Flip(near)], Some(afterNear));
      assert LastBest(switchEvent) == None;
      NamesBestJoin(log, switchEvent, best, afterNear, afterNear);
      NamesBestJoin(log + switchEvent, far.1, best, afterNear, far.0);
    }
  }

  /** When the node's distance on its axis is no less than the best
      distance, nothing on the far side can beat the best. */
  lemma FarSidePruned(tree: KDTree, target: Point, p: Pos, best: Candidate)
    requires Searchable(tree, target) && IsNode(tree.root, p)
    requires var n := At(tree.root, p);
      n.axis < |target| && n.axis < |n.value| && best.distance <= CalcDistanceSquareByAxis(target, n.value, n.axis)
    ensures var n := At(tree.root, p); Covered(target, Some(best), Child(n, Flip(NearSide(n, target))))
  {
    var n := At(tree.root, p);
    SplitsAt(tree, target, p);
    forall u | u in Points(Child(n, Flip(NearSide(n, target))))
      ensures best.distance <= DistanceSquare(target, u)
    {
      FarSideBound(n, target, u);
    }
  }

  /** The node at `p` can be read against the target. */
  lemma ReadableAt(tree: KDTree, target: Point, p: Pos)
    requires Searchable(tree, target) && IsNode(tree.root, p)
    ensures var n := At(tree.root, p); n.axis < |target| && |n.value| == |target|
  {
    SplitsAt(tree, target, p);
  }

  lemma EmptyLog(tree: KDTree, target: Point, p: Pos)
    ensures SubtreeLog(tree, target, p, [])
    ensures SwitchesJustified(tree, target, [])
  {
  }

  /** A node is covered once its point and both of its subtrees are. */
  lemma NodeCovered(target: Point, n: Tree, near: Side, best: Candidate)
    requires n.Node? && best.distance <= DistanceSquare(target, n.value)
    requires Covered(target, Some(best), Child(n, near))
    requires Covered(target, Some(best), Child(n, Flip(near)))
    ensures Covered(target, Some(best), n)
  {
  }

  /** The log of one call of the recursive search is the visit, the near
      child's log, the switch and the far child's log, in that order. */
  lemma RecursionLogged(tree: KDTree, target: Point, p: Pos, near: Side,
                        visitLog: seq<Event>, nearEvents: seq<Event>, switchEvent: seq<Event>, farEvents: seq<Event>)
    requires visitLog == [NodeVisited(p)] || visitLog == [NodeVisited(p), BestNodeChanged(p)]
    requires SubtreeLog(tree, target, p + [near], nearEvents)
    requires SubtreeLog(tree, target, p + [Flip(near)], farEvents)
    requires |switchEvent| <= 1 && SwitchesJustified(tree, target, switchEvent)
    requires forall e <- switchEvent :: e.SwitchedSiblingBranch?
    ensures var events := visitLog + nearEvents + switchEvent + farEvents;
      && SubtreeLog(tree, target, p, events)
      && events[0] == NodeVisited(p)
  {
    var log1 := visitLog + nearEvents;
    var log2 := log1 + switchEvent;
    var events := log2 + farEvents;
    VisitThenNearLogged(p, near, visitLog, nearEvents);
    OptionalSwitchLogged(log1, switchEvent);
    FarEventsLogged(p, near, log2, farEvents);
    SwitchesAppend(tree, target, visitLog, nearEvents);
    SwitchesAppend(tree, target, log1, switchEvent);
    SwitchesAppend(tree, target, log2, farEvents);
    assert events[0] == visitLog[0];
  }

  lemma VisitThenNearLogged(p: Pos, near: Side, visitLog: seq<Event>, nearEvents: seq<Event>)
    requires visitLog == [NodeVisited(p)] || visitLog == [NodeVisited(p), BestNodeChanged(p)]
    requires nearEvents != [] ==> nearEvents[0].NodeVisited?
    requires EventsWellOrdered(nearEvents)
    requires NoRepeats(Visits(nearEvents)) && forall x <- Visits(nearEvents) :: Below(p + [near], x)
    ensures var log1 := visitLog + nearEvents;
      && EventsWellOrdered(log1) && NoRepeats(Visits(log1))
      && (forall x <- Visits(log1) :: x == p || Below(p + [near], x))
      && LastBest(log1) == (if LastBest(nearEvents).Some? then LastBest(nearEvents) else LastBest(visitLog))
  {
    VisitLogged([], p, |visitLog| == 2);
    assert [] + visitLog == visitLog;
    NearEventsLogged(p, near, visitLog, nearEvents);
  }

  lemma OptionalSwitchLogged(log: seq<Event>, switchEvent: seq<Event>)
    requires EventsWellOrdered(log)
    requires |switchEvent| <= 1 && forall e <- switchEvent :: e.SwitchedSiblingBranch?
    ensures EventsWellOrdered(log + switchEvent)
    ensures Visits(log + switchEvent) == Visits(log) && LastBest(log + switchEvent) == LastBest(log)
  {
    if switchEvent != [] {
      assert switchEvent == [SwitchedSiblingBranch(switchEvent[0].node, switchEvent[0].bestDistance)];
      SwitchLogged(log, switchEvent[0].node, switchEvent[0].bestDistance);
    } else {
      assert log + switchEvent == log;
    }
  }

  lemma SwitchesAppend(tree: KDTree, target: Point, a: seq<Event>, b: seq<Event>)
    requires SwitchesJustified(tree, target, a) && SwitchesJustified(tree, target, b)
    ensures SwitchesJustified(tree, target, a + b)
  {
    assert forall e <- a + b :: e in a || e in b;
  }

  /** The near child's events extend the log of the visit. */
  lemma NearEventsLogged(p: Pos, near: Side, events: seq<Event>, nearEvents: seq<Event>)
    requires EventsWellOrdered(events) && Visits(events) == [p]
    requires nearEvents != [] ==> nearEvents[0].NodeVisited?
    requires EventsWellOrdered(nearEvents)
    requires NoRepeats(Visits(nearEvents)) && forall x <- Visits(nearEvents) :: Below(p + [near], x)
    ensures EventsWellOrdered(events + nearEvents)
    ensures NoRepeats(Visits(events + nearEvents))
    ensures forall x <- Visits(events + nearEvents) :: x == p || Below(p + [near], x)
    ensures LastBest(events + nearEvents) == if LastBest(nearEvents).Some? then LastBest(nearEvents) else LastBest(events)
  {
    WellOrderedAppend(events, nearEvents);
    VisitsAppend(events, nearEvents);
    LastBestAppend(events, nearEvents);
    NoRepeatsAppend([p], Visits(nearEvents));
  }

  /** The far child's events extend the log, and visit nothing seen before. */
  lemma FarEventsLogged(p: Pos, near: Side, events: seq<Event>, farEvents: seq<Event>)
    requires EventsWellOrdered(events) && NoRepeats(Visits(events))
    requires forall x <- Visits(events) :: x == p || Below(p + [near], x)
    requires farEvents != [] ==> farEvents[0].NodeVisited?
    requires EventsWellOrdered(farEvents)
    requires NoRepeats(Visits(farEvents)) && forall x <- Visits(farEvents) :: Below(p + [Flip(near)], x)
    ensures EventsWellOrdered(events + farEvents)
    ensures NoRepeats(Visits(events + farEvents))
    ensures forall x <- Visits(events + farEvents) :: Below(p, x)
    ensures LastBest(events + farEvents) == if LastBest(farEvents).Some? then LastBest(farEvents) else LastBest(events)
  {
    WellOrderedAppend(events, farEvents);
    VisitsAppend(events, farEvents);
    LastBestAppend(events, farEvents);
    SidesApart(p, near, Visits(events), Visits(farEvents));
    NoRepeatsAppend(Visits(events), Visits(farEvents));
  }

  /** Nodes at or under the near child and nodes under the far child are
      apart, and all lie under `p`. */
  lemma SidesApart(p: Pos, near: Side, a: seq<Pos>, b: seq<Pos>)
    requires forall x <- a :: x == p || Below(p + [near], x)
    requires forall x <- b :: Below(p + [Flip(near)], x)
    ensures forall x <- a :: x !in b
    ensures forall x <- a + b :: Below(p, x)
  {
    forall x <- a ensures x !in b {
      if x in b && x != p {
        BelowSidesDiffer(p, near, x, x);
      }
    }
    forall x <- a + b ensures Below(p, x) {
      if x !in a {
        assert (p + [Flip(near)])[..|p|] == p;
        assert x[..|p|] == x[..|p| + 1][..|p|];
      } else if x != p {
        assert (p + [near])[..|p|] == p;
        assert x[..|p|] == x[..|p| + 1][..|p|];
      }
    }
  }

  /** `FindNearestRecursion(targetValue)`: checks the target's length and
      searches from the root with no best node yet. */
  method FindNearestRecursion(tree: KDTree, target: Point) returns (r: Result<Pos, Error>, events: seq<Event>)
    requires Valid(tree)
    ensures |target| != tree.axisCount ==> r == Err(TargetLengthMismatch) && events == []
    ensures |target| == tree.axisCount == 0 ==>
              r == Err(IndexOutOfRange) && events == [NodeVisited([]), BestNodeChanged([])]
    ensures |target| == tree.axisCount > 0 ==> r.Ok? && IsNearest(tree, target, r.value)
    ensures r.Ok? ==> LastBest(events) == Some(r.value)
    ensures EventsWellOrdered(events) && NoRepeats(Visits(events)) && SwitchesJustified(tree, target, events)
  {
    if |target| != tree.axisCount {
      return Err(TargetLengthMismatch), [];
    }
    if tree.axisCount == 0 {
      // The root is visited and becomes the best node; reading the target
      // on the root's axis 0 then fails.
      return Err(IndexOutOfRange), [NodeVisited([]), BestNodeChanged([])];
    }
    var best;
    best, events := FindNearestRecursionFrom(tree, target, [], None);
    SearchFromFinds(tree, target, [], None);
    SearchFromLogged(tree, target, [], None);
    SearchFromNamesBest(tree, target, [], None);
    r := Ok(best.node);
  }

  // ---------------------------------------------------------------------
  // The iterative search

  /** Where the iterative search stands when it is about to visit `node`:
      no visited node is `node` or above it, and every branch left aside on
      the way down to `node` that is not itself visited has nothing visited
      below it and was left aside for being the far side of its split, or
      for being empty. */
  ghost predicate OnPath(tree: KDTree, target: Point, node: Pos, visited: set<Pos>)
  {
    && IsNode(tree.root, node)
    && (forall x <- visited :: IsNode(tree.root, x) && !Below(x, node))
    && forall i | 0 <= i < |node| && Off(node, i) !in visited ::
         DescentStep(tree, target, node, i) && forall x <- visited :: !Below(Off(node, i), x)
  }

  /** What the iterative search has settled at `node`: neither subtree of
      `node`, nor any visited branch left aside on the way down to it, holds
      a point closer than the best. */
  ghost predicate Settled(tree: KDTree, target: Point, node: Pos, visited: set<Pos>, best: Option<Candidate>)
  {
    var n := At(tree.root, node);
    && n.Node? && Covered(target, best, n.left) && Covered(target, best, n.right)
    && forall i | 0 <= i < |node| && Off(node, i) in visited :: Covered(target, best, At(tree.root, Off(node, i)))
  }

  /** The branches left aside above a node's parent are those left aside
      above the node. */
  lemma OffOfParent(node: Pos, i: nat)
    requires i < |node| - 1
    ensures Off(node[..|node| - 1], i) == Off(node, i)
  {
    assert node[..|node| - 1][..i] == node[..i];
  }

  /** The first descent from the root starts the search on its path. */
  lemma StartOnPath(tree: KDTree, target: Point, leaf: Pos)
    requires IsNode(tree.root, leaf)
    requires forall i | 0 <= i < |leaf| :: DescentStep(tree, target, leaf, i)
    ensures OnPath(tree, target, leaf, {})
  {
  }

  /** Climbing from a visited node to its parent keeps the search on its path. */
  lemma ClimbKeepsPath(tree: KDTree, target: Point, node: Pos, visited: set<Pos>)
    requires OnPath(tree, target, node, visited) && |node| > 0
    ensures OnPath(tree, target, node[..|node| - 1], visited + {node})
  {
    var up := node[..|node| - 1];
    PrefixIsNode(tree.root, node, |node| - 1);
    forall x <- visited ensures !Below(x, up) {
    }
    forall i | 0 <= i < |up| && Off(up, i) !in visited + {node}
      ensures DescentStep(tree, target, up, i) && forall x <- visited + {node} :: !Below(Off(up, i), x)
    {
      OffOfParent(node, i);
      assert up[..i] == node[..i] && up[i] == node[i];
      assert DescentStep(tree, target, node, i);
    }
  }

  /** Jumping from a visited node into the leaf reached by a descent from
      its sibling, when that sibling is not visited, keeps the search on its
      path. */
  lemma JumpKeepsPath(tree: KDTree, target: Point, node: Pos, visited: set<Pos>, leaf: Pos)
    requires OnPath(tree, target, node, visited) && |node| > 0
    requires Off(node, |node| - 1) !in visited
    requires IsNode(tree.root, leaf) && Below(Off(node, |node| - 1), leaf)
    requires forall i | |node| <= i < |leaf| :: DescentStep(tree, target, leaf, i)
    ensures OnPath(tree, target, leaf, visited + {node})
  {
    var n := |node|;
    var s := Off(node, n - 1);
    assert leaf[..n] == s;
    assert leaf[..n - 1] == node[..n - 1] && leaf[n - 1] == Flip(node[n - 1]);
    assert Off(leaf, n - 1) == node;
    assert forall x <- visited :: !Below(s, x);
    forall x <- visited + {node} ensures !Below(x, leaf) {
      if x != node && Below(x, leaf) && |x| >= n {
      }
    }
    forall i | 0 <= i < |leaf| && Off(leaf, i) !in visited + {node}
      ensures DescentStep(tree, target, leaf, i) && forall x <- visited + {node} :: !Below(Off(leaf, i), x)
    {
      if i < n - 1 {
        assert leaf[..i] == node[..i] && leaf[i] == node[i];
        assert Off(leaf, i) == Off(node, i);
        assert DescentStep(tree, target, node, i);
      } else if i >= n {
        forall x <- visited + {node} ensures !Below(Off(leaf, i), x) {
        }
      }
    }
  }

  /** A better best keeps everything settled. */
  lemma SettledMonotone(tree: KDTree, target: Point, node: Pos, visited: set<Pos>, best: Option<Candidate>, better: Candidate)
    requires Settled(tree, target, node, visited, best)
    requires best.Some? ==> better.distance <= best.value.distance
    ensures Settled(tree, target, node, visited, Some(better))
  {
    var n := At(tree.root, node);
    CoveredMonotone(target, best, better, n.left);
    CoveredMonotone(target, best, better, n.right);
    forall i | 0 <= i < |node| && Off(node, i) in visited
      ensures Covered(target, Some(better), At(tree.root, Off(node, i)))
    {
      CoveredMonotone(target, best, better, At(tree.root, Off(node, i)));
    }
  }

  /** Climbing from a visited node to its parent keeps everything settled,
      provided the sibling is visited, empty, or pruned by its split. */
  lemma ClimbKeepsSettled(tree: KDTree, target: Point, node: Pos, visited: set<Pos>, best: Candidate)
    requires Searchable(tree, target) && OnPath(tree, target, node, visited) && |node| > 0
    requires Settled(tree, target, node, visited, Some(best))
    requires best.distance <= DistanceSquare(target, At(tree.root, node).value)
    requires var up := node[..|node| - 1]; var sibling := Off(node, |node| - 1);
      || sibling in visited
      || !IsNode(tree.root, sibling)
      || (Splits(tree, target, up)
          && best.distance <= CalcDistanceSquareByAxis(target, At(tree.root, up).value, At(tree.root, up).axis))
    ensures Settled(tree, target, node[..|node| - 1], visited + {node}, Some(best))
  {
    var n := |node|;
    var up := node[..n - 1];
    var d := node[n - 1];
    assert node == up + [d] && Off(node, n - 1) == up + [Flip(d)];
    PrefixIsNode(tree.root, node, n - 1);
    AtChild(tree.root, up, d);
    AtChild(tree.root, up, Flip(d));
    NodeCovered(target, At(tree.root, node), Left, best);
    SiblingCovered(tree, target, node, visited, best);
    ClimbKeepsOffsCovered(tree, target, node, visited, best);
  }

  /** The sibling of a visited node is covered when it is visited, empty, or
      pruned by its split. */
  lemma SiblingCovered(tree: KDTree, target: Point, node: Pos, visited: set<Pos>, best: Candidate)
    requires Searchable(tree, target) && OnPath(tree, target, node, visited) && |node| > 0
    requires Settled(tree, target, node, visited, Some(best))
    requires var up := node[..|node| - 1]; var sibling := Off(node, |node| - 1);
      || sibling in visited
      || !IsNode(tree.root, sibling)
      || (Splits(tree, target, up)
          && best.distance <= CalcDistanceSquareByAxis(target, At(tree.root, up).value, At(tree.root, up).axis))
    ensures Covered(target, Some(best), At(tree.root, Off(node, |node| - 1)))
  {
    var n := |node|;
    var up := node[..n - 1];
    var sibling := Off(node, n - 1);
    if sibling !in visited && IsNode(tree.root, sibling) {
      assert DescentStep(tree, target, node, n - 1);
      PrefixIsNode(tree.root, node, n - 1);
      AtChild(tree.root, up, node[n - 1]);
      AtChild(tree.root, up, Flip(node[n - 1]));
      FarSidePruned(tree, target, up, best);
    }
  }

  lemma ClimbKeepsOffsCovered(tree: KDTree, target: Point, node: Pos, visited: set<Pos>, best: Candidate)
    requires |node| > 0 && Settled(tree, target, node, visited, Some(best))
    ensures var up := node[..|node| - 1];
      forall i | 0 <= i < |up| && Off(up, i) in visited + {node} :: Covered(target, Some(best), At(tree.root, Off(up, i)))
  {
    var up := node[..|node| - 1];
    forall i | 0 <= i < |up| && Off(up, i) in visited + {node}
      ensures Covered(target, Some(best), At(tree.root, Off(up, i)))
    {
      OffOfParent(node, i);
    }
  }

  /** Jumping from a visited node into a leaf below its unvisited sibling
      keeps everything settled. */
  lemma JumpKeepsSettled(tree: KDTree, target: Point, node: Pos, visited: set<Pos>, best: Candidate, leaf: Pos)
    requires OnPath(tree, target, node, visited) && |node| > 0
    requires Off(node, |node| - 1) !in visited
    requires Settled(tree, target, node, visited, Some(best))
    requires best.distance <= DistanceSquare(target, At(tree.root, node).value)
    requires IsNode(tree.root, leaf) && Below(Off(node, |node| - 1), leaf) && IsLeaf(At(tree.root, leaf))
    ensures Settled(tree, target, leaf, visited + {node}, Some(best))
  {
    NodeCovered(target, At(tree.root, node), Left, best);
    JumpKeepsOffsCovered(tree, target, node, visited, best, leaf);
  }

  lemma JumpKeepsOffsCovered(tree: KDTree, target: Point, node: Pos, visited: set<Pos>, best: Candidate, leaf: Pos)
    requires |node| > 0 && Below(Off(node, |node| - 1), leaf)
    requires forall x <- visited :: !Below(Off(node, |node| - 1), x)
    requires Covered(target, Some(best), At(tree.root, node))
    requires forall i | 0 <= i < |node| && Off(node, i) in visited :: Covered(target, Some(best), At(tree.root, Off(node, i)))
    ensures forall i | 0 <= i < |leaf| && Off(leaf, i) in visited + {node} :: Covered(target, Some(best), At(tree.root, Off(leaf, i)))
  {
    JumpOffs(node, leaf);
    forall i | 0 <= i < |leaf| && Off(leaf, i) in visited + {node}
      ensures Covered(target, Some(best), At(tree.root, Off(leaf, i)))
    {
      if i < |node| - 1 {
        assert Off(leaf, i) == Off(node, i);
      } else if i >= |node| {
        assert |Off(leaf, i)| > |node|;
      }
    }
  }

  /** Below the sibling of `node`, the branches left aside are those left
      aside above `node`, then `node` itself, then branches below the
      sibling. */
  lemma JumpOffs(node: Pos, leaf: Pos)
    requires |node| > 0 && Below(Off(node, |node| - 1), leaf)
    ensures forall i | 0 <= i < |node| - 1 :: Off(leaf, i) == Off(node, i)
    ensures Off(leaf, |node| - 1) == node
    ensures forall i | |node| <= i < |leaf| :: Below(Off(node, |node| - 1), Off(leaf, i))
  {
    var n := |node|;
    var s := Off(node, n - 1);
    assert leaf[..n] == s;
    assert leaf[..n - 1] == node[..n - 1] && leaf[n - 1] == Flip(node[n - 1]);
    forall i | 0 <= i < n - 1 ensures Off(leaf, i) == Off(node, i) {
      assert leaf[..i] == node[..i] && leaf[i] == node[i];
    }
    forall i | n <= i < |leaf| ensures Below(s, Off(leaf, i)) {
      assert Off(leaf, i)[..n] == leaf[..n];
    }
  }

  /** Visiting a node not visited before extends a log of the visited set:
      the log stays well ordered, switches stay justified, and the node is
      reported once. */
  lemma NodeLogged(tree: KDTree, target: Point, events: seq<Event>, visited: set<Pos>, node: Pos, improved: bool)
    requires EventsWellOrdered(events) && NoRepeats(Visits(events)) && SwitchesJustified(tree, target, events)
    requires forall x :: x in Visits(events) <==> x in visited
    requires node !in visited
    ensures var log := if improved then events + [NodeVisited(node), BestNodeChanged(node)] else events + [NodeVisited(node)];
      && EventsWellOrdered(log) && NoRepeats(Visits(log)) && SwitchesJustified(tree, target, log)
      && (forall x :: x in Visits(log) <==> x in visited + {node})
      && LastBest(log) == if improved then Some(node) else LastBest(events)
  {
    NoRepeatsAppend(Visits(events), [node]);
    VisitsOfLog(Visits(events), node, visited);
    if improved {
      var visitLog := [NodeVisited(node), BestNodeChanged(node)];
      VisitLogged(events, node, true);
      SwitchesAppend(tree, target, events, visitLog);
    } else {
      VisitLogged(events, node, false);
      SwitchesAppend(tree, target, events, [NodeVisited(node)]);
    }
  }

  lemma VisitsOfLog(visits: seq<Pos>, node: Pos, visited: set<Pos>)
    requires forall x :: x in visits <==> x in visited
    ensures forall x :: x in visits + [node] <==> x in visited + {node}
  {
  }

  /** The descent the iterative search makes from `start`: `FindLeafByAsix`
      as written, or, when `toLeaf`, the descent to a true leaf. On a full
      tree the two agree in ending at a leaf. */
  method Descend(tree: KDTree, start: Pos, target: Point, toLeaf: bool) returns (leaf: Pos)
    requires Searchable(tree, target) && IsNode(tree.root, start)
    ensures IsNode(tree.root, leaf) && Below(start, leaf)
    ensures forall i | |start| <= i < |leaf| :: DescentStep(tree, target, leaf, i)
    ensures toLeaf || Full(tree.root) ==> IsLeaf(At(tree.root, leaf))
    ensures if toLeaf then IsLeaf(At(tree.root, leaf)) else StopsAt(tree, target, leaf)
    ensures !toLeaf ==> forall i | |start| <= i < |leaf| :: NearStep(tree, target, leaf, i)
    ensures (if toLeaf then IsLeaf(At(tree.root, start)) else StopsAt(tree, target, start)) ==> leaf == start
  {
    if toLeaf {
      leaf := FindTrueLeaf(tree, start, target);
    } else {
      leaf := FindLeafByAxis(tree, start, target);
      if Full(tree.root) {
        FullAt(tree.root, leaf);
      }
    }
  }

  /** The events of the iterative search so far log exactly the visited
      nodes, each once, and name the best node last. */
  ghost predicate Logs(tree: KDTree, target: Point, events: seq<Event>, visited: set<Pos>, best: Option<Candidate>)
  {
    && EventsWellOrdered(events) && NoRepeats(Visits(events)) && SwitchesJustified(tree, target, events)
    && (forall x :: x in Visits(events) <==> x in visited)
    && LastBest(events) == if best.Some? then Some(best.value.node) else None
  }

  /** The best so far is a node no farther than any visited node, and is
      absent exactly when nothing has been visited. */
  ghost predicate Scores(tree: KDTree, target: Point, visited: set<Pos>, best: Option<Candidate>)
  {
    && visited <= Positions(tree.root)
    && (best.None? <==> visited == {})
    && Fits(tree, target, best)
    && (best.Some? ==> forall x <- visited :: IsNode(tree.root, x) && best.value.distance <= DistanceSquare(target, At(tree.root, x).value))
  }

  /** The loop invariant of the iterative search, about to visit `node`.
      `exact` holds when every descent ends at a leaf. */
  ghost predicate Searching(tree: KDTree, target: Point, exact: bool, node: Pos, visited: set<Pos>,
                            best: Option<Candidate>, events: seq<Event>)
  {
    && Searchable(tree, target)
    && OnPath(tree, target, node, visited)
    && Scores(tree, target, visited, best)
    && (exact ==> Settled(tree, target, node, visited, best))
    && Logs(tree, target, events, visited, best)
  }

  /** The state of the iterative search right after visiting `node`, with
      `seen` the nodes visited before it. */
  ghost predicate Visited(tree: KDTree, target: Point, exact: bool, node: Pos, seen: set<Pos>,
                          best: Candidate, events: seq<Event>)
  {
    && Searchable(tree, target)
    && OnPath(tree, target, node, seen)
    && node !in seen && node in Positions(tree.root)
    && Scores(tree, target, seen + {node}, Some(best))
    && best.distance <= DistanceSquare(target, At(tree.root, node).value)
    && (exact ==> Settled(tree, target, node, seen, Some(best)))
    && Logs(tree, target, events, seen + {node}, Some(best))
  }

  /** The search starts on the path to the leaf of the first descent. */
  lemma SearchStarts(tree: KDTree, target: Point, exact: bool, leaf: Pos)
    requires Searchable(tree, target) && IsNode(tree.root, leaf)
    requires forall i | 0 <= i < |leaf| :: DescentStep(tree, target, leaf, i)
    requires exact ==> IsLeaf(At(tree.root, leaf))
    ensures Searching(tree, target, exact, leaf, {}, None, [])
  {
    StartOnPath(tree, target, leaf);
    assert Visits([]) == [];
  }

  /** Visiting `node` records it, makes it the best when it is closer than
      the best so far, and logs both. */
  lemma VisitStep(tree: KDTree, target: Point, exact: bool, node: Pos, visited: set<Pos>,
                  best: Option<Candidate>, events: seq<Event>, distance: nat)
    requires Searching(tree, target, exact, node, visited, best, events)
    requires distance == DistanceSquare(target, At(tree.root, node).value)
    ensures var improved := best.None? || distance < best.value.distance;
      Visited(tree, target, exact, node, visited,
              if improved then Candidate(node, distance) else best.value,
              if improved then events + [NodeVisited(node), BestNodeChanged(node)] else events + [NodeVisited(node)])
  {
    var improved := best.None? || distance < best.value.distance;
    var newBest := if improved then Candidate(node, distance) else best.value;
    PositionsAreNodes(tree.root, node);
    assert node[..|node|] == node;
    NodeLogged(tree, target, events, visited, node, improved);
    if exact {
      SettledMonotone(tree, target, node, visited, best, newBest);
    }
  }

  /** Climbing from a visited node to its parent, when the sibling is
      visited, empty, or pruned by the parent's split. */
  lemma ClimbStep(tree: KDTree, target: Point, exact: bool, node: Pos, seen: set<Pos>, best: Candidate, events: seq<Event>)
    requires Visited(tree, target, exact, node, seen, best, events) && node != []
    requires var up := node[..|node| - 1]; var sibling := Off(node, |node| - 1);
      || sibling in seen + {node}
      || !IsNode(tree.root, sibling)
      || (Splits(tree, target, up)
          && best.distance <= CalcDistanceSquareByAxis(target, At(tree.root, up).value, At(tree.root, up).axis))
    ensures Searching(tree, target, exact, node[..|node| - 1], seen + {node}, Some(best), events)
  {
    ClimbKeepsPath(tree, target, node, seen);
    if exact {
      ClimbKeepsSettled(tree, target, node, seen, best);
    }
  }

  /** Jumping from a visited node into the leaf of a descent from its
      unvisited sibling, when the parent's split is closer than the best. */
  lemma JumpStep(tree: KDTree, target: Point, exact: bool, node: Pos, seen: set<Pos>, best: Candidate,
                 events: seq<Event>, leaf: Pos)
    requires Visited(tree, target, exact, node, seen, best, events) && node != []
    requires var up := node[..|node| - 1];
      && Splits(tree, target, up)
      && CalcDistanceSquareByAxis(target, At(tree.root, up).value, At(tree.root, up).axis) < best.distance
    requires Off(node, |node| - 1) !in seen
    requires IsNode(tree.root, leaf) && Below(Off(node, |node| - 1), leaf)
    requires forall i | |node| <= i < |leaf| :: DescentStep(tree, target, leaf, i)
    requires exact ==> IsLeaf(At(tree.root, leaf))
    ensures Searching(tree, target, exact, leaf, seen + {node}, Some(best),
                      events + [SwitchedSiblingBranch(node[..|node| - 1], best.distance)])
  {
    var up := node[..|node| - 1];
    JumpKeepsPath(tree, target, node, seen, leaf);
    if exact {
      JumpKeepsSettled(tree, target, node, seen, best, leaf);
    }
    SwitchKeepsLogs(tree, target, events, seen + {node}, best, up);
  }

  /** A justified switch event keeps the log of the visited set. */
  lemma SwitchKeepsLogs(tree: KDTree, target: Point, events: seq<Event>, visited: set<Pos>, best: Candidate, up: Pos)
    requires Logs(tree, target, events, visited, Some(best))
    requires Splits(tree, target, up)
    requires CalcDistanceSquareByAxis(target, At(tree.root, up).value, At(tree.root, up).axis) < best.distance
    ensures Logs(tree, target, events + [SwitchedSiblingBranch(up, best.distance)], visited, Some(best))
  {
    var switchEvent := [SwitchedSiblingBranch(up, best.distance)];
    SwitchLogged(events, up, best.distance);
    assert SwitchesJustified(tree, target, switchEvent);
    SwitchesAppend(tree, target, events, switchEvent);
  }

  /** Visiting the root ends the search: its best is closest among the
      visited nodes and, when `exact`, in the whole tree. */
  lemma RootStep(tree: KDTree, target: Point, exact: bool, seen: set<Pos>, best: Candidate, events: seq<Event>)
    requires Visited(tree, target, exact, [], seen, best, events)
    ensures IsNode(tree.root, best.node) && LastBest(events) == Some(best.node)
    ensures forall x <- Visits(events) ::
              IsNode(tree.root, x)
              && DistanceSquare(target, At(tree.root, best.node).value) <= DistanceSquare(target, At(tree.root, x).value)
    ensures exact ==> IsNearest(tree, target, best.node)
    ensures EventsWellOrdered(events) && NoRepeats(Visits(events)) && SwitchesJustified(tree, target, events)
  {
    PositionsAreNodes(tree.root, []);
    forall x <- Visits(events) ensures IsNode(tree.root, x) {
      assert x in seen + {[]};
      if x in seen {
        PositionsAreNodes(tree.root, x);
      }
    }
    if exact {
      NodeCovered(target, tree.root, Left, best);
    }
  }

  /** The first sibling test of `FindNearest`: the parent's left child
      unless that is the node itself, else its right child. */
  lemma SiblingIsOff(tree: KDTree, node: Pos)
    requires IsNode(tree.root, node) && node != []
    ensures var up := node[..|node| - 1];
      && IsNode(tree.root, up)
      && (if up + [Left] != node then up + [Left] else up + [Right]) == Off(node, |node| - 1)
  {
    PrefixIsNode(tree.root, node, |node| - 1);
    assert node == node[..|node| - 1] + [node[|node| - 1]];
  }

  /** The start of one round of `FindNearest`: the distance to `node` is
      computed and the visit logged; a strictly closer node becomes the best
      and is reported right after its visit. */
  method VisitNode(tree: KDTree, target: Point, ghost exact: bool, node: Pos, ghost visited: set<Pos>,
                   best: Option<Candidate>, events: seq<Event>)
    returns (newBest: Candidate, newEvents: seq<Event>)
    requires Searching(tree, target, exact, node, visited, best, events)
    ensures var d := DistanceSquare(target, At(tree.root, node).value);
      if best.None? || d < best.value.distance then
        newBest == Candidate(node, d) && newEvents == events + [NodeVisited(node), BestNodeChanged(node)]
      else
        newBest == best.value && newEvents == events + [NodeVisited(node)]
    ensures Visited(tree, target, exact, node, visited, newBest, newEvents)
  {
    ReadableAt(tree, target, node);
    var current := At(tree.root, node);
    var distance := CalcDistanceSquare(tree.axisCount, target, current.value);
    assert target[..tree.axisCount] == target && current.value[..tree.axisCount] == current.value;
    VisitStep(tree, target, exact, node, visited, best, events, distance);
    var improved := best.None? || distance < best.value.distance;
    newBest := if improved then Candidate(node, distance) else best.value;
    newEvents := if improved then events + [NodeVisited(node), BestNodeChanged(node)] else events + [NodeVisited(node)];
  }

  /** The end of one round of `FindNearest`, after visiting `node`: when
      the sibling branch is non-null, unvisited, and the parent's split is
      closer than the best, log the switch and descend into the sibling;
      otherwise climb to the parent. */
  method ClimbOrSwitch(tree: KDTree, target: Point, toLeaf: bool, ghost exact: bool, node: Pos, ghost seen: set<Pos>,
                       visited: set<Pos>, best: Candidate, events: seq<Event>)
    returns (next: Pos, nextEvents: seq<Event>)
    requires exact == (toLeaf || Full(tree.root))
    requires Visited(tree, target, exact, node, seen, best, events) && node != [] && visited == seen + {node}
    ensures Searching(tree, target, exact, next, visited, Some(best), nextEvents)
    ensures var up := node[..|node| - 1];
            var sibling := Off(node, |node| - 1);
            if IsNode(tree.root, sibling) && sibling !in visited && Splits(tree, target, up)
               && CalcDistanceSquareByAxis(target, At(tree.root, up).value, At(tree.root, up).axis) < best.distance
            then
              && nextEvents == events + [SwitchedSiblingBranch(up, best.distance)]
              && Below(sibling, next)
              && (forall i | |sibling| <= i < |next| :: DescentStep(tree, target, next, i))
              && (if toLeaf then IsLeaf(At(tree.root, next)) else StopsAt(tree, target, next))
            else next == up && nextEvents == events
  {
    var up := node[..|node| - 1];
    var sibling := if up + [Left] != node then up + [Left] else up + [Right];
    SiblingIsOff(tree, node);
    if IsNode(tree.root, sibling) && sibling !in visited {
      ReadableAt(tree, target, up);
      var parent := At(tree.root, up);
      var axisDistance := CalcDistanceSquareByAxis(target, parent.value, parent.axis);
      if axisDistance < best.distance {
        nextEvents := events + [SwitchedSiblingBranch(up, best.distance)];
        next := Descend(tree, sibling, target, toLeaf);
        JumpStep(tree, target, exact, node, seen, best, events, next);
        return;
      }
    }
    ClimbStep(tree, target, exact, node, seen, best, events);
    next, nextEvents := up, events;
  }

  /** `FindNearest(targetValue)`, with the descent it makes chosen by
      `toLeaf`: descend to a leaf, then climb, visiting each node once;
      at each node whose sibling branch is unvisited and whose parent's
      split is closer than the best so far, jump to the leaf of a descent
      into that sibling. */
  method ClimbingSearch(tree: KDTree, target: Point, toLeaf: bool) returns (r: Result<Pos, Error>, events: seq<Event>)
    requires Valid(tree)
    ensures |target| != tree.axisCount ==> r == Err(TargetLengthMismatch) && events == []
    ensures |target| == tree.axisCount == 0 ==> r == Err(IndexOutOfRange) && events == []
    ensures |target| == tree.axisCount > 0 ==> r.Ok?
    ensures r.Ok? ==> IsNode(tree.root, r.value) && LastBest(events) == Some(r.value)
    ensures r.Ok? ==> forall x <- Visits(events) ::
              IsNode(tree.root, x)
              && DistanceSquare(target, At(tree.root, r.value).value) <= DistanceSquare(target, At(tree.root, x).value)
    ensures r.Ok? && (toLeaf || Full(tree.root)) ==> IsNearest(tree, target, r.value)
    ensures EventsWellOrdered(events) && NoRepeats(Visits(events)) && SwitchesJustified(tree, target, events)
    ensures |target| == tree.axisCount > 0 && (if toLeaf then IsLeaf(tree.root) else StopsAt(tree, target, [])) ==>
              r == Ok([]) && events == [NodeVisited([]), BestNodeChanged([])]
  {
    if |target| != tree.axisCount {
      return Err(TargetLengthMismatch), [];
    }
    if tree.axisCount == 0 {
      // The first descent reads the target on the root's axis 0 and fails.
      return Err(IndexOutOfRange), [];
    }
    ghost var exact := toLeaf || Full(tree.root);
    var node := Descend(tree, [], target, toLeaf);
    var visited: set<Pos> := {};
    var best: Option<Candidate> := None;
    events := [];
    SearchStarts(tree, target, exact, node);
    ghost var rootFirst := node == [];
    while true
      invariant Searching(tree, target, exact, node, visited, best, events)
      invariant rootFirst ==> node == [] && best == None && events == []
      decreases Positions(tree.root) - visited
    {
      ghost var seen := visited;
      var newBest;
      newBest, events := VisitNode(tree, target, exact, node, visited, best, events);
      visited, best := visited + {node}, Some(newBest);
      if node == [] {
        RootStep(tree, target, exact, seen, newBest, events);
        break;
      }
      node, events := ClimbOrSwitch(tree, target, toLeaf, exact, node, seen, visited, newBest, events);
    }
    r := Ok(best.value.node);
  }

  /** `FindNearest(targetValue)` as written: every descent is
      `FindLeafByAsix`, which may stop above a leaf. The result is the
      closest of the visited nodes, and a nearest neighbour when the tree is
      full; on other trees it can miss (see `FindNearestMissesNearest`). */
  method FindNearest(tree: KDTree, target: Point) returns (r: Result<Pos, Error>, events: seq<Event>)
    requires Valid(tree)
    ensures |target| != tree.axisCount ==> r == Err(TargetLengthMismatch) && events == []
    ensures |target| == tree.axisCount == 0 ==> r == Err(IndexOutOfRange) && events == []
    ensures |target| == tree.axisCount > 0 ==> r.Ok?
    ensures r.Ok? ==> IsNode(tree.root, r.value) && LastBest(events) == Some(r.value)
    ensures r.Ok? ==> forall x <- Visits(events) ::
              IsNode(tree.root, x)
              && DistanceSquare(target, At(tree.root, r.value).value) <= DistanceSquare(target, At(tree.root, x).value)
    ensures r.Ok? && Full(tree.root) ==> IsNearest(tree, target, r.value)
    ensures EventsWellOrdered(events) && NoRepeats(Visits(events)) && SwitchesJustified(tree, target, events)
    ensures |target| == tree.axisCount > 0 && StopsAt(tree, target, []) ==>
              r == Ok([]) && events == [NodeVisited([]), BestNodeChanged([])]
  {
    r, events := ClimbingSearch(tree, target, false);
  }

  /** `FindNearest` with the evidently intended descent, which goes on into
      the only child of a node: its result is a nearest neighbour on every
      valid tree. */
  method FindNearestCorrected(tree: KDTree, target: Point) returns (r: Result<Pos, Error>, events: seq<Event>)
    requires Valid(tree)
    ensures |target| != tree.axisCount ==> r == Err(TargetLengthMismatch) && events == []
    ensures |target| == tree.axisCount == 0 ==> r == Err(IndexOutOfRange) && events == []
    ensures |target| == tree.axisCount > 0 ==> r.Ok? && IsNearest(tree, target, r.value)
    ensures r.Ok? ==> LastBest(events) == Some(r.value)
    ensures EventsWellOrdered(events) && NoRepeats(Visits(events)) && SwitchesJustified(tree, target, events)
  {
    r, events := ClimbingSearch(tree, target, true);
  }

  /** Two nearest neighbours are equally far from the target, so on a full
      tree `FindNearest` and `FindNearestRecursion` return nodes at the same
      distance, though on a tie not necessarily the same node. */
  lemma NearestAreEquallyFar(tree: KDTree, target: Point, p: Pos, q: Pos)
    requires IsNearest(tree, target, p) && IsNearest(tree, target, q)
    ensures DistanceSquare(target, At(tree.root, p).value) == DistanceSquare(target, At(tree.root, q).value)
  {
    PointsBelow(tree.root, p);
    PointsBelow(tree.root, q);
  }

  /** The tree built from `[[0, 50], [10, 0]]` on two axes: the root
      `[10, 0]` splits on axis 0 and has only a left child, `[0, 50]`. */
  lemma SmallTree()
    ensures Construct([[0, 50], [10, 0]], 2, 0)
            == Ok(KDTree(Node([10, 0], 0, Node([0, 50], 1, Nil, Nil), Nil), 2))
  {
    SmallTreeNormalised();
    SmallTreeDistinct();
    SmallTreeCreated();
  }

  lemma SmallTreeNormalised()
    ensures EqualLength([[0, 50], [10, 0]], 2, 0) == [[0, 50], [10, 0]]
  {
    var r := EqualLength([[0, 50], [10, 0]], 2, 0);
    assert r[0] == Normalize([0, 50], 2, 0) == [0, 50];
    assert r[1] == Normalize([10, 0], 2, 0) == [10, 0];
  }

  lemma SmallTreeDistinct()
    ensures Distinct([[0, 50], [10, 0]]) == [[0, 50], [10, 0]]
  {
    var s: seq<Point> := [[0, 50], [10, 0]];
    assert s[..1] == [[0, 50]];
    assert Distinct([[0, 50]]) == [[0, 50]] by {
      assert [[0, 50]][..0] == [];
    }
    assert !ArrayEqualityComparer.Equals(Some([0, 50]), Some([10, 0]));
  }

  lemma SmallTreeCreated()
    ensures CreateRecursion(0, 2, [[0, 50], [10, 0]]) == Node([10, 0], 0, Node([0, 50], 1, Nil, Nil), Nil)
  {
    var s: seq<Point> := [[0, 50], [10, 0]];
    assert s[1..] == [[10, 0]];
    assert SortByAxis([[10, 0]], 0) == [[10, 0]] by {
      assert [[10, 0]][1..] == [];
    }
    assert SortByAxis(s, 0) == s;
    assert s[..1] == [[0, 50]] && s[2..] == [];
  }

  /** The finding: on the tree above, `FindNearest` returns the root
      `[10, 0]`, at squared distance 2500 from `[10, 50]`, although the
      stored point `[0, 50]` is at squared distance 100. The target is above
      the root on axis 0, the root's right child is null, so the first
      descent stops at the root and the search ends there. */
  method FindNearestMissesNearest() returns (tree: KDTree, r: Result<Pos, Error>)
    ensures Construct([[0, 50], [10, 0]], 2, 0) == Ok(tree)
    ensures r == Ok([]) && At(tree.root, []).value == [10, 0]
    ensures DistanceSquare([10, 50], [10, 0]) == 2500 && DistanceSquare([10, 50], [0, 50]) == 100
    ensures [0, 50] in Points(tree.root) && !IsNearest(tree, [10, 50], r.value)
  {
    SmallTree();
    tree := KDTree(Node([10, 0], 0, Node([0, 50], 1, Nil, Nil), Nil), 2);
    SmallTreeSearch(tree);
    var events;
    r, events := FindNearest(tree, [10, 50]);
  }

  /** The tree above is valid, the target `[10, 50]` stops the descent at
      the root, and the distances are as stated. */
  lemma SmallTreeSearch(tree: KDTree)
    requires tree == KDTree(Node([10, 0], 0, Node([0, 50], 1, Nil, Nil), Nil), 2)
    ensures Valid(tree) && StopsAt(tree, [10, 50], [])
    ensures DistanceSquare([10, 50], [10, 0]) == 2500 && DistanceSquare([10, 50], [0, 50]) == 100
    ensures [0, 50] in Points(tree.root)
  {
    assert WellFormed(tree.root.left, 2);
    assert DistanceSquare([10, 50], [0, 50]) == 100 by {
      assert [10, 50][1..] == [50] && [0, 50][1..] == [50];
      assert [50][1..] == [];
    }
    assert DistanceSquare([10, 50], [10, 0]) == 2500 by {
      assert [10, 50][1..] == [50] && [10, 0][1..] == [0];
      assert [50][1..] == [] && [0][1..] == [];
    }
  }
}
