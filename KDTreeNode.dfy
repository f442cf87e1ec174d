/** Nodes of the KD-tree and their construction by recursive median
    splitting (KDTree/KDTreeNode.cs), over `int` coordinates. */
module KDTreeNode {
  import opened Wrappers
  import ArrayIndexComparer

  type Point = seq<int>

  /** One of a node's two child slots. */
  datatype Side = Left | Right

  /** A node is identified by its position: the child slots taken on the way
      down from the root. The root is `[]`; a node's `Parent` is its position
      without the last step, so parent and child links agree by construction. */
  type Pos = seq<Side>

  /** A subtree. `Nil` is a null child; a node stores its point, the axis it
      splits on, and its two children. */
  datatype Tree = Nil | Node(value: Point, axis: nat, left: Tree, right: Tree)

  function Flip(d: Side): Side
  {
    if d == Left then Right else Left
  }

  function Child(t: Tree, d: Side): Tree
    requires t.Node?
  {
    if d == Left then t.left else t.right
  }

  /** The subtree at position `p`; `Nil` once `p` leaves the tree. */
  function At(t: Tree, p: Pos): Tree
    decreases |p|
  {
    if p == [] then t
    else if t.Nil? then Nil
    else At(Child(t, p[0]), p[1..])
  }

  predicate IsNode(t: Tree, p: Pos)
  {
    At(t, p).Node?
  }

  /** `Parent`: null for the root, otherwise one step up. */
  function Parent(p: Pos): (r: Option<Pos>)
    ensures r.None? <==> p == []
    ensures r.Some? ==> r.value + [p[|p| - 1]] == p
  {
    if p == [] then None else Some(p[..|p| - 1])
  }

  /** `IsRoot`: the node has no parent. */
  predicate IsRoot(p: Pos)
  {
    Parent(p).None?
  }

  /** `IsLeaf`: both child slots are null. */
  predicate IsLeaf(t: Tree)
    requires t.Node?
  {
    t.left.Nil? && t.right.Nil?
  }

  /** The indexer `node[index]`: a coordinate of the node's point. */
  function Coordinate(t: Tree, index: nat): int
    requires t.Node? && index < |t.value|
  {
    t.value[index]
  }

  /** The multiset of points stored in a subtree. */
  function Points(t: Tree): multiset<Point>
  {
    match t
    case Nil => multiset{}
    case Node(v, _, l, r) => multiset{v} + Points(l) + Points(r)
  }

  function Size(t: Tree): nat
  {
    match t
    case Nil => 0
    case Node(_, _, l, r) => 1 + Size(l) + Size(r)
  }

  function Height(t: Tree): nat
  {
    match t
    case Nil => 0
    case Node(_, _, l, r) => 1 + if Height(l) < Height(r) then Height(r) else Height(l)
  }

  /** Positions of all nodes of a subtree. */
  function Positions(t: Tree): set<Pos>
  {
    match t
    case Nil => {}
    case Node(_, _, l, r) =>
      {[]} + (set q | q in Positions(l) :: [Left] + q) + (set q | q in Positions(r) :: [Right] + q)
  }

  /** The KD-tree invariant for points of `k` coordinates: every node splits
      on an axis below `k`, and on that axis no point of its left subtree is
      above the node's point and no point of its right subtree is below it. */
  ghost predicate WellFormed(t: Tree, k: nat)
  {
    match t
    case Nil => true
    case Node(v, a, l, r) =>
      && |v| == k && a < k
      && WellFormed(l, k) && WellFormed(r, k)
      && (forall u {:trigger Points(l)[u]} | u in Points(l) :: a < |u| && u[a] <= v[a])
      && (forall u {:trigger Points(r)[u]} | u in Points(r) :: a < |u| && v[a] <= u[a])
  }

  /** Every node has either no child or two. */
  ghost predicate Full(t: Tree)
  {
    match t
    case Nil => true
    case Node(_, _, l, r) => (l.Nil? <==> r.Nil?) && Full(l) && Full(r)
  }

  /** Every node of `n` nodes has `n / 2` of them on its left. */
  ghost predicate Balanced(t: Tree)
  {
    match t
    case Nil => true
    case Node(_, _, l, r) => Size(l) == Size(t) / 2 && Balanced(l) && Balanced(r)
  }

  // ---------------------------------------------------------------------
  // Positions and links

  lemma {:induction false} AtConcat(t: Tree, p: Pos, q: Pos)
    ensures At(t, p + q) == At(At(t, p), q)
    decreases |p|
  {
    if p == [] {
      assert p + q == q;
    } else if t.Nil? {
      assert At(t, p + q) == Nil;
      NilAt(q);
    } else {
      assert (p + q)[1..] == p[1..] + q;
      AtConcat(Child(t, p[0]), p[1..], q);
    }
  }

  lemma {:induction false} NilAt(q: Pos)
    ensures At(Nil, q) == Nil
  {
  }

  /** One step down from a position is the corresponding child slot. */
  lemma AtChild(t: Tree, p: Pos, d: Side)
    ensures At(t, p).Node? ==> At(t, p + [d]) == Child(At(t, p), d)
    ensures At(t, p).Nil? ==> At(t, p + [d]) == Nil
  {
    AtConcat(t, p, [d]);
  }

  /** A node below a position lies inside the subtree at that position. */
  lemma {:induction false} PointsBelow(t: Tree, q: Pos)
    requires At(t, q).Node?
    ensures Points(At(t, q)) <= Points(t)
    ensures At(t, q).value in Points(t)
    decreases |q|
  {
    if q != [] {
      PointsBelow(Child(t, q[0]), q[1..]);
    }
  }

  /** `Positions` lists exactly the nodes of a tree. */
  lemma {:induction false} PositionsAreNodes(t: Tree, p: Pos)
    ensures p in Positions(t) <==> IsNode(t, p)
    decreases |p|
  {
    match t
    case Nil =>
      NilAt(p);
    case Node(_, _, l, r) =>
      if p != [] {
        PositionsAreNodes(Child(t, p[0]), p[1..]);
        assert p == [p[0]] + p[1..];
        if p[0] == Left {
          assert p in Positions(t) <==> p[1..] in Positions(l);
        } else {
          assert p in Positions(t) <==> p[1..] in Positions(r);
        }
      }
  }

  /** `Parent`, `Left` and `Right` agree: every node but the root has a parent
      node, and it sits in exactly the parent's slot named by its last step,
      the other slot holding its sibling. */
  lemma ParentLink(t: Tree, p: Pos)
    requires IsNode(t, p) && !IsRoot(p)
    ensures IsNode(t, Parent(p).value)
    ensures Child(At(t, Parent(p).value), p[|p| - 1]) == At(t, p)
    ensures Child(At(t, Parent(p).value), Flip(p[|p| - 1])) == At(t, Parent(p).value + [Flip(p[|p| - 1])])
  {
    var q := Parent(p).value;
    assert p == q + [p[|p| - 1]];
    AtChild(t, q, p[|p| - 1]);
    AtChild(t, q, Flip(p[|p| - 1]));
  }

  /** `IsLeaf` holds exactly when neither child position is a node. */
  lemma LeafHasNoChildPositions(t: Tree, p: Pos)
    requires IsNode(t, p)
    ensures IsLeaf(At(t, p)) <==> !IsNode(t, p + [Left]) && !IsNode(t, p + [Right])
  {
    AtChild(t, p, Left);
    AtChild(t, p, Right);
  }

  /** `IsRoot` holds exactly for the node that is the whole tree: every
      other node is a proper subtree, hence smaller. */
  lemma RootIsWholeTree(t: Tree, p: Pos)
    requires IsNode(t, p)
    ensures IsRoot(p) <==> At(t, p) == t
  {
    if p != [] {
      AtShrinks(t, p);
    }
  }

  /** A subtree reached by at least one step is smaller than the tree. */
  lemma {:induction false} AtShrinks(t: Tree, p: Pos)
    requires p != [] && t.Node?
    ensures Size(At(t, p)) < Size(t)
  {
    AtNoLarger(Child(t, p[0]), p[1..]);
  }

  lemma {:induction false} AtNoLarger(t: Tree, p: Pos)
    ensures Size(At(t, p)) <= Size(t)
    decreases |p|
  {
    if p != [] && t.Node? {
      AtNoLarger(Child(t, p[0]), p[1..]);
    }
  }

  /** The indexer on the node's own axis separates its subtrees: the left
      points lie at or below it, the right points at or above it. */
  lemma SplitsAtCoordinate(t: Tree, k: nat)
    requires t.Node? && WellFormed(t, k)
    ensures forall u <- Points(t.left) :: t.axis < |u| && u[t.axis] <= Coordinate(t, t.axis)
    ensures forall u <- Points(t.right) :: t.axis < |u| && Coordinate(t, t.axis) <= u[t.axis]
  {
  }

  /** The stored points are as many as the nodes. */
  lemma {:induction false} PointsCountNodes(t: Tree)
    ensures |Points(t)| == Size(t)
  {
    match t
    case Nil =>
    case Node(_, _, l, r) =>
      PointsCountNodes(l);
      PointsCountNodes(r);
  }

  /** `q` lies in the subtree at `p`: `p` is a prefix of `q`. */
  predicate Below(p: Pos, q: Pos)
  {
    |p| <= |q| && q[..|p|] == p
  }

  /** The sibling of the ancestor of `p` at depth `i + 1`: the branch left
      aside at step `i` on the way down to `p`. */
  function Off(p: Pos, i: nat): Pos
    requires i < |p|
  {
    p[..i] + [Flip(p[i])]
  }

  /** Every ancestor of a node is a node. */
  lemma PrefixIsNode(t: Tree, p: Pos, i: nat)
    requires IsNode(t, p) && i <= |p|
    ensures IsNode(t, p[..i])
  {
    assert p == p[..i] + p[i..];
    AtConcat(t, p[..i], p[i..]);
    if At(t, p[..i]).Nil? {
      NilAt(p[i..]);
    }
  }

  /** Two positions below different children of one node are different. */
  lemma BelowSidesDiffer(p: Pos, d: Side, x: Pos, y: Pos)
    requires Below(p + [d], x) && Below(p + [Flip(d)], y)
    ensures x != y
  {
    assert x[|p|] == (p + [d])[|p|];
    assert y[|p|] == (p + [Flip(d)])[|p|];
  }

  /** The invariants of a tree hold in each of its subtrees. */
  lemma {:induction false} WellFormedAt(t: Tree, k: nat, p: Pos)
    requires WellFormed(t, k)
    ensures WellFormed(At(t, p), k)
    decreases |p|
  {
    if p != [] && t.Node? {
      WellFormedAt(Child(t, p[0]), k, p[1..]);
    }
  }

  lemma {:induction false} FullAt(t: Tree, p: Pos)
    requires Full(t)
    ensures Full(At(t, p))
    decreases |p|
  {
    if p != [] && t.Node? {
      FullAt(Child(t, p[0]), p[1..]);
    }
  }

  /** Every point of a well-formed tree has `k` coordinates. */
  lemma {:induction false} PointsOfLength(t: Tree, k: nat)
    requires WellFormed(t, k)
    ensures forall u | u in Points(t) :: |u| == k
  {
    if t.Node? {
      PointsOfLength(t.left, k);
      PointsOfLength(t.right, k);
    }
  }

  // ---------------------------------------------------------------------
  // Sorting a slice by one axis

  /** Every point has a coordinate at `axis`. */
  ghost predicate HasAxis(s: seq<Point>, axis: nat)
  {
    forall v <- s :: axis < |v|
  }

  /** The points are in ascending order of their coordinate at `axis`. */
  ghost predicate SortedBy(s: seq<Point>, axis: nat)
  {
    forall i, j | 0 <= i < j < |s| :: axis < |s[i]| && axis < |s[j]| && s[i][axis] <= s[j][axis]
  }

  lemma MultisetMembers(s: seq<Point>, r: seq<Point>)
    requires multiset(r) == multiset(s)
    ensures forall v <- r :: v in s
  {
    forall v <- r ensures v in s {
      assert v in multiset(r);
    }
  }

  /** Prepending a point not above any point of an ascending slice keeps it
      ascending. */
  lemma SortedCons(axis: nat, x: Point, s: seq<Point>)
    requires axis < |x| && HasAxis(s, axis) && SortedBy(s, axis)
    requires forall v <- s :: x[axis] <= v[axis]
    ensures HasAxis([x] + s, axis) && SortedBy([x] + s, axis)
  {
    var r := [x] + s;
    forall i, j | 0 <= i < j < |r| ensures axis < |r[i]| && axis < |r[j]| && r[i][axis] <= r[j][axis] {
      assert r[j] == s[j - 1];
      assert r[j] in s;
      if i > 0 {
        assert r[i] == s[i - 1];
      }
    }
  }

  /** Inserts `x` into an ascending slice, before the first point it does not
      compare above. */
  function Insert(axis: nat, x: Point, s: seq<Point>): (r: seq<Point>)
    requires axis < |x| && HasAxis(s, axis) && SortedBy(s, axis)
    ensures multiset(r) == multiset(s) + multiset{x}
    ensures HasAxis(r, axis) && SortedBy(r, axis)
  {
    if s == [] then [x]
    else if ArrayIndexComparer.Compare(axis, Some(x), Some(s[0])) <= 0 then
      InsertFront(axis, x, s);
      [x] + s
    else
      var rest := Insert(axis, x, s[1..]);
      InsertBehind(axis, x, s, rest);
      [s[0]] + rest
  }

  lemma InsertFront(axis: nat, x: Point, s: seq<Point>)
    requires axis < |x| && HasAxis(s, axis) && SortedBy(s, axis) && s != []
    requires x[axis] <= s[0][axis]
    ensures HasAxis([x] + s, axis) && SortedBy([x] + s, axis)
  {
    forall v <- s ensures x[axis] <= v[axis] {
      var j :| 0 <= j < |s| && s[j] == v;
      if j > 0 {
        assert s[0][axis] <= s[j][axis];
      }
    }
    SortedCons(axis, x, s);
  }

  lemma InsertBehind(axis: nat, x: Point, s: seq<Point>, rest: seq<Point>)
    requires axis < |x| && HasAxis(s, axis) && SortedBy(s, axis) && s != []
    requires s[0][axis] < x[axis]
    requires multiset(rest) == multiset(s[1..]) + multiset{x}
    requires HasAxis(rest, axis) && SortedBy(rest, axis)
    ensures multiset([s[0]] + rest) == multiset(s) + multiset{x}
    ensures HasAxis([s[0]] + rest, axis) && SortedBy([s[0]] + rest, axis)
  {
    assert s == [s[0]] + s[1..];
    forall v <- rest ensures s[0][axis] <= v[axis] {
      assert v in multiset(rest);
      if v != x {
        assert v in multiset(s[1..]);
        var j :| 0 <= j < |s[1..]| && s[1..][j] == v;
        assert s[j + 1] == v;
      }
    }
    assert s[0] in s;
    SortedCons(axis, s[0], rest);
  }

  /** Array.Sort with the comparer for `axis`: an ascending permutation. */
  function SortByAxis(s: seq<Point>, axis: nat): (r: seq<Point>)
    requires HasAxis(s, axis)
    ensures multiset(r) == multiset(s)
    ensures HasAxis(r, axis) && SortedBy(r, axis)
  {
    if s == [] then []
    else
      assert s == [s[0]] + s[1..];
      Insert(axis, s[0], SortByAxis(s[1..], axis))
  }

  // ---------------------------------------------------------------------
  // Construction

  /** Every point has exactly `k` coordinates. */
  ghost predicate AllOfLength(s: seq<Point>, k: nat)
  {
    forall v <- s :: |v| == k
  }

  /** The facts about the sorted slice that every step of construction uses:
      the two halves around element `len / 2` partition the input's points. */
  lemma SplitSlices(axis: nat, maxAxis: nat, values: seq<Point>)
    requires AllOfLength(values, maxAxis) && |values| >= 2 && axis < maxAxis
    ensures var sorted := SortByAxis(values, axis);
      var mid := |sorted| / 2;
      && |sorted| == |values|
      && AllOfLength(sorted, maxAxis)
      && AllOfLength(sorted[..mid], maxAxis)
      && AllOfLength(sorted[mid + 1..], maxAxis)
      && multiset(values) == multiset{sorted[mid]} + multiset(sorted[..mid]) + multiset(sorted[mid + 1..])
  {
    var sorted := SortByAxis(values, axis);
    assert |multiset(sorted)| == |multiset(values)|;
    MultisetMembers(values, sorted);
    SliceAround(sorted, |sorted| / 2, maxAxis);
  }

  /** The points before and after position `mid` together with the point at
      `mid` are the whole slice. */
  lemma SliceAround(s: seq<Point>, mid: nat, k: nat)
    requires AllOfLength(s, k) && mid < |s|
    ensures AllOfLength(s[..mid], k) && AllOfLength(s[mid + 1..], k)
    ensures multiset(s) == multiset{s[mid]} + multiset(s[..mid]) + multiset(s[mid + 1..])
  {
    assert s == s[..mid] + [s[mid]] + s[mid + 1..];
  }

  /** `CreateRecursion`: an empty slice gives a null subtree and a single
      point a leaf; otherwise the slice is sorted on `axis`, its element at
      `len / 2` becomes the node, and the points before and after it become
      the left and right subtrees, split on the next axis. The comparer
      indexes every point at `axis`, so points carry `maxAxis` coordinates. */
  function CreateRecursion(axis: nat, maxAxis: nat, values: seq<Point>): (t: Tree)
    requires AllOfLength(values, maxAxis)
    requires |values| >= 2 ==> axis < maxAxis
    ensures Points(t) == multiset(values)
    ensures t.Nil? <==> values == []
    ensures t.Node? ==> t.axis == axis
    decreases |values|
  {
    if |values| == 0 then Nil
    else if |values| == 1 then
      assert values == [values[0]];
      Node(values[0], axis, Nil, Nil)
    else
      var sorted := SortByAxis(values, axis);
      var mid := |sorted| / 2;
      var next := (axis + 1) % maxAxis;
      SplitSlices(axis, maxAxis, values);
      Node(sorted[mid], axis,
           CreateRecursion(next, maxAxis, sorted[..mid]),
           CreateRecursion(next, maxAxis, sorted[mid + 1..]))
  }

  /** `Create`: builds the whole tree; the source asserts a non-null root,
      so the slice must not be empty. */
  function Create(axis: nat, maxAxis: nat, values: seq<Point>): (root: Tree)
    requires values != []
    requires AllOfLength(values, maxAxis)
    requires |values| >= 2 ==> axis < maxAxis
    ensures root.Node? && Points(root) == multiset(values)
  {
    CreateRecursion(axis, maxAxis, values)
  }

  /** In an ascending slice, the points before `mid` are not above it and the
      points after it are not below it. */
  lemma SplitBySorted(sorted: seq<Point>, axis: nat, mid: nat)
    requires SortedBy(sorted, axis) && HasAxis(sorted, axis) && mid < |sorted|
    ensures forall u | u in multiset(sorted[..mid]) :: axis < |u| && u[axis] <= sorted[mid][axis]
    ensures forall u | u in multiset(sorted[mid + 1..]) :: axis < |u| && sorted[mid][axis] <= u[axis]
  {
    forall u | u in multiset(sorted[..mid]) ensures axis < |u| && u[axis] <= sorted[mid][axis] {
      var i :| 0 <= i < mid && sorted[..mid][i] == u;
      assert sorted[i] == u;
    }
    forall u | u in multiset(sorted[mid + 1..]) ensures axis < |u| && sorted[mid][axis] <= u[axis] {
      var i :| 0 <= i < |sorted| - mid - 1 && sorted[mid + 1..][i] == u;
      assert sorted[mid + 1 + i] == u;
    }
  }

  /** The node built from a slice of two or more points is an axis median of
      it: `len / 2` points at or below it on its axis go left, the rest, at or
      above it, go right. */
  lemma CreateMedian(axis: nat, maxAxis: nat, values: seq<Point>)
    requires AllOfLength(values, maxAxis) && |values| >= 2 && axis < maxAxis
    ensures var t := CreateRecursion(axis, maxAxis, values);
      && t.value in multiset(values)
      && |Points(t.left)| == |values| / 2
      && |Points(t.right)| == |values| - |values| / 2 - 1
      && (forall u | u in Points(t.left) :: axis < |u| && u[axis] <= t.value[axis])
      && (forall u | u in Points(t.right) :: axis < |u| && t.value[axis] <= u[axis])
  {
    var t := CreateRecursion(axis, maxAxis, values);
    var sorted := SortByAxis(values, axis);
    var mid := |sorted| / 2;
    var below, above := multiset(sorted[..mid]), multiset(sorted[mid + 1..]);
    assert sorted[mid] in multiset(values) && |below| == |values| / 2 && |above| == |values| - |values| / 2 - 1
      && (forall u | u in below :: axis < |u| && u[axis] <= sorted[mid][axis])
      && (forall u | u in above :: axis < |u| && sorted[mid][axis] <= u[axis]) by {
      SplitSlices(axis, maxAxis, values);
      SplitBySorted(sorted, axis, mid);
    }
    assert t.value == sorted[mid] && Points(t.left) == below && Points(t.right) == above by {
      SplitSlices(axis, maxAxis, values);
    }
  }

  /** The constructed tree satisfies the KD-tree invariant. */
  lemma {:induction false} CreateWellFormed(axis: nat, maxAxis: nat, values: seq<Point>)
    requires AllOfLength(values, maxAxis) && axis < maxAxis
    ensures WellFormed(CreateRecursion(axis, maxAxis, values), maxAxis)
    decreases |values|
  {
    if |values| >= 2 {
      var sorted := SortByAxis(values, axis);
      var mid := |sorted| / 2;
      var next := (axis + 1) % maxAxis;
      SplitSlices(axis, maxAxis, values);
      CreateWellFormed(next, maxAxis, sorted[..mid]);
      CreateWellFormed(next, maxAxis, sorted[mid + 1..]);
      SplitBySorted(sorted, axis, mid);
      assert sorted[mid] in sorted;
    } else if |values| == 1 {
      assert values[0] in values;
    }
  }

  lemma MulAtLeast(m: int, k: int)
    requires m > 0 && k >= 1
    ensures m * k >= m
  {
  }

  /** Division with remainder is unique. */
  lemma ModUnique(x: int, m: int, q: int, r: int)
    requires m > 0 && 0 <= r < m && x == m * q + r
    ensures x % m == r
  {
    var q', r' := x / m, x % m;
    assert m * (q - q') == r' - r;
    if q - q' >= 1 {
      MulAtLeast(m, q - q');
    }
    if q' - q >= 1 {
      MulAtLeast(m, q' - q);
    }
  }

  /** Stepping to the next axis and then `d` more is stepping `d + 1` axes. */
  lemma NextAxisThenDepth(axis: nat, maxAxis: nat, d: nat)
    requires axis < maxAxis
    ensures ((axis + 1) % maxAxis + d) % maxAxis == (axis + 1 + d) % maxAxis
  {
    if axis + 1 < maxAxis {
      ModUnique(axis + 1, maxAxis, 0, axis + 1);
    } else {
      ModUnique(axis + 1, maxAxis, 1, 0);
      ModUnique(axis + 1 + d, maxAxis, 1 + d / maxAxis, d % maxAxis);
    }
  }

  /** The axis `d` steps of `(axis + 1) % maxAxis` after `axis`. */
  function AxisAfter(axis: nat, maxAxis: nat, d: nat): nat
    requires maxAxis > 0
    decreases d
  {
    if d == 0 then axis else AxisAfter((axis + 1) % maxAxis, maxAxis, d - 1)
  }

  lemma {:induction false} AxisAfterIsMod(axis: nat, maxAxis: nat, d: nat)
    requires axis < maxAxis
    ensures AxisAfter(axis, maxAxis, d) == (axis + d) % maxAxis
    decreases d
  {
    if d == 0 {
      ModUnique(axis, maxAxis, 0, axis);
    } else {
      AxisAfterIsMod((axis + 1) % maxAxis, maxAxis, d - 1);
      NextAxisThenDepth(axis, maxAxis, d - 1);
    }
  }

  /** Each node splits on `axis`, and its children on the axis after it. */
  ghost predicate AxesCycle(t: Tree, axis: nat, maxAxis: nat)
    requires maxAxis > 0
  {
    match t
    case Nil => true
    case Node(_, a, l, r) =>
      a == axis && AxesCycle(l, (axis + 1) % maxAxis, maxAxis) && AxesCycle(r, (axis + 1) % maxAxis, maxAxis)
  }

  lemma {:induction false} CreateAxesCycle(axis: nat, maxAxis: nat, values: seq<Point>)
    requires AllOfLength(values, maxAxis) && axis < maxAxis
    ensures AxesCycle(CreateRecursion(axis, maxAxis, values), axis, maxAxis)
    decreases |values|
  {
    if |values| >= 2 {
      var sorted := SortByAxis(values, axis);
      var mid := |sorted| / 2;
      var next := (axis + 1) % maxAxis;
      SplitSlices(axis, maxAxis, values);
      CreateAxesCycle(next, maxAxis, sorted[..mid]);
      CreateAxesCycle(next, maxAxis, sorted[mid + 1..]);
    }
  }

  lemma {:induction false} AxesCycleSteps(t: Tree, axis: nat, maxAxis: nat, p: Pos)
    requires maxAxis > 0 && AxesCycle(t, axis, maxAxis) && IsNode(t, p)
    ensures At(t, p).axis == AxisAfter(axis, maxAxis, |p|)
    decreases |p|
  {
    if p != [] {
      AxesCycleSteps(Child(t, p[0]), (axis + 1) % maxAxis, maxAxis, p[1..]);
    }
  }

  lemma StepsAreMod(t: Tree, axis: nat, maxAxis: nat, p: Pos)
    requires axis < maxAxis && IsNode(t, p)
    requires At(t, p).axis == AxisAfter(axis, maxAxis, |p|)
    ensures At(t, p).axis == (axis + |p|) % maxAxis
  {
    AxisAfterIsMod(axis, maxAxis, |p|);
  }

  /** The node at depth `d` splits on axis `(axis + d) % maxAxis`. */
  lemma CreateAxisByDepth(axis: nat, maxAxis: nat, values: seq<Point>, p: Pos)
    requires AllOfLength(values, maxAxis) && axis < maxAxis
    requires IsNode(CreateRecursion(axis, maxAxis, values), p)
    ensures At(CreateRecursion(axis, maxAxis, values), p).axis == (axis + |p|) % maxAxis
  {
    CreateAxesCycle(axis, maxAxis, values);
    AxesCycleSteps(CreateRecursion(axis, maxAxis, values), axis, maxAxis, p);
    StepsAreMod(CreateRecursion(axis, maxAxis, values), axis, maxAxis, p);
  }

  /** Every node built from `n` points keeps `n / 2` of the rest on its left
      and `n - n / 2 - 1` on its right. */
  lemma {:induction false} CreateBalanced(axis: nat, maxAxis: nat, values: seq<Point>)
    requires AllOfLength(values, maxAxis)
    requires |values| >= 2 ==> axis < maxAxis
    ensures Balanced(CreateRecursion(axis, maxAxis, values))
    ensures Size(CreateRecursion(axis, maxAxis, values)) == |values|
    decreases |values|
  {
    var t := CreateRecursion(axis, maxAxis, values);
    PointsCountNodes(t);
    if |values| >= 2 {
      var sorted := SortByAxis(values, axis);
      var mid := |sorted| / 2;
      var next := (axis + 1) % maxAxis;
      MultisetMembers(values, sorted);
      CreateBalanced(next, maxAxis, sorted[..mid]);
      CreateBalanced(next, maxAxis, sorted[mid + 1..]);
    }
  }

  /** Floor of the base-2 logarithm. */
  function Log2(n: nat): nat
    requires n >= 1
  {
    if n == 1 then 0 else 1 + Log2(n / 2)
  }

  lemma {:induction false} Log2Monotone(m: nat, n: nat)
    requires 1 <= m <= n
    ensures Log2(m) <= Log2(n)
    decreases n
  {
    if m > 1 {
      Log2Monotone(m / 2, n / 2);
    }
  }

  /** A balanced tree of `n` nodes is at most `floor(log2 n) + 1` high. */
  lemma {:induction false} BalancedHeight(t: Tree)
    requires Balanced(t) && t.Node?
    ensures Height(t) <= Log2(Size(t)) + 1
  {
    var n := Size(t);
    if t.left.Node? {
      BalancedHeight(t.left);
      if t.right.Node? {
        BalancedHeight(t.right);
        Log2Monotone(Size(t.right), Size(t.left));
      }
    }
  }

  function Pow2(h: nat): nat
  {
    if h == 0 then 1 else 2 * Pow2(h - 1)
  }

  /** A balanced tree of `2^h - 1` nodes is full, so every descent ends at a
      leaf. */
  lemma {:induction false} BalancedPowerIsFull(t: Tree, h: nat)
    requires Balanced(t) && Size(t) + 1 == Pow2(h)
    ensures Full(t)
    decreases t
  {
    if t.Node? {
      assert h > 0;
      if h > 1 {
        assert Size(t.left) + 1 == Pow2(h - 1);
        assert Size(t.right) + 1 == Pow2(h - 1);
      } else {
        assert Size(t.left) == 0 && Size(t.right) == 0;
      }
      BalancedPowerIsFull(t.left, h - 1);
      BalancedPowerIsFull(t.right, h - 1);
    }
  }
}
