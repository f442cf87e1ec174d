/** The per-axis ordering of points that construction sorts by
    (KDTree/ArrayIndexComparer.cs). A point is a nullable array of `int`
    coordinates, written `Option<seq<int>>`. */
module ArrayIndexComparer {
  import opened Wrappers

  /** `Int32.CompareTo`, which answers -1, 0 or 1. */
  function CompareTo(a: int, b: int): int
  {
    if a < b then -1 else if a > b then 1 else 0
  }

  /** `Compare` of a comparer built for coordinate `index`: a null array
      sorts before every array, two nulls tie, and two arrays are ordered by
      their coordinate at `index` alone. The source indexes both arrays, so
      `index` must be a coordinate of each. */
  function Compare(index: nat, x: Option<seq<int>>, y: Option<seq<int>>): (r: int)
    requires x.Some? ==> index < |x.value|
    requires y.Some? ==> index < |y.value|
    ensures -1 <= r <= 1
    ensures x.None? ==> (r == 0 <==> y.None?) && (r == -1 <==> y.Some?)
    ensures x.Some? && y.None? ==> r == 1
    ensures x.Some? && y.Some? ==>
              && (r < 0 <==> x.value[index] < y.value[index])
              && (r == 0 <==> x.value[index] == y.value[index])
              && (r > 0 <==> x.value[index] > y.value[index])
  {
    if x.None? && y.None? then 0
    else if x.None? then -1
    else if y.None? then 1
    else CompareTo(x.value[index], y.value[index])
  }

  /** Swapping the arguments negates the answer. */
  lemma CompareAntisymmetric(index: nat, x: Option<seq<int>>, y: Option<seq<int>>)
    requires x.Some? ==> index < |x.value|
    requires y.Some? ==> index < |y.value|
    ensures Compare(index, x, y) == -Compare(index, y, x)
  {
  }

  /** "Not after" is reflexive, transitive and total: a total preorder. */
  lemma CompareTotalPreorder(index: nat, x: Option<seq<int>>, y: Option<seq<int>>, z: Option<seq<int>>)
    requires x.Some? ==> index < |x.value|
    requires y.Some? ==> index < |y.value|
    requires z.Some? ==> index < |z.value|
    ensures Compare(index, x, x) == 0
    ensures Compare(index, x, y) <= 0 || Compare(index, y, x) <= 0
    ensures Compare(index, x, y) <= 0 && Compare(index, y, z) <= 0 ==> Compare(index, x, z) <= 0
  {
  }

  /** Only the coordinate at `index` matters: arrays that agree there tie,
      and replacing the other coordinates never changes the result. */
  lemma CompareIgnoresOtherAxes(index: nat, x: seq<int>, y: seq<int>, x': seq<int>, y': seq<int>)
    requires index < |x| && index < |y| && index < |x'| && index < |y'|
    requires x[index] == x'[index] && y[index] == y'[index]
    ensures x[index] == y[index] ==> Compare(index, Some(x), Some(y)) == 0
    ensures Compare(index, Some(x), Some(y)) == Compare(index, Some(x'), Some(y'))
  {
  }
}
