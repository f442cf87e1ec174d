/** Whole-point equality and hashing used to remove duplicate points
    (KDTree/ArrayEqualityComparer.cs). */
module ArrayEqualityComparer {
  import opened Wrappers

  /** LINQ's `SequenceEqual` on two arrays: equal lengths, then element by
      element from the front. */
  function SequenceEqual(a: seq<int>, b: seq<int>): (r: bool)
    ensures r <==> a == b
  {
    if |a| != |b| then false
    else if a == [] then true
    else a[0] == b[0] && SequenceEqual(a[1..], b[1..])
  }

  /** `Equals` of the comparer: false when either values is null (even both),
      otherwise the arrays agree in length and position by position. */
  function Equals(x: Option<seq<int>>, y: Option<seq<int>>): (r: bool)
    ensures r <==> x.Some? && y.Some? && |x.value| == |y.value| &&
                   forall i :: 0 <= i < |x.value| ==> x.value[i] == y.value[i]
  {
    if x.None? || y.None? then false else SequenceEqual(x.value, y.value)
  }

  lemma NullEqualsNothing(x: Option<seq<int>>)
    ensures !Equals(None, x) && !Equals(x, None)
  {
  }

  lemma EqualsIsOrderSensitive()
    ensures !Equals(Some([1, 2]), Some([2, 1]))
    ensures Equals(Some([1, 2]), Some([1, 2]))
  {
  }

  /** On non-null arrays the comparer is an equivalence relation. */
  lemma EqualsIsEquivalence(x: seq<int>, y: seq<int>, z: seq<int>)
    ensures Equals(Some(x), Some(x))
    ensures Equals(Some(x), Some(y)) ==> Equals(Some(y), Some(x))
    ensures Equals(Some(x), Some(y)) && Equals(Some(y), Some(z)) ==> Equals(Some(x), Some(z))
  {
  }

  /** The runtime's `System.HashCode` accumulator, whose seed is chosen per
      process: its starting state, the mixing step of `Add` and the
      finalisation of `ToHashCode`. Their internals are not modelled. */
  datatype Hasher = Hasher(seed: int, add: (int, int) -> int, finish: int -> int)

  /** The accumulator's state after adding the elements of `s` in order. */
  function Accumulate(h: Hasher, s: seq<int>): int
    decreases |s|
  {
    if s == [] then h.seed else h.add(Accumulate(h, s[..|s| - 1]), s[|s| - 1])
  }

  /** `GetHashCode`: adds every element of the array, first to last, then finalises. */
  method GetHashCode(h: Hasher, values: seq<int>) returns (code: int)
    ensures code == h.finish(Accumulate(h, values))
  {
    var acc := h.seed;
    for i := 0 to |values|
      invariant acc == Accumulate(h, values[..i])
    {
      assert values[..i + 1][..i] == values[..i];
      acc := h.add(acc, values[i]);
    }
    assert values[..|values|] == values;
    code := h.finish(acc);
  }

  /** Arrays the comparer calls equal get equal hash codes. */
  lemma EqualArraysHashEqually(h: Hasher, x: seq<int>, y: seq<int>)
    requires Equals(Some(x), Some(y))
    ensures h.finish(Accumulate(h, x)) == h.finish(Accumulate(h, y))
  {
  }
}
