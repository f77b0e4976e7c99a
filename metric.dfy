/**
 * The `distance` helper of mosaic.py: the squared Euclidean distance between
 * two points given as integer tuples (colour channels or grid coordinates).
 */
module Metric {

  function Square(d: int): (r: nat)
  {
    d * d
  }

  /** Sum, over the first n dimensions, of the squared component differences. */
  function PartialDistance(a: seq<int>, b: seq<int>, n: nat): (r: int)
    requires n <= |a| && n <= |b|
    ensures r >= 0
  {
    if n == 0 then 0 else PartialDistance(a, b, n - 1) + Square(a[n - 1] - b[n - 1])
  }

  /**
   * The squared distance over the dimensions of `a`. Only the first |a|
   * components of `b` are read, so `b` must have at least that many.
   */
  function SquaredDistance(a: seq<int>, b: seq<int>): int
    requires |a| <= |b|
  {
    PartialDistance(a, b, |a|)
  }

  /** The accumulating loop of `distance`. */
  method Distance(pointA: seq<int>, pointB: seq<int>) returns (d: int)
    requires |pointA| <= |pointB|
    ensures d == SquaredDistance(pointA, pointB)
  {
    d := 0;
    for dimension := 0 to |pointA|
      invariant d == PartialDistance(pointA, pointB, dimension)
    {
      d := d + Square(pointA[dimension] - pointB[dimension]);
    }
  }

  lemma {:induction false} PartialDistanceZero(a: seq<int>, b: seq<int>, n: nat)
    requires n <= |a| && n <= |b|
    ensures PartialDistance(a, b, n) == 0 <==> forall i :: 0 <= i < n ==> a[i] == b[i]
  {
    if n > 0 {
      PartialDistanceZero(a, b, n - 1);
      if PartialDistance(a, b, n) == 0 {
        assert Square(a[n - 1] - b[n - 1]) == 0;
      }
    }
  }

  lemma {:induction false} PartialDistanceSymmetric(a: seq<int>, b: seq<int>, n: nat)
    requires n <= |a| && n <= |b|
    ensures PartialDistance(a, b, n) == PartialDistance(b, a, n)
  {
    if n > 0 {
      PartialDistanceSymmetric(a, b, n - 1);
      assert Square(a[n - 1] - b[n - 1]) == Square(b[n - 1] - a[n - 1]);
    }
  }

  /** Points of equal dimension are at distance 0 exactly when they are equal. */
  lemma DistanceZeroIff(a: seq<int>, b: seq<int>)
    requires |a| == |b|
    ensures SquaredDistance(a, b) == 0 <==> a == b
  {
    PartialDistanceZero(a, b, |a|);
  }

  /** For points of equal dimension the distance does not depend on the argument order. */
  lemma DistanceSymmetric(a: seq<int>, b: seq<int>)
    requires |a| == |b|
    ensures SquaredDistance(a, b) == SquaredDistance(b, a)
  {
    PartialDistanceSymmetric(a, b, |a|);
  }
}
