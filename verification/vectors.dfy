/** Embedding vectors and the squared Euclidean distance that a flat L2 index
    ranks them by. Coordinates are reals: the single-precision arithmetic of the
    index is not modelled. */
module Vectors {

  type Vector = seq<real>

  /** Squared L2 distance (no square root is taken, as in an L2 flat index).
      Coordinates past the end of the shorter vector are ignored; every caller
      compares vectors of one dimension. */
  function SqDist(a: Vector, b: Vector): (d: real)
    ensures d >= 0.0
    decreases |a|
  {
    if |a| == 0 || |b| == 0 then 0.0
    else (a[0] - b[0]) * (a[0] - b[0]) + SqDist(a[1..], b[1..])
  }

  /** Every vector is at distance zero from itself. */
  lemma {:induction false} SqDistSelf(a: Vector)
    ensures SqDist(a, a) == 0.0
    decreases |a|
  {
    if |a| > 0 {
      SqDistSelf(a[1..]);
    }
  }
}
