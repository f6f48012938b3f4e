/** The exact, brute-force L2 index the store keeps its vectors in: a fixed
    dimension chosen at creation and an ordered sequence of vectors, searched by
    scanning every slot. The checks modelled here are the ones the index's Python
    binding makes before it touches the data: the vector's dimension must match
    the index's, and a search must ask for at least one neighbour. */
module FlatIndexL2 {
  import opened Options
  import opened Vectors

  /** Largest finite single-precision value: the distance a search reports for
      a neighbour slot it could not fill. */
  const FloatMax: real := 340282346638528859811704183484516925440.0

  /** Slot number a search reports for a neighbour it could not fill. */
  const NoSlot: int := -1

  datatype FlatIndex = FlatIndex(dim: nat, vectors: seq<Vector>) {

    /** Every stored vector has the index's dimension. */
    predicate Valid() {
      forall i :: 0 <= i < |vectors| ==> |vectors[i]| == dim
    }

    function Count(): nat {
      |vectors|
    }
  }

  /** A new index of dimension `dim`, holding nothing. */
  function Empty(dim: nat): (ix: FlatIndex)
    ensures ix.dim == dim && ix.Count() == 0 && ix.Valid()
  {
    FlatIndex(dim, [])
  }

  /** Adding one vector: refused (`None`) when its dimension is not the index's;
      otherwise the vector becomes the new last slot and every earlier slot
      keeps its vector. */
  function Add(ix: FlatIndex, v: Vector): (r: Option<FlatIndex>)
    ensures r.Some? <==> |v| == ix.dim
    ensures r.Some? ==> r.value.dim == ix.dim
    ensures r.Some? ==> r.value.Count() == ix.Count() + 1
    ensures r.Some? ==> r.value.vectors[..ix.Count()] == ix.vectors
    ensures r.Some? ==> r.value.vectors[ix.Count()] == v
    ensures r.Some? && ix.Valid() ==> r.value.Valid()
  {
    if |v| == ix.dim then Some(FlatIndex(ix.dim, ix.vectors + [v])) else None
  }

  /** `slot` holds a vector nearest to `q`, and no earlier slot is as near:
      the lowest-numbered minimiser of the distance to `q`. */
  predicate IsNearest(vs: seq<Vector>, q: Vector, slot: int) {
    && 0 <= slot < |vs|
    && (forall j :: 0 <= j < |vs| ==> SqDist(q, vs[slot]) <= SqDist(q, vs[j]))
    && (forall j :: 0 <= j < slot ==> SqDist(q, vs[slot]) < SqDist(q, vs[j]))
  }

  /** At most one slot is the lowest-numbered minimiser. */
  lemma NearestUnique(vs: seq<Vector>, q: Vector, s1: int, s2: int)
    requires IsNearest(vs, q, s1) && IsNearest(vs, q, s2)
    ensures s1 == s2
  {
    var d1, d2 := SqDist(q, vs[s1]), SqDist(q, vs[s2]);
    assert d1 <= d2 && d2 <= d1;
    assert s1 < s2 ==> d2 < d1;
    assert s2 < s1 ==> d1 < d2;
  }

  /** The nearest slot, found by extending the answer for all but the last
      vector: the last vector wins only when strictly nearer. */
  function Nearest(vs: seq<Vector>, q: Vector): (slot: nat)
    requires |vs| > 0
    ensures IsNearest(vs, q, slot)
    decreases |vs|
  {
    if |vs| == 1 then 0
    else
      var init := vs[..|vs| - 1];
      var p := Nearest(init, q);
      assert forall j :: 0 <= j < |init| ==> init[j] == vs[j];
      if SqDist(q, vs[|vs| - 1]) < SqDist(q, vs[p]) then |vs| - 1 else p
  }

  /** The scan a flat index performs: one pass over the slots keeping the best
      distance seen, replaced only by a strictly smaller one. */
  method ScanNearest(vs: seq<Vector>, q: Vector) returns (slot: nat, dist: real)
    requires |vs| > 0
    ensures IsNearest(vs, q, slot)
    ensures dist == SqDist(q, vs[slot])
    ensures slot == Nearest(vs, q)
  {
    slot, dist := 0, SqDist(q, vs[0]);
    var i := 1;
    while i < |vs|
      invariant 1 <= i <= |vs|
      invariant IsNearest(vs[..i], q, slot)
      invariant dist == SqDist(q, vs[slot])
    {
      var d := SqDist(q, vs[i]);
      if d < dist {
        slot, dist := i, d;
      }
      i := i + 1;
    }
    assert vs[..i] == vs;
    NearestUnique(vs, q, slot, Nearest(vs, q));
  }

  /** What a search reports for its first neighbour. Further neighbours are
      not modelled: only the first is ever read. */
  datatype SearchResult = Rejected | TopHit(slot: int, distance: real)

  /** A k-nearest search, first neighbour only. The binding rejects a query of
      another dimension and a `k` below one; an index with no vectors reports
      the unfilled slot; otherwise the first neighbour is the nearest slot and
      its squared distance. */
  function Search(ix: FlatIndex, q: Vector, k: int): (r: SearchResult)
    ensures r.Rejected? <==> |q| != ix.dim || k < 1
    ensures r.TopHit? && ix.Count() == 0 ==> r.slot == NoSlot && r.distance == FloatMax
    ensures r.TopHit? && ix.Count() > 0 ==>
              && IsNearest(ix.vectors, q, r.slot)
              && r.distance == SqDist(q, ix.vectors[r.slot])
  {
    if |q| != ix.dim || k < 1 then Rejected
    else if ix.Count() == 0 then TopHit(NoSlot, FloatMax)
    else
      var s := Nearest(ix.vectors, q);
      TopHit(s, SqDist(q, ix.vectors[s]))
  }

  /** Asking for more neighbours never changes the first one. */
  lemma SearchTopHitIgnoresK(ix: FlatIndex, q: Vector, k1: int, k2: int)
    requires k1 >= 1 && k2 >= 1
    ensures Search(ix, q, k1) == Search(ix, q, k2)
  {
  }

  /** The reported distance is the minimum over all stored vectors: no stored
      vector is nearer, and the reported slot attains it. */
  lemma SearchDistanceIsMinimum(ix: FlatIndex, q: Vector, k: int)
    requires k >= 1 && |q| == ix.dim && ix.Count() > 0
    ensures Search(ix, q, k).TopHit?
    ensures forall j :: 0 <= j < ix.Count() ==> Search(ix, q, k).distance <= SqDist(q, ix.vectors[j])
    ensures exists j :: 0 <= j < ix.Count() && Search(ix, q, k).distance == SqDist(q, ix.vectors[j])
  {
  }
}
