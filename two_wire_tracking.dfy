/** The two-wire tracker: two DLOs whose nodes share one array, the first
    wire holding nodes 0 .. `intersection` - 1 and the second the rest. Its
    constants, its segment-bounded neighbour selection, its index-distance
    penalty matrix `coeff`, and its copy of the path sorter (start index 5,
    opposite neighbours closer than 0.05 m). The `register` and `cpd_lle`
    loops are `Cpd.Register` and `Cpd.CpdLoop`. */
module TwoWireTracking {
  import opened Common
  import opened Geometry
  import opened Indexing
  import PathSorter

  /** First node of the second wire. */
  const Intersection: nat := 18

  /** Number of nodes `coeff` is built for. */
  const TotalNumOfNodes: nat := 31

  // ---------------------------------------------------------------------------
  // get_nearest_indices

  /** `get_nearest_indices(k, Y, idx)` with `numNodes` = len(Y): up to `k`
      indices on each side of `idx`, cut off at the ends of `idx`'s wire and,
      unlike the single-chain tracker, not refilled from the other side. */
  function GetNearestIndices(k: nat, numNodes: nat, idx: nat): seq<int>
  {
    if idx < Intersection then
      if idx - k < 0 then Window(0, idx, idx + k + 1)
      else if idx + k >= Intersection then Window(idx - k, idx, Intersection)
      else Window(idx - k, idx, idx + k + 1)
    else
      if idx - k < Intersection then Window(Intersection, idx, idx + k + 1)
      else if idx + k >= numNodes then Window(idx - k, idx, numNodes)
      else Window(idx - k, idx, idx + k + 1)
  }

  /** The returned indices are strictly increasing and never `idx` itself. */
  lemma NearestIndicesIncreasing(k: nat, numNodes: nat, idx: nat)
    ensures StrictlyIncreasing(GetNearestIndices(k, numNodes, idx))
    ensures idx !in GetNearestIndices(k, numNodes, idx)
  {
    var lo := if idx < Intersection then (if idx - k < 0 then 0 else idx - k)
              else (if idx - k < Intersection then Intersection else idx - k);
    var hi := if idx < Intersection then (if idx - k >= 0 && idx + k >= Intersection then Intersection else idx + k + 1)
              else (if idx - k >= Intersection && idx + k >= numNodes then numNodes else idx + k + 1);
    assert GetNearestIndices(k, numNodes, idx) == Window(lo, idx, hi);
    WindowProperties(lo, idx, hi);
  }

  /** First node of `idx`'s wire. */
  function SegmentStart(idx: nat): nat
  {
    if idx < Intersection then 0 else Intersection
  }

  /** One past the last node of `idx`'s wire. */
  function SegmentEnd(numNodes: nat, idx: nat): nat
  {
    if idx < Intersection then Intersection else numNodes
  }

  function Max(a: int, b: int): int { if a < b then b else a }

  function Min(a: int, b: int): int { if a < b then a else b }

  /** When each wire has at least 2k nodes, the neighbours of `idx` are the
      nodes of its own wire within distance k of it: all 2k of them exactly
      when the window idx-k .. idx+k fits in the wire, fewer near a wire end. */
  lemma NearestIndicesWindow(k: nat, numNodes: nat, idx: nat)
    requires 2 * k <= Intersection && Intersection + 2 * k <= numNodes && idx < numNodes
    ensures var lo, hi := SegmentStart(idx), SegmentEnd(numNodes, idx);
      GetNearestIndices(k, numNodes, idx) == Window(Max(lo, idx - k), idx, Min(hi, idx + k + 1))
    ensures var lo, hi := SegmentStart(idx), SegmentEnd(numNodes, idx);
      forall t :: t in GetNearestIndices(k, numNodes, idx) <==> lo <= t < hi && t != idx && idx - k <= t <= idx + k
    ensures var lo, hi := SegmentStart(idx), SegmentEnd(numNodes, idx);
      |GetNearestIndices(k, numNodes, idx)| == 2 * k <==> lo <= idx - k && idx + k < hi
  {
    var lo, hi := SegmentStart(idx), SegmentEnd(numNodes, idx);
    WindowProperties(Max(lo, idx - k), idx, Min(hi, idx + k + 1));
  }

  // ---------------------------------------------------------------------------
  // coeff

  /** `max_coeff`: 1.0003 cubed. */
  const MaxCoeff: real := 1.0003 * 1.0003 * 1.0003

  /** Nodes `i` and `j` lie on different wires. */
  predicate CrossWire(i: int, j: int)
  {
    (i < Intersection) != (j < Intersection)
  }

  /** Module-level `coeff`: the index distance of the 31-node grid normalised
      to [1, `MaxCoeff`], then 50 wherever the two nodes are on different wires. */
  function Coeff(): (c: seq<seq<real>>)
    ensures |c| == TotalNumOfNodes && forall i :: 0 <= i < TotalNumOfNodes ==> |c[i]| == TotalNumOfNodes
  {
    CoeffFor(TotalNumOfNodes)
  }

  /** The construction of `coeff` for an n-node grid, n >= 2. */
  function CoeffFor(n: nat): (c: seq<seq<real>>)
    requires n >= 2
    ensures |c| == n && forall i :: 0 <= i < n ==> |c[i]| == n
  {
    seq(n, i requires 0 <= i < n =>
      seq(n, j requires 0 <= j < n =>
        if CrossWire(i, j) then 50.0 else Normalised(IndexDistance(n)[i][j], Amax(n))))
  }

  /** `np.amax(coeff)` of the n-node index distance, as a real. */
  function Amax(n: nat): (r: real)
    requires n >= 2
    ensures r == (n - 1) as real && r >= 1.0
  {
    MaxIndexDistance(n);
    MatrixMax(IndexDistance(n)) as real
  }

  /** `min_coeff + coeff / np.amax(coeff) * (max_coeff - min_coeff)` for one
      entry, with `min_coeff` = 1. */
  function Normalised(dist: int, amax: real): real
    requires amax != 0.0
  {
    1.0 + dist as real / amax * (MaxCoeff - 1.0)
  }

  /** `coeff` is symmetric with 1 on the diagonal; a same-wire entry is
      1 + |i - j| / 30 * (1.0003^3 - 1) (`Normalised` with the largest index
      distance, 30); every cross-wire entry is 50. */
  lemma CoeffProperties(i: nat, j: nat)
    requires i < TotalNumOfNodes && j < TotalNumOfNodes
    ensures Coeff()[i][j] == Coeff()[j][i]
    ensures i == j ==> Coeff()[i][j] == 1.0
    ensures !CrossWire(i, j) ==> Coeff()[i][j] == Normalised(Abs(i - j), 30.0)
    ensures CrossWire(i, j) ==> Coeff()[i][j] == 50.0
  {
    CoeffForProperties(TotalNumOfNodes, i, j);
    assert (TotalNumOfNodes - 1) as real == 30.0;
  }

  lemma CoeffForProperties(n: nat, i: nat, j: nat)
    requires n >= 2 && i < n && j < n
    ensures CoeffFor(n)[i][j] == CoeffFor(n)[j][i]
    ensures i == j ==> CoeffFor(n)[i][j] == 1.0
    ensures !CrossWire(i, j) ==> CoeffFor(n)[i][j] == Normalised(Abs(i - j), (n - 1) as real)
    ensures CrossWire(i, j) ==> CoeffFor(n)[i][j] == 50.0
  {
    IndexDistanceProperties(n, i, j);
    if i == j {
      NormalisedZero(Amax(n));
    }
  }

  lemma NormalisedZero(amax: real)
    requires amax != 0.0
    ensures Normalised(0, amax) == 1.0
  {
  }

  // ---------------------------------------------------------------------------
  // find_opposite_closest / sort_pts

  /** `find_opposite_closest`'s threshold, 0.05 m, squared. */
  const MaxDistSq: real := 0.05 * 0.05

  /** `sort_pts`'s start index. */
  const StartIdx: nat := 5

  /** `find_opposite_closest` with the 0.05 m threshold: the first node in
      (distance, position) order on the far side of `pt` from `direction` and
      within 0.05 m of `pt`, when there is one. */
  method FindOppositeClosest(pt: Point, arr: seq<Point>, direction: Point)
    returns (oppositeClosest: Point, found: bool)
    ensures found <==> exists j :: 0 <= j < |arr| &&
                                   Dot(Sub(arr[j], pt), Sub(direction, pt)) < 0.0 && DistSq(arr[j], pt) < MaxDistSq
    ensures found ==> oppositeClosest in arr && DistSq(oppositeClosest, pt) < MaxDistSq
    ensures found ==> exists k :: PathSorter.FirstNearestPassing(pt, arr,
      PathSorter.OppositeTest(pt, direction, Some(MaxDistSq)), k) && oppositeClosest == arr[k]
    ensures !found ==> oppositeClosest == pt
  {
    oppositeClosest, found := PathSorter.FindOppositeClosest(pt, arr, direction, Some(MaxDistSq));
  }

  /** `sort_pts` starting from node 5. */
  method SortPts(ptsOrig: seq<Point>) returns (r: Result<seq<Point>>)
    ensures r == PathSorter.SortSpec(ptsOrig, StartIdx, Some(MaxDistSq))
    ensures r == Err(IndexError) <==> |ptsOrig| <= StartIdx
    ensures r == Err(ValueError) <==> PathSorter.ClosestTwoConsumed(ptsOrig, StartIdx, Some(MaxDistSq))
    ensures r.Err? ==> r.error == IndexError || r.error == ValueError
    ensures r.Ok? ==> multiset(r.value) <= multiset(ptsOrig)
    ensures r.Ok? ==> exists s, k :: PathSorter.SortedShape(ptsOrig, StartIdx, Some(MaxDistSq), r.value, s, k)
  {
    r := PathSorter.SortPts(ptsOrig, StartIdx, Some(MaxDistSq));
  }
}
