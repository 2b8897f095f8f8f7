/** The single-DLO tracker with plain CPD: its copy of the path sorter, which
    starts from node 10 and has no distance threshold in its opposite test.
    Its `find_aligned_closest` is `PathSorter.FindAlignedClosest`; its
    `register` and `cpd` loops are `Cpd.Register` and `Cpd.CpdLoop`. */
module TrackingCpdLle {
  import opened Common
  import opened Geometry
  import PathSorter

  /** `sort_pts`'s start index. */
  const StartIdx: nat := 10

  /** `find_opposite_closest` without a threshold: a node is found exactly
      when some node of `arr` lies on the far side of `pt` from `direction`,
      and then it is the first such node in (distance, position) order. */
  method FindOppositeClosest(pt: Point, arr: seq<Point>, direction: Point)
    returns (oppositeClosest: Point, found: bool)
    ensures found <==> exists j :: 0 <= j < |arr| && Dot(Sub(arr[j], pt), Sub(direction, pt)) < 0.0
    ensures found ==> oppositeClosest in arr && Dot(Sub(oppositeClosest, pt), Sub(direction, pt)) < 0.0
    ensures found ==> exists k :: PathSorter.FirstNearestPassing(pt, arr,
      PathSorter.OppositeTest(pt, direction, None), k) && oppositeClosest == arr[k]
    ensures !found ==> oppositeClosest == pt
  {
    oppositeClosest, found := PathSorter.FindOppositeClosest(pt, arr, direction, None);
  }

  /** `sort_pts` starting from node 10. */
  method SortPts(ptsOrig: seq<Point>) returns (r: Result<seq<Point>>)
    ensures r == PathSorter.SortSpec(ptsOrig, StartIdx, None)
    ensures r == Err(IndexError) <==> |ptsOrig| <= StartIdx
    ensures r == Err(ValueError) <==> PathSorter.ClosestTwoConsumed(ptsOrig, StartIdx, None)
    ensures r.Err? ==> r.error == IndexError || r.error == ValueError
    ensures r.Ok? ==> multiset(r.value) <= multiset(ptsOrig)
    ensures r.Ok? ==> exists s, k :: PathSorter.SortedShape(ptsOrig, StartIdx, None, r.value, s, k)
  {
    r := PathSorter.SortPts(ptsOrig, StartIdx, None);
  }
}
