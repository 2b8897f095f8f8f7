/** The development tracker for a single DLO: its neighbour selection that
    refills the missing side near the chain ends, its `coeff` matrix built in
    `callback`, its copy of the path sorter (start index 15, opposite
    neighbours closer than 0.07 m), and the loop of its `cpd_lle`, whose
    sigma2 is overwritten by `sigma2_0` in every iteration. `P_tilde` is
    `Cpd.PTilde`; `register` is `Cpd.Register`. */
module TrackingCpdLleDev {
  import opened Common
  import opened Geometry
  import opened Indexing
  import opened Cpd
  import PathSorter

  // ---------------------------------------------------------------------------
  // get_nearest_indices

  /** `get_nearest_indices(k, Y, idx)` with `numNodes` = len(Y): k indices on
      each side of `idx`, the window shifted away from a chain end so that
      the side that would fall off is made up from the other side. */
  function GetNearestIndices(k: nat, numNodes: nat, idx: nat): seq<int>
  {
    if idx - k < 0 then Window(0, idx, idx + k + 1 + Abs(idx - k))
    else if idx + k >= numNodes then
      var lastIndex := numNodes - 1;
      Window(idx - k - (idx + k - lastIndex), idx, lastIndex + 1)
    else Window(idx - k, idx, idx + k + 1)
  }

  /** The returned indices are strictly increasing and never `idx` itself. */
  lemma NearestIndicesIncreasing(k: nat, numNodes: nat, idx: nat)
    ensures StrictlyIncreasing(GetNearestIndices(k, numNodes, idx))
    ensures idx !in GetNearestIndices(k, numNodes, idx)
  {
    if idx - k < 0 {
      WindowProperties(0, idx, idx + k + 1 + Abs(idx - k));
    } else if idx + k >= numNodes {
      WindowProperties(idx - k - (idx + k - (numNodes - 1)), idx, numNodes - 1 + 1);
    } else {
      WindowProperties(idx - k, idx, idx + k + 1);
    }
  }

  /** First index of the window of `idx`: 0 near the front, M-1-2k near the
      back, idx-k in between. */
  function WindowStart(k: nat, numNodes: nat, idx: nat): int
  {
    if idx < k then 0 else if idx + k >= numNodes then numNodes - 1 - 2 * k else idx - k
  }

  /** With at least 2k+1 nodes, every node gets exactly 2k neighbours: the
      2k+1 consecutive indices from `WindowStart` without `idx`, all in range. */
  lemma NearestIndicesRefilled(k: nat, numNodes: nat, idx: nat)
    requires numNodes >= 2 * k + 1 && idx < numNodes
    ensures var lo := WindowStart(k, numNodes, idx);
      GetNearestIndices(k, numNodes, idx) == Window(lo, idx, lo + 2 * k + 1)
    ensures |GetNearestIndices(k, numNodes, idx)| == 2 * k
    ensures var lo := WindowStart(k, numNodes, idx);
      forall t :: t in GetNearestIndices(k, numNodes, idx) <==> lo <= t <= lo + 2 * k && t != idx
    ensures forall t :: t in GetNearestIndices(k, numNodes, idx) ==> 0 <= t < numNodes
  {
    var lo := WindowStart(k, numNodes, idx);
    RefilledWindow(k, numNodes, idx);
    assert lo <= idx < lo + 2 * k + 1;
    WindowProperties(lo, idx, lo + 2 * k + 1);
  }

  lemma RefilledWindow(k: nat, numNodes: nat, idx: nat)
    requires numNodes >= 2 * k + 1 && idx < numNodes
    ensures GetNearestIndices(k, numNodes, idx) ==
            Window(WindowStart(k, numNodes, idx), idx, WindowStart(k, numNodes, idx) + 2 * k + 1)
  {
    if idx - k < 0 {
      assert GetNearestIndices(k, numNodes, idx) == Window(0, idx, idx + k + 1 + Abs(idx - k));
      assert idx + k + 1 + Abs(idx - k) == 2 * k + 1;
    } else if idx + k >= numNodes {
      assert GetNearestIndices(k, numNodes, idx) == Window(idx - k - (idx + k - (numNodes - 1)), idx, numNodes - 1 + 1);
      assert idx - k - (idx + k - (numNodes - 1)) == numNodes - 1 - 2 * k;
    }
  }

  // ---------------------------------------------------------------------------
  // coeff (in callback)

  /** `coeff` of `callback` for `n` = len(init_nodes): |i - j| * 0.02. */
  function Coeff(n: nat): (c: seq<seq<real>>)
    ensures |c| == n && forall i :: 0 <= i < n ==> |c[i]| == n
  {
    seq(n, i requires 0 <= i < n =>
      seq(n, j requires 0 <= j < n => IndexDistance(n)[i][j] as real * 0.02))
  }

  /** `coeff` is symmetric, non-negative, and zero exactly on the diagonal. */
  lemma CoeffProperties(n: nat, i: nat, j: nat)
    requires i < n && j < n
    ensures Coeff(n)[i][j] == Coeff(n)[j][i]
    ensures Coeff(n)[i][j] >= 0.0
    ensures Coeff(n)[i][j] == 0.0 <==> i == j
  {
    IndexDistanceProperties(n, i, j);
  }

  // ---------------------------------------------------------------------------
  // find_opposite_closest / sort_pts

  /** `find_opposite_closest`'s threshold, 0.07 m, squared. */
  const MaxDistSq: real := 0.07 * 0.07

  /** `sort_pts`'s start index. */
  const StartIdx: nat := 15

  /** `find_opposite_closest` with the 0.07 m threshold: the first node in
      (distance, position) order on the far side of `pt` from `direction` and
      within 0.07 m of `pt`, when there is one. */
  method FindOppositeClosest(pt: Point, arr: seq<Point>, direction: Point)
    returns (oppositeClosest: Point, found: bool)
    ensures found <==> exists j :: 0 <= j < |arr| &&
                                   Dot(Sub(arr[j], pt), Sub(direction, pt)) < 0.0 && DistSq(arr[j], pt) < MaxDistSq
    ensures found ==> oppositeClosest in arr && DistSq(oppositeClosest, pt) < MaxDistSq
    ensures found ==> exists k :: PathSorter.FirstNearestPassing(pt, arr,
      PathSorter.OppositeTest(pt, direction, Some(MaxDistSq)), k) && oppositeClosest == arr[k]
    ensures !found ==> oppositeClosest == pt
  {
    oppositeClosest, found := PathSorter.FindOppositeClosest(pt, arr, direction, Some(MaxDistSq));
  }

  /** `sort_pts` starting from node 15. */
  method SortPts(ptsOrig: seq<Point>) returns (r: Result<seq<Point>>)
    ensures r == PathSorter.SortSpec(ptsOrig, StartIdx, Some(MaxDistSq))
    ensures r == Err(IndexError) <==> |ptsOrig| <= StartIdx
    ensures r == Err(ValueError) <==> PathSorter.ClosestTwoConsumed(ptsOrig, StartIdx, Some(MaxDistSq))
    ensures r.Err? ==> r.error == IndexError || r.error == ValueError
    ensures r.Ok? ==> multiset(r.value) <= multiset(ptsOrig)
    ensures r.Ok? ==> exists s, k :: PathSorter.SortedShape(ptsOrig, StartIdx, Some(MaxDistSq), r.value, s, k)
  {
    r := PathSorter.SortPts(ptsOrig, StartIdx, Some(MaxDistSq));
  }

  // ---------------------------------------------------------------------------
  // cpd_lle

  /** What `cpd_lle` returns, with the number of iterations it ran. */
  datatype Outcome<Y> = Outcome(y: Y, sigma2: Option<real>, iterations: nat)

  /** The loop of `cpd_lle` from node positions `y` and sigma2 `sigma`, with
      `remaining` iterations left after `done`. Each iteration needs a sigma2
      (a None raises TypeError in the outlier term), computes `Y_0 + G W` and
      a new sigma2 (`step`), throws the new sigma2 away for `sigma2_0`, and
      stops when the displacement is below `tol`. */
  function Run<Y>(step: Estimate<Y> -> Estimate<Y>, disp: (Y, Y) -> real, tol: real, sigma2_0: Option<real>,
                  y: Y, sigma: Option<real>, remaining: nat, done: nat): Result<Outcome<Y>>
    decreases remaining
  {
    if remaining == 0 then Ok(Outcome(y, sigma, done))
    else if sigma.None? then Err(TypeError)
    else
      var next := step(Estimate(y, sigma.value));
      if disp(y, next.y) < tol then Ok(Outcome(next.y, sigma2_0, done + 1))
      else Run(step, disp, tol, sigma2_0, next.y, sigma2_0, remaining - 1, done + 1)
  }

  /** `cpd_lle`'s initialisation and loop. sigma2 starts from the data
      (`initialSigma2`) or, with `use_prev_sigma2`, from `sigma2_0`. */
  method CpdLle<Y>(y0: Y, initialSigma2: real, usePrevSigma2: bool, sigma2_0: Option<real>,
                   maxIter: nat, tol: real, step: Estimate<Y> -> Estimate<Y>, disp: (Y, Y) -> real)
    returns (r: Result<Outcome<Y>>)
    ensures r == Run(step, disp, tol, sigma2_0, y0, if usePrevSigma2 then sigma2_0 else Some(initialSigma2), maxIter, 0)
  {
    var sigma2 := if usePrevSigma2 then sigma2_0 else Some(initialSigma2);
    ghost var sigmaInit := sigma2;
    var y := y0;
    var it := 0;
    while it < maxIter
      invariant it <= maxIter
      invariant Run(step, disp, tol, sigma2_0, y0, sigmaInit, maxIter, 0) ==
                Run(step, disp, tol, sigma2_0, y, sigma2, maxIter - it, it)
    {
      if sigma2.None? {
        return Err(TypeError);
      }
      var next := step(Estimate(y, sigma2.value));
      sigma2 := sigma2_0;
      var stop := disp(y, next.y) < tol;
      y := next.y;
      it := it + 1;
      if stop {
        return Ok(Outcome(y, sigma2, it));
      }
    }
    r := Ok(Outcome(y, sigma2, it));
  }

  /** The loop runs at most its remaining iterations, fails only with
      TypeError, and once it has run an iteration the sigma2 it returns is
      `sigma2_0`, whatever was computed; with no iteration it is the initial
      one. */
  lemma {:induction false} RunProperties<Y>(step: Estimate<Y> -> Estimate<Y>, disp: (Y, Y) -> real, tol: real,
                                             sigma2_0: Option<real>, y: Y, sigma: Option<real>, remaining: nat, done: nat)
    ensures var r := Run(step, disp, tol, sigma2_0, y, sigma, remaining, done);
      r.Err? ==> r.error == TypeError
    ensures var r := Run(step, disp, tol, sigma2_0, y, sigma, remaining, done);
      r.Ok? ==> done <= r.value.iterations <= done + remaining
    ensures var r := Run(step, disp, tol, sigma2_0, y, sigma, remaining, done);
      r.Ok? && r.value.iterations > done ==> r.value.sigma2 == sigma2_0
    ensures var r := Run(step, disp, tol, sigma2_0, y, sigma, remaining, done);
      r.Ok? && r.value.iterations == done ==> r.value.sigma2 == sigma
    decreases remaining
  {
    if remaining > 0 && sigma.Some? {
      var next := step(Estimate(y, sigma.value));
      if disp(y, next.y) >= tol {
        RunProperties(step, disp, tol, sigma2_0, next.y, sigma2_0, remaining - 1, done + 1);
      }
    }
  }

  /** With the default `sigma2_0 = None`, the loop fails with TypeError as soon
      as a second iteration starts: an initial sigma2 and at least two
      iterations allowed give an error exactly when the first iteration does
      not converge. */
  lemma NoneSigma2Fails<Y>(step: Estimate<Y> -> Estimate<Y>, disp: (Y, Y) -> real, tol: real,
                           y: Y, sigma: real, remaining: nat)
    requires remaining >= 2
    ensures Run(step, disp, tol, None, y, Some(sigma), remaining, 0).Err? <==>
            disp(y, step(Estimate(y, sigma)).y) >= tol
  {
  }
}
