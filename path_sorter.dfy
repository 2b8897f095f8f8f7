/** The greedy path sorter of the Python trackers (`find_closest`,
    `find_opposite_closest`, `find_aligned_closest`, `sort_pts`). The three
    tracker scripts carry copies that differ only in the start index and in the
    distance threshold of the opposite test, so the sorter is written once here,
    with both as parameters, and each tracker module fixes its own constants.

    Distances are compared squared: the source compares `np.sqrt` of the same
    sums, and the square root is strictly monotone. */
module PathSorter {
  import opened Common
  import opened Geometry

  // ---------------------------------------------------------------------------
  // find_closest

  /** Node `k` comes strictly before node `j` in the order in which the pool is
      consumed: nearer to `pt` first, earlier position first among equals. */
  predicate KeyBefore(pt: Point, arr: seq<Point>, k: int, j: int)
    requires 0 <= k < |arr| && 0 <= j < |arr|
  {
    DistSq(pt, arr[k]) < DistSq(pt, arr[j]) || (DistSq(pt, arr[k]) == DistSq(pt, arr[j]) && k < j)
  }

  /** `idx` is the first position of least distance to `pt`. */
  predicate IsFirstNearest(pt: Point, arr: seq<Point>, idx: int)
  {
    0 <= idx < |arr| && forall j :: 0 <= j < |arr| && j != idx ==> KeyBefore(pt, arr, idx, j)
  }

  /** The first nearest position is unique. */
  lemma FirstNearestUnique(pt: Point, arr: seq<Point>, i: int, j: int)
    requires IsFirstNearest(pt, arr, i) && IsFirstNearest(pt, arr, j)
    ensures i == j
  {
    KeyBeforeAsymmetric(pt, arr, i, j);
  }

  lemma KeyBeforeAsymmetric(pt: Point, arr: seq<Point>, k: int, j: int)
    requires 0 <= k < |arr| && 0 <= j < |arr|
    ensures !(KeyBefore(pt, arr, k, j) && KeyBefore(pt, arr, j, k))
  {
  }

  /** `find_closest`: a linear scan that replaces the candidate only on a
      strictly smaller distance, so the first nearest element wins. The source
      reads `arr[0]` first and so needs a non-empty list. */
  method FindClosest(pt: Point, arr: seq<Point>) returns (closest: Point, idx: nat)
    requires |arr| > 0
    ensures IsFirstNearest(pt, arr, idx)
    ensures closest == arr[idx]
  {
    closest := arr[0];
    var minDis := DistSq(pt, closest);
    idx := 0;
    for i := 0 to |arr|
      invariant idx < |arr| && closest == arr[idx] && minDis == DistSq(pt, arr[idx])
      invariant idx == 0 || idx < i
      invariant forall j :: 0 <= j < i ==> minDis <= DistSq(pt, arr[j])
      invariant forall j :: 0 <= j < idx ==> minDis < DistSq(pt, arr[j])
    {
      var curDis := DistSq(pt, arr[i]);
      if curDis < minDis {
        minDis := curDis;
        closest := arr[i];
        idx := i;
      }
    }
  }

  // ---------------------------------------------------------------------------
  // find_opposite_closest / find_aligned_closest

  /** `k` is the first node, in consumption order, that passes `test`. */
  ghost predicate FirstNearestPassing(pt: Point, arr: seq<Point>, test: Point -> bool, k: int)
  {
    0 <= k < |arr| && test(arr[k]) &&
    forall j :: 0 <= j < |arr| && j != k && test(arr[j]) ==> KeyBefore(pt, arr, k, j)
  }

  /** The position, among the first `n` nodes of `arr`, of the first node in
      consumption order that passes `test`; None when none of them passes. */
  function NearestPassingIn(pt: Point, arr: seq<Point>, test: Point -> bool, n: nat): (r: Option<nat>)
    requires n <= |arr|
    ensures r.Some? <==> exists j :: 0 <= j < n && test(arr[j])
    ensures r.Some? ==> r.value < n && test(arr[r.value])
    ensures r.Some? ==> forall j :: 0 <= j < n && j != r.value && test(arr[j]) ==> KeyBefore(pt, arr, r.value, j)
    decreases n
  {
    if n == 0 then None
    else if !test(arr[n - 1]) then NearestPassingIn(pt, arr, test, n - 1)
    else if NearestPassingIn(pt, arr, test, n - 1).Some? &&
            KeyBefore(pt, arr, NearestPassingIn(pt, arr, test, n - 1).value, n - 1)
    then NearestPassingIn(pt, arr, test, n - 1)
    else Some(n - 1)
  }

  /** The position of the first node of `arr`, in consumption order, that
      passes `test`, or None when no node passes. */
  function NearestPassing(pt: Point, arr: seq<Point>, test: Point -> bool): (r: Option<nat>)
    ensures r.Some? <==> exists j :: 0 <= j < |arr| && test(arr[j])
    ensures r.Some? ==> FirstNearestPassing(pt, arr, test, r.value)
  {
    NearestPassingIn(pt, arr, test, |arr|)
  }

  /** The first passing node is unique, so it is the one `NearestPassing` names. */
  lemma NearestPassingIs(pt: Point, arr: seq<Point>, test: Point -> bool, k: int)
    requires FirstNearestPassing(pt, arr, test, k)
    ensures NearestPassing(pt, arr, test) == Some(k)
  {
    var r := NearestPassing(pt, arr, test);
    assert r.Some?;
    KeyBeforeAsymmetric(pt, arr, k, r.value);
  }

  /** The test that lets every node pass. */
  function AnyNode(): Point -> bool
  {
    c => true
  }

  /** The position `find_closest` returns, on values. */
  function Nearest(pt: Point, arr: seq<Point>): (k: nat)
    requires |arr| > 0
    ensures IsFirstNearest(pt, arr, k)
  {
    assert AnyNode()(arr[0]);
    NearestPassing(pt, arr, AnyNode()).value
  }

  /** The loop shared by `find_opposite_closest` and `find_aligned_closest`:
      pops the nearest element of a copy of `arr` until one passes `test`. When
      none does, the result is `pt` itself. */
  method FindNearestPassing(pt: Point, arr: seq<Point>, test: Point -> bool) returns (result: Point, found: bool)
    ensures found <==> exists j :: 0 <= j < |arr| && test(arr[j])
    ensures found ==> result in arr && test(result)
    ensures found ==> exists k :: FirstNearestPassing(pt, arr, test, k) && result == arr[k]
    ensures !found ==> result == pt
    ensures found ==> result == arr[NearestPassing(pt, arr, test).value]
  {
    var arrCopy := arr;
    // Original position of each element left in the copy, and of the result.
    ghost var pos := Range(0, |arr|);
    ghost var k := 0;
    found := false;
    result := pt;
    while !found && |arrCopy| != 0
      invariant Tracks(arr, arrCopy, pos)
      invariant found ==> FirstNearestPassing(pt, arr, test, k) && result == arr[k]
      invariant !found ==> result == pt && NoneLeftPass(arr, test, pos)
      decreases |arrCopy|
    {
      var curClosest, curIndex := FindClosest(pt, arrCopy);
      ScanStep(pt, arr, test, arrCopy, pos, curIndex);
      if test(curClosest) {
        found := true;
        result := curClosest;
        k := pos[curIndex];
      }
      arrCopy := RemoveAt(arrCopy, curIndex);
      pos := RemoveAt(pos, curIndex);
    }
    if !found {
      ScanExhausted(arr, test, pos);
    } else {
      NearestPassingIs(pt, arr, test, k);
    }
  }

  /** Every original position no longer in `pos` holds an element that fails. */
  ghost predicate NoneLeftPass(arr: seq<Point>, test: Point -> bool, pos: seq<int>)
  {
    forall j :: 0 <= j < |arr| && j !in pos ==> !test(arr[j])
  }

  /** One iteration of the loop of `FindNearestPassing`. */
  lemma ScanStep(pt: Point, arr: seq<Point>, test: Point -> bool, arrCopy: seq<Point>, pos: seq<int>, i: nat)
    requires Tracks(arr, arrCopy, pos) && IsFirstNearest(pt, arrCopy, i)
    requires NoneLeftPass(arr, test, pos)
    ensures Tracks(arr, RemoveAt(arrCopy, i), RemoveAt(pos, i))
    ensures arrCopy[i] == arr[pos[i]]
    ensures test(arrCopy[i]) ==> FirstNearestPassing(pt, arr, test, pos[i])
    ensures !test(arrCopy[i]) ==> NoneLeftPass(arr, test, RemoveAt(pos, i))
  {
    PoppedFirst(pt, arr, arrCopy, pos, i);
    PopTracks(arr, arrCopy, pos, i);
    if test(arrCopy[i]) {
      PassingFound(pt, arr, test, pos, i);
    }
  }

  /** Once the copy is empty, no element of the original passes. */
  lemma ScanExhausted(arr: seq<Point>, test: Point -> bool, pos: seq<int>)
    requires |pos| == 0 && NoneLeftPass(arr, test, pos)
    ensures forall j :: 0 <= j < |arr| ==> !test(arr[j])
  {
  }

  /** `pos` lists, in increasing order, the original positions of the elements
      of `arrCopy`. */
  ghost predicate Tracks(arr: seq<Point>, arrCopy: seq<Point>, pos: seq<int>)
  {
    && |pos| == |arrCopy|
    && (forall t :: 0 <= t < |pos| ==> 0 <= pos[t] < |arr| && arrCopy[t] == arr[pos[t]])
    && (forall t, u :: 0 <= t < u < |pos| ==> pos[t] < pos[u])
  }

  /** Popping the same position from the copy and from its position list keeps
      the two in step, and removes exactly the popped original position. */
  lemma PopTracks(arr: seq<Point>, arrCopy: seq<Point>, pos: seq<int>, i: nat)
    requires Tracks(arr, arrCopy, pos) && i < |pos|
    ensures Tracks(arr, RemoveAt(arrCopy, i), RemoveAt(pos, i))
    ensures forall j :: j in RemoveAt(pos, i) <==> j in pos && j != pos[i]
  {
    PositionsAfterPop(pos, i);
    var r := RemoveAt(pos, i);
    var c := RemoveAt(arrCopy, i);
    forall t | 0 <= t < |r|
      ensures 0 <= r[t] < |arr| && c[t] == arr[r[t]]
    {
      if t < i {
        assert r[t] == pos[t] && c[t] == arrCopy[t];
      } else {
        assert r[t] == pos[t + 1] && c[t] == arrCopy[t + 1];
      }
    }
  }

  /** The element `find_closest` picks from the copy is, among the elements
      still in the copy, the first in consumption order of the original list. */
  lemma PoppedFirst(pt: Point, arr: seq<Point>, arrCopy: seq<Point>, pos: seq<int>, i: nat)
    requires Tracks(arr, arrCopy, pos) && IsFirstNearest(pt, arrCopy, i)
    ensures forall t :: 0 <= t < |pos| && t != i ==> KeyBefore(pt, arr, pos[i], pos[t])
  {
    forall t | 0 <= t < |pos| && t != i
      ensures KeyBefore(pt, arr, pos[i], pos[t])
    {
      assert KeyBefore(pt, arrCopy, i, t);
    }
  }

  /** When the popped element passes, it is the first passing element. */
  lemma PassingFound(pt: Point, arr: seq<Point>, test: Point -> bool, pos: seq<int>, i: nat)
    requires i < |pos| && 0 <= pos[i] < |arr| && test(arr[pos[i]])
    requires forall t :: 0 <= t < |pos| && t != i ==> 0 <= pos[t] < |arr| && KeyBefore(pt, arr, pos[i], pos[t])
    requires forall j :: 0 <= j < |arr| && j !in pos ==> !test(arr[j])
    ensures FirstNearestPassing(pt, arr, test, pos[i])
  {
    forall j | 0 <= j < |arr| && j != pos[i] && test(arr[j])
      ensures KeyBefore(pt, arr, pos[i], j)
    {
      var t :| 0 <= t < |pos| && pos[t] == j;
    }
  }

  /** Popping position `i` of the position list keeps it increasing and removes
      exactly the popped position. */
  lemma PositionsAfterPop(pos: seq<int>, i: nat)
    requires i < |pos|
    requires forall t, u :: 0 <= t < u < |pos| ==> pos[t] < pos[u]
    ensures forall t, u :: 0 <= t < u < |RemoveAt(pos, i)| ==> RemoveAt(pos, i)[t] < RemoveAt(pos, i)[u]
    ensures forall j :: j in RemoveAt(pos, i) <==> j in pos && j != pos[i]
  {
    var r := RemoveAt(pos, i);
    forall j
      ensures j in r <==> j in pos && j != pos[i]
    {
      if j in r {
        var t :| 0 <= t < |r| && r[t] == j;
        if t < i {
          assert pos[t] == j;
        } else {
          assert pos[t + 1] == j;
        }
      }
      if j in pos && j != pos[i] {
        var t :| 0 <= t < |pos| && pos[t] == j;
        if t < i {
          assert r[t] == j;
        } else {
          assert r[t - 1] == j;
        }
      }
    }
  }

  /** The "opposite side" test of `find_opposite_closest`: `c - pt` points away
      from `direction - pt`, and, when the variant has a threshold, `c` is
      closer to `pt` than the threshold (given squared). */
  predicate Opposite(pt: Point, direction: Point, maxDistSq: Option<real>, c: Point)
  {
    Dot(Sub(c, pt), Sub(direction, pt)) < 0.0 && (maxDistSq.Some? ==> DistSq(c, pt) < maxDistSq.value)
  }

  /** `Opposite` as the test function `find_opposite_closest` applies. */
  function OppositeTest(pt: Point, direction: Point, maxDistSq: Option<real>): Point -> bool
  {
    c => Opposite(pt, direction, maxDistSq, c)
  }

  /** `find_opposite_closest`. */
  method FindOppositeClosest(pt: Point, arr: seq<Point>, direction: Point, maxDistSq: Option<real>)
    returns (oppositeClosest: Point, found: bool)
    ensures found <==> exists j :: 0 <= j < |arr| && Opposite(pt, direction, maxDistSq, arr[j])
    ensures found ==> oppositeClosest in arr && Opposite(pt, direction, maxDistSq, oppositeClosest)
    ensures found ==> exists k :: FirstNearestPassing(pt, arr, OppositeTest(pt, direction, maxDistSq), k) &&
                                  oppositeClosest == arr[k]
    ensures !found ==> oppositeClosest == pt
    ensures found <==> NearestPassing(pt, arr, OppositeTest(pt, direction, maxDistSq)).Some?
    ensures found ==> oppositeClosest == arr[NearestPassing(pt, arr, OppositeTest(pt, direction, maxDistSq)).value]
  {
    oppositeClosest, found := FindNearestPassing(pt, arr, OppositeTest(pt, direction, maxDistSq));
  }

  /** The test of `find_aligned_closest`: the raw vectors `direction` and `c`
      (not taken relative to `pt`) have a positive dot product. */
  predicate Aligned(direction: Point, c: Point)
  {
    Dot(direction, c) > 0.0
  }

  /** `find_aligned_closest`. */
  method FindAlignedClosest(pt: Point, arr: seq<Point>, direction: Point) returns (alignedClosest: Point, found: bool)
    ensures found <==> exists j :: 0 <= j < |arr| && Aligned(direction, arr[j])
    ensures found ==> alignedClosest in arr && Aligned(direction, alignedClosest)
    ensures found ==> exists k :: FirstNearestPassing(pt, arr, c => Aligned(direction, c), k) && alignedClosest == arr[k]
    ensures !found ==> alignedClosest == pt
  {
    alignedClosest, found := FindNearestPassing(pt, arr, c => Aligned(direction, c));
  }

  // ---------------------------------------------------------------------------
  // sort_pts

  /** A chain whose node `s` is the start: every node after `s + 1` lies on the
      opposite side of its predecessor from the node before that, and every node
      before `s` lies on the opposite side of its successor from the node after
      that. */
  ghost predicate Chained(chain: seq<Point>, s: int, maxDistSq: Option<real>)
  {
    && 0 <= s && s + 1 < |chain|
    && (forall i :: s + 2 <= i < |chain| ==> Opposite(chain[i - 1], chain[i - 2], maxDistSq, chain[i]))
    && (forall i :: 0 <= i < s ==> Opposite(chain[i + 1], chain[i + 2], maxDistSq, chain[i]))
  }

  /** What `sort_pts` returns, with start position `s` and first neighbour
      `rest[k]`: the start node, then its nearest neighbour, grown at the back;
      the front is grown exactly when the start has a node on the opposite side
      of its neighbour; and every node left in the pool fails the test at each
      end that was grown until it failed. */
  ghost predicate SortedShape(ptsOrig: seq<Point>, startIdx: nat, maxDistSq: Option<real>,
                              chain: seq<Point>, s: int, k: int)
    requires startIdx < |ptsOrig|
  {
    && Chained(chain, s, maxDistSq)
    && StartPair(ptsOrig, startIdx, chain, s, k)
    && (s == 0 <==> NoneOppositeOf(ptsOrig, startIdx, maxDistSq, k))
    && LeftoverFails(ptsOrig, maxDistSq, chain, s)
  }

  /** Node `s` of the chain is the start node and node `s + 1` its nearest
      neighbour `rest[k]` among the other nodes. */
  ghost predicate StartPair(ptsOrig: seq<Point>, startIdx: nat, chain: seq<Point>, s: int, k: int)
    requires startIdx < |ptsOrig|
  {
    var rest := RemoveAt(ptsOrig, startIdx);
    0 <= s && s + 1 < |chain| && chain[s] == ptsOrig[startIdx] &&
    IsFirstNearest(ptsOrig[startIdx], rest, k) && chain[s + 1] == rest[k]
  }

  /** No node other than the start and its neighbour `rest[k]` lies on the
      opposite side of the start from the neighbour. */
  ghost predicate NoneOppositeOf(ptsOrig: seq<Point>, startIdx: nat, maxDistSq: Option<real>, k: int)
    requires startIdx < |ptsOrig| && 0 <= k < |ptsOrig| - 1
  {
    var rest := RemoveAt(ptsOrig, startIdx);
    forall j :: 0 <= j < |RemoveAt(rest, k)| ==> !Opposite(ptsOrig[startIdx], rest[k], maxDistSq, RemoveAt(rest, k)[j])
  }

  /** Every input node missing from the chain fails the test at the back, and
      at the front when the front was grown. */
  ghost predicate LeftoverFails(ptsOrig: seq<Point>, maxDistSq: Option<real>, chain: seq<Point>, s: int)
  {
    |chain| >= 2 &&
    forall p :: p in multiset(ptsOrig) - multiset(chain) ==>
      !Opposite(chain[|chain| - 1], chain[|chain| - 2], maxDistSq, p) &&
      (s > 0 ==> !Opposite(chain[0], chain[1], maxDistSq, p))
  }

  /** No pool node passes the opposite test at the back of the chain. */
  ghost predicate BackStuck(chain: seq<Point>, pool: seq<Point>, maxDistSq: Option<real>)
  {
    |chain| >= 2 && forall p :: p in pool ==> !Opposite(chain[|chain| - 1], chain[|chain| - 2], maxDistSq, p)
  }

  /** No pool node passes the opposite test at the front of the chain. */
  ghost predicate FrontStuck(chain: seq<Point>, pool: seq<Point>, maxDistSq: Option<real>)
  {
    |chain| >= 2 && forall p :: p in pool ==> !Opposite(chain[0], chain[1], maxDistSq, p)
  }

  /** The state of the first loop: chain plus pool hold the same nodes as at
      the start, the chain extends its initial value, and each appended node
      passed the test against the two nodes before it. */
  ghost predicate BackGrown(sortedPts: seq<Point>, pts: seq<Point>, maxDistSq: Option<real>,
                            chain: seq<Point>, pool: seq<Point>)
  {
    && multiset(chain) + multiset(pool) == multiset(sortedPts) + multiset(pts)
    && |chain| >= |sortedPts| && (forall i :: 0 <= i < |sortedPts| ==> chain[i] == sortedPts[i])
    && forall i :: |sortedPts| <= i < |chain| && i >= 2 ==> Opposite(chain[i - 1], chain[i - 2], maxDistSq, chain[i])
  }

  /** One step of the first loop keeps its state description. */
  lemma BackStep(sortedPts: seq<Point>, pts: seq<Point>, maxDistSq: Option<real>,
                 chain: seq<Point>, pool: seq<Point>, c: Point)
    requires BackGrown(sortedPts, pts, maxDistSq, chain, pool)
    requires |chain| >= 2 && c in pool && Opposite(chain[|chain| - 1], chain[|chain| - 2], maxDistSq, c)
    ensures RemoveFirst(pool, c).Ok?
    ensures BackGrown(sortedPts, pts, maxDistSq, chain + [c], RemoveFirst(pool, c).value)
  {
    MoveNode(chain + [c], chain, pool, c);
  }

  /** Moving one node from the pool into the chain keeps their joint multiset. */
  lemma MoveNode(chain': seq<Point>, chain: seq<Point>, pool: seq<Point>, c: Point)
    requires c in pool && multiset(chain') == multiset(chain) + multiset{c}
    ensures RemoveFirst(pool, c).Ok?
    ensures multiset(chain') + multiset(RemoveFirst(pool, c).value) == multiset(chain) + multiset(pool)
  {
  }

  /** The first loop of `sort_pts` on values: while the pool is not empty and
      some node of it lies opposite the chain's last node (seen from the node
      before it), the first such node in consumption order moves from the pool
      to the back of the chain. */
  function BackLoop(chain: seq<Point>, pool: seq<Point>, maxDistSq: Option<real>): (r: (seq<Point>, seq<Point>))
    requires |chain| >= 2
    ensures |r.0| >= |chain|
    decreases |pool|
  {
    if |pool| == 0 then (chain, pool)
    else match NearestPassing(chain[|chain| - 1], pool, OppositeTest(chain[|chain| - 1], chain[|chain| - 2], maxDistSq))
      case None => (chain, pool)
      case Some(k) => BackLoop(chain + [pool[k]], RemoveFirst(pool, pool[k]).value, maxDistSq)
  }

  /** The greedy choice of the first loop: whenever some pool node passes the
      opposite test at the back, the loop appends the first passing node in
      (distance, position) order and removes it from the pool. */
  lemma BackLoopGreedy(chain: seq<Point>, pool: seq<Point>, maxDistSq: Option<real>, k: int)
    requires |chain| >= 2
    requires FirstNearestPassing(chain[|chain| - 1], pool, OppositeTest(chain[|chain| - 1], chain[|chain| - 2], maxDistSq), k)
    ensures pool[k] in pool
    ensures BackLoop(chain, pool, maxDistSq) == BackLoop(chain + [pool[k]], RemoveFirst(pool, pool[k]).value, maxDistSq)
  {
    NearestPassingIs(chain[|chain| - 1], pool, OppositeTest(chain[|chain| - 1], chain[|chain| - 2], maxDistSq), k);
  }

  /** The first loop stops exactly when no pool node passes the test at the
      back: it then leaves chain and pool as they are. */
  lemma BackLoopStops(chain: seq<Point>, pool: seq<Point>, maxDistSq: Option<real>)
    requires |chain| >= 2
    requires forall j :: 0 <= j < |pool| ==> !Opposite(chain[|chain| - 1], chain[|chain| - 2], maxDistSq, pool[j])
    ensures BackLoop(chain, pool, maxDistSq) == (chain, pool)
  {
    var test := OppositeTest(chain[|chain| - 1], chain[|chain| - 2], maxDistSq);
    assert forall j :: 0 <= j < |pool| ==> !test(pool[j]);
  }

  /** The first loop of `sort_pts`: appends the opposite closest node of the
      chain's last node (seen from the node before it) until the pool is empty
      or no node qualifies. */
  method GrowBack(sortedPts: seq<Point>, pts: seq<Point>, maxDistSq: Option<real>)
    returns (chain: seq<Point>, pool: seq<Point>)
    requires |sortedPts| >= 2
    ensures (chain, pool) == BackLoop(sortedPts, pts, maxDistSq)
    ensures BackGrown(sortedPts, pts, maxDistSq, chain, pool)
    ensures BackStuck(chain, pool, maxDistSq)
  {
    chain, pool := sortedPts, pts;
    ghost var target := BackLoop(sortedPts, pts, maxDistSq);
    while |pool| != 0
      invariant |chain| >= 2
      invariant BackLoop(chain, pool, maxDistSq) == target
      decreases |pool|
    {
      var curTarget := chain[|chain| - 1];
      var curDirection := chain[|chain| - 2];
      var curClosest, found := FindOppositeClosest(curTarget, pool, curDirection, maxDistSq);
      if !found {
        BackLoopStops(chain, pool, maxDistSq);
        break;
      }
      BackLoopGreedy(chain, pool, maxDistSq, NearestPassing(curTarget, pool, OppositeTest(curTarget, curDirection, maxDistSq)).value);
      chain := chain + [curClosest];
      pool := RemoveFirst(pool, curClosest).value;
    }
    BackLoopGrown(sortedPts, pts, maxDistSq, sortedPts, pts);
    BackLoopEnds(sortedPts, pts, maxDistSq);
  }

  /** The first loop on values keeps the state description of `BackStep`. */
  lemma {:induction false} BackLoopGrown(sortedPts: seq<Point>, pts: seq<Point>, maxDistSq: Option<real>,
                                         chain: seq<Point>, pool: seq<Point>)
    requires |chain| >= 2
    requires BackGrown(sortedPts, pts, maxDistSq, chain, pool)
    ensures var r := BackLoop(chain, pool, maxDistSq);
      BackGrown(sortedPts, pts, maxDistSq, r.0, r.1)
    decreases |pool|
  {
    if |pool| > 0 {
      var test := OppositeTest(chain[|chain| - 1], chain[|chain| - 2], maxDistSq);
      match NearestPassing(chain[|chain| - 1], pool, test)
      case None =>
      case Some(k) =>
        assert test(pool[k]);
        BackStep(sortedPts, pts, maxDistSq, chain, pool, pool[k]);
        BackLoopGrown(sortedPts, pts, maxDistSq, chain + [pool[k]], RemoveFirst(pool, pool[k]).value);
    }
  }

  /** The first loop on values stops with every pool node failing the test at
      the back. */
  lemma {:induction false} BackLoopEnds(chain: seq<Point>, pool: seq<Point>, maxDistSq: Option<real>)
    requires |chain| >= 2
    ensures BackStuck(BackLoop(chain, pool, maxDistSq).0, BackLoop(chain, pool, maxDistSq).1, maxDistSq)
    decreases |pool|
  {
    if |pool| > 0 {
      var test := OppositeTest(chain[|chain| - 1], chain[|chain| - 2], maxDistSq);
      match NearestPassing(chain[|chain| - 1], pool, test)
      case None =>
        assert forall j :: 0 <= j < |pool| ==> !test(pool[j]);
      case Some(k) =>
        BackLoopEnds(chain + [pool[k]], RemoveFirst(pool, pool[k]).value, maxDistSq);
    }
  }

  /** When no position of the pool passes the test, no node in it does. */
  lemma NoneOpposite(pt: Point, pool: seq<Point>, direction: Point, maxDistSq: Option<real>)
    requires !exists j :: 0 <= j < |pool| && Opposite(pt, direction, maxDistSq, pool[j])
    ensures forall p :: p in pool ==> !Opposite(pt, direction, maxDistSq, p)
  {
  }

  /** The state of the second loop: chain plus pool hold the same nodes as at
      the start, and the chain is grown at the front from its initial value. */
  ghost predicate FrontGrown(sortedPts: seq<Point>, pts: seq<Point>, maxDistSq: Option<real>,
                             chain: seq<Point>, pool: seq<Point>)
  {
    && multiset(chain) + multiset(pool) == multiset(sortedPts) + multiset(pts)
    && FrontShape(sortedPts, maxDistSq, chain)
  }

  /** The chain ends with its initial value, and each node inserted at the
      front passed the test against the two nodes after it. */
  ghost predicate FrontShape(sortedPts: seq<Point>, maxDistSq: Option<real>, chain: seq<Point>)
  {
    && |chain| >= |sortedPts| && (forall i :: 0 <= i < |sortedPts| ==> chain[|chain| - |sortedPts| + i] == sortedPts[i])
    && forall i :: 0 <= i < |chain| - |sortedPts| && i + 2 < |chain| ==> Opposite(chain[i + 1], chain[i + 2], maxDistSq, chain[i])
  }

  /** One step of the second loop keeps its state description. */
  lemma FrontStep(sortedPts: seq<Point>, pts: seq<Point>, maxDistSq: Option<real>,
                  chain: seq<Point>, pool: seq<Point>, c: Point)
    requires FrontGrown(sortedPts, pts, maxDistSq, chain, pool)
    requires |chain| >= 2 && c in pool && Opposite(chain[0], chain[1], maxDistSq, c)
    ensures RemoveFirst(pool, c).Ok?
    ensures FrontGrown(sortedPts, pts, maxDistSq, InsertAt(chain, 0, c), RemoveFirst(pool, c).value)
  {
    MoveNode(InsertAt(chain, 0, c), chain, pool, c);
    FrontShapeStep(sortedPts, maxDistSq, chain, c);
  }

  lemma FrontShapeStep(sortedPts: seq<Point>, maxDistSq: Option<real>, chain: seq<Point>, c: Point)
    requires FrontShape(sortedPts, maxDistSq, chain)
    requires |chain| >= 2 && Opposite(chain[0], chain[1], maxDistSq, c)
    ensures FrontShape(sortedPts, maxDistSq, InsertAt(chain, 0, c))
  {
    var chain' := InsertAt(chain, 0, c);
    forall i | 0 <= i < |chain'| - |sortedPts| && i + 2 < |chain'|
      ensures Opposite(chain'[i + 1], chain'[i + 2], maxDistSq, chain'[i])
    {
      if i > 0 {
        assert chain'[i] == chain[i - 1] && chain'[i + 1] == chain[i] && chain'[i + 2] == chain[i + 1];
        assert Opposite(chain[i], chain[i + 1], maxDistSq, chain[i - 1]);
      } else {
        assert chain'[0] == c && chain'[1] == chain[0] && chain'[2] == chain[1];
      }
    }
    forall i | 0 <= i < |sortedPts|
      ensures chain'[|chain'| - |sortedPts| + i] == sortedPts[i]
    {
      assert chain'[|chain'| - |sortedPts| + i] == chain[|chain| - |sortedPts| + i];
    }
  }

  /** The second loop of `sort_pts` on values: while the pool is not empty and
      some node of it lies opposite the chain's first node (seen from the node
      after it), the first such node in consumption order moves from the pool
      to the front of the chain. */
  function FrontLoop(chain: seq<Point>, pool: seq<Point>, maxDistSq: Option<real>): (r: (seq<Point>, seq<Point>))
    requires |chain| >= 2
    ensures |r.0| >= |chain|
    decreases |pool|
  {
    if |pool| == 0 then (chain, pool)
    else match NearestPassing(chain[0], pool, OppositeTest(chain[0], chain[1], maxDistSq))
      case None => (chain, pool)
      case Some(k) => FrontLoop(InsertAt(chain, 0, pool[k]), RemoveFirst(pool, pool[k]).value, maxDistSq)
  }

  /** The greedy choice of the second loop: whenever some pool node passes the
      opposite test at the front, the loop inserts the first passing node in
      (distance, position) order at the front and removes it from the pool. */
  lemma FrontLoopGreedy(chain: seq<Point>, pool: seq<Point>, maxDistSq: Option<real>, k: int)
    requires |chain| >= 2
    requires FirstNearestPassing(chain[0], pool, OppositeTest(chain[0], chain[1], maxDistSq), k)
    ensures pool[k] in pool
    ensures FrontLoop(chain, pool, maxDistSq) == FrontLoop(InsertAt(chain, 0, pool[k]), RemoveFirst(pool, pool[k]).value, maxDistSq)
  {
    NearestPassingIs(chain[0], pool, OppositeTest(chain[0], chain[1], maxDistSq), k);
  }

  /** The second loop stops exactly when no pool node passes the test at the
      front: it then leaves chain and pool as they are. */
  lemma FrontLoopStops(chain: seq<Point>, pool: seq<Point>, maxDistSq: Option<real>)
    requires |chain| >= 2
    requires forall j :: 0 <= j < |pool| ==> !Opposite(chain[0], chain[1], maxDistSq, pool[j])
    ensures FrontLoop(chain, pool, maxDistSq) == (chain, pool)
  {
    var test := OppositeTest(chain[0], chain[1], maxDistSq);
    assert forall j :: 0 <= j < |pool| ==> !test(pool[j]);
  }

  /** The second loop of `sort_pts`: inserts the opposite closest node of the
      chain's first node (seen from the node after it) at the front until the
      pool is empty or no node qualifies. */
  method GrowFront(sortedPts: seq<Point>, pts: seq<Point>, maxDistSq: Option<real>)
    returns (chain: seq<Point>, pool: seq<Point>)
    requires |sortedPts| >= 2
    ensures (chain, pool) == FrontLoop(sortedPts, pts, maxDistSq)
    ensures FrontGrown(sortedPts, pts, maxDistSq, chain, pool)
    ensures multiset(pool) <= multiset(pts)
    ensures FrontStuck(chain, pool, maxDistSq)
  {
    chain, pool := sortedPts, pts;
    ghost var target := FrontLoop(sortedPts, pts, maxDistSq);
    while |pool| != 0
      invariant |chain| >= 2
      invariant FrontLoop(chain, pool, maxDistSq) == target
      decreases |pool|
    {
      var curTarget := chain[0];
      var curDirection := chain[1];
      var curClosest, found := FindOppositeClosest(curTarget, pool, curDirection, maxDistSq);
      if !found {
        FrontLoopStops(chain, pool, maxDistSq);
        break;
      }
      FrontLoopGreedy(chain, pool, maxDistSq, NearestPassing(curTarget, pool, OppositeTest(curTarget, curDirection, maxDistSq)).value);
      chain := InsertAt(chain, 0, curClosest);
      pool := RemoveFirst(pool, curClosest).value;
    }
    FrontLoopGrown(sortedPts, pts, maxDistSq, sortedPts, pts);
    FrontLoopEnds(sortedPts, pts, maxDistSq);
  }

  /** The second loop on values keeps the state description of `FrontStep`
      and only ever takes nodes from the pool. */
  lemma {:induction false} FrontLoopGrown(sortedPts: seq<Point>, pts: seq<Point>, maxDistSq: Option<real>,
                                          chain: seq<Point>, pool: seq<Point>)
    requires |chain| >= 2
    requires FrontGrown(sortedPts, pts, maxDistSq, chain, pool)
    ensures var r := FrontLoop(chain, pool, maxDistSq);
      FrontGrown(sortedPts, pts, maxDistSq, r.0, r.1)
    ensures multiset(FrontLoop(chain, pool, maxDistSq).1) <= multiset(pool)
    decreases |pool|
  {
    if |pool| > 0 {
      var test := OppositeTest(chain[0], chain[1], maxDistSq);
      match NearestPassing(chain[0], pool, test)
      case None =>
      case Some(k) =>
        assert test(pool[k]);
        FrontStep(sortedPts, pts, maxDistSq, chain, pool, pool[k]);
        FrontLoopGrown(sortedPts, pts, maxDistSq, InsertAt(chain, 0, pool[k]), RemoveFirst(pool, pool[k]).value);
    }
  }

  /** The second loop on values stops with every pool node failing the test
      at the front. */
  lemma {:induction false} FrontLoopEnds(chain: seq<Point>, pool: seq<Point>, maxDistSq: Option<real>)
    requires |chain| >= 2
    ensures FrontStuck(FrontLoop(chain, pool, maxDistSq).0, FrontLoop(chain, pool, maxDistSq).1, maxDistSq)
    decreases |pool|
  {
    if |pool| > 0 {
      var test := OppositeTest(chain[0], chain[1], maxDistSq);
      match NearestPassing(chain[0], pool, test)
      case None =>
        assert forall j :: 0 <= j < |pool| ==> !test(pool[j]);
      case Some(k) =>
        FrontLoopEnds(InsertAt(chain, 0, pool[k]), RemoveFirst(pool, pool[k]).value, maxDistSq);
    }
  }

  /** The input splits into the start node, its nearest neighbour and the
      pool the first loop begins with. */
  lemma SplitStart(ptsOrig: seq<Point>, startIdx: nat, k: nat)
    requires startIdx < |ptsOrig| && k < |RemoveAt(ptsOrig, startIdx)|
    ensures var rest := RemoveAt(ptsOrig, startIdx);
      multiset(ptsOrig) == multiset([ptsOrig[startIdx], rest[k]]) + multiset(RemoveAt(rest, k))
  {
    var rest := RemoveAt(ptsOrig, startIdx);
    assert ptsOrig[startIdx] in multiset(ptsOrig);
    assert rest[k] in multiset(rest);
    assert multiset([ptsOrig[startIdx], rest[k]]) == multiset{ptsOrig[startIdx]} + multiset{rest[k]};
  }

  /** Nodes that fail the end tests in the final pool make up the leftover. */
  lemma PoolFails(ptsOrig: seq<Point>, maxDistSq: Option<real>, chain: seq<Point>, pool: seq<Point>, s: int)
    requires |chain| >= 2 && multiset(ptsOrig) - multiset(chain) == multiset(pool)
    requires BackStuck(chain, pool, maxDistSq)
    requires s > 0 ==> FrontStuck(chain, pool, maxDistSq)
    ensures LeftoverFails(ptsOrig, maxDistSq, chain, s)
  {
    forall p | p in multiset(ptsOrig) - multiset(chain)
      ensures !Opposite(chain[|chain| - 1], chain[|chain| - 2], maxDistSq, p)
      ensures s > 0 ==> !Opposite(chain[0], chain[1], maxDistSq, p)
    {
      assert p in multiset(pool);
      assert p in pool;
    }
  }

  /** The nodes left over are exactly those of the final pool. */
  lemma Leftover(ptsOrig: seq<Point>, chain: seq<Point>, pool: seq<Point>)
    requires multiset(chain) + multiset(pool) == multiset(ptsOrig)
    ensures multiset(ptsOrig) - multiset(chain) == multiset(pool)
    ensures multiset(chain) <= multiset(ptsOrig)
  {
  }

  /** The result when the start has no node on the opposite side of its
      neighbour: only the first loop runs. */
  lemma BackOnlyShape(ptsOrig: seq<Point>, startIdx: nat, maxDistSq: Option<real>, k: nat,
                      chain: seq<Point>, pool: seq<Point>)
    requires startIdx < |ptsOrig|
    requires IsFirstNearest(ptsOrig[startIdx], RemoveAt(ptsOrig, startIdx), k)
    requires var rest := RemoveAt(ptsOrig, startIdx);
      BackGrown([ptsOrig[startIdx], rest[k]], RemoveAt(rest, k), maxDistSq, chain, pool)
    requires BackStuck(chain, pool, maxDistSq)
    requires NoneOppositeOf(ptsOrig, startIdx, maxDistSq, k)
    ensures SortedShape(ptsOrig, startIdx, maxDistSq, chain, 0, k)
    ensures multiset(chain) <= multiset(ptsOrig)
  {
    SplitStart(ptsOrig, startIdx, k);
    Leftover(ptsOrig, chain, pool);
    assert Chained(chain, 0, maxDistSq);
    assert StartPair(ptsOrig, startIdx, chain, 0, k);
    PoolFails(ptsOrig, maxDistSq, chain, pool, 0);
  }

  /** After the insertion of `closest_2` and the second loop, the chain from
      the first loop sits at the back of the result, right after `closest_2`. */
  lemma FrontSuffix(back: seq<Point>, c2: Point, maxDistSq: Option<real>, chain: seq<Point>)
    requires FrontShape(InsertAt(back, 0, c2), maxDistSq, chain)
    ensures |chain| > |back|
    ensures chain[|chain| - |back| - 1] == c2
    ensures forall u :: 0 <= u < |back| ==> chain[|chain| - |back| + u] == back[u]
  {
    var f := InsertAt(back, 0, c2);
    assert chain[|chain| - |f| + 0] == f[0];
    forall u | 0 <= u < |back|
      ensures chain[|chain| - |back| + u] == back[u]
    {
      assert chain[|chain| - |f| + (u + 1)] == f[u + 1];
    }
  }

  /** The result when the start has a node `c2` on the opposite side of its
      neighbour: the first loop's chain, then `c2` and the second loop's nodes
      in front of it. */
  lemma BothEndsShape(ptsOrig: seq<Point>, startIdx: nat, maxDistSq: Option<real>, k: nat,
                      back: seq<Point>, backPool: seq<Point>, c2: Point, chain: seq<Point>, pool: seq<Point>)
    requires startIdx < |ptsOrig|
    requires IsFirstNearest(ptsOrig[startIdx], RemoveAt(ptsOrig, startIdx), k)
    requires var rest := RemoveAt(ptsOrig, startIdx);
      BackGrown([ptsOrig[startIdx], rest[k]], RemoveAt(rest, k), maxDistSq, back, backPool)
    requires BackStuck(back, backPool, maxDistSq)
    requires var rest := RemoveAt(ptsOrig, startIdx);
      c2 in RemoveAt(rest, k) && Opposite(ptsOrig[startIdx], rest[k], maxDistSq, c2)
    requires c2 in backPool
    requires FrontGrown(InsertAt(back, 0, c2), RemoveFirst(backPool, c2).value, maxDistSq, chain, pool)
    requires multiset(pool) <= multiset(RemoveFirst(backPool, c2).value)
    requires FrontStuck(chain, pool, maxDistSq)
    ensures SortedShape(ptsOrig, startIdx, maxDistSq, chain, |chain| - |back|, k)
    ensures multiset(chain) <= multiset(ptsOrig)
  {
    var rest := RemoveAt(ptsOrig, startIdx);
    var s := |chain| - |back|;
    BothEndsChained(back, c2, maxDistSq, chain);
    SplitStart(ptsOrig, startIdx, k);
    BothEndsPool(ptsOrig, back, backPool, c2, chain, pool);
    Leftover(ptsOrig, chain, pool);
    PoolFails(ptsOrig, maxDistSq, chain, pool, s);
    assert !NoneOppositeOf(ptsOrig, startIdx, maxDistSq, k);
    assert StartPair(ptsOrig, startIdx, chain, s, k);
  }

  /** The links of a chain grown at both ends. */
  lemma BothEndsChained(back: seq<Point>, c2: Point, maxDistSq: Option<real>, chain: seq<Point>)
    requires |back| >= 2 && Opposite(back[0], back[1], maxDistSq, c2)
    requires forall i :: 2 <= i < |back| ==> Opposite(back[i - 1], back[i - 2], maxDistSq, back[i])
    requires FrontShape(InsertAt(back, 0, c2), maxDistSq, chain)
    ensures Chained(chain, |chain| - |back|, maxDistSq)
    ensures chain[|chain| - |back|] == back[0] && chain[|chain| - |back| + 1] == back[1]
    ensures chain[|chain| - 1] == back[|back| - 1] && chain[|chain| - 2] == back[|back| - 2]
  {
    var s := |chain| - |back|;
    FrontSuffix(back, c2, maxDistSq, chain);
    forall i | s + 2 <= i < |chain|
      ensures Opposite(chain[i - 1], chain[i - 2], maxDistSq, chain[i])
    {
      assert chain[i] == back[i - s] && chain[i - 1] == back[i - s - 1] && chain[i - 2] == back[i - s - 2];
    }
    assert chain[s - 1] == c2 && chain[s] == back[0] && chain[s + 1] == back[1];
    assert chain[|chain| - 1] == back[|back| - 1] && chain[|chain| - 2] == back[|back| - 2];
  }

  /** The pool after both loops is part of the pool after the first. */
  lemma BothEndsPool(ptsOrig: seq<Point>, back: seq<Point>, backPool: seq<Point>, c2: Point,
                     chain: seq<Point>, pool: seq<Point>)
    requires multiset(back) + multiset(backPool) == multiset(ptsOrig) && c2 in backPool
    requires multiset(chain) + multiset(pool) == multiset(InsertAt(back, 0, c2)) + multiset(RemoveFirst(backPool, c2).value)
    requires multiset(pool) <= multiset(RemoveFirst(backPool, c2).value)
    ensures multiset(chain) + multiset(pool) == multiset(ptsOrig)
    ensures forall p :: p in pool ==> p in backPool
  {
    assert multiset(InsertAt(back, 0, c2)) + multiset(RemoveFirst(backPool, c2).value) == multiset(back) + multiset(backPool);
    forall p | p in pool
      ensures p in backPool
    {
      assert p in multiset(RemoveFirst(backPool, c2).value);
    }
  }

  // ---------------------------------------------------------------------------
  // sort_pts on values

  /** `closest_1`: the start node's nearest neighbour among the other nodes. */
  function Neighbour(ptsOrig: seq<Point>, startIdx: nat): Point
    requires startIdx < |ptsOrig| && |ptsOrig| >= 2
  {
    RemoveAt(ptsOrig, startIdx)[Nearest(ptsOrig[startIdx], RemoveAt(ptsOrig, startIdx))]
  }

  /** The pool the first loop starts from: every node but the start and
      `closest_1`. */
  function FirstPool(ptsOrig: seq<Point>, startIdx: nat): seq<Point>
    requires startIdx < |ptsOrig| && |ptsOrig| >= 2
  {
    RemoveAt(RemoveAt(ptsOrig, startIdx), Nearest(ptsOrig[startIdx], RemoveAt(ptsOrig, startIdx)))
  }

  /** The position in the first pool of `closest_2`, the first node in
      consumption order on the opposite side of the start from `closest_1`;
      None makes the start a true end of the chain. */
  function OppositeOfStart(ptsOrig: seq<Point>, startIdx: nat, maxDistSq: Option<real>): Option<nat>
    requires startIdx < |ptsOrig| && |ptsOrig| >= 2
  {
    NearestPassing(ptsOrig[startIdx], FirstPool(ptsOrig, startIdx),
                   OppositeTest(ptsOrig[startIdx], Neighbour(ptsOrig, startIdx), maxDistSq))
  }

  /** Chain and pool after the first loop. */
  function FirstLoop(ptsOrig: seq<Point>, startIdx: nat, maxDistSq: Option<real>): (seq<Point>, seq<Point>)
    requires startIdx < |ptsOrig| && |ptsOrig| >= 2
  {
    BackLoop([ptsOrig[startIdx], Neighbour(ptsOrig, startIdx)], FirstPool(ptsOrig, startIdx), maxDistSq)
  }

  /** `closest_2` exists and the first loop has already moved it into the
      chain, so that `pts.remove(closest_2)` raises ValueError. */
  predicate ClosestTwoConsumed(ptsOrig: seq<Point>, startIdx: nat, maxDistSq: Option<real>)
  {
    && startIdx < |ptsOrig| && |ptsOrig| >= 2
    && OppositeOfStart(ptsOrig, startIdx, maxDistSq).Some?
    && FirstPool(ptsOrig, startIdx)[OppositeOfStart(ptsOrig, startIdx, maxDistSq).value]
         !in FirstLoop(ptsOrig, startIdx, maxDistSq).1
  }

  /** `sort_pts` on values: IndexError for a start index past the end or a
      one-node input; the first loop's chain when the start is a true end;
      ValueError when `closest_2` was consumed; otherwise `closest_2` goes in
      front of the first loop's chain and the second loop grows the front. */
  function SortSpec(ptsOrig: seq<Point>, startIdx: nat, maxDistSq: Option<real>): Result<seq<Point>>
  {
    if startIdx >= |ptsOrig| || |ptsOrig| == 1 then Err(IndexError)
    else if OppositeOfStart(ptsOrig, startIdx, maxDistSq).None? then Ok(FirstLoop(ptsOrig, startIdx, maxDistSq).0)
    else if ClosestTwoConsumed(ptsOrig, startIdx, maxDistSq) then Err(ValueError)
    else
      var c2 := FirstPool(ptsOrig, startIdx)[OppositeOfStart(ptsOrig, startIdx, maxDistSq).value];
      Ok(FrontLoop(InsertAt(FirstLoop(ptsOrig, startIdx, maxDistSq).0, 0, c2),
                   RemoveFirst(FirstLoop(ptsOrig, startIdx, maxDistSq).1, c2).value, maxDistSq).0)
  }

  // ---------------------------------------------------------------------------
  // sort_pts

  /** The part of `sort_pts` after the first loop when the start node is not
      an end: `closest_2` goes in front and the second loop grows the front.
      `pts.remove(closest_2)` fails exactly when the first loop consumed it. */
  method GrowFrontPhase(ptsOrig: seq<Point>, startIdx: nat, maxDistSq: Option<real>, k: nat,
                        back: seq<Point>, backPool: seq<Point>, c2: Point)
    returns (r: Result<seq<Point>>)
    requires startIdx < |ptsOrig|
    requires IsFirstNearest(ptsOrig[startIdx], RemoveAt(ptsOrig, startIdx), k)
    requires var rest := RemoveAt(ptsOrig, startIdx);
      BackGrown([ptsOrig[startIdx], rest[k]], RemoveAt(rest, k), maxDistSq, back, backPool)
    requires BackStuck(back, backPool, maxDistSq)
    requires var rest := RemoveAt(ptsOrig, startIdx);
      c2 in RemoveAt(rest, k) && Opposite(ptsOrig[startIdx], rest[k], maxDistSq, c2)
    ensures r.Err? <==> c2 !in backPool
    ensures r.Err? ==> r.error == ValueError
    ensures r.Ok? ==> r.value == FrontLoop(InsertAt(back, 0, c2), RemoveFirst(backPool, c2).value, maxDistSq).0
    ensures r.Ok? ==> multiset(r.value) <= multiset(ptsOrig)
    ensures r.Ok? ==> exists s :: SortedShape(ptsOrig, startIdx, maxDistSq, r.value, s, k)
  {
    var sortedPts := InsertAt(back, 0, c2);
    var removed := RemoveFirst(backPool, c2);
    if removed.Err? {
      return Err(ValueError);
    }
    var chain, pool := GrowFront(sortedPts, removed.value, maxDistSq);
    BothEndsShape(ptsOrig, startIdx, maxDistSq, k, back, backPool, c2, chain, pool);
    r := Ok(chain);
  }

  /** `sort_pts` with start index `startIdx` and the squared distance threshold
      of the opposite test (`None` when the variant has none). A start index
      past the end, or a one-node input (`find_closest` on an empty list), raise
      IndexError; `pts.remove(closest_2)` raises ValueError exactly when the
      first loop has already consumed `closest_2`, so a start with no opposite
      neighbour always gives a result. */
  method SortPts(ptsOrig: seq<Point>, startIdx: nat, maxDistSq: Option<real>) returns (r: Result<seq<Point>>)
    ensures r == SortSpec(ptsOrig, startIdx, maxDistSq)
    ensures r == Err(IndexError) <==> startIdx >= |ptsOrig| || |ptsOrig| == 1
    ensures r == Err(ValueError) <==> ClosestTwoConsumed(ptsOrig, startIdx, maxDistSq)
    ensures r.Err? ==> r.error == IndexError || r.error == ValueError
    ensures startIdx < |ptsOrig| && |ptsOrig| >= 2 && OppositeOfStart(ptsOrig, startIdx, maxDistSq).None? ==> r.Ok?
    ensures r.Ok? ==> startIdx < |ptsOrig| && multiset(r.value) <= multiset(ptsOrig)
    ensures r.Ok? ==> exists s, k :: SortedShape(ptsOrig, startIdx, maxDistSq, r.value, s, k)
  {
    if startIdx >= |ptsOrig| {
      return Err(IndexError);
    }
    var pts := ptsOrig;
    var startingPt := pts[startIdx];
    pts := RemoveAt(pts, startIdx);
    var sortedPts := [startingPt];
    if |pts| == 0 {
      return Err(IndexError);
    }
    var closest1, minIdx := FindClosest(startingPt, pts);
    r := GrowFromPair(ptsOrig, startIdx, maxDistSq, minIdx);
  }

  /** `sort_pts` once the start node and its nearest neighbour `closest_1`
      (at position `k` of the remaining nodes) are chosen. */
  method GrowFromPair(ptsOrig: seq<Point>, startIdx: nat, maxDistSq: Option<real>, k: nat)
    returns (r: Result<seq<Point>>)
    requires startIdx < |ptsOrig|
    requires IsFirstNearest(ptsOrig[startIdx], RemoveAt(ptsOrig, startIdx), k)
    ensures r == SortSpec(ptsOrig, startIdx, maxDistSq)
    ensures r.Err? <==> ClosestTwoConsumed(ptsOrig, startIdx, maxDistSq)
    ensures r.Err? ==> r.error == ValueError
    ensures OppositeOfStart(ptsOrig, startIdx, maxDistSq).None? ==> r.Ok?
    ensures r.Ok? ==> multiset(r.value) <= multiset(ptsOrig)
    ensures r.Ok? ==> exists s :: SortedShape(ptsOrig, startIdx, maxDistSq, r.value, s, k)
  {
    FirstNearestUnique(ptsOrig[startIdx], RemoveAt(ptsOrig, startIdx), k,
                       Nearest(ptsOrig[startIdx], RemoveAt(ptsOrig, startIdx)));
    var startingPt := ptsOrig[startIdx];
    var rest := RemoveAt(ptsOrig, startIdx);
    var closest1 := rest[k];
    var sortedPts := [startingPt, closest1];
    var pts := RemoveAt(rest, k);
    var closest2, found := FindOppositeClosest(startingPt, pts, closest1, maxDistSq);
    var trueStart := !found;
    ghost var pool1 := pts;
    sortedPts, pts := GrowBack(sortedPts, pts, maxDistSq);
    if !trueStart {
      r := GrowFrontPhase(ptsOrig, startIdx, maxDistSq, k, sortedPts, pts, closest2);
      return;
    }
    NoneOpposite(startingPt, pool1, closest1, maxDistSq);
    BackOnlyShape(ptsOrig, startIdx, maxDistSq, k, sortedPts, pts);
    r := Ok(sortedPts);
  }
}
