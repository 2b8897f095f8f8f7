# TrackDLO discrete core in Dafny

TrackDLO tracks deformable linear objects (DLOs): ropes, cables and wires. It
models each object as a chain of nodes and fits the chain to a point cloud
with Coherent Point Drift (CPD) plus a locally linear embedding (LLE)
regulariser. This project models the exact, sequential parts of the tracker.
Points have exact `real` coordinates. The floating-point numerics are abstract
parameters.

- **C++ utilities** (`trackdlo/src/utils.cpp`):
  - squared point distances, dot and cross products (module `Geometry`);
  - in-place row deletion, as class `Utils.Matrix`;
  - the tolerance box test `isBetween`;
  - the case structure of the line/sphere intersection;
  - the edge-pair filter of `post_processing`;
  - the Prim-style node ordering `sort_pts` (module `PrimSort`). It keeps the
    source's bookkeeping counters `reverse`, `reverse_on`,
    `insertion_counter` and `last_visited_b`.
- **The greedy path sorter** of the Python trackers (module `PathSorter`):
  `find_closest`, `find_opposite_closest`, `find_aligned_closest` and
  `sort_pts`.
  - The three scripts carry copies that differ only in the start index
    (5, 15, 10) and in the distance threshold of the opposite test (0.05 m,
    0.07 m, none).
  - The sorter is written once, with both as parameters.
  - Modules `TwoWireTracking`, `TrackingCpdLleDev` and `TrackingCpdLle` fix
    each script's constants. They restate the contracts with those constants.
- **LLE neighbour selection** `get_nearest_indices`:
  - the two-wire version never crosses the wire boundary `intersection = 18`;
  - the single-chain version shifts its window at the chain ends.
- **Index-distance matrices** `indices_array` and `coeff` (module `Indexing`
  and the two tracker modules).
- **The discrete parts of the CPD loops** (module `Cpd`):
  - the E-step column normalisation;
  - the one-hot assignment `P_tilde`;
  - the iteration skeletons of `register` and `cpd`/`cpd_lle`;
  - the development tracker's sigma2 handling (`TrackingCpdLleDev.Run`).

Squared distances stand in for distances everywhere: the source compares
`np.sqrt` of the same sums, and the square root is strictly monotone.

**Python-to-Dafny conventions**
- Python exceptions become `Err(IndexError)`, `Err(ValueError)` or
  `Err(TypeError)` of `Common.Result`.
- `list.pop(i)` is `Common.RemoveAt`.
- `list.remove(x)` is `Common.RemoveFirst`: it removes the first element
  equal to `x`, or fails with ValueError. The sorter's lists are lists of
  coordinate lists, which compare by value.
- `list.insert(i, x)` is `Common.InsertAt`.
- `np.append(np.arange(lo, idx), np.arange(idx + 1, hi))` is
  `Indexing.Window(lo, idx, hi)`.

## Model

| member | source | states |
|---|---|---|
| Geometry.DistSqProperties | trackdlo/src/utils.cpp:13-15 | the squared distance of two points is non-negative, symmetric, and zero when they coincide |
| Geometry.SeqDistSqNonNegative | trackdlo/src/utils.cpp:13-15 | the row-wise squared distance of two node matrices is non-negative |
| Geometry.SeqDistSqSymmetric | trackdlo/src/utils.cpp:13-15 | the row-wise squared distance is symmetric in its two matrices |
| Geometry.SeqDistSqZeroWhenEqual | trackdlo/src/utils.cpp:13-15 | the row-wise squared distance of a matrix to itself is zero |
| Geometry.CrossProperties | trackdlo/src/utils.cpp:683-691 | `cross_product(v, w)` has dot product exactly 0 with both v and w, and equals the negation of `cross_product(w, v)` |
| Geometry.DotProperties | trackdlo/src/utils.cpp:693-695 | `dot_product` is symmetric, flips sign with a negated argument, and distributes over a difference |
| Utils.RowRemovedProperties | trackdlo/src/utils.cpp:85-93 | removing row r of an n-row matrix (n >= 1) leaves n-1 rows: rows before r unchanged, later rows shifted up by one; the multiset of rows loses exactly row r; with r >= n-1 only the last row is dropped |
| Utils.Matrix.RemoveRow | trackdlo/src/utils.cpp:85-93 | the in-place block shift and resize leave exactly `RowRemoved(old rows, r)` and the old column count, and keep every row `cols` wide |
| Utils.IsBetween | trackdlo/src/utils.cpp:172-183 | the flag loop returns true iff every coordinate of x lies within 0.0001 of the closed interval spanned by a's and b's coordinates (`InBox`) |
| Utils.InBoxProperties | trackdlo/src/utils.cpp:172-183 | `isBetween` is symmetric in a and b, and both a and b lie in their own box |
| Utils.LineSphereIntersection | trackdlo/src/utils.cpp:185-241 | with A != B and b = 2(B-A)·(A-center): no points for a negative discriminant; for a positive one, p is returned iff p is in the tolerance box and is one of the roots A + d(B-A) with d = (-b ± sqrt(delta))/2a, each in-box root once (the length is the number of in-box roots), the `+` root first when it is in the box; for a zero one, p is returned iff it is the tangent point d = -b/2a and in the box, so one point iff the tangent point is in the box; never more than two points |
| Utils.IntersectionsOnSphere | trackdlo/src/utils.cpp:185-241 | when `sqrt` squares back to the discriminant, every returned point is at distance exactly `radius` from the center |
| Utils.RootOnSphere | trackdlo/src/utils.cpp:188-197 | the line point at (-b + e)/2a, for any e with e² = delta, is at squared distance radius² from the center |
| Utils.QuadraticRoot | trackdlo/src/utils.cpp:194-197 | d = (-b + e)/2a with e² = b² - 4ac and a != 0 is a root of a d² + b d + c |
| Utils.OnLineDistSq | trackdlo/src/utils.cpp:188-192 | the squared distance from A + d(B - A) to the center is c + radius² + b d + a d², with the source's a and b |
| Utils.EdgePairs | trackdlo/src/utils.cpp:372-390 | the nested loop keeps exactly the pairs (i, j) with i <= j < rows-1, j >= i+2, the multi-DLO boundary skip not applying, and the distance test passing; pairs come out in row-major order |
| PrimSort.DistanceMatrix | trackdlo/src/utils.cpp:103-108 | `G` is N-by-N and `G(m, n)` is the squared distance of rows m and n |
| PrimSort.ScanRow | trackdlo/src/utils.cpp:122-130 | the inner scan over the partners of a selected node m extends the invariant "first eligible pair of least distance so far" to the end of row m |
| PrimSort.ClosestPair | trackdlo/src/utils.cpp:116-132 | a pair is found iff some selected a and unselected b have G(a, b) != 0; the pair found is `IsClosestPair`: least G among all eligible pairs and strictly less than every eligible pair earlier in row-major order (the strict `>` makes the first minimum win); with none found, a = b = 0 |
| PrimSort.ClosestPairUnique | trackdlo/src/utils.cpp:116-132 | the closest pair of a selection is unique |
| PrimSort.Attach | trackdlo/src/utils.cpp:139-156 | a later step raises `reverse` by exactly 1 when `a` differs from `last_visited_b` and leaves it unchanged otherwise; it sets `last_visited_b` to b and adds exactly row b to the output |
| PrimSort.AttachAppends | trackdlo/src/utils.cpp:154-156 | while `reverse` is 0, the new row is appended at the back |
| PrimSort.AttachInsertsBefore | trackdlo/src/utils.cpp:145-148 | when `reverse` is odd, the new row is inserted immediately before row a's first occurrence |
| PrimSort.AttachInsertsAfterBranch | trackdlo/src/utils.cpp:149-153 | when `reverse` is even and non-zero, the new row goes `insertion_counter` places after the branch node `reverse_on`, and the counter then grows by one (restarting at 1 on a new branch) |
| PrimSort.SortPts | trackdlo/src/utils.cpp:95-170 | for N >= 2 pairwise distinct rows, the output has exactly N rows, is a permutation of the input, and is `SortedBy` a run of N-1 steps from the selection of node 0: each step is the closest pair of the selection at that point, the first one pushes rows a and b, each later one attaches row b by `Attach` |
| PrimSort.NextUnique | trackdlo/src/utils.cpp:115-161 | two steps possible from one state are the same step |
| PrimSort.ReplayUnique | trackdlo/src/utils.cpp:115-162 | two runs of equally many steps from one state take the same steps |
| PrimSort.SortedByUnique | trackdlo/src/utils.cpp:95-170 | the run and the output `SortedBy` describes are determined by the input, so `SortPts` computes exactly that output |
| PrimSort.ReplaySnoc | trackdlo/src/utils.cpp:134-161 | a run extended by the closest pair of the state it reached selects b and pushes [y[a], y[b]] (first step) or attaches row b (later step) |
| Indexing.IndicesArray | src/two_wire_tracking.py:145-150 | `indices_array(n)` is n-by-n and its entry (i, j) is the pair (i, j) |
| Indexing.IndexDistanceProperties | src/two_wire_tracking.py:155-156 | `abs(coeff[:, :, 0] - coeff[:, :, 1])` has entry abs(i - j): symmetric and zero exactly on the diagonal |
| Indexing.MatrixMax | src/two_wire_tracking.py:162 | `np.amax` is at least every entry and equal to some entry |
| Indexing.MaxIndexDistance | src/two_wire_tracking.py:162 | the largest index distance of an n-node grid is n - 1 |
| Indexing.WindowProperties | src/two_wire_tracking.py:105 | the appended pair of aranges is strictly increasing and never holds idx; when lo <= idx < hi it holds exactly the integers of [lo, hi) other than idx, hi - lo - 1 of them |
| TwoWireTracking.NearestIndicesIncreasing | src/two_wire_tracking.py:91-121 | every branch of `get_nearest_indices` returns strictly increasing indices that never include idx |
| TwoWireTracking.NearestIndicesWindow | src/two_wire_tracking.py:91-121 | with both wires at least 2k nodes long, the result is exactly the indices of idx's own wire within distance k of idx, other than idx; it has 2k entries iff idx-k .. idx+k fits in the wire, so near a wire end fewer are returned and none are refilled |
| TwoWireTracking.Amax | src/two_wire_tracking.py:162 | `np.amax(coeff)` of an n-node index distance is n - 1, at least 1 |
| TwoWireTracking.CoeffForProperties | src/two_wire_tracking.py:155-166 | for an n-node grid, `coeff` is symmetric with 1 on the diagonal; a same-wire entry is 1 + abs(i-j)/(n-1)·(max_coeff - 1) and a cross-wire entry is 50 |
| TwoWireTracking.Coeff | src/two_wire_tracking.py:154-166 | the module-level `coeff` is 31-by-31 |
| TwoWireTracking.CoeffProperties | src/two_wire_tracking.py:154-166 | the 31-node `coeff` is symmetric with 1 on the diagonal; same-wire entries are 1 + abs(i-j)/30·(1.0003³ - 1); every cross-wire entry is exactly 50 |
| TwoWireTracking.FindOppositeClosest | src/two_wire_tracking.py:263-281 | found iff some element c of arr has dot(c - pt, direction - pt) < 0 and squared distance to pt below 0.05²; if found, the result is the first such element in (distance, position) order; if not, the result is pt |
| TwoWireTracking.SortPts | src/two_wire_tracking.py:283-344 | exactly `PathSorter.SortSpec` with start index 5 and threshold 0.05 m: IndexError iff the input has at most 5 nodes; ValueError iff `PathSorter.ClosestTwoConsumed`; a result uses input nodes only and has `PathSorter.SortedShape` |
| PathSorter.FindClosest | src/two_wire_tracking.py:248-261 | on a non-empty list, returns `(arr[idx], idx)` where idx is the first position of least distance to pt |
| PathSorter.FirstNearestUnique | src/two_wire_tracking.py:256-259 | the strict `<` update makes the chosen position unique: there is one first nearest position |
| PathSorter.NearestPassingIn | src/two_wire_tracking.py:263-281 | among the first n nodes, a position exists iff some of them passes the test, and it is the passing node that comes first in (distance, position) order |
| PathSorter.NearestPassing | src/two_wire_tracking.py:263-281 | a position exists iff some node passes the test, and it is the first passing node in (distance, position) order |
| PathSorter.NearestPassingIs | src/two_wire_tracking.py:263-281 | the first passing node in (distance, position) order is unique, so it is the one `NearestPassing` names |
| PathSorter.Nearest | src/two_wire_tracking.py:248-261 | on a non-empty list, the first position of least distance to pt |
| PathSorter.FindNearestPassing | src/two_wire_tracking.py:263-281 | popping nearest elements from a copy until one passes the test finds one iff some element passes; the one found is the first passing element in (distance, original position) order, the element at `NearestPassing`; otherwise the result is pt |
| PathSorter.FindOppositeClosest | src/two_wire_tracking.py:263-281 | the same for the opposite-side test with an optional squared-distance threshold: found iff some element passes both parts of the test, iff `NearestPassing` with that test is some position, and the element found is at that position |
| PathSorter.FindAlignedClosest | src/tracking_cpd_lle.py:210-222 | found iff some c has dot(direction, c) > 0 on the raw vectors; if found, it is the first such c in (distance, position) order; otherwise pt |
| PathSorter.BackStep | src/two_wire_tracking.py:314-324 | one append step of the first loop keeps chain plus pool equal to the input as a multiset, keeps the chain's initial prefix, and keeps every appended node opposite-tested against the two nodes before it |
| PathSorter.BackLoop | src/two_wire_tracking.py:314-324 | the first loop on values only ever extends the chain |
| PathSorter.BackLoopGreedy | src/two_wire_tracking.py:315-324 | when some pool node passes the opposite test at the back, the first loop takes the first passing node in (distance, position) order: appends it and removes it from the pool, then goes on |
| PathSorter.BackLoopStops | src/two_wire_tracking.py:317-321 | when no pool node passes the test at the back, the first loop leaves chain and pool unchanged |
| PathSorter.BackLoopGrown | src/two_wire_tracking.py:314-324 | every run of the first loop on values, from a state satisfying the invariant of `BackStep`, ends in a state satisfying it |
| PathSorter.BackLoopEnds | src/two_wire_tracking.py:314-324 | the first loop on values stops only when every node left in the pool fails the opposite test at the back end (`BackStuck`) |
| PathSorter.GrowBack | src/two_wire_tracking.py:314-324 | the first loop's final chain and pool are exactly `BackLoop` of its start; they keep the invariant of `BackStep`; every node left in the pool fails the opposite test at the back end |
| PathSorter.FrontStep | src/two_wire_tracking.py:332-342 | one front insertion of the second loop keeps chain plus pool equal to the input as a multiset and keeps every inserted node opposite-tested against the two nodes after it |
| PathSorter.FrontLoop | src/two_wire_tracking.py:332-342 | the second loop on values only ever extends the chain |
| PathSorter.FrontLoopGreedy | src/two_wire_tracking.py:333-342 | when some pool node passes the opposite test at the front, the second loop takes the first passing node in (distance, position) order: inserts it at the front and removes it from the pool, then goes on |
| PathSorter.FrontLoopStops | src/two_wire_tracking.py:335-339 | when no pool node passes the test at the front, the second loop leaves chain and pool unchanged |
| PathSorter.FrontLoopGrown | src/two_wire_tracking.py:332-342 | every run of the second loop on values keeps the invariant of `FrontStep`, and its final pool is part of its starting pool |
| PathSorter.FrontLoopEnds | src/two_wire_tracking.py:332-342 | the second loop on values stops only when every node left in the pool fails the opposite test at the front end (`FrontStuck`) |
| PathSorter.GrowFront | src/two_wire_tracking.py:332-342 | the second loop's final chain and pool are exactly `FrontLoop` of its start; they keep the invariant of `FrontStep`; its pool is part of its starting pool; every node left fails the opposite test at the front end |
| PathSorter.GrowFrontPhase | src/two_wire_tracking.py:327-343 | `pts.remove(closest_2)` raises ValueError iff `closest_2` is no longer in the first loop's pool; otherwise the result is the second loop (`FrontLoop`) from `closest_2` inserted in front of the first loop's chain, it uses input nodes only and has the sorted shape |
| PathSorter.BackOnlyShape | src/two_wire_tracking.py:300-324 | when the start has no opposite neighbour, the first loop's chain is the result: it starts with the start node and its nearest neighbour and has the sorted shape |
| PathSorter.BothEndsShape | src/two_wire_tracking.py:300-343 | when the start has an opposite neighbour `closest_2`, the result is the second loop's nodes, then `closest_2`, then the first loop's chain, and it has the sorted shape |
| PathSorter.GrowFromPair | src/two_wire_tracking.py:295-344 | from the start node and its nearest neighbour, the result is exactly `SortSpec`; it fails iff `ClosestTwoConsumed`, and then with ValueError; with no opposite neighbour of the start it never fails; a result uses input nodes only and has the sorted shape |
| PathSorter.SortPts | src/two_wire_tracking.py:283-344 | the result is exactly `SortSpec`: IndexError iff the start index is past the end or the input has one node; ValueError iff the opposite neighbour `closest_2` exists and the first loop consumed it (`ClosestTwoConsumed`), so a start with no opposite neighbour never fails; otherwise the greedy back loop from [start, `closest_1`] and, when `closest_2` exists, the greedy front loop from `closest_2` inserted in front. A result is also a sub-multiset of the input with `SortedShape`: node s is the start, node s+1 its nearest neighbour; each node after s+1 is opposite its predecessor from the node before that, each node before s is opposite its successor from the node after that; the front is grown (s > 0) iff the start has an opposite neighbour; every input node missing from the result fails the test at each grown end |
| TrackingCpdLleDev.NearestIndicesIncreasing | src/tracking_cpd_lle_dev.py:86-100 | every branch of the refilling `get_nearest_indices` returns strictly increasing indices that never include idx |
| TrackingCpdLleDev.RefilledWindow | src/tracking_cpd_lle_dev.py:87-99 | with len(Y) >= 2k+1 the window shifts at the ends: 0..2k for idx < k, M-1-2k..M-1 for idx+k >= M, idx-k..idx+k otherwise, always without idx |
| TrackingCpdLleDev.NearestIndicesRefilled | src/tracking_cpd_lle_dev.py:86-100 | with len(Y) >= 2k+1, exactly 2k indices: the 2k+1 consecutive indices from the window start other than idx, all in [0, len(Y)) |
| TrackingCpdLleDev.Coeff | src/tracking_cpd_lle_dev.py:464-467 | `coeff` for n nodes is n-by-n |
| TrackingCpdLleDev.CoeffProperties | src/tracking_cpd_lle_dev.py:464-467 | `coeff = abs(i - j)·0.02` is symmetric, non-negative, and zero exactly on the diagonal |
| TrackingCpdLleDev.FindOppositeClosest | src/tracking_cpd_lle_dev.py:270-288 | as the two-wire version, with the 0.07² squared-distance threshold |
| TrackingCpdLleDev.SortPts | src/tracking_cpd_lle_dev.py:290-351 | exactly `PathSorter.SortSpec` with start index 15 and threshold 0.07 m: IndexError iff the input has at most 15 nodes; ValueError iff `PathSorter.ClosestTwoConsumed`; a result uses input nodes only and has `PathSorter.SortedShape` |
| TrackingCpdLleDev.CpdLle | src/tracking_cpd_lle_dev.py:145-253 | sigma2 starts from the data, or from `sigma2_0` with `use_prev_sigma2`; the loop's outcome is exactly `Run` from that start with `max_iter` iterations |
| TrackingCpdLleDev.RunProperties | src/tracking_cpd_lle_dev.py:164-253 | the loop, with a total `step`, fails only with the TypeError of a None sigma2 and runs at most `max_iter` iterations; once it has run one iteration, the returned sigma2 is `sigma2_0` whatever was computed; with no iteration it is the initial sigma2 |
| TrackingCpdLleDev.NoneSigma2Fails | src/tracking_cpd_lle_dev.py:169-241 | with the default `sigma2_0 = None` and at least two iterations allowed, the loop fails exactly when the first iteration does not converge, because the second E-step uses None |
| TrackingCpdLle.FindOppositeClosest | src/tracking_cpd_lle.py:191-208 | with no threshold: found iff some element lies on the far side of pt from direction (dot product < 0); the result is the first such element in (distance, position) order |
| TrackingCpdLle.SortPts | src/tracking_cpd_lle.py:224-285 | exactly `PathSorter.SortSpec` with start index 10 and no threshold: IndexError iff the input has at most 10 nodes; ValueError iff `PathSorter.ClosestTwoConsumed`; a result uses input nodes only and has `PathSorter.SortedShape` |
| Cpd.Denominator | src/tracking_cpd_lle.py:143-146 | a zero column sum is floored to machine epsilon (2^-52) before c is added, so for non-negative sums and c >= 0 the denominator is positive |
| Cpd.Normalise | src/tracking_cpd_lle.py:148 | `np.divide(P, den)` divides each entry by its column's denominator and keeps the M-by-N shape |
| Cpd.NormalisedColumn | src/tracking_cpd_lle.py:143-149 | a normalised column sums to its old total over its denominator |
| Cpd.NormalisedColumnTotal | src/tracking_cpd_lle.py:143-149 | with non-negative affinities and c >= 0, every normalised column sums to at most 1; to exactly 1 when c = 0 and the column is non-zero; to 0 when the column is zero |
| Cpd.TotalsAgree | src/tracking_cpd_lle.py:149-151 | `Pt1` and `P1` have the same grand total `Np` |
| Cpd.ArgMax | src/tracking_cpd_lle_dev.py:195 | `np.argmax` returns the first index of a maximum |
| Cpd.Correspondence | src/tracking_cpd_lle_dev.py:195 | `pt_node_correspondence` holds the argmax node of every column of P |
| Cpd.PTilde | src/tracking_cpd_lle_dev.py:194-200 | `np.argmax` on a matrix with no nodes raises ValueError; otherwise `P_tilde` is M-by-N with entry 1 exactly where the node is its column's argmax, 0 elsewhere |
| Cpd.PTildeTotals | src/tracking_cpd_lle_dev.py:194-204 | every column of `P_tilde` holds exactly one 1, so `P_tilde_1` sums to N |
| Cpd.Register | src/tracking_cpd_lle.py:71-82 | `register` calls `get_estimates` exactly `max_iter + 1` times and returns that many iterations of it from the initial guess; `tol` is never consulted |
| Cpd.CpdLoop | src/tracking_cpd_lle.py:133-174 | at most `max_iter` iterations, at least one when `max_iter > 0`; none before the last has displacement below `tol`; stopping before `max_iter` means the last one has; Y is `Y_0 + G W` of the last executed iteration |
| Cpd.StopsAtFirstConvergence | src/tracking_cpd_lle.py:168-172 | the iteration count `CpdLoop` describes is unique |
| Common.RemoveFirst | src/two_wire_tracking.py:324 | `pts.remove(x)` succeeds iff x is in the list; it then deletes the element at the first position holding x and keeps the others in order (one element fewer, the multiset loses one x); otherwise ValueError |

## Left out
- CPD/EM numerics are abstract parameters (`step`, `disp`, `getEstimates`). This covers the Gaussian affinities (`exp`), the outlier constant `(2πσ²)^(D/2)`, the `G` kernel, `np.linalg.solve`, the trace-based sigma2 update and sigma2's initial value. The C++ `reg` is the same floating-point iteration and is not modelled.
- The LLE weight solve (`np.linalg.inv` of the local Gram matrix and its fallback) is floating-point matrix inversion. `calc_LLE_weights` in `src/tracking_cpd_lle.py` uses sklearn's `NearestNeighbors`, a foreign library. Only the index selection that feeds them is modelled.
- `shortest_dist_between_lines` is float `sqrt`, norm and normalisation geometry. In `Utils.EdgePairs` its distance test is the parameter `close`.
- The Gurobi model of `post_processing`, `MatrixXd2MarkerArray`, the ROS callbacks, the `__main__` blocks and `signal_callback_handler` are external solvers, visualisation and I/O.
- Floating point:
  - coordinates are exact reals, so rounding, and ties that only rounding creates, are not modelled;
  - `np.sqrt` is left out because distances are compared squared;
  - `Utils.LineSphereIntersection` takes the square root as the parameter `sqrt`.
- Geometry.DistSqProperties: does not prove that distinct points have non-zero squared distance. Where the source relies on that, it is stated directly as a precondition: A != B in `Utils.LineSphereIntersection` becomes a non-zero squared distance, and pairwise distinct rows in `PrimSort.SortPts` become `PairwiseApart`.
- PrimSort.SortPts:
  - requires N >= 2: with N = 1 the source reads an empty vector, and with N = 0 it writes `selected_node[0]` of an empty vector;
  - requires pairwise apart rows: with repeated rows no pair may be eligible, and `std::find` then matches the wrong row.
  - The tie-breaking of each step is stated by `PrimSort.ClosestPair`, and the order of the steps by `PrimSort.SortedBy`.
- Utils.Matrix.RemoveRow: requires at least one row, because the source computes `rows() - 1` in an unsigned integer.
- PathSorter.FindClosest: requires a non-empty list, because the source reads `arr[0]` first. The one caller that can pass an empty list, `sort_pts` on a one-node input, models that IndexError itself.
- Cpd.Normalise: requires non-negative affinities and c >= 0. The source's affinities are `exp` values and its c is non-negative for 0 <= mu < 1; without both, a denominator could be zero.
- Python negative indices are not modelled. The start indices are the scripts' non-negative constants, and the neighbour indices are node positions.
- The `P_tilde` loop's test `len(np.where(...)) != 0` is always true, since `np.where` returns a one-element tuple. `Cpd.PTilde` therefore sets the row of every node without the test; for a node with no points the assignment sets nothing.
- The dev tracker's `use_ecpd`, `include_lle` and `use_decoupling` only change the M-step matrices. They are part of the abstract `step`.
- TrackingCpdLleDev.RunProperties: `step` is a total function, so the loop's only failure is the TypeError of a None sigma2 at the start of an iteration. Two failures of the source are not modelled: the LinAlgError `np.linalg.solve` raises on a singular system (src/tracking_cpd_lle_dev.py:233), and the TypeError of `sigma2 / omega` with `use_ecpd` and the default `omega=None` (lines 207 and 227).
- PathSorter.BackStep: states the invariant one append keeps (multiset, prefix, opposite links), not which node is appended. The greedy choice is stated by `PathSorter.BackLoopGreedy`, and `PathSorter.GrowBack` equals `BackLoop`.
- PathSorter.FrontStep: states the invariant one front insertion keeps (multiset, suffix, opposite links), not which node is inserted. The greedy choice is stated by `PathSorter.FrontLoopGreedy`, and `PathSorter.GrowFront` equals `FrontLoop`.
- PathSorter.BackOnlyShape: derives `SortedShape`, which describes the links of the result but not that each link was the nearest passing node. The exact result is `PathSorter.SortSpec`, which `PathSorter.SortPts` and `PathSorter.GrowFromPair` equal.
- PathSorter.BothEndsShape: derives `SortedShape` for a chain grown at both ends; as for `BackOnlyShape`, the nearest choice of each link, `closest_2` included, is stated by `PathSorter.SortSpec` instead.
