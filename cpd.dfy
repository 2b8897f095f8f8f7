/** The discrete and structural parts of the Coherent Point Drift loops shared
    by the Python trackers: the E-step column normalisation of the affinity
    matrix P (M nodes by N points), the one-hot hard assignment `P_tilde`, and
    the iteration skeletons of `register` and of `cpd` / `cpd_lle`. The
    numerics (Gaussian affinities, the M-step solve, the sigma2 trace update)
    are abstract function parameters. */
module Cpd {
  import opened Common

  // ---------------------------------------------------------------------------
  // Matrices as sequences of rows

  /** Every row has `cols` entries. */
  predicate Rect(p: seq<seq<real>>, cols: nat)
  {
    forall m :: 0 <= m < |p| ==> |p[m]| == cols
  }

  predicate NonNegative(p: seq<seq<real>>)
  {
    forall m, n :: 0 <= m < |p| && 0 <= n < |p[m]| ==> p[m][n] >= 0.0
  }

  /** Column `n` of `p`, top to bottom. */
  function Column(p: seq<seq<real>>, n: nat): (col: seq<real>)
    requires forall m :: 0 <= m < |p| ==> n < |p[m]|
    ensures |col| == |p| && forall m :: 0 <= m < |p| ==> col[m] == p[m][n]
  {
    seq(|p|, m requires 0 <= m < |p| => p[m][n])
  }

  /** `np.sum(P, axis=1)`: one total per row (`P1`). */
  function RowSums(p: seq<seq<real>>): (r: seq<real>)
    ensures |r| == |p| && forall m :: 0 <= m < |p| ==> r[m] == Sum(p[m])
  {
    seq(|p|, m requires 0 <= m < |p| => Sum(p[m]))
  }

  /** `np.sum(P, axis=0)`: one total per column (`Pt1`). */
  function ColSums(p: seq<seq<real>>, cols: nat): (r: seq<real>)
    requires Rect(p, cols)
    ensures |r| == cols && forall n :: 0 <= n < cols ==> r[n] == Sum(Column(p, n))
  {
    seq(cols, n requires 0 <= n < cols => Sum(Column(p, n)))
  }

  // ---------------------------------------------------------------------------
  // Facts about Sum

  lemma SumSnoc(s: seq<real>, x: real)
    ensures Sum(s + [x]) == Sum(s) + x
  {
    assert (s + [x])[..|s|] == s;
  }

  lemma {:induction false} SumNonNegative(s: seq<real>)
    requires forall t :: 0 <= t < |s| ==> s[t] >= 0.0
    ensures Sum(s) >= 0.0
  {
    if s != [] {
      SumNonNegative(s[..|s| - 1]);
    }
  }

  /** Summing two sequences pointwise adds their totals. */
  lemma {:induction false} SumPointwise(a: seq<real>, b: seq<real>, c: seq<real>)
    requires |a| == |b| == |c| && forall t :: 0 <= t < |c| ==> c[t] == a[t] + b[t]
    ensures Sum(c) == Sum(a) + Sum(b)
  {
    if c != [] {
      var k := |c| - 1;
      SumPointwise(a[..k], b[..k], c[..k]);
    }
  }

  /** Dividing every entry by `d` divides the total by `d`. */
  lemma {:induction false} SumDivided(s: seq<real>, d: real, r: seq<real>)
    requires d != 0.0
    requires |r| == |s| && forall t :: 0 <= t < |s| ==> r[t] == s[t] / d
    ensures Sum(r) == Sum(s) / d
  {
    if s != [] {
      var k := |s| - 1;
      SumDivided(s[..k], d, r[..k]);
      assert Sum(r) == Sum(s[..k]) / d + s[k] / d;
    }
  }

  /** A column total summed over all columns equals the row totals summed over
      all rows: `Pt1` and `P1` have the same grand total `Np`. */
  lemma {:induction false} TotalsAgree(p: seq<seq<real>>, cols: nat)
    requires Rect(p, cols)
    ensures Sum(ColSums(p, cols)) == Sum(RowSums(p))
  {
    if p == [] {
      ZeroColumnsSum(cols);
    } else {
      var k := |p| - 1;
      var front := p[..k];
      TotalsAgree(front, cols);
      assert RowSums(p) == RowSums(front) + [Sum(p[k])];
      SumSnoc(RowSums(front), Sum(p[k]));
      forall n | 0 <= n < cols
        ensures ColSums(p, cols)[n] == ColSums(front, cols)[n] + p[k][n]
      {
        assert Column(p, n) == Column(front, n) + [p[k][n]];
        SumSnoc(Column(front, n), p[k][n]);
      }
      SumPointwise(ColSums(front, cols), p[k], ColSums(p, cols));
    }
  }

  lemma ZeroColumnsSum(cols: nat)
    ensures Sum(ColSums([], cols)) == 0.0
  {
    var z := ColSums([], cols);
    forall n | 0 <= n < cols
      ensures z[n] == 0.0
    {
      assert Column([], n) == [];
    }
    ZerosSum(z);
  }

  lemma {:induction false} ZerosSum(s: seq<real>)
    requires forall t :: 0 <= t < |s| ==> s[t] == 0.0
    ensures Sum(s) == 0.0
  {
    if s != [] {
      ZerosSum(s[..|s| - 1]);
    }
  }

  // ---------------------------------------------------------------------------
  // E-step normalisation

  /** `np.finfo(float).eps`, 2^-52. */
  const MachineEpsilon: real := 1.0 / 4503599627370496.0

  /** The denominator of one column: its total, floored to machine epsilon
      when it is exactly zero, plus the outlier term `c`. */
  function Denominator(colSum: real, c: real): (d: real)
    requires colSum >= 0.0 && c >= 0.0
    ensures d > 0.0
    ensures d == (if colSum == 0.0 then MachineEpsilon else colSum) + c
  {
    (if colSum == 0.0 then MachineEpsilon else colSum) + c
  }

  /** A column total of a non-negative matrix. */
  function ColumnTotal(p: seq<seq<real>>, cols: nat, n: nat): (s: real)
    requires Rect(p, cols) && NonNegative(p) && n < cols
    ensures s >= 0.0 && s == Sum(Column(p, n))
  {
    SumNonNegative(Column(p, n));
    Sum(Column(p, n))
  }

  /** `P = np.divide(P, den)`: every entry divided by its column's denominator. */
  function Normalise(p: seq<seq<real>>, cols: nat, c: real): (q: seq<seq<real>>)
    requires Rect(p, cols) && NonNegative(p) && c >= 0.0
    ensures |q| == |p| && Rect(q, cols)
    ensures forall m, n :: 0 <= m < |p| && 0 <= n < cols ==>
      q[m][n] == p[m][n] / Denominator(ColumnTotal(p, cols, n), c)
  {
    seq(|p|, m requires 0 <= m < |p| =>
      seq(cols, n requires 0 <= n < cols => p[m][n] / Denominator(ColumnTotal(p, cols, n), c)))
  }

  /** With non-negative affinities and c >= 0 no denominator is zero, and a
      normalised column's total is its old total over its denominator. */
  lemma NormalisedColumn(p: seq<seq<real>>, cols: nat, c: real, n: nat)
    requires Rect(p, cols) && NonNegative(p) && c >= 0.0 && n < cols
    ensures Sum(Column(Normalise(p, cols, c), n)) == ColumnTotal(p, cols, n) / Denominator(ColumnTotal(p, cols, n), c)
  {
    SumDivided(Column(p, n), Denominator(ColumnTotal(p, cols, n), c), Column(Normalise(p, cols, c), n));
  }

  /** Every normalised column sums to at most 1; to exactly 1 when there is no
      outlier term and the column was not all zero; to 0 when it was. */
  lemma NormalisedColumnTotal(p: seq<seq<real>>, cols: nat, c: real, n: nat)
    requires Rect(p, cols) && NonNegative(p) && c >= 0.0 && n < cols
    ensures 0.0 <= Sum(Column(Normalise(p, cols, c), n)) <= 1.0
    ensures c == 0.0 && Sum(Column(p, n)) != 0.0 ==> Sum(Column(Normalise(p, cols, c), n)) == 1.0
    ensures Sum(Column(p, n)) == 0.0 ==> Sum(Column(Normalise(p, cols, c), n)) == 0.0
  {
    NormalisedColumn(p, cols, c, n);
    var s := ColumnTotal(p, cols, n);
    RatioBounds(s, Denominator(s, c));
  }

  lemma RatioBounds(s: real, d: real)
    requires 0.0 <= s && d > 0.0 && (s != 0.0 ==> s <= d)
    ensures 0.0 <= s / d <= 1.0
    ensures s == d ==> s / d == 1.0
  {
    assert (s / d) * d == s;
  }

  // ---------------------------------------------------------------------------
  // P_tilde: the one-hot hard assignment

  /** `np.argmax` of a non-empty vector: the first index of a maximum. */
  function ArgMax(s: seq<real>): (i: nat)
    requires |s| > 0
    ensures i < |s|
    ensures forall j :: 0 <= j < |s| ==> s[j] <= s[i]
    ensures forall j :: 0 <= j < i ==> s[j] < s[i]
  {
    if |s| == 1 then 0
    else
      var i := ArgMax(s[..|s| - 1]);
      if s[|s| - 1] > s[i] then |s| - 1 else i
  }

  /** Row `node` of `P_tilde`: 1 at every point whose argmax is `node`. */
  function OneHotRow(corr: seq<nat>, node: nat): (row: seq<real>)
    ensures |row| == |corr|
    ensures forall n :: 0 <= n < |corr| ==> row[n] == if corr[n] == node then 1.0 else 0.0
  {
    seq(|corr|, n requires 0 <= n < |corr| => if corr[n] == node then 1.0 else 0.0)
  }

  /** `pt_node_correspondence = np.argmax(P, axis=0)`: for each point, the
      first node of highest affinity. */
  function Correspondence(p: seq<seq<real>>, cols: nat): (corr: seq<nat>)
    requires Rect(p, cols) && |p| > 0
    ensures |corr| == cols && forall n :: 0 <= n < cols ==> corr[n] == ArgMax(Column(p, n))
  {
    seq(cols, n requires 0 <= n < cols => ArgMax(Column(p, n)))
  }

  /** The `P_tilde` construction: starts from zeros and, node by node, sets a 1
      in that node's row for each point assigned to it. `np.argmax` over an
      empty axis raises ValueError, so a matrix with no nodes fails. */
  method PTilde(p: seq<seq<real>>, cols: nat) returns (r: Result<seq<seq<real>>>)
    requires Rect(p, cols)
    ensures r.Err? <==> |p| == 0
    ensures r.Err? ==> r.error == ValueError
    ensures r.Ok? ==> |r.value| == |p| && Rect(r.value, cols)
    ensures r.Ok? ==> forall m, n :: 0 <= m < |p| && 0 <= n < cols ==>
      r.value[m][n] == if m == ArgMax(Column(p, n)) then 1.0 else 0.0
  {
    if |p| == 0 {
      return Err(ValueError);
    }
    var corr := Correspondence(p, cols);
    var pt := seq(|p|, m => seq(cols, n => 0.0));
    for node := 0 to |p|
      invariant |pt| == |p|
      invariant forall m :: 0 <= m < node ==> pt[m] == OneHotRow(corr, m)
      invariant forall m :: node <= m < |p| ==> pt[m] == seq(cols, n => 0.0)
    {
      pt := pt[node := OneHotRow(corr, node)];
    }
    r := Ok(pt);
  }

  /** A column with a single 1 and zeros elsewhere sums to 1. */
  lemma {:induction false} OneHotSum(s: seq<real>, a: nat)
    requires a < |s|
    requires forall t :: 0 <= t < |s| ==> s[t] == if t == a then 1.0 else 0.0
    ensures Sum(s) == 1.0
  {
    var k := |s| - 1;
    if a == k {
      ZerosSum(s[..k]);
    } else {
      OneHotSum(s[..k], a);
    }
  }

  lemma {:induction false} OnesSum(s: seq<real>)
    requires forall t :: 0 <= t < |s| ==> s[t] == 1.0
    ensures Sum(s) == |s| as real
  {
    if s != [] {
      OnesSum(s[..|s| - 1]);
    }
  }

  /** Every column of `P_tilde` holds exactly one 1, so `P_tilde_1` (its row
      totals) sums to the number of points N. */
  lemma PTildeTotals(p: seq<seq<real>>, cols: nat, pt: seq<seq<real>>)
    requires Rect(p, cols) && |p| > 0 && |pt| == |p| && Rect(pt, cols)
    requires forall m, n :: 0 <= m < |p| && 0 <= n < cols ==>
      pt[m][n] == if m == ArgMax(Column(p, n)) then 1.0 else 0.0
    ensures forall n :: 0 <= n < cols ==> Sum(Column(pt, n)) == 1.0
    ensures Sum(RowSums(pt)) == cols as real
  {
    forall n | 0 <= n < cols
      ensures Sum(Column(pt, n)) == 1.0
    {
      OneHotSum(Column(pt, n), ArgMax(Column(p, n)));
    }
    TotalsAgree(pt, cols);
    OnesSum(ColSums(pt, cols));
  }

  // ---------------------------------------------------------------------------
  // Iteration skeletons

  /** `f` applied `n` times to `x`. */
  function Iterate<S>(f: S -> S, x: S, n: nat): S
    decreases n
  {
    if n == 0 then x else f(Iterate(f, x, n - 1))
  }

  /** `register`: one estimate step before the loop and one per iteration; the
      local `tol` is never consulted, so there is no early exit. `calls`
      counts the calls of `get_estimates`. */
  method Register<S>(init: S, maxIter: nat, getEstimates: S -> S) returns (estimate: S, calls: nat)
    ensures calls == maxIter + 1
    ensures estimate == Iterate(getEstimates, init, calls)
  {
    var prev := init;
    estimate := getEstimates(prev);
    calls := 1;
    for it := 0 to maxIter
      invariant calls == it + 1
      invariant estimate == Iterate(getEstimates, init, calls)
    {
      prev := estimate;
      estimate := getEstimates(prev);
      calls := calls + 1;
    }
  }

  /** The loop state of `cpd` / `cpd_lle`: node positions and sigma2. */
  datatype Estimate<Y> = Estimate(y: Y, sigma2: real)

  /** Iteration `k` (from 1) of the loop from `e0` ends the loop: the squared
      displacement between its start and its result is below `tol`. */
  predicate Converged<Y>(step: Estimate<Y> -> Estimate<Y>, disp: (Y, Y) -> real, tol: real,
                         e0: Estimate<Y>, k: nat)
    requires k >= 1
  {
    disp(Iterate(step, e0, k - 1).y, Iterate(step, e0, k).y) < tol
  }

  /** The loop of `cpd` / `cpd_lle`: at most `maxIter` iterations, each
      replacing Y by `Y_0 + G W` and sigma2 by its update (together `step`),
      leaving after the first iteration whose displacement is below `tol`.
      `its` is the number of iterations executed. */
  method CpdLoop<Y>(y0: Y, sigmaInit: real, maxIter: nat, tol: real,
                    step: Estimate<Y> -> Estimate<Y>, disp: (Y, Y) -> real)
    returns (y: Y, its: nat)
    ensures its <= maxIter && (maxIter > 0 ==> its > 0)
    ensures forall j :: 1 <= j < its ==> !Converged(step, disp, tol, Estimate(y0, sigmaInit), j)
    ensures its < maxIter ==> Converged(step, disp, tol, Estimate(y0, sigmaInit), its)
    ensures y == Iterate(step, Estimate(y0, sigmaInit), its).y
  {
    var e := Estimate(y0, sigmaInit);
    its := 0;
    while its < maxIter
      invariant its <= maxIter
      invariant e == Iterate(step, Estimate(y0, sigmaInit), its)
      invariant forall j :: 1 <= j <= its ==> !Converged(step, disp, tol, Estimate(y0, sigmaInit), j)
    {
      var next := step(e);
      var stop := disp(e.y, next.y) < tol;
      e := next;
      its := its + 1;
      if stop {
        break;
      }
    }
    y := e.y;
  }

  /** The iteration count `CpdLoop` describes is unique: the loop stops at the
      first converged iteration, or after `maxIter`. */
  lemma StopsAtFirstConvergence<Y>(step: Estimate<Y> -> Estimate<Y>, disp: (Y, Y) -> real, tol: real,
                                   e0: Estimate<Y>, maxIter: nat, i: nat, j: nat)
    requires i <= maxIter && (maxIter > 0 ==> i > 0) && j <= maxIter && (maxIter > 0 ==> j > 0)
    requires forall t :: 1 <= t < i ==> !Converged(step, disp, tol, e0, t)
    requires i < maxIter ==> Converged(step, disp, tol, e0, i)
    requires forall t :: 1 <= t < j ==> !Converged(step, disp, tol, e0, t)
    requires j < maxIter ==> Converged(step, disp, tol, e0, j)
    ensures i == j
  {
  }
}
