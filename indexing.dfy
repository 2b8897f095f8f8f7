/** `indices_array` and the index-distance matrix the trackers build their
    `coeff` penalty matrices from. */
module Indexing {
  import opened Common

  /** `indices_array(n)`: an n-by-n grid whose entry (i, j) is the pair (i, j). */
  function IndicesArray(n: nat): (out: seq<seq<(int, int)>>)
    ensures |out| == n
    ensures forall i :: 0 <= i < n ==> |out[i]| == n
    ensures forall i, j :: 0 <= i < n && 0 <= j < n ==> out[i][j] == (i, j)
  {
    seq(n, i requires 0 <= i < n => seq(n, j requires 0 <= j < n => (i, j)))
  }

  /** `np.abs(coeff[:, :, 0] - coeff[:, :, 1])` on `indices_array(n)`. */
  function IndexDistance(n: nat): (d: seq<seq<int>>)
    ensures |d| == n && forall i :: 0 <= i < n ==> |d[i]| == n
  {
    var a := IndicesArray(n);
    seq(n, i requires 0 <= i < n => seq(n, j requires 0 <= j < n => Abs(a[i][j].0 - a[i][j].1)))
  }

  /** Entry (i, j) of the index distance is |i - j|: non-negative, symmetric,
      and zero exactly on the diagonal. */
  lemma IndexDistanceProperties(n: nat, i: nat, j: nat)
    requires i < n && j < n
    ensures IndexDistance(n)[i][j] == if i < j then j - i else i - j
    ensures IndexDistance(n)[i][j] == IndexDistance(n)[j][i]
    ensures IndexDistance(n)[i][j] == 0 <==> i == j
  {
  }

  /** Largest entry of a non-empty vector. */
  function MaxOf(s: seq<int>): (r: int)
    requires |s| > 0
    ensures r in s && forall t :: 0 <= t < |s| ==> s[t] <= r
  {
    if |s| == 1 then s[0]
    else
      var m := MaxOf(s[1..]);
      assert forall t :: 1 <= t < |s| ==> s[t] == s[1..][t - 1];
      if s[0] > m then s[0] else m
  }

  /** `np.amax` of a matrix with at least one row, all rows non-empty. */
  function MatrixMax(d: seq<seq<int>>): (r: int)
    requires |d| > 0 && forall i :: 0 <= i < |d| ==> |d[i]| > 0
    ensures forall i, j :: 0 <= i < |d| && 0 <= j < |d[i]| ==> d[i][j] <= r
    ensures exists i, j :: 0 <= i < |d| && 0 <= j < |d[i]| && d[i][j] == r
  {
    var rowMax := seq(|d|, i requires 0 <= i < |d| => MaxOf(d[i]));
    var r := MaxOf(rowMax);
    assert forall i, j :: 0 <= i < |d| && 0 <= j < |d[i]| ==> d[i][j] <= rowMax[i] <= r;
    var i :| 0 <= i < |d| && rowMax[i] == r;
    var j :| 0 <= j < |d[i]| && d[i][j] == rowMax[i];
    r
  }

  /** The largest index distance of an n-node grid is n - 1. */
  lemma MaxIndexDistance(n: nat)
    requires n > 0
    ensures MatrixMax(IndexDistance(n)) == n - 1
  {
    var d := IndexDistance(n);
    var r := MatrixMax(d);
    IndexDistanceProperties(n, 0, n - 1);
    assert n - 1 <= r;
    var i, j :| 0 <= i < n && 0 <= j < |d[i]| && d[i][j] == r;
    IndexDistanceProperties(n, i, j);
    assert r <= n - 1;
  }

  /** `np.append(np.arange(lo, idx, 1), np.arange(idx + 1, hi, 1))`: the window
      lo..hi-1 with `idx` left out, the shape of every neighbour list that
      `get_nearest_indices` returns. */
  function Window(lo: int, idx: int, hi: int): seq<int>
  {
    Range(lo, idx) + Range(idx + 1, hi)
  }

  /** A window is strictly increasing, never holds `idx`, holds exactly the
      integers of lo..hi-1 other than `idx` when lo <= idx < hi, and then has
      hi - lo - 1 entries. */
  lemma WindowProperties(lo: int, idx: int, hi: int)
    ensures StrictlyIncreasing(Window(lo, idx, hi)) && idx !in Window(lo, idx, hi)
    ensures lo <= idx < hi ==> forall t :: t in Window(lo, idx, hi) <==> lo <= t < hi && t != idx
    ensures lo <= idx < hi ==> |Window(lo, idx, hi)| == hi - lo - 1
  {
    var a, b := Range(lo, idx), Range(idx + 1, hi);
    var w := Window(lo, idx, hi);
    assert forall t :: 0 <= t < |a| ==> w[t] == a[t] < idx;
    assert forall t :: |a| <= t < |w| ==> w[t] == b[t - |a|] > idx;
    if lo <= idx < hi {
      forall t | lo <= t < hi && t != idx
        ensures t in w
      {
        if t < idx {
          assert w[t - lo] == t;
        } else {
          assert w[|a| + t - idx - 1] == t;
        }
      }
    }
  }
}
