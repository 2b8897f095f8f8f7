/** The C++ `sort_pts`: orders the nodes of an initial estimate Prim-style.
    Starting from node 0, each step attaches the unselected node closest to any
    selected node, and a small bookkeeping scheme (`reverse`, `reverse_on`,
    `insertion_counter`) decides where in the output the new node goes. */
module PrimSort {
  import opened Common
  import opened Geometry

  /** Every two different input rows are at non-zero squared distance, i.e. the
      input has no repeated point. */
  ghost predicate PairwiseApart(y: seq<Point>)
  {
    forall m, n {:trigger DistSq(y[m], y[n])} :: 0 <= m < |y| && 0 <= n < |y| && m != n ==> DistSq(y[m], y[n]) != 0.0
  }

  /** Rows of different nodes of such an input differ. */
  lemma ApartRows(y: seq<Point>, m: nat, n: nat)
    requires PairwiseApart(y)
    requires m < |y| && n < |y| && m != n
    ensures y[m] != y[n]
  {
    assert DistSq(y[m], y[n]) != 0.0;
    DistSqProperties(y[m], y[n]);
  }

  /** `G`: the N-by-N matrix of squared distances between the input rows. */
  function DistanceMatrix(y: seq<Point>): (g: seq<seq<real>>)
    ensures IsSquare(g, |y|)
    ensures forall m, n :: 0 <= m < |y| && 0 <= n < |y| ==> g[m][n] == DistSq(y[m], y[n])
  {
    seq(|y|, m requires 0 <= m < |y| => seq(|y|, n requires 0 <= n < |y| => DistSq(y[m], y[n])))
  }

  predicate IsSquare(g: seq<seq<real>>, n: nat)
  {
    |g| == n && forall m :: 0 <= m < n ==> |g[m]| == n
  }

  /** The scan may choose the pair (m, n): `m` is selected, `n` is not, and
      `G(m, n) != 0`. */
  predicate Eligible(g: seq<seq<real>>, sel: seq<bool>, m: int, n: int)
    requires IsSquare(g, |sel|)
  {
    0 <= m < |sel| && 0 <= n < |sel| && sel[m] && !sel[n] && g[m][n] != 0.0
  }

  /** (m, n) comes strictly before (m2, n2) in the row-major scan. */
  predicate Before(m: int, n: int, m2: int, n2: int)
  {
    m < m2 || (m == m2 && n < n2)
  }

  /** The scan has reached (m, n): (a, b) is the first eligible pair of least
      distance among the pairs before (m, n), and `found` says one exists. */
  ghost predicate Scanned(g: seq<seq<real>>, sel: seq<bool>, m: int, n: int,
                          found: bool, a: nat, b: nat, minimum: real)
    requires IsSquare(g, |sel|)
  {
    && (found ==> Eligible(g, sel, a, b) && Before(a, b, m, n) && minimum == g[a][b])
    && (!found ==> a == 0 && b == 0)
    && forall p, q :: Eligible(g, sel, p, q) && Before(p, q, m, n) ==>
         found && minimum <= g[p][q] && (Before(p, q, a, b) ==> minimum < g[p][q])
  }

  /** The inner loop of the scan, over the unselected partners of node `m`. */
  method ScanRow(g: seq<seq<real>>, sel: seq<bool>, m: nat, found0: bool, a0: nat, b0: nat, minimum0: real)
    returns (found: bool, a: nat, b: nat, minimum: real)
    requires IsSquare(g, |sel|) && m < |sel| && sel[m]
    requires Scanned(g, sel, m, 0, found0, a0, b0, minimum0)
    ensures Scanned(g, sel, m + 1, 0, found, a, b, minimum)
  {
    found, a, b, minimum := found0, a0, b0, minimum0;
    var n := 0;
    while n < |sel|
      invariant 0 <= n <= |sel|
      invariant Scanned(g, sel, m, n, found, a, b, minimum)
    {
      if !sel[n] && g[m][n] != 0.0 {
        if !found || minimum > g[m][n] {
          minimum := g[m][n];
          a, b := m, n;
          found := true;
        }
      }
      n := n + 1;
    }
  }

  /** (a, b) is the pair one step settles on: eligible, of least distance, and
      strictly nearer than every eligible pair before it in scan order. */
  ghost predicate IsClosestPair(g: seq<seq<real>>, sel: seq<bool>, a: int, b: int)
    requires IsSquare(g, |sel|)
  {
    Eligible(g, sel, a, b) &&
    forall m, n :: Eligible(g, sel, m, n) ==> g[a][b] <= g[m][n] && (Before(m, n, a, b) ==> g[a][b] < g[m][n])
  }

  /** A step's pair is determined by the selection. */
  lemma ClosestPairUnique(g: seq<seq<real>>, sel: seq<bool>, a: int, b: int, a': int, b': int)
    requires IsSquare(g, |sel|)
    requires IsClosestPair(g, sel, a, b) && IsClosestPair(g, sel, a', b')
    ensures a == a' && b == b'
  {
    assert Before(a, b, a', b') || Before(a', b', a, b) || (a == a' && b == b');
  }

  /** The double loop of one step: the eligible pair of least distance, the
      first one in scan order on ties (the test is a strict `>`). When no pair
      is eligible, `a` and `b` keep their initial value 0. */
  method ClosestPair(g: seq<seq<real>>, sel: seq<bool>) returns (found: bool, a: nat, b: nat)
    requires IsSquare(g, |sel|)
    ensures found <==> exists m, n :: Eligible(g, sel, m, n)
    ensures found ==> IsClosestPair(g, sel, a, b)
    ensures !found ==> a == 0 && b == 0
  {
    found, a, b := false, 0, 0;
    var minimum := 0.0;
    var m := 0;
    while m < |sel|
      invariant 0 <= m <= |sel|
      invariant Scanned(g, sel, m, 0, found, a, b, minimum)
    {
      if sel[m] {
        found, a, b, minimum := ScanRow(g, sel, m, found, a, b, minimum);
      }
      m := m + 1;
    }
  }

  /** The output vector and the bookkeeping counters of the source. */
  datatype Chain = Chain(vec: seq<Point>, reverse: nat, reverseOn: nat, insertionCounter: nat, lastB: nat)

  /** The counters after the `last_visited_b != a` test: a new branch starts
      when the attachment node is not the node added last. */
  function Recount(c: Chain, a: nat): Chain
  {
    if c.lastB != a then c.(reverse := c.reverse + 1, reverseOn := a, insertionCounter := 1) else c
  }

  /** The insertion position `find(reverse_on) + insertion_counter` of an even
      branch stays within the vector (otherwise the source inserts past the
      end, which is undefined). */
  predicate Placeable(c: Chain, y: seq<Point>, a: nat)
    requires a < |y|
  {
    var r := Recount(c, a);
    r.reverse % 2 == 0 && r.reverse != 0 ==>
      r.reverseOn < |y| && FirstIndex(r.vec, y[r.reverseOn]) + r.insertionCounter <= |r.vec|
  }

  /** The placement of the new row `y[b]` once the counters are up to date. */
  function Place(s: Chain, y: seq<Point>, a: nat, b: nat): Chain
    requires a < |y| && b < |y|
    requires s.reverse % 2 == 0 && s.reverse != 0 ==>
               s.reverseOn < |y| && FirstIndex(s.vec, y[s.reverseOn]) + s.insertionCounter <= |s.vec|
  {
    if s.reverse % 2 == 1 then
      s.(vec := InsertAt(s.vec, FirstIndex(s.vec, y[a]), y[b]), lastB := b)
    else if s.reverse != 0 then
      s.(vec := InsertAt(s.vec, FirstIndex(s.vec, y[s.reverseOn]) + s.insertionCounter, y[b]),
         insertionCounter := s.insertionCounter + 1, lastB := b)
    else
      s.(vec := s.vec + [y[b]], lastB := b)
  }

  /** One later step of the bookkeeping: node `b` is attached to node `a`. */
  function Attach(c: Chain, y: seq<Point>, a: nat, b: nat): (r: Chain)
    requires a < |y| && b < |y|
    requires Placeable(c, y, a)
    ensures r.reverse == c.reverse + (if c.lastB != a then 1 else 0)
    ensures r.lastB == b
    ensures |r.vec| == |c.vec| + 1
    ensures multiset(r.vec) == multiset(c.vec) + multiset{y[b]}
  {
    Place(Recount(c, a), y, a, b)
  }

  /** While no branch has started, a step appends the new row. */
  lemma AttachAppends(c: Chain, y: seq<Point>, a: nat, b: nat)
    requires a < |y| && b < |y| && Placeable(c, y, a)
    requires Attach(c, y, a, b).reverse == 0
    ensures Attach(c, y, a, b).vec == c.vec + [y[b]]
  {
    var s := Recount(c, a);
    assert s.reverse == 0;
    assert Attach(c, y, a, b) == s.(vec := c.vec + [y[b]], lastB := b);
  }

  /** On an odd branch, a step inserts the new row immediately before the row
      of the node it attaches to. */
  lemma AttachInsertsBefore(c: Chain, y: seq<Point>, a: nat, b: nat)
    requires a < |y| && b < |y| && Placeable(c, y, a)
    requires Attach(c, y, a, b).reverse % 2 == 1 && y[a] in c.vec
    ensures var r := Attach(c, y, a, b); var i := FirstIndex(c.vec, y[a]);
      r.vec == InsertAt(c.vec, i, y[b]) && r.vec[i] == y[b] && r.vec[i + 1] == y[a]
  {
    var s := Recount(c, a);
    var i := FirstIndex(c.vec, y[a]);
    assert s.reverse % 2 == 1;
    assert Attach(c, y, a, b) == s.(vec := InsertAt(c.vec, i, y[b]), lastB := b);
    InsertAtAfter(c.vec, i, y[b]);
  }

  /** On an even branch, a step inserts the new row `insertion_counter` places
      after the row of the branch node and advances the counter; a new branch
      starts at the attachment node with the counter at 1. */
  lemma AttachInsertsAfterBranch(c: Chain, y: seq<Point>, a: nat, b: nat)
    requires a < |y| && b < |y| && Placeable(c, y, a)
    requires Attach(c, y, a, b).reverse % 2 == 0 && Attach(c, y, a, b).reverse != 0
    ensures var r := Attach(c, y, a, b);
      r.reverseOn == (if c.lastB != a then a else c.reverseOn) &&
      r.insertionCounter == (if c.lastB != a then 2 else c.insertionCounter + 1) &&
      r.vec == InsertAt(c.vec, FirstIndex(c.vec, y[r.reverseOn]) + r.insertionCounter - 1, y[b])
  {
    var s := Recount(c, a);
    assert s.reverse % 2 == 0 && s.reverse != 0;
    assert Attach(c, y, a, b) == s.(vec := InsertAt(c.vec, FirstIndex(c.vec, y[s.reverseOn]) + s.insertionCounter, y[b]),
                                    insertionCounter := s.insertionCounter + 1, lastB := b);
  }

  /** Inserting before an existing position `i` puts the old element `i` right
      after the new one. */
  lemma InsertAtAfter<T>(s: seq<T>, i: nat, x: T)
    requires i < |s|
    ensures InsertAt(s, i, x)[i + 1] == s[i]
  {
  }

  // ---------------------------------------------------------------------------
  // The run of the main loop

  /** One later step of the main loop: node `b` attached to node `a`. */
  datatype Step = Step(a: nat, b: nat)

  /** The selection after the first line of the source: only node 0. */
  function Initial(n: nat): (sel: seq<bool>)
    ensures |sel| == n
  {
    seq(n, m => m == 0)
  }

  /** One step of the main loop from state `prev` (selection and output): it
      must be the closest pair of the selection; it then selects node `b`. The
      first step starts the output as [y[a], y[b]]; a later one attaches row b
      as `Attach` does. None when the step is not the closest pair (or could
      not be placed). */
  ghost function Next(g: seq<seq<real>>, y: seq<Point>, prev: Option<(seq<bool>, Chain)>, st: Step, first: bool)
    : (r: Option<(seq<bool>, Chain)>)
    requires IsSquare(g, |y|)
    requires prev.Some? ==> |prev.value.0| == |y|
    ensures r.Some? ==> |r.value.0| == |y|
    ensures r.Some? <==> prev.Some? && IsClosestPair(g, prev.value.0, st.a, st.b) &&
                         (first || Placeable(prev.value.1, y, st.a))
  {
    if prev.Some? && IsClosestPair(g, prev.value.0, st.a, st.b) && (first || Placeable(prev.value.1, y, st.a))
    then
      Some((prev.value.0[st.b := true],
            if first then prev.value.1.(vec := [y[st.a], y[st.b]], lastB := st.b)
            else Attach(prev.value.1, y, st.a, st.b)))
    else None
  }

  /** Replays the steps from selection `sel` and output state `c`, one `Next`
      at a time; None when some step is not the closest pair. */
  ghost function Replay(g: seq<seq<real>>, y: seq<Point>, sel: seq<bool>, c: Chain, steps: seq<Step>)
    : (r: Option<(seq<bool>, Chain)>)
    requires |sel| == |y| && IsSquare(g, |y|)
    ensures r.Some? ==> |r.value.0| == |y|
    decreases |steps|
  {
    if steps == [] then Some((sel, c))
    else Next(g, y, Replay(g, y, sel, c, steps[..|steps| - 1]), steps[|steps| - 1], |steps| == 1)
  }

  /** `sorted` is what the main loop of `sort_pts` produces through `steps`:
      N-1 steps from the selection of node 0 alone and an empty output, each
      the closest pair of the selection at that point. */
  ghost predicate SortedBy(y: seq<Point>, steps: seq<Step>, sorted: seq<Point>)
  {
    && |steps| == |y| - 1
    && Replay(DistanceMatrix(y), y, Initial(|y|), Chain([], 0, 0, 0, 0), steps).Some?
    && Replay(DistanceMatrix(y), y, Initial(|y|), Chain([], 0, 0, 0, 0), steps).value.1.vec == sorted
  }

  /** Two steps that both follow from one state are the same step. */
  lemma NextUnique(g: seq<seq<real>>, y: seq<Point>, prev: Option<(seq<bool>, Chain)>, st1: Step, st2: Step, first: bool)
    requires IsSquare(g, |y|)
    requires prev.Some? ==> |prev.value.0| == |y|
    requires Next(g, y, prev, st1, first).Some? && Next(g, y, prev, st2, first).Some?
    ensures st1 == st2
  {
    ClosestPairUnique(g, prev.value.0, st1.a, st1.b, st2.a, st2.b);
  }

  /** Replays of equally many steps from one state agree on the steps. */
  lemma {:induction false} ReplayUnique(g: seq<seq<real>>, y: seq<Point>, sel: seq<bool>, c: Chain,
                                        s1: seq<Step>, s2: seq<Step>)
    requires |sel| == |y| && IsSquare(g, |y|)
    requires |s1| == |s2|
    requires Replay(g, y, sel, c, s1).Some? && Replay(g, y, sel, c, s2).Some?
    ensures s1 == s2
    decreases |s1|
  {
    if s1 != [] {
      var n := |s1| - 1;
      ReplayUnique(g, y, sel, c, s1[..n], s2[..n]);
      NextUnique(g, y, Replay(g, y, sel, c, s1[..n]), s1[n], s2[n], n == 0);
      SnocEqual(s1, s2);
    }
  }

  /** Sequences of one length that agree up to their last element and on it
      are equal. */
  lemma SnocEqual<T>(s1: seq<T>, s2: seq<T>)
    requires |s1| == |s2| > 0 && s1[..|s1| - 1] == s2[..|s2| - 1] && s1[|s1| - 1] == s2[|s2| - 1]
    ensures s1 == s2
  {
    assert s1 == s1[..|s1| - 1] + [s1[|s1| - 1]];
    assert s2 == s2[..|s2| - 1] + [s2[|s2| - 1]];
  }

  /** The output of `sort_pts` is determined by the input: two runs agree on
      their steps and on their output. */
  lemma SortedByUnique(y: seq<Point>, s1: seq<Step>, sorted1: seq<Point>, s2: seq<Step>, sorted2: seq<Point>)
    requires SortedBy(y, s1, sorted1) && SortedBy(y, s2, sorted2)
    ensures s1 == s2 && sorted1 == sorted2
  {
    ReplayUnique(DistanceMatrix(y), y, Initial(|y|), Chain([], 0, 0, 0, 0), s1, s2);
  }

  /** Replaying one more step that is the closest pair of the state reached
      extends the replay by that step. */
  lemma ReplaySnoc(g: seq<seq<real>>, y: seq<Point>, sel: seq<bool>, c: Chain, steps: seq<Step>,
                   selNow: seq<bool>, cNow: Chain, st: Step)
    requires |sel| == |y| && IsSquare(g, |y|)
    requires Replay(g, y, sel, c, steps) == Some((selNow, cNow))
    requires IsClosestPair(g, selNow, st.a, st.b) && (steps == [] || Placeable(cNow, y, st.a))
    ensures Replay(g, y, sel, c, steps + [st]) ==
            Some((selNow[st.b := true],
                  if steps == [] then cNow.(vec := [y[st.a], y[st.b]], lastB := st.b) else Attach(cNow, y, st.a, st.b)))
  {
    assert (steps + [st])[..|steps|] == steps;
  }

  // ---------------------------------------------------------------------------
  // Counting the selected nodes

  /** The rows of the selected nodes. */
  ghost function Picked(y: seq<Point>, sel: seq<bool>): multiset<Point>
    requires |y| == |sel|
  {
    if y == [] then multiset{}
    else Picked(y[..|y| - 1], sel[..|sel| - 1]) + (if sel[|sel| - 1] then multiset{y[|y| - 1]} else multiset{})
  }

  /** The number of selected nodes. */
  function Count(sel: seq<bool>): (r: nat)
    ensures r <= |sel|
  {
    if sel == [] then 0 else Count(sel[..|sel| - 1]) + (if sel[|sel| - 1] then 1 else 0)
  }

  /** Selecting one more node adds its row to `Picked` and one to `Count`. */
  lemma PickedSelect(y: seq<Point>, sel: seq<bool>, b: nat)
    requires |y| == |sel| && b < |sel| && !sel[b]
    ensures Picked(y, sel[b := true]) == Picked(y, sel) + multiset{y[b]}
    ensures Count(sel[b := true]) == Count(sel) + 1
  {
    PickedSelectRows(y, sel, b);
    CountSelect(sel, b);
  }

  lemma {:induction false} PickedSelectRows(y: seq<Point>, sel: seq<bool>, b: nat)
    requires |y| == |sel| && b < |sel| && !sel[b]
    ensures Picked(y, sel[b := true]) == Picked(y, sel) + multiset{y[b]}
  {
    var n := |y| - 1;
    var sel' := sel[b := true];
    if b < n {
      assert sel'[..n] == sel[..n][b := true];
      assert sel'[n] == sel[n];
      assert y[..n][b] == y[b];
      PickedSelectRows(y[..n], sel[..n], b);
    } else {
      assert sel'[..n] == sel[..n];
    }
  }

  lemma {:induction false} CountSelect(sel: seq<bool>, b: nat)
    requires b < |sel| && !sel[b]
    ensures Count(sel[b := true]) == Count(sel) + 1
  {
    var n := |sel| - 1;
    var sel' := sel[b := true];
    if b < n {
      assert sel'[..n] == sel[..n][b := true];
      assert sel'[n] == sel[n];
      CountSelect(sel[..n], b);
    } else {
      assert sel'[..n] == sel[..n];
    }
  }

  lemma {:induction false} PickedNone(y: seq<Point>, sel: seq<bool>)
    requires |y| == |sel|
    requires forall m :: 0 <= m < |sel| ==> !sel[m]
    ensures Picked(y, sel) == multiset{}
    ensures Count(sel) == 0
  {
    if y != [] {
      PickedNone(y[..|y| - 1], sel[..|sel| - 1]);
    }
  }

  lemma {:induction false} PickedAll(y: seq<Point>, sel: seq<bool>)
    requires |y| == |sel|
    requires forall m :: 0 <= m < |sel| ==> sel[m]
    ensures Picked(y, sel) == multiset(y)
  {
    if y != [] {
      var n := |y| - 1;
      PickedAll(y[..n], sel[..n]);
      assert y == y[..n] + [y[n]];
    }
  }

  lemma {:induction false} PickedContains(y: seq<Point>, sel: seq<bool>, m: nat)
    requires |y| == |sel| && m < |sel| && sel[m]
    ensures y[m] in Picked(y, sel)
  {
    var n := |y| - 1;
    if m < n {
      PickedContains(y[..n], sel[..n], m);
    }
  }

  lemma {:induction false} CountFull(sel: seq<bool>)
    requires Count(sel) == |sel|
    ensures forall m :: 0 <= m < |sel| ==> sel[m]
  {
    if sel != [] {
      var n := |sel| - 1;
      assert Count(sel[..n]) <= n;
      CountFull(sel[..n]);
      assert forall m :: 0 <= m < n ==> sel[..n][m] == sel[m];
    }
  }

  lemma {:induction false} CountNotFull(sel: seq<bool>)
    requires Count(sel) < |sel|
    ensures exists m :: 0 <= m < |sel| && !sel[m]
  {
    var n := |sel| - 1;
    if sel[n] {
      CountNotFull(sel[..n]);
      var m :| 0 <= m < n && !sel[..n][m];
      assert !sel[m];
    }
  }

  // ---------------------------------------------------------------------------
  // Positions in the output vector

  /** `FirstIndex` is determined by the first position holding the value. */
  lemma FirstIndexIs<T>(s: seq<T>, v: T, j: nat)
    requires j < |s| && s[j] == v
    requires forall k :: 0 <= k < j ==> s[k] != v
    ensures FirstIndex(s, v) == j
  {
  }

  lemma FirstIndexInsertBefore<T>(s: seq<T>, i: nat, x: T, v: T)
    requires i <= |s| && v in s && x != v
    requires i <= FirstIndex(s, v)
    ensures FirstIndex(s[..i] + [x] + s[i..], v) == FirstIndex(s, v) + 1
  {
    var f := FirstIndex(s, v);
    var t := s[..i] + [x] + s[i..];
    forall k | 0 <= k < f + 1
      ensures t[k] != v
    {
      if k < i {
        assert t[k] == s[k];
      } else if k > i {
        assert t[k] == s[k - 1];
      }
    }
    assert t[f + 1] == s[f];
    FirstIndexIs(t, v, f + 1);
  }

  lemma FirstIndexInsertAfter<T>(s: seq<T>, i: nat, x: T, v: T)
    requires i <= |s| && v in s
    requires FirstIndex(s, v) < i
    ensures FirstIndex(s[..i] + [x] + s[i..], v) == FirstIndex(s, v)
  {
    var f := FirstIndex(s, v);
    var t := s[..i] + [x] + s[i..];
    forall k | 0 <= k < f
      ensures t[k] != v
    {
      assert t[k] == s[k];
    }
    assert t[f] == s[f];
    FirstIndexIs(t, v, f);
  }

  /** Inserting a different value moves the first occurrence of `v` one place
      to the right when it is inserted at or before it, and not otherwise. */
  lemma FirstIndexInsert<T>(s: seq<T>, i: nat, x: T, v: T)
    requires i <= |s| && v in s && x != v
    ensures FirstIndex(InsertAt(s, i, x), v) == if i <= FirstIndex(s, v) then FirstIndex(s, v) + 1 else FirstIndex(s, v)
  {
    assert InsertAt(s, i, x) == s[..i] + [x] + s[i..];
    if i <= FirstIndex(s, v) {
      FirstIndexInsertBefore(s, i, x, v);
    } else {
      FirstIndexInsertAfter(s, i, x, v);
    }
  }

  // ---------------------------------------------------------------------------
  // The main loop

  /** The invariant of the main loop after a step has been taken. */
  ghost predicate StepInvariant(y: seq<Point>, sel: seq<bool>, c: Chain, counter: nat)
    requires |sel| == |y|
  {
    && counter >= 1
    && multiset(c.vec) == Picked(y, sel)
    && |c.vec| == counter + 1
    && Count(sel) == counter + 1
    && c.lastB < |y| && sel[c.lastB]
    && (c.reverse > 0 ==>
          c.reverseOn < |y| && sel[c.reverseOn] && c.insertionCounter >= 1 &&
          FirstIndex(c.vec, y[c.reverseOn]) + c.insertionCounter <= |c.vec|)
  }

  /** After the `last_visited_b != a` test the branch node is selected and its
      insertion position is still within the vector. */
  lemma RecountKeeps(y: seq<Point>, sel: seq<bool>, c: Chain, counter: nat, a: nat)
    requires |sel| == |y|
    requires StepInvariant(y, sel, c, counter)
    requires a < |y| && sel[a]
    ensures var s := Recount(c, a);
      s.vec == c.vec && s.reverse == c.reverse + (if c.lastB != a then 1 else 0) &&
      (s.reverse > 0 ==>
         s.reverseOn < |y| && sel[s.reverseOn] && s.insertionCounter >= 1 &&
         y[s.reverseOn] in s.vec && FirstIndex(s.vec, y[s.reverseOn]) + s.insertionCounter <= |s.vec|)
  {
    var s := Recount(c, a);
    if s.reverse > 0 {
      PickedContains(y, sel, s.reverseOn);
    }
  }

  /** An insertion anywhere keeps the branch node's insertion position in range. */
  lemma InsertKeepsRoom(vec: seq<Point>, i: nat, x: Point, v: Point, ic: nat)
    requires i <= |vec| && v in vec && x != v
    requires FirstIndex(vec, v) + ic <= |vec|
    ensures FirstIndex(InsertAt(vec, i, x), v) + ic <= |vec| + 1
  {
    FirstIndexInsert(vec, i, x, v);
  }

  /** An insertion right after the branch node's run leaves its position alone. */
  lemma InsertAfterKeepsRoom(vec: seq<Point>, x: Point, v: Point, ic: nat)
    requires v in vec && x != v && ic >= 1
    requires FirstIndex(vec, v) + ic <= |vec|
    ensures FirstIndex(InsertAt(vec, FirstIndex(vec, v) + ic, x), v) + ic + 1 <= |vec| + 1
  {
    FirstIndexInsert(vec, FirstIndex(vec, v) + ic, x, v);
  }

  /** The branch node keeps a valid insertion position after a step. */
  lemma AttachKeepsPosition(y: seq<Point>, c: Chain, a: nat, b: nat)
    requires a < |y| && b < |y| && Placeable(c, y, a)
    requires var s := Recount(c, a);
      s.reverse > 0 ==>
        s.reverseOn < |y| && s.insertionCounter >= 1 && y[s.reverseOn] in s.vec && y[s.reverseOn] != y[b] &&
        FirstIndex(s.vec, y[s.reverseOn]) + s.insertionCounter <= |s.vec|
    ensures var s := Recount(c, a); var r := Attach(c, y, a, b);
      r.reverse > 0 ==>
        r.reverseOn == s.reverseOn && r.insertionCounter >= 1 &&
        FirstIndex(r.vec, y[r.reverseOn]) + r.insertionCounter <= |r.vec|
  {
    PlaceKeepsPosition(Recount(c, a), y, a, b);
  }

  lemma PlaceKeepsPosition(s: Chain, y: seq<Point>, a: nat, b: nat)
    requires a < |y| && b < |y|
    requires s.reverse > 0 ==>
        s.reverseOn < |y| && s.insertionCounter >= 1 && y[s.reverseOn] in s.vec && y[s.reverseOn] != y[b] &&
        FirstIndex(s.vec, y[s.reverseOn]) + s.insertionCounter <= |s.vec|
    ensures var r := Place(s, y, a, b);
      r.reverse > 0 ==>
        r.reverseOn == s.reverseOn && r.insertionCounter >= 1 &&
        FirstIndex(r.vec, y[r.reverseOn]) + r.insertionCounter <= |r.vec|
  {
    var r := Place(s, y, a, b);
    if s.reverse > 0 {
      var v := y[s.reverseOn];
      if s.reverse % 2 == 1 {
        InsertKeepsRoom(s.vec, FirstIndex(s.vec, y[a]), y[b], v, s.insertionCounter);
      } else {
        InsertAfterKeepsRoom(s.vec, y[b], v, s.insertionCounter);
      }
    }
  }

  /** The first step starts the output with the rows of node 0 and its
      closest node. */
  lemma FirstStepKeeps(y: seq<Point>, sel: seq<bool>, b: nat)
    requires |sel| == |y| && b < |y| && sel[0] && !sel[b]
    requires Count(sel) == 1 && Picked(y, sel) == multiset{y[0]}
    ensures StepInvariant(y, sel[b := true], Chain([y[0], y[b]], 0, 0, 0, b), 1)
  {
    PickedSelect(y, sel, b);
  }

  lemma AttachKeeps(y: seq<Point>, sel: seq<bool>, c: Chain, counter: nat, a: nat, b: nat)
    requires |sel| == |y| && PairwiseApart(y)
    requires StepInvariant(y, sel, c, counter)
    requires a < |y| && b < |y| && sel[a] && !sel[b]
    ensures Placeable(c, y, a)
    ensures StepInvariant(y, sel[b := true], Attach(c, y, a, b), counter + 1)
  {
    RecountKeeps(y, sel, c, counter, a);
    PickedSelect(y, sel, b);
    var s := Recount(c, a);
    if s.reverse > 0 {
      ApartRows(y, s.reverseOn, b);
    }
    AttachKeepsPosition(y, c, a, b);
  }

  /** `sort_pts`: runs N-1 steps, each selecting one new node and adding its row
      to the output, so that on an input without repeated points the output
      holds every input row exactly once. */
  method SortPts(y: seq<Point>) returns (sorted: seq<Point>)
    requires |y| >= 2
    requires PairwiseApart(y)
    ensures |sorted| == |y|
    ensures multiset(sorted) == multiset(y)
    ensures exists steps :: SortedBy(y, steps, sorted)
  {
    var n0 := |y|;
    var g := DistanceMatrix(y);
    var none := seq(n0, _ => false);
    PickedNone(y, none);
    var sel := none[0 := true];
    PickedSelect(y, none, 0);
    assert sel == Initial(n0);
    var c := Chain([], 0, 0, 0, 0);
    var counter := 0;
    // The steps taken so far, replayed from the initial state.
    ghost var steps: seq<Step> := [];
    while counter < n0 - 1
      invariant |sel| == n0 && sel[0]
      invariant counter <= n0 - 1
      invariant counter == 0 ==> c == Chain([], 0, 0, 0, 0) && Count(sel) == 1 &&
                                 Picked(y, sel) == multiset{y[0]} && (forall m :: 0 <= m < n0 ==> (sel[m] <==> m == 0))
      invariant counter > 0 ==> StepInvariant(y, sel, c, counter)
      invariant |steps| == counter && Replay(g, y, Initial(n0), Chain([], 0, 0, 0, 0), steps) == Some((sel, c))
      decreases n0 - 1 - counter
    {
      // Some node is still unselected, and node 0 is selected.
      CountNotFull(sel);
      var u :| 0 <= u < n0 && !sel[u];
      assert g[0][u] == DistSq(y[0], y[u]);
      assert Eligible(g, sel, 0, u);
      var found, a, b := ClosestPair(g, sel);
      if counter == 0 {
        assert a == 0;
        FirstStepKeeps(y, sel, b);
        ReplaySnoc(g, y, Initial(n0), Chain([], 0, 0, 0, 0), steps, sel, c, Step(a, b));
        c := c.(vec := [y[a], y[b]], lastB := b);
      } else {
        AttachKeeps(y, sel, c, counter, a, b);
        ReplaySnoc(g, y, Initial(n0), Chain([], 0, 0, 0, 0), steps, sel, c, Step(a, b));
        c := Attach(c, y, a, b);
      }
      steps := steps + [Step(a, b)];
      sel := sel[b := true];
      counter := counter + 1;
    }
    assert Count(sel) == n0;
    CountFull(sel);
    PickedAll(y, sel);
    sorted := c.vec;
    assert SortedBy(y, steps, sorted);
  }
}
