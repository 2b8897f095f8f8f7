/** The discrete utilities of the C++ tracker: deleting a matrix row, the
    tolerance box test, the case structure of the line/sphere intersection, and
    the edge-pair filter that decides which pairs of chain edges are checked for
    crossings. The Prim-style node ordering lives in module PrimSort. */
module Utils {
  import opened Common
  import opened Geometry

  // ---------------------------------------------------------------------------
  // remove_row

  /** The rows that `remove_row(matrix, r)` leaves: row `r` deleted when it
      exists, otherwise the last row dropped. */
  function RowRemoved<T>(rows: seq<T>, r: nat): seq<T>
    requires |rows| >= 1
  {
    if r < |rows| then rows[..r] + rows[r + 1..] else rows[..|rows| - 1]
  }

  /** What `remove_row` promises: one row fewer, earlier rows unchanged, later
      rows shifted up by one, and only the last row lost when `r` is out of
      range. */
  lemma RowRemovedProperties<T>(rows: seq<T>, r: nat)
    requires |rows| >= 1
    ensures |RowRemoved(rows, r)| == |rows| - 1
    ensures forall k :: 0 <= k < |rows| - 1 && k < r ==> RowRemoved(rows, r)[k] == rows[k]
    ensures forall k :: r <= k < |rows| - 1 ==> RowRemoved(rows, r)[k] == rows[k + 1]
    ensures r >= |rows| - 1 ==> RowRemoved(rows, r) == rows[..|rows| - 1]
    ensures r < |rows| ==> multiset(RowRemoved(rows, r)) == multiset(rows) - multiset{rows[r]}
  {
    if r < |rows| {
      assert rows == rows[..r] + [rows[r]] + rows[r + 1..];
    }
  }

  /** A dense matrix stored row by row, as an Eigen `MatrixXd`. */
  class Matrix {
    var rows: seq<seq<real>>
    var cols: nat

    ghost predicate Valid()
      reads this
    {
      forall k :: 0 <= k < |rows| ==> |rows[k]| == cols
    }

    constructor (rows0: seq<seq<real>>, cols0: nat)
      requires forall k :: 0 <= k < |rows0| ==> |rows0[k]| == cols0
      ensures Valid()
      ensures rows == rows0 && cols == cols0
    {
      rows := rows0;
      cols := cols0;
    }

    /** `remove_row`: shifts the rows below `rowToRemove` up by one (the block
        copy, done only when the row is not the last one) and then shrinks the
        matrix by one row. The source computes `rows() - 1` in an unsigned
        integer, so it needs at least one row. */
    method RemoveRow(rowToRemove: nat)
      requires Valid()
      requires |rows| >= 1
      modifies this
      ensures Valid()
      ensures cols == old(cols)
      ensures rows == RowRemoved(old(rows), rowToRemove)
    {
      var numRows := |rows| - 1;
      if rowToRemove < numRows {
        var k := rowToRemove;
        while k < numRows
          invariant rowToRemove <= k <= numRows
          invariant |rows| == numRows + 1 && cols == old(cols)
          invariant Valid()
          invariant forall t :: 0 <= t < rowToRemove ==> rows[t] == old(rows)[t]
          invariant forall t :: rowToRemove <= t < k ==> rows[t] == old(rows)[t + 1]
          invariant forall t :: k <= t <= numRows ==> rows[t] == old(rows)[t]
        {
          rows := rows[k := rows[k + 1]];
          k := k + 1;
        }
        assert rows[..numRows] == old(rows)[..rowToRemove] + old(rows)[rowToRemove + 1..];
      }
      rows := rows[..numRows];
    }
  }

  // ---------------------------------------------------------------------------
  // isBetween

  /** The tolerance `isBetween` allows on each side of the interval. */
  const BoxTolerance: real := 0.0001

  /** Coordinate value `v` lies within the closed interval spanned by `lo` and
      `hi` (in either order), widened by the tolerance. */
  predicate WithinTolerance(v: real, lo: real, hi: real)
  {
    (lo - BoxTolerance <= v && v <= hi + BoxTolerance) ||
    (hi - BoxTolerance <= v && v <= lo + BoxTolerance)
  }

  /** `x` lies in the tolerance box spanned by `a` and `b`. */
  predicate InBox(x: Point, a: Point, b: Point)
  {
    forall i :: 0 <= i < 3 ==> WithinTolerance(Coord(x, i), Coord(a, i), Coord(b, i))
  }

  /** `isBetween`: clears a flag for each coordinate that falls outside the
      widened interval. */
  method IsBetween(x: Point, a: Point, b: Point) returns (inBound: bool)
    ensures inBound <==> InBox(x, a, b)
  {
    inBound := true;
    var i := 0;
    while i < 3
      invariant 0 <= i <= 3
      invariant inBound <==> forall t :: 0 <= t < i ==> WithinTolerance(Coord(x, t), Coord(a, t), Coord(b, t))
    {
      if !WithinTolerance(Coord(x, i), Coord(a, i), Coord(b, i)) {
        inBound := false;
      }
      i := i + 1;
    }
  }

  /** The box test does not depend on the order of its two corners, and a
      corner is always inside its own box. */
  lemma InBoxProperties(x: Point, a: Point, b: Point)
    ensures InBox(x, a, b) <==> InBox(x, b, a)
    ensures InBox(a, a, b) && InBox(b, a, b)
  {
    forall i | 0 <= i < 3
      ensures WithinTolerance(Coord(a, i), Coord(a, i), Coord(b, i))
      ensures WithinTolerance(Coord(b, i), Coord(a, i), Coord(b, i))
    {
      if Coord(a, i) <= Coord(b, i) {
        assert Coord(a, i) - BoxTolerance <= Coord(a, i) <= Coord(b, i) + BoxTolerance;
      } else {
        assert Coord(b, i) - BoxTolerance <= Coord(a, i) <= Coord(a, i) + BoxTolerance;
      }
    }
  }

  // ---------------------------------------------------------------------------
  // line_sphere_intersection

  /** The point `A + d (B - A)` on the line through `A` and `B`. */
  function PointOnLine(pointA: Point, pointB: Point, d: real): Point
  {
    Add(pointA, Scale(d, Sub(pointB, pointA)))
  }

  /** The linear coefficient `b = 2 (B - A)·(A - center)` of the quadratic in
      `d` whose roots are the intersections of the line through `A` and `B`
      with the sphere. */
  function LinearCoeff(pointA: Point, pointB: Point, center: Point): real
  {
    2.0 * Dot(Sub(pointB, pointA), Sub(pointA, center))
  }

  /** Discriminant `b² - 4ac` of that quadratic. */
  function Discriminant(pointA: Point, pointB: Point, center: Point, radius: real): real
  {
    LinearCoeff(pointA, pointB, center) * LinearCoeff(pointA, pointB, center) -
    4.0 * DistSq(pointA, pointB) * (DistSq(pointA, center) - radius * radius)
  }

  /** The point of the line at parameter `(-b + e) / 2a`: the roots are at
      e = +sqrt(delta) and e = -sqrt(delta), the tangent point at e = 0. */
  function RootPoint(pointA: Point, pointB: Point, center: Point, e: real): Point
    requires DistSq(pointA, pointB) != 0.0
  {
    PointOnLine(pointA, pointB, (-LinearCoeff(pointA, pointB, center) + e) / (2.0 * DistSq(pointA, pointB)))
  }

  /** `line_sphere_intersection`: the intersections of the line through `A` and
      `B` with a sphere that lie in the tolerance box of `A` and `B`. The square
      root of the discriminant is the parameter `sqrt`; the source divides by
      `2 a`, so `A` and `B` must be apart. A negative discriminant gives no
      point; a positive one gives exactly the in-box points among the two
      roots, the `+sqrt` root first; a zero one gives the tangent point when it
      is in the box. */
  function LineSphereIntersection(pointA: Point, pointB: Point, center: Point, radius: real,
                                  sqrt: real -> real): (r: seq<Point>)
    requires DistSq(pointA, pointB) != 0.0
    ensures Discriminant(pointA, pointB, center, radius) < 0.0 ==> r == []
    ensures Discriminant(pointA, pointB, center, radius) == 0.0 ==> |r| <= 1
    ensures |r| <= 2
    ensures forall k :: 0 <= k < |r| ==> InBox(r[k], pointA, pointB)
    ensures var delta := Discriminant(pointA, pointB, center, radius);
      delta > 0.0 ==> forall p :: p in r <==>
        InBox(p, pointA, pointB) &&
        (p == RootPoint(pointA, pointB, center, sqrt(delta)) || p == RootPoint(pointA, pointB, center, -sqrt(delta)))
    ensures var delta := Discriminant(pointA, pointB, center, radius);
      delta > 0.0 && InBox(RootPoint(pointA, pointB, center, sqrt(delta)), pointA, pointB) ==>
        r[0] == RootPoint(pointA, pointB, center, sqrt(delta))
    ensures var delta := Discriminant(pointA, pointB, center, radius);
      delta > 0.0 ==>
        |r| == (if InBox(RootPoint(pointA, pointB, center, sqrt(delta)), pointA, pointB) then 1 else 0) +
               (if InBox(RootPoint(pointA, pointB, center, -sqrt(delta)), pointA, pointB) then 1 else 0)
    ensures Discriminant(pointA, pointB, center, radius) == 0.0 ==>
      forall p :: p in r <==> InBox(p, pointA, pointB) && p == RootPoint(pointA, pointB, center, 0.0)
    ensures Discriminant(pointA, pointB, center, radius) == 0.0 ==>
      (|r| == 1 <==> InBox(RootPoint(pointA, pointB, center, 0.0), pointA, pointB))
  {
    var a := DistSq(pointA, pointB);
    var b := LinearCoeff(pointA, pointB, center);
    var delta := Discriminant(pointA, pointB, center, radius);
    if delta < 0.0 then
      []
    else if delta > 0.0 then
      var pt1 := PointOnLine(pointA, pointB, (-b + sqrt(delta)) / (2.0 * a));
      var pt2 := PointOnLine(pointA, pointB, (-b - sqrt(delta)) / (2.0 * a));
      (if InBox(pt1, pointA, pointB) then [pt1] else []) +
      (if InBox(pt2, pointA, pointB) then [pt2] else [])
    else
      var pt1 := PointOnLine(pointA, pointB, -b / (2.0 * a));
      if InBox(pt1, pointA, pointB) then [pt1] else []
  }

  /** Every returned point lies on the sphere, provided `sqrt` is a square
      root of the discriminant whenever that is non-negative. */
  lemma IntersectionsOnSphere(pointA: Point, pointB: Point, center: Point, radius: real, sqrt: real -> real)
    requires DistSq(pointA, pointB) != 0.0
    requires var delta := Discriminant(pointA, pointB, center, radius);
      delta >= 0.0 ==> sqrt(delta) * sqrt(delta) == delta
    ensures forall p :: p in LineSphereIntersection(pointA, pointB, center, radius, sqrt) ==>
              DistSq(p, center) == radius * radius
  {
    var delta := Discriminant(pointA, pointB, center, radius);
    if delta > 0.0 {
      RootOnSphere(pointA, pointB, center, radius, sqrt(delta));
      RootOnSphere(pointA, pointB, center, radius, -sqrt(delta));
    } else if delta == 0.0 {
      RootOnSphere(pointA, pointB, center, radius, 0.0);
    }
  }

  /** The line point at a root of the quadratic is at distance `radius` from
      the center. */
  lemma RootOnSphere(pointA: Point, pointB: Point, center: Point, radius: real, e: real)
    requires DistSq(pointA, pointB) != 0.0
    requires e * e == Discriminant(pointA, pointB, center, radius)
    ensures DistSq(RootPoint(pointA, pointB, center, e), center) == radius * radius
  {
    var d := (-LinearCoeff(pointA, pointB, center) + e) / (2.0 * DistSq(pointA, pointB));
    OnLineDistSq(pointA, pointB, center, d);
    RootOfQuadratic(DistSq(PointOnLine(pointA, pointB, d), center), DistSq(pointA, center), radius * radius,
                    DistSq(pointA, pointB), LinearCoeff(pointA, pointB, center), e, d);
  }

  /** A value `q = q0 + b d + a d²` taken at a root `d` of `a d² + b d + (q0 - r2)`
      given by the quadratic formula equals `r2`. */
  lemma RootOfQuadratic(q: real, q0: real, r2: real, a: real, b: real, e: real, d: real)
    requires a != 0.0 && e * e == b * b - 4.0 * a * (q0 - r2) && d == (-b + e) / (2.0 * a)
    requires q == q0 + d * b + d * d * a
    ensures q == r2
  {
    QuadraticRoot(a, b, q0 - r2, e, d);
  }

  /** A root of `a d² + b d + c` by the quadratic formula, for a square root `e`
      of the discriminant. */
  lemma QuadraticRoot(a: real, b: real, c: real, e: real, d: real)
    requires a != 0.0 && e * e == b * b - 4.0 * a * c && d == (-b + e) / (2.0 * a)
    ensures a * d * d + b * d + c == 0.0
  {
    var t := 2.0 * a * d;
    assert t == e - b;
    assert 4.0 * a * (a * d * d + b * d + c) == t * t + 2.0 * b * t + 4.0 * a * c;
    assert t * t + 2.0 * b * t + 4.0 * a * c == e * e - b * b + 4.0 * a * c;
    ProductZero(4.0 * a, a * d * d + b * d + c);
  }

  lemma ProductZero(u: real, v: real)
    requires u != 0.0 && u * v == 0.0
    ensures v == 0.0
  {
  }

  /** The squared distance from the line point at `d` to the center, as a
      quadratic in `d`. */
  lemma OnLineDistSq(pointA: Point, pointB: Point, center: Point, d: real)
    ensures DistSq(PointOnLine(pointA, pointB, d), center) ==
            DistSq(pointA, center) + d * LinearCoeff(pointA, pointB, center) + d * d * DistSq(pointA, pointB)
  {
    var v := Sub(pointB, pointA);
    var u := Sub(pointA, center);
    var p := PointOnLine(pointA, pointB, d);
    assert p.x - center.x == u.x + d * v.x && p.y - center.y == u.y + d * v.y && p.z - center.z == u.z + d * v.z;
    SquareOfSum(u.x, v.x, d);
    SquareOfSum(u.y, v.y, d);
    SquareOfSum(u.z, v.z, d);
    SqProperties(pointA.x - pointB.x);
    SqProperties(pointA.y - pointB.y);
    SqProperties(pointA.z - pointB.z);
    assert Sq(v.x) == Sq(pointA.x - pointB.x) && Sq(v.y) == Sq(pointA.y - pointB.y) && Sq(v.z) == Sq(pointA.z - pointB.z);
  }

  lemma SquareOfSum(u: real, v: real, d: real)
    ensures Sq(u + d * v) == Sq(u) + 2.0 * d * (v * u) + d * d * Sq(v)
  {
  }

  // ---------------------------------------------------------------------------
  // The edge-pair filter of post_processing

  /** Edge `i` (nodes i, i+1) and edge `j` (nodes j, j+1) of a chain of `rows`
      nodes made of `rows / nodesPerDlo` objects of `nodesPerDlo` nodes are
      checked for a crossing: they are not adjacent, and with several objects
      neither edge joins the last node of one object to the first of the next. */
  predicate CheckedPair(rows: nat, nodesPerDlo: nat, i: int, j: int)
    requires nodesPerDlo > 0
  {
    0 <= i <= j < rows - 1 &&
    j >= i + 2 &&
    !(rows / nodesPerDlo > 1 && ((i + 1) % nodesPerDlo == 0 || (j + 1) % nodesPerDlo == 0))
  }

  /** The nested loop at the top of `post_processing`: collects, in scan order,
      the edge pairs that pass the filter and whose current shortest distance is
      below the check distance (`close`, the left-out line geometry). */
  method EdgePairs(rows: nat, nodesPerDlo: nat, close: (int, int) -> bool) returns (pairs: seq<(int, int)>)
    requires nodesPerDlo > 0
    ensures forall i, j :: (i, j) in pairs <==> CheckedPair(rows, nodesPerDlo, i, j) && close(i, j)
    ensures forall k, l :: 0 <= k < l < |pairs| ==>
              pairs[k].0 < pairs[l].0 || (pairs[k].0 == pairs[l].0 && pairs[k].1 < pairs[l].1)
  {
    var numOfDlos := rows / nodesPerDlo;
    pairs := [];
    var i := 0;
    while i < rows - 1
      invariant 0 <= i <= if rows == 0 then 0 else rows - 1
      invariant forall p, q :: (p, q) in pairs <==> CheckedPair(rows, nodesPerDlo, p, q) && close(p, q) && p < i
      invariant forall k, l :: 0 <= k < l < |pairs| ==>
                  pairs[k].0 < pairs[l].0 || (pairs[k].0 == pairs[l].0 && pairs[k].1 < pairs[l].1)
      invariant forall k :: 0 <= k < |pairs| ==> pairs[k].0 < i
    {
      var j := i;
      while j < rows - 1
        invariant i <= j <= rows - 1
        invariant forall p, q :: (p, q) in pairs <==>
                    CheckedPair(rows, nodesPerDlo, p, q) && close(p, q) && (p < i || (p == i && q < j))
        invariant forall k, l :: 0 <= k < l < |pairs| ==>
                    pairs[k].0 < pairs[l].0 || (pairs[k].0 == pairs[l].0 && pairs[k].1 < pairs[l].1)
        invariant forall k :: 0 <= k < |pairs| ==> pairs[k].0 < i || (pairs[k].0 == i && pairs[k].1 < j)
      {
        if Abs(i - j) <= 1 {
        } else if numOfDlos > 1 && ((i + 1) % nodesPerDlo == 0 || (j + 1) % nodesPerDlo == 0) {
        } else if close(i, j) {
          pairs := pairs + [(i, j)];
        }
        j := j + 1;
      }
      i := i + 1;
    }
  }
}
