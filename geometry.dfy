/** Three-dimensional points over exact reals, and the small vector algebra the
    tracker uses: differences, dot and cross products and squared distances. */
module Geometry {

  datatype Point = Point(x: real, y: real, z: real)

  /** Coordinate `i` (0, 1 or 2) of `p`, as `p(0, i)` / `p[i]` in the source. */
  function Coord(p: Point, i: nat): real
    requires i < 3
  {
    if i == 0 then p.x else if i == 1 then p.y else p.z
  }

  function Sub(p: Point, q: Point): Point
  {
    Point(p.x - q.x, p.y - q.y, p.z - q.z)
  }

  function Add(p: Point, q: Point): Point
  {
    Point(p.x + q.x, p.y + q.y, p.z + q.z)
  }

  function Scale(d: real, p: Point): Point
  {
    Point(d * p.x, d * p.y, d * p.z)
  }

  function Neg(p: Point): Point
  {
    Point(-p.x, -p.y, -p.z)
  }

  /** `dot_product`: the sum of coordinate-wise products. */
  function Dot(v: Point, w: Point): real
  {
    v.x * w.x + v.y * w.y + v.z * w.z
  }

  /** `cross_product`, with the middle coordinate written as the source writes it. */
  function Cross(v: Point, w: Point): Point
  {
    Point(v.y * w.z - v.z * w.y, -(v.x * w.z - v.z * w.x), v.x * w.y - v.y * w.x)
  }

  /** The square of a real. */
  function Sq(a: real): real
  {
    a * a
  }

  /** `pt2pt_dis_sq` on two single points: the squared Euclidean distance
      `(p - q).squaredNorm()`. */
  function DistSq(p: Point, q: Point): real
  {
    Sq(p.x - q.x) + Sq(p.y - q.y) + Sq(p.z - q.z)
  }

  /** `pt2pt_dis_sq` on two node sequences of the same length: the sum over rows
      of the squared row distances (`rowwise().squaredNorm().sum()` /
      `np.sum(np.square(Y - T))`). */
  function SeqDistSq(ps: seq<Point>, qs: seq<Point>): real
    requires |ps| == |qs|
  {
    if ps == [] then 0.0
    else SeqDistSq(ps[..|ps| - 1], qs[..|qs| - 1]) + DistSq(ps[|ps| - 1], qs[|qs| - 1])
  }

  // Stated over a named product `m` rather than over `Sq(a)`, a form the
  // solver's non-linear real arithmetic handles directly.
  lemma ProductOfSelfNonNegative(a: real, m: real)
    requires m == a * a
    ensures m >= 0.0
  {
  }

  /** A square is non-negative and even. */
  lemma SqProperties(a: real)
    ensures Sq(a) >= 0.0
    ensures Sq(a) == Sq(-a)
    ensures Sq(0.0) == 0.0
  {
    ProductOfSelfNonNegative(a, Sq(a));
  }

  /** The squared distance is non-negative, symmetric, and zero when the two
      points coincide. */
  lemma DistSqProperties(p: Point, q: Point)
    ensures DistSq(p, q) >= 0.0
    ensures DistSq(p, q) == DistSq(q, p)
    ensures p == q ==> DistSq(p, q) == 0.0
  {
    SqProperties(p.x - q.x);
    SqProperties(p.y - q.y);
    SqProperties(p.z - q.z);
    assert q.x - p.x == -(p.x - q.x);
    assert q.y - p.y == -(p.y - q.y);
    assert q.z - p.z == -(p.z - q.z);
  }

  /** Summed over two node sequences, the squared distance is non-negative. */
  lemma {:induction false} SeqDistSqNonNegative(ps: seq<Point>, qs: seq<Point>)
    requires |ps| == |qs|
    ensures SeqDistSq(ps, qs) >= 0.0
  {
    if ps != [] {
      var n := |ps| - 1;
      SeqDistSqNonNegative(ps[..n], qs[..n]);
      DistSqProperties(ps[n], qs[n]);
    }
  }

  /** Summed over two node sequences, the squared distance is symmetric. */
  lemma {:induction false} SeqDistSqSymmetric(ps: seq<Point>, qs: seq<Point>)
    requires |ps| == |qs|
    ensures SeqDistSq(ps, qs) == SeqDistSq(qs, ps)
  {
    if ps != [] {
      var n := |ps| - 1;
      SeqDistSqSymmetric(ps[..n], qs[..n]);
      DistSqProperties(ps[n], qs[n]);
    }
  }

  /** Summed over two equal node sequences, the squared distance is zero. */
  lemma {:induction false} SeqDistSqZeroWhenEqual(ps: seq<Point>)
    ensures SeqDistSq(ps, ps) == 0.0
  {
    if ps != [] {
      var n := |ps| - 1;
      SeqDistSqZeroWhenEqual(ps[..n]);
      DistSqProperties(ps[n], ps[n]);
    }
  }

  /** `dot_product` is symmetric, and the dot product of differences used by
      the "opposite side" tests changes sign with either difference. */
  lemma DotProperties(u: Point, v: Point, w: Point)
    ensures Dot(v, w) == Dot(w, v)
    ensures Dot(Neg(v), w) == -Dot(v, w)
    ensures Dot(Sub(u, v), w) == Dot(u, w) - Dot(v, w)
  {
  }

  /** `cross_product(v, w)` is orthogonal to both arguments and reverses sign
      when they are swapped. */
  lemma CrossProperties(v: Point, w: Point)
    ensures Dot(Cross(v, w), v) == 0.0
    ensures Dot(Cross(v, w), w) == 0.0
    ensures Cross(v, w) == Neg(Cross(w, v))
  {
    var c := Cross(v, w);
    calc {
      Dot(c, v);
      (v.y * w.z - v.z * w.y) * v.x + -(v.x * w.z - v.z * w.x) * v.y + (v.x * w.y - v.y * w.x) * v.z;
      v.x * v.y * w.z - v.x * v.z * w.y - v.x * v.y * w.z + v.y * v.z * w.x + v.x * v.z * w.y - v.y * v.z * w.x;
      0.0;
    }
    calc {
      Dot(c, w);
      (v.y * w.z - v.z * w.y) * w.x + -(v.x * w.z - v.z * w.x) * w.y + (v.x * w.y - v.y * w.x) * w.z;
      v.y * w.x * w.z - v.z * w.x * w.y - v.x * w.y * w.z + v.z * w.x * w.y + v.x * w.y * w.z - v.y * w.x * w.z;
      0.0;
    }
  }
}
