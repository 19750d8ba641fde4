/**
 Planar geometry over exact reals: points, segments and the point-to-segment distance
 used to decide whether a trace touches a boundary edge. Distances are kept SQUARED,
 so no square root is needed; comparing `sqrt(d2) < t` is the same as `d2 < t * t`
 for non-negative `t`.
 */
module Geometry {

  datatype Point = Point(x: real, y: real)

  /** A segment from `start` to `stop`. */
  datatype Segment = Segment(start: Point, stop: Point)

  /** The identity on reals. `Sqr` multiplies by `Same(a)` rather than by `a`
      itself so that the verifier never sees the literal square `a * a`, which its
      arithmetic handles incompletely. */
  function Same(a: real): real {
    a
  }

  function Sqr(a: real): real {
    a * Same(a)
  }

  /** A square is never negative, and is zero only for zero. */
  lemma SquareSign(a: real)
    ensures Sqr(a) >= 0.0
    ensures a != 0.0 ==> Sqr(a) > 0.0
  {
  }

  function DistSq(p: Point, q: Point): real {
    Sqr(p.x - q.x) + Sqr(p.y - q.y)
  }

  /** A squared distance is never negative, and is zero exactly for equal points. */
  lemma DistSqSign(p: Point, q: Point)
    ensures DistSq(p, q) >= 0.0
    ensures p == q ==> DistSq(p, q) == 0.0
    ensures p != q ==> DistSq(p, q) > 0.0
  {
    SquareSign(p.x - q.x);
    SquareSign(p.y - q.y);
  }

  /** `len_sq = C * C + D * D`: the squared length of the segment. */
  function LengthSq(s: Segment): real {
    DistSq(s.stop, s.start)
  }

  /** `dot = A * C + B * D`: the start-to-point vector against the segment direction. */
  function Dot(p: Point, s: Segment): real {
    (p.x - s.start.x) * (s.stop.x - s.start.x) + (p.y - s.start.y) * (s.stop.y - s.start.y)
  }

  /** The point a fraction `t` of the way along `s` (`x1 + t * C`, `y1 + t * D`). */
  function PointAt(s: Segment, t: real): Point {
    Point(s.start.x + t * (s.stop.x - s.start.x), s.start.y + t * (s.stop.y - s.start.y))
  }

  /** `param`: the projection parameter, or -1 when the segment has length zero. */
  function ProjectionParam(p: Point, s: Segment): real {
    var lenSq := LengthSq(s);
    if lenSq != 0.0 then Dot(p, s) / lenSq else -1.0
  }

  /** The parameter limited to the segment: below 0 it picks the start point, above 1
      the end point, and in between the projection itself. */
  function Clamp01(t: real): (c: real)
    ensures 0.0 <= c <= 1.0
    ensures t < 0.0 ==> c == 0.0
    ensures t > 1.0 ==> c == 1.0
    ensures 0.0 <= t <= 1.0 ==> c == t
  {
    if t < 0.0 then 0.0 else if t > 1.0 then 1.0 else t
  }

  /** `(xx, yy)` of `point_to_line_distance`: the projection, with the parameter
      clamped to the segment. */
  function ClosestPoint(p: Point, s: Segment): (q: Point)
    ensures q == PointAt(s, Clamp01(ProjectionParam(p, s)))
  {
    var t := ProjectionParam(p, s);
    if t < 0.0 then
      assert PointAt(s, 0.0) == s.start;
      s.start
    else if t > 1.0 then
      assert PointAt(s, 1.0) == s.stop;
      s.stop
    else PointAt(s, t)
  }

  /** The square of `point_to_line_distance(point, line_start, line_end)`. */
  function SegmentDistSq(p: Point, s: Segment): (d: real)
    ensures d >= 0.0
    ensures exists t :: 0.0 <= t <= 1.0 && d == DistSq(p, PointAt(s, t))
  {
    var q := ClosestPoint(p, s);
    assert q == PointAt(s, Clamp01(ProjectionParam(p, s)));
    DistSqSign(p, q);
    DistSq(p, q)
  }

  /** A zero-length segment has only its start point: the distance falls back to
      the point-to-point distance, and the projection parameter stays -1. */
  lemma DegenerateSegment(p: Point, s: Segment)
    requires s.start == s.stop
    ensures ProjectionParam(p, s) == -1.0
    ensures SegmentDistSq(p, s) == DistSq(p, s.start)
  {
  }

  /** `(a - t c)^2` as a quadratic in `t`. */
  lemma ExpandSquare(a: real, c: real, t: real)
    ensures Sqr(a - t * c) == Sqr(a) - 2.0 * t * (a * c) + Sqr(t) * Sqr(c)
  {
  }

  /** `|p - PointAt(s, t)|^2` as a quadratic in `t`. */
  lemma QuadraticInT(p: Point, s: Segment, t: real)
    ensures DistSq(p, PointAt(s, t)) == DistSq(p, s.start) - 2.0 * t * Dot(p, s) + Sqr(t) * LengthSq(s)
  {
    ExpandSquare(p.x - s.start.x, s.stop.x - s.start.x, t);
    ExpandSquare(p.y - s.start.y, s.stop.y - s.start.y, t);
  }

  /** On `[0, 1]`, a quadratic `base - 2 t dot + t^2 len` with `dot < 0` is least at 0. */
  lemma LeastAtZero(base: real, dot: real, len: real, t: real)
    requires 0.0 <= t && dot < 0.0 && len >= 0.0
    ensures base <= base - 2.0 * t * dot + Sqr(t) * len
  {
    assert t * dot <= 0.0;
    SquareSign(t);
    NonNegativeProduct(Sqr(t), len);
  }

  /** On `[0, 1]`, the same quadratic with `dot > len >= 0` is least at 1. */
  lemma LeastAtOne(base: real, dot: real, len: real, t: real)
    requires 0.0 <= t <= 1.0 && dot > len && len >= 0.0
    ensures base - 2.0 * dot + Sqr(1.0) * len <= base - 2.0 * t * dot + Sqr(t) * len
  {
    var k := 2.0 * dot - (1.0 + t) * len;
    assert (1.0 + t) * len <= 2.0 * len;
    assert k > 0.0;
    NonNegativeProduct(1.0 - t, k);
    assert (base - 2.0 * t * dot + Sqr(t) * len) - (base - 2.0 * dot + Sqr(1.0) * len) == (1.0 - t) * k;
  }

  /** With `dot == u * len` and `len > 0`, the quadratic is least at `u`. */
  lemma LeastAtFoot(base: real, dot: real, len: real, u: real, t: real)
    requires len > 0.0 && dot == u * len
    ensures base - 2.0 * u * dot + Sqr(u) * len <= base - 2.0 * t * dot + Sqr(t) * len
  {
    assert (base - 2.0 * t * dot + Sqr(t) * len) - (base - 2.0 * u * dot + Sqr(u) * len)
        == len * Sqr(t - u);
    SquareSign(t - u);
    NonNegativeProduct(len, Sqr(t - u));
  }

  lemma NonNegativeProduct(a: real, b: real)
    requires a >= 0.0 && b >= 0.0
    ensures a * b >= 0.0
  {
  }

  /** How the projection parameter `dot / len` compares with 0 and 1. */
  lemma QuotientBounds(dot: real, len: real)
    requires len > 0.0
    ensures dot == (dot / len) * len
    ensures dot / len < 0.0 ==> dot < 0.0
    ensures dot / len > 1.0 ==> dot > len
  {
    var u := dot / len;
    if u < 0.0 {
      assert (-u) * len > 0.0;
    }
    if u > 1.0 {
      assert (u - 1.0) * len > 0.0;
    }
  }

  /** The clamped projection is a nearest point of the segment: no point of the
      segment is closer to `p`. */
  lemma {:induction false} ClosestPointIsNearest(p: Point, s: Segment, t: real)
    requires 0.0 <= t <= 1.0
    ensures SegmentDistSq(p, s) <= DistSq(p, PointAt(s, t))
  {
    var len := LengthSq(s);
    if len == 0.0 {
      DistSqSign(s.stop, s.start);
      assert s.stop == s.start;
      assert PointAt(s, t) == s.start;
    } else {
      var u := Dot(p, s) / len;
      assert ProjectionParam(p, s) == u;
      if u < 0.0 {
        NearestAtStart(p, s, t);
      } else if u > 1.0 {
        NearestAtStop(p, s, t);
      } else {
        NearestAtFoot(p, s, t);
      }
    }
  }

  /** A projection before the start makes the start the nearest point. */
  lemma NearestAtStart(p: Point, s: Segment, t: real)
    requires 0.0 <= t <= 1.0 && LengthSq(s) != 0.0 && Dot(p, s) / LengthSq(s) < 0.0
    ensures DistSq(p, s.start) <= DistSq(p, PointAt(s, t))
  {
    var len := LengthSq(s);
    DistSqSign(s.stop, s.start);
    QuotientBounds(Dot(p, s), len);
    QuadraticInT(p, s, t);
    LeastAtZero(DistSq(p, s.start), Dot(p, s), len, t);
  }

  /** A projection past the end makes the end the nearest point. */
  lemma NearestAtStop(p: Point, s: Segment, t: real)
    requires 0.0 <= t <= 1.0 && LengthSq(s) != 0.0 && Dot(p, s) / LengthSq(s) > 1.0
    ensures DistSq(p, s.stop) <= DistSq(p, PointAt(s, t))
  {
    var len := LengthSq(s);
    DistSqSign(s.stop, s.start);
    QuotientBounds(Dot(p, s), len);
    QuadraticInT(p, s, t);
    QuadraticInT(p, s, 1.0);
    assert PointAt(s, 1.0) == s.stop;
    LeastAtOne(DistSq(p, s.start), Dot(p, s), len, t);
  }

  /** A projection on the segment is the nearest point. */
  lemma NearestAtFoot(p: Point, s: Segment, t: real)
    requires LengthSq(s) != 0.0
    ensures DistSq(p, PointAt(s, Dot(p, s) / LengthSq(s))) <= DistSq(p, PointAt(s, t))
  {
    var len := LengthSq(s);
    var u := Dot(p, s) / len;
    DistSqSign(s.stop, s.start);
    QuotientBounds(Dot(p, s), len);
    QuadraticInT(p, s, t);
    QuadraticInT(p, s, u);
    LeastAtFoot(DistSq(p, s.start), Dot(p, s), len, u, t);
  }
}
