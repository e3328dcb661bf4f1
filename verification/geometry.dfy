/**
 * The geometry kernel of the floor-plan editor (src/utils/math.ts, repeated
 * verbatim inside both editor components): the even-odd point-in-polygon
 * test, the square polygon builder, the clamped point-to-segment distance
 * and grid snapping.
 *
 * Coordinates are exact reals. `Math.round(v)` is `(v + 0.5).Floor`, which
 * agrees with JavaScript's rounding of halves towards +infinity. The
 * distance is kept squared: its one use compares it with 5, so the model
 * compares the square with 25 instead of taking a square root.
 */
module Geometry {

  datatype Point = Point(x: real, y: real)

  /** The grid unit both editors snap to (`limit`). */
  const Limit: real := 20.0

  function Abs(v: real): real
  {
    if v < 0.0 then -v else v
  }

  // ---------------------------------------------------------------------
  // Point in polygon
  // ---------------------------------------------------------------------

  /** The edge visited at step i of the loop: vertex i and vertex j, the one before it. */
  datatype Edge = Edge(cur: Point, prev: Point)

  /** The edges in the order the loop visits them: (0, n-1), (1, 0), ..., (n-1, n-2). */
  function Edges(polygon: seq<Point>): (e: seq<Edge>)
    ensures |e| == |polygon|
  {
    seq(|polygon|, i requires 0 <= i < |polygon| =>
      Edge(polygon[i], polygon[if i == 0 then |polygon| - 1 else i - 1]))
  }

  /** Exactly one end of the edge lies strictly below the ray's height (larger y). */
  predicate Straddles(y: real, e: Edge)
  {
    (e.cur.y > y) != (e.prev.y > y)
  }

  /**
   * The rightward ray from (x, y) crosses the edge. The division is only
   * evaluated after the straddle test has succeeded, so its divisor is
   * never zero (Dafny checks this when it checks the definition).
   */
  predicate Crosses(x: real, y: real, e: Edge)
  {
    Straddles(y, e) && x < Intercept(e.cur.x, e.cur.y, e.prev.x, e.prev.y, y)
  }

  /** Where the line through (xi, yi) and (xj, yj) meets the height y. */
  function Intercept(xi: real, yi: real, xj: real, yj: real, y: real): real
    requires yi != yj
  {
    (xj - xi) * (y - yi) / (yj - yi) + xi
  }

  /** The number of edges of `edges` that the ray crosses. */
  function Crossings(x: real, y: real, edges: seq<Edge>): nat
  {
    if edges == [] then 0
    else Crossings(x, y, edges[..|edges| - 1]) + (if Crosses(x, y, edges[|edges| - 1]) then 1 else 0)
  }

  /** The even-odd rule: inside when the ray crosses an odd number of edges. */
  predicate InPolygon(x: real, y: real, polygon: seq<Point>)
  {
    Crossings(x, y, Edges(polygon)) % 2 == 1
  }

  /** `isPointInPolygon`: one pass over the index pairs (i, j), flipping `inside` at each crossing. */
  method IsPointInPolygon(x: real, y: real, polygon: seq<Point>) returns (inside: bool)
    ensures inside == InPolygon(x, y, polygon)
  {
    ghost var edges := Edges(polygon);
    inside := false;
    var i, j := 0, |polygon| - 1;
    while i < |polygon|
      invariant 0 <= i <= |polygon|
      invariant i < |polygon| ==> j == (if i == 0 then |polygon| - 1 else i - 1)
      invariant inside == (Crossings(x, y, edges[..i]) % 2 == 1)
    {
      var xi, yi := polygon[i].x, polygon[i].y;
      var xj, yj := polygon[j].x, polygon[j].y;
      var intersect := ((yi > y) != (yj > y)) && x < Intercept(xi, yi, xj, yj, y);
      assert edges[i] == Edge(polygon[i], polygon[j]);
      CrossingsStep(x, y, edges, i);
      if intersect {
        inside := !inside;
      }
      j, i := i, i + 1;
    }
    assert edges[..i] == edges;
  }

  /** Extending a prefix of the edges by one edge adds that edge's crossing. */
  lemma CrossingsStep(x: real, y: real, edges: seq<Edge>, i: nat)
    requires i < |edges|
    ensures Crossings(x, y, edges[..i + 1])
         == Crossings(x, y, edges[..i]) + (if Crosses(x, y, edges[i]) then 1 else 0)
  {
    assert edges[..i + 1][..i] == edges[..i];
  }

  /** The intercept of a line does not depend on which of its two points comes first. */
  lemma InterceptSymmetric(xa: real, ya: real, xb: real, yb: real, y: real)
    requires ya != yb
    ensures Intercept(xa, ya, xb, yb, y) == Intercept(xb, yb, xa, ya, y)
  {
    var d := yb - ya;
    var k := (xb - xa) / d;
    assert k * d == xb - xa;
    assert (xb - xa) * (y - ya) / d == k * (y - ya);
    assert (xa - xb) * (y - yb) / (ya - yb) == k * (y - yb);
    assert k * (y - ya) == k * (y - yb) + k * d;
  }

  /** A vertical edge meets every height at its own x. */
  lemma InterceptVertical(x0: real, yi: real, yj: real, y: real)
    requires yi != yj
    ensures Intercept(x0, yi, x0, yj, y) == x0
  {
  }

  /** The crossing test of an edge does not depend on which end comes first. */
  lemma CrossesReversed(x: real, y: real, a: Point, b: Point)
    ensures Crosses(x, y, Edge(a, b)) == Crosses(x, y, Edge(b, a))
  {
    if a.y != b.y {
      InterceptSymmetric(a.x, a.y, b.x, b.y, y);
    }
  }

  /** Counting crossings distributes over concatenation. */
  lemma {:induction false} CrossingsAppend(x: real, y: real, a: seq<Edge>, b: seq<Edge>)
    ensures Crossings(x, y, a + b) == Crossings(x, y, a) + Crossings(x, y, b)
    decreases |b|
  {
    if b == [] {
      assert a + b == a;
    } else {
      var b' := b[..|b| - 1];
      assert (a + b)[..|a + b| - 1] == a + b';
      assert (a + b)[|a + b| - 1] == b[|b| - 1];
      CrossingsAppend(x, y, a, b');
    }
  }

  /** A polygon with fewer than three vertices never contains a point. */
  lemma FewerThanThreeOutside(x: real, y: real, polygon: seq<Point>)
    requires |polygon| < 3
    ensures !InPolygon(x, y, polygon)
  {
    var e := Edges(polygon);
    if |polygon| == 1 {
      assert e[..0] == [];
      assert !Straddles(y, e[0]);
    } else if |polygon| == 2 {
      assert e[..1][..0] == [];
      assert e[0] == Edge(polygon[0], polygon[1]);
      assert e[1] == Edge(polygon[1], polygon[0]);
      CrossesReversed(x, y, polygon[0], polygon[1]);
      var c := if Crosses(x, y, e[0]) then 1 else 0;
      assert Crossings(x, y, e[..1]) == c;
      assert Crossings(x, y, e) == 2 * c;
    }
  }

  /** No crossing is counted over edges that do not straddle the ray. */
  lemma {:induction false} NoStraddleNoCrossing(x: real, y: real, edges: seq<Edge>)
    requires forall k :: 0 <= k < |edges| ==> !Straddles(y, edges[k])
    ensures Crossings(x, y, edges) == 0
  {
    if edges != [] {
      NoStraddleNoCrossing(x, y, edges[..|edges| - 1]);
    }
  }

  /**
   * A point at or above the height of every vertex, or strictly below every
   * vertex, is outside: no edge straddles its ray.
   */
  lemma OutsideVerticalRange(x: real, y: real, polygon: seq<Point>)
    requires (forall k :: 0 <= k < |polygon| ==> polygon[k].y <= y)
          || (forall k :: 0 <= k < |polygon| ==> polygon[k].y > y)
    ensures !InPolygon(x, y, polygon)
  {
    var e := Edges(polygon);
    forall k | 0 <= k < |e| ensures !Straddles(y, e[k]) {
      assert e[k].cur == polygon[k];
    }
    NoStraddleNoCrossing(x, y, e);
  }

  /** The vertex list started at index k and wrapped around. */
  function Rotated(polygon: seq<Point>, k: nat): (r: seq<Point>)
    requires k <= |polygon|
    ensures |r| == |polygon|
  {
    polygon[k..] + polygon[..k]
  }

  /** Rotating the vertices rotates the edge list the same way. */
  lemma EdgesRotated(polygon: seq<Point>, k: nat)
    requires k < |polygon|
    ensures Edges(Rotated(polygon, k)) == Edges(polygon)[k..] + Edges(polygon)[..k]
  {
    var n := |polygon|;
    var q := Rotated(polygon, k);
    var e := Edges(polygon);
    var lhs := Edges(q);
    var rhs := e[k..] + e[..k];
    assert forall i :: 0 <= i < n - k ==> q[i] == polygon[i + k];
    assert forall i :: n - k <= i < n ==> q[i] == polygon[i - (n - k)];
    forall i | 0 <= i < n ensures lhs[i] == rhs[i] {
      if i < n - k {
        assert rhs[i] == e[i + k];
        if i == 0 {
          assert q[n - 1] == polygon[if k == 0 then n - 1 else k - 1];
        }
      } else {
        assert rhs[i] == e[i - (n - k)];
      }
    }
  }

  /** The even-odd result does not depend on which vertex the list starts at. */
  lemma RotationInvariant(x: real, y: real, polygon: seq<Point>, k: nat)
    requires k <= |polygon|
    ensures InPolygon(x, y, Rotated(polygon, k)) == InPolygon(x, y, polygon)
  {
    var e := Edges(polygon);
    if k == |polygon| {
      assert Rotated(polygon, k) == polygon;
    } else {
      EdgesRotated(polygon, k);
      CrossingsAppend(x, y, e[k..], e[..k]);
      CrossingsAppend(x, y, e[..k], e[k..]);
      assert e[..k] + e[k..] == e;
    }
  }

  // ---------------------------------------------------------------------
  // Square polygon
  // ---------------------------------------------------------------------

  /** `createSquarePolygon`: the corners top-left, top-right, bottom-right, bottom-left. */
  function SquarePolygon(centerX: real, centerY: real, size: real): (r: seq<Point>)
    ensures |r| == 4
  {
    var half := size / 2.0;
    [ Point(centerX - half, centerY - half),
      Point(centerX + half, centerY - half),
      Point(centerX + half, centerY + half),
      Point(centerX - half, centerY + half) ]
  }

  /**
   * The even-odd test on a square of positive size is the half-open box
   * test: left and top edges belong to the square, right and bottom do not.
   */
  lemma SquareMembership(x: real, y: real, centerX: real, centerY: real, size: real)
    requires size > 0.0
    ensures InPolygon(x, y, SquarePolygon(centerX, centerY, size))
        <==> centerX - size / 2.0 <= x < centerX + size / 2.0
             && centerY - size / 2.0 <= y < centerY + size / 2.0
  {
    var h := size / 2.0;
    var sq := SquarePolygon(centerX, centerY, size);
    var e := Edges(sq);
    assert e[0] == Edge(sq[0], sq[3]);
    assert e[1] == Edge(sq[1], sq[0]);
    assert e[2] == Edge(sq[2], sq[1]);
    assert e[3] == Edge(sq[3], sq[2]);
    assert e[..4] == e;
    assert e[..4][..3] == e[..3];
    assert e[..3][..2] == e[..2];
    assert e[..2][..1] == e[..1];
    assert e[..1][..0] == [];
    var inBand := centerY - h <= y < centerY + h;
    InterceptVertical(centerX - h, centerY - h, centerY + h, y);
    InterceptVertical(centerX + h, centerY + h, centerY - h, y);
    var c0 := if inBand && x < centerX - h then 1 else 0;
    var c2 := if inBand && x < centerX + h then 1 else 0;
    assert Crosses(x, y, e[0]) <==> c0 == 1;
    assert !Crosses(x, y, e[1]);
    assert Crosses(x, y, e[2]) <==> c2 == 1;
    assert !Crosses(x, y, e[3]);
    assert Crossings(x, y, e[..1]) == c0;
    assert Crossings(x, y, e[..2]) == c0;
    assert Crossings(x, y, e[..3]) == c0 + c2;
    assert Crossings(x, y, e) == c0 + c2;
  }

  // ---------------------------------------------------------------------
  // Point to segment distance
  // ---------------------------------------------------------------------

  function SquaredDistance(a: Point, b: Point): (r: real)
  {
    (a.x - b.x) * (a.x - b.x) + (a.y - b.y) * (a.y - b.y)
  }

  /** The point at parameter t along the segment from (x1, y1) to (x2, y2). */
  function PointAt(x1: real, y1: real, x2: real, y2: real, t: real): Point
  {
    Point(x1 + t * (x2 - x1), y1 + t * (y2 - y1))
  }

  /** `dot`: the click's offset from (x1, y1) projected on the segment's direction. */
  function Dot(x: real, y: real, x1: real, y1: real, x2: real, y2: real): real
  {
    (x - x1) * (x2 - x1) + (y - y1) * (y2 - y1)
  }

  /** `lenSq`: the squared length of the segment. */
  function LenSq(x1: real, y1: real, x2: real, y2: real): real
  {
    (x2 - x1) * (x2 - x1) + (y2 - y1) * (y2 - y1)
  }

  /** The projection parameter `param`: -1 for a zero-length segment. */
  function ProjectionParam(x: real, y: real, x1: real, y1: real, x2: real, y2: real): real
  {
    var lenSq := LenSq(x1, y1, x2, y2);
    if lenSq != 0.0 then Dot(x, y, x1, y1, x2, y2) / lenSq else -1.0
  }

  /** The clamped nearest point (xx, yy). */
  function NearestPoint(x: real, y: real, x1: real, y1: real, x2: real, y2: real): Point
  {
    var param := ProjectionParam(x, y, x1, y1, x2, y2);
    if param < 0.0 then Point(x1, y1)
    else if param > 1.0 then Point(x2, y2)
    else Point(x1 + param * (x2 - x1), y1 + (y2 - y1) * param)
  }

  /** `pointToLineDistance`, squared. */
  function SegmentDistanceSq(x: real, y: real, x1: real, y1: real, x2: real, y2: real): (r: real)
    ensures r >= 0.0
  {
    SquaredDistance(Point(x, y), NearestPoint(x, y, x1, y1, x2, y2))
  }

  /** The projection parameter clamped to [0, 1]. */
  function Clamp01(p: real): real
  {
    if p < 0.0 then 0.0 else if p > 1.0 then 1.0 else p
  }

  /** The nearest point is the point of the segment at the projection parameter clamped to [0, 1]. */
  lemma NearestPointOnSegment(x: real, y: real, x1: real, y1: real, x2: real, y2: real)
    ensures NearestPoint(x, y, x1, y1, x2, y2)
         == PointAt(x1, y1, x2, y2, Clamp01(ProjectionParam(x, y, x1, y1, x2, y2)))
  {
  }

  /** f(u) = a2 - 2 u dot + u^2 len, the squared distance to the point at parameter u. */
  function Quadratic(a2: real, dot: real, len: real, u: real): real
  {
    a2 - 2.0 * u * dot + u * u * len
  }

  /** The squared distance to the point at parameter u, as the quadratic. */
  lemma DistanceAsQuadratic(x: real, y: real, x1: real, y1: real, x2: real, y2: real, u: real)
    ensures SquaredDistance(Point(x, y), PointAt(x1, y1, x2, y2, u))
         == Quadratic(SquaredDistance(Point(x, y), Point(x1, y1)), Dot(x, y, x1, y1, x2, y2), LenSq(x1, y1, x2, y2), u)
  {
    var q := PointAt(x1, y1, x2, y2, u);
    OffsetQuadratic(x - x1, y - y1, x2 - x1, y2 - y1, u, x - q.x, y - q.y,
      SquaredDistance(Point(x, y), q), SquaredDistance(Point(x, y), Point(x1, y1)),
      Dot(x, y, x1, y1, x2, y2), LenSq(x1, y1, x2, y2));
  }

  /** QuadraticSum, for values already known to be the offsets and their products. */
  lemma OffsetQuadratic(ax: real, ay: real, c: real, d: real, u: real, px: real, py: real,
                        dist: real, a2: real, dot: real, len: real)
    requires px == ax - u * c && py == ay - u * d
    requires dist == px * px + py * py && a2 == ax * ax + ay * ay
    requires dot == ax * c + ay * d && len == c * c + d * d
    ensures dist == Quadratic(a2, dot, len, u)
  {
    QuadraticSum(ax, ay, c, d, u);
  }

  /** The sum of the two squared coordinate offsets, as the quadratic in u. */
  lemma QuadraticSum(ax: real, ay: real, c: real, d: real, u: real)
    ensures (ax - u * c) * (ax - u * c) + (ay - u * d) * (ay - u * d)
         == Quadratic(ax * ax + ay * ay, ax * c + ay * d, c * c + d * d, u)
  {
    SquareExpand(ax, c, u);
    SquareExpand(ay, d, u);
    assert 2.0 * u * (ax * c + ay * d) == 2.0 * u * (ax * c) + 2.0 * u * (ay * d);
    assert u * u * (c * c + d * d) == u * u * (c * c) + u * u * (d * d);
  }

  /** (a - u c)^2 expanded. */
  lemma SquareExpand(a: real, c: real, u: real)
    ensures (a - u * c) * (a - u * c) == a * a - 2.0 * u * (a * c) + u * u * (c * c)
  {
  }

  /** The squared length is never negative, and when it is zero so is the projection. */
  lemma LenSqFacts(x: real, y: real, x1: real, y1: real, x2: real, y2: real)
    ensures LenSq(x1, y1, x2, y2) >= 0.0
    ensures LenSq(x1, y1, x2, y2) == 0.0 ==> x1 == x2 && y1 == y2 && Dot(x, y, x1, y1, x2, y2) == 0.0
  {
    SquareZero(x2 - x1, y2 - y1);
  }

  /** Projection below 0: on [0, 1] the quadratic is least at 0. */
  lemma QuadraticLeastAtZero(a2: real, dot: real, len: real, t: real)
    requires len > 0.0 && dot < 0.0 && 0.0 <= t
    ensures Quadratic(a2, dot, len, 0.0) <= Quadratic(a2, dot, len, t)
  {
    assert Quadratic(a2, dot, len, t) - Quadratic(a2, dot, len, 0.0) == t * (t * len - 2.0 * dot);
    assert t * len >= 0.0;
  }

  /** Projection above 1: on [0, 1] the quadratic is least at 1. */
  lemma QuadraticLeastAtOne(a2: real, dot: real, len: real, t: real)
    requires len > 0.0 && dot > len && t <= 1.0
    ensures Quadratic(a2, dot, len, 1.0) <= Quadratic(a2, dot, len, t)
  {
    assert Quadratic(a2, dot, len, t) - Quadratic(a2, dot, len, 1.0)
        == (1.0 - t) * (2.0 * dot - (t + 1.0) * len);
    assert (t + 1.0) * len <= 2.0 * len;
  }

  /** Projection inside [0, 1]: the quadratic is least at the projection itself. */
  lemma QuadraticLeastAtParam(a2: real, dot: real, len: real, p: real, t: real)
    requires len > 0.0 && dot == p * len
    ensures Quadratic(a2, dot, len, p) <= Quadratic(a2, dot, len, t)
  {
    assert Quadratic(a2, dot, len, t) - Quadratic(a2, dot, len, p) == len * ((t - p) * (t - p));
    assert (t - p) * (t - p) >= 0.0;
  }

  /** Dividing and multiplying back by the same non-zero number is the identity. */
  lemma DivTimes(m: real, d: real)
    requires d != 0.0
    ensures (m / d) * d == m
  {
  }

  /** Signs of p * len for positive len. */
  lemma ProductSign(p: real, len: real)
    requires len > 0.0
    ensures p < 0.0 ==> p * len < 0.0
    ensures p > 1.0 ==> p * len > len
  {
    if p > 1.0 {
      assert p * len - len == (p - 1.0) * len;
    }
  }

  /** On [0, 1] the quadratic is least at the clamped projection parameter. */
  lemma QuadraticLeastAtClamp(a2: real, dot: real, len: real, t: real)
    requires len >= 0.0 && (len == 0.0 ==> dot == 0.0) && 0.0 <= t <= 1.0
    ensures var p := if len != 0.0 then dot / len else -1.0;
            Quadratic(a2, dot, len, Clamp01(p)) <= Quadratic(a2, dot, len, t)
  {
    if len != 0.0 {
      var p := dot / len;
      DivTimes(dot, len);
      assert dot == p * len;
      ProductSign(p, len);
      if p < 0.0 {
        QuadraticLeastAtZero(a2, dot, len, t);
      } else if p > 1.0 {
        QuadraticLeastAtOne(a2, dot, len, t);
      } else {
        QuadraticLeastAtParam(a2, dot, len, p, t);
      }
    }
  }

  /**
   * The clamped projection really is the nearest point: no point of the
   * segment is closer to (x, y).
   */
  lemma SegmentDistanceMinimal(x: real, y: real, x1: real, y1: real, x2: real, y2: real, t: real)
    requires 0.0 <= t <= 1.0
    ensures SegmentDistanceSq(x, y, x1, y1, x2, y2) <= SquaredDistance(Point(x, y), PointAt(x1, y1, x2, y2, t))
  {
    var p := ProjectionParam(x, y, x1, y1, x2, y2);
    NearestPointOnSegment(x, y, x1, y1, x2, y2);
    DistanceAsQuadratic(x, y, x1, y1, x2, y2, Clamp01(p));
    DistanceAsQuadratic(x, y, x1, y1, x2, y2, t);
    LenSqFacts(x, y, x1, y1, x2, y2);
    QuadraticLeastAtClamp(SquaredDistance(Point(x, y), Point(x1, y1)), Dot(x, y, x1, y1, x2, y2), LenSq(x1, y1, x2, y2), t);
  }

  /** Every point of the segment, both endpoints included, is at distance 0. */
  lemma OnSegmentZero(x1: real, y1: real, x2: real, y2: real, t: real)
    requires 0.0 <= t <= 1.0
    ensures var q := PointAt(x1, y1, x2, y2, t);
            SegmentDistanceSq(q.x, q.y, x1, y1, x2, y2) == 0.0
  {
    var q := PointAt(x1, y1, x2, y2, t);
    SegmentDistanceMinimal(q.x, q.y, x1, y1, x2, y2, t);
  }

  /** The endpoints themselves are at distance 0. */
  lemma EndpointsZero(x1: real, y1: real, x2: real, y2: real)
    ensures SegmentDistanceSq(x1, y1, x1, y1, x2, y2) == 0.0
    ensures SegmentDistanceSq(x2, y2, x1, y1, x2, y2) == 0.0
  {
    OnSegmentZero(x1, y1, x2, y2, 0.0);
    OnSegmentZero(x1, y1, x2, y2, 1.0);
    assert PointAt(x1, y1, x2, y2, 0.0) == Point(x1, y1);
    assert PointAt(x1, y1, x2, y2, 1.0) == Point(x2, y2);
  }

  /** Distance 0 means the point is its own nearest point, which lies on the segment. */
  lemma ZeroMeansOnSegment(x: real, y: real, x1: real, y1: real, x2: real, y2: real)
    requires SegmentDistanceSq(x, y, x1, y1, x2, y2) == 0.0
    ensures Point(x, y) == NearestPoint(x, y, x1, y1, x2, y2)
  {
    var n := NearestPoint(x, y, x1, y1, x2, y2);
    SquareZero(x - n.x, y - n.y);
  }

  /** A square is never negative. */
  lemma SquareNonNegative(a: real)
    ensures a * a >= 0.0
  {
    if a < 0.0 {
      assert a * a == (-a) * (-a);
    }
  }

  /** A square vanishes only at zero. */
  lemma SquareZeroOne(a: real)
    ensures a * a == 0.0 ==> a == 0.0
  {
    if a != 0.0 {
      var inv := 1.0 / a;
      assert a * inv == 1.0;
      assert (a * a) * inv == a * (a * inv);
    }
  }

  /** A sum of two squares vanishes only when both terms do. */
  lemma SquareZero(a: real, b: real)
    ensures a * a + b * b == 0.0 ==> a == 0.0 && b == 0.0
  {
    SquareNonNegative(a);
    SquareNonNegative(b);
    if a * a + b * b == 0.0 {
      assert a * a == 0.0 && b * b == 0.0;
      SquareZeroOne(a);
      SquareZeroOne(b);
    }
  }

  /** A zero-length segment is measured as the distance to its one point. */
  lemma ZeroLengthSegment(x: real, y: real, x1: real, y1: real)
    ensures SegmentDistanceSq(x, y, x1, y1, x1, y1) == SquaredDistance(Point(x, y), Point(x1, y1))
  {
  }

  // ---------------------------------------------------------------------
  // Grid snapping
  // ---------------------------------------------------------------------

  /** `Math.round`: the nearest integer, halves rounded up. */
  function Round(v: real): (r: int)
    ensures v - 0.5 < r as real <= v + 0.5
  {
    (v + 0.5).Floor
  }

  /** One coordinate of `snapToGrid`. */
  function Snap(v: real, gridSize: real): real
    requires gridSize != 0.0
  {
    Round(v / gridSize) as real * gridSize
  }

  /** `snapToGrid`. */
  function SnapToGrid(x: real, y: real, gridSize: real): Point
    requires gridSize != 0.0
  {
    Point(Snap(x, gridSize), Snap(y, gridSize))
  }

  /** v is an integer multiple of g. */
  predicate IsMultiple(v: real, g: real)
    requires g != 0.0
  {
    (v / g).Floor as real == v / g
  }

  /** A snapped coordinate is a multiple of the grid. */
  lemma SnapIsMultiple(v: real, g: real)
    requires g != 0.0
    ensures IsMultiple(Snap(v, g), g)
  {
    var r := Round(v / g);
    assert Snap(v, g) == r as real * g;
    SnapOfMultiple(r, g);
  }

  /** A snapped coordinate is within half a grid unit of the input. */
  lemma SnapWithinHalf(v: real, g: real)
    requires g > 0.0
    ensures Abs(Snap(v, g) - v) <= g / 2.0
  {
    NearestInteger(v / g, Round(v / g), Round(v / g));
    WithinHalf(v, g, Round(v / g) as real);
  }

  /** No multiple of the grid is closer to the input than the snapped coordinate. */
  lemma SnapNearest(v: real, g: real, k: int)
    requires g > 0.0
    ensures Abs(Snap(v, g) - v) <= Abs(k as real * g - v)
  {
    var q := v / g;
    var r := Round(q);
    NearestInteger(q, r, k);
    CloserOf(v, g, q, r as real, k as real, Snap(v, g), k as real * g);
  }

  /** CloserMultiple, for values q, s and bg already known to be v / g, a * g and b * g. */
  lemma CloserOf(v: real, g: real, q: real, a: real, b: real, s: real, bg: real)
    requires g > 0.0 && q == v / g && Abs(a - q) <= Abs(b - q)
    requires s == a * g && bg == b * g
    ensures Abs(s - v) <= Abs(bg - v)
  {
    CloserMultiple(v, g, a, b);
  }

  /** An integer within half a unit of q is at least as close to q as any other integer. */
  lemma NearestInteger(q: real, r: int, k: int)
    requires q - 0.5 < r as real <= q + 0.5
    ensures Abs(r as real - q) <= 0.5
    ensures Abs(r as real - q) <= Abs(k as real - q)
  {
    if k > r {
      assert k as real >= r as real + 1.0;
    } else if k < r {
      assert k as real <= r as real - 1.0;
    }
  }

  /** Measured in grid units or in coordinates, the distance from a * g to v is the same. */
  lemma ScaledDistance(v: real, g: real, a: real)
    requires g > 0.0
    ensures Abs(a * g - v) == Abs(a - v / g) * g
  {
    var q := v / g;
    DivTimes(v, g);
    assert a * g - v == (a - q) * g;
    ScaleAbs(a - q, g);
  }

  /** Scaling by a positive grid keeps which of two values is closer to v / g. */
  lemma CloserMultiple(v: real, g: real, a: real, b: real)
    requires g > 0.0
    requires Abs(a - v / g) <= Abs(b - v / g)
    ensures Abs(a * g - v) <= Abs(b * g - v)
  {
    ScaledDistance(v, g, a);
    ScaledDistance(v, g, b);
    ScaleMonotone(Abs(a - v / g), Abs(b - v / g), g);
  }

  /** Within half a unit of v / g, scaled by the grid: within half a grid unit of v. */
  lemma WithinHalf(v: real, g: real, a: real)
    requires g > 0.0
    requires Abs(a - v / g) <= 0.5
    ensures Abs(a * g - v) <= g / 2.0
  {
    ScaledDistance(v, g, a);
    HalfScaled(Abs(a - v / g), g, Abs(a * g - v), g / 2.0);
  }

  /** A value at most a half, scaled by a positive g, is at most g / 2 (e and h stand for d * g and g / 2). */
  lemma HalfScaled(d: real, g: real, e: real, h: real)
    requires g > 0.0 && d <= 0.5
    requires e == d * g && h == g / 2.0
    ensures e <= h
  {
    ScaleMonotone(d, 0.5, g);
  }

  /** Abs commutes with scaling by a positive number. */
  lemma ScaleAbs(d: real, g: real)
    requires g > 0.0
    ensures Abs(d * g) == Abs(d) * g
  {
    if d < 0.0 {
      assert d * g == -((-d) * g);
    }
  }

  /** Multiplying by a positive number keeps the order. */
  lemma ScaleMonotone(a: real, b: real, g: real)
    requires g > 0.0
    ensures a <= b ==> a * g <= b * g
  {
  }

  /** A coordinate that is already a multiple of the grid is left alone. */
  lemma SnapOfMultiple(k: int, g: real)
    requires g != 0.0
    ensures IsMultiple(k as real * g, g)
    ensures Snap(k as real * g, g) == k as real * g
  {
    assert (k as real * g) / g == k as real;
    assert Round(k as real) == k;
  }

  /** Snapping twice is snapping once. */
  lemma SnapIdempotent(v: real, g: real)
    requires g != 0.0
    ensures Snap(Snap(v, g), g) == Snap(v, g)
  {
    var r := Round(v / g);
    var s := r as real * g;
    assert Snap(v, g) == s;
    SnapOfMultiple(r, g);
    assert Snap(s, g) == s;
  }

  /** `clickInSquare`: the click is within `Limit` of the table on both axes. */
  predicate ClickInSquare(tableX: real, tableY: real, clickX: real, clickY: real)
  {
    Abs(tableX - clickX) <= Limit && Abs(tableY - clickY) <= Limit
  }
}
