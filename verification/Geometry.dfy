/** Points, triangles and the orientation test of the volumetric exporter. */
module Geometry {
  import opened Numeric

  datatype Point = Point(x: real, y: real, z: real)

  datatype Triangle = Triangle(a: nat, b: nat, c: nat)

  /** Twice the signed area of the triangle p, q, (x, y). */
  ghost function Orient(p: Point, q: Point, x: real, y: real): real {
    Times(q.x - p.x, y - p.y) - Times(q.y - p.y, x - p.x)
  }

  lemma OrientIs(p: Point, q: Point, x: real, y: real)
    ensures Orient(p, q, x, y) == (q.x - p.x) * (y - p.y) - (q.y - p.y) * (x - p.x)
  {
    TimesIs(q.x - p.x, y - p.y);
    TimesIs(q.y - p.y, x - p.x);
  }

  ghost predicate InRange(points: seq<Point>, t: Triangle) {
    t.a < |points| && t.b < |points| && t.c < |points|
  }

  ghost function SignedArea(points: seq<Point>, t: Triangle): real
    requires InRange(points, t)
  {
    Orient(points[t.a], points[t.b], points[t.c].x, points[t.c].y)
  }

  /** (x, y) lies in the closed triangle: on the left of, or on, each of its directed edges. */
  ghost predicate Inside(points: seq<Point>, t: Triangle, x: real, y: real) {
    && InRange(points, t)
    && Orient(points[t.a], points[t.b], x, y) >= 0.0
    && Orient(points[t.b], points[t.c], x, y) >= 0.0
    && Orient(points[t.c], points[t.a], x, y) >= 0.0
  }

  /** (x, y) lies in the open triangle. */
  ghost predicate Interior(points: seq<Point>, t: Triangle, x: real, y: real) {
    && InRange(points, t)
    && Orient(points[t.a], points[t.b], x, y) > 0.0
    && Orient(points[t.b], points[t.c], x, y) > 0.0
    && Orient(points[t.c], points[t.a], x, y) > 0.0
  }

  ghost predicate Covered(points: seq<Point>, triangles: seq<Triangle>, x: real, y: real) {
    exists t :: t in triangles && Inside(points, t, x, y)
  }

  ghost predicate InteriorsDisjoint(points: seq<Point>, triangles: seq<Triangle>) {
    forall i, j, x, y :: 0 <= i < j < |triangles| ==>
      !(Interior(points, triangles[i], x, y) && Interior(points, triangles[j], x, y))
  }

  /** u is t with its last two vertices exchanged or not. */
  ghost predicate SameVertices(t: Triangle, u: Triangle) {
    u == t || u == Triangle(t.a, t.c, t.b)
  }

  /** The area of the candidate is too small for the exporter's comparison with zero. */
  ghost predicate BelowTolerance(points: seq<Point>, t: Triangle)
    requires InRange(points, t)
  {
    -TOLERANCE <= SignedArea(points, t) <= TOLERANCE
  }

  /** What the exporter pushes for a candidate triangle: nothing when its area is below the
      tolerance, otherwise the candidate with its vertices in counter-clockwise order. */
  ghost function Oriented(points: seq<Point>, t: Triangle): (pushed: seq<Triangle>)
    requires InRange(points, t)
    ensures pushed == [] <==> BelowTolerance(points, t)
    ensures |pushed| <= 1
  {
    if BelowTolerance(points, t) then []
    else if SignedArea(points, t) < 0.0 then [Triangle(t.a, t.c, t.b)]
    else [t]
  }

  /** A pushed triangle has the candidate's vertices, and whatever the input its signed area is the
      magnitude of the candidate's, hence positive and above the tolerance. */
  lemma PushedIsPositive(points: seq<Point>, t: Triangle, u: Triangle)
    requires InRange(points, t) && u in Oriented(points, t)
    ensures InRange(points, u) && SameVertices(t, u) && Oriented(points, t) == [u]
    ensures SignedArea(points, u) == Abs(SignedArea(points, t)) > TOLERANCE
  {
    AreaFlip(points[t.a], points[t.b], points[t.c]);
  }

  lemma AreaFlip(a: Point, b: Point, c: Point)
    ensures Orient(a, c, b.x, b.y) == -Orient(a, b, c.x, c.y)
  {
    OrientIs(a, b, c.x, c.y);
    OrientIs(a, c, b.x, b.y);
  }

  /** The triangle list after one call of the exporter's `add_triangle`. */
  ghost function Pushed(points: seq<Point>, triangles: seq<Triangle>, t: Triangle): seq<Triangle>
    requires InRange(points, t)
  {
    triangles + Oriented(points, t)
  }

  method AddTriangle(points: seq<Point>, triangles: seq<Triangle>, a: nat, b: nat, c: nat)
    returns (extended: seq<Triangle>)
    requires a < |points| && b < |points| && c < |points|
    ensures extended == Pushed(points, triangles, Triangle(a, b, c))
  {
    var b', c' := b, c;
    var signedArea := (points[b].x - points[a].x) * (points[c].y - points[a].y)
                    - (points[b].y - points[a].y) * (points[c].x - points[a].x);
    OrientIs(points[a], points[b], points[c].x, points[c].y);
    assert signedArea == SignedArea(points, Triangle(a, b, c));
    NearZero(signedArea);
    extended := triangles;
    if ApproximatelyEqual(signedArea, 0.0) {
      return;
    }
    if signedArea < 0.0 {
      b', c' := c', b';
    }
    extended := extended + [Triangle(a, b', c')];
  }

  // ----- A strip of constant-height rows, seen at one height -----

  /** The x coordinate at which the segment from (l, y0) to (u, y1) crosses relative height t. */
  ghost function At(l: real, u: real, t: real): real {
    l + Times(t, u - l)
  }

  /** Orientation against an edge of height h, of a point at relative height t along it: on which side
      of the edge the point lies. */
  lemma OrientUp(p: Point, q: Point, h: real, t: real, x: real, y: real)
    requires q.y - p.y == h && y - p.y == Times(t, h)
    ensures h > 0.0 ==> (Orient(p, q, x, y) >= 0.0 <==> x <= At(p.x, q.x, t))
    ensures h > 0.0 ==> (Orient(p, q, x, y) <= 0.0 <==> x >= At(p.x, q.x, t))
    ensures h < 0.0 ==> (Orient(p, q, x, y) >= 0.0 <==> x >= At(p.x, q.x, t))
    ensures h < 0.0 ==> (Orient(p, q, x, y) <= 0.0 <==> x <= At(p.x, q.x, t))
  {
    if h != 0.0 {
      var s := At(p.x, q.x, t) - x;
      TimesIs(t, h);
      TimesIs(t, q.x - p.x);
      OrientIs(p, q, x, y);
      calc {
        Orient(p, q, x, y);
        (q.x - p.x) * (t * h) - h * (x - p.x);
        h * (t * (q.x - p.x) + p.x - x);
        h * s;
      }
      ScaleSign(h, s);
    }
  }

  /** Orientation against a horizontal edge pointing right: above it or below it. */
  lemma OrientLevel(a: Point, b: Point, x: real, y: real)
    requires a.y == b.y && a.x < b.x
    ensures Orient(a, b, x, y) >= 0.0 <==> y >= a.y
    ensures Orient(a, b, x, y) <= 0.0 <==> y <= a.y
  {
    OrientIs(a, b, x, y);
    ScaleSign(b.x - a.x, y - a.y);
  }

  lemma OrientFlip(p: Point, q: Point, x: real, y: real)
    ensures Orient(q, p, x, y) == -Orient(p, q, x, y)
  {
    var dx, dy, ex, ey := q.x - p.x, q.y - p.y, x - p.x, y - p.y;
    OrientIs(p, q, x, y);
    OrientIs(q, p, x, y);
    calc {
      Orient(q, p, x, y);
      (-dx) * (ey - dy) + dy * (ex - dx);
      -(dx * ey - dy * ex);
    }
  }

  lemma ScaleSign(h: real, s: real)
    requires h != 0.0
    ensures h > 0.0 ==> (h * s > 0.0 <==> s > 0.0) && (h * s >= 0.0 <==> s >= 0.0)
    ensures h < 0.0 ==> (h * s > 0.0 <==> s < 0.0) && (h * s >= 0.0 <==> s <= 0.0)
  {
  }
}
