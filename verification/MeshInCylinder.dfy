/** How the mesh of any generated grid lies in the cylinder: its triangles stay inside the disc, and never
    cover all of it, whether or not the generator moves a point onto the axis. */
module MeshInCylinder {
  import opened Numeric
  import opened Arithmetic
  import opened Geometry
  import opened LayerMesh
  import opened GridLattice
  import opened GridRecovery
  import opened GridMesh
  import opened LatticeAxis
  import opened Extrusion
  import opened GridVolume

  // ----- Points of a triangle are weighted means of its vertices -----

  ghost function WeightedSum(wa: real, a: real, wb: real, b: real, wc: real, c: real): real {
    Times(wa, a) + Times(wb, b) + Times(wc, c)
  }

  ghost predicate AreWeights(wa: real, wb: real, wc: real) {
    wa >= 0.0 && wb >= 0.0 && wc >= 0.0 && wa + wb + wc > 0.0
  }

  /** x is the mean of the three values with the given weights. */
  ghost predicate IsMean(x: real, wa: real, a: real, wb: real, b: real, wc: real, c: real) {
    Times(wa + wb + wc, x) == WeightedSum(wa, a, wb, b, wc, c)
  }

  /** The areas that (x, y) spans with the edges are the weights of the opposite vertices. */
  lemma Barycentric(a: Point, b: Point, c: Point, x: real, y: real)
    ensures var wa, wb, wc := Orient(b, c, x, y), Orient(c, a, x, y), Orient(a, b, x, y);
            && wa + wb + wc == Orient(a, b, c.x, c.y)
            && IsMean(x, wa, a.x, wb, b.x, wc, c.x)
            && IsMean(y, wa, a.y, wb, b.y, wc, c.y)
  {
    var wa, wb, wc := Orient(b, c, x, y), Orient(c, a, x, y), Orient(a, b, x, y);
    OrientIs(b, c, x, y);
    OrientIs(c, a, x, y);
    OrientIs(a, b, x, y);
    OrientIs(a, b, c.x, c.y);
    CrossProducts(a.x - x, a.y - y, b.x - x, b.y - y, c.x - x, c.y - y);
    MeanAround(wa, a.x, wb, b.x, wc, c.x, x);
    MeanAround(wa, a.y, wb, b.y, wc, c.y, y);
  }

  lemma CrossProducts(ax: real, ay: real, bx: real, bv: real, cx: real, cy: real)
    ensures var wa := (cx - bx) * -bv - (cy - bv) * -bx;
            var wb := (ax - cx) * -cy - (ay - cy) * -cx;
            var wc := (bx - ax) * -ay - (bv - ay) * -ax;
            && wa + wb + wc == (bx - ax) * (cy - ay) - (bv - ay) * (cx - ax)
            && wa * ax + wb * bx + wc * cx == 0.0
            && wa * ay + wb * bv + wc * cy == 0.0
  {
  }

  lemma MeanAround(wa: real, a: real, wb: real, b: real, wc: real, c: real, x: real)
    requires wa * (a - x) + wb * (b - x) + wc * (c - x) == 0.0
    ensures IsMean(x, wa, a, wb, b, wc, c)
  {
    TimesIs(wa, a);
    TimesIs(wb, b);
    TimesIs(wc, c);
    TimesIs(wa + wb + wc, x);
  }

  lemma Weighted(w: real, a: real, limit: real)
    requires w >= 0.0 && a <= limit
    ensures Times(w, a) <= Times(w, limit)
    ensures w > 0.0 && a < limit ==> Times(w, a) < Times(w, limit)
  {
    TimesAdds(w, a, limit - a);
    assert a + (limit - a) == limit;
    if w == 0.0 {
      TimesIs(w, limit - a);
    } else {
      TimesSign(w, limit - a);
    }
  }

  lemma WeightsShared(wa: real, wb: real, wc: real, limit: real)
    ensures WeightedSum(wa, limit, wb, limit, wc, limit) == Times(wa + wb + wc, limit)
  {
    TimesDistributes(wa, wb, limit);
    TimesDistributes(wa + wb, wc, limit);
  }

  lemma Unweighted(sum: real, x: real, limit: real)
    requires sum > 0.0
    ensures Times(sum, x) < Times(sum, limit) <==> x < limit
    ensures Times(sum, x) <= Times(sum, limit) <==> x <= limit
  {
    TimesIs(sum, x);
    TimesIs(sum, limit);
    ScaleSign(sum, limit - x);
    assert sum * (limit - x) == sum * limit - sum * x;
  }

  lemma MeanBelow(x: real, wa: real, a: real, wb: real, b: real, wc: real, c: real, limit: real)
    requires AreWeights(wa, wb, wc) && IsMean(x, wa, a, wb, b, wc, c)
    requires a < limit && b < limit && c < limit
    ensures x < limit
  {
    Weighted(wa, a, limit);
    Weighted(wb, b, limit);
    Weighted(wc, c, limit);
    WeightsShared(wa, wb, wc, limit);
    Unweighted(wa + wb + wc, x, limit);
  }

  lemma WeightedSquare(w: real, a: real, x: real)
    requires w >= 0.0
    ensures Times(w, Times(a, a)) + Times(w, Times(x, x)) >= Times(2.0 * x, Times(w, a))
  {
    var d := a - x;
    TimesIs(a, a);
    TimesIs(x, x);
    TimesIs(w, a * a);
    TimesIs(w, x * x);
    TimesIs(w, a);
    TimesIs(2.0 * x, w * a);
    Nonnegative(w, d * d);
    assert d * d == a * a - 2.0 * x * a + x * x;
  }

  lemma SquareTwice(sum: real, x: real)
    ensures Times(2.0 * x, Times(sum, x)) == 2.0 * Times(sum, Times(x, x))
  {
    TimesIs(x, x);
    TimesIs(sum, x);
    TimesIs(sum, x * x);
    TimesIs(2.0 * x, sum * x);
  }

  /** The square of a mean is at most the mean of the squares. */
  lemma SquareOfMeanOfThree(x: real, wa: real, a: real, wb: real, b: real, wc: real, c: real)
    requires AreWeights(wa, wb, wc) && IsMean(x, wa, a, wb, b, wc, c)
    ensures Times(wa + wb + wc, Times(x, x)) <= WeightedSum(wa, Times(a, a), wb, Times(b, b), wc, Times(c, c))
  {
    WeightedSquare(wa, a, x);
    WeightedSquare(wb, b, x);
    WeightedSquare(wc, c, x);
    WeightsShared(wa, wb, wc, Times(x, x));
    TimesAdds(2.0 * x, Times(wa, a), Times(wb, b));
    TimesAdds(2.0 * x, Times(wa, a) + Times(wb, b), Times(wc, c));
    SquareTwice(wa + wb + wc, x);
  }

  /** The squared distance from the axis. */
  ghost function Square(x: real, y: real): real {
    Times(x, x) + Times(y, y)
  }

  lemma WeightedLimit(w: real, x: real, y: real, limit: real)
    requires w >= 0.0 && Square(x, y) <= limit
    ensures Times(w, Times(x, x)) + Times(w, Times(y, y)) <= Times(w, limit)
  {
    TimesAdds(w, Times(x, x), Times(y, y));
    Weighted(w, Square(x, y), limit);
  }

  lemma MeanInDisc(x: real, y: real, wa: real, a: Point, wb: real, b: Point, wc: real, c: Point, limit: real)
    requires AreWeights(wa, wb, wc) && IsMean(x, wa, a.x, wb, b.x, wc, c.x) && IsMean(y, wa, a.y, wb, b.y, wc, c.y)
    requires Square(a.x, a.y) <= limit && Square(b.x, b.y) <= limit && Square(c.x, c.y) <= limit
    ensures Square(x, y) <= limit
  {
    SquareOfMeanOfThree(x, wa, a.x, wb, b.x, wc, c.x);
    SquareOfMeanOfThree(y, wa, a.y, wb, b.y, wc, c.y);
    WeightedLimit(wa, a.x, a.y, limit);
    WeightedLimit(wb, b.x, b.y, limit);
    WeightedLimit(wc, c.x, c.y, limit);
    WeightsShared(wa, wb, wc, limit);
    TimesAdds(wa + wb + wc, Times(x, x), Times(y, y));
    Unweighted(wa + wb + wc, Square(x, y), limit);
  }

  /** A triangle stays below any line above its vertices, and in any disc around the axis that holds them. */
  lemma TriangleStays(points: seq<Point>, t: Triangle, x: real, y: real, height: real, limit: real)
    requires Inside(points, t, x, y) && SignedArea(points, t) > 0.0
    requires forall v :: v in [t.a, t.b, t.c] ==> points[v].y < height && Square(points[v].x, points[v].y) <= limit
    ensures y < height && Square(x, y) <= limit
  {
    var a, b, c := points[t.a], points[t.b], points[t.c];
    Barycentric(a, b, c, x, y);
    var wa, wb, wc := Orient(b, c, x, y), Orient(c, a, x, y), Orient(a, b, x, y);
    MeanBelow(y, wa, a.y, wb, b.y, wc, c.y, height);
    MeanInDisc(x, y, wa, a, wb, b, wc, c, limit);
  }

  // ----- The points of a generated layer -----

  /** Every point of the layer lies in the disc and below its top, wherever the generator moved it. */
  lemma LayerPointInDisc(m: Trig, g: Grid, k: nat)
    requires Lawful(m) && ValidGrid(g) && StepY(m, g) > 0.0 && k < |FirstLayer(m, g)|
    ensures k < |GeneratedPoints(m, g)| && GeneratedPoints(m, g)[k].y < g.radius
    ensures InDisc(g, GeneratedPoints(m, g)[k].x, GeneratedPoints(m, g)[k].y)
  {
    var p := FirstLayer(m, g)[k];
    LayerIsClippedLattice(m, g, Z(g, 0), p);
    var row: int, column: int :| Visible(m, g, row, column) && p == LatticePoint(m, g, row, column, Z(g, 0));
    VisibleIsVisited(m, g, row, column);
    DiscBounds(g, p.x, p.y);
    RowsMissTop(m, g, row);
    GeneratedFirstLayer(m, g, k);
    RecoveredInDisc(m, g, p);
  }

  /** A point moved onto the axis keeps its distance from it. */
  lemma RecoveredInDisc(m: Trig, g: Grid, p: Point)
    requires Lawful(m) && g.radius > 0.0 && InDisc(g, p.x, p.y) && p.y < g.radius
    ensures InDisc(g, Recovered(m, p).x, Recovered(m, p).y) && Recovered(m, p).y < g.radius
  {
    RecoveredIs(m, p);
    assert IsDistance(m, p.x, p.y);
    TimesIs(0.0, 0.0);
  }

  /** A triangle of the layer, and a point in it. */
  lemma LatticeTriangleStays(m: Trig, g: Grid, t: Triangle, x: real, y: real)
    requires Lawful(m) && ValidGrid(g) && StepY(m, g) > 0.0 && t in LatticeTriangles(m, g)
    requires Inside(GeneratedPoints(m, g), t, x, y)
    ensures InDisc(g, x, y) && y < g.radius
  {
    GeneratedVertices(m, g);
    LatticeTriangleIsPositive(m, g, t);
    LayerPointInDisc(m, g, t.a);
    LayerPointInDisc(m, g, t.b);
    LayerPointInDisc(m, g, t.c);
    TriangleStays(GeneratedPoints(m, g), t, x, y, g.radius, Times(g.radius, g.radius));
  }

  lemma LatticeTriangleIsPositive(m: Trig, g: Grid, t: Triangle)
    requires Lawful(m) && ValidGrid(g) && StepY(m, g) > 0.0 && t in LatticeTriangles(m, g)
    ensures InRange(GeneratedPoints(m, g), t) && SignedArea(GeneratedPoints(m, g), t) > TOLERANCE
  {
    ListedRowsAreValid(m, g);
    TwoRowsNotEmpty(m, g);
    LatticeRowsFollow(m, g, VisitedRows(m, g));
    LayerFitsReservation(GeneratedPoints(m, g), AllRows(m, g));
  }

  /** The mesh of any generated grid never leaves the disc... */
  lemma MeshStaysInCylinder(m: Trig, g: Grid, x: real, y: real)
    requires Lawful(m) && ValidGrid(g) && StepY(m, g) > 0.0
    requires Covered(GeneratedPoints(m, g), LatticeTriangles(m, g), x, y)
    ensures InDisc(g, x, y)
  {
    var t :| t in LatticeTriangles(m, g) && Inside(GeneratedPoints(m, g), t, x, y);
    LatticeTriangleStays(m, g, t, x, y);
  }

  /** ... but it never fills it: the top of the disc is not covered, for any grid. */
  lemma CylinderIsNotFilled(m: Trig, g: Grid)
    requires Lawful(m) && ValidGrid(g) && StepY(m, g) > 0.0
    ensures InDisc(g, 0.0, g.radius) && !Covered(GeneratedPoints(m, g), LatticeTriangles(m, g), 0.0, g.radius)
  {
    TimesIs(0.0, 0.0);
    if Covered(GeneratedPoints(m, g), LatticeTriangles(m, g), 0.0, g.radius) {
      var t :| t in LatticeTriangles(m, g) && Inside(GeneratedPoints(m, g), t, 0.0, g.radius);
      LatticeTriangleStays(m, g, t, 0.0, g.radius);
    }
  }
}
