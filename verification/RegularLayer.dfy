/** Layers whose rows are level and rise, with gaps and heights bounded below: they are tiled and conforming,
    and their areas add up. */
module RegularLayer {
  import opened Numeric
  import opened Geometry
  import opened Strip
  import opened Walk
  import opened LayerMesh
  import opened Conformity
  import opened GridLattice
  import opened GridRecovery
  import opened GridMesh

  /** The row is level, and later points are at least w further right. */
  ghost predicate RegularRow(points: seq<Point>, row: Row, w: real) {
    && ValidRow(points, row)
    && (forall k :: row.begin <= k < row.end ==> points[k].y == RowHeight(points, row))
    && (forall k, l :: row.begin <= k < l < row.end ==> points[l].x - points[k].x >= w)
  }

  ghost predicate RisesBy(points: seq<Point>, lower: Row, upper: Row, h: real) {
    ValidRow(points, lower) && ValidRow(points, upper) && StripHeight(points, lower, upper) >= h
  }

  /** All rows are regular, and later rows are at least h higher. */
  ghost predicate Regular(points: seq<Point>, rows: seq<Row>, w: real, h: real) {
    && w > 0.0 && h > 0.0
    && (forall r :: 0 <= r < |rows| ==> RegularRow(points, rows[r], w))
    && (forall r, s :: 0 <= r < s < |rows| ==> RisesBy(points, rows[r], rows[s], h))
  }

  lemma RegularIsFlat(points: seq<Point>, rows: seq<Row>, w: real, h: real)
    requires Regular(points, rows, w, h)
    ensures FlatLayer(points, rows)
  {
    forall r | 0 <= r < |rows|
      ensures ValidRow(points, rows[r]) && Flat(points, rows[r].begin, rows[r].end, RowHeight(points, rows[r]))
    {
      assert RegularRow(points, rows[r], w);
    }
    forall r, s | 0 <= r < s < |rows|
      ensures RowHeight(points, rows[r]) < RowHeight(points, rows[s])
    {
      assert RisesBy(points, rows[r], rows[s], h);
    }
  }

  lemma WideIsKept(w: real, h: real, v: real, k: real)
    requires Times(w, h) > TOLERANCE && w > 0.0 && h > 0.0 && v >= w && k >= h
    ensures KeptGap(v, k)
  {
    TimesGrows(w, h, k);
    TimesIs(w, k);
    TimesIs(v, k);
    assert (v - w) * k >= 0.0;
  }

  lemma RegularRowIsKept(points: seq<Point>, row: Row, w: real, h: real, height: real)
    requires RegularRow(points, row, w) && w > 0.0 && h > 0.0 && Times(w, h) > TOLERANCE && height >= h
    ensures GapsAboveTolerance(points, row, height)
  {
    forall k | row.begin <= k < row.end - 1
      ensures KeptGapAt(points, k, height)
    {
      WideIsKept(w, h, points[k + 1].x - points[k].x, height);
    }
  }

  lemma RegularIsKept(points: seq<Point>, rows: seq<Row>, w: real, h: real)
    requires Regular(points, rows, w, h) && Times(w, h) > TOLERANCE
    ensures ValidRows(points, rows) && AllStripsKept(points, rows)
  {
    RegularIsFlat(points, rows, w, h);
    forall r | 0 <= r < |rows| - 1
      ensures StripKept(points, rows, r)
    {
      var s := r + 1;
      assert RisesBy(points, rows[r], rows[s], h) && RegularRow(points, rows[r], w) && RegularRow(points, rows[s], w);
      RegularRowIsKept(points, rows[r], w, h, StripHeight(points, rows[r], rows[s]));
      RegularRowIsKept(points, rows[s], w, h, StripHeight(points, rows[r], rows[s]));
    }
  }

  lemma KeptIsComplete(points: seq<Point>, rows: seq<Row>)
    requires FlatLayer(points, rows) && AllStripsKept(points, rows)
    ensures StripsComplete(points, rows)
  {
    forall r | 0 <= r < |rows| - 1
      ensures StripComplete(points, rows, r)
    {
      assert StripKept(points, rows, r);
      var lower, upper := rows[r], rows[r + 1];
      NoneDroppedExactlyWhen(points, StripPath(points, lower, upper), lower, upper, RowHeight(points, lower),
                             RowHeight(points, upper));
    }
  }

  /** Tiling: when the smallest triangle exceeds the tolerance, the triangles do not overlap and cover
      exactly the union of the strips. */
  lemma RegularTiling(points: seq<Point>, rows: seq<Row>, w: real, h: real)
    requires Regular(points, rows, w, h) && Times(w, h) > TOLERANCE
    ensures ValidRows(points, rows)
    ensures InteriorsDisjoint(points, LayerTriangles(points, rows))
    ensures forall x, y :: Covered(points, LayerTriangles(points, rows), x, y) <==> InLayer(points, rows, x, y)
  {
    RegularIsFlat(points, rows, w, h);
    RegularIsKept(points, rows, w, h);
    LayerTiling(points, rows);
  }

  lemma RegularArea(points: seq<Point>, rows: seq<Row>, w: real, h: real)
    requires Regular(points, rows, w, h) && Times(w, h) > TOLERANCE
    ensures ValidRows(points, rows)
    ensures TotalArea(points, LayerTriangles(points, rows)) == LayerArea(points, rows)
  {
    RegularIsFlat(points, rows, w, h);
    RegularIsKept(points, rows, w, h);
    LayerAreaConserved(points, rows);
  }
}
