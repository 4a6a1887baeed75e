/** The triangulation of a whole XY layer, strip by strip: it tiles the layer, its areas add up, and
    it stays below the size the exporter reserves. */
module LayerMesh {
  import opened Numeric
  import opened Geometry
  import opened Strip
  import opened Walk

  ghost predicate ValidRows(points: seq<Point>, rows: seq<Row>) {
    forall r :: 0 <= r < |rows| ==> ValidRow(points, rows[r])
  }

  ghost function LayerTriangles(points: seq<Point>, rows: seq<Row>): seq<Triangle>
    requires ValidRows(points, rows)
  {
    if |rows| < 2 then [] else StripMesh(points, rows[0], rows[1]) + LayerTriangles(points, rows[1..])
  }

  /** The exporter's loop over adjacent rows. */
  method TriangulateLayer(points: seq<Point>, rows: seq<Row>) returns (triangles: seq<Triangle>)
    requires ValidRows(points, rows)
    ensures triangles == LayerTriangles(points, rows)
  {
    triangles := [];
    var row := 0;
    assert rows[0..] == rows;
    while row + 1 < |rows|
      invariant 0 <= row <= |rows|
      invariant row < |rows| || |rows| == 0
      invariant triangles + LayerTriangles(points, rows[row..]) == LayerTriangles(points, rows)
    {
      LayerUnfolds(points, rows, row, triangles);
      triangles := TriangulateStrip(points, triangles, rows[row], rows[row + 1]);
      row := row + 1;
    }
    assert LayerTriangles(points, rows[row..]) == [];
  }

  lemma LayerUnfolds(points: seq<Point>, rows: seq<Row>, row: nat, triangles: seq<Triangle>)
    requires ValidRows(points, rows) && row + 1 < |rows|
    ensures ValidRow(points, rows[row]) && ValidRow(points, rows[row + 1])
    ensures Finished(points, triangles, Diagonal(rows[row].begin, rows[row + 1].begin),
                     rows[row].end, rows[row + 1].end)
            + LayerTriangles(points, rows[row + 1..])
         == triangles + LayerTriangles(points, rows[row..])
  {
    var lower, upper := rows[row], rows[row + 1];
    assert rows[row..][1..] == rows[row + 1..];
    FinishedAppends(points, triangles, Diagonal(lower.begin, upper.begin), lower.end, upper.end);
    Reassociate(triangles, StripMesh(points, lower, upper), LayerTriangles(points, rows[row + 1..]));
  }

  // ----- Tiling of the whole layer -----

  ghost function RowHeight(points: seq<Point>, row: Row): real
    requires ValidRow(points, row)
  {
    points[row.begin].y
  }

  ghost function StripHeight(points: seq<Point>, lower: Row, upper: Row): real
    requires ValidRow(points, lower) && ValidRow(points, upper)
  {
    RowHeight(points, upper) - RowHeight(points, lower)
  }

  /** Every row has one height and strictly increasing x, and the rows rise. */
  ghost predicate FlatLayer(points: seq<Point>, rows: seq<Row>) {
    && ValidRows(points, rows)
    && (forall r :: 0 <= r < |rows| ==> Flat(points, rows[r].begin, rows[r].end, RowHeight(points, rows[r])))
    && (forall r, s :: 0 <= r < s < |rows| ==> RowHeight(points, rows[r]) < RowHeight(points, rows[s]))
  }

  /** Strip r holds a triangle and none of its gaps is too small. */
  ghost predicate StripKept(points: seq<Point>, rows: seq<Row>, r: nat)
    requires ValidRows(points, rows) && r + 1 < |rows|
  {
    && GapsAboveTolerance(points, rows[r], StripHeight(points, rows[r], rows[r + 1]))
    && GapsAboveTolerance(points, rows[r + 1], StripHeight(points, rows[r], rows[r + 1]))
  }

  ghost predicate AllStripsKept(points: seq<Point>, rows: seq<Row>)
    requires ValidRows(points, rows)
  {
    forall r :: 0 <= r < |rows| - 1 ==> StripKept(points, rows, r)
  }

  /** (x, y) lies in the trapezoid of strip r, which does not degenerate to a segment. */
  ghost predicate InStrip(points: seq<Point>, rows: seq<Row>, r: nat, x: real, y: real)
    requires ValidRows(points, rows) && r + 1 < |rows|
  {
    && (rows[r].begin + 1 < rows[r].end || rows[r + 1].begin + 1 < rows[r + 1].end)
    && InTrapezoid(points, rows[r], rows[r + 1], x, y)
  }

  ghost predicate InLayer(points: seq<Point>, rows: seq<Row>, x: real, y: real)
    requires ValidRows(points, rows)
  {
    exists r :: 0 <= r < |rows| - 1 && InStrip(points, rows, r, x, y)
  }

  lemma FlatHead(points: seq<Point>, rows: seq<Row>)
    requires FlatLayer(points, rows) && |rows| > 1
    ensures ValidRow(points, rows[0]) && ValidRow(points, rows[1])
    ensures RowHeight(points, rows[0]) < RowHeight(points, rows[1])
    ensures FlatStrip(points, rows[0], rows[1], RowHeight(points, rows[0]), RowHeight(points, rows[1]))
  {
  }

  lemma FlatTail(points: seq<Point>, rows: seq<Row>)
    requires FlatLayer(points, rows) && rows != []
    ensures FlatLayer(points, rows[1..])
  {
  }

  lemma KeptTail(points: seq<Point>, rows: seq<Row>)
    requires ValidRows(points, rows) && |rows| > 1 && AllStripsKept(points, rows)
    ensures StripKept(points, rows, 0) && AllStripsKept(points, rows[1..])
  {
    forall r | 0 <= r < |rows[1..]| - 1
      ensures StripKept(points, rows[1..], r)
    {
      assert StripKept(points, rows, r + 1);
    }
  }

  lemma InLayerTail(points: seq<Point>, rows: seq<Row>, x: real, y: real)
    requires ValidRows(points, rows) && |rows| > 1
    ensures InLayer(points, rows, x, y) <==> InStrip(points, rows, 0, x, y) || InLayer(points, rows[1..], x, y)
  {
    var tail := rows[1..];
    if InLayer(points, tail, x, y) {
      var r :| 0 <= r < |tail| - 1 && InStrip(points, tail, r, x, y);
      assert InStrip(points, rows, r + 1, x, y);
    }
    if InLayer(points, rows, x, y) {
      var r :| 0 <= r < |rows| - 1 && InStrip(points, rows, r, x, y);
      assert r > 0 ==> InStrip(points, tail, r - 1, x, y);
    }
  }

  /** The triangles of one strip stay between the heights of its rows. */
  lemma StripStaysBetween(points: seq<Point>, lower: Row, upper: Row, y0: real, y1: real, u: Triangle, x: real, y: real)
    requires ValidRow(points, lower) && ValidRow(points, upper) && FlatStrip(points, lower, upper, y0, y1) && y0 < y1
    requires u in StripMesh(points, lower, upper)
    ensures Inside(points, u, x, y) ==> y0 <= y <= y1
    ensures Interior(points, u, x, y) ==> y0 < y < y1
  {
    var path := StripPath(points, lower, upper);
    CrossingIsStaircase(points, path, lower, upper, y0, y1);
    TrianglesStaySpanned(points, path, y0, y1, u, x, y);
    BetweenHeights(y, y0, y1);
  }

  lemma BetweenHeights(y: real, y0: real, y1: real)
    requires y0 < y1
    ensures 0.0 <= RelativeHeight(y, y0, y1) <= 1.0 <==> y0 <= y <= y1
    ensures 0.0 < RelativeHeight(y, y0, y1) < 1.0 ==> y0 < y < y1
  {
    var t := RelativeHeight(y, y0, y1);
    HeightSigns(y1 - y0, t, y, y0);
  }

  /** The triangles above a row stay above it. */
  lemma {:induction false} LayerStaysAbove(points: seq<Point>, rows: seq<Row>, u: Triangle, x: real, y: real)
    requires FlatLayer(points, rows) && rows != [] && u in LayerTriangles(points, rows)
    ensures Inside(points, u, x, y) ==> RowHeight(points, rows[0]) <= y
    ensures Interior(points, u, x, y) ==> RowHeight(points, rows[0]) < y
  {
    if |rows| > 1 {
      FlatHead(points, rows);
      FlatTail(points, rows);
      if u in StripMesh(points, rows[0], rows[1]) {
        StripStaysBetween(points, rows[0], rows[1], RowHeight(points, rows[0]), RowHeight(points, rows[1]), u, x, y);
      } else {
        LayerStaysAbove(points, rows[1..], u, x, y);
      }
    }
  }

  lemma {:induction false} LayerDisjoint(points: seq<Point>, rows: seq<Row>)
    requires FlatLayer(points, rows)
    ensures InteriorsDisjoint(points, LayerTriangles(points, rows))
  {
    if |rows| > 1 {
      FlatHead(points, rows);
      FlatTail(points, rows);
      LayerDisjoint(points, rows[1..]);
      var y0, y1 := RowHeight(points, rows[0]), RowHeight(points, rows[1]);
      var path := StripPath(points, rows[0], rows[1]);
      CrossingIsStaircase(points, path, rows[0], rows[1], y0, y1);
      PathDisjoint(points, path, y0, y1);
      var first, rest := StripMesh(points, rows[0], rows[1]), LayerTriangles(points, rows[1..]);
      forall u, v, x, y | u in first && v in rest
        ensures !(Interior(points, u, x, y) && Interior(points, v, x, y))
      {
        StripStaysBetween(points, rows[0], rows[1], y0, y1, u, x, y);
        LayerStaysAbove(points, rows[1..], v, x, y);
      }
      ConcatDisjoint(points, first, rest);
    }
  }

  lemma CoveredConcat(points: seq<Point>, first: seq<Triangle>, rest: seq<Triangle>, x: real, y: real)
    ensures Covered(points, first + rest, x, y) <==> Covered(points, first, x, y) || Covered(points, rest, x, y)
  {
    if Covered(points, first, x, y) {
      var u :| u in first && Inside(points, u, x, y);
      assert u in first + rest;
    }
    if Covered(points, rest, x, y) {
      var u :| u in rest && Inside(points, u, x, y);
      assert u in first + rest;
    }
  }

  lemma CoveredIsInTrapezoid(points: seq<Point>, lower: Row, upper: Row, y0: real, y1: real, x: real, y: real)
    requires ValidRow(points, lower) && ValidRow(points, upper) && FlatStrip(points, lower, upper, y0, y1)
    requires Covered(points, StripMesh(points, lower, upper), x, y)
    ensures InTrapezoid(points, lower, upper, x, y)
    ensures lower.begin + 1 < lower.end || upper.begin + 1 < upper.end
  {
    var path := StripPath(points, lower, upper);
    CrossingIsStaircase(points, path, lower, upper, y0, y1);
    var u :| u in StripTriangles(points, path) && Inside(points, u, x, y);
    TrianglesStaySpanned(points, path, y0, y1, u, x, y);
    TrapezoidIsSpan(points, path, lower, upper, y0, y1, x, y);
  }

  lemma KeptStripCovers(points: seq<Point>, lower: Row, upper: Row, y0: real, y1: real, x: real, y: real)
    requires ValidRow(points, lower) && ValidRow(points, upper) && FlatStrip(points, lower, upper, y0, y1)
    requires GapsAboveTolerance(points, lower, y1 - y0) && GapsAboveTolerance(points, upper, y1 - y0)
    requires lower.begin + 1 < lower.end || upper.begin + 1 < upper.end
    requires InTrapezoid(points, lower, upper, x, y)
    ensures Covered(points, StripMesh(points, lower, upper), x, y)
  {
    var path := StripPath(points, lower, upper);
    NoneDroppedExactlyWhen(points, path, lower, upper, y0, y1);
    TrapezoidIsSpan(points, path, lower, upper, y0, y1, x, y);
    PathCovers(points, path, y0, y1, x, y);
  }

  /** Covered points lie in the layer. */
  lemma {:induction false} CoveredInLayer(points: seq<Point>, rows: seq<Row>, x: real, y: real)
    requires FlatLayer(points, rows) && Covered(points, LayerTriangles(points, rows), x, y)
    ensures InLayer(points, rows, x, y)
  {
    FlatHead(points, rows);
    FlatTail(points, rows);
    InLayerTail(points, rows, x, y);
    CoveredConcat(points, StripMesh(points, rows[0], rows[1]), LayerTriangles(points, rows[1..]), x, y);
    if Covered(points, LayerTriangles(points, rows[1..]), x, y) {
      CoveredInLayer(points, rows[1..], x, y);
    } else {
      CoveredIsInTrapezoid(points, rows[0], rows[1], RowHeight(points, rows[0]), RowHeight(points, rows[1]), x, y);
    }
  }

  /** When every strip is kept, the layer is covered. */
  lemma {:induction false} LayerIsCovered(points: seq<Point>, rows: seq<Row>, x: real, y: real)
    requires FlatLayer(points, rows) && AllStripsKept(points, rows) && InLayer(points, rows, x, y)
    ensures Covered(points, LayerTriangles(points, rows), x, y)
  {
    FlatHead(points, rows);
    FlatTail(points, rows);
    KeptTail(points, rows);
    InLayerTail(points, rows, x, y);
    CoveredConcat(points, StripMesh(points, rows[0], rows[1]), LayerTriangles(points, rows[1..]), x, y);
    if InLayer(points, rows[1..], x, y) {
      LayerIsCovered(points, rows[1..], x, y);
    } else {
      FirstStripIsCovered(points, rows, x, y);
    }
  }

  lemma FirstStripIsCovered(points: seq<Point>, rows: seq<Row>, x: real, y: real)
    requires FlatLayer(points, rows) && |rows| > 1 && StripKept(points, rows, 0) && InStrip(points, rows, 0, x, y)
    ensures Covered(points, StripMesh(points, rows[0], rows[1]), x, y)
  {
    var lower, upper := rows[0], rows[1];
    FlatHead(points, rows);
    KeptStripCovers(points, lower, upper, RowHeight(points, lower), RowHeight(points, upper), x, y);
  }

  lemma DroppedGapLeavesHole(points: seq<Point>, lower: Row, upper: Row, y0: real, y1: real) returns (x: real, y: real)
    requires ValidRow(points, lower) && ValidRow(points, upper) && FlatStrip(points, lower, upper, y0, y1) && y0 < y1
    requires !(GapsAboveTolerance(points, lower, y1 - y0) && GapsAboveTolerance(points, upper, y1 - y0))
    ensures InTrapezoid(points, lower, upper, x, y) && !Covered(points, StripMesh(points, lower, upper), x, y)
    ensures y0 < y < y1
    ensures lower.begin + 1 < lower.end || upper.begin + 1 < upper.end
  {
    var path := StripPath(points, lower, upper);
    CrossingIsStaircase(points, path, lower, upper, y0, y1);
    if NoneDropped(points, path) {
      NoneDroppedKeepsGaps(points, path, lower, upper, y0, y1);
    }
    x, y := HoleInTrapezoid(points, path, lower, upper, y0, y1);
  }

  /** A strip with a gap below tolerance leaves a hole that no other strip can fill. */
  lemma {:induction false} DroppedStripLeavesHole(points: seq<Point>, rows: seq<Row>, r: nat) returns (x: real, y: real)
    requires FlatLayer(points, rows) && r + 1 < |rows| && !StripKept(points, rows, r)
    ensures InLayer(points, rows, x, y) && !Covered(points, LayerTriangles(points, rows), x, y)
    ensures RowHeight(points, rows[0]) < y
  {
    FlatHead(points, rows);
    FlatTail(points, rows);
    var y0, y1 := RowHeight(points, rows[0]), RowHeight(points, rows[1]);
    if r == 0 {
      x, y := DroppedGapLeavesHole(points, rows[0], rows[1], y0, y1);
      assert InStrip(points, rows, 0, x, y);
      NotCoveredFromAbove(points, rows[1..], x, y);
    } else {
      assert StripKept(points, rows[1..], r - 1) <==> StripKept(points, rows, r);
      x, y := DroppedStripLeavesHole(points, rows[1..], r - 1);
      NotCoveredFromBelow(points, rows[0], rows[1], y0, y1, x, y);
    }
    InLayerTail(points, rows, x, y);
    CoveredConcat(points, StripMesh(points, rows[0], rows[1]), LayerTriangles(points, rows[1..]), x, y);
  }

  lemma NotCoveredFromAbove(points: seq<Point>, rows: seq<Row>, x: real, y: real)
    requires FlatLayer(points, rows) && rows != [] && y < RowHeight(points, rows[0])
    ensures !Covered(points, LayerTriangles(points, rows), x, y)
  {
    if Covered(points, LayerTriangles(points, rows), x, y) {
      var u :| u in LayerTriangles(points, rows) && Inside(points, u, x, y);
      LayerStaysAbove(points, rows, u, x, y);
    }
  }

  lemma NotCoveredFromBelow(points: seq<Point>, lower: Row, upper: Row, y0: real, y1: real, x: real, y: real)
    requires ValidRow(points, lower) && ValidRow(points, upper) && FlatStrip(points, lower, upper, y0, y1)
    requires y0 < y1 < y
    ensures !Covered(points, StripMesh(points, lower, upper), x, y)
  {
    if Covered(points, StripMesh(points, lower, upper), x, y) {
      var u :| u in StripMesh(points, lower, upper) && Inside(points, u, x, y);
      StripStaysBetween(points, lower, upper, y0, y1, u, x, y);
    }
  }

  /** Tiling of the layer: the pushed triangles never overlap, and they cover exactly the union of the
      strips, precisely when no gap of any row is too small in a strip it bounds. */
  lemma LayerTiling(points: seq<Point>, rows: seq<Row>)
    requires FlatLayer(points, rows)
    ensures InteriorsDisjoint(points, LayerTriangles(points, rows))
    ensures (forall x, y :: Covered(points, LayerTriangles(points, rows), x, y) <==> InLayer(points, rows, x, y))
       <==> AllStripsKept(points, rows)
  {
    LayerDisjoint(points, rows);
    forall x, y | Covered(points, LayerTriangles(points, rows), x, y)
      ensures InLayer(points, rows, x, y)
    {
      CoveredInLayer(points, rows, x, y);
    }
    if AllStripsKept(points, rows) {
      forall x, y | InLayer(points, rows, x, y)
        ensures Covered(points, LayerTriangles(points, rows), x, y)
      {
        LayerIsCovered(points, rows, x, y);
      }
    } else {
      var r :| 0 <= r < |rows| - 1 && !StripKept(points, rows, r);
      var x, y := DroppedStripLeavesHole(points, rows, r);
    }
  }

  // ----- Area and size -----

  /** The doubled area of the union of the strips: each strip's height times the widths of its rows. */
  ghost function LayerArea(points: seq<Point>, rows: seq<Row>): real
    requires ValidRows(points, rows)
  {
    if |rows| < 2 then 0.0
    else Times(StripHeight(points, rows[0], rows[1]), RowWidth(points, rows[0]) + RowWidth(points, rows[1]))
         + LayerArea(points, rows[1..])
  }

  lemma RisingStripArea(points: seq<Point>, lower: Row, upper: Row, y0: real, y1: real)
    requires ValidRow(points, lower) && ValidRow(points, upper) && FlatStrip(points, lower, upper, y0, y1) && y0 < y1
    requires GapsAboveTolerance(points, lower, y1 - y0) && GapsAboveTolerance(points, upper, y1 - y0)
    ensures TotalArea(points, StripMesh(points, lower, upper))
         == Times(y1 - y0, RowWidth(points, lower) + RowWidth(points, upper))
  {
    CrossingArea(points, StripPath(points, lower, upper), lower, upper, y0, y1);
  }

  lemma FirstStripArea(points: seq<Point>, rows: seq<Row>)
    requires FlatLayer(points, rows) && |rows| > 1 && StripKept(points, rows, 0)
    ensures TotalArea(points, StripMesh(points, rows[0], rows[1]))
         == Times(StripHeight(points, rows[0], rows[1]), RowWidth(points, rows[0]) + RowWidth(points, rows[1]))
  {
    var lower, upper := rows[0], rows[1];
    FlatHead(points, rows);
    RisingStripArea(points, lower, upper, RowHeight(points, lower), RowHeight(points, upper));
  }

  /** The doubled areas of the pushed triangles add up to the doubled area of the union of the strips. */
  lemma {:induction false} LayerAreaConserved(points: seq<Point>, rows: seq<Row>)
    requires FlatLayer(points, rows) && AllStripsKept(points, rows)
    ensures TotalArea(points, LayerTriangles(points, rows)) == LayerArea(points, rows)
  {
    if |rows| > 1 {
      FlatTail(points, rows);
      KeptTail(points, rows);
      FirstStripArea(points, rows);
      LayerAreaConserved(points, rows[1..]);
      TotalAreaConcat(points, StripMesh(points, rows[0], rows[1]), LayerTriangles(points, rows[1..]));
    }
  }

  /** Consecutive rows follow each other without gap. */
  ghost predicate Contiguous(rows: seq<Row>) {
    && (forall r :: 0 <= r < |rows| ==> rows[r].begin < rows[r].end)
    && (forall r :: 0 <= r < |rows| - 1 ==> Follows(rows, r))
  }

  ghost predicate Follows(rows: seq<Row>, r: nat)
    requires r + 1 < |rows|
  {
    rows[r].end == rows[r + 1].begin
  }

  lemma ContiguousTail(rows: seq<Row>)
    requires Contiguous(rows) && rows != []
    ensures Contiguous(rows[1..])
    ensures |rows| > 1 ==> rows[0].end == rows[1].begin
  {
    assert |rows| > 1 ==> Follows(rows, 0);
    forall r | 0 <= r < |rows[1..]| - 1
      ensures Follows(rows[1..], r)
    {
      assert Follows(rows, r + 1);
    }
  }

  /** The layer holds at most the sum over strips of (m + n - 2) triangles, which telescopes to less
      than twice the number of points; so the exporter's reservation always suffices. */
  lemma {:induction false} LayerFitsReservation(points: seq<Point>, rows: seq<Row>)
    requires ValidRows(points, rows) && Contiguous(rows) && rows != []
    ensures rows[0].begin < rows[|rows| - 1].end
    ensures |LayerTriangles(points, rows)| <= 2 * (rows[|rows| - 1].end - rows[0].begin) - 2 * (|rows| - 1)
      - (rows[0].end - rows[0].begin) - (rows[|rows| - 1].end - rows[|rows| - 1].begin)
    ensures |LayerTriangles(points, rows)| < 2 * (rows[|rows| - 1].end - rows[0].begin)
    ensures forall t :: t in LayerTriangles(points, rows) ==> InRange(points, t) && SignedArea(points, t) > TOLERANCE
  {
    if |rows| > 1 {
      PushedArePositive(points, StripPath(points, rows[0], rows[1]));
      ContiguousTail(rows);
      LayerFitsReservation(points, rows[1..]);
    }
  }
}
