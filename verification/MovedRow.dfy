/** Layers with a row one of whose points lies so near the axis that the exporter moves it: which row that is, what
    the other strips keep, and when the layer conforms or is empty. */
module MovedRow {
  import opened Numeric
  import opened Arithmetic
  import opened Geometry
  import opened Strip
  import opened Walk
  import opened LayerMesh
  import opened Conformity
  import opened GridLattice
  import opened GridKernel
  import opened VtkExporter
  import opened GridRecovery
  import opened GridMesh
  import opened GridExport
  import opened RegularLayer
  import opened GridVolume
  import opened GridLimits

  // ----- Which rows move -----

  /** A point within epsilon of the axis, and not already on the ray at azimuth zero. */
  ghost predicate Moves(m: Trig, p: Point) {
    NearAxis(m, p) && !(p.y == 0.0 && p.x >= 0.0)
  }

  lemma MovesExactlyWhen(m: Trig, p: Point)
    requires Lawful(m)
    ensures Recovered(m, p) != p <==> Moves(m, p)
  {
    RecoveredIs(m, p);
    HypotBounds(m, p.x, p.y);
    if p.y == 0.0 && p.x >= 0.0 {
      OnRay(m, p.x);
    }
  }

  lemma OnRay(m: Trig, x: real)
    requires Lawful(m) && x >= 0.0
    ensures m.hypot(x, 0.0) == x
  {
    var h := m.hypot(x, 0.0);
    assert IsDistance(m, x, 0.0);
    HypotBounds(m, x, 0.0);
    TimesIs(x, x);
    TimesIs(0.0, 0.0);
    TimesIs(h, h);
    if x > 0.0 {
      SquareOrder(h, x);
    } else {
      SquareSign(h);
    }
  }

  /** Row r moves if and only if it holds such a point. */
  lemma RowMovesExactlyWhen(m: Trig, g: Grid, r: nat)
    requires Lawful(m) && ValidGrid(g) && StepY(m, g) > 0.0 && r < |AllRows(m, g)|
    ensures RowUnmoved(m, g, r) <==>
      forall k :: AllRows(m, g)[r].begin <= k < AllRows(m, g)[r].end && k < |FirstLayer(m, g)|
        ==> !Moves(m, FirstLayer(m, g)[k])
  {
    forall k | AllRows(m, g)[r].begin <= k < AllRows(m, g)[r].end && k < |FirstLayer(m, g)|
      ensures Moves(m, FirstLayer(m, g)[k]) <==> Recovered(m, FirstLayer(m, g)[k]) != FirstLayer(m, g)[k]
    {
      MovesExactlyWhen(m, FirstLayer(m, g)[k]);
    }
  }

  lemma MovedRowIsLow(m: Trig, g: Grid, r: nat)
    requires Lawful(m) && ValidGrid(g) && StepY(m, g) > 0.0 && r < |AllRows(m, g)| && !RowUnmoved(m, g, r)
    ensures r < |RowNumbers(m, g, VisitedRows(m, g))|
    ensures Abs(Y(m, g, RowNumbers(m, g, VisitedRows(m, g))[r])) < EPSILON
  {
    RowMovesExactlyWhen(m, g, r);
    var k :| AllRows(m, g)[r].begin <= k < AllRows(m, g)[r].end && k < |FirstLayer(m, g)|
             && Moves(m, FirstLayer(m, g)[k]);
    PointOfListedRow(m, g, r, k);
    HypotBounds(m, FirstLayer(m, g)[k].x, FirstLayer(m, g)[k].y);
  }

  /** When the rows are at least two epsilon apart, only one can move. */
  lemma OneRowMoves(m: Trig, g: Grid, r: nat, s: nat)
    requires Lawful(m) && ValidGrid(g) && StepY(m, g) >= 2.0 * EPSILON && r < s < |AllRows(m, g)|
    ensures RowUnmoved(m, g, r) || RowUnmoved(m, g, s)
  {
    if !RowUnmoved(m, g, r) && !RowUnmoved(m, g, s) {
      MovedRowIsLow(m, g, r);
      MovedRowIsLow(m, g, s);
      var numbers := RowNumbers(m, g, VisitedRows(m, g));
      RowNumbersIncrease(m, g, VisitedRows(m, g), r, s);
      TimesOrder(numbers[r], numbers[s], StepY(m, g));
      assert false;
    }
  }

  // ----- The other strips -----

  /** Neither row of strip r moves. */
  ghost predicate StripLevel(m: Trig, g: Grid, r: nat)
    requires ValidGrid(g) && StepY(m, g) > 0.0 && r + 1 < |AllRows(m, g)|
  {
    RowUnmoved(m, g, r) && RowUnmoved(m, g, r + 1)
  }

  /** No gap of either row is too small in a strip from y0 up to y1. */
  ghost predicate BothRowsKept(points: seq<Point>, lower: Row, upper: Row, y0: real, y1: real)
    requires ValidRow(points, lower) && ValidRow(points, upper)
  {
    GapsAboveTolerance(points, lower, y1 - y0) && GapsAboveTolerance(points, upper, y1 - y0)
  }

  /** Two regular rows, one at least h above the other, form a flat strip. */
  lemma RegularStrip(points: seq<Point>, lower: Row, upper: Row, w: real, h: real, y0: real, y1: real)
    requires RegularRow(points, lower, w) && RegularRow(points, upper, w) && w > 0.0 && h > 0.0
    requires y0 == RowHeight(points, lower) && y1 == RowHeight(points, upper) && y1 - y0 >= h
    ensures FlatStrip(points, lower, upper, y0, y1)
    ensures Times(w, h) > TOLERANCE ==> BothRowsKept(points, lower, upper, y0, y1)
  {
    if Times(w, h) > TOLERANCE {
      RegularRowIsKept(points, lower, w, h, y1 - y0);
      RegularRowIsKept(points, upper, w, h, y1 - y0);
    }
  }

  /** Whether there is a gap at all between two points of a row of the strip. */
  ghost predicate HasGap(lower: Row, upper: Row) {
    lower.begin + 1 < lower.end || upper.begin + 1 < upper.end
  }

  /** The triangles of a strip cover exactly its trapezoid, if it does not degenerate to a segment. */
  ghost predicate StripTiled(points: seq<Point>, lower: Row, upper: Row)
    requires ValidRow(points, lower) && ValidRow(points, upper)
  {
    forall x, y :: Covered(points, StripMesh(points, lower, upper), x, y)
              <==> HasGap(lower, upper) && InTrapezoid(points, lower, upper, x, y)
  }

  lemma SegmentIsTiled(points: seq<Point>, lower: Row, upper: Row)
    requires ValidRow(points, lower) && ValidRow(points, upper) && !HasGap(lower, upper)
    ensures InteriorsDisjoint(points, StripMesh(points, lower, upper)) && StripTiled(points, lower, upper)
  {
    assert StripMesh(points, lower, upper) == [];
  }

  /** A flat strip is tiled if and only if no gap is too small. */
  lemma FlatStripTiles(points: seq<Point>, lower: Row, upper: Row, y0: real, y1: real)
    requires ValidRow(points, lower) && ValidRow(points, upper) && FlatStrip(points, lower, upper, y0, y1)
    ensures InteriorsDisjoint(points, StripMesh(points, lower, upper))
    ensures StripTiled(points, lower, upper) <==> BothRowsKept(points, lower, upper, y0, y1)
  {
    if HasGap(lower, upper) {
      StripTiling(points, lower, upper, y0, y1);
    } else {
      SegmentIsTiled(points, lower, upper);
    }
  }

  lemma LevelStripIsRegular(m: Trig, g: Grid, r: nat)
    requires Lawful(m) && ValidGrid(g) && StepY(m, g) > 0.0 && r + 1 < |AllRows(m, g)| && StripLevel(m, g, r)
    ensures ValidRows(GeneratedPoints(m, g), AllRows(m, g)) && StepX(g) > 0.0
    ensures RegularRow(GeneratedPoints(m, g), AllRows(m, g)[r], StepX(g))
    ensures RegularRow(GeneratedPoints(m, g), AllRows(m, g)[r + 1], StepX(g))
    ensures StripHeight(GeneratedPoints(m, g), AllRows(m, g)[r], AllRows(m, g)[r + 1]) >= StepY(m, g)
  {
    StepXIs(g);
    ListedRowsAreValid(m, g);
    GeneratedRowIsRegular(m, g, r);
    GeneratedRowIsRegular(m, g, r + 1);
    RowRises(m, g, r, r + 1);
  }

  /** No gap of strip r is too small for the exporter. */
  ghost predicate LevelStripKept(points: seq<Point>, lower: Row, upper: Row)
    requires ValidRow(points, lower) && ValidRow(points, upper)
  {
    BothRowsKept(points, lower, upper, RowHeight(points, lower), RowHeight(points, upper))
  }

  /** A strip none of whose points moves is tiled if and only if none of its gaps is too small, on any valid grid; and
      none is if a lattice triangle exceeds the tolerance. */
  lemma LevelStripTilesExactlyWhen(m: Trig, g: Grid, r: nat)
    requires Lawful(m) && ValidGrid(g) && StepY(m, g) > 0.0 && r + 1 < |AllRows(m, g)| && StripLevel(m, g, r)
    ensures ValidRows(GeneratedPoints(m, g), AllRows(m, g))
    ensures InteriorsDisjoint(GeneratedPoints(m, g),
                              StripMesh(GeneratedPoints(m, g), AllRows(m, g)[r], AllRows(m, g)[r + 1]))
    ensures StripTiled(GeneratedPoints(m, g), AllRows(m, g)[r], AllRows(m, g)[r + 1])
       <==> LevelStripKept(GeneratedPoints(m, g), AllRows(m, g)[r], AllRows(m, g)[r + 1])
    ensures Times(StepX(g), StepY(m, g)) > TOLERANCE
       ==> LevelStripKept(GeneratedPoints(m, g), AllRows(m, g)[r], AllRows(m, g)[r + 1])
  {
    LevelStripIsRegular(m, g, r);
    RegularStripTiles(GeneratedPoints(m, g), AllRows(m, g)[r], AllRows(m, g)[r + 1], StepX(g), StepY(m, g));
  }

  lemma RegularStripTiles(points: seq<Point>, lower: Row, upper: Row, w: real, h: real)
    requires RegularRow(points, lower, w) && RegularRow(points, upper, w) && w > 0.0 && h > 0.0
    requires StripHeight(points, lower, upper) >= h
    ensures InteriorsDisjoint(points, StripMesh(points, lower, upper))
    ensures StripTiled(points, lower, upper) <==> LevelStripKept(points, lower, upper)
    ensures Times(w, h) > TOLERANCE ==> LevelStripKept(points, lower, upper)
  {
    var y0, y1 := RowHeight(points, lower), RowHeight(points, upper);
    RegularStrip(points, lower, upper, w, h, y0, y1);
    FlatStripTiles(points, lower, upper, y0, y1);
  }

  // ----- The whole layer -----

  /** Whether the exporter keeps every triangle of each strip with a row that moves. */
  ghost predicate BentStripsComplete(m: Trig, g: Grid)
    requires ValidGrid(g) && StepY(m, g) > 0.0 && ValidRows(GeneratedPoints(m, g), AllRows(m, g))
  {
    forall r :: 0 <= r < |AllRows(m, g)| - 1 && !StripLevel(m, g, r)
      ==> StripComplete(GeneratedPoints(m, g), AllRows(m, g), r)
  }

  lemma LevelStripComplete(m: Trig, g: Grid, r: nat)
    requires Lawful(m) && ValidGrid(g) && StepY(m, g) > 0.0 && r + 1 < |AllRows(m, g)| && StripLevel(m, g, r)
    requires Times(StepX(g), StepY(m, g)) > TOLERANCE
    ensures ValidRows(GeneratedPoints(m, g), AllRows(m, g))
    ensures StripComplete(GeneratedPoints(m, g), AllRows(m, g), r)
  {
    LevelStripIsRegular(m, g, r);
    RegularStripIsComplete(GeneratedPoints(m, g), AllRows(m, g)[r], AllRows(m, g)[r + 1], StepX(g), StepY(m, g));
  }

  lemma RegularStripIsComplete(points: seq<Point>, lower: Row, upper: Row, w: real, h: real)
    requires RegularRow(points, lower, w) && RegularRow(points, upper, w) && w > 0.0 && h > 0.0
    requires StripHeight(points, lower, upper) >= h && Times(w, h) > TOLERANCE
    ensures NoneDropped(points, StripPath(points, lower, upper))
  {
    var y0, y1 := RowHeight(points, lower), RowHeight(points, upper);
    RegularStrip(points, lower, upper, w, h, y0, y1);
    NoneDroppedExactlyWhen(points, StripPath(points, lower, upper), lower, upper, y0, y1);
  }

  /** When a lattice triangle exceeds the tolerance, the layer conforms if and only if the exporter keeps the triangles
      next to the row that moves. */
  lemma ConformsExactlyWhen(m: Trig, g: Grid)
    requires Lawful(m) && ValidGrid(g) && StepY(m, g) > 0.0 && Times(StepX(g), StepY(m, g)) > TOLERANCE
    ensures ValidRows(GeneratedPoints(m, g), AllRows(m, g))
    ensures IsLayer(GeneratedPoints(m, g), AllRows(m, g)) <==> BentStripsComplete(m, g)
  {
    ListedRowsAreValid(m, g);
    TwoRowsNotEmpty(m, g);
    LatticeRowsFollow(m, g, VisitedRows(m, g));
    forall r | 0 <= r < |AllRows(m, g)| - 1 && StripLevel(m, g, r)
      ensures StripComplete(GeneratedPoints(m, g), AllRows(m, g), r)
    {
      LevelStripComplete(m, g, r);
    }
  }

  // ----- When the layer is empty -----

  ghost predicate StripEmpty(points: seq<Point>, rows: seq<Row>, r: nat)
    requires ValidRows(points, rows) && r + 1 < |rows|
  {
    StripMesh(points, rows[r], rows[r + 1]) == []
  }

  lemma {:induction false} EmptyFrom(points: seq<Point>, rows: seq<Row>, s: nat)
    requires ValidRows(points, rows) && s <= |rows|
    ensures LayerTriangles(points, rows[s..]) == [] <==> forall r :: s <= r < |rows| - 1 ==> StripEmpty(points, rows, r)
    decreases |rows| - s
  {
    if s + 1 < |rows| {
      var first, rest := StripMesh(points, rows[s], rows[s + 1]), LayerTriangles(points, rows[s + 1..]);
      assert rows[s..][1..] == rows[s + 1..];
      EmptyFrom(points, rows, s + 1);
      assert LayerTriangles(points, rows[s..]) == first + rest;
      assert first + rest == [] <==> first == [] && rest == [];
      assert StripEmpty(points, rows, s) <==> first == [];
    }
  }

  /** Every triangle the exporter tries in strip r is within the tolerance: in a level strip, no gap is kept. */
  ghost predicate NothingKeptAt(m: Trig, g: Grid, r: nat)
    requires ValidGrid(g) && StepY(m, g) > 0.0 && ValidRows(GeneratedPoints(m, g), AllRows(m, g))
    requires r + 1 < |AllRows(m, g)|
  {
    var points, lower, upper := GeneratedPoints(m, g), AllRows(m, g)[r], AllRows(m, g)[r + 1];
    if StripLevel(m, g, r) then NothingKeptIn(points, lower, upper, StripHeight(points, lower, upper))
    else AllDropped(points, StripPath(points, lower, upper))
  }

  lemma StripEmptyWhenNothingKept(m: Trig, g: Grid, r: nat)
    requires Lawful(m) && ValidGrid(g) && StepY(m, g) > 0.0 && ValidRows(GeneratedPoints(m, g), AllRows(m, g))
    requires r + 1 < |AllRows(m, g)|
    ensures StripEmpty(GeneratedPoints(m, g), AllRows(m, g), r) <==> NothingKeptAt(m, g, r)
  {
    var points, lower, upper := GeneratedPoints(m, g), AllRows(m, g)[r], AllRows(m, g)[r + 1];
    if StripLevel(m, g, r) {
      LevelStripIsRegular(m, g, r);
      RegularStripEmpty(points, lower, upper, StepX(g), StepY(m, g));
    } else {
      EmptyExactlyWhenAllDropped(points, StripPath(points, lower, upper));
    }
  }

  lemma RegularStripEmpty(points: seq<Point>, lower: Row, upper: Row, w: real, h: real)
    requires RegularRow(points, lower, w) && RegularRow(points, upper, w) && w > 0.0 && h > 0.0
    requires StripHeight(points, lower, upper) >= h
    ensures StripMesh(points, lower, upper) == []
       <==> NothingKeptIn(points, lower, upper, StripHeight(points, lower, upper))
  {
    var y0, y1 := RowHeight(points, lower), RowHeight(points, upper);
    RegularStrip(points, lower, upper, w, h, y0, y1);
    StripEmptyExactlyWhen(points, lower, upper, y0, y1);
  }

  /** A recovered grid ends in the empty-triangulation error if and only if every triangle tried is within the
      tolerance, whether or not a row moves. */
  lemma EmptyExportExactlyWhen(m: Trig, g: Grid, field: seq<real>, path: string)
    requires Lawful(m) && ValidGrid(g) && StepY(m, g) > 0.0 && LayersApart(g) && RowsApart(m, g) && path != ""
    requires |field| == |GridCoordinates(m, g)|
    ensures ValidRows(GeneratedPoints(m, g), AllRows(m, g))
    ensures Outcome(m, field, GridCoordinates(m, g), path) == Err(NoTriangles)
       <==> forall r :: 0 <= r < |AllRows(m, g)| - 1 ==> NothingKeptAt(m, g, r)
  {
    ListedRowsAreValid(m, g);
    RecoveredExports(m, g, field, path);
    EmptyFrom(GeneratedPoints(m, g), AllRows(m, g), 0);
    assert AllRows(m, g)[0..] == AllRows(m, g);
    forall r | 0 <= r < |AllRows(m, g)| - 1
      ensures StripEmpty(GeneratedPoints(m, g), AllRows(m, g), r) <==> NothingKeptAt(m, g, r)
    {
      StripEmptyWhenNothingKept(m, g, r);
    }
  }
}
