/** Where the exporter refuses a generated grid or leaves holes in it: exact conditions, and grids that meet
    them. */
module GridLimits {
  import opened Numeric
  import opened Arithmetic
  import opened Geometry
  import opened Strip
  import opened Walk
  import opened LayerMesh
  import opened GridLattice
  import opened GridKernel
  import opened VtkExporter
  import opened GridRecovery
  import opened GridMesh
  import opened GridExport
  import opened LatticeAxis
  import opened RegularLayer
  import opened GridVolume
  import opened MeshInCylinder

  // ----- When a layer has no triangles -----

  /** No gap of the row is one the exporter keeps. */
  ghost predicate NoGapKept(points: seq<Point>, row: Row, h: real)
    requires ValidRow(points, row)
  {
    forall k :: row.begin <= k < row.end - 1 ==> !KeptGapAt(points, k, h)
  }

  ghost predicate NothingKeptIn(points: seq<Point>, lower: Row, upper: Row, h: real)
    requires ValidRow(points, lower) && ValidRow(points, upper)
  {
    NoGapKept(points, lower, h) && NoGapKept(points, upper, h)
  }

  /** No strip has a gap that the exporter keeps. */
  ghost predicate NothingKept(points: seq<Point>, rows: seq<Row>)
    requires ValidRows(points, rows)
  {
    forall r :: 0 <= r < |rows| - 1 ==> StripDropped(points, rows, r)
  }

  ghost predicate StripDropped(points: seq<Point>, rows: seq<Row>, r: nat)
    requires ValidRows(points, rows) && r + 1 < |rows|
  {
    NothingKeptIn(points, rows[r], rows[r + 1], StripHeight(points, rows[r], rows[r + 1]))
  }

  ghost predicate AllDropped(points: seq<Point>, path: seq<Diagonal>)
    requires Linked(|points|, path)
  {
    forall k :: 0 <= k < |path| - 1 ==> !KeptAt(points, path, k)
  }

  lemma {:induction false} EmptyWhenAllDropped(points: seq<Point>, path: seq<Diagonal>)
    requires Linked(|points|, path) && AllDropped(points, path)
    ensures StripTriangles(points, path) == []
  {
    if |path| > 1 {
      SweptInRange(points, path, 0);
      LinkedTail(points, path);
      assert !KeptAt(points, path, 0);
      forall k | 0 <= k < |path[1..]| - 1
        ensures !KeptAt(points, path[1..], k)
      {
        assert !KeptAt(points, path, k + 1);
      }
      EmptyWhenAllDropped(points, path[1..]);
    }
  }

  lemma EmptyExactlyWhenAllDropped(points: seq<Point>, path: seq<Diagonal>)
    requires Linked(|points|, path)
    ensures StripTriangles(points, path) == [] <==> AllDropped(points, path)
  {
    if AllDropped(points, path) {
      EmptyWhenAllDropped(points, path);
    } else {
      var k :| 0 <= k < |path| - 1 && KeptAt(points, path, k);
      KeptIsPushed(points, path, k);
    }
  }

  /** A move of the path passes one gap, of the row it advances on; it is kept exactly if the gap is. */
  lemma MoveKeptExactlyWhen(points: seq<Point>, path: seq<Diagonal>, y0: real, y1: real, k: nat)
    requires Staircase(points, path, y0, y1) && k + 1 < |path|
    ensures path[k] in path && path[k + 1] in path
    ensures path[k].lower < path[k + 1].lower
       ==> (KeptAt(points, path, k) <==> KeptGapAt(points, path[k].lower, y1 - y0))
    ensures path[k].lower == path[k + 1].lower ==> path[k].upper + 1 == path[k + 1].upper
    ensures path[k].lower == path[k + 1].lower
       ==> (KeptAt(points, path, k) <==> KeptGapAt(points, path[k].upper, y1 - y0))
  {
    var d, e := path[k], path[k + 1];
    StaircaseStep(points, path, y0, y1, k);
    StepKeptExactlyWhen(points, d, e, y0, y1);
    if d.lower < e.lower {
      assert PassedWidth(points, d, e) == points[d.lower + 1].x - points[d.lower].x;
    } else {
      assert PassedWidth(points, d, e) == points[d.upper + 1].x - points[d.upper].x;
    }
  }

  lemma GapsDroppedExactlyWhen(points: seq<Point>, path: seq<Diagonal>, lower: Row, upper: Row, y0: real, y1: real)
    requires Crosses(points, path, lower, upper) && Staircase(points, path, y0, y1)
    ensures AllDropped(points, path) <==> NothingKeptIn(points, lower, upper, y1 - y0)
  {
    var h := y1 - y0;
    if AllDropped(points, path) {
      forall i | lower.begin <= i < lower.end - 1
        ensures !KeptGapAt(points, i, h)
      {
        var k := LowerGapIsWalked(|points|, path, i);
        MoveKeptExactlyWhen(points, path, y0, y1, k);
        assert !KeptAt(points, path, k);
      }
      forall j | upper.begin <= j < upper.end - 1
        ensures !KeptGapAt(points, j, h)
      {
        var k := UpperGapIsWalked(|points|, path, j);
        MoveKeptExactlyWhen(points, path, y0, y1, k);
        assert !KeptAt(points, path, k) && StepAt(path, k);
      }
    }
    if NothingKeptIn(points, lower, upper, y1 - y0) {
      forall k | 0 <= k < |path| - 1
        ensures !KeptAt(points, path, k)
      {
        MoveKeptExactlyWhen(points, path, y0, y1, k);
        assert StepAt(path, k);
      }
    }
  }

  lemma StripEmptyExactlyWhen(points: seq<Point>, lower: Row, upper: Row, y0: real, y1: real)
    requires ValidRow(points, lower) && ValidRow(points, upper) && FlatStrip(points, lower, upper, y0, y1)
    ensures StripMesh(points, lower, upper) == [] <==> NothingKeptIn(points, lower, upper, y1 - y0)
  {
    var path := StripPath(points, lower, upper);
    CrossingIsStaircase(points, path, lower, upper, y0, y1);
    EmptyExactlyWhenAllDropped(points, path);
    GapsDroppedExactlyWhen(points, path, lower, upper, y0, y1);
  }

  /** A flat layer has no triangles at all if and only if no strip has a gap that the exporter keeps. */
  lemma {:induction false} LayerEmptyExactlyWhen(points: seq<Point>, rows: seq<Row>)
    requires FlatLayer(points, rows)
    ensures LayerTriangles(points, rows) == [] <==> NothingKept(points, rows)
  {
    if |rows| > 1 {
      FlatTail(points, rows);
      LayerEmptyExactlyWhen(points, rows[1..]);
      FirstEmptyExactlyWhen(points, rows);
      NothingKeptTail(points, rows);
    }
  }

  lemma FirstEmptyExactlyWhen(points: seq<Point>, rows: seq<Row>)
    requires FlatLayer(points, rows) && |rows| > 1
    ensures StripMesh(points, rows[0], rows[1]) == [] <==> StripDropped(points, rows, 0)
  {
    FlatHead(points, rows);
    StripEmptyExactlyWhen(points, rows[0], rows[1], RowHeight(points, rows[0]), RowHeight(points, rows[1]));
  }

  lemma NothingKeptTail(points: seq<Point>, rows: seq<Row>)
    requires ValidRows(points, rows) && |rows| > 1
    ensures NothingKept(points, rows) <==> StripDropped(points, rows, 0) && NothingKept(points, rows[1..])
  {
    var tail := rows[1..];
    forall r | 0 <= r < |tail| - 1
      ensures StripDropped(points, tail, r) <==> StripDropped(points, rows, r + 1)
    {
    }
    if StripDropped(points, rows, 0) && NothingKept(points, tail) {
      forall r | 0 <= r < |rows| - 1
        ensures StripDropped(points, rows, r)
      {
        assert r > 0 ==> StripDropped(points, tail, r - 1);
      }
    }
    if NothingKept(points, rows) {
      forall r | 0 <= r < |tail| - 1
        ensures StripDropped(points, tail, r)
      {
        assert StripDropped(points, rows, r + 1);
      }
    }
  }

  lemma GeneratedIsFlat(m: Trig, g: Grid)
    requires Lawful(m) && ValidGrid(g) && StepY(m, g) > 0.0 && Unmoved(m, g)
    ensures FlatLayer(GeneratedPoints(m, g), AllRows(m, g))
  {
    GeneratedIsRegular(m, g);
    RegularIsFlat(GeneratedPoints(m, g), AllRows(m, g), StepX(g), StepY(m, g));
  }

  /** A recovered grid, none of whose points is moved, ends in the empty-triangulation error if and only if no
      strip has a gap that the exporter keeps. */
  lemma NoTrianglesExactlyWhen(m: Trig, g: Grid, field: seq<real>, path: string)
    requires Lawful(m) && ValidGrid(g) && StepY(m, g) > 0.0 && Unmoved(m, g) && path != ""
    requires LayersApart(g) && RowsApart(m, g) && |field| == |GridCoordinates(m, g)|
    ensures FlatLayer(GeneratedPoints(m, g), AllRows(m, g))
    ensures Outcome(m, field, GridCoordinates(m, g), path) == Err(NoTriangles)
       <==> NothingKept(GeneratedPoints(m, g), AllRows(m, g))
  {
    GeneratedIsFlat(m, g);
    RecoveredExports(m, g, field, path);
    LayerEmptyExactlyWhen(GeneratedPoints(m, g), AllRows(m, g));
  }

  // ----- When a generated layer is tiled -----

  lemma ReachWithinRadius(m: Trig, g: Grid)
    requires Lawful(m) && ValidGrid(g)
    ensures Times(g.radius, m.sqrt(3.0)) * 0.5 <= g.radius
  {
    var s := m.sqrt(3.0);
    RootOfThree(m);
    TimesIs(g.radius, s);
    Nonnegative(g.radius, 2.0 - s);
    assert g.radius * (2.0 - s) == 2.0 * g.radius - g.radius * s;
  }

  lemma RowHeightBelow(m: Trig, g: Grid, row: nat)
    requires Lawful(m) && ValidGrid(g) && row > 0
    ensures StepY(m, g) > 0.0 && -g.radius <= Y(m, g, row - 1) == Y(m, g, row) - StepY(m, g)
  {
    StepYIs(m, g);
    TimesNext(row - 1, StepY(m, g));
    TimesNext(0, StepY(m, g));
    if row - 1 > 0 {
      TimesOrder(0, row - 1, StepY(m, g));
    }
  }

  /** The even row below a central odd row has its point on the y axis. */
  lemma AxisPointBelow(m: Trig, g: Grid, row: nat)
    requires Lawful(m) && ValidGrid(g) && row % 2 == 1 && Abs(Y(m, g, row)) <= Times(g.radius, m.sqrt(3.0)) * 0.5
    ensures StepY(m, g) > 0.0 && row - 1 < RowCount(m, g) && Visible(m, g, row - 1, g.xCount - 1)
  {
    ReachWithinRadius(m, g);
    RowHeightBelow(m, g, row);
    AxisPointVisible(m, g, row - 1);
  }

  /** Entry s follows the one before it without gap. */
  ghost predicate AreNeighbours(numbers: seq<nat>, s: nat) {
    0 < s < |numbers| && numbers[s] == numbers[s - 1] + 1
  }

  /** A row below another in the lattice is the row before it in the list. */
  lemma RowBelowIsListed(m: Trig, g: Grid, row: nat, s: nat)
    requires Lawful(m) && ValidGrid(g) && StepY(m, g) > 0.0 && 0 < row < RowCount(m, g)
    requires Visible(m, g, row - 1, g.xCount - 1)
    requires 0 < s < |RowNumbers(m, g, VisitedRows(m, g))| && RowNumbers(m, g, VisitedRows(m, g))[s] == row
    ensures AreNeighbours(RowNumbers(m, g, VisitedRows(m, g)), s)
  {
    var count := VisitedRows(m, g);
    VisibleRowNotEmpty(m, g, row - 1, g.xCount - 1);
    var q := RowIsListed(m, g, count, row - 1);
    if q > s {
      RowNumbersIncrease(m, g, count, s, q);
    } else if q < s - 1 {
      RowNumbersIncrease(m, g, count, q, s - 1);
      RowNumbersIncrease(m, g, count, s - 1, s);
    }
  }

  lemma ListedHeight(m: Trig, g: Grid, r: nat)
    requires Lawful(m) && ValidGrid(g) && StepY(m, g) > 0.0 && Unmoved(m, g)
    requires ValidRows(GeneratedPoints(m, g), AllRows(m, g))
    requires r < |AllRows(m, g)| && r < |RowNumbers(m, g, VisitedRows(m, g))|
    ensures RowHeight(GeneratedPoints(m, g), AllRows(m, g)[r]) == Y(m, g, RowNumbers(m, g, VisitedRows(m, g))[r])
  {
    UnmovedPoint(m, g, r, AllRows(m, g)[r].begin);
  }

  /** The strip between neighbouring rows of the lattice is one step high. */
  lemma UnitStrip(m: Trig, g: Grid, s: nat)
    requires Lawful(m) && ValidGrid(g) && StepY(m, g) > 0.0 && Unmoved(m, g)
    requires ValidRows(GeneratedPoints(m, g), AllRows(m, g))
    requires 0 < s < |AllRows(m, g)| && AreNeighbours(RowNumbers(m, g, VisitedRows(m, g)), s)
    ensures StripHeight(GeneratedPoints(m, g), AllRows(m, g)[s - 1], AllRows(m, g)[s]) == StepY(m, g)
  {
    var numbers := RowNumbers(m, g, VisitedRows(m, g));
    ListedHeight(m, g, s - 1);
    ListedHeight(m, g, s);
    NextHeight(m, g, numbers[s - 1], numbers[s]);
  }

  lemma NextHeight(m: Trig, g: Grid, row: int, next: int)
    requires ValidGrid(g) && next == row + 1
    ensures Y(m, g, next) == Y(m, g, row) + StepY(m, g)
  {
    TimesNext(row, StepY(m, g));
  }

  /** Some strip is one step high, and its upper row has a gap one step wide. */
  lemma UnitGap(m: Trig, g: Grid) returns (s: nat, j: nat)
    requires Lawful(m) && ValidGrid(g) && StepY(m, g) > 0.0 && Unmoved(m, g)
    requires ValidRows(GeneratedPoints(m, g), AllRows(m, g))
    ensures 0 < s < |AllRows(m, g)| && InRow(AllRows(m, g)[s], j)
    ensures LevelGap(GeneratedPoints(m, g), j, StepX(g))
    ensures StripHeight(GeneratedPoints(m, g), AllRows(m, g)[s - 1], AllRows(m, g)[s]) == StepY(m, g)
  {
    var row := CentralOddRow(m, g);
    j := CentralGap(m, g, row);
    AxisPointBelow(m, g, row);
    s := ListedAbove(m, g, row, j);
    RowBelowIsListed(m, g, row, s);
    UnitStrip(m, g, s);
  }

  lemma UnitGapLeavesHole(points: seq<Point>, rows: seq<Row>, s: nat, j: nat, w: real, h: real)
    returns (x: real, y: real)
    requires FlatLayer(points, rows) && 0 < s < |rows| && InRow(rows[s], j) && LevelGap(points, j, w)
    requires StripHeight(points, rows[s - 1], rows[s]) == h && w > 0.0 && h > 0.0 && Times(w, h) <= TOLERANCE
    ensures InLayer(points, rows, x, y) && !Covered(points, LayerTriangles(points, rows), x, y)
  {
    TimesSign(w, h);
    assert !KeptGapAt(points, j, h);
    assert !StripKept(points, rows, s - 1);
    x, y := DroppedStripLeavesHole(points, rows, s - 1);
  }

  /** When a lattice triangle is within the tolerance, some point of the strips is not covered. */
  lemma SmallTrianglesLeaveHole(m: Trig, g: Grid) returns (x: real, y: real)
    requires Lawful(m) && ValidGrid(g) && StepY(m, g) > 0.0 && Unmoved(m, g)
    requires Times(StepX(g), StepY(m, g)) <= TOLERANCE
    ensures InLattice(m, g, x, y) && !Covered(GeneratedPoints(m, g), LatticeTriangles(m, g), x, y)
  {
    GeneratedIsFlat(m, g);
    var s, j := UnitGap(m, g);
    StepXIs(g);
    x, y := UnitGapLeavesHole(GeneratedPoints(m, g), AllRows(m, g), s, j, StepX(g), StepY(m, g));
  }

  /** The triangles of a generated layer, none of whose points is moved, tile the union of its strips if and only
      if a lattice triangle exceeds the tolerance. */
  lemma GeneratedTilesExactlyWhen(m: Trig, g: Grid)
    requires Lawful(m) && ValidGrid(g) && StepY(m, g) > 0.0 && Unmoved(m, g)
    ensures (forall x, y :: Covered(GeneratedPoints(m, g), LatticeTriangles(m, g), x, y) <==> InLattice(m, g, x, y))
       <==> Times(StepX(g), StepY(m, g)) > TOLERANCE
  {
    if Times(StepX(g), StepY(m, g)) > TOLERANCE {
      GeneratedTiling(m, g);
    } else {
      var x, y := SmallTrianglesLeaveHole(m, g);
    }
  }

  // ----- Tiny grids -----

  lemma AreaInDisc(p: Point, q: Point, x: real, y: real, r: real)
    requires Abs(p.x) <= r && Abs(p.y) <= r && Abs(q.x) <= r && Abs(q.y) <= r && Abs(x) <= r && Abs(y) <= r
    ensures Orient(p, q, x, y) <= 8.0 * Times(r, r)
  {
    TimesWithin(q.x - p.x, y - p.y, r);
    TimesWithin(q.y - p.y, x - p.x, r);
  }

  lemma TimesWithin(a: real, b: real, r: real)
    requires Abs(a) <= 2.0 * r && Abs(b) <= 2.0 * r
    ensures Abs(Times(a, b)) <= 4.0 * Times(r, r)
  {
    var d := 2.0 * r;
    ProductWithin(a, b, d);
    TimesIs(a, b);
    TimesIs(r, r);
    assert d * d == 4.0 * (r * r);
  }

  lemma ProductWithin(a: real, b: real, r: real)
    requires Abs(a) <= r && Abs(b) <= r
    ensures Abs(a * b) <= r * r
  {
    Nonnegative(r - a, r + b);
    Nonnegative(r + a, r - b);
    Nonnegative(r - a, r - b);
    Nonnegative(r + a, r + b);
    assert (r - a) * (r + b) + (r + a) * (r - b) == 2.0 * (r * r) - 2.0 * (a * b);
    assert (r - a) * (r - b) + (r + a) * (r + b) == 2.0 * (r * r) + 2.0 * (a * b);
  }

  /** So small a grid has no triangle above the tolerance. */
  ghost predicate IsTiny(g: Grid) {
    8.0 * Times(g.radius, g.radius) <= TOLERANCE
  }

  lemma TinyGridIsEmpty(m: Trig, g: Grid)
    requires Lawful(m) && ValidGrid(g) && StepY(m, g) > 0.0 && IsTiny(g)
    ensures LatticeTriangles(m, g) == []
  {
    if LatticeTriangles(m, g) != [] {
      var t := LatticeTriangles(m, g)[0];
      GeneratedVertices(m, g);
      LatticeTriangleIsPositive(m, g, t);
      VertexWithin(m, g, t.a);
      VertexWithin(m, g, t.b);
      VertexWithin(m, g, t.c);
      var points := GeneratedPoints(m, g);
      AreaInDisc(points[t.a], points[t.b], points[t.c].x, points[t.c].y, g.radius);
      assert false;
    }
  }

  lemma VertexWithin(m: Trig, g: Grid, k: nat)
    requires Lawful(m) && ValidGrid(g) && StepY(m, g) > 0.0 && k < |FirstLayer(m, g)|
    ensures k < |GeneratedPoints(m, g)|
    ensures Abs(GeneratedPoints(m, g)[k].x) <= g.radius && Abs(GeneratedPoints(m, g)[k].y) <= g.radius
  {
    LayerPointInDisc(m, g, k);
    DiscBounds(g, GeneratedPoints(m, g)[k].x, GeneratedPoints(m, g)[k].y);
  }

  /** A small grid whose rows and layers the exporter can still tell apart. */
  const TINY_GRID: Grid := Grid(2, 2, 2, 0.00000001, 1.0)

  lemma TinySteps(m: Trig)
    requires Lawful(m)
    ensures ValidGrid(TINY_GRID) && StepY(m, TINY_GRID) > 0.0 && IsTiny(TINY_GRID)
    ensures StepsApart(m, TINY_GRID)
  {
    var g := TINY_GRID;
    QuotientIs(g.radius, 1.0);
    QuotientIs(1.0, 1.0);
    RootOfThree(m);
    TimesIs(g.radius, m.sqrt(3.0));
    TimesIs(g.radius, g.radius);
  }

  lemma TinyIsUnmoved(m: Trig)
    requires Lawful(m) && StepY(m, TINY_GRID) > 0.0
    ensures Unmoved(m, TINY_GRID)
  {
    TimesIs(1.0, 1.0);
    TimesIs(EPSILON, Spread(1.0));
    AxisIsClear(m, TINY_GRID);
  }

  lemma TinyTriangle(m: Trig)
    requires Lawful(m) && StepY(m, TINY_GRID) > 0.0
    ensures Times(StepX(TINY_GRID), StepY(m, TINY_GRID)) <= TOLERANCE
  {
    var g := TINY_GRID;
    StepXIs(g);
    StepYIs(m, g);
    ProductWithin(StepX(g), StepY(m, g), g.radius);
    TimesIs(StepX(g), StepY(m, g));
  }

  /** Its lattice is recovered, but every triangle is dropped: the export is refused, and the strips are not
      covered. */
  lemma TinyGridIsRefused(m: Trig, field: seq<real>, path: string)
    requires Lawful(m) && StepY(m, TINY_GRID) > 0.0 && path != "" && |field| == |GridCoordinates(m, TINY_GRID)|
    ensures GeneratedPoints(m, TINY_GRID) != []
    ensures TopologyOf(GeneratedPoints(m, TINY_GRID)) == Ok(GeneratedTopology(m, TINY_GRID))
    ensures Outcome(m, field, GridCoordinates(m, TINY_GRID), path) == Err(NoTriangles)
    ensures !(forall x, y :: Covered(GeneratedPoints(m, TINY_GRID), LatticeTriangles(m, TINY_GRID), x, y)
                        <==> InLattice(m, TINY_GRID, x, y))
  {
    TinySteps(m);
    TinyIsUnmoved(m);
    SteppedIsRecovered(m, TINY_GRID);
    TinyGridIsEmpty(m, TINY_GRID);
    TinyTriangle(m);
    GeneratedTilesExactlyWhen(m, TINY_GRID);
    LayersAreApart(m, TINY_GRID);
    RowsAreApart(m, TINY_GRID);
    RecoveredExports(m, TINY_GRID, field, path);
  }

  // ----- Shallow grids -----

  lemma HeightWithin(g: Grid, layer: int)
    requires ValidGrid(g) && 0 <= layer < g.zCount
    ensures 0.0 <= Z(g, layer) - Z(g, 0) <= g.depth
  {
    StepZIs(g);
    TimesNext(0, StepZ(g));
    if layer > 0 {
      TimesOrder(0, layer, StepZ(g));
    }
    if layer < g.zCount - 1 {
      TimesOrder(layer, g.zCount - 1, StepZ(g));
    }
  }

  lemma PointHeightWithin(m: Trig, g: Grid, i: nat)
    requires Lawful(m) && ValidGrid(g) && StepY(m, g) > 0.0 && i < |GridPoints(m, g, g.zCount)|
    ensures i < |GeneratedPoints(m, g)| && 0.0 <= GeneratedPoints(m, g)[i].z - Z(g, 0) <= g.depth
  {
    var p := GridPoints(m, g, g.zCount)[i];
    GeneratedPointAt(m, g, i);
    RecoveredIs(m, p);
    GridPointsZ(m, g, g.zCount, p);
    var layer :| 0 <= layer < g.zCount && p.z == Z(g, layer);
    HeightWithin(g, layer);
  }

  lemma AllOneLayer(points: seq<Point>)
    requires points != [] && forall k :: 0 <= k < |points| ==> SameZ(points, k, 0)
    ensures TopologyOf(points) == Err(IncompleteLayers)
  {
    LayerSizeIs(points, |points|, 1);
  }

  /** A grid no deeper than the tolerance looks like a single layer, and its export is refused. */
  lemma ShallowGridIsRefused(m: Trig, g: Grid, field: seq<real>, path: string)
    requires Lawful(m) && ValidGrid(g) && StepY(m, g) > 0.0 && g.depth <= TOLERANCE && path != ""
    requires |field| == |GridCoordinates(m, g)|
    ensures !LayersApart(g)
    ensures Outcome(m, field, GridCoordinates(m, g), path) == Err(IncompleteLayers)
  {
    var points := GeneratedPoints(m, g);
    HeightWithin(g, 1);
    CloseIsApproximate(Z(g, 1), Z(g, 0));
    ExporterUndoesGenerator(m, g);
    GeneratedCount(m, g);
    forall k | 0 <= k < |points|
      ensures SameZ(points, k, 0)
    {
      PointHeightWithin(m, g, k);
      PointHeightWithin(m, g, 0);
      CloseIsApproximate(points[k].z, points[0].z);
    }
    AllOneLayer(points);
    WholeTriples(m, GridPoints(m, g, g.zCount));
  }

  lemma GeneratedCount(m: Trig, g: Grid)
    requires Lawful(m) && ValidGrid(g) && StepY(m, g) > 0.0
    ensures |GeneratedPoints(m, g)| == |GridPoints(m, g, g.zCount)| > 0
  {
    ExporterUndoesGenerator(m, g);
    assert |GridCoordinates(m, g)| == 3 * |GridPoints(m, g, g.zCount)|;
  }

  /** Two layers, one tolerance apart. */
  const SHALLOW_GRID: Grid := Grid(2, 2, 2, 1.0, TOLERANCE)

  /** So the exporter does not undo the generator on every valid grid. */
  lemma ShallowGridIsNotRecovered(m: Trig)
    requires Lawful(m)
    ensures ValidGrid(SHALLOW_GRID) && StepY(m, SHALLOW_GRID) > 0.0 && GeneratedPoints(m, SHALLOW_GRID) != []
    ensures TopologyOf(GeneratedPoints(m, SHALLOW_GRID)) != Ok(GeneratedTopology(m, SHALLOW_GRID))
  {
    StepYIs(m, SHALLOW_GRID);
    HeightWithin(SHALLOW_GRID, 1);
    CloseIsApproximate(Z(SHALLOW_GRID, 1), Z(SHALLOW_GRID, 0));
    ExporterUndoesGenerator(m, SHALLOW_GRID);
  }
}
