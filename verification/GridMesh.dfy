/** What the exporter makes of a generated grid whose steps exceed its tolerance: the triangulation is
    never empty, it tiles the layer, and areas and volumes add up. */
module GridMesh {
  import opened Numeric
  import opened Arithmetic
  import opened Geometry
  import opened Strip
  import opened Walk
  import opened LayerMesh
  import opened GridLattice
  import opened GridKernel
  import opened VtkExporter
  import opened VtkFile
  import opened GridRecovery

  /** Layers and rows are further apart than the exporter's tolerance at the scale of the grid. The epsilon pays
      for the point the generator may move onto the axis. */
  ghost predicate StepsApart(m: Trig, g: Grid)
    requires ValidGrid(g)
  {
    StepZ(g) > TOLERANCE * Max(1.0, g.depth * 0.5) && RowStepApart(m, g)
  }

  ghost predicate RowStepApart(m: Trig, g: Grid)
    requires ValidGrid(g)
  {
    StepY(m, g) > TOLERANCE * Max(1.0, g.radius) + EPSILON
  }

  /** Within a layer, so is the area of a lattice triangle. */
  ghost predicate LayerWellScaled(m: Trig, g: Grid)
    requires ValidGrid(g)
  {
    && RowStepApart(m, g)
    && Times(StepX(g), StepY(m, g) - EPSILON) > TOLERANCE
    && StepX(g) >= 2.0 * EPSILON
  }

  ghost predicate WellScaled(m: Trig, g: Grid)
    requires ValidGrid(g)
  {
    StepsApart(m, g) && LayerWellScaled(m, g)
  }

  lemma LayersAreApart(m: Trig, g: Grid)
    requires ValidGrid(g) && StepsApart(m, g)
    ensures LayersApart(g)
  {
    StepZIs(g);
    TimesNext(0, StepZ(g));
    ApartAtScale(Z(g, 1), Z(g, 0), Max(1.0, g.depth * 0.5));
  }

  // ----- Rows of the layer -----

  /** Point k of row r of the list, before and after the buffer. */
  lemma PointOfListedRow(m: Trig, g: Grid, r: nat, k: nat)
    requires Lawful(m) && ValidGrid(g) && StepY(m, g) > 0.0 && r < |AllRows(m, g)|
    requires AllRows(m, g)[r].begin <= k < AllRows(m, g)[r].end
    ensures r < |RowNumbers(m, g, VisitedRows(m, g))|
    ensures k < |FirstLayer(m, g)| <= |GeneratedPoints(m, g)|
    ensures FirstLayer(m, g)[k].y == Y(m, g, RowNumbers(m, g, VisitedRows(m, g))[r])
    ensures Abs(FirstLayer(m, g)[k].y) <= g.radius
    ensures GeneratedPoints(m, g)[k] == Recovered(m, FirstLayer(m, g)[k])
  {
    LatticeRowAt(m, g, VisitedRows(m, g), r);
    var number := RowNumbers(m, g, VisitedRows(m, g))[r];
    var column := PointOfRow(m, g, number, k);
    DiscBounds(g, X(g, number, column), Y(m, g, number));
    GeneratedFirstLayer(m, g, k);
  }

  /** Points of different rows come out at heights that differ by a step, up to epsilon. */
  lemma HeightsApart(m: Trig, g: Grid, p: Point, q: Point)
    requires Lawful(m) && ValidGrid(g) && RowStepApart(m, g)
    requires Abs(p.y) <= g.radius && Abs(q.y) <= g.radius && q.y - p.y >= StepY(m, g)
    ensures Recovered(m, q).y - Recovered(m, p).y >= StepY(m, g) - EPSILON
    ensures !ApproximatelyEqual(Recovered(m, q).y, Recovered(m, p).y)
  {
    RecoveredIs(m, p);
    RecoveredIs(m, q);
    HypotBounds(m, p.x, p.y);
    HypotBounds(m, q.x, q.y);
    assert TOLERANCE * Max(1.0, g.radius) >= TOLERANCE;
    ApartAtScale(Recovered(m, q).y, Recovered(m, p).y, Max(1.0, g.radius));
  }

  lemma ListedRowsApart(m: Trig, g: Grid, r: nat, s: nat, k: nat, l: nat)
    requires Lawful(m) && ValidGrid(g) && StepY(m, g) > 0.0 && RowStepApart(m, g) && r < s < |AllRows(m, g)|
    requires AllRows(m, g)[r].begin <= k < AllRows(m, g)[r].end
    requires AllRows(m, g)[s].begin <= l < AllRows(m, g)[s].end
    ensures k < |GeneratedPoints(m, g)| && l < |GeneratedPoints(m, g)|
    ensures GeneratedPoints(m, g)[l].y - GeneratedPoints(m, g)[k].y >= StepY(m, g) - EPSILON
    ensures !SameY(GeneratedPoints(m, g), l, k)
  {
    PointOfListedRow(m, g, r, k);
    PointOfListedRow(m, g, s, l);
    var numbers := RowNumbers(m, g, VisitedRows(m, g));
    RowNumbersIncrease(m, g, VisitedRows(m, g), r, s);
    TimesOrder(numbers[r], numbers[s], StepY(m, g));
    HeightsApart(m, g, FirstLayer(m, g)[k], FirstLayer(m, g)[l]);
  }

  lemma RowsAreApart(m: Trig, g: Grid)
    requires Lawful(m) && ValidGrid(g) && StepY(m, g) > 0.0 && RowStepApart(m, g)
    ensures RowsApart(m, g)
  {
    var points, rows := GeneratedPoints(m, g), AllRows(m, g);
    LatticeRowsFollow(m, g, VisitedRows(m, g));
    forall r | 0 <= r < |rows| - 1
      ensures StartApart(points, rows, r)
    {
      ListedRowsApart(m, g, r, r + 1, rows[r].begin, rows[r + 1].begin);
    }
  }

  /** When the steps exceed the tolerance, as on every well-scaled grid, the exporter recovers the lattice. */
  lemma SteppedIsRecovered(m: Trig, g: Grid)
    requires Lawful(m) && ValidGrid(g) && StepsApart(m, g)
    ensures StepY(m, g) > 0.0 && GeneratedPoints(m, g) != []
    ensures TopologyOf(GeneratedPoints(m, g)) == Ok(GeneratedTopology(m, g))
  {
    StepYIs(m, g);
    LayersAreApart(m, g);
    RowsAreApart(m, g);
    ExporterUndoesGenerator(m, g);
  }

  // ----- Some triangle is always kept -----

  /** Some odd row is at most half the root of three times the radius away from the axis. */
  lemma CentralOddRow(m: Trig, g: Grid) returns (row: nat)
    requires Lawful(m) && ValidGrid(g)
    ensures 0 < row && row % 2 == 1 && Abs(Y(m, g, row)) <= Times(g.radius, m.sqrt(3.0)) * 0.5
  {
    var reach, step := Times(g.radius, m.sqrt(3.0)) * 0.5, StepY(m, g);
    StepYIs(m, g);
    RootOfThree(m);
    TimesIs(g.radius, m.sqrt(3.0));
    StepWithinReach(m, g);
    assert g.radius * 1.7 <= g.radius * m.sqrt(3.0);
    TimesNext(0, step);
    row := 1;
    ghost var bound := RowCount(m, g) + 2;
    while Y(m, g, row) < -reach
      invariant 0 < row && row % 2 == 1 && Y(m, g, row) <= reach
      decreases RowCount(m, g) - row
    {
      RowGuard(m, g, row);
      TimesNext(row, step);
      TimesNext(row + 1, step);
      row := row + 2;
    }
  }

  lemma StepWithinReach(m: Trig, g: Grid)
    requires Lawful(m) && ValidGrid(g)
    ensures StepY(m, g) <= Times(g.radius, m.sqrt(3.0)) * 0.5
  {
    StepYIs(m, g);
    TimesOrder(1, g.yCount - 1, StepY(m, g));
    TimesIs(1.0, StepY(m, g));
  }

  /** In such a row the two points half a step left and right of the axis are in the disc. */
  lemma CentralPair(m: Trig, g: Grid, row: nat)
    requires Lawful(m) && ValidGrid(g) && row % 2 == 1
    requires Abs(Y(m, g, row)) <= Times(g.radius, m.sqrt(3.0)) * 0.5
    ensures X(g, row, g.xCount - 2) == -StepX(g) * 0.5 && X(g, row, g.xCount - 1) == StepX(g) * 0.5
    ensures Visible(m, g, row, g.xCount - 2) && Visible(m, g, row, g.xCount - 1)
  {
    StepXIs(g);
    TimesNext(g.xCount - 2, StepX(g));
    HalfStepInDisc(m, g, StepX(g) * 0.5, Y(m, g, row));
    HalfStepInDisc(m, g, -StepX(g) * 0.5, Y(m, g, row));
  }

  lemma HalfStepInDisc(m: Trig, g: Grid, x: real, y: real)
    requires Lawful(m) && g.radius > 0.0
    requires Abs(x) <= g.radius * 0.5 && Abs(y) <= Times(g.radius, m.sqrt(3.0)) * 0.5
    ensures InDisc(g, x, y)
  {
    var r, s := g.radius, m.sqrt(3.0);
    RootOfThree(m);
    TimesIs(r, s);
    TimesIs(x, x);
    TimesIs(y, y);
    TimesIs(r, r);
    var a, b := r * 0.5, r * s * 0.5;
    assert b > 0.0 by { Positive(r, s); }
    SquareOrder(x, a);
    SquareOrder(y, b);
    assert a * a == r * r * 0.25;
    assert b * b == r * r * (s * s) * 0.25;
    RootLaw(m, 3.0);
  }

  lemma Positive(a: real, b: real)
    requires a > 0.0 && b > 0.0
    ensures a * b > 0.0
  {
  }

  /** Where a visible column stands in its row. */
  lemma {:induction false} RowPointAt(m: Trig, g: Grid, row: nat, columns: nat, column: nat, z: real)
    requires ValidGrid(g) && column < columns && Visible(m, g, row, column)
    ensures |RowPoints(m, g, row, column, z)| < |RowPoints(m, g, row, columns, z)|
    ensures RowPoints(m, g, row, columns, z)[|RowPoints(m, g, row, column, z)|] == LatticePoint(m, g, row, column, z)
  {
    if column < columns - 1 {
      RowPointAt(m, g, row, columns - 1, column, z);
    }
  }

  /** Two visible neighbours of a row are neighbours in the layer. */
  lemma NeighboursInLayer(m: Trig, g: Grid, row: nat, column: nat) returns (j: nat)
    requires Lawful(m) && ValidGrid(g) && Visible(m, g, row, column) && Visible(m, g, row, column + 1)
    ensures StepY(m, g) > 0.0 && row < RowCount(m, g)
    ensures RowStart(m, g, row) <= j && j + 1 < RowStart(m, g, row + 1) <= |FirstLayer(m, g)|
    ensures FirstLayer(m, g)[j] == LatticePoint(m, g, row, column, Z(g, 0))
    ensures FirstLayer(m, g)[j + 1] == LatticePoint(m, g, row, column + 1, Z(g, 0))
  {
    VisibleIsVisited(m, g, row, column);
    VisibleIsVisited(m, g, row, column + 1);
    RowPointAt(m, g, row, ColumnCount(g), column, Z(g, 0));
    RowPointAt(m, g, row, ColumnCount(g), column + 1, Z(g, 0));
    RowStartNext(m, g, row);
    var before := |RowPoints(m, g, row, column, Z(g, 0))|;
    assert |RowPoints(m, g, row, column + 1, Z(g, 0))| == before + 1;
    j := RowStart(m, g, row) + before;
    RowBlock(m, g, VisitedRows(m, g), row, j);
    RowBlock(m, g, VisitedRows(m, g), row, j + 1);
    RowBlock(m, g, VisitedRows(m, g), row, RowStart(m, g, row + 1) - 1);
  }

  lemma {:induction false} KeptIsPushed(points: seq<Point>, path: seq<Diagonal>, k: nat)
    requires Linked(|points|, path) && k + 1 < |path| && KeptAt(points, path, k)
    ensures StripTriangles(points, path) != []
  {
    SweptInRange(points, path, 0);
    LinkedTail(points, path);
    if k > 0 {
      assert path[1..][k - 1] == path[k] && path[1..][k] == path[k + 1];
      KeptIsPushed(points, path[1..], k - 1);
    }
  }

  lemma {:induction false} StripIsInLayer(points: seq<Point>, rows: seq<Row>, r: nat)
    requires ValidRows(points, rows) && r + 1 < |rows| && StripMesh(points, rows[r], rows[r + 1]) != []
    ensures LayerTriangles(points, rows) != []
  {
    if r > 0 {
      StripIsInLayer(points, rows[1..], r - 1);
    }
  }

  /** A gap of the upper row of a strip, level and wide enough for the strip's height, gives a triangle. */
  lemma LevelGapIsPushed(points: seq<Point>, lower: Row, upper: Row, j: nat, w: real, h: real)
    requires ValidRow(points, lower) && ValidRow(points, upper) && upper.begin <= j && j + 1 < upper.end
    requires LevelGap(points, j, w) && w > 0.0 && IsAbove(points, lower, j, h) && Times(w, h) > TOLERANCE
    ensures StripMesh(points, lower, upper) != []
  {
    var path := StripPath(points, lower, upper);
    var k := UpperGapIsWalked(|points|, path, j);
    assert path[k] in path && StepAt(path, k);
    var i := path[k].lower;
    UpperArea(points, i, j, points[j].y - points[i].y);
    TimesGrows(w, h, points[j].y - points[i].y);
    assert Swept(path[k], path[k + 1]) == Triangle(i, j, j + 1);
    KeptIsPushed(points, path, k);
  }

  lemma TimesGrows(w: real, h: real, k: real)
    requires w > 0.0 && h <= k
    ensures Times(w, h) <= Times(w, k)
  {
    TimesIs(w, h);
    TimesIs(w, k);
    assert w * (k - h) >= 0.0;
  }

  /** Where the points of a lattice row stand in the layer. */
  ghost function LatticeRow(m: Trig, g: Grid, row: nat): Row
    requires ValidGrid(g)
  {
    Row(RowStart(m, g, row), RowStart(m, g, row + 1))
  }

  /** Vertices j and j + 1 belong to the row. */
  ghost predicate InRow(row: Row, j: nat) {
    row.begin <= j && j + 1 < row.end
  }

  /** Where a lattice row other than the first stands in the list: not at the front. */
  lemma ListedAbove(m: Trig, g: Grid, row: nat, j: nat) returns (r: nat)
    requires Lawful(m) && ValidGrid(g) && StepY(m, g) > 0.0 && 0 < row < RowCount(m, g)
    requires InRow(LatticeRow(m, g, row), j)
    ensures 0 < r < |AllRows(m, g)| && AllRows(m, g)[r] == LatticeRow(m, g, row)
    ensures r < |RowNumbers(m, g, VisitedRows(m, g))| && RowNumbers(m, g, VisitedRows(m, g))[r] == row
  {
    LowRowVisible(m, g, 0);
    VisibleRowNotEmpty(m, g, 0, g.xCount - 1);
    var first := RowIsListed(m, g, VisitedRows(m, g), 0);
    r := RowIsListed(m, g, VisitedRows(m, g), row);
    LatticeRowAt(m, g, VisitedRows(m, g), r);
    if r == 0 {
      RowNumbersIncrease(m, g, VisitedRows(m, g), 0, first);
    }
  }

  /** A point half a step from the axis comes out unchanged. */
  lemma HalfStepIsUnmoved(m: Trig, g: Grid, p: Point)
    requires Lawful(m) && ValidGrid(g) && StepX(g) >= 2.0 * EPSILON && Abs(p.x) == StepX(g) * 0.5
    ensures Recovered(m, p) == p
  {
    RecoveredIs(m, p);
    HypotBounds(m, p.x, p.y);
  }

  /** The gap across the axis in a central row, as the exporter sees it. */
  lemma CentralGap(m: Trig, g: Grid, row: nat) returns (j: nat)
    requires Lawful(m) && ValidGrid(g) && StepY(m, g) > 0.0 && (StepX(g) >= 2.0 * EPSILON || Unmoved(m, g))
    requires row % 2 == 1 && Abs(Y(m, g, row)) <= Times(g.radius, m.sqrt(3.0)) * 0.5
    ensures row < RowCount(m, g)
    ensures InRow(LatticeRow(m, g, row), j)
    ensures LevelGap(GeneratedPoints(m, g), j, StepX(g))
  {
    CentralPair(m, g, row);
    j := NeighboursInLayer(m, g, row, g.xCount - 2);
    GeneratedFirstLayer(m, g, j);
    GeneratedFirstLayer(m, g, j + 1);
    StepXIs(g);
    if StepX(g) >= 2.0 * EPSILON {
      HalfStepIsUnmoved(m, g, FirstLayer(m, g)[j]);
      HalfStepIsUnmoved(m, g, FirstLayer(m, g)[j + 1]);
    }
  }

  lemma ListedRowsAreValid(m: Trig, g: Grid)
    requires Lawful(m) && ValidGrid(g) && StepY(m, g) > 0.0
    ensures ValidRows(GeneratedPoints(m, g), AllRows(m, g))
  {
    LatticeRowsFollow(m, g, VisitedRows(m, g));
    forall r | 0 <= r < |AllRows(m, g)|
      ensures ValidRow(GeneratedPoints(m, g), AllRows(m, g)[r])
    {
      PointOfListedRow(m, g, r, AllRows(m, g)[r].end - 1);
    }
  }

  /** Point l is at least h above every point of the row. */
  ghost predicate IsAbove(points: seq<Point>, row: Row, l: nat, h: real) {
    l < |points| && forall k :: row.begin <= k < row.end && k < |points| ==> points[l].y - points[k].y >= h
  }

  /** Everything in row s of the list is a step above everything in row r, up to epsilon. */
  lemma RowIsAbove(m: Trig, g: Grid, r: nat, s: nat, l: nat)
    requires Lawful(m) && ValidGrid(g) && StepY(m, g) > 0.0 && RowStepApart(m, g) && r < s < |AllRows(m, g)|
    requires AllRows(m, g)[s].begin <= l < AllRows(m, g)[s].end
    ensures IsAbove(GeneratedPoints(m, g), AllRows(m, g)[r], l, StepY(m, g) - EPSILON)
  {
    var points, row := GeneratedPoints(m, g), AllRows(m, g)[r];
    PointOfListedRow(m, g, s, l);
    forall k | row.begin <= k < row.end && k < |points|
      ensures points[l].y - points[k].y >= StepY(m, g) - EPSILON
    {
      ListedRowsApart(m, g, r, s, k, l);
    }
  }

  /** Vertices j and j + 1 stand level, w apart. */
  ghost predicate LevelGap(points: seq<Point>, j: nat, w: real) {
    && j + 1 < |points|
    && points[j + 1] == Point(points[j].x + w, points[j].y, points[j].z)
  }

  /** Some row but the first has a level gap of one step. */
  lemma GapAboveFirst(m: Trig, g: Grid) returns (s: nat, j: nat)
    requires Lawful(m) && ValidGrid(g) && StepY(m, g) > 0.0 && StepX(g) >= 2.0 * EPSILON
    ensures 0 < s < |AllRows(m, g)| && InRow(AllRows(m, g)[s], j)
    ensures LevelGap(GeneratedPoints(m, g), j, StepX(g))
  {
    var row := CentralOddRow(m, g);
    j := CentralGap(m, g, row);
    s := ListedAbove(m, g, row, j);
  }

  /** Some strip holds a triangle. */
  lemma CentralStrip(m: Trig, g: Grid) returns (r: nat)
    requires Lawful(m) && ValidGrid(g) && StepY(m, g) > 0.0 && LayerWellScaled(m, g)
    ensures r + 1 < |AllRows(m, g)| && ValidRows(GeneratedPoints(m, g), AllRows(m, g))
    ensures StripMesh(GeneratedPoints(m, g), AllRows(m, g)[r], AllRows(m, g)[r + 1]) != []
  {
    var s, j := GapAboveFirst(m, g);
    r := s - 1;
    RowIsAbove(m, g, r, s, j);
    ListedRowsAreValid(m, g);
    StepXIs(g);
    LevelGapIsPushed(GeneratedPoints(m, g), AllRows(m, g)[r], AllRows(m, g)[s], j, StepX(g), StepY(m, g) - EPSILON);
  }

  /** The triangles the exporter builds from the lattice rows. */
  ghost function LatticeTriangles(m: Trig, g: Grid): seq<Triangle>
    requires Lawful(m) && ValidGrid(g) && StepY(m, g) > 0.0
  {
    ListedRowsAreValid(m, g);
    LayerTriangles(GeneratedPoints(m, g), AllRows(m, g))
  }

  /** A grid with well-scaled layers never ends in the exporter's empty-triangulation error. */
  lemma WellScaledTriangulates(m: Trig, g: Grid)
    requires Lawful(m) && ValidGrid(g) && StepY(m, g) > 0.0 && LayerWellScaled(m, g)
    ensures LatticeTriangles(m, g) != []
  {
    var r := CentralStrip(m, g);
    StripIsInLayer(GeneratedPoints(m, g), AllRows(m, g), r);
  }

  // ----- The mesh of the lattice -----

  ghost function LatticeWedges(m: Trig, g: Grid): seq<Wedge>
    requires Lawful(m) && ValidGrid(g) && StepY(m, g) > 0.0
  {
    WedgesOver(LatticeTriangles(m, g), |FirstLayer(m, g)|, g.zCount)
  }

  /** The mesh with all wedges of the lattice. */
  ghost function FullMesh(m: Trig, g: Grid, vectors: seq<Point>): Mesh
    requires Lawful(m) && ValidGrid(g) && StepY(m, g) > 0.0
  {
    Mesh(GeneratedPoints(m, g), LatticeWedges(m, g), vectors)
  }

  /** The mesh of the lattice with the given vectors, or the error for no or too many cells. */
  ghost function LatticeMesh(m: Trig, g: Grid, vectors: seq<Point>): Result<Mesh, ExportError>
    requires Lawful(m) && ValidGrid(g) && StepY(m, g) > 0.0
  {
    if LatticeTriangles(m, g) == [] then Err(NoTriangles)
    else if !CellsFit(LatticeTriangles(m, g), g.zCount) then Err(TooManyCells)
    else Ok(FullMesh(m, g, vectors))
  }

  /** The vectors of a field over the grid, in Cartesian components. */
  ghost function GridVectors(m: Trig, g: Grid, field: seq<real>): seq<Point>
    requires ValidGrid(g) && StepY(m, g) > 0.0 && |field| == |GridCoordinates(m, g)|
  {
    FieldVectors(m, field, GridCoordinates(m, g))
  }
}
