/** How many points and triangles a generated grid has at most, and that a well-scaled grid of countable resolution
    is exported. */
module GridCounts {
  import opened Numeric
  import opened Arithmetic
  import opened Geometry
  import opened Walk
  import opened LayerMesh
  import opened GridLattice
  import opened GridKernel
  import opened VtkExporter
  import opened VtkFile
  import opened GridRecovery
  import opened GridMesh
  import opened GridExport

  lemma {:induction false} RowPointsCount(m: Trig, g: Grid, row: nat, columns: nat, z: real)
    requires ValidGrid(g)
    ensures |RowPoints(m, g, row, columns, z)| <= columns
  {
    if columns > 0 {
      RowPointsCount(m, g, row, columns - 1, z);
    }
  }

  lemma {:induction false} LayerPointsCount(m: Trig, g: Grid, rows: nat, z: real)
    requires ValidGrid(g)
    ensures |LayerPoints(m, g, rows, z)| <= rows * ColumnCount(g)
  {
    if rows > 0 {
      LayerPointsCount(m, g, rows - 1, z);
      RowPointsCount(m, g, rows - 1, ColumnCount(g), z);
      assert rows * ColumnCount(g) == (rows - 1) * ColumnCount(g) + ColumnCount(g);
    }
  }

  /** The rows are fewer than three to a step of the y resolution, and one. */
  lemma RowCountBound(m: Trig, g: Grid)
    requires Lawful(m) && ValidGrid(g) && StepY(m, g) > 0.0
    ensures RowCount(m, g) <= 3 * (g.yCount - 1) + 1
  {
    var step, room, b := StepY(m, g), 2.0 * g.radius + StepY(m, g) * 0.5, (g.yCount - 1) as real;
    StepYIs(m, g);
    RootOfThree(m);
    TimesIs(b, step);
    TimesIs(g.radius, m.sqrt(3.0));
    QuotientIs(room, step);
    TimesIs(Quotient(room, step), step);
    ReachOfSteps(Quotient(room, step), step, b, g.radius, m.sqrt(3.0));
  }

  lemma ReachOfSteps(q: real, step: real, b: real, radius: real, s: real)
    requires step > 0.0 && b >= 1.0 && radius > 0.0 && s > 1.7
    requires q * step == 2.0 * radius + step * 0.5 && b * step == radius * s * 0.5
    ensures q <= 3.0 * b
  {
    Nonnegative(radius, s - 1.7);
    Nonnegative(b - 1.0, step);
    assert radius * (s - 1.7) == radius * s - 1.7 * radius;
    assert (b - 1.0) * step == b * step - step;
    ScaleSign(step, 3.0 * b - q);
    assert step * (3.0 * b - q) == 3.0 * (b * step) - q * step;
  }

  /** Steps of the resolution in all three directions. */
  ghost function Resolution(g: Grid): nat
    requires ValidGrid(g)
  {
    CountTimes(LayerResolution(g), g.zCount - 1)
  }

  /** The same in one layer. */
  ghost function LayerResolution(g: Grid): nat
    requires ValidGrid(g)
  {
    CountTimes(g.xCount - 1, g.yCount - 1)
  }

  lemma FirstLayerCount(m: Trig, g: Grid)
    requires Lawful(m) && ValidGrid(g) && StepY(m, g) > 0.0
    ensures |FirstLayer(m, g)| <= 12 * LayerResolution(g)
  {
    CountTimesIs(g.xCount - 1, g.yCount - 1);
    RowCountBound(m, g);
    LayerPointsCount(m, g, VisitedRows(m, g), Z(g, 0));
    LayerCountBound(VisitedRows(m, g), g.xCount - 1, g.yCount - 1);
  }

  lemma LayerCountBound(rows: nat, a: nat, b: nat)
    requires rows <= 3 * b + 1 && a >= 1 && b >= 1
    ensures rows * (2 * a + 1) <= 12 * (a * b)
  {
    Grows(rows, 3 * b + 1, 2 * a + 1);
    Grows(1, b, a);
    Grows(1, a, b);
    assert (3 * b + 1) * (2 * a + 1) == 6 * (a * b) + 3 * b + 2 * a + 1;
  }

  lemma Grows(a: int, b: int, c: int)
    requires a <= b && c >= 0
    ensures a * c <= b * c
  {
  }

  lemma TriangleCount(m: Trig, g: Grid)
    requires Lawful(m) && ValidGrid(g) && StepY(m, g) > 0.0
    ensures |LatticeTriangles(m, g)| <= 2 * |FirstLayer(m, g)|
  {
    ListedRowsAreValid(m, g);
    TwoRowsNotEmpty(m, g);
    LatticeRowsFollow(m, g, VisitedRows(m, g));
    TrianglesBelow(GeneratedPoints(m, g), AllRows(m, g), |FirstLayer(m, g)|);
  }

  lemma TrianglesBelow(points: seq<Point>, rows: seq<Row>, size: nat)
    requires ValidRows(points, rows) && RowsFillUpTo(rows, size) && rows != []
    ensures |LayerTriangles(points, rows)| <= 2 * size
  {
    LayerFitsReservation(points, rows);
  }

  /** The counts of cells and coordinates of a grid with this resolution fit a `std::size_t`. */
  ghost predicate Countable(g: Grid)
    requires ValidGrid(g)
  {
    168 * Resolution(g) <= SIZE_MAX
  }

  lemma CellsAreCountable(m: Trig, g: Grid)
    requires Lawful(m) && ValidGrid(g) && StepY(m, g) > 0.0 && Countable(g)
    ensures CellsFit(LatticeTriangles(m, g), g.zCount)
  {
    FirstLayerCount(m, g);
    TriangleCount(m, g);
    CountsFit(g, LatticeTriangles(m, g), |FirstLayer(m, g)|);
  }

  lemma PointsAreCountable(m: Trig, g: Grid)
    requires Lawful(m) && ValidGrid(g) && StepY(m, g) > 0.0 && Countable(g)
    ensures 3 * |GridPoints(m, g, g.zCount)| <= SIZE_MAX
  {
    FirstLayerCount(m, g);
    GridPointCount(m, g);
    CountsFit(g, [], |FirstLayer(m, g)|);
  }

  lemma GridPointCount(m: Trig, g: Grid)
    requires Lawful(m) && ValidGrid(g) && StepY(m, g) > 0.0
    ensures |GridPoints(m, g, g.zCount)| == g.zCount * |FirstLayer(m, g)|
  {
    TwoRowsNotEmpty(m, g);
    GridPointAt(m, g, g.zCount, 0, 0);
  }

  lemma CountsFit(g: Grid, triangles: seq<Triangle>, n: nat)
    requires ValidGrid(g) && Countable(g)
    requires |triangles| <= 2 * n && n <= 12 * LayerResolution(g)
    ensures CellsFit(triangles, g.zCount)
    ensures 3 * (g.zCount * n) <= SIZE_MAX
  {
    CountTimesIs(|triangles|, g.zCount - 1);
    CountTimesIs(LayerResolution(g), g.zCount - 1);
    ProductsFit(|triangles|, n, LayerResolution(g), g.zCount - 1);
  }

  lemma ProductsFit(triangles: int, n: int, area: int, gaps: int)
    requires 0 <= triangles <= 2 * n && n <= 12 * area && gaps >= 1
    ensures triangles * gaps * 7 <= 168 * (area * gaps)
    ensures 3 * ((gaps + 1) * n) <= 168 * (area * gaps)
  {
    Grows(triangles, 24 * area, gaps);
    Grows(n, 12 * area, gaps);
    Grows(1, gaps, n);
    assert (24 * area) * gaps == 24 * (area * gaps) && (12 * area) * gaps == 12 * (area * gaps);
    assert (gaps + 1) * n == gaps * n + n;
  }

  /** A well-scaled grid of countable resolution is exported without error. */
  lemma CountableExports(m: Trig, g: Grid, field: seq<real>, path: string)
    requires Lawful(m) && ValidGrid(g) && StepY(m, g) > 0.0 && WellScaled(m, g) && Countable(g) && path != ""
    requires |field| == |GridCoordinates(m, g)|
    ensures Outcome(m, field, GridCoordinates(m, g), path) == Ok(FullMesh(m, g, GridVectors(m, g, field)))
  {
    WellScaledExports(m, g, field, path);
    WellScaledTriangulates(m, g);
    CellsAreCountable(m, g);
  }
}
