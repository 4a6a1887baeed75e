/** The mesh of a generated grid none of whose points is moved onto the axis: tiling, conformity, area and
    volume. */
module GridVolume {
  import opened Numeric
  import opened Arithmetic
  import opened Geometry
  import opened Strip
  import opened Walk
  import opened LayerMesh
  import opened Conformity
  import opened GridLattice
  import opened GridKernel
  import opened VtkExporter
  import opened VtkFile
  import opened GridRecovery
  import opened GridMesh
  import opened GridExport
  import opened LatticeAxis
  import opened RegularLayer
  import opened Extrusion

  // ----- The rows are regular -----

  /** The exporter gets every lattice point of row r back exactly. */
  ghost predicate RowUnmoved(m: Trig, g: Grid, r: nat)
    requires ValidGrid(g) && StepY(m, g) > 0.0 && r < |AllRows(m, g)|
  {
    forall k :: AllRows(m, g)[r].begin <= k < AllRows(m, g)[r].end && k < |FirstLayer(m, g)|
      ==> Recovered(m, FirstLayer(m, g)[k]) == FirstLayer(m, g)[k]
  }

  lemma UnmovedPoint(m: Trig, g: Grid, r: nat, k: nat)
    requires Lawful(m) && ValidGrid(g) && StepY(m, g) > 0.0 && r < |AllRows(m, g)| && RowUnmoved(m, g, r)
    requires AllRows(m, g)[r].begin <= k < AllRows(m, g)[r].end
    ensures r < |RowNumbers(m, g, VisitedRows(m, g))| && k < |FirstLayer(m, g)| <= |GeneratedPoints(m, g)|
    ensures GeneratedPoints(m, g)[k] == FirstLayer(m, g)[k]
    ensures GeneratedPoints(m, g)[k].y == Y(m, g, RowNumbers(m, g, VisitedRows(m, g))[r])
  {
    PointOfListedRow(m, g, r, k);
  }

  lemma InOrder(m: Trig, g: Grid, k: nat, l: nat)
    requires Lawful(m) && ValidGrid(g) && StepY(m, g) > 0.0 && k < l < |FirstLayer(m, g)|
    ensures Before(FirstLayer(m, g)[k], FirstLayer(m, g)[l])
  {
    LayerOrdered(m, g, VisitedRows(m, g), Z(g, 0));
  }

  /** Later points of a row are at least one step further right. */
  lemma RowGaps(m: Trig, g: Grid, r: nat, k: nat, l: nat)
    requires Lawful(m) && ValidGrid(g) && StepY(m, g) > 0.0 && r < |AllRows(m, g)| && RowUnmoved(m, g, r)
    requires AllRows(m, g)[r].begin <= k < l < AllRows(m, g)[r].end
    ensures l < |GeneratedPoints(m, g)|
    ensures GeneratedPoints(m, g)[l].x - GeneratedPoints(m, g)[k].x >= StepX(g) > 0.0
  {
    UnmovedPoint(m, g, r, k);
    UnmovedPoint(m, g, r, l);
    LatticeRowAt(m, g, VisitedRows(m, g), r);
    var number := RowNumbers(m, g, VisitedRows(m, g))[r];
    var c := PointOfRow(m, g, number, k);
    var d := PointOfRow(m, g, number, l);
    InOrder(m, g, k, l);
    StepXIs(g);
    TimesOrder(c, d, StepX(g));
    TimesOrder(d, c, StepX(g));
  }

  /** Later rows are at least one step higher. */
  lemma RowRises(m: Trig, g: Grid, r: nat, s: nat)
    requires Lawful(m) && ValidGrid(g) && StepY(m, g) > 0.0 && r < s < |AllRows(m, g)|
    requires RowUnmoved(m, g, r) && RowUnmoved(m, g, s) && ValidRows(GeneratedPoints(m, g), AllRows(m, g))
    ensures StripHeight(GeneratedPoints(m, g), AllRows(m, g)[r], AllRows(m, g)[s]) >= StepY(m, g)
  {
    UnmovedPoint(m, g, r, AllRows(m, g)[r].begin);
    UnmovedPoint(m, g, s, AllRows(m, g)[s].begin);
    var numbers := RowNumbers(m, g, VisitedRows(m, g));
    RowNumbersIncrease(m, g, VisitedRows(m, g), r, s);
    TimesOrder(numbers[r], numbers[s], StepY(m, g));
  }

  lemma GeneratedRowIsRegular(m: Trig, g: Grid, r: nat)
    requires Lawful(m) && ValidGrid(g) && StepY(m, g) > 0.0 && r < |AllRows(m, g)| && RowUnmoved(m, g, r)
    ensures RegularRow(GeneratedPoints(m, g), AllRows(m, g)[r], StepX(g))
  {
    ListedRowsAreValid(m, g);
    var points, row := GeneratedPoints(m, g), AllRows(m, g)[r];
    UnmovedPoint(m, g, r, row.begin);
    forall k | row.begin <= k < row.end
      ensures points[k].y == RowHeight(points, row)
    {
      UnmovedPoint(m, g, r, k);
    }
    forall k, l | row.begin <= k < l < row.end
      ensures points[l].x - points[k].x >= StepX(g)
    {
      RowGaps(m, g, r, k, l);
    }
  }

  /** The layer of a generated grid is regular: gaps of one step in x, heights of one step in y. */
  lemma GeneratedIsRegular(m: Trig, g: Grid)
    requires Lawful(m) && ValidGrid(g) && StepY(m, g) > 0.0 && Unmoved(m, g)
    ensures Regular(GeneratedPoints(m, g), AllRows(m, g), StepX(g), StepY(m, g))
  {
    StepXIs(g);
    ListedRowsAreValid(m, g);
    forall r | 0 <= r < |AllRows(m, g)|
      ensures RegularRow(GeneratedPoints(m, g), AllRows(m, g)[r], StepX(g))
    {
      GeneratedRowIsRegular(m, g, r);
    }
    forall r, s | 0 <= r < s < |AllRows(m, g)|
      ensures RisesBy(GeneratedPoints(m, g), AllRows(m, g)[r], AllRows(m, g)[s], StepY(m, g))
    {
      RowRises(m, g, r, s);
    }
  }

  /** Whether (x, y) lies in the union of the strips of the lattice rows. */
  ghost predicate InLattice(m: Trig, g: Grid, x: real, y: real)
    requires Lawful(m) && ValidGrid(g) && StepY(m, g) > 0.0
  {
    ListedRowsAreValid(m, g);
    InLayer(GeneratedPoints(m, g), AllRows(m, g), x, y)
  }

  /** Twice the area of the union of those strips. */
  ghost function LatticeArea(m: Trig, g: Grid): real
    requires Lawful(m) && ValidGrid(g) && StepY(m, g) > 0.0
  {
    ListedRowsAreValid(m, g);
    LayerArea(GeneratedPoints(m, g), AllRows(m, g))
  }

  /** Tiling of a generated layer: when no point is moved and a lattice triangle exceeds the tolerance,
      the triangles tile the union of the strips. */
  lemma GeneratedTiling(m: Trig, g: Grid)
    requires Lawful(m) && ValidGrid(g) && StepY(m, g) > 0.0 && Unmoved(m, g)
    requires Times(StepX(g), StepY(m, g)) > TOLERANCE
    ensures InteriorsDisjoint(GeneratedPoints(m, g), LatticeTriangles(m, g))
    ensures forall x, y :: Covered(GeneratedPoints(m, g), LatticeTriangles(m, g), x, y) <==> InLattice(m, g, x, y)
  {
    GeneratedIsRegular(m, g);
    RegularTiling(GeneratedPoints(m, g), AllRows(m, g), StepX(g), StepY(m, g));
  }

  /** The doubled areas of its triangles sum to the doubled area of the strips. */
  lemma GeneratedArea(m: Trig, g: Grid)
    requires Lawful(m) && ValidGrid(g) && StepY(m, g) > 0.0 && Unmoved(m, g)
    requires Times(StepX(g), StepY(m, g)) > TOLERANCE
    ensures TotalArea(GeneratedPoints(m, g), LatticeTriangles(m, g)) == LatticeArea(m, g)
  {
    GeneratedIsRegular(m, g);
    RegularArea(GeneratedPoints(m, g), AllRows(m, g), StepX(g), StepY(m, g));
  }

  /** No candidate triangle of the lattice is dropped, so the layer mesh is conforming. */
  lemma GeneratedIsConforming(m: Trig, g: Grid)
    requires Lawful(m) && ValidGrid(g) && StepY(m, g) > 0.0 && Unmoved(m, g)
    requires Times(StepX(g), StepY(m, g)) > TOLERANCE
    ensures IsLayer(GeneratedPoints(m, g), AllRows(m, g))
  {
    GeneratedIsRegular(m, g);
    RegularIsFlat(GeneratedPoints(m, g), AllRows(m, g), StepX(g), StepY(m, g));
    RegularIsKept(GeneratedPoints(m, g), AllRows(m, g), StepX(g), StepY(m, g));
    TwoRowsNotEmpty(m, g);
    LatticeRowsFollow(m, g, VisitedRows(m, g));
    KeptIsComplete(GeneratedPoints(m, g), AllRows(m, g));
  }

  // ----- Volume -----

  lemma GeneratedIsCopied(m: Trig, g: Grid)
    requires Lawful(m) && ValidGrid(g) && StepY(m, g) > 0.0
    ensures CopiedLayers(GeneratedPoints(m, g), |FirstLayer(m, g)|, g.zCount)
  {
    forall layer, k | 0 <= layer < g.zCount && 0 <= k < |FirstLayer(m, g)|
      ensures CopiedAt(GeneratedPoints(m, g), |FirstLayer(m, g)|, layer, k)
    {
      PointOfLayer(m, g, layer, k);
      PointOfLayer(m, g, layer, 0);
      GeneratedFirstLayer(m, g, k);
      RecoveredIs(m, FirstLayer(m, g)[k]);
    }
  }

  /** Every z of the last layer is half the depth, and of the first layer minus half the depth. */
  lemma GeneratedDepth(m: Trig, g: Grid)
    requires Lawful(m) && ValidGrid(g) && StepY(m, g) > 0.0
    ensures 0 < |FirstLayer(m, g)| && (g.zCount - 1) * |FirstLayer(m, g)| < |GeneratedPoints(m, g)|
    ensures GeneratedPoints(m, g)[(g.zCount - 1) * |FirstLayer(m, g)|].z - GeneratedPoints(m, g)[0].z == g.depth
  {
    TwoRowsNotEmpty(m, g);
    PointOfLayer(m, g, g.zCount - 1, 0);
    GeneratedFirstLayer(m, g, 0);
    FirstLayerZ(m, g, 0);
    RecoveredIs(m, FirstLayer(m, g)[0]);
    StepZIs(g);
    TimesNext(0, StepZ(g));
  }

  lemma GeneratedVertices(m: Trig, g: Grid)
    requires Lawful(m) && ValidGrid(g) && StepY(m, g) > 0.0
    ensures VerticesBelow(LatticeTriangles(m, g), |FirstLayer(m, g)|)
  {
    ListedRowsAreValid(m, g);
    var points, rows, n := GeneratedPoints(m, g), AllRows(m, g), |FirstLayer(m, g)|;
    LatticeRowsFollow(m, g, VisitedRows(m, g));
    forall r | 0 <= r < |rows|
      ensures rows[r].end <= n
    {
      PointOfListedRow(m, g, r, rows[r].end - 1);
    }
    forall t | t in LatticeTriangles(m, g)
      ensures t.a < n && t.b < n && t.c < n
    {
      LayerVertices(points, rows, n, t);
    }
  }

  lemma VolumeOverLattice(m: Trig, g: Grid, triangles: seq<Triangle>, wedges: seq<Wedge>)
    requires Lawful(m) && ValidGrid(g) && StepY(m, g) > 0.0 && VerticesBelow(triangles, |FirstLayer(m, g)|)
    requires wedges == WedgesOver(triangles, |FirstLayer(m, g)|, g.zCount)
    ensures MeshVolume(GeneratedPoints(m, g), wedges)
         == Times(TotalArea(GeneratedPoints(m, g), triangles), g.depth)
  {
    GeneratedDepth(m, g);
    GeneratedIsCopied(m, g);
    VolumeOfCopies(GeneratedPoints(m, g), |FirstLayer(m, g)|, g.zCount, triangles, g.depth);
  }

  lemma LatticeVolume(m: Trig, g: Grid)
    requires Lawful(m) && ValidGrid(g) && StepY(m, g) > 0.0
    ensures MeshVolume(GeneratedPoints(m, g), LatticeWedges(m, g))
         == Times(TotalArea(GeneratedPoints(m, g), LatticeTriangles(m, g)), g.depth)
  {
    GeneratedVertices(m, g);
    VolumeOverLattice(m, g, LatticeTriangles(m, g), LatticeWedges(m, g));
  }

  /** The doubled wedge volumes sum to the doubled layer area times the depth of the grid. */
  lemma GeneratedVolume(m: Trig, g: Grid)
    requires Lawful(m) && ValidGrid(g) && StepY(m, g) > 0.0 && Unmoved(m, g)
    requires Times(StepX(g), StepY(m, g)) > TOLERANCE
    ensures MeshVolume(GeneratedPoints(m, g), LatticeWedges(m, g))
         == Times(LatticeArea(m, g), g.depth)
  {
    GeneratedArea(m, g);
    LatticeVolume(m, g);
  }

  // ----- The detector -----

  /** `TpcGeometry::kRadius` and `TpcGeometry::kLength`. */
  const DETECTOR_RADIUS: real := 4.0
  const DETECTOR_LENGTH: real := 7.0

  /** Grids over the detector with up to ten million points in each direction. */
  ghost predicate DetectorGrid(g: Grid) {
    && g.radius == DETECTOR_RADIUS && g.depth == DETECTOR_LENGTH
    && 2 <= g.xCount <= 10000000 && 2 <= g.yCount <= 10000000 && 2 <= g.zCount <= 10000000
  }

  lemma QuotientAtLeast(a: real, b: real, q: real)
    requires a > 0.0 && 1.0 <= b <= 10000000.0 && q * 10000000.0 <= a && q > 0.0
    ensures Quotient(a, b) >= q
  {
    var d := Quotient(a, b);
    QuotientIs(a, b);
    TimesIs(d, b);
    assert q * b <= q * 10000000.0;
    assert d < q ==> d * b < q * b;
  }

  lemma DetectorSteps(m: Trig, g: Grid)
    requires Lawful(m) && DetectorGrid(g)
    ensures StepX(g) >= 0.0000004 && StepZ(g) >= 0.0000007 && StepY(m, g) >= 0.00000034
  {
    QuotientAtLeast(4.0, (g.xCount - 1) as real, 0.0000004);
    QuotientAtLeast(4.0, (g.yCount - 1) as real, 0.0000004);
    QuotientAtLeast(7.0, (g.zCount - 1) as real, 0.0000007);
    RootOfThree(m);
    ProductAtLeast(Quotient(4.0, (g.yCount - 1) as real), m.sqrt(3.0), 0.0000004, 1.7);
  }

  /** Such grids are well-scaled and keep clear of the axis. */
  lemma DetectorIsWellScaled(m: Trig, g: Grid)
    requires Lawful(m) && DetectorGrid(g)
    ensures ValidGrid(g) && StepY(m, g) > 0.0 && WellScaled(m, g) && Unmoved(m, g)
    ensures Times(StepX(g), StepY(m, g)) > TOLERANCE
  {
    DetectorSteps(m, g);
    ProductAtLeast(StepX(g), StepY(m, g) - EPSILON, 0.0000004, 0.00000033);
    ProductAtLeast(StepX(g), StepY(m, g), 0.0000004, 0.00000034);
    var b := (g.yCount - 1) as real;
    SpreadBound(b);
    AxisIsClear(m, g);
  }

  lemma ProductAtLeast(a: real, b: real, c: real, d: real)
    requires a >= c > 0.0 && b >= d > 0.0
    ensures Times(a, b) >= c * d
  {
    TimesIs(a, b);
    assert (a - c) * b >= 0.0;
    assert c * (b - d) >= 0.0;
  }

  lemma SpreadBound(b: real)
    requires 1.0 <= b <= 10000000.0
    ensures Times(EPSILON, Spread(b)) <= 4.0
  {
    TimesIs(b, b);
    TimesIs(EPSILON, Spread(b));
    SquareOrder(b, 10000000.0);
  }

  /** Over the detector, for every grid the interface accepts up to that size: the export has the outcome of the
      lattice, the triangles tile the layer and conform, volumes add up, and the only error possible is too
      many cells. */
  lemma DetectorPipeline(m: Trig, g: Grid, field: seq<real>, path: string)
    requires Lawful(m) && DetectorGrid(g) && ValidGrid(g) && StepY(m, g) > 0.0 && path != ""
    requires |field| == |GridCoordinates(m, g)|
    ensures Outcome(m, field, GridCoordinates(m, g), path) == LatticeMesh(m, g, GridVectors(m, g, field))
    ensures var outcome := LatticeMesh(m, g, GridVectors(m, g, field)); outcome.Ok? || outcome == Err(TooManyCells)
    ensures InteriorsDisjoint(GeneratedPoints(m, g), LatticeTriangles(m, g))
    ensures forall x, y :: Covered(GeneratedPoints(m, g), LatticeTriangles(m, g), x, y) <==> InLattice(m, g, x, y)
    ensures IsLayer(GeneratedPoints(m, g), AllRows(m, g))
    ensures MeshVolume(GeneratedPoints(m, g), LatticeWedges(m, g))
         == Times(LatticeArea(m, g), DETECTOR_LENGTH)
  {
    DetectorIsWellScaled(m, g);
    WellScaledExports(m, g, field, path);
    WellScaledErrors(m, g, GridVectors(m, g, field));
    GeneratedTiling(m, g);
    GeneratedIsConforming(m, g);
    GeneratedVolume(m, g);
  }
}
