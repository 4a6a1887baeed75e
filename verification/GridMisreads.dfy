/** What the exporter reads from the buffer of any valid grid: for each error the grids that end in it, and the grids
    it accepts although it has not recovered them. */
module GridMisreads {
  import opened Numeric
  import opened Arithmetic
  import opened Geometry
  import opened Walk
  import opened LayerMesh
  import opened VtkExporter
  import opened Extrusion
  import opened MergedLayers
  import opened GridLattice
  import opened GridKernel
  import opened GridRecovery
  import opened GridMesh
  import opened GridExport
  import opened GridCounts
  import opened GridVolume

  /** How many layers from the first on compare equal in height to the first, where `known` of them are known to. */
  ghost function MergedFrom(g: Grid, known: nat): (c: nat)
    requires ValidGrid(g) && 0 < known <= g.zCount
    ensures known <= c <= g.zCount
    ensures forall layer :: known <= layer < c ==> ApproximatelyEqual(Z(g, layer), Z(g, 0))
    ensures c < g.zCount ==> !ApproximatelyEqual(Z(g, c), Z(g, 0))
    decreases g.zCount - known
  {
    if known < g.zCount && ApproximatelyEqual(Z(g, known), Z(g, 0)) then MergedFrom(g, known + 1) else known
  }

  /** So many layers the exporter takes for one. */
  ghost function MergedCount(g: Grid): (c: nat)
    requires ValidGrid(g)
    ensures 1 <= c <= g.zCount && (c == 1 <==> LayersApart(g))
  {
    MergedFrom(g, 1)
  }

  /** In every group of c layers all compare equal in height to the lowest. */
  ghost predicate GroupsLookFlat(g: Grid, c: nat)
    requires ValidGrid(g) && c > 0
  {
    forall group, s :: 0 <= group < g.zCount / c && 0 <= s < c ==> LooksFlat(g, c, group, s)
  }

  ghost predicate LooksFlat(g: Grid, c: nat, group: nat, s: nat)
    requires ValidGrid(g)
  {
    ApproximatelyEqual(Z(g, group * c + s), Z(g, group * c))
  }

  /** All points of a layer compare equal in y to the first. */
  ghost predicate LooksLikeOneRow(m: Trig, g: Grid)
    requires ValidGrid(g) && StepY(m, g) > 0.0
  {
    IsOneRow(GeneratedPoints(m, g), |FirstLayer(m, g)|)
  }

  lemma GeneratedStack(m: Trig, g: Grid)
    requires Lawful(m) && ValidGrid(g) && StepY(m, g) > 0.0
    ensures Stacked(GeneratedPoints(m, g), |FirstLayer(m, g)|, g.zCount)
  {
    TwoRowsNotEmpty(m, g);
    PointOfLayer(m, g, 0, 0);
    GeneratedIsCopied(m, g);
  }

  lemma SameLayerIs(m: Trig, g: Grid, a: nat, b: nat)
    requires Lawful(m) && ValidGrid(g) && StepY(m, g) > 0.0 && a < g.zCount && b < g.zCount
    ensures SameLayer(GeneratedPoints(m, g), |FirstLayer(m, g)|, a, b) <==> ApproximatelyEqual(Z(g, a), Z(g, b))
  {
    TwoRowsNotEmpty(m, g);
    PointOfLayer(m, g, a, 0);
    PointOfLayer(m, g, b, 0);
  }

  lemma GeneratedMerge(m: Trig, g: Grid)
    requires Lawful(m) && ValidGrid(g) && StepY(m, g) > 0.0
    ensures IsMerge(GeneratedPoints(m, g), |FirstLayer(m, g)|, g.zCount, MergedCount(g))
  {
    var c := MergedCount(g);
    forall layer | 0 <= layer < c
      ensures SameLayer(GeneratedPoints(m, g), |FirstLayer(m, g)|, layer, 0)
    {
      SameLayerIs(m, g, layer, 0);
      SelfApproximate(Z(g, 0));
    }
    if c < g.zCount {
      SameLayerIs(m, g, c, 0);
    }
  }

  lemma LayerJoinsIs(m: Trig, g: Grid, c: nat, group: nat, s: nat)
    requires Lawful(m) && ValidGrid(g) && StepY(m, g) > 0.0
    requires c > 0 && g.zCount % c == 0 && group < g.zCount / c && s < c
    ensures LayerJoins(GeneratedPoints(m, g), |FirstLayer(m, g)|, c, group, s) <==> LooksFlat(g, c, group, s)
  {
    GroupInRange(g.zCount, c, group, s);
    GroupInRange(g.zCount, c, group, 0);
    SameLayerIs(m, g, group * c + s, group * c);
  }

  lemma GeneratedGroups(m: Trig, g: Grid, c: nat)
    requires Lawful(m) && ValidGrid(g) && StepY(m, g) > 0.0 && c > 0 && g.zCount % c == 0
    ensures GroupsAgree(GeneratedPoints(m, g), |FirstLayer(m, g)|, c, g.zCount / c) <==> GroupsLookFlat(g, c)
  {
    forall group, s | 0 <= group < g.zCount / c && 0 <= s < c
      ensures LayerJoins(GeneratedPoints(m, g), |FirstLayer(m, g)|, c, group, s) <==> LooksFlat(g, c, group, s)
    {
      LayerJoinsIs(m, g, c, group, s);
    }
  }

  /** As many layers as compare equal to the first are taken for one, and its rows are read from all of them. */
  ghost function ReadTopology(m: Trig, g: Grid): Topology
    requires Lawful(m) && ValidGrid(g) && StepY(m, g) > 0.0
  {
    var points, n, c := GeneratedPoints(m, g), |FirstLayer(m, g)|, MergedCount(g);
    MergedInRange(m, g);
    Topology(c * n, g.zCount / c, RowsFrom(points, 0, c * n))
  }

  lemma MergedInRange(m: Trig, g: Grid)
    requires Lawful(m) && ValidGrid(g) && StepY(m, g) > 0.0
    ensures |FirstLayer(m, g)| <= MergedCount(g) * |FirstLayer(m, g)| <= |GeneratedPoints(m, g)|
  {
    GeneratedStack(m, g);
    MergedSizeInRange(|FirstLayer(m, g)|, g.zCount, MergedCount(g));
  }

  /** What the exporter reads from any valid grid. */
  lemma ReadingOfGrid(m: Trig, g: Grid)
    requires Lawful(m) && ValidGrid(g) && StepY(m, g) > 0.0
    ensures GeneratedPoints(m, g) != []
    ensures TopologyOf(GeneratedPoints(m, g)) ==
      if MergedCount(g) == g.zCount || g.zCount % MergedCount(g) != 0 then Err(IncompleteLayers)
      else if !GroupsLookFlat(g, MergedCount(g)) then Err(TopologyDiffers)
      else if LooksLikeOneRow(m, g) then Err(TooFewRows)
      else Ok(ReadTopology(m, g))
  {
    GeneratedStack(m, g);
    GeneratedMerge(m, g);
    ReadingOfStack(GeneratedPoints(m, g), |FirstLayer(m, g)|, g.zCount, MergedCount(g));
    if g.zCount % MergedCount(g) == 0 {
      GeneratedGroups(m, g, MergedCount(g));
    }
  }

  /** The exporter finds nothing wrong with the layers and rows it reads. */
  ghost predicate LooksRegular(m: Trig, g: Grid)
    requires ValidGrid(g) && StepY(m, g) > 0.0
  {
    var c := MergedCount(g);
    c < g.zCount && g.zCount % c == 0 && GroupsLookFlat(g, c) && !LooksLikeOneRow(m, g)
  }

  /** The exporter accepts layers and rows that are not those of the grid if and only if they look regular and either
      the first two layers or the starts of two consecutive rows compare equal; it then takes as many layers for
      one as compare equal to the first. Otherwise it recovers the grid or reports an error. */
  lemma MisreadExactlyWhen(m: Trig, g: Grid)
    requires Lawful(m) && ValidGrid(g) && StepY(m, g) > 0.0
    ensures GeneratedPoints(m, g) != []
    ensures var reading := TopologyOf(GeneratedPoints(m, g));
      && (reading.Err? <==> !LooksRegular(m, g))
      && (reading.Ok? && reading != Ok(GeneratedTopology(m, g)) <==>
            LooksRegular(m, g) && !(LayersApart(g) && RowsApart(m, g)))
      && (reading.Ok? ==> reading.value.layers == g.zCount / MergedCount(g))
  {
    ReadingOfGrid(m, g);
    ExporterUndoesGenerator(m, g);
  }

  /** Four layers of which the exporter takes two for one. */
  const MISREAD_GRID: Grid := Grid(2, 2, 4, 1.0, 1.8 * TOLERANCE)

  lemma MisreadHeights()
    ensures forall layer :: 0 <= layer < 4 ==> Z(MISREAD_GRID, layer) == (-0.9 + 0.6 * layer as real) * TOLERANCE
  {
    var g := MISREAD_GRID;
    QuotientIs(g.depth, 3.0);
    TimesIs(Quotient(g.depth, 3.0), 3.0);
    forall layer | 0 <= layer < 4
      ensures Z(g, layer) == (-0.9 + 0.6 * layer as real) * TOLERANCE
    {
      TimesIs(layer as real, StepZ(g));
    }
  }

  lemma MisreadMerges()
    ensures MergedCount(MISREAD_GRID) == 2 && GroupsLookFlat(MISREAD_GRID, 2)
  {
    var g := MISREAD_GRID;
    MisreadHeights();
    assert ApproximatelyEqual(Z(g, 1), Z(g, 0)) && !ApproximatelyEqual(Z(g, 2), Z(g, 0));
    assert MergedFrom(g, 2) == 2;
    forall group, s | 0 <= group < g.zCount / 2 && 0 <= s < 2
      ensures LooksFlat(g, 2, group, s)
    {
      CloseIsApproximate(Z(g, group * 2 + s), Z(g, group * 2));
    }
  }

  lemma MisreadRows(m: Trig)
    requires Lawful(m) && StepY(m, MISREAD_GRID) > 0.0
    ensures !LooksLikeOneRow(m, MISREAD_GRID)
  {
    var g := MISREAD_GRID;
    QuotientIs(1.0, 1.0);
    RootOfThree(m);
    TimesIs(Quotient(1.0, 1.0), m.sqrt(3.0));
    RowsAreApart(m, g);
    TwoRowsNotEmpty(m, g);
    LatticeRowsFollow(m, g, VisitedRows(m, g));
    var rows := AllRows(m, g);
    assert StartApart(GeneratedPoints(m, g), rows, 0);
    PointOfListedRow(m, g, 1, rows[1].begin);
    assert !SameY(GeneratedPoints(m, g), rows[1].begin, 0);
  }

  /** A valid grid is accepted with half its layers. */
  lemma GridIsMisread(m: Trig)
    requires Lawful(m)
    ensures ValidGrid(MISREAD_GRID) && StepY(m, MISREAD_GRID) > 0.0 && GeneratedPoints(m, MISREAD_GRID) != []
    ensures var reading := TopologyOf(GeneratedPoints(m, MISREAD_GRID));
      reading.Ok? && reading.value.layers == 2 && reading != Ok(GeneratedTopology(m, MISREAD_GRID))
  {
    StepYIs(m, MISREAD_GRID);
    MisreadMerges();
    MisreadRows(m);
    MisreadExactlyWhen(m, MISREAD_GRID);
  }

  // ----- The misread grid is exported -----

  /** Whether the row starts at another height than point k. */
  ghost predicate RowStartsApart(points: seq<Point>, row: Row, k: nat) {
    k < |points| && row.begin < |points| && !SameY(points, k, row.begin)
  }

  lemma AppendRows(points: seq<Point>, first: seq<Row>, rest: seq<Row>, middle: nat, limit: nat)
    requires IsPartition(points, first, 0, middle) && IsPartition(points, rest, middle, limit)
    requires first != [] && middle < limit && RowStartsApart(points, first[|first| - 1], middle)
    ensures IsPartition(points, first + rest, 0, limit)
  {
    var all := first + rest;
    forall r | 0 <= r < |all| - 1
      ensures Follows(all, r)
    {
      assert r < |first| - 1 ==> Follows(first, r);
      assert r >= |first| ==> Follows(rest, r - |first|);
    }
    forall r | 0 <= r < |all|
      ensures IsRow(points, all[r], limit)
    {
      if r < |first| {
        assert IsRow(points, first[r], middle);
        assert r < |first| - 1 ==> Follows(first, r) && first[r].end < middle by {
          assert r < |first| - 1 ==> IsRow(points, first[r + 1], middle);
        }
      } else {
        assert IsRow(points, rest[r - |first|], limit);
      }
    }
  }

  /** The rows of the first layer are among those read from several, if its last row and the first of the second
      differ in y. */
  lemma RowsOfFirstLayer(points: seq<Point>, first: seq<Row>, n: nat, limit: nat)
    requires IsPartition(points, first, 0, n) && first != [] && n < limit <= |points|
    requires RowStartsApart(points, first[|first| - 1], n)
    ensures RowsFrom(points, 0, limit) == first + RowsFrom(points, n, limit)
  {
    RowsPartition(points, n, limit);
    AppendRows(points, first, RowsFrom(points, n, limit), n, limit);
    PartitionIsUnique(points, first + RowsFrom(points, n, limit), 0, limit);
  }

  lemma SameIsSymmetric(a: real, b: real)
    ensures ApproximatelyEqual(a, b) <==> ApproximatelyEqual(b, a)
  {
  }

  /** The second layer starts at the height of the first point. */
  lemma SecondLayerStart(m: Trig, g: Grid)
    requires Lawful(m) && ValidGrid(g) && StepY(m, g) > 0.0
    ensures 0 < |FirstLayer(m, g)| < |GeneratedPoints(m, g)|
    ensures GeneratedPoints(m, g)[|FirstLayer(m, g)|].y == GeneratedPoints(m, g)[0].y
  {
    TwoRowsNotEmpty(m, g);
    GeneratedZ(m, g, 0);
    PointOfLayer(m, g, 1, 0);
    PointOfLayer(m, g, 0, 0);
  }

  lemma LaterRowApart(m: Trig, g: Grid, r: nat)
    requires Lawful(m) && ValidGrid(g) && StepY(m, g) > 0.0 && RowStepApart(m, g)
    requires 0 < r < |AllRows(m, g)|
    ensures AllRows(m, g)[r].begin < |GeneratedPoints(m, g)|
    ensures !SameY(GeneratedPoints(m, g), AllRows(m, g)[r].begin, 0)
  {
    LatticeRowsFollow(m, g, VisitedRows(m, g));
    ListedRowsApart(m, g, 0, r, 0, AllRows(m, g)[r].begin);
  }

  lemma LayerStartApart(m: Trig, g: Grid, r: nat)
    requires Lawful(m) && ValidGrid(g) && StepY(m, g) > 0.0 && RowStepApart(m, g)
    requires 0 < r < |AllRows(m, g)|
    ensures RowStartsApart(GeneratedPoints(m, g), AllRows(m, g)[r], |FirstLayer(m, g)|)
  {
    SecondLayerStart(m, g);
    LaterRowApart(m, g, r);
    SameIsSymmetric(GeneratedPoints(m, g)[0].y, GeneratedPoints(m, g)[AllRows(m, g)[r].begin].y);
  }

  lemma LatticeRowsArePartition(m: Trig, g: Grid)
    requires Lawful(m) && ValidGrid(g) && StepY(m, g) > 0.0 && RowStepApart(m, g)
    ensures |AllRows(m, g)| >= 2 && IsPartition(GeneratedPoints(m, g), AllRows(m, g), 0, |FirstLayer(m, g)|)
  {
    RowsAreApart(m, g);
    TwoRowsNotEmpty(m, g);
    LatticeRowsPartition(m, g);
  }

  /** Then the rows read up to any limit start with them. */
  lemma ReadingStartsWith(points: seq<Point>, first: seq<Row>, n: nat, limit: nat) returns (more: seq<Row>)
    requires IsPartition(points, first, 0, n) && first != [] && n <= limit <= |points|
    requires RowStartsApart(points, first[|first| - 1], n)
    ensures RowsFrom(points, 0, limit) == first + more
  {
    if n == limit {
      PartitionIsUnique(points, first, 0, n);
      more := [];
    } else {
      RowsOfFirstLayer(points, first, n, limit);
      more := RowsFrom(points, n, limit);
    }
  }

  /** The rows read start with the rows of the lattice. */
  lemma RowsReadStartRight(m: Trig, g: Grid, limit: nat) returns (more: seq<Row>)
    requires Lawful(m) && ValidGrid(g) && StepY(m, g) > 0.0 && RowStepApart(m, g)
    requires |FirstLayer(m, g)| <= limit <= |GeneratedPoints(m, g)|
    ensures RowsFrom(GeneratedPoints(m, g), 0, limit) == AllRows(m, g) + more
  {
    LatticeRowsArePartition(m, g);
    LayerStartApart(m, g, |AllRows(m, g)| - 1);
    more := ReadingStartsWith(GeneratedPoints(m, g), AllRows(m, g), |FirstLayer(m, g)|, limit);
  }

  lemma StripStays(points: seq<Point>, rows: seq<Row>, more: seq<Row>, r: nat)
    requires ValidRows(points, rows) && ValidRows(points, rows + more) && r + 1 < |rows|
    requires StripMesh(points, rows[r], rows[r + 1]) != []
    ensures LayerTriangles(points, rows + more) != []
  {
    assert (rows + more)[r] == rows[r] && (rows + more)[r + 1] == rows[r + 1];
    StripIsInLayer(points, rows + more, r);
  }

  lemma ReadingTriangulates(m: Trig, g: Grid)
    requires Lawful(m) && ValidGrid(g) && StepY(m, g) > 0.0 && LayerWellScaled(m, g)
    requires ValidRows(GeneratedPoints(m, g), ReadTopology(m, g).rows)
    ensures LayerTriangles(GeneratedPoints(m, g), ReadTopology(m, g).rows) != []
  {
    MergedInRange(m, g);
    var more := RowsReadStartRight(m, g, ReadTopology(m, g).size);
    var r := CentralStrip(m, g);
    StripStays(GeneratedPoints(m, g), AllRows(m, g), more, r);
  }

  /** The outcome of exporting the buffer of any valid grid: the error of its reading, or the mesh of the layers and
      rows that are read. */
  lemma ExportOfReading(m: Trig, g: Grid, field: seq<real>, path: string)
    requires Lawful(m) && ValidGrid(g) && StepY(m, g) > 0.0
    requires |field| == |GridCoordinates(m, g)| && path != ""
    ensures GeneratedPoints(m, g) != []
    ensures var outcome, reading := Outcome(m, field, GridCoordinates(m, g), path), TopologyOf(GeneratedPoints(m, g));
      if LooksRegular(m, g)
      then reading == Ok(ReadTopology(m, g))
           && outcome == MeshOutcome(GeneratedPoints(m, g), ReadTopology(m, g), GridVectors(m, g, field))
      else reading.Err? && outcome == Err(reading.error)
  {
    ReadingOfGrid(m, g);
    WholeTriples(m, GridPoints(m, g, g.zCount));
    if LooksRegular(m, g) {
      OutcomeOfTopology(m, field, GridCoordinates(m, g), path, ReadTopology(m, g));
    }
  }

  lemma MergedCells(layers: nat, n: nat, c: nat, triangles: nat)
    requires 1 <= c <= layers && layers % c == 0 && triangles <= 2 * (c * n)
    ensures triangles * (layers / c - 1) <= (2 * n) * (layers - 1)
  {
    var gaps := layers / c - 1;
    Grows(triangles, 2 * (c * n), gaps);
    assert (c * n) * gaps == n * (c * gaps) && c * gaps == layers - c;
    Grows(layers - c, layers - 1, n);
  }

  lemma MergedCellsFit(g: Grid, n: nat, c: nat, triangles: seq<Triangle>)
    requires ValidGrid(g) && Countable(g) && n <= 12 * LayerResolution(g)
    requires 1 <= c < g.zCount && g.zCount % c == 0 && |triangles| <= 2 * (c * n)
    ensures CellsFit(triangles, g.zCount / c)
  {
    CountTimesIs(|triangles|, g.zCount / c - 1);
    CountTimesIs(LayerResolution(g), g.zCount - 1);
    MergedCells(g.zCount, n, c, |triangles|);
    ProductsFit(2 * n, n, LayerResolution(g), g.zCount - 1);
  }

  lemma ReadingIsCountable(m: Trig, g: Grid)
    requires Lawful(m) && ValidGrid(g) && StepY(m, g) > 0.0 && LooksRegular(m, g) && Countable(g)
    requires ValidRows(GeneratedPoints(m, g), ReadTopology(m, g).rows)
    ensures CellsFit(LayerTriangles(GeneratedPoints(m, g), ReadTopology(m, g).rows), ReadTopology(m, g).layers)
  {
    var t := ReadTopology(m, g);
    MergedInRange(m, g);
    TwoRowsNotEmpty(m, g);
    RowsPartition(GeneratedPoints(m, g), 0, t.size);
    TrianglesBelow(GeneratedPoints(m, g), t.rows, t.size);
    FirstLayerCount(m, g);
    MergedCellsFit(g, |FirstLayer(m, g)|, MergedCount(g), LayerTriangles(GeneratedPoints(m, g), t.rows));
  }

  /** A grid that looks regular, with well-scaled layers, is exported, whether or not it is recovered: the only error
      left is too many cells, which a countable resolution excludes. */
  lemma RegularLookingIsExported(m: Trig, g: Grid, field: seq<real>, path: string)
    requires Lawful(m) && ValidGrid(g) && StepY(m, g) > 0.0 && LayerWellScaled(m, g) && LooksRegular(m, g)
    requires |field| == |GridCoordinates(m, g)| && path != ""
    ensures var outcome := Outcome(m, field, GridCoordinates(m, g), path);
      (outcome.Ok? || outcome == Err(TooManyCells)) && (Countable(g) ==> outcome.Ok?)
  {
    ExportOfReading(m, g, field, path);
    ReadingTriangulates(m, g);
    if Countable(g) {
      ReadingIsCountable(m, g);
    }
  }

  lemma MisreadIsWellScaled(m: Trig)
    requires Lawful(m)
    ensures StepY(m, MISREAD_GRID) > 0.0 && LayerWellScaled(m, MISREAD_GRID) && Countable(MISREAD_GRID)
  {
    var g := MISREAD_GRID;
    QuotientIs(1.0, 1.0);
    RootOfThree(m);
    StepXIs(g);
    StepYIs(m, g);
    TimesIs(Quotient(1.0, 1.0), m.sqrt(3.0));
    TimesIs(StepX(g), StepY(m, g) - EPSILON);
    CountTimesIs(1, 1);
    CountTimesIs(1, 3);
  }

  /** Exporting the four layers of that grid succeeds with a file of two. */
  lemma MisreadIsExported(m: Trig, field: seq<real>, path: string)
    requires Lawful(m) && StepY(m, MISREAD_GRID) > 0.0 && path != ""
    requires |field| == |GridCoordinates(m, MISREAD_GRID)|
    ensures Outcome(m, field, GridCoordinates(m, MISREAD_GRID), path).Ok?
  {
    MisreadIsWellScaled(m);
    GridIsMisread(m);
    MisreadExactlyWhen(m, MISREAD_GRID);
    RegularLookingIsExported(m, MISREAD_GRID, field, path);
  }
}
