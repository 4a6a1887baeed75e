/** From the stored coefficients to the file, over the detector: what the file shows when the grid is
    countable. */
module DetectorRun {
  import opened Numeric
  import opened Arithmetic
  import opened Geometry
  import opened LayerMesh
  import opened Conformity
  import opened GridLattice
  import opened GridKernel
  import opened GridRecovery
  import opened GridMesh
  import opened GridExport
  import opened GridCounts
  import opened LatticeAxis
  import opened Extrusion
  import opened GridVolume
  import opened VtkExporter
  import opened VtkFile
  import opened Polynomials
  import opened Evaluators
  import opened PhysicalField
  import opened FieldAgreement
  import opened Analytics

  // ----- The points of the file -----

  /** When no point is moved, the exporter's points are exactly the points of the lattice, in every layer. */
  lemma UnmovedPoints(m: Trig, g: Grid)
    requires Lawful(m) && ValidGrid(g) && StepY(m, g) > 0.0 && Unmoved(m, g)
    ensures GeneratedPoints(m, g) == GridPoints(m, g, g.zCount)
  {
    forall i | 0 <= i < |GridPoints(m, g, g.zCount)|
      ensures |GeneratedPoints(m, g)| == |GridPoints(m, g, g.zCount)|
      ensures GeneratedPoints(m, g)[i] == GridPoints(m, g, g.zCount)[i]
    {
      GeneratedPointAt(m, g, i);
      GridPointUnmoved(m, g, GridPoints(m, g, g.zCount)[i]);
    }
  }

  lemma GridPointUnmoved(m: Trig, g: Grid, p: Point)
    requires Lawful(m) && ValidGrid(g) && StepY(m, g) > 0.0 && Unmoved(m, g) && p in GridPoints(m, g, g.zCount)
    ensures Recovered(m, p) == p
  {
    GridIsClippedLattice(m, g, p);
    var layer: int, row: int, column: int :|
      0 <= layer < g.zCount && Visible(m, g, row, column) && p == LatticePoint(m, g, row, column, Z(g, layer));
    var q := LatticePoint(m, g, row, column, Z(g, 0));
    LayerIsClippedLattice(m, g, Z(g, 0), q);
    var k :| 0 <= k < |FirstLayer(m, g)| && FirstLayer(m, g)[k] == q;
    assert Recovered(m, FirstLayer(m, g)[k]) == FirstLayer(m, g)[k];
    RecoveredIs(m, p);
    RecoveredIs(m, q);
  }

  // ----- The run -----

  /** Vector i of the mesh is the gradient of the potential at point i. */
  ghost predicate ShowsGradient(mesh: Mesh, coefficients: seq<real>, i: nat) {
    && i < |mesh.points| && i < |mesh.vectors|
    && AsPlace(Triple(mesh.vectors[i].x, mesh.vectors[i].y, mesh.vectors[i].z))
       == PolynomialField(coefficients, Place(mesh.points[i].x, mesh.points[i].y, mesh.points[i].z))
  }

  ghost predicate CoversLattice(m: Trig, g: Grid, points: seq<Point>)
    requires Lawful(m) && ValidGrid(g) && StepY(m, g) > 0.0
  {
    forall x, y :: Covered(points, LatticeTriangles(m, g), x, y) <==> InLattice(m, g, x, y)
  }

  /** The wedges of the lattice: a conforming mesh that tiles every layer and adds up to the volume over it. */
  ghost predicate FillsLattice(m: Trig, g: Grid, points: seq<Point>, wedges: seq<Wedge>)
    requires Lawful(m) && ValidGrid(g) && StepY(m, g) > 0.0
  {
    && wedges == LatticeWedges(m, g)
    && IsLayer(points, AllRows(m, g))
    && InteriorsDisjoint(points, LatticeTriangles(m, g))
    && CoversLattice(m, g, points)
    && MeshVolume(points, wedges) == Times(LatticeArea(m, g), g.depth)
  }

  /** What the file should hold: the points of the lattice, the mesh that fills it, and at every point the gradient
      of one harmonic polynomial. */
  ghost predicate ShowsField(m: Trig, g: Grid, coefficients: seq<real>, mesh: Mesh)
    requires Lawful(m) && ValidGrid(g) && StepY(m, g) > 0.0
  {
    && mesh.points == GridPoints(m, g, g.zCount)
    && FillsLattice(m, g, mesh.points, mesh.wedges)
    && ShowsGradients(mesh, coefficients)
  }

  ghost predicate ShowsGradients(mesh: Mesh, coefficients: seq<real>) {
    && Harmonic(FieldPotential(coefficients, |coefficients|))
    && (forall i :: 0 <= i < |mesh.points| ==> ShowsGradient(mesh, coefficients, i))
  }

  lemma VectorsShowGradient(m: Trig, g: Grid, coefficients: seq<real>, field: seq<real>, mesh: Mesh)
    requires Lawful(m) && ValidGrid(g) && StepY(m, g) > 0.0
    requires HoldsField(Reals(m), DefaultBasis(m), coefficients, GridCoordinates(m, g), field)
    requires mesh.points == GeneratedPoints(m, g) && mesh.vectors == GridVectors(m, g, field)
    ensures ShowsGradients(mesh, coefficients) && |mesh.vectors| == |mesh.points|
  {
    FieldPotentialIsHarmonic(coefficients, |coefficients|);
    forall i | 0 <= i < |mesh.points|
      ensures ShowsGradient(mesh, coefficients, i)
    {
      FileIsPhysical(m, coefficients, GridCoordinates(m, g), field, i);
    }
  }

  lemma FullMeshFills(m: Trig, g: Grid, points: seq<Point>, wedges: seq<Wedge>)
    requires Lawful(m) && ValidGrid(g) && StepY(m, g) > 0.0 && Unmoved(m, g) && Times(StepX(g), StepY(m, g)) > TOLERANCE
    requires points == GeneratedPoints(m, g) && wedges == LatticeWedges(m, g)
    ensures FillsLattice(m, g, points, wedges)
  {
    GeneratedTiling(m, g);
    GeneratedIsConforming(m, g);
    assert MeshVolume(points, wedges) == Times(LatticeArea(m, g), g.depth) by {
      GeneratedVolume(m, g);
    }
  }

  lemma DetectorMesh(m: Trig, g: Grid, points: seq<Point>, wedges: seq<Wedge>)
    requires Lawful(m) && DetectorGrid(g) && ValidGrid(g) && StepY(m, g) > 0.0
    requires points == GeneratedPoints(m, g) && wedges == LatticeWedges(m, g)
    ensures FillsLattice(m, g, points, wedges)
  {
    DetectorIsWellScaled(m, g);
    FullMeshFills(m, g, points, wedges);
  }

  lemma DetectorPoints(m: Trig, g: Grid)
    requires Lawful(m) && DetectorGrid(g) && ValidGrid(g) && StepY(m, g) > 0.0
    ensures GeneratedPoints(m, g) == GridPoints(m, g, g.zCount)
  {
    DetectorIsWellScaled(m, g);
    UnmovedPoints(m, g);
  }

  lemma DetectorOutcome(m: Trig, g: Grid, field: seq<real>) returns (mesh: Mesh)
    requires Lawful(m) && DetectorGrid(g) && ValidGrid(g) && StepY(m, g) > 0.0 && Countable(g)
    requires |field| == |GridCoordinates(m, g)|
    ensures Outcome(m, field, GridCoordinates(m, g), "output.vtk") == Ok(mesh)
    ensures mesh.points == GeneratedPoints(m, g) && mesh.vectors == GridVectors(m, g, field)
    ensures mesh.wedges == LatticeWedges(m, g)
  {
    mesh := FullMesh(m, g, GridVectors(m, g, field));
    DetectorIsWellScaled(m, g);
    CountableExports(m, g, field, "output.vtk");
  }

  /** Any detector grid of countable resolution is exported as the mesh that shows the field, and the file reads
      back as that mesh. */
  lemma DetectorFile(m: Trig, g: Grid, coefficients: seq<real>, field: seq<real>) returns (mesh: Mesh)
    requires Lawful(m) && DetectorGrid(g) && ValidGrid(g) && StepY(m, g) > 0.0 && Countable(g)
    requires HoldsField(Reals(m), DefaultBasis(m), coefficients, GridCoordinates(m, g), field)
    ensures Outcome(m, field, GridCoordinates(m, g), "output.vtk") == Ok(mesh)
    ensures ShowsField(m, g, coefficients, mesh) && Read(FileOf(mesh)) == Some(mesh)
  {
    mesh := DetectorOutcome(m, g, field);
    VectorsShowGradient(m, g, coefficients, field, mesh);
    DetectorMesh(m, g, mesh.points, mesh.wedges);
    DetectorPoints(m, g);
    FileRoundTrip(mesh);
  }

  /** `calculate_field` followed by `export_to_vtk`: with coefficients stored and the default basis, both succeed
      for every detector grid of countable resolution, and a reader of the file gets the field. */
  method CalculateThenExport(manager: AnalyticsManager, g: Grid) returns (tokens: seq<Token>)
    requires manager.Valid() && DetectorGrid(g) && ValidGrid(g) && Countable(g)
    requires manager.basisCollection.basis == DefaultBasis(manager.m) && manager.basisCollection.arity == DIMENSION
    requires |manager.storedCoefficients| == manager.basisCollection.modes
    modifies manager, manager.fieldData
    ensures manager.Valid() && manager.fieldDataValid && StepY(manager.m, g) > 0.0
    ensures exists mesh :: Read(tokens) == Some(mesh) && ShowsField(manager.m, g, manager.storedCoefficients, mesh)
  {
    var m := manager.m;
    StepYIs(m, g);
    PointsAreCountable(m, g);
    var calculated := manager.CalculateField(g);
    TwoRowsNotEmpty(m, g);
    GridPointCount(m, g);
    Grows(1, g.zCount, |FirstLayer(m, g)|);
    ghost var mesh := DetectorFile(m, g, manager.storedCoefficients, manager.fieldData.field);
    var exported := manager.ExportToVtk();
    tokens := exported.value;
  }
}
