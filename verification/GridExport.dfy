/** The export of a generated grid: the mesh of its lattice, and when that is the outcome. */
module GridExport {
  import opened Numeric
  import opened Arithmetic
  import opened Geometry
  import opened LayerMesh
  import opened GridLattice
  import opened GridKernel
  import opened VtkExporter
  import opened VtkFile
  import opened GridRecovery
  import opened GridMesh

  lemma LatticeMeshIs(m: Trig, g: Grid, vectors: seq<Point>)
    requires Lawful(m) && ValidGrid(g) && StepY(m, g) > 0.0
    ensures LatticeMesh(m, g, vectors)
         == ExtrusionOutcome(GeneratedPoints(m, g), |FirstLayer(m, g)|, g.zCount, vectors, LatticeTriangles(m, g))
  {
  }

  /** When the lattice is recovered, the outcome of the export is that of the lattice. */
  lemma RecoveredExports(m: Trig, g: Grid, field: seq<real>, path: string)
    requires Lawful(m) && ValidGrid(g) && StepY(m, g) > 0.0 && LayersApart(g) && RowsApart(m, g) && path != ""
    requires |field| == |GridCoordinates(m, g)|
    ensures Outcome(m, field, GridCoordinates(m, g), path) == LatticeMesh(m, g, GridVectors(m, g, field))
  {
    ExporterUndoesGenerator(m, g);
    WholeTriples(m, GridPoints(m, g, g.zCount));
    OutcomeOfTopology(m, field, GridCoordinates(m, g), path, GeneratedTopology(m, g));
    LatticeMeshIs(m, g, GridVectors(m, g, field));
  }

  /** Exporting the buffer of a well-scaled grid, with any field of the right length, gives the mesh of
      the lattice. */
  lemma WellScaledExports(m: Trig, g: Grid, field: seq<real>, path: string)
    requires Lawful(m) && ValidGrid(g) && StepY(m, g) > 0.0 && WellScaled(m, g) && path != ""
    requires |field| == |GridCoordinates(m, g)|
    ensures Outcome(m, field, GridCoordinates(m, g), path) == LatticeMesh(m, g, GridVectors(m, g, field))
  {
    LayersAreApart(m, g);
    RowsAreApart(m, g);
    RecoveredExports(m, g, field, path);
  }

  /** The only error left for a well-scaled grid is that there are more cells than a `std::size_t` can count. */
  lemma WellScaledErrors(m: Trig, g: Grid, vectors: seq<Point>)
    requires Lawful(m) && ValidGrid(g) && StepY(m, g) > 0.0 && WellScaled(m, g)
    ensures LatticeMesh(m, g, vectors).Ok? || LatticeMesh(m, g, vectors) == Err(TooManyCells)
  {
    WellScaledTriangulates(m, g);
  }

  lemma WholeTriples(m: Trig, points: seq<Point>)
    ensures |Buffer(m, points)| % 3 == 0 && (points != [] ==> Buffer(m, points) != [])
  {
  }

  lemma OutcomeOfTopology(m: Trig, field: seq<real>, coordinates: seq<real>, path: string, t: Topology)
    requires coordinates != [] && |coordinates| % 3 == 0 && |field| == |coordinates| && path != ""
    requires TopologyOf(CartesianPoints(m, coordinates)) == Ok(t)
    ensures ValidRows(CartesianPoints(m, coordinates), t.rows) && t.layers >= 2
    ensures Outcome(m, field, coordinates, path)
         == MeshOutcome(CartesianPoints(m, coordinates), t, FieldVectors(m, field, coordinates))
  {
  }
}
