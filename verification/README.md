# A verified model of the TPC field analytics

The repository fits a magnetic field to Hall-probe measurements, samples it on a staggered lattice inside
a cylinder, and writes the samples as a mesh of wedges. This project models that path from end to end and
proves what it is meant to guarantee. Doubles are modelled as exact reals, except in the evaluators, the
slice, the solver and the store, which are modelled over an arbitrary arithmetic about which nothing is
assumed. `std::size_t` is bounded where a count can reach its limit. Trigonometric functions, `sqrt`,
`hypot` and `atan2` are parameters (`Arithmetic.Trig`) with the few laws the proofs use
(`Arithmetic.Lawful`).

`dafny verify dfyconfig.toml` checks everything.

## Files

- `Numeric`, `Indexing`, `Geometry`: the exporter's tolerance, row-major positions and count guards, triangles.
- `Strip`, `Walk`, `LayerMesh`, `Conformity`, `Merge`: the two-pointer triangulation of the strips between
  rows and of a whole layer: tiling, area, edges, merge order.
- `VtkFile`, `VtkExporter`, `LayerAgreement`: recovery of layers and rows from the flat buffer, wedges, the file as
  tokens and a reader for it; what acceptance and each error mean for the coordinates.
- `GridLattice`, `GridKernel`: the clipped staggered lattice and the loops that enumerate it.
- `GridRecovery`, `GridMesh`, `GridExport`, `GridCounts`: the exporter applied to generated grids: what it recovers
  and when it succeeds.
- `MergedLayers`, `GridMisreads`: what it reads from a grid whose layers it cannot tell apart.
- `LatticeAxis`, `RegularLayer`, `Extrusion`, `GridVolume`, `MeshInCylinder`: the mesh of a generated grid: tiling,
  conformity, area, volume, and how it lies in the cylinder.
- `GridLimits`, `MovedRow`: when generated grids are refused or lose their triangles, and the row with a point that
  the exporter moves.
- `Polynomials`, `FieldModes`, `PhysicalField`, `DefaultField`: the ten modes as gradients of harmonic polynomials, and
  the field of given coefficients.
- `Arithmetic`, `Evaluators`, `FieldSlices`, `SlicePlanes`, `FieldAgreement`: point evaluator, grid kernel and slice
  raster over any arithmetic, which places a slice shows, and why they show one field.
- `SvdSolver`, `FieldFit`: checks and assembly of the least-squares problem, and what solving it means.
- `ChunkView`, `FieldStore`, `StoreFacts`: the coordinate and field store and its in-place transformations.
- `AnalyticsManager`: the objects that hold basis, coefficients and field.
- `DetectorRun`: from stored coefficients to the file and its reader, over the detector.
- `FieldWorker`, `PollingWorker`, `AnalyticsLocks`: the three concurrent protocols, over every run.

## What the code does differently from what is said about it

- A comment at `vtk_field_exporter.hpp:153-154` says the wedges fill the cylinder. They stay inside it
  (`MeshInCylinder.MeshStaysInCylinder`), but never fill it (`MeshInCylinder.CylinderIsNotFilled`).
- The check for at least two layers (`vtk_field_exporter.hpp:91-92`) can never fail; `VtkExporter.LayerCount`
  says why.
- The grid sets the azimuth to zero below epsilon, the slice up to and including epsilon. So slice and file agree
  at a place exactly if it is not epsilon from the axis or lies on the positive x axis
  (`FieldAgreement.SliceShowsExportExactlyWhen`); a grid and a slice of it disagree
  (`FieldAgreement.SliceDiffersFromFile`).
- A generated grid is recovered exactly when the exporter's tolerance tells the first two layers, and the first
  points of consecutive non-empty rows, apart (`GridRecovery.ExporterUndoesGenerator`). A grid no deeper than the
  tolerance is valid and refused (`GridLimits.ShallowGridIsRefused`). Others are misread without an error: of a grid
  with four layers six tenths of the tolerance apart, two are exported (`GridMisreads.MisreadIsExported`).
  `GridMisreads.ReadingOfGrid` and `GridMisreads.MisreadExactlyWhen` say which error or misreading a grid ends in.
- The triangles cover the strips exactly when no gap is so small that its triangle is dropped as degenerate
  (`LayerMesh.LayerTiling`), on a generated grid exactly when the product of its steps exceeds the tolerance
  (`GridLimits.GeneratedTilesExactlyWhen`). A grid of radius 0.00000001 loses all of them (`GridLimits.TinyGridIsRefused`).
- A sleeping poller wakes for a changed interval unless polling was restarted a multiple of two to the 64 times
  during one sleep (`PollingWorker.SleeperWakesExactlyWhen`), which a run can reach
  (`PollingWorker.StaleIntervalIsReached`).
- A view of the field keeps a lock between calls, and nothing says what its holder may call. Calculating the field
  while holding a view requests a `std::shared_mutex` exclusively from a thread that owns it shared, which is undefined
  in C++; the model never grants the request, so the call never returns. Storing coefficients need not return either,
  nor evaluating where waiting writers hold readers back (`AnalyticsLocks.InconsiderateCallTraps`,
  `AnalyticsLocks.TwoThreadsDeadlock`). There is no other deadlock (`AnalyticsLocks.FinishesExactlyWhen`).

## Model

| member | source | states |
|---|---|---|
| Numeric.ComparisonIsNotTransitive | include/tpc/analytics/output/vtk_field_exporter.hpp:74-77 | three values exist of which the exporter calls neighbours equal and the outer two different |
| Numeric.ComparisonIs | include/tpc/analytics/output/vtk_field_exporter.hpp:74-77 | two values compare equal exactly if 2 to the 46 times their difference is at most one or at most the magnitude of either |
| Numeric.ApartAtScale | include/tpc/analytics/output/vtk_field_exporter.hpp:74-77 | values at most `scale` large that differ by more than the tolerance at that scale are told apart |
| Numeric.NearZero | include/tpc/analytics/output/vtk_field_exporter.hpp:144-145 | an area compares equal to zero exactly when its magnitude is at most the absolute tolerance |
| Geometry.AddTriangle | include/tpc/analytics/output/vtk_field_exporter.hpp:139-151 | the list grows by nothing for an area below tolerance, otherwise by the candidate turned counter-clockwise |
| Geometry.PushedIsPositive | include/tpc/analytics/output/vtk_field_exporter.hpp:139-151 | whatever the input, a pushed triangle has the candidate's vertices and a positive area above the tolerance |
| Strip.StepFillsGap | include/tpc/analytics/output/vtk_field_exporter.hpp:164-183 | at each height one step's triangle is exactly the stretch between the two diagonals it moves between |
| Strip.PathDisjoint | include/tpc/analytics/output/vtk_field_exporter.hpp:162-184 | no two triangles of a forward path of diagonals share an interior point, dropped triangles or not |
| Strip.PathCovers | include/tpc/analytics/output/vtk_field_exporter.hpp:162-184 | if no triangle is dropped, the path covers exactly the region between its first and last diagonal |
| Walk.TriangulateStrip | include/tpc/analytics/output/vtk_field_exporter.hpp:157-184 | the loop terminates with the remaining-vertices measure and pushes the triangles of the specified walk |
| Walk.AdvanceWalk | include/tpc/analytics/output/vtk_field_exporter.hpp:164-183 | one iteration pushes the swept triangle and moves exactly one of the two pointers, as the merge rule says |
| Walk.WalkedEnds | include/tpc/analytics/output/vtk_field_exporter.hpp:162-184 | the walk takes one step per remaining vertex and ends between the two last vertices |
| Walk.NoneDroppedExactlyWhen | include/tpc/analytics/output/vtk_field_exporter.hpp:144-145 | all candidate triangles of a flat strip are kept exactly when no gap times the strip height is below tolerance |
| Walk.HoleInTrapezoid | include/tpc/analytics/output/vtk_field_exporter.hpp:144-145 | a dropped triangle leaves an uncovered point in the trapezoid |
| Walk.StripTiling | include/tpc/analytics/output/vtk_field_exporter.hpp:155-185 | for rows of constant distinct y and increasing x the triangles never overlap, and cover exactly the trapezoid if and only if no gap is too small |
| Walk.PushedArePositive | include/tpc/analytics/output/vtk_field_exporter.hpp:139-151 | every triangle of a strip is in range with positive area, and there are at most m + n - 2 of them, exactly so if none is dropped |
| Walk.CrossingArea | include/tpc/analytics/output/vtk_field_exporter.hpp:157-185 | the doubled areas of a strip sum to row distance times the sum of the row widths |
| LayerMesh.TriangulateLayer | include/tpc/analytics/output/vtk_field_exporter.hpp:155-185 | the loop over adjacent rows yields the triangles of all strips in order |
| LayerMesh.LayerTiling | include/tpc/analytics/output/vtk_field_exporter.hpp:155-185 | over a whole layer the triangles never overlap, and cover exactly the union of the strips if and only if no gap is too small in a strip it bounds |
| LayerMesh.LayerAreaConserved | include/tpc/analytics/output/vtk_field_exporter.hpp:155-185 | the doubled triangle areas sum to the doubled area of the union of the strips |
| LayerMesh.LayerFitsReservation | include/tpc/analytics/output/vtk_field_exporter.hpp:136-137 | the triangle count is at most the telescoped sum of m + n - 2 and stays below the reserved twice the points per layer |
| Conformity.RowEdgeConforms | include/tpc/analytics/output/vtk_field_exporter.hpp:155-185 | an edge inside a row belongs to exactly one triangle per strip the row bounds: two in interior rows, one in the first and last |
| Conformity.DiagonalConforms | include/tpc/analytics/output/vtk_field_exporter.hpp:155-185 | a pair across a strip belongs to two triangles if it is an inner diagonal of the walk, to one if it is an end diagonal, to none otherwise |
| Conformity.NoLongEdges | include/tpc/analytics/output/vtk_field_exporter.hpp:155-185 | vertices that are neither row neighbours nor in adjacent rows never share a triangle |
| Merge.StripWalkIsMerge | include/tpc/analytics/output/vtk_field_exporter.hpp:162-184 | the vertices advanced to are the merge of the two row tails by x, ties to the upper row, each exactly once |
| VtkFile.FileRoundTrip | include/tpc/analytics/output/vtk_field_exporter.hpp:216-270 | a reader driven only by the counts in the file recovers points, wedges and vectors |
| VtkFile.SectionSizes | include/tpc/analytics/output/vtk_field_exporter.hpp:221-253 | the announced sizes are the sizes written: three numbers a point, seven a cell, one a cell type |
| VtkFile.HeadsAre | include/tpc/analytics/output/vtk_field_exporter.hpp:216-253 | the head lines of the file and of its four parts, token by token and at which position, and the length of the file |
| VtkFile.PointsAre | include/tpc/analytics/output/vtk_field_exporter.hpp:221-224 | where each point stands in the file |
| VtkFile.CellsAre | include/tpc/analytics/output/vtk_field_exporter.hpp:226-243 | where each cell stands: six, then its vertices from the lower to the upper layer |
| VtkFile.TypesAre | include/tpc/analytics/output/vtk_field_exporter.hpp:245-248 | each cell has type 13 |
| VtkFile.VectorsAre | include/tpc/analytics/output/vtk_field_exporter.hpp:250-270 | where each vector stands |
| VtkExporter.ToCartesian | include/tpc/analytics/output/vtk_field_exporter.hpp:58-72 | one Cartesian point per triple, in order |
| VtkExporter.FindLayerSize | include/tpc/analytics/output/vtk_field_exporter.hpp:79-85 | the loop returns the specified layer size, between one and the number of points |
| VtkExporter.LayerSizeIs | include/tpc/analytics/output/vtk_field_exporter.hpp:80-85 | the layer size is the only number up to which every z compares equal to the first point's and at which it no longer does |
| VtkExporter.LayerCount | include/tpc/analytics/output/vtk_field_exporter.hpp:87-92 | a proper layer size that divides the points leaves at least two layers, so the error for fewer is never reported |
| VtkExporter.CheckLayers | include/tpc/analytics/output/vtk_field_exporter.hpp:94-111 | true exactly when every point agrees in z with its layer's first point and in x and y with the first layer |
| VtkExporter.PartitionRows | include/tpc/analytics/output/vtk_field_exporter.hpp:119-131 | the nested loops return the specified list of rows |
| VtkExporter.RowsPartition | include/tpc/analytics/output/vtk_field_exporter.hpp:119-131 | the rows are contiguous from the first to the last point of the layer; inside a row every y compares equal to its first, and the next point's does not |
| VtkExporter.PartitionIsUnique | include/tpc/analytics/output/vtk_field_exporter.hpp:119-131 | any row list with that property is the one the exporter finds |
| VtkExporter.RecoverTopology | include/tpc/analytics/output/vtk_field_exporter.hpp:79-134 | layers and rows, or the first topology error that applies |
| LayerAgreement.RecoveryExactlyWhen | include/tpc/analytics/output/vtk_field_exporter.hpp:79-134 | each outcome of the recovery as a condition on coordinates: incomplete layers, a point whose x or y differs from the first layer's or whose z differs from its layer's first, all y of a layer equal, or success |
| LayerAgreement.AcceptedExactlyWhen | include/tpc/analytics/output/vtk_field_exporter.hpp:79-134 | a layer size, number of layers and list of rows is the one recovered if and only if it has those properties of the points, so there is at most one |
| LayerAgreement.InputsRejectedExactlyWhen | include/tpc/analytics/output/vtk_field_exporter.hpp:21-56 | when each of the four input errors is reported |
| LayerAgreement.ExportedExactlyWhen | include/tpc/analytics/output/vtk_field_exporter.hpp:187-270 | for points with a topology: no triangles, too many cells, or a mesh of those points and vectors with one cell for each triangle and gap |
| LayerAgreement.NotExportedWithoutTopology | include/tpc/analytics/output/vtk_field_exporter.hpp:79-134 | no other points are exported |
| LayerAgreement.WedgeAt | include/tpc/analytics/output/vtk_field_exporter.hpp:226-243 | the six vertices of each cell, by layer and triangle |
| LayerAgreement.ExportedWedgesStand | include/tpc/analytics/output/vtk_field_exporter.hpp:94-111 | every wedge of a successful export stands upright up to the comparison: its lower and upper vertices compare equal in x and y to one vertex of the first layer, and in z to the first point of their layer |
| Indexing.QuotientGuards | include/tpc/analytics/output/vtk_field_exporter.hpp:190-195 | two guards made of quotients pass exactly the counts whose triple product is within the limit, and no product computed on the way exceeds it |
| VtkExporter.CheckCellCount | include/tpc/analytics/output/vtk_field_exporter.hpp:190-195 | passes exactly when seven times the cell count fits, and returns triangles times gaps |
| VtkExporter.WritePoints | include/tpc/analytics/output/vtk_field_exporter.hpp:221-224 | appends three numbers per point |
| VtkExporter.WriteCells | include/tpc/analytics/output/vtk_field_exporter.hpp:226-243 | appends one wedge per triangle and gap, lower layer first, with indices shifted by whole layers |
| VtkExporter.WriteTypes | include/tpc/analytics/output/vtk_field_exporter.hpp:245-248 | appends one wedge type per cell |
| VtkExporter.WriteVectors | include/tpc/analytics/output/vtk_field_exporter.hpp:250-270 | appends the rotated field vector of every point |
| VtkExporter.Export | include/tpc/analytics/output/vtk_field_exporter.hpp:21-278 | the tokens of the specified mesh, or the first error that applies, for every input |
| VtkExporter.ExportIsSound | include/tpc/analytics/output/vtk_field_exporter.hpp:187-270 | a successful export has one point and vector per triple, at least one wedge, all wedge indices below the number of points, sizes that fit, and reads back as its mesh |
| GridLattice.ColumnGuard | include/tpc/analytics/analytics_manager/analytics_manager.hpp:326 | the guard on the accumulated x holds for exactly the first 2 (n - 1) + 1 columns, so the loop terminates |
| GridLattice.RowGuard | include/tpc/analytics/analytics_manager/analytics_manager.hpp:323 | the guard on the accumulated y holds for exactly the counted rows, so the loop terminates |
| GridLattice.LayerIsClippedLattice | include/tpc/analytics/analytics_manager/analytics_manager.hpp:323-330 | a layer holds precisely the points of the unbounded staggered lattice that lie in the disc |
| GridLattice.GridIsClippedLattice | include/tpc/analytics/analytics_manager/analytics_manager.hpp:318-332 | the enumeration holds precisely the clipped lattice of every layer, each point once, strictly ordered by z, y, x |
| GridKernel.VisitGridPoints | include/tpc/analytics/analytics_manager/analytics_manager.hpp:312-332 | the nested accumulating loops visit the specified enumeration |
| GridKernel.VisitLayer | include/tpc/analytics/analytics_manager/analytics_manager.hpp:321-330 | the row loop visits the rows of one layer, bottom to top |
| GridKernel.VisitRow | include/tpc/analytics/analytics_manager/analytics_manager.hpp:324-329 | the column loop visits the points of one row inside the disc, left to right |
| GridKernel.CountPoints | include/tpc/analytics/analytics_manager/analytics_manager.hpp:334-337 | the counter is the number of visited points modulo two to the 64 |
| GridKernel.BufferAt | include/tpc/analytics/analytics_manager/analytics_manager.hpp:343-347 | triple i of the buffer holds radius, azimuth (zero below epsilon) and z of point i |
| GridKernel.AppendPoints | include/tpc/analytics/analytics_manager/analytics_manager.hpp:343-347 | the collection grows by three values per visited point |
| GridKernel.CalculateGridKernel | include/tpc/analytics/analytics_manager/analytics_manager.hpp:299-350 | the errors in order; on success exactly three values per lattice point are appended; the size error is reported exactly when three times a `std::size_t` point count is none |
| GridRecovery.RecoveredIs | include/tpc/analytics/output/vtk_field_exporter.hpp:58-72 | a grid point goes through the buffer unchanged, except that one within epsilon of the axis moves onto the positive x axis |
| GridRecovery.GeneratedLayersAgree | include/tpc/analytics/output/vtk_field_exporter.hpp:94-111 | all layers of a generated grid pass the exporter's topology check |
| GridRecovery.LayerSizeRecovered | include/tpc/analytics/output/vtk_field_exporter.hpp:79-85 | the exporter finds the generator's layer size exactly when it tells the first two layers apart |
| GridRecovery.RowComparesEqual | include/tpc/analytics/output/vtk_field_exporter.hpp:122-127 | all points of a lattice row compare equal in y, even if one was moved onto the axis |
| GridRecovery.TwoRowsNotEmpty | include/tpc/analytics/analytics_manager/analytics_manager.hpp:323-330 | rows 0 and 2 always hold the point on the y axis, so at least two rows are not empty |
| GridRecovery.ExporterUndoesGenerator | include/tpc/analytics/output/vtk_field_exporter.hpp:79-134 | for every grid with dimensions of at least two, positive radius and depth, the exporter recovers exactly the generator's layer size, layer count and non-empty rows if and only if its comparison tells layers and row starts apart |
| GridMesh.SteppedIsRecovered | include/tpc/analytics/output/vtk_field_exporter.hpp:79-134 | when the steps exceed the tolerance the lattice is recovered and no topology error is reported |
| GridMesh.CentralOddRow | include/tpc/analytics/analytics_manager/analytics_manager.hpp:312-330 | some staggered row lies within half the root of three times the radius of the axis |
| GridMesh.WellScaledTriangulates | include/tpc/analytics/output/vtk_field_exporter.hpp:187-188 | a grid whose layers are well-scaled, whatever the distance between layers, has a triangulation that is not empty |
| GridExport.WellScaledExports | include/tpc/analytics/output/vtk_field_exporter.hpp:21-278 | exporting the buffer of a well-scaled grid with any field of the right length gives the lattice mesh |
| GridExport.WellScaledErrors | include/tpc/analytics/output/vtk_field_exporter.hpp:187-195 | the only error left is that there are too many cells |
| MergedLayers.ReadingOfStack | include/tpc/analytics/output/vtk_field_exporter.hpp:79-134 | for copied layers of which the first c compare equal in height, the error or the topology the exporter ends in, as conditions on c, on the groups of c layers and on the y of one layer |
| GridMisreads.ReadingOfGrid | include/tpc/analytics/output/vtk_field_exporter.hpp:79-134 | for every valid grid: incomplete layers exactly if all layers or a number that does not divide them compare equal to the first; else differing topology exactly if some later group does not look flat; else too few rows exactly if a layer looks like one row; else the merged layers |
| GridMisreads.MisreadExactlyWhen | include/tpc/analytics/output/vtk_field_exporter.hpp:79-134 | the exporter accepts a topology that is not the grid's if and only if the grid looks regular and either its first two layers or two consecutive row starts compare equal; it reports an error exactly when the grid does not look regular |
| GridMisreads.GridIsMisread | include/tpc/analytics/output/vtk_field_exporter.hpp:79-111 | a valid grid of four layers is accepted with two |
| GridMisreads.ExportOfReading | include/tpc/analytics/output/vtk_field_exporter.hpp:21-278 | the export of every valid grid ends in the error of its reading or in the mesh of the layers and rows read |
| GridMisreads.RegularLookingIsExported | include/tpc/analytics/output/vtk_field_exporter.hpp:187-195 | a grid that looks regular and has well-scaled layers is exported, misread or not: only too many cells can stop it, and not at a countable resolution |
| GridMisreads.MisreadIsExported | include/tpc/analytics/output/vtk_field_exporter.hpp:79-195 | the export of that misread grid succeeds |
| GridLimits.ShallowGridIsRefused | include/tpc/analytics/output/vtk_field_exporter.hpp:79-88 | every valid grid no deeper than the tolerance looks like one layer, and its export ends in the incomplete-layers error |
| GridLimits.ShallowGridIsNotRecovered | include/tpc/analytics/output/vtk_field_exporter.hpp:79-134 | a valid grid exists from which the exporter does not recover the generator's topology |
| GridLimits.LayerEmptyExactlyWhen | include/tpc/analytics/output/vtk_field_exporter.hpp:187-188 | a flat layer has no triangles if and only if no strip has a gap that times its height exceeds the tolerance |
| GridLimits.NoTrianglesExactlyWhen | include/tpc/analytics/output/vtk_field_exporter.hpp:187-188 | a recovered grid with no moved point ends in the empty-triangulation error if and only if no strip has such a gap |
| GridLimits.TinyGridIsEmpty | include/tpc/analytics/output/vtk_field_exporter.hpp:144-145 | a grid whose radius squared is at most an eighth of the tolerance has no triangles, wherever its points are moved |
| GridLimits.TinyGridIsRefused | include/tpc/analytics/output/vtk_field_exporter.hpp:187-188 | a grid exists that is recovered exactly, and yet is refused for lack of triangles, its strips uncovered |
| LatticeAxis.RowsMissAxis | include/tpc/analytics/analytics_manager/analytics_manager.hpp:312-323 | no visited row lies on the x axis: its distance is at least the radius over twelve times the squared resolution |
| LatticeAxis.AxisIsClear | include/tpc/analytics/analytics_manager/analytics_manager.hpp:343-346 | at moderate resolution no point is within epsilon of the axis, so every point is recovered exactly |
| GridVolume.GeneratedTiling | include/tpc/analytics/output/vtk_field_exporter.hpp:155-185 | the triangles of a generated layer tile the union of its strips |
| GridLimits.GeneratedTilesExactlyWhen | include/tpc/analytics/output/vtk_field_exporter.hpp:144-185 | for a grid with no moved point they tile it if and only if the product of the steps, the area of a lattice triangle doubled, exceeds the tolerance |
| MovedRow.RowMovesExactlyWhen | include/tpc/analytics/output/vtk_field_exporter.hpp:58-72 | the exporter moves a point of a row if and only if the row has one within epsilon of the axis that is not on the ray at azimuth zero |
| MovedRow.OneRowMoves | include/tpc/analytics/output/vtk_field_exporter.hpp:58-72 | with rows two epsilon apart, points of at most one row are moved |
| MovedRow.LevelStripTilesExactlyWhen | include/tpc/analytics/output/vtk_field_exporter.hpp:155-185 | on every valid grid a strip with no moved point is tiled if and only if none of its gaps is too small, and so whenever a lattice triangle exceeds the tolerance |
| MovedRow.ConformsExactlyWhen | include/tpc/analytics/output/vtk_field_exporter.hpp:155-185 | when a lattice triangle exceeds the tolerance, the layer conforms if and only if no triangle is dropped in the strips next to a row with a moved point |
| MovedRow.EmptyExportExactlyWhen | include/tpc/analytics/output/vtk_field_exporter.hpp:187-188 | a recovered grid, points moved or not, ends in the empty-triangulation error if and only if no level strip has a gap that is kept and every triangle tried in the other strips is dropped |
| GridVolume.GeneratedArea | include/tpc/analytics/output/vtk_field_exporter.hpp:155-185 | their doubled areas sum to the doubled area of the strips |
| GridVolume.GeneratedIsConforming | include/tpc/analytics/output/vtk_field_exporter.hpp:155-185 | no candidate triangle of a generated layer is dropped, so the edge counts of `Conformity` hold for it |
| MeshInCylinder.MeshStaysInCylinder | include/tpc/analytics/output/vtk_field_exporter.hpp:153-185 | for any grid every point of a triangle lies in the disc |
| MeshInCylinder.CylinderIsNotFilled | include/tpc/analytics/output/vtk_field_exporter.hpp:153-154 | for any grid the top of the disc lies in no triangle |
| Extrusion.ExtrudedIsPrism | include/tpc/analytics/output/vtk_field_exporter.hpp:228-243 | a wedge stands straight between two layers over a triangle of the same area |
| Extrusion.ExtrusionVolume | include/tpc/analytics/output/vtk_field_exporter.hpp:228-243 | over layers that are copies of the first, the doubled wedge volumes telescope to the doubled triangle area times the height |
| GridVolume.GeneratedVolume | include/tpc/analytics/output/vtk_field_exporter.hpp:228-243 | the doubled wedge volumes sum to the doubled layer area times the depth |
| GridVolume.DetectorIsWellScaled | include/tpc/system/models/data.hpp:63-66 | over the detector's cylinder every grid with up to ten million points in each direction is well-scaled and clear of the axis |
| GridVolume.DetectorPipeline | include/tpc/analytics/output/vtk_field_exporter.hpp:21-278 | for all those grids: recovered, conforming, tiled, volume conserved, and too many cells the only error |
| GridCounts.CountableExports | include/tpc/analytics/output/vtk_field_exporter.hpp:187-195 | a well-scaled grid whose resolution times 168 fits a `std::size_t` is exported without error |
| DetectorRun.UnmovedPoints | include/tpc/analytics/output/vtk_field_exporter.hpp:58-72 | when no point is moved onto the axis, the points of the file are exactly the lattice points, in order |
| DetectorRun.DetectorFile | include/tpc/analytics/output/vtk_field_exporter.hpp:216-270 | over the detector the file reads back as the lattice points, the wedges that tile and fill them, and at each point the gradient of one harmonic polynomial |
| DetectorRun.CalculateThenExport | include/tpc/analytics/analytics_manager/analytics_manager.hpp:239-296 | calculating and exporting over the detector succeeds, and a reader of the file gets that mesh for the stored coefficients |
| Polynomials.DerivativeIsExact | include/tpc/analytics/models/basis_models.hpp:8-93 | the formal derivative used below is the derivative: a step changes any polynomial by the step times it, up to a second-order remainder |
| Polynomials.GradientIsCurlFree | include/tpc/analytics/models/basis_models.hpp:8-93 | the gradient of any polynomial is curl-free |
| FieldModes.PotentialHasGradient | include/tpc/analytics/models/basis_models.hpp:8-93 | the potential of each mode is harmonic and its gradient has the given closed form |
| FieldModes.ModeIsGradient | include/tpc/analytics/models/basis_models.hpp:8-93 | rotated to Cartesian, each mode is the gradient of its potential at (r cos phi, r sin phi, z) |
| DefaultField.ModesAre | include/tpc/analytics/models/basis_models.hpp:8-93 | below ten each basis function is the formula of its mode; from ten up to 2 to the 32 it vanishes; then the narrowing to `int` repeats it |
| DefaultField.NarrowingMattersExactlyWhen | include/tpc/analytics/analytics_manager/analytics_manager.hpp:411-426 | the narrowing changes a mode exactly for numbers from 2 to the 32 on whose remainder is below ten |
| DefaultField.FieldIsSum | include/tpc/analytics/analytics_manager/analytics_manager.hpp:136-146 | the evaluated field, rotated, is the sum of coefficient times mode gradient over the first ten modes, for up to 2 to the 32 coefficients |
| DefaultField.UnitFieldIs | include/tpc/analytics/analytics_manager/analytics_manager.hpp:136-146 | with a one for mode k alone it is the gradient of mode k |
| DefaultField.ModesAreIndependent | include/tpc/analytics/models/basis_models.hpp:8-93 | ten coefficients are determined by their field at four places |
| PhysicalField.SumIsGradient | include/tpc/analytics/analytics_manager/analytics_manager.hpp:222-226 | the mode sum of any coefficients is the gradient of the combined potential |
| PhysicalField.EvaluatedFieldIsPhysical | include/tpc/analytics/analytics_manager/analytics_manager.hpp:222-232 | for any coefficient vector the evaluated field is one polynomial field, free of divergence and curl everywhere |
| Evaluators.EvaluatePoint | include/tpc/analytics/analytics_manager/analytics_manager.hpp:137-144 | the loops of the point evaluator compute the left-to-right sum of coefficient times mode for each component, in any arithmetic |
| Evaluators.EvaluateAt | include/tpc/analytics/analytics_manager/analytics_manager.hpp:366-388 | one iteration of the kernel makes its triple of the buffer the field at its coordinates, and keeps the earlier ones |
| Evaluators.CalculateFieldKernel | include/tpc/analytics/analytics_manager/analytics_manager.hpp:352-391 | every triple of the buffer becomes the evaluated field at its coordinates; on a size error the buffer is untouched |
| Evaluators.FieldIsDetermined | include/tpc/analytics/analytics_manager/analytics_manager.hpp:366-388 | the field buffer is determined by coefficients and coordinates |
| Evaluators.SumGrowsOnTheRight | include/tpc/analytics/analytics_manager/analytics_manager.hpp:139-144 | in any arithmetic one more coefficient adds coefficient times mode on the right of the sum, which starts with zero |
| FieldSlices.EvaluateFieldSlice | include/tpc/analytics/analytics_manager/analytics_manager.hpp:149-237 | the errors in order, the size error exactly when the buffer size is no `std::size_t`; cancellation exactly when a stop request is seen; otherwise a complete raster |
| SlicePlanes.RejectedExactlyWhen | include/tpc/analytics/analytics_manager/analytics_manager.hpp:157-192 | when each error of a slice request is reported, in plain arithmetic |
| SlicePlanes.PixelHolds | include/tpc/analytics/analytics_manager/analytics_manager.hpp:179-235 | which place each pixel of an X, Y or Z slice shows, in plain arithmetic, and that it holds the rotated field there, marked exactly if the place is in the disc, and zeros otherwise |
| SlicePlanes.PixelHoldsField | include/tpc/analytics/analytics_manager/analytics_manager.hpp:218-232 | with the default basis it holds the harmonic field of the coefficients at that place, up to epsilon from the axis at the place as far out on the x axis |
| SlicePlanes.BoundsAre | include/tpc/analytics/analytics_manager/analytics_manager.hpp:179-187 | the bounds returned with a slice |
| SlicePlanes.AcceptedHasReach | include/tpc/analytics/analytics_manager/analytics_manager.hpp:184 | every accepted X or Y request cuts the disc in a chord |
| FieldSlices.FillRaster | include/tpc/analytics/analytics_manager/analytics_manager.hpp:196-236 | every pixel is valid exactly when its place is in the disc, holds the rotated field there, and is zero otherwise |
| FieldSlices.FillPixel | include/tpc/analytics/analytics_manager/analytics_manager.hpp:206-233 | one iteration fills its own pixel and keeps all others |
| FieldSlices.EvaluatePixel | include/tpc/analytics/analytics_manager/analytics_manager.hpp:222-226 | the slice's own loops compute the same sum |
| Indexing.PositionIsBijective | include/tpc/analytics/analytics_manager/analytics_manager.hpp:228-229 | row-major positions (pixels, matrix rows, wedge indices) are a bijection with rows and columns |
| FieldSlices.SlicesAgree | include/tpc/analytics/analytics_manager/analytics_manager.hpp:206-233 | two slices of the same coefficients agree wherever they share a place |
| FieldAgreement.PixelIsRotatedTriple | include/tpc/analytics/analytics_manager/analytics_manager.hpp:219-232 | in any arithmetic a valid pixel at the place of a grid point is the kernel's triple there, rotated, wherever the two epsilon comparisons agree |
| FieldAgreement.PixelShowsFileVector | include/tpc/analytics/analytics_manager/analytics_manager.hpp:219-232 | over the reals a valid pixel at the place of grid point i holds vector i of the file, unless the point is exactly epsilon from the axis |
| FieldAgreement.SliceShowsExportExactlyWhen | include/tpc/analytics/analytics_manager/analytics_manager.hpp:219-220 | slice and export agree at a place for all coefficients if and only if it is not exactly epsilon from the axis or lies on the positive x axis |
| FieldAgreement.SliceDiffersFromFile | include/tpc/analytics/analytics_manager/analytics_manager.hpp:345 | an accepted slice and a valid grid exist with a common place at which pixel and file differ |
| FieldAgreement.BufferHoldsGridTriples | include/tpc/analytics/analytics_manager/analytics_manager.hpp:343-347 | the coordinates the kernel reads are the grid triples of the lattice points |
| FieldAgreement.FileVectorIsEvaluated | include/tpc/analytics/output/vtk_field_exporter.hpp:253-270 | the vectors in the file are the evaluated field at the stored coordinates, rotated |
| FieldAgreement.FileIsPhysical | include/tpc/analytics/output/vtk_field_exporter.hpp:253-270 | in the exported file the vector at each point is the gradient of one harmonic polynomial at that very point |
| FieldAgreement.AxialSlicesAreValid | include/tpc/analytics/analytics_manager/analytics_manager.hpp:182-217 | in exact arithmetic every pixel of an X or Y slice is valid |
| Indexing.QuotientGuard | include/tpc/analytics/svd/svd_solver.hpp:43-44 | a guard made of a quotient rejects exactly the products beyond the limit, here the row counts that are no matrix index |
| SvdSolver.Assemble | include/tpc/analytics/svd/svd_solver.hpp:23-70 | the errors in order, the exception for a wrong arity exactly when it is thrown, and otherwise the whole system |
| SvdSolver.AssembleRow | include/tpc/analytics/svd/svd_solver.hpp:61-69 | one row of matrix and right-hand side is filled, earlier rows stay |
| SvdSolver.RejectedExactlyWhen | include/tpc/analytics/svd/svd_solver.hpp:23-47 | when each error is reported before any measurement but the first is looked at |
| SvdSolver.SolveSvd | include/tpc/analytics/svd/svd_solver.hpp:17-76 | the errors, and otherwise what the decomposition returns for the assembled problem |
| SvdSolver.SystemIsEvaluator | include/tpc/analytics/svd/svd_solver.hpp:54-70 | matrix times coefficients is the stack of the evaluator's results, in any arithmetic with a commutative product |
| SvdSolver.ExactSolutions | include/tpc/analytics/svd/svd_solver.hpp:54-70 | coefficients solve the system exactly if and only if the evaluator reproduces every measurement from them |
| FieldFit.FitIsExactExactlyWhen | include/tpc/analytics/svd/svd_solver.hpp:54-70 | for any basis: coefficients solve the problem of given measurements without residual if and only if the evaluated field at each measured point is the measured one |
| FieldFit.FitIsFieldExactlyWhen | include/tpc/analytics/svd/svd_solver.hpp:54-70 | with the default basis: if and only if their harmonic field passes through every measured vector at its place in space |
| ChunkViews.Iterator.Deref | include/tpc/utilities/chunkview.hpp:28-32 | the current chunk is full unless it ends the buffer |
| ChunkViews.Iterator.Next | include/tpc/utilities/chunkview.hpp:34-40 | moves to the end of the current chunk |
| ChunkViews.Chunks | include/tpc/utilities/chunkview.hpp:56-66 | iteration terminates and visits the specified chunks in order |
| ChunkViews.ChunkOfPosition | include/tpc/utilities/chunkview.hpp:28-40 | chunk i starts at i times the chunk size, and only the last may be short |
| ChunkViews.EveryPositionInAChunk | include/tpc/utilities/chunkview.hpp:28-40 | every position of the buffer is in some chunk |
| ChunkViews.ChunksAreDisjoint | include/tpc/utilities/chunkview.hpp:28-40 | no two chunks overlap |
| StoreFacts.TransformKeepsPlace | include/tpc/analytics/models/three_dimension_models.hpp:34-58 | a conversion in either direction leaves the point at its Cartesian place, with the target type and no negative radius |
| FieldStore.FieldCollection.Clear | include/tpc/analytics/models/three_dimension_models.hpp:109-112 | both buffers are empty |
| FieldStore.FieldCollection.AppendCoordinate | include/tpc/analytics/models/three_dimension_models.hpp:114-118 | the coordinates grow by the three values; whole triples are kept |
| FieldStore.FieldCollection.ResizeFieldToCoordinates | include/tpc/analytics/models/three_dimension_models.hpp:120-122 | the field gets the coordinates' length, keeps what fits and pads with zeros |
| FieldStore.FieldCollection.InsertCoordinatesRange | include/tpc/analytics/models/three_dimension_models.hpp:124-134 | appends, or reports empty or indivisible data and changes nothing |
| FieldStore.FieldCollection.InsertFieldRange | include/tpc/analytics/models/three_dimension_models.hpp:136-146 | the same for the field |
| FieldStore.FieldCollection.TransformCoordinates | include/tpc/analytics/models/three_dimension_models.hpp:148-177 | every chunk is converted in place, or an error is reported and nothing changes |
| FieldStore.FieldCollection.TransformField | include/tpc/analytics/models/three_dimension_models.hpp:179-210 | every vector is rotated in place by its point's azimuth, or nothing changes and the error says why |
| StoreFacts.PointRoundTrip | include/tpc/analytics/models/three_dimension_models.hpp:34-58 | a Cartesian point converted to cylindrical and back is the same point |
| StoreFacts.BufferRoundTrip | include/tpc/analytics/models/three_dimension_models.hpp:148-177 | a buffer of triples transformed to cylindrical coordinates and back is the same buffer |
| StoreFacts.TransformedIsExported | include/tpc/analytics/output/vtk_field_exporter.hpp:58-72 | transforming the coordinates in place gives the points the exporter computes |
| StoreFacts.RotatedIsExported | include/tpc/analytics/output/vtk_field_exporter.hpp:263-267 | rotating the field in place gives the vectors the exporter writes |
| StoreFacts.RotationKeepsLength | include/tpc/analytics/models/three_dimension_models.hpp:199-206 | rotation keeps each vector's squared length |
| Analytics.BasisCollection.Create | include/tpc/analytics/svd/basis.hpp:17-27 | refuses zero arity or zero modes; otherwise an empty collection |
| Analytics.BasisCollection.AddBack | include/tpc/analytics/svd/basis.hpp:48-54 | appends until the arity is reached, then refuses and changes nothing |
| Analytics.CreateDefaultBasis | include/tpc/analytics/analytics_manager/analytics_manager.hpp:411-426 | holds exactly the three default functions |
| Analytics.AnalyticsManager.Create | include/tpc/analytics/analytics_manager/analytics_manager.hpp:57-68 | refuses an empty basis; otherwise no coefficients and no valid field |
| Analytics.AnalyticsManager.CalculateSvdCoefficients | include/tpc/analytics/analytics_manager/analytics_manager.hpp:94-125 | converts the measured points in place to polar coordinates, leaving them where they are in space; reports the first error that applies or stores what the decomposition returns for the problem of the converted measurements, row by row; coefficients are stored only with a three-function basis |
| Analytics.AnalyticsManager.EvaluateForPoint | include/tpc/analytics/analytics_manager/analytics_manager.hpp:127-147 | once coefficients are stored, every basis access is in range and the result is the field value; at a stored coordinate it is the stored triple, if the field belongs to the current coefficients |
| Analytics.AnalyticsManager.EvaluateFieldSlice | include/tpc/analytics/analytics_manager/analytics_manager.hpp:149-237 | the first error that applies, cancellation exactly when a stop request is seen, otherwise a complete slice of the stored coefficients |
| Analytics.AnalyticsManager.CalculateField | include/tpc/analytics/analytics_manager/analytics_manager.hpp:239-273 | the field is valid exactly after success, and then complete for the current coefficients and the asked grid; a rejected call changes nothing; an accepted grid of countable size fails exactly when its coordinates are not countable |
| Analytics.AnalyticsManager.GetFieldData | include/tpc/analytics/analytics_manager/analytics_manager.hpp:275-282 | only a complete field is handed out, and whenever the field is valid |
| Analytics.SliceShowsStoredField | include/tpc/analytics/analytics_manager/analytics_manager.hpp:149-282 | if slice and stored field belong to the same coefficients, a valid pixel at the place of grid point i holds vector i of the export, unless the point is exactly epsilon from the axis |
| Analytics.AnalyticsManager.ExportToVtk | include/tpc/analytics/analytics_manager/analytics_manager.hpp:284-296 | the file of the stored field, or the error that applies |
| FieldWorker.RunKeepsInvariant | src/system/tpc.cpp:189-225 | the protocol invariant survives every interleaving |
| FieldWorker.FieldWorkerIsSafe | src/system/tpc.cpp:278-339 | in every run the flag is set exactly while a job is pending or computed; accepted jobs are noticed ones, then at most one awaiting notice, one running, one pending, in order |
| FieldWorker.PendingIsNeverOverwritten | src/system/tpc.cpp:195-217 | in every run a submission is accepted only into an empty slot, and changes nothing otherwise |
| FieldWorker.CompletionFollowsAcceptance | src/system/tpc.cpp:319-337 | in every run jobs complete in the order of acceptance |
| FieldWorker.SubmissionAcceptedExactlyWhen | src/system/tpc.cpp:189-225 | in every run a submission is accepted exactly if every accepted job has been noticed or only awaits its notice; otherwise it is refused and nothing else changes |
| FieldWorker.EverySubmissionIsAnswered | src/system/tpc.cpp:189-225 | accepted and refused submissions add up to all |
| FieldWorker.NoticesTellOutcomes | src/system/tpc.cpp:293-337 | in every run the notices carry the outcomes of the computations in order, and an error is reported for exactly the failed jobs, before the notice |
| FieldWorker.StopEndsWorker | src/system/tpc.cpp:278-339 | once a stop is requested the worker ends within six steps |
| FieldWorker.StopEndsEveryRun | src/system/tpc.cpp:278-339 | so it is after a stop requested at the end of any run |
| FieldWorker.TakenJobCompletes | src/system/tpc.cpp:282-294 | a worker past its stop check takes a pending job in spite of a stop request and completes it |
| FieldWorker.IdleWorkerSleeps | src/system/tpc.cpp:278-294 | with nothing pending and no stop the worker falls asleep after an exact number of its own steps, and takes none while it sleeps |
| FieldWorker.NoLostWakeup | src/system/tpc.cpp:224 | while a job is unfinished the worker can step or a notification that wakes it is still owed |
| FieldWorker.ProgressIsMade | src/system/tpc.cpp:278-339 | each worker step brings the oldest unfinished job closer to its notice, and nothing moves it away |
| FieldWorker.JobsComplete | src/system/tpc.cpp:278-339 | any run with enough worker steps delivers the next notice, whatever callers do |
| PollingWorker.RunKeepsInvariant | src/system/tpc.cpp:163-187 | the protocol invariant survives every interleaving |
| PollingWorker.PollingIsSafe | src/system/tpc.cpp:163-187 | in every run at most one worker has not been asked to stop, it is the one in the slot, and after its stop request a worker delivers at most one more frame |
| PollingWorker.StartLeavesWorker | src/system/tpc.cpp:163-187 | after any run, starting leaves an unstopped worker in the slot with the given interval, and creates it exactly if there was none |
| PollingWorker.StopLeavesNone | src/system/tpc.cpp:78-86 | after any run, stopping leaves every worker stopped and none asleep |
| PollingWorker.FrameIsNeverBlocked | src/system/tpc.cpp:341-366 | an unstopped worker can always step towards its next frame |
| PollingWorker.FramesAreDelivered | src/system/tpc.cpp:341-366 | without a stop an unstopped worker delivers a frame for every four such steps, no fewer and at most one more, in every run |
| PollingWorker.StoppedWorkerEnds | src/system/tpc.cpp:341-366 | a stopped worker ends after at most three steps, with at most one more frame, and none unless it was past its stop check |
| PollingWorker.SleeperWakesExactlyWhen | src/system/tpc.cpp:358-364 | a sleeping worker's wake condition holds exactly unless the starts since it read the revision are a multiple of two to the 64 |
| PollingWorker.SleeperIsCurrentOrWakes | src/system/tpc.cpp:358-364 | short of that, a sleeping worker holds the current interval or will wake, with the notification still owed |
| PollingWorker.RevisionWraps | src/system/tpc.cpp:174 | after exactly that many starts a worker sleeps on with a stale interval |
| PollingWorker.StaleIntervalIsReached | src/system/tpc.cpp:163-187 | a run from the start leads to such a worker |
| AnalyticsLocks.RunKeepsInvariant | include/tpc/analytics/analytics_manager/analytics_manager.hpp:247-271 | lock discipline and snapshots survive every interleaving |
| AnalyticsLocks.SnapshotsAreSafe | include/tpc/analytics/analytics_manager/analytics_manager.hpp:275-282 | in every run a held view sees a complete field from one coefficient vector, unchanged since it was obtained, and an evaluation reads one vector throughout |
| AnalyticsLocks.ViewIsStable | include/tpc/analytics/analytics_manager/analytics_manager.hpp:31-55 | as long as a view is held no thread changes the field |
| AnalyticsLocks.ValidExactlyWhenFinished | include/tpc/analytics/analytics_manager/analytics_manager.hpp:252-272 | in every run the field is valid exactly if the last calculation that touched it finished, so not after a refused grid |
| AnalyticsLocks.CoefficientsAreLastStored | include/tpc/analytics/analytics_manager/analytics_manager.hpp:121-122 | in every run the coefficients are the vector stored last |
| AnalyticsLocks.ReadsAreRecorded | include/tpc/analytics/analytics_manager/analytics_manager.hpp:127-147 | in every run an evaluation in progress has a record of each of its reads since it got the lock |
| AnalyticsLocks.GrantedExactlyWhen | include/tpc/analytics/analytics_manager/analytics_manager.hpp:247-252 | when each waiting thread gets its lock, in terms of what the other threads are doing |
| AnalyticsLocks.ViewMayBeStale | include/tpc/analytics/analytics_manager/analytics_manager.hpp:121-122 | the viewed field need not belong to the current coefficients |
| AnalyticsLocks.SomeoneAdvances | include/tpc/analytics/analytics_manager/analytics_manager.hpp:247-252 | unless a thread is trapped, some thread inside an operation or holding a view can go on, without trapping another |
| AnalyticsLocks.TrapIsForever | include/tpc/analytics/analytics_manager/analytics_manager.hpp:31-55 | a thread that holds a view and waits in a cycle of locks waits forever, in every run |
| AnalyticsLocks.FinishesExactlyWhen | include/tpc/analytics/analytics_manager/analytics_manager.hpp:121-282 | all operations can be brought to their end and all views given back if and only if no thread is trapped, for either policy towards waiting writers |
| AnalyticsLocks.EveryOrderFinishes | include/tpc/analytics/analytics_manager/analytics_manager.hpp:247-282 | while no holder of a view is inside an operation that could trap it, every run of advancing actions is at most as long as the work remaining, and when no further action advances all operations are finished and all views given back |
| AnalyticsLocks.ConsiderateCallersFinish | include/tpc/analytics/analytics_manager/analytics_manager.hpp:275-282 | so it is after every run in which holders of a view begin no conflicting operation |
| AnalyticsLocks.InconsiderateCallTraps | include/tpc/analytics/analytics_manager/analytics_manager.hpp:247-252 | for each operation begun by the holder of a view, the exact states in which it traps the caller, where a lock owned shared is never granted exclusively to its owner |
| AnalyticsLocks.TwoThreadsDeadlock | include/tpc/analytics/analytics_manager/analytics_manager.hpp:247-252 | a run leads to two threads waiting for each other, with no action possible |
| AnalyticsLocks.OneThreadDeadlocks | include/tpc/analytics/analytics_manager/analytics_manager.hpp:252 | a run leads to a thread trapped by its own view |

## Left out

- Floating-point rounding in the lattice and in the geometry: both are stated over exact reals with the
  exporter's tolerance; only the evaluators, the slice, the solver and the store are stated over any arithmetic.
- The singular value decomposition and its threshold: a parameter that gets the assembled problem and the threshold,
  and of whose result only the length is known.
- Files and directories: the export ends with the token sequence; opening, flushing and I/O errors are left out, and
  printed numbers keep their exact value instead of ten digits.
- Which way a wedge's base faces by VTK's convention: only that all triangles share one orientation.
- GridKernel.VisitGridPoints: the visitor callbacks are modelled by the sequence of points handed to them.
- Analytics.FillField: the span over the field vector is an array copied out of the collection and back, so writing
  through the span while reading the collection is not captured.
- GridLimits.GeneratedTilesExactlyWhen: pointwise coverage is not stated for the two strips next to a row with a point
  moved onto the x axis, whose rows are no longer level; `MovedRow` says which row that is, when all their triangles are
  kept, and that the other strips are tiled.
- FieldStore.Transformed: the point is a value; its update in place is the update of the array element that holds it.
- FieldSlices.EvaluateFieldSlice: what the stop token answers before each row is a parameter.
- Growth and reuse of vector storage (`reserve`, moves, out of memory).
- The path-taking `AnalyticsManager::export_to_vtk`: it takes no lock and ignores the validity flag, so the snapshot
  statements do not cover it.
- Moves of `AnalyticsManager` and the tear-down of the threads.
- Calls of `start_polling_async` from the polling worker's own callback after a stop, which would join the worker with
  itself.
- A second view, or an export, by a thread that still holds a view, and views handed to another thread: locking a
  `std::shared_mutex` twice from one thread, or unlocking it from another, is undefined in C++.
- Actual time: a timed wait may end at any moment, and frames are delivered whenever a worker gets there.
- The OPC UA client, subscriptions, the event handlers, frame conversion with Hall calibration, and the test frame:
  foreign calls, or members that would only add easy statements.
