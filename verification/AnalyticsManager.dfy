/** `BasisCollection` and `AnalyticsManager`: what the objects hold between calls, and why the evaluators
    never reach past the end of the basis. Locks are the subject of another module. */
module Analytics {
  import opened Numeric
  import opened Arithmetic
  import opened Evaluators
  import opened PhysicalField
  import opened FieldStore
  import opened GridLattice
  import opened Geometry
  import opened Indexing
  import opened FieldAgreement
  import opened StoreFacts
  import Kernel = GridKernel
  import Slices = FieldSlices
  import Solver = SvdSolver
  import Vtk = VtkExporter
  import VtkFile

  datatype BasisError = ZeroArity | ZeroModes | BasisFull

  class BasisCollection<!T> {
    const arity: nat
    const modes: nat
    const basisType: CoordinateType
    var basis: seq<BasisFunction<T>>

    /** Never more functions than the arity, and never no modes. */
    ghost predicate Valid()
      reads this
    {
      0 < arity && 0 < modes && |basis| <= arity
    }

    constructor (arity: nat, modes: nat, basisType: CoordinateType)
      requires 0 < arity && 0 < modes
      ensures Valid() && basis == [] && this.arity == arity && this.modes == modes && this.basisType == basisType
    {
      this.arity := arity;
      this.modes := modes;
      this.basisType := basisType;
      basis := [];
    }

    static method Create(arity: nat, modes: nat, basisType: CoordinateType)
      returns (result: Result<BasisCollection<T>, BasisError>)
      ensures result == Err(ZeroArity) <==> arity == 0
      ensures result == Err(ZeroModes) <==> arity > 0 && modes == 0
      ensures result.Ok? <==> arity > 0 && modes > 0
      ensures result.Ok? ==>
                var c := result.value;
                fresh(c) && c.Valid() && c.basis == []
                && c.arity == arity && c.modes == modes && c.basisType == basisType
    {
      if arity == 0 {
        return Err(ZeroArity);
      }
      if modes == 0 {
        return Err(ZeroModes);
      }
      var collection := new BasisCollection(arity, modes, basisType);
      result := Ok(collection);
    }

    /** Appends until the arity is reached, and from then on refuses and changes nothing. */
    method AddBack(f: BasisFunction<T>) returns (result: Result<(), BasisError>)
      requires Valid()
      modifies this`basis
      ensures Valid()
      ensures result == (if |old(basis)| >= arity then Err(BasisFull) else Ok(()))
      ensures basis == if result.Ok? then old(basis) + [f] else old(basis)
    {
      if |basis| >= arity {
        return Err(BasisFull);
      }
      basis := basis + [f];
      result := Ok(());
    }
  }

  /** `create_default_basis` with the three default functions. */
  method CreateDefaultBasis(m: Trig, modes: nat) returns (result: Result<BasisCollection<real>, BasisError>)
    ensures result == Err(ZeroModes) <==> modes == 0
    ensures result.Ok? <==> modes > 0
    ensures result.Ok? ==>
              fresh(result.value) && result.value.Valid() && result.value.modes == modes && result.value.arity == 3
              && result.value.basis == DefaultBasis(m) && result.value.basisType == Cylindric
  {
    result := BasisCollection<real>.Create(3, modes, Cylindric);
    if result.Ok? {
      var first := result.value.AddBack(DefaultBasis(m)[0]);
      var second := result.value.AddBack(DefaultBasis(m)[1]);
      var third := result.value.AddBack(DefaultBasis(m)[2]);
    }
  }

  /** A measurement as the callers hand it in; its point is converted in place. */
  datatype Measured = Measured(point: PointComponents<real>, field: Triple<real>)

  datatype ManagerError =
    | EmptyBasis
    | NoModes
    | NoMeasurements
    | SolverFailed(solver: Solver.SolverError)
    | NotCalculated
    | WrongArity
    | NotPositive
    | GridFailed(grid: Kernel.GridError)
    | FieldNotCalculated
    | FieldEmpty
    | ExportFailed(export_: Vtk.ExportError)

  /** The spans the solver reads from a measurement. */
  function Exposed(measured: Measured): Solver.Measurement<real> {
    var p, v := measured.point.components, measured.field;
    Solver.Measurement([p.first, p.second, p.third], [v.first, v.second, v.third])
  }

  /** The measurement with its point converted: to polar coordinates if it was Cartesian, unchanged otherwise. In both
      cases it stays where it is in space. */
  ghost predicate IsInPolar(m: Trig, before: Measured, after: Measured) {
    var p := before.point.components;
    && after.field == before.field
    && after.point.coordinateType == Cylindric && PlaceOfPoint(m, after.point) == PlaceOfPoint(m, before.point)
    && after.point.components ==
       if before.point.coordinateType == Cylindric then p
       else Triple(m.hypot(p.first, p.second), m.atan2(p.second, p.first), p.third)
  }

  /** Row 3 i + c belongs to component c of measurement i: entry k is basis function c for mode k at the point of the
      measurement, and the value is the component of its field. */
  ghost predicate IsFitRow(basis: seq<BasisFunction<real>>, measured: Measured, modes: nat,
                           problem: Solver.Problem<real>, i: nat, c: nat)
    requires ThreeFunctions(basis) && c < 3 && 3 * i + c < |problem.rows| == |problem.values|
  {
    var p, v, row := measured.point.components, measured.field, problem.rows[3 * i + c];
    && problem.values[3 * i + c] == (if c == 0 then v.first else if c == 1 then v.second else v.third)
    && |row| == modes && forall k :: 0 <= k < modes ==> row[k] == basis[c](k, p.first, p.second, p.third)
  }

  /** The least-squares problem of the measurements. */
  ghost predicate IsFit(basis: seq<BasisFunction<real>>, measurements: seq<Measured>, modes: nat,
                        problem: Solver.Problem<real>)
    requires ThreeFunctions(basis)
  {
    && |problem.rows| == |problem.values| == 3 * |measurements|
    && forall i, c :: 0 <= i < |measurements| && 0 <= c < 3 ==>
                        IsFitRow(basis, measurements[i], modes, problem, i, c)
  }

  /** All that is known of the decomposition: it returns one entry per column. */
  ghost predicate FitsColumns(decompose: (Solver.Problem<real>, real) -> seq<real>, modes: nat) {
    forall problem: Solver.Problem<real>, threshold ::
      problem.rows != [] && (forall r :: 0 <= r < |problem.rows| ==> |problem.rows[r]| == modes) ==>
        |decompose(problem, threshold)| == modes
  }

  class AnalyticsManager {
    const m: Trig
    const basisCollection: BasisCollection<real>
    var fieldData: FieldCollection?<real>
    var fieldDataValid: bool
    var storedCoefficients: seq<real>
    /** What the valid field was computed from. */
    ghost var fieldCoefficients: seq<real>
    ghost var fieldGrid: Grid

    /** Coefficients are stored only if they have one entry per mode, and then the basis has exactly three
        functions; a valid field is complete and belongs to one coefficient vector and one grid. */
    ghost predicate Valid()
      reads this, basisCollection, fieldData
    {
      && Lawful(m)
      && basisCollection.Valid() && basisCollection.basis != []
      && (storedCoefficients == [] || |storedCoefficients| == basisCollection.modes)
      && (|storedCoefficients| == basisCollection.modes ==> ThreeFunctions(basisCollection.basis))
      && (fieldData != null ==>
            && fieldData.Valid() && fieldData.dimension == 3
            && fieldData.coordinatesType == Cylindric && fieldData.fieldType == Cylindric)
      && (fieldDataValid ==> fieldData != null && FieldIsComplete())
    }

    ghost predicate FieldIsComplete()
      reads this, basisCollection, fieldData
      requires fieldData != null
    {
      && ThreeFunctions(basisCollection.basis) && ValidGrid(fieldGrid) && StepY(m, fieldGrid) > 0.0
      && |fieldCoefficients| == basisCollection.modes
      && fieldData.coordinates == Kernel.GridCoordinates(m, fieldGrid)
      && HoldsField(Reals(m), basisCollection.basis, fieldCoefficients, fieldData.coordinates, fieldData.field)
    }

    constructor (m: Trig, basis: BasisCollection<real>)
      requires Lawful(m) && basis.Valid() && basis.basis != []
      ensures Valid() && this.m == m && basisCollection == basis
      ensures storedCoefficients == [] && !fieldDataValid && fieldData == null
    {
      this.m := m;
      basisCollection := basis;
      fieldData := null;
      fieldDataValid := false;
      storedCoefficients := [];
    }

    static method Create(m: Trig, basis: BasisCollection<real>) returns (result: Result<AnalyticsManager, ManagerError>)
      requires Lawful(m) && basis.Valid()
      ensures result == Err(EmptyBasis) <==> basis.basis == []
      ensures result.Ok? <==> basis.basis != []
      ensures result.Ok? ==>
                var manager := result.value;
                fresh(manager) && manager.Valid() && manager.m == m && manager.basisCollection == basis
                && manager.storedCoefficients == [] && !manager.fieldDataValid
    {
      if basis.basis == [] {
        return Err(EmptyBasis);
      }
      if basis.modes == 0 {
        return Err(NoModes);
      }
      var manager := new AnalyticsManager(m, basis);
      result := Ok(manager);
    }

    /** `calculate_svd_coefficients`. The decomposition is a parameter, which gets the problem of the converted
        measurements. They are converted in place even when the solver then fails. */
    method CalculateSvdCoefficients(measurements: array<Measured>, threshold: real,
                                    decompose: (Solver.Problem<real>, real) -> seq<real>)
      returns (result: Result<(), ManagerError>)
      requires Valid() && FitsColumns(decompose, basisCollection.modes)
      modifies this`storedCoefficients, measurements
      ensures Valid()
      ensures result ==
        if measurements.Length == 0 then Err(NoMeasurements)
        else if threshold < 0.0 then Err(SolverFailed(Solver.NegativeThreshold))
        else if |basisCollection.basis| != 3 then Err(SolverFailed(Solver.BasisSizeMismatch))
        else if 3 * measurements.Length > Solver.INDEX_MAX then Err(SolverFailed(Solver.TooManyRows))
        else if basisCollection.modes > Solver.INDEX_MAX then Err(SolverFailed(Solver.TooManyModes))
        else Ok(())
      ensures forall i :: 0 <= i < measurements.Length ==> IsInPolar(m, old(measurements[i]), measurements[i])
      ensures result.Err? ==> storedCoefficients == old(storedCoefficients)
      ensures result.Ok? ==>
                && ThreeFunctions(basisCollection.basis)
                && exists problem :: IsFit(basisCollection.basis, measurements[..], basisCollection.modes, problem)
                                     && storedCoefficients == decompose(problem, threshold)
    {
      if measurements.Length == 0 {
        return Err(NoMeasurements);
      }
      if basisCollection.basis == [] {
        return Err(EmptyBasis);
      }
      ConvertPoints(m, measurements);
      var exposed := ExposeAll(measurements[..]);
      InputIsConsistent(measurements[..]);
      var basis, modes := basisCollection.basis, basisCollection.modes;
      var solution := Solver.SolveSvd(Reals(m), exposed, basis, modes, threshold, decompose);
      if solution.Err? {
        return Err(SolverFailed(solution.error));
      }
      ghost var problem :| Solver.IsProblem(basis, exposed, modes, problem)
                           && solution.value == decompose(problem, threshold);
      ProblemIsFit(basis, measurements[..], modes, problem);
      storedCoefficients := solution.value;
      result := Ok(());
    }

    /** `evaluate_for_point`: never fails once there are coefficients, and never before. At a stored coordinate
        it returns the stored triple, if the stored field belongs to the current coefficients. */
    method EvaluateForPoint(p: Triple<real>) returns (result: Result<Triple<real>, ManagerError>)
      requires Valid()
      ensures |storedCoefficients| != basisCollection.modes ==> result == Err(NotCalculated)
      ensures |storedCoefficients| == basisCollection.modes ==>
                ThreeFunctions(basisCollection.basis)
                && result == Ok(FieldValue(Reals(m), basisCollection.basis, storedCoefficients, p))
      ensures fieldDataValid && fieldCoefficients == storedCoefficients ==>
                forall id :: 0 <= id < |fieldData.coordinates| / 3 && TripleAt(fieldData.coordinates, id) == p ==>
                  3 * id + 2 < |fieldData.field| && result == Ok(TripleAt(fieldData.field, id))
    {
      if |storedCoefficients| != basisCollection.modes {
        return Err(NotCalculated);
      }
      var components := EvaluatePoint(Reals(m), basisCollection.basis, storedCoefficients, p);
      result := Ok(components);
      if fieldDataValid && fieldCoefficients == storedCoefficients {
        forall id | 0 <= id < |fieldData.coordinates| / 3 && TripleAt(fieldData.coordinates, id) == p
          ensures 3 * id + 2 < |fieldData.field| && result == Ok(TripleAt(fieldData.field, id))
        {
          assert HoldsFieldAt(Reals(m), basisCollection.basis, fieldCoefficients,
                              fieldData.coordinates, fieldData.field, id);
        }
      }
    }

    /** `evaluate_field_slice`. */
    method EvaluateFieldSlice(q: Slices.Request<real>, stopRequested: nat -> bool)
      returns (result: Result<Slices.FieldSlice<real>, Slices.SliceError>)
      requires Valid()
      ensures var verdict := Slices.Rejection(Reals(m), q, |storedCoefficients| == basisCollection.modes);
              if verdict.Err? then result == Err(verdict.error)
              else if exists row :: 0 <= row < q.rows && stopRequested(row) then result == Err(Slices.Cancelled)
              else
                && result.Ok? && ThreeFunctions(basisCollection.basis)
                && Slices.ShowsRequest(Reals(m), basisCollection.basis, storedCoefficients, q, result.value)
    {
      result := Slices.EvaluateFieldSlice(Reals(m), basisCollection.basis, basisCollection.modes, storedCoefficients,
                                          q, stopRequested);
    }

    /** `calculate_field`: on success the field is complete for the current coefficients; a rejected call
        leaves the old field alone, and a failing grid leaves it invalid. */
    method CalculateField(g: Grid) returns (result: Result<(), ManagerError>)
      requires Valid()
      modifies this`fieldData, this`fieldDataValid, this`fieldCoefficients, this`fieldGrid, fieldData
      ensures Valid()
      ensures if basisCollection.arity != 3 then result == Err(WrongArity)
              else if g.radius <= 0.0 || g.depth <= 0.0 then result == Err(NotPositive)
              else if |storedCoefficients| != basisCollection.modes then result == Err(NotCalculated)
              else if g.xCount < 2 || g.yCount < 2 || g.zCount < 2
              then result == Err(GridFailed(Kernel.DimensionsTooSmall))
              else
                && ValidGrid(g) && StepY(m, g) > 0.0 && result in {Ok(()), Err(GridFailed(Kernel.TooLarge))}
                && var points := |GridPoints(m, g, g.zCount)|;
                   points <= SIZE_MAX ==> (result.Ok? <==> 3 * points <= SIZE_MAX)
      ensures result.Err? && !result.error.GridFailed? ==>
                && fieldDataValid == old(fieldDataValid) && fieldData == old(fieldData)
                && (fieldData != null ==>
                      && fieldData.coordinates == old(fieldData.coordinates)
                      && fieldData.field == old(fieldData.field))
      ensures result.Ok? || result.error.GridFailed? ==> (result.Ok? <==> fieldDataValid)
      ensures result.Ok? ==> fieldCoefficients == storedCoefficients && fieldGrid == g
    {
      if basisCollection.arity != 3 {
        return Err(WrongArity);
      }
      if g.radius <= 0.0 || g.depth <= 0.0 {
        return Err(NotPositive);
      }
      if |storedCoefficients| != basisCollection.modes {
        return Err(NotCalculated);
      }
      fieldDataValid := false;
      if fieldData == null {
        fieldData := new FieldCollection<real>(3, Cylindric, Cylindric);
      } else {
        fieldData.Clear();
      }
      var collection: FieldCollection<real> := fieldData;
      var gridResult := Kernel.CalculateGridKernel(m, g, collection);
      if gridResult.Err? {
        return Err(GridFailed(gridResult.error));
      }
      var fieldResult := FillField(m, basisCollection.basis, storedCoefficients, collection);
      if fieldResult.Err? {
        // The field has just been sized to the coordinates, so neither size check of the kernel fails.
        assert false;
      }
      fieldCoefficients := storedCoefficients;
      fieldGrid := g;
      fieldDataValid := true;
      result := Ok(());
    }

    /** `get_field_data`: only a complete field is ever handed out. */
    method GetFieldData() returns (result: Result<FieldCollection<real>, ManagerError>)
      requires Valid()
      ensures result.Ok? <==> fieldDataValid
      ensures result.Err? ==> result.error == FieldNotCalculated
      ensures result.Ok? ==> result.value == fieldData && FieldIsComplete()
    {
      if !fieldDataValid || fieldData == null {
        return Err(FieldNotCalculated);
      }
      result := Ok(fieldData);
    }

    /** `export_to_vtk()`, up to the file system. */
    method ExportToVtk() returns (result: Result<seq<VtkFile.Token>, ManagerError>)
      requires Valid()
      ensures !fieldDataValid ==> result == Err(FieldNotCalculated)
      ensures fieldDataValid && fieldData.field == [] ==> result == Err(FieldEmpty)
      ensures fieldDataValid && fieldData.field != [] ==>
                match Vtk.Outcome(m, fieldData.field, fieldData.coordinates, "output.vtk")
                case Ok(mesh) => result == Ok(VtkFile.FileOf(mesh))
                case Err(error) => result == Err(ExportFailed(error))
    {
      if !fieldDataValid || fieldData == null {
        return Err(FieldNotCalculated);
      }
      if fieldData.field == [] || fieldData.coordinates == [] {
        return Err(FieldEmpty);
      }
      var exported := Vtk.Export(m, fieldData.field, fieldData.coordinates, "output.vtk");
      match exported
      case Ok(tokens) => result := Ok(tokens);
      case Err(error) => result := Err(ExportFailed(error));
    }
  }

  /** A slice and the stored field, if both belong to the same coefficients: a valid pixel at the place of grid
      point i holds vector i of the export, unless the point is exactly epsilon away from the axis. */
  lemma SliceShowsStoredField(manager: AnalyticsManager, q: Slices.Request<real>, slice: Slices.FieldSlice<real>,
                              row: nat, column: nat, i: nat)
    requires manager.Valid() && manager.fieldDataValid && row < q.rows && column < q.columns
    requires Slices.ShowsRequest(Reals(manager.m), manager.basisCollection.basis, manager.fieldCoefficients, q, slice)
    requires i < |GridPoints(manager.m, manager.fieldGrid, manager.fieldGrid.zCount)|
    requires var p := GridPoints(manager.m, manager.fieldGrid, manager.fieldGrid.zCount)[i];
             && Slices.PixelPlace(Reals(manager.m), q, row, column) == Triple(p.x, p.y, p.z)
             && manager.m.hypot(p.x, p.y) != EPSILON
    ensures var pixel := Position(q.columns, row, column);
            var vectors := Vtk.FieldVectors(manager.m, manager.fieldData.field, manager.fieldData.coordinates);
            && pixel < |slice.valid| && 3 * pixel + 2 < |slice.field| && i < |vectors|
            && (slice.valid[pixel] ==>
                  var v := TripleAt(slice.field, pixel); vectors[i] == Point(v.first, v.second, v.third))
  {
    var points := GridPoints(manager.m, manager.fieldGrid, manager.fieldGrid.zCount);
    PixelShowsFileVector(manager.m, manager.basisCollection.basis, manager.fieldCoefficients, points,
                         manager.fieldData.field, i, q, slice, row, column);
  }

  /** The loop that converts the points of all measurements in place. */
  method ConvertPoints(m: Trig, measurements: array<Measured>)
    requires Lawful(m)
    modifies measurements
    ensures forall k :: 0 <= k < measurements.Length ==> IsInPolar(m, old(measurements[k]), measurements[k])
  {
    ghost var before := measurements[..];
    for i := 0 to measurements.Length
      invariant forall k :: 0 <= k < i ==> IsInPolar(m, before[k], measurements[k])
      invariant forall k :: i <= k < measurements.Length ==> measurements[k] == before[k]
    {
      var point := Transformed(Reals(m), measurements[i].point, Cylindric);
      TransformKeepsPlace(m, measurements[i].point, Cylindric);
      measurements[i] := measurements[i].(point := point);
    }
  }

  function ExposeAll(measurements: seq<Measured>): seq<Solver.Measurement<real>> {
    seq(|measurements|, i requires 0 <= i < |measurements| => Exposed(measurements[i]))
  }

  lemma ProblemIsFit(basis: seq<BasisFunction<real>>, measurements: seq<Measured>, modes: nat,
                     problem: Solver.Problem<real>)
    requires ThreeFunctions(basis) && Solver.AllConsistent(ExposeAll(measurements), 3)
    requires Solver.IsProblem(basis, ExposeAll(measurements), modes, problem)
    ensures IsFit(basis, measurements, modes, problem)
    ensures forall r :: 0 <= r < |problem.rows| ==> |problem.rows[r]| == modes
  {
    forall i, c | 0 <= i < |measurements| && 0 <= c < 3
      ensures IsFitRow(basis, measurements[i], modes, problem, i, c)
    {
      assert Solver.IsProblemRow(basis, ExposeAll(measurements), modes, problem, i, c);
    }
    forall r | 0 <= r < |problem.rows|
      ensures |problem.rows[r]| == modes
    {
      assert IsFitRow(basis, measurements[r / 3], modes, problem, r / 3, r % 3);
    }
  }

  /** Sizes the field to the coordinates and runs the kernel over the two buffers. The span over the field
      is an array copied out of the collection and back. */
  method FillField(m: Trig, basis: seq<BasisFunction<real>>, coefficients: seq<real>, collection: FieldCollection<real>)
    returns (result: Result<(), KernelError>)
    requires ThreeFunctions(basis) && collection.Valid() && collection.dimension == 3
    modifies collection`field
    ensures collection.Valid() && result == Ok(())
    ensures HoldsField(Reals(m), basis, coefficients, collection.coordinates, collection.field)
  {
    collection.ResizeFieldToCoordinates(Reals(m));
    var values := collection.field;
    var buffer := new real[|values|](i requires 0 <= i < |values| => values[i]);
    result := CalculateFieldKernel(Reals(m), basis, coefficients, collection.coordinates, buffer);
    collection.field := buffer[..];
  }

  /** The arrays of a measurement have three entries, so the solver never finds sizes that differ. */
  lemma InputIsConsistent(measurements: seq<Measured>)
    ensures Solver.AllConsistent(ExposeAll(measurements), DIMENSION)
  {
    forall i | 0 <= i < |measurements|
      ensures Solver.Consistent(ExposeAll(measurements), DIMENSION, i)
    {
    }
  }
}
