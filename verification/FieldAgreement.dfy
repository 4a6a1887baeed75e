/** The point evaluator, the grid kernel with the exporter, and the slice describe one field. */
module FieldAgreement {
  import opened Numeric
  import opened Arithmetic
  import opened Geometry
  import opened Polynomials
  import opened FieldModes
  import opened Evaluators
  import opened PhysicalField
  import opened Indexing
  import GridKernel
  import Lattice = GridLattice
  import VtkExporter
  import Slices = FieldSlices

  // ----- The grid and the slice -----

  /** The coordinates the grid stores for a place: azimuth zero strictly below epsilon. */
  function GridTriple<T>(a: Arith<T>, place: Triple<T>): Triple<T> {
    var r := a.hypot(place.first, place.second);
    Triple(r, if a.less(r, a.epsilon) then a.zero else a.atan2(place.second, place.first), place.third)
  }

  /** The Cartesian vector that reaches the exported file for a place: kernel, then rotation. */
  ghost function ExportedVector<T>(a: Arith<T>, basis: seq<BasisFunction<T>>, coefficients: seq<T>,
                                   place: Triple<T>): Triple<T>
    requires ThreeFunctions(basis)
  {
    var p := GridTriple(a, place);
    Rotate(a, FieldValue(a, basis, coefficients, p), p.second)
  }

  /** In any arithmetic the slice shows the exported vector wherever "less than epsilon" and "at most
      epsilon" agree on the distance from the axis. */
  lemma SliceShowsExportedVector<T>(a: Arith<T>, basis: seq<BasisFunction<T>>, coefficients: seq<T>, place: Triple<T>)
    requires ThreeFunctions(basis)
    requires var r := a.hypot(place.first, place.second); a.less(r, a.epsilon) <==> a.atMost(r, a.epsilon)
    ensures Slices.SliceVector(a, basis, coefficients, place) == ExportedVector(a, basis, coefficients, place)
  {
  }

  /** A finished slice and a filled grid buffer of the same coefficients, in any arithmetic: where a pixel shows
      the place of a grid point, it holds the triple of the field buffer, rotated. */
  lemma PixelIsRotatedTriple<T>(a: Arith<T>, basis: seq<BasisFunction<T>>, coefficients: seq<T>,
                                coordinates: seq<T>, field: seq<T>, id: nat,
                                q: Slices.Request<T>, slice: Slices.FieldSlice<T>, row: nat, column: nat)
    requires ThreeFunctions(basis) && row < q.rows && column < q.columns
    requires HoldsField(a, basis, coefficients, coordinates, field) && 3 * id + 2 < |field|
    requires Slices.ShowsRequest(a, basis, coefficients, q, slice)
    requires TripleAt(coordinates, id) == GridTriple(a, Slices.PixelPlace(a, q, row, column))
    requires var r := coordinates[3 * id]; a.less(r, a.epsilon) <==> a.atMost(r, a.epsilon)
    ensures var pixel := Position(q.columns, row, column);
            && pixel < |slice.valid| && 3 * pixel + 2 < |slice.field|
            && (slice.valid[pixel] ==>
                  TripleAt(slice.field, pixel) == Rotate(a, TripleAt(field, id), coordinates[3 * id + 1]))
  {
    var place := Slices.PixelPlace(a, q, row, column);
    assert Slices.PixelShows(a, basis, coefficients, q, slice.field, slice.valid, row, column);
    assert HoldsFieldAt(a, basis, coefficients, coordinates, field, id);
    SliceShowsExportedVector(a, basis, coefficients, place);
  }

  /** Over the reals, with the file in place of the buffer: a valid pixel at the place of grid point i holds
      exactly vector i of the exported file, unless the point is exactly epsilon away from the axis. */
  lemma PixelShowsFileVector(m: Trig, basis: seq<BasisFunction<real>>, coefficients: seq<real>,
                             points: seq<Point>, field: seq<real>, i: nat,
                             q: Slices.Request<real>, slice: Slices.FieldSlice<real>, row: nat, column: nat)
    requires ThreeFunctions(basis) && i < |points| && row < q.rows && column < q.columns
    requires HoldsField(Reals(m), basis, coefficients, GridKernel.Buffer(m, points), field)
    requires Slices.ShowsRequest(Reals(m), basis, coefficients, q, slice)
    requires Slices.PixelPlace(Reals(m), q, row, column) == Triple(points[i].x, points[i].y, points[i].z)
    requires m.hypot(points[i].x, points[i].y) != EPSILON
    ensures var pixel := Position(q.columns, row, column);
            && pixel < |slice.valid| && 3 * pixel + 2 < |slice.field|
            && (slice.valid[pixel] ==>
                  var v := TripleAt(slice.field, pixel);
                  VtkExporter.FieldVectors(m, field, GridKernel.Buffer(m, points))[i]
                  == Point(v.first, v.second, v.third))
  {
    var coordinates := GridKernel.Buffer(m, points);
    BufferHoldsGridTriples(m, points, i);
    PixelIsRotatedTriple(Reals(m), basis, coefficients, coordinates, field, i, q, slice, row, column);
    FileVectorIsRotated(m, coordinates, field, i);
  }

  // ----- At distance epsilon -----

  /** Whatever the coefficients, slice and export show the same vector at the place. */
  ghost predicate ShowsExport(m: Trig, place: Triple<real>) {
    forall coefficients :: ShowsExportOf(m, coefficients, place)
  }

  ghost predicate ShowsExportOf(m: Trig, coefficients: seq<real>, place: Triple<real>) {
    Slices.SliceVector(Reals(m), DefaultBasis(m), coefficients, place)
    == ExportedVector(Reals(m), DefaultBasis(m), coefficients, place)
  }

  lemma GradientOfFirstMode(at: Place)
    ensures FieldAt(Gradient(FieldPotential([0.0, 1.0], 2)), at) == Place(-0.5 * at.x, -0.5 * at.y, at.z)
  {
    var c := [0.0, 1.0];
    assert FieldPotential(c, 2) == Sum(Sum(Const(0.0), Scale(0.0, Potential(0))), Scale(1.0, Potential(1)));
    PotentialHasGradient(0, at);
    PotentialHasGradient(1, at);
    JetOfConst(0.0, at);
    JetOfScale(0.0, Potential(0), at);
    JetOfScale(1.0, Potential(1), at);
    JetOfSum(Const(0.0), Scale(0.0, Potential(0)), at);
    JetOfSum(Sum(Const(0.0), Scale(0.0, Potential(0))), Scale(1.0, Potential(1)), at);
  }

  function AsPlace(v: Triple<real>): Place {
    Place(v.first, v.second, v.third)
  }

  /** A vector in polar components at azimuth phi, in Cartesian components. */
  ghost function TurnedAt(m: Trig, v: Triple<real>, phi: real): Place {
    Turned(v.first, v.second, v.third, m.cos(phi), m.sin(phi))
  }

  lemma RotatedIsTurned(m: Trig, v: Triple<real>, phi: real)
    ensures AsPlace(Rotate(Reals(m), v, phi)) == TurnedAt(m, v, phi)
  {
    TurnedIs(v.first, v.second, v.third, m.cos(phi), m.sin(phi));
  }

  /** The one polynomial field of the coefficients. */
  ghost function PolynomialField(coefficients: seq<real>, at: Place): Place {
    FieldAt(Gradient(FieldPotential(coefficients, |coefficients|)), at)
  }

  /** What the evaluators give at p depends only on the Cartesian place of p. */
  lemma EvaluatedAtPlace(m: Trig, coefficients: seq<real>, p: Triple<real>, at: Place)
    requires Lawful(m) && PlaceOf(m, p.first, p.second, p.third) == at
    ensures AsPlace(EvaluatedField(m, coefficients, p)) == PolynomialField(coefficients, at)
  {
    EvaluatedFieldIsPhysical(m, coefficients, p, at);
  }

  /** At distance epsilon the export evaluates at the place itself, the slice on the positive x axis. */
  lemma VectorsAtEpsilon(m: Trig, coefficients: seq<real>, place: Triple<real>)
    requires Lawful(m) && m.hypot(place.first, place.second) == EPSILON
    ensures AsPlace(Slices.SliceVector(Reals(m), DefaultBasis(m), coefficients, place))
         == PolynomialField(coefficients, Place(EPSILON, 0.0, place.third))
    ensures AsPlace(ExportedVector(Reals(m), DefaultBasis(m), coefficients, place))
         == PolynomialField(coefficients, AsPlace(place))
  {
    var x, y, z := place.first, place.second, place.third;
    PolarLaw(m, x, y);
    assert PlaceOf(m, EPSILON, 0.0, z) == Place(EPSILON, 0.0, z);
    assert PlaceOf(m, EPSILON, m.atan2(y, x), z) == Place(x, y, z);
    EvaluatedAtPlace(m, coefficients, Triple(EPSILON, 0.0, z), Place(EPSILON, 0.0, z));
    EvaluatedAtPlace(m, coefficients, Triple(EPSILON, m.atan2(y, x), z), Place(x, y, z));
    assert Slices.SliceVector(Reals(m), DefaultBasis(m), coefficients, place)
         == EvaluatedField(m, coefficients, Triple(EPSILON, 0.0, z));
  }

  lemma DiffersAtEpsilon(m: Trig, place: Triple<real>)
    requires Lawful(m) && m.hypot(place.first, place.second) == EPSILON
    requires !(place.first == EPSILON && place.second == 0.0)
    ensures !ShowsExportOf(m, [0.0, 1.0], place)
  {
    VectorsAtEpsilon(m, [0.0, 1.0], place);
    GradientOfFirstMode(Place(EPSILON, 0.0, place.third));
    GradientOfFirstMode(Place(place.first, place.second, place.third));
  }

  /** Slice and export agree at a place, for all coefficients, if and only if the place is not exactly epsilon
      away from the axis or lies on the positive x axis. */
  lemma SliceShowsExportExactlyWhen(m: Trig, place: Triple<real>)
    requires Lawful(m)
    ensures ShowsExport(m, place)
       <==> m.hypot(place.first, place.second) != EPSILON || (place.first == EPSILON && place.second == 0.0)
  {
    if m.hypot(place.first, place.second) != EPSILON || (place.first == EPSILON && place.second == 0.0) {
      forall coefficients
        ensures ShowsExportOf(m, coefficients, place)
      {
        if m.hypot(place.first, place.second) != EPSILON {
          SliceShowsExportedVector(Reals(m), DefaultBasis(m), coefficients, place);
        } else {
          VectorsAtEpsilon(m, coefficients, place);
        }
      }
    } else {
      DiffersAtEpsilon(m, place);
    }
  }

  // A grid and a slice that show it: the lattice point straight below the axis is a pixel of the slice.

  const SMALL_GRID: Lattice.Grid := Lattice.Grid(2, 2, 2, EPSILON, 1.0)

  const SMALL_SLICE: Slices.Request<real> := Slices.Request(Slices.SliceZ, -0.5, 3, 2, EPSILON, 1.0)

  lemma SmallGridPoint(m: Trig) returns (i: nat)
    requires Lawful(m)
    ensures Lattice.StepY(m, SMALL_GRID) > 0.0
    ensures i < |Lattice.GridPoints(m, SMALL_GRID, 2)|
    ensures Lattice.GridPoints(m, SMALL_GRID, 2)[i] == Point(0.0, -EPSILON, -0.5)
  {
    var g, p := SMALL_GRID, Point(0.0, -EPSILON, -0.5);
    Lattice.StepXIs(g);
    TimesIs(1.0, Lattice.StepX(g));
    TimesIs(0.0, Lattice.StepY(m, g));
    TimesIs(0.0, Lattice.StepZ(g));
    TimesIs(0.0, 0.0);
    TimesIs(-EPSILON, -EPSILON);
    TimesIs(EPSILON, EPSILON);
    assert Lattice.LatticePoint(m, g, 0, 1, Lattice.Z(g, 0)) == p && Lattice.Visible(m, g, 0, 1);
    Lattice.GridIsClippedLattice(m, g, p);
    i :| 0 <= i < |Lattice.GridPoints(m, g, 2)| && Lattice.GridPoints(m, g, 2)[i] == p;
  }

  lemma SmallSlicePixel(m: Trig)
    ensures Slices.Rejection(Reals(m), SMALL_SLICE, true) == Ok(())
    ensures Slices.PixelPlace(Reals(m), SMALL_SLICE, 1, 1) == Triple(0.0, -EPSILON, -0.5)
    ensures Slices.InDisc(Reals(m), EPSILON, Triple(0.0, -EPSILON, -0.5))
  {
    var q := SMALL_SLICE;
    assert Slices.HorizontalSample(Reals(m), q, 1) == -EPSILON + 1.0 * ((EPSILON - -EPSILON) / 2.0);
    assert Slices.VerticalSample(Reals(m), q, 1) == EPSILON - 1.0 * ((EPSILON - -EPSILON) / 1.0);
  }

  lemma HypotBelowAxis(m: Trig)
    requires Lawful(m)
    ensures m.hypot(0.0, -EPSILON) == EPSILON
  {
    var h := m.hypot(0.0, -EPSILON);
    DistanceLaw(m, 0.0, -EPSILON);
    assert (h + EPSILON) * (h - EPSILON) == 0.0;
    ScaleSign(h + EPSILON, h - EPSILON);
  }

  /** The disagreement is real: exported over that grid, the field of the coefficients [0, 1] has a vector that
      differs from the valid pixel at the same place. */
  lemma SliceDiffersFromFile(m: Trig, field: seq<real>, slice: Slices.FieldSlice<real>) returns (i: nat)
    requires Lawful(m) && Lattice.StepY(m, SMALL_GRID) > 0.0
    requires HoldsField(Reals(m), DefaultBasis(m), [0.0, 1.0], GridKernel.GridCoordinates(m, SMALL_GRID), field)
    requires Slices.ShowsRequest(Reals(m), DefaultBasis(m), [0.0, 1.0], SMALL_SLICE, slice)
    ensures Slices.Rejection(Reals(m), SMALL_SLICE, true) == Ok(())
    ensures var points, pixel := Lattice.GridPoints(m, SMALL_GRID, 2), Position(3, 1, 1);
            var vectors := VtkExporter.FieldVectors(m, field, GridKernel.GridCoordinates(m, SMALL_GRID));
            && i < |points|
            && Slices.PixelPlace(Reals(m), SMALL_SLICE, 1, 1) == Triple(points[i].x, points[i].y, points[i].z)
            && pixel < |slice.valid| && slice.valid[pixel] && 3 * pixel + 2 < |slice.field|
            && var v := TripleAt(slice.field, pixel); vectors[i] != Point(v.first, v.second, v.third)
  {
    i := SmallGridPoint(m);
    SmallSlicePixel(m);
    HypotBelowAxis(m);
    var points, place := Lattice.GridPoints(m, SMALL_GRID, 2), Triple(0.0, -EPSILON, -0.5);
    DiffersAtEpsilon(m, place);
    assert Slices.PixelShows(Reals(m), DefaultBasis(m), [0.0, 1.0], SMALL_SLICE, slice.field, slice.valid, 1, 1);
    FileVectorIsExported(m, DefaultBasis(m), [0.0, 1.0], points, field, i);
  }

  // ----- The exported file -----

  /** The grid buffer stores the grid triple of each point. */
  lemma BufferHoldsGridTriples(m: Trig, points: seq<Point>, i: nat)
    requires i < |points|
    ensures TripleAt(GridKernel.Buffer(m, points), i)
         == GridTriple(Reals(m), Triple(points[i].x, points[i].y, points[i].z))
  {
    GridKernel.BufferAt(m, points, i);
  }

  /** Vector i of the file is the exported vector at the place of grid point i. */
  lemma FileVectorIsExported(m: Trig, basis: seq<BasisFunction<real>>, coefficients: seq<real>, points: seq<Point>,
                             field: seq<real>, i: nat)
    requires ThreeFunctions(basis) && i < |points|
    requires HoldsField(Reals(m), basis, coefficients, GridKernel.Buffer(m, points), field)
    ensures var v := ExportedVector(Reals(m), basis, coefficients, Triple(points[i].x, points[i].y, points[i].z));
            VtkExporter.FieldVectors(m, field, GridKernel.Buffer(m, points))[i] == Point(v.first, v.second, v.third)
  {
    BufferHoldsGridTriples(m, points, i);
    assert HoldsFieldAt(Reals(m), basis, coefficients, GridKernel.Buffer(m, points), field, i);
    FileVectorIsRotated(m, GridKernel.Buffer(m, points), field, i);
  }

  /** The exporter's vector i is the evaluated field at coordinate i, rotated. */
  lemma FileVectorIsEvaluated(m: Trig, coefficients: seq<real>, coordinates: seq<real>, field: seq<real>, i: nat)
    requires HoldsField(Reals(m), DefaultBasis(m), coefficients, coordinates, field) && 3 * i + 2 < |field|
    ensures var v := EvaluatedField(m, coefficients, TripleAt(coordinates, i));
            VtkExporter.FieldVectors(m, field, coordinates)[i] == Point(v.first, v.second, v.third)
  {
    assert HoldsFieldAt(Reals(m), DefaultBasis(m), coefficients, coordinates, field, i);
    FileVectorIsRotated(m, coordinates, field, i);
  }

  lemma FileVectorIsRotated(m: Trig, coordinates: seq<real>, field: seq<real>, i: nat)
    requires |field| == |coordinates| && |field| % 3 == 0 && 3 * i + 2 < |field|
    ensures var v := Rotate(Reals(m), TripleAt(field, i), coordinates[3 * i + 1]);
            VtkExporter.FieldVectors(m, field, coordinates)[i] == Point(v.first, v.second, v.third)
  {
    assert VtkExporter.FieldVectors(m, field, coordinates)[i] == VtkExporter.FieldVector(m, field, coordinates, i);
    var phi := coordinates[3 * i + 1];
    TimesIs(field[3 * i], m.cos(phi));
    TimesIs(field[3 * i + 1], m.sin(phi));
    TimesIs(field[3 * i], m.sin(phi));
    TimesIs(field[3 * i + 1], m.cos(phi));
  }

  /** In the exported file the vector at each point is the gradient of one harmonic polynomial at that
      very point, whatever the coordinates and the coefficients. */
  lemma FileIsPhysical(m: Trig, coefficients: seq<real>, coordinates: seq<real>, field: seq<real>, i: nat)
    requires Lawful(m) && HoldsField(Reals(m), DefaultBasis(m), coefficients, coordinates, field)
    requires 3 * i + 2 < |field|
    ensures var p := VtkExporter.CartesianPoints(m, coordinates)[i];
            var v := VtkExporter.FieldVectors(m, field, coordinates)[i];
            var potential := FieldPotential(coefficients, |coefficients|);
            && Harmonic(potential)
            && FieldAt(Gradient(potential), Place(p.x, p.y, p.z)) == Place(v.x, v.y, v.z)
  {
    var c := TripleAt(coordinates, i);
    FileVectorIsEvaluated(m, coefficients, coordinates, field, i);
    EvaluatedFieldIsPhysical(m, coefficients, c, Place(0.0, 0.0, 0.0));
    FieldPotentialIsHarmonic(coefficients, |coefficients|);
    FilePointIsPlace(m, coordinates, i);
  }

  lemma FilePointIsPlace(m: Trig, coordinates: seq<real>, i: nat)
    requires |coordinates| % 3 == 0 && 3 * i + 2 < |coordinates|
    ensures var p, c := VtkExporter.CartesianPoints(m, coordinates)[i], TripleAt(coordinates, i);
            Place(p.x, p.y, p.z) == PlaceOf(m, c.first, c.second, c.third)
  {
    assert VtkExporter.CartesianPoints(m, coordinates)[i] == VtkExporter.PointAt(m, coordinates, i);
    TimesIs(coordinates[3 * i], m.cos(coordinates[3 * i + 1]));
    TimesIs(coordinates[3 * i], m.sin(coordinates[3 * i + 1]));
  }

  // ----- Slices along the axis, in exact arithmetic -----

  lemma SampleWithinBounds(limit: real, k: int, n: int)
    requires limit >= 0.0 && n >= 1 && 0 <= k <= n
    ensures Abs(-limit + k as real * ((limit - -limit) / n as real)) <= limit
  {
    var step := (limit - -limit) / n as real;
    assert step * n as real == limit - -limit;
    assert step >= 0.0;
    assert k as real * step <= n as real * step;
    assert 0.0 <= k as real * step;
  }

  /** In exact arithmetic every pixel of an X or Y slice inside the cylinder is valid. */
  lemma AxialSlicesAreValid(m: Trig, q: Slices.Request<real>, row: nat, column: nat)
    requires Lawful(m) && q.direction != Slices.SliceZ && q.columns >= 2 && q.rows >= 2
    requires q.radius > 0.0 && Abs(q.coordinate) <= q.radius && row < q.rows && column < q.columns
    ensures Slices.InDisc(Reals(m), q.radius, Slices.PixelPlace(Reals(m), q, row, column))
  {
    TransverseWithinLimit(m, q, column);
    LimitSquared(m, q);
    InDiscWithin(m, q.radius, Slices.PixelPlace(Reals(m), q, row, column), q.coordinate,
                 Slices.HorizontalSample(Reals(m), q, column), Limit(m, q));
  }

  lemma InDiscWithin(m: Trig, radius: real, place: Triple<real>, c: real, u: real, limit: real)
    requires place == Triple(c, u, place.third) || place == Triple(u, c, place.third)
    requires Abs(c) <= radius && Abs(u) <= limit && IsLimit(limit, radius, c)
    ensures Slices.InDisc(Reals(m), radius, place)
  {
    SquareBelow(c, radius);
    SquareBelow(u, limit);
    InDiscIs(m, radius, place);
  }

  lemma InDiscIs(m: Trig, radius: real, place: Triple<real>)
    ensures Slices.InDisc(Reals(m), radius, place) <==>
      place.first * place.first + place.second * place.second <= radius * radius
  {
  }

  ghost function Limit(m: Trig, q: Slices.Request<real>): real {
    m.sqrt(Room(q))
  }

  ghost function Room(q: Slices.Request<real>): real {
    Max(0.0, q.radius * q.radius - q.coordinate * q.coordinate)
  }

  ghost predicate IsLimit(limit: real, radius: real, c: real) {
    limit >= 0.0 && limit * limit == Max(0.0, radius * radius - c * c)
  }

  lemma LimitSquared(m: Trig, q: Slices.Request<real>)
    requires Lawful(m)
    ensures IsLimit(Limit(m, q), q.radius, q.coordinate)
  {
    RootLaw(m, Room(q));
  }

  lemma AxialBounds(m: Trig, q: Slices.Request<real>)
    requires q.direction != Slices.SliceZ
    ensures Slices.HorizontalBounds(Reals(m), q) == Slices.Bounds(-Limit(m, q), Limit(m, q))
  {
    var a := Reals(m);
    var room := a.max(a.zero, a.sub(a.mul(q.radius, q.radius), a.mul(q.coordinate, q.coordinate)));
    assert room == Room(q);
    var limit := a.sqrt(room);
    assert limit == m.sqrt(room);
    assert a.neg(limit) == -limit;
    assert Slices.HorizontalBounds(a, q) == Slices.Bounds(a.neg(limit), limit);
  }

  lemma SampleIs(m: Trig, limit: real, k: nat, count: nat)
    requires count >= 2
    ensures Sample(m, limit, k, count) == -limit + k as real * ((limit - -limit) / (count - 1) as real)
  {
  }

  ghost function Sample(m: Trig, limit: real, k: nat, count: nat): real
    requires count >= 2
  {
    Reals(m).add(-limit, Reals(m).mul(Reals(m).ofNat(k), Slices.Spacing(Reals(m), Slices.Bounds(-limit, limit), count)))
  }

  lemma SampleWithin(m: Trig, limit: real, k: nat, count: nat)
    requires limit >= 0.0 && count >= 2 && k < count
    ensures Abs(Sample(m, limit, k, count)) <= limit
  {
    SampleIs(m, limit, k, count);
    SampleWithinBounds(limit, k, count - 1);
  }

  /** The transverse coordinate of a pixel stays within the transverse limit. */
  lemma TransverseWithinLimit(m: Trig, q: Slices.Request<real>, column: nat)
    requires Lawful(m) && q.direction != Slices.SliceZ && q.columns >= 2 && column < q.columns
    ensures Abs(Slices.HorizontalSample(Reals(m), q, column)) <= Limit(m, q)
  {
    LimitSquared(m, q);
    AxialBounds(m, q);
    SampleWithin(m, Limit(m, q), column, q.columns);
    assert Slices.HorizontalSample(Reals(m), q, column) == Sample(m, Limit(m, q), column, q.columns);
  }

  lemma SquareBelow(x: real, r: real)
    requires Abs(x) <= r
    ensures x * x <= r * r
  {
    assert (r - x) * (r + x) >= 0.0;
    assert (r - x) * (r + x) == r * r - x * x;
  }
}
