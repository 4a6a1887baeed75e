/** What the least-squares problem of a set of measurements asks for: that the field of the coefficients is the measured
    field at every measured place. */
module FieldFit {
  import opened Numeric
  import opened Arithmetic
  import opened Polynomials
  import opened FieldModes
  import opened Evaluators
  import opened PhysicalField
  import opened FieldAgreement
  import opened FieldStore
  import opened StoreFacts
  import opened Analytics
  import Solver = SvdSolver

  lemma FitIsProblem(basis: seq<BasisFunction<real>>, measurements: seq<Measured>, modes: nat,
                     problem: Solver.Problem<real>)
    requires ThreeFunctions(basis) && IsFit(basis, measurements, modes, problem)
    ensures Solver.AllConsistent(ExposeAll(measurements), DIMENSION)
    ensures Solver.IsProblem(basis, ExposeAll(measurements), modes, problem)
  {
    InputIsConsistent(measurements);
    forall i, c | 0 <= i < |measurements| && 0 <= c < 3
      ensures Solver.IsProblemRow(basis, ExposeAll(measurements), modes, problem, i, c)
    {
      assert IsFitRow(basis, measurements[i], modes, problem, i, c);
    }
  }

  /** The field of the coefficients at a measured point, in its own polar components, is the measured one. */
  ghost predicate Meets(m: Trig, basis: seq<BasisFunction<real>>, coefficients: seq<real>, measured: Measured)
    requires ThreeFunctions(basis)
  {
    FieldValue(Reals(m), basis, coefficients, measured.point.components) == measured.field
  }

  /** The coefficients solve the problem without residual if and only if they meet every measurement, for any basis. */
  lemma FitIsExactExactlyWhen(m: Trig, basis: seq<BasisFunction<real>>, measurements: seq<Measured>,
                              problem: Solver.Problem<real>, coefficients: seq<real>)
    requires ThreeFunctions(basis) && IsFit(basis, measurements, |coefficients|, problem)
    ensures Solver.SolvesExactly(Reals(m), problem, coefficients)
       <==> forall i :: 0 <= i < |measurements| ==> Meets(m, basis, coefficients, measurements[i])
  {
    var exposed := ExposeAll(measurements);
    FitIsProblem(basis, measurements, |coefficients|, problem);
    Solver.ExactSolutions(Reals(m), basis, exposed, problem, coefficients);
    forall i | 0 <= i < |measurements|
      ensures Solver.Reproduces(Reals(m), basis, exposed, coefficients, i)
         <==> Meets(m, basis, coefficients, measurements[i])
    {
      MeetsIsReproduces(m, basis, coefficients, measurements, i);
    }
  }

  lemma MeetsIsReproduces(m: Trig, basis: seq<BasisFunction<real>>, coefficients: seq<real>,
                          measurements: seq<Measured>, i: nat)
    requires ThreeFunctions(basis) && i < |measurements| && Solver.AllConsistent(ExposeAll(measurements), DIMENSION)
    ensures Solver.Reproduces(Reals(m), basis, ExposeAll(measurements), coefficients, i)
       <==> Meets(m, basis, coefficients, measurements[i])
  {
    var exposed := ExposeAll(measurements)[i];
    assert exposed == Exposed(measurements[i]);
    assert Solver.PointOf(exposed) == measurements[i].point.components;
    var v, w := FieldValue(Reals(m), basis, coefficients, measurements[i].point.components), measurements[i].field;
    assert [v.first, v.second, v.third] == [w.first, w.second, w.third] <==> v == w by {
      assert [v.first, v.second, v.third][0] == v.first && [w.first, w.second, w.third][0] == w.first;
      assert [v.first, v.second, v.third][1] == v.second && [w.first, w.second, w.third][1] == w.second;
      assert [v.first, v.second, v.third][2] == v.third && [w.first, w.second, w.third][2] == w.third;
    }
  }

  /** The measured vector in Cartesian components: it is given in polar components at its own azimuth. */
  ghost function MeasuredVector(m: Trig, measured: Measured): Place {
    TurnedAt(m, measured.field, measured.point.components.second)
  }

  /** The polynomial field of the coefficients is the measured vector at the measured place. */
  ghost predicate MeetsInSpace(m: Trig, coefficients: seq<real>, measured: Measured) {
    PolynomialField(coefficients, PlaceOfPoint(m, measured.point)) == MeasuredVector(m, measured)
  }

  /** Turning by an angle loses nothing. */
  lemma TurnedDetermines(a: real, b: real, z: real, d: real, e: real, y: real, c: real, s: real)
    requires c * c + s * s == 1.0
    ensures Turned(a, b, z, c, s) == Turned(d, e, y, c, s) <==> a == d && b == e && z == y
  {
    TurnedIs(a, b, z, c, s);
    TurnedIs(d, e, y, c, s);
    if Turned(a, b, z, c, s) == Turned(d, e, y, c, s) {
      TurnBack(a - d, b - e, c, s);
    }
  }

  lemma TurnBack(u: real, v: real, c: real, s: real)
    requires c * c + s * s == 1.0 && u * c - v * s == 0.0 && u * s + v * c == 0.0
    ensures u == 0.0 && v == 0.0
  {
    assert (u * c - v * s) * c + (u * s + v * c) * s == u * (c * c + s * s);
    assert (u * s + v * c) * c - (u * c - v * s) * s == v * (c * c + s * s);
  }

  lemma TurnedAtDetermines(m: Trig, v: Triple<real>, w: Triple<real>, phi: real)
    requires Lawful(m)
    ensures TurnedAt(m, v, phi) == TurnedAt(m, w, phi) <==> v == w
  {
    CircleLaw(m, phi);
    TurnedDetermines(v.first, v.second, v.third, w.first, w.second, w.third, m.cos(phi), m.sin(phi));
  }

  lemma FieldInSpace(m: Trig, coefficients: seq<real>, p: Triple<real>, at: Place, v: Triple<real>)
    requires Lawful(m) && at == PlaceOf(m, p.first, p.second, p.third)
    requires v == FieldValue(Reals(m), DefaultBasis(m), coefficients, p)
    ensures PolynomialField(coefficients, at) == TurnedAt(m, v, p.second)
  {
    EvaluatedAtPlace(m, coefficients, p, at);
    RotatedIsTurned(m, v, p.second);
  }

  lemma MeetsExactlyWhen(m: Trig, coefficients: seq<real>, measured: Measured)
    requires Lawful(m) && measured.point.coordinateType == Cylindric
    ensures Meets(m, DefaultBasis(m), coefficients, measured) <==> MeetsInSpace(m, coefficients, measured)
  {
    var p, w := measured.point.components, measured.field;
    var v := FieldValue(Reals(m), DefaultBasis(m), coefficients, p);
    FieldInSpace(m, coefficients, p, PlaceOfPoint(m, measured.point), v);
    TurnedAtDetermines(m, v, w, p.second);
  }

  /** With the default basis, for converted measurements: the coefficients solve the problem without residual if and
      only if their harmonic field passes through every measured vector at its place in space. */
  lemma FitIsFieldExactlyWhen(m: Trig, measurements: seq<Measured>, problem: Solver.Problem<real>,
                              coefficients: seq<real>)
    requires Lawful(m) && IsFit(DefaultBasis(m), measurements, |coefficients|, problem)
    requires forall i :: 0 <= i < |measurements| ==> measurements[i].point.coordinateType == Cylindric
    ensures Solver.SolvesExactly(Reals(m), problem, coefficients)
       <==> forall i :: 0 <= i < |measurements| ==> MeetsInSpace(m, coefficients, measurements[i])
  {
    FitIsExactExactlyWhen(m, DefaultBasis(m), measurements, problem, coefficients);
    forall i | 0 <= i < |measurements|
      ensures Meets(m, DefaultBasis(m), coefficients, measurements[i])
         <==> MeetsInSpace(m, coefficients, measurements[i])
    {
      MeetsExactlyWhen(m, coefficients, measurements[i]);
    }
  }
}
