/** `SVDSolver::solve_svd` up to the decomposition: its checks, and the least-squares system it assembles.
    The system and the evaluators describe the same linear map. */
module SvdSolver {
  import opened Numeric
  import opened Arithmetic
  import opened Evaluators
  import opened Indexing

  /** `std::numeric_limits<Eigen::Index>::max()`. */
  const INDEX_MAX: nat := 0x7FFF_FFFF_FFFF_FFFF

  /** The values a measurement exposes as spans. */
  datatype Measurement<T> = Measurement(point: seq<T>, field: seq<T>)

  datatype SolverError =
    | NoMeasurements
    | NoBasis
    | NoModes
    | NegativeThreshold
    | ZeroDimension
    | BasisSizeMismatch
    | TooManyRows
    | TooManyModes
    | InconsistentMeasurement
    | WrongArity // thrown by the basis function, not returned

  // ----- Checks -----

  /** The first check that fails before any measurement but the first is looked at. */
  function Rejection<T>(a: Arith<T>, measurements: seq<Measurement<T>>, basisSize: nat, modes: nat, threshold: T)
    : Result<(), SolverError>
  {
    if measurements == [] then Err(NoMeasurements)
    else if basisSize == 0 then Err(NoBasis)
    else if modes == 0 then Err(NoModes)
    else if a.less(threshold, a.zero) then Err(NegativeThreshold)
    else
      var dimension := |measurements[0].point|;
      if dimension == 0 then Err(ZeroDimension)
      else if basisSize != dimension then Err(BasisSizeMismatch)
      else if |measurements| * dimension > INDEX_MAX then Err(TooManyRows)
      else if modes > INDEX_MAX then Err(TooManyModes)
      else Ok(())
  }

  /** When the solver refuses its input, and why: sizes are refused exactly if the matrix has no index for them. */
  lemma RejectedExactlyWhen<T>(a: Arith<T>, measurements: seq<Measurement<T>>, basisSize: nat, modes: nat, threshold: T)
    ensures var result, n := Rejection(a, measurements, basisSize, modes, threshold), |measurements|;
      var dimension := if n == 0 then 0 else |measurements[0].point|;
      var usable := n > 0 && basisSize > 0 && modes > 0 && !a.less(threshold, a.zero);
      var fitting := usable && dimension > 0 && basisSize == dimension;
      var tall, wide := dimension * n > 9223372036854775807, modes > 9223372036854775807;
      && (result == Err(NoMeasurements) <==> n == 0)
      && (result == Err(NoBasis) <==> n > 0 && basisSize == 0)
      && (result == Err(NoModes) <==> n > 0 && basisSize > 0 && modes == 0)
      && (result == Err(NegativeThreshold) <==> n > 0 && basisSize > 0 && modes > 0 && a.less(threshold, a.zero))
      && (result == Err(ZeroDimension) <==> usable && dimension == 0)
      && (result == Err(BasisSizeMismatch) <==> usable && dimension > 0 && basisSize != dimension)
      && (result == Err(TooManyRows) <==> fitting && tall)
      && (result == Err(TooManyModes) <==> fitting && !tall && wide)
      && (result == Ok(()) <==> fitting && !tall && !wide)
  {
    if measurements != [] {
      assert |measurements| * |measurements[0].point| == |measurements[0].point| * |measurements|;
    }
  }

  predicate Consistent<T>(measurements: seq<Measurement<T>>, dimension: nat, m: nat)
    requires m < |measurements|
  {
    |measurements[m].point| == dimension && |measurements[m].field| == dimension
  }

  ghost predicate AllConsistent<T>(measurements: seq<Measurement<T>>, dimension: nat) {
    forall m :: 0 <= m < |measurements| ==> Consistent(measurements, dimension, m)
  }

  // ----- The system -----

  ghost predicate HasRow<T>(measurements: seq<Measurement<T>>, row: nat) {
    row / DIMENSION < |measurements| && Consistent(measurements, DIMENSION, row / DIMENSION)
  }

  /** What the matrix holds in a row and column. */
  function Entry<T>(basis: seq<BasisFunction<T>>, measurements: seq<Measurement<T>>, row: nat, mode: nat): T
    requires ThreeFunctions(basis) && HasRow(measurements, row)
  {
    var p := measurements[row / DIMENSION].point;
    basis[row % DIMENSION](mode, p[0], p[1], p[2])
  }

  function RightSide<T>(measurements: seq<Measurement<T>>, row: nat): T
    requires HasRow(measurements, row)
  {
    measurements[row / DIMENSION].field[row % DIMENSION]
  }

  ghost predicate RowAssembled<T>(basis: seq<BasisFunction<T>>, measurements: seq<Measurement<T>>,
                                  matrix: array2<T>, values: array<T>, row: nat)
    requires ThreeFunctions(basis)
    reads matrix, values
  {
    && HasRow(measurements, row) && row < matrix.Length0 && row < values.Length
    && values[row] == RightSide(measurements, row)
    && forall mode :: 0 <= mode < matrix.Length1 ==> matrix[row, mode] == Entry(basis, measurements, row, mode)
  }

  /** The rows before `done` hold the system. */
  ghost predicate AssembledUpTo<T>(basis: seq<BasisFunction<T>>, measurements: seq<Measurement<T>>,
                                   matrix: array2<T>, values: array<T>, done: nat)
    requires ThreeFunctions(basis)
    reads matrix, values
  {
    forall row :: 0 <= row < done ==> RowAssembled(basis, measurements, matrix, values, row)
  }

  /** The loop over the modes. */
  method FillRow<T>(f: BasisFunction<T>, coordinates: seq<T>, matrix: array2<T>, row: nat)
    requires |coordinates| == DIMENSION && row < matrix.Length0
    modifies matrix
    ensures forall k :: 0 <= k < matrix.Length1 ==>
                          matrix[row, k] == f(k, coordinates[0], coordinates[1], coordinates[2])
    ensures forall r, k :: 0 <= r < matrix.Length0 && r != row && 0 <= k < matrix.Length1 ==>
                             matrix[r, k] == old(matrix[r, k])
  {
    for mode := 0 to matrix.Length1
      invariant forall k :: 0 <= k < mode ==> matrix[row, k] == f(k, coordinates[0], coordinates[1], coordinates[2])
      invariant forall r, k :: 0 <= r < matrix.Length0 && r != row && 0 <= k < matrix.Length1 ==>
                                 matrix[r, k] == old(matrix[r, k])
    {
      matrix[row, mode] := f(mode, coordinates[0], coordinates[1], coordinates[2]);
    }
  }

  /** One row of the matrix. */
  method AssembleRow<T>(basis: seq<BasisFunction<T>>, measurements: seq<Measurement<T>>, matrix: array2<T>,
                        values: array<T>, m: nat, component: nat)
    requires ThreeFunctions(basis) && m < |measurements| && Consistent(measurements, DIMENSION, m)
    requires component < DIMENSION
    requires matrix.Length0 == values.Length == |measurements| * DIMENSION
    requires AssembledUpTo(basis, measurements, matrix, values, Position(DIMENSION, m, component))
    modifies matrix, values
    ensures AssembledUpTo(basis, measurements, matrix, values, Position(DIMENSION, m, component) + 1)
  {
    var row := DIMENSION * m + component;
    values[row] := measurements[m].field[component];
    FillRow(basis[component], measurements[m].point, matrix, row);
    assert row / DIMENSION == m && row % DIMENSION == component;
    forall r | 0 <= r < row + 1
      ensures RowAssembled(basis, measurements, matrix, values, r)
    {
      assert r < row ==> old(RowAssembled(basis, measurements, matrix, values, r));
    }
  }

  /** The rows of one measurement. */
  method AssembleMeasurement<T>(basis: seq<BasisFunction<T>>, measurements: seq<Measurement<T>>,
                                matrix: array2<T>, values: array<T>, m: nat)
    requires ThreeFunctions(basis) && m < |measurements| && Consistent(measurements, DIMENSION, m)
    requires matrix.Length0 == values.Length == |measurements| * DIMENSION
    requires AssembledUpTo(basis, measurements, matrix, values, DIMENSION * m)
    modifies matrix, values
    ensures AssembledUpTo(basis, measurements, matrix, values, DIMENSION * (m + 1))
  {
    for component := 0 to DIMENSION
      invariant AssembledUpTo(basis, measurements, matrix, values, Position(DIMENSION, m, component))
    {
      AssembleRow(basis, measurements, matrix, values, m, component);
    }
  }

  datatype System<T> = System(matrix: array2<T>, values: array<T>)

  /** The checks and the assembly. A basis function called with other than three coordinates throws. */
  method Assemble<T(0)>(a: Arith<T>, measurements: seq<Measurement<T>>, basis: seq<BasisFunction<T>>, modes: nat,
                        threshold: T)
    returns (result: Result<System<T>, SolverError>)
    ensures Rejection(a, measurements, |basis|, modes, threshold).Err? ==>
              result == Err(Rejection(a, measurements, |basis|, modes, threshold).error)
    ensures Rejection(a, measurements, |basis|, modes, threshold).Ok? ==>
              var dimension := |measurements[0].point|;
              && (result.Ok? <==> dimension == DIMENSION && AllConsistent(measurements, DIMENSION))
              && (result == Err(WrongArity) <==> dimension != DIMENSION && |measurements[0].field| == dimension)
              && (result.Err? ==> result.error == WrongArity || result.error == InconsistentMeasurement)
    ensures result.Ok? ==>
              && ThreeFunctions(basis) && AllConsistent(measurements, DIMENSION)
              && fresh(result.value.matrix) && fresh(result.value.values)
              && result.value.matrix.Length0 == result.value.values.Length == |measurements| * DIMENSION
              && result.value.matrix.Length1 == modes
              && AssembledUpTo(basis, measurements, result.value.matrix, result.value.values,
                               |measurements| * DIMENSION)
  {
    if measurements == [] {
      return Err(NoMeasurements);
    }
    if |basis| == 0 {
      return Err(NoBasis);
    }
    if modes == 0 {
      return Err(NoModes);
    }
    if a.less(threshold, a.zero) {
      return Err(NegativeThreshold);
    }
    var dimension := |measurements[0].point|;
    if dimension == 0 {
      return Err(ZeroDimension);
    }
    if |basis| != dimension {
      return Err(BasisSizeMismatch);
    }
    QuotientGuard(|measurements|, dimension, INDEX_MAX);
    if |measurements| > INDEX_MAX / dimension {
      return Err(TooManyRows);
    }
    if modes > INDEX_MAX {
      return Err(TooManyModes);
    }
    var matrix := new T[|measurements| * dimension, modes];
    var values := new T[|measurements| * dimension];
    result := FillSystem(measurements, basis, dimension, matrix, values);
  }

  method FillSystem<T>(measurements: seq<Measurement<T>>, basis: seq<BasisFunction<T>>, dimension: nat,
                       matrix: array2<T>, values: array<T>)
    returns (result: Result<System<T>, SolverError>)
    requires measurements != [] && dimension == |measurements[0].point| == |basis| && dimension > 0
    requires matrix.Length0 == values.Length == |measurements| * dimension && matrix.Length1 > 0
    modifies matrix, values
    ensures result.Ok? <==> dimension == DIMENSION && AllConsistent(measurements, DIMENSION)
    ensures result == Err(WrongArity) <==> dimension != DIMENSION && |measurements[0].field| == dimension
    ensures result.Err? ==> result.error == WrongArity || result.error == InconsistentMeasurement
    ensures result.Ok? ==> result.value == System(matrix, values)
    ensures result.Ok? ==> AssembledUpTo(basis, measurements, matrix, values, |measurements| * DIMENSION)
  {
    for m := 0 to |measurements|
      invariant m > 0 ==> dimension == DIMENSION
      invariant forall i :: 0 <= i < m ==> Consistent(measurements, dimension, i)
      invariant dimension == DIMENSION ==> AssembledUpTo(basis, measurements, matrix, values, DIMENSION * m)
    {
      if |measurements[m].point| != dimension || |measurements[m].field| != dimension {
        assert !Consistent(measurements, dimension, m);
        return Err(InconsistentMeasurement);
      }
      if dimension != DIMENSION {
        // The first call of a basis function, for component 0 and mode 0, throws.
        return Err(WrongArity);
      }
      AssembleMeasurement(basis, measurements, matrix, values, m);
    }
    result := Ok(System(matrix, values));
  }

  // ----- The solution -----

  /** What the decomposition gets: the rows of the matrix and the right-hand side. */
  datatype Problem<T> = Problem(rows: seq<seq<T>>, values: seq<T>)

  /** Row 3 m + c of the problem belongs to component c of measurement m: entry k is basis function c for mode k at the
      measured point, and the value is the measured component. */
  ghost predicate IsProblem<T>(basis: seq<BasisFunction<T>>, measurements: seq<Measurement<T>>, modes: nat,
                               problem: Problem<T>)
    requires ThreeFunctions(basis) && AllConsistent(measurements, DIMENSION)
  {
    && |problem.rows| == |problem.values| == 3 * |measurements|
    && forall m, c :: 0 <= m < |measurements| && 0 <= c < 3 ==> IsProblemRow(basis, measurements, modes, problem, m, c)
  }

  ghost predicate IsProblemRow<T>(basis: seq<BasisFunction<T>>, measurements: seq<Measurement<T>>, modes: nat,
                                  problem: Problem<T>, m: nat, c: nat)
    requires ThreeFunctions(basis) && AllConsistent(measurements, DIMENSION) && m < |measurements| && c < 3
    requires |problem.rows| == |problem.values| == 3 * |measurements|
  {
    assert Consistent(measurements, DIMENSION, m);
    var p, row := measurements[m].point, problem.rows[3 * m + c];
    && problem.values[3 * m + c] == measurements[m].field[c]
    && |row| == modes && forall k :: 0 <= k < modes ==> row[k] == basis[c](k, p[0], p[1], p[2])
  }

  method CopyRows<T>(matrix: array2<T>) returns (rows: seq<seq<T>>)
    ensures |rows| == matrix.Length0
    ensures forall r :: 0 <= r < |rows| ==> |rows[r]| == matrix.Length1
    ensures forall r, k :: 0 <= r < |rows| && 0 <= k < |rows[r]| ==> rows[r][k] == matrix[r, k]
  {
    rows := seq(matrix.Length0, r requires 0 <= r < matrix.Length0 reads matrix =>
                  seq(matrix.Length1, k requires 0 <= k < matrix.Length1 reads matrix => matrix[r, k]));
  }

  lemma AssembledIsProblem<T>(basis: seq<BasisFunction<T>>, measurements: seq<Measurement<T>>, system: System<T>,
                              problem: Problem<T>)
    requires ThreeFunctions(basis) && AllConsistent(measurements, DIMENSION)
    requires system.matrix.Length0 == system.values.Length == |measurements| * DIMENSION
    requires AssembledUpTo(basis, measurements, system.matrix, system.values, |measurements| * DIMENSION)
    requires problem.values == system.values[..] && |problem.rows| == system.matrix.Length0
    requires forall r :: 0 <= r < |problem.rows| ==> |problem.rows[r]| == system.matrix.Length1
    requires forall r, k :: 0 <= r < |problem.rows| && 0 <= k < |problem.rows[r]| ==>
                              problem.rows[r][k] == system.matrix[r, k]
    ensures IsProblem(basis, measurements, system.matrix.Length1, problem)
  {
    forall m, c | 0 <= m < |measurements| && 0 <= c < 3
      ensures IsProblemRow(basis, measurements, system.matrix.Length1, problem, m, c)
    {
      assert RowAssembled(basis, measurements, system.matrix, system.values, 3 * m + c);
      assert (3 * m + c) / 3 == m && (3 * m + c) % 3 == c;
    }
  }

  /** `solve_svd`. The decomposition, with its threshold, is a parameter; it gets the whole problem. */
  method SolveSvd<T(0)>(a: Arith<T>, measurements: seq<Measurement<T>>, basis: seq<BasisFunction<T>>, modes: nat,
                        threshold: T, decompose: (Problem<T>, T) -> seq<T>)
    returns (result: Result<seq<T>, SolverError>)
    ensures Rejection(a, measurements, |basis|, modes, threshold).Err? ==>
              result == Err(Rejection(a, measurements, |basis|, modes, threshold).error)
    ensures Rejection(a, measurements, |basis|, modes, threshold).Ok? ==>
              var dimension := |measurements[0].point|;
              && (result.Ok? <==> dimension == DIMENSION && AllConsistent(measurements, DIMENSION))
              && (result == Err(WrongArity) <==> dimension != DIMENSION && |measurements[0].field| == dimension)
              && (result.Err? ==> result.error == WrongArity || result.error == InconsistentMeasurement)
    ensures result.Ok? ==>
              && ThreeFunctions(basis) && AllConsistent(measurements, DIMENSION)
              && exists problem :: IsProblem(basis, measurements, modes, problem)
                                   && result.value == decompose(problem, threshold)
  {
    var assembled := Assemble(a, measurements, basis, modes, threshold);
    if assembled.Err? {
      return Err(assembled.error);
    }
    var rows := CopyRows(assembled.value.matrix);
    var problem := Problem(rows, assembled.value.values[..]);
    AssembledIsProblem(basis, measurements, assembled.value, problem);
    result := Ok(decompose(problem, threshold));
  }

  // ----- The linear map -----

  /** A row times the coefficients, added from the left. */
  ghost function RowProduct<T>(a: Arith<T>, row: seq<T>, coefficients: seq<T>, n: nat): T
    requires n <= |row| && n <= |coefficients|
  {
    if n == 0 then a.zero
    else a.add(RowProduct(a, row, coefficients, n - 1), a.mul(row[n - 1], coefficients[n - 1]))
  }

  ghost predicate Commutative<T(!new)>(f: (T, T) -> T) {
    forall x, y :: f(x, y) == f(y, x)
  }

  ghost function Component<T>(v: Triple<T>, c: nat): T
    requires c < DIMENSION
  {
    if c == 0 then v.first else if c == 1 then v.second else v.third
  }

  ghost function PointOf<T>(measurement: Measurement<T>): Triple<T>
    requires |measurement.point| == DIMENSION
  {
    Triple(measurement.point[0], measurement.point[1], measurement.point[2])
  }

  lemma {:induction false} RowIsModeSum<T(!new)>(a: Arith<T>, row: seq<T>, f: BasisFunction<T>, p: Triple<T>,
                                                 coefficients: seq<T>, n: nat)
    requires |row| == |coefficients| && n <= |row| && Commutative(a.mul)
    requires forall k :: 0 <= k < |row| ==> row[k] == f(k, p.first, p.second, p.third)
    ensures RowProduct(a, row, coefficients, n) == ModeSum(a, coefficients, f, p, n)
  {
    if n > 0 {
      RowIsModeSum(a, row, f, p, coefficients, n - 1);
      assert a.mul(row[n - 1], coefficients[n - 1]) == a.mul(coefficients[n - 1], row[n - 1]);
    }
  }

  /** Matrix times coefficients is the stack of the evaluator's results at the measured points, in any arithmetic whose
      product commutes. */
  lemma SystemIsEvaluator<T(!new)>(a: Arith<T>, basis: seq<BasisFunction<T>>, measurements: seq<Measurement<T>>,
                                   problem: Problem<T>, coefficients: seq<T>, m: nat, c: nat)
    requires ThreeFunctions(basis) && AllConsistent(measurements, DIMENSION) && Commutative(a.mul)
    requires IsProblem(basis, measurements, |coefficients|, problem) && m < |measurements| && c < DIMENSION
    ensures |measurements[m].point| == |measurements[m].field| == 3 && |problem.rows[3 * m + c]| == |coefficients|
    ensures RowProduct(a, problem.rows[3 * m + c], coefficients, |coefficients|)
         == Component(FieldValue(a, basis, coefficients, PointOf(measurements[m])), c)
    ensures problem.values[3 * m + c] == measurements[m].field[c]
  {
    assert Consistent(measurements, DIMENSION, m);
    assert IsProblemRow(basis, measurements, |coefficients|, problem, m, c);
    RowIsModeSum(a, problem.rows[3 * m + c], basis[c], PointOf(measurements[m]), coefficients, |coefficients|);
  }

  /** The coefficients solve the problem without residual. */
  ghost predicate SolvesExactly<T>(a: Arith<T>, problem: Problem<T>, coefficients: seq<T>) {
    && |problem.rows| == |problem.values|
    && forall r :: 0 <= r < |problem.rows| ==> RowHolds(a, problem, coefficients, r)
  }

  ghost predicate RowHolds<T>(a: Arith<T>, problem: Problem<T>, coefficients: seq<T>, r: nat)
    requires r < |problem.rows| == |problem.values|
  {
    && |problem.rows[r]| == |coefficients|
    && RowProduct(a, problem.rows[r], coefficients, |coefficients|) == problem.values[r]
  }

  /** The evaluator reproduces measurement m. */
  ghost predicate Reproduces<T>(a: Arith<T>, basis: seq<BasisFunction<T>>, measurements: seq<Measurement<T>>,
                                coefficients: seq<T>, m: nat)
    requires ThreeFunctions(basis) && AllConsistent(measurements, DIMENSION) && m < |measurements|
  {
    assert Consistent(measurements, DIMENSION, m);
    var v := FieldValue(a, basis, coefficients, PointOf(measurements[m]));
    measurements[m].field == [v.first, v.second, v.third]
  }

  /** Coefficients solve the problem exactly if and only if the evaluator reproduces every measurement from them; in
      particular measurements generated from coefficients are solved by them. */
  lemma ExactSolutions<T(!new)>(a: Arith<T>, basis: seq<BasisFunction<T>>, measurements: seq<Measurement<T>>,
                                problem: Problem<T>, coefficients: seq<T>)
    requires ThreeFunctions(basis) && AllConsistent(measurements, DIMENSION) && Commutative(a.mul)
    requires IsProblem(basis, measurements, |coefficients|, problem)
    ensures SolvesExactly(a, problem, coefficients)
       <==> forall m :: 0 <= m < |measurements| ==> Reproduces(a, basis, measurements, coefficients, m)
  {
    if SolvesExactly(a, problem, coefficients) {
      forall m | 0 <= m < |measurements|
        ensures Reproduces(a, basis, measurements, coefficients, m)
      {
        RowsReproduce(a, basis, measurements, problem, coefficients, m);
      }
    }
    if forall m :: 0 <= m < |measurements| ==> Reproduces(a, basis, measurements, coefficients, m) {
      forall r | 0 <= r < |problem.rows|
        ensures RowHolds(a, problem, coefficients, r)
      {
        assert Reproduces(a, basis, measurements, coefficients, r / 3);
        ReproducedRow(a, basis, measurements, problem, coefficients, r / 3, r % 3, r);
      }
    }
  }

  lemma ReproducedRow<T(!new)>(a: Arith<T>, basis: seq<BasisFunction<T>>, measurements: seq<Measurement<T>>,
                               problem: Problem<T>, coefficients: seq<T>, m: nat, c: nat, r: nat)
    requires ThreeFunctions(basis) && AllConsistent(measurements, DIMENSION) && Commutative(a.mul)
    requires IsProblem(basis, measurements, |coefficients|, problem)
    requires m < |measurements| && c < DIMENSION && r == 3 * m + c
    requires Reproduces(a, basis, measurements, coefficients, m)
    ensures RowHolds(a, problem, coefficients, r)
  {
    SystemIsEvaluator(a, basis, measurements, problem, coefficients, m, c);
  }

  lemma RowsReproduce<T(!new)>(a: Arith<T>, basis: seq<BasisFunction<T>>, measurements: seq<Measurement<T>>,
                               problem: Problem<T>, coefficients: seq<T>, m: nat)
    requires ThreeFunctions(basis) && AllConsistent(measurements, DIMENSION) && Commutative(a.mul)
    requires IsProblem(basis, measurements, |coefficients|, problem)
    requires m < |measurements| && SolvesExactly(a, problem, coefficients)
    ensures Reproduces(a, basis, measurements, coefficients, m)
  {
    assert Consistent(measurements, DIMENSION, m);
    var v := FieldValue(a, basis, coefficients, PointOf(measurements[m]));
    forall c | 0 <= c < DIMENSION
      ensures measurements[m].field[c] == Component(v, c)
    {
      assert RowHolds(a, problem, coefficients, 3 * m + c);
      SystemIsEvaluator(a, basis, measurements, problem, coefficients, m, c);
    }
    assert measurements[m].field == [Component(v, 0), Component(v, 1), Component(v, 2)];
  }
}
