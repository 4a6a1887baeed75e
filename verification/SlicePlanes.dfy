/** What a slice shows, over exact reals and in plain arithmetic: which requests are accepted, where each pixel lies in
    the detector, and the field it holds. */
module SlicePlanes {
  import opened Numeric
  import opened Arithmetic
  import opened Polynomials
  import opened FieldModes
  import opened Evaluators
  import opened PhysicalField
  import opened FieldAgreement
  import opened Indexing
  import opened FieldSlices

  /** When a request is refused, and why. */
  lemma RejectedExactlyWhen(m: Trig, q: Request<real>, calculated: bool)
    ensures var result, c, limit := Rejection(Reals(m), q, calculated), Abs(q.coordinate), q.length / 2.0;
      var small := q.columns < 2 || q.rows < 2;
      var flat := q.radius <= 0.0 || q.length <= 0.0;
      var outside := if q.direction == SliceZ then c > limit else c > q.radius;
      var large := 3 * (q.columns * q.rows) > 18446744073709551615;
      && (result == Err(GridTooSmall) <==> small)
      && (result == Err(NotPositive) <==> !small && flat)
      && (result == Err(OutsideGeometry) <==> !small && !flat && outside)
      && (result == Err(NotCalculated) <==> !small && !flat && !outside && !calculated)
      && (result == Err(GridTooLarge) <==> !small && !flat && !outside && calculated && large)
      && (result == Ok(()) <==> !small && !flat && !outside && calculated && !large)
  {
    assert q.length / 2.0 == q.length * 0.5;
  }

  /** Sample k of n from low to high. */
  function Along(low: real, high: real, k: nat, n: nat): real
    requires n >= 2
  {
    low + k as real * ((high - low) / (n - 1) as real)
  }

  /** Sample k of n from high to low. */
  function Down(low: real, high: real, k: nat, n: nat): real
    requires n >= 2
  {
    high - k as real * ((high - low) / (n - 1) as real)
  }

  /** The place of a pixel: columns run along the plane's horizontal axis from the left, rows down from the top. An X
      or Y slice spans the chord of the disc at its coordinate and the length of the cylinder, a Z slice the square
      around the disc. `reach` is half that chord. */
  function PlaceInPlane(q: Request<real>, reach: real, row: nat, column: nat): Place
    requires q.columns >= 2 && q.rows >= 2
  {
    var r, h := q.radius, q.length / 2.0;
    match q.direction
    case SliceX => Place(q.coordinate, Along(-reach, reach, column, q.columns), Down(-h, h, row, q.rows))
    case SliceY => Place(Along(-reach, reach, column, q.columns), q.coordinate, Down(-h, h, row, q.rows))
    case SliceZ => Place(Along(-r, r, column, q.columns), Down(-r, r, row, q.rows), q.coordinate)
  }

  /** Half the chord of the disc at the slice's coordinate. */
  ghost predicate IsReach(q: Request<real>, reach: real) {
    reach >= 0.0 && reach * reach == q.radius * q.radius - q.coordinate * q.coordinate
  }

  lemma RootIsUnique(a: real, b: real)
    requires a >= 0.0 && b >= 0.0 && a * a == b * b
    ensures a == b
  {
    assert (a - b) * (a + b) == 0.0;
    if a + b > 0.0 {
      assert a - b > 0.0 ==> (a - b) * (a + b) > 0.0;
      assert b - a > 0.0 ==> (b - a) * (a + b) > 0.0;
    }
  }

  lemma ReachIsLimit(m: Trig, q: Request<real>, reach: real)
    requires Lawful(m) && IsReach(q, reach)
    ensures Limit(m, q) == reach
  {
    LimitSquared(m, q);
    assert reach * reach >= 0.0;
    RootIsUnique(Limit(m, q), reach);
  }

  lemma SpacingIs(m: Trig, low: real, high: real, n: nat)
    requires n >= 2
    ensures Spacing(Reals(m), Bounds(low, high), n) == (high - low) / (n - 1) as real
  {
  }

  lemma HorizontalIs(m: Trig, q: Request<real>, low: real, high: real, column: nat)
    requires q.columns >= 2 && HorizontalBounds(Reals(m), q) == Bounds(low, high)
    ensures HorizontalSample(Reals(m), q, column) == Along(low, high, column, q.columns)
  {
    SpacingIs(m, low, high, q.columns);
  }

  lemma VerticalIs(m: Trig, q: Request<real>, low: real, high: real, row: nat)
    requires q.rows >= 2 && VerticalBounds(Reals(m), q) == Bounds(low, high)
    ensures VerticalSample(Reals(m), q, row) == Down(low, high, row, q.rows)
  {
    SpacingIs(m, low, high, q.rows);
  }

  lemma PlaceIs(m: Trig, q: Request<real>, reach: real, row: nat, column: nat)
    requires Lawful(m) && q.columns >= 2 && q.rows >= 2 && (q.direction != SliceZ ==> IsReach(q, reach))
    ensures AsPlace(PixelPlace(Reals(m), q, row, column)) == PlaceInPlane(q, reach, row, column)
  {
    var r, h := q.radius, q.length / 2.0;
    assert h == q.length * 0.5;
    if q.direction == SliceZ {
      HorizontalIs(m, q, -r, r, column);
      VerticalIs(m, q, -r, r, row);
    } else {
      AxialBounds(m, q);
      ReachIsLimit(m, q, reach);
      HorizontalIs(m, q, -reach, reach, column);
      VerticalIs(m, q, -h, h, row);
    }
  }

  predicate InDetector(radius: real, at: Place) {
    at.x * at.x + at.y * at.y <= radius * radius
  }

  /** The azimuth of a place as the slice takes it: zero up to epsilon, two to the power -52, from the axis. */
  function AzimuthAt(m: Trig, at: Place): real {
    if m.hypot(at.x, at.y) <= 1.0 / 4503599627370496.0 then 0.0 else m.atan2(at.y, at.x)
  }

  /** The field of the coefficients at the polar coordinates of a place, turned by their azimuth. */
  ghost function FieldShown(m: Trig, basis: seq<BasisFunction<real>>, coefficients: seq<real>, at: Place): Place
    requires ThreeFunctions(basis)
  {
    var phi := AzimuthAt(m, at);
    TurnedAt(m, FieldValue(Reals(m), basis, coefficients, Triple(m.hypot(at.x, at.y), phi, at.z)), phi)
  }

  /** Pixel number `pixel` is marked exactly if it is inside, and then holds the vector, and otherwise zeros. */
  ghost predicate PixelIs(slice: FieldSlice<real>, pixel: nat, inside: bool, vector: Place) {
    && pixel < |slice.valid| && 3 * pixel + 2 < |slice.field|
    && slice.valid[pixel] == inside
    && AsPlace(TripleAt(slice.field, pixel)) == if inside then vector else Place(0.0, 0.0, 0.0)
  }

  lemma VectorIsShown(m: Trig, basis: seq<BasisFunction<real>>, coefficients: seq<real>, place: Triple<real>)
    requires ThreeFunctions(basis)
    ensures AsPlace(SliceVector(Reals(m), basis, coefficients, place))
         == FieldShown(m, basis, coefficients, AsPlace(place))
  {
    var phi := AzimuthAt(m, AsPlace(place));
    assert SliceAzimuth(Reals(m), place) == phi;
    var v := FieldValue(Reals(m), basis, coefficients, Triple(m.hypot(place.first, place.second), phi, place.third));
    RotatedIsTurned(m, v, phi);
  }

  lemma DiscIs(m: Trig, radius: real, place: Triple<real>)
    ensures InDisc(Reals(m), radius, place) == InDetector(radius, AsPlace(place))
  {
    InDiscIs(m, radius, place);
  }

  lemma PixelShown(a: Arith<real>, basis: seq<BasisFunction<real>>, coefficients: seq<real>, q: Request<real>,
                   slice: FieldSlice<real>, row: nat, column: nat)
    requires a.zero == 0.0 && ThreeFunctions(basis) && row < q.rows && column < q.columns
    requires ShowsRequest(a, basis, coefficients, q, slice)
    ensures var place := PixelPlace(a, q, row, column);
      PixelIs(slice, Position(q.columns, row, column), InDisc(a, q.radius, place),
              AsPlace(SliceVector(a, basis, coefficients, place)))
  {
    assert PixelShows(a, basis, coefficients, q, slice.field, slice.valid, row, column);
  }

  /** For any basis: the pixel in a row and column of a complete slice is valid exactly if its place lies in the disc,
      and then holds the field there, and zeros otherwise. */
  lemma PixelHolds(m: Trig, basis: seq<BasisFunction<real>>, coefficients: seq<real>, q: Request<real>,
                   slice: FieldSlice<real>, reach: real, row: nat, column: nat)
    requires Lawful(m) && ThreeFunctions(basis) && q.columns >= 2 && q.rows >= 2 && row < q.rows && column < q.columns
    requires ShowsRequest(Reals(m), basis, coefficients, q, slice) && (q.direction != SliceZ ==> IsReach(q, reach))
    ensures var at := PlaceInPlane(q, reach, row, column);
      PixelIs(slice, Position(q.columns, row, column), InDetector(q.radius, at),
              FieldShown(m, basis, coefficients, at))
  {
    PlaceIs(m, q, reach, row, column);
    PixelShown(Reals(m), basis, coefficients, q, slice, row, column);
    DiscIs(m, q.radius, PixelPlace(Reals(m), q, row, column));
    VectorIsShown(m, basis, coefficients, PixelPlace(Reals(m), q, row, column));
  }

  /** The place whose field a pixel shows: its own, or up to epsilon from the axis the one as far out on the positive
      x axis. */
  function PlaceShown(m: Trig, at: Place): Place {
    var r := m.hypot(at.x, at.y);
    if r <= 1.0 / 4503599627370496.0 then Place(r, 0.0, at.z) else at
  }

  lemma ShownIsField(m: Trig, coefficients: seq<real>, at: Place)
    requires Lawful(m)
    ensures FieldShown(m, DefaultBasis(m), coefficients, at) == PolynomialField(coefficients, PlaceShown(m, at))
  {
    var r, phi := m.hypot(at.x, at.y), AzimuthAt(m, at);
    var p := Triple(r, phi, at.z);
    PolarLaw(m, at.x, at.y);
    EvaluatedAtPlace(m, coefficients, p, PlaceShown(m, at));
    RotatedIsTurned(m, FieldValue(Reals(m), DefaultBasis(m), coefficients, p), phi);
  }

  /** With the default basis that field is the one polynomial field of the coefficients. */
  lemma PixelHoldsField(m: Trig, coefficients: seq<real>, q: Request<real>, slice: FieldSlice<real>, reach: real,
                        row: nat, column: nat)
    requires Lawful(m) && q.columns >= 2 && q.rows >= 2 && row < q.rows && column < q.columns
    requires ShowsRequest(Reals(m), DefaultBasis(m), coefficients, q, slice)
    requires q.direction != SliceZ ==> IsReach(q, reach)
    ensures var at := PlaceInPlane(q, reach, row, column);
      PixelIs(slice, Position(q.columns, row, column), InDetector(q.radius, at),
              PolynomialField(coefficients, PlaceShown(m, at)))
  {
    PixelHolds(m, DefaultBasis(m), coefficients, q, slice, reach, row, column);
    ShownIsField(m, coefficients, PlaceInPlane(q, reach, row, column));
  }

  /** The bounds that come with a slice are those of its plane. */
  lemma BoundsAre(m: Trig, basis: seq<BasisFunction<real>>, coefficients: seq<real>, q: Request<real>,
                  slice: FieldSlice<real>, reach: real)
    requires Lawful(m) && ThreeFunctions(basis) && q.columns >= 2 && q.rows >= 2
    requires ShowsRequest(Reals(m), basis, coefficients, q, slice) && (q.direction != SliceZ ==> IsReach(q, reach))
    ensures q.direction == SliceZ ==>
      slice.horizontal == Bounds(-q.radius, q.radius) && slice.vertical == Bounds(-q.radius, q.radius)
    ensures q.direction != SliceZ ==>
      slice.horizontal == Bounds(-reach, reach) && slice.vertical == Bounds(-q.length / 2.0, q.length / 2.0)
  {
    if q.direction != SliceZ {
      AxialBounds(m, q);
      ReachIsLimit(m, q, reach);
      assert -q.length / 2.0 == -(q.length * 0.5);
    }
  }

  /** Every accepted X or Y request has a reach, so the statements above speak of every accepted slice. */
  lemma AcceptedHasReach(m: Trig, q: Request<real>) returns (reach: real)
    requires Lawful(m) && q.direction != SliceZ && Rejection(Reals(m), q, true).Ok?
    ensures IsReach(q, reach) && Abs(q.coordinate) <= q.radius
  {
    reach := Limit(m, q);
    LimitSquared(m, q);
    SquareBelow(q.coordinate, q.radius);
  }
}
