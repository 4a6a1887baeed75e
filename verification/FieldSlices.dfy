/** `evaluate_field_slice`: the raster of one plane through the field, over any arithmetic. */
module FieldSlices {
  import opened Numeric
  import opened Arithmetic
  import opened Evaluators
  import opened Indexing

  datatype Direction = SliceX | SliceY | SliceZ

  datatype SliceError =
    | GridTooSmall
    | NotPositive
    | OutsideGeometry
    | NotCalculated
    | GridTooLarge
    | Cancelled

  /** What is asked for: a plane, its raster and the cylinder it cuts. */
  datatype Request<T> = Request(direction: Direction, coordinate: T, columns: nat, rows: nat, radius: T, length: T)

  datatype Bounds<T> = Bounds(low: T, high: T)

  datatype FieldSlice<T> = FieldSlice(horizontal: Bounds<T>, vertical: Bounds<T>, field: seq<T>, valid: seq<bool>)

  // ----- Geometry of the raster -----

  function HorizontalBounds<T>(a: Arith<T>, q: Request<T>): Bounds<T> {
    if q.direction == SliceZ then Bounds(a.neg(q.radius), q.radius)
    else
      var limit := a.sqrt(a.max(a.zero, a.sub(a.mul(q.radius, q.radius), a.mul(q.coordinate, q.coordinate))));
      Bounds(a.neg(limit), limit)
  }

  function VerticalBounds<T>(a: Arith<T>, q: Request<T>): Bounds<T> {
    if q.direction == SliceZ then Bounds(a.neg(q.radius), q.radius)
    else Bounds(a.neg(a.half(q.length)), a.half(q.length))
  }

  /** The distance between neighbouring samples. */
  function Spacing<T>(a: Arith<T>, b: Bounds<T>, count: nat): T
    requires count > 0
  {
    a.div(a.sub(b.high, b.low), a.ofNat(count - 1))
  }

  function HorizontalSample<T>(a: Arith<T>, q: Request<T>, column: nat): T
    requires q.columns > 0
  {
    a.add(HorizontalBounds(a, q).low, a.mul(a.ofNat(column), Spacing(a, HorizontalBounds(a, q), q.columns)))
  }

  function VerticalSample<T>(a: Arith<T>, q: Request<T>, row: nat): T
    requires q.rows > 0
  {
    a.sub(VerticalBounds(a, q).high, a.mul(a.ofNat(row), Spacing(a, VerticalBounds(a, q), q.rows)))
  }

  /** The Cartesian place of the pixel in the given row (from the top) and column (from the left). */
  function PixelPlace<T>(a: Arith<T>, q: Request<T>, row: nat, column: nat): Triple<T>
    requires q.columns > 0 && q.rows > 0
  {
    var u, v := HorizontalSample(a, q, column), VerticalSample(a, q, row);
    match q.direction
    case SliceX => Triple(q.coordinate, u, v)
    case SliceY => Triple(u, q.coordinate, v)
    case SliceZ => Triple(u, v, q.coordinate)
  }

  predicate InDisc<T>(a: Arith<T>, radius: T, place: Triple<T>) {
    !a.less(a.mul(radius, radius), a.add(a.mul(place.first, place.first), a.mul(place.second, place.second)))
  }

  /** The azimuth the slice uses: zero up to and including epsilon. */
  function SliceAzimuth<T>(a: Arith<T>, place: Triple<T>): T {
    if a.atMost(a.hypot(place.first, place.second), a.epsilon) then a.zero else a.atan2(place.second, place.first)
  }

  /** The Cartesian field vector the slice shows at a place. */
  ghost function SliceVector<T>(a: Arith<T>, basis: seq<BasisFunction<T>>, coefficients: seq<T>,
                                place: Triple<T>): Triple<T>
    requires ThreeFunctions(basis)
  {
    var phi := SliceAzimuth(a, place);
    Rotate(a, FieldValue(a, basis, coefficients, Triple(a.hypot(place.first, place.second), phi, place.third)), phi)
  }

  // ----- Pixels -----

  /** Pixel (row, column) of the buffers is what the request asks for: the field vector and the mark where
      its place lies in the disc, and zeros without the mark elsewhere. */
  ghost predicate PixelShows<T>(a: Arith<T>, basis: seq<BasisFunction<T>>, coefficients: seq<T>, q: Request<T>,
                                field: seq<T>, valid: seq<bool>, row: nat, column: nat)
    requires ThreeFunctions(basis) && q.columns > 0 && q.rows > 0
  {
    var pixel, place := Position(q.columns, row, column), PixelPlace(a, q, row, column);
    && pixel < |valid| && 3 * pixel + 2 < |field|
    && valid[pixel] == InDisc(a, q.radius, place)
    && TripleAt(field, pixel) ==
       if valid[pixel] then SliceVector(a, basis, coefficients, place) else Triple(a.zero, a.zero, a.zero)
  }

  ghost predicate IsBlank<T>(a: Arith<T>, field: seq<T>, valid: seq<bool>, pixel: nat) {
    && pixel < |valid| && 3 * pixel + 2 < |field|
    && !valid[pixel] && TripleAt(field, pixel) == Triple(a.zero, a.zero, a.zero)
  }

  /** Pixels before `done` show what is asked for, the others are still blank. */
  ghost predicate FilledUpTo<T>(a: Arith<T>, basis: seq<BasisFunction<T>>, coefficients: seq<T>, q: Request<T>,
                                field: seq<T>, valid: seq<bool>, done: nat)
    requires ThreeFunctions(basis) && q.columns > 0 && q.rows > 0
  {
    && (forall r, c :: 0 <= r < q.rows && 0 <= c < q.columns && Position(q.columns, r, c) < done ==>
          PixelShows(a, basis, coefficients, q, field, valid, r, c))
    && (forall p :: done <= p < |valid| ==> IsBlank(a, field, valid, p))
  }

  ghost predicate SameExceptPixel<T>(field: seq<T>, valid: seq<bool>, field': seq<T>, valid': seq<bool>, pixel: nat) {
    && |field'| == |field| && |valid'| == |valid|
    && (forall k :: 0 <= k < |field| && !(3 * pixel <= k < 3 * pixel + 3) ==> field'[k] == field[k])
    && (forall k :: 0 <= k < |valid| && k != pixel ==> valid'[k] == valid[k])
  }

  lemma KeepsPixel<T>(field: seq<T>, valid: seq<bool>, field': seq<T>, valid': seq<bool>, pixel: nat, other: nat)
    requires SameExceptPixel(field, valid, field', valid', pixel) && other != pixel
    requires other < |valid| && 3 * other + 2 < |field|
    ensures valid'[other] == valid[other] && TripleAt(field', other) == TripleAt(field, other)
  {
  }

  /** Filling one more pixel keeps the others. */
  lemma FillsNext<T>(a: Arith<T>, basis: seq<BasisFunction<T>>, coefficients: seq<T>, q: Request<T>,
                     field: seq<T>, valid: seq<bool>, field': seq<T>, valid': seq<bool>, row: nat, column: nat)
    requires ThreeFunctions(basis) && row < q.rows && column < q.columns
    requires FilledUpTo(a, basis, coefficients, q, field, valid, Position(q.columns, row, column))
    requires SameExceptPixel(field, valid, field', valid', Position(q.columns, row, column))
    requires PixelShows(a, basis, coefficients, q, field', valid', row, column)
    ensures FilledUpTo(a, basis, coefficients, q, field', valid', Position(q.columns, row, column) + 1)
  {
    var pixel := Position(q.columns, row, column);
    forall r, c | 0 <= r < q.rows && 0 <= c < q.columns && Position(q.columns, r, c) < pixel + 1
      ensures PixelShows(a, basis, coefficients, q, field', valid', r, c)
    {
      if Position(q.columns, r, c) == pixel {
        PositionOf(q.columns, r, c);
        PositionOf(q.columns, row, column);
      } else {
        assert PixelShows(a, basis, coefficients, q, field, valid, r, c);
        KeepsPixel(field, valid, field', valid', pixel, Position(q.columns, r, c));
      }
    }
    forall p | pixel + 1 <= p < |valid'|
      ensures IsBlank(a, field', valid', p)
    {
      assert IsBlank(a, field, valid, p);
      KeepsPixel(field, valid, field', valid', pixel, p);
    }
  }

  // ----- The loops -----

  /** The loops over modes and components for one pixel. */
  method EvaluatePixel<T>(a: Arith<T>, basis: seq<BasisFunction<T>>, coefficients: seq<T>, r: T, phi: T, z: T)
    returns (cylindrical: Triple<T>)
    requires ThreeFunctions(basis)
    ensures cylindrical == FieldValue(a, basis, coefficients, Triple(r, phi, z))
  {
    var sums := [a.zero, a.zero, a.zero];
    for mode := 0 to |coefficients|
      invariant HaveSummed(a, basis, coefficients, Triple(r, phi, z), sums, mode, 0)
    {
      var coefficient := coefficients[mode];
      for component := 0 to DIMENSION
        invariant HaveSummed(a, basis, coefficients, Triple(r, phi, z), sums, mode, component)
      {
        sums := sums[component := a.add(sums[component], a.mul(coefficient, basis[component](mode, r, phi, z)))];
      }
    }
    cylindrical := Triple(sums[0], sums[1], sums[2]);
  }

  /** One pixel: nothing happens outside the disc. */
  method FillPixel<T>(a: Arith<T>, basis: seq<BasisFunction<T>>, coefficients: seq<T>, q: Request<T>,
                      field: array<T>, valid: array<bool>, row: nat, column: nat, place: Triple<T>)
    requires ThreeFunctions(basis) && row < q.rows && column < q.columns && place == PixelPlace(a, q, row, column)
    requires valid.Length == q.rows * q.columns && field.Length == 3 * valid.Length
    requires FilledUpTo(a, basis, coefficients, q, field[..], valid[..], Position(q.columns, row, column))
    modifies field, valid
    ensures FilledUpTo(a, basis, coefficients, q, field[..], valid[..], Position(q.columns, row, column) + 1)
  {
    PositionInRange(q.columns, q.rows, row, column);
    ghost var field0, valid0 := field[..], valid[..];
    var x, y := place.first, place.second;
    var pixel := row * q.columns + column;
    assert IsBlank(a, field0, valid0, pixel);
    if !a.less(a.mul(q.radius, q.radius), a.add(a.mul(x, x), a.mul(y, y))) {
      var r := a.hypot(x, y);
      var phi := if a.atMost(r, a.epsilon) then a.zero else a.atan2(y, x);
      var cylindrical := EvaluatePixel(a, basis, coefficients, r, phi, place.third);
      StorePixel(field, valid, pixel, Rotate(a, cylindrical, phi));
    }
    FillsNext(a, basis, coefficients, q, field0, valid0, field[..], valid[..], row, column);
  }

  method StorePixel<T>(field: array<T>, valid: array<bool>, pixel: nat, vector: Triple<T>)
    requires pixel < valid.Length && field.Length == 3 * valid.Length
    modifies field, valid
    ensures SameExceptPixel(old(field[..]), old(valid[..]), field[..], valid[..], pixel)
    ensures valid[pixel] && TripleAt(field[..], pixel) == vector
  {
    var offset := pixel * DIMENSION;
    field[offset] := vector.first;
    field[offset + 1] := vector.second;
    field[offset + 2] := vector.third;
    valid[pixel] := true;
  }

  /** One row of pixels. */
  method FillRow<T>(a: Arith<T>, basis: seq<BasisFunction<T>>, coefficients: seq<T>, q: Request<T>,
                    horizontal: Bounds<T>, vertical: Bounds<T>, field: array<T>, valid: array<bool>, row: nat)
    requires ThreeFunctions(basis) && row < q.rows && q.columns > 0
    requires horizontal == HorizontalBounds(a, q) && vertical == VerticalBounds(a, q)
    requires valid.Length == q.rows * q.columns && field.Length == 3 * valid.Length
    requires FilledUpTo(a, basis, coefficients, q, field[..], valid[..], row * q.columns)
    modifies field, valid
    ensures FilledUpTo(a, basis, coefficients, q, field[..], valid[..], (row + 1) * q.columns)
  {
    var du := Spacing(a, horizontal, q.columns);
    var dv := Spacing(a, vertical, q.rows);
    var v := a.sub(vertical.high, a.mul(a.ofNat(row), dv));
    for column := 0 to q.columns
      invariant FilledUpTo(a, basis, coefficients, q, field[..], valid[..], row * q.columns + column)
    {
      var u := a.add(horizontal.low, a.mul(a.ofNat(column), du));
      var place := match q.direction
        case SliceX => Triple(q.coordinate, u, v)
        case SliceY => Triple(u, q.coordinate, v)
        case SliceZ => Triple(u, v, q.coordinate);
      FillPixel(a, basis, coefficients, q, field, valid, row, column, place);
    }
    assert (row + 1) * q.columns == row * q.columns + q.columns;
  }

  /** The whole raster, unless a stop request is seen before some row. */
  method FillRaster<T(0)>(a: Arith<T>, basis: seq<BasisFunction<T>>, coefficients: seq<T>, q: Request<T>,
                          stopRequested: nat -> bool)
    returns (result: Result<FieldSlice<T>, SliceError>)
    requires ThreeFunctions(basis) && q.columns >= 2 && q.rows >= 2
    ensures result == Err(Cancelled) <==> exists row :: 0 <= row < q.rows && stopRequested(row)
    ensures result.Err? ==> result.error == Cancelled
    ensures result.Ok? ==> ShowsRequest(a, basis, coefficients, q, result.value)
  {
    var horizontal, vertical := HorizontalBounds(a, q), VerticalBounds(a, q);
    var pixelCount := q.columns * q.rows;
    assert pixelCount == q.rows * q.columns;
    var field := new T[pixelCount * DIMENSION](_ => a.zero);
    var valid := new bool[pixelCount](_ => false);
    BlankRaster(a, basis, coefficients, q, field[..], valid[..]);
    var finished := FillRows(a, basis, coefficients, q, horizontal, vertical, field, valid, stopRequested);
    if !finished {
      return Err(Cancelled);
    }
    result := Ok(FieldSlice(horizontal, vertical, field[..], valid[..]));
    ShowsAll(a, basis, coefficients, q, result.value);
  }

  method FillRows<T>(a: Arith<T>, basis: seq<BasisFunction<T>>, coefficients: seq<T>, q: Request<T>,
                     horizontal: Bounds<T>, vertical: Bounds<T>, field: array<T>, valid: array<bool>,
                     stopRequested: nat -> bool)
    returns (finished: bool)
    requires ThreeFunctions(basis) && q.columns >= 2 && q.rows >= 2
    requires horizontal == HorizontalBounds(a, q) && vertical == VerticalBounds(a, q)
    requires valid.Length == q.rows * q.columns && field.Length == 3 * valid.Length
    requires FilledUpTo(a, basis, coefficients, q, field[..], valid[..], 0)
    modifies field, valid
    ensures finished <==> forall row :: 0 <= row < q.rows ==> !stopRequested(row)
    ensures finished ==> FilledUpTo(a, basis, coefficients, q, field[..], valid[..], q.rows * q.columns)
  {
    for row := 0 to q.rows
      invariant forall r :: 0 <= r < row ==> !stopRequested(r)
      invariant FilledUpTo(a, basis, coefficients, q, field[..], valid[..], row * q.columns)
    {
      if stopRequested(row) {
        return false;
      }
      FillRow(a, basis, coefficients, q, horizontal, vertical, field, valid, row);
    }
    finished := true;
  }

  lemma BlankRaster<T>(a: Arith<T>, basis: seq<BasisFunction<T>>, coefficients: seq<T>, q: Request<T>, field: seq<T>,
                       valid: seq<bool>)
    requires ThreeFunctions(basis) && q.columns > 0 && q.rows > 0
    requires |field| == 3 * |valid|
    requires (forall k :: 0 <= k < |field| ==> field[k] == a.zero) && (forall k :: 0 <= k < |valid| ==> !valid[k])
    ensures FilledUpTo(a, basis, coefficients, q, field, valid, 0)
  {
  }

  /** The slice is complete: one pixel per raster point, each as asked for. */
  ghost predicate ShowsRequest<T>(a: Arith<T>, basis: seq<BasisFunction<T>>, coefficients: seq<T>, q: Request<T>,
                                  slice: FieldSlice<T>)
    requires ThreeFunctions(basis) && q.columns > 0 && q.rows > 0
  {
    && slice.horizontal == HorizontalBounds(a, q) && slice.vertical == VerticalBounds(a, q)
    && |slice.valid| == q.columns * q.rows && |slice.field| == 3 * |slice.valid|
    && forall row, column :: 0 <= row < q.rows && 0 <= column < q.columns ==>
         PixelShows(a, basis, coefficients, q, slice.field, slice.valid, row, column)
  }

  lemma ShowsAll<T>(a: Arith<T>, basis: seq<BasisFunction<T>>, coefficients: seq<T>, q: Request<T>,
                    slice: FieldSlice<T>)
    requires ThreeFunctions(basis) && q.columns > 0 && q.rows > 0
    requires slice.horizontal == HorizontalBounds(a, q) && slice.vertical == VerticalBounds(a, q)
    requires |slice.valid| == q.columns * q.rows && |slice.field| == 3 * |slice.valid|
    requires FilledUpTo(a, basis, coefficients, q, slice.field, slice.valid, q.rows * q.columns)
    ensures ShowsRequest(a, basis, coefficients, q, slice)
  {
    forall row, column | 0 <= row < q.rows && 0 <= column < q.columns
      ensures PixelShows(a, basis, coefficients, q, slice.field, slice.valid, row, column)
    {
      PositionInRange(q.columns, q.rows, row, column);
    }
  }

  // ----- The whole operation -----

  predicate OutsideCylinder<T>(a: Arith<T>, q: Request<T>) {
    if q.direction == SliceZ then a.less(a.half(q.length), a.abs(q.coordinate))
    else a.less(q.radius, a.abs(q.coordinate))
  }

  /** The first of the checks that fails, if any; `calculated` says whether there are coefficients. */
  function Rejection<T>(a: Arith<T>, q: Request<T>, calculated: bool): (error: Result<(), SliceError>) {
    if q.columns < 2 || q.rows < 2 then Err(GridTooSmall)
    else if a.atMost(q.radius, a.zero) || a.atMost(q.length, a.zero) then Err(NotPositive)
    else if OutsideCylinder(a, q) then Err(OutsideGeometry)
    else if !calculated then Err(NotCalculated)
    else if q.columns * q.rows * 3 > SIZE_MAX then Err(GridTooLarge)
    else Ok(())
  }

  /** `evaluate_field_slice`. The stop requests seen at the start of each row are a parameter. */
  method EvaluateFieldSlice<T(0)>(a: Arith<T>, basis: seq<BasisFunction<T>>, modes: nat, coefficients: seq<T>,
                                  q: Request<T>, stopRequested: nat -> bool)
    returns (result: Result<FieldSlice<T>, SliceError>)
    requires |coefficients| == modes ==> ThreeFunctions(basis)
    ensures Rejection(a, q, |coefficients| == modes).Err?
       ==> result == Err(Rejection(a, q, |coefficients| == modes).error)
    ensures Rejection(a, q, |coefficients| == modes).Ok? ==>
              && (result == Err(Cancelled) <==> exists row :: 0 <= row < q.rows && stopRequested(row))
              && (result.Err? ==> result.error == Cancelled)
              && (result.Ok? ==> ShowsRequest(a, basis, coefficients, q, result.value))
  {
    if q.columns < 2 || q.rows < 2 {
      return Err(GridTooSmall);
    }
    if a.atMost(q.radius, a.zero) || a.atMost(q.length, a.zero) {
      return Err(NotPositive);
    }
    var halfLength := a.half(q.length);
    if (q.direction == SliceZ && a.less(halfLength, a.abs(q.coordinate)))
       || (q.direction != SliceZ && a.less(q.radius, a.abs(q.coordinate)))
    {
      return Err(OutsideGeometry);
    }
    if |coefficients| != modes {
      return Err(NotCalculated);
    }
    QuotientGuards(q.columns, q.rows, DIMENSION, SIZE_MAX);
    if q.columns > SIZE_MAX / q.rows {
      return Err(GridTooLarge);
    }
    var pixelCount := q.columns * q.rows;
    if pixelCount > SIZE_MAX / DIMENSION {
      return Err(GridTooLarge);
    }
    result := FillRaster(a, basis, coefficients, q, stopRequested);
  }

  /** Slices of the same coefficients through the same cylinder agree, mark and vector, wherever they
      share a place. */
  lemma SlicesAgree<T>(a: Arith<T>, basis: seq<BasisFunction<T>>, coefficients: seq<T>, q: Request<T>, s: FieldSlice<T>,
                       q': Request<T>, s': FieldSlice<T>, row: nat, column: nat, row': nat, column': nat)
    requires ThreeFunctions(basis) && q.radius == q'.radius
    requires q.columns > 0 && q.rows > 0 && q'.columns > 0 && q'.rows > 0
    requires ShowsRequest(a, basis, coefficients, q, s) && ShowsRequest(a, basis, coefficients, q', s')
    requires row < q.rows && column < q.columns && row' < q'.rows && column' < q'.columns
    requires PixelPlace(a, q, row, column) == PixelPlace(a, q', row', column')
    ensures var p, p' := Position(q.columns, row, column), Position(q'.columns, row', column');
            && p < |s.valid| && p' < |s'.valid| && 3 * p + 2 < |s.field| && 3 * p' + 2 < |s'.field|
            && s.valid[p] == s'.valid[p'] && TripleAt(s.field, p) == TripleAt(s'.field, p')
  {
    assert PixelShows(a, basis, coefficients, q, s.field, s.valid, row, column);
    assert PixelShows(a, basis, coefficients, q', s'.field, s'.valid, row', column');
  }
}
