/** `calculate_grid_kernel`: enumerate the clipped lattice twice, first counting and then appending each
    point in cylindrical coordinates to the flat coordinate buffer. */
module GridKernel {
  import opened Numeric
  import opened Arithmetic
  import opened Geometry
  import opened GridLattice
  import opened FieldStore

  datatype GridError = DimensionsTooSmall | NotPositive | TooLarge

  /** The points in the order in which the nested loops hand them to their visitor. */
  method VisitGridPoints(m: Trig, g: Grid) returns (visited: seq<Point>)
    requires Lawful(m) && ValidGrid(g)
    ensures StepY(m, g) > 0.0 && visited == GridPoints(m, g, g.zCount)
  {
    StepYIs(m, g);
    var stepX := g.radius / (g.xCount - 1) as real;
    var stepY := g.radius / (g.yCount - 1) as real * m.sqrt(3.0) * 0.5;
    var dz := g.depth / (g.zCount - 1) as real;
    LatticeInPlainArithmetic(m, g, 0, 0, 0, 0.0, 0.0);
    visited := [];
    for iz := 0 to g.zCount
      invariant visited == GridPoints(m, g, iz)
    {
      var z := -g.depth * 0.5 + iz as real * dz;
      TimesIs(iz as real, dz);
      assert z == Z(g, iz);
      visited := VisitLayer(m, g, z, stepX, stepY, visited);
    }
  }

  method VisitLayer(m: Trig, g: Grid, z: real, stepX: real, stepY: real, before: seq<Point>)
    returns (visited: seq<Point>)
    requires Lawful(m) && ValidGrid(g) && stepX == StepX(g) && stepY == StepY(m, g) && stepY > 0.0
    ensures visited == before + WholeLayer(m, g, z)
  {
    visited := before;
    var row := 0;
    var y := -g.radius;
    TimesNext(0, stepY);
    RowGuard(m, g, 0);
    RowCountPositive(m, g);
    while y <= g.radius + stepY * 0.5
      invariant 0 <= row <= RowCount(m, g) && y == Y(m, g, row)
      invariant y <= g.radius + stepY * 0.5 <==> row < RowCount(m, g)
      invariant visited == before + LayerPoints(m, g, row, z)
      decreases RowCount(m, g) - row
    {
      visited := VisitRow(m, g, z, row, y, stepX, visited);
      TimesNext(row, stepY);
      RowGuard(m, g, row + 1);
      y := y + stepY;
      row := row + 1;
    }
  }

  lemma RowCountPositive(m: Trig, g: Grid)
    requires ValidGrid(g) && StepY(m, g) > 0.0
    ensures RowCount(m, g) > 0
  {
    TimesNext(0, StepY(m, g));
    RowGuard(m, g, 0);
  }

  method VisitRow(m: Trig, g: Grid, z: real, row: nat, y: real, stepX: real, before: seq<Point>)
    returns (visited: seq<Point>)
    requires ValidGrid(g) && stepX == StepX(g) && y == Y(m, g, row)
    ensures visited == before + RowPoints(m, g, row, ColumnCount(g), z)
  {
    visited := before;
    var xOffset := if row % 2 == 0 then 0.0 else stepX * 0.5;
    var radiusSquared := g.radius * g.radius;
    var x := -g.radius + xOffset;
    ghost var column := 0;
    StepXIs(g);
    TimesNext(0, stepX);
    ColumnGuard(g, row, 0);
    while x <= g.radius + stepX * 0.5
      invariant 0 <= column <= ColumnCount(g) && x == X(g, row, column)
      invariant x <= g.radius + stepX * 0.5 <==> column < ColumnCount(g)
      invariant visited == before + RowPoints(m, g, row, column, z)
      decreases ColumnCount(g) - column
    {
      DiscTest(g, x, y);
      if x * x + y * y <= radiusSquared {
        visited := visited + [Point(x, y, z)];
      }
      TimesNext(column, stepX);
      ColumnGuard(g, row, column + 1);
      x := x + stepX;
      column := column + 1;
    }
  }

  lemma DiscTest(g: Grid, x: real, y: real)
    ensures x * x + y * y <= g.radius * g.radius <==> InDisc(g, x, y)
  {
    TimesIs(x, x);
    TimesIs(y, y);
    TimesIs(g.radius, g.radius);
  }

  // ----- The coordinate buffer -----

  /** The azimuth stored for (x, y): zero within epsilon of the axis. */
  function GridAzimuth(m: Trig, x: real, y: real): real {
    if m.hypot(x, y) < EPSILON then 0.0 else m.atan2(y, x)
  }

  ghost function Buffer(m: Trig, points: seq<Point>): (buffer: seq<real>)
    ensures |buffer| == 3 * |points|
  {
    if points == [] then []
    else
      var p := points[|points| - 1];
      Buffer(m, points[..|points| - 1]) + [m.hypot(p.x, p.y), GridAzimuth(m, p.x, p.y), p.z]
  }

  lemma {:induction false} BufferAt(m: Trig, points: seq<Point>, i: nat)
    requires i < |points|
    ensures var b, p := Buffer(m, points), points[i];
            b[3 * i] == m.hypot(p.x, p.y) && b[3 * i + 1] == GridAzimuth(m, p.x, p.y) && b[3 * i + 2] == p.z
  {
    if i < |points| - 1 {
      BufferAt(m, points[..|points| - 1], i);
    }
  }

  /** The point counter is a `std::size_t`. */
  method CountPoints(visited: seq<Point>) returns (count: nat)
    ensures count == |visited| % (SIZE_MAX + 1)
  {
    count := 0;
    for i := 0 to |visited|
      invariant count == i % (SIZE_MAX + 1)
    {
      count := (count + 1) % (SIZE_MAX + 1);
    }
  }

  method AppendPoints(m: Trig, visited: seq<Point>, collection: FieldCollection<real>)
    requires collection.Valid()
    modifies collection`coordinates
    ensures collection.Valid() && collection.coordinates == old(collection.coordinates) + Buffer(m, visited)
  {
    ghost var before := collection.coordinates;
    assert visited[..0] == [];
    for i := 0 to |visited|
      invariant collection.Valid() && collection.coordinates == before + Buffer(m, visited[..i])
    {
      var r := m.hypot(visited[i].x, visited[i].y);
      var phi := if r < EPSILON then 0.0 else m.atan2(visited[i].y, visited[i].x);
      assert visited[..i + 1][..i] == visited[..i];
      collection.AppendCoordinate(r, phi, visited[i].z);
    }
    assert visited[..|visited|] == visited;
  }

  /** The coordinates of the clipped lattice. */
  ghost function GridCoordinates(m: Trig, g: Grid): seq<real>
    requires ValidGrid(g) && StepY(m, g) > 0.0
  {
    Buffer(m, GridPoints(m, g, g.zCount))
  }

  /** Three values per lattice point are appended to the collection. When the number of points is a
      `std::size_t`, the size error is reported exactly when three times that number is not. */
  method CalculateGridKernel(m: Trig, g: Grid, collection: FieldCollection<real>)
    returns (result: Result<(), GridError>)
    requires Lawful(m) && collection.Valid()
    modifies collection`coordinates
    ensures collection.Valid()
    ensures result.Err? ==> collection.coordinates == old(collection.coordinates)
    ensures result == Err(DimensionsTooSmall) <==> g.xCount < 2 || g.yCount < 2 || g.zCount < 2
    ensures result == Err(NotPositive)
       <==> g.xCount >= 2 && g.yCount >= 2 && g.zCount >= 2 && (g.radius <= 0.0 || g.depth <= 0.0)
    ensures g.xCount >= 2 && g.yCount >= 2 && g.zCount >= 2 && g.radius > 0.0 && g.depth > 0.0 ==>
              && ValidGrid(g) && StepY(m, g) > 0.0
              && (result.Err? ==> result.error == TooLarge)
              && (result.Ok? ==> collection.coordinates == old(collection.coordinates) + GridCoordinates(m, g))
              && var points := |GridPoints(m, g, g.zCount)|;
              && |GridCoordinates(m, g)| == 3 * points
              && (points <= SIZE_MAX ==> (result.Err? <==> 3 * points > SIZE_MAX))
  {
    if g.xCount < 2 || g.yCount < 2 || g.zCount < 2 {
      return Err(DimensionsTooSmall);
    }
    if g.radius <= 0.0 || g.depth <= 0.0 {
      return Err(NotPositive);
    }
    var visited := VisitGridPoints(m, g);
    var pointCount := CountPoints(visited);
    if pointCount > SIZE_MAX / DIMENSION {
      return Err(TooLarge);
    }
    visited := VisitGridPoints(m, g);
    AppendPoints(m, visited, collection);
    result := Ok(());
  }
}
