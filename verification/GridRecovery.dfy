/** The exporter undoes the generator: from the flat buffer of a generated grid it recovers the layers and
    the non-empty rows of the lattice, exactly when its tolerance can tell them apart. */
module GridRecovery {
  import opened Numeric
  import opened Arithmetic
  import opened Geometry
  import opened Indexing
  import opened Walk
  import opened LayerMesh
  import opened GridLattice
  import opened GridKernel
  import opened VtkExporter

  // ----- One point -----

  /** What the exporter makes of a grid point: the point itself, except that a point within epsilon of
      the axis moves onto the positive x axis. */
  ghost function Recovered(m: Trig, p: Point): Point {
    CartesianPoint(m, m.hypot(p.x, p.y), GridAzimuth(m, p.x, p.y), p.z)
  }

  ghost predicate NearAxis(m: Trig, p: Point) {
    m.hypot(p.x, p.y) < EPSILON
  }

  lemma RecoveredIs(m: Trig, p: Point)
    requires Lawful(m)
    ensures Recovered(m, p).z == p.z
    ensures !NearAxis(m, p) ==> Recovered(m, p) == p
    ensures NearAxis(m, p) ==> Recovered(m, p) == Point(m.hypot(p.x, p.y), 0.0, p.z)
  {
    assert Polar(m, p.x, p.y);
    TimesIs(m.hypot(p.x, p.y), 1.0);
    TimesIs(m.hypot(p.x, p.y), 0.0);
  }

  /** The coordinates never exceed the distance from the axis. */
  lemma HypotBounds(m: Trig, x: real, y: real)
    requires Lawful(m)
    ensures Abs(x) <= m.hypot(x, y) && Abs(y) <= m.hypot(x, y)
  {
    var h := m.hypot(x, y);
    assert IsDistance(m, x, y);
    SquareSign(x);
    SquareSign(y);
    TimesIs(x, x);
    TimesIs(y, y);
    TimesIs(h, h);
    if h > 0.0 {
      SquareOrder(x, h);
      SquareOrder(y, h);
    } else {
      assert h * h == 0.0;
    }
  }

  lemma SquareSign(x: real)
    ensures Times(x, x) >= 0.0 && (x != 0.0 ==> Times(x, x) > 0.0)
  {
    if x == 0.0 {
      TimesIs(x, x);
    } else {
      TimesSign(x, x);
    }
  }

  lemma RecoveredClose(m: Trig, p: Point)
    requires Lawful(m)
    ensures Abs(Recovered(m, p).y - p.y) < EPSILON
    ensures Abs(Recovered(m, p).y) <= Abs(p.y)
  {
    RecoveredIs(m, p);
    HypotBounds(m, p.x, p.y);
  }

  // ----- The buffer -----

  ghost function GeneratedPoints(m: Trig, g: Grid): seq<Point>
    requires ValidGrid(g) && StepY(m, g) > 0.0
  {
    CartesianPoints(m, Buffer(m, GridPoints(m, g, g.zCount)))
  }

  lemma GeneratedPointAt(m: Trig, g: Grid, i: nat)
    requires ValidGrid(g) && StepY(m, g) > 0.0 && i < |GridPoints(m, g, g.zCount)|
    ensures |GeneratedPoints(m, g)| == |GridPoints(m, g, g.zCount)|
    ensures GeneratedPoints(m, g)[i] == Recovered(m, GridPoints(m, g, g.zCount)[i])
  {
    BufferAt(m, GridPoints(m, g, g.zCount), i);
  }

  // ----- Layers -----

  lemma {:induction false} RowPointsShiftZ(m: Trig, g: Grid, row: nat, columns: nat, z: real, w: real)
    requires ValidGrid(g)
    ensures var a, b := RowPoints(m, g, row, columns, z), RowPoints(m, g, row, columns, w);
            |a| == |b| && forall k :: 0 <= k < |a| ==> a[k].z == z && b[k] == Point(a[k].x, a[k].y, w)
  {
    if columns > 0 {
      RowPointsShiftZ(m, g, row, columns - 1, z, w);
    }
  }

  /** Every layer has the same list of x and y. */
  lemma {:induction false} LayerPointsShiftZ(m: Trig, g: Grid, rows: nat, z: real, w: real)
    requires ValidGrid(g)
    ensures var a, b := LayerPoints(m, g, rows, z), LayerPoints(m, g, rows, w);
            |a| == |b| && forall k :: 0 <= k < |a| ==> a[k].z == z && b[k] == Point(a[k].x, a[k].y, w)
  {
    if rows > 0 {
      LayerPointsShiftZ(m, g, rows - 1, z, w);
      RowPointsShiftZ(m, g, rows - 1, ColumnCount(g), z, w);
    }
  }

  /** The first layer, before it goes through the buffer. */
  ghost function FirstLayer(m: Trig, g: Grid): seq<Point>
    requires ValidGrid(g) && StepY(m, g) > 0.0
  {
    WholeLayer(m, g, Z(g, 0))
  }

  /** The exporter gets every lattice point of the layer back exactly. */
  ghost predicate Unmoved(m: Trig, g: Grid)
    requires ValidGrid(g) && StepY(m, g) > 0.0
  {
    forall k :: 0 <= k < |FirstLayer(m, g)| ==> Recovered(m, FirstLayer(m, g)[k]) == FirstLayer(m, g)[k]
  }

  lemma {:induction false} GridPointAt(m: Trig, g: Grid, layers: nat, layer: nat, k: nat)
    requires ValidGrid(g) && StepY(m, g) > 0.0 && layer < layers && k < |FirstLayer(m, g)|
    ensures var n, p := |FirstLayer(m, g)|, FirstLayer(m, g)[k];
            && |GridPoints(m, g, layers)| == layers * n
            && layer * n + k < layers * n
            && GridPoints(m, g, layers)[layer * n + k] == Point(p.x, p.y, Z(g, layer))
  {
    var n := |FirstLayer(m, g)|;
    PositionInRange(n, layers, layer, k);
    LayerPointsShiftZ(m, g, VisitedRows(m, g), Z(g, 0), Z(g, layers - 1));
    assert |WholeLayer(m, g, Z(g, layers - 1))| == n;
    assert layers * n == (layers - 1) * n + n;
    if layers > 1 {
      GridPointAt(m, g, layers - 1, if layer < layers - 1 then layer else 0, k);
      if layer < layers - 1 {
        PositionInRange(n, layers - 1, layer, k);
      }
    }
  }

  /** The recovered point k of layer `layer`: x and y do not depend on the layer. */
  lemma PointOfLayer(m: Trig, g: Grid, layer: nat, k: nat)
    requires Lawful(m) && ValidGrid(g) && StepY(m, g) > 0.0 && layer < g.zCount && k < |FirstLayer(m, g)|
    ensures var n, q := |FirstLayer(m, g)|, Recovered(m, FirstLayer(m, g)[k]);
            && |GeneratedPoints(m, g)| == g.zCount * n
            && layer * n + k < g.zCount * n
            && GeneratedPoints(m, g)[layer * n + k] == Point(q.x, q.y, Z(g, layer))
  {
    var n, p := |FirstLayer(m, g)|, FirstLayer(m, g)[k];
    GridPointAt(m, g, g.zCount, layer, k);
    GeneratedPointAt(m, g, layer * n + k);
    RecoveredIs(m, p);
    RecoveredIs(m, Point(p.x, p.y, Z(g, layer)));
  }

  lemma SameIsApproximate(x: real)
    ensures ApproximatelyEqual(x, x)
  {
  }

  lemma GeneratedPointAgrees(m: Trig, g: Grid, layer: nat, point: nat)
    requires Lawful(m) && ValidGrid(g) && StepY(m, g) > 0.0 && layer < g.zCount && point < |FirstLayer(m, g)|
    ensures layer * |FirstLayer(m, g)| + point < |GeneratedPoints(m, g)|
    ensures PointAgrees(GeneratedPoints(m, g), |FirstLayer(m, g)|, layer, point)
  {
    PointOfLayer(m, g, layer, point);
    PointOfLayer(m, g, layer, 0);
    PointOfLayer(m, g, 0, point);
    AtLeastOne(g.zCount, |FirstLayer(m, g)|);
    AgreesWhenCopied(GeneratedPoints(m, g), |FirstLayer(m, g)|, layer, point);
  }

  lemma AgreesWhenCopied(points: seq<Point>, size: nat, layer: nat, point: nat)
    requires point < size && layer * size + point < |points|
    requires points[layer * size + point] == Point(points[point].x, points[point].y, points[layer * size].z)
    ensures PointAgrees(points, size, layer, point)
  {
    SameIsApproximate(points[layer * size].z);
    SameIsApproximate(points[point].x);
    SameIsApproximate(points[point].y);
  }

  lemma GeneratedLayerAgrees(m: Trig, g: Grid, layer: nat)
    requires Lawful(m) && ValidGrid(g) && StepY(m, g) > 0.0 && layer < g.zCount
    requires |GeneratedPoints(m, g)| == g.zCount * |FirstLayer(m, g)|
    ensures LayerAgrees(GeneratedPoints(m, g), |FirstLayer(m, g)|, g.zCount, layer)
  {
    forall point | 0 <= point < |FirstLayer(m, g)|
      ensures layer * |FirstLayer(m, g)| + point < |GeneratedPoints(m, g)|
      ensures PointAgrees(GeneratedPoints(m, g), |FirstLayer(m, g)|, layer, point)
    {
      GeneratedPointAgrees(m, g, layer, point);
    }
  }

  /** All layers of a generated grid agree. */
  lemma GeneratedLayersAgree(m: Trig, g: Grid)
    requires Lawful(m) && ValidGrid(g) && StepY(m, g) > 0.0 && |FirstLayer(m, g)| > 0
    ensures |GeneratedPoints(m, g)| == g.zCount * |FirstLayer(m, g)|
    ensures LayersAgree(GeneratedPoints(m, g), |FirstLayer(m, g)|, g.zCount)
  {
    PointOfLayer(m, g, 0, 0);
    forall layer | 0 <= layer < g.zCount
      ensures LayerAgrees(GeneratedPoints(m, g), |FirstLayer(m, g)|, g.zCount, layer)
    {
      GeneratedLayerAgrees(m, g, layer);
    }
  }

  /** The z of every point of the first layer, and of the first point of the second. */
  lemma GeneratedZ(m: Trig, g: Grid, k: nat)
    requires Lawful(m) && ValidGrid(g) && StepY(m, g) > 0.0 && |FirstLayer(m, g)| > 0 && k <= |FirstLayer(m, g)|
    ensures |FirstLayer(m, g)| < |GeneratedPoints(m, g)|
    ensures GeneratedPoints(m, g)[k].z == Z(g, if k < |FirstLayer(m, g)| then 0 else 1)
  {
    AtLeastOne(g.zCount, |FirstLayer(m, g)|);
    PointOfLayer(m, g, 1, 0);
    if k < |FirstLayer(m, g)| {
      PointOfLayer(m, g, 0, k);
    }
  }

  /** The exporter finds the generator's layer size exactly when it can tell the first two layers apart. */
  lemma LayerSizeRecovered(m: Trig, g: Grid)
    requires Lawful(m) && ValidGrid(g) && StepY(m, g) > 0.0 && |FirstLayer(m, g)| > 0
    ensures GeneratedPoints(m, g) != []
    ensures LayerSize(GeneratedPoints(m, g)) == |FirstLayer(m, g)| <==> !ApproximatelyEqual(Z(g, 1), Z(g, 0))
  {
    var points, n := GeneratedPoints(m, g), |FirstLayer(m, g)|;
    GeneratedZ(m, g, 0);
    GeneratedZ(m, g, n);
    SameIsApproximate(Z(g, 0));
    if !ApproximatelyEqual(Z(g, 1), Z(g, 0)) {
      forall k | 1 <= k < n
        ensures SameZ(points, k, 0)
      {
        GeneratedZ(m, g, k);
      }
      LayerSizeIs(points, n, 1);
    } else {
      assert SameZ(points, n, 0);
    }
  }

  // ----- Rows -----

  ghost function RowStart(m: Trig, g: Grid, row: nat): nat
    requires ValidGrid(g)
  {
    |LayerPoints(m, g, row, Z(g, 0))|
  }

  /** The non-empty rows among the first `rows` lattice rows. */
  ghost function LatticeRows(m: Trig, g: Grid, rows: nat): seq<Row>
    requires ValidGrid(g)
  {
    if rows == 0 then []
    else
      var begin, end := RowStart(m, g, rows - 1), RowStart(m, g, rows);
      LatticeRows(m, g, rows - 1) + (if begin < end then [Row(begin, end)] else [])
  }

  /** The lattice row numbers of those rows. */
  ghost function RowNumbers(m: Trig, g: Grid, rows: nat): (numbers: seq<nat>)
    requires ValidGrid(g)
    ensures |numbers| == |LatticeRows(m, g, rows)|
  {
    if rows == 0 then []
    else
      RowNumbers(m, g, rows - 1) + (if RowStart(m, g, rows - 1) < RowStart(m, g, rows) then [rows - 1] else [])
  }

  lemma RowStartNext(m: Trig, g: Grid, row: nat)
    requires ValidGrid(g)
    ensures RowStart(m, g, row + 1) == RowStart(m, g, row) + |RowPoints(m, g, row, ColumnCount(g), Z(g, 0))|
  {
  }

  /** The rows follow each other from 0 to `end`. */
  ghost predicate RowsFillUpTo(rows: seq<Row>, end: nat) {
    && Contiguous(rows)
    && (rows == [] <==> end == 0)
    && (rows != [] ==> rows[0].begin == 0 && rows[|rows| - 1].end == end)
  }

  lemma FillFurther(rows: seq<Row>, begin: nat, end: nat)
    requires RowsFillUpTo(rows, begin) && begin <= end
    ensures RowsFillUpTo(rows + (if begin < end then [Row(begin, end)] else []), end)
  {
    if begin < end {
      AppendRow(rows, Row(begin, end));
    } else {
      assert rows + [] == rows;
    }
  }

  lemma {:induction false} LatticeRowsFollow(m: Trig, g: Grid, rows: nat)
    requires ValidGrid(g)
    ensures RowsFillUpTo(LatticeRows(m, g, rows), RowStart(m, g, rows))
  {
    if rows > 0 {
      LatticeRowsFollow(m, g, rows - 1);
      RowStartNext(m, g, rows - 1);
      FillFurther(LatticeRows(m, g, rows - 1), RowStart(m, g, rows - 1), RowStart(m, g, rows));
    }
  }

  /** Row r of the list is lattice row number r of the numbers. */
  lemma {:induction false} LatticeRowAt(m: Trig, g: Grid, rows: nat, r: nat)
    requires ValidGrid(g) && r < |LatticeRows(m, g, rows)|
    ensures var number := RowNumbers(m, g, rows)[r];
            number < rows && LatticeRows(m, g, rows)[r] == Row(RowStart(m, g, number), RowStart(m, g, number + 1))
  {
    if r < |LatticeRows(m, g, rows - 1)| {
      LatticeRowAt(m, g, rows - 1, r);
    }
  }

  lemma {:induction false} RowNumbersIncrease(m: Trig, g: Grid, rows: nat, r: nat, s: nat)
    requires ValidGrid(g) && r < s < |RowNumbers(m, g, rows)|
    ensures RowNumbers(m, g, rows)[r] < RowNumbers(m, g, rows)[s]
  {
    if s < |RowNumbers(m, g, rows - 1)| {
      RowNumbersIncrease(m, g, rows - 1, r, s);
    } else {
      LatticeRowAt(m, g, rows - 1, r);
    }
  }

  lemma AppendRow(rows: seq<Row>, row: Row)
    requires Contiguous(rows) && row.begin < row.end && (rows != [] ==> rows[|rows| - 1].end == row.begin)
    ensures Contiguous(rows + [row])
  {
    var all := rows + [row];
    forall r | 0 <= r < |all| - 1
      ensures Follows(all, r)
    {
      assert r < |rows| - 1 ==> Follows(rows, r);
    }
  }

  /** Every non-empty lattice row is in the list. */
  lemma {:induction false} RowIsListed(m: Trig, g: Grid, rows: nat, row: nat) returns (r: nat)
    requires ValidGrid(g) && row < rows && RowStart(m, g, row) < RowStart(m, g, row + 1)
    ensures r < |LatticeRows(m, g, rows)| && RowNumbers(m, g, rows)[r] == row
  {
    var before := RowNumbers(m, g, rows - 1);
    if row == rows - 1 {
      r := |before|;
      assert RowNumbers(m, g, rows) == before + [row];
    } else {
      r := RowIsListed(m, g, rows - 1, row);
      assert RowNumbers(m, g, rows)[r] == before[r];
    }
  }

  /** Where the points of a lattice row stand in the layer. */
  lemma {:induction false} RowBlock(m: Trig, g: Grid, rows: nat, row: nat, k: nat)
    requires ValidGrid(g) && row < rows && RowStart(m, g, row) <= k < RowStart(m, g, row + 1)
    ensures k < RowStart(m, g, rows)
    ensures LayerPoints(m, g, rows, Z(g, 0))[k]
         == RowPoints(m, g, row, ColumnCount(g), Z(g, 0))[k - RowStart(m, g, row)]
  {
    if row < rows - 1 {
      RowBlock(m, g, rows - 1, row, k);
    }
  }

  /** Point k of a lattice row: it is a visible lattice point of that row. */
  lemma PointOfRow(m: Trig, g: Grid, row: nat, k: nat) returns (column: nat)
    requires Lawful(m) && ValidGrid(g) && StepY(m, g) > 0.0 && row < RowCount(m, g)
    requires RowStart(m, g, row) <= k < RowStart(m, g, row + 1)
    ensures k < |FirstLayer(m, g)| && column < ColumnCount(g) && Visible(m, g, row, column)
    ensures FirstLayer(m, g)[k] == LatticePoint(m, g, row, column, Z(g, 0))
  {
    RowBlock(m, g, RowCount(m, g), row, k);
    RowPointsExact(m, g, row, ColumnCount(g), Z(g, 0), FirstLayer(m, g)[k]);
    column :| 0 <= column < ColumnCount(g) && Visible(m, g, row, column)
      && FirstLayer(m, g)[k] == LatticePoint(m, g, row, column, Z(g, 0));
  }

  /** All points of a lattice row come out with a y that the exporter compares equal. */
  lemma RowComparesEqual(m: Trig, g: Grid, row: nat, k: nat, l: nat)
    requires Lawful(m) && ValidGrid(g) && StepY(m, g) > 0.0 && row < RowCount(m, g)
    requires RowStart(m, g, row) <= k < RowStart(m, g, row + 1) && RowStart(m, g, row) <= l < RowStart(m, g, row + 1)
    ensures k < |FirstLayer(m, g)| && l < |FirstLayer(m, g)|
    ensures ApproximatelyEqual(Recovered(m, FirstLayer(m, g)[k]).y, Recovered(m, FirstLayer(m, g)[l]).y)
  {
    var i := PointOfRow(m, g, row, k);
    var j := PointOfRow(m, g, row, l);
    RecoveredIs(m, FirstLayer(m, g)[k]);
    RecoveredIs(m, FirstLayer(m, g)[l]);
    RecoveredClose(m, FirstLayer(m, g)[k]);
    RecoveredClose(m, FirstLayer(m, g)[l]);
    CloseIsApproximate(Recovered(m, FirstLayer(m, g)[k]).y, Recovered(m, FirstLayer(m, g)[l]).y);
  }

  lemma CloseIsApproximate(a: real, b: real)
    requires Abs(a - b) <= TOLERANCE
    ensures ApproximatelyEqual(a, b)
  {
  }

  ghost function AllRows(m: Trig, g: Grid): seq<Row>
    requires ValidGrid(g) && StepY(m, g) > 0.0
  {
    LatticeRows(m, g, VisitedRows(m, g))
  }

  /** The first points of consecutive non-empty rows compare different in y. */
  ghost predicate RowsApart(m: Trig, g: Grid)
    requires ValidGrid(g) && StepY(m, g) > 0.0
  {
    StartsApart(GeneratedPoints(m, g), AllRows(m, g))
  }

  ghost predicate StartsApart(points: seq<Point>, rows: seq<Row>) {
    forall r :: 0 <= r < |rows| - 1 ==> StartApart(points, rows, r)
  }

  ghost predicate StartApart(points: seq<Point>, rows: seq<Row>, r: nat)
    requires r + 1 < |rows|
  {
    && rows[r].begin < |points| && rows[r + 1].begin < |points|
    && !SameY(points, rows[r + 1].begin, rows[r].begin)
  }

  ghost predicate LayersApart(g: Grid)
    requires ValidGrid(g)
  {
    !ApproximatelyEqual(Z(g, 1), Z(g, 0))
  }

  lemma GeneratedFirstLayer(m: Trig, g: Grid, k: nat)
    requires Lawful(m) && ValidGrid(g) && StepY(m, g) > 0.0 && k < |FirstLayer(m, g)|
    ensures |FirstLayer(m, g)| <= |GeneratedPoints(m, g)|
    ensures GeneratedPoints(m, g)[k] == Recovered(m, FirstLayer(m, g)[k])
  {
    FirstLayerZ(m, g, k);
    PointOfLayer(m, g, 0, k);
    RecoveredIs(m, FirstLayer(m, g)[k]);
    AtLeastOne(g.zCount, |FirstLayer(m, g)|);
  }

  lemma FirstLayerZ(m: Trig, g: Grid, k: nat)
    requires ValidGrid(g) && StepY(m, g) > 0.0 && k < |FirstLayer(m, g)|
    ensures FirstLayer(m, g)[k].z == Z(g, 0)
  {
    LayerPointsShiftZ(m, g, VisitedRows(m, g), Z(g, 0), Z(g, 0));
  }

  lemma AtLeastOne(count: nat, size: nat)
    requires count > 0
    ensures size <= count * size && 0 * size == 0 && 1 * size == size
  {
  }

  lemma LatticeRowIsRow(m: Trig, g: Grid, r: nat)
    requires Lawful(m) && ValidGrid(g) && StepY(m, g) > 0.0 && r < |AllRows(m, g)| && RowsApart(m, g)
    ensures IsRow(GeneratedPoints(m, g), AllRows(m, g)[r], |FirstLayer(m, g)|)
  {
    var count := VisitedRows(m, g);
    LatticeRowsFollow(m, g, count);
    LatticeRowAt(m, g, count, r);
    var points, rows, n := GeneratedPoints(m, g), AllRows(m, g), |FirstLayer(m, g)|;
    var row, number := rows[r], RowNumbers(m, g, count)[r];
    RowBlock(m, g, count, number, row.end - 1);
    GeneratedFirstLayer(m, g, row.begin);
    forall k | row.begin < k < row.end
      ensures SameY(points, k, row.begin)
    {
      RowComparesEqual(m, g, number, k, row.begin);
      GeneratedFirstLayer(m, g, k);
    }
    if row.end < n {
      RowsEndAtLast(rows, r);
      assert Follows(rows, r) && StartApart(points, rows, r);
    }
  }

  /** Only the last row ends where the layer ends. */
  lemma RowsEndAtLast(rows: seq<Row>, r: nat)
    requires Contiguous(rows) && r < |rows| && rows[r].end != rows[|rows| - 1].end
    ensures r + 1 < |rows|
  {
  }

  /** When the row starts compare different, the lattice rows partition the first layer. */
  lemma LatticeRowsPartition(m: Trig, g: Grid)
    requires Lawful(m) && ValidGrid(g) && StepY(m, g) > 0.0 && |FirstLayer(m, g)| > 0 && RowsApart(m, g)
    ensures IsPartition(GeneratedPoints(m, g), AllRows(m, g), 0, |FirstLayer(m, g)|)
  {
    LatticeRowsFollow(m, g, VisitedRows(m, g));
    GeneratedFirstLayer(m, g, 0);
    forall r | 0 <= r < |AllRows(m, g)|
      ensures IsRow(GeneratedPoints(m, g), AllRows(m, g)[r], |FirstLayer(m, g)|)
    {
      LatticeRowIsRow(m, g, r);
    }
  }

  /** The rows of a partition start at points that compare different. */
  lemma PartitionNeedsApart(points: seq<Point>, rows: seq<Row>, limit: nat)
    requires IsPartition(points, rows, 0, limit)
    ensures StartsApart(points, rows)
  {
    forall r | 0 <= r < |rows| - 1
      ensures StartApart(points, rows, r)
    {
      assert IsRow(points, rows[r], limit) && IsRow(points, rows[r + 1], limit) && Follows(rows, r);
    }
  }

  /** An even row no further out than the disc holds its point on the y axis. */
  lemma AxisPointVisible(m: Trig, g: Grid, row: nat)
    requires Lawful(m) && ValidGrid(g) && row % 2 == 0 && Abs(Y(m, g, row)) <= g.radius
    ensures StepY(m, g) > 0.0 && row < RowCount(m, g) && Visible(m, g, row, g.xCount - 1)
  {
    var y := Y(m, g, row);
    StepXIs(g);
    StepYIs(m, g);
    TimesIs(0.0, 0.0);
    TimesIs(y, y);
    TimesIs(g.radius, g.radius);
    SquareOrder(y, g.radius);
    VisibleIsVisited(m, g, row, g.xCount - 1);
  }

  /** Rows 0 and 2 are such rows on any grid. */
  lemma LowRowVisible(m: Trig, g: Grid, row: nat)
    requires Lawful(m) && ValidGrid(g) && (row == 0 || row == 2)
    ensures StepY(m, g) > 0.0 && row < RowCount(m, g) && Visible(m, g, row, g.xCount - 1)
  {
    StepYIs(m, g);
    TimesIs(row as real, StepY(m, g));
    AxisPointVisible(m, g, row);
  }

  lemma VisibleRowNotEmpty(m: Trig, g: Grid, row: nat, column: nat)
    requires ValidGrid(g) && column < ColumnCount(g) && Visible(m, g, row, column)
    ensures RowStart(m, g, row) < RowStart(m, g, row + 1)
  {
    RowPointsExact(m, g, row, ColumnCount(g), Z(g, 0), LatticePoint(m, g, row, column, Z(g, 0)));
    RowStartNext(m, g, row);
  }

  lemma TwoRowsNotEmpty(m: Trig, g: Grid)
    requires Lawful(m) && ValidGrid(g)
    ensures StepY(m, g) > 0.0 && |AllRows(m, g)| >= 2 && |FirstLayer(m, g)| > 0
  {
    var r := LowRowIsListed(m, g, 0);
    var s := LowRowIsListed(m, g, 2);
    assert r != s;
    LatticeRowsFollow(m, g, VisitedRows(m, g));
  }

  lemma LowRowIsListed(m: Trig, g: Grid, row: nat) returns (r: nat)
    requires Lawful(m) && ValidGrid(g) && (row == 0 || row == 2)
    ensures StepY(m, g) > 0.0 && r < |AllRows(m, g)| && RowNumbers(m, g, VisitedRows(m, g))[r] == row
  {
    LowRowVisible(m, g, row);
    VisibleRowNotEmpty(m, g, row, g.xCount - 1);
    r := RowIsListed(m, g, VisitedRows(m, g), row);
  }

  // ----- The recovery theorem -----

  ghost function GeneratedTopology(m: Trig, g: Grid): Topology
    requires ValidGrid(g) && StepY(m, g) > 0.0
  {
    Topology(|FirstLayer(m, g)|, g.zCount, AllRows(m, g))
  }

  lemma WholeLayers(layers: nat, size: nat)
    requires layers >= 2 && size > 0
    ensures (layers * size) % size == 0 && (layers * size) / size == layers && layers * size > size
  {
    PositionOf(size, layers, 0);
  }

  /** For every grid with at least two points in each direction, positive radius and positive depth, the
      exporter recovers exactly the generator's layer size, layer count and non-empty rows (and hence
      reports none of its topology errors) precisely when its comparison tells the first two layers and
      the starts of consecutive non-empty rows apart. */
  lemma ExporterUndoesGenerator(m: Trig, g: Grid)
    requires Lawful(m) && ValidGrid(g)
    ensures StepY(m, g) > 0.0 && GeneratedPoints(m, g) != []
    ensures TopologyOf(GeneratedPoints(m, g)) == Ok(GeneratedTopology(m, g)) <==> LayersApart(g) && RowsApart(m, g)
  {
    TwoRowsNotEmpty(m, g);
    GeneratedLayersAgree(m, g);
    LayerSizeRecovered(m, g);
    var points, n := GeneratedPoints(m, g), |FirstLayer(m, g)|;
    WholeLayers(g.zCount, n);
    if LayersApart(g) && RowsApart(m, g) {
      LatticeRowsPartition(m, g);
      PartitionIsUnique(points, AllRows(m, g), 0, n);
    }
    if TopologyOf(points) == Ok(GeneratedTopology(m, g)) {
      PartitionNeedsApart(points, AllRows(m, g), n);
      assert LayerSize(points) == n;
    }
  }
}
