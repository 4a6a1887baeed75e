/** The staggered lattice that the grid kernel enumerates, clipped to a disc. */
module GridLattice {
  import opened Numeric
  import opened Arithmetic
  import opened Geometry

  datatype Grid = Grid(xCount: nat, yCount: nat, zCount: nat, radius: real, depth: real)

  predicate ValidGrid(g: Grid) {
    && g.xCount >= 2 && g.yCount >= 2 && g.zCount >= 2
    && g.radius > 0.0 && g.depth > 0.0
  }

  ghost function StepX(g: Grid): real
    requires g.xCount >= 2
  {
    Quotient(g.radius, (g.xCount - 1) as real)
  }

  ghost function StepY(m: Trig, g: Grid): real
    requires g.yCount >= 2
  {
    Times(Quotient(g.radius, (g.yCount - 1) as real), m.sqrt(3.0)) * 0.5
  }

  ghost function StepZ(g: Grid): real
    requires g.zCount >= 2
  {
    Quotient(g.depth, (g.zCount - 1) as real)
  }

  /** Odd rows are shifted by half a step. */
  ghost function Offset(g: Grid, row: int): real
    requires g.xCount >= 2
  {
    if row % 2 == 0 then 0.0 else StepX(g) * 0.5
  }

  // The lattice extends over all integers; the kernel visits only a box of it.

  ghost function X(g: Grid, row: int, column: int): real
    requires g.xCount >= 2
  {
    -g.radius + Offset(g, row) + Times(column as real, StepX(g))
  }

  ghost function Y(m: Trig, g: Grid, row: int): real
    requires g.yCount >= 2
  {
    -g.radius + Times(row as real, StepY(m, g))
  }

  ghost function Z(g: Grid, layer: int): real
    requires g.zCount >= 2
  {
    -g.depth * 0.5 + Times(layer as real, StepZ(g))
  }

  ghost predicate InDisc(g: Grid, x: real, y: real) {
    Times(x, x) + Times(y, y) <= Times(g.radius, g.radius)
  }

  ghost function LatticePoint(m: Trig, g: Grid, row: int, column: int, z: real): Point
    requires ValidGrid(g)
  {
    Point(X(g, row, column), Y(m, g, row), z)
  }

  ghost predicate Visible(m: Trig, g: Grid, row: int, column: int)
    requires ValidGrid(g)
  {
    InDisc(g, X(g, row, column), Y(m, g, row))
  }

  /** Columns visited in every row: the last one is the last not beyond radius plus half a step. */
  function ColumnCount(g: Grid): nat
    requires g.xCount >= 2
  {
    2 * (g.xCount - 1) + 1
  }

  /** Rows visited: as many as fit below radius plus half a step. */
  ghost function RowCount(m: Trig, g: Grid): int
    requires ValidGrid(g) && StepY(m, g) > 0.0
  {
    Quotient(2.0 * g.radius + StepY(m, g) * 0.5, StepY(m, g)).Floor + 1
  }

  ghost function VisitedRows(m: Trig, g: Grid): nat
    requires ValidGrid(g) && StepY(m, g) > 0.0
  {
    if RowCount(m, g) > 0 then RowCount(m, g) else 0
  }

  // ----- Steps -----

  lemma StepXIs(g: Grid)
    requires ValidGrid(g)
    ensures 0.0 < StepX(g) <= g.radius
    ensures Times((g.xCount - 1) as real, StepX(g)) == g.radius
  {
    QuotientBounds(g.radius, (g.xCount - 1) as real);
  }

  lemma QuotientBounds(r: real, b: real)
    requires r > 0.0 && b >= 1.0
    ensures 0.0 < Quotient(r, b) <= r
    ensures Times(b, Quotient(r, b)) == r
  {
    var q := Quotient(r, b);
    QuotientIs(r, b);
    TimesIs(q, b);
    TimesIs(b, q);
    assert q <= 0.0 ==> q * b <= 0.0;
    assert q > 0.0 ==> q * (b - 1.0) >= 0.0;
  }

  lemma RootOfThree(m: Trig)
    requires Lawful(m)
    ensures 1.7 < m.sqrt(3.0) < 1.8
  {
    var s := m.sqrt(3.0);
    RootLaw(m, 3.0);
    assert s <= 1.7 ==> s * s <= 1.7 * s;
    assert s >= 1.8 ==> s * s >= 1.8 * s;
  }

  /** Half the side of a lattice triangle's height sums to the radius times half the root of three. */
  lemma StepYIs(m: Trig, g: Grid)
    requires Lawful(m) && ValidGrid(g)
    ensures 0.0 < StepY(m, g) <= 0.9 * g.radius
    ensures Times((g.yCount - 1) as real, StepY(m, g)) == Times(g.radius, m.sqrt(3.0)) * 0.5
  {
    RootOfThree(m);
    var b, s := (g.yCount - 1) as real, m.sqrt(3.0);
    QuotientBounds(g.radius, b);
    ProductBounds(Quotient(g.radius, b), s, b, g.radius);
  }

  lemma ProductBounds(q: real, s: real, b: real, radius: real)
    requires 0.0 < q <= radius && 1.7 < s < 1.8 && Times(b, q) == radius
    ensures 0.0 < Times(q, s) * 0.5 <= 0.9 * radius
    ensures Times(b, Times(q, s) * 0.5) == Times(radius, s) * 0.5
  {
    var p := Times(q, s) * 0.5;
    TimesIs(q, s);
    TimesIs(b, q);
    TimesIs(b, p);
    TimesIs(radius, s);
    assert q * s <= q * 1.8;
    assert q * s >= q * 1.7;
    assert b * (q * s * 0.5) == (b * q) * s * 0.5;
  }

  lemma StepZIs(g: Grid)
    requires ValidGrid(g)
    ensures 0.0 < StepZ(g) <= g.depth
    ensures Times((g.zCount - 1) as real, StepZ(g)) == g.depth
  {
    QuotientBounds(g.depth, (g.zCount - 1) as real);
  }

  lemma TimesNext(i: int, step: real)
    ensures Times((i + 1) as real, step) == Times(i as real, step) + step
    ensures Times(0.0, step) == 0.0
  {
    TimesIs((i + 1) as real, step);
    TimesIs(i as real, step);
    TimesIs(0.0, step);
  }

  /** Multiples of a positive step are ordered as their factors. */
  lemma TimesOrder(i: int, j: int, step: real)
    requires step > 0.0
    ensures i < j <==> Times(i as real, step) < Times(j as real, step)
    ensures i < j ==> Times(i as real, step) + step <= Times(j as real, step)
  {
    TimesIs(i as real, step);
    TimesIs(j as real, step);
    var d := j as real - i as real;
    assert j as real * step - i as real * step == d * step;
    if i < j {
      assert d >= 1.0;
      Nonnegative(d - 1.0, step);
      assert (d - 1.0) * step == d * step - step;
    } else {
      assert d <= 0.0;
      Nonnegative(-d, step);
      assert (-d) * step == -(d * step);
    }
  }

  lemma Nonnegative(a: real, b: real)
    requires a >= 0.0 && b >= 0.0
    ensures a * b >= 0.0
  {
  }

  /** The lattice in plain arithmetic. */
  lemma LatticeInPlainArithmetic(m: Trig, g: Grid, row: int, column: int, layer: int, x: real, y: real)
    requires Lawful(m) && ValidGrid(g)
    ensures var stepX := g.radius / (g.xCount - 1) as real;
            var stepY := g.radius / (g.yCount - 1) as real * m.sqrt(3.0) * 0.5;
            && StepX(g) == stepX && StepY(m, g) == stepY && StepZ(g) == g.depth / (g.zCount - 1) as real
            && X(g, row, column) == -g.radius + (if row % 2 == 0 then 0.0 else stepX * 0.5) + column as real * stepX
            && Y(m, g, row) == -g.radius + row as real * stepY
            && Z(g, layer) == -g.depth * 0.5 + layer as real * (g.depth / (g.zCount - 1) as real)
    ensures InDisc(g, x, y) <==> x * x + y * y <= g.radius * g.radius
  {
    var q := g.radius / (g.yCount - 1) as real;
    QuotientIs(g.radius, (g.xCount - 1) as real);
    QuotientIs(g.radius, (g.yCount - 1) as real);
    QuotientIs(g.depth, (g.zCount - 1) as real);
    TimesIs(q, m.sqrt(3.0));
    TimesIs(column as real, StepX(g));
    TimesIs(row as real, StepY(m, g));
    TimesIs(layer as real, StepZ(g));
    TimesIs(x, x);
    TimesIs(y, y);
    TimesIs(g.radius, g.radius);
  }

  // ----- Loop guards -----

  /** The column loop's guard on the accumulated x, for non-negative columns: it stops after ColumnCount. */
  lemma ColumnGuard(g: Grid, row: int, column: nat)
    requires ValidGrid(g)
    ensures X(g, row, column) <= g.radius + StepX(g) * 0.5 <==> column < ColumnCount(g)
  {
    var a, step := g.xCount - 1, StepX(g);
    StepXIs(g);
    TimesTwice(a, step);
    if column < ColumnCount(g) {
      if column < 2 * a { TimesOrder(column, 2 * a, step); }
    } else {
      TimesOrder(2 * a, column, step);
    }
  }

  lemma TimesTwice(a: int, step: real)
    ensures Times((2 * a) as real, step) == 2.0 * Times(a as real, step)
  {
    TimesIs((2 * a) as real, step);
    TimesIs(a as real, step);
  }

  lemma RowGuard(m: Trig, g: Grid, row: nat)
    requires ValidGrid(g) && StepY(m, g) > 0.0
    ensures Y(m, g, row) <= g.radius + StepY(m, g) * 0.5 <==> row < RowCount(m, g)
  {
    var step := StepY(m, g);
    var room := 2.0 * g.radius + step * 0.5;
    QuotientIs(room, step);
    FloorGuard(row, Quotient(room, step), step, room);
  }

  /** A multiple of the step fits into the room exactly up to the floor of the quotient. */
  lemma FloorGuard(row: nat, q: real, step: real, room: real)
    requires step > 0.0 && Times(q, step) == room
    ensures Times(row as real, step) <= room <==> row < q.Floor + 1
  {
    TimesIs(row as real, step);
    TimesIs(q, step);
    ScaleSign(step, q - row as real);
    assert step * (q - row as real) == q * step - row as real * step;
    assert row as real <= q <==> row <= q.Floor;
  }

  // ----- The enumeration -----

  /** The visible points of the first `columns` columns of a row, from left to right. */
  ghost function RowPoints(m: Trig, g: Grid, row: nat, columns: nat, z: real): seq<Point>
    requires ValidGrid(g)
  {
    if columns == 0 then []
    else RowPoints(m, g, row, columns - 1, z)
         + (if Visible(m, g, row, columns - 1) then [LatticePoint(m, g, row, columns - 1, z)] else [])
  }

  /** The visible points of the first `rows` rows of the layer at z, from bottom to top. */
  ghost function LayerPoints(m: Trig, g: Grid, rows: nat, z: real): seq<Point>
    requires ValidGrid(g)
  {
    if rows == 0 then [] else LayerPoints(m, g, rows - 1, z) + RowPoints(m, g, rows - 1, ColumnCount(g), z)
  }

  ghost function WholeLayer(m: Trig, g: Grid, z: real): seq<Point>
    requires ValidGrid(g) && StepY(m, g) > 0.0
  {
    LayerPoints(m, g, VisitedRows(m, g), z)
  }

  ghost function GridPoints(m: Trig, g: Grid, layers: nat): seq<Point>
    requires ValidGrid(g) && StepY(m, g) > 0.0
  {
    if layers == 0 then [] else GridPoints(m, g, layers - 1) + WholeLayer(m, g, Z(g, layers - 1))
  }

  // ----- Exactness -----

  lemma DiscBounds(g: Grid, x: real, y: real)
    requires g.radius > 0.0 && InDisc(g, x, y)
    ensures Abs(x) <= g.radius && Abs(y) <= g.radius
  {
    TimesIs(x, x);
    TimesIs(y, y);
    TimesIs(g.radius, g.radius);
    SquareOrder(x, g.radius);
    SquareOrder(y, g.radius);
    assert x * x >= 0.0 && y * y >= 0.0;
  }

  lemma SquareOrder(x: real, r: real)
    requires r > 0.0
    ensures x * x <= r * r ==> Abs(x) <= r
    ensures Abs(x) <= r ==> x * x <= r * r
  {
    if x > r {
      assert x * x > r * r;
    } else if x < -r {
      assert (-x) * (-x) > r * r;
    } else if x >= 0.0 {
      assert x * x <= r * x <= r * r;
    } else {
      assert (-x) * (-x) <= r * (-x) <= r * r;
    }
  }

  /** No visible lattice point lies outside the box of rows and columns that the loops visit. */
  lemma VisibleIsVisited(m: Trig, g: Grid, row: int, column: int)
    requires Lawful(m) && ValidGrid(g) && Visible(m, g, row, column)
    ensures StepY(m, g) > 0.0 && 0 <= row < RowCount(m, g) && 0 <= column < ColumnCount(g)
  {
    StepXIs(g);
    StepYIs(m, g);
    var x, y := X(g, row, column), Y(m, g, row);
    DiscBounds(g, x, y);
    TimesNext(0, StepX(g));
    TimesNext(0, StepY(m, g));
    if column < 0 {
      TimesOrder(column, 0, StepX(g));
    }
    if row < 0 {
      TimesOrder(row, 0, StepY(m, g));
    }
    if column >= 0 && row >= 0 {
      ColumnGuard(g, row, column);
      RowGuard(m, g, row);
    }
  }

  lemma {:induction false} RowPointsExact(m: Trig, g: Grid, row: nat, columns: nat, z: real, p: Point)
    requires ValidGrid(g)
    ensures p in RowPoints(m, g, row, columns, z) <==>
      exists column :: 0 <= column < columns && Visible(m, g, row, column) && p == LatticePoint(m, g, row, column, z)
  {
    if columns > 0 {
      RowPointsExact(m, g, row, columns - 1, z, p);
    }
  }

  lemma {:induction false} LayerPointsExact(m: Trig, g: Grid, rows: nat, z: real, p: Point)
    requires ValidGrid(g)
    ensures p in LayerPoints(m, g, rows, z) <==> exists row, column ::
      && 0 <= row < rows && 0 <= column < ColumnCount(g) && Visible(m, g, row, column)
      && p == LatticePoint(m, g, row, column, z)
  {
    if rows > 0 {
      LayerPointsExact(m, g, rows - 1, z, p);
      RowPointsExact(m, g, rows - 1, ColumnCount(g), z, p);
    }
  }

  /** A layer holds precisely the visible points of the whole, unbounded lattice. */
  lemma LayerIsClippedLattice(m: Trig, g: Grid, z: real, p: Point)
    requires Lawful(m) && ValidGrid(g)
    ensures StepY(m, g) > 0.0
    ensures p in WholeLayer(m, g, z) <==>
      exists row: int, column: int :: Visible(m, g, row, column) && p == LatticePoint(m, g, row, column, z)
  {
    StepYIs(m, g);
    var rows := VisitedRows(m, g);
    LayerPointsExact(m, g, rows, z, p);
    if row: int, column: int :| Visible(m, g, row, column) && p == LatticePoint(m, g, row, column, z) {
      VisibleIsVisited(m, g, row, column);
    }
  }

  /** The enumeration order: by z, then y, then x. */
  ghost predicate Before(p: Point, q: Point) {
    p.z < q.z || (p.z == q.z && (p.y < q.y || (p.y == q.y && p.x < q.x)))
  }

  ghost predicate Ordered(points: seq<Point>) {
    forall i, j :: 0 <= i < j < |points| ==> Before(points[i], points[j])
  }

  lemma OrderedConcat(first: seq<Point>, rest: seq<Point>)
    requires Ordered(first) && Ordered(rest)
    requires forall p, q :: p in first && q in rest ==> Before(p, q)
    ensures Ordered(first + rest)
  {
    var all := first + rest;
    forall i, j | 0 <= i < j < |all|
      ensures Before(all[i], all[j])
    {
      if j < |first| {
        assert Before(first[i], first[j]);
      } else if i >= |first| {
        assert Before(rest[i - |first|], rest[j - |first|]);
      } else {
        assert first[i] in first && rest[j - |first|] in rest;
      }
    }
  }

  lemma {:induction false} RowOrdered(m: Trig, g: Grid, row: nat, columns: nat, z: real)
    requires ValidGrid(g)
    ensures Ordered(RowPoints(m, g, row, columns, z))
  {
    if columns > 0 {
      RowOrdered(m, g, row, columns - 1, z);
      var last := if Visible(m, g, row, columns - 1) then [LatticePoint(m, g, row, columns - 1, z)] else [];
      forall p, q | p in RowPoints(m, g, row, columns - 1, z) && q in last
        ensures Before(p, q)
      {
        RowPointsExact(m, g, row, columns - 1, z, p);
        var column :| 0 <= column < columns - 1 && Visible(m, g, row, column)
                      && p == LatticePoint(m, g, row, column, z);
        StepXIs(g);
        TimesOrder(column, columns - 1, StepX(g));
      }
      OrderedConcat(RowPoints(m, g, row, columns - 1, z), last);
    }
  }

  lemma {:induction false} LayerOrdered(m: Trig, g: Grid, rows: nat, z: real)
    requires Lawful(m) && ValidGrid(g)
    ensures Ordered(LayerPoints(m, g, rows, z))
  {
    if rows > 0 {
      LayerOrdered(m, g, rows - 1, z);
      RowOrdered(m, g, rows - 1, ColumnCount(g), z);
      var first, rest := LayerPoints(m, g, rows - 1, z), RowPoints(m, g, rows - 1, ColumnCount(g), z);
      forall p, q | p in first && q in rest
        ensures Before(p, q)
      {
        RowPointsExact(m, g, rows - 1, ColumnCount(g), z, q);
        LayerPointsExact(m, g, rows - 1, z, p);
        var row, column :| 0 <= row < rows - 1 && 0 <= column < ColumnCount(g) && Visible(m, g, row, column)
          && p == LatticePoint(m, g, row, column, z);
        StepYIs(m, g);
        TimesOrder(row, rows - 1, StepY(m, g));
      }
      OrderedConcat(first, rest);
    }
  }

  lemma {:induction false} GridPointsZ(m: Trig, g: Grid, layers: nat, p: Point)
    requires Lawful(m) && ValidGrid(g) && StepY(m, g) > 0.0 && p in GridPoints(m, g, layers)
    ensures exists layer :: 0 <= layer < layers && p.z == Z(g, layer) && p in WholeLayer(m, g, Z(g, layer))
  {
    InConcat(GridPoints(m, g, layers - 1), WholeLayer(m, g, Z(g, layers - 1)), p);
    if p in GridPoints(m, g, layers - 1) {
      GridPointsZ(m, g, layers - 1, p);
    } else {
      LayerIsClippedLattice(m, g, Z(g, layers - 1), p);
    }
  }

  lemma {:induction false} GridOrdered(m: Trig, g: Grid, layers: nat)
    requires Lawful(m) && ValidGrid(g) && StepY(m, g) > 0.0
    ensures Ordered(GridPoints(m, g, layers))
  {
    if layers > 0 {
      GridOrdered(m, g, layers - 1);
      var first, rest := GridPoints(m, g, layers - 1), WholeLayer(m, g, Z(g, layers - 1));
      LayerOrdered(m, g, VisitedRows(m, g), Z(g, layers - 1));
      forall p, q | p in first && q in rest
        ensures Before(p, q)
      {
        GridPointsZ(m, g, layers - 1, p);
        var layer :| 0 <= layer < layers - 1 && p.z == Z(g, layer);
        LayerIsClippedLattice(m, g, Z(g, layers - 1), q);
        StepZIs(g);
        TimesOrder(layer, layers - 1, StepZ(g));
      }
      OrderedConcat(first, rest);
    }
  }

  /** The whole enumeration: exactly the visible lattice points of every layer, each once, ordered by
      (z, y, x). */
  lemma GridIsClippedLattice(m: Trig, g: Grid, p: Point)
    requires Lawful(m) && ValidGrid(g)
    ensures StepY(m, g) > 0.0
    ensures Ordered(GridPoints(m, g, g.zCount))
    ensures p in GridPoints(m, g, g.zCount) <==> exists layer: int, row: int, column: int ::
      0 <= layer < g.zCount && Visible(m, g, row, column) && p == LatticePoint(m, g, row, column, Z(g, layer))
  {
    StepYIs(m, g);
    GridOrdered(m, g, g.zCount);
    if p in GridPoints(m, g, g.zCount) {
      GridPointsZ(m, g, g.zCount, p);
      var layer :| 0 <= layer < g.zCount && p.z == Z(g, layer) && p in WholeLayer(m, g, Z(g, layer));
      LayerIsClippedLattice(m, g, Z(g, layer), p);
    }
    if layer: int, row: int, column: int :|
        0 <= layer < g.zCount && Visible(m, g, row, column) && p == LatticePoint(m, g, row, column, Z(g, layer)) {
      LayerIsClippedLattice(m, g, Z(g, layer), p);
      LayerInGrid(m, g, g.zCount, layer, p);
    }
  }

  lemma InConcat(first: seq<Point>, rest: seq<Point>, p: Point)
    ensures p in first + rest <==> p in first || p in rest
  {
  }

  lemma {:induction false} LayerInGrid(m: Trig, g: Grid, layers: nat, layer: nat, p: Point)
    requires ValidGrid(g) && StepY(m, g) > 0.0 && layer < layers && p in WholeLayer(m, g, Z(g, layer))
    ensures p in GridPoints(m, g, layers)
  {
    var below, last := GridPoints(m, g, layers - 1), WholeLayer(m, g, Z(g, layers - 1));
    if layer < layers - 1 {
      LayerInGrid(m, g, layers - 1, layer, p);
    }
    assert p in below || p in last;
    InConcat(below, last, p);
  }
}
