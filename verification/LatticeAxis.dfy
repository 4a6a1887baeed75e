/** How close the rows of the lattice come to the x axis and to the top of the disc: never onto them,
    because the root of three is irrational. It bounds from below how far any point of the lattice is from
    the axis, and so when no point is moved onto it. */
module LatticeAxis {
  import opened Numeric
  import opened Arithmetic
  import opened Geometry
  import opened GridLattice
  import opened GridRecovery
  import opened GridMesh

  /** The root of three is irrational: three times a square is a square only for zero. */
  lemma {:induction false} ThreeIsNoSquare(a: nat, b: nat)
    requires b > 0
    ensures 3 * a * a != b * b
    decreases a
  {
    if 3 * a * a == b * b {
      var c := ThreeDivides(b, a * a);
      assert b * b == 9 * (c * c);
      var d := ThreeDivides(a, c * c);
      assert 3 * d * d == c * c;
      assert a > 0 && c > 0;
      ThreeIsNoSquare(d, c);
    }
  }

  /** A number whose square is a multiple of three is one itself. */
  lemma ThreeDivides(n: nat, k: nat) returns (third: nat)
    requires n * n == 3 * k
    ensures n == 3 * third
  {
    third := n / 3;
    var rest := n % 3;
    assert n == 3 * third + rest;
    assert n * n == 9 * (third * third) + 6 * (third * rest) + rest * rest;
    assert rest == 1 ==> 3 * (k - 3 * (third * third) - 2 * third) == 1;
    assert rest == 2 ==> 3 * (k - 3 * (third * third) - 4 * third - 1) == 1;
  }

  ghost function Spread(b: real): real {
    12.0 * Times(b, b)
  }

  /** No row of the lattice lies on the x axis; the distance of a visited row from it is at least the
      radius over twelve times the square of the row resolution. */
  lemma RowsMissAxis(m: Trig, g: Grid, row: nat)
    requires Lawful(m) && ValidGrid(g) && Abs(Y(m, g, row)) <= g.radius
    ensures Times(Abs(Y(m, g, row)), Spread((g.yCount - 1) as real)) >= g.radius
  {
    var b, s, k := (g.yCount - 1) as real, m.sqrt(3.0), row as real;
    RootOfThree(m);
    RootLaw(m, 3.0);
    HeightOfRow(m, g, row);
    ThreeIsNoSquare(row, 2 * (g.yCount - 1));
    SquaresDiffer(row, 2 * (g.yCount - 1));
    MissesAxis(g.radius, Y(m, g, row), k, s, b);
  }

  lemma MissesAxis(radius: real, y: real, k: real, s: real, b: real)
    requires radius > 0.0 && b >= 1.0 && Abs(y) <= radius && 2.0 * b * y == radius * (k * s - 2.0 * b)
    requires s * s == 3.0 && s > 0.0 && k >= 0.0 && Abs(3.0 * k * k - 2.0 * b * (2.0 * b)) >= 1.0
    ensures Times(Abs(y), Spread(b)) >= radius
  {
    Conjugates(k, s, b);
    RowInReach(radius, y, b, k * s);
    AxisDistance(radius, y, b, k * s - 2.0 * b, k * s + 2.0 * b);
  }

  lemma Conjugates(k: real, s: real, b: real)
    requires s * s == 3.0 && s > 0.0 && k >= 0.0
    ensures (k * s - 2.0 * b) * (k * s + 2.0 * b) == 3.0 * k * k - 2.0 * b * (2.0 * b) && k * s >= 0.0
  {
    assert (k * s) * (k * s) == k * k * (s * s);
  }

  lemma SquaresDiffer(a: nat, b: nat)
    requires 3 * a * a != b * b
    ensures Abs(3.0 * a as real * a as real - b as real * b as real) >= 1.0
  {
    var d := 3 * a * a - b * b;
    assert d as real == 3.0 * a as real * a as real - b as real * b as real;
    assert d >= 1 || d <= -1;
  }

  lemma HeightOfRow(m: Trig, g: Grid, row: nat)
    requires Lawful(m) && ValidGrid(g)
    ensures var b := (g.yCount - 1) as real;
            2.0 * b * Y(m, g, row) == g.radius * (row as real * m.sqrt(3.0) - 2.0 * b)
  {
    var b, s, k := (g.yCount - 1) as real, m.sqrt(3.0), row as real;
    StepYIs(m, g);
    TimesIs(k, StepY(m, g));
    TimesIs(b, StepY(m, g));
    TimesIs(g.radius, s);
    assert 2.0 * b * (k * StepY(m, g)) == 2.0 * k * (b * StepY(m, g));
    assert k * (g.radius * s) == g.radius * (k * s);
  }

  /** A row inside the disc: its number times the root of three is at most four times the resolution. */
  lemma RowInReach(radius: real, y: real, b: real, ks: real)
    requires radius > 0.0 && b >= 1.0 && Abs(y) <= radius && 2.0 * b * y == radius * (ks - 2.0 * b)
    ensures ks <= 4.0 * b
  {
    assert b * y <= b * radius;
    assert ks > 4.0 * b ==> radius * (ks - 4.0 * b) > 0.0;
  }

  lemma AxisDistance(radius: real, y: real, b: real, u: real, v: real)
    requires radius > 0.0 && b >= 1.0 && Abs(u * v) >= 1.0 && 0.0 < v <= 6.0 * b && 2.0 * b * y == radius * u
    ensures Times(Abs(y), Spread(b)) >= radius
  {
    TimesIs(b, b);
    TimesIs(Abs(y), Spread(b));
    var a := Abs(u);
    assert a * v >= 1.0;
    assert a * v <= a * (6.0 * b);
    var c := Abs(y);
    assert 2.0 * b * c == radius * a;
    calc {
      c * Spread(b);
      (2.0 * b * c) * (6.0 * b);
      (radius * a) * (6.0 * b);
      radius * (a * (6.0 * b));
    }
    assert radius * (a * (6.0 * b) - 1.0) >= 0.0;
  }

  /** So with a moderate row resolution no point is near enough to the axis to be moved. */
  lemma AxisIsClear(m: Trig, g: Grid)
    requires Lawful(m) && ValidGrid(g) && StepY(m, g) > 0.0
    requires Times(EPSILON, Spread((g.yCount - 1) as real)) <= g.radius
    ensures Unmoved(m, g)
  {
    forall k | 0 <= k < |FirstLayer(m, g)|
      ensures Recovered(m, FirstLayer(m, g)[k]) == FirstLayer(m, g)[k]
    {
      FarFromAxis(m, g, k);
      RecoveredIs(m, FirstLayer(m, g)[k]);
    }
  }

  lemma FarFromAxis(m: Trig, g: Grid, k: nat)
    requires Lawful(m) && ValidGrid(g) && StepY(m, g) > 0.0 && k < |FirstLayer(m, g)|
    requires Times(EPSILON, Spread((g.yCount - 1) as real)) <= g.radius
    ensures !NearAxis(m, FirstLayer(m, g)[k])
  {
    var p := FirstLayer(m, g)[k];
    LayerPointsExact(m, g, VisitedRows(m, g), Z(g, 0), p);
    var row, column :| 0 <= row < VisitedRows(m, g) && 0 <= column < ColumnCount(g) && Visible(m, g, row, column)
      && p == LatticePoint(m, g, row, column, Z(g, 0));
    DiscBounds(g, p.x, p.y);
    RowsMissAxis(m, g, row);
    HypotBounds(m, p.x, p.y);
    AtLeastEpsilon(p.y, (g.yCount - 1) as real, g.radius);
  }

  lemma AtLeastEpsilon(y: real, b: real, radius: real)
    requires b >= 1.0 && Times(Abs(y), Spread(b)) >= radius && Times(EPSILON, Spread(b)) <= radius
    ensures Abs(y) >= EPSILON
  {
    TimesIs(b, b);
    Positive(b, b);
    TimesIs(Abs(y), Spread(b));
    TimesIs(EPSILON, Spread(b));
    assert Abs(y) < EPSILON ==> (EPSILON - Abs(y)) * Spread(b) > 0.0;
  }

  /** No row lies at the very top of the disc. */
  lemma RowsMissTop(m: Trig, g: Grid, row: nat)
    requires Lawful(m) && ValidGrid(g)
    ensures Y(m, g, row) != g.radius
  {
    var b, s, k := (g.yCount - 1) as real, m.sqrt(3.0), row as real;
    RootOfThree(m);
    RootLaw(m, 3.0);
    HeightOfRow(m, g, row);
    ThreeIsNoSquare(row, 4 * (g.yCount - 1));
    SquaresDiffer(row, 4 * (g.yCount - 1));
    MissesTop(g.radius, Y(m, g, row), k, s, b);
  }

  lemma MissesTop(radius: real, y: real, k: real, s: real, b: real)
    requires radius > 0.0 && 2.0 * b * y == radius * (k * s - 2.0 * b)
    requires s * s == 3.0 && s > 0.0 && k >= 0.0 && Abs(3.0 * k * k - 4.0 * b * (4.0 * b)) >= 1.0
    ensures y != radius
  {
    var u, v := k * s - 4.0 * b, k * s + 4.0 * b;
    Conjugates(k, s, 2.0 * b);
    assert u * v == 3.0 * k * k - 4.0 * b * (4.0 * b);
    assert u == 0.0 ==> u * v == 0.0;
    assert radius * u == 2.0 * b * y - 2.0 * b * radius;
    ScaleSign(radius, u);
  }
}
