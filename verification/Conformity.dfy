/** Edges of the layer mesh: which triangles share which edge. These statements only concern vertex
    indices, so they hold for any input whose candidate triangles are all kept. */
module Conformity {
  import opened Geometry
  import opened Strip
  import opened Walk
  import opened LayerMesh

  ghost predicate HasVertex(t: Triangle, v: nat) {
    v == t.a || v == t.b || v == t.c
  }

  ghost predicate HasEdge(t: Triangle, u: nat, v: nat) {
    u != v && HasVertex(t, u) && HasVertex(t, v)
  }

  /** The number of triangles of the mesh that have the edge u-v. */
  ghost function EdgeCount(triangles: seq<Triangle>, u: nat, v: nat): nat {
    if triangles == [] then 0
    else (if HasEdge(triangles[0], u, v) then 1 else 0) + EdgeCount(triangles[1..], u, v)
  }

  lemma {:induction false} EdgeCountConcat(first: seq<Triangle>, rest: seq<Triangle>, u: nat, v: nat)
    ensures EdgeCount(first + rest, u, v) == EdgeCount(first, u, v) + EdgeCount(rest, u, v)
  {
    if first == [] {
      assert first + rest == rest;
    } else {
      assert (first + rest)[1..] == first[1..] + rest;
      EdgeCountConcat(first[1..], rest, u, v);
    }
  }

  /** The number of moves of the path that sweep a triangle with the edge u-v. */
  ghost function SweptCount(path: seq<Diagonal>, u: nat, v: nat): nat {
    if |path| < 2 then 0
    else (if HasEdge(Swept(path[0], path[1]), u, v) then 1 else 0) + SweptCount(path[1..], u, v)
  }

  /** A kept candidate has the same edges as the triangle pushed for it. */
  lemma KeptEdges(points: seq<Point>, t: Triangle, u: nat, v: nat)
    requires InRange(points, t) && !BelowTolerance(points, t)
    ensures EdgeCount(Oriented(points, t), u, v) == if HasEdge(t, u, v) then 1 else 0
  {
    var pushed := Oriented(points, t);
    assert |pushed| == 1 && pushed[1..] == [] && pushed[0] in pushed;
    PushedIsPositive(points, t, pushed[0]);
  }

  lemma {:induction false} StripEdges(points: seq<Point>, path: seq<Diagonal>, u: nat, v: nat)
    requires Linked(|points|, path) && NoneDropped(points, path)
    ensures EdgeCount(StripTriangles(points, path), u, v) == SweptCount(path, u, v)
  {
    if |path| > 1 {
      NoneDroppedTail(points, path);
      KeptEdges(points, Swept(path[0], path[1]), u, v);
      StripEdges(points, path[1..], u, v);
      EdgeCountConcat(Oriented(points, Swept(path[0], path[1])), StripTriangles(points, path[1..]), u, v);
    }
  }

  // ----- One strip -----

  /** The lower vertices of the path stay below `split`, the upper ones do not. */
  ghost predicate Separated(path: seq<Diagonal>, split: nat) {
    && path != []
    && (forall d :: d in path ==> d.lower < split <= d.upper)
    && (forall k :: 0 <= k < |path| - 1 ==> StepAt(path, k))
  }

  lemma SeparatedTail(path: seq<Diagonal>, split: nat)
    requires Separated(path, split) && |path| > 1
    ensures Separated(path[1..], split) && path[1] == path[1..][0] && path[|path| - 1] == path[1..][|path| - 2]
    ensures IsStep(path[0], path[1])
    ensures path[0].lower < split <= path[0].upper && path[1].lower < split <= path[1].upper
  {
    assert path[0] in path && path[1] in path && StepAt(path, 0);
    forall k | 0 <= k < |path[1..]| - 1
      ensures StepAt(path[1..], k)
    {
      assert StepAt(path, k + 1);
    }
  }

  /** Along a path both ends only move forward. */
  lemma {:induction false} PathAdvances(path: seq<Diagonal>, split: nat, d: Diagonal)
    requires Separated(path, split) && d in path
    ensures path[0].lower <= d.lower <= path[|path| - 1].lower
    ensures path[0].upper <= d.upper <= path[|path| - 1].upper
    ensures d != path[0] ==> path[0].lower + path[0].upper < d.lower + d.upper
  {
    if |path| > 1 {
      SeparatedTail(path, split);
      if d == path[0] {
        PathAdvances(path[1..], split, path[1]);
      } else {
        PathAdvances(path[1..], split, d);
      }
    }
  }

  /** Every edge inside the lower row is swept exactly once. */
  lemma {:induction false} LowerEdgeOnce(path: seq<Diagonal>, split: nat, i: nat)
    requires Separated(path, split) && i + 1 < split
    ensures SweptCount(path, i, i + 1) == if path[0].lower <= i < path[|path| - 1].lower then 1 else 0
  {
    if |path| > 1 {
      SeparatedTail(path, split);
      LowerEdgeOnce(path[1..], split, i);
      PathAdvances(path[1..], split, path[1]);
    }
  }

  /** Every edge inside the upper row is swept exactly once. */
  lemma {:induction false} UpperEdgeOnce(path: seq<Diagonal>, split: nat, j: nat)
    requires Separated(path, split) && split <= j
    ensures SweptCount(path, j, j + 1) == if path[0].upper <= j < path[|path| - 1].upper then 1 else 0
  {
    if |path| > 1 {
      SeparatedTail(path, split);
      UpperEdgeOnce(path[1..], split, j);
      PathAdvances(path[1..], split, path[1]);
    }
  }

  /** On how many sides of the diagonal the path continues: two for an inner diagonal of the path, one
      for the first or the last of several, none for a pair the path never stands on. */
  ghost function Sides(path: seq<Diagonal>, d: Diagonal): nat
    requires path != []
  {
    if d !in path then 0
    else (if d != path[|path| - 1] then 1 else 0) + (if d != path[0] then 1 else 0)
  }

  /** A diagonal is swept once from each side on which the path continues. */
  lemma {:induction false} DiagonalSides(path: seq<Diagonal>, split: nat, d: Diagonal)
    requires Separated(path, split) && d.lower < split <= d.upper
    ensures SweptCount(path, d.lower, d.upper)
         == Sides(path, d)
  {
    if |path| > 1 {
      SeparatedTail(path, split);
      DiagonalSides(path[1..], split, d);
      assert d in path <==> d == path[0] || d in path[1..];
      if d == path[0] && d in path[1..] {
        PathAdvances(path[1..], split, d);
      }
      if path[1] == path[0] || path[|path| - 1] == path[0] {
        PathAdvances(path[1..], split, path[|path| - 1]);
      }
    }
  }

  /** No other pair of vertices is an edge of the strip. */
  lemma {:induction false} OtherPairsNever(path: seq<Diagonal>, split: nat, u: nat, v: nat)
    requires Separated(path, split) && u < v && v != u + 1 && !(u < split <= v)
    ensures SweptCount(path, u, v) == 0
  {
    if |path| > 1 {
      SeparatedTail(path, split);
      OtherPairsNever(path[1..], split, u, v);
    }
  }

  /** A pair with a vertex outside the path's rows is not swept. */
  lemma {:induction false} OutsidePathNever(path: seq<Diagonal>, split: nat, u: nat, v: nat)
    requires Separated(path, split)
    requires u < path[0].lower || v > path[|path| - 1].upper
    ensures SweptCount(path, u, v) == 0
  {
    if |path| > 1 {
      SeparatedTail(path, split);
      PathAdvances(path[1..], split, path[1]);
      PathAdvances(path, split, path[1]);
      OutsidePathNever(path[1..], split, u, v);
    }
  }

  /** A crossing of the strip between two rows that follow each other. */
  ghost predicate CrossesRows(path: seq<Diagonal>, lower: Row, upper: Row) {
    && lower.begin < lower.end == upper.begin < upper.end
    && Separated(path, upper.begin)
    && path[0] == Diagonal(lower.begin, upper.begin)
    && path[|path| - 1] == Diagonal(lower.end - 1, upper.end - 1)
  }

  /** Inside the first row of a strip, and inside the second, neighbours share one triangle. */
  lemma RowEdgeInStrip(path: seq<Diagonal>, lower: Row, upper: Row, i: nat)
    requires CrossesRows(path, lower, upper) && lower.begin <= i
    requires i + 1 < lower.end || upper.begin <= i
    ensures SweptCount(path, i, i + 1) == if i + 1 < lower.end || (upper.begin <= i && i + 1 < upper.end) then 1 else 0
  {
    if i + 1 < lower.end {
      LowerEdgeOnce(path, upper.begin, i);
    } else {
      UpperEdgeOnce(path, upper.begin, i);
    }
  }

  /** Pairs that are neither neighbours in a row nor across the strip are not swept. */
  lemma LongPairInStrip(path: seq<Diagonal>, lower: Row, upper: Row, u: nat, v: nat)
    requires CrossesRows(path, lower, upper) && u < v
    requires (v != u + 1 && !(u < upper.begin <= v)) || u < lower.begin || v >= upper.end
    ensures SweptCount(path, u, v) == 0
  {
    if u < lower.begin || v >= upper.end {
      OutsidePathNever(path, upper.begin, u, v);
    } else {
      OtherPairsNever(path, upper.begin, u, v);
    }
  }

  // ----- The whole layer -----

  /** No candidate triangle of any strip is below the tolerance. */
  ghost predicate StripsComplete(points: seq<Point>, rows: seq<Row>)
    requires ValidRows(points, rows)
  {
    forall r :: 0 <= r < |rows| - 1 ==> StripComplete(points, rows, r)
  }

  ghost predicate StripComplete(points: seq<Point>, rows: seq<Row>, r: nat)
    requires ValidRows(points, rows) && r + 1 < |rows|
  {
    NoneDropped(points, StripPath(points, rows[r], rows[r + 1]))
  }

  ghost predicate IsLayer(points: seq<Point>, rows: seq<Row>) {
    rows != [] && ValidRows(points, rows) && Contiguous(rows) && StripsComplete(points, rows)
  }

  /** The triangles of strip s with the edge u-v. */
  ghost function StripCount(points: seq<Point>, rows: seq<Row>, s: nat, u: nat, v: nat): nat
    requires ValidRows(points, rows) && s + 1 < |rows|
  {
    EdgeCount(StripMesh(points, rows[s], rows[s + 1]), u, v)
  }

  ghost function StripCounts(points: seq<Point>, rows: seq<Row>, u: nat, v: nat): (counts: seq<nat>)
    requires ValidRows(points, rows)
    ensures |counts| == if rows == [] then 0 else |rows| - 1
    ensures forall s :: 0 <= s < |counts| ==> counts[s] == StripCount(points, rows, s, u, v)
  {
    seq(if rows == [] then 0 else |rows| - 1, s requires 0 <= s < |rows| - 1 => StripCount(points, rows, s, u, v))
  }

  ghost function SumFrom(counts: seq<nat>, s: nat): nat
    decreases |counts| - s
  {
    if s >= |counts| then 0 else counts[s] + SumFrom(counts, s + 1)
  }

  /** The layer's count is the sum of the counts of its strips. */
  lemma {:induction false} LayerCount(points: seq<Point>, rows: seq<Row>, s: nat, u: nat, v: nat)
    requires ValidRows(points, rows) && s <= |rows|
    ensures EdgeCount(LayerTriangles(points, rows[s..]), u, v) == SumFrom(StripCounts(points, rows, u, v), s)
    decreases |rows| - s
  {
    if s + 1 < |rows| {
      assert rows[s..][1..] == rows[s + 1..];
      LayerCount(points, rows, s + 1, u, v);
      EdgeCountConcat(StripMesh(points, rows[s], rows[s + 1]), LayerTriangles(points, rows[s + 1..]), u, v);
    }
  }

  /** One at the strips that row r bounds, zero elsewhere. */
  ghost predicate OneAtRow(counts: seq<nat>, r: nat) {
    forall s :: 0 <= s < |counts| ==> counts[s] == if s == r || s == r - 1 then 1 else 0
  }

  /** n at strip r, zero elsewhere. */
  ghost predicate OnlyAt(counts: seq<nat>, r: nat, n: nat) {
    forall s :: 0 <= s < |counts| ==> counts[s] == if s == r then n else 0
  }

  lemma {:induction false} SumOneAtRow(counts: seq<nat>, s: nat, r: nat)
    requires OneAtRow(counts, r) && r <= |counts|
    ensures SumFrom(counts, s) == (if s < r then 1 else 0) + (if s <= r < |counts| then 1 else 0)
    decreases |counts| - s
  {
    if s < |counts| {
      SumOneAtRow(counts, s + 1, r);
    }
  }

  lemma {:induction false} SumOnlyAt(counts: seq<nat>, s: nat, r: nat, n: nat)
    requires OnlyAt(counts, r, n)
    ensures SumFrom(counts, s) == if s <= r < |counts| then n else 0
    decreases |counts| - s
  {
    if s < |counts| {
      SumOnlyAt(counts, s + 1, r, n);
    }
  }

  /** Rows of a contiguous layer are ordered by their indices. */
  lemma {:induction false} RowsAscend(rows: seq<Row>, r: nat, s: nat)
    requires Contiguous(rows) && r <= s < |rows|
    ensures rows[r].begin <= rows[s].begin < rows[s].end
    ensures r < s ==> rows[r].end <= rows[s].begin
  {
    if r < s {
      RowsAscend(rows, r, s - 1);
      assert Follows(rows, s - 1);
    }
  }

  lemma StripCrosses(points: seq<Point>, rows: seq<Row>, s: nat)
    requires IsLayer(points, rows) && s + 1 < |rows|
    ensures CrossesRows(StripPath(points, rows[s], rows[s + 1]), rows[s], rows[s + 1])
  {
    assert Follows(rows, s);
  }

  lemma StripCountIsSwept(points: seq<Point>, rows: seq<Row>, s: nat, u: nat, v: nat)
    requires IsLayer(points, rows) && s + 1 < |rows|
    ensures StripCount(points, rows, s, u, v) == SweptCount(StripPath(points, rows[s], rows[s + 1]), u, v)
  {
    assert StripComplete(points, rows, s);
    StripEdges(points, StripPath(points, rows[s], rows[s + 1]), u, v);
  }

  /** How many strips row r of a layer of `rows` rows bounds. */
  ghost function StripsBounded(rows: nat, r: nat): nat {
    (if r > 0 then 1 else 0) + (if r + 1 < rows then 1 else 0)
  }

  /** A strip has one triangle at an edge of its own rows, none at an edge of another row. */
  lemma StripRowEdge(points: seq<Point>, rows: seq<Row>, s: nat, r: nat, i: nat)
    requires IsLayer(points, rows) && s + 1 < |rows| && r < |rows| && rows[r].begin <= i && i + 1 < rows[r].end
    ensures StripCount(points, rows, s, i, i + 1) == if s == r || s == r - 1 then 1 else 0
  {
    StripCountIsSwept(points, rows, s, i, i + 1);
    StripCrosses(points, rows, s);
    if r < s {
      RowsAscend(rows, r, s);
      OutsidePathNever(StripPath(points, rows[s], rows[s + 1]), rows[s + 1].begin, i, i + 1);
    } else {
      RowsAscend(rows, s, r);
      if s < r {
        RowsAscend(rows, s + 1, r);
      }
      RowEdgeInStrip(StripPath(points, rows[s], rows[s + 1]), rows[s], rows[s + 1], i);
    }
  }

  lemma RowEdgeCounts(points: seq<Point>, rows: seq<Row>, r: nat, i: nat)
    requires IsLayer(points, rows) && r < |rows| && rows[r].begin <= i && i + 1 < rows[r].end
    ensures OneAtRow(StripCounts(points, rows, i, i + 1), r)
  {
    var j := i + 1;
    forall s | 0 <= s < |rows| - 1
      ensures StripCount(points, rows, s, i, j) == if s == r || s == r - 1 then 1 else 0
    {
      StripRowEdge(points, rows, s, r, i);
    }
  }

  /** An edge between neighbours of row r belongs to exactly one triangle of each strip the row bounds:
      two for an interior row, one for the first and the last row. */
  lemma RowEdgeConforms(points: seq<Point>, rows: seq<Row>, r: nat, i: nat)
    requires IsLayer(points, rows) && r < |rows| && rows[r].begin <= i && i + 1 < rows[r].end
    ensures EdgeCount(LayerTriangles(points, rows), i, i + 1) == StripsBounded(|rows|, r)
  {
    assert rows[0..] == rows;
    LayerCount(points, rows, 0, i, i + 1);
    RowEdgeCounts(points, rows, r, i);
    SumOneAtRow(StripCounts(points, rows, i, i + 1), 0, r);
  }

  /** A strip has as many triangles at its own diagonals as its walk has sides there. */
  lemma OwnDiagonal(points: seq<Point>, rows: seq<Row>, r: nat, d: Diagonal)
    requires IsLayer(points, rows) && r + 1 < |rows|
    requires rows[r].begin <= d.lower < rows[r].end && rows[r + 1].begin <= d.upper < rows[r + 1].end
    ensures StripCount(points, rows, r, d.lower, d.upper) == Sides(StripPath(points, rows[r], rows[r + 1]), d)
  {
    StripCountIsSwept(points, rows, r, d.lower, d.upper);
    StripCrosses(points, rows, r);
    DiagonalSides(StripPath(points, rows[r], rows[r + 1]), rows[r + 1].begin, d);
  }

  /** And none at those of another strip. */
  lemma OtherDiagonal(points: seq<Point>, rows: seq<Row>, s: nat, r: nat, d: Diagonal)
    requires IsLayer(points, rows) && s + 1 < |rows| && r + 1 < |rows| && s != r
    requires rows[r].begin <= d.lower < rows[r].end && rows[r + 1].begin <= d.upper < rows[r + 1].end
    ensures StripCount(points, rows, s, d.lower, d.upper) == 0
  {
    StripCountIsSwept(points, rows, s, d.lower, d.upper);
    StripCrosses(points, rows, s);
    if r < s {
      RowsAscend(rows, r, s);
    } else {
      RowsAscend(rows, s + 1, r + 1);
    }
    OutsidePathNever(StripPath(points, rows[s], rows[s + 1]), rows[s + 1].begin, d.lower, d.upper);
  }

  lemma DiagonalCounts(points: seq<Point>, rows: seq<Row>, r: nat, d: Diagonal)
    requires IsLayer(points, rows) && r + 1 < |rows|
    requires rows[r].begin <= d.lower < rows[r].end && rows[r + 1].begin <= d.upper < rows[r + 1].end
    ensures OnlyAt(StripCounts(points, rows, d.lower, d.upper), r, Sides(StripPath(points, rows[r], rows[r + 1]), d))
  {
    forall s | 0 <= s < |rows| - 1
      ensures StripCount(points, rows, s, d.lower, d.upper)
           == if s == r then Sides(StripPath(points, rows[r], rows[r + 1]), d) else 0
    {
      if s == r {
        OwnDiagonal(points, rows, r, d);
      } else {
        OtherDiagonal(points, rows, s, r, d);
      }
    }
  }

  /** A pair across strip r belongs to two triangles when it is an inner diagonal of the strip's walk, to
      one when it is the first or the last of several, and to none when the walk never stands on it. */
  lemma DiagonalConforms(points: seq<Point>, rows: seq<Row>, r: nat, d: Diagonal)
    requires IsLayer(points, rows) && r + 1 < |rows|
    requires rows[r].begin <= d.lower < rows[r].end && rows[r + 1].begin <= d.upper < rows[r + 1].end
    ensures EdgeCount(LayerTriangles(points, rows), d.lower, d.upper)
         == Sides(StripPath(points, rows[r], rows[r + 1]), d)
  {
    assert rows[0..] == rows;
    LayerCount(points, rows, 0, d.lower, d.upper);
    DiagonalCounts(points, rows, r, d);
    SumOnlyAt(StripCounts(points, rows, d.lower, d.upper), 0, r, Sides(StripPath(points, rows[r], rows[r + 1]), d));
  }

  /** Vertex u of row r and vertex v > u of row s are neither neighbours in a row nor in adjacent rows. */
  ghost predicate FarApart(rows: seq<Row>, u: nat, v: nat, r: nat, s: nat) {
    && r <= s < |rows| && u < v
    && rows[r].begin <= u < rows[r].end && rows[s].begin <= v < rows[s].end
    && (if r == s then v != u + 1 else s != r + 1)
  }

  lemma StripLacksLong(points: seq<Point>, rows: seq<Row>, t: nat, u: nat, v: nat, r: nat, s: nat)
    requires IsLayer(points, rows) && t + 1 < |rows| && FarApart(rows, u, v, r, s)
    ensures StripCount(points, rows, t, u, v) == 0
  {
    StripCountIsSwept(points, rows, t, u, v);
    StripCrosses(points, rows, t);
    if r < t {
      RowsAscend(rows, r, t);
    } else if t + 1 < s {
      RowsAscend(rows, t + 1, s);
    } else {
      RowsAscend(rows, r, s);
    }
    LongPairInStrip(StripPath(points, rows[t], rows[t + 1]), rows[t], rows[t + 1], u, v);
  }

  lemma LongCounts(points: seq<Point>, rows: seq<Row>, u: nat, v: nat, r: nat, s: nat)
    requires IsLayer(points, rows) && FarApart(rows, u, v, r, s)
    ensures OnlyAt(StripCounts(points, rows, u, v), 0, 0)
  {
    forall t | 0 <= t < |rows| - 1
      ensures StripCount(points, rows, t, u, v) == 0
    {
      StripLacksLong(points, rows, t, u, v, r, s);
    }
  }

  /** Two vertices of one row that are not neighbours never share a triangle, nor do vertices of rows
      that are not adjacent. */
  lemma NoLongEdges(points: seq<Point>, rows: seq<Row>, u: nat, v: nat, r: nat, s: nat)
    requires IsLayer(points, rows) && FarApart(rows, u, v, r, s)
    ensures EdgeCount(LayerTriangles(points, rows), u, v) == 0
  {
    assert rows[0..] == rows;
    LayerCount(points, rows, 0, u, v);
    LongCounts(points, rows, u, v, r, s);
    SumOnlyAt(StripCounts(points, rows, u, v), 0, 0, 0);
  }
}
