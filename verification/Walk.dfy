/** The walk the exporter takes over one strip: its triangles tile the strip, their areas add up, and
    it advances along the sorted merge of the two rows. */
module Walk {
  import opened Numeric
  import opened Geometry
  import opened Strip

  /** A row of the layer: the vertices from `begin` up to but not including `end`. */
  datatype Row = Row(begin: nat, end: nat)

  ghost predicate ValidRow(points: seq<Point>, row: Row) {
    row.begin < row.end <= |points|
  }

  /** Whether the walk standing on diagonal d advances its lower end. */
  predicate AdvancesLower(points: seq<Point>, d: Diagonal, lowerEnd: nat, upperEnd: nat)
    requires d.lower < lowerEnd <= |points| && d.upper < upperEnd <= |points|
  {
    if d.upper + 1 == upperEnd then true
    else if d.lower + 1 == lowerEnd then false
    else points[d.lower + 1].x < points[d.upper + 1].x
  }

  /** The diagonal after d. */
  ghost function NextDiagonal(points: seq<Point>, d: Diagonal, lowerEnd: nat, upperEnd: nat): Diagonal
    requires d.lower < lowerEnd <= |points| && d.upper < upperEnd <= |points|
  {
    if AdvancesLower(points, d, lowerEnd, upperEnd) then Diagonal(d.lower + 1, d.upper)
    else Diagonal(d.lower, d.upper + 1)
  }

  /** The diagonals the walk stands on, from d to the diagonal between the two last vertices. */
  ghost function Walked(points: seq<Point>, d: Diagonal, lowerEnd: nat, upperEnd: nat): (path: seq<Diagonal>)
    requires d.lower < lowerEnd <= |points| && d.upper < upperEnd <= |points|
    ensures Linked(|points|, path) && path != [] && path[0] == d
    decreases lowerEnd - d.lower + upperEnd - d.upper
  {
    if d.lower + 1 == lowerEnd && d.upper + 1 == upperEnd then [d]
    else
      var rest := Walked(points, NextDiagonal(points, d, lowerEnd, upperEnd), lowerEnd, upperEnd);
      PrependLinked(|points|, d, rest);
      [d] + rest
  }

  /** The walk takes one move per remaining vertex and ends between the two last vertices. */
  lemma {:induction false} WalkedEnds(points: seq<Point>, d: Diagonal, lowerEnd: nat, upperEnd: nat)
    requires d.lower < lowerEnd <= |points| && d.upper < upperEnd <= |points|
    ensures var path := Walked(points, d, lowerEnd, upperEnd);
            && |path| == (lowerEnd - d.lower) + (upperEnd - d.upper) - 1
            && path[|path| - 1] == Diagonal(lowerEnd - 1, upperEnd - 1)
            && (forall e :: e in path ==> d.lower <= e.lower < lowerEnd && d.upper <= e.upper < upperEnd)
    decreases lowerEnd - d.lower + upperEnd - d.upper
  {
    if d.lower + 1 < lowerEnd || d.upper + 1 < upperEnd {
      WalkedEnds(points, NextDiagonal(points, d, lowerEnd, upperEnd), lowerEnd, upperEnd);
    }
  }

  lemma PrependLinked(size: nat, d: Diagonal, rest: seq<Diagonal>)
    requires Linked(size, rest) && rest != [] && d.lower < size && d.upper < size && IsStep(d, rest[0])
    ensures Linked(size, [d] + rest)
  {
    var path := [d] + rest;
    forall k | 0 <= k < |path| - 1
      ensures StepAt(path, k)
    {
      assert k > 0 ==> StepAt(rest, k - 1);
    }
  }

  /** A path that crosses the whole strip, from the first diagonal to the last. */
  ghost predicate Crosses(points: seq<Point>, path: seq<Diagonal>, lower: Row, upper: Row) {
    && ValidRow(points, lower) && ValidRow(points, upper)
    && Linked(|points|, path)
    && |path| == (lower.end - lower.begin) + (upper.end - upper.begin) - 1
    && path[0] == Diagonal(lower.begin, upper.begin)
    && path[|path| - 1] == Diagonal(lower.end - 1, upper.end - 1)
    && (forall d :: d in path ==> lower.begin <= d.lower < lower.end && upper.begin <= d.upper < upper.end)
  }

  ghost function StripPath(points: seq<Point>, lower: Row, upper: Row): (path: seq<Diagonal>)
    requires ValidRow(points, lower) && ValidRow(points, upper)
    ensures Crosses(points, path, lower, upper)
  {
    WalkedEnds(points, Diagonal(lower.begin, upper.begin), lower.end, upper.end);
    Walked(points, Diagonal(lower.begin, upper.begin), lower.end, upper.end)
  }

  /** The triangle list at the end of the strip, when the walk stands on d with the list so far. */
  ghost function Finished(points: seq<Point>, triangles: seq<Triangle>, d: Diagonal, lowerEnd: nat,
                          upperEnd: nat): seq<Triangle>
    requires d.lower < lowerEnd <= |points| && d.upper < upperEnd <= |points|
    decreases lowerEnd - d.lower + upperEnd - d.upper
  {
    if d.lower + 1 == lowerEnd && d.upper + 1 == upperEnd then triangles
    else
      var e := NextDiagonal(points, d, lowerEnd, upperEnd);
      Finished(points, Pushed(points, triangles, Swept(d, e)), e, lowerEnd, upperEnd)
  }

  /** Triangulates one strip, as the exporter's inner loop does. */
  method TriangulateStrip(points: seq<Point>, triangles: seq<Triangle>, lower: Row, upper: Row)
    returns (extended: seq<Triangle>)
    requires ValidRow(points, lower) && ValidRow(points, upper)
    ensures extended == Finished(points, triangles, Diagonal(lower.begin, upper.begin), lower.end, upper.end)
  {
    var lowerPoint, upperPoint := lower.begin, upper.begin;
    extended := triangles;
    ghost var all := Finished(points, triangles, Diagonal(lowerPoint, upperPoint), lower.end, upper.end);
    while lowerPoint + 1 < lower.end || upperPoint + 1 < upper.end
      invariant lower.begin <= lowerPoint < lower.end && upper.begin <= upperPoint < upper.end
      invariant Finished(points, extended, Diagonal(lowerPoint, upperPoint), lower.end, upper.end) == all
      decreases (lower.end - lowerPoint) + (upper.end - upperPoint)
    {
      extended, lowerPoint, upperPoint := AdvanceWalk(points, extended, lowerPoint, upperPoint, lower.end, upper.end);
    }
  }

  /** One iteration of the walk: push the swept triangle and advance one of the two pointers. */
  method AdvanceWalk(points: seq<Point>, triangles: seq<Triangle>, i: nat, j: nat, lowerEnd: nat, upperEnd: nat)
    returns (extended: seq<Triangle>, lowerPoint: nat, upperPoint: nat)
    requires i < lowerEnd <= |points| && j < upperEnd <= |points| && (i + 1 < lowerEnd || j + 1 < upperEnd)
    ensures lowerPoint < lowerEnd && upperPoint < upperEnd
    ensures Diagonal(lowerPoint, upperPoint) == NextDiagonal(points, Diagonal(i, j), lowerEnd, upperEnd)
    ensures Finished(points, extended, Diagonal(lowerPoint, upperPoint), lowerEnd, upperEnd)
         == Finished(points, triangles, Diagonal(i, j), lowerEnd, upperEnd)
  {
    lowerPoint, upperPoint := i, j;
    if upperPoint + 1 == upperEnd {
      extended := AddTriangle(points, triangles, lowerPoint, lowerPoint + 1, upperPoint);
      lowerPoint := lowerPoint + 1;
    } else if lowerPoint + 1 == lowerEnd {
      extended := AddTriangle(points, triangles, lowerPoint, upperPoint, upperPoint + 1);
      upperPoint := upperPoint + 1;
    } else if points[lowerPoint + 1].x < points[upperPoint + 1].x {
      extended := AddTriangle(points, triangles, lowerPoint, lowerPoint + 1, upperPoint);
      lowerPoint := lowerPoint + 1;
    } else {
      extended := AddTriangle(points, triangles, lowerPoint, upperPoint, upperPoint + 1);
      upperPoint := upperPoint + 1;
    }
  }

  /** The triangles the exporter pushes for one strip. */
  ghost function StripMesh(points: seq<Point>, lower: Row, upper: Row): seq<Triangle>
    requires ValidRow(points, lower) && ValidRow(points, upper)
  {
    StripTriangles(points, StripPath(points, lower, upper))
  }

  lemma {:induction false} FinishedAppends(points: seq<Point>, triangles: seq<Triangle>, d: Diagonal, lowerEnd: nat,
                                           upperEnd: nat)
    requires d.lower < lowerEnd <= |points| && d.upper < upperEnd <= |points|
    ensures Finished(points, triangles, d, lowerEnd, upperEnd)
         == triangles + StripTriangles(points, Walked(points, d, lowerEnd, upperEnd))
    decreases lowerEnd - d.lower + upperEnd - d.upper
  {
    if d.lower + 1 < lowerEnd || d.upper + 1 < upperEnd {
      var e := NextDiagonal(points, d, lowerEnd, upperEnd);
      var path := Walked(points, d, lowerEnd, upperEnd);
      assert path[1..] == Walked(points, e, lowerEnd, upperEnd) && path[1] == e;
      var pushed := Oriented(points, Swept(d, e));
      FinishedAppends(points, triangles + pushed, e, lowerEnd, upperEnd);
      Reassociate(triangles, pushed, StripTriangles(points, path[1..]));
    }
  }

  lemma Reassociate<T>(a: seq<T>, b: seq<T>, c: seq<T>)
    ensures (a + b) + c == a + (b + c)
  {
  }

  // ----- Tiling -----

  /** The vertices of a row from `from` on share one height and strictly increase in x. */
  ghost predicate Flat(points: seq<Point>, from: nat, end: nat, y: real)
    requires end <= |points|
  {
    && (forall k :: from <= k < end ==> points[k].y == y)
    && (forall k, l :: from <= k < l < end ==> points[k].x < points[l].x)
  }

  ghost predicate FlatStrip(points: seq<Point>, lower: Row, upper: Row, y0: real, y1: real)
    requires ValidRow(points, lower) && ValidRow(points, upper)
  {
    y0 != y1 && Flat(points, lower.begin, lower.end, y0) && Flat(points, upper.begin, upper.end, y1)
  }

  lemma CrossingIsStaircase(points: seq<Point>, path: seq<Diagonal>, lower: Row, upper: Row, y0: real, y1: real)
    requires Crosses(points, path, lower, upper) && FlatStrip(points, lower, upper, y0, y1)
    ensures Staircase(points, path, y0, y1)
  {
    forall k | 0 <= k < |path| - 1
      ensures ForwardAt(points, path, k)
    {
      assert path[k] in path && path[k + 1] in path && StepAt(path, k);
    }
  }

  /** The strip's trapezoid: points whose height is between the rows and which lie, at their own
      height, between the segment joining the first vertices and the one joining the last. */
  ghost predicate InTrapezoid(points: seq<Point>, lower: Row, upper: Row, x: real, y: real)
    requires ValidRow(points, lower) && ValidRow(points, upper)
  {
    var a, b := points[lower.begin], points[upper.begin];
    var c, d := points[lower.end - 1], points[upper.end - 1];
    a.y != b.y && (
      var t := RelativeHeight(y, a.y, b.y);
      Between(At(a.x, b.x, t), x, At(c.x, d.x, t), t))
  }

  /** A gap of width w times the strip height h is an area the exporter keeps. */
  ghost predicate KeptGap(w: real, h: real) {
    Abs(Times(w, h)) > TOLERANCE
  }

  ghost predicate KeptGapAt(points: seq<Point>, k: nat, h: real)
    requires k + 1 < |points|
  {
    KeptGap(points[k + 1].x - points[k].x, h)
  }

  /** The doubled area of triangles with total base w in a strip of height h. */
  ghost function Slab(h: real, w: real): real {
    Times(Abs(h), w)
  }

  /** Every gap of the row is one the exporter keeps. */
  ghost predicate GapsAboveTolerance(points: seq<Point>, row: Row, h: real)
    requires ValidRow(points, row)
  {
    forall k :: row.begin <= k < row.end - 1 ==> KeptGapAt(points, k, h)
  }

  ghost function PassedWidth(points: seq<Point>, d: Diagonal, e: Diagonal): real
    requires d.lower < |points| && d.upper < |points| && e.lower < |points| && e.upper < |points|
  {
    (points[e.lower].x - points[d.lower].x) + (points[e.upper].x - points[d.upper].x)
  }

  /** The area of a swept triangle is the gap it stands on times the height of the strip. */
  lemma StepArea(points: seq<Point>, d: Diagonal, e: Diagonal, y0: real, y1: real)
    requires GoodStep(points, d, e, y0, y1)
    ensures Abs(SignedArea(points, Swept(d, e))) == Slab(y1 - y0, PassedWidth(points, d, e))
    ensures PassedWidth(points, d, e) > 0.0
  {
    var h, w := y1 - y0, PassedWidth(points, d, e);
    if d.lower < e.lower {
      LowerArea(points, d.lower, d.upper, h);
      assert w == points[d.lower + 1].x - points[d.lower].x;
    } else {
      UpperArea(points, d.lower, d.upper, h);
      assert w == points[d.upper + 1].x - points[d.upper].x;
    }
    AbsProduct(w, h);
  }

  lemma AbsProduct(w: real, h: real)
    requires w > 0.0
    ensures Abs(Times(w, h)) == Times(Abs(h), w) == Abs(-Times(w, h))
  {
    TimesIs(w, h);
    TimesIs(Abs(h), w);
    if h != 0.0 {
      ScaleSign(w, h);
    }
  }

  lemma StepKeptExactlyWhen(points: seq<Point>, d: Diagonal, e: Diagonal, y0: real, y1: real)
    requires GoodStep(points, d, e, y0, y1)
    ensures BelowTolerance(points, Swept(d, e)) <==> !KeptGap(PassedWidth(points, d, e), y1 - y0)
  {
    StepArea(points, d, e, y0, y1);
    KeptBySlab(SignedArea(points, Swept(d, e)), PassedWidth(points, d, e), y1 - y0);
  }

  lemma KeptBySlab(area: real, w: real, h: real)
    requires w > 0.0 && Abs(area) == Slab(h, w)
    ensures -TOLERANCE <= area <= TOLERANCE <==> !KeptGap(w, h)
  {
    AbsProduct(w, h);
  }

  /** The walk advances over every gap of the lower row. */
  lemma {:induction false} LowerGapIsWalked(size: nat, path: seq<Diagonal>, i: nat) returns (k: nat)
    requires Linked(size, path) && path != [] && path[0].lower <= i < path[|path| - 1].lower
    ensures k + 1 < |path| && path[k].lower == i && path[k + 1].lower == i + 1
  {
    k := 0;
    while path[k + 1].lower <= i
      invariant k + 1 < |path| && path[k].lower <= i
      decreases |path| - k
    {
      k := k + 1;
    }
    assert StepAt(path, k);
  }

  lemma {:induction false} UpperGapIsWalked(size: nat, path: seq<Diagonal>, i: nat) returns (k: nat)
    requires Linked(size, path) && path != [] && path[0].upper <= i < path[|path| - 1].upper
    ensures k + 1 < |path| && path[k].upper == i && path[k + 1].upper == i + 1
  {
    k := 0;
    while path[k + 1].upper <= i
      invariant k + 1 < |path| && path[k].upper <= i
      decreases |path| - k
    {
      k := k + 1;
    }
    assert StepAt(path, k);
  }

  lemma LowerGapKept(points: seq<Point>, path: seq<Diagonal>, y0: real, y1: real, i: nat)
    requires Staircase(points, path, y0, y1) && NoneDropped(points, path)
    requires path[0].lower <= i < path[|path| - 1].lower
    ensures i + 1 < |points| && KeptGapAt(points, i, y1 - y0)
  {
    var k := LowerGapIsWalked(|points|, path, i);
    StaircaseStep(points, path, y0, y1, k);
    assert KeptAt(points, path, k);
    StepKeptExactlyWhen(points, path[k], path[k + 1], y0, y1);
    assert PassedWidth(points, path[k], path[k + 1]) == points[i + 1].x - points[i].x;
  }

  lemma UpperGapKept(points: seq<Point>, path: seq<Diagonal>, y0: real, y1: real, i: nat)
    requires Staircase(points, path, y0, y1) && NoneDropped(points, path)
    requires path[0].upper <= i < path[|path| - 1].upper
    ensures i + 1 < |points| && KeptGapAt(points, i, y1 - y0)
  {
    var k := UpperGapIsWalked(|points|, path, i);
    StaircaseStep(points, path, y0, y1, k);
    assert KeptAt(points, path, k);
    StepKeptExactlyWhen(points, path[k], path[k + 1], y0, y1);
    assert PassedWidth(points, path[k], path[k + 1]) == points[i + 1].x - points[i].x;
  }

  /** Every move of a crossing passes one gap of one of its rows. */
  lemma PassedGapIsKept(points: seq<Point>, d: Diagonal, e: Diagonal, lower: Row, upper: Row, y0: real, y1: real)
    requires ValidRow(points, lower) && ValidRow(points, upper) && GoodStep(points, d, e, y0, y1)
    requires lower.begin <= d.lower <= e.lower < lower.end && upper.begin <= d.upper <= e.upper < upper.end
    requires GapsAboveTolerance(points, lower, y1 - y0) && GapsAboveTolerance(points, upper, y1 - y0)
    ensures !BelowTolerance(points, Swept(d, e))
  {
    StepKeptExactlyWhen(points, d, e, y0, y1);
    if d.lower < e.lower {
      assert KeptGapAt(points, d.lower, y1 - y0);
      assert PassedWidth(points, d, e) == points[d.lower + 1].x - points[d.lower].x;
    } else {
      assert KeptGapAt(points, d.upper, y1 - y0);
      assert PassedWidth(points, d, e) == points[d.upper + 1].x - points[d.upper].x;
    }
  }

  lemma NoneDroppedKeepsGaps(points: seq<Point>, path: seq<Diagonal>, lower: Row, upper: Row, y0: real, y1: real)
    requires Crosses(points, path, lower, upper) && Staircase(points, path, y0, y1) && NoneDropped(points, path)
    ensures GapsAboveTolerance(points, lower, y1 - y0) && GapsAboveTolerance(points, upper, y1 - y0)
  {
    var h := y1 - y0;
    forall i | lower.begin <= i < lower.end - 1
      ensures KeptGapAt(points, i, h)
    {
      LowerGapKept(points, path, y0, y1, i);
    }
    forall i | upper.begin <= i < upper.end - 1
      ensures KeptGapAt(points, i, h)
    {
      UpperGapKept(points, path, y0, y1, i);
    }
  }

  lemma GapsKeepAll(points: seq<Point>, path: seq<Diagonal>, lower: Row, upper: Row, y0: real, y1: real)
    requires Crosses(points, path, lower, upper) && Staircase(points, path, y0, y1)
    requires GapsAboveTolerance(points, lower, y1 - y0) && GapsAboveTolerance(points, upper, y1 - y0)
    ensures NoneDropped(points, path)
  {
    forall k | 0 <= k < |path| - 1
      ensures KeptAt(points, path, k)
    {
      StaircaseStep(points, path, y0, y1, k);
      PassedGapIsKept(points, path[k], path[k + 1], lower, upper, y0, y1);
    }
  }

  lemma NoneDroppedExactlyWhen(points: seq<Point>, path: seq<Diagonal>, lower: Row, upper: Row, y0: real, y1: real)
    requires Crosses(points, path, lower, upper) && FlatStrip(points, lower, upper, y0, y1)
    ensures Staircase(points, path, y0, y1)
    ensures NoneDropped(points, path) <==>
      GapsAboveTolerance(points, lower, y1 - y0) && GapsAboveTolerance(points, upper, y1 - y0)
  {
    CrossingIsStaircase(points, path, lower, upper, y0, y1);
    if NoneDropped(points, path) {
      NoneDroppedKeepsGaps(points, path, lower, upper, y0, y1);
    } else if GapsAboveTolerance(points, lower, y1 - y0) && GapsAboveTolerance(points, upper, y1 - y0) {
      GapsKeepAll(points, path, lower, upper, y0, y1);
    }
  }

  /** When the first triangle is dropped, the middle of its gap is not covered by the others. */
  lemma FirstDroppedLeavesHole(points: seq<Point>, path: seq<Diagonal>, y0: real, y1: real) returns (x: real)
    requires Staircase(points, path, y0, y1) && |path| > 1 && !KeptAt(points, path, 0)
    ensures path[0] in path && CrossingAt(points, path[0], 0.5) < x
    ensures Spanned(points, path, y0, y1, x, (y0 + y1) / 2.0)
    ensures !Covered(points, StripTriangles(points, path), x, (y0 + y1) / 2.0)
  {
    var y := (y0 + y1) / 2.0;
    HalfWay(y0, y1);
    StaircaseTail(points, path, y0, y1);
    StepOrder(points, path[0], path[1], y0, y1, 0.5);
    x := (CrossingAt(points, path[0], 0.5) + CrossingAt(points, path[1], 0.5)) / 2.0;
    CrossingsIncrease(points, path[1..], y0, y1, 0.5);
    var rest := StripTriangles(points, path[1..]);
    forall u | u in rest
      ensures !Inside(points, u, x, y)
    {
      TrianglesStaySpanned(points, path[1..], y0, y1, u, x, y);
    }
  }

  /** A dropped triangle leaves a hole halfway between the rows. */
  lemma {:induction false} DroppedLeavesHole(points: seq<Point>, path: seq<Diagonal>, y0: real, y1: real, k: nat)
    returns (x: real)
    requires Staircase(points, path, y0, y1) && k + 1 < |path| && !KeptAt(points, path, k)
    ensures path[0] in path && CrossingAt(points, path[0], 0.5) < x
    ensures Spanned(points, path, y0, y1, x, (y0 + y1) / 2.0)
    ensures !Covered(points, StripTriangles(points, path), x, (y0 + y1) / 2.0)
  {
    if k == 0 {
      x := FirstDroppedLeavesHole(points, path, y0, y1);
    } else {
      var y := (y0 + y1) / 2.0;
      HalfWay(y0, y1);
      StaircaseTail(points, path, y0, y1);
      StepOrder(points, path[0], path[1], y0, y1, 0.5);
      assert !KeptAt(points, path[1..], k - 1) by { assert path[1..][k - 1] == path[k] && path[1..][k] == path[k + 1]; }
      x := DroppedLeavesHole(points, path[1..], y0, y1, k - 1);
      FirstTriangleMisses(points, path[0], path[1], y0, y1, x);
    }
  }

  lemma FirstTriangleMisses(points: seq<Point>, d: Diagonal, e: Diagonal, y0: real, y1: real, x: real)
    requires GoodStep(points, d, e, y0, y1) && CrossingAt(points, e, 0.5) < x
    ensures forall u :: u in Oriented(points, Swept(d, e)) ==> !Inside(points, u, x, (y0 + y1) / 2.0)
  {
    var y := (y0 + y1) / 2.0;
    HalfWay(y0, y1);
    forall u | u in Oriented(points, Swept(d, e))
      ensures !Inside(points, u, x, y)
    {
      StepFillsGap(points, d, e, u, y0, y1, x, y);
    }
  }

  lemma HalfWay(y0: real, y1: real)
    requires y0 != y1
    ensures RelativeHeight((y0 + y1) / 2.0, y0, y1) == 0.5
  {
    var h := y1 - y0;
    var t := RelativeHeight((y0 + y1) / 2.0, y0, y1);
    TimesIs(t, h);
    assert h * (t - 0.5) == 0.0;
    ScaleSign(h, t - 0.5);
  }

  lemma TrapezoidIsSpan(points: seq<Point>, path: seq<Diagonal>, lower: Row, upper: Row, y0: real, y1: real, x: real,
                        y: real)
    requires Crosses(points, path, lower, upper) && Staircase(points, path, y0, y1)
    ensures InTrapezoid(points, lower, upper, x, y) <==> Spanned(points, path, y0, y1, x, y)
  {
    assert path[0] in path && path[|path| - 1] in path;
  }

  lemma HoleInTrapezoid(points: seq<Point>, path: seq<Diagonal>, lower: Row, upper: Row, y0: real, y1: real)
    returns (x: real, y: real)
    requires Crosses(points, path, lower, upper) && Staircase(points, path, y0, y1) && !NoneDropped(points, path)
    ensures InTrapezoid(points, lower, upper, x, y) && !Covered(points, StripTriangles(points, path), x, y)
    ensures y == (y0 + y1) / 2.0 && |path| > 1
  {
    var k :| 0 <= k < |path| - 1 && !KeptAt(points, path, k);
    x := DroppedLeavesHole(points, path, y0, y1, k);
    y := (y0 + y1) / 2.0;
    TrapezoidIsSpan(points, path, lower, upper, y0, y1, x, y);
  }

  /** Two rows of constant distinct height and strictly increasing x: the triangles of a crossing
      never overlap, and they cover exactly the trapezoid between the rows, precisely when no gap
      of either row is so small that its triangle is dropped. */
  lemma CrossingTiles(points: seq<Point>, path: seq<Diagonal>, lower: Row, upper: Row, y0: real, y1: real)
    requires Crosses(points, path, lower, upper) && FlatStrip(points, lower, upper, y0, y1)
    requires lower.begin + 1 < lower.end || upper.begin + 1 < upper.end
    ensures InteriorsDisjoint(points, StripTriangles(points, path))
    ensures (forall x, y :: Covered(points, StripTriangles(points, path), x, y)
                       <==> InTrapezoid(points, lower, upper, x, y))
       <==> GapsAboveTolerance(points, lower, y1 - y0) && GapsAboveTolerance(points, upper, y1 - y0)
  {
    NoneDroppedExactlyWhen(points, path, lower, upper, y0, y1);
    PathDisjoint(points, path, y0, y1);
    if NoneDropped(points, path) {
      forall x, y
        ensures Covered(points, StripTriangles(points, path), x, y) <==> InTrapezoid(points, lower, upper, x, y)
      {
        PathCovers(points, path, y0, y1, x, y);
        TrapezoidIsSpan(points, path, lower, upper, y0, y1, x, y);
      }
    } else {
      var x, y := HoleInTrapezoid(points, path, lower, upper, y0, y1);
    }
  }

  /** The tiling theorem for the walk the exporter takes. */
  lemma StripTiling(points: seq<Point>, lower: Row, upper: Row, y0: real, y1: real)
    requires ValidRow(points, lower) && ValidRow(points, upper) && FlatStrip(points, lower, upper, y0, y1)
    requires lower.begin + 1 < lower.end || upper.begin + 1 < upper.end
    ensures InteriorsDisjoint(points, StripMesh(points, lower, upper))
    ensures (forall x, y :: Covered(points, StripMesh(points, lower, upper), x, y)
                       <==> InTrapezoid(points, lower, upper, x, y))
       <==> GapsAboveTolerance(points, lower, y1 - y0) && GapsAboveTolerance(points, upper, y1 - y0)
  {
    CrossingTiles(points, StripPath(points, lower, upper), lower, upper, y0, y1);
  }

  // ----- Area -----

  ghost function TotalArea(points: seq<Point>, triangles: seq<Triangle>): real {
    if triangles == [] then 0.0
    else (if InRange(points, triangles[0]) then SignedArea(points, triangles[0]) else 0.0)
         + TotalArea(points, triangles[1..])
  }

  lemma {:induction false} TotalAreaConcat(points: seq<Point>, first: seq<Triangle>, rest: seq<Triangle>)
    ensures TotalArea(points, first + rest) == TotalArea(points, first) + TotalArea(points, rest)
  {
    if first == [] {
      assert first + rest == rest;
    } else {
      assert (first + rest)[1..] == first[1..] + rest;
      TotalAreaConcat(points, first[1..], rest);
    }
  }

  /** Whatever the input, only triangles in range with strictly positive area are pushed. */
  lemma {:induction false} PushedArePositive(points: seq<Point>, path: seq<Diagonal>)
    requires Linked(|points|, path)
    ensures forall t :: t in StripTriangles(points, path) ==> InRange(points, t) && SignedArea(points, t) > TOLERANCE
    ensures |path| > 0 ==> |StripTriangles(points, path)| <= |path| - 1
    ensures NoneDropped(points, path) && |path| > 0 ==> |StripTriangles(points, path)| == |path| - 1
  {
    if |path| > 1 {
      LinkedTail(points, path);
      SweptInRange(points, path, 0);
      PushedArePositive(points, path[1..]);
      forall t | t in Oriented(points, Swept(path[0], path[1]))
        ensures InRange(points, t) && SignedArea(points, t) > TOLERANCE
      {
        PushedIsPositive(points, Swept(path[0], path[1]), t);
      }
      if NoneDropped(points, path) {
        NoneDroppedTail(points, path);
      }
    }
  }

  lemma KeptArea(points: seq<Point>, t: Triangle)
    requires InRange(points, t) && !BelowTolerance(points, t)
    ensures TotalArea(points, Oriented(points, t)) == Abs(SignedArea(points, t))
  {
    var pushed := Oriented(points, t);
    assert pushed == [pushed[0]] && pushed[0] in pushed && pushed[1..] == [];
    PushedIsPositive(points, t, pushed[0]);
  }

  /** The doubled areas along a path add up to the height times the widths it passed. */
  lemma {:induction false} PathArea(points: seq<Point>, path: seq<Diagonal>, y0: real, y1: real)
    requires Staircase(points, path, y0, y1) && NoneDropped(points, path)
    ensures path[0] in path && path[|path| - 1] in path
    ensures TotalArea(points, StripTriangles(points, path))
         == Slab(y1 - y0, PassedWidth(points, path[0], path[|path| - 1]))
  {
    if |path| == 1 {
      TimesIs(Abs(y1 - y0), 0.0);
      assert PassedWidth(points, path[0], path[|path| - 1]) == 0.0;
    } else {
      StaircaseTail(points, path, y0, y1);
      NoneDroppedTail(points, path);
      var d, e, last := path[0], path[1], path[|path| - 1];
      var first, rest := Oriented(points, Swept(d, e)), StripTriangles(points, path[1..]);
      assert TotalArea(points, first) == Slab(y1 - y0, PassedWidth(points, d, e)) by {
        StepArea(points, d, e, y0, y1);
        KeptArea(points, Swept(d, e));
      }
      assert TotalArea(points, rest) == Slab(y1 - y0, PassedWidth(points, e, last)) by {
        PathArea(points, path[1..], y0, y1);
        assert path[1..][0] == e && path[1..][|path[1..]| - 1] == last;
      }
      TotalAreaConcat(points, first, rest);
      assert PassedWidth(points, d, last) == PassedWidth(points, d, e) + PassedWidth(points, e, last);
      SlabsAdd(y1 - y0, PassedWidth(points, d, e), PassedWidth(points, e, last), PassedWidth(points, d, last));
    }
  }

  lemma SlabsAdd(h: real, v: real, w: real, sum: real)
    requires sum == v + w
    ensures Slab(h, v) + Slab(h, w) == Slab(h, sum)
  {
    TimesAdds(Abs(h), v, w);
  }

  ghost function RowWidth(points: seq<Point>, row: Row): real
    requires ValidRow(points, row)
  {
    points[row.end - 1].x - points[row.begin].x
  }

  /** The doubled areas of a strip sum to its height times the sum of the widths of its rows. */
  lemma CrossingArea(points: seq<Point>, path: seq<Diagonal>, lower: Row, upper: Row, y0: real, y1: real)
    requires Crosses(points, path, lower, upper) && FlatStrip(points, lower, upper, y0, y1)
    requires GapsAboveTolerance(points, lower, y1 - y0) && GapsAboveTolerance(points, upper, y1 - y0)
    ensures TotalArea(points, StripTriangles(points, path))
         == Slab(y1 - y0, RowWidth(points, lower) + RowWidth(points, upper))
  {
    NoneDroppedExactlyWhen(points, path, lower, upper, y0, y1);
    AreaOfRows(points, path, lower, upper, y0, y1);
  }

  lemma AreaOfRows(points: seq<Point>, path: seq<Diagonal>, lower: Row, upper: Row, y0: real, y1: real)
    requires Crosses(points, path, lower, upper) && Staircase(points, path, y0, y1) && NoneDropped(points, path)
    ensures TotalArea(points, StripTriangles(points, path))
         == Slab(y1 - y0, RowWidth(points, lower) + RowWidth(points, upper))
  {
    var w := RowWidth(points, lower) + RowWidth(points, upper);
    WidthsPassed(points, path, lower, upper);
    AreaOfWidth(points, path, y0, y1, w);
  }

  lemma AreaOfWidth(points: seq<Point>, path: seq<Diagonal>, y0: real, y1: real, w: real)
    requires Staircase(points, path, y0, y1) && NoneDropped(points, path)
    requires path[0] in path && path[|path| - 1] in path && w == PassedWidth(points, path[0], path[|path| - 1])
    ensures TotalArea(points, StripTriangles(points, path)) == Slab(y1 - y0, w)
  {
    PathArea(points, path, y0, y1);
  }

  lemma WidthsPassed(points: seq<Point>, path: seq<Diagonal>, lower: Row, upper: Row)
    requires Crosses(points, path, lower, upper)
    ensures path[0] in path && path[|path| - 1] in path
    ensures PassedWidth(points, path[0], path[|path| - 1]) == RowWidth(points, lower) + RowWidth(points, upper)
  {
  }
}
