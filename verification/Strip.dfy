/** The two-pointer walk over the strip between two adjacent rows, as a path of diagonals, and what any
    such path does to the strip: it tiles it. Nothing here depends on which path the exporter chooses; that
    choice is made in `Walk`. */
module Strip {
  import opened Numeric
  import opened Geometry

  /** The segment from a vertex of the lower row to a vertex of the upper row. */
  datatype Diagonal = Diagonal(lower: nat, upper: nat)

  /** One move of the walk: exactly one end of the diagonal advances by one vertex. */
  ghost predicate IsStep(d: Diagonal, e: Diagonal) {
    || e == Diagonal(d.lower + 1, d.upper)
    || e == Diagonal(d.lower, d.upper + 1)
  }

  ghost predicate StepAt(path: seq<Diagonal>, k: nat)
    requires k + 1 < |path|
  {
    IsStep(path[k], path[k + 1])
  }

  ghost predicate Linked(size: nat, path: seq<Diagonal>) {
    && (forall d :: d in path ==> d.lower < size && d.upper < size)
    && (forall k :: 0 <= k < |path| - 1 ==> StepAt(path, k))
  }

  /** The triangle swept when the walk moves from d to e. */
  function Swept(d: Diagonal, e: Diagonal): Triangle {
    if d.lower < e.lower then Triangle(d.lower, d.lower + 1, d.upper)
    else Triangle(d.lower, d.upper, d.upper + 1)
  }

  lemma SweptInRange(points: seq<Point>, path: seq<Diagonal>, k: nat)
    requires Linked(|points|, path) && k + 1 < |path|
    ensures InRange(points, Swept(path[k], path[k + 1]))
  {
    assert path[k] in path && path[k + 1] in path;
    assert StepAt(path, k);
  }

  /** The triangles pushed along a path of diagonals. */
  ghost function StripTriangles(points: seq<Point>, path: seq<Diagonal>): seq<Triangle>
    requires Linked(|points|, path)
  {
    if |path| < 2 then []
    else
      SweptInRange(points, path, 0);
      LinkedTail(points, path);
      Oriented(points, Swept(path[0], path[1])) + StripTriangles(points, path[1..])
  }

  lemma LinkedTail(points: seq<Point>, path: seq<Diagonal>)
    requires Linked(|points|, path) && path != []
    ensures Linked(|points|, path[1..])
  {
    forall k | 0 <= k < |path[1..]| - 1
      ensures StepAt(path[1..], k)
    {
      assert StepAt(path, k + 1);
    }
  }

  // ----- Geometry of a path whose two rows are horizontal and increasing in x -----

  ghost predicate Forward(points: seq<Point>, d: Diagonal, e: Diagonal)
    requires d.lower < |points| && d.upper < |points| && e.lower < |points| && e.upper < |points|
  {
    && (d.lower < e.lower ==> points[d.lower].x < points[e.lower].x)
    && (d.upper < e.upper ==> points[d.upper].x < points[e.upper].x)
  }

  ghost predicate ForwardAt(points: seq<Point>, path: seq<Diagonal>, k: nat)
    requires Linked(|points|, path) && k + 1 < |path|
  {
    assert path[k] in path && path[k + 1] in path;
    Forward(points, path[k], path[k + 1])
  }

  /** One forward move of the walk between two rows at heights y0 and y1. */
  ghost predicate GoodStep(points: seq<Point>, d: Diagonal, e: Diagonal, y0: real, y1: real) {
    && IsStep(d, e)
    && e.lower < |points| && e.upper < |points|
    && Forward(points, d, e)
    && y0 != y1
    && points[d.lower].y == points[e.lower].y == y0
    && points[d.upper].y == points[e.upper].y == y1
  }

  /** A linked path between the heights y0 and y1, whose moves all go forward in x. */
  ghost predicate Staircase(points: seq<Point>, path: seq<Diagonal>, y0: real, y1: real) {
    && path != []
    && Linked(|points|, path)
    && y0 != y1
    && (forall d :: d in path ==> points[d.lower].y == y0 && points[d.upper].y == y1)
    && (forall k :: 0 <= k < |path| - 1 ==> ForwardAt(points, path, k))
  }

  lemma StaircaseStep(points: seq<Point>, path: seq<Diagonal>, y0: real, y1: real, k: nat)
    requires Staircase(points, path, y0, y1) && k + 1 < |path|
    ensures path[k] in path && path[k + 1] in path
    ensures GoodStep(points, path[k], path[k + 1], y0, y1)
  {
    assert path[k] in path && path[k + 1] in path;
    assert StepAt(path, k) && ForwardAt(points, path, k);
  }

  lemma StaircaseTail(points: seq<Point>, path: seq<Diagonal>, y0: real, y1: real)
    requires Staircase(points, path, y0, y1) && |path| > 1
    ensures Staircase(points, path[1..], y0, y1)
    ensures path[0] in path && path[1] in path
    ensures GoodStep(points, path[0], path[1], y0, y1)
  {
    LinkedTail(points, path);
    forall k | 0 <= k < |path[1..]| - 1
      ensures ForwardAt(points, path[1..], k)
    {
      assert ForwardAt(points, path, k + 1);
    }
    StaircaseStep(points, path, y0, y1, 0);
  }

  /** How far y is on the way from y0 to y1. */
  ghost function RelativeHeight(y: real, y0: real, y1: real): real
    requires y0 != y1
  {
    var h := y1 - y0;
    QuotientExists(y - y0, h);
    var t :| Times(t, h) == y - y0;
    t
  }

  lemma QuotientExists(rise: real, h: real)
    requires h != 0.0
    ensures exists t :: Times(t, h) == rise
  {
    var t := rise / h;
    TimesIs(t, h);
    assert Times(t, h) == rise;
  }

  /** Where the diagonal d crosses relative height t. */
  ghost function CrossingAt(points: seq<Point>, d: Diagonal, t: real): real
    requires d.lower < |points| && d.upper < |points|
  {
    At(points[d.lower].x, points[d.upper].x, t)
  }

  ghost predicate Between(lo: real, x: real, hi: real, t: real) {
    0.0 <= t <= 1.0 && lo <= x <= hi
  }

  ghost predicate StrictlyBetween(lo: real, x: real, hi: real, t: real) {
    0.0 < t < 1.0 && lo < x < hi
  }

  lemma CrossingOrder(l: real, l': real, u: real, u': real, t: real)
    requires (l < l' && u == u') || (l == l' && u < u')
    ensures 0.0 <= t <= 1.0 ==> At(l, u, t) <= At(l', u', t)
    ensures l < l' && At(l, u, t) < At(l', u', t) ==> t < 1.0
    ensures l < l' && At(l, u, t) <= At(l', u', t) ==> t <= 1.0
    ensures u < u' && At(l, u, t) < At(l', u', t) ==> t > 0.0
    ensures u < u' && At(l, u, t) <= At(l', u', t) ==> t >= 0.0
    ensures 0.0 < t < 1.0 ==> At(l, u, t) < At(l', u', t)
  {
    TimesIs(t, u - l);
    TimesIs(t, u' - l');
    if l < l' {
      assert At(l', u', t) - At(l, u, t) == (l' - l) * (1.0 - t);
      ScaleSign(l' - l, 1.0 - t);
    } else {
      assert At(l', u', t) - At(l, u, t) == (u' - u) * t;
      ScaleSign(u' - u, t);
    }
  }

  /** Membership in the triangle the exporter pushes for a, b, c, as three tests of one sign. */
  lemma InsideBySigns(points: seq<Point>, t: Triangle, u: Triangle, x: real, y: real)
    requires InRange(points, t) && u in Oriented(points, t)
    ensures var area := SignedArea(points, t);
            var ab := Orient(points[t.a], points[t.b], x, y);
            var bc := Orient(points[t.b], points[t.c], x, y);
            var ca := Orient(points[t.c], points[t.a], x, y);
            && (area > 0.0 ==> (Inside(points, u, x, y) <==> ab >= 0.0 && bc >= 0.0 && ca >= 0.0))
            && (area > 0.0 ==> (Interior(points, u, x, y) <==> ab > 0.0 && bc > 0.0 && ca > 0.0))
            && (area < 0.0 ==> (Inside(points, u, x, y) <==> ab <= 0.0 && bc <= 0.0 && ca <= 0.0))
            && (area < 0.0 ==> (Interior(points, u, x, y) <==> ab < 0.0 && bc < 0.0 && ca < 0.0))
            && area != 0.0
  {
    OrientFlip(points[t.a], points[t.b], x, y);
    OrientFlip(points[t.b], points[t.c], x, y);
    OrientFlip(points[t.c], points[t.a], x, y);
  }

  lemma LowerArea(points: seq<Point>, i: nat, j: nat, h: real)
    requires i + 1 < |points| && j < |points|
    requires points[i].y == points[i + 1].y == points[j].y - h
    ensures SignedArea(points, Triangle(i, i + 1, j)) == Times(points[i + 1].x - points[i].x, h)
  {
    OrientIs(points[i], points[i + 1], points[j].x, points[j].y);
    TimesIs(points[i + 1].x - points[i].x, h);
  }

  lemma UpperArea(points: seq<Point>, i: nat, j: nat, h: real)
    requires i < |points| && j + 1 < |points|
    requires points[j].y == points[j + 1].y == points[i].y + h
    ensures SignedArea(points, Triangle(i, j, j + 1)) == -Times(points[j + 1].x - points[j].x, h)
  {
    var a, b, c := points[i], points[j], points[j + 1];
    OrientIs(a, b, c.x, c.y);
    TimesIs(c.x - b.x, h);
    calc {
      Orient(a, b, c.x, c.y);
      (b.x - a.x) * h - h * (c.x - a.x);
      h * (b.x - c.x);
    }
  }

  lemma LowerAreaSign(points: seq<Point>, i: nat, j: nat, h: real)
    requires i + 1 < |points| && j < |points|
    requires points[i].y == points[i + 1].y == points[j].y - h && points[i].x < points[i + 1].x
    ensures h > 0.0 <==> SignedArea(points, Triangle(i, i + 1, j)) > 0.0
  {
    LowerArea(points, i, j, h);
    TimesSign(points[i + 1].x - points[i].x, h);
  }

  lemma UpperAreaSign(points: seq<Point>, i: nat, j: nat, h: real)
    requires i < |points| && j + 1 < |points|
    requires points[j].y == points[j + 1].y == points[i].y + h && points[j].x < points[j + 1].x
    ensures h < 0.0 <==> SignedArea(points, Triangle(i, j, j + 1)) > 0.0
  {
    UpperArea(points, i, j, h);
    TimesSign(points[j + 1].x - points[j].x, h);
  }

  /** The relative height of a point is in [0, 1] exactly when it lies between the two rows. */
  lemma HeightSigns(h: real, t: real, y: real, y0: real)
    requires y - y0 == Times(t, h) && h != 0.0
    ensures h > 0.0 ==> (y >= y0 <==> t >= 0.0) && (y <= y0 <==> t <= 0.0)
    ensures h > 0.0 ==> (y >= y0 + h <==> t >= 1.0) && (y <= y0 + h <==> t <= 1.0)
    ensures h < 0.0 ==> (y >= y0 <==> t <= 0.0) && (y <= y0 <==> t >= 0.0)
    ensures h < 0.0 ==> (y >= y0 + h <==> t <= 1.0) && (y <= y0 + h <==> t >= 1.0)
  {
    TimesIs(t, h);
    ScaleSign(h, t);
    ScaleSign(h, t - 1.0);
    assert y - (y0 + h) == h * (t - 1.0);
  }

  /** Membership in a triangle standing on the lower row, read off at the height of the point. */
  lemma InsideLower(points: seq<Point>, i: nat, j: nat, u: Triangle, h: real, t: real, x: real, y: real)
    requires i + 1 < |points| && j < |points| && h != 0.0
    requires points[i].y == points[i + 1].y == points[j].y - h && y - points[i].y == Times(t, h)
    requires points[i].x < points[i + 1].x
    requires u in Oriented(points, Triangle(i, i + 1, j))
    ensures var lo := At(points[i].x, points[j].x, t); var hi := At(points[i + 1].x, points[j].x, t);
            && (Inside(points, u, x, y) <==> Between(lo, x, hi, t))
            && (Interior(points, u, x, y) <==> StrictlyBetween(lo, x, hi, t))
  {
    var a, b, c := points[i], points[i + 1], points[j];
    InsideBySigns(points, Triangle(i, i + 1, j), u, x, y);
    LowerAreaSign(points, i, j, h);
    HeightSigns(h, t, y, a.y);
    OrientLevel(a, b, x, y);
    OrientUp(b, c, h, t, x, y);
    OrientUp(a, c, h, t, x, y);
    OrientFlip(a, c, x, y);
    CrossingOrder(a.x, b.x, c.x, c.x, t);
  }

  /** The same for a triangle hanging from the upper row. */
  lemma InsideUpper(points: seq<Point>, i: nat, j: nat, u: Triangle, h: real, t: real, x: real, y: real)
    requires i < |points| && j + 1 < |points| && h != 0.0
    requires points[j].y == points[j + 1].y == points[i].y + h && y - points[i].y == Times(t, h)
    requires points[j].x < points[j + 1].x
    requires u in Oriented(points, Triangle(i, j, j + 1))
    ensures var lo := At(points[i].x, points[j].x, t); var hi := At(points[i].x, points[j + 1].x, t);
            && (Inside(points, u, x, y) <==> Between(lo, x, hi, t))
            && (Interior(points, u, x, y) <==> StrictlyBetween(lo, x, hi, t))
  {
    var a, b, c := points[i], points[j], points[j + 1];
    InsideBySigns(points, Triangle(i, j, j + 1), u, x, y);
    UpperAreaSign(points, i, j, h);
    HeightSigns(h, t, y, a.y);
    OrientLevel(b, c, x, y);
    OrientUp(a, b, h, t, x, y);
    OrientUp(a, c, h, t, x, y);
    OrientFlip(a, c, x, y);
    CrossingOrder(a.x, a.x, b.x, c.x, t);
  }

  /** One move of the walk fills exactly the gap between the two diagonals. */
  lemma StepFillsGap(points: seq<Point>, d: Diagonal, e: Diagonal, u: Triangle, y0: real, y1: real, x: real, y: real)
    requires GoodStep(points, d, e, y0, y1) && u in Oriented(points, Swept(d, e))
    ensures var t := RelativeHeight(y, y0, y1);
            && (Inside(points, u, x, y) <==> Between(CrossingAt(points, d, t), x, CrossingAt(points, e, t), t))
            && (Interior(points, u, x, y) <==>
                  StrictlyBetween(CrossingAt(points, d, t), x, CrossingAt(points, e, t), t))
  {
    if d.lower < e.lower {
      InsideLower(points, d.lower, d.upper, u, y1 - y0, RelativeHeight(y, y0, y1), x, y);
    } else {
      InsideUpper(points, d.lower, d.upper, u, y1 - y0, RelativeHeight(y, y0, y1), x, y);
    }
  }

  lemma StepOrder(points: seq<Point>, d: Diagonal, e: Diagonal, y0: real, y1: real, t: real)
    requires GoodStep(points, d, e, y0, y1)
    ensures 0.0 <= t <= 1.0 ==> CrossingAt(points, d, t) <= CrossingAt(points, e, t)
    ensures 0.0 < t < 1.0 ==> CrossingAt(points, d, t) < CrossingAt(points, e, t)
  {
    CrossingOrder(points[d.lower].x, points[e.lower].x, points[d.upper].x, points[e.upper].x, t);
  }

  lemma {:induction false} CrossingsIncrease(points: seq<Point>, path: seq<Diagonal>, y0: real, y1: real, t: real)
    requires Staircase(points, path, y0, y1) && 0.0 <= t <= 1.0
    ensures path[0] in path && path[|path| - 1] in path
    ensures CrossingAt(points, path[0], t) <= CrossingAt(points, path[|path| - 1], t)
  {
    if |path| > 1 {
      StaircaseTail(points, path, y0, y1);
      StepOrder(points, path[0], path[1], y0, y1, t);
      CrossingsIncrease(points, path[1..], y0, y1, t);
    }
  }

  /** (x, y) lies between the first and the last diagonal of the path. */
  ghost predicate Spanned(points: seq<Point>, path: seq<Diagonal>, y0: real, y1: real, x: real, y: real)
    requires Staircase(points, path, y0, y1)
  {
    assert path[0] in path && path[|path| - 1] in path;
    var t := RelativeHeight(y, y0, y1);
    Between(CrossingAt(points, path[0], t), x, CrossingAt(points, path[|path| - 1], t), t)
  }

  /** The triangles of a path never leave the region between its first and last diagonal, and their
      interiors lie strictly right of the first diagonal. */
  lemma {:induction false} TrianglesStaySpanned(points: seq<Point>, path: seq<Diagonal>, y0: real, y1: real,
                                                u: Triangle, x: real, y: real)
    requires Staircase(points, path, y0, y1) && u in StripTriangles(points, path)
    ensures Inside(points, u, x, y) ==> Spanned(points, path, y0, y1, x, y)
    ensures path[0] in path
    ensures Interior(points, u, x, y) ==>
      var t := RelativeHeight(y, y0, y1); 0.0 < t < 1.0 && CrossingAt(points, path[0], t) < x
  {
    var t := RelativeHeight(y, y0, y1);
    assert path[0] in path;
    if |path| > 1 && (Inside(points, u, x, y) || Interior(points, u, x, y)) {
      StaircaseTail(points, path, y0, y1);
      if u in Oriented(points, Swept(path[0], path[1])) {
        StepFillsGap(points, path[0], path[1], u, y0, y1, x, y);
        CrossingsIncrease(points, path[1..], y0, y1, t);
      } else {
        TrianglesStaySpanned(points, path[1..], y0, y1, u, x, y);
        StepOrder(points, path[0], path[1], y0, y1, t);
      }
    }
  }

  /** No two triangles of a path overlap, whether or not some were dropped as too small. */
  lemma {:induction false} PathDisjoint(points: seq<Point>, path: seq<Diagonal>, y0: real, y1: real)
    requires Staircase(points, path, y0, y1)
    ensures InteriorsDisjoint(points, StripTriangles(points, path))
  {
    if |path| > 1 {
      StaircaseTail(points, path, y0, y1);
      var first := Oriented(points, Swept(path[0], path[1]));
      var rest := StripTriangles(points, path[1..]);
      PathDisjoint(points, path[1..], y0, y1);
      forall u, v, x, y | u in first && v in rest
        ensures !(Interior(points, u, x, y) && Interior(points, v, x, y))
      {
        StepFillsGap(points, path[0], path[1], u, y0, y1, x, y);
        TrianglesStaySpanned(points, path[1..], y0, y1, v, x, y);
      }
      ConcatDisjoint(points, first, rest);
    }
  }

  lemma ConcatDisjoint(points: seq<Point>, first: seq<Triangle>, rest: seq<Triangle>)
    requires InteriorsDisjoint(points, first) && InteriorsDisjoint(points, rest)
    requires forall u, v, x, y :: u in first && v in rest ==> !(Interior(points, u, x, y) && Interior(points, v, x, y))
    ensures InteriorsDisjoint(points, first + rest)
  {
    var all := first + rest;
    forall i, j, x, y | 0 <= i < j < |all|
      ensures !(Interior(points, all[i], x, y) && Interior(points, all[j], x, y))
    {
      if j < |first| {
        assert !(Interior(points, first[i], x, y) && Interior(points, first[j], x, y));
      } else if i < |first| {
        assert first[i] in first && rest[j - |first|] in rest;
      } else {
        assert !(Interior(points, rest[i - |first|], x, y) && Interior(points, rest[j - |first|], x, y));
      }
    }
  }

  ghost predicate KeptAt(points: seq<Point>, path: seq<Diagonal>, k: nat)
    requires Linked(|points|, path) && k + 1 < |path|
  {
    SweptInRange(points, path, k);
    !BelowTolerance(points, Swept(path[k], path[k + 1]))
  }

  ghost predicate NoneDropped(points: seq<Point>, path: seq<Diagonal>)
    requires Linked(|points|, path)
  {
    forall k :: 0 <= k < |path| - 1 ==> KeptAt(points, path, k)
  }

  lemma NoneDroppedTail(points: seq<Point>, path: seq<Diagonal>)
    requires Linked(|points|, path) && |path| > 1 && NoneDropped(points, path)
    ensures Linked(|points|, path[1..]) && NoneDropped(points, path[1..])
    ensures InRange(points, Swept(path[0], path[1])) && !BelowTolerance(points, Swept(path[0], path[1]))
  {
    LinkedTail(points, path);
    SweptInRange(points, path, 0);
    assert KeptAt(points, path, 0);
    forall k | 0 <= k < |path[1..]| - 1
      ensures KeptAt(points, path[1..], k)
    {
      assert KeptAt(points, path, k + 1);
    }
  }

  /** A path none of whose triangles is dropped covers exactly the region between its end diagonals. */
  lemma {:induction false} PathCovers(points: seq<Point>, path: seq<Diagonal>, y0: real, y1: real, x: real, y: real)
    requires Staircase(points, path, y0, y1) && NoneDropped(points, path) && |path| > 1
    ensures Covered(points, StripTriangles(points, path), x, y) <==> Spanned(points, path, y0, y1, x, y)
  {
    var triangles := StripTriangles(points, path);
    forall u | u in triangles && Inside(points, u, x, y)
      ensures Spanned(points, path, y0, y1, x, y)
    {
      TrianglesStaySpanned(points, path, y0, y1, u, x, y);
    }
    if Spanned(points, path, y0, y1, x, y) {
      StaircaseTail(points, path, y0, y1);
      NoneDroppedTail(points, path);
      var t := RelativeHeight(y, y0, y1);
      var u := Oriented(points, Swept(path[0], path[1]))[0];
      StepFillsGap(points, path[0], path[1], u, y0, y1, x, y);
      assert u in triangles;
      if !Inside(points, u, x, y) {
        assert |path| != 2;
        PathCovers(points, path[1..], y0, y1, x, y);
        var v :| v in StripTriangles(points, path[1..]) && Inside(points, v, x, y);
        assert v in triangles;
      }
    }
  }
}
