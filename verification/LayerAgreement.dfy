/** What the exporter's checks of layers and rows mean for the points themselves: each error of the recovery as a
    condition on coordinates, and how upright the wedges of an accepted file stand. */
module LayerAgreement {
  import opened Numeric
  import opened Arithmetic
  import opened Geometry
  import opened Indexing
  import opened LayerMesh
  import opened Walk
  import opened VtkExporter
  import opened VtkFile

  /** The points before `size` compare equal in z to the first, and the point at `size`, if any, does not. */
  ghost predicate IsLayerSize(points: seq<Point>, size: nat) {
    && 0 < size <= |points|
    && (forall k :: 0 < k < size ==> ApproximatelyEqual(points[k].z, points[0].z))
    && (size < |points| ==> !ApproximatelyEqual(points[size].z, points[0].z))
  }

  lemma LayerSizeFound(points: seq<Point>, size: nat)
    requires IsLayerSize(points, size)
    ensures LayerSize(points) == size
  {
    forall k | 1 <= k < size
      ensures SameZ(points, k, 0)
    {
    }
    LayerSizeIs(points, size, 1);
  }

  /** Point i differs in x or y from the point of the first layer at its place, or in z from the first point of its own
      layer. */
  ghost predicate DiffersAt(points: seq<Point>, size: nat, i: nat)
    requires 0 < size && i < |points|
  {
    || !ApproximatelyEqual(points[i].x, points[i % size].x)
    || !ApproximatelyEqual(points[i].y, points[i % size].y)
    || !ApproximatelyEqual(points[i].z, points[i - i % size].z)
  }

  /** All y of the first layer compare equal to the first. */
  ghost predicate IsFlatInY(points: seq<Point>, size: nat)
    requires 0 < size <= |points|
  {
    forall k :: 0 <= k < size ==> ApproximatelyEqual(points[k].y, points[0].y)
  }

  lemma DiffersExactlyWhen(points: seq<Point>, size: nat, count: nat, layer: nat, k: nat)
    requires count * size == |points| && layer < count && k < size
    ensures var i := Position(size, layer, k); i < |points|
    ensures DiffersAt(points, size, Position(size, layer, k)) <==> !PointAgrees(points, size, layer, k)
  {
    PositionInRange(size, count, layer, k);
    PositionOf(size, layer, k);
  }

  lemma AgreementIs(points: seq<Point>, size: nat, count: nat)
    requires count * size == |points| && 0 < size
    ensures LayersAgree(points, size, count) <==> forall i :: 0 <= i < |points| ==> !DiffersAt(points, size, i)
  {
    if LayersAgree(points, size, count) {
      forall i | 0 <= i < |points|
        ensures !DiffersAt(points, size, i)
      {
        RowInRange(size, count, i);
        assert LayerAgrees(points, size, count, i / size);
        DiffersExactlyWhen(points, size, count, i / size, i % size);
      }
    }
    if forall i :: 0 <= i < |points| ==> !DiffersAt(points, size, i) {
      forall layer | 0 <= layer < count
        ensures LayerAgrees(points, size, count, layer)
      {
        LayerWithoutDifference(points, size, count, layer);
      }
    }
  }

  lemma LayerWithoutDifference(points: seq<Point>, size: nat, count: nat, layer: nat)
    requires count * size == |points| && layer < count
    requires 0 < size && forall i :: 0 <= i < |points| ==> !DiffersAt(points, size, i)
    ensures LayerAgrees(points, size, count, layer)
  {
    forall k | 0 <= k < size
      ensures layer * size + k < |points| && PointAgrees(points, size, layer, k)
    {
      DiffersExactlyWhen(points, size, count, layer, k);
    }
  }

  /** Every outcome of the recovery, as a condition on the coordinates. */
  lemma RecoveryExactlyWhen(points: seq<Point>, size: nat)
    requires IsLayerSize(points, size)
    ensures var complete := size < |points| && |points| % size == 0;
            var differs := exists i :: 0 <= i < |points| && DiffersAt(points, size, i);
            && (TopologyOf(points) == Err(IncompleteLayers) <==> !complete)
            && (TopologyOf(points) == Err(TopologyDiffers) <==> complete && differs)
            && (TopologyOf(points) == Err(TooFewRows) <==> complete && !differs && IsFlatInY(points, size))
            && (TopologyOf(points).Ok? <==> complete && !differs && !IsFlatInY(points, size))
  {
    LayerSizeFound(points, size);
    if size < |points| && |points| % size == 0 {
      LayerCount(|points|, size);
      AgreementIs(points, size, |points| / size);
      FewRowsExactlyWhen(points, size);
    }
  }

  lemma FewRowsExactlyWhen(points: seq<Point>, size: nat)
    requires 0 < size <= |points|
    ensures |RowsFrom(points, 0, size)| < 2 <==> IsFlatInY(points, size)
  {
    var rows := RowsFrom(points, 0, size);
    RowsPartition(points, 0, size);
    assert ApproximatelyEqual(points[0].y, points[0].y);
    if |rows| < 2 {
      assert IsRow(points, rows[0], size);
      forall k | 0 < k < size
        ensures ApproximatelyEqual(points[k].y, points[0].y)
      {
        assert SameY(points, k, 0);
      }
    } else {
      assert IsRow(points, rows[0], size) && IsRow(points, rows[1], size) && Follows(rows, 0);
      assert !SameY(points, rows[0].end, 0);
    }
  }

  /** Row r holds points whose y compare equal to that of its first, and the next row starts right after it with a y
      that does not. */
  ghost predicate IsRowOfLayer(points: seq<Point>, rows: seq<Row>, r: nat, size: nat)
    requires r < |rows| && size <= |points|
  {
    && rows[r].begin < rows[r].end <= size
    && (forall k :: rows[r].begin < k < rows[r].end ==> ApproximatelyEqual(points[k].y, points[rows[r].begin].y))
    && (r + 1 < |rows| ==>
          && rows[r].end == rows[r + 1].begin < size
          && !ApproximatelyEqual(points[rows[r + 1].begin].y, points[rows[r].begin].y))
  }

  /** Such rows follow each other through the layer. */
  ghost predicate AreRowsOfLayer(points: seq<Point>, rows: seq<Row>, size: nat)
    requires size <= |points|
  {
    && rows != [] && rows[0].begin == 0 && rows[|rows| - 1].end == size
    && forall r :: 0 <= r < |rows| ==> IsRowOfLayer(points, rows, r, size)
  }

  lemma PartitionHasRows(points: seq<Point>, rows: seq<Row>, size: nat)
    requires IsPartition(points, rows, 0, size) && 0 < size
    ensures AreRowsOfLayer(points, rows, size)
  {
    forall r | 0 <= r < |rows|
      ensures IsRowOfLayer(points, rows, r, size)
    {
      assert IsRow(points, rows[r], size);
      forall k | rows[r].begin < k < rows[r].end
        ensures ApproximatelyEqual(points[k].y, points[rows[r].begin].y)
      {
        assert SameY(points, k, rows[r].begin);
      }
      if r + 1 < |rows| {
        assert Follows(rows, r) && IsRow(points, rows[r + 1], size);
      }
    }
  }

  lemma RowsArePartition(points: seq<Point>, rows: seq<Row>, size: nat)
    requires 0 < size <= |points| && AreRowsOfLayer(points, rows, size)
    ensures IsPartition(points, rows, 0, size)
  {
    forall r | 0 <= r < |rows| - 1
      ensures Follows(rows, r)
    {
      assert IsRowOfLayer(points, rows, r, size);
    }
    forall r | 0 <= r < |rows|
      ensures IsRow(points, rows[r], size)
    {
      RowIsRow(points, rows, r, size);
    }
  }

  lemma RowIsRow(points: seq<Point>, rows: seq<Row>, r: nat, size: nat)
    requires 0 < size <= |points| && AreRowsOfLayer(points, rows, size) && r < |rows|
    ensures IsRow(points, rows[r], size)
  {
    assert IsRowOfLayer(points, rows, r, size);
    if r + 1 < |rows| {
      assert IsRowOfLayer(points, rows, r + 1, size);
    }
  }

  /** The rows found are the only ones with that property. */
  lemma RowsAreFound(points: seq<Point>, rows: seq<Row>, size: nat)
    requires 0 < size <= |points|
    ensures RowsFrom(points, 0, size) == rows <==> AreRowsOfLayer(points, rows, size)
  {
    if AreRowsOfLayer(points, rows, size) {
      RowsArePartition(points, rows, size);
      PartitionIsUnique(points, rows, 0, size);
    } else {
      RowsPartition(points, 0, size);
      PartitionHasRows(points, RowsFrom(points, 0, size), size);
    }
  }

  /** Exactly which layer size, number of layers and rows are accepted. */
  ghost predicate IsTopology(points: seq<Point>, t: Topology) {
    && IsLayerSize(points, t.size) && t.size < |points| && t.layers * t.size == |points|
    && (forall i :: 0 <= i < |points| ==> !DiffersAt(points, t.size, i))
    && |t.rows| >= 2 && AreRowsOfLayer(points, t.rows, t.size)
  }

  lemma TwoRowsDiffer(points: seq<Point>, rows: seq<Row>, size: nat)
    requires 0 < size <= |points| && AreRowsOfLayer(points, rows, size) && |rows| >= 2
    ensures !IsFlatInY(points, size)
  {
    assert IsRowOfLayer(points, rows, 0, size);
    assert !ApproximatelyEqual(points[rows[1].begin].y, points[0].y);
  }

  lemma AcceptedIsTopology(points: seq<Point>, t: Topology)
    requires points != [] && TopologyOf(points) == Ok(t)
    ensures IsTopology(points, t)
  {
    LayerSizeFoundIs(points);
    AgreementIs(points, t.size, t.layers);
    RowsAreFound(points, t.rows, t.size);
  }

  lemma LayerSizeFoundIs(points: seq<Point>)
    requires points != []
    ensures IsLayerSize(points, LayerSize(points))
  {
    forall k | 0 < k < LayerSize(points)
      ensures ApproximatelyEqual(points[k].z, points[0].z)
    {
      assert SameZ(points, k, 0);
    }
  }

  lemma LayersDivide(total: nat, size: nat, layers: nat)
    requires 0 < size < total && layers * size == total
    ensures total % size == 0 && total / size == layers
  {
    PositionOf(size, layers, 0);
  }

  /** The recovery succeeds with exactly one topology, the one the points have, and with none if they have none. */
  lemma AcceptedExactlyWhen(points: seq<Point>, t: Topology)
    requires points != []
    ensures TopologyOf(points) == Ok(t) <==> IsTopology(points, t)
  {
    if TopologyOf(points) == Ok(t) {
      AcceptedIsTopology(points, t);
    }
    if IsTopology(points, t) {
      LayersDivide(|points|, t.size, t.layers);
      LayerSizeFound(points, t.size);
      TwoRowsDiffer(points, t.rows, t.size);
      RecoveryExactlyWhen(points, t.size);
      RowsAreFound(points, t.rows, t.size);
    }
  }

  // ----- Accepted wedges -----

  /** Where wedge number `layer * |triangles| + k` stands. */
  lemma {:induction false} WedgeAt(triangles: seq<Triangle>, size: nat, gaps: nat, layer: nat, k: nat)
    requires layer < gaps && k < |triangles|
    ensures var i, t := layer * |triangles| + k, triangles[k];
            && i < |Wedges(triangles, size, gaps)|
            && Wedges(triangles, size, gaps)[i] == Wedge(
              Triangle(layer * size + t.a, layer * size + t.b, layer * size + t.c),
              Triangle((layer + 1) * size + t.a, (layer + 1) * size + t.b, (layer + 1) * size + t.c))
  {
    WedgeCount(triangles, size, gaps - 1);
    WedgeCount(triangles, size, gaps);
    PositionInRange(|triangles|, gaps, layer, k);
    if layer < gaps - 1 {
      WedgeAt(triangles, size, gaps - 1, layer, k);
    } else {
      assert |triangles| * (gaps - 1) == (gaps - 1) * |triangles|;
      assert (layer + 1) * size == layer * size + size;
      assert LayerWedges(triangles, size, layer)[k] == Extruded(triangles[k], size, layer);
    }
  }

  /** Points i and j compare equal in x and y. */
  ghost predicate NearlyAbove(points: seq<Point>, i: nat, j: nat)
    requires i < |points| && j < |points|
  {
    ApproximatelyEqual(points[j].x, points[i].x) && ApproximatelyEqual(points[j].y, points[i].y)
  }

  /** Lower and upper vertex both compare equal in x and y to one vertex of the first layer. */
  ghost predicate NearlyUpright(points: seq<Point>, w: Wedge, t: Triangle)
    requires InRange(points, w.lower) && InRange(points, w.upper) && InRange(points, t)
  {
    && NearlyAbove(points, t.a, w.lower.a) && NearlyAbove(points, t.a, w.upper.a)
    && NearlyAbove(points, t.b, w.lower.b) && NearlyAbove(points, t.b, w.upper.b)
    && NearlyAbove(points, t.c, w.lower.c) && NearlyAbove(points, t.c, w.upper.c)
  }

  /** The vertices of a triangle compare equal in z to the first point of their layer. */
  ghost predicate NearlyLevel(points: seq<Point>, t: Triangle, first: nat)
    requires InRange(points, t) && first < |points|
  {
    && ApproximatelyEqual(points[t.a].z, points[first].z)
    && ApproximatelyEqual(points[t.b].z, points[first].z)
    && ApproximatelyEqual(points[t.c].z, points[first].z)
  }

  lemma VertexAgrees(points: seq<Point>, size: nat, count: nat, layer: nat, v: nat)
    requires count * size == |points| && LayersAgree(points, size, count) && layer < count && v < size
    ensures layer * size + v < |points| && layer * size < |points| && v < |points|
    ensures NearlyAbove(points, v, layer * size + v)
    ensures ApproximatelyEqual(points[layer * size + v].z, points[layer * size].z)
  {
    PositionInRange(size, count, layer, v);
    PositionInRange(size, count, layer, 0);
    PositionInRange(size, count, 0, v);
    assert LayerAgrees(points, size, count, layer);
    assert PointAgrees(points, size, layer, v);
  }

  lemma WedgeAgrees(points: seq<Point>, size: nat, count: nat, t: Triangle, layer: nat)
    requires count * size == |points| && LayersAgree(points, size, count) && layer + 1 < count
    requires t.a < size && t.b < size && t.c < size
    ensures (layer + 1) * size < |points| && layer * size < |points|
    ensures var w := Extruded(t, size, layer);
            && InRange(points, w.lower) && InRange(points, w.upper) && InRange(points, t)
            && NearlyUpright(points, w, t)
            && NearlyLevel(points, w.lower, layer * size) && NearlyLevel(points, w.upper, (layer + 1) * size)
  {
    assert (layer + 1) * size == layer * size + size;
    VertexAgrees(points, size, count, layer, t.a);
    VertexAgrees(points, size, count, layer, t.b);
    VertexAgrees(points, size, count, layer, t.c);
    VertexAgrees(points, size, count, layer + 1, t.a);
    VertexAgrees(points, size, count, layer + 1, t.b);
    VertexAgrees(points, size, count, layer + 1, t.c);
  }

  /** The wedge joins a triangle of the first layer, raised to one layer, to the same raised to the next. */
  ghost predicate StandsOver(points: seq<Point>, w: Wedge, size: nat, layers: nat, t: Triangle, layer: nat) {
    && layer + 1 < layers && t.a < size && t.b < size && t.c < size
    && (layer + 1) * size < |points| && layer * size < |points|
    && InRange(points, w.lower) && InRange(points, w.upper) && InRange(points, t)
    && NearlyUpright(points, w, t)
    && NearlyLevel(points, w.lower, layer * size) && NearlyLevel(points, w.upper, (layer + 1) * size)
  }

  lemma {:induction false} WedgesStand(points: seq<Point>, size: nat, count: nat, triangles: seq<Triangle>, gaps: nat,
                                       w: Wedge)
    returns (t: Triangle, layer: nat)
    requires count * size == |points| && LayersAgree(points, size, count) && gaps < count
    requires forall t :: t in triangles ==> t.a < size && t.b < size && t.c < size
    requires w in Wedges(triangles, size, gaps)
    ensures t in triangles && StandsOver(points, w, size, count, t, layer)
  {
    if w in LayerWedges(triangles, size, gaps - 1) {
      layer := gaps - 1;
      var k :| 0 <= k < |triangles| && w == Extruded(triangles[k], size, layer);
      t := triangles[k];
      WedgeAgrees(points, size, count, t, layer);
    } else {
      t, layer := WedgesStand(points, size, count, triangles, gaps - 1, w);
    }
  }

  lemma TrianglesInLayer(points: seq<Point>, t: Topology)
    requires ValidRows(points, t.rows) && IsPartition(points, t.rows, 0, t.size)
    ensures forall u :: u in LayerTriangles(points, t.rows) ==> u.a < t.size && u.b < t.size && u.c < t.size
  {
    RowsWithinLayer(points, t);
    forall u | u in LayerTriangles(points, t.rows)
      ensures u.a < t.size && u.b < t.size && u.c < t.size
    {
      LayerVertices(points, t.rows, t.size, u);
    }
  }

  /** Every wedge of an accepted file stands upright up to the comparison: its vertices compare equal in x and y to
      those of one triangle of the first layer, and in z to the first point of their own layer. */
  lemma ExportedWedgesStand(m: Trig, field: seq<real>, coordinates: seq<real>, path: string, w: Wedge)
    returns (t: Triangle, size: nat, layers: nat, layer: nat)
    requires Outcome(m, field, coordinates, path).Ok? && w in Outcome(m, field, coordinates, path).value.wedges
    ensures var points := Outcome(m, field, coordinates, path).value.points;
            IsLayerSize(points, size) && layers * size == |points| && StandsOver(points, w, size, layers, t, layer)
  {
    var points := CartesianPoints(m, coordinates);
    var topology := TopologyOf(points).value;
    size, layers := topology.size, topology.layers;
    LayerSizeFoundIs(points);
    TrianglesInLayer(points, topology);
    t, layer := WedgesStand(points, size, layers, LayerTriangles(points, topology.rows), layers - 1, w);
  }

  // ----- The whole export -----

  /** Inputs that are rejected before any point is looked at: which error, and that there is no other reason. */
  lemma InputsRejectedExactlyWhen(m: Trig, field: seq<real>, coordinates: seq<real>, path: string)
    ensures var outcome, n := Outcome(m, field, coordinates, path), |coordinates|;
      && (outcome == Err(EmptyCoordinates) <==> n == 0)
      && (outcome == Err(CoordinatesNotTriples) <==> n % 3 != 0)
      && (outcome == Err(FieldSizeMismatch) <==> n > 0 && n % 3 == 0 && |field| != n)
      && (outcome == Err(EmptyPath) <==> n > 0 && n % 3 == 0 && |field| == n && |path| == 0)
  {
    if |coordinates| > 0 && |coordinates| % 3 == 0 && |field| == |coordinates| && |path| > 0 {
      LaterErrors(CartesianPoints(m, coordinates), FieldVectors(m, field, coordinates));
    }
  }

  lemma LaterErrors(points: seq<Point>, vectors: seq<Point>)
    requires points != []
    ensures TopologyOf(points).Err? ==> TopologyOf(points).error in {IncompleteLayers, TopologyDiffers, TooFewRows}
    ensures TopologyOf(points).Ok? ==>
      var outcome := MeshOutcome(points, TopologyOf(points).value, vectors);
      outcome.Ok? || outcome.error in {NoTriangles, TooManyCells}
  {
  }

  /** All other inputs fail exactly if the points have no topology, the layer has no triangle, or seven times the cells
      do not fit a `std::size_t`; otherwise the mesh holds the points and the vectors, and a cell for each triangle
      and each gap. */
  lemma ExportedExactlyWhen(m: Trig, field: seq<real>, coordinates: seq<real>, path: string, t: Topology)
    requires |coordinates| > 0 && |coordinates| % 3 == 0 && |field| == |coordinates| && |path| > 0
    requires IsTopology(CartesianPoints(m, coordinates), t)
    ensures ValidRows(CartesianPoints(m, coordinates), t.rows)
    ensures var outcome, points := Outcome(m, field, coordinates, path), CartesianPoints(m, coordinates);
      IsExportOf(points, FieldVectors(m, field, coordinates), t, LayerTriangles(points, t.rows), outcome)
  {
    var points := CartesianPoints(m, coordinates);
    AcceptedExactlyWhen(points, t);
    MeshIsExport(points, FieldVectors(m, field, coordinates), t, LayerTriangles(points, t.rows));
  }

  lemma MeshIsExport(points: seq<Point>, vectors: seq<Point>, t: Topology, triangles: seq<Triangle>)
    requires t.layers >= 2
    ensures IsExportOf(points, vectors, t, triangles, ExtrusionOutcome(points, t.size, t.layers, vectors, triangles))
  {
    CountTimesIs(|triangles|, t.layers - 1);
    WedgeCount(triangles, t.size, t.layers - 1);
  }

  ghost predicate IsExportOf(points: seq<Point>, vectors: seq<Point>, t: Topology, triangles: seq<Triangle>,
                             outcome: Result<Mesh, ExportError>)
  {
    var cells := |triangles| * (t.layers - 1);
    if |triangles| == 0 then outcome == Err(NoTriangles)
    else if 7 * cells > 18446744073709551615 then outcome == Err(TooManyCells)
    else outcome.Ok? && outcome.value == Mesh(points, outcome.value.wedges, vectors) && |outcome.value.wedges| == cells
  }

  lemma NotExportedWithoutTopology(m: Trig, field: seq<real>, coordinates: seq<real>, path: string)
    requires |coordinates| > 0 && |coordinates| % 3 == 0
    requires forall t :: !IsTopology(CartesianPoints(m, coordinates), t)
    ensures Outcome(m, field, coordinates, path).Err?
  {
    var points := CartesianPoints(m, coordinates);
    if TopologyOf(points).Ok? {
      AcceptedIsTopology(points, TopologyOf(points).value);
    }
  }
}
