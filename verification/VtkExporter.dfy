/** `VtkFieldExporter::export_3d_field_to_vtk`: recover the layers and rows of the grid from the flat
    coordinate buffer, triangulate one layer, extrude it to wedges and write the file. */
module VtkExporter {
  import opened Numeric
  import opened Arithmetic
  import opened Geometry
  import opened Strip
  import opened Walk
  import opened LayerMesh
  import opened Indexing
  import opened VtkFile

  datatype ExportError =
    | EmptyCoordinates
    | CoordinatesNotTriples
    | FieldSizeMismatch
    | EmptyPath
    | IncompleteLayers
    | TooFewLayers
    | TopologyDiffers
    | TooFewRows
    | NoTriangles
    | TooManyCells

  // ----- Points -----

  ghost function CartesianPoint(m: Trig, r: real, phi: real, z: real): Point {
    Point(Times(r, m.cos(phi)), Times(r, m.sin(phi)), z)
  }

  ghost function PointAt(m: Trig, coordinates: seq<real>, i: nat): Point
    requires 3 * i + 2 < |coordinates|
  {
    CartesianPoint(m, coordinates[3 * i], coordinates[3 * i + 1], coordinates[3 * i + 2])
  }

  ghost function CartesianPoints(m: Trig, coordinates: seq<real>): (points: seq<Point>)
    requires |coordinates| % DIMENSION == 0
    ensures |points| == |coordinates| / DIMENSION
    ensures forall i :: 0 <= i < |points| ==> points[i] == PointAt(m, coordinates, i)
  {
    seq(|coordinates| / 3, i requires 0 <= i < |coordinates| / 3 => PointAt(m, coordinates, i))
  }

  method ToCartesian(m: Trig, coordinates: seq<real>) returns (points: seq<Point>)
    requires |coordinates| % DIMENSION == 0
    ensures points == CartesianPoints(m, coordinates)
  {
    points := [];
    var offset := 0;
    while offset < |coordinates|
      invariant 0 <= offset <= |coordinates| && offset == 3 * |points|
      invariant forall i :: 0 <= i < |points| ==> points[i] == PointAt(m, coordinates, i)
    {
      var r := coordinates[offset];
      var phi := coordinates[offset + 1];
      TimesIs(r, m.cos(phi));
      TimesIs(r, m.sin(phi));
      points := points + [Point(r * m.cos(phi), r * m.sin(phi), coordinates[offset + 2])];
      offset := offset + DIMENSION;
    }
  }

  // ----- Layers -----

  predicate SameZ(points: seq<Point>, i: nat, j: nat)
    requires i < |points| && j < |points|
  {
    ApproximatelyEqual(points[i].z, points[j].z)
  }

  /** The number of leading points whose z is compared equal to the first point's, from `known` on. */
  ghost function LayerSizeFrom(points: seq<Point>, known: nat): (size: nat)
    requires 0 < known <= |points|
    ensures known <= size <= |points|
    ensures forall k :: known <= k < size ==> SameZ(points, k, 0)
    ensures size < |points| ==> !SameZ(points, size, 0)
    decreases |points| - known
  {
    if known < |points| && SameZ(points, known, 0) then LayerSizeFrom(points, known + 1) else known
  }

  ghost function LayerSize(points: seq<Point>): nat
    requires points != []
  {
    LayerSizeFrom(points, 1)
  }

  /** The layer size is the only number with its defining property. */
  lemma {:induction false} LayerSizeIs(points: seq<Point>, size: nat, known: nat)
    requires 0 < known <= size <= |points|
    requires forall k :: known <= k < size ==> SameZ(points, k, 0)
    requires size < |points| ==> !SameZ(points, size, 0)
    ensures LayerSizeFrom(points, known) == size
    decreases size - known
  {
    if known < size {
      LayerSizeIs(points, size, known + 1);
    }
  }

  method FindLayerSize(points: seq<Point>) returns (pointsPerLayer: nat)
    requires points != []
    ensures pointsPerLayer == LayerSize(points)
    ensures 0 < pointsPerLayer <= |points|
  {
    pointsPerLayer := 1;
    while pointsPerLayer < |points| && ApproximatelyEqual(points[pointsPerLayer].z, points[0].z)
      invariant 0 < pointsPerLayer <= |points|
      invariant LayerSizeFrom(points, pointsPerLayer) == LayerSize(points)
      decreases |points| - pointsPerLayer
    {
      pointsPerLayer := pointsPerLayer + 1;
    }
  }

  /** Point `point` of layer `layer` has the layer's z and the reference layer's x and y. */
  predicate PointAgrees(points: seq<Point>, size: nat, layer: nat, point: nat)
    requires point < size && layer * size + point < |points|
  {
    var reference, current := points[point], points[layer * size + point];
    && ApproximatelyEqual(current.z, points[layer * size].z)
    && ApproximatelyEqual(current.x, reference.x)
    && ApproximatelyEqual(current.y, reference.y)
  }

  ghost predicate LayerAgrees(points: seq<Point>, size: nat, count: nat, layer: nat)
    requires count * size == |points| && layer < count
  {
    forall point :: 0 <= point < size ==>
                      (PositionInRange(size, count, layer, point); PointAgrees(points, size, layer, point))
  }

  ghost predicate LayersAgree(points: seq<Point>, size: nat, count: nat)
    requires count * size == |points|
  {
    forall layer :: 0 <= layer < count ==> LayerAgrees(points, size, count, layer)
  }

  method CheckLayers(points: seq<Point>, size: nat, count: nat) returns (agree: bool)
    requires count * size == |points|
    ensures agree == LayersAgree(points, size, count)
  {
    for layer := 0 to count
      invariant forall l :: 0 <= l < layer ==> LayerAgrees(points, size, count, l)
    {
      for point := 0 to size
        invariant forall p :: 0 <= p < point ==>
          (PositionInRange(size, count, layer, p); PointAgrees(points, size, layer, p))
      {
        PositionInRange(size, count, layer, point);
        PositionInRange(size, count, layer, 0);
        var layerZ := points[layer * size].z;
        var reference := points[point];
        var current := points[layer * size + point];
        if !ApproximatelyEqual(current.z, layerZ)
           || !ApproximatelyEqual(current.x, reference.x)
           || !ApproximatelyEqual(current.y, reference.y)
        {
          assert !PointAgrees(points, size, layer, point);
          assert !LayerAgrees(points, size, count, layer);
          return false;
        }
      }
      assert LayerAgrees(points, size, count, layer);
    }
    return true;
  }

  // ----- Rows -----

  predicate SameY(points: seq<Point>, i: nat, j: nat)
    requires i < |points| && j < |points|
  {
    ApproximatelyEqual(points[i].y, points[j].y)
  }

  /** Where the row that starts at `begin` ends: at the first point whose y differs from its first. */
  ghost function RowEnd(points: seq<Point>, begin: nat, end: nat, limit: nat): (e: nat)
    requires begin < end <= limit <= |points|
    ensures end <= e <= limit
    decreases limit - end
  {
    if end < limit && SameY(points, end, begin) then RowEnd(points, begin, end + 1, limit) else end
  }

  ghost function RowsFrom(points: seq<Point>, begin: nat, limit: nat): (rows: seq<Row>)
    requires begin <= limit <= |points|
    ensures begin < limit ==> rows != []
    decreases limit - begin
  {
    if begin == limit then []
    else
      var e := RowEnd(points, begin, begin + 1, limit);
      [Row(begin, e)] + RowsFrom(points, e, limit)
  }

  method PartitionRows(points: seq<Point>, limit: nat) returns (rows: seq<Row>)
    requires limit <= |points|
    ensures rows == RowsFrom(points, 0, limit)
  {
    rows := [];
    var begin := 0;
    ghost var all := RowsFrom(points, 0, limit);
    while begin < limit
      invariant 0 <= begin <= limit
      invariant rows + RowsFrom(points, begin, limit) == all
      decreases limit - begin
    {
      ghost var start := begin;
      var end := begin + 1;
      while end < limit && ApproximatelyEqual(points[end].y, points[begin].y)
        invariant begin < end <= limit
        invariant RowEnd(points, begin, end, limit) == RowEnd(points, begin, begin + 1, limit)
        decreases limit - end
      {
        end := end + 1;
      }
      Reassociate(rows, [Row(begin, end)], RowsFrom(points, end, limit));
      rows := rows + [Row(begin, end)];
      begin := end;
    }
  }

  /** Inside the row every point's y is compared equal to the first's, and the next point's is not. */
  ghost predicate IsRow(points: seq<Point>, row: Row, limit: nat) {
    && row.begin < row.end <= limit <= |points|
    && (forall k :: row.begin < k < row.end ==> SameY(points, k, row.begin))
    && (row.end < limit ==> !SameY(points, row.end, row.begin))
  }

  ghost predicate IsPartition(points: seq<Point>, rows: seq<Row>, begin: nat, limit: nat) {
    && begin <= limit <= |points|
    && (rows == [] <==> begin == limit)
    && (rows != [] ==> rows[0].begin == begin && rows[|rows| - 1].end == limit)
    && Contiguous(rows)
    && (forall r :: 0 <= r < |rows| ==> IsRow(points, rows[r], limit))
  }

  lemma {:induction false} RowEndIs(points: seq<Point>, row: Row, end: nat, limit: nat)
    requires IsRow(points, row, limit) && row.begin < end <= row.end
    ensures RowEnd(points, row.begin, end, limit) == row.end
    decreases row.end - end
  {
    if end < row.end {
      RowEndIs(points, row, end + 1, limit);
    }
  }

  lemma {:induction false} RowEndIsRow(points: seq<Point>, begin: nat, end: nat, limit: nat)
    requires begin < end <= limit <= |points|
    requires forall k :: begin < k < end ==> SameY(points, k, begin)
    ensures IsRow(points, Row(begin, RowEnd(points, begin, end, limit)), limit)
    decreases limit - end
  {
    if end < limit && SameY(points, end, begin) {
      RowEndIsRow(points, begin, end + 1, limit);
    }
  }

  lemma PrependRow(row: Row, rows: seq<Row>)
    requires row.begin < row.end && Contiguous(rows) && (rows != [] ==> rows[0].begin == row.end)
    ensures Contiguous([row] + rows)
  {
    var all := [row] + rows;
    forall r | 0 <= r < |all| - 1
      ensures Follows(all, r)
    {
      assert r > 0 ==> Follows(rows, r - 1);
    }
  }

  /** The rows found partition the layer. */
  lemma {:induction false} RowsPartition(points: seq<Point>, begin: nat, limit: nat)
    requires begin <= limit <= |points|
    ensures IsPartition(points, RowsFrom(points, begin, limit), begin, limit)
    decreases limit - begin
  {
    if begin < limit {
      var e := RowEnd(points, begin, begin + 1, limit);
      RowEndIsRow(points, begin, begin + 1, limit);
      RowsPartition(points, e, limit);
      PrependRow(Row(begin, e), RowsFrom(points, e, limit));
      assert RowsFrom(points, begin, limit) == [Row(begin, e)] + RowsFrom(points, e, limit);
    }
  }

  /** Any row list with the partition property is the one the exporter finds. */
  lemma {:induction false} PartitionIsUnique(points: seq<Point>, rows: seq<Row>, begin: nat, limit: nat)
    requires IsPartition(points, rows, begin, limit)
    ensures RowsFrom(points, begin, limit) == rows
    decreases |rows|
  {
    if rows != [] {
      assert IsRow(points, rows[0], limit);
      RowEndIs(points, rows[0], begin + 1, limit);
      assert rows == [rows[0]] + rows[1..];
      if |rows| > 1 {
        ContiguousTail(rows);
        PartitionIsUnique(points, rows[1..], rows[0].end, limit);
      }
    }
  }

  // ----- Wedges -----

  function Shifted(t: Triangle, offset: nat): Triangle {
    Triangle(offset + t.a, offset + t.b, offset + t.c)
  }

  /** The prism over triangle t between two layers. */
  function Extruded(t: Triangle, size: nat, layer: nat): Wedge {
    Wedge(Shifted(t, layer * size), Shifted(t, layer * size + size))
  }

  ghost function LayerWedges(triangles: seq<Triangle>, size: nat, layer: nat): (wedges: seq<Wedge>)
    ensures |wedges| == |triangles|
  {
    seq(|triangles|, k requires 0 <= k < |triangles| => Extruded(triangles[k], size, layer))
  }

  /** The prisms of the first `gaps` gaps between layers. */
  ghost function Wedges(triangles: seq<Triangle>, size: nat, gaps: nat): seq<Wedge> {
    if gaps == 0 then [] else Wedges(triangles, size, gaps - 1) + LayerWedges(triangles, size, gaps - 1)
  }

  lemma {:induction false} WedgeCount(triangles: seq<Triangle>, size: nat, gaps: nat)
    ensures |Wedges(triangles, size, gaps)| == |triangles| * gaps
  {
    if gaps > 0 {
      WedgeCount(triangles, size, gaps - 1);
      assert |triangles| * gaps == |triangles| * (gaps - 1) + |triangles|;
    }
  }

  /** The wedges over all gaps between the layers. */
  ghost function WedgesOver(triangles: seq<Triangle>, size: nat, layers: nat): seq<Wedge>
    requires layers > 0
  {
    Wedges(triangles, size, layers - 1)
  }

  ghost function FieldVector(m: Trig, field: seq<real>, coordinates: seq<real>, i: nat): Point
    requires |field| == |coordinates| && 3 * i + 2 < |field|
  {
    var phi := coordinates[3 * i + 1];
    Point(Times(field[3 * i], m.cos(phi)) - Times(field[3 * i + 1], m.sin(phi)),
          Times(field[3 * i], m.sin(phi)) + Times(field[3 * i + 1], m.cos(phi)),
          field[3 * i + 2])
  }

  ghost function FieldVectors(m: Trig, field: seq<real>, coordinates: seq<real>): (vectors: seq<Point>)
    requires |field| == |coordinates| && |field| % DIMENSION == 0
    ensures |vectors| == |field| / DIMENSION
    ensures forall i :: 0 <= i < |vectors| ==> vectors[i] == FieldVector(m, field, coordinates, i)
  {
    seq(|field| / 3, i requires 0 <= i < |field| / 3 => FieldVector(m, field, coordinates, i))
  }

  // ----- Writing -----

  method WritePoints(points: seq<Point>, output: seq<Token>) returns (written: seq<Token>)
    ensures written == output + PointsSection(points)
  {
    written := output;
    assert points[..0] == [];
    for i := 0 to |points|
      invariant written == output + PointsSection(points[..i])
    {
      assert points[..i + 1][..i] == points[..i];
      written := written + [Number(points[i].x), Number(points[i].y), Number(points[i].z)];
    }
    assert points[..|points|] == points;
  }

  method WriteCells(triangles: seq<Triangle>, size: nat, layers: nat, output: seq<Token>) returns (written: seq<Token>)
    requires layers > 0
    ensures written == output + WedgesSection(Wedges(triangles, size, layers - 1))
  {
    written := output;
    var layer := 0;
    while layer + 1 < layers
      invariant 0 <= layer < layers
      invariant written == output + WedgesSection(Wedges(triangles, size, layer))
    {
      SectionConcat(Wedges(triangles, size, layer), LayerWedges(triangles, size, layer));
      written := WriteGap(triangles, size, layer, written);
      layer := layer + 1;
    }
  }

  /** The wedges between one layer and the next. */
  method WriteGap(triangles: seq<Triangle>, size: nat, layer: nat, output: seq<Token>) returns (written: seq<Token>)
    ensures written == output + WedgesSection(LayerWedges(triangles, size, layer))
  {
    written := output;
    var lowerOffset := layer * size;
    var upperOffset := lowerOffset + size;
    ghost var wedges := LayerWedges(triangles, size, layer);
    assert wedges[..0] == [];
    for k := 0 to |triangles|
      invariant written == output + WedgesSection(wedges[..k])
    {
      assert wedges[..k + 1][..k] == wedges[..k];
      assert wedges[k] == Wedge(Shifted(triangles[k], lowerOffset), Shifted(triangles[k], upperOffset));
      written := WriteWedge(written, triangles[k], lowerOffset, upperOffset);
    }
    assert wedges[..|triangles|] == wedges;
  }

  method WriteWedge(output: seq<Token>, t: Triangle, lowerOffset: nat, upperOffset: nat) returns (written: seq<Token>)
    ensures written == output + WedgeTokens(Wedge(Shifted(t, lowerOffset), Shifted(t, upperOffset)))
  {
    written := output + [Natural(6),
                         Natural(lowerOffset + t.a), Natural(lowerOffset + t.b), Natural(lowerOffset + t.c),
                         Natural(upperOffset + t.a), Natural(upperOffset + t.b), Natural(upperOffset + t.c)];
  }

  lemma {:induction false} SectionConcat(first: seq<Wedge>, rest: seq<Wedge>)
    ensures WedgesSection(first + rest) == WedgesSection(first) + WedgesSection(rest)
  {
    if rest == [] {
      assert first + rest == first;
    } else {
      var front := rest[..|rest| - 1];
      assert (first + rest)[..|first + rest| - 1] == first + front;
      SectionConcat(first, front);
    }
  }

  method WriteTypes(cells: nat, output: seq<Token>) returns (written: seq<Token>)
    ensures written == output + TypesSection(cells)
  {
    written := output;
    for cell := 0 to cells
      invariant written == output + TypesSection(cell)
    {
      written := written + [Natural(13)];
    }
  }

  method WriteVectors(m: Trig, field: seq<real>, coordinates: seq<real>, output: seq<Token>)
    returns (written: seq<Token>)
    requires |field| == |coordinates| && |field| % DIMENSION == 0
    ensures written == output + PointsSection(FieldVectors(m, field, coordinates))
  {
    written := output;
    ghost var vectors := FieldVectors(m, field, coordinates);
    ghost var i := 0;
    assert vectors[..0] == [];
    var offset := 0;
    while offset < |field|
      invariant 0 <= i <= |vectors| && offset == 3 * i
      invariant written == output + PointsSection(vectors[..i])
    {
      assert vectors[..i + 1][..i] == vectors[..i];
      written := WriteVector(m, field, coordinates, offset, i, written);
      offset := offset + DIMENSION;
      i := i + 1;
    }
    assert vectors[..|vectors|] == vectors;
  }

  /** The vector at the given offset, in Cartesian components. */
  method WriteVector(m: Trig, field: seq<real>, coordinates: seq<real>, offset: nat, ghost i: nat, output: seq<Token>)
    returns (written: seq<Token>)
    requires |field| == |coordinates| && offset == 3 * i && offset + 2 < |field|
    ensures written == output + PointTokens(FieldVector(m, field, coordinates, i))
  {
    var phi := coordinates[offset + 1];
    var br, bphi, bz := field[offset], field[offset + 1], field[offset + 2];
    TimesIs(br, m.cos(phi));
    TimesIs(bphi, m.sin(phi));
    TimesIs(br, m.sin(phi));
    TimesIs(bphi, m.cos(phi));
    var bX := br * m.cos(phi) - bphi * m.sin(phi);
    var bY := br * m.sin(phi) + bphi * m.cos(phi);
    assert FieldVector(m, field, coordinates, i) == Point(bX, bY, bz);
    written := output + [Number(bX), Number(bY), Number(bz)];
  }

  // ----- The whole export -----

  /** What the exporter recovers from the points alone. */
  datatype Topology = Topology(size: nat, layers: nat, rows: seq<Row>)

  /** Layers and rows, or the first error that applies. */
  ghost function TopologyOf(points: seq<Point>): (result: Result<Topology, ExportError>)
    requires points != []
    ensures result.Ok? ==>
      var t := result.value;
      && 0 < t.size < |points| && t.layers >= 2 && t.layers * t.size == |points|
      && IsPartition(points, t.rows, 0, t.size) && ValidRows(points, t.rows) && |t.rows| >= 2
      && LayersAgree(points, t.size, t.layers)
    ensures result != Err(TooFewLayers)
  {
    var size := LayerSize(points);
    if size == |points| || |points| % size != 0 then Err(IncompleteLayers)
    else
      var layers := |points| / size;
      LayerCount(|points|, size);
      if !LayersAgree(points, size, layers) then Err(TopologyDiffers)
      else
        var rows := RowsFrom(points, 0, size);
        RowsAreValid(points, size);
        if |rows| < 2 then Err(TooFewRows) else Ok(Topology(size, layers, rows))
  }

  /** With a layer smaller than the whole that divides it, there are at least two layers; so the
      exporter's own check for that never fires. */
  lemma LayerCount(total: nat, size: nat)
    requires 0 < size < total && total % size == 0
    ensures (total / size) * size == total && total / size >= 2
  {
  }

  lemma RowsAreValid(points: seq<Point>, limit: nat)
    requires limit <= |points|
    ensures ValidRows(points, RowsFrom(points, 0, limit))
    ensures IsPartition(points, RowsFrom(points, 0, limit), 0, limit)
  {
    RowsPartition(points, 0, limit);
    var rows := RowsFrom(points, 0, limit);
    forall r | 0 <= r < |rows|
      ensures ValidRow(points, rows[r])
    {
      assert IsRow(points, rows[r], limit);
    }
  }

  method RecoverTopology(points: seq<Point>) returns (result: Result<Topology, ExportError>)
    requires points != []
    ensures result == TopologyOf(points)
  {
    var pointsPerLayer := FindLayerSize(points);
    if pointsPerLayer == |points| || |points| % pointsPerLayer != 0 {
      return Err(IncompleteLayers);
    }
    var layerCount := |points| / pointsPerLayer;
    LayerCount(|points|, pointsPerLayer);
    if layerCount < 2 {
      return Err(TooFewLayers);
    }
    var agree := CheckLayers(points, pointsPerLayer, layerCount);
    if !agree {
      return Err(TopologyDiffers);
    }
    var rows := PartitionRows(points, pointsPerLayer);
    if |rows| < 2 {
      return Err(TooFewRows);
    }
    result := Ok(Topology(pointsPerLayer, layerCount, rows));
  }

  /** The result the exporter owes for its inputs: a mesh, or the first error that applies. */
  ghost function Outcome(m: Trig, field: seq<real>, coordinates: seq<real>, path: string): Result<Mesh, ExportError> {
    if coordinates == [] then Err(EmptyCoordinates)
    else if |coordinates| % DIMENSION != 0 then Err(CoordinatesNotTriples)
    else if |field| != |coordinates| then Err(FieldSizeMismatch)
    else if path == "" then Err(EmptyPath)
    else
      var points := CartesianPoints(m, coordinates);
      match TopologyOf(points)
      case Err(error) => Err(error)
      case Ok(t) => MeshOutcome(points, t, FieldVectors(m, field, coordinates))
  }

  ghost function MeshOutcome(points: seq<Point>, t: Topology, vectors: seq<Point>): Result<Mesh, ExportError>
    requires ValidRows(points, t.rows) && t.layers >= 2
  {
    ExtrusionOutcome(points, t.size, t.layers, vectors, LayerTriangles(points, t.rows))
  }

  ghost function ExtrusionOutcome(points: seq<Point>, size: nat, layers: nat, vectors: seq<Point>,
                                  triangles: seq<Triangle>)
    : (outcome: Result<Mesh, ExportError>)
    requires layers >= 2
    ensures triangles != [] && outcome.Err? ==> outcome.error == TooManyCells
  {
    if triangles == [] then Err(NoTriangles)
    else if !CellsFit(triangles, layers) then Err(TooManyCells)
    else Ok(Mesh(points, WedgesOver(triangles, size, layers), vectors))
  }

  /** Seven numbers for each cell are no more than a `std::size_t` can count. */
  ghost predicate CellsFit(triangles: seq<Triangle>, layers: nat)
    requires layers > 0
  {
    7 * CountTimes(|triangles|, layers - 1) <= SIZE_MAX
  }

  /** The exporter's checks on the number of cells. */
  method CheckCellCount(triangles: nat, gaps: nat) returns (fits: bool, cellCount: nat)
    requires 0 < gaps
    ensures fits <==> triangles * gaps * 7 <= SIZE_MAX
    ensures fits ==> cellCount == triangles * gaps
  {
    cellCount := 0;
    QuotientGuards(triangles, gaps, 7, SIZE_MAX);
    if triangles > SIZE_MAX / gaps {
      return false, 0;
    }
    cellCount := triangles * gaps;
    fits := cellCount <= SIZE_MAX / 7;
  }

  /** `export_3d_field_to_vtk`, up to the file system: the tokens of the file, or the error reported. */
  method Export(m: Trig, field: seq<real>, coordinates: seq<real>, path: string)
    returns (result: Result<seq<Token>, ExportError>)
    ensures match Outcome(m, field, coordinates, path)
            case Ok(mesh) => result == Ok(FileOf(mesh))
            case Err(error) => result == Err(error)
  {
    if coordinates == [] {
      return Err(EmptyCoordinates);
    }
    if |coordinates| % DIMENSION != 0 {
      return Err(CoordinatesNotTriples);
    }
    var numPoints := |coordinates| / DIMENSION;
    if |field| != numPoints * DIMENSION {
      return Err(FieldSizeMismatch);
    }
    if path == "" {
      return Err(EmptyPath);
    }
    var points := ToCartesian(m, coordinates);
    var topology := RecoverTopology(points);
    if topology.Err? {
      return Err(topology.error);
    }
    result := ExportMesh(m, field, coordinates, points, topology.value);
  }

  method ExportMesh(m: Trig, field: seq<real>, coordinates: seq<real>, points: seq<Point>, t: Topology)
    returns (result: Result<seq<Token>, ExportError>)
    requires |coordinates| % DIMENSION == 0 && |field| == |coordinates| && |points| == |field| / DIMENSION
    requires ValidRows(points, t.rows) && t.layers >= 2
    ensures match MeshOutcome(points, t, FieldVectors(m, field, coordinates))
            case Ok(mesh) => result == Ok(FileOf(mesh))
            case Err(error) => result == Err(error)
  {
    var triangles := TriangulateLayer(points, t.rows);
    result := ExportTriangles(m, field, coordinates, points, t, triangles);
  }

  method ExportTriangles(m: Trig, field: seq<real>, coordinates: seq<real>, points: seq<Point>, t: Topology,
                         triangles: seq<Triangle>)
    returns (result: Result<seq<Token>, ExportError>)
    requires |coordinates| % DIMENSION == 0 && |field| == |coordinates| && |points| == |field| / DIMENSION
    requires t.layers >= 2
    ensures match ExtrusionOutcome(points, t.size, t.layers, FieldVectors(m, field, coordinates), triangles)
            case Ok(mesh) => result == Ok(FileOf(mesh))
            case Err(error) => result == Err(error)
  {
    if triangles == [] {
      return Err(NoTriangles);
    }
    CountTimesIs(|triangles|, t.layers - 1);
    var fits, cellCount := CheckCellCount(|triangles|, t.layers - 1);
    if !fits {
      return Err(TooManyCells);
    }
    var output := WriteFile(m, field, coordinates, points, t, triangles, cellCount);
    result := Ok(output);
  }

  method WriteFile(m: Trig, field: seq<real>, coordinates: seq<real>, points: seq<Point>, t: Topology,
                   triangles: seq<Triangle>, cellCount: nat)
    returns (output: seq<Token>)
    requires |coordinates| % DIMENSION == 0 && |field| == |coordinates| && |points| == |field| / DIMENSION
    requires t.layers >= 2 && cellCount == |triangles| * (t.layers - 1)
    ensures output == FileOf(Mesh(points, Wedges(triangles, t.size, t.layers - 1), FieldVectors(m, field, coordinates)))
  {
    WedgeCount(triangles, t.size, t.layers - 1);
    output := WriteGeometry(points, t.size, t.layers, triangles, cellCount);
    output := WriteData(m, field, coordinates, |points|, cellCount, output);
    FileOfParts(points, Wedges(triangles, t.size, t.layers - 1), FieldVectors(m, field, coordinates), cellCount);
  }

  lemma FileOfParts(points: seq<Point>, wedges: seq<Wedge>, vectors: seq<Point>, cells: nat)
    requires |wedges| == cells
    ensures FileOf(Mesh(points, wedges, vectors))
         == Header() + PointPart(points) + CellPart(wedges) + TypePart(cells) + DataPart(vectors)
  {
  }

  /** The header, the points and the cells. */
  method WriteGeometry(points: seq<Point>, size: nat, layers: nat, triangles: seq<Triangle>, cellCount: nat)
    returns (output: seq<Token>)
    requires 0 < layers && cellCount == |triangles| * (layers - 1)
    ensures output == Header() + PointPart(points) + CellPart(Wedges(triangles, size, layers - 1))
  {
    WedgeCount(triangles, size, layers - 1);
    output := [Word("# vtk DataFile Version 3.0"), Word("TPC Analytics Field Data"), Word("ASCII"),
               Word("DATASET UNSTRUCTURED_GRID")];
    ghost var before := output;
    output := output + [Word("POINTS"), Natural(|points|), Word("double")];
    output := WritePoints(points, output);
    SectionAppends(before, "POINTS", |points|, [Word("double")], PointsSection(points));
    before := output;
    output := output + [Word("CELLS"), Natural(cellCount), Natural(cellCount * 7)];
    output := WriteCells(triangles, size, layers, output);
    SectionAppends(before, "CELLS", cellCount, [Natural(cellCount * 7)],
                   WedgesSection(Wedges(triangles, size, layers - 1)));
  }

  /** The cell types and the field vectors. */
  method WriteData(m: Trig, field: seq<real>, coordinates: seq<real>, numPoints: nat, cellCount: nat,
                   before: seq<Token>)
    returns (output: seq<Token>)
    requires |coordinates| % DIMENSION == 0 && |field| == |coordinates| && numPoints == |field| / DIMENSION
    ensures output == before + TypePart(cellCount) + DataPart(FieldVectors(m, field, coordinates))
  {
    output := before + [Word("CELL_TYPES"), Natural(cellCount)];
    output := WriteTypes(cellCount, output);
    SectionAppends(before, "CELL_TYPES", cellCount, [], TypesSection(cellCount));
    ghost var toTypes := output;
    output := output + [Word("POINT_DATA"), Natural(numPoints), Word("VECTORS"), Word("MagneticField"), Word("double")];
    output := WriteVectors(m, field, coordinates, output);
    SectionAppends(toTypes, "POINT_DATA", numPoints, [Word("VECTORS"), Word("MagneticField"), Word("double")],
                   PointsSection(FieldVectors(m, field, coordinates)));
  }

  lemma SectionAppends(before: seq<Token>, name: string, count: nat, more: seq<Token>, data: seq<Token>)
    ensures before + ([Word(name), Natural(count)] + more) + data == before + Section(name, count, more, data)
  {
  }

  // ----- What a successful export guarantees -----

  /** The wedge indices of gap `layer` stay inside the points of its two layers. */
  lemma ExtrudedInRange(points: seq<Point>, t: Triangle, size: nat, layers: nat, layer: nat)
    requires t.a < size && t.b < size && t.c < size && layers * size == |points| && layer + 1 < layers
    ensures var w := Extruded(t, size, layer); InRange(points, w.lower) && InRange(points, w.upper)
  {
    PositionInRange(size, layers, layer + 1, t.a);
    PositionInRange(size, layers, layer + 1, t.b);
    PositionInRange(size, layers, layer + 1, t.c);
    assert (layer + 1) * size == layer * size + size;
  }

  lemma {:induction false} WedgesInRange(points: seq<Point>, triangles: seq<Triangle>, size: nat, layers: nat,
                                         gaps: nat)
    requires layers * size == |points| && gaps < layers
    requires forall t :: t in triangles ==> t.a < size && t.b < size && t.c < size
    ensures forall w :: w in Wedges(triangles, size, gaps) ==> InRange(points, w.lower) && InRange(points, w.upper)
  {
    if gaps > 0 {
      WedgesInRange(points, triangles, size, layers, gaps - 1);
      forall w | w in LayerWedges(triangles, size, gaps - 1)
        ensures InRange(points, w.lower) && InRange(points, w.upper)
      {
        var k :| 0 <= k < |triangles| && w == Extruded(triangles[k], size, gaps - 1);
        ExtrudedInRange(points, triangles[k], size, layers, gaps - 1);
      }
    }
  }

  /** Whatever its input, a successful export describes one point per triple, as many vectors as points,
      at least one wedge, with all indices in range and sizes that fit `std::size_t`. And the file reads
      back as that mesh. */
  lemma ExportIsSound(m: Trig, field: seq<real>, coordinates: seq<real>, path: string)
    requires Outcome(m, field, coordinates, path).Ok?
    ensures var mesh := Outcome(m, field, coordinates, path).value;
            && |mesh.points| == |mesh.vectors| == |coordinates| / DIMENSION
            && IsSoundMesh(mesh)
            && Read(FileOf(mesh)) == Some(mesh)
  {
    var points := CartesianPoints(m, coordinates);
    var t := TopologyOf(points).value;
    RowsWithinLayer(points, t);
    MeshIsSound(points, t, FieldVectors(m, field, coordinates));
    FileRoundTrip(Outcome(m, field, coordinates, path).value);
  }

  ghost predicate IsSoundMesh(mesh: Mesh) {
    && 0 < |mesh.wedges| && |mesh.wedges| * 7 <= SIZE_MAX
    && (forall w :: w in mesh.wedges ==> InRange(mesh.points, w.lower) && InRange(mesh.points, w.upper))
  }

  lemma RowsWithinLayer(points: seq<Point>, t: Topology)
    requires IsPartition(points, t.rows, 0, t.size)
    ensures forall r :: 0 <= r < |t.rows| ==> t.rows[r].end <= t.size
  {
    forall r | 0 <= r < |t.rows|
      ensures t.rows[r].end <= t.size
    {
      assert IsRow(points, t.rows[r], t.size);
    }
  }

  lemma MeshIsSound(points: seq<Point>, t: Topology, vectors: seq<Point>)
    requires ValidRows(points, t.rows) && t.layers >= 2 && t.layers * t.size == |points|
    requires forall r :: 0 <= r < |t.rows| ==> t.rows[r].end <= t.size
    requires MeshOutcome(points, t, vectors).Ok?
    ensures IsSoundMesh(MeshOutcome(points, t, vectors).value)
  {
    var triangles := LayerTriangles(points, t.rows);
    forall u | u in triangles
      ensures u.a < t.size && u.b < t.size && u.c < t.size
    {
      LayerVertices(points, t.rows, t.size, u);
    }
    WedgesInRange(points, triangles, t.size, t.layers, t.layers - 1);
    WedgesFit(triangles, t.size, t.layers);
  }

  lemma WedgesFit(triangles: seq<Triangle>, size: nat, layers: nat)
    requires triangles != [] && layers >= 2 && CellsFit(triangles, layers)
    ensures var wedges := WedgesOver(triangles, size, layers); 0 < |wedges| && |wedges| * 7 <= SIZE_MAX
  {
    WedgeCount(triangles, size, layers - 1);
    CountTimesIs(|triangles|, layers - 1);
    assert 1 * (layers - 1) <= |triangles| * (layers - 1);
  }

  /** The triangles of a layer use only its own points. */
  lemma {:induction false} LayerVertices(points: seq<Point>, rows: seq<Row>, limit: nat, u: Triangle)
    requires ValidRows(points, rows) && (forall r :: 0 <= r < |rows| ==> rows[r].end <= limit)
    requires u in LayerTriangles(points, rows)
    ensures u.a < limit && u.b < limit && u.c < limit
  {
    if u in StripMesh(points, rows[0], rows[1]) {
      StripVertices(points, StripPath(points, rows[0], rows[1]), limit, u);
    } else {
      LayerVertices(points, rows[1..], limit, u);
    }
  }

  lemma {:induction false} StripVertices(points: seq<Point>, path: seq<Diagonal>, limit: nat, u: Triangle)
    requires Linked(|points|, path) && (forall d :: d in path ==> d.lower < limit && d.upper < limit)
    requires u in StripTriangles(points, path)
    ensures u.a < limit && u.b < limit && u.c < limit
  {
    LinkedTail(points, path);
    SweptInRange(points, path, 0);
    assert path[0] in path && path[1] in path && StepAt(path, 0);
    if u in Oriented(points, Swept(path[0], path[1])) {
      PushedIsPositive(points, Swept(path[0], path[1]), u);
    } else {
      StripVertices(points, path[1..], limit, u);
    }
  }
}
