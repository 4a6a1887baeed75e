/** What the exporter makes of layers that are copies of each other, when it takes the first few for one: exactly
    which error it reports, and which topology it accepts otherwise. */
module MergedLayers {
  import opened Numeric
  import opened Geometry
  import opened Indexing
  import opened Walk
  import opened LayerMesh
  import opened VtkExporter
  import opened Extrusion

  /** Equal layers of n points each, one above the other. */
  ghost predicate Stacked(points: seq<Point>, n: nat, layers: nat) {
    n > 0 && layers >= 2 && |points| == layers * n && CopiedLayers(points, n, layers)
  }

  /** Layer a compares equal in height to layer b. */
  ghost predicate SameLayer(points: seq<Point>, n: nat, a: nat, b: nat) {
    a * n < |points| && b * n < |points| && SameZ(points, a * n, b * n)
  }

  /** The first c layers, and no further one in a row, compare equal to the first. */
  ghost predicate IsMerge(points: seq<Point>, n: nat, layers: nat, c: nat) {
    && 1 <= c <= layers
    && (forall layer :: 0 <= layer < c ==> SameLayer(points, n, layer, 0))
    && (c < layers ==> !SameLayer(points, n, c, 0))
  }

  lemma PointOfStack(points: seq<Point>, n: nat, layers: nat, i: nat)
    requires Stacked(points, n, layers) && i < |points|
    ensures i / n < layers && i % n < n && (i / n) * n < |points| && i % n < |points|
    ensures points[i] == Point(points[i % n].x, points[i % n].y, points[(i / n) * n].z)
  {
    RowInRange(n, layers, i);
    assert CopiedAt(points, n, i / n, i % n);
  }

  // ----- The layer size -----

  lemma MergedSize(points: seq<Point>, n: nat, layers: nat, c: nat)
    requires Stacked(points, n, layers) && IsMerge(points, n, layers, c)
    ensures 0 < c * n <= |points| && LayerSize(points) == c * n
  {
    var size := c * n;
    MergedSizeInRange(n, layers, c);
    forall k | 1 <= k < size
      ensures SameZ(points, k, 0)
    {
      MergedPointSameZ(points, n, layers, c, k);
    }
    LayerSizeIs(points, size, 1);
  }

  lemma MergedSizeInRange(n: nat, layers: nat, c: nat)
    requires n > 0 && 1 <= c <= layers
    ensures n <= c * n <= layers * n && (c * n < layers * n ==> c < layers)
  {
    assert (layers - c) * n == layers * n - c * n;
    assert (c - 1) * n == c * n - n;
  }

  lemma MergedPointSameZ(points: seq<Point>, n: nat, layers: nat, c: nat, k: nat)
    requires Stacked(points, n, layers) && IsMerge(points, n, layers, c) && k < c * n && k < |points|
    ensures SameZ(points, k, 0)
  {
    PointOfStack(points, n, layers, k);
    RowInRange(n, c, k);
    assert SameLayer(points, n, k / n, 0);
  }

  /** Merging c layers of n points divides the points evenly exactly if c divides the layers. */
  lemma MergeDivides(layers: nat, n: nat, c: nat)
    requires n > 0 && 1 <= c <= layers
    ensures (layers * n) % (c * n) == 0 <==> layers % c == 0
    ensures layers % c == 0 ==> (layers * n) / (c * n) == layers / c
    ensures layers * n == c * n <==> layers == c
  {
    var q, r := layers / c, layers % c;
    SplitMerge(layers, n, c, q, r);
    PositionInRange(n, c, r, 0);
    PositionOf(c * n, q, r * n);
    MergeIsAll(layers, n, c);
  }

  lemma SplitMerge(layers: nat, n: nat, c: nat, q: nat, r: nat)
    requires layers == q * c + r && n > 0
    ensures layers * n == Position(c * n, q, r * n) && (r * n == 0 <==> r == 0)
  {
    assert (q * c + r) * n == (q * c) * n + r * n;
    assert (q * c) * n == q * (c * n);
  }

  lemma MergeIsAll(layers: nat, n: nat, c: nat)
    requires n > 0 && 1 <= c <= layers
    ensures layers * n == c * n <==> layers == c
  {
    assert (layers - c) * n == layers * n - c * n;
    assert layers > c ==> (layers - c) * n > 0;
  }

  // ----- Agreement of the merged layers -----

  /** In every group of c layers all compare equal in height to the lowest. */
  ghost predicate GroupsAgree(points: seq<Point>, n: nat, c: nat, groups: nat) {
    forall group, s :: 0 <= group < groups && 0 <= s < c ==> LayerJoins(points, n, c, group, s)
  }

  ghost predicate LayerJoins(points: seq<Point>, n: nat, c: nat, group: nat, s: nat) {
    SameLayer(points, n, group * c + s, group * c)
  }

  /** Point p of a group is point k of its layer s. */
  lemma MergedPointAgrees(points: seq<Point>, n: nat, layers: nat, c: nat, group: nat, s: nat, k: nat, p: nat)
    requires Stacked(points, n, layers) && group * c + s < layers && s < c && k < n && p == s * n + k
    ensures p < c * n && group * (c * n) + p < |points|
    ensures PointAgrees(points, c * n, group, p) <==> LayerJoins(points, n, c, group, s)
  {
    PositionInRange(n, c, s, k);
    PositionInRange(n, layers, group * c + s, k);
    PositionInRange(n, layers, group * c, 0);
    assert (group * c) * n == group * (c * n);
    assert (group * c + s) * n == group * (c * n) + s * n;
    assert CopiedAt(points, n, group * c + s, k) && CopiedAt(points, n, s, k);
    SelfApproximate(points[k].x);
    SelfApproximate(points[k].y);
  }

  lemma SelfApproximate(x: real)
    ensures ApproximatelyEqual(x, x)
  {
  }

  lemma GroupInRange(layers: nat, c: nat, group: nat, s: nat)
    requires c > 0 && layers % c == 0 && group < layers / c && s < c
    ensures group * c + s < layers
  {
    PositionInRange(c, layers / c, group, s);
  }

  lemma MergedLayersAgree(points: seq<Point>, n: nat, layers: nat, c: nat)
    requires Stacked(points, n, layers) && 1 <= c <= layers && layers % c == 0
    ensures (layers / c) * (c * n) == |points|
    ensures LayersAgree(points, c * n, layers / c) <==> GroupsAgree(points, n, c, layers / c)
  {
    var groups := layers / c;
    assert groups * (c * n) == (groups * c) * n;
    forall group, s | 0 <= group < groups && 0 <= s < c && LayersAgree(points, c * n, groups)
      ensures LayerJoins(points, n, c, group, s)
    {
      GroupInRange(layers, c, group, s);
      MergedPointAgrees(points, n, layers, c, group, s, 0, s * n);
      assert LayerAgrees(points, c * n, groups, group);
      assert PointAgrees(points, c * n, group, s * n);
    }
    if GroupsAgree(points, n, c, groups) {
      forall group | 0 <= group < groups
        ensures LayerAgrees(points, c * n, groups, group)
      {
        GroupAgreesAsLayer(points, n, layers, c, group);
      }
    }
  }

  lemma GroupAgreesAsLayer(points: seq<Point>, n: nat, layers: nat, c: nat, group: nat)
    requires Stacked(points, n, layers) && 1 <= c <= layers && layers % c == 0 && group < layers / c
    requires (layers / c) * (c * n) == |points| && GroupsAgree(points, n, c, layers / c)
    ensures LayerAgrees(points, c * n, layers / c, group)
  {
    forall p | 0 <= p < c * n
      ensures group * (c * n) + p < |points| && PointAgrees(points, c * n, group, p)
    {
      PointOfGroupAgrees(points, n, layers, c, group, p);
    }
  }

  lemma PointOfGroupAgrees(points: seq<Point>, n: nat, layers: nat, c: nat, group: nat, p: nat)
    requires Stacked(points, n, layers) && 1 <= c <= layers && layers % c == 0 && group < layers / c && p < c * n
    requires GroupsAgree(points, n, c, layers / c)
    ensures group * (c * n) + p < |points| && PointAgrees(points, c * n, group, p)
  {
    RowInRange(n, c, p);
    GroupInRange(layers, c, group, p / n);
    assert LayerJoins(points, n, c, group, p / n);
    MergedPointAgrees(points, n, layers, c, group, p / n, p % n, p);
  }

  // ----- The rows of the merged layer -----

  /** Every point of the first layer compares equal in y to the first. */
  ghost predicate IsOneRow(points: seq<Point>, n: nat) {
    n <= |points| && forall k :: 0 <= k < n ==> SameY(points, k, 0)
  }

  lemma OneRowExactlyWhen(points: seq<Point>, limit: nat)
    requires 0 < limit <= |points|
    ensures |RowsFrom(points, 0, limit)| < 2 <==> IsOneRow(points, limit)
  {
    var rows := RowsFrom(points, 0, limit);
    RowsPartition(points, 0, limit);
    SelfApproximate(points[0].y);
    if |rows| < 2 {
      assert IsRow(points, rows[0], limit);
    }
    if IsOneRow(points, limit) {
      var row := Row(0, limit);
      assert IsRow(points, row, limit);
      PartitionIsUnique(points, [row], 0, limit);
    }
  }

  lemma OneRowOfStack(points: seq<Point>, n: nat, layers: nat, c: nat)
    requires Stacked(points, n, layers) && 1 <= c <= layers && c * n <= |points| && n <= c * n
    ensures IsOneRow(points, c * n) <==> IsOneRow(points, n)
  {
    if IsOneRow(points, n) {
      forall k | 0 <= k < c * n
        ensures SameY(points, k, 0)
      {
        PointOfStack(points, n, layers, k);
        assert SameY(points, k % n, 0);
      }
    }
  }

  // ----- The whole reading -----

  /** The reading of a stack whose first c layers are merged, for every stack. */
  lemma ReadingOfStack(points: seq<Point>, n: nat, layers: nat, c: nat)
    requires Stacked(points, n, layers) && IsMerge(points, n, layers, c)
    ensures points != [] && 0 < c * n <= |points|
    ensures TopologyOf(points) ==
      if c == layers || layers % c != 0 then Err(IncompleteLayers)
      else if !GroupsAgree(points, n, c, layers / c) then Err(TopologyDiffers)
      else if IsOneRow(points, n) then Err(TooFewRows)
      else Ok(Topology(c * n, layers / c, RowsFrom(points, 0, c * n)))
  {
    var size := c * n;
    MergedSize(points, n, layers, c);
    MergeDivides(layers, n, c);
    if c < layers && layers % c == 0 {
      MergedLayersAgree(points, n, layers, c);
      MergedRows(points, n, layers, c, size);
      ReadingOfSize(points, size, layers / c);
    }
  }

  lemma MergedRows(points: seq<Point>, n: nat, layers: nat, c: nat, size: nat)
    requires Stacked(points, n, layers) && 1 <= c <= layers && size == c * n <= |points|
    ensures |RowsFrom(points, 0, size)| < 2 <==> IsOneRow(points, n)
  {
    assert 1 * n <= c * n;
    OneRowExactlyWhen(points, size);
    OneRowOfStack(points, n, layers, c);
  }

  /** The exporter's checks once it has found a layer size that divides the points. */
  lemma ReadingOfSize(points: seq<Point>, size: nat, count: nat)
    requires points != [] && LayerSize(points) == size < |points|
    requires |points| % size == 0 && |points| / size == count
    ensures count * size == |points|
    ensures TopologyOf(points) ==
      if !LayersAgree(points, size, count) then Err(TopologyDiffers)
      else if |RowsFrom(points, 0, size)| < 2 then Err(TooFewRows)
      else Ok(Topology(size, count, RowsFrom(points, 0, size)))
  {
    LayerCount(|points|, size);
  }
}
