/** Wedges as right prisms, and the volume of a mesh extruded over copied layers. */
module Extrusion {
  import opened Numeric
  import opened Geometry
  import opened Walk
  import opened VtkExporter
  import opened VtkFile

  /** Twice the volume of a right prism: twice its base area times its height. */
  ghost function PrismVolume(points: seq<Point>, w: Wedge): real
    requires InRange(points, w.lower) && InRange(points, w.upper)
  {
    Times(SignedArea(points, w.lower), points[w.upper.a].z - points[w.lower.a].z)
  }

  /** The upper vertices lie straight above the lower ones, each triangle at one height. */
  ghost predicate IsPrism(points: seq<Point>, w: Wedge)
    requires InRange(points, w.lower) && InRange(points, w.upper)
  {
    && Above(points, w.lower.a, w.upper.a) && Above(points, w.lower.b, w.upper.b) && Above(points, w.lower.c, w.upper.c)
    && points[w.lower.a].z == points[w.lower.b].z == points[w.lower.c].z
    && points[w.upper.a].z == points[w.upper.b].z == points[w.upper.c].z
  }

  ghost predicate Above(points: seq<Point>, i: nat, j: nat)
    requires i < |points| && j < |points|
  {
    points[i].x == points[j].x && points[i].y == points[j].y
  }

  ghost function MeshVolume(points: seq<Point>, wedges: seq<Wedge>): real {
    if wedges == [] then 0.0
    else (if InRange(points, wedges[0].lower) && InRange(points, wedges[0].upper)
          then PrismVolume(points, wedges[0]) else 0.0)
         + MeshVolume(points, wedges[1..])
  }

  lemma {:induction false} MeshVolumeConcat(points: seq<Point>, first: seq<Wedge>, rest: seq<Wedge>)
    ensures MeshVolume(points, first + rest) == MeshVolume(points, first) + MeshVolume(points, rest)
  {
    if first == [] {
      assert first + rest == rest;
    } else {
      assert (first + rest)[1..] == first[1..] + rest;
      MeshVolumeConcat(points, first[1..], rest);
    }
  }

  ghost predicate CopiedAt(points: seq<Point>, size: nat, layer: nat, k: nat) {
    && layer * size + k < |points| && k < |points| && layer * size < |points|
    && points[layer * size + k] == Point(points[k].x, points[k].y, points[layer * size].z)
  }

  /** All layers are copies of the first at their own height. */
  ghost predicate CopiedLayers(points: seq<Point>, size: nat, layers: nat) {
    forall layer, k :: 0 <= layer < layers && 0 <= k < size ==> CopiedAt(points, size, layer, k)
  }

  lemma ExtrudedIsPrism(points: seq<Point>, size: nat, layers: nat, t: Triangle, layer: nat)
    requires CopiedLayers(points, size, layers) && layer + 1 < layers && t.a < size && t.b < size && t.c < size
    ensures var w := Extruded(t, size, layer);
            && InRange(points, t) && InRange(points, w.lower) && InRange(points, w.upper)
            && IsPrism(points, w)
            && points[w.lower.a].z == points[layer * size].z && points[w.upper.a].z == points[layer * size + size].z
            && SignedArea(points, w.lower) == SignedArea(points, t)
  {
    assert CopiedAt(points, size, layer, t.a) && CopiedAt(points, size, layer, t.b);
    assert CopiedAt(points, size, layer, t.c);
    assert CopiedAt(points, size, layer + 1, t.a) && CopiedAt(points, size, layer + 1, t.b);
    assert CopiedAt(points, size, layer + 1, t.c);
    assert (layer + 1) * size == layer * size + size;
  }

  ghost predicate VerticesBelow(triangles: seq<Triangle>, size: nat) {
    forall t :: t in triangles ==> t.a < size && t.b < size && t.c < size
  }

  lemma FirstPrism(points: seq<Point>, size: nat, layers: nat, triangles: seq<Triangle>, layer: nat, h: real)
    requires CopiedLayers(points, size, layers) && layer + 1 < layers && layer * size + size < |points|
    requires points[layer * size + size].z - points[layer * size].z == h
    requires triangles != [] && triangles[0].a < size && triangles[0].b < size && triangles[0].c < size
    ensures InRange(points, triangles[0])
    ensures MeshVolume(points, LayerWedges(triangles, size, layer))
         == Times(SignedArea(points, triangles[0]), h) + MeshVolume(points, LayerWedges(triangles[1..], size, layer))
  {
    ExtrudedIsPrism(points, size, layers, triangles[0], layer);
    assert LayerWedges(triangles, size, layer)[1..] == LayerWedges(triangles[1..], size, layer);
  }

  /** The prisms over one gap of height h between layers: their volumes add up to area times height. */
  lemma {:induction false} GapVolume(points: seq<Point>, size: nat, layers: nat, triangles: seq<Triangle>, layer: nat,
                                     h: real)
    requires CopiedLayers(points, size, layers) && layer + 1 < layers && layer * size + size < |points|
    requires points[layer * size + size].z - points[layer * size].z == h
    requires VerticesBelow(triangles, size)
    ensures MeshVolume(points, LayerWedges(triangles, size, layer)) == Times(TotalArea(points, triangles), h)
  {
    if triangles == [] {
      TimesIs(0.0, h);
    } else {
      FirstPrism(points, size, layers, triangles, layer, h);
      GapVolume(points, size, layers, triangles[1..], layer, h);
      TimesDistributes(SignedArea(points, triangles[0]), TotalArea(points, triangles[1..]), h);
    }
  }

  lemma LayerStarts(points: seq<Point>, size: nat, layers: nat, layer: nat)
    requires CopiedLayers(points, size, layers) && layer < layers && size > 0
    ensures layer * size < |points|
  {
    assert CopiedAt(points, size, layer, 0);
  }

  /** The volumes of the extruded mesh telescope over the layers. */
  lemma {:induction false} ExtrusionVolume(points: seq<Point>, size: nat, layers: nat, triangles: seq<Triangle>,
                                           gaps: nat)
    requires CopiedLayers(points, size, layers) && gaps < layers && size > 0
    requires VerticesBelow(triangles, size)
    ensures 0 < |points| && gaps * size < |points|
    ensures MeshVolume(points, Wedges(triangles, size, gaps))
         == Times(TotalArea(points, triangles), points[gaps * size].z - points[0].z)
  {
    LayerStarts(points, size, layers, gaps);
    var area := TotalArea(points, triangles);
    if gaps == 0 {
      TimesIs(area, 0.0);
    } else {
      var below := (gaps - 1) * size;
      assert below + size == gaps * size;
      ExtrusionVolume(points, size, layers, triangles, gaps - 1);
      GapVolume(points, size, layers, triangles, gaps - 1, points[below + size].z - points[below].z);
      MeshVolumeConcat(points, Wedges(triangles, size, gaps - 1), LayerWedges(triangles, size, gaps - 1));
      TimesAdds(area, points[below].z - points[0].z, points[below + size].z - points[below].z);
    }
  }

  /** Prisms between copied layers whose first and last are `depth` apart. */
  lemma VolumeOfCopies(points: seq<Point>, size: nat, layers: nat, triangles: seq<Triangle>, depth: real)
    requires CopiedLayers(points, size, layers) && size > 0 && layers > 0 && (layers - 1) * size < |points|
    requires VerticesBelow(triangles, size)
    requires points[(layers - 1) * size].z - points[0].z == depth
    ensures MeshVolume(points, WedgesOver(triangles, size, layers)) == Times(TotalArea(points, triangles), depth)
  {
    ExtrusionVolume(points, size, layers, triangles, layers - 1);
  }
}
