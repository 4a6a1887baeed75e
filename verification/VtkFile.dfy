/** The volumetric file as a stream of tokens, and a reader driven only by the counts in the file. */
module VtkFile {
  import opened Numeric
  import opened Geometry

  /** White space separates tokens and carries no meaning; numbers keep their exact value. */
  datatype Token = Word(text: string) | Natural(n: nat) | Number(x: real)

  /** Two triangles, one above the other, given by point indices. */
  datatype Wedge = Wedge(lower: Triangle, upper: Triangle)

  datatype Mesh = Mesh(points: seq<Point>, wedges: seq<Wedge>, vectors: seq<Point>)

  const WEDGE_VERTICES: nat := 6
  const VTK_WEDGE: nat := 13

  function Header(): seq<Token> {
    [Word("# vtk DataFile Version 3.0"), Word("TPC Analytics Field Data"), Word("ASCII"),
     Word("DATASET UNSTRUCTURED_GRID")]
  }

  function PointTokens(p: Point): seq<Token> {
    [Number(p.x), Number(p.y), Number(p.z)]
  }

  function WedgeTokens(w: Wedge): seq<Token> {
    [Natural(WEDGE_VERTICES), Natural(w.lower.a), Natural(w.lower.b), Natural(w.lower.c),
     Natural(w.upper.a), Natural(w.upper.b), Natural(w.upper.c)]
  }

  function PointsSection(points: seq<Point>): seq<Token> {
    if points == [] then [] else PointsSection(points[..|points| - 1]) + PointTokens(points[|points| - 1])
  }

  function WedgesSection(wedges: seq<Wedge>): seq<Token> {
    if wedges == [] then [] else WedgesSection(wedges[..|wedges| - 1]) + WedgeTokens(wedges[|wedges| - 1])
  }

  function TypesSection(cells: nat): seq<Token> {
    if cells == 0 then [] else TypesSection(cells - 1) + [Natural(VTK_WEDGE)]
  }

  /** A section: its name, its announced count, further words of its head line, and its data. */
  function Section(name: string, count: nat, more: seq<Token>, data: seq<Token>): seq<Token> {
    [Word(name), Natural(count)] + more + data
  }

  function PointPart(points: seq<Point>): seq<Token> {
    Section("POINTS", |points|, [Word("double")], PointsSection(points))
  }

  function CellPart(wedges: seq<Wedge>): seq<Token> {
    Section("CELLS", |wedges|, [Natural(|wedges| * 7)], WedgesSection(wedges))
  }

  function TypePart(cells: nat): seq<Token> {
    Section("CELL_TYPES", cells, [], TypesSection(cells))
  }

  function DataPart(vectors: seq<Point>): seq<Token> {
    Section("POINT_DATA", |vectors|, [Word("VECTORS"), Word("MagneticField"), Word("double")], PointsSection(vectors))
  }

  /** The file the exporter writes for a mesh. */
  function FileOf(mesh: Mesh): seq<Token> {
    Header() + PointPart(mesh.points) + CellPart(mesh.wedges) + TypePart(|mesh.wedges|) + DataPart(mesh.vectors)
  }

  // ----- Reading -----

  /** Reads n triples of numbers; the result is the triples and what follows them. */
  function ReadPoints(tokens: seq<Token>, n: nat): Option<(seq<Point>, seq<Token>)> {
    if n == 0 then Some(([], tokens))
    else if |tokens| < 3 || !tokens[0].Number? || !tokens[1].Number? || !tokens[2].Number? then None
    else
      match ReadPoints(tokens[3..], n - 1)
      case None => None
      case Some((points, rest)) => Some(([Point(tokens[0].x, tokens[1].x, tokens[2].x)] + points, rest))
  }

  /** Reads the six vertex indices of one cell, after its vertex count. */
  function ReadWedge(tokens: seq<Token>): Option<Wedge> {
    if |tokens| < 7 || tokens[0] != Natural(WEDGE_VERTICES) then None
    else if tokens[1].Natural? && tokens[2].Natural? && tokens[3].Natural?
            && tokens[4].Natural? && tokens[5].Natural? && tokens[6].Natural?
    then Some(Wedge(Triangle(tokens[1].n, tokens[2].n, tokens[3].n), Triangle(tokens[4].n, tokens[5].n, tokens[6].n)))
    else None
  }

  function ReadWedges(tokens: seq<Token>, n: nat): Option<(seq<Wedge>, seq<Token>)> {
    if n == 0 then Some(([], tokens))
    else if |tokens| < 7 then None
    else
      match ReadWedge(tokens[..7])
      case None => None
      case Some(wedge) =>
        match ReadWedges(tokens[7..], n - 1)
        case None => None
        case Some((wedges, rest)) => Some(([wedge] + wedges, rest))
  }

  function ReadTypes(tokens: seq<Token>, n: nat): Option<seq<Token>> {
    if n == 0 then Some(tokens)
    else if tokens == [] || tokens[0] != Natural(VTK_WEDGE) then None
    else ReadTypes(tokens[1..], n - 1)
  }

  /** What follows the given prefix, if the tokens start with it. */
  function Expect(tokens: seq<Token>, prefix: seq<Token>): Option<seq<Token>> {
    if prefix <= tokens then Some(tokens[|prefix|..]) else None
  }

  /** Reads a section "name count"; the result is the count and what follows. */
  function ReadCount(tokens: seq<Token>, name: string): Option<(nat, seq<Token>)> {
    if |tokens| < 2 || tokens[0] != Word(name) || !tokens[1].Natural? then None
    else Some((tokens[1].n, tokens[2..]))
  }

  function ReadPointPart(tokens: seq<Token>): Option<(seq<Point>, seq<Token>)> {
    match ReadCount(tokens, "POINTS")
    case None => None
    case Some((n, rest)) =>
      match Expect(rest, [Word("double")])
      case None => None
      case Some(data) => ReadPoints(data, n)
  }

  function ReadCellPart(tokens: seq<Token>): Option<(seq<Wedge>, seq<Token>)> {
    match ReadCount(tokens, "CELLS")
    case None => None
    case Some((n, rest)) =>
      match Expect(rest, [Natural(n * 7)])
      case None => None
      case Some(data) => ReadWedges(data, n)
  }

  function ReadTypePart(tokens: seq<Token>, cells: nat): Option<seq<Token>> {
    match ReadCount(tokens, "CELL_TYPES")
    case None => None
    case Some((n, data)) => if n == cells then ReadTypes(data, n) else None
  }

  function ReadDataPart(tokens: seq<Token>, points: nat): Option<(seq<Point>, seq<Token>)> {
    match ReadCount(tokens, "POINT_DATA")
    case None => None
    case Some((n, rest)) =>
      match Expect(rest, [Word("VECTORS"), Word("MagneticField"), Word("double")])
      case None => None
      case Some(data) => if n == points then ReadPoints(data, n) else None
  }

  function Read(tokens: seq<Token>): Option<Mesh> {
    match Expect(tokens, Header())
    case None => None
    case Some(afterHeader) =>
      match ReadPointPart(afterHeader)
      case None => None
      case Some((points, afterPoints)) =>
        match ReadCellPart(afterPoints)
        case None => None
        case Some((wedges, afterCells)) =>
          match ReadTypePart(afterCells, |wedges|)
          case None => None
          case Some(afterTypes) =>
            match ReadDataPart(afterTypes, |points|)
            case None => None
            case Some((vectors, afterData)) => if afterData == [] then Some(Mesh(points, wedges, vectors)) else None
  }

  // ----- Round trip -----

  lemma {:induction false} PointsSectionFront(points: seq<Point>)
    requires points != []
    ensures PointsSection(points) == PointTokens(points[0]) + PointsSection(points[1..])
  {
    var n := |points|;
    if n == 1 {
      assert points[..0] == [] && points[1..] == [];
    } else {
      PointsSectionFront(points[..n - 1]);
      assert points[1..][..n - 2] == points[..n - 1][1..];
    }
  }

  lemma {:induction false} WedgesSectionFront(wedges: seq<Wedge>)
    requires wedges != []
    ensures WedgesSection(wedges) == WedgeTokens(wedges[0]) + WedgesSection(wedges[1..])
  {
    var n := |wedges|;
    if n == 1 {
      assert wedges[..0] == [] && wedges[1..] == [];
    } else {
      WedgesSectionFront(wedges[..n - 1]);
      assert wedges[1..][..n - 2] == wedges[..n - 1][1..];
    }
  }

  lemma {:induction false} TypesSectionFront(cells: nat)
    requires cells > 0
    ensures TypesSection(cells) == [Natural(VTK_WEDGE)] + TypesSection(cells - 1)
  {
    if cells > 1 {
      TypesSectionFront(cells - 1);
    }
  }

  lemma {:induction false} PointsRoundTrip(points: seq<Point>, rest: seq<Token>)
    ensures ReadPoints(PointsSection(points) + rest, |points|) == Some((points, rest))
  {
    if points == [] {
      assert PointsSection(points) + rest == rest;
    } else {
      PointsSectionFront(points);
      PointsRoundTrip(points[1..], rest);
      var tokens := PointsSection(points) + rest;
      assert tokens[3..] == PointsSection(points[1..]) + rest;
      assert tokens[0] == Number(points[0].x) && tokens[1] == Number(points[0].y) && tokens[2] == Number(points[0].z);
      assert [points[0]] + points[1..] == points;
    }
  }

  lemma WedgeRoundTrip(w: Wedge)
    ensures ReadWedge(WedgeTokens(w)) == Some(w)
  {
    var tokens := WedgeTokens(w);
    assert |tokens| == 7;
  }

  lemma {:induction false} WedgesRoundTrip(wedges: seq<Wedge>, rest: seq<Token>)
    ensures ReadWedges(WedgesSection(wedges) + rest, |wedges|) == Some((wedges, rest))
  {
    if wedges == [] {
      assert WedgesSection(wedges) + rest == rest;
    } else {
      WedgesSectionFront(wedges);
      WedgesRoundTrip(wedges[1..], rest);
      var tokens, w := WedgesSection(wedges) + rest, wedges[0];
      assert tokens[7..] == WedgesSection(wedges[1..]) + rest;
      assert tokens[..7] == WedgeTokens(w);
      WedgeRoundTrip(w);
      assert [w] + wedges[1..] == wedges;
    }
  }

  lemma {:induction false} TypesRoundTrip(cells: nat, rest: seq<Token>)
    ensures ReadTypes(TypesSection(cells) + rest, cells) == Some(rest)
  {
    if cells == 0 {
      assert TypesSection(cells) + rest == rest;
    } else {
      TypesSectionFront(cells);
      TypesRoundTrip(cells - 1, rest);
      assert (TypesSection(cells) + rest)[1..] == TypesSection(cells - 1) + rest;
    }
  }

  lemma ExpectSkips(prefix: seq<Token>, rest: seq<Token>)
    ensures Expect(prefix + rest, prefix) == Some(rest)
  {
  }

  lemma SectionReads(name: string, count: nat, more: seq<Token>, data: seq<Token>, rest: seq<Token>)
    ensures ReadCount(Section(name, count, more, data) + rest, name) == Some((count, more + (data + rest)))
    ensures Expect(more + (data + rest), more) == Some(data + rest)
  {
    var tokens := Section(name, count, more, data) + rest;
    assert tokens[2..] == more + (data + rest);
  }

  lemma PointPartRoundTrip(points: seq<Point>, rest: seq<Token>)
    ensures ReadPointPart(PointPart(points) + rest) == Some((points, rest))
  {
    SectionReads("POINTS", |points|, [Word("double")], PointsSection(points), rest);
    PointsRoundTrip(points, rest);
  }

  lemma CellPartRoundTrip(wedges: seq<Wedge>, rest: seq<Token>)
    ensures ReadCellPart(CellPart(wedges) + rest) == Some((wedges, rest))
  {
    SectionReads("CELLS", |wedges|, [Natural(|wedges| * 7)], WedgesSection(wedges), rest);
    WedgesRoundTrip(wedges, rest);
  }

  lemma TypePartRoundTrip(cells: nat, rest: seq<Token>)
    ensures ReadTypePart(TypePart(cells) + rest, cells) == Some(rest)
  {
    SectionReads("CELL_TYPES", cells, [], TypesSection(cells), rest);
    assert [] + (TypesSection(cells) + rest) == TypesSection(cells) + rest;
    TypesRoundTrip(cells, rest);
  }

  lemma DataPartRoundTrip(vectors: seq<Point>)
    ensures ReadDataPart(DataPart(vectors), |vectors|) == Some((vectors, []))
  {
    SectionReads("POINT_DATA", |vectors|, [Word("VECTORS"), Word("MagneticField"), Word("double")],
                 PointsSection(vectors), []);
    assert DataPart(vectors) + [] == DataPart(vectors);
    PointsRoundTrip(vectors, []);
  }

  /** Reading what was written gives the mesh back, whatever the mesh. */
  lemma FileRoundTrip(mesh: Mesh)
    requires |mesh.vectors| == |mesh.points|
    ensures Read(FileOf(mesh)) == Some(mesh)
  {
    var a, b, c, d := PointPart(mesh.points), CellPart(mesh.wedges), TypePart(|mesh.wedges|), DataPart(mesh.vectors);
    Regroup(Header(), a, b, c, d);
    ExpectSkips(Header(), a + (b + (c + d)));
    PointPartRoundTrip(mesh.points, b + (c + d));
    CellPartRoundTrip(mesh.wedges, c + d);
    TypePartRoundTrip(|mesh.wedges|, d);
    DataPartRoundTrip(mesh.vectors);
  }

  lemma Regroup(h: seq<Token>, a: seq<Token>, b: seq<Token>, c: seq<Token>, d: seq<Token>)
    ensures h + a + b + c + d == h + (a + (b + (c + d)))
  {
  }

  /** The announced sizes are the sizes written: 3 numbers a point, 7 a cell, one a cell type. */
  lemma {:induction false} SectionSizes(points: seq<Point>, wedges: seq<Wedge>, cells: nat)
    ensures |PointsSection(points)| == 3 * |points|
    ensures |WedgesSection(wedges)| == 7 * |wedges|
    ensures |TypesSection(cells)| == cells
    decreases |points| + |wedges| + cells
  {
    if points != [] {
      SectionSizes(points[..|points| - 1], [], 0);
    }
    if wedges != [] {
      SectionSizes([], wedges[..|wedges| - 1], 0);
    }
    if cells > 0 {
      SectionSizes([], [], cells - 1);
    }
  }

  // ----- The layout, token by token -----

  lemma {:induction false} PointTokensAt(points: seq<Point>, i: nat)
    requires i < |points|
    ensures |PointsSection(points)| == 3 * |points|
    ensures PointsSection(points)[3 * i..3 * i + 3] == PointTokens(points[i])
  {
    SectionSizes(points, [], 0);
    var front := points[..|points| - 1];
    if i < |front| {
      PointTokensAt(front, i);
      assert PointsSection(points)[..3 * |front|] == PointsSection(front);
    } else {
      SectionSizes(front, [], 0);
    }
  }

  lemma {:induction false} WedgeTokensAt(wedges: seq<Wedge>, k: nat)
    requires k < |wedges|
    ensures |WedgesSection(wedges)| == 7 * |wedges|
    ensures WedgesSection(wedges)[7 * k..7 * k + 7] == IndicesOf(wedges[k])
  {
    SectionSizes([], wedges, 0);
    var front := wedges[..|wedges| - 1];
    if k < |front| {
      WedgeTokensAt(front, k);
      assert WedgesSection(wedges)[..7 * |front|] == WedgesSection(front);
    } else {
      SectionSizes([], front, 0);
    }
  }

  lemma {:induction false} TypeTokensAt(cells: nat, k: nat)
    requires k < cells
    ensures |TypesSection(cells)| == cells && TypesSection(cells)[k] == Natural(13)
  {
    SectionSizes([], [], cells);
    if k < cells - 1 {
      TypeTokensAt(cells - 1, k);
    }
  }

  /** Where the parts of a file with p points and w wedges begin. */
  function CellsAt(p: nat): nat {
    7 + 3 * p
  }

  function TypesAt(p: nat, w: nat): nat {
    CellsAt(p) + 3 + 7 * w
  }

  function DataAt(p: nat, w: nat): nat {
    TypesAt(p, w) + 2 + w
  }

  lemma PartSizes(mesh: Mesh)
    ensures |PointPart(mesh.points)| == 3 + 3 * |mesh.points| && |CellPart(mesh.wedges)| == 3 + 7 * |mesh.wedges|
    ensures |TypePart(|mesh.wedges|)| == 2 + |mesh.wedges| && |DataPart(mesh.vectors)| == 5 + 3 * |mesh.vectors|
  {
    SectionSizes(mesh.points, mesh.wedges, |mesh.wedges|);
    SectionSizes(mesh.vectors, [], 0);
  }

  lemma PartsAt(h: seq<Token>, a: seq<Token>, b: seq<Token>, c: seq<Token>, d: seq<Token>)
    ensures var file := h + a + b + c + d;
      var i, j, k, l := |h|, |h| + |a|, |h| + |a| + |b|, |h| + |a| + |b| + |c|;
      && |file| == l + |d| && file[..i] == h && file[i..j] == a && file[j..k] == b && file[k..l] == c && file[l..] == d
  {
  }

  /** The heads of the parts of a file, where they stand. */
  lemma HeadsAre(mesh: Mesh)
    ensures var file, p, w := FileOf(mesh), |mesh.points|, |mesh.wedges|;
      && |file| == DataAt(p, w) + 5 + 3 * |mesh.vectors|
      && file[..7] == [Word("# vtk DataFile Version 3.0"), Word("TPC Analytics Field Data"), Word("ASCII"),
                       Word("DATASET UNSTRUCTURED_GRID"), Word("POINTS"), Natural(p), Word("double")]
      && file[CellsAt(p)..CellsAt(p) + 3] == [Word("CELLS"), Natural(w), Natural(7 * w)]
      && file[TypesAt(p, w)..TypesAt(p, w) + 2] == [Word("CELL_TYPES"), Natural(w)]
      && file[DataAt(p, w)..DataAt(p, w) + 5]
         == [Word("POINT_DATA"), Natural(|mesh.vectors|), Word("VECTORS"), Word("MagneticField"), Word("double")]
  {
    var a, b, c, d := PointPart(mesh.points), CellPart(mesh.wedges), TypePart(|mesh.wedges|), DataPart(mesh.vectors);
    PartSizes(mesh);
    PartsAt(Header(), a, b, c, d);
  }

  /** Part of a part is part of the file. */
  lemma WithinPart(file: seq<Token>, start: nat, part: seq<Token>, i: nat, n: nat)
    requires start + |part| <= |file| && file[start..start + |part|] == part && i + n <= |part|
    ensures file[start + i..start + i + n] == part[i..i + n]
  {
    forall k | i <= k < i + n
      ensures file[start + k] == part[k]
    {
      assert file[start..start + |part|][k] == file[start + k];
    }
  }

  /** Point i, cell k, its type and vector v of the file, where they stand. */
  lemma PointsAre(mesh: Mesh, i: nat)
    requires i < |mesh.points|
    ensures 10 + 3 * i <= |FileOf(mesh)|
    ensures FileOf(mesh)[7 + 3 * i..10 + 3 * i]
         == [Number(mesh.points[i].x), Number(mesh.points[i].y), Number(mesh.points[i].z)]
  {
    var file, part := FileOf(mesh), PointPart(mesh.points);
    PartSizes(mesh);
    PartsAt(Header(), part, CellPart(mesh.wedges), TypePart(|mesh.wedges|), DataPart(mesh.vectors));
    PointTokensAt(mesh.points, i);
    WithinPart(part, 3, PointsSection(mesh.points), 3 * i, 3);
    WithinPart(file, 4, part, 3 + 3 * i, 3);
  }

  lemma CellsAre(mesh: Mesh, k: nat)
    requires k < |mesh.wedges|
    ensures var file, cell := FileOf(mesh), CellsAt(|mesh.points|) + 3 + 7 * k;
      cell + 7 <= |file| && file[cell..cell + 7] == IndicesOf(mesh.wedges[k])
  {
    var file, part := FileOf(mesh), CellPart(mesh.wedges);
    PartSizes(mesh);
    PartsAt(Header(), PointPart(mesh.points), part, TypePart(|mesh.wedges|), DataPart(mesh.vectors));
    WedgeTokensAt(mesh.wedges, k);
    WithinPart(part, 3, WedgesSection(mesh.wedges), 7 * k, 7);
    WithinPart(file, CellsAt(|mesh.points|), part, 3 + 7 * k, 7);
  }

  lemma TypesAre(mesh: Mesh, k: nat)
    requires k < |mesh.wedges|
    ensures var file, type_ := FileOf(mesh), TypesAt(|mesh.points|, |mesh.wedges|) + 2 + k;
      type_ < |file| && file[type_] == Natural(13)
  {
    var part := TypePart(|mesh.wedges|);
    PartSizes(mesh);
    PartsAt(Header(), PointPart(mesh.points), CellPart(mesh.wedges), part, DataPart(mesh.vectors));
    TypeTokensAt(|mesh.wedges|, k);
    assert part[2 + k] == TypesSection(|mesh.wedges|)[k];
    WithinPart(FileOf(mesh), TypesAt(|mesh.points|, |mesh.wedges|), part, 2 + k, 1);
    assert part[2 + k..2 + k + 1][0] == part[2 + k];
  }

  lemma VectorsAre(mesh: Mesh, v: nat)
    requires v < |mesh.vectors|
    ensures var file, vector := FileOf(mesh), DataAt(|mesh.points|, |mesh.wedges|) + 5 + 3 * v;
      && vector + 3 <= |file|
      && file[vector..vector + 3] == [Number(mesh.vectors[v].x), Number(mesh.vectors[v].y), Number(mesh.vectors[v].z)]
  {
    var file, part := FileOf(mesh), DataPart(mesh.vectors);
    PartSizes(mesh);
    PartsAt(Header(), PointPart(mesh.points), CellPart(mesh.wedges), TypePart(|mesh.wedges|), part);
    PointTokensAt(mesh.vectors, v);
    WithinPart(part, 5, PointsSection(mesh.vectors), 3 * v, 3);
    assert file[DataAt(|mesh.points|, |mesh.wedges|)..DataAt(|mesh.points|, |mesh.wedges|) + |part|] == part;
    WithinPart(file, DataAt(|mesh.points|, |mesh.wedges|), part, 5 + 3 * v, 3);
  }

  /** The line of a cell: six, and its vertices from bottom to top. */
  function IndicesOf(w: Wedge): seq<Token> {
    [Natural(6), Natural(w.lower.a), Natural(w.lower.b), Natural(w.lower.c),
     Natural(w.upper.a), Natural(w.upper.b), Natural(w.upper.c)]
  }
}
