/** What the in-place transformations of the store mean over exact reals, and that they agree with the
    exporter's own arithmetic. */
module StoreFacts {
  import opened Numeric
  import opened Arithmetic
  import opened Geometry
  import Polynomials
  import opened FieldModes
  import opened Evaluators
  import opened PhysicalField
  import opened FieldStore
  import opened FieldAgreement
  import VtkExporter

  /** Cartesian to cylindrical and back restores a triple; z is never touched. */
  lemma TripleRoundTrip(m: Trig, p: Triple<real>)
    requires Lawful(m)
    ensures Converted(Reals(m), Cartesian, Converted(Reals(m), Cylindric, p)) == p
    ensures Converted(Reals(m), Cylindric, p).third == p.third
  {
    var a := Reals(m);
    var r, phi := m.hypot(p.first, p.second), m.atan2(p.second, p.first);
    assert Converted(a, Cylindric, p) == Triple(r, phi, p.third);
    PolarLaw(m, p.first, p.second);
    assert a.mul(r, a.cos(phi)) == r * m.cos(phi) && a.mul(r, a.sin(phi)) == r * m.sin(phi);
    var q := Triple(r, phi, p.third);
    assert Converted(a, Cartesian, q) == Triple(a.mul(r, a.cos(phi)), a.mul(r, a.sin(phi)), p.third);
    assert a.mul(r, a.cos(phi)) == p.first && a.mul(r, a.sin(phi)) == p.second;
  }

  /** The Cartesian place of a point, whatever its coordinates. */
  function PlaceOfPoint(m: Trig, p: PointComponents<real>): Polynomials.Place {
    if p.coordinateType == Cartesian then AsPlace(p.components)
    else PlaceOf(m, p.components.first, p.components.second, p.components.third)
  }

  /** A conversion in either direction gives the point the target type and leaves it where it is; a converted
      radius is not negative. */
  lemma TransformKeepsPlace(m: Trig, p: PointComponents<real>, target: CoordinateType)
    requires Lawful(m)
    ensures var q := Transformed(Reals(m), p, target);
            && q.coordinateType == target && PlaceOfPoint(m, q) == PlaceOfPoint(m, p)
            && (p.coordinateType == Cartesian && target == Cylindric ==> q.components.first >= 0.0)
  {
    var a, x, y := Reals(m), p.components.first, p.components.second;
    PolarLaw(m, x, y);
    DistanceLaw(m, x, y);
    assert a.mul(x, a.cos(y)) == x * m.cos(y) && a.mul(x, a.sin(y)) == x * m.sin(y);
  }

  /** The same for a point with its type. */
  lemma PointRoundTrip(m: Trig, p: PointComponents<real>)
    requires Lawful(m) && p.coordinateType == Cartesian
    ensures Transformed(Reals(m), Transformed(Reals(m), p, Cylindric), Cartesian) == p
  {
    TripleRoundTrip(m, p.components);
  }

  /** One triple of a converted buffer. */
  lemma ConvertedTriple<T>(a: Arith<T>, target: CoordinateType, before: seq<T>, after: seq<T>, i: nat)
    requires |before| % 3 == 0 && 3 * i + 2 < |before| && IsConverted(a, target, before, after, 3)
    ensures var p, q := TripleAt(before, i), TripleAt(after, i);
            && q.first == Converted(a, target, Triple(p.first, p.second, a.zero)).first
            && q.second == Converted(a, target, Triple(p.first, p.second, a.zero)).second
            && q.third == p.third
  {
    RemainderIs(3 * i, 3, i);
    RemainderIs(3 * i + 1, 3, i);
    RemainderIs(3 * i + 2, 3, i);
  }

  /** Transforming a whole buffer of triples to cylindrical coordinates and back restores every entry. */
  lemma BufferRoundTrip(m: Trig, before: seq<real>, cylindric: seq<real>, after: seq<real>)
    requires Lawful(m) && |before| % 3 == 0
    requires IsConverted(Reals(m), Cylindric, before, cylindric, 3)
    requires IsConverted(Reals(m), Cartesian, cylindric, after, 3)
    ensures after == before
  {
    forall i | 0 <= i < |after| / 3
      ensures TripleAt(after, i) == TripleAt(before, i)
    {
      TripleRestored(m, before, cylindric, after, i);
    }
    TriplesDetermine(after, before);
  }

  lemma TripleRestored(m: Trig, before: seq<real>, cylindric: seq<real>, after: seq<real>, i: nat)
    requires Lawful(m) && |before| % 3 == 0 && 3 * i + 2 < |before|
    requires IsConverted(Reals(m), Cylindric, before, cylindric, 3)
    requires IsConverted(Reals(m), Cartesian, cylindric, after, 3)
    ensures TripleAt(after, i) == TripleAt(before, i)
  {
    ConvertedTriple(Reals(m), Cylindric, before, cylindric, i);
    ConvertedTriple(Reals(m), Cartesian, cylindric, after, i);
    TripleRoundTrip(m, Triple(before[3 * i], before[3 * i + 1], 0.0));
  }

  /** Transforming cylindrical coordinates in place gives the points the exporter computes for itself. */
  lemma TransformedIsExported(m: Trig, cylindric: seq<real>, after: seq<real>, i: nat)
    requires |cylindric| % 3 == 0 && 3 * i + 2 < |cylindric| && IsConverted(Reals(m), Cartesian, cylindric, after, 3)
    ensures VtkExporter.CartesianPoints(m, cylindric)[i] == Point(after[3 * i], after[3 * i + 1], after[3 * i + 2])
  {
    ConvertedTriple(Reals(m), Cartesian, cylindric, after, i);
    assert VtkExporter.CartesianPoints(m, cylindric)[i] == VtkExporter.PointAt(m, cylindric, i);
    TimesIs(cylindric[3 * i], m.cos(cylindric[3 * i + 1]));
    TimesIs(cylindric[3 * i], m.sin(cylindric[3 * i + 1]));
  }

  /** Rotating the field in place gives the vectors the exporter writes. */
  lemma RotatedIsExported(m: Trig, coordinates: seq<real>, before: seq<real>, after: seq<real>, i: nat)
    requires |before| == |coordinates| && |before| % 3 == 0 && 3 * i + 2 < |before|
    requires RotatedUpTo(Reals(m), coordinates, before, after, |before| / 3)
    ensures VtkExporter.FieldVectors(m, before, coordinates)[i]
         == Point(after[3 * i], after[3 * i + 1], after[3 * i + 2])
  {
    assert RotatedAt(Reals(m), coordinates, before, after, i);
    FileVectorIsRotated(m, coordinates, before, i);
  }

  /** Rotation keeps the squared length of every vector. */
  lemma RotationKeepsLength(m: Trig, v: Triple<real>, phi: real)
    requires Lawful(m)
    ensures var w := Rotate(Reals(m), v, phi);
            w.first * w.first + w.second * w.second == v.first * v.first + v.second * v.second && w.third == v.third
  {
    var c, s := m.cos(phi), m.sin(phi);
    CircleLaw(m, phi);
    LengthKept(v.first, v.second, c, s);
  }

  lemma LengthKept(a: real, b: real, c: real, s: real)
    requires c * c + s * s == 1.0
    ensures var x, y := a * c - b * s, a * s + b * c; x * x + y * y == a * a + b * b
  {
    var x, y := a * c - b * s, a * s + b * c;
    assert x * x + y * y == (a * a + b * b) * (c * c + s * s);
  }
}
