/** The ten default field modes and the theorem that makes them physical: rotated to Cartesian components,
    each is the gradient of a harmonic polynomial, written out here, and so is any combination of them. */
module FieldModes {
  import opened Numeric
  import opened Arithmetic
  import opened Polynomials

  const INT_RANGE: int := 0x1_0000_0000

  /** The `int` a mode number is narrowed to on the way into a basis function. */
  function ModeIndex(mode: nat): int {
    var low := mode % INT_RANGE;
    if low < INT_RANGE / 2 then low else low - INT_RANGE
  }

  function DefaultBasisR(m: Trig, k: int, r: real, phi: real, z: real): real {
    if k == 0 then 0.0
    else if k == 1 then -0.5 * r
    else if k == 2 then -r * z
    else if k == 3 then -1.5 * r * z * z + 0.375 * r * r * r
    else if k == 4 then m.cos(phi)
    else if k == 5 then m.sin(phi)
    else if k == 6 then z * m.cos(phi)
    else if k == 7 then z * m.sin(phi)
    else if k == 8 then r * m.cos(2.0 * phi)
    else if k == 9 then r * m.sin(2.0 * phi)
    else 0.0
  }

  function DefaultBasisPhi(m: Trig, k: int, r: real, phi: real, z: real): real {
    if k == 4 then -m.sin(phi)
    else if k == 5 then m.cos(phi)
    else if k == 6 then -z * m.sin(phi)
    else if k == 7 then z * m.cos(phi)
    else if k == 8 then -r * m.sin(2.0 * phi)
    else if k == 9 then r * m.cos(2.0 * phi)
    else 0.0
  }

  function DefaultBasisZ(m: Trig, k: int, r: real, phi: real, z: real): real {
    if k == 0 then 1.0
    else if k == 1 then z
    else if k == 2 then z * z - 0.5 * r * r
    else if k == 3 then z * z * z - 1.5 * r * r * z
    else if k == 6 then r * m.cos(phi)
    else if k == 7 then r * m.sin(phi)
    else 0.0
  }

  /** Mode k at cylindrical (r, phi, z), rotated to Cartesian components. */
  function CartesianMode(m: Trig, k: int, r: real, phi: real, z: real): Place {
    var a, b := DefaultBasisR(m, k, r, phi, z), DefaultBasisPhi(m, k, r, phi, z);
    Place(a * m.cos(phi) - b * m.sin(phi), a * m.sin(phi) + b * m.cos(phi), DefaultBasisZ(m, k, r, phi, z))
  }

  /** The Cartesian place of cylindrical coordinates. */
  function PlaceOf(m: Trig, r: real, phi: real, z: real): Place {
    Place(r * m.cos(phi), r * m.sin(phi), z)
  }

  // ----- Potentials -----

  function Scale(c: real, p: Poly): Poly {
    Product(Const(c), p)
  }

  function Square(p: Poly): Poly {
    Product(p, p)
  }

  /** x squared plus y squared. */
  function RadiusSquared(): Poly {
    Sum(Square(Variable(AxisX)), Square(Variable(AxisY)))
  }

  function Potential2(): Poly {
    Sum(Scale(1.0 / 3.0, Product(Square(Variable(AxisZ)), Variable(AxisZ))),
        Scale(-0.5, Product(RadiusSquared(), Variable(AxisZ))))
  }

  function Potential3(): Poly {
    var zz := Square(Variable(AxisZ));
    Sum(Scale(0.25, Square(zz)),
        Sum(Scale(-0.75, Product(RadiusSquared(), zz)), Scale(0.09375, Square(RadiusSquared()))))
  }

  /** The polynomial whose gradient is mode k. */
  function Potential(k: int): Poly {
    var x, y, z := Variable(AxisX), Variable(AxisY), Variable(AxisZ);
    if k == 0 then z
    else if k == 1 then Sum(Scale(0.5, Square(z)), Scale(-0.25, RadiusSquared()))
    else if k == 2 then Potential2()
    else if k == 3 then Potential3()
    else if k == 4 then x
    else if k == 5 then y
    else if k == 6 then Product(x, z)
    else if k == 7 then Product(y, z)
    else if k == 8 then Sum(Scale(0.5, Square(x)), Scale(-0.5, Square(y)))
    else if k == 9 then Product(x, y)
    else Const(0.0)
  }

  lemma JetOfSquares(at: Place)
    ensures JetOf(Square(Variable(AxisX)), at) == Jet(at.x * at.x, 2.0 * at.x, 0.0, 0.0, 2.0)
    ensures JetOf(Square(Variable(AxisY)), at) == Jet(at.y * at.y, 0.0, 2.0 * at.y, 0.0, 2.0)
    ensures JetOf(Square(Variable(AxisZ)), at) == Jet(at.z * at.z, 0.0, 0.0, 2.0 * at.z, 2.0)
  {
    JetOfVariables(at);
    JetOfVariableProduct(AxisX, AxisX, at);
    JetOfVariableProduct(AxisY, AxisY, at);
    JetOfVariableProduct(AxisZ, AxisZ, at);
  }

  lemma JetOfVariableProduct(u: Axis, v: Axis, at: Place)
    ensures var a, b := JetOf(Variable(u), at), JetOf(Variable(v), at);
            JetOf(Product(Variable(u), Variable(v)), at) ==
            Jet(a.value * b.value, a.dx * b.value + a.value * b.dx, a.dy * b.value + a.value * b.dy,
                a.dz * b.value + a.value * b.dz, if u == v then 2.0 else 0.0)
  {
    JetOfVariables(at);
    JetOfProduct(Variable(u), Variable(v), at);
    JetProductIs(JetOf(Variable(u), at), JetOf(Variable(v), at));
  }

  lemma JetOfRadiusSquared(at: Place)
    ensures JetOf(RadiusSquared(), at) == Jet(at.x * at.x + at.y * at.y, 2.0 * at.x, 2.0 * at.y, 0.0, 4.0)
  {
    JetOfSquares(at);
    JetOfSum(Square(Variable(AxisX)), Square(Variable(AxisY)), at);
  }

  /** The gradient of the potential, in closed form. */
  function ModeGradient(k: int, at: Place): Place {
    var x, y, z := at.x, at.y, at.z;
    var rr := x * x + y * y;
    if k == 0 then Place(0.0, 0.0, 1.0)
    else if k == 1 then Place(-0.5 * x, -0.5 * y, z)
    else if k == 2 then Place(-x * z, -y * z, z * z - 0.5 * rr)
    else if k == 3 then
      Place(-1.5 * x * z * z + 0.375 * rr * x, -1.5 * y * z * z + 0.375 * rr * y, z * z * z - 1.5 * rr * z)
    else if k == 4 then Place(1.0, 0.0, 0.0)
    else if k == 5 then Place(0.0, 1.0, 0.0)
    else if k == 6 then Place(z, 0.0, x)
    else if k == 7 then Place(0.0, z, y)
    else if k == 8 then Place(x, -y, 0.0)
    else if k == 9 then Place(y, x, 0.0)
    else Place(0.0, 0.0, 0.0)
  }

  /** The jet of a harmonic potential with the given gradient. */
  ghost predicate HasGradient(p: Poly, at: Place, gradient: Place) {
    FieldAt(Gradient(p), at) == gradient && Divergence(Gradient(p), at) == 0.0
  }

  lemma FirstPotential(at: Place)
    ensures HasGradient(Potential(1), at, ModeGradient(1, at))
  {
    JetOfSquares(at);
    JetOfRadiusSquared(at);
    JetOfScale(0.5, Square(Variable(AxisZ)), at);
    JetOfScale(-0.25, RadiusSquared(), at);
    JetOfSum(Scale(0.5, Square(Variable(AxisZ))), Scale(-0.25, RadiusSquared()), at);
  }

  lemma JetOfCube(at: Place)
    ensures var j := JetOf(Product(Square(Variable(AxisZ)), Variable(AxisZ)), at);
            j.dx == 0.0 && j.dy == 0.0 && j.dz == 3.0 * (at.z * at.z) && j.laplacian == 6.0 * at.z
  {
    JetOfVariables(at);
    JetOfSquares(at);
    JetOfProduct(Square(Variable(AxisZ)), Variable(AxisZ), at);
    JetProductIs(JetOf(Square(Variable(AxisZ)), at), JetOf(Variable(AxisZ), at));
  }

  lemma JetOfRadiusTimesZ(at: Place)
    ensures JetOf(Product(RadiusSquared(), Variable(AxisZ)), at) ==
            Jet((at.x * at.x + at.y * at.y) * at.z, 2.0 * at.x * at.z, 2.0 * at.y * at.z,
                at.x * at.x + at.y * at.y, 4.0 * at.z)
  {
    JetOfVariables(at);
    JetOfRadiusSquared(at);
    JetOfProduct(RadiusSquared(), Variable(AxisZ), at);
    JetProductIs(JetOf(RadiusSquared(), at), JetOf(Variable(AxisZ), at));
  }

  lemma SecondPotential(at: Place)
    ensures HasGradient(Potential(2), at, ModeGradient(2, at))
  {
    var cube, rz := Product(Square(Variable(AxisZ)), Variable(AxisZ)), Product(RadiusSquared(), Variable(AxisZ));
    JetOfCube(at);
    JetOfRadiusTimesZ(at);
    JetOfScale(1.0 / 3.0, cube, at);
    JetOfScale(-0.5, rz, at);
    JetOfSum(Scale(1.0 / 3.0, cube), Scale(-0.5, rz), at);
  }

  lemma JetOfFourth(at: Place)
    ensures var j := JetOf(Square(Square(Variable(AxisZ))), at);
            && j.dx == 0.0 && j.dy == 0.0 && j.dz == 4.0 * (at.z * at.z * at.z)
            && j.laplacian == 12.0 * (at.z * at.z)
  {
    JetOfSquares(at);
    JetOfProduct(Square(Variable(AxisZ)), Square(Variable(AxisZ)), at);
    JetProductIs(JetOf(Square(Variable(AxisZ)), at), JetOf(Square(Variable(AxisZ)), at));
  }

  lemma JetOfRadiusTimesSquare(at: Place)
    ensures var j, rr := JetOf(Product(RadiusSquared(), Square(Variable(AxisZ))), at), at.x * at.x + at.y * at.y;
            && j.dx == 2.0 * (at.x * at.z * at.z) && j.dy == 2.0 * (at.y * at.z * at.z) && j.dz == 2.0 * (rr * at.z)
            && j.laplacian == 4.0 * (at.z * at.z) + 2.0 * rr
  {
    JetOfSquares(at);
    JetOfRadiusSquared(at);
    JetOfProduct(RadiusSquared(), Square(Variable(AxisZ)), at);
    JetProductIs(JetOf(RadiusSquared(), at), JetOf(Square(Variable(AxisZ)), at));
  }

  lemma JetOfRadiusFourth(at: Place)
    ensures var j, rr := JetOf(Square(RadiusSquared()), at), at.x * at.x + at.y * at.y;
            && j.dx == 4.0 * (rr * at.x) && j.dy == 4.0 * (rr * at.y) && j.dz == 0.0
            && j.laplacian == 16.0 * rr
  {
    JetOfRadiusSquared(at);
    JetOfProduct(RadiusSquared(), RadiusSquared(), at);
    JetProductIs(JetOf(RadiusSquared(), at), JetOf(RadiusSquared(), at));
  }

  lemma JetOfTail(at: Place)
    ensures var zz, rr := Square(Variable(AxisZ)), RadiusSquared();
            var j := JetOf(Sum(Scale(-0.75, Product(rr, zz)), Scale(0.09375, Square(rr))), at);
            var square := at.x * at.x + at.y * at.y;
            && j.dx == -1.5 * (at.x * at.z * at.z) + 0.375 * (square * at.x)
            && j.dy == -1.5 * (at.y * at.z * at.z) + 0.375 * (square * at.y)
            && j.dz == -1.5 * (square * at.z) && j.laplacian == -3.0 * (at.z * at.z)
  {
    var zz, rr := Square(Variable(AxisZ)), RadiusSquared();
    JetOfRadiusTimesSquare(at);
    JetOfRadiusFourth(at);
    JetOfScale(-0.75, Product(rr, zz), at);
    JetOfScale(0.09375, Square(rr), at);
    JetOfSum(Scale(-0.75, Product(rr, zz)), Scale(0.09375, Square(rr)), at);
  }

  lemma ThirdPotential(at: Place)
    ensures HasGradient(Potential(3), at, ModeGradient(3, at))
  {
    var zz, rr := Square(Variable(AxisZ)), RadiusSquared();
    JetOfFourth(at);
    JetOfTail(at);
    JetOfScale(0.25, Square(zz), at);
    JetOfSum(Scale(0.25, Square(zz)), Sum(Scale(-0.75, Product(rr, zz)), Scale(0.09375, Square(rr))), at);
  }

  lemma BilinearPotential(k: int, at: Place)
    requires k != 1 && k != 2 && k != 3
    ensures HasGradient(Potential(k), at, ModeGradient(k, at))
  {
    var x, y, z := Variable(AxisX), Variable(AxisY), Variable(AxisZ);
    JetOfVariables(at);
    if k == 6 {
      JetOfVariableProduct(AxisX, AxisZ, at);
    } else if k == 7 {
      JetOfVariableProduct(AxisY, AxisZ, at);
    } else if k == 8 {
      JetOfSquares(at);
      JetOfScale(0.5, Square(x), at);
      JetOfScale(-0.5, Square(y), at);
      JetOfSum(Scale(0.5, Square(x)), Scale(-0.5, Square(y)), at);
    } else if k == 9 {
      JetOfVariableProduct(AxisX, AxisY, at);
    } else {
      JetOfConst(0.0, at);
    }
  }

  lemma PotentialHasGradient(k: int, at: Place)
    ensures HasGradient(Potential(k), at, ModeGradient(k, at))
  {
    if k == 1 {
      FirstPotential(at);
    } else if k == 2 {
      SecondPotential(at);
    } else if k == 3 {
      ThirdPotential(at);
    } else {
      BilinearPotential(k, at);
    }
  }

  lemma PotentialIsHarmonic(k: int)
    ensures Harmonic(Potential(k))
  {
    forall at
      ensures Divergence(Gradient(Potential(k)), at) == 0.0
    {
      PotentialHasGradient(k, at);
    }
  }

  // ----- Modes are gradients -----

  /** A radial field a at angle (c, s). */
  lemma Radial(a: real, c: real, s: real)
    ensures a * c - 0.0 * s == a * c && a * s + 0.0 * c == a * s
  {
  }

  lemma CircleSquared(r: real, c: real, s: real)
    requires c * c + s * s == 1.0
    ensures (r * c) * (r * c) + (r * s) * (r * s) == r * r
  {
    assert (r * c) * (r * c) + (r * s) * (r * s) == r * r * (c * c + s * s);
  }

  /** The third mode at (x, y) = r (c, s), where rr is the squared radius. */
  lemma ThirdMode(r: real, z: real, c: real, s: real, rr: real)
    requires rr == r * r
    ensures (-1.5 * r * z * z + 0.375 * r * r * r) * c == -1.5 * (r * c) * z * z + 0.375 * rr * (r * c)
    ensures (-1.5 * r * z * z + 0.375 * r * r * r) * s == -1.5 * (r * s) * z * z + 0.375 * rr * (r * s)
    ensures z * z * z - 1.5 * r * r * z == z * z * z - 1.5 * rr * z
  {
  }

  lemma LowModes(r: real, z: real, c: real, s: real, rr: real)
    requires rr == r * r
    ensures (-0.5 * r) * c == -0.5 * (r * c) && (-0.5 * r) * s == -0.5 * (r * s)
    ensures (-r * z) * c == -(r * c) * z && (-r * z) * s == -(r * s) * z
    ensures z * z - 0.5 * r * r == z * z - 0.5 * rr
  {
  }

  /** The first three modes. */
  lemma AxialModes(m: Trig, k: int, r: real, phi: real, z: real)
    requires Lawful(m) && 0 <= k <= 2
    ensures CartesianMode(m, k, r, phi, z) == ModeGradient(k, PlaceOf(m, r, phi, z))
  {
    Circle(m, r, phi);
    Radial(DefaultBasisR(m, k, r, phi, z), m.cos(phi), m.sin(phi));
    var x, y := r * m.cos(phi), r * m.sin(phi);
    LowModes(r, z, m.cos(phi), m.sin(phi), x * x + y * y);
  }

  lemma CubicMode(m: Trig, r: real, phi: real, z: real)
    requires Lawful(m)
    ensures CartesianMode(m, 3, r, phi, z) == ModeGradient(3, PlaceOf(m, r, phi, z))
  {
    Circle(m, r, phi);
    Radial(DefaultBasisR(m, 3, r, phi, z), m.cos(phi), m.sin(phi));
    var x, y := r * m.cos(phi), r * m.sin(phi);
    ThirdMode(r, z, m.cos(phi), m.sin(phi), x * x + y * y);
  }

  lemma Circle(m: Trig, r: real, phi: real)
    requires Lawful(m)
    ensures (r * m.cos(phi)) * (r * m.cos(phi)) + (r * m.sin(phi)) * (r * m.sin(phi)) == r * r
  {
    CircleLaw(m, phi);
    CircleSquared(r, m.cos(phi), m.sin(phi));
  }

  lemma LinearModes(m: Trig, k: int, r: real, phi: real, z: real)
    requires Lawful(m) && 4 <= k <= 7
    ensures CartesianMode(m, k, r, phi, z) == ModeGradient(k, PlaceOf(m, r, phi, z))
  {
    var c, s := m.cos(phi), m.sin(phi);
    CircleLaw(m, phi);
    ScaledCircle(z, c, s);
    ScaledCircle(1.0, c, s);
  }

  lemma DoubledAngleModes(m: Trig, k: int, r: real, phi: real, z: real)
    requires Lawful(m) && 8 <= k <= 9
    ensures CartesianMode(m, k, r, phi, z) == ModeGradient(k, PlaceOf(m, r, phi, z))
  {
    AngleDifference(m, phi);
    RotateBack(r, m.cos(phi), m.sin(phi), m.cos(2.0 * phi), m.sin(2.0 * phi));
  }

  /** The doubled angle minus the angle is the angle. */
  lemma AngleDifference(m: Trig, phi: real)
    requires Lawful(m)
    ensures m.cos(2.0 * phi) * m.cos(phi) + m.sin(2.0 * phi) * m.sin(phi) == m.cos(phi)
    ensures m.cos(2.0 * phi) * m.sin(phi) - m.sin(2.0 * phi) * m.cos(phi) == -m.sin(phi)
  {
    var c, s := m.cos(phi), m.sin(phi);
    CircleLaw(m, phi);
    DoubleAngleLaw(m, phi);
    UndoDouble(c, s, m.cos(2.0 * phi), m.sin(2.0 * phi));
  }

  lemma ScaledCircle(z: real, c: real, s: real)
    requires c * c + s * s == 1.0
    ensures (z * c) * c - (-z * s) * s == z && (z * c) * s + (-z * s) * c == 0.0
    ensures (z * s) * c - (z * c) * s == 0.0 && (z * s) * s + (z * c) * c == z
  {
    assert z * (c * c + s * s) == z;
  }

  /** With d and e the cosine and sine of the doubled angle. */
  lemma UndoDouble(c: real, s: real, d: real, e: real)
    requires c * c + s * s == 1.0 && d == c * c - s * s && e == 2.0 * s * c
    ensures d * c + e * s == c && d * s - e * c == -s
  {
    assert d * c + e * s == c * (c * c + s * s);
    assert d * s - e * c == -s * (c * c + s * s);
  }

  lemma RotateBack(r: real, c: real, s: real, d: real, e: real)
    requires d * c + e * s == c && d * s - e * c == -s
    ensures (r * d) * c - (-r * e) * s == r * c && (r * d) * s + (-r * e) * c == -(r * s)
    ensures (r * e) * c - (r * d) * s == r * s && (r * e) * s + (r * d) * c == r * c
  {
    assert (r * d) * c - (-r * e) * s == r * (d * c + e * s);
    assert (r * d) * s + (-r * e) * c == r * (d * s - e * c);
    assert (r * e) * c - (r * d) * s == -(r * (d * s - e * c));
  }

  /** Rotated to Cartesian components, every mode is the gradient of its potential. */
  lemma ModeIsGradient(m: Trig, k: int, r: real, phi: real, z: real)
    requires Lawful(m)
    ensures CartesianMode(m, k, r, phi, z) == FieldAt(Gradient(Potential(k)), PlaceOf(m, r, phi, z))
  {
    PotentialHasGradient(k, PlaceOf(m, r, phi, z));
    if 0 <= k <= 2 {
      AxialModes(m, k, r, phi, z);
    } else if k == 3 {
      CubicMode(m, r, phi, z);
    } else if 4 <= k <= 7 {
      LinearModes(m, k, r, phi, z);
    } else if 8 <= k <= 9 {
      DoubledAngleModes(m, k, r, phi, z);
    } else {
      Radial(0.0, m.cos(phi), m.sin(phi));
    }
  }
}
