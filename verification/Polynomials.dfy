/** Formal polynomials in x, y and z: evaluation, formal partial derivatives, and the facts about them
    that make "gradient", "curl" and "divergence" mean what they say: the formal derivative is that of
    the values, up to a remainder given in closed form, and mixed derivatives agree. */
module Polynomials {
  import opened Numeric

  datatype Axis = AxisX | AxisY | AxisZ

  datatype Poly =
    | Const(c: real)
    | Variable(axis: Axis)
    | Sum(left: Poly, right: Poly)
    | Product(left: Poly, right: Poly)

  datatype Place = Place(x: real, y: real, z: real)

  function Coordinate(at: Place, axis: Axis): real {
    match axis
    case AxisX => at.x
    case AxisY => at.y
    case AxisZ => at.z
  }

  /** The place h further along the axis. */
  function Moved(at: Place, axis: Axis, h: real): Place {
    match axis
    case AxisX => Place(at.x + h, at.y, at.z)
    case AxisY => Place(at.x, at.y + h, at.z)
    case AxisZ => Place(at.x, at.y, at.z + h)
  }

  ghost function Eval(p: Poly, at: Place): real {
    match p
    case Const(c) => c
    case Variable(axis) => Coordinate(at, axis)
    case Sum(left, right) => Eval(left, at) + Eval(right, at)
    case Product(left, right) => Times(Eval(left, at), Eval(right, at))
  }

  /** The formal partial derivative. */
  function D(p: Poly, axis: Axis): Poly {
    match p
    case Const(_) => Const(0.0)
    case Variable(v) => Const(if v == axis then 1.0 else 0.0)
    case Sum(left, right) => Sum(D(left, axis), D(right, axis))
    case Product(left, right) => Sum(Product(D(left, axis), right), Product(left, D(right, axis)))
  }

  // ----- The formal derivative is the derivative -----

  /** The value after a step h, for a value v, a derivative d and a second-order remainder r. */
  ghost function Stepped(v: real, d: real, r: real, h: real): real {
    v + Times(h, d) + Times(h * h, r)
  }

  /** The second-order remainder of p at `at` for a step h along the axis; a polynomial in h, so bounded
      for bounded h. */
  ghost function Remainder(p: Poly, axis: Axis, at: Place, h: real): real {
    match p
    case Const(_) => 0.0
    case Variable(_) => 0.0
    case Sum(left, right) => Remainder(left, axis, at, h) + Remainder(right, axis, at, h)
    case Product(left, right) =>
      ProductRemainder(Eval(left, at), Eval(D(left, axis), at), Remainder(left, axis, at, h),
                       Eval(right, at), Eval(D(right, axis), at), Remainder(right, axis, at, h), h)
  }

  ghost function ProductRemainder(a: real, da: real, ra: real, b: real, db: real, rb: real, h: real): real {
    Times(da, db) + Times(ra, b) + Times(a, rb) + Times(h, Times(da, rb) + Times(ra, db)) + Times(h * h, Times(ra, rb))
  }

  /** A step h changes the value of any polynomial by h times its formal derivative, up to h squared times
      the remainder. */
  lemma {:induction false} DerivativeIsExact(p: Poly, axis: Axis, at: Place, h: real)
    ensures Eval(p, Moved(at, axis, h)) == Stepped(Eval(p, at), Eval(D(p, axis), at), Remainder(p, axis, at, h), h)
  {
    match p
    case Const(_) =>
      SteppedLinear(0.0, h);
    case Variable(v) =>
      SteppedLinear(if v == axis then 1.0 else 0.0, h);
    case Sum(left, right) =>
      DerivativeIsExact(left, axis, at, h);
      DerivativeIsExact(right, axis, at, h);
      SteppedSum(Eval(left, at), Eval(D(left, axis), at), Remainder(left, axis, at, h),
                 Eval(right, at), Eval(D(right, axis), at), Remainder(right, axis, at, h), h);
    case Product(left, right) =>
      DerivativeIsExact(left, axis, at, h);
      DerivativeIsExact(right, axis, at, h);
      SteppedProduct(Eval(left, at), Eval(D(left, axis), at), Remainder(left, axis, at, h),
                     Eval(right, at), Eval(D(right, axis), at), Remainder(right, axis, at, h), h);
  }

  lemma SteppedLinear(d: real, h: real)
    ensures forall v :: Stepped(v, d, 0.0, h) == v + h * d
  {
    TimesIs(h, d);
    TimesIs(h * h, 0.0);
  }

  lemma SteppedSum(a: real, da: real, ra: real, b: real, db: real, rb: real, h: real)
    ensures Stepped(a, da, ra, h) + Stepped(b, db, rb, h) == Stepped(a + b, da + db, ra + rb, h)
  {
    TimesAdds(h, da, db);
    TimesAdds(h * h, ra, rb);
  }

  lemma SteppedProduct(a: real, da: real, ra: real, b: real, db: real, rb: real, h: real)
    ensures Times(Stepped(a, da, ra, h), Stepped(b, db, rb, h))
         == Stepped(Times(a, b), Times(da, b) + Times(a, db), ProductRemainder(a, da, ra, b, db, rb, h), h)
  {
    RemainderIs(a, da, ra, b, db, rb, h);
    SteppedIs(a, da, ra, h);
    SteppedIs(b, db, rb, h);
    TimesIs(Stepped(a, da, ra, h), Stepped(b, db, rb, h));
    ProductExpands(a, da, ra, b, db, rb, h);
    TimesIs(a, b);
    TimesIs(da, b);
    TimesIs(a, db);
    SteppedIs(a * b, da * b + a * db, ProductRemainder(a, da, ra, b, db, rb, h), h);
  }

  lemma SteppedIs(v: real, d: real, r: real, h: real)
    ensures Stepped(v, d, r, h) == v + h * d + h * h * r
  {
    TimesIs(h, d);
    TimesIs(h * h, r);
  }

  lemma RemainderIs(a: real, da: real, ra: real, b: real, db: real, rb: real, h: real)
    ensures ProductRemainder(a, da, ra, b, db, rb, h)
         == da * db + ra * b + a * rb + h * (da * rb + ra * db) + h * h * (ra * rb)
  {
    TimesIs(da, db);
    TimesIs(ra, b);
    TimesIs(a, rb);
    TimesIs(da, rb);
    TimesIs(ra, db);
    TimesIs(ra, rb);
    TimesIs(h, da * rb + ra * db);
    TimesIs(h * h, ra * rb);
  }

  lemma ProductExpands(a: real, da: real, ra: real, b: real, db: real, rb: real, h: real)
    ensures (a + h * da + h * h * ra) * (b + h * db + h * h * rb)
         == a * b + h * (da * b + a * db)
          + h * h * (da * db + ra * b + a * rb + h * (da * rb + ra * db) + h * h * (ra * rb))
  {
    var u, v := da + h * ra, db + h * rb;
    assert (a + h * u) * (b + h * v) == a * b + h * (u * b + a * v) + h * h * (u * v);
    assert u * v == da * db + h * (da * rb + ra * db) + h * h * (ra * rb);
    assert u * b + a * v == da * b + a * db + h * (ra * b + a * rb);
  }

  // ----- Second derivatives -----

  lemma {:induction false} ProductRule(p: Poly, q: Poly, axis: Axis, at: Place)
    ensures Eval(D(Product(p, q), axis), at)
         == Times(Eval(D(p, axis), at), Eval(q, at)) + Times(Eval(p, at), Eval(D(q, axis), at))
  {
  }

  lemma {:induction false} SumRule(p: Poly, q: Poly, axis: Axis, at: Place)
    ensures Eval(D(Sum(p, q), axis), at) == Eval(D(p, axis), at) + Eval(D(q, axis), at)
  {
  }

  lemma {:induction false} ScaleRule(c: real, p: Poly, axis: Axis, at: Place)
    ensures Eval(D(Product(Const(c), p), axis), at) == Times(c, Eval(D(p, axis), at))
  {
    ProductRule(Const(c), p, axis, at);
    TimesIs(0.0, Eval(p, at));
  }

  /** The product rule, twice. */
  lemma {:induction false} SecondOfProduct(left: Poly, right: Poly, u: Axis, v: Axis, at: Place)
    ensures Eval(D(D(Product(left, right), u), v), at)
         == Times(Eval(D(D(left, u), v), at), Eval(right, at)) + Times(Eval(D(left, u), at), Eval(D(right, v), at))
          + Times(Eval(D(left, v), at), Eval(D(right, u), at)) + Times(Eval(left, at), Eval(D(D(right, u), v), at))
  {
    var a, b := Product(D(left, u), right), Product(left, D(right, u));
    SumRule(a, b, v, at);
    ProductRule(D(left, u), right, v, at);
    ProductRule(left, D(right, u), v, at);
  }

  /** Partial derivatives commute. */
  lemma {:induction false} PartialsCommute(p: Poly, u: Axis, v: Axis, at: Place)
    ensures Eval(D(D(p, u), v), at) == Eval(D(D(p, v), u), at)
  {
    match p
    case Const(_) =>
    case Variable(_) =>
    case Sum(left, right) =>
      PartialsCommute(left, u, v, at);
      PartialsCommute(right, u, v, at);
    case Product(left, right) =>
      PartialsCommute(left, u, v, at);
      PartialsCommute(right, u, v, at);
      SecondOfProduct(left, right, u, v, at);
      SecondOfProduct(left, right, v, u, at);
  }

  // ----- Vector fields -----

  /** A vector field with polynomial components. */
  datatype Field = Field(x: Poly, y: Poly, z: Poly)

  function Gradient(p: Poly): Field {
    Field(D(p, AxisX), D(p, AxisY), D(p, AxisZ))
  }

  /** The value of a field at a place. */
  ghost function FieldAt(f: Field, at: Place): Place {
    Place(Eval(f.x, at), Eval(f.y, at), Eval(f.z, at))
  }

  ghost function Divergence(f: Field, at: Place): real {
    Eval(D(f.x, AxisX), at) + Eval(D(f.y, AxisY), at) + Eval(D(f.z, AxisZ), at)
  }

  ghost function Curl(f: Field, at: Place): (real, real, real) {
    (Eval(D(f.z, AxisY), at) - Eval(D(f.y, AxisZ), at),
     Eval(D(f.x, AxisZ), at) - Eval(D(f.z, AxisX), at),
     Eval(D(f.y, AxisX), at) - Eval(D(f.x, AxisY), at))
  }

  /** The gradient of any polynomial is curl-free. */
  lemma {:induction false} GradientIsCurlFree(p: Poly, at: Place)
    ensures Curl(Gradient(p), at) == (0.0, 0.0, 0.0)
  {
    PartialsCommute(p, AxisZ, AxisY, at);
    PartialsCommute(p, AxisX, AxisZ, at);
    PartialsCommute(p, AxisY, AxisX, at);
  }

  // ----- Gradient and Laplacian of a composed polynomial -----

  /** Value, gradient and Laplacian of a polynomial at a place. */
  datatype Jet = Jet(value: real, dx: real, dy: real, dz: real, laplacian: real)

  ghost function JetOf(p: Poly, at: Place): Jet {
    Jet(Eval(p, at), Eval(D(p, AxisX), at), Eval(D(p, AxisY), at), Eval(D(p, AxisZ), at), Divergence(Gradient(p), at))
  }

  lemma JetOfConst(c: real, at: Place)
    ensures JetOf(Const(c), at) == Jet(c, 0.0, 0.0, 0.0, 0.0)
  {
  }

  lemma JetOfVariables(at: Place)
    ensures JetOf(Variable(AxisX), at) == Jet(at.x, 1.0, 0.0, 0.0, 0.0)
    ensures JetOf(Variable(AxisY), at) == Jet(at.y, 0.0, 1.0, 0.0, 0.0)
    ensures JetOf(Variable(AxisZ), at) == Jet(at.z, 0.0, 0.0, 1.0, 0.0)
  {
  }

  lemma {:induction false} JetOfSum(p: Poly, q: Poly, at: Place)
    ensures var a, b := JetOf(p, at), JetOf(q, at);
            JetOf(Sum(p, q), at) ==
            Jet(a.value + b.value, a.dx + b.dx, a.dy + b.dy, a.dz + b.dz, a.laplacian + b.laplacian)
  {
  }

  ghost function JetProduct(a: Jet, b: Jet): Jet {
    Jet(Times(a.value, b.value),
        Times(a.dx, b.value) + Times(a.value, b.dx),
        Times(a.dy, b.value) + Times(a.value, b.dy),
        Times(a.dz, b.value) + Times(a.value, b.dz),
        Times(a.laplacian, b.value) + 2.0 * (Times(a.dx, b.dx) + Times(a.dy, b.dy) + Times(a.dz, b.dz))
        + Times(a.value, b.laplacian))
  }

  lemma {:induction false} JetOfProduct(p: Poly, q: Poly, at: Place)
    ensures JetOf(Product(p, q), at) == JetProduct(JetOf(p, at), JetOf(q, at))
  {
    ProductRule(p, q, AxisX, at);
    ProductRule(p, q, AxisY, at);
    ProductRule(p, q, AxisZ, at);
    LaplacianOfProduct(p, q, at);
  }

  lemma ThreeTimes(a: real, b: real, c: real, w: real)
    ensures Times(a, w) + Times(b, w) + Times(c, w) == Times(a + b + c, w)
    ensures Times(w, a) + Times(w, b) + Times(w, c) == Times(w, a + b + c)
  {
    TimesDistributes(a, b, w);
    TimesDistributes(a + b, c, w);
    TimesAdds(w, a, b);
    TimesAdds(w, a + b, c);
  }

  lemma {:induction false} LaplacianOfProduct(p: Poly, q: Poly, at: Place)
    ensures Divergence(Gradient(Product(p, q)), at) == JetProduct(JetOf(p, at), JetOf(q, at)).laplacian
  {
    SecondOfProduct(p, q, AxisX, AxisX, at);
    SecondOfProduct(p, q, AxisY, AxisY, at);
    SecondOfProduct(p, q, AxisZ, AxisZ, at);
    ThreeTimes(Eval(D(D(p, AxisX), AxisX), at), Eval(D(D(p, AxisY), AxisY), at), Eval(D(D(p, AxisZ), AxisZ), at),
               Eval(q, at));
    ThreeTimes(Eval(D(D(q, AxisX), AxisX), at), Eval(D(D(q, AxisY), AxisY), at), Eval(D(D(q, AxisZ), AxisZ), at),
               Eval(p, at));
  }

  /** The product of two jets, in plain arithmetic. */
  lemma JetProductIs(a: Jet, b: Jet)
    ensures JetProduct(a, b).value == a.value * b.value
    ensures JetProduct(a, b).dx == a.dx * b.value + a.value * b.dx
    ensures JetProduct(a, b).dy == a.dy * b.value + a.value * b.dy
    ensures JetProduct(a, b).dz == a.dz * b.value + a.value * b.dz
    ensures JetProduct(a, b).laplacian
         == a.laplacian * b.value + 2.0 * (a.dx * b.dx + a.dy * b.dy + a.dz * b.dz) + a.value * b.laplacian
  {
    TimesIs(a.value, b.value);
    TimesIs(a.dx, b.value);
    TimesIs(a.value, b.dx);
    TimesIs(a.dy, b.value);
    TimesIs(a.value, b.dy);
    TimesIs(a.dz, b.value);
    TimesIs(a.value, b.dz);
    TimesIs(a.laplacian, b.value);
    TimesIs(a.dx, b.dx);
    TimesIs(a.dy, b.dy);
    TimesIs(a.dz, b.dz);
    TimesIs(a.value, b.laplacian);
  }

  lemma {:induction false} JetOfScale(c: real, p: Poly, at: Place)
    ensures var j := JetOf(p, at);
            JetOf(Product(Const(c), p), at) == Jet(c * j.value, c * j.dx, c * j.dy, c * j.dz, c * j.laplacian)
  {
    JetOfConst(c, at);
    JetOfProduct(Const(c), p, at);
    JetProductIs(Jet(c, 0.0, 0.0, 0.0, 0.0), JetOf(p, at));
  }

  ghost predicate Harmonic(p: Poly) {
    forall at :: Divergence(Gradient(p), at) == 0.0
  }

  /** Linear combinations of harmonic polynomials are harmonic. */
  lemma {:induction false} CombinationIsHarmonic(p: Poly, c: real, q: Poly)
    requires Harmonic(p) && Harmonic(q)
    ensures Harmonic(Sum(p, Product(Const(c), q)))
  {
    forall at
      ensures Divergence(Gradient(Sum(p, Product(Const(c), q))), at) == 0.0
    {
      assert Divergence(Gradient(p), at) == 0.0 && Divergence(Gradient(q), at) == 0.0;
      JetOfScale(c, q, at);
      JetOfSum(p, Product(Const(c), q), at);
    }
  }
}
