/** The evaluated field over exact reals, in Cartesian components: the gradient of one harmonic polynomial,
    whatever the coefficients. */
module PhysicalField {
  import opened Numeric
  import opened Arithmetic
  import opened Polynomials
  import opened FieldModes
  import opened Evaluators

  /** Exact real arithmetic with the given library functions. */
  function Reals(m: Trig): Arith<real> {
    Arith(
      0.0, EPSILON,
      (n: nat) => n as real,
      (x: real, y: real) => x + y,
      (x: real, y: real) => x - y,
      (x: real, y: real) => x * y,
      (x: real, y: real) => if y == 0.0 then 0.0 else x / y,
      (x: real) => -x,
      (x: real) => x * 0.5,
      (x: real) => Abs(x),
      (x: real, y: real) => Max(x, y),
      m.sqrt, m.hypot, m.atan2, m.cos, m.sin,
      (x: real, y: real) => x < y,
      (x: real, y: real) => x <= y)
  }

  /** The three default basis functions; the mode is narrowed to an `int` on the way in. */
  function DefaultBasis(m: Trig): seq<BasisFunction<real>> {
    [(mode: nat, r: real, phi: real, z: real) => DefaultBasisR(m, ModeIndex(mode), r, phi, z),
     (mode: nat, r: real, phi: real, z: real) => DefaultBasisPhi(m, ModeIndex(mode), r, phi, z),
     (mode: nat, r: real, phi: real, z: real) => DefaultBasisZ(m, ModeIndex(mode), r, phi, z)]
  }

  /** The potential of the field of the first `modes` coefficients. */
  function FieldPotential(coefficients: seq<real>, modes: nat): Poly
    requires modes <= |coefficients|
  {
    if modes == 0 then Const(0.0)
    else Sum(FieldPotential(coefficients, modes - 1), Scale(coefficients[modes - 1], Potential(ModeIndex(modes - 1))))
  }

  lemma {:induction false} FieldPotentialIsHarmonic(coefficients: seq<real>, modes: nat)
    requires modes <= |coefficients|
    ensures Harmonic(FieldPotential(coefficients, modes))
  {
    if modes > 0 {
      FieldPotentialIsHarmonic(coefficients, modes - 1);
      PotentialIsHarmonic(ModeIndex(modes - 1));
      CombinationIsHarmonic(FieldPotential(coefficients, modes - 1), coefficients[modes - 1],
                            Potential(ModeIndex(modes - 1)));
    }
  }

  /** The sum of the first `modes` products of one component. */
  ghost function ComponentSum(m: Trig, coefficients: seq<real>, component: nat, p: Triple<real>, modes: nat): real
    requires modes <= |coefficients| && component < 3
  {
    ModeSum(Reals(m), coefficients, DefaultBasis(m)[component], p, modes)
  }

  ghost function Term(m: Trig, component: nat, mode: nat, p: Triple<real>): real
    requires component < 3
  {
    DefaultBasis(m)[component](mode, p.first, p.second, p.third)
  }

  lemma ComponentSumNext(m: Trig, coefficients: seq<real>, component: nat, p: Triple<real>, modes: nat)
    requires 0 < modes <= |coefficients| && component < 3
    ensures ComponentSum(m, coefficients, component, p, modes)
         == ComponentSum(m, coefficients, component, p, modes - 1)
            + Times(coefficients[modes - 1], Term(m, component, modes - 1, p))
  {
    TimesIs(coefficients[modes - 1], Term(m, component, modes - 1, p));
  }

  /** The vector (a, b, z) at angle (c, s). */
  ghost function Turned(a: real, b: real, z: real, c: real, s: real): Place {
    Place(Times(a, c) - Times(b, s), Times(a, s) + Times(b, c), z)
  }

  /** Products of a sum: u is a plus q times d, and p is d times c. */
  lemma ProductOfSum(a: real, q: real, d: real, c: real, u: real, p: real)
    requires u == a + q * d && p == d * c
    ensures u * c == a * c + q * p
  {
    assert q * d * c == q * (d * c);
  }

  /** Rotation is linear: adding q times a vector adds q times the rotated vector. */
  lemma TurnedIsLinear(a: real, b: real, z: real, c: real, s: real, q: real, da: real, db: real, dz: real)
    ensures Turned(a + Times(q, da), b + Times(q, db), z + Times(q, dz), c, s)
         == Plus(Turned(a, b, z, c, s), q, Turned(da, db, dz, c, s))
  {
    var u, v := a + Times(q, da), b + Times(q, db);
    TimesIs(q, da);
    TimesIs(q, db);
    TurnedIs(u, v, z + Times(q, dz), c, s);
    TurnedIs(a, b, z, c, s);
    TurnedIs(da, db, dz, c, s);
    TimesIs(q, da * c - db * s);
    TimesIs(q, da * s + db * c);
    ProductOfSum(a, q, da, c, u, da * c);
    ProductOfSum(b, q, db, s, v, db * s);
    ProductOfSum(a, q, da, s, u, da * s);
    ProductOfSum(b, q, db, c, v, db * c);
  }

  lemma TurnedIs(a: real, b: real, z: real, c: real, s: real)
    ensures Turned(a, b, z, c, s) == Place(a * c - b * s, a * s + b * c, z)
  {
    TimesIs(a, c);
    TimesIs(b, s);
    TimesIs(a, s);
    TimesIs(b, c);
  }

  /** u plus q times v. */
  ghost function Plus(u: Place, q: real, v: Place): Place {
    Place(u.x + Times(q, v.x), u.y + Times(q, v.y), u.z + Times(q, v.z))
  }

  /** The sum of the first `modes` modes in Cartesian components. */
  ghost function CartesianSum(m: Trig, coefficients: seq<real>, p: Triple<real>, modes: nat): Place
    requires modes <= |coefficients|
  {
    Turned(ComponentSum(m, coefficients, 0, p, modes), ComponentSum(m, coefficients, 1, p, modes),
           ComponentSum(m, coefficients, 2, p, modes), m.cos(p.second), m.sin(p.second))
  }

  lemma ModeIsTurned(m: Trig, mode: nat, p: Triple<real>)
    ensures Turned(Term(m, 0, mode, p), Term(m, 1, mode, p), Term(m, 2, mode, p), m.cos(p.second), m.sin(p.second))
         == CartesianMode(m, ModeIndex(mode), p.first, p.second, p.third)
  {
    TurnedIs(Term(m, 0, mode, p), Term(m, 1, mode, p), Term(m, 2, mode, p), m.cos(p.second), m.sin(p.second));
  }

  lemma CartesianSumNext(m: Trig, coefficients: seq<real>, p: Triple<real>, modes: nat)
    requires 0 < modes <= |coefficients|
    ensures CartesianSum(m, coefficients, p, modes)
         == Plus(CartesianSum(m, coefficients, p, modes - 1), coefficients[modes - 1],
                 CartesianMode(m, ModeIndex(modes - 1), p.first, p.second, p.third))
  {
    var q := coefficients[modes - 1];
    var a := ComponentSum(m, coefficients, 0, p, modes - 1);
    var b := ComponentSum(m, coefficients, 1, p, modes - 1);
    var z := ComponentSum(m, coefficients, 2, p, modes - 1);
    var da, db, dz := Term(m, 0, modes - 1, p), Term(m, 1, modes - 1, p), Term(m, 2, modes - 1, p);
    ComponentSumNext(m, coefficients, 0, p, modes);
    ComponentSumNext(m, coefficients, 1, p, modes);
    ComponentSumNext(m, coefficients, 2, p, modes);
    assert CartesianSum(m, coefficients, p, modes)
        == Turned(a + Times(q, da), b + Times(q, db), z + Times(q, dz), m.cos(p.second), m.sin(p.second));
    TurnedIsLinear(a, b, z, m.cos(p.second), m.sin(p.second), q, da, db, dz);
    ModeIsTurned(m, modes - 1, p);
  }

  lemma {:induction false} AddTerm(p: Poly, q: real, term: Poly, at: Place, u: Place, v: Place)
    requires u == FieldAt(Gradient(p), at) && v == FieldAt(Gradient(term), at)
    ensures Plus(u, q, v) == FieldAt(Gradient(Sum(p, Scale(q, term))), at)
  {
    SumRule(p, Scale(q, term), AxisX, at);
    SumRule(p, Scale(q, term), AxisY, at);
    SumRule(p, Scale(q, term), AxisZ, at);
    ScaleRule(q, term, AxisX, at);
    ScaleRule(q, term, AxisY, at);
    ScaleRule(q, term, AxisZ, at);
  }

  lemma NoModes(m: Trig, coefficients: seq<real>, p: Triple<real>, at: Place)
    ensures CartesianSum(m, coefficients, p, 0) == FieldAt(Gradient(FieldPotential(coefficients, 0)), at)
  {
    JetOfConst(0.0, at);
    TurnedIs(0.0, 0.0, 0.0, m.cos(p.second), m.sin(p.second));
    Radial(0.0, m.cos(p.second), m.sin(p.second));
  }

  /** The mode sum of any coefficients, in Cartesian components, is the gradient of their potential. */
  lemma {:induction false} SumIsGradient(m: Trig, coefficients: seq<real>, p: Triple<real>, modes: nat)
    requires Lawful(m) && modes <= |coefficients|
    ensures CartesianSum(m, coefficients, p, modes)
         == FieldAt(Gradient(FieldPotential(coefficients, modes)), PlaceOf(m, p.first, p.second, p.third))
  {
    if modes == 0 {
      NoModes(m, coefficients, p, PlaceOf(m, p.first, p.second, p.third));
    } else {
      SumIsGradient(m, coefficients, p, modes - 1);
      NextTerm(m, coefficients, p, modes, ModeIndex(modes - 1), FieldPotential(coefficients, modes - 1));
    }
  }

  lemma {:induction false} NextTerm(m: Trig, coefficients: seq<real>, p: Triple<real>, modes: nat, k: int, before: Poly)
    requires Lawful(m) && 0 < modes <= |coefficients| && k == ModeIndex(modes - 1)
    requires CartesianSum(m, coefficients, p, modes - 1)
         == FieldAt(Gradient(before), PlaceOf(m, p.first, p.second, p.third))
    ensures CartesianSum(m, coefficients, p, modes)
         == FieldAt(Gradient(Sum(before, Scale(coefficients[modes - 1], Potential(k)))),
                    PlaceOf(m, p.first, p.second, p.third))
  {
    var mode := CartesianMode(m, k, p.first, p.second, p.third);
    CartesianSumNext(m, coefficients, p, modes);
    ModeIsGradient(m, k, p.first, p.second, p.third);
    AddTerm(before, coefficients[modes - 1], Potential(k), PlaceOf(m, p.first, p.second, p.third),
            CartesianSum(m, coefficients, p, modes - 1), mode);
  }

  /** What the evaluators compute at p, rotated to Cartesian components. */
  ghost function EvaluatedField(m: Trig, coefficients: seq<real>, p: Triple<real>): Triple<real> {
    Rotate(Reals(m), FieldValue(Reals(m), DefaultBasis(m), coefficients, p), p.second)
  }

  lemma EvaluatedIsSum(m: Trig, coefficients: seq<real>, p: Triple<real>)
    ensures var v := EvaluatedField(m, coefficients, p);
            CartesianSum(m, coefficients, p, |coefficients|) == Place(v.first, v.second, v.third)
  {
    var n := |coefficients|;
    TurnedIs(ComponentSum(m, coefficients, 0, p, n), ComponentSum(m, coefficients, 1, p, n),
             ComponentSum(m, coefficients, 2, p, n), m.cos(p.second), m.sin(p.second));
  }

  /** For any coefficient vector there is one polynomial vector field, without divergence and without curl
      anywhere, whose value at (r cos phi, r sin phi, z) is what the evaluators compute at (r, phi, z). */
  lemma EvaluatedFieldIsPhysical(m: Trig, coefficients: seq<real>, p: Triple<real>, anywhere: Place)
    requires Lawful(m)
    ensures var field, v := Gradient(FieldPotential(coefficients, |coefficients|)), EvaluatedField(m, coefficients, p);
            && FieldAt(field, PlaceOf(m, p.first, p.second, p.third)) == Place(v.first, v.second, v.third)
            && Divergence(field, anywhere) == 0.0
            && Curl(field, anywhere) == (0.0, 0.0, 0.0)
  {
    EvaluatedIsSum(m, coefficients, p);
    SumIsGradient(m, coefficients, p, |coefficients|);
    FieldPotentialIsHarmonic(coefficients, |coefficients|);
    GradientIsCurlFree(FieldPotential(coefficients, |coefficients|), anywhere);
  }
}
