/** The default basis mode by mode: which formula each mode number stands for, and the field of ten coefficients
    written out in Cartesian components. */
module DefaultField {
  import opened Numeric
  import opened Arithmetic
  import opened Polynomials
  import opened FieldModes
  import opened Evaluators
  import opened PhysicalField
  import opened FieldAgreement

  /** Component c of the default formulas for mode number k. */
  function Formula(m: Trig, c: nat, k: int, r: real, phi: real, z: real): real
    requires c < 3
  {
    if c == 0 then DefaultBasisR(m, k, r, phi, z)
    else if c == 1 then DefaultBasisPhi(m, k, r, phi, z)
    else DefaultBasisZ(m, k, r, phi, z)
  }

  lemma FormulaAtOne(m: Trig, k: int, c: nat)
    requires Lawful(m) && 0 <= k < 10
    requires c == if k <= 3 then 2 else if k == 4 || k == 6 || k == 8 then 0 else 1
    ensures Formula(m, c, k, 1.0, 0.0, 1.0) != 0.0
  {
  }

  lemma IndexIs(mode: nat)
    ensures mode < 0x8000_0000 ==> ModeIndex(mode) == mode
    ensures 0x8000_0000 <= mode < 0x1_0000_0000 ==> ModeIndex(mode) < 0
    ensures ModeIndex(mode + 0x1_0000_0000) == ModeIndex(mode)
  {
  }

  /** Below ten the basis functions are the formulas of their mode. From ten on they vanish, until the narrowing to
      `int` makes mode two to the 32 the first mode again, and so on. */
  lemma ModesAre(m: Trig, c: nat, mode: nat, r: real, phi: real, z: real)
    requires c < 3
    ensures mode < 10 ==> DefaultBasis(m)[c](mode, r, phi, z) == Formula(m, c, mode, r, phi, z)
    ensures 10 <= mode < 0x1_0000_0000 ==> DefaultBasis(m)[c](mode, r, phi, z) == 0.0
    ensures DefaultBasis(m)[c](mode + 0x1_0000_0000, r, phi, z) == DefaultBasis(m)[c](mode, r, phi, z)
  {
    IndexIs(mode);
    BasisIs(m, c, mode, r, phi, z);
    BasisIs(m, c, mode + 0x1_0000_0000, r, phi, z);
  }

  lemma BasisIs(m: Trig, c: nat, mode: nat, r: real, phi: real, z: real)
    requires c < 3
    ensures DefaultBasis(m)[c](mode, r, phi, z) == Formula(m, c, ModeIndex(mode), r, phi, z)
  {
    if c == 0 {
    } else if c == 1 {
    } else {
      assert c == 2;
    }
  }

  ghost predicate DiffersFromFormula(m: Trig, c: nat, mode: nat, r: real, phi: real, z: real)
    requires c < 3
  {
    DefaultBasis(m)[c](mode, r, phi, z) != Formula(m, c, mode, r, phi, z)
  }

  /** So the narrowing matters exactly for the mode numbers from two to the 32 on whose remainder is below ten. */
  lemma NarrowingMattersExactlyWhen(m: Trig, mode: nat)
    requires Lawful(m)
    ensures (exists c: nat, r, phi, z :: c < 3 && DiffersFromFormula(m, c, mode, r, phi, z))
       <==> mode >= 0x1_0000_0000 && mode % 0x1_0000_0000 < 10
  {
    var k := mode % 0x1_0000_0000;
    if mode >= 0x1_0000_0000 && k < 10 {
      var c := if k <= 3 then 2 else if k == 4 || k == 6 || k == 8 then 0 else 1;
      BasisIs(m, c, mode, 1.0, 0.0, 1.0);
      assert ModeIndex(mode) == k;
      assert 2.0 * 0.0 == 0.0;
      FormulaAtOne(m, k, c);
      assert DiffersFromFormula(m, c, mode, 1.0, 0.0, 1.0);
    } else {
      forall c: nat, r, phi, z | c < 3
        ensures !DiffersFromFormula(m, c, mode, r, phi, z)
      {
        BasisIs(m, c, mode, r, phi, z);
      }
    }
  }

  // ----- The field of given coefficients -----

  /** The coefficients of the first `modes` modes times their gradients at a place; from ten on modes add nothing. */
  ghost function GradientSum(coefficients: seq<real>, modes: nat, at: Place): Place
    requires modes <= |coefficients|
  {
    if modes == 0 then Place(0.0, 0.0, 0.0)
    else if modes > 10 then GradientSum(coefficients, modes - 1, at)
    else Plus(GradientSum(coefficients, modes - 1, at), coefficients[modes - 1], ModeGradient(modes - 1, at))
  }

  lemma PlusIs(u: Place, q: real, v: Place)
    ensures Plus(u, q, v) == Place(u.x + q * v.x, u.y + q * v.y, u.z + q * v.z)
    ensures q == 0.0 || v == Place(0.0, 0.0, 0.0) ==> Plus(u, q, v) == u
    ensures q == 1.0 && u == Place(0.0, 0.0, 0.0) ==> Plus(u, q, v) == v
  {
    TimesIs(q, v.x);
    TimesIs(q, v.y);
    TimesIs(q, v.z);
  }

  lemma ModeIs(m: Trig, mode: nat, p: Triple<real>)
    requires Lawful(m) && mode < 0x1_0000_0000
    ensures var at := PlaceOf(m, p.first, p.second, p.third);
      CartesianMode(m, ModeIndex(mode), p.first, p.second, p.third)
      == if mode < 10 then ModeGradient(mode, at) else Place(0.0, 0.0, 0.0)
  {
    IndexIs(mode);
    ModeIsGradient(m, ModeIndex(mode), p.first, p.second, p.third);
    PotentialHasGradient(ModeIndex(mode), PlaceOf(m, p.first, p.second, p.third));
  }

  lemma {:induction false} SumIs(m: Trig, coefficients: seq<real>, p: Triple<real>, modes: nat)
    requires Lawful(m) && modes <= |coefficients| <= 0x1_0000_0000
    ensures CartesianSum(m, coefficients, p, modes)
         == GradientSum(coefficients, modes, PlaceOf(m, p.first, p.second, p.third))
  {
    if modes == 0 {
      NoModes(m, coefficients, p, PlaceOf(m, p.first, p.second, p.third));
      JetOfConst(0.0, PlaceOf(m, p.first, p.second, p.third));
    } else {
      SumIs(m, coefficients, p, modes - 1);
      CartesianSumNext(m, coefficients, p, modes);
      ModeIs(m, modes - 1, p);
      PlusIs(CartesianSum(m, coefficients, p, modes - 1), coefficients[modes - 1], Place(0.0, 0.0, 0.0));
    }
  }

  /** The coefficient vector with a one for mode k and zeros elsewhere. */
  function Unit(k: nat): seq<real>
    requires k < 10
  {
    seq(10, i => if i == k then 1.0 else 0.0)
  }

  lemma {:induction false} UnitSum(k: nat, modes: nat, at: Place)
    requires k < 10 && modes <= 10
    ensures GradientSum(Unit(k), modes, at) == if k < modes then ModeGradient(k, at) else Place(0.0, 0.0, 0.0)
  {
    if modes > 0 {
      UnitSum(k, modes - 1, at);
      PlusIs(GradientSum(Unit(k), modes - 1, at), Unit(k)[modes - 1], ModeGradient(modes - 1, at));
    }
  }

  /** Evaluated with a one for mode k alone, the rotated field is the gradient of that mode. */
  lemma UnitFieldIs(m: Trig, k: nat, p: Triple<real>)
    requires Lawful(m) && k < 10
    ensures AsPlace(EvaluatedField(m, Unit(k), p)) == ModeGradient(k, PlaceOf(m, p.first, p.second, p.third))
  {
    FieldIsSum(m, Unit(k), p, PlaceOf(m, p.first, p.second, p.third));
    UnitSum(k, 10, PlaceOf(m, p.first, p.second, p.third));
  }

  /** Evaluated with any coefficients, the rotated field is the sum of coefficient times gradient over the first ten
      modes: further modes add nothing, until the narrowing brings the first ones back. */
  lemma FieldIsSum(m: Trig, coefficients: seq<real>, p: Triple<real>, at: Place)
    requires Lawful(m) && |coefficients| <= 0x1_0000_0000 && at == PlaceOf(m, p.first, p.second, p.third)
    ensures AsPlace(EvaluatedField(m, coefficients, p)) == GradientSum(coefficients, |coefficients|, at)
  {
    EvaluatedIsSum(m, coefficients, p);
    SumIs(m, coefficients, p, |coefficients|);
  }

  // ----- The coefficients are determined by the field -----

  /** The sum with one more mode, whose gradient is g. */
  lemma SumNext(c: seq<real>, modes: nat, at: Place, g: Place)
    requires 0 < modes <= |c| && modes <= 10 && g == ModeGradient(modes - 1, at)
    ensures GradientSum(c, modes, at) == Plus(GradientSum(c, modes - 1, at), c[modes - 1], g)
  {
  }

  lemma SimpleProducts()
    ensures forall q :: Times(q, 0.0) == 0.0 && Times(q, 1.0) == q && Times(q, -1.0) == -q
    ensures forall q :: Times(q, -0.5) == -0.5 * q && Times(q, 0.375) == 0.375 * q
  {
    forall q
      ensures Times(q, 0.0) == 0.0 && Times(q, 1.0) == q && Times(q, -1.0) == -q
      ensures Times(q, -0.5) == -0.5 * q && Times(q, 0.375) == 0.375 * q
    {
      TimesIs(q, 0.0);
      TimesIs(q, 1.0);
      TimesIs(q, -1.0);
      TimesIs(q, -0.5);
      TimesIs(q, 0.375);
    }
  }

  lemma SumAtOrigin(c: seq<real>)
    requires |c| == 10
    ensures GradientSum(c, 10, Place(0.0, 0.0, 0.0)) == Place(c[4], c[5], c[0])
  {
    var at := Place(0.0, 0.0, 0.0);
    SimpleProducts();
    SumNext(c, 1, at, Place(0.0, 0.0, 1.0));
    SumNext(c, 2, at, at);
    SumNext(c, 3, at, at);
    SumNext(c, 4, at, at);
    SumNext(c, 5, at, Place(1.0, 0.0, 0.0));
    SumNext(c, 6, at, Place(0.0, 1.0, 0.0));
    SumNext(c, 7, at, at);
    SumNext(c, 8, at, at);
    SumNext(c, 9, at, at);
    SumNext(c, 10, at, at);
  }

  lemma SumOnX(c: seq<real>)
    requires |c| == 10
    ensures GradientSum(c, 10, Place(1.0, 0.0, 0.0))
         == Place(-0.5 * c[1] + 0.375 * c[3] + c[4] + c[8], c[5] + c[9], c[0] - 0.5 * c[2] + c[6])
  {
    var at := Place(1.0, 0.0, 0.0);
    SimpleProducts();
    SumNext(c, 1, at, Place(0.0, 0.0, 1.0));
    SumNext(c, 2, at, Place(-0.5, 0.0, 0.0));
    SumNext(c, 3, at, Place(0.0, 0.0, -0.5));
    SumNext(c, 4, at, Place(0.375, 0.0, 0.0));
    SumNext(c, 5, at, Place(1.0, 0.0, 0.0));
    SumNext(c, 6, at, Place(0.0, 1.0, 0.0));
    SumNext(c, 7, at, Place(0.0, 0.0, 1.0));
    SumNext(c, 8, at, Place(0.0, 0.0, 0.0));
    SumNext(c, 9, at, Place(1.0, 0.0, 0.0));
    SumNext(c, 10, at, Place(0.0, 1.0, 0.0));
  }

  lemma SumOnY(c: seq<real>)
    requires |c| == 10
    ensures GradientSum(c, 10, Place(0.0, 1.0, 0.0))
         == Place(c[4] + c[9], -0.5 * c[1] + 0.375 * c[3] + c[5] - c[8], c[0] - 0.5 * c[2] + c[7])
  {
    var at := Place(0.0, 1.0, 0.0);
    SimpleProducts();
    SumNext(c, 1, at, Place(0.0, 0.0, 1.0));
    SumNext(c, 2, at, Place(0.0, -0.5, 0.0));
    SumNext(c, 3, at, Place(0.0, 0.0, -0.5));
    SumNext(c, 4, at, Place(0.0, 0.375, 0.0));
    SumNext(c, 5, at, Place(1.0, 0.0, 0.0));
    SumNext(c, 6, at, Place(0.0, 1.0, 0.0));
    SumNext(c, 7, at, Place(0.0, 0.0, 0.0));
    SumNext(c, 8, at, Place(0.0, 0.0, 1.0));
    SumNext(c, 9, at, Place(0.0, -1.0, 0.0));
    SumNext(c, 10, at, Place(1.0, 0.0, 0.0));
  }

  lemma SumOnZ(c: seq<real>)
    requires |c| == 10
    ensures GradientSum(c, 10, Place(0.0, 0.0, 1.0)) == Place(c[4] + c[6], c[5] + c[7], c[0] + c[1] + c[2] + c[3])
  {
    var at := Place(0.0, 0.0, 1.0);
    SimpleProducts();
    SumNext(c, 1, at, at);
    SumNext(c, 2, at, at);
    SumNext(c, 3, at, at);
    SumNext(c, 4, at, at);
    SumNext(c, 5, at, Place(1.0, 0.0, 0.0));
    SumNext(c, 6, at, Place(0.0, 1.0, 0.0));
    SumNext(c, 7, at, Place(1.0, 0.0, 0.0));
    SumNext(c, 8, at, Place(0.0, 1.0, 0.0));
    SumNext(c, 9, at, Place(0.0, 0.0, 0.0));
    SumNext(c, 10, at, Place(0.0, 0.0, 0.0));
  }

  /** Both coefficient vectors give the same field at a place. */
  ghost predicate SameFieldAt(c: seq<real>, d: seq<real>, at: Place)
    requires |c| == |d| == 10
  {
    GradientSum(c, 10, at) == GradientSum(d, 10, at)
  }

  /** The ten modes are independent: fields that agree at the origin and at the unit points of the axes have the same
      coefficients. */
  lemma ModesAreIndependent(c: seq<real>, d: seq<real>)
    requires |c| == |d| == 10
    requires SameFieldAt(c, d, Place(0.0, 0.0, 0.0)) && SameFieldAt(c, d, Place(1.0, 0.0, 0.0))
    requires SameFieldAt(c, d, Place(0.0, 1.0, 0.0)) && SameFieldAt(c, d, Place(0.0, 0.0, 1.0))
    ensures c == d
  {
    SumAtOrigin(c);
    SumAtOrigin(d);
    SumOnX(c);
    SumOnX(d);
    SumOnY(c);
    SumOnY(d);
    SumOnZ(c);
    SumOnZ(d);
    assert forall k :: 0 <= k < 10 ==> c[k] == d[k];
  }
}
