/** Number-level definitions shared by the whole model: the width of `std::size_t`, machine epsilon of
    `double`, and the exporter's relative comparison. Doubles are modelled as reals, whose products and
    quotients can be kept folded. */
module Numeric {

  /** `core::definitions::DIMENSION`. */
  const DIMENSION: nat := 3

  const SIZE_MAX: nat := 0xFFFF_FFFF_FFFF_FFFF

  /** `std::numeric_limits<double>::epsilon()`, that is two to the power -52. */
  const EPSILON: real := 1.0 / 4503599627370496.0

  const TOLERANCE: real := 64.0 * EPSILON

  datatype Result<+T, +E> = Ok(value: T) | Err(error: E)

  datatype Option<+T> = None | Some(value: T)

  // ----- Multiplication and division, folded -----
  // The geometry multiplies coordinates all over the place, while most of its proofs only need to know
  // that equal factors give equal products. `Times` is the product; its definition is guarded by
  // `Unfold`, so a proof sees the arithmetic only where it calls `TimesIs`.

  ghost predicate Unfold(x: real) {
    true
  }

  ghost predicate IsProduct(a: real, b: real, product: real) {
    forall m {:trigger Unfold(m)} :: Unfold(m) && m == a * b ==> product == m
  }

  ghost function Times(a: real, b: real): real {
    assert IsProduct(a, b, a * b);
    var product :| IsProduct(a, b, product);
    product
  }

  lemma TimesIs(a: real, b: real)
    ensures Times(a, b) == a * b
  {
    assert Unfold(a * b);
  }

  // Products of counts, and division by a variable, are folded in the same way.

  ghost predicate UnfoldCount(n: int) {
    true
  }

  ghost predicate IsCount(a: nat, b: nat, product: nat) {
    forall n {:trigger UnfoldCount(n)} :: UnfoldCount(n) && n == a * b ==> product == n
  }

  ghost function CountTimes(a: nat, b: nat): nat {
    assert IsCount(a, b, a * b);
    var product: nat :| IsCount(a, b, product);
    product
  }

  lemma CountTimesIs(a: nat, b: nat)
    ensures CountTimes(a, b) == a * b
  {
    assert UnfoldCount(a * b);
  }

  ghost predicate IsQuotient(a: real, b: real, quotient: real)
    requires b != 0.0
  {
    forall m {:trigger Unfold(m)} :: Unfold(m) && m == a / b ==> quotient == m
  }

  ghost function Quotient(a: real, b: real): real
    requires b != 0.0
  {
    assert IsQuotient(a, b, a / b);
    var quotient :| IsQuotient(a, b, quotient);
    quotient
  }

  lemma QuotientIs(a: real, b: real)
    requires b != 0.0
    ensures Quotient(a, b) == a / b
    ensures Times(Quotient(a, b), b) == a
  {
    assert Unfold(a / b);
    TimesIs(a / b, b);
  }

  function Abs(x: real): real {
    if x < 0.0 then -x else x
  }

  function Max(x: real, y: real): real {
    if x < y then y else x
  }

  predicate ApproximatelyEqual(lhs: real, rhs: real) {
    Abs(lhs - rhs) <= TOLERANCE * Max(1.0, Max(Abs(lhs), Abs(rhs)))
  }

  /** In plain numbers: the difference, two to the 46 times over, is at most one or the larger magnitude. */
  lemma ComparisonIs(lhs: real, rhs: real)
    ensures ApproximatelyEqual(lhs, rhs) <==>
      var d := 70368744177664.0 * Abs(lhs - rhs); d <= 1.0 || d <= Abs(lhs) || d <= Abs(rhs)
  {
    assert TOLERANCE == 1.0 / 70368744177664.0;
  }

  /** The comparison is not transitive, which is why every loop that uses it has to say which
      point it compares with. */
  lemma ComparisonIsNotTransitive()
    ensures exists a, b, c :: ApproximatelyEqual(a, b) && ApproximatelyEqual(b, c) && !ApproximatelyEqual(a, c)
  {
    assert ApproximatelyEqual(0.0, TOLERANCE) && ApproximatelyEqual(TOLERANCE, 2.0 * TOLERANCE);
    assert !ApproximatelyEqual(0.0, 2.0 * TOLERANCE);
  }

  /** Values of magnitude at most `scale` are told apart exactly when they differ by more than the
      tolerance at the larger of their own magnitudes; a gap above `TOLERANCE * scale` suffices. */
  lemma ApartAtScale(lhs: real, rhs: real, scale: real)
    requires Abs(lhs) <= scale && Abs(rhs) <= scale && 1.0 <= scale
    requires Abs(lhs - rhs) > TOLERANCE * scale
    ensures !ApproximatelyEqual(lhs, rhs)
  {
    var m := Max(1.0, Max(Abs(lhs), Abs(rhs)));
    assert TOLERANCE * m <= TOLERANCE * scale;
  }

  /** Against zero the relative part of the tolerance never matters. */
  lemma NearZero(area: real)
    ensures ApproximatelyEqual(area, 0.0) <==> Abs(area) <= TOLERANCE
  {
    if Abs(area) > 1.0 {
      assert TOLERANCE * Abs(area) < Abs(area);
    }
  }

  lemma TimesSign(h: real, s: real)
    requires h != 0.0
    ensures h > 0.0 ==> (Times(h, s) > 0.0 <==> s > 0.0) && (Times(h, s) >= 0.0 <==> s >= 0.0)
    ensures h < 0.0 ==> (Times(h, s) > 0.0 <==> s < 0.0) && (Times(h, s) >= 0.0 <==> s <= 0.0)
  {
    TimesIs(h, s);
  }

  lemma TimesAdds(h: real, v: real, w: real)
    ensures Times(h, v) + Times(h, w) == Times(h, v + w)
  {
    TimesIs(h, v);
    TimesIs(h, w);
    TimesIs(h, v + w);
  }

  lemma TimesDistributes(a: real, b: real, h: real)
    ensures Times(a, h) + Times(b, h) == Times(a + b, h)
  {
    TimesIs(a, h);
    TimesIs(b, h);
    TimesIs(a + b, h);
  }
}
