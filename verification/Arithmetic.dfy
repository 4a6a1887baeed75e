/** Arithmetic as the field evaluators use it. The evaluators are modelled over an arbitrary carrier with
    arbitrary operations, about which nothing is assumed (no associativity, no distributivity), so what is
    proved of them also holds of floating point. `Trig` holds the library functions over the reals. */
module Arithmetic {
  import opened Numeric

  datatype Arith<!T> = Arith(
    zero: T,
    epsilon: T,
    ofNat: nat -> T,
    add: (T, T) -> T,
    sub: (T, T) -> T,
    mul: (T, T) -> T,
    div: (T, T) -> T,
    neg: T -> T,
    half: T -> T,
    abs: T -> T,
    max: (T, T) -> T,
    sqrt: T -> T,
    hypot: (T, T) -> T,
    atan2: (T, T) -> T,
    cos: T -> T,
    sin: T -> T,
    less: (T, T) -> bool,
    atMost: (T, T) -> bool)

  /** Three components, cylindrical or Cartesian. */
  datatype Triple<T> = Triple(first: T, second: T, third: T)

  /** A cylindrical field vector at azimuth phi, in Cartesian components. */
  function Rotate<T>(a: Arith<T>, v: Triple<T>, phi: T): Triple<T> {
    Triple(
      a.sub(a.mul(v.first, a.cos(phi)), a.mul(v.second, a.sin(phi))),
      a.add(a.mul(v.first, a.sin(phi)), a.mul(v.second, a.cos(phi))),
      v.third)
  }

  /** The library functions the model leaves uninterpreted. */
  datatype Trig = Trig(
    cos: real -> real,
    sin: real -> real,
    sqrt: real -> real,
    hypot: (real, real) -> real,
    atan2: (real, real) -> real)

  /** The laws of those functions that the proofs use, over exact reals. */
  ghost predicate Lawful(m: Trig) {
    && m.cos(0.0) == 1.0 && m.sin(0.0) == 0.0
    && (forall a :: OnCircle(m, a))
    && (forall a :: DoubleAngle(m, a))
    && (forall x :: 0.0 <= x ==> IsRoot(m, x))
    && (forall x, y :: IsDistance(m, x, y))
    && (forall x, y :: Polar(m, x, y))
  }

  ghost predicate OnCircle(m: Trig, a: real) {
    Times(m.cos(a), m.cos(a)) + Times(m.sin(a), m.sin(a)) == 1.0
  }

  ghost predicate DoubleAngle(m: Trig, a: real) {
    && m.cos(2.0 * a) == Times(m.cos(a), m.cos(a)) - Times(m.sin(a), m.sin(a))
    && m.sin(2.0 * a) == 2.0 * Times(m.sin(a), m.cos(a))
  }

  ghost predicate IsRoot(m: Trig, x: real) {
    0.0 <= m.sqrt(x) && Times(m.sqrt(x), m.sqrt(x)) == x
  }

  ghost predicate IsDistance(m: Trig, x: real, y: real) {
    0.0 <= m.hypot(x, y) && Times(m.hypot(x, y), m.hypot(x, y)) == Times(x, x) + Times(y, y)
  }

  /** hypot and atan2 are the polar coordinates of (x, y). */
  ghost predicate Polar(m: Trig, x: real, y: real) {
    && Times(m.hypot(x, y), m.cos(m.atan2(y, x))) == x
    && Times(m.hypot(x, y), m.sin(m.atan2(y, x))) == y
  }

  // The laws in plain arithmetic.

  lemma CircleLaw(m: Trig, a: real)
    requires Lawful(m)
    ensures m.cos(a) * m.cos(a) + m.sin(a) * m.sin(a) == 1.0
  {
    assert OnCircle(m, a);
    TimesIs(m.cos(a), m.cos(a));
    TimesIs(m.sin(a), m.sin(a));
  }

  lemma DoubleAngleLaw(m: Trig, a: real)
    requires Lawful(m)
    ensures m.cos(2.0 * a) == m.cos(a) * m.cos(a) - m.sin(a) * m.sin(a)
    ensures m.sin(2.0 * a) == 2.0 * m.sin(a) * m.cos(a)
  {
    assert DoubleAngle(m, a);
    TimesIs(m.cos(a), m.cos(a));
    TimesIs(m.sin(a), m.sin(a));
    TimesIs(m.sin(a), m.cos(a));
  }

  lemma RootLaw(m: Trig, x: real)
    requires Lawful(m) && 0.0 <= x
    ensures 0.0 <= m.sqrt(x) && m.sqrt(x) * m.sqrt(x) == x
  {
    assert IsRoot(m, x);
    TimesIs(m.sqrt(x), m.sqrt(x));
  }

  lemma DistanceLaw(m: Trig, x: real, y: real)
    requires Lawful(m)
    ensures 0.0 <= m.hypot(x, y) && m.hypot(x, y) * m.hypot(x, y) == x * x + y * y
  {
    assert IsDistance(m, x, y);
    TimesIs(m.hypot(x, y), m.hypot(x, y));
    TimesIs(x, x);
    TimesIs(y, y);
  }

  lemma PolarLaw(m: Trig, x: real, y: real)
    requires Lawful(m)
    ensures m.hypot(x, y) * m.cos(m.atan2(y, x)) == x && m.hypot(x, y) * m.sin(m.atan2(y, x)) == y
  {
    assert Polar(m, x, y);
    TimesIs(m.hypot(x, y), m.cos(m.atan2(y, x)));
    TimesIs(m.hypot(x, y), m.sin(m.atan2(y, x)));
  }
}
