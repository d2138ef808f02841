/**
 * Numeric foundations shared by the colour picker model.
 *
 * `CGFloat` and `Double` are modelled as `real`, and `CGFloat.pi` as the exact value of
 * the `Double` nearest to pi. The transcendental functions the source calls (`sqrt`,
 * `acos`, `atan2`, `cos`, `sin`) are not defined here: they are the fields of a `Math`
 * value that every caller passes in, and the only facts known about them are the laws
 * below, stated of that constant, which a member that needs one takes as a precondition.
 */
module Numerics {

  /** A `CGPoint`. */
  datatype Point = Point(x: real, y: real)

  /** A Swift optional: `nil`, or a value. */
  datatype Option<T> = Nothing | Some(value: T)

  /** An 8-bit unsigned integer (`UInt8`). */
  newtype byte = b: int | 0 <= b < 256

  /** `CGFloat.pi`: the `Double` nearest to pi. */
  const Pi: real := 3.141592653589793

  /** The platform's transcendental functions, left uninterpreted. */
  datatype Math = Math(
    sqrt: real -> real,
    acos: real -> real,
    atan2: (real, real) -> real,
    cos: real -> real,
    sin: real -> real)

  /** `sqrt` returns the non-negative square root of a non-negative argument. */
  ghost predicate SqrtLaw(m: Math) {
    forall v: real :: 0.0 <= v ==> 0.0 <= m.sqrt(v) && m.sqrt(v) * m.sqrt(v) == v
  }

  /** `acos` maps [-1, 1] into [0, pi], and only 1 to 0. */
  ghost predicate AcosLaw(m: Math) {
    forall v: real :: -1.0 <= v <= 1.0 ==> 0.0 <= m.acos(v) <= Pi && (v < 1.0 ==> 0.0 < m.acos(v))
  }

  /** cos(t)^2 + sin(t)^2 = 1. */
  ghost predicate PythagorasLaw(m: Math) {
    forall t: real :: m.cos(t) * m.cos(t) + m.sin(t) * m.sin(t) == 1.0
  }

  /** `atan2` gives an angle in (-pi, pi]. */
  ghost predicate Atan2Law(m: Math) {
    forall y: real, x: real :: -Pi < m.atan2(y, x) <= Pi
  }

  /** cos and sin have period 2 pi. */
  ghost predicate PeriodLaw(m: Math) {
    && (forall t: real, u: real {:trigger m.cos(t), m.cos(u)} :: u == t + 2.0 * Pi ==> m.cos(u) == m.cos(t))
    && (forall t: real, u: real {:trigger m.sin(t), m.sin(u)} :: u == t + 2.0 * Pi ==> m.sin(u) == m.sin(t))
  }

  /**
   * The facts about the half turns that invert `cos` with `acos`: acos undoes cos on
   * [0, pi]; cos is symmetric about pi; sin is non-negative on [0, pi] and negative on
   * (pi, 2 pi).
   */
  ghost predicate HalfTurnLaw(m: Math) {
    && (forall t: real :: 0.0 <= t <= Pi ==> m.acos(m.cos(t)) == t)
    && (forall t: real, u: real {:trigger m.cos(t), m.cos(u)} :: t + u == 2.0 * Pi ==> m.cos(u) == m.cos(t))
    && (forall t: real :: 0.0 <= t <= Pi ==> 0.0 <= m.sin(t))
    && (forall t: real :: Pi < t < 2.0 * Pi ==> m.sin(t) < 0.0)
  }

  /** Swift's `Int(_:)` on a floating-point value: truncation toward zero. */
  function Trunc(v: real): (r: int)
    ensures 0.0 <= v ==> r as real <= v < r as real + 1.0
    ensures v < 0.0 ==> r as real - 1.0 < v <= r as real
  {
    if v >= 0.0 then v.Floor else -((-v).Floor)
  }

  /**
   * Swift's `UInt8(_:)` on a floating-point value: truncation toward zero, which traps
   * unless the truncated value fits in 0..255, that is unless -1 < v < 256.
   */
  function UInt8Of(v: real): (b: byte)
    requires -1.0 < v < 256.0
    ensures b as real <= v || v < 0.0
    ensures 0.0 <= v ==> v < b as real + 1.0
    ensures v < 1.0 ==> b == 0
  {
    var t := Trunc(v);
    assert 0 <= t < 256;
    t as byte
  }

  /** C's `lround`: round to the nearest integer, halves away from zero. */
  function RoundHalfAway(v: real): (r: int)
    ensures 0.0 <= v ==> v - 0.5 < r as real <= v + 0.5
    ensures v < 0.0 ==> v - 0.5 <= r as real < v + 0.5
  {
    if v >= 0.0 then (v + 0.5).Floor else -((-v + 0.5).Floor)
  }

  /** Swift's `min` and `max` on `CGFloat`. */
  function Min(a: real, b: real): (r: real)
    ensures r <= a && r <= b && (r == a || r == b)
  {
    if b < a then b else a
  }

  function Max(a: real, b: real): (r: real)
    ensures a <= r && b <= r && (r == a || r == b)
  {
    if b > a then b else a
  }

  /** The square root of zero is zero. */
  lemma SqrtZero(m: Math)
    requires SqrtLaw(m)
    ensures m.sqrt(0.0) == 0.0
  {
    var r := m.sqrt(0.0);
    if r > 0.0 {
      MulStrictMono(0.0, r);
    }
  }

  /** The square root of a squared non-negative number is that number. */
  lemma SqrtOfSquare(m: Math, s: real)
    requires SqrtLaw(m)
    requires 0.0 <= s
    ensures m.sqrt(s * s) == s
  {
    var r := m.sqrt(s * s);
    assert 0.0 <= r && r * r == s * s;
    if r < s {
      MulStrictMono(r, s);
    } else if r > s {
      MulStrictMono(s, r);
    }
  }

  /** Comparing a square root against a non-negative bound is comparing squares. */
  lemma SqrtCompare(m: Math, v: real, bound: real)
    requires SqrtLaw(m)
    requires 0.0 <= v && 0.0 <= bound
    ensures m.sqrt(v) < bound <==> v < bound * bound
    ensures m.sqrt(v) <= bound <==> v <= bound * bound
  {
    var r := m.sqrt(v);
    assert 0.0 <= r && r * r == v;
    if r < bound {
      MulStrictMono(r, bound);
    } else if r > bound {
      MulStrictMono(bound, r);
    }
  }

  lemma MulStrictMono(a: real, b: real)
    requires 0.0 <= a < b
    ensures a * a < b * b
  {
    var d := b - a;
    assert b * b == a * a + 2.0 * (a * d) + d * d;
    assert 0.0 <= a * d;
    assert 0.0 < d * d;
  }
}
