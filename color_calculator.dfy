/**
 * Harmony calculators (ColorPicker/Picker/ColorCalculator.swift).
 *
 * The source has a base class `ColorCalculator` whose `calc()` does nothing and two
 * subclasses that override it. Here one class carries the harmony kind as a constant,
 * and `Calc` branches on it.
 */
module Harmony {
  import opened Numerics

  /** `ColorHarmonyType`. */
  datatype HarmonyType = None | Analogous | Triadic

  /** The `pointCount` each calculator's initialiser sets. */
  function PointCount(kind: HarmonyType): (n: nat)
    ensures kind == None <==> n == 0
    ensures kind == Analogous <==> n == 2
    ensures kind == Triadic <==> n == 3
  {
    match kind
    case None => 0
    case Analogous => 2
    case Triadic => 3
  }

  /** `rad2deg`: a half turn is 180 degrees, and the sign is kept. */
  function Rad2Deg(radians: real): (degrees: real)
    ensures radians == Pi ==> degrees == 180.0
    ensures 0.0 <= radians <==> 0.0 <= degrees
  {
    radians * 180.0 / Pi
  }

  /** `deg2rad`: 180 degrees is a half turn, and the sign is kept. */
  function Deg2Rad(degrees: real): (radians: real)
    ensures degrees == 180.0 ==> radians == Pi
    ensures 0.0 <= degrees <==> 0.0 <= radians
  {
    degrees * Pi / 180.0
  }

  /** `rad2deg` and `deg2rad` undo each other. */
  lemma RadDegInverse(x: real)
    ensures Deg2Rad(Rad2Deg(x)) == x
    ensures Rad2Deg(Deg2Rad(x)) == x
  {
    assert Rad2Deg(x) * Pi == x * 180.0;
    assert Deg2Rad(x) * 180.0 == x * Pi;
  }

  /** The angle between successive generated points, in degrees. */
  function StepDegrees(kind: HarmonyType): real
  {
    match kind
    case None => 0.0
    case Analogous => 30.0
    case Triadic => 360.0 / PointCount(Triadic) as real
  }

  /** `theta`: the direction of the centre point, in radians. */
  function Theta(m: Math, center: Point): (t: real)
    ensures Atan2Law(m) ==> -Pi < t <= Pi && -180.0 < Rad2Deg(t) <= 180.0
  {
    m.atan2(center.y, center.x)
  }

  /** The angle, in radians, at which point `index` (counted from 1) is placed. */
  function PointAngle(m: Math, kind: HarmonyType, center: Point, index: nat): real
  {
    Deg2Rad(Rad2Deg(Theta(m, center)) + StepDegrees(kind) * index as real)
  }

  /** The point at distance `radius` from the origin in the direction `angle`. */
  function Polar(m: Math, angle: real, radius: real): Point
  {
    Point(m.cos(angle) * radius, m.sin(angle) * radius)
  }

  /** The points an overriding `calc()` builds: index 1 to `count`, in order. */
  function HarmonyPoints(m: Math, kind: HarmonyType, center: Point, radius: real, count: nat): (ps: seq<Point>)
    ensures |ps| == count
    ensures forall i :: 0 <= i < count ==> ps[i] == Polar(m, PointAngle(m, kind, center, i + 1), radius)
  {
    seq(count, i requires 0 <= i < count => Polar(m, PointAngle(m, kind, center, i + 1), radius))
  }

  /** Point i sits at the centre's direction turned by i steps. */
  lemma PointAngleOffset(m: Math, kind: HarmonyType, center: Point, index: nat)
    ensures PointAngle(m, kind, center, index)
            == Theta(m, center) + Deg2Rad(StepDegrees(kind) * index as real)
  {
    var theta := Theta(m, center);
    RadDegInverse(theta);
    assert Deg2Rad(Rad2Deg(theta) + StepDegrees(kind) * index as real)
        == Deg2Rad(Rad2Deg(theta)) + Deg2Rad(StepDegrees(kind) * index as real);
  }

  /** p lies at distance r from the origin (for r >= 0). */
  predicate OnCircle(p: Point, r: real) {
    p.x * p.x + p.y * p.y == r * r
  }

  /** Every point built from a polar angle lies at distance `radius` from the origin. */
  lemma PolarDistance(m: Math, angle: real, radius: real)
    requires PythagorasLaw(m)
    ensures OnCircle(Polar(m, angle, radius), radius)
  {
    var c, s := m.cos(angle), m.sin(angle);
    assert c * c + s * s == 1.0;
    calc {
      (c * radius) * (c * radius) + (s * radius) * (s * radius);
      (c * c + s * s) * (radius * radius);
      radius * radius;
    }
  }

  /** All harmony points lie on the circle of radius `radius` about the origin. */
  lemma HarmonyPointsOnCircle(m: Math, kind: HarmonyType, center: Point, radius: real, count: nat)
    requires PythagorasLaw(m)
    ensures forall i :: 0 <= i < count ==> OnCircle(HarmonyPoints(m, kind, center, radius, count)[i], radius)
  {
    var ps := HarmonyPoints(m, kind, center, radius, count);
    forall i | 0 <= i < count
      ensures OnCircle(ps[i], radius)
    {
      PolarDistance(m, PointAngle(m, kind, center, i + 1), radius);
    }
  }

  /** Analogous point i (i = 1, 2) is the centre's direction turned by 30 i degrees. */
  lemma AnalogousAngles(m: Math, center: Point, radius: real)
    ensures var ps := HarmonyPoints(m, Analogous, center, radius, PointCount(Analogous));
            && ps[0] == Polar(m, Theta(m, center) + Pi / 6.0, radius)
            && ps[1] == Polar(m, Theta(m, center) + Pi / 3.0, radius)
  {
    PointAngleOffset(m, Analogous, center, 1);
    PointAngleOffset(m, Analogous, center, 2);
  }

  /**
   * Triadic points are 120 degrees (2 pi / 3) apart, and the third has turned a full
   * circle: with cos and sin of period 2 pi it points in the centre's direction.
   */
  lemma TriadicAngles(m: Math, center: Point, radius: real)
    requires PeriodLaw(m)
    ensures var theta := Theta(m, center);
            && PointAngle(m, Triadic, center, 1) == theta + 2.0 * Pi / 3.0
            && PointAngle(m, Triadic, center, 2) == theta + 4.0 * Pi / 3.0
            && PointAngle(m, Triadic, center, 3) == theta + 2.0 * Pi
    ensures HarmonyPoints(m, Triadic, center, radius, PointCount(Triadic))[2]
            == Polar(m, Theta(m, center), radius)
  {
    var theta := Theta(m, center);
    PointAngleOffset(m, Triadic, center, 1);
    PointAngleOffset(m, Triadic, center, 2);
    PointAngleOffset(m, Triadic, center, 3);
    var third := theta + 2.0 * Pi;
    assert m.cos(third) == m.cos(theta) && m.sin(third) == m.sin(theta);
  }

  /** `ColorCalculator` and its two subclasses. */
  class ColorCalculator {
    const kind: HarmonyType
    const pointCount: nat
    var points: seq<Point>
    var radius: real
    var centerPoint: Point

    ghost predicate Valid()
      reads this
    {
      && pointCount == PointCount(kind)
      && |points| <= pointCount
    }

    /** `ColorHarmonyType.calculator()`: a fresh calculator of that kind, with no points yet. */
    constructor (harmony: HarmonyType)
      ensures Valid()
      ensures kind == harmony && pointCount == PointCount(harmony)
      ensures points == [] && radius == 0.0 && centerPoint == Point(0.0, 0.0)
    {
      kind := harmony;
      pointCount := PointCount(harmony);
      points := [];
      radius := 0.0;
      centerPoint := Point(0.0, 0.0);
    }

    /**
     * `calc()`: the base class leaves `points` alone; analogous and triadic calculators
     * discard the old points and rebuild them from `centerPoint`, `radius` and
     * `pointCount` alone, so calling it again changes nothing.
     */
    method Calc(m: Math)
      requires Valid()
      modifies this`points
      ensures Valid()
      ensures kind == None ==> points == old(points)
      ensures kind != None ==> points == HarmonyPoints(m, kind, centerPoint, radius, pointCount)
    {
      if kind == None {
        return;
      }
      points := [];
      var index := 1;
      while index <= pointCount
        invariant 1 <= index <= pointCount + 1
        invariant points == HarmonyPoints(m, kind, centerPoint, radius, index - 1)
      {
        points := points + [Polar(m, PointAngle(m, kind, centerPoint, index), radius)];
        index := index + 1;
      }
    }
  }
}
