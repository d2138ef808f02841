/**
 * The geometry of the hue/saturation wheel (ColorPicker/ColorWheelView.swift): view
 * points, normalised disk points, and hue and saturation.
 *
 * A disk point is a view point's offset from the wheel centre (r, r) divided by the
 * wheel radius r, so the visible wheel is the unit disk.
 */
module WheelMapping {
  import opened Numerics
  import opened ColorSpace

  /** A `CGSize`. */
  datatype Size = Size(width: real, height: real)

  /**
   * `centerPoint(viewPoint:)`: the affine map from view coordinates to disk coordinates,
   * whose inverse is v = r (d + 1). A zero radius would divide by zero.
   */
  function CenterPoint(viewPoint: Point, radius: real): (d: Point)
    requires radius != 0.0
    ensures radius * (d.x + 1.0) == viewPoint.x && radius * (d.y + 1.0) == viewPoint.y
  {
    Point((viewPoint.x - radius) / radius, (viewPoint.y - radius) / radius)
  }

  /** The wheel centre maps to the origin of the disk. */
  lemma CenterPointOfCentre(radius: real)
    requires radius != 0.0
    ensures CenterPoint(Point(radius, radius), radius) == Point(0.0, 0.0)
  {
  }

  /** The squared Euclidean norm of a point. */
  function NormSquared(p: Point): (n: real)
    ensures n >= 0.0
  {
    p.x * p.x + p.y * p.y
  }

  /** `distance(centerPoint:)`: the Euclidean norm. */
  function Distance(m: Math, p: Point): (d: real)
    ensures SqrtLaw(m) ==> 0.0 <= d
  {
    m.sqrt(NormSquared(p))
  }

  /** The norm is non-negative and its square is the squared norm. */
  lemma DistanceSquared(m: Math, p: Point)
    requires SqrtLaw(m)
    ensures 0.0 <= Distance(m, p)
    ensures Distance(m, p) * Distance(m, p) == NormSquared(p)
  {
  }

  /** Comparing the norm with a bound is comparing the squared norm with the bound squared. */
  lemma DistanceCompare(m: Math, p: Point, bound: real)
    requires SqrtLaw(m) && 0.0 <= bound
    ensures Distance(m, p) < bound <==> NormSquared(p) < bound * bound
    ensures Distance(m, p) <= bound <==> NormSquared(p) <= bound * bound
  {
    SqrtCompare(m, NormSquared(p), bound);
  }

  /** The unscaled hue of a disk point with a positive norm s: acos(x / s) in turns. */
  function HalfTurnHue(m: Math, p: Point, s: real): real
    requires s != 0.0
  {
    m.acos(p.x / s) / Pi / 2.0
  }

  /**
   * `colorHSB(centerPoint:)`: the saturation is the norm of the disk point; the hue is 0 at
   * the centre, otherwise the angle from the positive x axis in turns, measured through
   * acos and mirrored to 1 - hue below the x axis. Brightness is the wheel's, alpha 1.
   */
  function ColorHSB(m: Math, p: Point, brightness: real): (c: HSB)
    ensures c.brightness == brightness && c.alpha == 1.0
    ensures c.saturation == 0.0 ==> c.hue == 0.0
  {
    var saturation := Distance(m, p);
    var hue :=
      if saturation == 0.0 then 0.0
      else if p.y < 0.0 then 1.0 - HalfTurnHue(m, p, saturation)
      else HalfTurnHue(m, p, saturation);
    HSB(hue, saturation, brightness, 1.0)
  }

  /** At the centre of the wheel the colour is unsaturated, with hue 0. */
  lemma ColorHSBAtCentre(m: Math, brightness: real)
    requires SqrtLaw(m)
    ensures ColorHSB(m, Point(0.0, 0.0), brightness) == HSB(0.0, 0.0, brightness, 1.0)
  {
    var c := ColorHSB(m, Point(0.0, 0.0), brightness);
    assert NormSquared(Point(0.0, 0.0)) == 0.0;
    SqrtZero(m);
    assert c.saturation == 0.0;
  }

  /** |x| is at most the norm, so acos is applied inside [-1, 1]. */
  lemma AcosArgument(m: Math, p: Point)
    requires SqrtLaw(m) && Distance(m, p) != 0.0
    ensures -1.0 <= p.x / Distance(m, p) <= 1.0
  {
    var s := Distance(m, p);
    DistanceSquared(m, p);
    assert p.x * p.x <= s * s;
    if p.x > s {
      MulStrictMono(s, p.x);
    } else if p.x < -s {
      MulStrictMono(s, -p.x);
    }
    assert -s <= p.x <= s;
    DivBounds(p.x, s);
  }

  lemma DivBounds(x: real, s: real)
    requires 0.0 < s && -s <= x <= s
    ensures -1.0 <= x / s <= 1.0
  {
  }

  /**
   * The saturation of a disk point is its norm, and the hue lies in [0, 1]: in [0, 1/2]
   * on or above the x axis, in [1/2, 1] below it.
   */
  lemma ColorHSBRanges(m: Math, p: Point, brightness: real)
    requires SqrtLaw(m) && AcosLaw(m)
    ensures var c := ColorHSB(m, p, brightness);
            && 0.0 <= c.saturation
            && c.saturation * c.saturation == NormSquared(p)
            && 0.0 <= c.hue < 1.0
            && (c.saturation != 0.0 && 0.0 <= p.y ==> c.hue <= 0.5)
            && (c.saturation != 0.0 && p.y < 0.0 ==> 0.5 <= c.hue)
  {
    var s := Distance(m, p);
    DistanceSquared(m, p);
    if s != 0.0 {
      AcosArgument(m, p);
      var a := m.acos(p.x / s);
      assert 0.0 <= a <= Pi;
      if p.y < 0.0 {
        BelowAxis(m, p);
        assert 0.0 < a;
      }
    }
  }

  /** Strictly below the x axis, |x| is strictly less than the norm, so x / norm < 1. */
  lemma BelowAxis(m: Math, p: Point)
    requires SqrtLaw(m) && p.y < 0.0 && Distance(m, p) != 0.0
    ensures p.x / Distance(m, p) < 1.0
  {
    var s := Distance(m, p);
    DistanceSquared(m, p);
    MulStrictMono(0.0, -p.y);
    assert p.x * p.x < s * s;
    if p.x >= s {
      if p.x > s {
        MulStrictMono(s, p.x);
      }
      assert false;
    }
  }

  /** The wheel is inside the unit disk: saturation below 1 exactly when the squared norm is. */
  lemma SaturationBelowOne(m: Math, p: Point, brightness: real)
    requires SqrtLaw(m)
    ensures ColorHSB(m, p, brightness).saturation < 1.0 <==> NormSquared(p) < 1.0
  {
    DistanceCompare(m, p, 1.0);
  }

  /** The offset that centres the wheel in a view wider or taller than it. */
  function CentringOffset(diameter: real, bounds: Size): real
  {
    (Max(bounds.width, bounds.height) - diameter) / 2.0
  }

  /** The wheel centre in view coordinates, with the centring offset applied. */
  function WheelCentre(diameter: real, bounds: Size): Point
  {
    var diff := CentringOffset(diameter, bounds);
    Point(diameter / 2.0 + (if bounds.width > diameter then diff else 0.0),
          diameter / 2.0 + (if bounds.height > diameter then diff else 0.0))
  }

  /** The angle, in radians, of a hue given in turns. */
  function HueAngle(m: Math, hue: real): real
  {
    hue * Pi * 2.0
  }

  /**
   * `viewPointFromHS(hue:saturation:)`: the view point at distance saturation times the
   * radius from the wheel centre, at angle hue turns, shifted by the centring offset.
   */
  function ViewPointFromHS(m: Math, hue: real, saturation: real, diameter: real, bounds: Size): (v: Point)
    ensures saturation == 0.0 ==> v == WheelCentre(diameter, bounds)
  {
    var radius := saturation * diameter / 2.0;
    var angle := HueAngle(m, hue);
    var x := diameter / 2.0 + radius * m.cos(angle);
    var y := diameter / 2.0 + radius * m.sin(angle);
    var diff := CentringOffset(diameter, bounds);
    Point(if bounds.width > diameter then x + diff else x,
          if bounds.height > diameter then y + diff else y)
  }

  /** The view point lies on the circle of radius saturation times the wheel radius about the centre. */
  lemma ViewPointOnCircle(m: Math, hue: real, saturation: real, diameter: real, bounds: Size)
    requires PythagorasLaw(m)
    ensures var v := ViewPointFromHS(m, hue, saturation, diameter, bounds);
            var c := WheelCentre(diameter, bounds);
            var r := saturation * diameter / 2.0;
            NormSquared(Point(v.x - c.x, v.y - c.y)) == r * r
  {
    var angle := HueAngle(m, hue);
    var r := saturation * diameter / 2.0;
    var co, si := m.cos(angle), m.sin(angle);
    assert co * co + si * si == 1.0;
    calc {
      (r * co) * (r * co) + (r * si) * (r * si);
      (r * r) * (co * co + si * si);
      r * r;
    }
  }

  /** The disk point at distance s from the origin in the direction of the hue. */
  function PolarPoint(m: Math, hue: real, s: real): Point
  {
    Point(s * m.cos(HueAngle(m, hue)), s * m.sin(HueAngle(m, hue)))
  }

  /**
   * In a view no larger than the wheel, the disk point of `viewPointFromHS(h, s)` is the
   * polar point (s cos 2 pi h, s sin 2 pi h).
   */
  lemma DiskPointOfViewPoint(m: Math, hue: real, saturation: real, diameter: real, bounds: Size)
    requires 0.0 < diameter && bounds.width <= diameter && bounds.height <= diameter
    ensures CenterPoint(ViewPointFromHS(m, hue, saturation, diameter, bounds), diameter / 2.0)
            == PolarPoint(m, hue, saturation)
  {
    var r := diameter / 2.0;
    var angle := HueAngle(m, hue);
    var co, si := m.cos(angle), m.sin(angle);
    assert saturation * diameter / 2.0 == saturation * r;
    var v := ViewPointFromHS(m, hue, saturation, diameter, bounds);
    assert v == Point(r + (saturation * r) * co, r + (saturation * r) * si);
    ScaledQuotient(saturation, r, co);
    ScaledQuotient(saturation, r, si);
  }

  lemma ScaledQuotient(s: real, r: real, c: real)
    requires r != 0.0
    ensures ((r + (s * r) * c) - r) / r == s * c
  {
    assert (r + (s * r) * c) - r == (s * c) * r;
  }

  /** The squared norm of (s c, s n) with c^2 + n^2 = 1 is s squared. */
  lemma PolarNorm(s: real, co: real, si: real)
    requires co * co + si * si == 1.0
    ensures NormSquared(Point(s * co, s * si)) == s * s
  {
    calc {
      (s * co) * (s * co) + (s * si) * (s * si);
      (s * s) * (co * co + si * si);
      s * s;
    }
  }

  /** The polar point (s cos t, s sin t) with s >= 0 lies at distance s from the origin. */
  lemma PolarDistance(m: Math, s: real, co: real, si: real)
    requires SqrtLaw(m) && co * co + si * si == 1.0 && 0.0 <= s
    ensures Distance(m, Point(s * co, s * si)) == s
  {
    PolarNorm(s, co, si);
    SqrtOfSquare(m, s);
  }

  /**
   * The colour of the polar point (s cos t, s sin t) with s > 0: saturation s, and the
   * hue acos(cos t) in turns, mirrored when sin t is negative.
   */
  lemma PolarHSB(m: Math, s: real, co: real, si: real, brightness: real)
    requires SqrtLaw(m) && co * co + si * si == 1.0 && 0.0 < s
    ensures var c := ColorHSB(m, Point(s * co, s * si), brightness);
            && c.saturation == s
            && (0.0 <= si ==> c.hue == m.acos(co) / Pi / 2.0)
            && (si < 0.0 ==> c.hue == 1.0 - m.acos(co) / Pi / 2.0)
  {
    var p := Point(s * co, s * si);
    PolarDistance(m, s, co, si);
    CancelScale(s, co);
    if 0.0 <= si {
      MulNonNeg(s, si);
    } else {
      MulPos(s, -si);
    }
  }

  /**
   * Reading back the polar point at angle 2 pi hue and distance s gives saturation s and,
   * when s > 0 and 0 <= hue < 1, the hue itself.
   */
  lemma PolarRoundTrip(m: Math, hue: real, s: real, brightness: real)
    requires SqrtLaw(m) && PythagorasLaw(m) && HalfTurnLaw(m) && 0.0 <= s
    ensures var c := ColorHSB(m, PolarPoint(m, hue, s), brightness);
            && c.saturation == s
            && (0.0 < s && 0.0 <= hue < 1.0 ==> c.hue == hue)
  {
    var angle := HueAngle(m, hue);
    var co, si := m.cos(angle), m.sin(angle);
    assert co * co + si * si == 1.0;
    PolarDistance(m, s, co, si);
    assert PolarPoint(m, hue, s) == Point(s * co, s * si);
    var c := ColorHSB(m, Point(s * co, s * si), brightness);
    assert c.saturation == s;
    if 0.0 < s && 0.0 <= hue <= 0.5 {
      PolarHueUpper(m, hue, s, co, si, brightness);
      assert c.hue == hue;
    } else if 0.0 < s && 0.5 < hue < 1.0 {
      PolarHueLower(m, hue, s, co, si, brightness);
      assert c.hue == hue;
    }
  }

  lemma PolarHueUpper(m: Math, hue: real, s: real, co: real, si: real, brightness: real)
    requires SqrtLaw(m) && HalfTurnLaw(m) && 0.0 < s && 0.0 <= hue <= 0.5
    requires co == m.cos(HueAngle(m, hue)) && si == m.sin(HueAngle(m, hue))
    requires co * co + si * si == 1.0
    ensures ColorHSB(m, Point(s * co, s * si), brightness).hue == hue
  {
    PolarHSB(m, s, co, si, brightness);
    HueOfUpperAngle(m, hue);
  }

  lemma PolarHueLower(m: Math, hue: real, s: real, co: real, si: real, brightness: real)
    requires SqrtLaw(m) && HalfTurnLaw(m) && 0.0 < s && 0.5 < hue < 1.0
    requires co == m.cos(HueAngle(m, hue)) && si == m.sin(HueAngle(m, hue))
    requires co * co + si * si == 1.0
    ensures ColorHSB(m, Point(s * co, s * si), brightness).hue == hue
  {
    PolarHSB(m, s, co, si, brightness);
    HueOfLowerAngle(m, hue);
  }

  /**
   * Round trip: in a view no larger than the wheel, mapping (hue, saturation) to a view
   * point and back through `centerPoint` and `colorHSB` recovers the saturation, and the
   * hue when 0 <= hue < 1 and the saturation is positive.
   */
  lemma HueSaturationRoundTrip(m: Math, hue: real, saturation: real, diameter: real, bounds: Size, brightness: real)
    requires SqrtLaw(m) && PythagorasLaw(m) && HalfTurnLaw(m)
    requires 0.0 < diameter && bounds.width <= diameter && bounds.height <= diameter
    requires 0.0 <= saturation
    ensures var c := ColorHSB(m, CenterPoint(ViewPointFromHS(m, hue, saturation, diameter, bounds), diameter / 2.0), brightness);
            && c.saturation == saturation
            && (0.0 < saturation && 0.0 <= hue < 1.0 ==> c.hue == hue)
  {
    DiskPointOfViewPoint(m, hue, saturation, diameter, bounds);
    PolarRoundTrip(m, hue, saturation, brightness);
  }

  /** The centring shift that `viewPointFromHS` adds on each axis. */
  function WheelShift(diameter: real, bounds: Size): Point
  {
    var diff := CentringOffset(diameter, bounds);
    Point(if bounds.width > diameter then diff else 0.0, if bounds.height > diameter then diff else 0.0)
  }

  /**
   * A view point moved back by the centring shift into the wheel's own square, where
   * `centerPoint` and `convertValid` measure from (r, r). In a view no larger than the
   * wheel nothing moves.
   */
  function ToWheel(v: Point, diameter: real, bounds: Size): (w: Point)
    ensures bounds.width <= diameter && bounds.height <= diameter ==> w == v
    ensures w.x + WheelShift(diameter, bounds).x == v.x && w.y + WheelShift(diameter, bounds).y == v.y
  {
    var shift := WheelShift(diameter, bounds);
    Point(v.x - shift.x, v.y - shift.y)
  }

  /** Removing the shift from a view point of (h, s) gives the view point a square view would give. */
  lemma ToWheelUndoesCentring(m: Math, hue: real, saturation: real, diameter: real, bounds: Size)
    ensures ToWheel(ViewPointFromHS(m, hue, saturation, diameter, bounds), diameter, bounds)
            == ViewPointFromHS(m, hue, saturation, diameter, Size(diameter, diameter))
  {
  }

  /** The disk point of a view point, with the centring shift removed first. */
  function DiskPoint(v: Point, diameter: real, bounds: Size): (d: Point)
    requires diameter != 0.0
    ensures bounds.width <= diameter && bounds.height <= diameter ==> d == CenterPoint(v, diameter / 2.0)
  {
    CenterPoint(ToWheel(v, diameter, bounds), diameter / 2.0)
  }

  /**
   * The round trip through `DiskPoint` recovers saturation and hue in a view of any shape:
   * the property `HueSaturationRoundTrip` only has for views no larger than the wheel.
   */
  lemma DiskPointRoundTrip(m: Math, hue: real, saturation: real, diameter: real, bounds: Size, brightness: real)
    requires SqrtLaw(m) && PythagorasLaw(m) && HalfTurnLaw(m)
    requires 0.0 < diameter && 0.0 <= saturation
    ensures var c := ColorHSB(m, DiskPoint(ViewPointFromHS(m, hue, saturation, diameter, bounds), diameter, bounds), brightness);
            && c.saturation == saturation
            && (0.0 < saturation && 0.0 <= hue < 1.0 ==> c.hue == hue)
  {
    ToWheelUndoesCentring(m, hue, saturation, diameter, bounds);
    HueSaturationRoundTrip(m, hue, saturation, diameter, Size(diameter, diameter), brightness);
  }

  /**
   * Without removing the shift the round trip fails: in a 300 by 200 view (wheel diameter
   * 200) the wheel centre, saturation 0, is drawn at (150, 100) and read back by
   * `centerPoint` as the disk point (0.5, 0), saturation 0.5.
   */
  lemma CentringNotUndone(m: Math, brightness: real)
    requires SqrtLaw(m)
    ensures var v := ViewPointFromHS(m, 0.0, 0.0, 200.0, Size(300.0, 200.0));
            && v == Point(150.0, 100.0)
            && CenterPoint(v, 100.0) == Point(0.5, 0.0)
            && ColorHSB(m, CenterPoint(v, 100.0), brightness).saturation == 0.5
  {
    var v := ViewPointFromHS(m, 0.0, 0.0, 200.0, Size(300.0, 200.0));
    assert v == Point(150.0, 100.0);
    assert NormSquared(Point(0.5, 0.0)) == 0.5 * 0.5;
    SqrtOfSquare(m, 0.5);
  }

  /**
   * 2 pi h, read back in turns, is h; it lies in [0, pi] for h in [0, 1/2] and in
   * (pi, 2 pi) for h in (1/2, 1); and the angle of 1 - h is the mirror 2 pi - 2 pi h.
   */
  lemma AngleOfTurns(m: Math, hue: real)
    ensures HueAngle(m, hue) / Pi / 2.0 == hue
    ensures 0.0 <= hue <= 0.5 ==> 0.0 <= HueAngle(m, hue) <= Pi
    ensures 0.5 < hue < 1.0 ==> Pi < HueAngle(m, hue) < 2.0 * Pi
    ensures HueAngle(m, 1.0 - hue) == 2.0 * Pi - HueAngle(m, hue)
  {
  }

  lemma MulPos(a: real, b: real)
    requires 0.0 < a && 0.0 < b
    ensures 0.0 < a * b
  {
  }

  lemma CancelScale(s: real, c: real)
    requires s != 0.0
    ensures (s * c) / s == c
  {
  }

  /** On or above the x axis (hue in [0, 1/2]) acos alone recovers the hue. */
  lemma HueOfUpperAngle(m: Math, hue: real)
    requires HalfTurnLaw(m)
    requires 0.0 <= hue <= 0.5
    ensures var angle := HueAngle(m, hue);
            0.0 <= m.sin(angle) && m.acos(m.cos(angle)) / Pi / 2.0 == hue
  {
    AngleOfTurns(m, hue);
  }

  /** Below the x axis (hue in (1/2, 1)) acos gives the mirrored angle, and 1 - hue undoes it. */
  lemma HueOfLowerAngle(m: Math, hue: real)
    requires HalfTurnLaw(m)
    requires 0.5 < hue < 1.0
    ensures var angle := HueAngle(m, hue);
            m.sin(angle) < 0.0 && 1.0 - m.acos(m.cos(angle)) / Pi / 2.0 == hue
  {
    var angle := HueAngle(m, hue);
    var mirror := HueAngle(m, 1.0 - hue);
    AngleOfTurns(m, hue);
    AngleOfTurns(m, 1.0 - hue);
    assert angle + mirror == 2.0 * Pi;
    assert m.cos(mirror) == m.cos(angle);
    assert m.acos(m.cos(mirror)) == mirror;
  }

  /**
   * `convertValid(viewPoint:)`: the touch position is kept when its offset from the
   * wheel centre, taken at whole-point coordinates, lies within the radius; otherwise it
   * is moved onto the wheel's rim in the direction of that offset.
   */
  function ConvertValid(m: Math, viewPoint: Point, radius: real): (v: Point)
    ensures var offset := Point(Trunc(viewPoint.x) as real - radius, Trunc(viewPoint.y) as real - radius);
            && (Distance(m, offset) <= radius ==> v == viewPoint)
            && (PythagorasLaw(m) && Distance(m, offset) > radius ==>
                  NormSquared(Point(v.x - radius, v.y - radius)) == radius * radius)
  {
    var dx := Trunc(viewPoint.x) as real - radius;
    var dy := Trunc(viewPoint.y) as real - radius;
    if Distance(m, Point(dx, dy)) <= radius then viewPoint
    else
      var theta := m.atan2(dy, dx);
      RimPoint(m, theta, radius);
      Point(m.cos(theta) * radius + radius, m.sin(theta) * radius + radius)
  }

  /** The point at angle theta and distance `radius` from the origin lies on the circle of that radius. */
  lemma RimPoint(m: Math, theta: real, radius: real)
    ensures PythagorasLaw(m) ==> NormSquared(Point(m.cos(theta) * radius, m.sin(theta) * radius)) == radius * radius
  {
    if PythagorasLaw(m) {
      var co, si := m.cos(theta), m.sin(theta);
      assert co * co + si * si == 1.0;
      assert (co * radius) * (co * radius) + (si * radius) * (si * radius) == (radius * radius) * (co * co + si * si);
    }
  }

  /**
   * A point whose truncated offset is within the radius is returned unchanged; any other
   * point lands exactly on the rim, at distance `radius` from the centre (r, r).
   */
  lemma ConvertValidClamps(m: Math, viewPoint: Point, radius: real)
    requires SqrtLaw(m) && PythagorasLaw(m) && 0.0 <= radius
    ensures var offset := Point(Trunc(viewPoint.x) as real - radius, Trunc(viewPoint.y) as real - radius);
            var v := ConvertValid(m, viewPoint, radius);
            && (NormSquared(offset) <= radius * radius ==> v == viewPoint)
            && (NormSquared(offset) > radius * radius ==>
                  NormSquared(Point(v.x - radius, v.y - radius)) == radius * radius)
  {
    var offset := Point(Trunc(viewPoint.x) as real - radius, Trunc(viewPoint.y) as real - radius);
    DistanceCompare(m, offset, radius);
  }
}
