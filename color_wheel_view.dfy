/**
 * The state of the hue/saturation wheel view (ColorPicker/ColorWheelView.swift): the
 * current colour and its dirty flag, the brightness, the harmony calculator and its
 * sub-indicator markers, the wheel bitmap, and the colour lists handed to the picker.
 *
 * Layers are modelled by what the source reads back from them: a marker's position, its
 * visibility and its fill colour. `updatePickerColors` is modelled by the log `emitted`
 * of the lists passed to it. As in the source, view points are read as disk points by
 * `centerPoint` alone, without removing the centring shift `viewPointFromHS` adds in a
 * view that is not square; the read-back lemmas therefore hold where there is no shift,
 * and `MarkerMisread` shows what goes wrong where there is one.
 */
module ColorWheel {
  import opened Numerics
  import opened ColorSpace
  import opened ColorExtension
  import opened Harmony
  import opened WheelMapping
  import opened WheelImage
  import opened Bitmap

  /** A sub-indicator layer: its position, whether it is hidden, and its fill colour. */
  datatype Marker = Marker(position: Point, hidden: bool, color: Color)

  /** A layer as `loadSubIndicator` creates it: hidden, at the origin, with no fill. */
  const HiddenMarker: Marker := Marker(Point(0.0, 0.0), true, RGB(0.0, 0.0, 0.0, 0.0))

  /** The marker `updateSubIndicator` draws for a calculator point. */
  function MarkerFor(m: Math, p: Point, brightness: real, diameter: real, bounds: Size): Marker
  {
    var hsb := ColorHSB(m, p, brightness);
    Marker(ViewPointFromHS(m, hsb.hue, hsb.saturation, diameter, bounds), false, HsbToRgb(hsb))
  }

  /** `updateSubIndicator`'s loop on a marker list: marker i is redrawn for point i, the rest kept. */
  function Redrawn(m: Math, markers: seq<Marker>, points: seq<Point>, brightness: real, diameter: real, bounds: Size): (r: seq<Marker>)
    requires |points| <= |markers|
    ensures |r| == |markers|
    ensures forall i :: 0 <= i < |points| ==> r[i] == MarkerFor(m, points[i], brightness, diameter, bounds)
    ensures forall i :: |points| <= i < |markers| ==> r[i] == markers[i]
  {
    seq(|markers|, i requires 0 <= i < |markers| =>
      if i < |points| then MarkerFor(m, points[i], brightness, diameter, bounds) else markers[i])
  }

  /** Redrawing the markers for the same points again changes nothing. */
  lemma RedrawnTwice(m: Math, markers: seq<Marker>, points: seq<Point>, brightness: real, diameter: real, bounds: Size)
    requires |points| <= |markers|
    ensures Redrawn(m, Redrawn(m, markers, points, brightness, diameter, bounds), points, brightness, diameter, bounds)
            == Redrawn(m, markers, points, brightness, diameter, bounds)
  {
  }

  /** The colour `callbackColors` reports for a marker: the colour at its position, read back by `centerPoint`. */
  function ReadBack(m: Math, marker: Marker, brightness: real, diameter: real): (c: Color)
    requires diameter != 0.0
    ensures c.alpha == 1.0
  {
    HsbToRgb(ColorHSB(m, CenterPoint(marker.position, diameter / 2.0), brightness))
  }

  /** A view no wider and no taller than the wheel, where `viewPointFromHS` adds no centring shift. */
  predicate Unshifted(diameter: real, bounds: Size)
  {
    bounds.width <= diameter && bounds.height <= diameter
  }

  /** The read-back colours of the visible markers, in order. */
  function VisibleColors(m: Math, markers: seq<Marker>, brightness: real, diameter: real): (cs: seq<Color>)
    requires diameter != 0.0
    ensures |cs| <= |markers|
    ensures (forall i :: 0 <= i < |markers| ==> markers[i].hidden) ==> cs == []
  {
    if markers == [] then []
    else
      (if markers[0].hidden then [] else [ReadBack(m, markers[0], brightness, diameter)])
      + VisibleColors(m, markers[1..], brightness, diameter)
  }

  /** The colour of each point of the wheel, in order. */
  function ColoursOf(m: Math, points: seq<Point>, brightness: real): (cs: seq<Color>)
    ensures |cs| == |points|
    ensures forall i :: 0 <= i < |points| ==> cs[i] == HsbToRgb(ColorHSB(m, points[i], brightness))
  {
    if points == [] then [] else [HsbToRgb(ColorHSB(m, points[0], brightness))] + ColoursOf(m, points[1..], brightness)
  }

  /** The list `callbackColors` passes on: the current colour first, then the visible markers' colours. */
  function Emission(m: Math, current: HSB, markers: seq<Marker>, brightness: real, diameter: real): (cs: seq<Color>)
    requires diameter != 0.0
    ensures |cs| >= 1 && cs[0] == HsbToRgb(current)
    ensures cs[1..] == VisibleColors(m, markers, brightness, diameter)
  {
    [HsbToRgb(current)] + VisibleColors(m, markers, brightness, diameter)
  }

  /** The laws of the platform's functions that the wheel's round trips rely on. */
  ghost predicate WheelLaws(m: Math)
  {
    SqrtLaw(m) && AcosLaw(m) && PythagorasLaw(m) && HalfTurnLaw(m)
  }

  /**
   * Where there is no centring shift, a marker reports the colour it is drawn with:
   * reading its position back through `centerPoint` and `colorHSB` gives the HSB it was
   * placed from.
   */
  lemma ReadBackOfMarker(m: Math, p: Point, brightness: real, diameter: real, bounds: Size)
    requires WheelLaws(m) && 0.0 < diameter && Unshifted(diameter, bounds)
    ensures ReadBack(m, MarkerFor(m, p, brightness, diameter, bounds), brightness, diameter)
            == MarkerFor(m, p, brightness, diameter, bounds).color
  {
    var hsb := ColorHSB(m, p, brightness);
    ColorHSBRanges(m, p, brightness);
    DiskPointRoundTrip(m, hsb.hue, hsb.saturation, diameter, bounds, brightness);
    var position := MarkerFor(m, p, brightness, diameter, bounds).position;
    assert DiskPoint(position, diameter, bounds) == CenterPoint(position, diameter / 2.0);
    var back := ColorHSB(m, CenterPoint(position, diameter / 2.0), brightness);
    assert back == hsb;
  }

  /**
   * In a 300 by 200 view with a wheel of diameter 200, the marker drawn for the wheel's
   * centre sits at (150, 100), and `callbackColors` reports for it a colour of saturation
   * one half instead of the grey it is drawn with.
   */
  lemma MarkerMisread(m: Math, brightness: real)
    requires SqrtLaw(m) && 0.0 < brightness
    ensures var marker := MarkerFor(m, Point(0.0, 0.0), brightness, 200.0, Size(300.0, 200.0));
            && marker.position == Point(150.0, 100.0)
            && marker.color == HsbToRgb(HSB(0.0, 0.0, brightness, 1.0))
            && ReadBack(m, marker, brightness, 200.0) != marker.color
  {
    var marker := MarkerFor(m, Point(0.0, 0.0), brightness, 200.0, Size(300.0, 200.0));
    var drawn := ColorHSB(m, Point(0.0, 0.0), brightness);
    assert drawn == HSB(0.0, 0.0, brightness, 1.0) by {
      ColorHSBAtCentre(m, brightness);
    }
    assert marker.position == Point(150.0, 100.0) by {
      CentringNotUndone(m, brightness);
    }
    var read := ColorHSB(m, CenterPoint(Point(150.0, 100.0), 100.0), brightness);
    assert read.saturation == 0.5 by {
      CentringNotUndone(m, brightness);
    }
    assert ReadBack(m, marker, brightness, 200.0) == HsbToRgb(read);
    GreyDiffersFromTinted(drawn, read);
  }

  /** At the same positive brightness, the grey of saturation 0 and any colour of saturation one half differ. */
  lemma GreyDiffersFromTinted(grey: HSB, tinted: HSB)
    requires 0.0 < grey.brightness == tinted.brightness && grey.saturation == 0.0 && tinted.saturation == 0.5
    ensures HsbToRgb(grey) != HsbToRgb(tinted)
  {
    RawChannels(grey);
    RawChannels(tinted);
    assert Scale(grey.brightness, 0.0) == grey.brightness;
    assert Scale(tinted.brightness, 0.5) < tinted.brightness;
  }

  /**
   * When every marker is drawn for the matching point, the visible colours are the
   * points' colours, one for one and in order.
   */
  lemma {:induction false} DrawnMarkersReadBack(m: Math, markers: seq<Marker>, points: seq<Point>, brightness: real, diameter: real, bounds: Size)
    requires WheelLaws(m) && 0.0 < diameter && Unshifted(diameter, bounds)
    requires |markers| == |points|
    requires forall i :: 0 <= i < |points| ==> markers[i] == MarkerFor(m, points[i], brightness, diameter, bounds)
    ensures VisibleColors(m, markers, brightness, diameter) == ColoursOf(m, points, brightness)
  {
    if markers != [] {
      ReadBackOfMarker(m, points[0], brightness, diameter, bounds);
      DrawnMarkersReadBack(m, markers[1..], points[1..], brightness, diameter, bounds);
    }
  }

  /** Every harmony point lies at distance `radius`, so its colour has saturation `radius`. */
  lemma HarmonySaturation(m: Math, kind: HarmonyType, center: Point, radius: real, count: nat, brightness: real)
    requires SqrtLaw(m) && PythagorasLaw(m) && 0.0 <= radius
    ensures forall i :: 0 <= i < count ==>
              ColorHSB(m, HarmonyPoints(m, kind, center, radius, count)[i], brightness).saturation == radius
  {
    var ps := HarmonyPoints(m, kind, center, radius, count);
    HarmonyPointsOnCircle(m, kind, center, radius, count);
    forall i | 0 <= i < count
      ensures ColorHSB(m, ps[i], brightness).saturation == radius
    {
      assert NormSquared(ps[i]) == radius * radius;
      SqrtOfSquare(m, radius);
    }
  }

  /**
   * Where there is no centring shift, after a harmony calculator of `count` points has
   * run and the markers have been redrawn, the list handed on is the current colour followed by the colours of the
   * harmony points, each with saturation `radius`.
   */
  lemma HarmonyEmission(m: Math, current: HSB, markers: seq<Marker>, kind: HarmonyType, center: Point,
                        radius: real, count: nat, brightness: real, diameter: real, bounds: Size)
    requires WheelLaws(m) && 0.0 < diameter && Unshifted(diameter, bounds) && 0.0 <= radius && |markers| == count
    ensures var ps := HarmonyPoints(m, kind, center, radius, count);
            && Emission(m, current, Redrawn(m, markers, ps, brightness, diameter, bounds), brightness, diameter)
               == [HsbToRgb(current)] + ColoursOf(m, ps, brightness)
            && forall i :: 0 <= i < count ==> ColorHSB(m, ps[i], brightness).saturation == radius
  {
    var ps := HarmonyPoints(m, kind, center, radius, count);
    DrawnMarkersReadBack(m, Redrawn(m, markers, ps, brightness, diameter, bounds), ps, brightness, diameter, bounds);
    HarmonySaturation(m, kind, center, radius, count, brightness);
  }

  /**
   * `didChangeIndicator`'s colour: the touch point is clamped onto the wheel by
   * `convertValid`, read as a disk point by `centerPoint` and as a colour by `colorHSB`.
   */
  function Picked(m: Math, touch: Point, diameter: real, brightness: real): (c: HSB)
    requires 0.0 < diameter
    ensures c.brightness == brightness && c.alpha == 1.0
    ensures SqrtLaw(m) ==> 0.0 <= c.saturation
  {
    var radius := diameter / 2.0;
    ColorHSB(m, CenterPoint(ConvertValid(m, touch, radius), radius), brightness)
  }

  /** The offset from the wheel centre, at whole-point coordinates, that `convertValid` tests. */
  function TouchOffset(w: Point, r: real): Point
  {
    Point(Trunc(w.x) as real - r, Trunc(w.y) as real - r)
  }

  /** A touch whose whole-point offset lies outside the wheel picks a colour of saturation exactly 1, on the rim. */
  lemma PickedOnRim(m: Math, touch: Point, diameter: real, brightness: real)
    requires SqrtLaw(m) && PythagorasLaw(m) && 0.0 < diameter
    requires NormSquared(TouchOffset(touch, diameter / 2.0)) > (diameter / 2.0) * (diameter / 2.0)
    ensures Picked(m, touch, diameter, brightness).saturation == 1.0
  {
    var w := touch;
    var r := diameter / 2.0;
    assert r != 0.0;
    assert NormSquared(TouchOffset(w, r)) > r * r;
    assert TouchOffset(w, r) == Point(Trunc(w.x) as real - r, Trunc(w.y) as real - r);
    ConvertValidClamps(m, w, r);
    var v := ConvertValid(m, w, r);
    assert NormSquared(Point(v.x - r, v.y - r)) == r * r;
    RimSaturation(m, v, r, brightness);
    assert Picked(m, touch, diameter, brightness) == ColorHSB(m, CenterPoint(v, r), brightness);
  }

  /** Any other touch picks the colour under it. */
  lemma PickedInside(m: Math, touch: Point, diameter: real, brightness: real)
    requires SqrtLaw(m) && PythagorasLaw(m) && 0.0 < diameter
    requires NormSquared(TouchOffset(touch, diameter / 2.0)) <= (diameter / 2.0) * (diameter / 2.0)
    ensures Picked(m, touch, diameter, brightness) == ColorHSB(m, CenterPoint(touch, diameter / 2.0), brightness)
  {
    var w := touch;
    var r := diameter / 2.0;
    var offset := Point(Trunc(w.x) as real - r, Trunc(w.y) as real - r);
    assert TouchOffset(w, r) == offset;
    assert NormSquared(offset) <= r * r;
    ConvertValidClamps(m, w, r);
  }

  /** A view point at distance r from (r, r) has saturation 1. */
  lemma RimSaturation(m: Math, v: Point, r: real, brightness: real)
    requires SqrtLaw(m) && r != 0.0 && NormSquared(Point(v.x - r, v.y - r)) == r * r
    ensures ColorHSB(m, CenterPoint(v, r), brightness).saturation == 1.0
  {
    UnitAfterScaling(v.x - r, v.y - r, r);
    assert NormSquared(CenterPoint(v, r)) == 1.0 * 1.0;
    SqrtOfSquare(m, 1.0);
  }

  lemma UnitAfterScaling(a: real, b: real, r: real)
    requires r != 0.0 && a * a + b * b == r * r
    ensures (a / r) * (a / r) + (b / r) * (b / r) == 1.0
  {
    var q := 1.0 / r;
    assert r * q == 1.0;
    assert a / r == a * q && b / r == b * q;
    assert (a * q) * (a * q) == (a * a) * (q * q);
    assert (b * q) * (b * q) == (b * b) * (q * q);
    assert (a * a) * (q * q) + (b * b) * (q * q) == (a * a + b * b) * (q * q);
    assert (r * r) * (q * q) == (r * q) * (r * q);
  }


  /** A bitmap is the wheel image of this diameter and brightness. */
  ghost predicate IsWheelImage(bytes: seq<byte>, m: Math, diameter: real, brightness: real)
    requires SqrtLaw(m) && 0.0 <= brightness <= 1.0 && 0.0 < diameter
  {
    && |bytes| == 4 * Side(diameter) * Side(diameter)
    && forall x, y, k :: 0 <= x < Side(diameter) && 0 <= y < Side(diameter) && 0 <= k < 4 ==>
         bytes[Offset(Side(diameter), Side(diameter), x, y, k)] == WheelPixelBytes(m, diameter, brightness, x, y)[k]
  }

  /** `ColorWheelView`. */
  class ColorWheelView {
    const m: Math
    var isDirty: bool
    var currentHSB: HSB
    var brightness: real
    var calculator: ColorCalculator
    var subIndicatorCount: nat
    var markers: seq<Marker>
    var indicatorPosition: Point
    var indicatorColor: Color
    var diameter: real
    var bounds: Size
    var contents: Contents
    var emitted: seq<seq<Color>>

    /** What holds between observers, apart from the marker count. */
    ghost predicate Settled()
      reads this, calculator
    {
      && calculator.Valid()
      && 0.0 <= diameter
      && 0.0 <= brightness <= 1.0
    }

    /** One marker layer per harmony point the calculator can produce. */
    ghost predicate Valid()
      reads this, calculator
    {
      && Settled()
      && subIndicatorCount == calculator.pointCount
      && |markers| == subIndicatorCount
    }

    /**
     * `init(frame:)`: white, not dirty, brightness 1, a calculator of no harmony, no
     * markers, no diameter yet (so `updateWheel` draws nothing).
     */
    constructor (math: Math, frame: Size)
      ensures Valid()
      ensures m == math && bounds == frame && diameter == 0.0
      ensures !isDirty && currentHSB == ToHsb(White) && brightness == 1.0
      ensures calculator.kind == None && markers == [] && emitted == []
      ensures contents == NoContents
      ensures indicatorPosition == ViewPointFromHS(math, currentHSB.hue, currentHSB.saturation, 0.0, frame)
      ensures indicatorColor == CurrentColor()
    {
      m := math;
      isDirty := false;
      currentHSB := ToHsb(White);
      brightness := 1.0;
      calculator := new ColorCalculator(None);
      subIndicatorCount := 0;
      markers := [];
      diameter := 0.0;
      bounds := frame;
      contents := NoContents;
      emitted := [];
      new;
      indicatorPosition := ViewPointFromHS(math, currentHSB.hue, currentHSB.saturation, 0.0, frame);
      indicatorColor := HsbToRgb(currentHSB);
    }

    /** `currentColor`'s getter: the colour of the current HSB. */
    function CurrentColor(): (c: Color)
      reads this
      ensures c.alpha == currentHSB.alpha
    {
      HsbToRgb(currentHSB)
    }

    /**
     * The state the refreshing branch of the `currentHSB` observer leaves, given the
     * markers and the log from before: the view is dirty, the calculator is re-centred
     * on the current colour's point with its saturation as radius, the indicator shows
     * the current colour at its place, the markers are redrawn for the new points, and
     * one more list has been handed on.
     */
    ghost predicate RefreshedFrom(markers0: seq<Marker>, emitted0: seq<seq<Color>>)
      requires 0.0 < diameter
      reads this, calculator
    {
      && isDirty
      && calculator.radius == currentHSB.saturation
      && calculator.centerPoint
         == CenterPoint(ViewPointFromHS(m, currentHSB.hue, currentHSB.saturation, diameter, bounds), diameter / 2.0)
      && (calculator.kind != None ==>
            calculator.points == HarmonyPoints(m, calculator.kind, calculator.centerPoint, calculator.radius, calculator.pointCount))
      && indicatorPosition == ViewPointFromHS(m, currentHSB.hue, currentHSB.saturation, diameter, bounds)
      && indicatorColor == CurrentColor()
      && (subIndicatorCount == 0 ==> markers == markers0)
      && (subIndicatorCount != 0 ==>
            |calculator.points| <= |markers0| && markers == Redrawn(m, markers0, calculator.points, brightness, diameter, bounds))
      && emitted == emitted0 + [Emission(m, currentHSB, markers, brightness, diameter)]
    }

    /**
     * The state the `calculator` observer leaves, given the indicator position and the
     * log from before: one fresh marker per point of the calculator, the calculator
     * re-centred on the old indicator position with the current saturation as radius,
     * the indicator showing the current colour, the markers drawn for the new points,
     * and one more list handed on.
     */
    ghost predicate CalculatorInstalled(indicator0: Point, emitted0: seq<seq<Color>>)
      requires 0.0 < diameter
      reads this, calculator
    {
      && subIndicatorCount == calculator.pointCount
      && calculator.radius == currentHSB.saturation
      && calculator.centerPoint == CenterPoint(indicator0, diameter / 2.0)
      && (calculator.kind != None ==>
            calculator.points == HarmonyPoints(m, calculator.kind, calculator.centerPoint, calculator.radius, calculator.pointCount))
      && indicatorPosition == ViewPointFromHS(m, currentHSB.hue, currentHSB.saturation, diameter, bounds)
      && indicatorColor == CurrentColor()
      && (calculator.pointCount == 0 ==> markers == [])
      && (calculator.pointCount != 0 ==>
            && |calculator.points| <= calculator.pointCount
            && markers == Redrawn(m, seq(calculator.pointCount, _ => HiddenMarker), calculator.points, brightness, diameter, bounds))
      && emitted == emitted0 + [Emission(m, currentHSB, markers, brightness, diameter)]
    }

    /** `updateWheel`: nothing without a diameter; otherwise the wheel image of the brightness. */
    method UpdateWheel()
      requires Settled() && SqrtLaw(m)
      modifies this`contents
      ensures diameter == 0.0 ==> contents == old(contents)
      ensures diameter != 0.0 ==> contents.Image? && IsWheelImage(contents.bytes, m, diameter, brightness)
    {
      if diameter == 0.0 {
        return;
      }
      var bytes := CreateHSColorWheelImage(m, diameter, brightness);
      contents := Image(bytes);
    }

    /**
     * `updateSubIndicator`: nothing when there are no markers; otherwise marker i is
     * drawn for calculator point i, shown, and the others are left as they were.
     */
    method UpdateSubIndicator()
      requires Valid()
      modifies this`markers
      ensures Valid()
      ensures subIndicatorCount == 0 ==> markers == old(markers)
      ensures subIndicatorCount != 0 ==>
                markers == Redrawn(m, old(markers), calculator.points, brightness, diameter, bounds)
    {
      if subIndicatorCount == 0 {
        return;
      }
      var points := calculator.points;
      var i := 0;
      while i < |points|
        invariant 0 <= i <= |points| && |markers| == |old(markers)|
        invariant forall j :: 0 <= j < i ==> markers[j] == MarkerFor(m, points[j], brightness, diameter, bounds)
        invariant forall j :: i <= j < |markers| ==> markers[j] == old(markers)[j]
      {
        markers := markers[i := MarkerFor(m, points[i], brightness, diameter, bounds)];
        i := i + 1;
      }
    }

    /** `updateIndicator`: the indicator moves to the current hue and saturation; then the markers are redrawn. */
    method UpdateIndicator()
      requires Valid()
      modifies this`indicatorPosition, this`indicatorColor, this`markers
      ensures Valid()
      ensures indicatorPosition == ViewPointFromHS(m, currentHSB.hue, currentHSB.saturation, diameter, bounds)
      ensures indicatorColor == CurrentColor()
      ensures subIndicatorCount == 0 ==> markers == old(markers)
      ensures subIndicatorCount != 0 ==>
                markers == Redrawn(m, old(markers), calculator.points, brightness, diameter, bounds)
    {
      indicatorPosition := ViewPointFromHS(m, currentHSB.hue, currentHSB.saturation, diameter, bounds);
      indicatorColor := CurrentColor();
      UpdateSubIndicator();
    }

    /** `callbackColors`: hands on the current colour followed by the visible markers' colours. */
    method CallbackColors()
      requires 0.0 < diameter
      modifies this`emitted
      ensures emitted == old(emitted) + [Emission(m, currentHSB, markers, brightness, diameter)]
    {
      var colors := VisibleColors(m, markers, brightness, diameter);
      colors := [CurrentColor()] + colors;
      emitted := emitted + [colors];
    }

    /**
     * The calculator is given the radius and the centre it works from, and recomputes
     * its points.
     */
    method Recalculate(radius: real, center: Point)
      requires Valid()
      modifies calculator
      ensures Valid()
      ensures calculator.radius == radius && calculator.centerPoint == center
      ensures calculator.kind == None ==> calculator.points == old(calculator.points)
      ensures calculator.kind != None ==>
                calculator.points == HarmonyPoints(m, calculator.kind, center, radius, calculator.pointCount)
    {
      calculator.radius := radius;
      calculator.centerPoint := center;
      calculator.Calc(m);
    }

    /**
     * The body of the `currentHSB` observer past its gate: the view becomes dirty, the
     * calculator is re-centred on the current colour's point with its saturation as
     * radius, and the indicator, the markers and the colours handed on follow.
     */
    method Refresh()
      requires Valid() && 0.0 < diameter
      modifies this`isDirty, this`indicatorPosition, this`indicatorColor, this`markers, this`emitted, calculator
      ensures Valid() && isDirty
      ensures calculator.radius == currentHSB.saturation
      ensures calculator.centerPoint
              == CenterPoint(ViewPointFromHS(m, currentHSB.hue, currentHSB.saturation, diameter, bounds), diameter / 2.0)
      ensures calculator.kind == None ==> calculator.points == old(calculator.points)
      ensures calculator.kind != None ==>
                calculator.points == HarmonyPoints(m, calculator.kind, calculator.centerPoint, calculator.radius, calculator.pointCount)
      ensures indicatorPosition == ViewPointFromHS(m, currentHSB.hue, currentHSB.saturation, diameter, bounds)
      ensures indicatorColor == CurrentColor()
      ensures subIndicatorCount == 0 ==> markers == old(markers)
      ensures subIndicatorCount != 0 ==>
                markers == Redrawn(m, old(markers), calculator.points, brightness, diameter, bounds)
      ensures emitted == old(emitted) + [Emission(m, currentHSB, markers, brightness, diameter)]
    {
      isDirty := true;
      var point := ViewPointFromHS(m, currentHSB.hue, currentHSB.saturation, diameter, bounds);
      Recalculate(currentHSB.saturation, CenterPoint(point, diameter / 2.0));
      UpdateIndicator();
      CallbackColors();
    }

    /**
     * The `currentHSB` observer: assigning an HSB equal to the current one while the view
     * is not dirty changes nothing else; any other assignment runs `Refresh`.
     */
    method SetCurrentHSB(value: HSB)
      requires Valid() && 0.0 < diameter
      modifies this`currentHSB, this`isDirty, this`indicatorPosition, this`indicatorColor, this`markers,
               this`emitted, calculator
      ensures Valid() && currentHSB == value
      ensures HsbEquals(old(currentHSB), value) && !old(isDirty) ==>
                && !isDirty && markers == old(markers) && emitted == old(emitted)
                && indicatorPosition == old(indicatorPosition) && indicatorColor == old(indicatorColor)
                && unchanged(calculator)
      ensures !(HsbEquals(old(currentHSB), value) && !old(isDirty)) ==>
                && isDirty
                && calculator.radius == value.saturation
                && calculator.centerPoint
                   == CenterPoint(ViewPointFromHS(m, value.hue, value.saturation, diameter, bounds), diameter / 2.0)
                && (calculator.kind != None ==>
                      calculator.points == HarmonyPoints(m, calculator.kind, calculator.centerPoint, value.saturation, calculator.pointCount))
                && indicatorPosition == ViewPointFromHS(m, value.hue, value.saturation, diameter, bounds)
                && indicatorColor == HsbToRgb(value)
                && (subIndicatorCount == 0 ==> markers == old(markers))
                && (subIndicatorCount != 0 ==>
                      markers == Redrawn(m, old(markers), calculator.points, brightness, diameter, bounds))
                && emitted == old(emitted) + [Emission(m, value, markers, brightness, diameter)]
    {
      var previous := currentHSB;
      currentHSB := value;
      if HsbEquals(previous, currentHSB) && !isDirty {
        return;
      }
      Refresh();
    }

    /** `currentColor`'s setter: the HSB of the colour goes through the `currentHSB` observer. */
    method SetCurrentColor(color: Color)
      requires Valid() && 0.0 < diameter
      modifies this`currentHSB, this`isDirty, this`indicatorPosition, this`indicatorColor, this`markers,
               this`emitted, calculator
      ensures Valid()
      ensures currentHSB == ToHsb(color) && CurrentColor() == HsbToRgb(ToHsb(color))
      ensures HsbEquals(old(currentHSB), ToHsb(color)) && !old(isDirty) ==>
                && !isDirty && markers == old(markers) && emitted == old(emitted)
                && indicatorPosition == old(indicatorPosition) && indicatorColor == old(indicatorColor)
                && unchanged(calculator)
      ensures !(HsbEquals(old(currentHSB), ToHsb(color)) && !old(isDirty)) ==> RefreshedFrom(old(markers), old(emitted))
    {
      SetCurrentHSB(ToHsb(color));
    }

    /**
     * The `brightness` observer: an unchanged value does nothing. A new value is copied
     * into the current HSB (through its observer), and the wheel image, the indicator and
     * the colours handed on follow it.
     */
    method SetBrightness(value: real)
      requires Valid() && 0.0 < diameter && SqrtLaw(m) && 0.0 <= value <= 1.0
      modifies this`brightness, this`currentHSB, this`isDirty, this`contents, this`indicatorPosition,
               this`indicatorColor, this`markers, this`emitted, calculator
      ensures Valid() && brightness == value
      ensures value == old(brightness) ==>
                && currentHSB == old(currentHSB) && isDirty == old(isDirty) && contents == old(contents)
                && markers == old(markers) && emitted == old(emitted) && unchanged(calculator)
                && indicatorPosition == old(indicatorPosition) && indicatorColor == old(indicatorColor)
      ensures value != old(brightness) ==>
                && currentHSB == old(currentHSB).(brightness := value)
                && (old(isDirty) ==> isDirty)
                && contents.Image? && IsWheelImage(contents.bytes, m, diameter, value)
                && indicatorPosition == ViewPointFromHS(m, currentHSB.hue, currentHSB.saturation, diameter, bounds)
                && indicatorColor == CurrentColor()
                && (subIndicatorCount == 0 ==> markers == old(markers))
                && (subIndicatorCount != 0 ==>
                      markers == Redrawn(m, old(markers), calculator.points, brightness, diameter, bounds))
      ensures value != old(brightness) && old(currentHSB).brightness == value && !old(isDirty) ==>
                && !isDirty && unchanged(calculator)
                && emitted == old(emitted) + [Emission(m, currentHSB, markers, brightness, diameter)]
      ensures value != old(brightness) && !(old(currentHSB).brightness == value && !old(isDirty)) ==>
                && isDirty
                && calculator.radius == currentHSB.saturation
                && calculator.centerPoint
                   == CenterPoint(ViewPointFromHS(m, currentHSB.hue, currentHSB.saturation, diameter, bounds), diameter / 2.0)
                && (calculator.kind != None ==>
                      calculator.points == HarmonyPoints(m, calculator.kind, calculator.centerPoint, calculator.radius, calculator.pointCount))
                && var e := Emission(m, currentHSB, markers, brightness, diameter);
                   emitted == old(emitted) + [e, e]
    {
      if value == brightness {
        return;
      }
      brightness := value;
      assert HsbEquals(currentHSB, currentHSB.(brightness := value)) <==> currentHSB.brightness == value;
      SetCurrentHSB(currentHSB.(brightness := value));
      ghost var drawn := markers;
      FollowBrightness();
      if subIndicatorCount != 0 {
        RedrawnTwice(m, drawn, calculator.points, brightness, diameter, bounds);
      }
    }

    /** The rest of the `brightness` observer: the wheel image, the indicator and the colours handed on follow the brightness. */
    method FollowBrightness()
      requires Valid() && 0.0 < diameter && SqrtLaw(m)
      modifies this`contents, this`indicatorPosition, this`indicatorColor, this`markers, this`emitted
      ensures Valid()
      ensures contents.Image? && IsWheelImage(contents.bytes, m, diameter, brightness)
      ensures indicatorPosition == ViewPointFromHS(m, currentHSB.hue, currentHSB.saturation, diameter, bounds)
      ensures indicatorColor == CurrentColor()
      ensures subIndicatorCount == 0 ==> markers == old(markers)
      ensures subIndicatorCount != 0 ==>
                markers == Redrawn(m, old(markers), calculator.points, brightness, diameter, bounds)
      ensures emitted == old(emitted) + [Emission(m, currentHSB, markers, brightness, diameter)]
    {
      UpdateWheel();
      UpdateIndicator();
      CallbackColors();
    }

    /**
     * The `subIndicatorCount` observer: `count` fresh hidden markers replace the old ones,
     * the calculator is re-centred on the indicator with the current saturation as radius,
     * and the indicator, the markers and the colours handed on follow.
     */
    method SetSubIndicatorCount(count: nat)
      requires Settled() && 0.0 < diameter && count == calculator.pointCount
      modifies this`subIndicatorCount, this`indicatorPosition, this`indicatorColor, this`markers,
               this`emitted, calculator
      ensures Valid() && subIndicatorCount == count
      ensures calculator.radius == currentHSB.saturation
      ensures calculator.centerPoint == CenterPoint(old(indicatorPosition), diameter / 2.0)
      ensures calculator.kind != None ==>
                calculator.points == HarmonyPoints(m, calculator.kind, calculator.centerPoint, calculator.radius, count)
      ensures indicatorPosition == ViewPointFromHS(m, currentHSB.hue, currentHSB.saturation, diameter, bounds)
      ensures indicatorColor == CurrentColor()
      ensures count == 0 ==> markers == []
      ensures count != 0 ==> markers == Redrawn(m, seq(count, _ => HiddenMarker), calculator.points, brightness, diameter, bounds)
      ensures emitted == old(emitted) + [Emission(m, currentHSB, markers, brightness, diameter)]
    {
      subIndicatorCount := count;
      markers := seq(count, _ => HiddenMarker);
      Recalculate(currentHSB.saturation, CenterPoint(indicatorPosition, diameter / 2.0));
      UpdateIndicator();
      CallbackColors();
    }

    /**
     * The `calculator` observer: the new calculator gets the wheel radius, then the
     * marker count is set to its point count (which re-centres it and hands on the colours).
     */
    method SetCalculator(c: ColorCalculator)
      requires Valid() && 0.0 < diameter && c.Valid()
      modifies this`calculator, this`subIndicatorCount, this`indicatorPosition, this`indicatorColor,
               this`markers, this`emitted, c
      ensures Valid() && calculator == c && subIndicatorCount == c.pointCount
      ensures c.radius == currentHSB.saturation
      ensures c.centerPoint == CenterPoint(old(indicatorPosition), diameter / 2.0)
      ensures c.kind != None ==> c.points == HarmonyPoints(m, c.kind, c.centerPoint, c.radius, c.pointCount)
      ensures indicatorPosition == ViewPointFromHS(m, currentHSB.hue, currentHSB.saturation, diameter, bounds)
      ensures indicatorColor == CurrentColor()
      ensures c.pointCount == 0 ==> markers == []
      ensures c.pointCount != 0 ==>
                markers == Redrawn(m, seq(c.pointCount, _ => HiddenMarker), c.points, brightness, diameter, bounds)
      ensures emitted == old(emitted) + [Emission(m, currentHSB, markers, brightness, diameter)]
      ensures CalculatorInstalled(old(indicatorPosition), old(emitted))
    {
      calculator := c;
      calculator.radius := diameter / 2.0;
      SetSubIndicatorCount(calculator.pointCount);
    }

    /**
     * `layoutSubviews`: the view becomes dirty, the wheel takes the smaller side of the
     * frame as its diameter and is redrawn, and the indicator is placed again.
     */
    method LayoutSubviews(frame: Size)
      requires Valid() && SqrtLaw(m) && 0.0 <= frame.width && 0.0 <= frame.height
      modifies this`isDirty, this`diameter, this`bounds, this`contents, this`indicatorPosition,
               this`indicatorColor, this`markers
      ensures Valid() && isDirty
      ensures bounds == frame && diameter == Min(frame.width, frame.height)
      ensures diameter == 0.0 ==> contents == old(contents)
      ensures diameter != 0.0 ==> contents.Image? && IsWheelImage(contents.bytes, m, diameter, brightness)
      ensures indicatorPosition == ViewPointFromHS(m, currentHSB.hue, currentHSB.saturation, diameter, bounds)
      ensures indicatorColor == CurrentColor()
      ensures subIndicatorCount == 0 ==> markers == old(markers)
      ensures subIndicatorCount != 0 ==>
                markers == Redrawn(m, old(markers), calculator.points, brightness, diameter, bounds)
    {
      isDirty := true;
      bounds := frame;
      diameter := Min(frame.width, frame.height);
      UpdateWheel();
      UpdateIndicator();
    }

    /**
     * `didChangeIndicator`: a touch becomes the current colour, the colour `Picked`
     * reads at the touch point, through the `currentHSB` observer.
     */
    method DidChangeIndicator(touch: Point)
      requires Valid() && 0.0 < diameter
      modifies this`currentHSB, this`isDirty, this`indicatorPosition, this`indicatorColor, this`markers,
               this`emitted, calculator
      ensures Valid()
      ensures currentHSB == Picked(m, touch, diameter, brightness)
      ensures HsbEquals(old(currentHSB), currentHSB) && !old(isDirty) ==>
                && !isDirty && markers == old(markers) && emitted == old(emitted)
                && indicatorPosition == old(indicatorPosition) && indicatorColor == old(indicatorColor)
                && unchanged(calculator)
      ensures !(HsbEquals(old(currentHSB), currentHSB) && !old(isDirty)) ==>
                && isDirty
                && calculator.radius == currentHSB.saturation
                && calculator.centerPoint
                   == CenterPoint(ViewPointFromHS(m, currentHSB.hue, currentHSB.saturation, diameter, bounds), diameter / 2.0)
                && (calculator.kind != None ==>
                      calculator.points == HarmonyPoints(m, calculator.kind, calculator.centerPoint, calculator.radius, calculator.pointCount))
                && indicatorPosition == ViewPointFromHS(m, currentHSB.hue, currentHSB.saturation, diameter, bounds)
                && indicatorColor == CurrentColor()
                && (subIndicatorCount == 0 ==> markers == old(markers))
                && (subIndicatorCount != 0 ==>
                      markers == Redrawn(m, old(markers), calculator.points, brightness, diameter, bounds))
                && emitted == old(emitted) + [Emission(m, currentHSB, markers, brightness, diameter)]
    {
      var radius := diameter / 2.0;
      var viewPoint := ConvertValid(m, touch, radius);
      var centerPoint := CenterPoint(viewPoint, radius);
      SetCurrentHSB(ColorHSB(m, centerPoint, brightness));
    }
  }
}
