/**
 * The hue/saturation wheel bitmap (`createHSColorWheelImage` in
 * ColorPicker/ColorWheelView.swift): a d-by-d RGBA buffer, four bytes per pixel at offset
 * 4 (x + y d), transparent outside the unit disk and anti-aliased at its rim.
 */
module WheelImage {
  import opened Numerics
  import opened ColorSpace
  import opened WheelMapping
  import opened Bitmap

  /**
   * The alpha of a pixel inside the wheel: opaque up to saturation 0.99, then fading
   * linearly as (1 - s) 100 towards the rim.
   */
  function EdgeAlpha(saturation: real): (a: real)
    ensures saturation <= 0.99 ==> a == 1.0
    ensures 0.99 < saturation < 1.0 ==> 0.0 < a < 1.0
  {
    if saturation > 0.99 then (1.0 - saturation) * 100.0 else 1.0
  }

  /** The colour of the wheel pixel at column x, row y. */
  function WheelPixel(m: Math, diameter: real, brightness: real, x: int, y: int): (c: RGB)
    requires diameter != 0.0
    ensures c.alpha == 0.0 <==> ColorHSB(m, CenterPoint(Point(x as real, y as real), diameter / 2.0), brightness).saturation >= 1.0
  {
    var hsb := ColorHSB(m, CenterPoint(Point(x as real, y as real), diameter / 2.0), brightness);
    if hsb.saturation < 1.0 then ToRgb(hsb.(alpha := EdgeAlpha(hsb.saturation)))
    else MakeRGB(0.0, 0.0, 0.0, 0.0)
  }

  /** With the brightness in [0, 1] every pixel's components lie in [0, 1]. */
  lemma WheelPixelInUnit(m: Math, diameter: real, brightness: real, x: int, y: int)
    requires SqrtLaw(m) && 0.0 <= brightness <= 1.0 && diameter != 0.0
    ensures InUnit(WheelPixel(m, diameter, brightness, x, y))
  {
    var p := CenterPoint(Point(x as real, y as real), diameter / 2.0);
    var hsb := ColorHSB(m, p, brightness);
    DistanceSquared(m, p);
    if hsb.saturation < 1.0 {
      ToRgbInUnit(hsb.(alpha := EdgeAlpha(hsb.saturation)));
    }
  }

  /** The bytes of the wheel pixel at column x, row y. */
  function WheelPixelBytes(m: Math, diameter: real, brightness: real, x: int, y: int): (bs: seq<byte>)
    requires SqrtLaw(m) && 0.0 <= brightness <= 1.0 && diameter != 0.0
    ensures |bs| == 4
  {
    WheelPixelInUnit(m, diameter, brightness, x, y);
    PixelBytes(WheelPixel(m, diameter, brightness, x, y))
  }

  /** The side of the bitmap: `Int(diameter)`. */
  function Side(diameter: real): (d: int)
    requires 0.0 <= diameter
    ensures 0 <= d && d as real <= diameter < d as real + 1.0
  {
    Trunc(diameter)
  }

  /**
   * `createHSColorWheelImage`: a `Int(diameter)`-square bitmap whose pixel (x, y) holds the
   * bytes of the wheel colour at (x, y).
   */
  method CreateHSColorWheelImage(m: Math, diameter: real, brightness: real) returns (bitmap: seq<byte>)
    requires SqrtLaw(m) && 0.0 <= brightness <= 1.0 && 0.0 < diameter
    ensures |bitmap| == 4 * Side(diameter) * Side(diameter)
    ensures forall x, y, k :: 0 <= x < Side(diameter) && 0 <= y < Side(diameter) && 0 <= k < 4 ==>
              bitmap[Offset(Side(diameter), Side(diameter), x, y, k)] == WheelPixelBytes(m, diameter, brightness, x, y)[k]
  {
    var pixel := (x: int, y: int) requires SqrtLaw(m) && 0.0 <= brightness <= 1.0 && 0.0 < diameter
      => WheelPixelBytes(m, diameter, brightness, x, y);
    var d := Side(diameter);
    bitmap := FillBitmap(d, d, 4 * d * d, pixel);
  }

  /** A pixel outside the unit disk (squared norm at least 1) is four zero bytes: transparent. */
  lemma WheelExteriorTransparent(m: Math, diameter: real, brightness: real, x: int, y: int)
    requires SqrtLaw(m) && 0.0 <= brightness <= 1.0 && 0.0 < diameter
    requires NormSquared(CenterPoint(Point(x as real, y as real), diameter / 2.0)) >= 1.0
    ensures WheelPixelBytes(m, diameter, brightness, x, y) == [0, 0, 0, 0]
  {
    SaturationBelowOne(m, CenterPoint(Point(x as real, y as real), diameter / 2.0), brightness);
  }

  /**
   * Inside the disk the alpha byte is 255 up to saturation 0.99; in the anti-aliased band
   * (0.99, 1) it is the truncation of (1 - s) 100 255 and below 255.
   */
  lemma WheelAlphaByte(m: Math, diameter: real, brightness: real, x: int, y: int)
    requires SqrtLaw(m) && 0.0 <= brightness <= 1.0 && 0.0 < diameter
    ensures var s := ColorHSB(m, CenterPoint(Point(x as real, y as real), diameter / 2.0), brightness).saturation;
            var alpha := WheelPixelBytes(m, diameter, brightness, x, y)[3];
            && (s <= 0.99 ==> alpha == 255)
            && (0.99 < s < 1.0 ==> alpha < 255 && alpha == UInt8Of((1.0 - s) * 100.0 * 255.0))
  {
    var p := CenterPoint(Point(x as real, y as real), diameter / 2.0);
    var hsb := ColorHSB(m, p, brightness);
    DistanceSquared(m, p);
    if hsb.saturation < 1.0 {
      var c := hsb.(alpha := EdgeAlpha(hsb.saturation));
      ToRgbInUnit(c);
      assert ToRgb(c).alpha == c.alpha;
    }
  }

  /** The centre pixel (c, c) of a wheel of diameter 2 c has the opaque grey of the brightness. */
  lemma WheelCentreColour(m: Math, diameter: real, brightness: real, c: int)
    requires SqrtLaw(m) && 0.0 <= brightness && 0.0 < diameter && c as real * 2.0 == diameter
    ensures WheelPixel(m, diameter, brightness, c, c) == RGB(brightness, brightness, brightness, 1.0)
  {
    CenterPointOfCentre(diameter / 2.0);
    assert CenterPoint(Point(c as real, c as real), diameter / 2.0) == Point(0.0, 0.0);
    ColorHSBAtCentre(m, brightness);
    ToRgbGray(0.0, brightness, 1.0);
  }

  /** Its bytes are three equal grey levels and an opaque alpha. */
  lemma WheelCentreGrey(m: Math, diameter: real, brightness: real, c: int)
    requires SqrtLaw(m) && 0.0 <= brightness <= 1.0 && 0.0 < diameter && c as real * 2.0 == diameter
    ensures var b := UInt8Of(brightness * 255.0);
            WheelPixelBytes(m, diameter, brightness, c, c) == [b, b, b, 255]
  {
    WheelCentreColour(m, diameter, brightness, c);
    assert UInt8Of(1.0 * 255.0) == 255;
  }
}
