/**
 * The brightness strip (ColorPicker/ColorBrightnessView.swift): a vertical sheet running
 * from the colour at full brightness at the top to black at the bottom, and an indicator
 * bar at the height of the current brightness, moved by touches.
 *
 * The strip draws into a content view inset by `Padding` at the top and the bottom; its
 * size is what `layoutSubviews` finds there. `updatePickerBrightness` is modelled by the
 * log `emitted` of the values passed to it.
 */
module BrightnessView {
  import opened Numerics
  import opened ColorSpace
  import opened ColorExtension
  import opened Bitmap
  import opened WheelMapping

  /** The inset of the content view from the top and the bottom of the strip. */
  const Padding: real := 10.0

  /** The touch's height in the content view, clamped to [0, maxY]. */
  function TouchPosition(touchY: real, maxY: real): (p: real)
    requires 0.0 <= maxY
    ensures 0.0 <= p <= maxY
    ensures 0.0 <= touchY - Padding <= maxY ==> p == touchY - Padding
    ensures touchY - Padding < 0.0 ==> p == 0.0
    ensures maxY < touchY - Padding ==> p == maxY
  {
    Min(Max(0.0, touchY - Padding), maxY)
  }

  /** The brightness a touch selects: 1 at the top of the content view, 0 at its bottom. */
  function TouchBrightness(touchY: real, maxY: real): (b: real)
    requires 0.0 < maxY
    ensures 0.0 <= b <= 1.0
    ensures touchY - Padding <= 0.0 ==> b == 1.0
    ensures maxY <= touchY - Padding ==> b == 0.0
  {
    var p := TouchPosition(touchY, maxY);
    QuotientInUnit(p, maxY);
    assert p == maxY ==> p / maxY == 1.0;
    1.0 - p / maxY
  }

  /** The height at which `updateIndicator` centres the indicator for a brightness. */
  function IndicatorCenterY(maxY: real, brightness: real): (y: real)
    ensures 0.0 <= maxY && 0.0 <= brightness <= 1.0 ==> 0.0 <= y <= maxY
    ensures brightness == 1.0 ==> y == 0.0
    ensures brightness == 0.0 ==> y == maxY
  {
    maxY * (1.0 - brightness)
  }

  /** A touch moves the indicator onto the clamped touch point. */
  lemma IndicatorFollowsTouch(touchY: real, maxY: real)
    requires 0.0 < maxY
    ensures IndicatorCenterY(maxY, TouchBrightness(touchY, maxY)) == TouchPosition(touchY, maxY)
  {
    var p := TouchPosition(touchY, maxY);
    assert 1.0 - TouchBrightness(touchY, maxY) == p / maxY;
  }

  /** Touching the indicator's own centre selects the brightness it shows. */
  lemma TouchAtIndicator(maxY: real, brightness: real)
    requires 0.0 < maxY && 0.0 <= brightness <= 1.0
    ensures TouchBrightness(IndicatorCenterY(maxY, brightness) + Padding, maxY) == brightness
  {
    var y := IndicatorCenterY(maxY, brightness);
    MulNonNeg(maxY, 1.0 - brightness);
    MulMono(maxY, 1.0 - brightness, 1.0);
    assert TouchPosition(y + Padding, maxY) == y;
    CancelFactor(1.0 - brightness, maxY);
  }

  lemma CancelFactor(a: real, d: real)
    requires d != 0.0
    ensures (d * a) / d == a
  {
    var q := (d * a) / d;
    assert q * d == d * a;
    assert d * (q - a) == 0.0;
  }

  /** The brightness of row y of a sheet of `height` rows: 1 at the top, falling towards 0. */
  function RowBrightness(height: int, y: int): (b: real)
    requires 0 <= y < height
    ensures 0.0 < b <= 1.0
  {
    QuotientInUnit(y as real, height as real);
    1.0 - y as real / height as real
  }

  /** Lower rows are strictly darker. */
  lemma RowBrightnessDecreasing(height: int, y: int, y': int)
    requires 0 <= y < y' < height
    ensures RowBrightness(height, y') < RowBrightness(height, y)
  {
    var h := height as real;
    assert (y' as real) / h - (y as real) / h == (y' as real - y as real) / h;
  }

  /** The colour of row y of the sheet: the colour's hue and saturation at the row's brightness, opaque. */
  function SheetRow(color: Color, height: int, y: int): (c: RGB)
    requires 0 <= y < height
    ensures InUnit(c)
  {
    var hsb := ToHsb(color);
    ToHsbSaturation(color);
    ToRgbInUnit(HSB(hsb.hue, hsb.saturation, RowBrightness(height, y), 1.0));
    ToRgb(HSB(hsb.hue, hsb.saturation, RowBrightness(height, y), 1.0))
  }

  /** The bytes written for every pixel of row y. */
  function SheetRowBytes(color: Color, height: int, y: int): (bs: seq<byte>)
    requires 0 <= y < height
    ensures |bs| == 4
  {
    PixelBytes(SheetRow(color, height, y))
  }

  /** The sheet is opaque: every row's alpha byte is 255. */
  lemma SheetOpaque(color: Color, height: int, y: int)
    requires 0 <= y < height
    ensures SheetRowBytes(color, height, y)[3] == 255
  {
    var hsb := ToHsb(color);
    assert SheetRow(color, height, y).alpha == 1.0;
    assert UInt8Of(1.0 * 255.0) == 255;
  }

  /**
   * A row read back with `getHue` has the row's brightness and, for a colour without
   * negative channels, the colour's own saturation.
   */
  lemma SheetRowReadsBack(color: Color, height: int, y: int)
    requires 0 <= y < height
    ensures ToHsb(SheetRow(color, height, y)).brightness == RowBrightness(height, y)
    ensures 0.0 <= color.red && 0.0 <= color.green && 0.0 <= color.blue ==>
              ToHsb(SheetRow(color, height, y)).saturation == ToHsb(color).saturation
  {
    var hsb := ToHsb(color);
    ToHsbSaturation(color);
    var row := HSB(hsb.hue, hsb.saturation, RowBrightness(height, y), 1.0);
    assert SheetRow(color, height, y) == ToRgb(row);
    RowReadsBack(row);
  }

  /** An opaque colour of positive brightness converted to RGB and back keeps its brightness, and its saturation when at most 1. */
  lemma RowReadsBack(row: HSB)
    requires 0.0 < row.brightness && 0.0 <= row.saturation && row.alpha == 1.0
    ensures ToHsb(ToRgb(row)).brightness == row.brightness
    ensures row.saturation <= 1.0 ==> ToHsb(ToRgb(row)).saturation == row.saturation
  {
    if row.saturation <= 1.0 {
      BrightnessSaturationRoundTrip(row);
    } else {
      RawChannels(row);
      ScaleOverSaturated(row.brightness, row.saturation);
      ClampedSpread(HsbToRgb(row), row.brightness, Scale(row.brightness, row.saturation));
      ToHsbOfSpread(ToRgb(row), row.brightness, 0.0);
    }
  }

  /** Past saturation 1 the lowest channel v (1 - s) is not positive. */
  lemma ScaleOverSaturated(v: real, s: real)
    requires 0.0 <= v && 1.0 <= s
    ensures Scale(v, s) <= 0.0
  {
    MulMono(v, 1.0 - s, 0.0);
  }

  /** Clamping the negative channels of a colour that spans [lo, hi] around 0 gives one that spans [0, hi]. */
  lemma ClampedSpread(r: RGB, hi: real, lo: real)
    requires Spread(r, hi, lo) && lo <= 0.0 <= hi
    ensures Spread(ColorRgb(r), hi, 0.0)
  {
  }

  /** The indicator's centre lies on the row that shows its brightness. */
  lemma IndicatorOnRow(height: int, brightness: real, y: int)
    requires 0 <= y < height && y as real == IndicatorCenterY(height as real, brightness)
    ensures RowBrightness(height, y) == brightness
  {
    CancelFactor(1.0 - brightness, height as real);
  }

  /** `Int(width height 4)` has room for the `Int(width)`-by-`Int(height)` pixels. */
  lemma BufferFits(size: Size)
    requires 0.0 <= size.width && 0.0 <= size.height
    ensures 4 * Trunc(size.width) * Trunc(size.height) <= Trunc(size.width * size.height * 4.0)
  {
    var w, h := Trunc(size.width), Trunc(size.height);
    MulMono(w as real, h as real, size.height);
    MulMono(size.height, w as real, size.width);
    assert ((4 * w * h) as real) == (w as real) * (h as real) * 4.0;
  }

  /** A bitmap is the sheet of this colour for a content view of this size. */
  ghost predicate IsSheetImage(bytes: seq<byte>, color: Color, size: Size)
    requires 0.0 <= size.width && 0.0 <= size.height
  {
    var width, height := Trunc(size.width), Trunc(size.height);
    && |bytes| == Trunc(size.width * size.height * 4.0)
    && 4 * width * height <= |bytes|
    && (forall x, y, k :: 0 <= x < width && 0 <= y < height && 0 <= k < 4 ==>
          bytes[Offset(width, height, x, y, k)] == SheetRowBytes(color, height, y)[k])
    && (forall i :: 4 * width * height <= i < |bytes| ==> bytes[i] == 0)
  }

  /** The layer contents the strip shows for a colour: none for an empty content view, else the sheet. */
  ghost predicate IsSheet(contents: Contents, color: Color, size: Size)
    requires 0.0 <= size.width && 0.0 <= size.height
  {
    if size.width == 0.0 && size.height == 0.0 then contents == NoContents
    else contents.Image? && IsSheetImage(contents.bytes, color, size)
  }

  /**
   * `createBrightSheetImage`: `nil` for an empty content view; otherwise a zero-filled
   * buffer of `Int(width height 4)` bytes in which every pixel of row y holds the
   * bytes of `SheetRow(y)`.
   */
  method CreateBrightSheetImage(color: Color, size: Size) returns (image: Contents)
    requires 0.0 <= size.width && 0.0 <= size.height
    ensures IsSheet(image, color, size)
  {
    if size.width == 0.0 && size.height == 0.0 {
      return NoContents;
    }
    var length := Trunc(size.width * size.height * 4.0);
    var height := Trunc(size.height);
    var width := Trunc(size.width);
    BufferFits(size);
    var pixel := (x: int, y: int) requires 0 <= y < height => SheetRowBytes(color, height, y);
    var bytes := FillBitmap(width, height, length, pixel);
    image := Image(bytes);
  }

  /** `ColorBrightnessView`. */
  class ColorBrightnessView {
    var isDirty: bool
    var color: Color
    var brightness: real
    var content: Size
    var contents: Contents
    var indicatorPosition: Point
    var indicatorColor: Color
    var emitted: seq<real>

    /** The content view has a size. */
    ghost predicate Sized()
      reads this
    {
      0.0 <= content.width && 0.0 <= content.height
    }

    /** The indicator sits at the height of the brightness, filled with the colour at that brightness. */
    ghost predicate Placed()
      reads this
    {
      && indicatorPosition == Point(content.width / 2.0, IndicatorCenterY(content.height, brightness))
      && indicatorColor == IndicatorColor(color, brightness)
    }

    /** The indicator is placed and the sheet drawn for the current colour and content size. */
    ghost predicate Valid()
      reads this
    {
      && Sized()
      && Placed()
      && IsSheet(contents, color, content)
    }

    /** The indicator's fill: the colour's hue and saturation at the given brightness, opaque. */
    static function IndicatorColor(color: Color, brightness: real): (c: Color)
      ensures c.alpha == 1.0
    {
      var hsb := ToHsb(color);
      HsbToRgb(HSB(hsb.hue, hsb.saturation, brightness, 1.0))
    }

    /**
     * `init(frame:)`: white, brightness 0, not dirty; the content view has no size yet,
     * so there is no sheet, and the indicator is placed at its origin.
     */
    constructor ()
      ensures Valid()
      ensures !isDirty && color == White && brightness == 0.0 && content == Size(0.0, 0.0)
      ensures contents == NoContents && emitted == []
    {
      isDirty := false;
      color := White;
      brightness := 0.0;
      content := Size(0.0, 0.0);
      contents := NoContents;
      emitted := [];
      new;
      UpdateIndicator();
    }

    /** `updateIndicator`. */
    method UpdateIndicator()
      modifies this`indicatorPosition, this`indicatorColor
      ensures Placed()
    {
      indicatorPosition := Point(content.width / 2.0, IndicatorCenterY(content.height, brightness));
      indicatorColor := IndicatorColor(color, brightness);
    }

    /** `updateColor`: the layer shows the sheet of the current colour. */
    method UpdateColor()
      requires 0.0 <= content.width && 0.0 <= content.height
      modifies this`contents
      ensures IsSheet(contents, color, content)
    {
      contents := CreateBrightSheetImage(color, content);
    }

    /**
     * The `brightness` observer: an unchanged value does nothing; a new one moves the
     * indicator and is handed to the picker.
     */
    method SetBrightness(value: real)
      requires Sized()
      modifies this`brightness, this`indicatorPosition, this`indicatorColor, this`emitted
      ensures Sized() && brightness == value
      ensures old(Valid()) ==> Valid()
      ensures value == old(brightness) ==>
                indicatorPosition == old(indicatorPosition) && indicatorColor == old(indicatorColor)
                && emitted == old(emitted)
      ensures value != old(brightness) ==> Placed() && emitted == old(emitted) + [value]
    {
      var previous := brightness;
      brightness := value;
      if previous == value {
        return;
      }
      UpdateIndicator();
      emitted := emitted + [value];
    }

    /**
     * The `color` observer: assigning the same colour while the view is not dirty changes
     * nothing else. Otherwise the view becomes dirty, takes the colour's brightness
     * (through its observer), and redraws the sheet and the indicator.
     */
    method SetColor(value: Color)
      requires Valid()
      modifies this`color, this`isDirty, this`brightness, this`contents, this`indicatorPosition,
               this`indicatorColor, this`emitted
      ensures Valid() && color == value
      ensures old(color) == value && !old(isDirty) ==>
                && !isDirty && brightness == old(brightness) && contents == old(contents)
                && indicatorPosition == old(indicatorPosition) && emitted == old(emitted)
      ensures !(old(color) == value && !old(isDirty)) ==>
                && isDirty && brightness == ToHsb(value).brightness
                && emitted == old(emitted) + (if brightness == old(brightness) then [] else [brightness])
    {
      var previous := color;
      color := value;
      if previous == value && !isDirty {
        return;
      }
      isDirty := true;
      SetBrightness(ToHsb(color).brightness);
      UpdateColor();
      UpdateIndicator();
    }

    /** `layoutSubviews`: the view becomes dirty, and the indicator and the sheet follow the new content size. */
    method LayoutSubviews(size: Size)
      requires 0.0 <= size.width && 0.0 <= size.height
      modifies this`isDirty, this`content, this`contents, this`indicatorPosition, this`indicatorColor
      ensures Valid() && isDirty && content == size
    {
      isDirty := true;
      content := size;
      UpdateIndicator();
      UpdateColor();
    }

    /**
     * `didChangeIndicator`: a touch at height `touchY` in the strip selects the brightness
     * of its clamped position in the content view, and the indicator moves there.
     */
    method DidChangeIndicator(touchY: real)
      requires Valid() && 0.0 < content.height
      modifies this`brightness, this`indicatorPosition, this`indicatorColor, this`emitted
      ensures Valid()
      ensures brightness == TouchBrightness(touchY, content.height)
      ensures indicatorPosition.y == TouchPosition(touchY, content.height)
      ensures brightness != old(brightness) ==> emitted == old(emitted) + [brightness]
      ensures brightness == old(brightness) ==> emitted == old(emitted)
    {
      var positionY := TouchPosition(touchY, content.height);
      SetBrightness(1.0 - positionY / content.height);
      IndicatorFollowsTouch(touchY, content.height);
    }
  }
}
