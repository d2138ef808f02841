# ColorPicker in Dafny

A model of the colour picker of `rutinfc/ColorPicker`:

- the hue/saturation wheel, with its mapping between view points, disk points and colours;
- the RGBA bitmap the wheel draws;
- the brightness strip and its bitmap;
- the harmony calculators that place the analogous and triadic companion colours;
- the `RGB`/`HSB` value types and the colours derived from them (complement, black-or-white, `#RRGGBB`);
- the three picker views that assemble the colour lists handed to their owner;
- the example screen that routes those lists into its five colour slots.

Modelling choices:

- **Numbers.** `CGFloat` and `Double` are `real`, and `CGFloat.pi` is the constant `Pi` (the `Double` nearest to pi). `sqrt`, `acos`, `atan2`, `cos` and `sin` are the fields of a `Math` value passed in. The few laws the proofs rely on are ghost predicates that members take as preconditions:
  - `SqrtLaw`: `sqrt` is the non-negative root;
  - `AcosLaw`: `acos` maps [-1, 1] into [0, pi], and is positive below 1;
  - `PythagorasLaw`: cos² + sin² = 1;
  - `Atan2Law`: `atan2` gives an angle in (-pi, pi];
  - `PeriodLaw` and `HalfTurnLaw`: periodicity, and `acos(cos t) = t` on [0, pi] together with the sign of `sin` there.
- **Conversions.** `Int(x)` truncates toward zero (`Trunc`). `UInt8(x)` truncates and traps outside (-1, 256) (`UInt8Of`). `lroundf` rounds half away from zero (`RoundHalfAway`).
- **Colours.** A `UIColor` is its RGBA component record.
  - `UIColor(hue:…)` and `getHue` are the textbook HSB conversion formulas.
  - `UIColor.rgb` goes through `RGB.init`, which clamps negative components.
  - `getWhite` is a function value supplied by the caller.
- **Classes.** Each view class is a Dafny `class` whose methods change its fields the way the source's `didSet` observers do. Callbacks to the owner (`updatePickerColors`, `updatePickerBrightness`, `didChangeColors…`) are logs of the values handed over, not re-entrant calls. The example screen's requests to its picker are a log as well.
- **Wheel read-back.** The wheel class reads view points back exactly as the source does: with `centerPoint` alone, also in a view that is not square, where `viewPointFromHS` has shifted them. The shift-free read-back (`WheelMapping.DiskPoint`) is used only to state the corrected round trip of the finding below.
- **Example screen.** `ExampleViewController` never assigns `currentHarmonyType`. Selecting the segment changes only the picker's harmony, so reopening the primary slot asks for the analogous harmony again. The model keeps this.

## Model

| member | source | states |
|---|---|---|
| Numerics.Trunc | ColorPicker/ColorWheelView.swift:399-400 | `Int(x)` is the integer toward zero: within 1 of x, not beyond it |
| Numerics.UInt8Of | ColorPicker/ColorWheelView.swift:301-304 | `UInt8(v)` for v in (-1, 256): the truncation, 0 below 1 |
| Numerics.RoundHalfAway | ColorPickerControl/UIColorExtension.swift:60 | `lroundf` lands within one half of its argument |
| ColorSpace.MakeRGB | ColorPicker/ColorSpace.swift:17-26 | every component is ≥ 0; a negative input becomes exactly 0; a non-negative one, even above 1, is kept |
| ColorSpace.MakeRGBIdempotent | ColorPicker/ColorSpace.swift:22-25 | re-initialising an `RGB` from its own fields gives the same value |
| ColorSpace.HsbEquals | ColorPicker/ColorSpace.swift:63-67 | `HSB ==` holds exactly when the two values are equal |
| ColorSpace.HsbToRgb | ColorPicker/ColorSpace.swift:54-56 | `HSB.color` keeps the alpha |
| ColorSpace.ColorRgb | ColorPickerControl/UIColorExtension.swift:23-31 | `UIColor.rgb` returns a colour with no negative component unchanged |
| ColorSpace.ToRgb | ColorPicker/ColorSpace.swift:58-60 | `HSB.rgb` has no negative channel |
| ColorSpace.ToHsb | ColorPickerControl/UIColorExtension.swift:13-21 | `UIColor.hsb` keeps the alpha |
| ColorSpace.RawChannels | ColorPicker/ColorSpace.swift:54-56 | the converted channels lie between v(1-s) and v and reach both |
| ColorSpace.ToRgbInUnit | ColorPicker/ColorSpace.swift:58-60 | with brightness and alpha in [0, 1], every channel of `HSB.rgb` is in [0, 1], so `UInt8(c * 255)` cannot trap |
| ColorSpace.ToRgbGray | ColorPicker/ColorSpace.swift:58-60 | an unsaturated HSB converts to the grey of its brightness, whatever its hue |
| ColorSpace.ToHsbOfSpread | ColorPickerControl/UIColorExtension.swift:13-21 | `getHue`'s brightness is the largest channel and its saturation is (max - min) / max |
| ColorSpace.ToHsbSaturation | ColorPickerControl/UIColorExtension.swift:13-21 | `getHue`'s saturation is ≥ 0, and ≤ 1 without negative channels |
| ColorSpace.BrightnessSaturationRoundTrip | ColorPicker/ColorSpace.swift:54-60 | HSB → RGB → HSB restores the brightness and the alpha, and the saturation at positive brightness |
| ColorExtension.Complementary | ColorPickerControl/UIColorExtension.swift:33-42 | each of r, g, b becomes 1 - c; the alpha becomes 1 whatever it was |
| ColorExtension.ComplementaryTwice | ColorPickerControl/UIColorExtension.swift:37-41 | complementing twice restores r, g, b, with alpha 1 |
| ColorExtension.BlackOrWhite | ColorPickerControl/UIColorExtension.swift:44-48 | black exactly when the white level is below 0.7, white otherwise |
| ColorExtension.BlackOrWhiteExtremes | ColorPickerControl/UIColorExtension.swift:47 | white level 0 gives black; 1 and 0.7 give white |
| ColorExtension.DigitRoundTrip | ColorPickerControl/UIColorExtension.swift:60 | each upper-case hex digit reads back as its value |
| ColorExtension.HexDigit | ColorPickerControl/UIColorExtension.swift:60 | `%X` writes an upper-case hex digit for each value 0..15 |
| ColorExtension.HexDigits | ColorPickerControl/UIColorExtension.swift:60 | `%lX` writes at least one upper-case hex digit, exactly one for values below 16 |
| ColorExtension.HexField | ColorPickerControl/UIColorExtension.swift:60 | a `%02lX` field is at least two upper-case hex digits, exactly two for 0..255 |
| ColorExtension.ComponentByte | ColorPickerControl/UIColorExtension.swift:60 | `lroundf(c * 255)` lies in 0..255 for a component in [0, 1]; 0 maps to 0 and 1 to 255 |
| ColorExtension.HexDigitsRoundTrip | ColorPickerControl/UIColorExtension.swift:60 | `%lX` digits read back as the number; they are two long exactly for 16..255 |
| ColorExtension.HexFieldRoundTrip | ColorPickerControl/UIColorExtension.swift:60 | a `%02lX` field of 0..255 is two hex digits that read back as the value |
| ColorExtension.HexString | ColorPickerControl/UIColorExtension.swift:50-62 | "" exactly when there are not four components, otherwise it starts with '#' |
| ColorExtension.HexStringFormat | ColorPickerControl/UIColorExtension.swift:60 | with rounded components in 0..255 the string is 7 long, and each field reads back as `lroundf(c * 255)` |
| ColorExtension.HexStringRed | ColorPickerControl/UIColorExtension.swift:60 | opaque red formats as "#FF0000" |
| Harmony.PointCount | ColorPicker/Picker/ColorCalculator.swift:15-26 | `calculator()` gives 0, 2 or 3 points for none, analogous and triadic, and only those |
| Harmony.Rad2Deg | ColorPicker/Picker/ColorCalculator.swift:45-47 | pi radians are 180 degrees; the sign is kept |
| Harmony.Deg2Rad | ColorPicker/Picker/ColorCalculator.swift:49-51 | 180 degrees are pi radians; the sign is kept |
| Harmony.RadDegInverse | ColorPicker/Picker/ColorCalculator.swift:45-51 | `rad2deg` and `deg2rad` undo each other |
| Harmony.Theta | ColorPicker/Picker/ColorCalculator.swift:37-39 | under `Atan2Law` the centre's direction lies in (-pi, pi], so its degree lies in (-180, 180] |
| Harmony.HarmonyPoints | ColorPicker/Picker/ColorCalculator.swift:67-73 | reference definition of the list an overriding `calc()` builds; its properties are the contracts of `Harmony.HarmonyPointsOnCircle`, `Harmony.AnalogousAngles` and `Harmony.TriadicAngles` |
| Harmony.PointAngleOffset | ColorPicker/Picker/ColorCalculator.swift:65-68 | point index i sits at the centre's direction plus i steps |
| Harmony.PolarDistance | ColorPicker/Picker/ColorCalculator.swift:69-71 | (cos t · r, sin t · r) lies at distance r from the origin |
| Harmony.HarmonyPointsOnCircle | ColorPicker/Picker/ColorCalculator.swift:90-95 | every generated point lies at distance `radius` from the origin |
| Harmony.AnalogousAngles | ColorPicker/Picker/ColorCalculator.swift:65-68 | analogous points 1 and 2 sit 30° and 60° past the centre's direction |
| Harmony.TriadicAngles | ColorPicker/Picker/ColorCalculator.swift:88-91 | triadic points sit 120° apart, and the third points in the centre's direction |
| Harmony.ColorCalculator.constructor | ColorPicker/Picker/ColorCalculator.swift:15-26 | a fresh calculator of the kind, with its point count and no points |
| Harmony.ColorCalculator.Calc | ColorPicker/Picker/ColorCalculator.swift:61-74 | the base `calc` leaves `points` alone; the others discard them and rebuild them from centre, radius and count only |
| WheelMapping.CenterPoint | ColorPicker/ColorWheelView.swift:385-390 | the disk point d of view point v satisfies r(d + 1) = v on each axis |
| WheelMapping.CenterPointOfCentre | ColorPicker/ColorWheelView.swift:385-390 | the view point (r, r) maps to the origin |
| WheelMapping.Distance | ColorPicker/ColorWheelView.swift:392-394 | `distance` is never negative |
| WheelMapping.DistanceSquared | ColorPicker/ColorWheelView.swift:392-394 | `distance` is ≥ 0 and its square is x² + y² |
| WheelMapping.DistanceCompare | ColorPicker/ColorWheelView.swift:392-394 | comparing `distance` with a bound is comparing x² + y² with the bound squared |
| WheelMapping.ColorHSB | ColorPicker/ColorWheelView.swift:342-358 | brightness is the wheel's and alpha is 1; saturation 0 gives hue 0 |
| WheelMapping.ColorHSBAtCentre | ColorPicker/ColorWheelView.swift:345-348 | the centre is the unsaturated colour of hue 0 |
| WheelMapping.AcosArgument | ColorPicker/ColorWheelView.swift:350 | `acos` is applied inside [-1, 1] |
| WheelMapping.ColorHSBRanges | ColorPicker/ColorWheelView.swift:342-358 | saturation is the Euclidean norm; hue is in [0, 1); it is in [0, ½] for y ≥ 0 and in [½, 1) for y < 0 |
| WheelMapping.BelowAxis | ColorPicker/ColorWheelView.swift:350-354 | strictly below the axis x / norm < 1, so the flipped hue stays below 1 |
| WheelMapping.SaturationBelowOne | ColorPicker/ColorWheelView.swift:291 | saturation < 1 exactly when x² + y² < 1 |
| WheelMapping.ViewPointFromHS | ColorPicker/ColorWheelView.swift:366-383 | saturation 0 is placed at the wheel centre, shifted by half the extra width or height of the view |
| WheelMapping.ViewPointOnCircle | ColorPicker/ColorWheelView.swift:366-383 | `viewPointFromHS` lies at distance saturation · radius from the (shifted) wheel centre |
| WheelMapping.DiskPointOfViewPoint | ColorPicker/ColorWheelView.swift:366-390 | in a view no larger than the wheel, `centerPoint(viewPointFromHS(h, s))` is the polar point (s cos 2πh, s sin 2πh) |
| WheelMapping.AngleOfTurns | ColorPicker/ColorWheelView.swift:369-370 | hue · π · 2 is the angle of the hue, and 1 - hue gives the mirrored angle |
| WheelMapping.PolarRoundTrip | ColorPicker/ColorWheelView.swift:342-383 | `colorHSB` of the polar point of (h, s) has saturation s, and hue h when s > 0 and h in [0, 1) |
| WheelMapping.HueSaturationRoundTrip | ColorPicker/ColorWheelView.swift:342-390 | in a view no larger than the wheel, view point → disk point → colour recovers the saturation, and the hue when s > 0 and h in [0, 1) |
| WheelMapping.ToWheel | ColorPicker/ColorWheelView.swift:372-380 | removing the centring shift; identity in a view no larger than the wheel |
| WheelMapping.ToWheelUndoesCentring | ColorPicker/ColorWheelView.swift:366-383 | with the shift removed, a view point is the one a square view would give |
| WheelMapping.DiskPoint | ColorPicker/ColorWheelView.swift:372-390 | the disk point of a view point, shift removed; `centerPoint` itself in a view no larger than the wheel |
| WheelMapping.DiskPointRoundTrip | ColorPicker/ColorWheelView.swift:342-390 | in any view, (h, s) → view point → disk point → colour recovers s, and h when s > 0 and h in [0, 1) |
| WheelMapping.CentringNotUndone | ColorPicker/ColorWheelView.swift:366-390 | in a 300×200 view with diameter 200, the centre colour is drawn at (150, 100), which `centerPoint` reads as saturation 0.5 |
| WheelMapping.ConvertValid | ColorPicker/ColorWheelView.swift:396-415 | a touch whose truncated offset lies within the radius is kept as it is; any other touch is moved to a point on the rim, at distance `radius` from (r, r) |
| WheelMapping.ConvertValidClamps | ColorPicker/ColorWheelView.swift:396-415 | a touch whose truncated offset is within the radius is kept; any other is moved onto the rim |
| Bitmap.PixelBytes | ColorPicker/ColorWheelView.swift:301-304 | four bytes, each the truncation of component · 255 |
| Bitmap.Offset | ColorPicker/ColorWheelView.swift:300 | 4(x + y·w) + k is inside the w·h·4 pixel bytes |
| Bitmap.OffsetDecodes | ColorPicker/ColorWheelView.swift:300 | an offset determines its x, y and channel |
| Bitmap.OffsetsCover | ColorPicker/ColorWheelView.swift:282-300 | every index below 4·w·h is the offset of some pixel and channel |
| Bitmap.OffsetDistinct | ColorPicker/ColorWheelView.swift:300 | distinct pixels write disjoint bytes, so each byte is written once |
| Bitmap.WritePixel | ColorPicker/ColorWheelView.swift:301-304 | the four bytes of one pixel are stored and nothing else changes |
| Bitmap.FilledStep | ColorPicker/ColorWheelView.swift:282-305 | writing pixel (x, y) keeps every pixel written before it |
| Bitmap.FilledAll | ColorPicker/ColorWheelView.swift:282-306 | after all rows, every pixel holds its bytes |
| Bitmap.FillRow | ColorPicker/ColorWheelView.swift:283-305 | the inner loop writes every pixel of row y and keeps the earlier rows and the trailing bytes |
| Bitmap.FillBitmap | ColorPicker/ColorWheelView.swift:273-306 | the y/x loops give a buffer of the requested length where every pixel holds its bytes and the rest is zero |
| WheelImage.EdgeAlpha | ColorPicker/ColorWheelView.swift:293-297 | alpha 1 up to saturation 0.99, strictly between 0 and 1 in (0.99, 1) |
| WheelImage.WheelPixel | ColorPicker/ColorWheelView.swift:285-299 | a pixel is fully transparent exactly where its saturation is 1 or more, outside the wheel |
| WheelImage.WheelPixelInUnit | ColorPicker/ColorWheelView.swift:285-299 | every wheel pixel's components are in [0, 1] |
| WheelImage.WheelPixelBytes | ColorPicker/ColorWheelView.swift:285-304 | each pixel is four bytes, and none of the `UInt8` conversions traps |
| WheelImage.Side | ColorPicker/ColorWheelView.swift:273 | the bitmap side `Int(diameter)` is within 1 below the diameter |
| WheelImage.CreateHSColorWheelImage | ColorPicker/ColorWheelView.swift:271-306 | the buffer has 4·d·d bytes, and pixel (x, y) holds the wheel colour at (x, y) |
| WheelImage.WheelExteriorTransparent | ColorPicker/ColorWheelView.swift:285-299 | a pixel with x² + y² ≥ 1 is four zero bytes |
| WheelImage.WheelAlphaByte | ColorPicker/ColorWheelView.swift:291-304 | the alpha byte is 255 up to saturation 0.99; in (0.99, 1) it is below 255 and is `UInt8((1 - s) · 100 · 255)` |
| WheelImage.WheelCentreColour | ColorPicker/ColorWheelView.swift:285-299 | the centre pixel is the opaque grey of the brightness |
| WheelImage.WheelCentreGrey | ColorPicker/ColorWheelView.swift:285-304 | its bytes are three equal grey levels and 255 |
| ColorWheel.Redrawn | ColorPicker/ColorWheelView.swift:229-236 | reference definition of `updateSubIndicator`'s loop; its properties are the contracts of `ColorWheel.RedrawnTwice` and `ColorWheel.DrawnMarkersReadBack` |
| ColorWheel.RedrawnTwice | ColorPicker/ColorWheelView.swift:229-236 | redrawing the markers for the same points a second time changes nothing |
| ColorWheel.ReadBack | ColorPicker/ColorWheelView.swift:211-216 | the colour reported for a marker, read at its position by `centerPoint`, is opaque |
| ColorWheel.VisibleColors | ColorPicker/ColorWheelView.swift:211-216 | at most one colour per marker; none when every marker is hidden |
| ColorWheel.ColoursOf | ColorPicker/ColorWheelView.swift:231-233 | one colour per point, the colour of the wheel there |
| ColorWheel.Emission | ColorPicker/ColorWheelView.swift:209-221 | reference definition of the list `callbackColors` hands on; what it contains after a harmony redraw is the contract of `ColorWheel.HarmonyEmission` |
| ColorWheel.ReadBackOfMarker | ColorPicker/ColorWheelView.swift:211-235 | in a view where the wheel is not shifted, a marker read back at its position reports the colour it was drawn with |
| ColorWheel.MarkerMisread | ColorPicker/ColorWheelView.swift:209-236 | in a 300×200 view with diameter 200, the marker drawn grey at the centre is reported as a colour of saturation one half |
| ColorWheel.DrawnMarkersReadBack | ColorPicker/ColorWheelView.swift:209-236 | in a view where the wheel is not shifted, markers drawn for points report exactly the points' colours, in order |
| ColorWheel.HarmonySaturation | ColorPicker/ColorWheelView.swift:36-40 | each harmony point's colour has saturation equal to the calculator radius |
| ColorWheel.HarmonyEmission | ColorPicker/ColorWheelView.swift:209-236 | in a view where the wheel is not shifted, the list handed on after a harmony redraw is the current colour, then the harmony points' colours |
| ColorWheel.Picked | ColorPicker/ColorWheelView.swift:248-254 | the colour picked by a touch has the wheel's brightness, alpha 1 and a non-negative saturation |
| ColorWheel.PickedOnRim | ColorPicker/ColorWheelView.swift:248-254 | a touch whose truncated offset from (r, r) is outside the wheel picks a colour of saturation 1 |
| ColorWheel.PickedInside | ColorPicker/ColorWheelView.swift:248-254 | any other touch picks the colour `centerPoint` reads at the touch itself |
| ColorWheel.RimSaturation | ColorPicker/ColorWheelView.swift:409-414 | a point on the rim has saturation 1 |
| ColorWheel.ColorWheelView.constructor | ColorPicker/ColorWheelView.swift:126-130 | white, brightness 1, not dirty, no harmony, no bitmap; the indicator is placed and shows the current colour |
| ColorWheel.ColorWheelView.CurrentColor | ColorPicker/ColorWheelView.swift:85-92 | the colour of the current HSB, with its alpha |
| ColorWheel.ColorWheelView.UpdateWheel | ColorPicker/ColorWheelView.swift:239-246 | no change at diameter 0; otherwise the layer shows the wheel image |
| ColorWheel.ColorWheelView.UpdateSubIndicator | ColorPicker/ColorWheelView.swift:223-237 | no change without markers; otherwise marker i is drawn for point i |
| ColorWheel.ColorWheelView.UpdateIndicator | ColorPicker/ColorWheelView.swift:196-207 | the indicator moves to the current hue and saturation, then the markers are redrawn |
| ColorWheel.ColorWheelView.CallbackColors | ColorPicker/ColorWheelView.swift:209-221 | the emission is appended to the log |
| ColorWheel.ColorWheelView.Recalculate | ColorPicker/ColorWheelView.swift:38-40 | the calculator gets radius and centre and recomputes its points |
| ColorWheel.ColorWheelView.Refresh | ColorPicker/ColorWheelView.swift:34-44 | dirty; calculator re-centred on `centerPoint` of the indicator's view point, radius the saturation; indicator, markers and emission follow |
| ColorWheel.ColorWheelView.SetCurrentHSB | ColorPicker/ColorWheelView.swift:27-46 | an equal HSB is ignored only while not dirty; any other assignment makes the view dirty and refreshes it |
| ColorWheel.ColorWheelView.SetCurrentColor | ColorPicker/ColorWheelView.swift:85-88 | the current HSB becomes the colour's HSB; an equal HSB while not dirty changes nothing else; otherwise the observer's refresh follows in full (`RefreshedFrom`: dirty, re-centred calculator, indicator, markers, one emission) |
| ColorWheel.ColorWheelView.SetBrightness | ColorPicker/ColorWheelView.swift:48-60 | an unchanged brightness does nothing, the indicator included; a new one goes into the HSB, the wheel image and markers are redrawn, and the log grows by one list when the HSB observer returns early and by two equal lists otherwise |
| ColorWheel.ColorWheelView.FollowBrightness | ColorPicker/ColorWheelView.swift:56-58 | the wheel image of the brightness, the indicator and markers redrawn, and one list handed on |
| ColorWheel.ColorWheelView.SetSubIndicatorCount | ColorPicker/ColorWheelView.swift:73-83 | fresh hidden markers; calculator re-centred on `centerPoint` of the old indicator position; indicator placed and coloured with the current colour; markers redrawn; colours handed on |
| ColorWheel.ColorWheelView.SetCalculator | ColorPicker/ColorWheelView.swift:62-83 | the new calculator is installed and the marker count set to its point count; it is re-centred and recomputed, the indicator is placed and coloured, fresh markers are drawn for its points, and that emission is handed on |
| ColorWheel.ColorWheelView.LayoutSubviews | ColorPicker/ColorWheelView.swift:132-151 | dirty; diameter = min(width, height); wheel redrawn; indicator placed and coloured with the current colour; markers redrawn for the calculator's points unless there are none |
| ColorWheel.ColorWheelView.DidChangeIndicator | ColorPicker/ColorWheelView.swift:248-254 | the current HSB becomes the colour picked at the clamped touch, and the `currentHSB` observer's gate, re-centring, redraw and emission follow |
| BrightnessView.TouchPosition | ColorPicker/ColorBrightnessView.swift:146 | the touch height minus the padding, clamped to [0, maxY] |
| BrightnessView.TouchBrightness | ColorPicker/ColorBrightnessView.swift:146-147 | the selected brightness is in [0, 1]: 1 at or above the top, 0 at or below the bottom |
| BrightnessView.IndicatorCenterY | ColorPicker/ColorBrightnessView.swift:121 | the indicator stays within [0, maxY]: at the top for brightness 1 and at the bottom for brightness 0 |
| BrightnessView.IndicatorFollowsTouch | ColorPicker/ColorBrightnessView.swift:121-147 | the indicator centre for the selected brightness is exactly the clamped touch height |
| BrightnessView.TouchAtIndicator | ColorPicker/ColorBrightnessView.swift:121-147 | touching the indicator's centre selects the brightness it shows |
| BrightnessView.RowBrightness | ColorPicker/ColorBrightnessView.swift:166 | row y's brightness 1 - y/height is in (0, 1] |
| BrightnessView.RowBrightnessDecreasing | ColorPicker/ColorBrightnessView.swift:164-166 | lower rows are strictly darker |
| BrightnessView.SheetRow | ColorPicker/ColorBrightnessView.swift:166-168 | every row colour has components in [0, 1], so no `UInt8` trap |
| BrightnessView.SheetRowBytes | ColorPicker/ColorBrightnessView.swift:170-176 | a row's pixels are four bytes |
| BrightnessView.SheetOpaque | ColorPicker/ColorBrightnessView.swift:168-175 | every row's alpha byte is 255 |
| BrightnessView.SheetRowReadsBack | ColorPicker/ColorBrightnessView.swift:166-168 | a row read back has the row's brightness, and the colour's saturation when no channel is negative |
| BrightnessView.IndicatorOnRow | ColorPicker/ColorBrightnessView.swift:121-166 | the row under the indicator's centre has the indicator's brightness |
| BrightnessView.BufferFits | ColorPicker/ColorBrightnessView.swift:156-171 | `Int(w·h·4)` bytes hold all `Int(w)`×`Int(h)` pixels, so no offset is out of bounds |
| BrightnessView.CreateBrightSheetImage | ColorPicker/ColorBrightnessView.swift:150-177 | nil for a zero content view; otherwise `Int(w·h·4)` bytes, every pixel of row y holding that row's bytes, the rest zero |
| BrightnessView.ColorBrightnessView.IndicatorColor | ColorPicker/ColorBrightnessView.swift:123 | the indicator fill is opaque |
| BrightnessView.ColorBrightnessView.constructor | ColorPicker/ColorBrightnessView.swift:67-71 | white, brightness 0, not dirty, no sheet |
| BrightnessView.ColorBrightnessView.UpdateIndicator | ColorPicker/ColorBrightnessView.swift:114-126 | the indicator is at (midX, maxY(1 - brightness)), filled with the colour at that brightness |
| BrightnessView.ColorBrightnessView.UpdateColor | ColorPicker/ColorBrightnessView.swift:128-130 | the layer shows the sheet of the current colour |
| BrightnessView.ColorBrightnessView.SetBrightness | ColorPicker/ColorBrightnessView.swift:28-38 | an unchanged value leaves the indicator, its colour and the emissions as they were; a changed one moves the indicator and is handed on |
| BrightnessView.ColorBrightnessView.SetColor | ColorPicker/ColorBrightnessView.swift:16-26 | an equal colour is ignored only while not dirty; otherwise dirty, brightness copied from the colour, sheet and indicator redrawn |
| BrightnessView.ColorBrightnessView.LayoutSubviews | ColorPicker/ColorBrightnessView.swift:73-79 | dirty; indicator and sheet follow the new size |
| BrightnessView.ColorBrightnessView.DidChangeIndicator | ColorPicker/ColorBrightnessView.swift:132-148 | brightness becomes the touch's brightness and the indicator sits at the clamped touch height |
| Picker.TagColors | ColorPicker/ColorPickerView.swift:96-101 | colours kept in order; `main` tags exactly the first entry; no entry is tagged complementary |
| Picker.TypedResponse | ColorPicker/ColorPickerView.swift:87-102 | the tagged list starts with the primary colour tagged `main`, and is that alone exactly without a harmony |
| Picker.TypedResponseShape | ColorPicker/ColorPickerView.swift:95-102 | with a harmony: length + 1, the colours in order and then the complement; `main` only first, `complementary` only last, `harmony` between |
| Picker.TypedIndexOneIsHarmony | ColorPicker/ColorPickerView.swift:35-102 | as written, index 1 of a tagged list with a harmony is a harmony colour, not the documented complement |
| Picker.DocumentedTypedResponse | ColorPicker/ColorPickerView.swift:35-36 | the tagged list in the documented order starts with the primary tagged `main`, and is that alone exactly without a harmony |
| Picker.DocumentedOrder | ColorPicker/ColorPickerView.swift:35-36 | in the documented order index 1 is the complement and the harmony colours follow in order; untagged, it is the plain pickers' list without black-or-white |
| Picker.TypedResponseNone | ColorPicker/ColorPickerView.swift:87-93 | without a harmony the output is exactly [(main, primary)] |
| Picker.Insert | ColorPicker/Picker/ColorPickerView.swift:98-99 | `insert(_:at:)` places x at i and moves later elements up one |
| Picker.RemoveInsert | ColorPicker/Picker/ColorPickerView.swift:96-99 | removing an inserted element gives the list back |
| Picker.InsertResponse | ColorPicker/Picker/ColorPickerView.swift:84-99 | the plain list starts with the primary colour, and is that alone exactly without a harmony |
| Picker.InsertResponseShape | ColorPicker/Picker/ColorPickerView.swift:92-99 | with a harmony: [primary, complement, black-or-white] + the rest in order, length + 2; removing entries 2 and 1 gives the input back |
| Picker.VariantsAgree | ColorPickerControl/ColorPickerView.swift:91-98 | the plain list is the tagged list's colours with the complement at index 1 and black-or-white at index 2 |
| Picker.Respond | ColorPicker/Picker/ColorPickerView.swift:73-77 | there is no output exactly for an empty list |
| Picker.ColorPickerView.constructor | ColorPicker/ColorPickerView.swift:49-70 | `awakeFromNib`'s `loadControls`, made over a laid-out wheel: white, no harmony, nothing handed on; the wheel has a fresh calculator of no harmony and no markers, and keeps its colour, dirtiness, brightness, size and image |
| Picker.ColorPickerView.LoadControls | ColorPicker/ColorPickerView.swift:68-70 | the wheel gets a fresh calculator of the harmony with a matching marker count, re-centred on the old indicator; its indicator, fresh markers and one emission follow (`CalculatorInstalled`); the wheel's colour, brightness, size and image stay |
| Picker.ColorPickerView.SetHarmony | ColorPicker/ColorPickerView.swift:20-24 | the harmony observer installs `harmony.calculator()` on the wheel, with the same wheel post-state as LoadControls |
| Picker.ColorPickerView.SetColor | ColorPicker/ColorPickerView.swift:26-33 | a colour the wheel already shows changes nothing; any other goes to the strip (the strip's gate, brightness and emission stated) and to the wheel (its gate with the calculator kept, or the refresh in full); the wheel's calculator, bounds and image and the strip's size are never changed |
| Picker.ColorPickerView.OnBrightness | ColorPicker/ColorPickerView.swift:72-74 | the strip's brightness becomes the wheel's |
| Picker.ColorPickerView.OnColors | ColorPicker/ColorPickerView.swift:76-107 | an empty list changes nothing; the strip is re-synced only if it shows another colour, and then takes that colour's brightness and hands it on if it changed, keeping its size; the variant's list is handed on |
| Example.RawValue | ColorPickerExample/ColorPickerExample/ExampleViewController.swift:12-13 | raw values are 0..5 in declaration order |
| Example.FromRaw | ColorPickerExample/ColorPickerExample/ExampleViewController.swift:169 | `ColorType(rawValue:)` is nil exactly outside 0..5 |
| Example.RawValueRoundTrip | ColorPickerExample/ColorPickerExample/ExampleViewController.swift:12-13 | raw values and slots correspond one to one |
| Example.ToTitle | ColorPickerExample/ColorPickerExample/ExampleViewController.swift:15-30 | the caption is empty exactly for none |
| Example.TitlesDistinct | ColorPickerExample/ColorPickerExample/ExampleViewController.swift:15-30 | different slots have different captions |
| Example.SegmentHarmony | ColorPickerExample/ColorPickerExample/ExampleViewController.swift:115-122 | segment 0 is analogous, 1 is triadic, any other selects nothing |
| Example.ExampleViewController.constructor | ColorPickerExample/ColorPickerExample/ExampleViewController.swift:44-47 | analogous harmony, no slot being edited, nothing to reset |
| Example.ExampleViewController.ViewDidLoad | ColorPickerExample/ColorPickerExample/ExampleViewController.swift:52 | five white slots |
| Example.ExampleViewController.DidChangeColors | ColorPickerExample/ColorPickerExample/ExampleViewController.swift:66-88 | primary: all slots replaced; black-or-white: only slot 2, to the first colour's black-or-white; other modes: only their own slot, to the first colour; none or an empty list: no change |
| Example.ExampleViewController.DidSelectRowAt | ColorPickerExample/ColorPickerExample/ExampleViewController.swift:167-193 | the slot already being edited is a no-op; otherwise the row's slot (none past 5) is edited and the picker opened as the row asks |
| Example.ExampleViewController.OpenPrimaryColorPicker | ColorPickerExample/ColorPickerExample/ExampleViewController.swift:222-233 | the picker gets the screen's harmony and the primary colour, which is kept for a reset |
| Example.ExampleViewController.OpenSubColorPicker | ColorPickerExample/ColorPickerExample/ExampleViewController.swift:235-245 | the picker gets no harmony and the slot's colour, which is kept for a reset |
| Example.ExampleViewController.ResetColor | ColorPickerExample/ColorPickerExample/ExampleViewController.swift:103-107 | the kept colour, if any, goes back to the picker |
| Example.ExampleViewController.DidChangeHarmonyType | ColorPickerExample/ColorPickerExample/ExampleViewController.swift:113-123 | the selected segment's harmony goes to the picker; other indices do nothing |

## Left out

- Floating point: all arithmetic is exact, so rounding, NaN and infinities are not modelled.
- The transcendental functions are abstract and carry only the laws listed above.
- `UIColor`'s conversions are the textbook formulas. Wide-gamut handling, `CIColor` and colour spaces are not modelled, and `getWhite` is supplied from outside.
- Asynchronous delivery (`DispatchQueue.main.async`) is not modelled: a list is logged when it is built.
- Callbacks are logged instead of invoked, so the cascade back through the picker's closures is not followed.
- Layers are reduced to what the source reads back from them: position, visibility and fill colour.
- Not modelled: indicator sizes, borders, shadows, corner radii, `CATransaction`, and the gesture states that only change appearance.
- Image objects are not modelled. `CGImage`, `CGDataProvider` and `CFData` creation, and their failure and force unwraps, are left out. A layer's contents are the bitmap bytes.
- Not modelled: nib loading itself (`createPicker`, `init(coder:)`), auto layout, the table view, animations, the image import and `UIImage.color`.
- Picker.ColorPickerView.constructor: models a picker loaded from its nib whose `awakeFromNib` → `loadControls` runs over a laid-out wheel. In the source `awakeFromNib` runs before any layout, so the wheel's diameter is 0 and `loadControls` computes a NaN calculator centre through `centerPoint`; a calculator of no harmony never reads that centre. The model starts from a laid-out wheel instead, as the wheel observers require. The `init(frame:)` of the three picker views (ColorPicker/ColorPickerView.swift:58-61, ColorPicker/Picker/ColorPickerView.swift:55-58, ColorPickerControl/ColorPickerView.swift:54-57) calls `loadControls` while the implicitly unwrapped outlets are still nil, which traps; that path is not modelled.
- ColorPickerExample/ColorPickerExample/ColorViewCell.swift and `Date.currentTimeMillis` are not part of this model.
- BrightnessView.ColorBrightnessView.LayoutSubviews: takes the content view's size as a parameter instead of deriving it from auto layout's padding constraints.
- WheelMapping.CenterPoint: requires a non-zero radius. With radius 0 the source divides by zero.
- ColorWheel.ColorWheelView.SetCurrentHSB, and the other wheel observers that reach `centerPoint`, require a laid-out wheel (diameter > 0). Before layout the source computes NaN points.
- BrightnessView.ColorBrightnessView.DidChangeIndicator: requires a content view of positive height. At height 0 the source computes 0/0.
- BrightnessView.CreateBrightSheetImage: requires a content size with no negative side. For a negative side the source's row range would trap.
- ColorWheel.ColorWheelView.SetBrightness: requires a brightness in [0, 1], because the wheel image's `UInt8` conversions trap above 1.
- Example.ExampleViewController.DidChangeColors: requires the edited slot to exist. The source's subscript traps otherwise.
- Example.ExampleViewController.DidSelectRowAt: the picker calls are logged as requests rather than applied to a picker object.
- Picker.ColorPickerView.OnBrightness: states only the wheel's new brightness; the rest is the wheel's SetBrightness contract.
- Picker.ColorPickerView.SetColor: compares `UIColor`s by their components.
- ColorWheel.ReadBackOfMarker, ColorWheel.DrawnMarkersReadBack and ColorWheel.HarmonyEmission hold only where the wheel is not shifted (a square view after layout). The source reads shifted positions with `centerPoint` alone, so elsewhere they fail; see the finding below and ColorWheel.MarkerMisread.
- WheelMapping.ConvertValidClamps: does not claim that a clamped point passes `convertValid`'s own test again, since that test truncates the coordinates first.

## Findings

| source | as written | input that shows it | evidently intended | confidence | as-written member | corrected member |
|---|---|---|---|---|---|---|
| ColorPicker/ColorWheelView.swift:372-390 | `viewPointFromHS` adds half the extra width or height to centre the wheel in a view that is not square. `centerPoint`, `callbackColors` and `didChangeIndicator` read view points without removing that shift, so the marker drawn for the centre is reported with the wrong colour (ColorWheel.MarkerMisread). | bounds 300×200, diameter 200, hue 0, saturation 0: the indicator is drawn at (150, 100), which `centerPoint` reads as disk point (0.5, 0), saturation 0.5 | view points are shifted back before they are read as disk points, so a colour placed on the wheel reads back as itself | medium, not executed | WheelMapping.CentringNotUndone | WheelMapping.DiskPointRoundTrip |
| ColorPicker/ColorPickerView.swift:35-102 | the comment on `didChangeColorsWithType` puts the complement at index 1, as the two plain pickers do; the code appends it last, so index 1 is the first harmony colour (Picker.TypedResponseShape) | analogous harmony, wheel colours [p, h1, h2]: the output is [(main, p), (harmony, h1), (harmony, h2), (complementary, c)] | the complement at index 1 and the harmony colours after it, as documented | low, not executed: the comment may be stale rather than the code wrong; the picker class keeps the code's order | Picker.TypedIndexOneIsHarmony | Picker.DocumentedOrder |
