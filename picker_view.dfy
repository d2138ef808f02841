/**
 * The picker views that join the wheel and the brightness strip, and the colour lists
 * they hand to their owner: ColorPicker/ColorPickerView.swift (the list tagged with each
 * colour's role), and ColorPicker/Picker/ColorPickerView.swift together with
 * ColorPickerControl/ColorPickerView.swift (the same plain list, with the complement and
 * black-or-white inserted after the primary colour). The three share their observers, so
 * one class models them, told apart by `Variant`.
 *
 * The owner's callbacks are modelled by the log `responses` of what is handed to them.
 */
module Picker {
  import opened Numerics
  import opened ColorSpace
  import CX = ColorExtension
  import H = Harmony
  import opened ColorWheel
  import opened BrightnessView

  /** The role of a colour in the tagged list. */
  datatype ColorType = Main | Complementary | Harmony

  /** Which of the picker views: the tagged list, or the plain list with inserted colours. */
  datatype Variant = Tagged | Inserted

  /** What a picker hands to its owner. */
  datatype Response = TypedColors(typed: seq<(ColorType, Color)>) | Colors(colors: seq<Color>)

  /** The wheel's colours, the first tagged `Main` and the others `Harmony`, in order. */
  function TagColors(colors: seq<Color>): (r: seq<(ColorType, Color)>)
    ensures |r| == |colors|
    ensures forall i :: 0 <= i < |colors| ==> r[i].1 == colors[i]
    ensures forall i :: 0 <= i < |colors| ==> (r[i].0 == Main <==> i == 0)
    ensures forall i :: 0 <= i < |colors| ==> r[i].0 != Complementary
  {
    seq(|colors|, i requires 0 <= i < |colors| => (if i == 0 then Main else Harmony, colors[i]))
  }

  /** The colours of a tagged list, dropping the tags. */
  function ColorsOf(typed: seq<(ColorType, Color)>): (cs: seq<Color>)
    ensures |cs| == |typed|
    ensures forall i :: 0 <= i < |typed| ==> cs[i] == typed[i].1
  {
    seq(|typed|, i requires 0 <= i < |typed| => typed[i].1)
  }

  /**
   * The tagged picker's list: without a harmony only the primary colour, tagged `Main`;
   * otherwise every colour tagged by its place, then the complement of the primary.
   */
  function TypedResponse(harmony: H.HarmonyType, colors: seq<Color>): (r: seq<(ColorType, Color)>)
    requires colors != []
    ensures |r| >= 1 && r[0] == (Main, colors[0])
    ensures |r| == 1 <==> harmony == H.None
  {
    if harmony == H.None then [(Main, colors[0])]
    else TagColors(colors) + [(Complementary, CX.Complementary(colors[0]))]
  }

  /** `Array.insert(_:at:)`: x is placed at index i and the elements from i on move up one. */
  function Insert<T>(s: seq<T>, x: T, i: nat): (r: seq<T>)
    requires i <= |s|
    ensures |r| == |s| + 1 && r[i] == x
    ensures forall j :: 0 <= j < i ==> r[j] == s[j]
    ensures forall j :: i < j < |r| ==> r[j] == s[j - 1]
  {
    s[..i] + [x] + s[i..]
  }

  /** Removing the element at index i. */
  function Remove<T>(s: seq<T>, i: nat): (r: seq<T>)
    requires i < |s|
    ensures |r| == |s| - 1
  {
    s[..i] + s[i + 1..]
  }

  /** Removing what was inserted gives back the list. */
  lemma RemoveInsert<T>(s: seq<T>, x: T, i: nat)
    requires i <= |s|
    ensures Remove(Insert(s, x, i), i) == s
  {
    assert Insert(s, x, i)[..i] == s[..i];
    assert Insert(s, x, i)[i + 1..] == s[i..];
  }

  /**
   * The plain picker's list: without a harmony only the primary colour; otherwise the
   * complement is inserted at index 1 and black-or-white (from the primary's white level)
   * at index 2.
   */
  function InsertResponse(harmony: H.HarmonyType, colors: seq<Color>, whiteLevel: real): (r: seq<Color>)
    requires colors != []
    ensures |r| >= 1 && r[0] == colors[0]
    ensures |r| == 1 <==> harmony == H.None
  {
    if harmony == H.None then [colors[0]]
    else Insert(Insert(colors, CX.Complementary(colors[0]), 1), CX.BlackOrWhite(whiteLevel), 2)
  }

  /** `updatePickerColors` as each variant answers it: nothing for an empty list. */
  function Respond(variant: Variant, harmony: H.HarmonyType, colors: seq<Color>, whiteLevel: real): (r: Option<Response>)
    ensures r == Nothing <==> colors == []
  {
    if colors == [] then Nothing
    else if variant == Tagged then Some(TypedColors(TypedResponse(harmony, colors)))
    else Some(Colors(InsertResponse(harmony, colors, whiteLevel)))
  }

  /**
   * With a harmony, the tagged list is the wheel's colours, still in order, followed by
   * the complement; `Main` marks exactly the first entry and `Complementary` exactly the
   * last, and every other entry is `Harmony`.
   */
  lemma TypedResponseShape(harmony: H.HarmonyType, colors: seq<Color>)
    requires colors != [] && harmony != H.None
    ensures var r := TypedResponse(harmony, colors);
            && |r| == |colors| + 1
            && ColorsOf(r) == colors + [CX.Complementary(colors[0])]
            && (forall i :: 0 <= i < |r| ==> (r[i].0 == Main <==> i == 0))
            && (forall i :: 0 <= i < |r| ==> (r[i].0 == Complementary <==> i == |colors|))
            && (forall i :: 0 < i < |colors| ==> r[i].0 == Harmony)
  {
    var r := TypedResponse(harmony, colors);
    assert forall i :: 0 <= i < |colors| ==> r[i] == TagColors(colors)[i];
  }

  /**
   * As written, a tagged list with a harmony carries a harmony colour at index 1, not
   * the complement that the comment on `didChangeColorsWithType` places there.
   */
  lemma TypedIndexOneIsHarmony(harmony: H.HarmonyType, colors: seq<Color>)
    requires 2 <= |colors| && harmony != H.None
    ensures TypedResponse(harmony, colors)[1] == (Harmony, colors[1])
    ensures TypedResponse(harmony, colors)[1].0 != Complementary
  {
  }

  /**
   * The tagged list in the documented order: the primary colour tagged `Main`, its
   * complement tagged `Complementary`, then the other colours tagged `Harmony`.
   */
  function DocumentedTypedResponse(harmony: H.HarmonyType, colors: seq<Color>): (r: seq<(ColorType, Color)>)
    requires colors != []
    ensures |r| >= 1 && r[0] == (Main, colors[0])
    ensures |r| == 1 <==> harmony == H.None
  {
    if harmony == H.None then [(Main, colors[0])]
    else Insert(TagColors(colors), (Complementary, CX.Complementary(colors[0])), 1)
  }

  /**
   * In the documented order, index 1 holds the complement and the harmony colours
   * follow in order; dropping the tags gives the plain pickers' list before its
   * black-or-white insert, so all three variants agree on index 1.
   */
  lemma DocumentedOrder(harmony: H.HarmonyType, colors: seq<Color>, whiteLevel: real)
    requires colors != [] && harmony != H.None
    ensures var r := DocumentedTypedResponse(harmony, colors);
            && |r| == |colors| + 1
            && r[1] == (Complementary, CX.Complementary(colors[0]))
            && (forall i :: 2 <= i < |r| ==> r[i] == (Harmony, colors[i - 1]))
            && ColorsOf(r) == Insert(colors, CX.Complementary(colors[0]), 1)
            && InsertResponse(harmony, colors, whiteLevel) == Insert(ColorsOf(r), CX.BlackOrWhite(whiteLevel), 2)
  {
    var r := DocumentedTypedResponse(harmony, colors);
    var plain := Insert(colors, CX.Complementary(colors[0]), 1);
    assert ColorsOf(r) == plain by {
      assert forall i :: 0 <= i < |r| ==> ColorsOf(r)[i] == plain[i];
    }
  }

  /** Without a harmony the tagged list is the primary colour alone, tagged `Main`. */
  lemma TypedResponseNone(colors: seq<Color>)
    requires colors != []
    ensures TypedResponse(H.None, colors) == [(Main, colors[0])]
    ensures ColorsOf(TypedResponse(H.None, colors)) == colors[..1]
  {
  }

  /**
   * With a harmony, the plain list is the primary colour, its complement, black-or-white,
   * and then the other colours in order, two longer than the wheel's list; dropping
   * entries 2 and 1 gives the wheel's list back.
   */
  lemma InsertResponseShape(harmony: H.HarmonyType, colors: seq<Color>, whiteLevel: real)
    requires colors != [] && harmony != H.None
    ensures var r := InsertResponse(harmony, colors, whiteLevel);
            && r == [colors[0], CX.Complementary(colors[0]), CX.BlackOrWhite(whiteLevel)] + colors[1..]
            && |r| == |colors| + 2
            && Remove(Remove(r, 2), 1) == colors
  {
    var once := Insert(colors, CX.Complementary(colors[0]), 1);
    var r := Insert(once, CX.BlackOrWhite(whiteLevel), 2);
    assert r == [colors[0], CX.Complementary(colors[0]), CX.BlackOrWhite(whiteLevel)] + colors[1..];
    RemoveInsert(once, CX.BlackOrWhite(whiteLevel), 2);
    RemoveInsert(colors, CX.Complementary(colors[0]), 1);
  }

  /** Both variants agree on the colours: the plain list is the tagged one's colours with black-or-white at index 2 and the complement moved up to index 1. */
  lemma VariantsAgree(harmony: H.HarmonyType, colors: seq<Color>, whiteLevel: real)
    requires colors != []
    ensures harmony == H.None ==> ColorsOf(TypedResponse(harmony, colors)) == InsertResponse(harmony, colors, whiteLevel)
    ensures harmony != H.None ==>
              var typed := ColorsOf(TypedResponse(harmony, colors));
              InsertResponse(harmony, colors, whiteLevel)
              == Insert(Insert(typed[..|colors|], typed[|colors|], 1), CX.BlackOrWhite(whiteLevel), 2)
  {
    if harmony != H.None {
      TypedResponseShape(harmony, colors);
      var typed := ColorsOf(TypedResponse(harmony, colors));
      assert typed[..|colors|] == colors;
    }
  }

  /** `ColorPickerView`, in its three variants. */
  class ColorPickerView {
    const variant: Variant
    const wheel: ColorWheelView
    const brightnessView: ColorBrightnessView
    /** `UIColor.getWhite`, the white level `blackOrWhite` reads. */
    const getWhite: Color -> real
    var harmony: H.HarmonyType
    var color: Color
    var responses: seq<Response>

    /** Both child views are consistent, the wheel has been laid out, and its square root behaves. */
    ghost predicate Valid()
      reads this, wheel, wheel.calculator, brightnessView
    {
      && wheel.Valid() && 0.0 < wheel.diameter && SqrtLaw(wheel.m)
      && brightnessView.Valid()
    }

    /**
     * A picker loaded from its nib, with `awakeFromNib`'s call of `loadControls` made
     * once the child views have been laid out: the picker is white with no harmony and
     * has handed nothing on, and the wheel has a calculator of no harmony. In the source
     * `awakeFromNib` runs before any layout, so the wheel's diameter is still 0 and the
     * calculator's centre comes out NaN; a calculator of no harmony never reads it.
     */
    constructor (v: Variant, w: ColorWheelView, b: ColorBrightnessView, white: Color -> real)
      requires w.Valid() && 0.0 < w.diameter && SqrtLaw(w.m) && b.Valid()
      modifies w, w.calculator
      ensures Valid()
      ensures variant == v && wheel == w && brightnessView == b && getWhite == white
      ensures harmony == H.None && color == CX.White && responses == []
      ensures fresh(w.calculator) && w.calculator.kind == H.None && w.subIndicatorCount == 0
      ensures w.markers == [] && w.CalculatorInstalled(old(w.indicatorPosition), old(w.emitted))
      ensures w.currentHSB == old(w.currentHSB) && w.isDirty == old(w.isDirty)
      ensures w.brightness == old(w.brightness) && w.diameter == old(w.diameter)
      ensures w.bounds == old(w.bounds) && w.contents == old(w.contents)
    {
      variant := v;
      wheel := w;
      brightnessView := b;
      getWhite := white;
      harmony := H.None;
      color := CX.White;
      responses := [];
      new;
      LoadControls();
    }

    /** `loadControls`, and the `harmony` observer after it: the wheel gets a fresh calculator of the harmony. */
    method LoadControls()
      requires Valid()
      modifies wheel, wheel.calculator
      ensures Valid()
      ensures fresh(wheel.calculator) && wheel.calculator.kind == harmony
      ensures wheel.subIndicatorCount == H.PointCount(harmony)
      ensures wheel.currentHSB == old(wheel.currentHSB) && wheel.isDirty == old(wheel.isDirty)
      ensures wheel.brightness == old(wheel.brightness) && wheel.diameter == old(wheel.diameter)
      ensures wheel.bounds == old(wheel.bounds) && wheel.contents == old(wheel.contents)
      ensures wheel.CalculatorInstalled(old(wheel.indicatorPosition), old(wheel.emitted))
    {
      var c := new H.ColorCalculator(harmony);
      wheel.SetCalculator(c);
    }

    /** The `harmony` observer: the wheel gets a fresh calculator of the new harmony. */
    method SetHarmony(value: H.HarmonyType)
      requires Valid()
      modifies this`harmony, wheel, wheel.calculator
      ensures Valid() && harmony == value
      ensures fresh(wheel.calculator) && wheel.calculator.kind == value
      ensures wheel.subIndicatorCount == H.PointCount(value)
      ensures wheel.currentHSB == old(wheel.currentHSB) && wheel.isDirty == old(wheel.isDirty)
      ensures wheel.brightness == old(wheel.brightness) && wheel.diameter == old(wheel.diameter)
      ensures wheel.bounds == old(wheel.bounds) && wheel.contents == old(wheel.contents)
      ensures wheel.CalculatorInstalled(old(wheel.indicatorPosition), old(wheel.emitted))
    {
      harmony := value;
      LoadControls();
    }

    /**
     * The `color` observer: a colour the wheel already shows changes nothing else; any
     * other goes to the brightness strip and then to the wheel.
     */
    method SetColor(value: Color)
      requires Valid()
      modifies this`color, wheel, wheel.calculator, brightnessView
      ensures Valid() && color == value
      ensures old(wheel.CurrentColor()) == value ==> unchanged(wheel, brightnessView) && unchanged(old(wheel.calculator))
      ensures wheel.calculator == old(wheel.calculator) && wheel.bounds == old(wheel.bounds)
      ensures wheel.contents == old(wheel.contents) && brightnessView.content == old(brightnessView.content)
      ensures old(wheel.CurrentColor()) != value ==>
                && brightnessView.color == value && wheel.currentHSB == ToHsb(value)
                && wheel.brightness == old(wheel.brightness) && wheel.diameter == old(wheel.diameter)
      ensures old(wheel.CurrentColor()) != value && old(brightnessView.color) == value && !old(brightnessView.isDirty) ==>
                && !brightnessView.isDirty && brightnessView.brightness == old(brightnessView.brightness)
                && brightnessView.emitted == old(brightnessView.emitted)
      ensures old(wheel.CurrentColor()) != value && !(old(brightnessView.color) == value && !old(brightnessView.isDirty)) ==>
                && brightnessView.isDirty && brightnessView.brightness == ToHsb(value).brightness
                && brightnessView.emitted
                   == old(brightnessView.emitted)
                      + (if ToHsb(value).brightness == old(brightnessView.brightness) then [] else [ToHsb(value).brightness])
      ensures old(wheel.CurrentColor()) != value && HsbEquals(old(wheel.currentHSB), ToHsb(value)) && !old(wheel.isDirty) ==>
                && !wheel.isDirty && wheel.markers == old(wheel.markers) && wheel.emitted == old(wheel.emitted)
                && wheel.indicatorPosition == old(wheel.indicatorPosition)
                && wheel.indicatorColor == old(wheel.indicatorColor)
                && unchanged(wheel.calculator)
      ensures old(wheel.CurrentColor()) != value && !(HsbEquals(old(wheel.currentHSB), ToHsb(value)) && !old(wheel.isDirty)) ==>
                wheel.RefreshedFrom(old(wheel.markers), old(wheel.emitted))
    {
      color := value;
      if wheel.CurrentColor() != value {
        brightnessView.SetColor(value);
        wheel.SetCurrentColor(value);
      }
    }

    /** `updatePickerBrightness`: the strip's brightness becomes the wheel's. */
    method OnBrightness(value: real)
      requires Valid() && 0.0 <= value <= 1.0
      modifies wheel, wheel.calculator
      ensures Valid()
      ensures wheel.brightness == value
    {
      wheel.SetBrightness(value);
    }

    /**
     * `updatePickerColors`: an empty list changes nothing. Otherwise the strip is given
     * the primary colour when it shows another, and the variant's list is handed on.
     */
    method OnColors(colors: seq<Color>)
      requires Valid()
      modifies this`responses, brightnessView
      ensures Valid()
      ensures colors == [] ==> responses == old(responses) && unchanged(brightnessView)
      ensures colors != [] ==>
                && brightnessView.color == colors[0] && brightnessView.content == old(brightnessView.content)
                && (old(brightnessView.color) == colors[0] ==> unchanged(brightnessView))
                && (old(brightnessView.color) != colors[0] ==>
                      && brightnessView.isDirty && brightnessView.brightness == ToHsb(colors[0]).brightness
                      && brightnessView.emitted
                         == old(brightnessView.emitted)
                            + (if ToHsb(colors[0]).brightness == old(brightnessView.brightness) then [] else [ToHsb(colors[0]).brightness]))
                && responses == old(responses) + [Respond(variant, harmony, colors, getWhite(colors[0])).value]
    {
      if colors == [] {
        return;
      }
      var primary := colors[0];
      if brightnessView.color != primary {
        brightnessView.SetColor(primary);
      }
      var response := Respond(variant, harmony, colors, getWhite(primary));
      responses := responses + [response.value];
    }
  }
}
