/**
 * The example app's screen (ColorPickerExample/ColorPickerExample/ExampleViewController.swift):
 * a table of five colour slots, each opening the picker, and the routing of the
 * picker's colour lists back into the slot being edited.
 *
 * The screen drives a plain-list picker (the `Inserted` variant); what it asks of the
 * picker is modelled by the log `requests`. The table, the animations and the image
 * import are not part of this model.
 */
module Example {
  import opened Numerics
  import opened ColorSpace
  import CX = ColorExtension
  import H = Harmony

  /** The table's slots, in row order. */
  datatype ColorType = Primary | Complementary | BlackWhite | Harmoney1 | Harmoney2 | None

  /** The `Int` raw value of a slot: its declaration index. */
  function RawValue(t: ColorType): (n: nat)
    ensures n < 6
  {
    match t
    case Primary => 0
    case Complementary => 1
    case BlackWhite => 2
    case Harmoney1 => 3
    case Harmoney2 => 4
    case None => 5
  }

  /** `ColorType(rawValue:)`: the slot of a raw value, `nil` outside 0..5. */
  function FromRaw(n: int): (t: Option<ColorType>)
    ensures t.Some? <==> 0 <= n < 6
  {
    if n == 0 then Some(Primary)
    else if n == 1 then Some(Complementary)
    else if n == 2 then Some(BlackWhite)
    else if n == 3 then Some(Harmoney1)
    else if n == 4 then Some(Harmoney2)
    else if n == 5 then Some(None)
    else Nothing
  }

  /** Raw values and slots correspond one to one. */
  lemma RawValueRoundTrip(t: ColorType, n: int)
    ensures FromRaw(RawValue(t)) == Some(t)
    ensures FromRaw(n).Some? ==> RawValue(FromRaw(n).value) == n
  {
  }

  /** `toTitle`: the slot's caption; none has an empty one. */
  function ToTitle(t: ColorType): (s: string)
    ensures s == "" <==> t == None
  {
    match t
    case Primary => "Primary"
    case Complementary => "Complementary"
    case BlackWhite => "Black or White"
    case Harmoney1 => "Harmoney1"
    case Harmoney2 => "Harmoney2"
    case None => ""
  }

  /** Different slots have different captions. */
  lemma TitlesDistinct(t: ColorType, u: ColorType)
    requires t != u
    ensures ToTitle(t) != ToTitle(u)
  {
  }

  /** What the screen asks of the picker: a harmony, or a colour to show. */
  datatype PickerRequest = SetHarmony(harmony: H.HarmonyType) | SetColor(color: Color)

  /** The harmony a segment of the harmony control selects: analogous, triadic, or none for any other index. */
  function SegmentHarmony(index: int): (h: Option<H.HarmonyType>)
    ensures index == 0 <==> h == Some(H.Analogous)
    ensures index == 1 <==> h == Some(H.Triadic)
    ensures h == Nothing <==> index != 0 && index != 1
  {
    if index == 0 then Some(H.Analogous)
    else if index == 1 then Some(H.Triadic)
    else Nothing
  }

  /** `ExampleViewController`. */
  class ExampleViewController {
    /** `UIColor.getWhite`, the white level `blackOrWhite` reads. */
    const getWhite: Color -> real
    var colors: seq<Color>
    var currentHarmonyType: H.HarmonyType
    var currentType: ColorType
    var resetColor: Option<Color>
    var requests: seq<PickerRequest>

    /** A screen before its view loads: no slots, analogous harmony, no slot being edited. */
    constructor (white: Color -> real)
      ensures getWhite == white && colors == [] && currentHarmonyType == H.Analogous
      ensures currentType == None && resetColor == Nothing && requests == []
    {
      getWhite := white;
      colors := [];
      currentHarmonyType := H.Analogous;
      currentType := None;
      resetColor := Nothing;
      requests := [];
    }

    /** `viewDidLoad`: five white slots. */
    method ViewDidLoad()
      modifies this`colors
      ensures |colors| == 5 && forall i :: 0 <= i < 5 ==> colors[i] == CX.White
    {
      colors := seq(5, _ => CX.White);
    }

    /**
     * `didChangeColors`: in primary mode the slots become the picker's list; in
     * black-or-white mode slot 2 becomes the black-or-white of the first colour; in the
     * complementary and harmony modes the mode's own slot becomes the first colour; in
     * none mode, and for an empty list outside primary mode, nothing changes.
     */
    method DidChangeColors(incoming: seq<Color>)
      requires incoming != [] && currentType in {Complementary, BlackWhite, Harmoney1, Harmoney2} ==>
                 RawValue(currentType) < |colors|
      modifies this`colors
      ensures currentType == Primary ==> colors == incoming
      ensures currentType == None || (currentType != Primary && incoming == []) ==> colors == old(colors)
      ensures currentType == BlackWhite && incoming != [] ==>
                colors == old(colors)[2 := CX.BlackOrWhite(getWhite(incoming[0]))]
      ensures currentType in {Complementary, Harmoney1, Harmoney2} && incoming != [] ==>
                colors == old(colors)[RawValue(currentType) := incoming[0]]
    {
      match currentType
      case Primary =>
        colors := incoming;
      case BlackWhite =>
        if incoming != [] {
          colors := colors[RawValue(currentType) := CX.BlackOrWhite(getWhite(incoming[0]))];
        }
      case Complementary | Harmoney1 | Harmoney2 =>
        if incoming != [] {
          colors := colors[RawValue(currentType) := incoming[0]];
        }
      case None =>
    }

    /**
     * `didSelectRowAt`: choosing the slot already being edited does nothing. Otherwise
     * the row's slot (none past the last) is edited: the primary slot opens the picker
     * with the screen's harmony and the primary colour, slots 1 to 4 open it with no
     * harmony and their own colour, and that colour is kept for a reset.
     */
    method DidSelectRowAt(row: int)
      requires 0 <= row < |colors|
      modifies this`currentType, this`requests, this`resetColor
      ensures var t := if FromRaw(row).Some? then FromRaw(row).value else None;
              && (t == old(currentType) ==>
                    currentType == old(currentType) && requests == old(requests) && resetColor == old(resetColor))
              && (t != old(currentType) ==> currentType == t)
              && (t != old(currentType) && row == 0 ==>
                    && requests == old(requests) + [SetHarmony(currentHarmonyType), SetColor(colors[0])]
                    && resetColor == Some(colors[0]))
              && (t != old(currentType) && 1 <= row <= 4 ==>
                    && requests == old(requests) + [SetHarmony(H.None), SetColor(colors[row])]
                    && resetColor == Some(colors[row]))
              && (t != old(currentType) && 5 <= row ==> requests == old(requests) && resetColor == old(resetColor))
    {
      var raw := FromRaw(row);
      var t := if raw.Some? then raw.value else None;
      if currentType == t {
        return;
      }
      currentType := t;
      var color := colors[row];
      if row == 0 {
        OpenPrimaryColorPicker();
      } else if 1 <= row <= 4 {
        OpenSubColorPicker(color);
      }
    }

    /** `openPrimaryColorPicker`: the picker gets the screen's harmony, then the primary colour, which is kept for a reset. */
    method OpenPrimaryColorPicker()
      requires 0 < |colors|
      modifies this`requests, this`resetColor
      ensures requests == old(requests) + [SetHarmony(currentHarmonyType), SetColor(colors[0])]
      ensures resetColor == Some(colors[0])
    {
      var primaryColor := colors[0];
      requests := requests + [SetHarmony(currentHarmonyType), SetColor(primaryColor)];
      resetColor := Some(primaryColor);
    }

    /** `openSubColorPicker`: the picker gets no harmony, then the slot's colour, which is kept for a reset. */
    method OpenSubColorPicker(color: Color)
      modifies this`requests, this`resetColor
      ensures requests == old(requests) + [SetHarmony(H.None), SetColor(color)]
      ensures resetColor == Some(color)
    {
      requests := requests + [SetHarmony(H.None), SetColor(color)];
      resetColor := Some(color);
    }

    /** `resetColor(_:)`: the kept colour, if any, goes back to the picker. */
    method ResetColor()
      modifies this`requests
      ensures resetColor == Nothing ==> requests == old(requests)
      ensures resetColor.Some? ==> requests == old(requests) + [SetColor(resetColor.value)]
    {
      if resetColor.Some? {
        requests := requests + [SetColor(resetColor.value)];
      }
    }

    /**
     * `didChangeHarmonyType`: the selected segment's harmony goes to the picker; the
     * screen's own `currentHarmonyType` is left as it is.
     */
    method DidChangeHarmonyType(segment: int)
      modifies this`requests
      ensures SegmentHarmony(segment) == Nothing ==> requests == old(requests)
      ensures SegmentHarmony(segment).Some? ==> requests == old(requests) + [SetHarmony(SegmentHarmony(segment).value)]
    {
      match SegmentHarmony(segment)
      case Some(h) =>
        requests := requests + [SetHarmony(h)];
      case Nothing =>
    }
  }
}
