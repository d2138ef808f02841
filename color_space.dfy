/**
 * The two colour value types, `RGB` and `HSB` (ColorPicker/ColorSpace.swift), and the
 * conversions between them that the source obtains from UIKit.
 *
 * A `UIColor` is modelled by its device RGB components, an `RGB` record built without
 * the initialiser's clamp (a `UIColor` may hold any component). `UIColor(hue:...)`
 * followed by `getRed` is modelled by the textbook HSB-to-RGB formula, and `getHue` by
 * the textbook RGB-to-HSB formula.
 */
module ColorSpace {

  /** The `RGB` struct; `MakeRGB` is its initialiser. */
  datatype RGB = RGB(red: real, green: real, blue: real, alpha: real)

  /** The `HSB` struct; its memberwise initialiser is the datatype constructor. */
  datatype HSB = HSB(hue: real, saturation: real, brightness: real, alpha: real)

  /** `UIColor` is represented by its RGB components. */
  type Color = RGB

  /** A negative component becomes 0; any other value is kept. */
  function ClampNegative(v: real): (r: real)
  {
    if v >= 0.0 then v else 0.0
  }

  /** `RGB.init(red:green:blue:alpha:)`: negative components are clamped to 0, nothing else. */
  function MakeRGB(red: real, green: real, blue: real, alpha: real): (c: RGB)
    ensures c.red >= 0.0 && c.green >= 0.0 && c.blue >= 0.0 && c.alpha >= 0.0
    ensures red < 0.0 ==> c.red == 0.0
    ensures green < 0.0 ==> c.green == 0.0
    ensures blue < 0.0 ==> c.blue == 0.0
    ensures alpha < 0.0 ==> c.alpha == 0.0
    ensures red >= 0.0 ==> c.red == red
    ensures green >= 0.0 ==> c.green == green
    ensures blue >= 0.0 ==> c.blue == blue
    ensures alpha >= 0.0 ==> c.alpha == alpha
  {
    RGB(ClampNegative(red), ClampNegative(green), ClampNegative(blue), ClampNegative(alpha))
  }

  /** Re-initialising an `RGB` from its own fields changes nothing. */
  lemma MakeRGBIdempotent(red: real, green: real, blue: real, alpha: real)
    ensures var c := MakeRGB(red, green, blue, alpha);
            MakeRGB(c.red, c.green, c.blue, c.alpha) == c
  {
  }

  /** `HSB ==`: all four components are equal, which is value equality. */
  function HsbEquals(lhs: HSB, rhs: HSB): (r: bool)
    ensures r <==> lhs == rhs
  {
    lhs.hue == rhs.hue && lhs.saturation == rhs.saturation
    && lhs.brightness == rhs.brightness && lhs.alpha == rhs.alpha
  }

  /** The fractional part of a hue, in turns: the hue wheel wraps around at 1. */
  function Turn(h: real): (f: real)
    ensures 0.0 <= f < 1.0
  {
    h - h.Floor as real
  }

  /** v scaled down by the weight k: v (1 - k). */
  function Scale(v: real, k: real): real
  {
    v * (1.0 - k)
  }

  /** The channel order of each of the six hue sectors. */
  function SectorRgb(i: int, v: real, p: real, q: real, t: real, alpha: real): RGB
  {
    if i == 0 then RGB(v, t, p, alpha)
    else if i == 1 then RGB(q, v, p, alpha)
    else if i == 2 then RGB(p, v, t, alpha)
    else if i == 3 then RGB(p, q, v, alpha)
    else if i == 4 then RGB(t, p, v, alpha)
    else RGB(v, p, q, alpha)
  }

  /** The six-sector HSB-to-RGB formula (the components before `RGB.init`). */
  function HsbToRgb(c: HSB): (r: RGB)
    ensures r.alpha == c.alpha
  {
    var h6 := Turn(c.hue) * 6.0;
    var i := h6.Floor;
    var f := h6 - i as real;
    SectorColor(i, f, c.brightness, c.saturation, c.alpha)
  }

  /** Sector i of the formula, with fraction f into the sector, brightness v and saturation s. */
  function SectorColor(i: int, f: real, v: real, s: real, alpha: real): RGB
  {
    SectorRgb(i, v, Scale(v, s), Scale(v, s * f), Scale(v, s * (1.0 - f)), alpha)
  }

  /** `UIColor.rgb`: read the components (`getRed`) into the `RGB` struct. */
  function ColorRgb(u: Color): (r: RGB)
    ensures u.red >= 0.0 && u.green >= 0.0 && u.blue >= 0.0 && u.alpha >= 0.0 ==> r == u
  {
    MakeRGB(u.red, u.green, u.blue, u.alpha)
  }

  /** `HSB.rgb`: convert through `UIColor` (`HSB.color`, the formula above), then `UIColor.rgb`. */
  function ToRgb(c: HSB): (r: RGB)
    ensures r.red >= 0.0 && r.green >= 0.0 && r.blue >= 0.0
  {
    ColorRgb(HsbToRgb(c))
  }

  /** `UIColor.hsb`: the textbook RGB-to-HSB formula (`getHue`). */
  function ToHsb(c: Color): (r: HSB)
    ensures r.alpha == c.alpha
  {
    var hi := if c.red >= c.green && c.red >= c.blue then c.red
              else if c.green >= c.blue then c.green else c.blue;
    var lo := if c.red <= c.green && c.red <= c.blue then c.red
              else if c.green <= c.blue then c.green else c.blue;
    var d := hi - lo;
    var s := if hi <= 0.0 then 0.0 else d / hi;
    var h :=
      if d == 0.0 then 0.0
      else if hi == c.red then
        (var k := (c.green - c.blue) / d / 6.0; if k < 0.0 then k + 1.0 else k)
      else if hi == c.green then ((c.blue - c.red) / d + 2.0) / 6.0
      else ((c.red - c.green) / d + 4.0) / 6.0;
    HSB(h, s, hi, c.alpha)
  }

  lemma MulNonNeg(a: real, b: real)
    requires 0.0 <= a && 0.0 <= b
    ensures 0.0 <= a * b
  {
  }

  lemma MulMono(a: real, b: real, c: real)
    requires 0.0 <= a && b <= c
    ensures a * b <= a * c
  {
    MulNonNeg(a, c - b);
    assert a * (c - b) == a * c - a * b;
  }

  /** For 0 <= k <= s: v (1 - s) <= v (1 - k) <= v, and the middle is non-negative when k <= 1. */
  lemma ScaledBetween(v: real, s: real, k: real)
    requires 0.0 <= v && 0.0 <= k <= s
    ensures Scale(v, s) <= Scale(v, k) <= v
    ensures k <= 1.0 ==> 0.0 <= Scale(v, k)
  {
    MulMono(v, 1.0 - s, 1.0 - k);
    MulMono(v, 1.0 - k, 1.0);
    if k <= 1.0 {
      MulNonNeg(v, 1.0 - k);
    }
  }

  /** The two sector weights s f and s (1 - f) lie in [0, s]. */
  lemma SectorWeights(s: real, f: real)
    requires 0.0 <= s && 0.0 <= f < 1.0
    ensures 0.0 <= s * f <= s && 0.0 <= s * (1.0 - f) <= s
  {
    MulNonNeg(s, f);
    MulNonNeg(s, 1.0 - f);
    MulMono(s, f, 1.0);
    MulMono(s, 1.0 - f, 1.0);
  }

  /** The channels of `r` lie in [lo, hi] and reach both ends. */
  predicate Spread(r: RGB, hi: real, lo: real)
  {
    && lo <= r.red <= hi && lo <= r.green <= hi && lo <= r.blue <= hi
    && (r.red == hi || r.green == hi || r.blue == hi)
    && (r.red == lo || r.green == lo || r.blue == lo)
  }

  /** Every sector uses v, p and one value between them. */
  lemma SectorSpread(i: int, v: real, p: real, q: real, t: real, alpha: real)
    requires p <= q <= v && p <= t <= v
    ensures Spread(SectorRgb(i, v, p, q, t, alpha), v, p)
  {
  }

  /** The six-sector formula at sector i with fraction f spreads its channels between v (1 - s) and v. */
  lemma SectorChannels(i: int, f: real, v: real, s: real, alpha: real)
    requires 0.0 <= f < 1.0 && 0.0 <= v && 0.0 <= s
    ensures Spread(SectorColor(i, f, v, s, alpha), v, Scale(v, s))
  {
    SectorWeights(s, f);
    ScaledBetween(v, s, s * f);
    ScaledBetween(v, s, s * (1.0 - f));
    SectorSpread(i, v, Scale(v, s), Scale(v, s * f), Scale(v, s * (1.0 - f)), alpha);
  }

  /** The raw channels of a converted colour are v, p = v (1 - s) and one value between them. */
  lemma RawChannels(c: HSB)
    requires 0.0 <= c.brightness && 0.0 <= c.saturation
    ensures Spread(HsbToRgb(c), c.brightness, Scale(c.brightness, c.saturation))
    ensures c.saturation <= 1.0 ==> 0.0 <= Scale(c.brightness, c.saturation)
  {
    var h6 := Turn(c.hue) * 6.0;
    var f := h6 - h6.Floor as real;
    SectorChannels(h6.Floor, f, c.brightness, c.saturation, c.alpha);
    ScaledBetween(c.brightness, c.saturation, c.saturation);
  }

  /**
   * With brightness and alpha in [0, 1] and a non-negative saturation, every channel of
   * the converted colour lies in [0, 1]; this is what keeps `UInt8(c * 255)` from trapping.
   */
  lemma ToRgbInUnit(c: HSB)
    requires 0.0 <= c.brightness <= 1.0 && 0.0 <= c.saturation && 0.0 <= c.alpha <= 1.0
    ensures var r := ToRgb(c);
            r.red <= 1.0 && r.green <= 1.0 && r.blue <= 1.0 && 0.0 <= r.alpha <= 1.0
  {
    RawChannels(c);
  }

  /** With no saturation the colour is the grey of its brightness, whatever its hue. */
  lemma ToRgbGray(hue: real, v: real, a: real)
    requires 0.0 <= v && 0.0 <= a
    ensures ToRgb(HSB(hue, 0.0, v, a)) == RGB(v, v, v, a)
  {
  }

  /** `getHue` on a colour whose channels lie in [lo, hi] and reach both ends. */
  lemma ToHsbOfSpread(c: Color, hi: real, lo: real)
    requires Spread(c, hi, lo)
    ensures ToHsb(c).brightness == hi
    ensures ToHsb(c).saturation == if hi <= 0.0 then 0.0 else (hi - lo) / hi
  {
  }

  /** `getHue`'s saturation is never negative, and at most 1 for a colour without negative channels. */
  lemma ToHsbSaturation(c: Color)
    ensures 0.0 <= ToHsb(c).saturation
    ensures 0.0 <= c.red && 0.0 <= c.green && 0.0 <= c.blue ==> ToHsb(c).saturation <= 1.0
  {
    var hi := if c.red >= c.green && c.red >= c.blue then c.red
              else if c.green >= c.blue then c.green else c.blue;
    var lo := if c.red <= c.green && c.red <= c.blue then c.red
              else if c.green <= c.blue then c.green else c.blue;
    assert ToHsb(c).saturation == if hi <= 0.0 then 0.0 else (hi - lo) / hi;
    if 0.0 < hi {
      assert lo <= hi;
      QuotientInUnit(hi - lo, hi);
    }
  }

  lemma QuotientInUnit(n: real, d: real)
    requires 0.0 < d && 0.0 <= n
    ensures 0.0 <= n / d
    ensures n <= d ==> n / d <= 1.0
  {
    var q := n / d;
    assert q * d == n;
    if n <= d && q > 1.0 {
      MulMono(d, 1.0, q);
    }
  }

  /**
   * Converting an HSB colour to RGB and back recovers its brightness and, when the
   * brightness is positive and the saturation within [0, 1], its saturation.
   */
  lemma BrightnessSaturationRoundTrip(c: HSB)
    requires 0.0 <= c.brightness && 0.0 <= c.saturation <= 1.0 && 0.0 <= c.alpha
    ensures ToHsb(ToRgb(c)).brightness == c.brightness
    ensures 0.0 < c.brightness ==> ToHsb(ToRgb(c)).saturation == c.saturation
    ensures ToHsb(ToRgb(c)).alpha == c.alpha
  {
    var v, s := c.brightness, c.saturation;
    var p := Scale(v, s);
    RawChannels(c);
    var r := ToRgb(c);
    assert r == HsbToRgb(c);
    ToHsbOfSpread(r, v, p);
    if 0.0 < v {
      ScaleCancel(v, s);
    }
  }

  lemma ScaleCancel(v: real, s: real)
    requires 0.0 < v
    ensures (v - Scale(v, s)) / v == s
  {
    assert v - Scale(v, s) == v * s;
  }
}
