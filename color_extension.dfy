/**
 * The colours the picker derives from a primary colour, and its hex formatting
 * (ColorPickerControl/UIColorExtension.swift).
 */
module ColorExtension {
  import opened Numerics
  import opened ColorSpace

  const Black: Color := RGB(0.0, 0.0, 0.0, 1.0)
  const White: Color := RGB(1.0, 1.0, 1.0, 1.0)

  /**
   * `complementary`: each of red, green and blue is replaced by its distance to 1, and the
   * result is opaque whatever the input's alpha was.
   */
  function Complementary(c: Color): (r: Color)
    ensures r.red + c.red == 1.0 && r.green + c.green == 1.0 && r.blue + c.blue == 1.0
    ensures r.alpha == 1.0
  {
    RGB(1.0 - c.red, 1.0 - c.green, 1.0 - c.blue, 1.0)
  }

  /** Taking the complement twice gives back the colour, made opaque. */
  lemma ComplementaryTwice(c: Color)
    ensures Complementary(Complementary(c)) == c.(alpha := 1.0)
  {
  }

  /**
   * `blackOrWhite`, given the colour's white level as `getWhite` reports it: black when
   * the level is below 0.7, white from 0.7 up.
   */
  function BlackOrWhite(whiteLevel: real): (r: Color)
    ensures r == Black <==> whiteLevel < 0.7
    ensures r == White <==> whiteLevel >= 0.7
  {
    if whiteLevel < 0.7 then Black else White
  }

  /** A dark colour is classed as black and a light one as white; 0.7 is already white. */
  lemma BlackOrWhiteExtremes()
    ensures BlackOrWhite(0.0) == Black
    ensures BlackOrWhite(1.0) == White
    ensures BlackOrWhite(0.7) == White
  {
  }

  /** The upper-case hexadecimal digit of 0..15. */
  function HexDigit(d: nat): (c: char)
    requires d < 16
    ensures IsHexDigit(c)
  {
    "0123456789ABCDEF"[d]
  }

  /** The value of an upper-case hexadecimal digit (-1 for any other character). */
  function DigitValue(c: char): (d: int)
    ensures -1 <= d < 16
  {
    if '0' <= c <= '9' then c as int - '0' as int
    else if 'A' <= c <= 'F' then c as int - 'A' as int + 10
    else -1
  }

  /** The hexadecimal digits of n, most significant first, with no leading zero. */
  function HexDigits(n: nat): (s: string)
    ensures 1 <= |s| && (n < 16 <==> |s| == 1)
    ensures forall i :: 0 <= i < |s| ==> IsHexDigit(s[i])
    decreases n
  {
    if n < 16 then [HexDigit(n)] else HexDigits(n / 16) + [HexDigit(n % 16)]
  }

  /** The number a string of hexadecimal digits denotes. */
  function ParseHex(s: string): int
  {
    if s == [] then 0 else ParseHex(s[..|s| - 1]) * 16 + DigitValue(s[|s| - 1])
  }

  predicate IsHexDigit(c: char) {
    '0' <= c <= '9' || 'A' <= c <= 'F'
  }

  lemma DigitRoundTrip(d: nat)
    requires d < 16
    ensures DigitValue(HexDigit(d)) == d && IsHexDigit(HexDigit(d))
  {
    assert "0123456789ABCDEF"[0] == '0';
    assert "0123456789ABCDEF"[d] == ('0' as int + d) as char || "0123456789ABCDEF"[d] == ('A' as int + d - 10) as char;
  }

  /** `HexDigits` is read back by `ParseHex`, uses only hex digits, and is two long exactly for 16..255. */
  lemma {:induction false} HexDigitsRoundTrip(n: nat)
    ensures ParseHex(HexDigits(n)) == n
    ensures forall i :: 0 <= i < |HexDigits(n)| ==> IsHexDigit(HexDigits(n)[i])
    ensures 1 <= |HexDigits(n)|
    ensures (n < 16 <==> |HexDigits(n)| == 1) && (16 <= n < 256 <==> |HexDigits(n)| == 2)
    decreases n
  {
    if n < 16 {
      DigitRoundTrip(n);
    } else {
      HexDigitsRoundTrip(n / 16);
      DigitRoundTrip(n % 16);
      var s := HexDigits(n);
      assert s[..|s| - 1] == HexDigits(n / 16);
    }
  }

  const TwoTo64: int := 0x1_0000_0000_0000_0000

  /**
   * One `%02lX` field: the value as an unsigned 64-bit number (a negative `long` prints as
   * its two's complement), in upper-case hexadecimal, zero-padded to at least two digits.
   */
  function HexField(n: int): (s: string)
    requires -TwoTo64 / 2 <= n < TwoTo64 / 2
    ensures 2 <= |s| && (0 <= n < 256 ==> |s| == 2)
    ensures forall i :: 0 <= i < |s| ==> IsHexDigit(s[i])
  {
    var digits := HexDigits(if n < 0 then n + TwoTo64 else n);
    if |digits| < 2 then "0" + digits else digits
  }

  /** A field of a value in 0..255 is two digits long and reads back as that value. */
  lemma HexFieldRoundTrip(n: int)
    requires 0 <= n < 256
    ensures |HexField(n)| == 2
    ensures ParseHex(HexField(n)) == n
    ensures IsHexDigit(HexField(n)[0]) && IsHexDigit(HexField(n)[1])
  {
    HexDigitsRoundTrip(n);
    var digits := HexDigits(n);
    if |digits| < 2 {
      var s := "0" + digits;
      assert s[..1] == "0";
      assert ParseHex("0") == 0;
    }
  }

  /** `lroundf(Float(c * 255))`, the integer the formatter receives for one component. */
  function ComponentByte(c: real): (b: int)
    ensures 0.0 <= c <= 1.0 ==> 0 <= b <= 255
    ensures c == 0.0 ==> b == 0
    ensures c == 1.0 ==> b == 255
  {
    RoundHalfAway(c * 255.0)
  }

  predicate FieldInRange(c: real) {
    -TwoTo64 / 2 <= ComponentByte(c) < TwoTo64 / 2
  }

  /**
   * `hexString()` on a colour's `cgColor.components`: "" unless there are exactly four
   * components, otherwise "#" and the fields of the first three.
   */
  function HexString(components: seq<real>): (s: string)
    requires |components| == 4 ==>
      FieldInRange(components[0]) && FieldInRange(components[1]) && FieldInRange(components[2])
    ensures |components| != 4 <==> s == ""
    ensures |components| == 4 ==> s[0] == '#'
  {
    if |components| != 4 then ""
    else "#" + HexField(ComponentByte(components[0])) + HexField(ComponentByte(components[1]))
             + HexField(ComponentByte(components[2]))
  }

  /**
   * When every rounded component lies in 0..255 the string is "#RRGGBB": seven characters
   * whose three two-digit fields read back as the rounded components.
   */
  lemma HexStringFormat(r: real, g: real, b: real, a: real)
    requires 0 <= ComponentByte(r) < 256 && 0 <= ComponentByte(g) < 256 && 0 <= ComponentByte(b) < 256
    ensures var s := HexString([r, g, b, a]);
            && |s| == 7 && s[0] == '#'
            && ParseHex(s[1..3]) == ComponentByte(r)
            && ParseHex(s[3..5]) == ComponentByte(g)
            && ParseHex(s[5..7]) == ComponentByte(b)
  {
    HexFieldRoundTrip(ComponentByte(r));
    HexFieldRoundTrip(ComponentByte(g));
    HexFieldRoundTrip(ComponentByte(b));
    var s := HexString([r, g, b, a]);
    assert s[1..3] == HexField(ComponentByte(r));
    assert s[3..5] == HexField(ComponentByte(g));
    assert s[5..7] == HexField(ComponentByte(b));
  }

  /** Opaque red formats as "#FF0000". */
  lemma HexStringRed()
    ensures HexString([1.0, 0.0, 0.0, 1.0]) == "#FF0000"
  {
    assert ComponentByte(1.0) == 255;
    assert ComponentByte(0.0) == 0;
    assert HexDigits(255) == HexDigits(15) + [HexDigit(15)];
    assert HexField(255) == "FF";
    assert HexField(0) == "00";
  }
}
