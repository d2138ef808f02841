/**
 * The RGBA bitmaps both views draw: a zero-filled byte buffer, four bytes per pixel at
 * offset 4 (x + y width), each byte `UInt8(component * 255)`.
 */
module Bitmap {
  import opened Numerics
  import opened ColorSpace

  /** A layer's contents: nothing (`nil`), or a bitmap. */
  datatype Contents = NoContents | Image(bytes: seq<byte>)

  /** A colour whose four components lie in [0, 1], so `UInt8(c * 255)` cannot trap. */
  predicate InUnit(c: RGB) {
    && 0.0 <= c.red <= 1.0 && 0.0 <= c.green <= 1.0
    && 0.0 <= c.blue <= 1.0 && 0.0 <= c.alpha <= 1.0
  }

  /** The four bytes written for one pixel: `UInt8(component * 255)`, in RGBA order. */
  function PixelBytes(c: RGB): (bs: seq<byte>)
    requires InUnit(c)
    ensures |bs| == 4
    ensures bs[0] as real <= c.red * 255.0 < bs[0] as real + 1.0
    ensures bs[1] as real <= c.green * 255.0 < bs[1] as real + 1.0
    ensures bs[2] as real <= c.blue * 255.0 < bs[2] as real + 1.0
    ensures bs[3] as real <= c.alpha * 255.0 < bs[3] as real + 1.0
  {
    [UInt8Of(c.red * 255.0), UInt8Of(c.green * 255.0), UInt8Of(c.blue * 255.0), UInt8Of(c.alpha * 255.0)]
  }

  /** The byte offset of channel k of pixel (x, y) in a width-by-height RGBA bitmap: inside the pixels' bytes. */
  function Offset(width: int, height: int, x: int, y: int, k: int): (o: int)
    requires 0 <= x < width && 0 <= y < height && 0 <= k < 4
    ensures 0 <= o < 4 * width * height
  {
    RowBound(width, height, y);
    4 * (x + y * width) + k
  }

  lemma RowBound(width: int, height: int, y: int)
    requires 0 <= y < height && 0 <= width
    ensures 0 <= y * width && y * width + width <= height * width
  {
    MulAtLeast(height - y, width);
    assert height * width - y * width == (height - y) * width;
  }

  lemma MulAtLeast(a: int, d: int)
    requires 1 <= a && 0 <= d
    ensures d <= a * d
  {
    assert a * d - d == (a - 1) * d;
  }

  lemma DivModUnique(n: int, d: int, q: int, r: int)
    requires 0 <= r < d && n == q * d + r
    ensures n / d == q && n % d == r
  {
    var q', r' := n / d, n % d;
    assert n == q' * d + r';
    assert (q - q') * d == r' - r;
    if q > q' {
      MulAtLeast(q - q', d);
    } else if q < q' {
      MulAtLeast(q' - q, d);
    }
  }

  /** An offset determines its pixel and channel: decoding it gives back x, y and k. */
  lemma OffsetDecodes(width: int, height: int, x: int, y: int, k: int)
    requires 0 <= x < width && 0 <= y < height && 0 <= k < 4
    ensures var i := Offset(width, height, x, y, k);
            (i / 4) % width == x && (i / 4) / width == y && i % 4 == k
  {
    DivModUnique(Offset(width, height, x, y, k), 4, x + y * width, k);
    DivModUnique(x + y * width, width, y, x);
  }

  /** Every index below 4 width height is the offset of some pixel and channel. */
  lemma OffsetsCover(width: int, height: int, i: int)
    requires 0 < width && 0 <= i < 4 * width * height
    ensures var p := i / 4;
            && 0 <= p % width < width && 0 <= p / width < height
            && i == Offset(width, height, p % width, p / width, i % 4)
  {
    var p := i / 4;
    assert p / width * width <= p < height * width;
    CancelBelow(p / width, height, width);
  }

  lemma CancelBelow(a: int, b: int, d: int)
    requires 0 < d && a * d < b * d
    ensures a < b
  {
    assert (b - a) * d == b * d - a * d;
  }

  /** A different pixel's bytes lie outside the four bytes of pixel (x, y). */
  lemma OffsetDistinct(width: int, height: int, x: int, y: int, x': int, y': int, k: int)
    requires 0 <= x < width && 0 <= y < height && 0 <= x' < width && 0 <= y' < height && 0 <= k < 4
    requires x' != x || y' != y
    ensures !(Offset(width, height, x, y, 0) <= Offset(width, height, x', y', k) < Offset(width, height, x, y, 0) + 4)
  {
    var j := Offset(width, height, x', y', k) - Offset(width, height, x, y, 0);
    if 0 <= j < 4 {
      assert Offset(width, height, x, y, j) == Offset(width, height, x', y', k);
      OffsetDecodes(width, height, x, y, j);
      OffsetDecodes(width, height, x', y', k);
    }
  }

  /** Stores the four bytes of one pixel at `offset`, leaving every other byte alone. */
  method WritePixel(buffer: array<byte>, offset: int, bytes: seq<byte>)
    requires |bytes| == 4 && 0 <= offset && offset + 4 <= buffer.Length
    modifies buffer
    ensures forall i :: 0 <= i < buffer.Length && !(offset <= i < offset + 4) ==> buffer[i] == old(buffer[i])
    ensures buffer[offset..offset + 4] == bytes
  {
    buffer[offset] := bytes[0];
    buffer[offset + 1] := bytes[1];
    buffer[offset + 2] := bytes[2];
    buffer[offset + 3] := bytes[3];
  }

  /** A pixel function that can be applied at every pixel of a width-by-height bitmap and yields four bytes. */
  ghost predicate PixelsDefined(width: int, height: int, pixel: (int, int) --> seq<byte>)
  {
    forall x, y :: 0 <= x < width && 0 <= y < height ==> pixel.requires(x, y) && |pixel(x, y)| == 4
  }

  /** The pixels of rows before y, and of row y before column x, are in place. */
  ghost predicate Filled(buffer: seq<byte>, width: int, height: int, pixel: (int, int) --> seq<byte>, x: int, y: int)
    requires PixelsDefined(width, height, pixel) && 4 * width * height <= |buffer|
  {
    forall x', y', k :: 0 <= x' < width && 0 <= y' < height && 0 <= k < 4 && (y' < y || (y' == y && x' < x)) ==>
      buffer[Offset(width, height, x', y', k)] == pixel(x', y')[k]
  }

  /** Writing pixel (x, y) keeps the filled pixels and adds (x, y). */
  lemma FilledStep(before: seq<byte>, after: seq<byte>, width: int, height: int, pixel: (int, int) --> seq<byte>, x: int, y: int)
    requires PixelsDefined(width, height, pixel) && 0 <= x < width && 0 <= y < height
    requires |before| == |after| && 4 * width * height <= |after|
    requires Filled(before, width, height, pixel, x, y)
    requires forall i :: 0 <= i < |after| && !(Offset(width, height, x, y, 0) <= i < Offset(width, height, x, y, 0) + 4) ==>
               after[i] == before[i]
    requires Offset(width, height, x, y, 0) + 4 <= |after|
    requires after[Offset(width, height, x, y, 0)..Offset(width, height, x, y, 0) + 4] == pixel(x, y)
    ensures Filled(after, width, height, pixel, x + 1, y)
  {
    forall x', y', k | 0 <= x' < width && 0 <= y' < height && 0 <= k < 4 && (y' < y || (y' == y && x' < x + 1))
      ensures after[Offset(width, height, x', y', k)] == pixel(x', y')[k]
    {
      if x' != x || y' != y {
        OffsetDistinct(width, height, x, y, x', y', k);
      } else {
        assert after[Offset(width, height, x, y, 0) + k] == pixel(x, y)[k];
      }
    }
  }

  /** Once every row is filled, every pixel's bytes are in place. */
  lemma FilledAll(buffer: seq<byte>, width: int, height: int, pixel: (int, int) --> seq<byte>)
    requires 0 <= height && PixelsDefined(width, height, pixel) && 4 * width * height <= |buffer|
    requires Filled(buffer, width, height, pixel, 0, height)
    ensures forall x, y, k :: 0 <= x < width && 0 <= y < height && 0 <= k < 4 ==>
              buffer[Offset(width, height, x, y, k)] == pixel(x, y)[k]
  {
    forall x, y, k | 0 <= x < width && 0 <= y < height && 0 <= k < 4
      ensures buffer[Offset(width, height, x, y, k)] == pixel(x, y)[k]
    {
      assert y < height;
    }
  }

  /** The inner loop: row y is written pixel by pixel, keeping the rows before it and the bytes past the pixels. */
  method FillRow(buffer: array<byte>, width: int, height: int, pixel: (int, int) --> seq<byte>, y: int)
    requires 0 <= width && 0 <= y < height && 4 * width * height <= buffer.Length
    requires PixelsDefined(width, height, pixel)
    requires Filled(buffer[..], width, height, pixel, 0, y)
    modifies buffer
    ensures Filled(buffer[..], width, height, pixel, 0, y + 1)
    ensures forall i :: 4 * width * height <= i < buffer.Length ==> buffer[i] == old(buffer[i])
  {
    var x := 0;
    while x < width
      invariant 0 <= x <= width
      invariant Filled(buffer[..], width, height, pixel, x, y)
      invariant forall i :: 4 * width * height <= i < buffer.Length ==> buffer[i] == old(buffer[i])
    {
      var bytes := pixel(x, y);
      assert Offset(width, height, x, y, 0) + 3 == Offset(width, height, x, y, 3);
      ghost var before := buffer[..];
      WritePixel(buffer, 4 * (x + y * width), bytes);
      FilledStep(before, buffer[..], width, height, pixel, x, y);
      x := x + 1;
    }
    FilledNextRow(buffer[..], width, height, pixel, y);
  }

  /** A row filled to its end is the start of the next row. */
  lemma FilledNextRow(buffer: seq<byte>, width: int, height: int, pixel: (int, int) --> seq<byte>, y: int)
    requires PixelsDefined(width, height, pixel) && 4 * width * height <= |buffer|
    requires Filled(buffer, width, height, pixel, width, y)
    ensures Filled(buffer, width, height, pixel, 0, y + 1)
  {
  }

  /**
   * The nested y/x loops both views run: a zero-filled buffer of `length` bytes is filled
   * row by row, the four bytes of pixel (x, y) at offset 4 (x + y width); bytes past the
   * pixels stay zero.
   */
  method FillBitmap(width: int, height: int, length: int, pixel: (int, int) --> seq<byte>) returns (bitmap: seq<byte>)
    requires 0 <= width && 0 <= height && 4 * width * height <= length
    requires PixelsDefined(width, height, pixel)
    ensures |bitmap| == length
    ensures forall x, y, k :: 0 <= x < width && 0 <= y < height && 0 <= k < 4 ==>
              bitmap[Offset(width, height, x, y, k)] == pixel(x, y)[k]
    ensures forall i :: 4 * width * height <= i < length ==> bitmap[i] == 0
  {
    var buffer := new byte[length](_ => 0);
    var y := 0;
    while y < height
      invariant 0 <= y <= height
      invariant Filled(buffer[..], width, height, pixel, 0, y)
      invariant forall i :: 4 * width * height <= i < length ==> buffer[i] == 0
    {
      FillRow(buffer, width, height, pixel, y);
      y := y + 1;
    }
    bitmap := buffer[..];
    FilledAll(bitmap, width, height, pixel);
  }
}
