/**
 * The pixel buffer of the drawing canvas and its two accessors.
 *
 * The canvas hands out its pixels as one flat, row-major array of bytes:
 * four bytes (red, green, blue, alpha) per pixel, so the pixel at column x
 * and row y starts at byte (y * width + x) * 4.
 */
module Pixels {

  /** One channel of the RGBA buffer: an unsigned 8-bit value. */
  type Byte = b: int | 0 <= b < 256

  /** An RGBA colour: exactly four channels. */
  type Color = c: seq<Byte> | |c| == 4 witness [0, 0, 0, 0]

  /** The offset of the first byte of pixel (x, y) in a buffer `width` pixels wide. */
  function PixelOffset(x: int, y: int, width: int): int
  {
    (y * width + x) * 4
  }

  /** `colorsMatch`: exact comparison of the four channels, no tolerance. */
  function ColorsMatch(c1: Color, c2: Color): (r: bool)
    ensures r <==> c1 == c2
  {
    c1[0] == c2[0] && c1[1] == c2[1] && c1[2] == c2[2] && c1[3] == c2[3]
  }

  /**
   * `getPixelColor`: the four bytes of pixel (x, y). The source reads the
   * width from the canvas; here it is a parameter. Grid.ColorAt is the
   * same read stated over a point of the grid.
   */
  function GetPixelColor(x: int, y: int, width: int, data: seq<Byte>): (c: Color)
    requires 0 <= PixelOffset(x, y, width) && PixelOffset(x, y, width) + 4 <= |data|
    ensures c == data[PixelOffset(x, y, width)..PixelOffset(x, y, width) + 4]
  {
    var index := PixelOffset(x, y, width);
    [data[index], data[index + 1], data[index + 2], data[index + 3]]
  }

  /**
   * `after` is `before` with the four bytes from `index` on replaced by the
   * channels of `c`, and every other byte as it was.
   */
  ghost predicate WrittenAt(before: seq<Byte>, after: seq<Byte>, index: int, c: Color)
  {
    && |after| == |before|
    && 0 <= index && index + 4 <= |before|
    && forall j :: 0 <= j < |before| ==>
         after[j] == if index <= j < index + 4 then c[j - index] else before[j]
  }

  /** `setPixelColor`: overwrite the four bytes from `index` on with `fill`. */
  method SetPixelColor(data: array<Byte>, index: int, fill: Color)
    requires 0 <= index && index + 4 <= data.Length
    modifies data
    ensures WrittenAt(old(data[..]), data[..], index, fill)
  {
    data[index] := fill[0];
    data[index + 1] := fill[1];
    data[index + 2] := fill[2];
    data[index + 3] := fill[3];
  }

  /** Reading a pixel right after writing it gives back the colour written. */
  lemma GetAfterSet(before: seq<Byte>, after: seq<Byte>, x: int, y: int, width: int, c: Color)
    requires WrittenAt(before, after, PixelOffset(x, y, width), c)
    ensures GetPixelColor(x, y, width, after) == c
  {
    var index := PixelOffset(x, y, width);
    forall k | 0 <= k < 4
      ensures GetPixelColor(x, y, width, after)[k] == c[k]
    {
      assert after[index + k] == c[k];
    }
  }

  /** A pixel whose bytes do not overlap the four written ones reads the same as before. */
  lemma GetAwayFromSet(before: seq<Byte>, after: seq<Byte>, x: int, y: int, width: int,
                       index: int, c: Color)
    requires WrittenAt(before, after, index, c)
    requires 0 <= PixelOffset(x, y, width) && PixelOffset(x, y, width) + 4 <= |before|
    requires PixelOffset(x, y, width) + 4 <= index || index + 4 <= PixelOffset(x, y, width)
    ensures GetPixelColor(x, y, width, after) == GetPixelColor(x, y, width, before)
  {
    var i := PixelOffset(x, y, width);
    forall k | 0 <= k < 4
      ensures GetPixelColor(x, y, width, after)[k] == GetPixelColor(x, y, width, before)[k]
    {
      assert after[i + k] == before[i + k];
    }
  }
}
