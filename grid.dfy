/**
 * The buffer seen as a width x height grid of pixels: coordinates, the
 * 4-neighbour relation, the region a bucket fill recolours, and the buffer
 * the fill must produce.
 */
module Grid {
  import opened Pixels

  datatype Point = Point(x: int, y: int)

  predicate InBounds(width: nat, height: nat, p: Point)
  {
    0 <= p.x < width && 0 <= p.y < height
  }

  /** Left, right, up or down of each other; no diagonals. */
  predicate Adjacent(p: Point, q: Point)
  {
    || (p.x == q.x && (p.y - q.y == 1 || q.y - p.y == 1))
    || (p.y == q.y && (p.x - q.x == 1 || q.x - p.x == 1))
  }

  /** The row-major number of pixel p; Pixels.PixelOffset is four times it. */
  function Index(width: nat, p: Point): int
  {
    p.y * width + p.x
  }

  /** The pixel with row-major number i, found by stepping down one row per `width` pixels. */
  function PointOf(width: nat, i: nat): Point
    requires width > 0
    decreases i
  {
    if i < width then Point(i, 0)
    else var above := PointOf(width, i - width); Point(above.x, above.y + 1)
  }

  /** Scaling by a non-negative factor keeps order. */
  lemma MulMonotone(a: int, b: int, w: nat)
    ensures a <= b ==> a * w <= b * w
  {
  }

  lemma IndexInRange(width: nat, height: nat, p: Point)
    requires InBounds(width, height, p)
    ensures 0 <= Index(width, p) < width * height
  {
    MulMonotone(p.y, height - 1, width);
    MulMonotone(0, p.y, width);
    assert (height - 1) * width == height * width - width;
  }

  /** Every in-bounds pixel's four bytes lie inside a buffer of width * height pixels. */
  lemma OffsetInRange(width: nat, height: nat, p: Point)
    requires InBounds(width, height, p)
    ensures 0 <= PixelOffset(p.x, p.y, width)
    ensures PixelOffset(p.x, p.y, width) + 4 <= width * height * 4
  {
    IndexInRange(width, height, p);
  }

  /** PointOf undoes Index on the grid. */
  lemma {:induction false} PointOfIndex(width: nat, height: nat, p: Point)
    requires InBounds(width, height, p)
    ensures PointOf(width, Index(width, p)) == p
    decreases p.y
  {
    if p.y > 0 {
      var above := Point(p.x, p.y - 1);
      assert Index(width, p) == Index(width, above) + width;
      PointOfIndex(width, height, above);
    }
  }

  /** Two different in-bounds pixels have different row-major numbers. */
  lemma IndexInjective(width: nat, height: nat, p: Point, q: Point)
    requires InBounds(width, height, p) && InBounds(width, height, q)
    requires p != q
    ensures Index(width, p) != Index(width, q)
  {
    PointOfIndex(width, height, p);
    PointOfIndex(width, height, q);
  }

  /** Index undoes PointOf on the row-major numbers of the grid. */
  lemma {:induction false} IndexOfPoint(width: nat, height: nat, i: nat)
    requires width > 0 && i < width * height
    ensures InBounds(width, height, PointOf(width, i))
    ensures Index(width, PointOf(width, i)) == i
    decreases i
  {
    if i >= width {
      assert (height - 1) * width == width * height - width;
      IndexOfPoint(width, height - 1, i - width);
      var above := PointOf(width, i - width);
      assert (above.y + 1) * width == above.y * width + width;
    }
  }

  /**
   * The colour of an in-bounds pixel of a width x height buffer: the four
   * bytes Pixels.GetPixelColor reads, as its ensures states. It is written
   * as the slice so specifications over the grid need not unfold
   * GetPixelColor's body; FloodFill's read asserts the two agree.
   */
  function ColorAt(s: seq<Byte>, width: nat, height: nat, p: Point): Color
    requires |s| == width * height * 4 && InBounds(width, height, p)
  {
    OffsetInRange(width, height, p);
    s[PixelOffset(p.x, p.y, width)..PixelOffset(p.x, p.y, width) + 4]
  }

  /**
   * A walk from pixel to 4-neighbouring pixel that stays on the grid and
   * only steps on pixels of colour `target`.
   */
  ghost predicate IsPath(s: seq<Byte>, width: nat, height: nat, target: Color, path: seq<Point>)
    requires |s| == width * height * 4
  {
    && |path| > 0
    && (forall i :: 0 <= i < |path| ==>
          InBounds(width, height, path[i]) && ColorAt(s, width, height, path[i]) == target)
    && (forall i :: 0 <= i < |path| - 1 ==> Adjacent(path[i], path[i + 1]))
  }

  /**
   * p lies in the 4-connected component of `target`-coloured pixels that
   * contains the seed. Empty when the seed itself is not `target`-coloured.
   */
  ghost predicate InRegion(s: seq<Byte>, width: nat, height: nat, target: Color, seed: Point, p: Point)
    requires |s| == width * height * 4
  {
    exists path :: IsPath(s, width, height, target, path) && path[0] == seed && path[|path| - 1] == p
  }

  /** Every pixel of the region is on the grid and has colour `target`. */
  lemma RegionHasTarget(s: seq<Byte>, width: nat, height: nat, target: Color, seed: Point, p: Point)
    requires |s| == width * height * 4
    requires InRegion(s, width, height, target, seed, p)
    ensures InBounds(width, height, p) && ColorAt(s, width, height, p) == target
  {
    var path :| IsPath(s, width, height, target, path) && path[0] == seed && path[|path| - 1] == p;
    assert InBounds(width, height, path[|path| - 1]);
  }

  /** A `target`-coloured seed is in its own region. */
  lemma SeedInRegion(s: seq<Byte>, width: nat, height: nat, target: Color, seed: Point)
    requires |s| == width * height * 4
    requires InBounds(width, height, seed) && ColorAt(s, width, height, seed) == target
    ensures InRegion(s, width, height, target, seed, seed)
  {
    assert IsPath(s, width, height, target, [seed]);
  }

  /** The region is closed under stepping to a `target`-coloured 4-neighbour. */
  lemma RegionStep(s: seq<Byte>, width: nat, height: nat, target: Color, seed: Point, p: Point, q: Point)
    requires |s| == width * height * 4
    requires InRegion(s, width, height, target, seed, p)
    requires Adjacent(p, q) && InBounds(width, height, q) && ColorAt(s, width, height, q) == target
    ensures InRegion(s, width, height, target, seed, q)
  {
    var path :| IsPath(s, width, height, target, path) && path[0] == seed && path[|path| - 1] == p;
    var path' := path + [q];
    assert path'[|path'| - 2] == p;
    assert IsPath(s, width, height, target, path');
  }

  /**
   * The buffer a fill of the seed's component must produce: every byte of a
   * pixel in the region carries the matching channel of `fill`, every other
   * byte is as in `s`.
   */
  ghost function Recolored(s: seq<Byte>, width: nat, height: nat, target: Color, seed: Point, fill: Color): (r: seq<Byte>)
    requires |s| == width * height * 4
    ensures |r| == |s|
  {
    seq(|s|, j requires 0 <= j < |s| =>
      if width > 0 && InRegion(s, width, height, target, seed, PointOf(width, j / 4)) then fill[j % 4] else s[j])
  }

  /** Four bytes equal to a colour's channels, read as one colour. */
  lemma FourBytes(r: seq<Byte>, o: int, c: Color)
    requires 0 <= o && o + 4 <= |r|
    requires r[o] == c[0] && r[o + 1] == c[1] && r[o + 2] == c[2] && r[o + 3] == c[3]
    ensures r[o..o + 4] == c
  {
  }

  /** One byte of the recoloured buffer, for the pixel numbered `i` in row-major order. */
  lemma RecoloredByte(s: seq<Byte>, width: nat, height: nat, target: Color, seed: Point, fill: Color, i: nat, k: int)
    requires |s| == width * height * 4 && width > 0 && 0 <= k < 4 && 4 * i + k < |s|
    ensures Recolored(s, width, height, target, seed, fill)[4 * i + k]
         == if InRegion(s, width, height, target, seed, PointOf(width, i)) then fill[k] else s[4 * i + k]
  {
    var j := 4 * i + k;
    assert j / 4 == i && j % 4 == k;
  }

  /**
   * Pixel by pixel: a pixel of the recoloured buffer has colour `fill`
   * exactly when it lies in the region, and its old colour otherwise.
   */
  lemma RecoloredAt(s: seq<Byte>, width: nat, height: nat, target: Color, seed: Point, fill: Color, p: Point)
    requires |s| == width * height * 4 && InBounds(width, height, p)
    ensures ColorAt(Recolored(s, width, height, target, seed, fill), width, height, p)
         == if InRegion(s, width, height, target, seed, p) then fill else ColorAt(s, width, height, p)
  {
    var r := Recolored(s, width, height, target, seed, fill);
    var i := Index(width, p);
    OffsetInRange(width, height, p);
    assert PixelOffset(p.x, p.y, width) == 4 * i;
    PointOfIndex(width, height, p);
    RecoloredByte(s, width, height, target, seed, fill, i, 0);
    RecoloredByte(s, width, height, target, seed, fill, i, 1);
    RecoloredByte(s, width, height, target, seed, fill, i, 2);
    RecoloredByte(s, width, height, target, seed, fill, i, 3);
    if InRegion(s, width, height, target, seed, p) {
      FourBytes(r, 4 * i, fill);
    } else {
      FourBytes(r, 4 * i, s[4 * i..4 * i + 4]);
    }
  }

  /** Two buffers of the same grid with the same colour at every pixel are equal. */
  lemma PixelsDetermineBuffer(s: seq<Byte>, t: seq<Byte>, width: nat, height: nat)
    requires |s| == width * height * 4 && |t| == |s|
    requires forall p :: InBounds(width, height, p) ==> ColorAt(s, width, height, p) == ColorAt(t, width, height, p)
    ensures s == t
  {
    forall j | 0 <= j < |s|
      ensures s[j] == t[j]
    {
      var i := j / 4;
      assert width > 0;
      assert i < width * height;
      IndexOfPoint(width, height, i);
      var p := PointOf(width, i);
      assert ColorAt(s, width, height, p)[j % 4] == ColorAt(t, width, height, p)[j % 4];
    }
  }

  /** A fill never changes a pixel whose colour is not `target`. */
  lemma RecoloredKeepsOthers(s: seq<Byte>, width: nat, height: nat, target: Color, seed: Point, fill: Color, p: Point)
    requires |s| == width * height * 4 && InBounds(width, height, p)
    requires ColorAt(s, width, height, p) != target
    ensures ColorAt(Recolored(s, width, height, target, seed, fill), width, height, p) == ColorAt(s, width, height, p)
  {
    RecoloredAt(s, width, height, target, seed, fill, p);
    if InRegion(s, width, height, target, seed, p) {
      RegionHasTarget(s, width, height, target, seed, p);
    }
  }

  /** How many of the first n pixels of s have colour c. */
  ghost function CountMatching(s: seq<Byte>, c: Color, n: nat): (k: nat)
    requires 4 * n <= |s|
    ensures k <= n
  {
    if n == 0 then 0
    else CountMatching(s, c, n - 1) + (if s[4 * (n - 1)..4 * n] == c then 1 else 0)
  }

  /** The pixel written to reads as the colour written. */
  lemma QuadWritten(before: seq<Byte>, after: seq<Byte>, k: nat, fill: Color)
    requires WrittenAt(before, after, 4 * k, fill)
    ensures after[4 * k..4 * k + 4] == fill
  {
    assert after[4 * k] == fill[0] && after[4 * k + 1] == fill[1];
    assert after[4 * k + 2] == fill[2] && after[4 * k + 3] == fill[3];
  }

  /** Any other pixel reads as before. */
  lemma QuadUntouched(before: seq<Byte>, after: seq<Byte>, k: nat, fill: Color, i: nat)
    requires WrittenAt(before, after, 4 * k, fill)
    requires 4 * i + 4 <= |before| && i != k
    ensures after[4 * i..4 * i + 4] == before[4 * i..4 * i + 4]
  {
    assert after[4 * i] == before[4 * i] && after[4 * i + 1] == before[4 * i + 1];
    assert after[4 * i + 2] == before[4 * i + 2] && after[4 * i + 3] == before[4 * i + 3];
  }

  /**
   * Recolouring pixel k from c to `fill` (with fill != c) and leaving every
   * other pixel alone lowers the number of c-coloured pixels by one, when
   * pixel k is one of those counted.
   */
  lemma {:induction false} CountAfterWrite(before: seq<Byte>, after: seq<Byte>, k: nat, c: Color, fill: Color, n: nat)
    requires |after| == |before| && 4 * n <= |before|
    requires 4 * k + 4 <= |before|
    requires before[4 * k..4 * k + 4] == c && after[4 * k..4 * k + 4] == fill && fill != c
    requires forall i :: 0 <= i < n && i != k ==> after[4 * i..4 * i + 4] == before[4 * i..4 * i + 4]
    ensures CountMatching(after, c, n) == CountMatching(before, c, n) - (if k < n then 1 else 0)
  {
    if n > 0 {
      CountAfterWrite(before, after, k, c, fill, n - 1);
    }
  }

  /**
   * Writing `fill` over in-bounds pixel p of colour c, with fill != c, lowers
   * the number of c-coloured pixels of the grid by one.
   */
  lemma CountAfterSet(before: seq<Byte>, after: seq<Byte>, width: nat, height: nat, p: Point, c: Color, fill: Color)
    requires |before| == width * height * 4 && InBounds(width, height, p)
    requires WrittenAt(before, after, PixelOffset(p.x, p.y, width), fill)
    requires ColorAt(before, width, height, p) == c && fill != c
    ensures CountMatching(after, c, width * height) == CountMatching(before, c, width * height) - 1
  {
    var k := Index(width, p);
    IndexInRange(width, height, p);
    assert PixelOffset(p.x, p.y, width) == 4 * k;
    QuadWritten(before, after, k, fill);
    forall i | 0 <= i < width * height && i != k
      ensures after[4 * i..4 * i + 4] == before[4 * i..4 * i + 4]
    {
      QuadUntouched(before, after, k, fill, i);
    }
    CountAfterWrite(before, after, k, c, fill, width * height);
  }
}
