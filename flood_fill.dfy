/**
 * The bucket tool: an explicit-stack, 4-connected flood fill over the
 * canvas's RGBA buffer, and the entry point that reads the target colour
 * at the clicked pixel.
 */
module FloodFill {
  import opened Pixels
  import opened Grid

  /** A pixel the running fill has already recoloured: it was `target`, it is now `fill`. */
  ghost predicate Painted(orig: seq<Byte>, cur: seq<Byte>, width: nat, height: nat,
                          target: Color, fill: Color, p: Point)
    requires |orig| == width * height * 4 && |cur| == |orig| && InBounds(width, height, p)
  {
    ColorAt(orig, width, height, p) == target && ColorAt(cur, width, height, p) == fill
  }

  /**
   * When no painted pixel has an unpainted `target`-coloured neighbour, every
   * pixel on a `target`-coloured path from a painted pixel is painted.
   */
  lemma {:induction false} PathPainted(orig: seq<Byte>, cur: seq<Byte>, width: nat, height: nat,
                                       target: Color, fill: Color, path: seq<Point>)
    requires |orig| == width * height * 4 && |cur| == |orig|
    requires IsPath(orig, width, height, target, path)
    requires Painted(orig, cur, width, height, target, fill, path[0])
    requires forall p, q ::
               InBounds(width, height, p) && InBounds(width, height, q) && Adjacent(p, q) &&
               Painted(orig, cur, width, height, target, fill, p) &&
               ColorAt(orig, width, height, q) == target
               ==> ColorAt(cur, width, height, q) == fill
    ensures Painted(orig, cur, width, height, target, fill, path[|path| - 1])
  {
    if |path| > 1 {
      var prefix := path[..|path| - 1];
      assert IsPath(orig, width, height, target, prefix);
      PathPainted(orig, cur, width, height, target, fill, prefix);
      assert Adjacent(path[|path| - 2], path[|path| - 1]);
    }
  }

  /** `after` is `before` with pixel c recoloured to `fill` and every other pixel as it was. */
  ghost predicate PaintedOnly(before: seq<Byte>, after: seq<Byte>, width: nat, height: nat, c: Point, fill: Color)
    requires |before| == width * height * 4 && |after| == |before|
  {
    forall q :: InBounds(width, height, q) ==>
      ColorAt(after, width, height, q) == if q == c then fill else ColorAt(before, width, height, q)
  }

  /** Painting pixel c with `fill` changes the colour of c and of no other pixel. */
  lemma PaintEffect(before: seq<Byte>, after: seq<Byte>, width: nat, height: nat, c: Point, fill: Color)
    requires |before| == width * height * 4 && InBounds(width, height, c)
    requires WrittenAt(before, after, PixelOffset(c.x, c.y, width), fill)
    ensures |after| == |before| && PaintedOnly(before, after, width, height, c, fill)
  {
    forall q | InBounds(width, height, q)
      ensures ColorAt(after, width, height, q) == if q == c then fill else ColorAt(before, width, height, q)
    {
      OffsetInRange(width, height, q);
      if q == c {
        GetAfterSet(before, after, c.x, c.y, width, fill);
      } else {
        IndexInjective(width, height, q, c);
        GetAwayFromSet(before, after, q.x, q.y, width, PixelOffset(c.x, c.y, width), fill);
      }
    }
  }

  /**
   * The stack after visiting c: its in-bounds left, right, up and down
   * neighbours pushed, in that order.
   */
  function PushNeighbours(stack: seq<Point>, width: nat, height: nat, c: Point): seq<Point>
  {
    var s1 := if c.x > 0 then stack + [Point(c.x - 1, c.y)] else stack;
    var s2 := if c.x < width - 1 then s1 + [Point(c.x + 1, c.y)] else s1;
    var s3 := if c.y > 0 then s2 + [Point(c.x, c.y - 1)] else s2;
    if c.y < height - 1 then s3 + [Point(c.x, c.y + 1)] else s3
  }

  /**
   * The pushes stay on the grid and miss no neighbour: what is added to the
   * stack is exactly the in-bounds 4-neighbours of c.
   */
  lemma PushNeighboursExact(stack: seq<Point>, width: nat, height: nat, c: Point, q: Point)
    requires InBounds(width, height, c)
    ensures q in PushNeighbours(stack, width, height, c)
        <==> q in stack || (InBounds(width, height, q) && Adjacent(c, q))
    ensures stack <= PushNeighbours(stack, width, height, c)
    ensures |PushNeighbours(stack, width, height, c)| <= |stack| + 4
  {
  }

  // The four parts of the loop invariant of FloodFill. `orig` is the buffer
  // before the fill, `cur` the buffer now, `stack` the pixels still to visit.

  /** Every stack entry is on the grid, and a `target`-coloured one is in the region. */
  ghost predicate StackInRegion(orig: seq<Byte>, width: nat, height: nat, target: Color, seed: Point, stack: seq<Point>)
    requires |orig| == width * height * 4
  {
    forall e :: e in stack ==>
      InBounds(width, height, e) &&
      (ColorAt(orig, width, height, e) == target ==> InRegion(orig, width, height, target, seed, e))
  }

  /** Only region pixels have changed, and those from `target` to `fill`. */
  ghost predicate OnlyRegionPainted(orig: seq<Byte>, cur: seq<Byte>, width: nat, height: nat,
                                    target: Color, seed: Point, fill: Color)
    requires |orig| == width * height * 4 && |cur| == |orig|
  {
    forall p :: InBounds(width, height, p) ==>
      || ColorAt(cur, width, height, p) == ColorAt(orig, width, height, p)
      || (Painted(orig, cur, width, height, target, fill, p) && InRegion(orig, width, height, target, seed, p))
  }

  /** A `target`-coloured seed is painted or still to be visited. */
  ghost predicate SeedPending(orig: seq<Byte>, cur: seq<Byte>, width: nat, height: nat,
                              target: Color, seed: Point, fill: Color, stack: seq<Point>)
    requires |orig| == width * height * 4 && |cur| == |orig| && InBounds(width, height, seed)
  {
    ColorAt(orig, width, height, seed) == target ==>
      Painted(orig, cur, width, height, target, fill, seed) || seed in stack
  }

  /** Every `target`-coloured neighbour of a painted pixel is painted or still to be visited. */
  ghost predicate FrontierOnStack(orig: seq<Byte>, cur: seq<Byte>, width: nat, height: nat,
                                  target: Color, fill: Color, stack: seq<Point>)
    requires |orig| == width * height * 4 && |cur| == |orig|
  {
    forall p, q ::
      InBounds(width, height, p) && InBounds(width, height, q) && Adjacent(p, q) &&
      Painted(orig, cur, width, height, target, fill, p) &&
      ColorAt(orig, width, height, q) == target
      ==> Painted(orig, cur, width, height, target, fill, q) || q in stack
  }

  ghost predicate FillInvariant(orig: seq<Byte>, cur: seq<Byte>, width: nat, height: nat,
                                target: Color, seed: Point, fill: Color, stack: seq<Point>)
    requires |orig| == width * height * 4 && |cur| == |orig| && InBounds(width, height, seed)
  {
    && StackInRegion(orig, width, height, target, seed, stack)
    && OnlyRegionPainted(orig, cur, width, height, target, seed, fill)
    && SeedPending(orig, cur, width, height, target, seed, fill, stack)
    && FrontierOnStack(orig, cur, width, height, target, fill, stack)
  }

  /** The invariant holds before the first iteration. */
  lemma FillInvariantInit(orig: seq<Byte>, width: nat, height: nat, target: Color, seed: Point, fill: Color)
    requires |orig| == width * height * 4 && InBounds(width, height, seed)
    requires target != fill
    ensures FillInvariant(orig, orig, width, height, target, seed, fill, [seed])
  {
    if ColorAt(orig, width, height, seed) == target {
      SeedInRegion(orig, width, height, target, seed);
    }
  }

  /** Popping a pixel that no longer has colour `target` keeps the invariant. */
  lemma SkipKeepsInvariant(orig: seq<Byte>, cur: seq<Byte>, width: nat, height: nat,
                           target: Color, seed: Point, fill: Color, stack: seq<Point>, c: Point)
    requires |orig| == width * height * 4 && |cur| == |orig| && InBounds(width, height, seed)
    requires target != fill
    requires FillInvariant(orig, cur, width, height, target, seed, fill, stack + [c])
    requires InBounds(width, height, c) && ColorAt(cur, width, height, c) != target
    ensures FillInvariant(orig, cur, width, height, target, seed, fill, stack)
  {
    assert forall e :: e in stack ==> e in stack + [c];
    // c is either painted already or was never `target`-coloured
    assert ColorAt(orig, width, height, c) == target ==> Painted(orig, cur, width, height, target, fill, c);
  }

  /** Painting a popped `target`-coloured pixel and pushing its neighbours keeps the invariant. */
  lemma PaintKeepsInvariant(orig: seq<Byte>, before: seq<Byte>, after: seq<Byte>, width: nat, height: nat,
                            target: Color, seed: Point, fill: Color, stack: seq<Point>, c: Point)
    requires |orig| == width * height * 4 && |before| == |orig| && |after| == |orig|
    requires InBounds(width, height, seed) && InBounds(width, height, c)
    requires target != fill
    requires FillInvariant(orig, before, width, height, target, seed, fill, stack + [c])
    requires ColorAt(before, width, height, c) == target
    requires PaintedOnly(before, after, width, height, c, fill)
    ensures FillInvariant(orig, after, width, height, target, seed, fill, PushNeighbours(stack, width, height, c))
  {
    var pushed := PushNeighbours(stack, width, height, c);
    assert c in stack + [c];
    assert ColorAt(orig, width, height, c) == target;
    assert InRegion(orig, width, height, target, seed, c);
    forall e | e in pushed
      ensures InBounds(width, height, e) &&
              (ColorAt(orig, width, height, e) == target ==> InRegion(orig, width, height, target, seed, e))
    {
      PushNeighboursExact(stack, width, height, c, e);
      if e !in stack {
        assert e !in stack + [c] || e == c;
        if ColorAt(orig, width, height, e) == target {
          RegionStep(orig, width, height, target, seed, c, e);
        }
      }
    }
    PaintKeepsFrontier(orig, before, after, width, height, target, seed, fill, stack, c);
  }

  lemma PaintKeepsFrontier(orig: seq<Byte>, before: seq<Byte>, after: seq<Byte>, width: nat, height: nat,
                           target: Color, seed: Point, fill: Color, stack: seq<Point>, c: Point)
    requires |orig| == width * height * 4 && |before| == |orig| && |after| == |orig|
    requires InBounds(width, height, seed) && InBounds(width, height, c)
    requires target != fill
    requires OnlyRegionPainted(orig, before, width, height, target, seed, fill)
    requires FrontierOnStack(orig, before, width, height, target, fill, stack + [c])
    requires ColorAt(before, width, height, c) == target
    requires PaintedOnly(before, after, width, height, c, fill)
    ensures FrontierOnStack(orig, after, width, height, target, fill, PushNeighbours(stack, width, height, c))
  {
    var pushed := PushNeighbours(stack, width, height, c);
    forall p, q |
      InBounds(width, height, p) && InBounds(width, height, q) && Adjacent(p, q) &&
      Painted(orig, after, width, height, target, fill, p) &&
      ColorAt(orig, width, height, q) == target
      ensures Painted(orig, after, width, height, target, fill, q) || q in pushed
    {
      PushNeighboursExact(stack, width, height, c, q);
      if p == c {
      } else if q != c {
        assert Painted(orig, before, width, height, target, fill, p);
        assert q in stack + [c] || Painted(orig, before, width, height, target, fill, q);
      } else {
        assert ColorAt(orig, width, height, c) == target;
      }
    }
  }

  /**
   * `floodFill`: pop a pixel; if it still has colour `target`, paint it and
   * push its in-bounds left, right, up and down neighbours. The result is
   * the original buffer with exactly the seed's 4-connected component of
   * `target`-coloured pixels recoloured to `fill`.
   */
  method FloodFill(data: array<Byte>, width: nat, height: nat, x: int, y: int, target: Color, fill: Color)
    requires data.Length == width * height * 4
    requires InBounds(width, height, Point(x, y))
    requires target != fill
    modifies data
    ensures data[..] == Recolored(old(data[..]), width, height, target, Point(x, y), fill)
  {
    ghost var orig := data[..];
    ghost var seed := Point(x, y);
    var stack := [Point(x, y)];
    FillInvariantInit(orig, width, height, target, seed, fill);
    while |stack| > 0
      invariant FillInvariant(orig, data[..], width, height, target, seed, fill, stack)
      decreases CountMatching(data[..], target, width * height), |stack|
    {
      ghost var visiting := stack;
      var c := stack[|stack| - 1];
      stack := stack[..|stack| - 1];
      assert visiting == stack + [c];
      OffsetInRange(width, height, c);
      var pixelPos := (c.y * width + c.x) * 4;
      var currentColor := [data[pixelPos], data[pixelPos + 1], data[pixelPos + 2], data[pixelPos + 3]];
      assert currentColor == ColorAt(data[..], width, height, c);

      if ColorsMatch(currentColor, target) {
        ghost var before := data[..];
        ghost var popped := stack;
        SetPixelColor(data, pixelPos, fill);

        if c.x > 0 { stack := stack + [Point(c.x - 1, c.y)]; }
        ghost var s1 := stack;
        if c.x < width - 1 { stack := stack + [Point(c.x + 1, c.y)]; }
        ghost var s2 := stack;
        if c.y > 0 { stack := stack + [Point(c.x, c.y - 1)]; }
        ghost var s3 := stack;
        if c.y < height - 1 { stack := stack + [Point(c.x, c.y + 1)]; }
        assert stack == PushNeighbours(popped, width, height, c) by {
          assert s1 == if c.x > 0 then popped + [Point(c.x - 1, c.y)] else popped;
          assert s2 == if c.x < width - 1 then s1 + [Point(c.x + 1, c.y)] else s1;
          assert s3 == if c.y > 0 then s2 + [Point(c.x, c.y - 1)] else s2;
          assert stack == if c.y < height - 1 then s3 + [Point(c.x, c.y + 1)] else s3;
        }

        assert FillInvariant(orig, data[..], width, height, target, seed, fill, stack) by {
          PaintEffect(before, data[..], width, height, c, fill);
          PaintKeepsInvariant(orig, before, data[..], width, height, target, seed, fill, popped, c);
        }
        assert CountMatching(data[..], target, width * height) < CountMatching(before, target, width * height) by {
          CountAfterSet(before, data[..], width, height, c, target, fill);
        }
      } else {
        SkipKeepsInvariant(orig, data[..], width, height, target, seed, fill, stack, c);
      }
    }
    FillDone(orig, data[..], width, height, target, seed, fill);
  }

  /** With nothing left to visit, the buffer is the recoloured one. */
  lemma FillDone(orig: seq<Byte>, cur: seq<Byte>, width: nat, height: nat, target: Color, seed: Point, fill: Color)
    requires |orig| == width * height * 4 && |cur| == |orig| && InBounds(width, height, seed)
    requires target != fill
    requires FillInvariant(orig, cur, width, height, target, seed, fill, [])
    ensures cur == Recolored(orig, width, height, target, seed, fill)
  {
    var r := Recolored(orig, width, height, target, seed, fill);
    forall p | InBounds(width, height, p)
      ensures ColorAt(cur, width, height, p) == ColorAt(r, width, height, p)
    {
      RecoloredAt(orig, width, height, target, seed, fill, p);
      if InRegion(orig, width, height, target, seed, p) {
        var path :| IsPath(orig, width, height, target, path) && path[0] == seed && path[|path| - 1] == p;
        PathPainted(orig, cur, width, height, target, fill, path);
      }
    }
    PixelsDetermineBuffer(cur, r, width, height);
  }

  /**
   * What a bucket click at `seed` must leave in the buffer: nothing changes
   * when the seed already has colour `fill`; otherwise the seed's component
   * is recoloured.
   */
  ghost function BucketResult(s: seq<Byte>, width: nat, height: nat, seed: Point, fill: Color): (r: seq<Byte>)
    requires |s| == width * height * 4 && InBounds(width, height, seed)
    ensures |r| == |s|
  {
    var target := ColorAt(s, width, height, seed);
    if target == fill then s else Recolored(s, width, height, target, seed, fill)
  }

  /**
   * `bucketFill`: read the colour under the seed and flood-fill only when it
   * differs from `fill`. The canvas's image data is the array `data`; its
   * dimensions are parameters.
   */
  method BucketFill(data: array<Byte>, width: nat, height: nat, x: int, y: int, fill: Color)
    requires data.Length == width * height * 4
    requires InBounds(width, height, Point(x, y))
    modifies data
    ensures data[..] == BucketResult(old(data[..]), width, height, Point(x, y), fill)
    ensures ColorAt(old(data[..]), width, height, Point(x, y)) == fill ==> data[..] == old(data[..])
  {
    OffsetInRange(width, height, Point(x, y));
    var targetColor := GetPixelColor(x, y, width, data[..]);
    if !ColorsMatch(targetColor, fill) {
      FloodFill(data, width, height, x, y, targetColor, fill);
    }
  }

  /** After a fill the seed carries the fill colour. */
  lemma SeedFilled(s: seq<Byte>, width: nat, height: nat, seed: Point, fill: Color)
    requires |s| == width * height * 4 && InBounds(width, height, seed)
    ensures ColorAt(BucketResult(s, width, height, seed, fill), width, height, seed) == fill
  {
    var target := ColorAt(s, width, height, seed);
    if target != fill {
      SeedInRegion(s, width, height, target, seed);
      RecoloredAt(s, width, height, target, seed, fill, seed);
    }
  }

  /** Clicking the same pixel twice with the same colour changes nothing the second time. */
  lemma BucketFillIdempotent(s: seq<Byte>, width: nat, height: nat, seed: Point, fill: Color)
    requires |s| == width * height * 4 && InBounds(width, height, seed)
    ensures BucketResult(BucketResult(s, width, height, seed, fill), width, height, seed, fill)
         == BucketResult(s, width, height, seed, fill)
  {
    SeedFilled(s, width, height, seed, fill);
  }
}
