# Bucket fill of the drawing canvas, in Dafny

This project models the bucket tool of a browser drawing page (`script.js`).
A click picks a pixel. The tool reads that pixel's RGBA colour, the
*target*. If the target differs from the fill colour, the tool recolours
every pixel reachable from that pixel by left/right/up/down steps through
pixels of the target colour. The canvas's image data is a flat, row-major
array: four bytes per pixel, with pixel (x, y) starting at byte
`(y * width + x) * 4`.

The model has three modules:

- `Pixels` (`pixels.dfy`): the byte and colour types, `colorsMatch`,
  `getPixelColor` and `setPixelColor`. The buffer is an `array<Byte>`.
  `SetPixelColor` updates it in place and says exactly which four bytes
  change.
- `Grid` (`grid.dfy`): points, bounds and 4-adjacency. It also holds the
  specification of a fill. `InRegion` says a pixel is joined to the seed
  by a path of target-coloured, in-bounds, 4-adjacent pixels. `Recolored`
  is the buffer a fill must produce. `CountMatching` counts the pixels of
  one colour, which is the measure that makes the fill terminate.
- `FloodFill` (`flood_fill.dfy`): the `floodFill` loop and `bucketFill`, as
  methods on the array.
  - The fill's stack is a local `seq<Point>`. It pops from the end and
    pushes the left, right, up and down neighbours in the source's order.
  - A pixel is tested against the target when it is popped, not when it
    is pushed, as in the source.
  - The loop invariant is built from four named predicates:
    `StackInRegion`, `OnlyRegionPainted`, `SeedPending` and
    `FrontierOnStack`.
  - The method is proved to end with `data[..] == Recolored(old(data[..]), …)`.
    So the buffer is the original with exactly the seed's 4-connected
    target-coloured component set to the fill colour.

What the host supplies becomes a parameter. The canvas's width and height
are passed in, including the width that `getPixelColor` reads from the
canvas. The image data handed out by `getImageData` is the `data` array.

`floodFill` has no guard of its own. `bucketFill` compares the seed's
colour with the fill colour (script.js:92) and calls `floodFill` only when
they differ. So `FloodFill` requires `target != fill`, and `BucketFill`
checks it before the call. Without that guard, `floodFill` would loop
forever whenever the seed and one of its in-bounds 4-neighbours both have
the target colour: each repaints the other with the same colour and pushes
it back.

## Model

| member | source | states |
|---|---|---|
| `Pixels.ColorsMatch` | script.js:123-130 | true exactly when the two colours are equal, so the test is reflexive and symmetric |
| `Pixels.GetPixelColor` | script.js:139-142 | the colour of (x, y) is the four bytes starting at `(y*width + x)*4` |
| `Pixels.SetPixelColor` | script.js:132-137 | bytes `index..index+3` become the four channels of the fill colour and every other byte keeps its value |
| `Pixels.GetAfterSet` | script.js:132-142 | reading a pixel right after writing it returns the colour written |
| `Pixels.GetAwayFromSet` | script.js:132-142 | writing one pixel leaves the colour of a pixel whose bytes do not overlap it unchanged |
| `Grid.OffsetInRange` | script.js:103-110 | the four bytes of an in-bounds pixel lie inside a buffer of `width*height*4` bytes |
| `Grid.IndexInjective` | script.js:103 | two different in-bounds pixels have different row-major positions, so their bytes are disjoint |
| `Grid.IndexOfPoint` | script.js:103 | every pixel number i below `width*height` is the row-major number of the in-bounds pixel `PointOf(width, i)` (that this pixel is the only one is `Grid.IndexInjective`) |
| `Grid.PixelsDetermineBuffer` | script.js:103-110 | two buffers of the same grid that agree on every pixel's colour are equal byte for byte |
| `Grid.SeedInRegion` | script.js:99 | a target-coloured seed belongs to its own region |
| `Grid.RegionHasTarget` | script.js:112 | every pixel of the region is in bounds and has the target colour |
| `Grid.RegionStep` | script.js:115-118 | an in-bounds, target-coloured 4-neighbour of a region pixel is in the region |
| `Grid.RecoloredAt` | script.js:98-121 | in the specified result a pixel has the fill colour exactly when it is in the region, and keeps its old colour otherwise |
| `Grid.RecoloredKeepsOthers` | script.js:112-113 | a pixel whose original colour is not the target keeps it |
| `Grid.CountAfterWrite` | script.js:112-113 | recolouring one target pixel and nothing else lowers the count of target pixels by one |
| `Grid.CountAfterSet` | script.js:112-113 | one `setPixelColor` over a target pixel, with a different fill colour, lowers the count of target pixels in the grid by one, which is the loop's termination measure |
| `FloodFill.PaintEffect` | script.js:113 | painting a pixel changes that pixel's colour to the fill colour and no other pixel's colour |
| `FloodFill.PushNeighboursExact` | script.js:115-118 | the pushes add exactly the in-bounds 4-neighbours of the visited pixel, keep the stack as a prefix, and add at most four entries |
| `FloodFill.FillInvariantInit` | script.js:99 | the stack holding only the seed, over the untouched buffer, satisfies the loop invariant |
| `FloodFill.SkipKeepsInvariant` | script.js:102-112 | popping a pixel that no longer has the target colour keeps the invariant |
| `FloodFill.PaintKeepsInvariant` | script.js:112-118 | painting a popped target pixel and pushing its neighbours keeps the invariant |
| `FloodFill.PaintKeepsFrontier` | script.js:115-118 | after that step, every target-coloured neighbour of a painted pixel is painted or on the stack |
| `FloodFill.PathPainted` | script.js:115-118 | when no painted pixel has an unvisited target neighbour, every pixel on a target path from a painted pixel is painted |
| `FloodFill.FillDone` | script.js:101-121 | with an empty stack, the invariant forces the buffer to equal the specified recoloured buffer |
| `FloodFill.FloodFill` | script.js:98-121 | terminates when target differs from fill, accesses only in-bounds bytes, and leaves the original buffer with exactly the seed's 4-connected target component recoloured |
| `FloodFill.BucketFill` | script.js:87-96 | reads the seed's colour and fills only when it differs from the fill colour; when they are equal the buffer is unchanged |
| `FloodFill.SeedFilled` | script.js:90-95 | after a bucket fill the seed pixel has the fill colour |
| `FloodFill.BucketFillIdempotent` | script.js:90-95 | applying the same bucket fill twice gives the same buffer as applying it once |

## Left out

- Event listeners, tool buttons and the `isDrawing`/`currentTool` state (script.js:1-59, 145-228) are UI wiring and not modelled. The caller floors the mouse coordinates (script.js:154-155). The model takes the seed as integers.
- Freehand, rectangle, circle and star drawing (script.js:62-84, 169-227) are not modelled. They are floating-point geometry passed straight to the canvas API.
- `ctx.getImageData` and `ctx.putImageData` (script.js:88, 94) are canvas I/O. The image data is the `data` array, and its width and height are parameters.
- `hexToRGBA` (called at script.js:156) is not part of this model because its definition is not in the file. The fill colour is therefore a parameter of four bytes.
- The spin wheel (`drawWheel`, `spinWheel`, `animateSpin`, script.js:230-340) is not modelled. It uses `Math.random`, floating-point angles and animation frames.
- FloodFill and BucketFill require the seed to lie on the canvas. The source does not check this, and the model does not capture what it then does. A seed with x = -1 or x = width wraps into the previous or the next row. A seed below the last row (y >= height, 0 <= x < width, width >= 2) does not terminate. `getPixelColor` returns four `undefined` channels (script.js:140-141). `colorsMatch` against the fill colour is false (script.js:92), so `floodFill` runs with an all-`undefined` target. Every off-canvas pixel then matches it (script.js:125-128). The writes of `setPixelColor` fall outside the typed array and are dropped (script.js:133-136), so (x, y) and (x+1, y) push each other back forever (script.js:115-116). This follows from reading the code, not from running it. It can happen whenever the mouse offsets (script.js:154-155) go past the canvas's pixel size.
- SetPixelColor requires its four bytes to lie inside the buffer. A typed array silently drops out-of-range writes, but the fill only writes in-bounds pixels.
- FloodFill requires `target != fill`. Without it the source loops forever when the seed and one of its in-bounds 4-neighbours both have the target colour. Its only caller guarantees it.
- The canvas buffer clamps stored values to 0..255. The model's colours are already bytes, so a fill colour outside that range is not modelled.
- No out-of-bounds error and no changed/unchanged result are modelled. The code has neither.
