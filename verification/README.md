# ASCII frame renderer — a Dafny model

This project models the integer core of a small Go program that turns still
images into ASCII-art frames. For each image it:

- walks the image in a row-major grid of `scaleX` × `scaleY` cells from (0, 0)
  (`processFrame`);
- averages the grayscale values of each cell, clipped to the image's bounds,
  with truncating integer division (`avgPixel`);
- maps the average onto the ten-character ramp `" .:-=+*#%@"` (`brightnessToASCII`);
- ends every row of cells with a newline.

The model is split into four modules:

- `GoInt` (`goint.dfy`) holds Go's truncating `/` (`Quo`). It also counts the
  iterations of the renderer's stepping loops (`Steps`); the `StepsSpec` row
  states what that count means, and the ceil(H/scaleY) and ceil(W/scaleX)
  below are `Steps` values.
- `Ascii` (`ascii.dfy`) holds the ramp, the clamp, the scaled index and the
  character mapping. `Clamp` and `RampIndex` have no rows of their own: the
  `ClampLow`, `ClampHigh`, `DefensiveClampIsNoop` and `RampIndexBand` rows
  state what they compute.
- `Sampler` (`sampler.dfy`) holds the image and the cell-averaging loops. An
  image is a grid `gray[y][x]` of grayscale values, already converted. Its
  origin is (0, 0) and its `Max` corner is (width, height). `Column`,
  `CellPixels`, `Cell` and `Sum` define the pixels a cell covers and their
  total. `SumColumn`, `SumCell` and `AvgPixel` mirror the source's nested
  loops and are proved to compute that total and count.
- `Renderer` (`renderer.dfy`) holds the frame. `Frame` defines the frame as its
  lines laid end to end. `RenderLine` and `ProcessFrame` mirror the source's
  loops and are proved to build `Frame`. The shape lemmas describe the frame
  character by character.

The source's package variables `scaleX` and `scaleY` become parameters that
must be at least 1. Grayscale values are assumed to be integers in [0, 255],
because that is the range of the source's grayscale conversion (`Image.Valid`).

## Model

| member | source | states |
|---|---|---|
| `Ascii.BrightnessToAscii` | src/main.go:55-73 | every brightness, however far outside [0, 255], is drawn as one of the ten ramp characters |
| `Ascii.RampDistinct` | src/main.go:57 | the ramp has ten pairwise distinct characters, so a drawn character identifies its ramp index |
| `Ascii.ClampLow` | src/main.go:59-60 | every negative brightness draws the same character as 0, a space |
| `Ascii.ClampHigh` | src/main.go:61-62 | every brightness above 255 draws the same character as 255, an `@` |
| `Ascii.DefensiveClampIsNoop` | src/main.go:65-71 | after the clamp to [0, 255] the scaled index `b*9/255` already lies in [0, 9], so the defensive re-clamp never changes it |
| `Ascii.RampIndexBand` | src/main.go:65 | index k (and so ramp character k) is chosen exactly for the clamped brightnesses b with 255k <= 9b < 255(k+1); this holds in both directions |
| `Ascii.RampEndpoints` | src/main.go:57-72 | a space is drawn exactly for brightness <= 28, and `@` exactly for brightness >= 255 |
| `Ascii.Monotone` | src/main.go:65 | a brighter input never selects a lower ramp index |
| `GoInt.Quo` | src/main.go:52 | Go's `/`: the remainder `a - q*b` has the dividend's sign and is smaller than the divisor in magnitude |
| `GoInt.StepsSpec` | src/main.go:78-79 | the k-th pass of `for v := 0; v < bound; v += step` (v = k*step) happens exactly when k < Steps(bound, step) |
| `Sampler.SumColumn` | src/main.go:47-50 | the inner loop adds up one column of the clipped cell and counts its pixels |
| `Sampler.SumCell` | src/main.go:44-51 | for a cell starting at x, y >= 0, the nested loops produce the sum and the number of the pixels in the cell clipped to the image's `Max` bounds; this holds for every such cell, empty ones included |
| `Sampler.AvgPixel` | src/main.go:43-53 | for a non-empty cell, the result is the cell's sum divided by its pixel count with truncating division |
| `Sampler.CellCount` | src/main.go:44-52 | for a cell starting at x, y >= 0, the pixel count is (min(x+w,W)-x) * (min(y+h,H)-y) inside the image; it is positive exactly when x < W, y < H and w, h >= 1, so among such cells every other one divides by zero |
| `Sampler.AverageBounds` | src/main.go:46-52 | if every pixel lies in [lo, hi], the cell's average lies in [lo, hi] |
| `Sampler.UniformCell` | src/main.go:46-52 | a cell whose pixels all have value v averages to exactly v |
| `Sampler.SinglePixel` | src/main.go:43-53 | a 1 × 1 cell averages to its own pixel's value |
| `Renderer.RenderLine` | src/main.go:79-83 | the inner loop draws one line of cells, left to right; every sampler call on it has a non-empty cell |
| `Renderer.ProcessFrame` | src/main.go:75-85 | the loops build the whole frame: ceil(H/scaleY) lines, each followed by a newline, of total length lines × (width + 1) |
| `Renderer.VisitedCellsNonEmpty` | src/main.go:78-80 | every cell the renderer visits has a positive pixel count, so `avgPixel` never divides by zero when called from here |
| `Renderer.FrameLength` | src/main.go:78-85 | a frame has ceil(H/scaleY) × (ceil(W/scaleX) + 1) characters |
| `Renderer.FrameCharAt` | src/main.go:78-85 | column col of line row of the frame is the glyph of the cell at (col*scaleX, row*scaleY), or the newline when col is the line width |
| `Renderer.FrameAlphabet` | src/main.go:78-85 | every frame character is a ramp character or a newline, and it is a newline exactly at the end of a line |
| `Renderer.UnitScale` | src/main.go:78-85 | at scale 1 × 1 the frame has H lines of W characters plus a newline |
| `Renderer.UnitScaleGlyph` | src/main.go:78-83 | at scale 1 × 1 each character is the one drawn for its own pixel's value |
| `Renderer.UniformFrame` | src/main.go:78-83 | an image of one value v draws the character for v in every cell |

Rendering is a pure function of the image and the two scale factors, so the
same image always renders to the same frame (`ProcessFrame` returns `Frame`).

## Left out

- `grayscale` (src/main.go:38-41) uses float64 weights and truncation. It is
  replaced by grayscale values given directly as integers in [0, 255].
- `loadImage` (src/main.go:25-36) opens and decodes a file. That is file I/O
  in the image library, which is not part of this model.
- `main` (src/main.go:89-128) lists a directory, skips files that fail to
  load, starts one goroutine per frame with a `time.Sleep` between launches,
  and prints frames from an unbuffered channel. Frames print in completion
  order. All of this is I/O, timing and concurrency.
- The channel send in `processFrame` (src/main.go:86) is left out:
  `ProcessFrame` returns the string instead.
- Images with a non-zero `Bounds().Min` are not modelled. The source assumes
  an origin at (0, 0).
- Sampler.AvgPixel: requires x >= 0 and y >= 0. For a negative x or y the
  source would read pixels outside the image through the image library's
  `At`, which this model cannot see. Its only caller never passes one. Given
  x, y >= 0, the rest of the precondition is exactly "the pixel count is not
  zero" (`CellCount`), without which Go's `/` panics.
- Go's `int` is 64 bits wide. The model uses unbounded integers, so an
  overflow of `x+w`, of `brightness*9` or of a cell sum is not modelled. None
  is reachable for image sizes that fit in memory.
- `string(byte)` in Go makes a one-character string. The model appends the
  character itself, which is the same for the ASCII ramp.
- Sampler.CellCount: the pixel count is stated only for cells that start at
  x, y >= 0, the only ones the renderer produces. For a negative start the
  source's loops also visit the columns or rows before the image's origin
  (x = -1, w = 2 visits x = -1 and x = 0), reading them through the image
  library's `At`; this model has no pixels there.
