# image_processing in Dafny

This project models the core of `image_processing`, a Rust program that
draws colour-blindness test plates. The core has four parts:

- **The circle-packing engine** (`src/ishihara_generator.rs`). A coarse
  grid of distance cells (`CircleGrid`) covers the canvas, next to a set of
  cells still open for sampling. `generate_circles` repeatedly picks a point
  in an open cell and draws a radius no larger than the room recorded
  there. It then floods the new circle's influence through the grid with a
  worklist and a visited set. The flood tightens the cell distances and
  takes crowded cells out of the open set.
- **The float image** (`src/float_image.rs`). `FImage` is a flat buffer of
  `f32` samples with 3 or 4 channels per pixel. Coordinates wrap around the
  canvas (torus addressing). `clip` and `normalize` rescale the colour
  samples and leave alpha alone.
- **The circle rasteriser** (`src/circle_drawer.rs`). `draw_circle` draws
  an antialiased outline by octant mirroring. `fill_circle` draws an
  antialiased disc behind an optional clipping guard.
- **The filter kernel** (`src/image_filter/filter_matrix.rs`).
  `FilterMatrix` holds an odd N×N matrix flattened row by row.

## How the model is built

- **Modules.** Each Rust file has one module:
  - `FloatImage`, `CircleDrawer`, `IshiharaGenerator` and `Filters`;
  - `Outcomes` holds `Option` and `Result`, and a `Panic` reason for each
    way the Rust code aborts;
  - `Roots` holds the square-root parameter.
- **Objects updated in place are classes.**
  - `FImage` is a class over an `array<real>`.
  - `CircleGrid` is a class over an `array<Value>`.
  - The rasteriser's `Target` wraps an `FImage` and keeps a ghost trace of
    every write it issues.
- **Loops are methods.** Every Rust loop becomes a method with loop
  invariants. The rasteriser's loops and those of `FImage` are proved
  against a function that gives their writes or their new state. The main
  loop of `generate_circles` is proved against `Rounds`, a record of every
  round: the draw it used, the cell it sampled, and the grid before and
  after it.
- **Numbers.** `f32` values are modelled as `real` and integers as
  `int`/`nat`.
- **Square roots.** `sqrt` is a parameter `sqrt: nat -> real`. It must obey
  `RootLaw`: comparing `sqrt(n)` with a natural `k` agrees with comparing
  `n` with `k*k`. This holds for the real square root, and `HalfStepRoot`
  shows the law can be met.
- **Randomness.**
  - `rand::random` in `generate_circles` becomes a parameter
    `draws: nat -> Draw`, which gives the two offsets in `[0, 1)` and the
    raw radius draw of each circle.
  - The `HashSet` element `pick_point` takes is "some element of the set"
    (`:|`).
- **Unreached cells.** A grid cell is `Unset | Dist(d)` instead of the
  `-1.0` sentinel (see Findings).
- **Panics.**
  - Modelled as `Err` results:
    - the `usize` underflow and the modulo by zero when drawing a radius;
    - `FilterMatrix::new` on an even N.
  - Modelled as preconditions:
    - a pixel of the wrong format;
    - a slice index out of bounds;
    - a grid size of 0;
    - an image that cannot be addressed: `FImage.Addressable` requires
      `0 < width <= i32::MAX` and `0 < height <= i32::MAX`. The `%` of
      `src/float_image.rs` lines 31-32 and 46-47 panics on a zero side, and
      the `as i32` cast there needs each side to fit.

Behaviour of the code worth noting:

- The radius is drawn as the code does it. A ceiling at or below
  `min_radius` panics; nothing rejects the point and samples again.
  `PlaceCircle` proves this panic happens exactly when
  `max_radius <= min_radius`.
- The propagation worklist is a stack. It pops from the end, so it is a
  depth-first flood, not a breadth-first one.
- The cell size is `min_radius / 2`, with no lower bound of 1.
  `min_radius >= 2` is required.
- A cell is evicted by the distance of the visit itself, not by the cell's
  updated value. The two agree: an updated value below the threshold comes
  from a visit below it, or the cell was evicted before.

## Model

| member | source | states |
|---|---|---|
| FloatImage.Samples | src/float_image.rs:7-10 | A pixel's samples: r, g, b, plus a for RGBA. That is 3 or 4 channels, matching the variant. |
| FloatImage.TruncRem | src/float_image.rs:31-32 | The `%` of `i32` truncates toward zero. The remainder lies strictly between `-n` and `n` and has the dividend's sign. |
| FloatImage.Wrap | src/float_image.rs:31-32 | A wrapped coordinate lies in `[0, n)` for every input, negative ones included. |
| FloatImage.WrapIsResidue | src/float_image.rs:31-32 | The wrap-around is the Euclidean residue `v % n`. |
| FloatImage.WrapPeriodic | src/float_image.rs:31-32 | Shifting a coordinate by any multiple of `n` leaves its wrapped value unchanged. |
| FloatImage.WrapOnCanvas | src/float_image.rs:31-32 | A coordinate already on the canvas wraps to itself. |
| FloatImage.Slot | src/float_image.rs:34 | The pixel index `mod_x + mod_y * width` is below `width * height`. |
| FloatImage.Offset | src/float_image.rs:34 | For any coordinates, the sample offset plus the channel count stays within the buffer. |
| FloatImage.SlotPeriodic | src/float_image.rs:31-34 | `(x + k*width, y + m*height)` addresses the same pixel as `(x, y)`. |
| FloatImage.SlotInjective | src/float_image.rs:34 | Two on-canvas pixels with the same index are the same pixel. |
| FloatImage.SlotNear | src/float_image.rs:31-34 | Two coordinate pairs less than a width apart in x and a height apart in y that address the same pixel are the same pair. |
| FloatImage.ReadAt | src/float_image.rs:36-40 | The pixel read at an offset has the buffer's format, and its samples are the ones stored there. |
| FloatImage.WriteAtEffect | src/float_image.rs:54-67 | A write stores the pixel's samples at the offset and leaves every other sample unchanged. |
| FloatImage.ReadAfterWrite | src/float_image.rs:28-68 | Reading pixel `s1` after writing pixel `s2` gives the new pixel if `s1 == s2`, otherwise the old one. |
| FloatImage.ReadAfterWriteAt | src/float_image.rs:28-68 | The same in wrapped coordinates: a write is seen exactly at the coordinates that name its pixel. |
| FloatImage.Clamp01 | src/float_image.rs:102 | `clamp(0.0, 1.0)` returns a value in `[0, 1]`. It is the identity inside that range and gives the nearer end outside it. |
| FloatImage.Rescale | src/float_image.rs:102 | The rescaled sample lies in `[0, 1]`. For `min < max` it is 0 at `min` and below, 1 at `max` and above, and `(c - min) / (max - min)` in between. |
| FloatImage.Clipped | src/float_image.rs:98-105 | Clipping keeps the length and every alpha sample (`i % 4 == 3` with alpha), and puts every colour sample in `[0, 1]`. |
| FloatImage.ClippedOrder | src/float_image.rs:98-105 | Samples at or below `min` clip to 0 and samples at or above `max` clip to 1. Clipping keeps the order of colour samples. |
| FloatImage.SpreadBounds | src/float_image.rs:82-95 | Unless all colour samples are equal, the least one is strictly below the greatest, so `clip` does not divide by zero. |
| FloatImage.FImage.constructor | src/float_image.rs:21-26 | `new` allocates `width * height * (4 or 3)` samples, all `0.0`, and records the alpha flag. |
| FloatImage.FImage.OffsetOf | src/float_image.rs:29-34 | For any `i32` coordinates, all of a pixel's sample accesses are in bounds. |
| FloatImage.FImage.GetPixel | src/float_image.rs:28-41 | `get_pixel` returns RGBA exactly when the buffer has alpha, with the samples at the wrapped offset. |
| FloatImage.FImage.SetPixel | src/float_image.rs:43-68 | `set_pixel` writes the pixel's samples at the wrapped offset. The pixel then reads back, and every other sample is unchanged. A pixel of the wrong format is ruled out (the Rust code panics). |
| FloatImage.FImage.HasAlphaChannel | src/float_image.rs:70-72 | Returns the buffer's alpha flag. |
| FloatImage.FImage.Clip | src/float_image.rs:98-105 | Afterwards the buffer is `Clipped` of its old contents: colours rescaled and clamped, alpha untouched. |
| FloatImage.FImage.ColourRange | src/float_image.rs:83-91 | The scan finds the least and greatest colour sample, both attained. It returns none exactly for an empty buffer. |
| FloatImage.FImage.Normalize | src/float_image.rs:82-96 | `normalize` clips the buffer to its own least and greatest colour samples, with `lo < hi`. An empty buffer is left alone. |
| CircleDrawer.Target.SetPixel | src/float_image.rs:43-68 | A plain write is recorded and stored in the image. |
| CircleDrawer.Target.SetPixelBlended | src/circle_drawer.rs:18 | A blended write is recorded with its position and colour. Only the pixel at its wrapped offset changes: it becomes what the target's rule `blend` makes of the old pixel and the colour, in the image's format. |
| CircleDrawer.Composite | src/circle_drawer.rs:18 | A blended pixel keeps the image's format (RGBA exactly when the image has alpha). It is the rule's own result whenever that result has the right format. |
| CircleDrawer.PaintSnoc | src/float_image.rs:43-68 | Painting one more write applies it to what was painted so far. |
| CircleDrawer.PaintAppend | src/float_image.rs:43-68 | Painting `p + q` paints `q` over the result of painting `p`. |
| CircleDrawer.LastColourSeen | src/float_image.rs:28-68 | After a sequence of writes, a pixel reads `c` when a plain write of `c` reached it and every later write that reaches that pixel is again a plain write of `c`. A later blended write on the pixel voids the claim. Writes to other pixels never matter. |
| CircleDrawer.MirrorsAreOctants | src/circle_drawer.rs:6-15 | The eight offsets are exactly the points whose coordinate magnitudes are those of `(i, j)` or of `(j, i)`. |
| CircleDrawer.OctantCoords | src/circle_drawer.rs:5-15 | The push loop over `k` in `0..4`, with signs `(-1)^(k%2)` and `(-1)^(k/2)`, builds exactly `Mirrors(i, j)`. |
| CircleDrawer.DrawPoints | src/circle_drawer.rs:3-20 | `draw_points` issues exactly the eight blended writes at `(x, y)` plus each offset, with no guard. The samples become those writes applied in order. |
| CircleDrawer.ComplementOfBits | src/circle_drawer.rs:31 | `!d` on a byte is `255 - d`. |
| CircleDrawer.RingAlphas | src/circle_drawer.rs:38-39 | The two ring alphas `!d/255` and `d/255` lie in `[0, 1]` and sum to 1. |
| CircleDrawer.RingByte | src/circle_drawer.rs:29-30 | The coverage byte is 0 for a column past the radius (the negative radicand gives NaN, which `as u8` makes 0). It is also 0 when the root is a whole number. |
| CircleDrawer.Turn | src/circle_drawer.rs:28-44 | Every write of one turn is an unguarded blended write of `color`'s red, green and blue, with an alpha in `[0, 1]`. |
| CircleDrawer.Scan | src/circle_drawer.rs:27-45 | Every write of the scan loop is an unguarded blended write of `color`'s red, green and blue, with an alpha in `[0, 1]`. |
| CircleDrawer.DrawRing | src/circle_drawer.rs:23-45 | The scan loop issues exactly the writes of `Scan` from `(radius, 0, 0)`, and the samples become those writes applied in order. The loop terminates because `i - j` strictly decreases. |
| CircleDrawer.ScanTurn | src/circle_drawer.rs:28-44 | One turn issues and paints the next writes of `Scan`. It moves to a state where `i - j` is smaller, and the rest of `Scan` starts from that state. |
| CircleDrawer.DrawPair | src/circle_drawer.rs:41-42 | The two `draw_points` calls of a turn, at `(i, j)` and `(i - 1, j)`, recorded and painted in that order. |
| CircleDrawer.SetAxes | src/circle_drawer.rs:48-51 | The four axis writes, in order, recorded and painted. |
| CircleDrawer.SetPair | src/circle_drawer.rs:48-49 | Two plain writes in a row apply one after the other. |
| CircleDrawer.DrawCircle | src/circle_drawer.rs:22-52 | `draw_circle` records the scan writes and then the axis writes, with no guard, and the samples become all of them applied in order. `wrap` plays no part. |
| CircleDrawer.PixelShown | src/float_image.rs:28-68 | In the image itself: a pixel whose last writes are plain writes of `c` (as in `LastColourSeen`) reads `c` through `get_pixel`. |
| CircleDrawer.AxesShown | src/circle_drawer.rs:48-51 | After `draw_circle`, each of the four axis pixels `(x±radius, y)` and `(x, y±radius)` reads `color`, whatever the ring blended onto it first. |
| CircleDrawer.SetPixel | src/circle_drawer.rs:54-58 | The guarded `set_pixel` passes exactly when `wrap` is set or the point is on the canvas, and stores only then. |
| CircleDrawer.SetPixelBlended | src/circle_drawer.rs:60-64 | The guarded blended write passes under the same condition, and only then changes its pixel, by compositing. |
| CircleDrawer.PassedUnwrapped | src/circle_drawer.rs:54-64 | Without `wrap`, a write the guard admits lands on the pixel its own coordinates name (`x + y * width`). Two admitted writes share a pixel exactly when they have the same coordinates. |
| CircleDrawer.CellMembers | src/circle_drawer.rs:69-83 | Cell `(i, j)` writes: at `(x±i, y±j)`; plain `color` when `diff < 0`; blended with alpha `1 - diff` when `0 <= diff < 1`; nothing otherwise; each guarded. Stated as an iff. |
| CircleDrawer.CellInFill | src/circle_drawer.rs:67-68 | Every write of a cell with `0 <= i, j <= radius` is a write of `fill_circle`. |
| CircleDrawer.FillInCell | src/circle_drawer.rs:67-68 | Every write of `fill_circle` comes from some cell with `0 <= i, j <= radius`. A negative radius writes nothing. |
| CircleDrawer.CellOffsets | src/circle_drawer.rs:72-82 | A cell write lies at offset magnitudes `(i, j)`, with squared distance `i² + j²`, and carries the guard's verdict. |
| CircleDrawer.Cell | src/circle_drawer.rs:69-83 | Every plain write of a cell carries `color`. |
| CircleDrawer.PlainFillInside | src/circle_drawer.rs:71-75 | A plain write of `fill_circle` carries `color` and lies strictly inside: `dx² + dy² < r²`. |
| CircleDrawer.BlendedFillOnRim | src/circle_drawer.rs:76-82 | A blended write of `fill_circle` lies on the rim, `r² <= dx² + dy² < (r+1)²`, with alpha `1 - diff`. |
| CircleDrawer.FillPlain | src/circle_drawer.rs:66-86 | A plain write is in `fill_circle` exactly when the radius is non-negative, it carries `color`, it lies strictly inside the circle, and it has the guard's verdict. |
| CircleDrawer.FillRim | src/circle_drawer.rs:66-86 | A blended write is in `fill_circle` exactly when it lies on the rim with alpha `1 - diff` and has the guard's verdict. |
| CircleDrawer.FillBounds | src/circle_drawer.rs:54-82 | Every write lies in the square `[x-r, x+r] × [y-r, y+r]`. Without `wrap`, every write that passes lands on the canvas. |
| CircleDrawer.SameFillPixel | src/circle_drawer.rs:66-86 | A passing write of `fill_circle` that reaches the pixel of a point strictly inside the circle is the plain write of `color` at that very point. This holds without `wrap`, and with it on a canvas wider and taller than `2 * radius`. |
| CircleDrawer.FillShown | src/circle_drawer.rs:66-86 | After `fill_circle`, every pixel strictly inside the circle that the guard admits reads `color`. The wrap-around must not fold the disc onto itself: no `wrap`, or a canvas wider and taller than `2 * radius`. |
| CircleDrawer.SetQuad | src/circle_drawer.rs:72-75 | The four guarded plain writes of a cell, recorded and painted. |
| CircleDrawer.BlendQuadAt | src/circle_drawer.rs:79-82 | The four guarded blended writes of a rim cell, recorded and painted in the code's order. |
| CircleDrawer.FillCell | src/circle_drawer.rs:69-83 | One inner-loop step issues exactly the writes of `Cell(i, j)` and paints them: plain writes store `color`, and blended ones composite onto their pixels. |
| CircleDrawer.FillRow | src/circle_drawer.rs:68-84 | The inner loop issues the writes of cells `j` in `0..=radius`. |
| CircleDrawer.FillCircle | src/circle_drawer.rs:66-86 | `fill_circle` issues exactly `FillWrites`, and the samples become those writes applied in order. |
| IshiharaGenerator.CeilDiv | src/ishihara_generator.rs:21-22 | `(n / d).ceil()` is the least `q` with `n <= q * d`. |
| IshiharaGenerator.AllCells | src/ishihara_generator.rs:85-91 | A cell is in the set of all cells exactly when it lies in the grid. |
| IshiharaGenerator.GridIndexIsSlot | src/ishihara_generator.rs:35 | The index `gx + gy * grid_width` of an in-grid cell is below `grid_width * grid_height` and decodes back to the cell. |
| IshiharaGenerator.SlotIsGridIndex | src/ishihara_generator.rs:35 | Every array index is the index of exactly one in-grid cell. |
| IshiharaGenerator.GridIndexInjective | src/ishihara_generator.rs:35 | Two in-grid cells share an index exactly when they are the same cell. |
| IshiharaGenerator.CircleGrid.constructor | src/ishihara_generator.rs:20-24 | `grid_width = ceil(width / grid_size)` and likewise the height. There are `grid_width * grid_height` cells, all unset. |
| IshiharaGenerator.CircleGrid.GetGrid | src/ishihara_generator.rs:38-40 | `get_grid` reads slot `gx + gy * grid_width`, which is in bounds. |
| IshiharaGenerator.CircleGrid.Get | src/ishihara_generator.rs:26-28 | `get(x, y)` reads the cell `(x / grid_size, y / grid_size)`. |
| IshiharaGenerator.CircleGrid.SetGrid | src/ishihara_generator.rs:34-36 | `set_grid` changes only slot `gx + gy * grid_width`. |
| IshiharaGenerator.CircleGrid.Set | src/ishihara_generator.rs:30-32 | After `set(x, y, v)`, every point of the same cell reads `v`, and every point of another cell reads what it read before. |
| IshiharaGenerator.SameCellSameSlot | src/ishihara_generator.rs:26-32 | Two points address the same slot exactly when they lie in the same cell. |
| IshiharaGenerator.Scaled | src/ishihara_generator.rs:70-73 | `((g + o) * grid_size) as usize` with `o` in `[0, 1)` lies in `[g * gs, (g+1) * gs)`. |
| IshiharaGenerator.PointIn | src/ishihara_generator.rs:70-73 | The sampled point lies in the chosen cell. |
| IshiharaGenerator.PickPoint | src/ishihara_generator.rs:63-74 | `pick_point` takes some available cell and returns a point inside it: `gx*gs <= x < (gx+1)*gs`, and likewise for y. |
| IshiharaGenerator.ToUsize | src/ishihara_generator.rs:105 | `f32 as usize` saturates: the floor for non-negative values, 0 below. |
| IshiharaGenerator.Ceiling | src/ishihara_generator.rs:94-106 | The radius ceiling is `max_radius` for an unset cell. Otherwise it is `value as usize - padding`, which panics exactly when that subtraction underflows. |
| IshiharaGenerator.PickRadius | src/ishihara_generator.rs:108 | The radius lies in `[min_radius, max)` exactly when `max > min_radius`. It panics with underflow when `max < min_radius` and with modulo by zero when they are equal. |
| IshiharaGenerator.Centre | src/ishihara_generator.rs:121-122 | `((g + 0.5) * gs) as i32` lies inside cell `g`. |
| IshiharaGenerator.Gap | src/ishihara_generator.rs:122-124 | The squared distance from the circle's centre to a cell's centre is 0 exactly when the two points coincide. |
| IshiharaGenerator.InfluenceWithin | src/ishihara_generator.rs:124-126 | A cell's distance `dist` is at most `k` (below `k`) exactly when its centre lies within (strictly within) `radius + k` of the circle's centre, in squared whole pixels. |
| IshiharaGenerator.Tighten | src/ishihara_generator.rs:127-130 | The stored value is replaced by the new distance only when the cell is unset or the distance is strictly smaller. The result is never larger than either. |
| IshiharaGenerator.SpreadVisit | src/ishihara_generator.rs:118-130 | Visiting a new cell changes only its own slot, and only by `Tighten` when it is within reach. |
| IshiharaGenerator.Neighbours | src/ishihara_generator.rs:132-143 | A cell is pushed exactly when it is in the grid and is the right, lower, left or upper neighbour of the visited cell. The last two exist only off the grid's edge. |
| IshiharaGenerator.Queue | src/ishihara_generator.rs:132-143 | The four guarded pushes push exactly `Neighbours`, in the code's order. |
| IshiharaGenerator.Visit | src/ishihara_generator.rs:119-148 | One new cell is visited: the grid extends `Spread` by that cell, and the cell is evicted exactly when the code removes it. Neighbours are pushed only when the cell is within reach. |
| IshiharaGenerator.FrontierSkip | src/ishihara_generator.rs:118 | Popping an already visited cell keeps the frontier invariant. |
| IshiharaGenerator.FrontierVisit | src/ishihara_generator.rs:119-143 | Visiting a cell and pushing its neighbours keeps the frontier invariant. |
| IshiharaGenerator.Propagate | src/ishihara_generator.rs:113-151 | The flood visits each cell at most once and includes the start cell. Afterwards the grid is `Spread` over the visited cells, the open set has lost exactly the evicted cells, and every reached cell has all its neighbours visited. |
| IshiharaGenerator.UpdateAsWrittenAgrees | src/ishihara_generator.rs:127-130 | The update as written on `f32` values is `Tighten` whenever no real distance equals `-1.0`. |
| IshiharaGenerator.SentinelLoosens | src/ishihara_generator.rs:127-130 | A stored distance of exactly `-1.0` reads as unset, so the update as written replaces it by a larger distance. |
| IshiharaGenerator.SentinelDistanceOccurs | src/ishihara_generator.rs:121-124 | The distance `-1.0` occurs: with a radius of 10, cell (0, 0) is exactly 9 pixels from a circle centred at (11, 2). |
| IshiharaGenerator.SpreadTightens | src/ishihara_generator.rs:127-130 | A flood never loosens a cell: every value afterwards is at most the one before. |
| IshiharaGenerator.SpreadBounded | src/ishihara_generator.rs:126 | Only distances up to `max_radius + padding` are ever stored. |
| IshiharaGenerator.SpreadKeepsRoom | src/ishihara_generator.rs:126-148 | After a flood, every cell still open is unset or holds at least `min_radius + padding + 1`. |
| IshiharaGenerator.StartInside | src/ishihara_generator.rs:113-124 | The start cell's distance is negative, because the centre is less than a cell from the cell's centre and `radius >= 2 * grid_size`. |
| IshiharaGenerator.NearCentre | src/ishihara_generator.rs:121-124 | A coordinate lies less than one cell size from the centre of its cell. |
| IshiharaGenerator.AllSpaces | src/ishihara_generator.rs:85-91 | The two nested loops insert exactly the set of all grid cells. |
| IshiharaGenerator.PlaceCircle | src/ishihara_generator.rs:94-151 | One round panics exactly when `max_radius <= min_radius`, with the code's reason, and then leaves the grid and the open set unchanged. Otherwise the round satisfies `Round`: the centre is the drawn point of an open cell, the cell's old value gives the ceiling, `PickRadius` of the draw gives the radius, and the grid becomes `Spread` over the flooded cells. The open set loses exactly the `Evicted` cells, among them the sampled one, and every remaining cell stays open. So the subtraction at line 105 never underflows. |
| IshiharaGenerator.NewCircle | src/ishihara_generator.rs:94-109 | Sampling a circle changes nothing. It panics exactly when `max_radius <= min_radius`. Otherwise the point lies in an open cell, the ceiling of that cell's value is defined, and the radius is `PickRadius` of the draw below it, in `[min_radius, max_radius)`. |
| IshiharaGenerator.Flood | src/ishihara_generator.rs:113-151 | The flood from the sampled cell visits it, turns the grid into `Spread` over the visited cells, and removes exactly the `Evicted` cells, the sampled one among them, from the open set. The grid stays open and bounded. |
| IshiharaGenerator.Placed | src/ishihara_generator.rs:113-148 | After a flood, the grid stays bounded and open, and the sampled cell is gone from the open set. |
| IshiharaGenerator.PlaceAll | src/ishihara_generator.rs:93-152 | The main loop panics only when `max_radius <= min_radius`, and then does so whenever a first circle is due. Every radius lies in `[min_radius, max_radius)`, and there are at most as many circles as initially open cells. Circle `k` satisfies `Round` for draw `k` in a distinct, initially open cell, and turns grid `k` into grid `k + 1`. The grids run from the old grid to the final one. |
| IshiharaGenerator.RoundsSnoc | src/ishihara_generator.rs:93-152 | A further round from a cell not sampled before extends the record of the run. |
| IshiharaGenerator.RunSnoc | src/ishihara_generator.rs:93-152 | A further round from an open cell whose open set loses that cell extends the run, and the sampled cells stay out of the open set. |
| IshiharaGenerator.GenerateCircles | src/ishihara_generator.rs:76-155 | `generate_circles` fails exactly in these cases: with underflow when `max_radius < min_radius`, and with modulo by zero when they are equal, on any non-empty canvas with positive coverage. Every radius lies in `[min_radius, max_radius)`, and there are at most as many circles as grid cells. Every circle satisfies `Round` in a distinct grid cell, starting from the blank grid. |
| IshiharaGenerator.BlankRoomy | src/ishihara_generator.rs:23 | On a fresh grid every cell is open. |
| IshiharaGenerator.Unstarted | src/ishihara_generator.rs:83-93 | A canvas with pixels and positive coverage enters the loop with a non-empty set of cells. |
| Roots.RootAtMost | src/ishihara_generator.rs:124 | Under the root law, `sqrt(n) <= k` exactly when `n <= k²`. |
| Roots.RootBelow | src/circle_drawer.rs:69-71 | Under the root law, `sqrt(n) < k` exactly when `n < k²`. |
| Roots.HalfStepRootObeysLaw | src/ishihara_generator.rs:124 | A computable root satisfies the root law, so the law can be met. |
| Filters.FlattenLength | src/image_filter/filter_matrix.rs:12 | Flattening `h` rows of `n` entries gives `h * n` entries. |
| Filters.FlattenAt | src/image_filter/filter_matrix.rs:12 | Flattening is row-major: entry `x + y * n` is `matrix[y][x]`. |
| Filters.New | src/image_filter/filter_matrix.rs:7-13 | `new` panics exactly when N is even. Otherwise `dim == N` and `mat` has `N * N` entries. |
| Filters.Get | src/image_filter/filter_matrix.rs:15-17 | On an N-by-N kernel, `get(x, y)` with `x < N` reads entry `x` of row `y`, the `y`-th run of N weights, and `y < N` follows from the index being in bounds. |
| Filters.GetNew | src/image_filter/filter_matrix.rs:15-17 | For `x, y < N`, `get(x, y)` is in bounds and equals `matrix[y][x]`: `x` is the column, `y` the row. |
| Filters.GetWraps | src/image_filter/filter_matrix.rs:15-17 | A column past the edge reads the start of the next row. |

## Left out

- `f32` rounding, NaN and infinities are not modelled; samples and distances are `real`.
- `i32` and `usize` overflow are not modelled.
  - `width * height` and the pixel offsets are unbounded integers.
  - The casts `x as i32` in the distance computation are exact.
- Compositing is an open rule. `FImage::set_pixel_blended`, `Pixel::rgba`, `r()`, `g()` and `b()` are not part of this model.
  - The target carries a rule `blend`. A blended write replaces only its own pixel, by what the rule makes of the old pixel and the colour, kept in the image's format.
  - Nothing is proved about the blended colour itself.
- `sqrt` is a parameter obeying `RootLaw`. The `f32` root and its rounding are not computed.
- `draw_circle` takes `d` from that root.
  - `RingByte` states the formula on reals.
  - A negative radicand gives 0, as the `f32` NaN cast does.
- `PI * r²` and the coverage test are modelled, but nothing is proved about how much area is reached.
- The random draws and the `HashSet` order are parameters: `draws`, and some element of the set.
- Global non-overlap of the circles is not proved. The grid quantises distances, so the code does not guarantee it exactly.
- `copy_from_image_buffer` and `copy_to_image_buffer` are `image`-crate conversions and are not part of this model, nor is their debug printing.
- `src/main.rs` (file I/O) and `src/image_filter/mod.rs` (floating-point convolution over an API absent from `src/float_image.rs`) are not part of this model.
- The `println!` calls are left out.
- `CircleGrid::width`, `height`, `grid_width`, `grid_height` and `grid_size` are the class's constant fields. `FImage::width` and `height` are likewise constant fields. So none of these accessors has a member of its own.
- FloatImage.FImage.Clip: requires `min != max`. With `min == max` the Rust code divides by zero and `f32` gives NaN.
- FloatImage.FImage.Normalize: requires the colour samples not all to be equal, for the same reason.
- IshiharaGenerator.GenerateCircles: requires `min_radius >= 2`. A smaller value gives a grid size of 0, and the Rust code divides by zero in `get`.
- IshiharaGenerator.GenerateCircles: does not say whether the loop stopped on coverage or because it ran out of cells.
- IshiharaGenerator.Propagate: characterises the visited region by the frontier invariant: the start is visited, and every reached cell has its neighbours visited. It does not single out the exact reachable region.
- Slice indexing out of bounds, and a pixel format mismatch in `set_pixel`, are preconditions rather than panic paths.
- CircleDrawer.FillShown: requires, with `wrap`, a canvas wider and taller than `2 * radius`. On a smaller canvas the wrap-around can fold a rim write, with its unknown blended colour, onto an inner pixel, so the claim does not hold there.

## Findings

| source | as written | input that shows it | evidently intended | confidence | as-written member | corrected member |
|---|---|---|---|---|---|---|
| src/ishihara_generator.rs:104, :127-130 | An unreached cell holds `-1.0`, and the update replaces any stored `-1.0`. A real distance of exactly `-1.0` is therefore taken for "unreached", and a later, larger distance overwrites it. | `min_radius` 10 gives cells of 5 px. A circle of radius 10 centred at (11, 2) stores `-1.0` in cell (0, 0). A later circle reaching that cell at distance 5.0 then replaces it with 5.0. | A cell keeps the smallest distance seen, and only a cell no circle has reached counts as unreached. | not executed; the wrong value sits in a cell that the same visit has already evicted, and evicted cells are never sampled, so the circles produced are unaffected | IshiharaGenerator.SentinelLoosens | IshiharaGenerator.SpreadTightens |
