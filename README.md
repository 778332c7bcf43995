# Seam carving, modelled in Dafny

This project models the seam-carving engine of an image resizer
(`web/src/lib/seam-carving.ts`). The engine shrinks an RGBA image by removing
seams, which are connected paths of low-energy pixels, one at a time:

- **Energy.** `pixelEnergy` and `calcEnergy` give every pixel a gradient
  energy. It is the sum of squared R, G and B differences between the pixel's
  vertical neighbours plus the same sum between its horizontal neighbours. On
  a border the pixel itself stands in for the missing neighbour.
- **First minimum.** `mindex` returns the index of the first minimum of an
  array.
- **Carving.** `carveVerticalSeam` and `carveHorizontalSeam` remove one seam:
  - they accumulate the energy in place into minimal path costs and record
    each cell's parent in `ptr`;
  - they pick the tail of the seam with `mindex`;
  - they copy every pixel except the seam's into a new buffer one column (or
    one row) smaller, following `ptr` back through the image.
- **Resizing.** `resize` removes seams in pairs (one vertical, then one
  horizontal) while both kinds remain, then removes what is left of the other
  kind. After every carve it reports progress to an optional callback, and it
  stops with the current image when the callback answers `false`.

The project has five modules:

| file | module | contents |
|---|---|---|
| `grid.dfy` | `Grid` | bytes, flat row-major buffers and the grids they encode, transposition, removing one element from a sequence |
| `energy.dfy` | `Energy` | `pixelEnergy` as a function, `calcEnergy` as a method filling an array, and their properties |
| `seam_finder.dfy` | `SeamFinder` | `mindex`, plus the dynamic program, its tie-breaking and the seam it yields |
| `carving.dfy` | `Carving` | the two carvers as methods over arrays, proved against functions that state the carved image |
| `resizing.dfy` | `Resizing` | the schedule of carves, runs with the progress callback, and `resize` as a method |

Flat arrays (`energy`, `ptr`, the output buffer) are Dafny arrays. Each loop
keeps a ghost grid that the array flattens, and lemmas in `Grid` turn the
index arithmetic `row * width + col` into statements about rows and columns.
The dynamic program is stated once, over "lines": the energy grid's rows for a
vertical seam and its columns for a horizontal one.

## Model

| member | source | states |
|---|---|---|
| Energy.PixelEnergy | web/src/lib/seam-carving.ts:4-53 | The energy of a pixel is a natural number no larger than 6 · 255², which is two gradients of three squared channel differences. |
| Energy.ColourDistance | web/src/lib/seam-carving.ts:17-50 | Definition: the sum of the squared R, G and B differences between two pixels, read at their byte offsets. It is at most 3 · 255², and `EnergyIgnoresAlpha` proves that the alpha byte plays no part. |
| Energy.PixelEnergyByNeighbours | web/src/lib/seam-carving.ts:15-52 | The energy is the colour distance between the vertical neighbours plus that between the horizontal neighbours. The top row compares the pixel with the one below, the bottom row with the one above, and inner rows the pixels above and below. Columns follow the same rule. |
| Energy.PixelEnergyByOffsets | web/src/lib/seam-carving.ts:15-50 | The same energy, in terms of the byte offsets `(row * width + col) * 4` that the source reads. |
| Energy.EnergyIsLocal | web/src/lib/seam-carving.ts:15-52 | Two images whose four neighbouring pixels of a cell agree in R, G and B give that cell the same energy. |
| Energy.EnergyIgnoresAlpha | web/src/lib/seam-carving.ts:17-48 | Changing only alpha bytes, at offset 3 of each pixel, changes no energy. |
| Energy.UniformEnergyIsZero | web/src/lib/seam-carving.ts:4-79 | An image of one colour has zero energy everywhere, by rows and by columns. |
| Energy.EnergyColumnsAreTransposed | web/src/lib/seam-carving.ts:149-153 | The energy columns the horizontal carver works on are the transpose of the energy rows. |
| Energy.EnergyWithin | web/src/lib/seam-carving.ts:31-52 | Every entry of the flattened energy grid lies in `[0, 6 · 255²]`. |
| Energy.EnergyRows | web/src/lib/seam-carving.ts:73-77 | Definition: the `height` rows of `width` pixel energies that `calcEnergy` lays out row-major. `FillEnergy` and `CalcEnergy` are proved to produce exactly this grid. |
| Energy.FillEnergyRow | web/src/lib/seam-carving.ts:74-76 | One pass of the inner loop writes row `row` of the energy grid into the array and changes no other row. |
| Energy.FillEnergy | web/src/lib/seam-carving.ts:73-77 | The nested loops leave the array holding the energy grid, row-major, with every entry in `[0, 6 · 255²]`. |
| Energy.CalcEnergy | web/src/lib/seam-carving.ts:67-79 | `calcEnergy` returns exactly `width * height` values, each between 0 and 6 · 255². Entry `row * width + col` is that pixel's energy. |
| Grid.NewBuffer | web/src/lib/seam-carving.ts:86-87 | A new typed array has `height * width` entries, all zero. |
| Grid.EncodeDecode | web/src/lib/seam-carving.ts:121-131 | Writing a pixel grid into a flat buffer at `(row * width + col) * 4` and reading it back gives the grid again. |
| Grid.RemoveAt | web/src/lib/seam-carving.ts:123-133 | After one element is removed, entry `i` is the original entry `i` before the removed position and entry `i + 1` from it on. This is how `imagePtr` skips the seam pixel. |
| SeamFinder.FirstMin | web/src/lib/seam-carving.ts:55-65 | Returns an index whose entry is no larger than any entry and strictly smaller than every earlier one: the first minimum. |
| SeamFinder.CumAt | web/src/lib/seam-carving.ts:97-112 | Definition: the cumulative cost of cell `i` on line `k`. The first line is its energy. Later lines add the cost of the tie-broken predecessor. `CumulativeIsMinOverPredecessors` proves this is the minimum over the predecessors. |
| SeamFinder.Predecessor | web/src/lib/seam-carving.ts:99-108 | Definition: the three strict comparisons choosing among `c`, `c - 1` and `c + 1` of the previous line. The result is always an existing neighbour. `ParentIsMin` proves it is minimal with the source's tie order. |
| SeamFinder.MinIndex | web/src/lib/seam-carving.ts:55-65 | `mindex`'s loop returns an index in `[0, length)` that is the first minimum of the first `length` entries, and equals `FirstMin`. |
| SeamFinder.ParentAt | web/src/lib/seam-carving.ts:99-108 | The recorded parent of a cell is one of the cells `c - 1`, `c`, `c + 1` of the previous line that exist. |
| SeamFinder.ParentIsMin | web/src/lib/seam-carving.ts:99-108 | The parent's cumulative cost is no larger than any candidate's. A side parent is strictly cheaper than the cell straight before it. The parent `c + 1` is strictly cheaper than `c - 1`. So ties go straight, then to `c - 1`, then to `c + 1`. |
| SeamFinder.ParentIsPredecessor | web/src/lib/seam-carving.ts:99-108 | The parent is the tie-broken minimum over the previous cumulative line. |
| SeamFinder.CumulativeIsMinOverPredecessors | web/src/lib/seam-carving.ts:97-112 | For every line from 1 on, a cell's cumulative cost is its own energy plus the minimum cumulative cost among its predecessors. That minimum is attained. |
| SeamFinder.SeamStep | web/src/lib/seam-carving.ts:134 | Each seam position before the last is the parent of the next one, and so is one of its predecessors. |
| SeamFinder.SeamAt | web/src/lib/seam-carving.ts:114-134 | Definition: the seam's position on line `k`. The last line takes the first minimum of its cumulative costs. Earlier lines take the parent recorded for the next line's position. The result is always in range. |
| SeamFinder.Seam | web/src/lib/seam-carving.ts:114-134 | Definition: the seam, one position per line. `SeamIsPath` proves it is connected and `SeamIsOptimal` proves it is cheapest. |
| SeamFinder.SeamIsPath | web/src/lib/seam-carving.ts:114-135 | The seam has one in-range position per line, and adjacent positions differ by at most 1. |
| SeamFinder.SeamTracesParents | web/src/lib/seam-carving.ts:118-134 | The seam ends at the first minimum of the last cumulative line and follows the recorded parents back. |
| SeamFinder.SeamFollowsParent | web/src/lib/seam-carving.ts:134 | Position `k - 1` of the seam is the parent recorded at position `k`. |
| SeamFinder.CumulativeIsLowerBound | web/src/lib/seam-carving.ts:97-112 | Every connected path costs at least the cumulative cost of the cell it ends at. |
| SeamFinder.SeamCostIsCumulative | web/src/lib/seam-carving.ts:97-134 | The seam's cost up to a line equals the cumulative cost of its cell on that line. |
| SeamFinder.SeamIsOptimal | web/src/lib/seam-carving.ts:96-135 | No connected path through the lines costs less than the seam. |
| SeamFinder.ZeroEnergySeam | web/src/lib/seam-carving.ts:97-118 | With zero energy everywhere the seam takes position 0 on every line, because of the tie-breaking rules. |
| SeamFinder.ZeroCumulative | web/src/lib/seam-carving.ts:97-112 | With zero energy every cumulative cost is 0. |
| SeamFinder.ZeroSeamSuffix | web/src/lib/seam-carving.ts:118-134 | With zero energy every seam position is 0, from the last line back. |
| Carving.VerticalSeam | web/src/lib/seam-carving.ts:96-134 | The vertical seam has one column per row, in range, and columns of adjacent rows differ by at most 1. |
| Carving.HorizontalSeam | web/src/lib/seam-carving.ts:155-196 | The horizontal seam has one row per column, in range, and rows of adjacent columns differ by at most 1. |
| Carving.WithoutVerticalSeam | web/src/lib/seam-carving.ts:120-135 | Definition: the pixel grid that has, for every row, the input row without column `seam[r]`. It is a `height × (width - 1)` grid. |
| Carving.WithoutHorizontalSeam | web/src/lib/seam-carving.ts:182-197 | Definition: the pixel grid that has, for every column, the input column without row `seam[c]`. It is a `(height - 1) × width` grid. |
| Carving.CarvedVertically | web/src/lib/seam-carving.ts:81-138 | Definition: the buffer `carveVerticalSeam` returns. That is the encoding of the input without the vertical seam of its cumulative energy rows. `CarvedVerticallyKeepsRows` states its size and rows. |
| Carving.CarvedHorizontally | web/src/lib/seam-carving.ts:140-200 | Definition: the buffer `carveHorizontalSeam` returns. That is the encoding of the input without the horizontal seam of its cumulative energy columns. `CarvedHorizontallyKeepsColumns` states its size and columns. |
| Carving.VerticalRemovalKeepsRows | web/src/lib/seam-carving.ts:120-135 | The output is a valid `(width - 1) × height` buffer. Each of its rows is the input row with exactly the seam pixel removed and every other pixel kept in order. |
| Carving.RowWithoutSeam | web/src/lib/seam-carving.ts:122-135 | Row `r` of the carved grid is input row `r` without its seam pixel. |
| Carving.HorizontalRemovalKeepsColumns | web/src/lib/seam-carving.ts:182-197 | The output is a valid `width × (height - 1)` buffer. Each of its columns is the input column with exactly the seam pixel removed, order kept. |
| Carving.ColumnWithoutSeam | web/src/lib/seam-carving.ts:184-197 | Column `c` of the carved grid is input column `c` without its seam pixel. |
| Carving.UniformSeams | web/src/lib/seam-carving.ts:96-197 | On an image of one colour, both seams run along index 0: the first column, or the first row. |
| Carving.CarvedVerticallyKeepsRows | web/src/lib/seam-carving.ts:81-138 | The buffer `carveVerticalSeam` returns has length `(width - 1) * height * 4`, and each row loses exactly its seam pixel. |
| Carving.CarvedHorizontallyKeepsColumns | web/src/lib/seam-carving.ts:140-200 | The buffer `carveHorizontalSeam` returns has length `width * (height - 1) * 4`, and each column loses exactly its seam pixel. |
| Carving.CarveVerticalSeam | web/src/lib/seam-carving.ts:81-138 | The method returns `width - 1` and the buffer without the optimal, tie-broken vertical seam. Every output row is the input row minus one pixel of a connected seam. |
| Carving.CarveHorizontalSeam | web/src/lib/seam-carving.ts:140-200 | The method returns `height - 1` and the buffer without the horizontal seam. Every output column is the input column minus one pixel of a connected seam. |
| Carving.VerticalAccumulation | web/src/lib/seam-carving.ts:86-112 | After the energy fill and the top-to-bottom pass, `energy` holds the cumulative costs and `ptr` the parents, row-major. |
| Carving.HorizontalAccumulation | web/src/lib/seam-carving.ts:145-171 | After the energy fill and the left-to-right pass, `energy` holds the cumulative costs and `ptr` the parents, laid out row-major. |
| Carving.AccumulateVertical | web/src/lib/seam-carving.ts:97-112 | The in-place pass turns the energy rows into cumulative rows and fills `ptr` with the parent rows. |
| Carving.AdvanceRow | web/src/lib/seam-carving.ts:97-112 | One outer iteration moves the accumulated prefix one row further, in both arrays. |
| Carving.AccumulateVerticalRow | web/src/lib/seam-carving.ts:98-111 | The inner loop replaces row `row` by its cumulative costs and records its parents, leaving other rows alone. |
| Carving.ChooseParentAbove | web/src/lib/seam-carving.ts:99-108 | The three comparisons pick the tie-broken minimal predecessor in the row above and its value. |
| Carving.StoreCellInRow | web/src/lib/seam-carving.ts:109-110 | `energy[...] += min` and `ptr[...] = parent` update exactly that cell of the two ghost rows. |
| Carving.StoreCell | web/src/lib/seam-carving.ts:109-110 | The two writes change exactly one cell of each grid. |
| Carving.AccumulateHorizontal | web/src/lib/seam-carving.ts:156-171 | The in-place column pass turns the energy columns into cumulative columns and fills `ptr` with the parents, in row-major layout. |
| Carving.AdvanceColumn | web/src/lib/seam-carving.ts:156-171 | One outer iteration moves the accumulated prefix one column further. |
| Carving.AccumulateHorizontalColumn | web/src/lib/seam-carving.ts:157-170 | The inner loop replaces column `col` by its cumulative costs and records its parents. |
| Carving.ChooseParentLeft | web/src/lib/seam-carving.ts:158-167 | The three comparisons pick the tie-broken minimal predecessor in the column to the left and its value. |
| Carving.StoreCellTransposed | web/src/lib/seam-carving.ts:168-169 | The two writes update exactly one cell of each column-major ghost grid. |
| Carving.VerticalTail | web/src/lib/seam-carving.ts:114-118 | The tail is the seam's position in the bottom row: the first minimum of the last cumulative row. |
| Carving.LastColumn | web/src/lib/seam-carving.ts:175-179 | `endCol` holds exactly the last cumulative column. |
| Carving.HorizontalTail | web/src/lib/seam-carving.ts:173-180 | The tail is the seam's position in the last column. |
| Carving.NewImage | web/src/lib/seam-carving.ts:121 | A new output buffer is all zero: it encodes the `height × width` grid of blank pixels, as a new `Uint8ClampedArray` does. |
| Carving.CopyPixel | web/src/lib/seam-carving.ts:126-131 | Copying four bytes sets exactly one pixel of the output grid. |
| Carving.CopyPixelAt | web/src/lib/seam-carving.ts:126-131 | Copying the pixel at `(row, col)` to `(r, c)` sets exactly that output pixel to it. |
| Carving.CopyRowWithoutSeam | web/src/lib/seam-carving.ts:123-133 | The `imagePtr` loop fills output row `row` with the input row without column `tail`, leaving other rows alone. |
| Carving.TailAbove | web/src/lib/seam-carving.ts:134 | `ptr[row * width + tail]` is the recorded parent of `tail`. |
| Carving.BuildVertical | web/src/lib/seam-carving.ts:120-135 | The backward row loop produces exactly the input without the seam that the parents trace. |
| Carving.CopyColumnWithoutSeam | web/src/lib/seam-carving.ts:185-195 | The `imagePtr` loop fills output column `col` with the input column without row `tail`, leaving other columns alone. |
| Carving.TailLeft | web/src/lib/seam-carving.ts:196 | `ptr[tail * width + col]` is the recorded parent of `tail`. |
| Carving.BuildHorizontal | web/src/lib/seam-carving.ts:182-197 | The backward column loop produces exactly the input without the seam that the parents trace. |
| Resizing.ScheduleCounts | web/src/lib/seam-carving.ts:220-287 | The resizer makes `max(width - targetWidth, 0)` vertical and `max(height - targetHeight, 0)` horizontal carves and no others. In particular it makes no horizontal carve when `targetHeight >= height`. |
| Resizing.Schedule | web/src/lib/seam-carving.ts:220-287 | Definition: the directions of the carves `resize` makes. It is vertical then horizontal while both counts are positive, then the remaining count of the other kind. `ScheduleCounts` and `ScheduleOrder` state its counts and order. |
| Resizing.ScheduleOrder | web/src/lib/seam-carving.ts:226-287 | Carve `i` alternates vertical and horizontal while both kinds remain, then is of the remaining kind. |
| Resizing.CarveShrinks | web/src/lib/seam-carving.ts:227-229 | A carve gives a valid image one pixel narrower (vertical) or shorter (horizontal). |
| Resizing.Carve | web/src/lib/seam-carving.ts:227-246 | Definition: one carve as `resize` applies it. Vertical replaces data and width with `carveVerticalSeam`'s result (227-229). Horizontal replaces data and height with `carveHorizontalSeam`'s (244-246). `CarveShrinks` states the result. |
| Resizing.FitsStep | web/src/lib/seam-carving.ts:226-287 | A carve sequence that fits starts on at least 2 × 2 pixels and fits on from the size its first carve leaves. |
| Resizing.AfterShrinks | web/src/lib/seam-carving.ts:226-287 | Carving out a sequence that fits leaves a valid image, one pixel narrower per vertical carve and one shorter per horizontal one. |
| Resizing.FitsPrefix | web/src/lib/seam-carving.ts:226-287 | Every prefix of a carve sequence that fits also fits. |
| Resizing.RunFits | web/src/lib/seam-carving.ts:263-287 | `n` carves in one direction see at least 2 × 2 pixels exactly when the other side has at least 2 pixels and this side keeps at least 1. |
| Resizing.ScheduleFits | web/src/lib/seam-carving.ts:220-287 | Every carve the resizer makes sees at least 2 × 2 pixels exactly when `CanResize` holds. |
| Resizing.ScheduleReachesTarget | web/src/lib/seam-carving.ts:220-289 | Carrying out the whole schedule gives a valid image of width `min(width, targetWidth)` and height `min(height, targetHeight)`. |
| Resizing.Made | web/src/lib/seam-carving.ts:226-287 | A run makes at most as many carves as planned, and at least one when anything is planned. |
| Resizing.Run | web/src/lib/seam-carving.ts:202-290 | Definition: `resize` as a recursion over the schedule. It carves, reports with the count so far, and returns the current image on a refusal or at the end of the plan. `ResizedIsRun` ties the method to it. |
| Resizing.RunIsAfterMade | web/src/lib/seam-carving.ts:226-289 | A run returns the image after exactly the carves it made. |
| Resizing.RunStopsOnRefusal | web/src/lib/seam-carving.ts:241 | A run stops short of the plan only because the report of its last carve was refused. It returns exactly the image that report carried. |
| Resizing.RunAcceptsEarlierReports | web/src/lib/seam-carving.ts:233-258 | Every report before a run's last carve was accepted. |
| Resizing.RunWithoutStop | web/src/lib/seam-carving.ts:233-287 | With no callback, or one that never answers `false`, a run makes every planned carve. |
| Resizing.TraceIsRun | web/src/lib/seam-carving.ts:226-289 | A carve trace whose reports were accepted up to an optional refused last one ends in the image the run returns. |
| Resizing.CarriedExtends | web/src/lib/seam-carving.ts:227-231 | One more carve of the plan extends a carve trace. |
| Resizing.CarveVertical | web/src/lib/seam-carving.ts:227-229 | A vertical carve of the current image narrows it by one pixel and keeps it valid. |
| Resizing.CarveHorizontal | web/src/lib/seam-carving.ts:244-246 | A horizontal carve of the current image shortens it by one pixel and keeps it valid. |
| Resizing.Notify | web/src/lib/seam-carving.ts:233-241 | Asks to stop exactly when there is a callback and it answers `false`. |
| Resizing.Report | web/src/lib/seam-carving.ts:234-240 | Definition: the progress record with the current data, width, height, `seamsRemoved` and `totalSeams`. |
| Resizing.Refuses | web/src/lib/seam-carving.ts:233-241 | Definition: a report stops `resize` exactly when there is a callback and it answers `false`. |
| Resizing.ReportedOnRefusal | web/src/lib/seam-carving.ts:241 | Stopping on the first refused report is what `resize` reports. |
| Resizing.AcceptedExtends | web/src/lib/seam-carving.ts:233-242 | An accepted report keeps every report so far accepted. |
| Resizing.ReportedWhole | web/src/lib/seam-carving.ts:289 | Finishing the plan with every report accepted is what `resize` reports. |
| Resizing.CarveAndReport | web/src/lib/seam-carving.ts:227-242 | Carves in direction `d`, appends the image to the trace and reports it as carve `seamsRemoved + 1` with the current data and sizes. `stop` is true exactly when that report was refused. |
| Resizing.RemovePairs | web/src/lib/seam-carving.ts:226-260 | While both kinds remain, carves one vertical then one horizontal seam, reporting each. It ends either on a refused report, returning the image and count that report carried, or with no pair left and the rest of the schedule still to do. |
| Resizing.RemoveRest | web/src/lib/seam-carving.ts:262-287 | Carves `max(vertSeams, horSeams)` seams of the remaining kind, reporting each, until the plan is done or a report is refused. |
| Resizing.Resize | web/src/lib/seam-carving.ts:202-290 | The result is the last image of a trace that carries out a prefix of the schedule. Report `j` carries carve `j`'s image and dimensions, numbered from 1, with `totalSeams = (width - targetWidth) + (height - targetHeight)`. Every report but the last was accepted, and the run stops early only on a refused report. |
| Resizing.ResizedIsRun | web/src/lib/seam-carving.ts:202-290 | What `Resize` returns is the run of the schedule with the callback. |
| Resizing.ResizedWithoutStop | web/src/lib/seam-carving.ts:220-289 | With no callback, or one that never answers `false`, `Resize` returns an image of size `min(width, targetWidth) × min(height, targetHeight)`: the whole schedule carried out. |
| Resizing.ResizedUnchanged | web/src/lib/seam-carving.ts:220-289 | When neither side exceeds its target, `Resize` makes no carve and no report, and returns the input. |
| Resizing.RunReachesTarget | web/src/lib/seam-carving.ts:220-289 | A run of the whole schedule that no report stops reaches the target size. |

## Left out

- The rest of the repository is not part of this model. That covers the React UI (`image-resizer.tsx`, `page.tsx`, `theme-toggle.tsx`), the Web Worker wrapper, and the Java classes (`ImageResizer.java` is a stub, `Service.java` is HTTP routing). Cancelling a job appears only as the callback's answer inside `resize`.
- Carving an image with a side of 1 pixel is excluded by preconditions. Carving needs `width >= 2 && height >= 2`. `Resize` requires `CanResize`, which holds exactly when every carve it makes sees at least 2 × 2 pixels. It still allows a result 1 pixel wide or high, and an input that needs no carve. When an image with a side of 1 pixel is carved, the source's `pixelEnergy` reads the next row's pixel or past the end of the buffer. That gives `undefined` and `NaN` in JavaScript, which the model does not represent.
- `Float64Array` arithmetic is modelled with unbounded integers. Energies are sums of squared byte differences, at most 6 · 255² per pixel. Cumulative sums stay far below 2⁵³, so every value the source computes is an exact integer.
- `Int32Array` parent indices are modelled as unbounded integers. They are always indices below `width` or `height`.
- `Uint8ClampedArray` is a sequence of bytes in `[0, 255]`. The carvers only copy bytes, so clamping never arises.
- The `Float64Array` view over the last energy row (`lastRow`) is modelled as a copy of that row. No aliasing is modelled.
- `Resize` returns a value, `Image`, in place of the `{data, width, height}` record. Its input buffer is never mutated in the source either.
- Resizing.Resize: the progress callback is a pure total function from the report to a boolean. Side effects of the callback and non-boolean answers are not modelled. Only an explicit `false` stops the source, and only `false` stops the model.
- Resizing.Resize: `totalSeams` is kept as the source computes it, `(width - targetWidth) + (height - targetHeight)`. With a target larger than the image on one side, it differs from the number of carves. It can even be 0 or negative while carves happen: width 10 to 8 and height 10 to 12 gives `totalSeams = 0` and 2 carves. The model reports that value unchanged.
- Resizing.Resize: its `ensures` clauses do not state the final size directly, because the callback may stop it early. The size for a callback that never refuses is the separate lemma `ResizedWithoutStop`.
- Resizing.Carve: an image that cannot be carved is returned unchanged. That branch is never reached from `Resize`, whose precondition excludes it.
