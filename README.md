# Seam carving engine, modelled in Dafny

The engine narrows an RGBA image by one column at a time. Each time, it removes
the connected top-to-bottom path of pixels (the *seam*) whose total energy is
smallest. It works in three stages:

1. **Energy.** Every pixel gets an *energy*. This is the dual-gradient colour
   difference between its left and right neighbours and between its upper and
   lower neighbours. The neighbours wrap around the image edges (toroidally).
   The value is square-rooted, divided by 10 with truncation, and stored as a
   grey pixel.
2. **Seam.** A dynamic-programming pass fills a cumulative cost table.
   `best[j][i]` is the energy of pixel (j, i) plus the cheapest of its two or
   three neighbours in row j - 1. Unlike the energy step, this table does not
   wrap at the edges. A backtracker then reads the seam off the table.
3. **Removal.** A pass copies every row without its seam pixel, into a fresh
   raster one column narrower.

The repository has two variants of this engine:

- **`wasm/seamcarving_wasm.c`** is the module called from JavaScript. It works
  on flat `uint8_t` rasters and does all three stages in `seam_carve`.
- **`wasm/seamcarving.c`** is the library variant. It works on an
  `rgb_img` record and has its own backtracker, `recover_path`.

The model has five modules:

| module | file | models |
|---|---|---|
| `Raster` | `raster.dfy` | The flat buffers and their row-major addressing: 4 bytes per pixel in the raster, one entry per pixel in the cost table. Also `get_pixel`/`set_pixel`. |
| `Energy` | `energy.dfy` | The energy formula: wrapped neighbours, squared colour differences, floor square root, division by 10. Also its bounds and its behaviour on uniform and tiny images. |
| `Seam` | `seam.dfy` | The mathematics of the seam solver: `min_2`/`min_3`, the cost recurrence, the backtracking step, what a seam and its energy are, and the proof that the extracted seam has minimum energy. Also the column mapping of seam removal. |
| `SeamCarvingWasm` | `wasm.dfy` | `calc_energy` and `seam_carve` of the JavaScript module, as imperative methods over arrays. Each method is proved against the functions of `Seam` and `Energy`. |
| `SeamCarvingLib` | `library.dfy` | The library's `rgb_img`, `calc_energy`, `dynamic_seam`, `recover_path` (including its zero-cost quirk) and `remove_seam`. |

All arithmetic is exact: `int`/`nat` stand for the C `int`, `uint8_t` and
`double` values. Products used in index arithmetic go through `Raster.Mul`,
multiplication by repeated addition, so that nonlinear facts appear only
where a proof asks for them.

The main results:

- `SeamCarvingWasm.SeamCarve` returns a fresh raster one column narrower.
  That raster is the source with one pixel per row removed. The removed
  pixels form a connected seam, and no seam of the image has smaller total
  energy. The seam is the one the source's own scan and backtracking pick:
  `Seam.CarvedSeamIsUnique` shows that this seam is fully determined by the
  image.
- `SeamCarvingLib.RecoverPath` follows `recover_path` step by step.
  `SeamCarvingLib.RecoveredSeamIsCarvedSeam` shows that its path equals the
  wasm seam, as long as no right neighbour of cost 0 is skipped.
  `SeamCarvingLib.RecoveredSeamNotMinimal` is a concrete table on which it
  picks a costlier seam.

## Model

| member | source | states |
|---|---|---|
| `Raster.GetPixel` | wasm/seamcarving_wasm.c:25-27 | `get_pixel` reads the byte at index `4 * (y * width + x) + col` of the raster, and that index lies inside it. |
| `Raster.CellInjective` | wasm/seamcarving_wasm.c:25-27 | Two pixels of a row-major table have the same index `y * width + x` only if they are the same pixel. |
| `Raster.OffsetsInRaster` | wasm/seamcarving_wasm.c:25-27 | Every channel offset `4 * (y * width + x) + col` of a pixel of a height x width image lies inside its `height * width * 4`-byte raster. |
| `Raster.OffsetInjective` | wasm/seamcarving_wasm.c:30-35 | Two channel offsets coincide only for the same pixel and the same channel. |
| `Raster.SetPixel` | wasm/seamcarving_wasm.c:30-35 | `set_pixel` writes R, G, B and A at channels 0 to 3 of pixel (y, x). Every other byte of the raster, including every channel of every other pixel, is unchanged. |
| `Raster.SetRgb` | wasm/seamcarving.c:88 | The library's `set_pixel` writes R, G and B of pixel (y, x). Every other byte, this pixel's alpha included, is unchanged. |
| `Energy.ISqrt` | wasm/seamcarving_wasm.c:75 | The integer part of `sqrt(n)`: `r * r <= n < (r + 1) * (r + 1)`. |
| `Energy.ISqrtIsLargest` | wasm/seamcarving_wasm.c:75 | Every m with `m * m <= n` is at most `ISqrt(n)`, so the root is the largest such number. |
| `Energy.ISqrtBound` | wasm/seamcarving_wasm.c:75-76 | The largest squared gradient, `6 * 255 * 255`, has root at most 624, so the energy before the division is below 625. |
| `Energy.WrapPrev` | wasm/seamcarving_wasm.c:56 | `k_left` / `k_up`: the neighbour before k stays inside the image, and 0 wraps to n - 1. |
| `Energy.WrapNext` | wasm/seamcarving_wasm.c:57 | `k_right` / `k_down`: the neighbour after k stays inside the image, and n - 1 wraps to 0. |
| `Energy.WrapIsModular` | wasm/seamcarving_wasm.c:56-59 | The four wrapped neighbours are the toroidal ones: `(k - 1) mod n` and `(k + 1) mod n`. |
| `Energy.Diff2` | wasm/seamcarving_wasm.c:62-73 | The squared channel difference is at most `255 * 255`. It is 0 exactly when the two channel values are equal. |
| `Energy.Diff2IsSquare` | wasm/seamcarving_wasm.c:72-73 | `Diff2(a, b)` equals the C expression `(a - b) * (a - b)`, for negative differences too. |
| `Energy.ColourDist2` | wasm/seamcarving_wasm.c:62-64 | A one-direction gradient summed over R, G and B is at most `3 * 255 * 255`. |
| `Energy.GradientSq` | wasm/seamcarving_wasm.c:56-73 | `grad_x_2 + grad_y_2` over the wrapped neighbours is at most `6 * 255 * 255`. |
| `Energy.PixelEnergy` | wasm/seamcarving_wasm.c:75-76 | Every normalised energy is at most 62, so storing it in a `uint8_t` channel never truncates. |
| `Energy.SameColourHasZeroDist` | wasm/seamcarving_wasm.c:62-64 | Two pixels with equal R, G and B have gradient 0 between them. |
| `Energy.UniformImageHasZeroEnergy` | wasm/seamcarving_wasm.c:50-81 | An image whose pixels all share one colour has energy 0 everywhere, whatever its alpha channel holds. |
| `Energy.DistIgnoresAlpha` | wasm/seamcarving_wasm.c:62-69 | The gradient reads channels 0 to 2 only. |
| `Energy.EnergyIgnoresAlpha` | wasm/seamcarving_wasm.c:50-81 | Two images that agree on R, G and B everywhere have the same energy map. |
| `Energy.TinyImageHasZeroEnergy` | wasm/seamcarving_wasm.c:56-59 | In an image at most 2 x 2 pixels, the wrapped neighbours on each side coincide, so every energy is 0. |
| `Seam.Min2` | wasm/seamcarving_wasm.c:38-40 | `min_2` returns one of its arguments, and that argument is at most the other. |
| `Seam.Min3` | wasm/seamcarving_wasm.c:43-46 | `min_3` returns one of its arguments, and that argument is at most the other two. |
| `Seam.NeighbourMin` | wasm/seamcarving_wasm.c:105-123 | The minimum the table fill adds is attained by an existing neighbour of column i in the row above (i - 1, i or i + 1, clamped at the edges) and is at most every such neighbour. |
| `Seam.EnergyValues` | wasm/seamcarving_wasm.c:96 | Channel 0 of the energy map, read as a height x width grid. |
| `Seam.CostRow` | wasm/seamcarving_wasm.c:100-127 | One row of the cumulative cost table, with one entry per column. |
| `Seam.TableRow` | wasm/seamcarving_wasm.c:137 | Row j of the flat table: entry k is `best[j * width + k]`. |
| `Seam.LeftmostMinIsUnique` | wasm/seamcarving_wasm.c:133-142 | A row has exactly one leftmost minimum, so the bottom-row scan is deterministic. |
| `Seam.BacktrackStep` | wasm/seamcarving_wasm.c:146-164 | In one backtracking step from column p, the new column is a neighbour of p inside the row, and it is the cheapest neighbour. It differs from p only when strictly cheaper than p. It is p + 1 only when strictly cheaper than p - 1, or when p is 0. So ties go to the centre, then to the left. |
| `Seam.BacktrackStepUnique` | wasm/seamcarving_wasm.c:146-164 | The properties in `BacktrackStep`'s contract single out its result: any column with them is the step. |
| `Seam.BacktrackStepReachesNeighbourMin` | wasm/seamcarving_wasm.c:105-164 | The cost backtracking moves to is exactly the neighbour minimum the table fill added at that column. |
| `Seam.CarvedSeamIsSeam` | wasm/seamcarving_wasm.c:145-165 | The seam read off the table has every column in range, and each entry is within one column of the entry below. |
| `Seam.CostIsLowerBound` | wasm/seamcarving_wasm.c:100-127 | No seam ending at (j, p[j]) has energy, over rows 0 to j, below `best[j][p[j]]`. |
| `Seam.CarvedSeamMeetsCost` | wasm/seamcarving_wasm.c:145-165 | Along the extracted seam, every table entry equals the energy of the seam so far. |
| `Seam.CarvedSeamIsMinimal` | wasm/seamcarving_wasm.c:133-165 | The extracted seam is a seam. Its energy is its bottom-row table entry, and no seam of the image has smaller total energy. |
| `Seam.CarvedSeamIsUnique` | wasm/seamcarving_wasm.c:133-165 | Two seams extracted from the same grid are equal. |
| `Seam.CarvedSeamsAgreeAbove` | wasm/seamcarving_wasm.c:145-165 | Two extracted seams that share the bottom column agree on every row above it. |
| `Seam.SeamSource` | wasm/seamcarving_wasm.c:171-183 | After removing column s, output column x comes from source column x when x < s and from x + 1 otherwise. That column is never s, and it lies left of s exactly when x < s. |
| `Seam.KeptColumn` | wasm/seamcarving.c:312-318 | Source column i (not the seam) goes to i when i < s and to i - 1 otherwise. `SeamSource` undoes this, and the side of the seam is kept. |
| `Seam.SeamSourceIsMonotone` | wasm/seamcarving_wasm.c:171-183 | Rows keep their order: a later output column comes from a later source column. |
| `SeamCarvingWasm.CalcEnergy` | wasm/seamcarving_wasm.c:50-81 | Every pixel of `dest` becomes (e, e, e, 255), where e is the normalised wrapped dual-gradient energy of that pixel of `src`. |
| `SeamCarvingWasm.WritePixelEnergy` | wasm/seamcarving_wasm.c:56-79 | One iteration of the loop body writes pixel (j, i) of `dest` and no other pixel. |
| `SeamCarvingWasm.GradientAt` | wasm/seamcarving_wasm.c:56-73 | `grad_x_2 + grad_y_2` of pixel (j, i) is `GradientSq` over its wrapped neighbours. |
| `SeamCarvingWasm.ColourGradient` | wasm/seamcarving_wasm.c:62-72 | The three squared channel differences summed, with signed C differences. |
| `SeamCarvingWasm.FillTable` | wasm/seamcarving_wasm.c:95-127 | Cell (j, i) of `best_arr` holds the cumulative cost: row 0 is channel 0 of the energy map, and every later row adds the clamped neighbour minimum of the row above. |
| `SeamCarvingWasm.CostFromRowAbove` | wasm/seamcarving_wasm.c:102-125 | The recurrence in the terms the loop reads: channel 0 at (j, k) plus the neighbour minimum of row j - 1. |
| `SeamCarvingWasm.FillRow` | wasm/seamcarving_wasm.c:101-126 | Row j is filled from row j - 1. Every other row is unchanged. |
| `SeamCarvingWasm.FillCell` | wasm/seamcarving_wasm.c:102-125 | One cell is written and every other cell is unchanged. |
| `SeamCarvingWasm.MinAbove` | wasm/seamcarving_wasm.c:105-123 | The three-way branch with its `min_2`/`min_3` calls gives `NeighbourMin` of row j - 1. |
| `SeamCarvingWasm.BottomArgmin` | wasm/seamcarving_wasm.c:133-142 | `min_idx` is the leftmost minimum of the bottom row: no entry is smaller, and every entry to its left is strictly larger. |
| `SeamCarvingWasm.Backtrack` | wasm/seamcarving_wasm.c:145-165 | Each `path[j]` above the bottom is the backtracking step from `path[j + 1]` over row j, and it is in range. The bottom entry is unchanged. |
| `SeamCarvingWasm.StepUp` | wasm/seamcarving_wasm.c:146-164 | The centre / left / right comparisons with strict `<` compute `BacktrackStep`. |
| `SeamCarvingWasm.CopyWithoutSeam` | wasm/seamcarving_wasm.c:171-183 | Every row of `output` is the source row without pixel `path[j]`, with all four channels copied and the order kept. |
| `SeamCarvingWasm.CopyRow` | wasm/seamcarving_wasm.c:172-182 | Row j of `output` is row j of `src` minus column `path[j]`. Every other row is unchanged. |
| `SeamCarvingWasm.CopyPixel` | wasm/seamcarving_wasm.c:174-180 | One source pixel goes to column `new_col` and nothing else changes. |
| `SeamCarvingWasm.SeamCarve` | wasm/seamcarving_wasm.c:85-191 | The result is a fresh raster of `height * (width - 1) * 4` bytes. It is `src` with one pixel per row removed; those pixels form a connected seam, which is the one the scan and the backtracking pick, and no seam has smaller total energy. |
| `SeamCarvingWasm.FindSeam` | wasm/seamcarving_wasm.c:87-165 | The path is the extracted seam of the image's energy grid, and it has minimum energy. |
| `SeamCarvingWasm.EnergyCostTable` | wasm/seamcarving_wasm.c:87-127 | `best_arr` is the cost table of the energy grid of `src`. |
| `SeamCarvingWasm.EnergyGrid` | wasm/seamcarving_wasm.c:87-89 | The grid of pixel energies, each at most 62. |
| `SeamCarvingWasm.EnergyValuesOfCalcEnergy` | wasm/seamcarving_wasm.c:89-96 | Channel 0 read back from what `calc_energy` wrote is the energy grid. |
| `SeamCarvingWasm.TableRowsAreCostRows` | wasm/seamcarving_wasm.c:100-127 | A filled table has the cost rows as its rows. |
| `SeamCarvingWasm.TableSeamIsCarvedSeam` | wasm/seamcarving_wasm.c:133-165 | The path read off a filled table is the extracted seam of the grid. |
| `SeamCarvingLib.RgbImage.constructor` | wasm/seamcarving.c:12 | `create_img` gives a fresh image of the given height and width whose raster has `height * width * 4` bytes. |
| `SeamCarvingLib.CalcEnergy` | wasm/seamcarving.c:9-91 | A fresh image of the same size whose R, G and B hold the wrapped dual-gradient energy of every pixel of `im`. |
| `SeamCarvingLib.WriteEnergy` | wasm/seamcarving.c:42-88 | One iteration writes the energy into R, G and B of pixel (j, i). Every other byte, this pixel's alpha included, keeps its value. |
| `SeamCarvingLib.DynamicSeam` | wasm/seamcarving.c:116-169 | A fresh `best_arr` that is the cost table of channel 0 of `grad`. |
| `SeamCarvingLib.TableOfEnergyImage` | wasm/seamcarving.c:116-185 | A table that `dynamic_seam` fills from the image `calc_energy` made of `im` is the cost table of the energy grid of `im`. For an image fewer than 10^16 / 62 rows high, every entry lies below `recover_path`'s starting minimum of 10^16. |
| `SeamCarvingLib.CostIsBounded` | wasm/seamcarving.c:133-168 | A cost in row j is at most (j + 1) * 62. |
| `SeamCarvingLib.EnergyTableBelowSentinel` | wasm/seamcarving.c:185 | For any image fewer than 10^16 / 62 rows high, every cost lies below the 10^16 starting value of `recover_path`'s running minimum. |
| `SeamCarvingLib.EntryBelowSentinel` | wasm/seamcarving.c:185 | The same bound for one table entry. |
| `SeamCarvingLib.RecoverStep` | wasm/seamcarving.c:209-280 | One row of `recover_path`. The new column is a neighbour of x in range. It moves only to a strictly cheaper column, and to x + 1 only when that is strictly cheaper than x - 1. It is a cheapest neighbour whenever x is at an edge or the right cost is non-zero. When an inner x has a right neighbour of cost 0, it never picks that neighbour and picks the cheaper of centre and left. |
| `SeamCarvingLib.RecoverStepIsBacktrackStep` | wasm/seamcarving.c:209-280 | Unless a zero right cost is skipped, `recover_path` moves exactly like the wasm backtracker. |
| `SeamCarvingLib.RecoverStepMissesZeroRight` | wasm/seamcarving.c:253 | When an inner right neighbour costs 0 and centre and left do not, the wasm step takes the right one and `recover_path` lands on a strictly costlier column. |
| `SeamCarvingLib.RecoverPath` | wasm/seamcarving.c:172-285 | A fresh path of `height` columns, all in range. The bottom entry is the leftmost minimum of the bottom row, and every other entry is one `RecoverStep` up from the entry below. |
| `SeamCarvingLib.RecoveredPathIsSeam` | wasm/seamcarving.c:209-280 | The recovered path is connected: each entry is within one column of the entry below. |
| `SeamCarvingLib.ScanBottomRow` | wasm/seamcarving.c:196-205 | The scan with a strict `>` against the running minimum, which starts at 10^16, finds the leftmost minimum of the bottom row. `path[height - 1]` is set to it and nothing else changes. |
| `SeamCarvingLib.ScanRow` | wasm/seamcarving.c:196-282 | For a row above the bottom, the candidate bookkeeping and the final choice set `path[j]` and `x_cont` to `RecoverStep` from `x_cont`. Every other entry is unchanged. |
| `SeamCarvingLib.RecoveredSeamIsCarvedSeam` | wasm/seamcarving.c:172-285 | If no zero right cost is skipped along the way, the recovered path equals the wasm seam and has minimum energy. |
| `SeamCarvingLib.RecoveredRowsAreBacktracked` | wasm/seamcarving.c:209-280 | Row by row, under the same condition, each recovered step is a backtracking step. |
| `SeamCarvingLib.RecoveredSeamNotMinimal` | wasm/seamcarving.c:253 | Energy rows [3, 5, 0] / [9, 0, 9] give cost rows [3, 5, 0] / [12, 0, 9]. `recover_path` starts at column 1 and steps to column 0, a seam of energy 3, while seam [2, 1] has energy 0. |
| `SeamCarvingLib.RemoveSeam` | wasm/seamcarving.c:288-324 | A fresh image with the same height and one column fewer. In every row, R, G and B of columns left of `path[j]` stay in place, and those right of it move one column left. |
| `SeamCarvingLib.RemoveSeamRow` | wasm/seamcarving.c:302-321 | Row j gets the R, G and B of source row j minus column `path[j]`. The alpha bytes of row j and every byte of the other rows keep their values. |
| `SeamCarvingLib.KeepPixel` | wasm/seamcarving.c:305-320 | Unless column i is the seam, its R, G and B go to `KeptColumn(path[j], i)`. No other byte changes, the alpha of that pixel included. |

## Left out

- Integer width: all values are unbounded. The C `int` arithmetic cannot overflow on the values that occur: the squared gradients are at most `6 * 255 * 255`. Byte offsets `4 * height * width` beyond 2^31 are not modelled.
- `sqrt` on a `double` then `(int)`: this is modelled as the exact floor square root `Energy.ISqrt`. With arguments of at most `6 * 255 * 255`, the double result's integer part is that root.
- `double` costs in `best_arr`: these are modelled as `nat`. Every cost is an integer of at most `height * 62`, which a double represents exactly.
- The `(uint8_t)` cast of the library's `calc_energy` (seamcarving.c:85) is not written out. `Energy.PixelEnergy` proves that the value never exceeds 62, so the cast changes nothing.
- `c_img.h` is not part of this model. Its `create_img`, `get_pixel` and `set_pixel` are taken to use the same 4-byte row-major layout as the JavaScript module. The library's `set_pixel` is taken to write R, G and B only. The bytes of a freshly created image are unspecified, so `SeamCarvingLib.RemoveSeam` and `SeamCarvingLib.CalcEnergy` say nothing about the alpha channel of their result.
- `malloc`/`free`, `create_image`/`free_image` (seamcarving_wasm.c:15-22) and the frees at lines 186-188 are not modelled. Dafny arrays are garbage-collected, and allocation failure is not modelled either. The fresh buffers appear as `fresh(...)` in the contracts.
- `get_width`/`get_height` (seamcarving_wasm.c:195-202) return their argument unchanged and are not modelled.
- The JavaScript driver, image decode/encode and the loop that removes several seams are not modelled, because they lie outside the engine.
- `SeamCarvingWasm.SeamCarve`, `SeamCarvingWasm.FillTable` and `SeamCarvingLib.DynamicSeam` require `width >= 2`. At width 1, the table fill's `i == 0` branch reads `best_arr[(j - 1) * width + 1]`, which is then cell (j, 0) itself (seamcarving_wasm.c:107, seamcarving.c:144). That is the cell this iteration is about to write, so it has not been written since `malloc`. Removing a seam from a one-column image is outside the engine's contract.
- `SeamCarvingWasm.CalcEnergy` and the copy methods require the source and destination buffers to be distinct. `seam_carve` passes the freshly allocated `energy_map` and `output` buffers (seamcarving_wasm.c:88, 168). A direct call of `calc_energy` from JavaScript is taken to do the same.
- `seam_carve` is modelled as several methods, one per part, which `SeamCarve` composes in the source's order: `EnergyCostTable`, then `BottomArgmin`, `Backtrack` and `CopyWithoutSeam`. Each helper method models one loop or one loop body.
- `SeamCarvingLib.DynamicSeam` calls the wasm table fill (`SeamCarvingWasm.FillTable`). The library's `dynamic_seam` (seamcarving.c:116-169) has the same loops, the same branches and the same indices. Its `min_2`/`min_3` (seamcarving.c:95-114) are identical to `Seam.Min2`/`Seam.Min3`. Likewise `SeamCarvingLib.WriteEnergy` uses the wasm gradient (`SeamCarvingWasm.GradientAt`), whose neighbours and sums are those of seamcarving.c:42-81.
- `SeamCarvingLib.RecoverPath`: the library checks `j == height - 1` inside its column loop. The model makes that choice once per row and calls `ScanBottomRow` or `ScanRow`; both are faithful to the column loop.
- `SeamCarvingLib.RecoverPath` requires every table entry to be below the sentinel 10^16 (seamcarving.c:185). Without that bound the C code behaves differently in two ways. If every bottom-row entry is at least 10^16, `x_cont` is left uninitialised. In a higher row, the guard at seamcarving.c:209 skips an entry of at least 10^16, which then counts as cost 0 at column 0, since its `e*_sum` and `e*_i` stay 0. `SeamCarvingLib.EnergyTableBelowSentinel` discharges this requirement for every image under 10^16 / 62 rows.
- Every image of at most 2 x 2 pixels has energy 0 everywhere. In such an image the wrapped left and right neighbours of a pixel coincide, and so do the upper and lower ones. `Energy.TinyImageHasZeroEnergy` states this.
- Neither C file validates sizes, so the sizes are preconditions (`1 <= height` and `1 <= width`, or `2 <= width` for seam removal, and path length equal to height).

## Findings

| source | as written | input that shows it | evidently intended | confidence | as-written member | corrected member |
|---|---|---|---|---|---|---|
| wasm/seamcarving.c:253 | `e3_sum == 0` is taken to mean "no right neighbour", so an inner right neighbour whose cumulative cost is exactly 0 is never chosen | energy rows [3, 5, 0] and [9, 0, 9] (cost rows [3, 5, 0] and [12, 0, 9]): the path is [0, 1] with energy 3, while seam [2, 1] has energy 0 | compare the right neighbour whenever it exists, as the JavaScript module's backtracking does | not executed | `SeamCarvingLib.RecoveredSeamNotMinimal` | `Seam.CarvedSeamIsMinimal` |
