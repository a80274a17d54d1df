# Verified model of cuberite's integer noise bookkeeping

This project models the integer and array bookkeeping in cuberite's
`source/Noise.cpp`: the parts that sit around its floating-point noise maths.
It has four parts.

- **`IntArrayLinearInterpolate2D`** (`linear_interpolate.dfy`).
  - A flat `int` grid holds correct values at anchor cells, every `stepX`
    columns and every `stepY` rows. The method fills the grid in place.
  - Pass 1 interpolates down each anchor column, between the anchor rows of
    every full band.
  - Pass 2 interpolates along every row, between the anchor columns of every
    full band.
  - Both passes use C++ integer arithmetic, so division truncates toward zero
    (`TruncDiv`).
  - The method is proved against `Interpolated`, a specification function.
    Lemmas about `Interpolated` give:
    - the anchor frame;
    - the value of each pass;
    - what happens to the cells past the last full band;
    - a worked example.
  - `LerpBetween` bounds each interpolated value by the two anchor values it
    comes from.
  - The source never extrapolates, and rows past the last full band of anchor
    rows are not kept as they were: pass 1 skips them, but pass 2 still
    interpolates them along the row from their original anchor-column values
    (`PartialRowsFromOriginal`). The cells that both passes leave alone are:
    - every anchor cell (`AnchorsKept`);
    - the non-anchor columns past the last full band of anchor columns
      (`PartialColumnsKept`);
    - the anchor-column cells of rows past the last full band of anchor rows,
      which pass 1 never reaches and pass 2 does not write;
    - the cells past both last full bands (`PartialCornerKept`).
- **`cCubicCell2D`** (`cubic_cell.dfy`, class `CubicCell2D`).
  - A double-buffered 4 x 4 window of lattice hash values.
  - The window sits at a floor point. Entry `[i, j]` belongs to the lattice
    point `(floorX + i - 1, floorY + j - 1)`.
  - The window invariant is `WindowMatches`: every entry of the active buffer
    holds the hash of its lattice point.
  - `InitWorkRnds` establishes the invariant. `Move` preserves it for a move
    of any distance: it flips the buffers, copies every entry whose lattice
    point stays in the window, and hashes the rest.
  - A ghost counter of hash evaluations proves that a move recomputes exactly
    `16 - max(0, 4 - |dx|) * max(0, 4 - |dy|)` entries.
  - `Generate` writes a rectangle of the output grid with values from the
    window, and changes nothing else.
  - The hash (`cNoise::IntNoise2D` with the cast to the value type) and
    `cNoise::CubicInterpolate` are function-valued parameters. The noise value
    type is the type parameter `T`.
- **The run-length half of `cCubicNoise::CalcFloorFrac`** (`floor_runs.dfy`).
  - It cuts the floor values into maximal runs of equal values and records
    the run lengths in order.
  - `IsRuns` specifies the result. Lemmas give:
    - the shape of the runs (lengths at least 1, as many runs as values at
      most, lengths summing to the size);
    - constancy within a run;
    - maximality of each run;
    - uniqueness of the run lengths.
- **`cCubicNoise::Generate2D`** (`cubic_noise.dfy`).
  - It walks the Y run-groups and, inside each, the X run-groups, moving the
    cell window after each group.
  - Proved: every grid cell is written exactly once, and nothing past
    `sizeX * sizeY` is written. The write count is a ghost shadow.
  - Proved: each cell's value is the bicubic sample of the lattice cell at
    that cell's own floors `(floorX[x], floorY[y])`.
  - The source reads `FloorX[SizeX]` and `FloorY[SizeY]` (lines 421 and 424),
    which `CalcFloorFrac` never fills. The model leaves those entries
    arbitrary. With unbounded integers the result does not depend on them,
    because `Move` keeps the window invariant for a move of any distance. In
    C++ the read of those entries, and any signed overflow of the floor
    arithmetic it can lead to, is undefined behaviour (see `CubicCell.CubicCell2D.Move`
    under "## Left out").

`flat_grid.dfy` holds the row-major index arithmetic. `Pos` gives the flat
position of a cell as `RowStart(width, y) + x`. `RowStart` is `width * y`,
`BandStart` is `r - r % step` and `BandIndex` is `r / step`. These three are
defined by recursion and linked to `*`, `/` and `%` by lemmas.

Sizes are `nat`. A negative size empties the source's loops over that axis, so
no output cell is written, just as with a size of 0. The loops not nested
inside the emptied ones still run, but none of them writes an output cell.
With a negative `SizeX`, the Y loops of `IntArrayLinearInterpolate2D`
(source/Noise.cpp:31 and 49) run with empty X loops, and `Generate2D` runs its
Y-axis table loops, `InitWorkRnds` and its Y loop with an empty X-group loop.
With a negative `SizeY`, every loop of `IntArrayLinearInterpolate2D` is empty,
and `Generate2D` runs only its X-axis table loops in `CalcFloorFrac` (lines
403, 442 and 453) and the loops of `InitWorkRnds` (lines 408, 167 and 170).
These loops do write the floor, fraction and run tables and the cell window.

Steps must be positive. With a step of 0 and positive sizes, the source never
leaves its loops. With a negative step and positive sizes, the source reads
before the start of the array: line 37 reads
`a_Array[Idx + a_SizeX * a_AnchorStepY]` at a negative index on the first row,
and line 55 reads `a_Array[Idx + a_AnchorStepX]` the same way. A negative step
is therefore undefined behaviour in the source too.

## Model

| member | source | states |
|---|---|---|
| FlatGrid.Pos | source/Noise.cpp:151-154 | the position `y * sizeX + x` of a grid cell lies below `sizeX * sizeY`, inside the array |
| FlatGrid.RowStartIsProduct | source/Noise.cpp:33 | the recursive row start equals the C++ `a_SizeX * y` |
| FlatGrid.PosInjective | source/Noise.cpp:151-154 | two grid cells with the same flat position are the same cell |
| FlatGrid.BandStartIsRoundDown | source/Noise.cpp:31-34 | the anchor reached by stepping `y += step` that owns index r is `r - r % step`, the `(r / step)`-th anchor |
| LinearInterpolate.TruncDivTruncates | source/Noise.cpp:41 | the model of C++ `/` truncates toward zero: the remainder is below the divisor in size and has the dividend's sign |
| LinearInterpolate.LerpBetween | source/Noise.cpp:41 | `Start + Cell * Diff / Step` for `0 <= Cell <= Step` lies between the two anchor values |
| LinearInterpolate.LerpEnds | source/Noise.cpp:41 | the interpolation rule gives the start anchor at offset 0 and the end anchor at offset Step |
| LinearInterpolate.IntArrayLinearInterpolate2D | source/Noise.cpp:23-64 | every grid cell ends as `Interpolated` of the original grid (pass 2 after pass 1), and every index at or past `sizeX * sizeY` is unchanged |
| LinearInterpolate.InterpolateColumns | source/Noise.cpp:29-45 | after pass 1 every grid cell holds `ColumnPass` of the original grid, and indices past the grid are unchanged |
| LinearInterpolate.InterpolateBand | source/Noise.cpp:33-44 | one band of anchor rows: its interior rows get the column interpolation, every other cell keeps its value |
| LinearInterpolate.InterpolateAnchorColumn | source/Noise.cpp:36-43 | one anchor column of a band, its anchor values read from the grid: the band's cells up to the next anchor column hold their pass-1 values, every other cell keeps its value |
| LinearInterpolate.InterpolateColumnCell | source/Noise.cpp:39-42 | rows `y + 1 .. y + stepY - 1` of anchor column x get the interpolated values, every other cell keeps its value |
| LinearInterpolate.InterpolateRows | source/Noise.cpp:47-63 | after pass 2 every grid cell holds `RowPass` of the grid pass 1 left, and indices past the grid are unchanged |
| LinearInterpolate.InterpolateRow | source/Noise.cpp:51-62 | one row: the cells inside full bands of anchor columns get the row interpolation, every other cell keeps its value |
| LinearInterpolate.InterpolateRowCell | source/Noise.cpp:57-60 | one band of one row: columns `x + 1 .. x + stepX - 1` get the interpolated values, every other cell keeps its value |
| LinearInterpolate.AnchorsKept | source/Noise.cpp:30-34 | a cell with `x % stepX == 0` and `y % stepY == 0` keeps its original value |
| LinearInterpolate.ColumnValue | source/Noise.cpp:36-41 | pass 1 gives anchor column x, row `y + c` (`0 < c < stepY`, y an anchor row of a full band) the value `S + truncdiv(c * (E - S), stepY)` |
| LinearInterpolate.RowValue | source/Noise.cpp:54-59 | pass 2 gives column `x + d` (`0 < d < stepX`, x an anchor column of a full band) the same rule applied to the pass-1 values of the two anchor columns |
| LinearInterpolate.PartialColumnsKept | source/Noise.cpp:48-52 | a non-anchor column past the last full band of anchor columns keeps its original value |
| LinearInterpolate.PartialRowsFromOriginal | source/Noise.cpp:30-31 | a row past the last full band of anchor rows is untouched by pass 1, so its final value is pass 2 applied to the original grid |
| LinearInterpolate.PartialCornerKept | source/Noise.cpp:30-34 | a cell past both the last full band of anchor rows and the last full band of anchor columns keeps its original value |
| LinearInterpolate.WorkedExample | source/Noise.cpp:23-64 | an 8 x 1 row with step 4 and anchors 0 and 40 becomes 0, 10, 20, 30, 40, and columns 5 to 7 keep whatever they held |
| FloorRuns.MarkSameRuns | source/Noise.cpp:450-467 | the run lengths written to `same[0..numSame)` cut the first `size` floors into maximal constant runs, `numSame <= size`, and the rest of `same` is unchanged |
| FloorRuns.CloseRun | source/Noise.cpp:457-459 | recording `i - LastSame` appends one run and keeps the run decomposition of the floors so far |
| FloorRuns.RunsAppend | source/Noise.cpp:455-466 | a constant block whose value differs from the last floor extends a run decomposition by one run of its length |
| FloorRuns.RunsShape | source/Noise.cpp:450-467 | the run lengths sum to the size, number at most the size, are each at least 1, and there is at least one run exactly when the size is positive |
| FloorRuns.RunsConstant | source/Noise.cpp:455 | every floor in the k-th run equals the floor at the run's start |
| FloorRuns.RunsMaximal | source/Noise.cpp:455-460 | the floor changes at the boundary between two adjacent runs |
| FloorRuns.RunsUnique | source/Noise.cpp:450-467 | the run lengths are determined by the floors |
| CubicCell.KeptAll | source/Noise.cpp:196-201 | along one axis a move by d keeps exactly `max(0, 4 - abs(d))` window positions |
| CubicCell.MoveCost | source/Noise.cpp:191-208 | the entries a move rehashes number `16 - max(0, 4 - abs(dx)) * max(0, 4 - abs(dy))` |
| CubicCell.CubicCell2D.BufferSampleIsLattice | source/Noise.cpp:147-154 | under the window invariant, the value Generate writes is the bicubic sample of the lattice cell at the current floor |
| CubicCell.CubicCell2D.constructor | source/Noise.cpp:117-132 | the cell holds the given output, sizes, fractions and hash; the active buffer is buffer 1; no write or hash yet |
| CubicCell.CubicCell2D.InitWorkRnds | source/Noise.cpp:163-176 | the floor becomes (floorX, floorY), every active entry `[i, j]` is the hash of `(floorX + i - 1, floorY + j - 1)` (16 hashes), and the other buffer is unchanged |
| CubicCell.CubicCell2D.HashColumn | source/Noise.cpp:167-175 | window column x of the buffer gets the hashes of its four lattice points, and the other columns keep their values |
| CubicCell.CubicCell2D.HashEntry | source/Noise.cpp:172-173 | entry `[x, y]` gets the hash of its lattice point `(floorX + x - 1, floorY + y - 1)`, at the cost of one hash evaluation; the other 15 entries keep their values |
| CubicCell.CubicCell2D.Move | source/Noise.cpp:182-213 | the active buffer flips; the old one is unchanged; each new entry is the old entry of the same lattice point if there was one, else its hash; the window invariant is preserved for any move distance; exactly `16 - Overlap(dx) * Overlap(dy)` hashes are computed; a move to the current floor computes none and copies the window unchanged |
| CubicCell.CubicCell2D.Refill | source/Noise.cpp:193-210 | every entry of the new buffer is the old entry of its lattice point or its hash, and `Recomputed(dx, dy, 4)` hashes are computed |
| CubicCell.CubicCell2D.MoveColumn | source/Noise.cpp:195-209 | window column x of the new buffer is refilled, costing one hash per entry whose old position falls outside the old window; the other columns keep their values |
| CubicCell.CubicCell2D.MoveEntry | source/Noise.cpp:199-208 | entry `[x, y]` of the new buffer is the old entry of its lattice point if the old window held it, else its hash, which costs one hash evaluation; the other 15 entries keep their values |
| CubicCell.CubicCell2D.RefilledMatches | source/Noise.cpp:191-209 | refilling from a window that matches the lattice at the old floor gives a window that matches it at the new floor |
| CubicCell.CubicCell2D.RefilledInPlace | source/Noise.cpp:191-203 | a move by distance zero copies every entry |
| CubicCell.CubicCell2D.Generate | source/Noise.cpp:138-157 | each cell of `[fromX, toX) x [fromY, toY)` gets the cubic sample of the window at `(fracX[x], fracY[y])` and one more write; every other output index, in the grid or past it, is unchanged |
| CubicCell.CubicCell2D.GenerateRow | source/Noise.cpp:143-156 | one row of the rectangle is written from the four column interpolations; nothing else changes |
| CubicCell.CubicCell2D.GenerateCell | source/Noise.cpp:154 | output cell (x, y), at `y * sizeX + x`, gets the value and one more write; every other output index and its write count are unchanged |
| CubicNoise.Generate2D | source/Noise.cpp:382-427 | every grid cell (x, y) is written exactly once, with the bicubic lattice sample at floors `(floorX[x], floorY[y])` and fractions `(fracX[x], fracY[y])`, whatever `floorX[sizeX]` and `floorY[sizeY]` hold; nothing past `sizeX * sizeY` is written |
| CubicNoise.GenerateBands | source/Noise.cpp:408-426 | band by band, all rows are written once with their lattice samples from a window kept at each band's floor; the window ends at `(floorX[0], floorY[sizeY])` with its invariant intact |
| CubicNoise.Band | source/Noise.cpp:412-426 | the rows of one Y run-group are written once, and the window then sits at the next group's floor with its invariant intact |
| CubicNoise.GenerateBand | source/Noise.cpp:416-423 | group by group along X, the band's cells are written once with the lattice sample at their own X floor and the band's Y floor `floorY[fromY]`; the window ends at X floor `floorX[sizeX]`, the entry line 421 moves to last, with the Y floor unchanged and its invariant intact |
| CubicNoise.Group | source/Noise.cpp:419-422 | the cells of one X run-group of a band get the lattice sample at their floors and one write each, and the window then sits at the next column's X floor and the given Y floor `curFloorY` with its invariant intact |

## Left out

- The float half of `CalcFloorFrac` (source/Noise.cpp:440-447: `val += dif`, `FAST_FLOOR`, the fractions): floating point. `Floor` and `Frac` are inputs of `Generate2D`.
- `FAST_FLOOR` (source/Noise.cpp:14): floating point. It is not modelled, so its behaviour on negative whole numbers (one below the floor) is not captured.
- The point samplers `LinearNoise1D`, `CosineNoise1D`, `CubicNoise1D`, `SmoothNoise1D`, `CubicNoise2D` and `CubicNoise3D` (source/Noise.cpp:231-364): float expressions over helpers declared in Noise.h, which is not part of this model.
- `cNoise::IntNoise2D` and `cNoise::CubicInterpolate`: declared in Noise.h, which is not part of this model. They are function-valued parameters, so the value type's arithmetic is not modelled.
- Equality of `cCubicCell2D::Generate` (Y first) with `CubicNoise2D` (X first): it holds only in exact arithmetic, which an uninterpreted `CubicInterpolate` cannot express.
- CubicCell.CubicCell2D.Move: does not model the 32-bit width of the floor arithmetic of `cCubicCell2D`, because integers are unbounded here. The affected expressions are `a_FloorX + x - 1` (source/Noise.cpp:169), `OldFloorX - a_NewFloorX` (line 191), `a_NewFloorX + x - 1` (line 195) and `x - DiffX` (line 196), and likewise for Y. Each overflows for a floor near the ends of the `int` range. Such floors can come from the unfilled entries `FloorX[SizeX]` and `FloorY[SizeY]` (lines 421 and 424), which the model leaves arbitrary. In C++, reading those entries and any signed overflow that follows are undefined behaviour. Under two's-complement wrap-around the window invariant would still hold modulo 2^32.
- IntArrayLinearInterpolate2D: does not model 32-bit overflow of `CellY * Diff`, `CellX * Diff` or `EndValue - StartValue`, because integers are unbounded here.
- The value of `MAX_SIZE` and the SSE include (source/Noise.cpp:10-12): not visible. `MAX_SIZE` is the parameter `maxSize` of `Generate2D`.
- The `ASSERT(a_StartX < a_EndX)` and `ASSERT(a_StartY < a_EndY)` checks (source/Noise.cpp:392-393): they are about the float inputs of `CalcFloorFrac`, which are not modelled. The size checks of lines 390-391 are `requires` clauses.
- The `a_Workspace` parameter of `Generate2D`: the source never uses it.
- Uninitialised C++ storage: the cell's buffers and floor and the `SameX`/`SameY` tables start with default values here. No result depends on them.
- Generate2D: does not state its total number of hash evaluations. The per-move count is in the contract of `Move`.
- The `cCubicNoise` constructor (source/Noise.cpp:373-376): it only stores the seed of the hash, which is a parameter here.
