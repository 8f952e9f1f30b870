# Metaballs contour renderer — a Dafny model of its core

The program renders moving "metaballs" as contour lines. It samples a scalar
energy field on a regular grid. It then classifies every grid cell with
marching squares: a corner is inside when its sample is strictly above the
threshold. Each cell yields zero, one or two segments, whose endpoints are
placed on the cell's edges by linear interpolation. All cells' segments are
collected in row-major order and scaled into image space. Each segment is
drawn into an RGB buffer with an integer plotter. Before every frame, the
previous frame is faded toward white by a saturating add.

The model has five modules:

- `Marching` (`marching.dfy`): `Interpolate`, `FindContour`, the `Line` and
  `Contour` values, and the `ContourIterator` that yields a result's
  segments one at a time. A reference table of the sixteen cases
  (`Table`, keyed by a 4-bit mask with top-left = 8, top-right = 4,
  bottom-left = 2, bottom-right = 1) is the independent definition that
  `FindContour` is proved against.
- `Sweep` (`sweep.dfy`): `FindAllLines`, the nested row/column sweep. It is
  proved equal to a flat row-major enumeration of the cells and to contain
  exactly the placed segments of the cells.
- `Raster` (`raster.dfy`): the integer line plotter `DrawLine` over a
  two-dimensional `array2` pixel buffer indexed `[y, x]`, with the integer
  square root it uses and `i32` division rounding toward zero; plus the
  per-frame `Fade` of every pixel by a saturating `u8` add of 40.
- `Sampling` (`sampling.dfy`): `Linspace` and `SamplePoints`, which fills a
  two-dimensional `array2` with the field's values at the grid positions.
- `Arith` (`arith.dfy`): small facts about integer multiplication and
  division that the plotter proofs use.

The scalar type of the contour code is modelled as `real`, so the model's
arithmetic is exact. The two pixel-space entities (coordinates and colour
channels) keep their integer types.

## Model

| member | source | states |
|---|---|---|
| Marching.Interpolate | src/main.rs:98-105 | the returned fraction `r` satisfies `a + r * (b - a) == target`: it is where the linear interpolation of the edge reaches the threshold |
| Marching.InterpolateInUnit | src/main.rs:98-105 | when the two corners straddle the threshold, the denominator is nonzero, the fraction lies in [0, 1], and it is 0 exactly when the first corner equals the threshold |
| Marching.InterpolateExample | src/main.rs:19-22 | interpolating threshold 0 between -1 and 2 gives 1/3, the crate's unit test |
| Marching.FindContour | src/main.rs:107-158 | no segment exactly when all four strict comparisons agree; two segments exactly when the pattern is one of the two saddles (1001, 0110) |
| Marching.TableWellFormed | src/main.rs:111-157 | every entry of the sixteen-case table joins two different edges that are both crossed, and uses each crossed edge of its pattern exactly once and no uncrossed edge |
| Marching.FindContourIsTable | src/main.rs:107-158 | the classifier's result equals the reference table entry for the cell's pattern, with each endpoint interpolated on its edge |
| Marching.ComplementSymmetry | src/main.rs:111-157 | a pattern and its complement share a table entry, except the two saddles, which are each other's complements and pair their edges differently |
| Marching.SaddleCutsCorners | src/main.rs:137-156 | for both saddle patterns the table entry has two cuts, and they cut off two distinct corners that are both at or below the threshold, so the two corners above it stay joined |
| Marching.CrossingPointOnEdge | src/main.rs:113-155 | every endpoint lies on its edge of the unit cell at a fraction in [0, 1] where the edge's interpolated value equals the threshold |
| Marching.FindContourInUnitSquare | src/main.rs:107-158 | every endpoint the classifier produces lies in the closed unit square |
| Marching.SignDuality | src/main.rs:107-158 | negating the threshold and all corners (none equal to the threshold) gives the same segments for a non-saddle cell, and the other saddle pairing for a saddle |
| Marching.SaddleExample | src/main.rs:137-146 | the saddle with 1 at top-left and bottom-right and threshold 0.5 gives the two segments (0.5,0)-(1,0.5) and (0,0.5)-(0.5,1) |
| Marching.Lines | src/main.rs:93-95 | the iterator yields at most two segments: none exactly for `None`, two exactly for `Two` |
| Marching.LinesInjective | src/main.rs:93-95 | two results that yield the same segments are equal |
| Marching.ContourIterator.constructor | src/main.rs:70 | the iterator starts holding the whole result |
| Marching.ContourIterator.Next | src/main.rs:78-86 | yields the first remaining segment and removes it from the state; once exhausted it yields nothing and stays exhausted |
| Marching.ContourIterator.Collect | src/main.rs:72-95 | draining the iterator yields exactly the result's segments, in order, and leaves it exhausted |
| Sweep.Place | src/main.rs:207-208 | moving a cell-local point to cell (x, y) and scaling by a nonzero scale can be undone: unscaling and subtracting the cell index recovers the point |
| Sweep.PlaceLine | src/main.rs:203-209 | with a nonzero scale, both endpoints of a placed segment unplace back to the original segment |
| Sweep.CellLines | src/main.rs:193-210 | a cell yields at most two placed segments; none outside the grid's cells; inside, none exactly when its four corners lie on one side of the threshold and two exactly when it is a saddle |
| Sweep.RowFrom | src/main.rs:192-211 | the inner sweep from column x yields exactly the segments of the cells (x', y) with x <= x' < cols |
| Sweep.RowsFrom | src/main.rs:191-212 | the outer sweep from row y yields exactly the segments of the cells in rows y .. rows - 1 |
| Sweep.FindAllLines | src/main.rs:179-213 | a one-row grid yields nothing; otherwise the result is the segments of the (H - 1) x (W - 1) cells concatenated in flat row-major index order |
| Sweep.SweepIsRowMajor | src/main.rs:191-212 | the nested sweep over rows and then columns yields the cells' segments concatenated by flat row-major cell index |
| Sweep.FindAllLinesMembers | src/main.rs:179-213 | a segment is produced exactly when some cell (x, y) with x < W - 1 and y < H - 1 produces it after placement |
| Sweep.AllLinesInGrid | src/main.rs:203-209 | with an exact index conversion and a non-negative scale, every produced endpoint lies in [0, (W - 1) * scale] x [0, (H - 1) * scale] |
| Sweep.NoCrossingNoLines | src/main.rs:179-213 | a grid whose samples are all above the threshold, or all at or below it, yields no segments |
| Raster.ISqrt | src/main.rs:166 | the line length is the floor square root: `r * r <= n < (r + 1) * (r + 1)` |
| Raster.TruncDiv | src/main.rs:172-173 | `i32` division truncates toward zero: the quotient's magnitude is the floor of the magnitudes' quotient, and its sign is the product of the signs |
| Raster.TruncDivByPositive | src/main.rs:172-173 | by a positive divisor the quotient is the floor quotient for a non-negative dividend and the negated floor quotient of the magnitude otherwise |
| Raster.TruncDivExample | src/main.rs:172-173 | -7 divided by 2 gives -3, not the Euclidean -4 |
| Raster.DistSq | src/main.rs:166 | the squared distance is zero exactly for equal endpoints and bounds each squared coordinate difference |
| Raster.LineLen | src/main.rs:166 | the integer length is zero exactly when the endpoints coincide, and is at least the absolute difference of each coordinate |
| Raster.PlotAt | src/main.rs:172-173 | step 0 is the start point and step `len` is the end point |
| Raster.Plotted | src/main.rs:166-176 | the plotter writes `len + 1` pixels (one for a zero-length line), the first being the start point and the last the end point |
| Raster.StepPixel | src/main.rs:172-173 | the `i32` step computation gives the `t`-th plotted pixel, which lies inside the buffer; its body asserts that neither product overflows `i32` |
| Raster.DrawLine | src/main.rs:160-177 | exactly the plotted pixels take the colour, and every other pixel keeps its old value |
| Raster.PlottedInBox | src/main.rs:171-175 | every plotted pixel lies in the bounding box of the two endpoints |
| Raster.PlottedConnected | src/main.rs:171-175 | consecutive plotted pixels differ by at most one in each coordinate |
| Raster.SaturatingAdd | src/main.rs:302-306 | the sum is clamped at 255: it never decreases the channel, and it is either the exact sum or 255 |
| Raster.Fade | src/main.rs:302-306 | every pixel of the buffer has 40 added to each channel, saturating at 255 |
| Raster.Faded | src/main.rs:302-306 | a fade never darkens a channel, and leaves a pixel unchanged exactly when it is white |
| Raster.FadedChannelExact | src/main.rs:301-306 | after k frames of fading, a channel is exactly the smaller of 255 and its start value plus 40 k |
| Raster.FadeToWhite | src/main.rs:301-306 | seven fades turn any channel white (255), whatever was drawn |
| Sampling.Linspace | src/main.rs:25-32 | yields exactly `count` positions |
| Sampling.LinspaceSpacing | src/main.rs:25-32 | the positions start at `a` and rise by the truncated step `(a + b) / count` |
| Sampling.LinspaceExample | src/main.rs:11-17 | three positions from 1 to 3 are [1, 2, 3], the crate's unit test |
| Sampling.LinspaceReal | src/main.rs:25-32 | yields exactly `count` positions over reals |
| Sampling.LinspaceRealFromZero | src/main.rs:25-32 | from 0 the positions are `idx * b / count`, all below `b` when `b` is positive |
| Sampling.SamplePoints | src/main.rs:34-55 | every cell `[j, i]` of the buffer holds the field at the i-th x position and the j-th y position |

## Left out

- `src/drawing.rs` is not part of this model: it is an anti-aliased drawing routine that the program never compiles in.
- `src/endpoint.rs` is not part of this model: it is an `f32` wrapper that exists to satisfy the generic numeric bounds. Its arithmetic is modelled as exact `real` arithmetic.
- `src/num.rs` is not part of this model: it is dead code. No module declares it, and the `num` that `src/main.rs` imports is the external crate.
- `step` and `energy`: the blobs' motion and the metaball field are `f32` physics outside the contour core. `SamplePoints` takes the field as a function parameter.
- The rest of `main` is left out: the PNG encoding, file I/O, the unsafe reinterpretation of the buffer as bytes, and the `f32`-to-`i32` casts of segment endpoints before drawing.
- Floating point: the `f32` rounding of interpolation, sampling and scaling is not modelled; the model's `real` arithmetic is exact. `Interpolate`'s `f32::EPSILON` test tolerance becomes equality.
- `num::integer::sqrt` is a library routine. It is modelled by `ISqrt`, a reference floor square root with the same contract.
- `Marching.ContourIterator`: the lazy `lines()` iterator chain of the sweep is modelled as the sequence `Lines` it yields. `Collect` shows that draining the iterator yields that sequence.
- `Sweep.FindAllLines`: the lazy `flat_map` chain is modelled as the sequence it yields. Its requires `IsGrid` excludes an empty grid, and a grid of two or more rows but zero columns, because the source subtracts 1 from `H` and `W` on unsigned integers there and so panics.
- `Sampling.Linspace` and `Sampling.LinspaceReal`: the generic `linspace` appears as two instances. One is over naturals, for the unit test; it needs a positive count because unsigned division by zero panics. The other is over reals, for the renderer.
- `Sampling.Linspace` does not model `usize` overflow of `a + b` or of `idx * step + a`: the naturals are unbounded, whereas Rust panics there in debug builds and wraps in release builds.
- `Raster.DrawLine` requires both endpoints to lie inside the buffer, as the source's indexing panics otherwise. It also requires the coordinates and the squared distance to fit `i32`, because the source overflows there; the model does not capture that overflow.
- `Raster.Fade` updates pixels one by one; the order of the source's flattened iterator is not observable and is not modelled.
