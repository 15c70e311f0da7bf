# cobi in Dafny

This is a model of the core of cobi, a lossy image codec that encodes each colour channel (R, G, B, A) of an image separately. The encoder cuts a channel into rectangular *encoded areas*. Each area keeps only its position, its size and the four samples at its corners. The decoder rebuilds every area by interpolating between those four corners.

The model follows the repository's files:

- `basics.dfy` (`Basics`): shared vocabulary.
  - Bytes and the four-corner `Quad`.
  - Go's wrapping byte subtraction.
  - Row-major order on pixels.
  - The column-first layout of a channel (`values[x][y]`).
  - `Option` / `Result`.
- `util.dfy` (`Util`): `TransposeArray` and the transpose it computes.
- `interpolation.dfy` (`Interpolation`): the interpolator.
  - The imperative `Interpolate`, `InterpolateRow` and `InterpolateColumn` on `array2<Byte>`.
  - These are proved equal to three specification functions. `Placed` describes the grid after the four corner writes, `RowPhase` after the first and last rows, and `Cell` the finished grid.
  - Properties of `Cell`: corners, the degenerate 1-wide and 1-high cases, flat areas and monotonicity.
- `interpolation_tests.dfy` (`InterpolationTests`): the grids of the interpolation tests, cell by cell.
- `coverage.dfy` (`Coverage`): the coverage grid both channel encoders keep. It holds the marking loops of `addToCoverageMap` and the frontier scan of `findMinUncoveredPixel`.
- `encoder.dfy` (`Encoder`): the greedy encoder of `cobi/encoding/encoder.go`.
  - The search of `getAreaSize` is specified by the functions `Pass`, `Grow` and `AreaSize`.
  - The quality score is an opaque `Acceptance` predicate.
  - The `ChannelEncoder` class is proved to tile the image. Its areas are disjoint, cover every pixel, appear in row-major order of origin and carry their corner samples.
  - Also here: `GetDebugImage`.
- `canvas.dfy` (`Canvas`): the pasting step both decoders share. `Painted` gives the value of a pixel after the areas' blocks are pasted in list order.
- `decoder.dfy` (`Decoder`): the decoder of `cobi/encoding/decoder.go`.
  - Size derivation, size checks and plane construction.
  - Encoding then decoding succeeds with the original size and reproduces every area's corner samples.
  - The decode test's fixture.
- `io.dfy` (`Io`): the 5-byte record of `serialize` and the buffer built by `Write`.
  - What a record keeps: the corner values and W.
  - What it loses: X, Y, H and the channel boundaries.
- `legacy_encoder.dfy` (`LegacyEncoder`): the superseded fixed-3×3 encoder of `cobi/encoding/encoding.go`.
  - From a fresh encoder, its areas advance band by band and tile the image.
  - From another coverage state, an area can overlap covered pixels.
  - The scenario of its unit test.
- `legacy_decoder.dfy` (`LegacyDecoder`): the older decoder of `cobi/decoding/decoder.go`. Unlike the newer one, it rejects a channel whose areas leave a gap.
- `stub.dfy` (`Stub`): the stub `cobi/encoding.go`.
  - Its inclusive `Contains` and its empty `Encode` / `EncodeChannel`.
  - Its frontier search as written, next to the search its comment describes.
- `raster.dfy` (`Raster`): the row-major search for the first pixel that a coverage test rejects. The legacy decoder and the corrected stub search both use it.

`cobi/encoding/encoding.go` declares its own `EncodedArea`, whose sizes are `int` where `cobi/encoding/encoder.go` uses `uint8`. The legacy modules therefore keep their own `Area` type, and the list functions over areas (`Patches`, `MaxRight`, `MaxBottom`, the frontier scan) are declared again for it.

Grids the Go code fills in place are `array2<Byte>` or `array2<bool>`, indexed `[x, y]` like the Go slices. Channel samples, which are only read, are `seq<seq<Byte>>`. Integers are unbounded. The 8-bit fields and the byte arithmetic are written out explicitly (`Byte`, `WrapSub`, `% 256`).

## Model

| member | source | states |
|---|---|---|
| Basics.WrapSub | cobi/interpolate/interpolate.go:36 | the byte difference `hi - lo` is the plain difference when hi ≥ lo, and wraps to difference + 256 otherwise |
| Util.Transposed | cobi/util/util.go:15-28 | the transpose has len(s[0]) rows of length len(s), with r[i][j] == s[j][i] |
| Util.TransposeArray | cobi/util/util.go:15-28 | the nested index loops build exactly the transpose, for any non-empty input whose rows are at least as long as the first |
| Util.TransposeTwice | cobi/util/util.go:15-28 | transposing a rectangular array twice gives it back |
| Interpolation.Interpolate | cobi/interpolate/interpolate.go:8-30 | needs w, h ≥ 1; returns a fresh w-by-h grid equal to `Cell` at every pixel (corners written v0..v3, then rows 0 and h-1, then every column) |
| Interpolation.InterpolateRow | cobi/interpolate/interpolate.go:32-40 | only cells 1..w-2 of row y change, each to the step between the row's unchanged end cells; every other cell keeps its value |
| Interpolation.InterpolateColumn | cobi/interpolate/interpolate.go:42-50 | only cells 1..h-2 of column x change, each to the step between the column's unchanged end cells; every other cell keeps its value |
| Interpolation.CornersExact | cobi/interpolate/interpolate.go:15-18 | for w, h ≥ 2 the four corners are v[0], v[1], v[2], v[3] |
| Interpolation.DegenerateCorners | cobi/interpolate/interpolate.go:15-18 | the later corner write wins: 1x1 is v[3]; a single column runs v[1] to v[3]; a single row runs v[2] to v[3] |
| Interpolation.CornersReproduced | cobi/interpolate/interpolate.go:15-27 | when the samples agree where corners coincide, every corner of the finished grid keeps its sample, at any size |
| Interpolation.StepOfEqualEnds | cobi/interpolate/interpolate.go:36-38 | equal end points give a zero step: every interpolated cell equals the end point |
| Interpolation.StepNoWrap | cobi/interpolate/interpolate.go:36-38 | with lo ≤ hi no byte wrap occurs, and step i is lo plus a truncated share of hi - lo that never exceeds hi - lo |
| Interpolation.StepMonotone | cobi/interpolate/interpolate.go:46-48 | for lo ≤ hi the steps lie in [lo, hi] and never decrease |
| Interpolation.FlatArea | cobi/interpolate/interpolate.go:8-30 | four equal corners give that value at every pixel |
| Interpolation.RowMonotone | cobi/interpolate/interpolate.go:20-22 | rows 0 and h-1 are non-decreasing and bounded by their end cells when the right end is not below the left |
| Interpolation.ColumnMonotone | cobi/interpolate/interpolate.go:24-27 | each column is non-decreasing and bounded by its finished end cells when the bottom is not below the top |
| InterpolationTests.ThreeByFourExample | cobi/interpolate/interpolate_test.go:8-24 | Interpolate(3, 4, [0,8,5,10]) has the rows {0,4,8}, {1,5,8}, {3,6,9}, {5,7,10} |
| InterpolationTests.EqualColumnExample | cobi/interpolate/interpolate_test.go:39-55 | the 3x4 grid with an equal right column (corners 0, 8, 5, 8) has the rows {0,4,8}, {1,4,8}, {3,5,8}, {5,6,8} |
| InterpolationTests.LineExamples | cobi/interpolate/interpolate_test.go:57-97 | the single row and the single column both run 0, 2, 4, 6; the single point is 42 |
| InterpolationTests.WrappedStepExample | cobi/interpolate/interpolate.go:36 | a decreasing pair wraps: the middle of a 3-wide last row from 18 to 10 is 142 |
| Coverage.Mark | cobi/encoding/encoder.go:155-160 | exactly the area's pixels become covered and no other cell changes |
| Coverage.ScanFrom | cobi/encoding/encoder.go:167-178 | the row-major first uncovered pixel in the rows from `row` on, or (-1, -1) exactly when all of them are covered |
| Coverage.ColumnStaysFree | cobi/encoding/encoder.go:164-166 | under the growth order (covered pixels below the frontier row are closed upwards), a pixel free in the frontier row is free all the way down |
| Raster.FirstUncovered | cobi/decoding/decoder.go:65-68 | (-1, -1) exactly when every pixel passes the coverage test; otherwise the row-major first pixel that fails it |
| Canvas.Paint | cobi/encoding/decoder.go:75-93 | a fresh zeroed width-by-height grid with every block pasted in list order, equal to `Painted` at every pixel |
| Canvas.Paste | cobi/encoding/decoder.go:85-89 | the block's cells are copied to its offset and every other cell keeps its value |
| Canvas.PaintedUncovered | cobi/encoding/decoder.go:76-80 | a pixel no area covers stays 0 |
| Canvas.PaintedLastWins | cobi/encoding/decoder.go:82-90 | the last area covering a pixel decides its value, overwriting earlier ones |
| Canvas.PaintedOwner | cobi/encoding/decoder.go:82-90 | with disjoint areas a pixel shows the interpolation of the one area covering it |
| Canvas.PaintedCorners | cobi/encoding/decoder.go:82-90 | with disjoint areas and consistent samples, each area's corner pixels show its corner samples |
| Encoder.Area.AsPatch | cobi/encoding/encoder.go:17-24 | `Contains` is the half-open box X ≤ x < X+W, Y ≤ y < Y+H, and the interpolated block is built from the area's W, H and Values |
| Encoder.ContainsTest | cobi/encoding/encoding_test.go:8-38 | the 4x2 area at (3, 2) contains exactly columns 3..6 of rows 2 and 3 in the probed window |
| Encoder.TilingOwner | cobi/encoding/encoder.go:113-125 | in a tiling every pixel lies in exactly one area |
| Encoder.PassKeepsCandidate | cobi/encoding/encoder.go:197-213 | one diagonal keeps the best shape accepted (or 1x1), narrower than the run, 1..253 high, ending above the last row, and never shrinks its area |
| Encoder.GrowKeepsCandidate | cobi/encoding/encoder.go:195-217 | the diagonal search keeps those bounds and never shrinks the best area |
| Encoder.AreaSizeBounds | cobi/encoding/encoder.go:184-224 | the chosen width lies in [1, run] for a non-empty run; the height lies in [1, 253] and, when > 1, ends above the last row |
| Encoder.AreaSizeAccepted | cobi/encoding/encoder.go:195-222 | the chosen shape is 1x1 or accepted by the quality test; only its width may then snap to the whole run (when within 2 of it) without a new test |
| Encoder.RunFromBounds | cobi/encoding/encoder.go:184-189 | the free run is at most 255, lies in the image on uncovered pixels, and is non-empty at an uncovered pixel |
| Encoder.ChannelEncoder.constructor | cobi/encoding/encoder.go:75-89 | nothing covered, frontier (0, 0), greedy state |
| Encoder.ChannelEncoder.FindMinUncoveredPixel | cobi/encoding/encoder.go:164-178 | the row-major first uncovered pixel from the frontier's row on, or (-1, -1) when those rows are full |
| Encoder.ChannelEncoder.AddToCoverageMap | cobi/encoding/encoder.go:155-162 | marks exactly the area, then sets the frontier to the first uncovered pixel; the frontier never moves back and passes the area's origin; the growth order is kept |
| Encoder.ChannelEncoder.RunLength | cobi/encoding/encoder.go:184-189 | the length of the uncovered run right of (x, y), capped at 255 and at the image edge |
| Encoder.ChannelEncoder.Diagonal | cobi/encoding/encoder.go:196-213 | the inner loop equals `Pass` for one diagonal; every quality test it makes reads samples inside the image |
| Encoder.ChannelEncoder.DiagonalStep | cobi/encoding/encoder.go:197-212 | one width of the inner loop advances `Pass` by one step and keeps the best shape accepted (or 1x1), narrower than the run and ending above the last row |
| Encoder.ChannelEncoder.GetAreaSize | cobi/encoding/encoder.go:180-225 | returns `AreaSize` of the free run: the width lies on uncovered in-image pixels and is ≥ 1 at an uncovered pixel; the height is ≥ 1 and fits the image |
| Encoder.Sampled | cobi/encoding/encoder.go:137-148 | the area at (x, y) of size w by h carries the samples at its UL, UR, BL and BR corners |
| Encoder.ChannelEncoder.FindLargestNonEncodedArea | cobi/encoding/encoder.go:129-153 | None exactly when the frontier is -1; otherwise the `AreaSize` area at the frontier with its UL, UR, BL, BR samples, inside the image and on uncovered pixels only; it is marked and the frontier moves past it |
| Encoder.ChannelEncoder.EncodeStep | cobi/encoding/encoder.go:116-122 | one round of the loop: None only once the frontier is -1; otherwise the new area extends the list, which stays disjoint, ordered, sampled and on uncovered pixels, and the frontier moves forward |
| Encoder.ChannelEncoder.EncodeChannel | cobi/encoding/encoder.go:113-125 | terminates; areas inside the image, pairwise disjoint, in row-major order, on previously uncovered pixels, carrying their corner samples, and covering every pixel |
| Encoder.EncodeFresh | cobi/encoding/encoder.go:94-103 | a fresh encoder's areas tile the channel in row-major order and carry their corner samples |
| Encoder.Encode | cobi/encoding/encoder.go:92-111 | four lists, one per channel R, G, B, A, each a tiling with sampled corners |
| Encoder.MarkCorners | cobi/encoding/encoder.go:49-54 | a pixel becomes 255 exactly when it is a corner of some area; the others keep their value |
| Encoder.FillOpaque | cobi/encoding/encoder.go:57-61 | every pixel of the plane becomes 255 |
| Encoder.GetDebugImage | cobi/encoding/encoder.go:26-64 | planes R, G, B are 255 exactly at the corners of that channel's areas and 0 elsewhere; plane A is 255 everywhere |
| Decoder.Patches | cobi/encoding/decoder.go:82-83 | one block per area, in list order, built from that area |
| Decoder.WithinExtent | cobi/encoding/decoder.go:51-65 | every area ends within the running maxima: X+W ≤ MaxRight and Y+H ≤ MaxBottom |
| Decoder.ExtentAttained | cobi/encoding/decoder.go:51-65 | a non-zero MaxRight (MaxBottom) is the X+W (Y+H) of some area, so the maxima are the largest edges |
| Decoder.GetSizeOfChannel | cobi/encoding/decoder.go:51-73 | the running maxima equal MaxRight and MaxBottom; never an error (the coverage check is commented out) |
| Decoder.GetAndEnsureWidthHeight | cobi/encoding/decoder.go:23-49 | an error exactly when the widths or heights differ, widths reported first, with (-1, -1); otherwise channel R's size |
| Decoder.InterpolateChannel | cobi/encoding/decoder.go:75-93 | a width-by-height plane holding the areas pasted in order; every write is in range because the size bounds every X+W and Y+H |
| Decoder.Decode | cobi/encoding/decoder.go:9-21 | fails exactly on a size mismatch (width before height); otherwise the common size and four planes, plane c being channel c's areas pasted in order |
| Decoder.SizeRecovered | cobi/encoding/decoder.go:51-65 | a tiling of a width-by-height image spans exactly width by height |
| Decoder.PatchesDisjoint | cobi/encoding/decoder.go:82-90 | disjoint areas give disjoint blocks |
| Decoder.CornersRoundTrip | cobi/encoding/decoder.go:82-90 | decoding an encoder tiling shows each area's four values at its four corner pixels |
| Decoder.PlaneKeepsCorners | cobi/encoding/decoder.go:75-93 | a plane holding a pasted tiling keeps every area's corner samples |
| Decoder.EncodeThenDecode | cobi/encoding/decoder.go:9-21 | Encode followed by Decode succeeds, gives back the original size, and every plane shows the original samples at every area's corners |
| Decoder.DecodeTestFixture | cobi/encoding/decoder_test.go:29-42 | four copies of the test's areas decode to an 8x5 image with four equal planes |
| Decoder.TestFixtureAgrees | cobi/encoding/decoder_test.go:21-27 | the top-row cells where the code and the test's expected grid agree: 0, 2, 10 and 13 |
| Decoder.FixtureCell13 | cobi/encoding/decoder_test.go:21-27 | at (1, 3) the code gives 6 (column 2 to 8, truncated), where the test expects 7 |
| Decoder.FixtureCell14 | cobi/encoding/decoder_test.go:21-27 | at (1, 4) the code gives 8 (row 5 to 20, truncated), where the test expects 9 |
| Decoder.FixtureCell61 | cobi/encoding/decoder_test.go:21-27 | at (6, 1) the code gives 77 (column 13 to the wrapped 142), where the test expects 13 |
| Decoder.FixtureCell62 | cobi/encoding/decoder_test.go:21-27 | at (6, 2) the code gives 142 (row 18 down to 10, wrapped), where the test expects 14 |
| Decoder.FixtureCell71 | cobi/encoding/decoder_test.go:21-27 | at (7, 1) the code gives 140 (column 14 down to 10, wrapped), where the test expects 12 |
| Decoder.TestFixtureCells | cobi/encoding/decoder_test.go:21-27 | all of the above: the agreeing top-row cells and the five cells where code and test part (6, 8, 77, 142, 140) |
| Io.Serialize | cobi/encoding/io.go:19-27 | exactly five bytes |
| Io.ParseSerialize | cobi/encoding/io.go:19-27 | the record holds Values[0..3], then W, in that order |
| Io.SerializeKeeps | cobi/encoding/io.go:19-27 | two areas serialise alike exactly when their values and widths agree |
| Io.SerializeNotInjective | cobi/encoding/io.go:19-27 | two different areas (differing in X, Y, H) with the same record |
| Io.Records | cobi/encoding/io.go:10-14 | five bytes per area |
| Io.ParseAll | cobi/encoding/io.go:10-14 | one record per five bytes |
| Io.Write | cobi/encoding/io.go:7-17 | the buffer is the records of channels R, G, B, A in order, areas in list order |
| Io.ParseRecords | cobi/encoding/io.go:10-14 | reading a buffer back gives, area by area in order, its values and width |
| Io.JoinedFour | cobi/encoding/io.go:10-14 | the four channels' lists follow one another in the buffer |
| Io.BoundariesLost | cobi/encoding/io.go:10-14 | no count or separator is written: moving areas between adjacent channels leaves the buffer unchanged |
| Io.EmptyBuffer | cobi/encoding/io.go:7-17 | four empty channels give an empty buffer |
| Io.BufferLength | cobi/encoding/io.go:7-17 | the buffer length is 5 times the total number of areas |
| LegacyEncoder.Side | cobi/encoding/encoding.go:95-103 | the side is min(3, extent - position) |
| LegacyEncoder.Area.AsPatch | cobi/encoding/encoding.go:15-22 | `Contains` is the half-open box, and the interpolated block is built from the area's fields |
| LegacyEncoder.BandGrows | cobi/encoding/encoding.go:95-129 | adding the fixed-size area at the frontier to the band coverage gives the band coverage of the next frontier, or everything |
| LegacyEncoder.FirstUncoveredUnique | cobi/encoding/encoding.go:132-146 | there is only one row-major first uncovered pixel |
| LegacyEncoder.ChannelEncoder.constructor | cobi/encoding/encoding.go:32-45 | nothing covered, frontier (0, 0), banded state |
| LegacyEncoder.ChannelEncoder.FindMinUncoveredPixel | cobi/encoding/encoding.go:132-146 | the row-major first uncovered pixel from the frontier's row on, or (-1, -1) |
| LegacyEncoder.ChannelEncoder.AddToCoverageMap | cobi/encoding/encoding.go:123-130 | marks exactly the area, then rescans from the old frontier row; the frontier never moves back and passes the area's origin |
| LegacyEncoder.ChannelEncoder.FindLargestNonEncodedArea | cobi/encoding/encoding.go:85-121 | None exactly when the frontier is -1; otherwise the min(3, ·)-sided area at the frontier with its UL, UR, BL, BR samples, marked as covered; from a banded state it lies on uncovered pixels and the frontier moves to the next band position |
| LegacyEncoder.ChannelEncoder.FollowsBand | cobi/encoding/encoding.go:118-146 | after the area at a banded frontier, the rescan lands on the next band position and the coverage is again banded |
| LegacyEncoder.ChannelEncoder.EncodeStep | cobi/encoding/encoding.go:72-78 | one round of the loop from a banded state: None only once the frontier is -1; otherwise the new area extends the list, which stays disjoint, ordered, sampled and on uncovered pixels, and the frontier moves forward |
| LegacyEncoder.ChannelEncoder.EncodeChannel | cobi/encoding/encoding.go:69-81 | from a banded state: terminates; areas disjoint, in row-major order, on uncovered pixels, with their corner samples, covering every pixel |
| LegacyEncoder.EncodeFresh | cobi/encoding/encoding.go:50 | a fresh encoder's areas tile the channel |
| LegacyEncoder.Encode | cobi/encoding/encoding.go:48-67 | four lists, one per channel, each a tiling with sampled corners |
| LegacyEncoder.FixtureEncoder | cobi/encoding/encoding_test.go:65-68 | after the three test areas are marked on a fresh 8x8 encoder, the frontier is (4, 2) |
| LegacyEncoder.FixtureFrontier | cobi/encoding/encoding_test.go:41-48 | the first uncovered pixel of the drawn coverage is (4, 2), and (7, 3) once the 3x3 area at (4, 2) is added |
| LegacyEncoder.FixtureScenario | cobi/encoding/encoding_test.go:40-79 | after the three test areas on the 8x8 channel, the next area is (4, 2), 3x3, values 4, 6, 4, 6, and the frontier becomes (7, 3) |
| LegacyEncoder.OverlapScenario | cobi/encoding/encoding.go:95-103 | the fixed size ignores coverage: the area at the frontier spans an already covered pixel |
| LegacyDecoder.Patches | cobi/decoding/decoder.go:80-81 | one block per area, in list order, built from that area |
| LegacyDecoder.WithinExtent | cobi/decoding/decoder.go:52-63 | every area ends within the running maxima of X+W and Y+H |
| LegacyDecoder.ExtentAttained | cobi/decoding/decoder.go:52-63 | a non-zero maximum is the far edge of some area, so the maxima are the largest edges |
| LegacyDecoder.ContainedBy | cobi/decoding/decoder.go:65 | true exactly when some area contains the pixel |
| LegacyDecoder.GetSizeOfChannel | cobi/decoding/decoder.go:52-71 | an error (with -1, -1) exactly when a pixel of the areas' extent lies in no area; otherwise the maxima of X+W and Y+H |
| LegacyDecoder.GetAndEnsureWidthHeight | cobi/decoding/decoder.go:24-50 | a gap in any channel is reported first, then a width mismatch, then a height mismatch, each with (-1, -1); otherwise channel R's size |
| LegacyDecoder.InterpolateChannel | cobi/decoding/decoder.go:73-91 | a width-by-height plane holding the areas pasted in order |
| LegacyDecoder.Decode | cobi/decoding/decoder.go:10-22 | fails exactly on a gap or a size mismatch (no image); otherwise the common size and each channel's areas pasted |
| LegacyDecoder.GaplessPainted | cobi/decoding/decoder.go:65-91 | once the coverage check passes, no pixel keeps the grid's default 0: each shows the interpolation of the last area containing it |
| LegacyDecoder.CoveredPaints | cobi/decoding/decoder.go:80-88 | a pixel in some area shows the interpolation of the last area containing it |
| LegacyDecoder.LastAreaPaints | cobi/decoding/decoder.go:80-88 | the last area containing a pixel decides its value |
| LegacyDecoder.TilingAccepted | cobi/decoding/decoder.go:52-71 | a tiling spans exactly the image and has no gap, so the coverage check accepts it |
| LegacyDecoder.PatchesDisjoint | cobi/decoding/decoder.go:80-88 | disjoint areas give disjoint blocks |
| LegacyDecoder.PlaneKeepsCorners | cobi/decoding/decoder.go:73-91 | a plane holding a pasted tiling keeps every area's corner samples |
| LegacyDecoder.EncodeThenDecode | cobi/decoding/decoder.go:10-22 | the fixed-size Encode followed by this Decode passes the coverage check, returns the original size, and keeps every area's corner samples |
| LegacyDecoder.GapRejected | cobi/decoding/decoder.go:65-68 | two areas leaving a pixel of their extent uncovered make Decode fail with the coverage error |
| Stub.ContainsOneMore | cobi/encoding.go:13-16 | the inclusive test claims the half-open box of (W+1) by (H+1) pixels |
| Stub.UnitAreaClaimsFour | cobi/encoding.go:13-16 | a 1x1 area claims four pixels |
| Stub.Encode | cobi/encoding.go:19-26 | four empty lists (the error is always nil) |
| Stub.EncodeChannel | cobi/encoding.go:28-32 | no areas |
| Stub.AnyContains | cobi/encoding.go:43-50 | true exactly when some area contains the pixel |
| Stub.GetMinUncoveredPixel | cobi/encoding.go:37-61 | as written: only pixels (0..height-1, 0) are examined; the result is the first of them in no area, or (-1, -1) exactly when all of them are covered |
| Stub.FindMinUncoveredPixel | cobi/encoding.go:34-36 | as the comment describes: the row-major first pixel of the width-by-height image in no area, or (-1, -1) exactly when the areas cover it all |
| Stub.MissedPixel | cobi/encoding.go:38-41 | on a 2x2 image covered only in row 0, the written search reports (-1, -1), but the described search finds (0, 1) |

## Left out

- The quality score `calculateInterpolationQuality` (cobi/encoding/encoder.go:227-259) and its threshold 0.005. It is floating-point arithmetic (`math.Pow`, `math.Abs`). The model takes it as an opaque predicate `Acceptance(x1, y1, x2, y2)`, one per channel. The model does check that each call reads samples inside the image.
- Floating-point arithmetic in the interpolator. Each step is modelled as the exact truncated value `lo + i*d/(n-1)`, without float32 rounding. When a wrapped difference pushes a value past 255, the byte conversion is taken modulo 256. Go leaves that conversion implementation-defined.
- The decode test's full expected grid (cobi/encoding/decoder_test.go:21-27) is not asserted. It disagrees with the code in five cells, and `Decoder.TestFixtureCells` states the code's values there (one lemma per cell, `Decoder.FixtureCell13` … `Decoder.FixtureCell71`). The model does not state the remaining cells one by one.
  - At (1, 3) column 1 of the 5x5 area runs from 2 to 8; the truncated step gives 6, where the test expects 7.
  - At (1, 4) the truncated step from 5 to 20 gives 8, where the test expects 9.
  - At (6, 1) column 6 of the 3x3 area runs from 13 to the wrapped 142; its middle is 77, where the test expects 13.
  - At (6, 2) the byte difference 10 - 18 wraps, giving 142, where the test expects 14.
  - At (7, 1) column 7 runs from 14 down to 10; the wrapped difference 252 gives 140, where the test expects 12.
- Writing the buffer to a file (`os.WriteFile` in cobi/encoding/io.go:16) and its error. `Io.Write` returns the buffer.
- `image.Image` and the packages around it: cobi/image, cobi/png, cobi/main.go, `sigolo` logging, and the test helpers of cobi/util/asserts.go. `PrintArray` in cobi/util/util.go only prints. Encoders take the width, the height and the channel samples instead of an image. Decoders return the size and four planes.
- Go's `error` values become `DecodeError` constants (`WidthMismatch`, `HeightMismatch`, `CoverageGap`), without their message text. The always-nil error results of the encoders' `Encode` are dropped.
- The callee `encoding.FindMinUncoveredPixel(areas, width, height)` of cobi/decoding/decoder.go is not part of this model. It is modelled as the row-major search `Raster.FirstUncovered` over "no area contains the pixel".
- The `channel` switch in `GetDebugImage` and the `[4]` arrays of channels. They are written as four explicit calls over a four-element sequence in the order R, G, B, A.
- `Encoder.Area.AsPatch` and `LegacyEncoder.Area.AsPatch` stand for `GetInterpolatedArea`. The interpolation itself happens in `Canvas.Paint`, which calls `Interpolate` once per area.
- Decoders: `Decoder.InterpolateChannel` and `LegacyDecoder.InterpolateChannel` require every area to have X, Y ≥ 0 and W, H ≥ 1. `Decoder.Decode` and `LegacyDecoder.Decode` require it only when the size checks pass (and, for the older decoder, the coverage check), so every error return is modelled. On the success path a negative origin makes the Go code index out of range, and an empty area reaches the interpolator's `w-1`/`h-1` indexing. The model does not describe those panics.
- Encoders: `Encoder.EncodeFresh`, `Encoder.Encode`, `LegacyEncoder.EncodeFresh`, `LegacyEncoder.Encode` and both `ChannelEncoder` constructors require an image at least 1 by 1. On an empty image the Go encoders panic: the frontier starts at (0, 0), and the first area reads the coverage grid or `values[0][0]` out of range. The model does not describe that panic.
- Encoder: `Encoder.ChannelEncoder.FindLargestNonEncodedArea` and `Encoder.ChannelEncoder.EncodeChannel` require the greedy state of a fresh encoder, in which the rows below the frontier are closed upwards. `Encode` only ever uses them that way. After arbitrary direct `addToCoverageMap` calls nothing is proved about them.
- `LegacyEncoder.ChannelEncoder.EncodeChannel` requires the banded coverage of a fresh encoder, which is how `Encode` uses it. From another coverage state its areas may overlap covered pixels (`LegacyEncoder.OverlapScenario`), and the model proves nothing about that loop.
- The `areas` argument of `findLargestNonEncodedArea` is never read by the Go code of either encoder. The legacy model passes it along and ignores it; `Encoder.ChannelEncoder.FindLargestNonEncodedArea` drops it.
- `Stub.Encode`: the empty loops over the image are left out, because their bodies are empty.

## Findings

| source | as written | input that shows it | evidently intended | confidence | as-written member | corrected member |
|---|---|---|---|---|---|---|
| cobi/encoding.go:38-41 | `x` is set to 0 once, outside the row loop, and the column loop runs while `x < height`. Only row 0 is searched, and only its first `height` columns. | 2x2 image, one area (0, 0) with W = 1, H = 0 (inclusively covering row 0): pixel (0, 1) is in no area, yet the search returns (-1, -1) | the row-major first pixel in no area, (0, 1), as the doc comment at lines 34-36 describes | not executed | Stub.MissedPixel | Stub.FindMinUncoveredPixel |
