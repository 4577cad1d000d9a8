# ucch image pipeline, modelled in Dafny

ucch turns an image (still or animated) into a chat emoji: a square,
background-erased image whose serialised size is at most 128,000 bytes. This
project models the four stages of `src/operations.rs` that do that work, and
the order in which the program runs them:

- **convert** picks the output format. A GIF stays GIF. Any other format becomes
  PNG, unless the tolerance is zero and no background will be erased.
- **squarify** validates the crop settings x, y and size, which must be given
  all together or not at all. It then computes one square region and crops every
  frame to it, resetting each frame's page to `size x size + 0 + 0`.
- **filter** flood-fills every frame from its top-left pixel with a transparent
  colour. The first frame's fuzz is the tolerance's share of the 16-bit channel
  range.
- **downscale** measures the serialised size and, while it is over budget,
  scales every frame by a factor chosen from that size.

The ImageMagick wand is the class `Magick.Wand`. It holds a sequence of frames,
a format tag and the "current frame" cursor that `set_first_iterator` and
`next_image` move. Each frame records its width, height, page geometry and a log
of the crops, flood fills and scalings applied to it. The library calls are
fields of a `Library` value that each wand carries: format change, crop, page
reset, flood fill, scale and blob length. They are left uninterpreted. Each says
whether the call succeeds and, for crop and scale, what dimensions result.

Each stage is a method that works through the wand the way the source does: the
first frame, then a `while next_image()` loop, returning on the first failing
call. Each method is proved equal to a function of the wand's state
(`Converted`, `Squarified`, `Filtered`, `Downscaled`). The three per-frame loops
share one specification, `Sweep`. It applies a `FrameOp` to the frames in order
and stops at the first failure. Module `Properties` proves what the stages
promise from those functions. Module `Pipeline` chains the stages in the order
of `src/main.rs:68-71`, using the parameter lists of `src/operations.rs`.

The model does what the code does, including three behaviours a reader might
not expect:

- Only the first frame is filled with the fuzz `tolerance * 0.01 * 65535`, which
  the comment at `src/operations.rs:124-126` explains as the tolerance's
  percentage of the 16-bit range. Every later frame is filled with the raw
  tolerance as its fuzz (`src/operations.rs:131`), so a tolerance of 20 becomes
  a fuzz of 13107 on frame 0 and of 20 on every other frame.
  `Properties.FilterPaintsEveryFrame` and `Pipeline.SquareGifRun` state this.
- The bracket boundaries are those of the code's `match`
  (`src/operations.rs:147-151`). Sizes of exactly 256,000 bytes fall in the 0.90
  bracket, and sizes of exactly 1,000,000 bytes fall in the 0.50 bracket.
- The explicit crop settings are checked only against the right and bottom
  edges. Negative offsets and a size of zero or below pass the check
  (`Properties.BoundsCheckAdmitsNegatives`). So "every frame is size x size"
  is proved only for regions that lie inside the image.

## Model

| member | source | states |
|---|---|---|
| `Magick.Scale.Ratio` | src/operations.rs:147-151 | each of the three downscale factors, which is the ratio the library scales by, shrinks: it lies strictly between 0 and 1 |
| `Magick.Wand.SetFirstIterator` | src/operations.rs:79 | moves the cursor to the first frame and changes nothing else |
| `Magick.Wand.GetImageWidth` | src/operations.rs:42 | the width of the frame under the cursor |
| `Magick.Wand.GetImageHeight` | src/operations.rs:43 | the height of the frame under the cursor |
| `Magick.Wand.GetImageFormat` | src/operations.rs:11 | the wand's format tag |
| `Magick.Wand.SetImageFormat` | src/operations.rs:19 | on success only the format changes; on failure the wand is unchanged; the reply is the library's |
| `Magick.Wand.ResetImagePage` | src/operations.rs:81 | sets only the current frame's page; on a library failure the wand is unchanged |
| `Magick.Wand.ScaleImage` | src/operations.rs:154 | scales only the frame under the cursor; on a library failure the wand is unchanged |
| `Magick.Wand.WriteImagesBlobLength` | src/operations.rs:6 | the length of the blob of every frame in the given format, or the library's error |
| `Magick.Wand.NextImage` | src/operations.rs:82 | advances the cursor exactly when another frame follows, reports whether it did, and changes nothing else |
| `Magick.Wand.CropImage` | src/operations.rs:80 | crops only the frame under the cursor; on a library failure the wand is unchanged |
| `Magick.Wand.FloodfillPaintImage` | src/operations.rs:96-106 | fills only the frame under the cursor, from (0, 0); the result is the library's status |
| `Operations.Sweep` | src/operations.rs:79-85 | a per-frame loop from any start index keeps the frame count and leaves the cursor on a frame |
| `Operations.FirstFailure` | src/operations.rs:128-132 | the index it returns is the first failing frame: all earlier work succeeds and the work there fails, or no frame fails |
| `Operations.Converted` | src/operations.rs:10-24 | convert never touches the frames or the cursor; the format is unchanged or becomes PNG; a failure is a library error and changes nothing |
| `Operations.Convert` | src/operations.rs:10-24 | the method leaves the wand in the state `Converted` gives and returns its result |
| `Operations.PartialCrop` | src/operations.rs:32-34 | holds exactly when one or two of the three crop settings are given |
| `Operations.HalfTowardZero` | src/operations.rs:53-59 | halving rounds toward zero: for a >= 0, 2r <= a < 2r + 2; for a < 0, 2r - 2 < a <= 2r <= 0 |
| `Operations.AsUsize` | src/operations.rs:80 | `size as usize`: keeps every value in range and otherwise agrees with the input modulo 2^64 |
| `Operations.CropStep` | src/operations.rs:80-81 | succeeds exactly when both the crop and the repage of the cropped frame are done; a failed crop leaves the frame as it was and returns the crop's error; a done crop logs the region and takes the library's dimensions; a failed repage returns the repage's error with the old page; success sets the page |
| `Operations.ScaleStep` | src/operations.rs:154-156 | succeeds exactly when the library scales by the factor's ratio; then the frame logs that factor, takes the library's dimensions and keeps its page; otherwise the frame is unchanged and the library's error is returned |
| `Operations.FillStep` | src/operations.rs:96-113 | succeeds exactly when the library reports a nonzero status; then the frame logs a fill from (0, 0) with that fuzz and keeps its geometry; otherwise the frame is unchanged and the error is the flood-fill message |
| `Operations.CropPlan` | src/operations.rs:32-70 | every rejection is an invalid argument; an admitted region never reaches past the right or bottom edge |
| `Operations.CropOp` | src/operations.rs:72-84 | every frame is cropped to a square region at the given offsets whose side is `size as usize` (the size itself when in range, otherwise the value in [0, 2^64) congruent to it modulo 2^64), and repaged to `size x size + 0 + 0` |
| `Operations.Squarified` | src/operations.rs:26-89 | squarify keeps the frame count and format; a rejected plan is returned as it is with the wand untouched; once the plan is admitted, every failure is a library error |
| `Operations.Apply` | src/operations.rs:128-131 | any failure of a frame's work is a library error; a successful fill logs the first fuzz on frame 0 and the later fuzz on every other frame |
| `Operations.SweepFailsFromMagick` | src/operations.rs:79-85 | a failing crop, fill or scale loop fails only with a library error |
| `Operations.CropCurrent` | src/operations.rs:80-84 | crops then repages the current frame; a failing repage leaves that frame cropped |
| `Operations.CropAll` | src/operations.rs:79-85 | crops and repages every frame from the first, stopping at the first failure: the state and status of the crop sweep |
| `Operations.Squarify` | src/operations.rs:26-89 | the method leaves the wand in the state `Squarified` gives and returns its result |
| `Operations.FuzzOf` | src/operations.rs:124-127 | the fuzz is the tolerance's percentage of 65535, and lies in [0, 65535] for a tolerance in [0, 100] |
| `Operations.Filtered` | src/operations.rs:116-135 | filter keeps the frame count and the format, and fails only with a library error |
| `Operations.FilterFrame` | src/operations.rs:91-114 | one fill of the current frame; a zero status becomes the flood-fill error and leaves the frame unchanged |
| `Operations.Filter` | src/operations.rs:116-135 | the method leaves the wand in the state `Filtered` gives and returns its result |
| `Operations.Bracket` | src/operations.rs:147-151 | above the budget: 0.95 below 256,000 bytes, 0.90 from 256,000 to 999,999, 0.50 from 1,000,000 |
| `Operations.ScaleUntil` | src/operations.rs:146-164 | the loop ends under the shrinking assumption, keeping the frame count and format; a failing pass or size measurement ends it with a library error |
| `Operations.Downscaled` | src/operations.rs:137-173 | downscale keeps the frame count and format, and fails only with a library error |
| `Operations.BlobSize` | src/operations.rs:5-8 | a size exactly when the library writes the blob, equal to its length; otherwise that library error |
| `Operations.SizeOf` | src/operations.rs:5-8 | the size is the blob length in the wand's own format; a failing write is a library error |
| `Operations.ScaleCurrent` | src/operations.rs:154 | scales only the frame under the cursor |
| `Operations.ScaleAll` | src/operations.rs:153-157 | one pass scales the frames in order from the first, stopping at the first failure |
| `Operations.Downscale` | src/operations.rs:137-173 | the method leaves the wand in the state `Downscaled` gives and returns its result, so it too fails only with a library error |
| `Properties.FirstFailureFrom` | src/operations.rs:128-132 | the first failing frame from an index depends only on the frames from that index on |
| `Properties.SweepFrames` | src/operations.rs:79-85 | a loop changes exactly the frames from its start up to and including the first failing one, each to that frame's work |
| `Properties.SweepStatus` | src/operations.rs:79-85 | a loop reports the first failure's status, or success, with the cursor on the failing frame, or the last frame |
| `Properties.SweepOutcome` | src/operations.rs:79-85 | frames up to the first failure get the work, later frames are untouched; the status is that failure or success; the cursor stops on the failing or the last frame |
| `Properties.SweepSucceeds` | src/operations.rs:128-133 | a loop succeeds exactly when every frame's work succeeds; then every frame holds that work's result |
| `Properties.SweepStops` | src/operations.rs:128-132 | a failing loop stops on the failing frame: earlier frames done, later frames untouched |
| `Properties.ConvertDecision` | src/operations.rs:12-22 | GIF is never changed; non-GIF at zero tolerance is unchanged; otherwise the format becomes PNG or the library's error is returned |
| `Properties.SquarifyRejectsPartialCrop` | src/operations.rs:32-40 | one or two of x, y, size give the invalid-argument error for every width and height, and no frame changes |
| `Properties.SquarifySkipsSquare` | src/operations.rs:44-45 | a square image without crop settings is left untouched and succeeds |
| `Properties.AutoCropRegion` | src/operations.rs:47-63 | without settings the region is min(width, height) with centring offsets, which are never negative and fit inside the image |
| `Properties.ExplicitCropBounds` | src/operations.rs:62-70 | with all settings the check fails exactly when size > width - x or size > height - y; otherwise the given region is used |
| `Properties.BoundsCheckAdmitsNegatives` | src/operations.rs:62-64 | negative offsets and a non-positive size pass the bounds check |
| `Properties.OversizedCropRejected` | src/operations.rs:62-70 | (10, 10, 2000) on a 1000 x 1000 image is refused and the wand is left untouched |
| `Properties.SquarifyCropsEveryFrame` | src/operations.rs:72-85 | on success every frame is cropped with the same region and repaged to size x size + 0 + 0 |
| `Properties.SquarifyMakesSquare` | src/operations.rs:72-85 | with a positive size, a region inside the image, uniform frames and an exact crop, every frame ends size x size |
| `Properties.AutoSquarifyMakesSquare` | src/operations.rs:44-85 | without settings, with non-empty uniform frames and an exact crop, every frame ends min(width, height) on each side |
| `Properties.FilterZeroIsNoop` | src/operations.rs:117-120 | at zero tolerance the wand is untouched |
| `Properties.FuzzExamples` | src/operations.rs:127 | a tolerance of 50 gives fuzz 32767.5, and 20 gives 13107 |
| `Properties.FilterPaintsEveryFrame` | src/operations.rs:127-132 | on success frame 0 is filled with the tolerance's fuzz and every later frame with the raw tolerance |
| `Properties.FilterStopsAtFailure` | src/operations.rs:108-113 | a failure is the flood-fill error; earlier frames stay painted, the failing and later ones are untouched |
| `Properties.BracketBoundaries` | src/operations.rs:147-151 | 255,999 maps to 0.95, 256,000 and 999,999 to 0.90, 1,000,000 to 0.50 |
| `Properties.DownscaleUnderBudgetIsNoop` | src/operations.rs:138-142 | a size of at most 128,000 bytes means no scaling at all |
| `Properties.ScaleUntilMeetsBudget` | src/operations.rs:146-164 | when the loop ends normally the serialised size is at most 128,000 bytes |
| `Properties.DownscaleMeetsBudget` | src/operations.rs:137-173 | a successful downscale leaves the serialised size at most 128,000 bytes |
| `Properties.DownscaleIdempotent` | src/operations.rs:137-173 | downscaling an already-downscaled wand changes nothing |
| `Properties.ScalePassLogs` | src/operations.rs:153-157 | a successful pass scales every frame by the same factor |
| `Properties.ScaledByThen` | src/operations.rs:146-164 | a pass followed by further passes is the concatenated sequence of passes on every frame |
| `Properties.ScaleUntilStep` | src/operations.rs:146-158 | the first pass of an over-budget loop that ends normally is a pass by the starting size's bracket that lowers the size, and the rest of the loop continues from its result |
| `Properties.ScaleUntilTrace` | src/operations.rs:146-164 | a loop that ends normally is a run of passes from the starting size: each is over budget when it starts, scales every frame by the bracket of the size measured just before it and lowers the size, and the last size is within the budget |
| `Properties.TraceScalesUniformly` | src/operations.rs:153-158 | along such a run every frame's log gains the passes' factors, in order |
| `Properties.ScaleUntilScalesUniformly` | src/operations.rs:146-164 | every frame goes through the same passes, pass i scaling by the bracket of the i-th measured size; no pass when the start is within budget |
| `Pipeline.Processed` | src/main.rs:68-71 | the run keeps the frame count and leaves a valid wand; a failure is a library error or an invalid argument |
| `Pipeline.Run` | src/main.rs:68-71 | runs the four stages in order, returning at the first error; ends in the state `Processed` gives |
| `Pipeline.PipelineMeetsBudget` | src/main.rs:68-71 | a successful run ends with a serialised size of at most 128,000 bytes |
| `Pipeline.PipelineRejectsPartialCrop` | src/main.rs:68-69 | with partial crop settings the run fails before any frame changes |
| `Pipeline.SquareGifRun` | src/main.rs:68-71 | a square GIF at tolerance 20 without crop settings skips convert and squarify; frame 0 is filled with fuzz 13107 and later frames with fuzz 20 |

## Left out

- Pixels, resampling, flood-fill colour distance and blob encoding are ImageMagick's. They are the uninterpreted `Library` fields. A frame records only its dimensions, page and edit log.
- A crop or scale does not change a frame's page in the model. ImageMagick leaves the page geometry stale after a crop, which is why the code repages after every crop. When that repage fails, the model's frame keeps its page from before the crop.
- Operations.Downscale, Operations.ScaleUntil, Operations.Downscaled, Pipeline.Processed, Pipeline.Run, Pipeline.PipelineMeetsBudget, Pipeline.SquareGifRun and the downscale lemmas in Properties: these require `Shrinks`, meaning a successful scaling pass strictly lowers an over-budget blob size. The code does not establish that its loop ends, so the model assumes it.
- Properties.SquarifyMakesSquare, Properties.AutoSquarifyMakesSquare: these assume `CropExact`, meaning a successful crop of an in-image region yields the region's size. What ImageMagick does with regions partly outside the image is not modelled.
- Properties.SquarifyMakesSquare, Properties.AutoSquarifyMakesSquare: an explicit size of 0 passes the bounds check, and ImageMagick crops a zero-size region to the whole page. No square result is claimed for a size of 0 or for empty frames.
- Tolerance and fuzz are `real`s. The model does not claim bit-exact `f64` results, and it ignores NaN and negative zero.
- Integers are unbounded. An overflow of `width - x` in `isize` for extreme offsets is not modelled. `size as usize` is modelled as the value modulo 2^64. The casts `get_image_width() as isize` and `get_image_height() as isize` (`src/operations.rs:42-43`) are taken as the dimension itself: a dimension of 2^63 or more, which would turn negative, is not modelled.
- The format tag belongs to the whole wand. ImageMagick keeps one per frame, and `set_image_format` changes the current frame's.
- Magick.Wand.NextImage: ImageMagick's "pending" flag is not modelled. After a call returns false, the next call returns true without moving. Every loop here starts from `set_first_iterator`, which clears the flag, and stops at the first false, so this does not change the model.
- `get_image_format` and `pixel.set_color` on a constant colour are taken to always succeed.
- A flood fill that reports failure is taken to leave its frame unchanged.
- A wand holds at least one frame, as it does after a successful read. A wand with no frames is not modelled.
- `interactive.rs` (the GTK preview and its slider clamping) is not modelled.
- Argument parsing, file reading and writing, and library start-up and shutdown in `main.rs` are not modelled. Neither is the process exit status.
- The `From` conversions and `print_error` in `result.rs` are not modelled. Only the error variants are.
- All progress messages are not modelled, including the percentage text of the downscale log line.
