# Camdroid OCR zone search — Dafny model

Camdroid's OCR processor looks for one rectangular text zone in a camera
frame, such as a machine-readable document strip. It crops that zone out for
recognition. The search (`zoneOut`) first runs a fixed chain of raster
operations. These are grayscale, blur, blackhat, Sobel, closing, Otsu
threshold and erosion. Then it finds the external contours and scans their
bounding boxes in the order the contour finder reports them.

Boxes are scanned in the finder's order. The first box whose aspect ratio
`width / height` exceeds 5 and whose coverage `width / frameRows` exceeds
0.75 becomes the candidate. A box failing either test is skipped. The
candidate is padded by 3% of its far edges. The padded region is cropped out
of the frame. The result is "no zone" (`null`) unless that crop produced a
non-empty image.

This project models that decision step on integer geometry. Its parts are:

- `Geometry` (`geometry.dfy`). This holds rectangles and frame dimensions,
  the acceptance test, the padding, and the sub-matrix range check. It also
  proves that the integer forms of `zoneOut`'s float comparisons equal those
  comparisons on exact quotients, with IEEE's infinity or NaN for a zero
  divisor. Float rounding is covered under "Left out".
- `ZoneSearch` (`zone.dfy`). This holds the first-match scan and `zoneOut`'s
  outcome. `ScanContours` follows `zoneOut`'s loop statement by statement,
  including its `break`. It is proved equal to the functional `ZoneOut`.
- `SliderConfig` (`sliders.dfy`). This holds the block-size and reduction
  slider mappings of the configuration panel.

The model's input is the sequence of contour bounding boxes, in the
finder's order, together with the frame's row and column counts. The model
rests on four abstractions:

- `ar > 5` is `width > 5 * height`.
- `crWidth > 0.75` is `4 * width > 3 * rows`.
- `(int)(n * 0.03)` is `n * 3 / 100` for non-negative `n`.
- A `Mat` is reduced to its dimensions.

The coverage ratio divides by the frame's **row count**
(`gray.size().height`), as the code does, even though the variable is named
for width. Boxes exactly at ratio 5 or coverage 0.75 are rejected.

The code does not clamp the padded box. A box whose padded region leaves the
frame makes `submat` throw. The exception is swallowed and the loop still
stops, so the result is "no zone". The model follows the code here, not a
clamping reading. Likewise no sort by size takes place, despite the comment
at `OCRProcessor.java:320-321`: the first passing box in finder order wins.

## Model

Several predicates carry no contract of their own. The rows of the members
whose contracts state them cover them:

- `Geometry.Accepts` (the test at :340), `Geometry.AspectOk` (:335) and
  `Geometry.CoverageOk` (:336) are covered by `Geometry.AcceptsIsFloatTest`.
- `Geometry.GreaterThan` (the IEEE `>` at :340) is covered by
  `Geometry.AcceptsIsFloatTest` as well.
- `Geometry.InFrame` (the `submat` range check at :353) is covered by
  `Geometry.PaddedInFrameIff`.
- `ZoneSearch.Croppable` (the crop together with the :365 guard) is covered
  by `Geometry.CropInto` and `ZoneSearch.ZoneOut`.
- `ZoneSearch.IsFirstAccepted` is covered by `ZoneSearch.FirstAccepted`.

| member | source | states |
|---|---|---|
| `Geometry.AcceptsIsFloatTest` | app/src/main/java/org/hschott/camdroid/processor/OCRProcessor.java:334-340 | The integer acceptance test holds exactly when `width/height > 5` and `width/rows > 0.75` hold as IEEE float quotients, a zero divisor giving infinity or NaN. |
| `Geometry.BoundaryRejected` | app/src/main/java/org/hschott/camdroid/processor/OCRProcessor.java:340 | A box exactly at aspect ratio 5 or exactly at coverage 0.75 is rejected, since both comparisons are strict. |
| `Geometry.Divide` | app/src/main/java/org/hschott/camdroid/processor/OCRProcessor.java:335-336 | A float quotient of non-negative integers is finite exactly for a positive divisor, and then times the divisor gives back the dividend. It is +infinity exactly for `n/0` with `n > 0`. |
| `Geometry.ThreePercent` | app/src/main/java/org/hschott/camdroid/processor/OCRProcessor.java:343-344 | The truncated 3% margin `m` of `n` is the largest integer with `100*m <= 3*n`. |
| `Geometry.ThreePercentZero` | app/src/main/java/org/hschott/camdroid/processor/OCRProcessor.java:343-344 | The margin is zero exactly when the far edge is below 34. |
| `Geometry.ThreePercentMonotone` | app/src/main/java/org/hschott/camdroid/processor/OCRProcessor.java:343-344 | A farther edge never gets a smaller margin. |
| `Geometry.PadX` | app/src/main/java/org/hschott/camdroid/processor/OCRProcessor.java:343 | The horizontal margin `pX` is the truncated 3% of the box's right edge `x + w`: the largest `m` with `100*m <= 3*(x+w)`. |
| `Geometry.PadY` | app/src/main/java/org/hschott/camdroid/processor/OCRProcessor.java:344 | The vertical margin `pY` is the truncated 3% of the box's bottom edge `y + h`: the largest `m` with `100*m <= 3*(y+h)`. |
| `Geometry.Padded` | app/src/main/java/org/hschott/camdroid/processor/OCRProcessor.java:343-348 | The padded box contains the original. Opposite margins are equal: `PadX` left and right, `PadY` top and bottom. The box's centre is unchanged. |
| `Geometry.PaddedFarEdges` | app/src/main/java/org/hschott/camdroid/processor/OCRProcessor.java:345-348 | `x' + w' = x + w + pX` and `y' + h' = y + h + pY`. |
| `Geometry.PaddedInFrameIff` | app/src/main/java/org/hschott/camdroid/processor/OCRProcessor.java:343-353 | The padded box passes `submat`'s range check exactly when each margin fits between the original box and the matching frame edge. |
| `Geometry.LeftMarginOutOfFrame` | app/src/main/java/org/hschott/camdroid/processor/OCRProcessor.java:343-353 | A box with `x < pX` cannot be cropped. This covers every box at `x = 0` that is at least 34 wide. |
| `Geometry.CropInto` | app/src/main/java/org/hschott/camdroid/processor/OCRProcessor.java:331-359 | After the try/catch, `roi` is non-empty exactly when the region passes the range check with positive extents, and then it has the region's size. |
| `ZoneSearch.FirstAcceptedUnique` | app/src/main/java/org/hschott/camdroid/processor/OCRProcessor.java:333-340 | At most one index is the first passing box. |
| `ZoneSearch.FirstAccepted` | app/src/main/java/org/hschott/camdroid/processor/OCRProcessor.java:333-360 | A selected index `i` passes the test and no index below `i` passes. Nothing is selected exactly when no box passes. |
| `ZoneSearch.ZoneOut` | app/src/main/java/org/hschott/camdroid/processor/OCRProcessor.java:331-383 | A zone exists exactly when a first passing box exists and its padded region crops to a non-empty image. The zone names that box, its padded region, which lies in the frame, and contains the box. |
| `ZoneSearch.ScanContours` | app/src/main/java/org/hschott/camdroid/processor/OCRProcessor.java:331-383 | The loop with its `break` and the final `!roi.empty() && roi.cols() > 0` guard returns a zone only for the first passing box with a croppable padded region. It returns no zone when nothing passes, and it agrees with `ZoneOut` on every input. |
| `ZoneSearch.NoCandidateNoZone` | app/src/main/java/org/hschott/camdroid/processor/OCRProcessor.java:333-383 | When no box passes the test, the result is no zone. |
| `ZoneSearch.FailedCropEndsSearch` | app/src/main/java/org/hschott/camdroid/processor/OCRProcessor.java:352-360 | If the first passing box's crop fails, the result is no zone even when a later box passes and would crop. |
| `ZoneSearch.FirstCandidateDecides` | app/src/main/java/org/hschott/camdroid/processor/OCRProcessor.java:340-383 | With first passing box `i`, the result is the zone of box `i` if its padded region is croppable, and no zone otherwise. |
| `ZoneSearch.LeftEdgeCandidateNoZone` | app/src/main/java/org/hschott/camdroid/processor/OCRProcessor.java:343-383 | A first passing box with `x < pX` (e.g. `x = 0`, `w >= 34`) always gives no zone, since nothing clamps. |
| `ZoneSearch.OnePixelHighZone` | app/src/main/java/org/hschott/camdroid/processor/OCRProcessor.java:343-348 | A first passing box 1 pixel high with `y <= 32` gets `pY = 0`. If its padded region is croppable, the model reports a zone 1 pixel high. |
| `ZoneSearch.FirstAcceptedPrefix` | app/src/main/java/org/hschott/camdroid/processor/OCRProcessor.java:333-360 | Boxes appended after a passing box never change which box is selected. |
| `ZoneSearch.ZoneOutPrefix` | app/src/main/java/org/hschott/camdroid/processor/OCRProcessor.java:333-383 | Boxes appended after a passing box never change the result. |
| `ZoneSearch.FirstAcceptedSkipsRejected` | app/src/main/java/org/hschott/camdroid/processor/OCRProcessor.java:333-340 | Rejected boxes scanned first only shift the selected index by their count. |
| `ZoneSearch.OrderDecides` | app/src/main/java/org/hschott/camdroid/processor/OCRProcessor.java:320-340 | With two passing, croppable boxes, the one the finder reports first wins. Swapping their order swaps the result, because no sort happens. |
| `SliderConfig.BlockSize` | app/src/main/java/org/hschott/camdroid/processor/OCRProcessor.java:133-146 | The block size is the smallest odd number `>= progress + 2`. It is at least 3 for `progress >= 0`, and lies in `[3,35]` for `progress` in `[0,32]`. |
| `SliderConfig.BlockSizeSteps` | app/src/main/java/org/hschott/camdroid/processor/OCRProcessor.java:142-146 | The block size never decreases with the slider position. Positions `2k` and `2k+1` give the same block size. |
| `SliderConfig.BlockSizeOnto` | app/src/main/java/org/hschott/camdroid/processor/OCRProcessor.java:133-146 | Every odd block size in `[3,35]` is reached by some position in `[0,32]`. |
| `SliderConfig.Reduction` | app/src/main/java/org/hschott/camdroid/processor/OCRProcessor.java:162-171 | `reduction = progress - 1`, which lies in `[-1,63]` for `progress` in `[0,64]`. |
| `SliderConfig.SetProgress` | app/src/main/java/org/hschott/camdroid/processor/OCRProcessor.java:133-134 | A slider position is clamped into `[0, max]`. A value already inside the range is kept, and a value outside it goes to the nearer end. |
| `SliderConfig.ReductionProgress` | app/src/main/java/org/hschott/camdroid/processor/OCRProcessor.java:162-163 | `setProgress(reduction + 1)` on the `[0,64]` slider opens in range. It maps back to the current value exactly when that value lies in `[-1,63]`. |
| `SliderConfig.ReductionRoundTrip` | app/src/main/java/org/hschott/camdroid/processor/OCRProcessor.java:162-171 | For every position in `[0,64]`, the listener followed by reopening returns that position. The initial value 32 round-trips. |
| `SliderConfig.BlockSizeProgressAsWritten` | app/src/main/java/org/hschott/camdroid/processor/OCRProcessor.java:133-134 | The block-size slider opens at the block size itself, clamped to `[0,32]`. For block sizes in `[0,32]` the listener reads that position as at least two more. |
| `SliderConfig.BlockSizeProgressAsWrittenDrifts` | app/src/main/java/org/hschott/camdroid/processor/OCRProcessor.java:133-146 | The opening position maps back to the current block size only for 35, which is clamped to position 32 and read as 35. Initial value 21 opens at a position that reads as 23. |
| `SliderConfig.BlockSizeProgress` | app/src/main/java/org/hschott/camdroid/processor/OCRProcessor.java:133-146 | The corrected opening position always lies in `[0,32]`. It maps back to the block size exactly when the block size is odd and in `[3,35]`, which covers every value the listener produces. |

## Findings

| source | as written | input that shows it | evidently intended | confidence | as-written member | corrected member |
|---|---|---|---|---|---|---|
| app/src/main/java/org/hschott/camdroid/processor/OCRProcessor.java:134 | `blocksizeSeekBar.setProgress(blocksize)` opens the slider at the block size. The listener at :142-146 maps position `p` to `p+3` or `p+2`. | Initial `blocksize = 21`: the slider opens at 21, which the listener reads as 23. Every block size except 35 is affected. The slider clamps 35 to position 32, which reads back as 35. | Open at a position the listener maps back to the current value, as the reduction slider does with `setProgress(reduction + 1)`. For block sizes that is `blocksize - 3`. | medium; not executed. The block size only feeds the disabled adaptive-threshold path. | `SliderConfig.BlockSizeProgressAsWritten`, `SliderConfig.BlockSizeProgressAsWrittenDrifts` | `SliderConfig.BlockSizeProgress`, `SliderConfig.BlockSizeOnto` |

## Left out

- Raster operations are left out because they are image-library calls with no visible source. These are grayscale, Gaussian blur, blackhat, Sobel and `convertScaleAbs`, closing, Otsu threshold, erosion, `findContours` and `boundingRect`. Their output enters the model only as the sequence of bounding boxes, in the finder's unspecified order. An exception from `findContours` leaves that sequence empty.
- The 0.99 `resize` of the crop and the `.bmp` `imencode` are left out. The first is library floating-point scaling with its own failure case (next line). The second is an encoding whose result is discarded. `Zone` carries the cropped region, whose size is the image's size before the shrink.
- ZoneSearch.ZoneOut: a croppable region 1 pixel high (see `ZoneSearch.OnePixelHighZone`) is reported as a zone. In the program, the target size `roi.rows() * 0.99` truncates to 0 in the image library's binding, so `resize` at :368 fails its size assertion. That call lies outside the try at :352-359, so the exception leaves `zoneOut`. The model has no outcome for this uncaught exception. The image library's `resize` is not part of this model, so this failure is stated here, not proved.
- ZoneSearch.ScanContours: agrees with `ZoneSearch.ZoneOut`, and so shares the gap above for a region 1 pixel high.
- Drawing the annotation rectangle onto the frame is left out because it is a display side effect.
- Tesseract setup, the commented-out recognition and adaptive-threshold path, `draw()`, and text layout are left out. So are the fragment plumbing and the `min`/`max` sliders. These are a foreign library, dead code, or UI state with no effect on the zone search.
- Java's 32-bit `int` wrap-around in `x + w`, `y + h` and the padding is not modelled, because image coordinates stay far below 2^31.
- Float rounding of the two quotients and of `n * 0.03` is not modelled. For coordinates below 2^22 it cannot change either comparison or the truncated margin.
- Geometry.AcceptsIsFloatTest: this is exact under that rounding caveat, not for every 32-bit input.
