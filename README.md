# Pixel operations of the image-processing demo, in Dafny

This project models the pixel-operation engine of a small Python image-processing demo that uses OpenCV and numpy. It covers four groups of operations:

- **Subtraction** of two grayscale images: the absolute difference `|A - B|`, the offset difference `(A - B) + K` clipped to 0..255, and basic statistics.
- **Binarisation** with a strict threshold, and the Boolean operations AND, OR, XOR and NOT on the resulting {0, 255} masks.
- **Motion detection** between two frames: frame differencing with a strict threshold, a 3x3 morphological cleanup (close, then open), and a summary of the motion regions' areas.
- **Formatting** of a statistics record as text.

It also models each module's demo, which assembles a table of results.

Images are grids of integer samples (`Grids.Grid = seq<seq<int>>`). An 8-bit image is a rectangular grid with every sample in 0..255. For the OpenCV operations, a grid that is not such an image stands for an array on which OpenCV raises. The Python code catches that exception and returns `(None, None)` or `{}`; the model returns `None` or `[]`.

Statistics records and result tables are Python dicts. The model keeps them as insertion-ordered sequences of entries (`Records.Dict`):

- `d[k] = v` is `Records.Put`: an existing key keeps its place, and a new key goes last.
- `d.update(e)` is `Records.Update`.
- The key strings of the records this model builds are the constructors of `Records.Key` and `Records.Slot`. `KeyName` and `SlotName` give the strings.

Modules:

- `Grids` (grids.dfy): grids, shapes, counting nonzero samples, and maximum and minimum.
- `Records` (records.dfy): dicts, values, percentages, and `str()` of an int.
- `Subtraction` (subtraction.dfy): `operasi_pengurangan.py`.
- `BooleanOps` (boolean_ops.dfy): `operasi_boolean.py`.
- `Morphology` (morphology.dfy): the 3x3 dilation and erosion behind `cv2.morphologyEx`.
- `Motion` (motion.dfy): `motion_detection.py`.
- `Format` (format.dfy): `format_stats_text` of `input_output.py`.

The demos build their tables step by step, so they are methods. `format_stats_text` builds its text in a loop, so it is a method with a loop invariant. It is proved against the function `Format.Lines`, and the properties of the text are lemmas about that function. Everything else is pure and is modelled as functions with lemmas.

## Model

| member | source | states |
|---|---|---|
| Subtraction.AbsDiff | operasi_pengurangan.py:25 | `cv2.absdiff` of two 8-bit images of one shape is an 8-bit image of that shape whose sample (i, j) is `abs(a[i][j] - b[i][j])` |
| Subtraction.AbsDiffSymmetric | operasi_pengurangan.py:25 | swapping the operands of the absolute difference gives the same grid |
| Subtraction.AbsoluteDifference | operasi_pengurangan.py:9-42 | succeeds exactly on two 8-bit images of one shape with at least one sample; otherwise it gives `(None, None)`, for example when the shapes differ (lines 21-22, 40-42); on success the image is `abs(a - b)` sample by sample |
| Subtraction.AbsoluteDifferenceSymmetric | operasi_pengurangan.py:9-42 | the whole result, image and statistics, is the same with the operands swapped |
| Subtraction.AbsoluteDifferenceStats | operasi_pengurangan.py:28-35 | the record lists Max, Min, Total Pixels, Pixels >0 and Persen Diff; Min and Max bound every sample and are attained; 0 <= Min <= Max <= 255; `Pixels >0` is the nonzero count and at most Total Pixels; Persen Diff is `Pixels >0 / Total Pixels * 100`, in [0, 100] |
| Subtraction.AbsoluteDifferenceSelf | operasi_pengurangan.py:25-35 | an image minus itself is all zeros, with `Pixels >0` = 0, `Persen Diff` = 0 and Max = 0 |
| Subtraction.Clip | operasi_pengurangan.py:64 | `np.clip(x, 0, 255)` is a byte: 0 below the range, 255 above it, and `x` itself inside it |
| Subtraction.OffsetDifference | operasi_pengurangan.py:44-81 | succeeds exactly when the absolute difference does and K is in the `int16` range; every sample is `clip(a - b + K, 0, 255)` and the image is an 8-bit image of the operands' shape |
| Subtraction.OffsetDifferenceFailsLikeAbsolute | operasi_pengurangan.py:57-58 | the offset difference fails exactly when the absolute difference fails or K is outside the `int16` range |
| Subtraction.OffsetDifferenceNoWrap | operasi_pengurangan.py:60-64 | if `a - b + K < 0` the sample is 0; if it is above 255 the sample is 255; otherwise it is exactly `a - b + K` |
| Subtraction.OffsetDifferenceStats | operasi_pengurangan.py:67-75 | the record lists Max, Min, Total Pixels, Konstanta and Range; Konstanta echoes K; Range is `"[min, max]"` built from the record's own Min and Max, which bound every sample, are attained and lie in 0..255 |
| Subtraction.OffsetSampleAsWritten | operasi_pengurangan.py:61-64 | one sample as the code computes it: the sum wraps in `int16` before the clip; the result is still a byte |
| Subtraction.OffsetSampleAsWrittenWraps | operasi_pengurangan.py:61-64 | a = 1, b = 0, K = 32767: the code as written gives 0 where the clipped sum is 255 |
| Subtraction.OffsetSampleAsWrittenAgrees | operasi_pengurangan.py:61-64 | for every K from -32513 to 32512, including the demo's 100 and 150, the code as written equals the clipped sum |
| Subtraction.BasicStats | operasi_pengurangan.py:83-103 | `{}` exactly when the grid is ragged or has no sample; otherwise the keys are Max, Min and Total Pixels |
| Subtraction.BasicStatsFacts | operasi_pengurangan.py:94-100 | Max and Min are the largest and smallest samples (bounding every sample and attained), and Total Pixels is rows times columns |
| Subtraction.DemoSubtraction | operasi_pengurangan.py:105-150 | the table is empty when the operations fail; otherwise it holds `absolut`, `konstanta` (K = 100) and `konstanta2` (K = 150), in that order, each holding its operation's image and statistics and its title |
| BooleanOps.ThresholdMaskSpec | operasi_boolean.py:21 | thresholding gives a {0,255} mask of the input's shape, 255 exactly where the sample is strictly above the threshold; a sample equal to the threshold becomes 0 |
| BooleanOps.Binarize | operasi_boolean.py:9-25 | the threshold used is returned in every case; the mask is present exactly when the input is an 8-bit image with at least one sample, and it is then a mask of the input's shape that is 255 exactly where the sample is above t (`THRESH_BINARY`) |
| BooleanOps.BinarizeMask | operasi_boolean.py:9-25 | binarising a mask with at least one sample and a threshold in 0..254 gives the mask back |
| BooleanOps.ThresholdMaskAntitone | operasi_boolean.py:21 | a higher threshold makes no sample white that a lower one leaves black |
| BooleanOps.BitLogic | operasi_boolean.py:46-142 | on 0/255 samples, bitwise and/or/xor/not are the Boolean connectives, with 255 as true |
| BooleanOps.MaskLogic | operasi_boolean.py:46-111 | on masks of one shape, AND, OR and XOR are masks of that shape, white where both, at least one, and exactly one operand is white |
| BooleanOps.NotLogic | operasi_boolean.py:142 | NOT of a mask is the mask `255 - b`, white exactly where the operand is black |
| BooleanOps.NotNot | operasi_boolean.py:142 | complementing a mask twice gives it back |
| BooleanOps.DeMorgan | operasi_boolean.py:46-142 | NOT(A AND B) = NOT A OR NOT B, and NOT(A OR B) = NOT A AND NOT B, on masks |
| BooleanOps.XorIsOrMinusAnd | operasi_boolean.py:46-111 | XOR of two masks equals (A OR B) AND NOT (A AND B) |
| BooleanOps.BinaryStats | operasi_boolean.py:154-181 | `{}` exactly when the image has no sample (the percentage divides by zero) |
| BooleanOps.BinaryStatsFacts | operasi_boolean.py:167-178 | keys in order: Pixel Putih, Pixel Hitam, Persentase Putih, Threshold, Operasi, Ukuran; white is the nonzero count and at most the total; black is total minus white; the percentage is white * 100 / total, in [0, 100] and 0 iff nothing is white; Threshold is `"<t>/255"`, Operasi is the name, and Ukuran is `"<width>x<height>"` |
| BooleanOps.ThresholdTextDigits | operasi_boolean.py:175 | for a non-negative t, the Threshold text is the decimal digits of t followed by `/255`; the digits read back as t and start with 0 only when t is 0 |
| BooleanOps.OpStatsFacts | operasi_boolean.py:50-51 | an operation's record is its binary statistics followed by the `Logika` entry; with no sample it is `Logika` alone |
| BooleanOps.OpStatsShape | operasi_boolean.py:50-146 | with samples, the keys are the six binary-statistics keys then Logika; Operasi carries the label and Logika its text |
| BooleanOps.AndOp | operasi_boolean.py:27-57 | AND succeeds exactly on two 8-bit images of one shape with at least one sample; otherwise binarisation or the shape mismatch gives `(None, None)` |
| BooleanOps.OrOp | operasi_boolean.py:59-89 | OR succeeds exactly on two 8-bit images of one shape with at least one sample |
| BooleanOps.XorOp | operasi_boolean.py:91-121 | XOR succeeds exactly on two 8-bit images of one shape with at least one sample |
| BooleanOps.NotOp | operasi_boolean.py:123-152 | NOT succeeds exactly when its one input is an 8-bit image with at least one sample |
| BooleanOps.AndOpSpec | operasi_boolean.py:40-53 | the AND image is a mask of the input shape, white exactly where both samples exceed the threshold; the record is labelled `A AND B` with Logika `Irisan (∩)` |
| BooleanOps.OrOpSpec | operasi_boolean.py:72-85 | the OR image is white exactly where at least one sample exceeds the threshold; the record is labelled `A OR B` with Logika `Gabungan (∪)` |
| BooleanOps.XorOpSpec | operasi_boolean.py:104-117 | the XOR image is white exactly where one sample exceeds the threshold and the other does not; the record is labelled `A XOR B` with Logika `Selisih Simetris (⊕)` |
| BooleanOps.NotOpSpec | operasi_boolean.py:136-148 | the NOT image is `255 - b` on the binarised input, white exactly where the sample does not exceed the threshold; the record is labelled `NOT A` with Logika `Komplemen (¬)` |
| BooleanOps.XorOpIsOrMinusAnd | operasi_boolean.py:47-111 | the XOR result is white exactly where the OR result is white and the AND result is not |
| BooleanOps.AndOpDeMorgan | operasi_boolean.py:47-142 | the AND result is black exactly where the NOT result of either input is white |
| BooleanOps.DemoBoolean | operasi_boolean.py:183-263 | the table is empty when either image cannot be binarised (it is not an 8-bit image, or it has no sample); otherwise it holds binary1 and binary2 with their statistics, then and, or, xor and not when the shapes agree, or only not when they differ |
| BooleanOps.AssembleBoolean | operasi_boolean.py:196-260 | given the four operations' results, the table holds each result only when its operation succeeded, in the program's order and with the program's titles |
| Morphology.MorphShape | motion_detection.py:73-76 | dilation and erosion keep the row lengths, and keep a rectangular grid's shape |
| Morphology.DilateExtensive | motion_detection.py:73 | dilation never lowers a sample |
| Morphology.ErodeAntiExtensive | motion_detection.py:76 | erosion never raises a sample |
| Morphology.DilateMono | motion_detection.py:73-76 | dilation is monotone |
| Morphology.ErodeMono | motion_detection.py:73-76 | erosion is monotone |
| Morphology.MorphMask | motion_detection.py:73-76 | dilation and erosion of a mask are masks |
| Morphology.CloseExtensive | motion_detection.py:73 | closing never removes a foreground sample: the mask is pointwise at most its closing |
| Morphology.OpenAntiExtensive | motion_detection.py:76 | opening never adds a foreground sample: the opening is pointwise at most its input |
| Morphology.CleanupMask | motion_detection.py:70-76 | the cleanup of a mask is a {0,255} mask of the same shape |
| Morphology.CleanupMono | motion_detection.py:70-76 | more foreground in never gives less foreground out |
| Morphology.CleanupZero | motion_detection.py:70-76 | an empty mask stays empty |
| Morphology.OpenRemovesIsolated | motion_detection.py:76 | a foreground sample whose in-image 3x3 neighbours are all background does not survive opening, in any image with at least two samples |
| Motion.SimpleMotion | motion_detection.py:9-49 | for frames of one shape, detection succeeds exactly when both are 8-bit images with at least one sample |
| Motion.SimpleMotionSpec | motion_detection.py:26-43 | the mask is 255 exactly where the frames differ by more than the threshold and 0 where they differ by at most the threshold; it has the frames' shape; the statistics describe that mask |
| Motion.SimpleMotionSymmetric | motion_detection.py:26-29 | swapping the frames changes neither detector's result |
| Motion.CleanedMotion | motion_detection.py:51-97 | the cleaned detector fails exactly when the simple detection it starts from fails (lines 64-67) |
| Motion.CleanedMotionSpec | motion_detection.py:64-91 | the cleaned mask is the opening of the closing of the simple mask; closing only grew the simple mask and opening only shrank the closed one; the result is a mask of the frames' shape whose statistics add `Cleaned` and name the method `With Cleanup` |
| Motion.MotionStatsFacts | motion_detection.py:32-90 | 0 <= Motion Pixels <= Total Pixels; Motion % is the share times 100 and lies in [0, 100]; Threshold is `"<t>/255"`; Status is DETECTED exactly when `100 * count > total` (percentage above 1.0) and MINIMAL otherwise; the cleaned record has Cleaned `Morphological`; Method names the detector |
| Motion.MotionStatsKeys | motion_detection.py:36-91 | the record's keys in order; the cleaned detector's record adds `Cleaned` before `Method` |
| Motion.IdenticalFramesMinimal | motion_detection.py:9-88 | identical frames with a non-negative threshold give both detectors' records `Motion Pixels` 0 and `Status` MINIMAL |
| Motion.ThresholdMonotone | motion_detection.py:29-76 | lowering the threshold never loses a motion sample, before or after the cleanup, so neither count decreases |
| Motion.AnalyzeArea | motion_detection.py:125-160 | `{}` when contour finding fails; otherwise the area summary of the contour areas |
| Motion.AreaSummaryEmpty | motion_detection.py:139-144 | with no contour, Motion Areas, Largest Area and Total Motion Area are 0, and there is no Avg Area |
| Motion.AreaSummaryKeys | motion_detection.py:139-156 | the keys are Motion Areas, Largest Area and Total Motion Area, then Avg Area exactly when there is a contour |
| Motion.AreaSummaryFacts | motion_detection.py:147-156 | with contours: the count is the list's length, and Largest Area, Total Motion Area and Avg Area are `int()` of the maximum, the sum and the sum divided by the count |
| Motion.RealMaxIsMax | motion_detection.py:149 | the largest area bounds every area and is one of them |
| Motion.AreaSummaryOrder | motion_detection.py:147-155 | with no negative area: 0 <= mean <= largest <= total, before and after truncation |
| Motion.FrameStatsFacts | motion_detection.py:181-197 | a frame's record names the frame and its kind; its Max and Min are bytes that bound every sample and are attained |
| Motion.MergeAreaStats | motion_detection.py:216-244 | `stats.update(area_info)` appends the area summary to a detector's record, because none of its keys is there yet |
| Motion.DemoMotion | motion_detection.py:162-253 | nothing when the frames are missing; otherwise five entries in order: frame1 and frame2 with their statistics, then the simple detector at threshold 30 and the cleaned detector at 30 and at 15, each with its area summary appended to its statistics, under the program's titles |
| Motion.AssembleMotion | motion_detection.py:180-250 | given the detectors' results, the table the demo builds, with each detector's statistics merged with the area summary of its mask |
| Format.FormatStatsText | input_output.py:252-269 | the text is the title line `title + ":\n"` followed by the lines of the entries, as `Format.Lines` defines them |
| Format.LinesConcat | input_output.py:264-268 | the lines of two records one after the other are the lines of the first followed by the lines of the second (insertion order) |
| Format.LineOfEntry | input_output.py:263-268 | the line of entry n, `key + ": " + rendering + "\n"`, sits in the text right after the title line and the lines of the entries before it |
| Format.LinesNewlines | input_output.py:264-268 | when the values hold no line break, the entry lines hold exactly one line break per entry |
| Format.FormatNewlines | input_output.py:263-269 | a single-line title and single-line values give a text with one more line break than the record has entries |
| Format.RenderInt | input_output.py:268 | an int value is written as `str()` writes it: `-` for a negative value, then decimal digits that read back as its magnitude and start with 0 only for zero |
| Grids.CountNonzeroAtMostSize | operasi_pengurangan.py:34 | `np.count_nonzero` is at most the number of samples |
| Grids.CountNonzeroZero | operasi_pengurangan.py:34 | the nonzero count is 0 exactly when every sample is 0 |
| Grids.GridMaxIsMax | operasi_pengurangan.py:31 | `np.max` bounds every sample and is attained |
| Grids.GridMinIsMin | operasi_pengurangan.py:32 | `np.min` bounds every sample from below and is attained |
| Records.PutSpec | operasi_boolean.py:51 | after `d[k] = v`, k maps to v and every other key keeps its value; an existing key keeps its place and a new key goes last |
| Records.UpdateGet | motion_detection.py:217 | after `d.update(e)`, each key of e has its value from e and every other key keeps its value from d |
| Records.UpdateFresh | motion_detection.py:217 | merging a record whose keys are all new appends its entries in order |
| Records.PercentAboveOne | motion_detection.py:41 | `(count / total) * 100 > 1.0` is the integer test `100 * count > total` |
| Records.PercentBounds | operasi_pengurangan.py:35 | a count out of a larger positive total is between 0 and 100 percent, and is 0 exactly when the count is 0 |
| Records.NatToStringDecimal | operasi_boolean.py:175 | `str()` of a natural number gives decimal digits that read back as the number, with no leading zero except in `0` itself |

## Left out

- Mean and standard deviation (`np.mean`, `np.std`) are floating-point values, so they are left out of every record: `Mean` and `Std Dev` in the subtraction and basic statistics, and `Mean Intensity` and `Std Dev` in the motion demo's frame records.
- Percentages are exact rationals (`Records.Percent`), not Python floats. This matters for the `DETECTED` rule only where rounding would cross 1.0.
- Motion.SimpleMotion and Motion.CleanedMotion require frames of one shape. `cv2.resize`, which the program applies to a differently shaped second frame, is library interpolation and is not modelled.
- `cv2.findContours` and `cv2.contourArea` are the parameter `areasOf` of `Motion.AnalyzeArea` and `Motion.DemoMotion`. It gives the area of each external contour of a mask, or `None` when contour finding raises.
- Motion.DemoMotion takes the two frames as a parameter (`None` when their synthesis fails). Drawing the rectangles and circles of `buat_frame_motion_demo` is not part of this model.
- The two-decimal rendering `f"{value:.2f}"` of a float is the parameter `fmt2` of `Format.FormatStatsText`.
- Format.FormatNewlines assumes that `fmt2` output and text values hold no line break. That is what "one line per entry" needs.
- `Records.Key` lists only the keys of the records this model builds. `Mean`, `Std Dev` and `Mean Intensity` (left out with the floating-point statistics), and the keys of the blending records (`Mean A`, `Mean B`, `Mean Error` and the rest), are not constructors. So Format.FormatStatsText is modelled only for records without those keys, and not for the full records the program prints.
- Motion.AreaSummaryOrder requires non-negative areas, which contour areas are.
- The demos compute the pure operations before the early return in the source. Because the operations have no effect, the tables are the same.
- Every demo slot is set once, so each `results[slot] = ...` appends to the table (`Records.PutFresh`).
- Console output (`print`), blending (`operasi_blending.py`), `main_program.py`, and everything in `input_output.py` except `format_stats_text` are not part of this model: file and folder handling, dialogs, image loading and saving, and figures.
- Failing OpenCV calls are modelled by their preconditions: 2-D arrays with 8-bit samples, at least one sample for `cv2.threshold` (which gives `None` on an empty array), and one shape for the two-operand calls. Other array types and channel counts are not modelled.
- The Boolean operations do not resize the second image. A shape mismatch makes `cv2.bitwise_*` raise, and the operation returns `(None, None)`.
- Motion.AreaSummary computes the sum, maximum and mean of the contour areas in exact reals, not Python floats. A contour area of integer pixel coordinates is a multiple of 0.5, so the float sum and maximum are exact for the demo's sizes. A mean that is not an integer is at least 1/(2n) away from one (n contours), so `int()` of the float mean is the same.
- Subtraction.OffsetDifference follows NumPy 2 casting: a constant K outside the `int16` range makes `astype(np.int16) + konstanta` raise `OverflowError`, and the operation returns `(None, None)`. NumPy 1 widened the sum instead; that behaviour is not modelled.

## Findings

| source | as written | input that shows it | evidently intended | confidence | as-written member | corrected member |
|---|---|---|---|---|---|---|
| operasi_pengurangan.py:61-64 | `img1.astype(np.int16) - img2.astype(np.int16) + konstanta` is computed in `int16`, so for a constant near the top or bottom of the `int16` range the sum wraps around before `np.clip` | a = 1, b = 0, K = 32767: the sum 32768 wraps to -32768 and clips to 0 | `clip(a - b + K, 0, 255)` = 255, which the comment "to prevent underflow" promises | not executed | Subtraction.OffsetSampleAsWritten | Subtraction.OffsetDifferenceNoWrap |
