# Baseflow separation, modelled in Dafny

This project models `BaseflowCalculator`, the engine of a baseflow separation
tool. Every method takes a streamflow (discharge) series `Q` and returns a
baseflow series `b` of the same length. There are three families:

- **HYSEP interval helper.** `HysepInterval` turns the basin's N into an
  odd window width N' in [3, 11].
- **Turning-point and window methods.**
  - UKIH takes the minima of blocks of five, applies a 0.9 test and
    interpolates between the turning points.
  - Local minimum uses centred-window minima as turning points.
  - HYSEP fixed interval takes block minima.
  - HYSEP sliding interval takes centred-window minima.
- **Recursive digital filters.**
  - Lyne-Hollick runs two passes.
  - Chapman, Chapman-Maxwell, Boughton, Furey-Gupta, Eckhardt, EWMA and
    Willems run one pass.
  - Every forward pass starts at `b[0] = Q[0]` and clips each new estimate
    to the discharge. The Lyne-Hollick backward pass instead clips each
    estimate to the forward result, so its final `b[0]` may lie below `Q[0]`.

Modules:

- `Series` covers the clip, first-argmin and minimum over a series, and
  turning-index lists.
- `Recurrences` holds the filter recurrences (`Step`) and the reference
  definitions of the forward pass (`Forward`) and the Lyne-Hollick backward
  pass (`BackwardAt`, one sample at a time).
- `Interpolation` is the reference definition of interpolation between
  turning points, including edge filling.
- `TurningPoints` defines the UKIH block minima and turning points and the
  centred-window minima.
- `Intervals` defines the fixed-interval blocks and the sliding-interval
  window.
- `BaseflowCalculator` holds the imperative methods. Each allocates an
  array `b` and fills it with index loops. Each is proved against the
  reference definitions above.

The discharge series is a `seq<real>`, because no method writes it. The
baseflow is an `array<real>`. Values are mathematical reals.

With no basin area the code sets N = 5. Then 2N = 10 is even, so the
interval is 9, not 5. The model follows the code (`HysepInterval`).

## Model

| member | source | states |
|---|---|---|
| BaseflowCalculator.Ceil | Baseflow.App/Engine/BaseflowCalculator.cs:39 | `Math.Ceiling`: the least integer not below x |
| BaseflowCalculator.HysepInterval | Baseflow.App/Engine/BaseflowCalculator.cs:23-47 | N' is odd and in [3, 11]. No area gives 9. N ≤ 1 gives 3 and N > 6 gives 11. Otherwise N' is the odd integer in [2N-1, 2N+1), the lower one on a tie |
| BaseflowCalculator.CeilMonotone | Baseflow.App/Engine/BaseflowCalculator.cs:39 | `Math.Ceiling` is monotone |
| BaseflowCalculator.HysepIntervalMonotone | Baseflow.App/Engine/BaseflowCalculator.cs:39-46 | a larger N never gives a narrower interval |
| BaseflowCalculator.DefaultsDefined | Baseflow.App/Engine/BaseflowCalculator.cs:11-12 | at the default α and BFImax, and the Boughton C = 0.1 and Willems w = 0.5 defaults of the signatures at lines 268 and 321, no filter denominator is zero |
| BaseflowCalculator.DefaultEwmaNonNegative | Baseflow.App/Engine/BaseflowCalculator.cs:308-319 | at the default e = 0.05, EWMA keeps a non-negative discharge non-negative |
| BaseflowCalculator.RangeMin | Baseflow.App/Engine/BaseflowCalculator.cs:196-197 | the running-minimum scan returns the minimum of Q over the range |
| BaseflowCalculator.SegmentValue | Baseflow.App/Engine/BaseflowCalculator.cs:59-77 | one pass of the loop body: the cursor ends on the segment of i, and the value written is the interpolated value at i (the discharge at a turning point, otherwise the clipped line) |
| BaseflowCalculator.LinearInterpolation | Baseflow.App/Engine/BaseflowCalculator.cs:49-80 | an empty index list gives all zeros. Otherwise b equals Q at every turning point, follows the line through consecutive turning points (clipped to Q) strictly between them, and is zero before the first and after the last |
| BaseflowCalculator.FillEdges | Baseflow.App/Engine/BaseflowCalculator.cs:150-151 | indices before the first and after the last turning point take the edge series. The range between them is unchanged |
| BaseflowCalculator.ForwardPass | Baseflow.App/Engine/BaseflowCalculator.cs:92-97 | the clipped forward recurrence loop computes the reference forward pass of the filter |
| BaseflowCalculator.BackwardPass | Baseflow.App/Engine/BaseflowCalculator.cs:100-105 | the backward loop over the cloned forward result computes the reference backward pass |
| BaseflowCalculator.CalculateLH | Baseflow.App/Engine/BaseflowCalculator.cs:86-108 | the result is the two-pass Lyne-Hollick filter of Q and never exceeds Q |
| BaseflowCalculator.BlockArgMin | Baseflow.App/Engine/BaseflowCalculator.cs:120-130 | the block scan returns the first index of the minimum of the five samples |
| BaseflowCalculator.UkihBlockMinima | Baseflow.App/Engine/BaseflowCalculator.cs:113-132 | the list holds the first-minimum index of every full block of five. A trailing partial block is ignored |
| BaseflowCalculator.UkihTurningTest | Baseflow.App/Engine/BaseflowCalculator.cs:134-143 | the test loop keeps exactly the UKIH turning points |
| BaseflowCalculator.InterpolateWithEdges | Baseflow.App/Engine/BaseflowCalculator.cs:145-153 | fewer than three turning points give all zeros. Otherwise b interpolates between them and equals b_LH outside them |
| BaseflowCalculator.CalculateUKIH | Baseflow.App/Engine/BaseflowCalculator.cs:110-154 | the UKIH turning points are increasing indices into Q. Fewer than three give all zeros. Otherwise b interpolates Q between them and equals b_LH before the first and after the last |
| BaseflowCalculator.SeparationBelow | Baseflow.App/Engine/BaseflowCalculator.cs:145-153 | for a non-negative Q and b_LH its Lyne-Hollick result, a UKIH or local-minimum result never exceeds Q, in the all-zero case and in the interpolated case |
| BaseflowCalculator.EdgeFilledBelow | Baseflow.App/Engine/BaseflowCalculator.cs:147-151 | with three or more turning points and b_LH the Lyne-Hollick result of Q, the edge-filled interpolation never exceeds Q |
| BaseflowCalculator.WindowScan | Baseflow.App/Engine/BaseflowCalculator.cs:164-172 | the early-exit window scan answers exactly whether Q[i] is the minimum of [i-half, i+half] |
| BaseflowCalculator.CalculateLocalMin | Baseflow.App/Engine/BaseflowCalculator.cs:156-184 | the local-minimum turning points are increasing indices into Q. Fewer than three give all zeros. Otherwise b interpolates between them and equals b_LH before the first and after the last |
| BaseflowCalculator.Fill | Baseflow.App/Engine/BaseflowCalculator.cs:199 | sets exactly b[lo..hi) to the value and leaves the rest unchanged |
| BaseflowCalculator.FillBlock | Baseflow.App/Engine/BaseflowCalculator.cs:194-199 | the k-th block is set to its fixed-interval value (its minimum). Nothing outside the block changes |
| BaseflowCalculator.FillFullBlocks | Baseflow.App/Engine/BaseflowCalculator.cs:192-200 | every sample of the first n full blocks holds its fixed-interval value. The samples after them are unchanged |
| BaseflowCalculator.FixedBlocks | Baseflow.App/Engine/BaseflowCalculator.cs:189-209 | after the full blocks and the trailing shorter block every sample holds its fixed-interval value |
| BaseflowCalculator.CalculateFixed | Baseflow.App/Engine/BaseflowCalculator.cs:186-210 | each b[j] is the minimum of Q over j's block of width N'. The short trailing block is its own block. b never exceeds Q |
| BaseflowCalculator.SlideInterior | Baseflow.App/Engine/BaseflowCalculator.cs:218-227 | every interior sample holds the minimum of its centred window. The edge samples are unchanged |
| BaseflowCalculator.SlideAt | Baseflow.App/Engine/BaseflowCalculator.cs:220-226 | one interior sample is set to the minimum of its centred window. No other sample changes |
| BaseflowCalculator.CalculateSlide | Baseflow.App/Engine/BaseflowCalculator.cs:212-240 | each b[i] is the sliding-interval value: a centred-window minimum in the interior and clamped minima at the edges (the end edge is written last). b never exceeds Q |
| BaseflowCalculator.CalculateChapman | Baseflow.App/Engine/BaseflowCalculator.cs:242-253 | b is the Chapman forward pass, starts at Q[0] and never exceeds Q |
| BaseflowCalculator.CalculateCM | Baseflow.App/Engine/BaseflowCalculator.cs:255-266 | b is the Chapman-Maxwell forward pass, starts at Q[0] and never exceeds Q |
| BaseflowCalculator.CalculateBoughton | Baseflow.App/Engine/BaseflowCalculator.cs:268-281 | b is the Boughton forward pass, starts at Q[0] and never exceeds Q |
| BaseflowCalculator.CalculateFurey | Baseflow.App/Engine/BaseflowCalculator.cs:283-293 | b is the Furey forward pass (recurrence on Q[i], clip on Q[i+1]), starts at Q[0] and never exceeds Q |
| BaseflowCalculator.CalculateEckhardt | Baseflow.App/Engine/BaseflowCalculator.cs:295-306 | b is the Eckhardt forward pass, starts at Q[0] and never exceeds Q |
| BaseflowCalculator.CalculateEWMA | Baseflow.App/Engine/BaseflowCalculator.cs:308-319 | b is the EWMA forward pass, starts at Q[0] and never exceeds Q |
| BaseflowCalculator.CalculateWillems | Baseflow.App/Engine/BaseflowCalculator.cs:321-333 | b is the Willems forward pass, starts at Q[0] and never exceeds Q |
| Series.Clip | Baseflow.App/Engine/BaseflowCalculator.cs:96 | the clipped value is at most the cap and at most the estimate, and is one of them |
| Series.FirstArgMin | Baseflow.App/Engine/BaseflowCalculator.cs:123-130 | returns an index of a minimum that is strictly below every earlier sample |
| Series.SeqMin | Baseflow.App/Engine/BaseflowCalculator.cs:196-197 | the minimum is a sample and is at most every sample |
| Series.SeqMinAt | Baseflow.App/Engine/BaseflowCalculator.cs:196-197 | a sample no other sample lies below is the minimum, so a running minimum ends at it |
| Recurrences.Forward | Baseflow.App/Engine/BaseflowCalculator.cs:92-97 | the forward pass starts at Q[0] and never exceeds Q |
| Recurrences.BackwardAt | Baseflow.App/Engine/BaseflowCalculator.cs:100-105 | the backward value at i, computed from the one after it, never exceeds the forward value at i |
| Recurrences.LyneHollickBounds | Baseflow.App/Engine/BaseflowCalculator.cs:86-108 | the forward pass starts at Q[0]. b ≤ forward ≤ Q everywhere, and b and the forward pass agree on the last sample |
| Recurrences.ForwardFixedPoint | Baseflow.App/Engine/BaseflowCalculator.cs:92-97 | a level the recurrence keeps in one step is kept by the whole pass over a constant series |
| Recurrences.ForwardPrefix | Baseflow.App/Engine/BaseflowCalculator.cs:93-97 | the first n outputs depend only on the first n discharges |
| Recurrences.BackwardConstant | Baseflow.App/Engine/BaseflowCalculator.cs:101-105 | the backward pass over a constant forward result is that constant |
| Recurrences.LyneHollickConstant | Baseflow.App/Engine/BaseflowCalculator.cs:86-108 | a constant discharge passes through Lyne-Hollick unchanged |
| Recurrences.EwmaConstant | Baseflow.App/Engine/BaseflowCalculator.cs:308-319 | a constant discharge passes through EWMA unchanged |
| Recurrences.EwmaNonNegative | Baseflow.App/Engine/BaseflowCalculator.cs:308-319 | with 0 ≤ e ≤ 1, EWMA keeps a non-negative discharge non-negative |
| Recurrences.EwmaStepNonNegative | Baseflow.App/Engine/BaseflowCalculator.cs:315-316 | one clipped EWMA step from a non-negative estimate towards a non-negative discharge stays non-negative |
| Interpolation.InterpolatedOnFrame | Baseflow.App/Engine/BaseflowCalculator.cs:150-151 | filling the edges keeps the interpolation between the first and the last turning point |
| Interpolation.LineThroughTurningPoints | Baseflow.App/Engine/BaseflowCalculator.cs:68-69 | the segment's line passes through both of its turning points |
| Interpolation.LineBetween | Baseflow.App/Engine/BaseflowCalculator.cs:68-69 | within a segment the line stays between the discharges at its turning points |
| Interpolation.SegmentOf | Baseflow.App/Engine/BaseflowCalculator.cs:57-64 | each index in the interpolated range is a turning point or lies strictly inside one segment |
| Interpolation.SegmentExists | Baseflow.App/Engine/BaseflowCalculator.cs:57-64 | every index from the first to the last turning point has a segment: a last turning point at or before it, with the next one after it |
| Interpolation.SegmentIndex | Baseflow.App/Engine/BaseflowCalculator.cs:57-64 | the segment of an index starts at or before it and the next turning point lies after it |
| Interpolation.SegmentIndexUnique | Baseflow.App/Engine/BaseflowCalculator.cs:59-64 | the segment the walking cursor is on is the only segment of the index |
| Interpolation.PointwiseInterpolated | Baseflow.App/Engine/BaseflowCalculator.cs:57-78 | writing the interpolated value at every index of the range gives a series that equals Q at the turning points and follows the clipped lines between them |
| Interpolation.InterpolatedBelow | Baseflow.App/Engine/BaseflowCalculator.cs:57-78 | the interpolation never exceeds Q, nor the higher discharge of the segment's two turning points |
| Interpolation.InterpolationUnique | Baseflow.App/Engine/BaseflowCalculator.cs:49-80 | the discharge and the turning points determine the interpolation |
| TurningPoints.BlockMinIndex | Baseflow.App/Engine/BaseflowCalculator.cs:118-131 | the first index of the minimum of the k-th block of five |
| TurningPoints.BlockMinimaIncreasing | Baseflow.App/Engine/BaseflowCalculator.cs:113-132 | there are ⌊\|Q\|/5⌋ block minima and they are strictly increasing indices into Q |
| TurningPoints.UkihTurnsOrdered | Baseflow.App/Engine/BaseflowCalculator.cs:135-143 | after k tests the turning points are increasing indices into Q, after the first block minimum and no later than the k-th |
| TurningPoints.UkihTurnsMembers | Baseflow.App/Engine/BaseflowCalculator.cs:135-143 | after k tests the turning points are exactly the middle minima of the triples that passed their test |
| TurningPoints.UkihTurnsAll | Baseflow.App/Engine/BaseflowCalculator.cs:134-143 | over any increasing list of minima, the kept points lie strictly between its first and last entry and are exactly the middles that passed |
| TurningPoints.UkihTurningPointsSpec | Baseflow.App/Engine/BaseflowCalculator.cs:134-143 | turning points are increasing, never the first or the last block's minimum, and exactly the block minima that pass the 0.9 test against both neighbours |
| TurningPoints.WindowMinsSpec | Baseflow.App/Engine/BaseflowCalculator.cs:162-174 | the window minima found below hi are increasing, and are exactly the indices below hi whose sample is the minimum of its window |
| TurningPoints.LocalMinimaSpec | Baseflow.App/Engine/BaseflowCalculator.cs:162-174 | i is a turning point iff half ≤ i < \|Q\|-half and Q[i] ≤ Q[j] on [i-half, i+half], ties included |
| Intervals.BlockMin | Baseflow.App/Engine/BaseflowCalculator.cs:194-199 | the block value is at most every sample of the block and equals one of them |
| Intervals.FullBlocks | Baseflow.App/Engine/BaseflowCalculator.cs:190 | the n = \|Q\| / N' full blocks fit in Q and leave less than one block over |
| Intervals.NextBlock | Baseflow.App/Engine/BaseflowCalculator.cs:194-195 | block i ends where block i + 1 starts, within the full blocks |
| Intervals.BlockOf | Baseflow.App/Engine/BaseflowCalculator.cs:192-199 | index j lies in block k exactly when j / w = k |
| Intervals.BlockContains | Baseflow.App/Engine/BaseflowCalculator.cs:190-208 | each index's block starts at or before it and ends after it |
| Intervals.FixedValue | Baseflow.App/Engine/BaseflowCalculator.cs:186-210 | the fixed-interval value never exceeds the discharge at that index |
| Intervals.FixedStep | Baseflow.App/Engine/BaseflowCalculator.cs:192-208 | the fixed-interval series is constant on each block and below Q there |
| Intervals.SlideValue | Baseflow.App/Engine/BaseflowCalculator.cs:212-240 | the sliding-interval value never exceeds the discharge at that index |
| Intervals.SlideWindowMin | Baseflow.App/Engine/BaseflowCalculator.cs:219-226 | in the interior the value is at most every sample of the centred window and equals one of them |

## Left out

- Floating point is not modelled. Values are reals, so there is no rounding, NaN or infinity. The 0.9 test and every recurrence are exact.
- HysepInterval: takes N = (0.3861022 · area)^0.2 as its input. `Math.Pow` is not modelled, so the model starts from N rather than the basin area.
- RangeMin, BlockArgMin: the `double.MaxValue` start value is replaced by the first sample of the range.
  - This agrees with the source whenever some sample is below `double.MaxValue`.
  - The source's UKIH index of -1 for a block whose samples are all at least `double.MaxValue` is not modelled.
- The inline loops are modelled as calls to helper methods that run the same loops: `RangeMin` and `BlockArgMin` for the minimum scans, `Fill`, `FillBlock`, `FillFullBlocks`, `SlideInterior` and `SlideAt` for the fill loops, `WindowScan` for the local-minimum window test, `SegmentValue` for the interpolation loop body and `UkihTurningTest` for the 0.9 test.
- LinearInterpolation: computes the slope and the line in one expression (`Line`). With reals the grouping of the source's two statements gives the same value.
- The seven one-pass filters are modelled by one loop, `ForwardPass`.
  - The loop is parameterised by the filter's recurrence `Step`, which holds each method's formula as written.
  - The source repeats the same loop in each method.
- Default parameter values are C# optional parameters. The model takes every coefficient explicitly.
- CalculateChapman, CalculateCM, CalculateBoughton, CalculateEckhardt, CalculateWillems: require their denominators to be non-zero. The source would divide by zero and produce non-finite values.
- CalculateLH and the one-pass filters: require a non-empty series. The source reads `Q[0]` unconditionally and throws on an empty array.
- CalculateSlide: requires |Q| ≥ (N' - 1) / 2. The source throws on a shorter series.
- CalculateUKIH, CalculateLocalMin: require `b_LH` to have the length of `Q`. The source reads it only at the edge indices.
- SeparationBelow: requires a non-negative discharge. With fewer than three turning points the source returns all zeros, which lie above a negative discharge.
- Constant-series preservation is proved only for Lyne-Hollick and EWMA. The other filters shrink a constant level, so the property does not hold for them.
- `GetQ`, the user interface and CSV import/export, and the record type are not part of this model.
- The `Calculate` methods do not state that their result arrays are fresh. The discharge and `b_LH` inputs are sequences, since the source never writes them, so they cannot alias the result.
