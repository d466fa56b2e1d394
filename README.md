# Solar-wind boundary data: a verified model of its time model

The solar-wind boundary condition of the simulation reads measurement cubes. Each cube is a
sequence of frames on a fixed 60 (latitude) x 180 (longitude) grid, holding the density D, the
radial velocity V1, the temperature T and the magnetic components B1, B3 (with the polarity map
BP), plus the time stamp of every frame in seconds. Event frames (coronal mass ejections) are
marked by a calibration circle written into T. The code finds the runs of event frames and picks
a background frame. It builds a sorted timeline of frame pairs over today's cube and the ten
previous days' cubes. At every boundary cell and simulation time it then takes either the event
value, interpolated between two frames, or the background value, rotated in longitude and, in
daily mode, blended across days.

This project models that core in Dafny:

| file | module | source |
|---|---|---|
| utils.dfy | `Utils` | flat cube index, seconds-to-days conversion, hour parser, local-to-global cell mapping |
| bnd.dfy | `Bnd` | event detection (`has_circle`, `get_cmes_segments`), `get_bkg_frame`, the post-load steps of `read_bnd` |
| timeline.dfy | `CmeTimeline` | the comparator, `create_timeline`, `get_cme_index_by_pluto_time` |
| model.dfy | `Model` | `rotate_bc`, `lerp`, `normalize_time`, `normalize`, `interpolate_vars`, `interpolate_ambient`, `interpolate_cme` |
| daily_mode.dfy | `DailyMode` | day offsets, day selection, `process_daily_cme`, `process_daily_ambient`, `daily_boundary` |
| average_mode.dfy | `AverageMode` | `average_boundary` |

The code works by updating state in place in several places, and the model does the same:

- A cube is the class `Bnd.BoundaryData`. Its fields are arrays that the polarity step corrects in place.
- The run detector, the background scan, the timeline walk and sort, the lookups and the wrap loops of
  the index mapping and of `rotate_bc` are methods with loops. Each is proved against a specification
  function, and the properties of those functions are proved as lemmas.
- The timeline is the class `CmeTimeline.Timeline`, whose segments are a fixed array of 1000 slots.
- The interpolators and the two boundary dispatches only compute values from the cubes. They are
  functions over the cubes' arrays. An interpolation that the source aborts with `exit(-1)` gives
  `CoefError(q)`.

The process globals are parameters:

- the simulation time `g_time` and the `DATESHIFT` input;
- the MPI rank and the local block sizes `NX2`/`NX3`;
- the host's `g_OmegaZ` and `CONST_PI`, which form `Model.Host`;
- the `USE_POLARITY` switch.

Doubles are reals. A cast `(int)` of a non-negative value is `Floor`.

## Model

| member | source | states |
|---|---|---|
| Utils.ConvertToPlutoTime | solarwind-src/utils.h:6-8 | the result in days, times 86400, gives back the stamp in seconds |
| Utils.ConvertWholeDays | solarwind-src/utils.h:6-8 | a stamp of d whole days converts to d |
| Utils.ConvertMonotone | solarwind-src/utils.h:6-8 | the conversion keeps the order of time stamps |
| Utils.DataIndex | solarwind-src/utils.h:10-12 | an in-range (frame, k, j) lands inside that frame's block of 10800 cells |
| Utils.DataIndexInjective | solarwind-src/utils.h:10-12 | two in-range triples share a flat index only when they are the same triple |
| Utils.Min | solarwind-src/utils.h:14-16 | the result is one of the arguments and at most both |
| Utils.Max | solarwind-src/utils.h:18-20 | the result is one of the arguments and at least both |
| Utils.AtoiTwo | solarwind-src/utils.h:23-24 | atoi of two characters lies in [-9, 99]; two digits give their decimal value; no digit gives 0 |
| Utils.ObsdateHour | solarwind-src/bnd.h:198-201 | the hour read from characters 11 and 12 of the calendar date lies in [-9, 99], and for two digits is their decimal value |
| Utils.ObsdateCalToSecondsFromMidnight | solarwind-src/utils.h:22-25 | a whole number of hours in seconds; for digits d1 d2 it is (10·d1 + d2)·3600 |
| Utils.ObsdateReadsOnlyHourCharacters | solarwind-src/utils.h:22-25 | dates that agree in characters 11 and 12 give the same seconds |
| Utils.ClampLatitude | solarwind-src/utils.h:31-32 | the result is in [0, 59]; below 0 gives 0, above 59 gives 59, in range is unchanged |
| Utils.MapToGlobalIndexes | solarwind-src/utils.h:27-35 | global_j is the clamped raw latitude; global_k is in [0, 179] and differs from the raw longitude by a multiple of 180 |
| Utils.GlobalKProperties | solarwind-src/utils.h:28-34 | the wrapped longitude is in [0, 179], equals the raw longitude when that is in range, and is congruent to it modulo 180 |
| Bnd.HasCircleReadsOnlyFrame | solarwind-src/bnd.h:43-66 | two temperature arrays that agree on a frame's block give the same circle test for that frame |
| Bnd.HasCircle | solarwind-src/bnd.h:43-66 | the result is 0 or 1; it is 1 exactly when some interior cell holds 500000 and so does its neighbour 2 bins further in longitude or in latitude (only radius 2 decides) |
| Bnd.RunEnd | solarwind-src/bnd.h:82-84 | the scan from a flagged frame stops at the first unflagged frame or the end, with every frame before it flagged |
| Bnd.DetectCmeFrames | solarwind-src/bnd.h:71-75 | a fresh array of ntime flags, each 0 or 1, and 1 exactly for the frames with the circle |
| Bnd.GetCmesSegments | solarwind-src/bnd.h:68-95 | the stored segments are, in order, the widened runs of flagged frames that the specification function yields |
| Bnd.RunsOrdered | solarwind-src/bnd.h:77-91 | every segment has left ≥ -1 and left + 1 < right < ntime; segments come in ascending frame order; consecutive segments may share an end frame (each right ≤ the next left) |
| Bnd.RunsSound | solarwind-src/bnd.h:77-91 | every emitted segment is [start - 1, end + 1] of a maximal run of flagged frames followed by an unflagged frame |
| Bnd.RunsComplete | solarwind-src/bnd.h:77-91 | every such closed run at or after the scan position is emitted |
| Bnd.RunsCharacterization | solarwind-src/bnd.h:77-91 | a segment is emitted if and only if it is a closed run widened by one frame on each side |
| Bnd.NoFlagsNoRuns | solarwind-src/bnd.h:79-80 | with no flagged frame no segment is emitted |
| Bnd.RunAtFirstFrame | solarwind-src/bnd.h:85-86 | a run starting at frame 0 yields left = -1, without clipping |
| Bnd.TrailingRunDropped | solarwind-src/bnd.h:78-83 | a run that reaches the last frame is never emitted |
| Bnd.BkgFrameFirstFree | solarwind-src/bnd.h:97-113 | for ordered segments the background frame is in [0, ntime); it is 0 without segments; it is the first frame no segment covers when one exists; otherwise it is the first segment's right end |
| Bnd.BoundaryData.GetBkgFrame | solarwind-src/bnd.h:97-113 | the scan over the stored segments returns the background frame of the specification |
| Bnd.CellCorrection | solarwind-src/bnd.h:179-182 | a cell keeps its sign when polarity is off or BP > 0, and is negated otherwise |
| Bnd.Corrected | solarwind-src/bnd.h:175-182 | the corrected field has the same length and is unchanged when polarity is off |
| Bnd.FlippedProperties | solarwind-src/bnd.h:175-182 | cells outside the background frame and cells with BP > 0 are unchanged; flipping twice restores the field |
| Bnd.FrameMeanUniform | solarwind-src/bnd.h:184-196 | the mean over a frame holding one value everywhere is that value |
| Bnd.CorrectAndSumLatitude | solarwind-src/bnd.h:176-189 | one latitude row of the frame is corrected and nothing else; the returned sums are the row sums of the five fields |
| Bnd.CorrectAndSumFrame | solarwind-src/bnd.h:175-190 | B1 and B3 become their corrected fields; the five sums are the sums over the frame's cells, B1 and B3 after correction |
| Bnd.BoundaryData.constructor | solarwind-src/bnd.h:124-140 | the cube holds the arrays handed over, on the 60 x 180 grid, in ambient mode with background frame 0 and no offset |
| Bnd.BoundaryData.SelectBackground | solarwind-src/bnd.h:157-167 | mode is CME iff ntime > 1; in ambient mode the frame is 0 and the segments are untouched; in CME mode the segments are the detected runs and the frame is their background frame |
| Bnd.BoundaryData.ApplyPolarityAndMeans | solarwind-src/bnd.h:169-196 | B1 and B3 are corrected at the background frame only; each mean is that frame's sum divided by n2·n3 |
| Bnd.BoundaryData.SetObsdateHour | solarwind-src/bnd.h:198-203 | the hour is the one parsed from the date, and the offset to the main cube is 0 |
| Bnd.BoundaryData.PostLoad | solarwind-src/bnd.h:157-203 | every post-load step at once: mode, segments, background frame, corrected fields, means, hour and zero offset |
| Bnd.ReadBnd | solarwind-src/bnd.h:115-206 | a fresh valid cube over the given arrays, in the mode, background frame, hour and offset that read_bnd sets |
| CmeTimeline.Comparator | solarwind-src/cme-timeline.h:22-32 | the comparator returns only 0 or 1, never a negative value |
| CmeTimeline.ComparatorIsLexGreater | solarwind-src/cme-timeline.h:22-32 | it returns 1 iff (left_time, right_time, daily_idx) is lexicographically greater |
| CmeTimeline.ComparatorTotal | solarwind-src/cme-timeline.h:22-32 | of two segments with different keys, one is after the other |
| CmeTimeline.ComparatorStrictOrder | solarwind-src/cme-timeline.h:22-32 | "after" is irreflexive, asymmetric and transitive |
| CmeTimeline.NotAfterTransitive | solarwind-src/cme-timeline.h:22-32 | "not after" is transitive, so a chain of unswapped neighbours is ordered |
| CmeTimeline.SortedOrder | solarwind-src/cme-timeline.h:76 | in a sorted timeline no neighbour pair compares 1 and left times never decrease |
| CmeTimeline.KeptFrame | solarwind-src/cme-timeline.h:54-58 | the frame the walk keeps is i or i + 1 and never the background frame (from 1 up) |
| CmeTimeline.PairCount | solarwind-src/cme-timeline.h:55-61 | a cube gives ntime - 1 pairs, one fewer when 1 ≤ bkg_frame ≤ ntime - 1, and none when it has one frame |
| CmeTimeline.PairEmittedIff | solarwind-src/cme-timeline.h:55-61 | the walk emits pair c iff c is below the pair count |
| CmeTimeline.CubeSegmentsShape | solarwind-src/cme-timeline.h:52-70 | each pair of cube d has daily_idx d and frames 0 ≤ left < right < ntime; right is never bkg_frame; left is bkg_frame only when it is 0; the gap is 2 exactly across the background frame, else 1; the times are the offset plus the converted stamps; the chain starts at frame 0 and each left is the previous right |
| CmeTimeline.CubeSegmentsCount | solarwind-src/cme-timeline.h:55-61 | a cube gives no pairs with one frame, ntime - 1 with background frame 0, and ntime - 2 with a later background frame |
| CmeTimeline.EmittedBelongs | solarwind-src/cme-timeline.h:52-68 | every emitted pair names one of the cubes, has frames inside that cube, and carries that cube's clock times |
| CmeTimeline.TimelineOnCubeClocks | solarwind-src/cme-timeline.h:63-68 | for cubes with increasing stamps, every timeline entry fits its cube, is on its clock and has left_time < right_time |
| CmeTimeline.AppendCube | solarwind-src/cme-timeline.h:53-71 | one cube's walk appends exactly that cube's pairs and leaves the earlier entries alone |
| CmeTimeline.FillTimeline | solarwind-src/cme-timeline.h:52-74 | the array prefix is the pairs of all cubes in cube order, and len is their number |
| CmeTimeline.SortTimeline | solarwind-src/cme-timeline.h:76 | the prefix ends sorted under the comparator and is a permutation of what it held |
| CmeTimeline.LookupFirstMatch | solarwind-src/cme-timeline.h:80-92 | the lookup is -1 iff no segment holds t; otherwise it is the first segment with left_time ≤ t ≤ right_time |
| CmeTimeline.Timeline.Create | solarwind-src/cme-timeline.h:35-78 | len is the number of emitted pairs; the timeline is sorted and a permutation of the emitted pairs |
| CmeTimeline.Timeline.IndexByPlutoTime | solarwind-src/cme-timeline.h:80-92 | the scan returns the first holding segment or -1, in [-1, len), without changing the timeline |
| Model.WrapLon | solarwind-src/model.h:15-16 | the wrapped longitude is in [0, 180) and a whole number of turns of 180 away from the input |
| Model.WrapLonUnique | solarwind-src/model.h:15-16 | it is the only such value in [0, 180) |
| Model.WrapLonInRange | solarwind-src/model.h:15-16 | a value already in [0, 180) is unchanged |
| Model.Rotation | solarwind-src/model.h:9-19 | the rotated bin is in [0, 180) and differs from k - 180t/25.38 + t·180·Ω/(2π) by whole turns of 180 |
| Model.RotationAtZero | solarwind-src/model.h:9-19 | at t = 0 an in-range bin is its own rotation |
| Model.RotateBc | solarwind-src/model.h:9-19 | the two wrap loops compute the rotation and end in [0, 180) |
| Model.LerpEnds | solarwind-src/model.h:21-23 | lerp gives a at weight 0, b at weight 1, and a when both ends are a |
| Model.LerpAsOffset | solarwind-src/model.h:21-23 | lerp is a plus the weighted difference |
| Model.LerpSwap | solarwind-src/model.h:21-23 | swapping the ends swaps the weight for its complement |
| Model.LerpBetween | solarwind-src/model.h:21-23 | for a weight in [0, 1] the blend lies between the two ends |
| Model.NormalizeTimeInverse | solarwind-src/model.h:21-27 | lerp of the ends at the normalised time gives back t; left maps to 0 and right to 1 |
| Model.NormalizeTimeInUnit | solarwind-src/model.h:25-27 | for left < right and t between them the normalised time is in [0, 1] |
| Model.Normalize | solarwind-src/model.h:29-38 | V1 is kept; T is scaled by 0.1/x1; D, B1, B3 by (0.1/x1)² |
| Model.NormalizeAtReference | solarwind-src/model.h:29-38 | at x1 = 0.1 the rescaling changes nothing |
| Model.LerpValuesEnds | solarwind-src/model.h:48-52 | blending five quantities gives the first set at weight 0 and the second at weight 1 |
| Model.Bins | solarwind-src/model.h:42-45 | kk0 is the floor of kk in [0, 179]; kk1 is kk0 + 1 except 179, which pairs with itself; s is in [0, 1) with kk0 + s = kk |
| Model.InterpolateVarsAtBin | solarwind-src/model.h:40-53 | a whole bin reads its stored cell exactly |
| Model.InterpolateVarsLastBin | solarwind-src/model.h:40-53 | between 179 and 180 the value is bin 179's, with no wrap to bin 0 |
| Model.AmbientAtBkgTime | solarwind-src/model.h:55-73 | at the background frame's own time the ambient value is its rescaled stored cell |
| Model.AmbientReadsOnlyBkgFrame | solarwind-src/model.h:55-73 | two cubes that agree on the background frame's row and time give the same ambient value |
| Model.InterpolateCme | solarwind-src/model.h:75-102 | the interpolation aborts iff the normalised time lies outside [-1, 1] |
| Model.CmeWithinSpan | solarwind-src/model.h:75-102 | a time between the two frame times never aborts |
| Model.CmeAtFrameTimes | solarwind-src/model.h:75-102 | at the left frame's time the value is the rescaled left cell, at the right frame's time the rescaled right cell |
| DailyMode.ShiftOffset | solarwind-src/daily-mode.h:13-15 | the offset times 24 is minus (24 times the day difference plus the hour difference) |
| DailyMode.ShiftOffsetSameHour | solarwind-src/daily-mode.h:13-15 | with equal hours the offset is minus the day difference |
| DailyMode.ShiftOffsetDecreases | solarwind-src/daily-mode.h:13-15 | for hours in [0, 24), the cube one day older has the smaller offset |
| DailyMode.ShiftTimeRelativeToMainBnd | solarwind-src/daily-mode.h:10-17 | the loop leaves the cube's offset at the shift, and changes it only when the cube has frames |
| DailyMode.DailyIdxFirstMatch | solarwind-src/daily-mode.h:34-42 | the day index is -1 iff t is at or before every offset of days 1..10; otherwise it is the first such day with t after its offset |
| DailyMode.GetDailyIdxByTime | solarwind-src/daily-mode.h:34-42 | the scan returns that day index, -1 or in 1..10 and never 0 |
| DailyMode.ProcessDailyCmeAsWritten | solarwind-src/daily-mode.h:44-60 | process_daily_cme as written: on a segment on its cube's clock it aborts iff t normalised over the segment lies outside [-86400, 86400] |
| DailyMode.AsWrittenAbortBound | solarwind-src/daily-mode.h:51-59 | as written, the weight passed to interpolate_cme is outside [-1, 1] exactly when t normalised over the segment is outside [-86400, 86400] |
| DailyMode.DailyCmeAsWrittenWithinSegment | solarwind-src/daily-mode.h:44-60 | as written, a time inside the segment never aborts |
| DailyMode.ProcessDailyCme | solarwind-src/daily-mode.h:44-60 | corrected definition of process_daily_cme (see Findings): the segment's cube evaluated at t on its own clock aborts iff t normalised over the segment lies outside [-1, 1] |
| DailyMode.DailyCmeWithinSegment | solarwind-src/daily-mode.h:44-60 | corrected definition: a time inside the segment never aborts |
| DailyMode.DailyCmeAtSegmentEnds | solarwind-src/daily-mode.h:44-60 | corrected definition: at the segment's ends the value is the rescaled left and right frame cell |
| DailyMode.DailyCmeAsWrittenWeight | solarwind-src/daily-mode.h:51-58 | as written, the blend weight is the intended one divided by 86400, and only 1/86400 at the segment's end |
| DailyMode.ProcessDailyAmbient | solarwind-src/daily-mode.h:62-86 | the blend aborts iff it is on (idx > 0, not forced) and the daily time over the day gap lies outside [-1, 1] |
| DailyMode.DailyAmbientSingle | solarwind-src/daily-mode.h:62-69 | when forced or on day 0 the value is that day's own ambient value |
| DailyMode.DailyAmbientBlend | solarwind-src/daily-mode.h:62-86 | for a positive gap and a daily time within it the blend never aborts; at 0 it is the day's own value, at the gap the newer day's value at one day earlier |
| DailyMode.DaySelection | solarwind-src/daily-mode.h:95-107 | the selected day is in 1..10 and the daily time is t minus its offset |
| DailyMode.DaySelectionCases | solarwind-src/daily-mode.h:95-107 | blending is off exactly when t is at or before every offset, then on day 10; otherwise the daily time is positive and no earlier day was selectable |
| DailyMode.DailyBoundaryEvent | solarwind-src/daily-mode.h:89-113 | when a segment holds t, the result is the first such segment's event value: with clock AsWritten, process_daily_cme as written; with Intended, the corrected definition; on its cube's clock neither aborts |
| DailyMode.DailyBoundaryFallback | solarwind-src/daily-mode.h:95-117 | with no segment and t at or before every offset, the result is day 10's own ambient value |
| DailyMode.DailyBoundaryAmbient | solarwind-src/daily-mode.h:89-118 | with no segment and t after some day's offset, blending is on and the result is the selected day's ambient value blended with the newer day's at the daily time over their gap; with increasing offsets and t not past today's offset it never aborts |
| AverageMode.AverageBoundaryEvent | solarwind-src/average-mode.h:9-34 | when a segment holds t, the result is the first such segment's cube interpolated at the unconverted t; on a cube with offset 0 this equals the corrected daily event value (`DailyMode.ProcessDailyCme`) and never aborts |
| AverageMode.AverageBoundaryAmbient | solarwind-src/average-mode.h:9-41 | with no segment holding t, the result is today's ambient value at t |

## Left out

- Reading the netCDF file in read_bnd (solarwind-src/bnd.h:118-155, 198-199) is not modelled, because it is file I/O. The arrays, ntime and the calendar string are inputs to `Bnd.ReadBnd` and `Bnd.BoundaryData.constructor`. n2 and n3 are fixed at 60 and 180, the only grid the index arithmetic supports.
- read_daily_data (solarwind-src/daily-mode.h:19-31) is not modelled, because it is file-path formatting and I/O. Each daily cube it reads is a `Bnd.BoundaryData` shifted by `DailyMode.ShiftTimeRelativeToMainBnd`. Slot 0 of the daily array is filled outside this core, by host code (init.c) that is not part of this model; the model takes it as today's cube.
- printLog and exit(-1) in interpolate_cme and process_daily_ambient become the `CoefError(q)` outcome. Logging, including the step_count debug output of average_boundary, has no effect on the values and is not modelled.
- Doubles are modelled as reals. Rounding, NaN, infinities and the exact comparison with 500000.0 in floating point are not captured. `(int)kk` is the floor, which agrees for the non-negative kk that rotate_bc produces.
- Divisions by zero, which in the source yield infinities or NaN, are excluded by requires:
  - Model.NormalizeTime: requires right ≠ left.
  - Model.Normalize: requires x1 ≠ 0.
  - Model.ValidHost: requires the host's π ≠ 0.
  - Model.InterpolateCme: requires the two frame times to differ.
  - DailyMode.ProcessDailyAmbient: requires a nonzero gap between neighbouring days' offsets when blending.
  - DailyMode.BlendDefined: the daily dispatch requires a nonzero gap at the selected day whenever no timeline segment holds the query time and blending is on; the event path needs no gap.
- Bnd.GetCmesSegments: requires at most 10 runs. The source writes past its 10 slots without a check.
- CmeTimeline.Timeline.Create: requires at most 1000 pairs, for the same reason. It also sorts with an insertion sort instead of qsort, specified by sortedness under the same comparator and by permutation. Entries with equal keys may end in a different order than qsort leaves them. The model takes it that qsort sorts with this comparator, which returns 0 or 1 and never a negative value. The C standard promises a sorted result only for a comparator that is a consistent total order, so the order qsort actually leaves depends on the C library. The order that CmeTimeline.LookupFirstMatch and the event-branch lemmas rely on is the sorted order the program intends.
- Bnd.ReadBnd: requires ntime ≥ 1. With ntime = 0 the source reads frame 0 out of bounds.
- Utils.MapToGlobalIndexes: requires 0 < NX3 ≤ 180, so that 180 / NX3 is defined and nonzero.
- Utils.ObsdateHour: requires a date of at least 13 characters. The source reads a fixed buffer.
- DailyMode.ProcessDailyCme: takes the segment's cube directly, where the source looks it up by the segment's daily index. DailyMode.DailyBoundary does that lookup. Its abort condition is stated only for segments on their cube's clock, which is what create_timeline produces (`CmeTimeline.TimelineOnCubeClocks`).
- DailyMode.DailyBoundary and AverageMode.AverageBoundary: require every timeline segment to fit its cube, which create_timeline guarantees. Their results are stated by the lemmas for each branch rather than in their own contracts.
- MPI domain decomposition, the globals g_time, g_OmegaZ, CONST_PI, g_inputParam, prank, NX2 and NX3 become parameters. definitions.h is not part of this model.
- The commented-out earlier timeline loop (solarwind-src/cme-timeline.h:39-50), memory allocation and the never-freed buffers are not modelled.

## Findings

| source | as written | input that shows it | evidently intended | confidence | as-written member | corrected member |
|---|---|---|---|---|---|---|
| solarwind-src/daily-mode.h:51-58 | `TIME[left_frame_index]` (seconds) plus `t - left_time` (days), and the sum then divided by 86400 | any segment on its cube's clock with t = right_time: the weight in interpolate_cme is 1/86400 instead of 1, so the value stays at the left frame for the whole segment | the left frame's time converted to days plus the elapsed days, `convert_to_pluto_time(TIME[left]) + (t - left_time)` | not executed | DailyMode.DailyCmeAsWrittenWeight | DailyMode.DailyCmeAtSegmentEnds |

`DailyMode.ProcessDailyCmeAsWritten` is process_daily_cme as written, and `DailyMode.DailyBoundary` with clock `AsWritten` is daily_boundary as written. `DailyMode.ProcessDailyCme` is the corrected definition; `DailyMode.DailyBoundary` with clock `Intended` and `AverageMode.AverageBoundaryEvent` use it.
