/** Daily mode: today's cube plus the cubes of the ten previous days. Each daily cube is
    placed on today's clock by an offset in days; a query time picks the day it falls
    after, and the boundary value comes either from the event timeline or from the
    background frames of two neighbouring days blended by the time between them. */
module DailyMode {
  import opened Utils
  import opened Bnd
  import opened CmeTimeline
  import opened Model

  /** Days read besides today's cube (cubes 1 .. 10; cube 0 is today's). */
  const DailyCount: int := 10

  // ---------------------------------------------------------------------------
  // shift_time_relative_to_main_bnd

  /** Offset in days of a cube observed daysDiff days and some hours before today's:
      minus the whole days and minus the hour difference as a fraction of a day. */
  function ShiftOffset(todayHour: int, dailyHour: int, daysDiff: int): (offset: real)
    ensures offset * 24.0 == -(24.0 * daysDiff as real + (todayHour - dailyHour) as real)
  {
    var hourDiff := todayHour - dailyHour;
    ConvertToPlutoTime(-((hourDiff * 60 * 60 + daysDiff * 24 * 60 * 60) as real))
  }

  /** Cubes observed at the same hour are whole days apart. */
  lemma ShiftOffsetSameHour(hour: int, daysDiff: int)
    ensures ShiftOffset(hour, hour, daysDiff) == -(daysDiff as real)
  {
  }

  /** With hours of the day in [0, 23], a cube one day older lies strictly earlier. */
  lemma ShiftOffsetDecreases(todayHour: int, h1: int, h2: int, d: int)
    requires 0 <= h1 < 24 && 0 <= h2 < 24
    ensures ShiftOffset(todayHour, h2, d + 1) < ShiftOffset(todayHour, h1, d)
  {
    var a, b := ShiftOffset(todayHour, h1, d), ShiftOffset(todayHour, h2, d + 1);
    assert (a - b) * 24.0 == 24.0 + (h1 - h2) as real;
  }

  /** Sets the cube's offset from today's; the loop over the frames writes the same value
      each time, so a cube without frames keeps its old offset. */
  method ShiftTimeRelativeToMainBnd(daily: BoundaryData, today: BoundaryData, daysDiff: int)
    modifies daily`plutoTimeFromMainBnd
    ensures daily.ntime > 0 ==>
              daily.plutoTimeFromMainBnd == ShiftOffset(old(today.obsdateHour), daily.obsdateHour, daysDiff)
    ensures daily.ntime == 0 ==> daily.plutoTimeFromMainBnd == old(daily.plutoTimeFromMainBnd)
  {
    var obsdateHourDiff := today.obsdateHour - daily.obsdateHour;
    ghost var offset := ShiftOffset(today.obsdateHour, daily.obsdateHour, daysDiff);
    var i := 0;
    while i < daily.ntime
      invariant 0 <= i <= daily.ntime
      invariant i > 0 ==> daily.plutoTimeFromMainBnd == offset
      invariant i == 0 ==> daily.plutoTimeFromMainBnd == old(daily.plutoTimeFromMainBnd)
    {
      daily.plutoTimeFromMainBnd :=
        ConvertToPlutoTime(-((obsdateHourDiff * 60 * 60 + daysDiff * 24 * 60 * 60) as real));
      i := i + 1;
    }
  }

  // ---------------------------------------------------------------------------
  // get_daily_idx_by_time

  /** The day a query time belongs to: the first of days i .. 10 whose offset lies
      strictly before t, or -1 when there is none. */
  function DailyIdx(days: seq<BoundaryData>, t: real, i: int): int
    reads set b | b in days
    requires DailyCount < |days| && 1 <= i <= DailyCount + 1
    decreases DailyCount + 1 - i
  {
    if i > DailyCount then -1
    else if t > days[i].plutoTimeFromMainBnd then i
    else DailyIdx(days, t, i + 1)
  }

  /** The scan is a first match over days i .. 10: -1 exactly when t lies at or before
      every offset, otherwise a day (never today's, 0) that t lies after, with t at or
      before the offsets of all the days scanned before it. */
  lemma {:induction false} DailyIdxFirstMatch(days: seq<BoundaryData>, t: real, i: int)
    requires DailyCount < |days| && 1 <= i <= DailyCount + 1
    ensures var r := DailyIdx(days, t, i);
      && (r == -1 <==> forall m :: i <= m <= DailyCount ==> t <= days[m].plutoTimeFromMainBnd)
      && (r != -1 ==> i <= r <= DailyCount && t > days[r].plutoTimeFromMainBnd &&
                      forall m :: i <= m < r ==> t <= days[m].plutoTimeFromMainBnd)
    decreases DailyCount + 1 - i
  {
    if i <= DailyCount && t <= days[i].plutoTimeFromMainBnd {
      DailyIdxFirstMatch(days, t, i + 1);
    }
  }

  /** get_daily_idx_by_time: scans days 1 .. 10 and returns at the first one whose offset
      lies strictly before t. */
  method GetDailyIdxByTime(days: seq<BoundaryData>, t: real) returns (idx: int)
    requires DailyCount < |days|
    ensures idx == DailyIdx(days, t, 1)
    ensures idx == -1 || 1 <= idx <= DailyCount
  {
    DailyIdxFirstMatch(days, t, 1);
    var i := 1;
    while i <= DailyCount
      invariant 1 <= i <= DailyCount + 1
      invariant DailyIdx(days, t, 1) == DailyIdx(days, t, i)
    {
      if t > days[i].plutoTimeFromMainBnd {
        return i;
      }
      i := i + 1;
    }
    return -1;
  }

  // ---------------------------------------------------------------------------
  // process_daily_cme (the cube is the one the segment's daily index names)

  /** The time process_daily_cme evaluates the segment's cube at, as written: the left
      frame's stored time, in seconds, plus the time elapsed since the segment's start, in
      days, the sum then converted from seconds to days. */
  function CmeQueryTimeAsWritten(b: BoundaryData, s: CmeSegment, t: real): real
    reads b, b.TIME
    requires FitsCube(b, s)
  {
    ConvertToPlutoTime(b.TIME[s.leftFrameIndex] + (t - s.leftTime))
  }

  /** The intended time: the left frame's time in days plus the time elapsed since the
      segment's start. */
  function CmeQueryTime(b: BoundaryData, s: CmeSegment, t: real): real
    reads b, b.TIME
    requires FitsCube(b, s)
  {
    FrameTime(b, s.leftFrameIndex) + (t - s.leftTime)
  }

  /** process_daily_cme as written: the segment's cube between its two frames at the time
      of CmeQueryTimeAsWritten. On a segment on its cube's clock it aborts only once t
      lies 86400 segment lengths away from the segment's start. */
  function ProcessDailyCmeAsWritten(b: BoundaryData, s: CmeSegment, t: real, k: int, j: int,
                                    x1: real, host: Host): (r: Interpolated)
    reads b, b.D, b.V1, b.T, b.B1, b.B3, b.TIME
    requires FitsCube(b, s) && ValidHost(host) && x1 != 0.0 && 0 <= j < LatitudeDim
    ensures OnCubeClock(b, s) ==>
              (r.CoefError? <==> Abs(NormalizeTime(t, s.leftTime, s.rightTime)) > SecondsPerDay)
  {
    AsWrittenAbortBound(b, s, t);
    InterpolateCme(b, s.leftFrameIndex, s.rightFrameIndex, k, j, CmeQueryTimeAsWritten(b, s, t), x1, host)
  }

  /** The as-written weight is out of [-1, 1] exactly when the intended one is out of
      [-86400, 86400]. */
  lemma AsWrittenAbortBound(b: BoundaryData, s: CmeSegment, t: real)
    requires FitsCube(b, s)
    ensures OnCubeClock(b, s) ==>
              (Abs(NormalizeTime(CmeQueryTimeAsWritten(b, s, t), FrameTime(b, s.leftFrameIndex),
                                 FrameTime(b, s.rightFrameIndex))) > 1.0
               <==> Abs(NormalizeTime(t, s.leftTime, s.rightTime)) > SecondsPerDay)
  {
    if OnCubeClock(b, s) {
      DailyCmeAsWrittenWeight(b, s, t);
    }
  }

  /** process_daily_cme with the elapsed time kept in days: the segment's cube between its
      two frames, evaluated at t on that cube's own clock. */
  function ProcessDailyCme(b: BoundaryData, s: CmeSegment, t: real, k: int, j: int,
                           x1: real, host: Host): (r: Interpolated)
    reads b, b.D, b.V1, b.T, b.B1, b.B3, b.TIME
    requires FitsCube(b, s) && ValidHost(host) && x1 != 0.0 && 0 <= j < LatitudeDim
    ensures OnCubeClock(b, s) ==>
              (r.CoefError? <==> Abs(NormalizeTime(t, s.leftTime, s.rightTime)) > 1.0)
  {
    NormalizeTimeShift(t, s.leftTime, s.rightTime, FrameTime(b, s.leftFrameIndex) - s.leftTime);
    InterpolateCme(b, s.leftFrameIndex, s.rightFrameIndex, k, j, CmeQueryTime(b, s, t), x1, host)
  }

  /** Moving the time and both ends by the same amount keeps the normalised time. */
  lemma NormalizeTimeShift(t: real, left: real, right: real, c: real)
    ensures right != left ==> NormalizeTime(t + c, left + c, right + c) == NormalizeTime(t, left, right)
  {
    assert (t + c) - (left + c) == t - left && (right + c) - (left + c) == right - left;
  }

  /** A query time inside the segment never aborts the event interpolation. */
  lemma DailyCmeWithinSegment(b: BoundaryData, s: CmeSegment, t: real, k: int, j: int, x1: real, host: Host)
    requires FitsCube(b, s) && OnCubeClock(b, s) && ValidHost(host) && x1 != 0.0 && 0 <= j < LatitudeDim
    requires s.leftTime < s.rightTime && Holds(s, t)
    ensures ProcessDailyCme(b, s, t, k, j, x1, host).Ok?
  {
    NormalizeTimeInUnit(t, s.leftTime, s.rightTime);
  }

  /** As written, too, a query time inside the segment never aborts: the weight stays in
      [0, 1/86400]. */
  lemma DailyCmeAsWrittenWithinSegment(b: BoundaryData, s: CmeSegment, t: real, k: int, j: int,
                                       x1: real, host: Host)
    requires FitsCube(b, s) && OnCubeClock(b, s) && ValidHost(host) && x1 != 0.0 && 0 <= j < LatitudeDim
    requires s.leftTime < s.rightTime && Holds(s, t)
    ensures ProcessDailyCmeAsWritten(b, s, t, k, j, x1, host).Ok?
  {
    NormalizeTimeInUnit(t, s.leftTime, s.rightTime);
  }

  /** Corrected definition: at the segment's start and end the event value is the
      rescaled stored cell of the left and of the right frame. As written, the right end
      still gives a weight of 1/86400 (DailyCmeAsWrittenWeight). */
  lemma DailyCmeAtSegmentEnds(b: BoundaryData, s: CmeSegment, k: int, j: int, x1: real, host: Host)
    requires FitsCube(b, s) && OnCubeClock(b, s) && ValidHost(host) && x1 != 0.0
    requires 0 <= k < LongitudeDim && 0 <= j < LatitudeDim
    ensures ProcessDailyCme(b, s, s.leftTime, k, j, x1, host) == Ok(Normalize(Cell(b, s.leftFrameIndex, k, j), x1))
    ensures ProcessDailyCme(b, s, s.rightTime, k, j, x1, host) == Ok(Normalize(Cell(b, s.rightFrameIndex, k, j), x1))
  {
    assert CmeQueryTime(b, s, s.leftTime) == FrameTime(b, s.leftFrameIndex);
    assert CmeQueryTime(b, s, s.rightTime) == FrameTime(b, s.rightFrameIndex);
    CmeAtFrameTimes(b, s.leftFrameIndex, s.rightFrameIndex, k, j, x1, host);
  }

  /** As written, the blend weight is the intended one divided by 86400: at the end of a
      segment the weight is 1/86400 instead of 1, so the value stays next to the left
      frame's for the whole segment. */
  lemma DailyCmeAsWrittenWeight(b: BoundaryData, s: CmeSegment, t: real)
    requires FitsCube(b, s) && OnCubeClock(b, s)
    ensures NormalizeTime(CmeQueryTimeAsWritten(b, s, t), FrameTime(b, s.leftFrameIndex),
                          FrameTime(b, s.rightFrameIndex)) * SecondsPerDay ==
            NormalizeTime(t, s.leftTime, s.rightTime)
    ensures NormalizeTime(CmeQueryTimeAsWritten(b, s, s.rightTime), FrameTime(b, s.leftFrameIndex),
                          FrameTime(b, s.rightFrameIndex)) == 1.0 / SecondsPerDay
  {
    var lt, rt := FrameTime(b, s.leftFrameIndex), FrameTime(b, s.rightFrameIndex);
    assert CmeQueryTimeAsWritten(b, s, t) - lt == (t - s.leftTime) / SecondsPerDay;
    assert CmeQueryTimeAsWritten(b, s, s.rightTime) - lt == (s.rightTime - s.leftTime) / SecondsPerDay;
    assert s.rightTime - s.leftTime == rt - lt;
    WeightScaled(t - s.leftTime, rt - lt);
    ScaledSpan(rt - lt);
  }

  /** A whole span divided by 86400 before it is compared with itself. */
  lemma ScaledSpan(span: real)
    requires span != 0.0
    ensures (span / SecondsPerDay) / span == 1.0 / SecondsPerDay
  {
    DivThenMul(span / SecondsPerDay, span);
  }

  /** An elapsed time divided by 86400 before it is compared with a span. */
  lemma WeightScaled(e: real, span: real)
    requires span != 0.0
    ensures (e / SecondsPerDay) / span * SecondsPerDay == e / span
  {
  }

  // ---------------------------------------------------------------------------
  // process_daily_ambient

  /** The gap in days between a day's offset and the next newer day's. */
  function Gap(days: seq<BoundaryData>, idx: int): real
    reads set b | b in days
    requires 0 < idx < |days|
  {
    days[idx - 1].plutoTimeFromMainBnd - days[idx].plutoTimeFromMainBnd
  }

  /** process_daily_ambient: day idx's background at its own time dt; unless forced or on
      today's cube, blended with the newer day's background at dt - 1 by the weight dt/gap,
      a weight beyond 1 in size aborting. */
  function ProcessDailyAmbient(days: seq<BoundaryData>, idx: int, dt: real, k: int, j: int,
                               x1: real, host: Host, force: bool): (r: Interpolated)
    reads set b | b in days, set b | b in days :: b.TIME
    reads set b | b in days :: b.D, set b | b in days :: b.V1, set b | b in days :: b.T
    reads set b | b in days :: b.B1, set b | b in days :: b.B3
    requires 0 <= idx < |days| && forall b :: b in days ==> b.Valid()
    requires ValidHost(host) && x1 != 0.0 && 0 <= j < LatitudeDim
    requires idx > 0 && !force ==> Gap(days, idx) != 0.0
    ensures r.CoefError? <==> idx > 0 && !force && Abs(dt / Gap(days, idx)) > 1.0
  {
    assert days[idx] in days;
    var own := InterpolateAmbient(days[idx], k, j, dt, x1, host);
    if idx > 0 && !force then
      assert days[idx - 1] in days;
      var next := InterpolateAmbient(days[idx - 1], k, j, dt - 1.0, x1, host);
      var q := NormalizeTime(dt, 0.0, Gap(days, idx));
      if Abs(q) > 1.0 then CoefError(q) else Ok(LerpValues(own, next, q))
    else
      Ok(own)
  }

  /** Forced, or on today's cube, the result is that day's own background value. */
  lemma DailyAmbientSingle(days: seq<BoundaryData>, idx: int, dt: real, k: int, j: int,
                           x1: real, host: Host, force: bool)
    requires 0 <= idx < |days| && forall b :: b in days ==> b.Valid()
    requires ValidHost(host) && x1 != 0.0 && 0 <= j < LatitudeDim
    requires force || idx == 0
    ensures days[idx] in days
    ensures ProcessDailyAmbient(days, idx, dt, k, j, x1, host, force) ==
            Ok(InterpolateAmbient(days[idx], k, j, dt, x1, host))
  {
  }

  /** The blend runs from the day's own background at dt = 0 to the newer day's at
      dt = gap, and stays defined in between. */
  lemma DailyAmbientBlend(days: seq<BoundaryData>, idx: int, dt: real, k: int, j: int, x1: real, host: Host)
    requires 0 < idx < |days| && forall b :: b in days ==> b.Valid()
    requires ValidHost(host) && x1 != 0.0 && 0 <= j < LatitudeDim
    requires Gap(days, idx) > 0.0 && 0.0 <= dt <= Gap(days, idx)
    ensures days[idx] in days && days[idx - 1] in days
    ensures ProcessDailyAmbient(days, idx, dt, k, j, x1, host, false).Ok?
    ensures dt == 0.0 ==>
              ProcessDailyAmbient(days, idx, dt, k, j, x1, host, false) ==
              Ok(InterpolateAmbient(days[idx], k, j, dt, x1, host))
    ensures dt == Gap(days, idx) ==>
              ProcessDailyAmbient(days, idx, dt, k, j, x1, host, false) ==
              Ok(InterpolateAmbient(days[idx - 1], k, j, dt - 1.0, x1, host))
  {
    var g := Gap(days, idx);
    NormalizeTimeInUnit(dt, 0.0, g);
    NormalizeTimeInverse(dt, 0.0, g);
    assert days[idx] in days && days[idx - 1] in days;
    var own := InterpolateAmbient(days[idx], k, j, dt, x1, host);
    var next := InterpolateAmbient(days[idx - 1], k, j, dt - 1.0, x1, host);
    LerpValuesEnds(own, next);
  }

  // ---------------------------------------------------------------------------
  // daily_boundary

  /** The day, its own time and whether blending is switched off for query time t: the
      scanned day and t minus its offset, or, when t lies at or before every offset,
      day 10 with blending off. */
  function DaySelection(days: seq<BoundaryData>, t: real): (sel: (int, real, bool))
    reads set b | b in days
    requires DailyCount < |days|
    ensures 1 <= sel.0 <= DailyCount && sel.1 == t - days[sel.0].plutoTimeFromMainBnd
  {
    var idx := DailyIdx(days, t, 1);
    DailyIdxFirstMatch(days, t, 1);
    if idx == -1 then (DailyCount, t - days[DailyCount].plutoTimeFromMainBnd, true)
    else (idx, t - days[idx].plutoTimeFromMainBnd, false)
  }

  /** Blending is switched off exactly when t lies at or before every day's offset; when
      it is on, the day's own time is positive. */
  lemma DaySelectionCases(days: seq<BoundaryData>, t: real)
    requires DailyCount < |days|
    ensures var (idx, dt, force) := DaySelection(days, t);
      && (force <==> forall m :: 1 <= m <= DailyCount ==> t <= days[m].plutoTimeFromMainBnd)
      && (force ==> idx == DailyCount)
      && (!force ==> dt > 0.0 && forall m :: 1 <= m < idx ==> t <= days[m].plutoTimeFromMainBnd)
  {
    DailyIdxFirstMatch(days, t, 1);
  }

  /** The requirements on the daily cubes the source relies on: eleven valid cubes and
      each timeline segment fitting its cube. */
  ghost predicate DailyReady(days: seq<BoundaryData>, segs: seq<CmeSegment>)
    reads set b | b in days, set b | b in days :: b.TIME
  {
    && DailyCount < |days| && (forall b :: b in days ==> b.Valid())
    && (forall i :: 0 <= i < |segs| ==> Fits(days, segs[i]))
  }

  /** The blend for query time t divides by a nonzero gap: either the selection switched
      blending off, or the selected day's offset differs from the newer day's. */
  ghost predicate BlendDefined(days: seq<BoundaryData>, t: real)
    reads set b | b in days
    requires DailyCount < |days|
  {
    var sel := DaySelection(days, t);
    sel.2 || Gap(days, sel.0) != 0.0
  }

  /** How the event branch puts the query time on the segment's cube clock: as
      process_daily_cme is written, or with the elapsed time kept in days. */
  datatype CmeClock = AsWritten | Intended

  /** The daily background value for query time t: the selected day's, blended with the
      newer day's unless the selection switched blending off. */
  function DailyAmbientAt(days: seq<BoundaryData>, k: int, j: int, t: real, x1: real, host: Host): Interpolated
    reads set b | b in days, set b | b in days :: b.TIME
    reads set b | b in days :: b.D, set b | b in days :: b.V1, set b | b in days :: b.T
    reads set b | b in days :: b.B1, set b | b in days :: b.B3
    requires DailyCount < |days| && (forall b :: b in days ==> b.Valid())
    requires BlendDefined(days, t)
    requires ValidHost(host) && x1 != 0.0 && 0 <= j < LatitudeDim
  {
    var sel := DaySelection(days, t);
    ProcessDailyAmbient(days, sel.0, sel.1, k, j, x1, host, sel.2)
  }

  /** The event value of a timeline segment: its own cube, named by its daily index, at
      the query time put on that cube's clock as `clock` says. */
  function DailyEventAt(days: seq<BoundaryData>, s: CmeSegment, k: int, j: int, t: real,
                        x1: real, host: Host, clock: CmeClock): Interpolated
    reads set b | b in days, set b | b in days :: b.TIME
    reads set b | b in days :: b.D, set b | b in days :: b.V1, set b | b in days :: b.T
    reads set b | b in days :: b.B1, set b | b in days :: b.B3
    requires Fits(days, s) && ValidHost(host) && x1 != 0.0 && 0 <= j < LatitudeDim
  {
    if clock == AsWritten then ProcessDailyCmeAsWritten(days[s.dailyIdx], s, t, k, j, x1, host)
    else ProcessDailyCme(days[s.dailyIdx], s, t, k, j, x1, host)
  }

  /** The value at global cell (k, j) for query time t: the first timeline segment
      holding t gives the event value, otherwise the daily background value. */
  function DailyDispatch(days: seq<BoundaryData>, segs: seq<CmeSegment>, k: int, j: int, t: real,
                         x1: real, host: Host, clock: CmeClock): Interpolated
    reads set b | b in days, set b | b in days :: b.TIME
    reads set b | b in days :: b.D, set b | b in days :: b.V1, set b | b in days :: b.T
    reads set b | b in days :: b.B1, set b | b in days :: b.B3
    requires DailyReady(days, segs) && (Lookup(segs, t, 0) == -1 ==> BlendDefined(days, t))
    requires ValidHost(host) && x1 != 0.0 && 0 <= j < LatitudeDim
  {
    var cmeIndex := Lookup(segs, t, 0);
    LookupFirstMatch(segs, t, 0);
    if 0 <= cmeIndex < |segs| then
      DailyEventAt(days, segs[cmeIndex], k, j, t, x1, host, clock)
    else
      DailyAmbientAt(days, k, j, t, x1, host)
  }

  /** daily_boundary: the cell's global indexes, the query time g_time + DATESHIFT, the
      day selected for it, then the event value when a timeline segment holds the time
      and the daily background value otherwise. With clock AsWritten this is the code as
      written; with Intended, the event branch uses the corrected process_daily_cme. */
  function DailyBoundary(days: seq<BoundaryData>, segs: seq<CmeSegment>, localJ: int, localK: int,
                         prank: int, nx2: int, nx3: int, gTime: real, dateShift: real,
                         x1: real, host: Host, clock: CmeClock): Interpolated
    reads set b | b in days, set b | b in days :: b.TIME
    reads set b | b in days :: b.D, set b | b in days :: b.V1, set b | b in days :: b.T
    reads set b | b in days :: b.B1, set b | b in days :: b.B3
    requires DailyReady(days, segs) && (Lookup(segs, gTime + dateShift, 0) == -1 ==> BlendDefined(days, gTime + dateShift))
    requires ValidHost(host) && x1 != 0.0
    requires prank >= 0 && 0 < nx3 <= LongitudeDim
  {
    DailyDispatch(days, segs, GlobalK(localK, prank, nx3), GlobalJ(localJ, prank, nx2, nx3),
                  gTime + dateShift, x1, host, clock)
  }

  /** When a timeline segment holds the query time, the result is the first such
      segment's event value: process_daily_cme as written, or the corrected one. On a
      segment on its cube's clock neither aborts. */
  lemma DailyBoundaryEvent(days: seq<BoundaryData>, segs: seq<CmeSegment>, localJ: int, localK: int,
                           prank: int, nx2: int, nx3: int, gTime: real, dateShift: real,
                           x1: real, host: Host, clock: CmeClock, i: int)
    requires DailyReady(days, segs) && (Lookup(segs, gTime + dateShift, 0) == -1 ==> BlendDefined(days, gTime + dateShift))
    requires ValidHost(host) && x1 != 0.0
    requires prank >= 0 && 0 < nx3 <= LongitudeDim
    requires 0 <= i < |segs| && Holds(segs[i], gTime + dateShift)
    requires forall m :: 0 <= m < i ==> !Holds(segs[m], gTime + dateShift)
    ensures clock == AsWritten ==>
              DailyBoundary(days, segs, localJ, localK, prank, nx2, nx3, gTime, dateShift, x1, host, clock) ==
              ProcessDailyCmeAsWritten(days[segs[i].dailyIdx], segs[i], gTime + dateShift,
                                       GlobalK(localK, prank, nx3), GlobalJ(localJ, prank, nx2, nx3), x1, host)
    ensures clock == Intended ==>
              DailyBoundary(days, segs, localJ, localK, prank, nx2, nx3, gTime, dateShift, x1, host, clock) ==
              ProcessDailyCme(days[segs[i].dailyIdx], segs[i], gTime + dateShift,
                              GlobalK(localK, prank, nx3), GlobalJ(localJ, prank, nx2, nx3), x1, host)
    ensures OnCubeClock(days[segs[i].dailyIdx], segs[i]) && segs[i].leftTime < segs[i].rightTime ==>
              DailyBoundary(days, segs, localJ, localK, prank, nx2, nx3, gTime, dateShift, x1, host, clock).Ok?
  {
    var t := gTime + dateShift;
    var k, j := GlobalK(localK, prank, nx3), GlobalJ(localJ, prank, nx2, nx3);
    DispatchAtSegment(days, segs, k, j, t, x1, host, clock, i);
    if OnCubeClock(days[segs[i].dailyIdx], segs[i]) && segs[i].leftTime < segs[i].rightTime {
      DailyCmeWithinSegment(days[segs[i].dailyIdx], segs[i], t, k, j, x1, host);
      DailyCmeAsWrittenWithinSegment(days[segs[i].dailyIdx], segs[i], t, k, j, x1, host);
    }
  }

  /** The dispatch picks the first segment holding the query time. */
  lemma DispatchAtSegment(days: seq<BoundaryData>, segs: seq<CmeSegment>, k: int, j: int, t: real,
                          x1: real, host: Host, clock: CmeClock, i: int)
    requires DailyReady(days, segs) && (Lookup(segs, t, 0) == -1 ==> BlendDefined(days, t))
    requires ValidHost(host) && x1 != 0.0 && 0 <= j < LatitudeDim
    requires 0 <= i < |segs| && Holds(segs[i], t)
    requires forall m :: 0 <= m < i ==> !Holds(segs[m], t)
    ensures DailyDispatch(days, segs, k, j, t, x1, host, clock) ==
            DailyEventAt(days, segs[i], k, j, t, x1, host, clock)
  {
    LookupFirstMatch(segs, t, 0);
    assert Lookup(segs, t, 0) == i;
  }

  /** When no timeline segment holds the query time and it lies at or before every day's
      offset, the result is day 10's own background value at t minus its offset. */
  lemma DailyBoundaryFallback(days: seq<BoundaryData>, segs: seq<CmeSegment>, localJ: int, localK: int,
                              prank: int, nx2: int, nx3: int, gTime: real, dateShift: real,
                              x1: real, host: Host, clock: CmeClock)
    requires DailyReady(days, segs) && BlendDefined(days, gTime + dateShift)
    requires ValidHost(host) && x1 != 0.0
    requires prank >= 0 && 0 < nx3 <= LongitudeDim
    requires forall i :: 0 <= i < |segs| ==> !Holds(segs[i], gTime + dateShift)
    requires forall m :: 1 <= m <= DailyCount ==> gTime + dateShift <= days[m].plutoTimeFromMainBnd
    ensures days[DailyCount] in days
    ensures DailyBoundary(days, segs, localJ, localK, prank, nx2, nx3, gTime, dateShift, x1, host, clock) ==
            Ok(InterpolateAmbient(days[DailyCount], GlobalK(localK, prank, nx3), GlobalJ(localJ, prank, nx2, nx3),
                                  gTime + dateShift - days[DailyCount].plutoTimeFromMainBnd, x1, host))
  {
    var t := gTime + dateShift;
    var k, j := GlobalK(localK, prank, nx3), GlobalJ(localJ, prank, nx2, nx3);
    LookupFirstMatch(segs, t, 0);
    assert Lookup(segs, t, 0) == -1;
    DaySelectionCases(days, t);
    var sel := DaySelection(days, t);
    assert sel == (DailyCount, t - days[DailyCount].plutoTimeFromMainBnd, true);
    DailyAmbientSingle(days, DailyCount, sel.1, k, j, x1, host, true);
    assert DailyAmbientAt(days, k, j, t, x1, host) == Ok(InterpolateAmbient(days[DailyCount], k, j, sel.1, x1, host));
  }

  /** When no timeline segment holds the query time and some day's offset lies before it,
      the result is the selected day's background blended with the newer day's at the
      weight (t minus the day's offset) / gap. The blend is defined as long as the
      offsets decrease from day to day and t does not lie past today's offset. */
  lemma DailyBoundaryAmbient(days: seq<BoundaryData>, segs: seq<CmeSegment>, localJ: int, localK: int,
                             prank: int, nx2: int, nx3: int, gTime: real, dateShift: real,
                             x1: real, host: Host, clock: CmeClock)
    requires DailyReady(days, segs) && BlendDefined(days, gTime + dateShift)
    requires ValidHost(host) && x1 != 0.0
    requires prank >= 0 && 0 < nx3 <= LongitudeDim
    requires forall i :: 0 <= i < |segs| ==> !Holds(segs[i], gTime + dateShift)
    requires exists m :: 1 <= m <= DailyCount && gTime + dateShift > days[m].plutoTimeFromMainBnd
    ensures var sel := DaySelection(days, gTime + dateShift);
      && !sel.2
      && DailyBoundary(days, segs, localJ, localK, prank, nx2, nx3, gTime, dateShift, x1, host, clock) ==
         ProcessDailyAmbient(days, sel.0, sel.1, GlobalK(localK, prank, nx3), GlobalJ(localJ, prank, nx2, nx3),
                             x1, host, false)
    ensures (forall i :: 0 < i <= DailyCount ==> Gap(days, i) > 0.0) &&
            gTime + dateShift <= days[0].plutoTimeFromMainBnd ==>
              DailyBoundary(days, segs, localJ, localK, prank, nx2, nx3, gTime, dateShift, x1, host, clock).Ok?
  {
    var t := gTime + dateShift;
    var k, j := GlobalK(localK, prank, nx3), GlobalJ(localJ, prank, nx2, nx3);
    LookupFirstMatch(segs, t, 0);
    assert Lookup(segs, t, 0) == -1;
    DaySelectionCases(days, t);
    var (idx, dt, force) := DaySelection(days, t);
    assert !force;
    if (forall i :: 0 < i <= DailyCount ==> Gap(days, i) > 0.0) && t <= days[0].plutoTimeFromMainBnd {
      assert t <= days[idx - 1].plutoTimeFromMainBnd;
      DailyAmbientBlend(days, idx, dt, k, j, x1, host);
    }
  }
}
