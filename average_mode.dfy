/** Average mode: a single cube, today's. The boundary value is the event value of the
    timeline segment holding the query time, or else today's background value. */
module AverageMode {
  import opened Utils
  import opened Bnd
  import opened CmeTimeline
  import opened Model
  import DailyMode

  /** The event value of a timeline segment: the cube its daily index names, between its
      two frames, at the query time itself (no conversion to the cube's own clock). */
  function AverageEventAt(days: seq<BoundaryData>, s: CmeSegment, k: int, j: int, t: real,
                          x1: real, host: Host): Interpolated
    reads set b | b in days, set b | b in days :: b.TIME
    reads set b | b in days :: b.D, set b | b in days :: b.V1, set b | b in days :: b.T
    reads set b | b in days :: b.B1, set b | b in days :: b.B3
    requires Fits(days, s) && ValidHost(host) && x1 != 0.0 && 0 <= j < LatitudeDim
  {
    InterpolateCme(days[s.dailyIdx], s.leftFrameIndex, s.rightFrameIndex, k, j, t, x1, host)
  }

  /** The value at global cell (k, j) for query time t: the first segment holding t gives
      the event value, otherwise today's background value. */
  function AverageDispatch(today: BoundaryData, days: seq<BoundaryData>, segs: seq<CmeSegment>,
                           k: int, j: int, t: real, x1: real, host: Host): Interpolated
    reads today, today.D, today.V1, today.T, today.B1, today.B3, today.TIME
    reads set b | b in days, set b | b in days :: b.TIME
    reads set b | b in days :: b.D, set b | b in days :: b.V1, set b | b in days :: b.T
    reads set b | b in days :: b.B1, set b | b in days :: b.B3
    requires today.Valid() && (forall i :: 0 <= i < |segs| ==> Fits(days, segs[i]))
    requires ValidHost(host) && x1 != 0.0 && 0 <= j < LatitudeDim
  {
    var cmeIndex := Lookup(segs, t, 0);
    LookupFirstMatch(segs, t, 0);
    if 0 <= cmeIndex < |segs| then
      AverageEventAt(days, segs[cmeIndex], k, j, t, x1, host)
    else
      Ok(InterpolateAmbient(today, k, j, t, x1, host))
  }

  /** average_boundary: the cell's global indexes and the query time g_time + DATESHIFT,
      then the dispatch between the event and today's background value. */
  function AverageBoundary(today: BoundaryData, days: seq<BoundaryData>, segs: seq<CmeSegment>,
                           localJ: int, localK: int, prank: int, nx2: int, nx3: int,
                           gTime: real, dateShift: real, x1: real, host: Host): Interpolated
    reads today, today.D, today.V1, today.T, today.B1, today.B3, today.TIME
    reads set b | b in days, set b | b in days :: b.TIME
    reads set b | b in days :: b.D, set b | b in days :: b.V1, set b | b in days :: b.T
    reads set b | b in days :: b.B1, set b | b in days :: b.B3
    requires today.Valid() && (forall i :: 0 <= i < |segs| ==> Fits(days, segs[i]))
    requires ValidHost(host) && x1 != 0.0
    requires prank >= 0 && 0 < nx3 <= LongitudeDim
  {
    AverageDispatch(today, days, segs, GlobalK(localK, prank, nx3), GlobalJ(localJ, prank, nx2, nx3),
                    gTime + dateShift, x1, host)
  }

  /** When a segment holds the query time g_time + DATESHIFT, the result is the first such
      segment's cube interpolated between its frames at that time. On a cube whose clock
      is today's (offset 0) it never aborts, and it is the same value daily mode gives. */
  lemma AverageBoundaryEvent(today: BoundaryData, days: seq<BoundaryData>, segs: seq<CmeSegment>,
                             localJ: int, localK: int, prank: int, nx2: int, nx3: int,
                             gTime: real, dateShift: real, x1: real, host: Host, i: int)
    requires today.Valid() && (forall m :: 0 <= m < |segs| ==> Fits(days, segs[m]))
    requires ValidHost(host) && x1 != 0.0
    requires prank >= 0 && 0 < nx3 <= LongitudeDim
    requires 0 <= i < |segs| && Holds(segs[i], gTime + dateShift)
    requires forall m :: 0 <= m < i ==> !Holds(segs[m], gTime + dateShift)
    ensures var s := segs[i];
      AverageBoundary(today, days, segs, localJ, localK, prank, nx2, nx3, gTime, dateShift, x1, host) ==
      InterpolateCme(days[s.dailyIdx], s.leftFrameIndex, s.rightFrameIndex, GlobalK(localK, prank, nx3),
                     GlobalJ(localJ, prank, nx2, nx3), gTime + dateShift, x1, host)
    ensures var s := segs[i];
      OnCubeClock(days[s.dailyIdx], s) && days[s.dailyIdx].plutoTimeFromMainBnd == 0.0 ==>
        && AverageBoundary(today, days, segs, localJ, localK, prank, nx2, nx3, gTime, dateShift, x1, host) ==
           DailyMode.ProcessDailyCme(days[s.dailyIdx], s, gTime + dateShift, GlobalK(localK, prank, nx3),
                                     GlobalJ(localJ, prank, nx2, nx3), x1, host)
        && (s.leftTime < s.rightTime ==>
              AverageBoundary(today, days, segs, localJ, localK, prank, nx2, nx3, gTime, dateShift, x1, host).Ok?)
  {
    var t := gTime + dateShift;
    var k, j := GlobalK(localK, prank, nx3), GlobalJ(localJ, prank, nx2, nx3);
    var s := segs[i];
    var b := days[s.dailyIdx];
    LookupFirstMatch(segs, t, 0);
    assert Lookup(segs, t, 0) == i;
    if OnCubeClock(b, s) && b.plutoTimeFromMainBnd == 0.0 {
      assert DailyMode.CmeQueryTime(b, s, t) == t;
      if s.leftTime < s.rightTime {
        NormalizeTimeInUnit(t, s.leftTime, s.rightTime);
      }
    }
  }

  /** When no segment holds the query time, the result is today's background value at
      that time, whatever the other cubes hold. */
  lemma AverageBoundaryAmbient(today: BoundaryData, days: seq<BoundaryData>, segs: seq<CmeSegment>,
                               localJ: int, localK: int, prank: int, nx2: int, nx3: int,
                               gTime: real, dateShift: real, x1: real, host: Host)
    requires today.Valid() && (forall m :: 0 <= m < |segs| ==> Fits(days, segs[m]))
    requires ValidHost(host) && x1 != 0.0
    requires prank >= 0 && 0 < nx3 <= LongitudeDim
    requires forall m :: 0 <= m < |segs| ==> !Holds(segs[m], gTime + dateShift)
    ensures AverageBoundary(today, days, segs, localJ, localK, prank, nx2, nx3, gTime, dateShift, x1, host) ==
            Ok(InterpolateAmbient(today, GlobalK(localK, prank, nx3), GlobalJ(localJ, prank, nx2, nx3),
                                  gTime + dateShift, x1, host))
  {
    LookupFirstMatch(segs, gTime + dateShift, 0);
    assert Lookup(segs, gTime + dateShift, 0) == -1;
  }
}
