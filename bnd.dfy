/** One day's boundary cube: event (CME) detection by the calibration circle in
    the temperature field, run segmentation, the background frame, and the
    post-load polarity correction and background-frame means. */
module Bnd {
  import opened Utils

  datatype BndMode = Ambient | Cme

  /** A detected event span of frames, end-inclusive, already widened by one
      frame on each side. */
  datatype Segment = Segment(left: int, right: int)

  /** The fixed ten-slot segment store; only the first `size` slots are meaningful. */
  datatype Segments = Segments(size: int, slots: seq<Segment>)

  const MaxSegments: int := 10
  const CircleRadius: int := 2
  /** The injected calibration temperature that marks event frames. */
  const CircleTemperature: real := 500000.0

  // ---------------------------------------------------------------------------
  // has_circle

  /** Cell (n3, n2) of `frame` holds the sentinel and so does its neighbour at
      distance CircleRadius in longitude or in latitude. Only the outermost
      radius decides: the source overwrites its flags on every radius. */
  predicate CircleAt(T: seq<real>, frame: int, n3: int, n2: int)
    requires 0 <= frame && (frame + 1) * FrameCells <= |T|
    requires CircleRadius <= n2 < LatitudeDim - CircleRadius
    requires CircleRadius <= n3 < LongitudeDim - CircleRadius
  {
    T[DataIndex(frame, n3, n2)] == CircleTemperature &&
    (T[DataIndex(frame, n3 + CircleRadius, n2)] == CircleTemperature ||
     T[DataIndex(frame, n3, n2 + CircleRadius)] == CircleTemperature)
  }

  ghost predicate HasCircleSpec(T: seq<real>, frame: int)
    requires 0 <= frame && (frame + 1) * FrameCells <= |T|
  {
    exists n2, n3 :: CircleRadius <= n2 < LatitudeDim - CircleRadius &&
                     CircleRadius <= n3 < LongitudeDim - CircleRadius &&
                     CircleAt(T, frame, n3, n2)
  }

  /** The circle test reads nothing outside the frame's own block of cells. */
  lemma HasCircleReadsOnlyFrame(T1: seq<real>, T2: seq<real>, frame: int)
    requires 0 <= frame && (frame + 1) * FrameCells <= |T1| && (frame + 1) * FrameCells <= |T2|
    requires T1[frame * FrameCells..(frame + 1) * FrameCells] == T2[frame * FrameCells..(frame + 1) * FrameCells]
    ensures HasCircleSpec(T1, frame) <==> HasCircleSpec(T2, frame)
  {
    var lo := frame * FrameCells;
    forall n2, n3 | CircleRadius <= n2 < LatitudeDim - CircleRadius && CircleRadius <= n3 < LongitudeDim - CircleRadius
      ensures CircleAt(T1, frame, n3, n2) == CircleAt(T2, frame, n3, n2)
    {
      var a, b, c := DataIndex(frame, n3, n2), DataIndex(frame, n3 + CircleRadius, n2), DataIndex(frame, n3, n2 + CircleRadius);
      assert T1[a] == T1[lo..lo + FrameCells][a - lo] == T2[lo..lo + FrameCells][a - lo] == T2[a];
      assert T1[b] == T1[lo..lo + FrameCells][b - lo] == T2[lo..lo + FrameCells][b - lo] == T2[b];
      assert T1[c] == T1[lo..lo + FrameCells][c - lo] == T2[lo..lo + FrameCells][c - lo] == T2[c];
    }
  }

  method HasCircle(T: array<real>, frame: int) returns (found: int)
    requires 0 <= frame && (frame + 1) * FrameCells <= T.Length
    ensures found == 0 || found == 1
    ensures found == 1 <==> HasCircleSpec(T[..], frame)
  {
    for n2 := CircleRadius to LatitudeDim - CircleRadius
      invariant forall a, b :: CircleRadius <= a < n2 && CircleRadius <= b < LongitudeDim - CircleRadius ==>
                  !CircleAt(T[..], frame, b, a)
    {
      for n3 := CircleRadius to LongitudeDim - CircleRadius
        invariant forall a, b :: CircleRadius <= a < n2 && CircleRadius <= b < LongitudeDim - CircleRadius ==>
                    !CircleAt(T[..], frame, b, a)
        invariant forall b :: CircleRadius <= b < n3 ==> !CircleAt(T[..], frame, b, n2)
      {
        var idx := DataIndex(frame, n3, n2);
        if T[idx] != CircleTemperature {
          continue;
        }
        var allSameHorizontal, allSameVertical := 0, 0;
        for radius := 0 to CircleRadius + 1
          invariant radius > 0 ==>
                      (allSameHorizontal == 1 <==> T[DataIndex(frame, n3 + radius - 1, n2)] == CircleTemperature)
          invariant radius > 0 ==>
                      (allSameVertical == 1 <==> T[DataIndex(frame, n3, n2 + radius - 1)] == CircleTemperature)
        {
          var idxHorizontal := DataIndex(frame, n3 + radius, n2);
          allSameHorizontal := if T[idxHorizontal] == CircleTemperature then 1 else 0;
          var idxVertical := DataIndex(frame, n3, n2 + radius);
          allSameVertical := if T[idxVertical] == CircleTemperature then 1 else 0;
        }
        if allSameHorizontal != 0 || allSameVertical != 0 {
          assert CircleAt(T[..], frame, n3, n2);
          return 1;
        }
      }
    }
    return 0;
  }

  // ---------------------------------------------------------------------------
  // get_cmes_segments

  /** Per-frame event flags of a cube with `ntime` frames. */
  ghost function CmeFlags(T: seq<real>, ntime: nat): (flags: seq<bool>)
    requires ntime * FrameCells <= |T|
    ensures |flags| == ntime
  {
    seq(ntime, i requires 0 <= i < ntime => HasCircleSpec(T, i))
  }

  /** The first unflagged frame at or after `i`, or |flags| if there is none. */
  function RunEnd(flags: seq<bool>, i: nat): (e: nat)
    requires i <= |flags|
    ensures i <= e <= |flags|
    ensures forall p :: i <= p < e ==> flags[p]
    ensures e < |flags| ==> !flags[e]
    decreases |flags| - i
  {
    if i == |flags| || !flags[i] then i else RunEnd(flags, i + 1)
  }

  /** The segments emitted for the frames from `from` on: every run of flagged
      frames that is closed by an unflagged frame becomes [start - 1, closing frame];
      a run that reaches the last frame is not emitted. */
  function Runs(flags: seq<bool>, from: nat): seq<Segment>
    requires from <= |flags|
    decreases |flags| - from
  {
    if from == |flags| then []
    else if !flags[from] then Runs(flags, from + 1)
    else
      var e := RunEnd(flags, from);
      if e == |flags| then [] else [Segment(from - 1, e)] + Runs(flags, e)
  }

  /** The emitted segments lie inside the cube, start no earlier than one frame
      before the scan point, and each segment's right end is at or before the next one's
      left end (consecutive segments may share an end frame). */
  lemma {:induction false} RunsOrdered(flags: seq<bool>, from: nat)
    requires from <= |flags|
    ensures forall i :: 0 <= i < |Runs(flags, from)| ==>
              from - 1 <= Runs(flags, from)[i].left &&
              Runs(flags, from)[i].left + 1 < Runs(flags, from)[i].right < |flags|
    ensures forall i, j :: 0 <= i < j < |Runs(flags, from)| ==>
              Runs(flags, from)[i].right <= Runs(flags, from)[j].left
    decreases |flags| - from
  {
    if from == |flags| {
    } else if !flags[from] {
      assert Runs(flags, from) == Runs(flags, from + 1);
      RunsOrdered(flags, from + 1);
    } else {
      var e := RunEnd(flags, from);
      if e < |flags| {
        // the frame closing the run is unflagged, so the rest starts after it
        var rest := Runs(flags, e + 1);
        assert Runs(flags, from) == [Segment(from - 1, e)] + rest;
        RunsOrdered(flags, e + 1);
        assert from < e;
        assert forall i :: 0 <= i < |rest| ==> e <= rest[i].left;
      } else {
        assert Runs(flags, from) == [];
      }
    }
  }

  /** s is a maximal run of flagged frames, widened by one frame on each side,
      whose right end is an actual unflagged frame. */
  ghost predicate IsClosedRun(flags: seq<bool>, s: Segment) {
    -1 <= s.left && s.left + 1 < s.right < |flags| &&
    (s.left == -1 || !flags[s.left]) &&
    !flags[s.right] &&
    forall p :: s.left < p < s.right ==> flags[p]
  }

  /** `from` is a place the scan can be at: the start, the end, or just after or
      at an unflagged frame. */
  ghost predicate ScanPoint(flags: seq<bool>, from: nat)
    requires from <= |flags|
  {
    from == 0 || from == |flags| || !flags[from - 1] || !flags[from]
  }

  lemma {:induction false} RunsSound(flags: seq<bool>, from: nat)
    requires from <= |flags| && ScanPoint(flags, from)
    ensures forall s :: s in Runs(flags, from) ==> IsClosedRun(flags, s)
    decreases |flags| - from
  {
    if from == |flags| {
    } else if !flags[from] {
      RunsSound(flags, from + 1);
    } else {
      var e := RunEnd(flags, from);
      if e < |flags| {
        RunsSound(flags, e);
        assert IsClosedRun(flags, Segment(from - 1, e));
      }
    }
  }

  lemma {:induction false} RunsComplete(flags: seq<bool>, from: nat, s: Segment)
    requires from <= |flags| && ScanPoint(flags, from)
    requires IsClosedRun(flags, s) && s.left >= from - 1
    ensures s in Runs(flags, from)
    decreases |flags| - from
  {
    if from == |flags| {
    } else if !flags[from] {
      assert s.left != from - 1;
      RunsComplete(flags, from + 1, s);
    } else {
      var e := RunEnd(flags, from);
      if s.left == from - 1 {
        assert s.right == e;
      } else {
        assert s.left >= e;
        RunsComplete(flags, e, s);
      }
    }
  }

  /** A segment is emitted exactly when it is a closed run of flagged frames. */
  lemma RunsCharacterization(flags: seq<bool>, s: Segment)
    ensures s in Runs(flags, 0) <==> IsClosedRun(flags, s)
  {
    RunsSound(flags, 0);
    if IsClosedRun(flags, s) {
      RunsComplete(flags, 0, s);
    }
  }

  lemma {:induction false} NoFlagsNoRuns(flags: seq<bool>, from: nat)
    requires from <= |flags|
    requires forall p :: 0 <= p < |flags| ==> !flags[p]
    ensures Runs(flags, from) == []
    decreases |flags| - from
  {
    if from < |flags| {
      NoFlagsNoRuns(flags, from + 1);
    }
  }

  /** A run that starts at frame 0 is widened to left == -1: no clipping. */
  lemma RunAtFirstFrame(flags: seq<bool>)
    requires |flags| >= 2 && flags[0] && !flags[1]
    ensures Runs(flags, 0)[0] == Segment(-1, 1)
  {
  }

  /** A run that reaches the last frame is dropped. */
  lemma TrailingRunDropped(flags: seq<bool>)
    requires |flags| >= 1 && flags[|flags| - 1]
    ensures forall s :: s in Runs(flags, 0) ==> s.right < |flags| - 1
  {
    RunsSound(flags, 0);
  }

  lemma RunsAtUnflagged(flags: seq<bool>, left: nat)
    requires left < |flags| && !flags[left]
    ensures Runs(flags, left) == Runs(flags, left + 1)
  {
  }

  /** A run [left, right) closed by the unflagged frame `right` is emitted as one segment. */
  lemma RunsAtClosedRun(flags: seq<bool>, left: nat, right: nat)
    requires left < right < |flags| && !flags[right]
    requires forall p :: left <= p < right ==> flags[p]
    ensures Runs(flags, left) == [Segment(left - 1, right)] + Runs(flags, right)
  {
    assert RunEnd(flags, left) == right;
  }

  /** A run that reaches the last frame contributes nothing. */
  lemma RunsAtOpenRun(flags: seq<bool>, left: nat)
    requires left <= |flags|
    requires forall p :: left <= p < |flags| ==> flags[p]
    ensures Runs(flags, left) == []
  {
    if left < |flags| {
      assert RunEnd(flags, left) == |flags|;
    }
  }

  /** The first loop of get_cmes_segments: has_circle on every frame. */
  method DetectCmeFrames(T: array<real>, ntime: nat) returns (isCmeFrame: array<int>)
    requires ntime * FrameCells <= T.Length
    ensures fresh(isCmeFrame) && isCmeFrame.Length == ntime
    ensures forall p :: 0 <= p < ntime ==>
              (isCmeFrame[p] == 0 || isCmeFrame[p] == 1) &&
              (isCmeFrame[p] == 1 <==> CmeFlags(T[..], ntime)[p])
  {
    isCmeFrame := new int[ntime];
    for i := 0 to ntime
      invariant forall p :: 0 <= p < i ==>
                  (isCmeFrame[p] == 0 || isCmeFrame[p] == 1) &&
                  (isCmeFrame[p] == 1 <==> HasCircleSpec(T[..], p))
    {
      isCmeFrame[i] := HasCircle(T, i);
    }
  }

  method GetCmesSegments(T: array<real>, ntime: nat) returns (segs: Segments)
    requires ntime * FrameCells <= T.Length
    requires |Runs(CmeFlags(T[..], ntime), 0)| <= MaxSegments
    ensures |segs.slots| == MaxSegments && 0 <= segs.size <= MaxSegments
    ensures segs.slots[..segs.size] == Runs(CmeFlags(T[..], ntime), 0)
  {
    var isCmeFrame := DetectCmeFrames(T, ntime);
    ghost var flags := CmeFlags(T[..], ntime);

    var slots := new Segment[MaxSegments](_ => Segment(0, 0));
    var left, right, currentSegment := 0, 0, 0;
    ghost var emitted: seq<Segment> := [];
    assert |Runs(flags, 0)| <= MaxSegments;
    while right < ntime
      invariant 0 <= left <= right <= ntime
      invariant forall p :: 0 <= p < ntime ==>
                  (isCmeFrame[p] == 0 || isCmeFrame[p] == 1) && (isCmeFrame[p] == 1 <==> flags[p])
      invariant forall p :: left <= p < right ==> flags[p]
      invariant currentSegment == |emitted| <= MaxSegments && slots[..currentSegment] == emitted
      invariant emitted + Runs(flags, left) == Runs(flags, 0)
      decreases 2 * ntime - left - right
    {
      if isCmeFrame[left] == 0 {
        RunsAtUnflagged(flags, left);
        left, right := left + 1, right + 1;
      } else {
        if isCmeFrame[right] == 1 {
          right := right + 1;
        } else if isCmeFrame[right] == 0 {
          var cmeSegment := Segment(left, right - 1);
          cmeSegment := Segment(cmeSegment.left - 1, cmeSegment.right + 1);
          RunsAtClosedRun(flags, left, right);
          assert |emitted| + 1 + |Runs(flags, right)| == |Runs(flags, 0)|;
          slots[currentSegment] := cmeSegment;
          currentSegment := currentSegment + 1;
          emitted := emitted + [cmeSegment];
          assert emitted + Runs(flags, right) == Runs(flags, 0);
          left := right;
        }
      }
    }
    RunsAtOpenRun(flags, left);
    segs := Segments(currentSegment, slots[..]);
  }

  // ---------------------------------------------------------------------------
  // get_bkg_frame

  /** The scan of get_bkg_frame from segment i on, with `frame` the first frame
      not yet known to be covered. */
  function BkgScan(segs: seq<Segment>, i: nat, frame: int, ntime: int): int
    requires i <= |segs|
    requires |segs| > 0 || frame < ntime
    decreases |segs| - i
  {
    if i == |segs| then (if frame < ntime then frame else segs[0].right)
    else if frame < segs[i].left then frame
    else BkgScan(segs, i + 1, segs[i].right + 1, ntime)
  }

  function BkgFrame(segs: seq<Segment>, ntime: int): int
    requires |segs| > 0 || ntime > 0
  {
    BkgScan(segs, 0, 0, ntime)
  }

  /** Segments as get_cmes_segments produces them for ntime frames. */
  ghost predicate WellOrdered(segs: seq<Segment>, ntime: int) {
    (forall i :: 0 <= i < |segs| ==> -1 <= segs[i].left && segs[i].left + 1 < segs[i].right < ntime) &&
    (forall i, j :: 0 <= i < j < |segs| ==> segs[i].right <= segs[j].left)
  }

  ghost predicate Covered(segs: seq<Segment>, f: int) {
    exists i :: 0 <= i < |segs| && segs[i].left <= f <= segs[i].right
  }

  lemma {:induction false} BkgScanFirstFree(segs: seq<Segment>, i: nat, frame: int, ntime: int)
    requires WellOrdered(segs, ntime) && ntime >= 1
    requires i <= |segs|
    requires i == 0 ==> frame == 0
    requires i > 0 ==> frame == segs[i - 1].right + 1
    requires forall f :: 0 <= f < frame ==> Covered(segs, f)
    ensures 0 <= BkgScan(segs, i, frame, ntime) < ntime
    ensures (exists f :: 0 <= f < ntime && !Covered(segs, f)) ==>
              !Covered(segs, BkgScan(segs, i, frame, ntime)) &&
              forall f :: 0 <= f < BkgScan(segs, i, frame, ntime) ==> Covered(segs, f)
    ensures (forall f :: 0 <= f < ntime ==> Covered(segs, f)) ==>
              |segs| > 0 && BkgScan(segs, i, frame, ntime) == segs[0].right
    decreases |segs| - i
  {
    if i == |segs| || frame < segs[i].left {
      if i < |segs| || frame < ntime {
        // frame is free: every earlier segment ends before it, every later one starts after it
        forall p | 0 <= p < |segs| ensures !(segs[p].left <= frame <= segs[p].right) {
          if p < i {
            assert segs[p].right <= segs[i - 1].right;
          } else {
            assert segs[p].left >= segs[i].left;
          }
        }
        assert !Covered(segs, frame);
      } else {
        assert i > 0;
      }
    } else {
      var next := segs[i].right + 1;
      forall f | 0 <= f < next ensures Covered(segs, f) {
        if f >= frame {
          assert segs[i].left <= f <= segs[i].right;
        }
      }
      BkgScanFirstFree(segs, i + 1, next, ntime);
    }
  }

  /** get_bkg_frame returns the first frame not covered by any segment when there
      is one, and otherwise falls back to the right end of the first segment;
      either way the result is a frame of the cube. */
  lemma BkgFrameFirstFree(segs: seq<Segment>, ntime: int)
    requires WellOrdered(segs, ntime) && ntime >= 1
    ensures 0 <= BkgFrame(segs, ntime) < ntime
    ensures (exists f :: 0 <= f < ntime && !Covered(segs, f)) ==>
              !Covered(segs, BkgFrame(segs, ntime)) &&
              forall f :: 0 <= f < BkgFrame(segs, ntime) ==> Covered(segs, f)
    ensures (forall f :: 0 <= f < ntime ==> Covered(segs, f)) ==>
              |segs| > 0 && BkgFrame(segs, ntime) == segs[0].right
    ensures |segs| == 0 ==> BkgFrame(segs, ntime) == 0
  {
    BkgScanFirstFree(segs, 0, 0, ntime);
  }

  // ---------------------------------------------------------------------------
  // Post-load steps of read_bnd

  /** B1 or B3 after the polarity correction at `frame`: sign-flipped where the
      paired polarity is not positive, untouched elsewhere. */
  function Flipped(b: seq<real>, bp: seq<real>, frame: int): (r: seq<real>)
    requires |bp| == |b|
    ensures |r| == |b|
  {
    seq(|b|, i requires 0 <= i < |b| =>
      if frame * FrameCells <= i < (frame + 1) * FrameCells && bp[i] <= 0.0 then -b[i] else b[i])
  }

  /** B1 or B3 once read_bnd is done with it: flipped when the polarity correction is on. */
  function Corrected(b: seq<real>, bp: seq<real>, frame: int, usePolarity: bool): (r: seq<real>)
    requires |bp| == |b|
    ensures |r| == |b|
    ensures !usePolarity ==> r == b
  {
    if usePolarity then Flipped(b, bp, frame) else b
  }

  /** One cell of the correction: the value times the sign of its BP (a BP of zero counts as negative). */
  function CellCorrection(b: real, bp: real, usePolarity: bool): (r: real)
    ensures !usePolarity || bp > 0.0 ==> r == b
    ensures usePolarity && bp <= 0.0 ==> r == -b
  {
    if usePolarity then b * (if bp > 0.0 then 1.0 else -1.0) else b
  }

  /** Inside the frame's block, Corrected is CellCorrection applied cell by cell. */
  lemma CorrectedRow(b: seq<real>, bp: seq<real>, frame: int, j: int, usePolarity: bool)
    requires |bp| == |b| && 0 <= frame && (frame + 1) * FrameCells <= |b| && 0 <= j < LatitudeDim
    ensures forall k :: 0 <= k < LongitudeDim ==>
              Corrected(b, bp, frame, usePolarity)[DataIndex(frame, k, j)] ==
              CellCorrection(b[DataIndex(frame, k, j)], bp[DataIndex(frame, k, j)], usePolarity)
  {
  }

  /** The correction touches only the frame's block and undoes itself. */
  lemma FlippedProperties(b: seq<real>, bp: seq<real>, frame: int)
    requires |bp| == |b|
    ensures forall i :: 0 <= i < |b| && !(frame * FrameCells <= i < (frame + 1) * FrameCells) ==>
              Flipped(b, bp, frame)[i] == b[i]
    ensures forall i :: 0 <= i < |b| && bp[i] > 0.0 ==> Flipped(b, bp, frame)[i] == b[i]
    ensures Flipped(Flipped(b, bp, frame), bp, frame) == b
  {
  }

  /** The cell (k, j) of a frame lies latitude-fastest after the frame's first cell. */
  lemma DataIndexOffset(frame: int, k: int, j: int)
    ensures DataIndex(frame, k, j) == frame * FrameCells + k * LatitudeDim + j
  {
  }

  /** Sum of the cells (k', j), k' < k, of the frame block starting at `base`. */
  function RowSum(a: seq<real>, base: int, j: int, k: int): real
    requires 0 <= base && base + FrameCells <= |a|
    requires 0 <= j < LatitudeDim && 0 <= k <= LongitudeDim
  {
    if k == 0 then 0.0 else RowSum(a, base, j, k - 1) + a[base + (k - 1) * LatitudeDim + j]
  }

  /** Sum of the full longitude rows of latitudes j' < j. */
  function RowsSum(a: seq<real>, base: int, j: int): real
    requires 0 <= base && base + FrameCells <= |a|
    requires 0 <= j <= LatitudeDim
  {
    if j == 0 then 0.0 else RowsSum(a, base, j - 1) + RowSum(a, base, j - 1, LongitudeDim)
  }

  /** Sum over all 60 x 180 cells of a frame. */
  function FrameSum(a: seq<real>, frame: int): real
    requires 0 <= frame && (frame + 1) * FrameCells <= |a|
  {
    RowsSum(a, frame * FrameCells, LatitudeDim)
  }

  lemma {:induction false} RowSumUniform(a: seq<real>, base: int, j: int, k: int, v: real)
    requires 0 <= base && base + FrameCells <= |a|
    requires 0 <= j < LatitudeDim && 0 <= k <= LongitudeDim
    requires forall i :: base <= i < base + FrameCells ==> a[i] == v
    ensures RowSum(a, base, j, k) == k as real * v
  {
    if k > 0 {
      RowSumUniform(a, base, j, k - 1, v);
    }
  }

  lemma {:induction false} RowsSumUniform(a: seq<real>, base: int, j: int, v: real)
    requires 0 <= base && base + FrameCells <= |a|
    requires 0 <= j <= LatitudeDim
    requires forall i :: base <= i < base + FrameCells ==> a[i] == v
    ensures RowsSum(a, base, j) == (j * LongitudeDim) as real * v
  {
    if j > 0 {
      RowsSumUniform(a, base, j - 1, v);
      RowSumUniform(a, base, j - 1, LongitudeDim, v);
    }
  }

  /** A frame holding one value everywhere has that value as its mean. */
  lemma FrameMeanUniform(a: seq<real>, frame: int, v: real)
    requires 0 <= frame && (frame + 1) * FrameCells <= |a|
    requires forall i :: frame * FrameCells <= i < (frame + 1) * FrameCells ==> a[i] == v
    ensures FrameSum(a, frame) / (LatitudeDim * LongitudeDim) as real == v
  {
    RowsSumUniform(a, frame * FrameCells, LatitudeDim, v);
  }

  /** Every cell of a frame block is the cell of exactly one (longitude, latitude) pair. */
  lemma CellCoordinates(frame: int, i: int)
    requires frame * FrameCells <= i < (frame + 1) * FrameCells
    ensures var r := i - frame * FrameCells;
              0 <= r / LatitudeDim < LongitudeDim && 0 <= r % LatitudeDim < LatitudeDim &&
              i == DataIndex(frame, r / LatitudeDim, r % LatitudeDim)
  {
    var r := i - frame * FrameCells;
    DataIndexOffset(frame, r / LatitudeDim, r % LatitudeDim);
  }

  /** B1 or B3 part-way through the correction of `frame`: the cells the (j, k)
      loop has visited hold their `target` values, every other cell still holds
      its value as read. */
  ghost predicate Progress(b: seq<real>, orig: seq<real>, target: seq<real>, frame: int, j: int, k: int)
    requires |b| == |orig| == |target| && 0 <= frame && (frame + 1) * FrameCells <= |b|
  {
    (forall i :: 0 <= i < |b| && !(frame * FrameCells <= i < (frame + 1) * FrameCells) ==> b[i] == orig[i]) &&
    forall kk, jj :: 0 <= kk < LongitudeDim && 0 <= jj < LatitudeDim ==>
      b[DataIndex(frame, kk, jj)] ==
        (if jj < j || (jj == j && kk < k) then target else orig)[DataIndex(frame, kk, jj)]
  }

  /** The end of one latitude's longitude sweep is the start of the next latitude. */
  lemma ProgressNextRow(b: seq<real>, orig: seq<real>, target: seq<real>, frame: int, j: int)
    requires |b| == |orig| == |target| && 0 <= frame && (frame + 1) * FrameCells <= |b|
    requires Progress(b, orig, target, frame, j, LongitudeDim)
    ensures Progress(b, orig, target, frame, j + 1, 0)
  {
  }

  /** Nothing is visited at the start; once every latitude is done the whole target is reached. */
  lemma ProgressEnds(b: seq<real>, orig: seq<real>, bp: seq<real>, frame: int, usePolarity: bool)
    requires |b| == |orig| == |bp| && 0 <= frame && (frame + 1) * FrameCells <= |b|
    ensures b == orig ==> Progress(b, orig, Corrected(orig, bp, frame, usePolarity), frame, 0, 0)
    ensures Progress(b, orig, Corrected(orig, bp, frame, usePolarity), frame, LatitudeDim, 0) ==>
              b == (Corrected(orig, bp, frame, usePolarity))
  {
    var target := Corrected(orig, bp, frame, usePolarity);
    if Progress(b, orig, target, frame, LatitudeDim, 0) {
      forall i | frame * FrameCells <= i < (frame + 1) * FrameCells
        ensures b[i] == target[i]
      {
        CellCoordinates(frame, i);
      }
    }
  }

  /** The double loop of read_bnd over the background frame's latitudes j and
      longitudes k: each cell of B1 and B3 takes the sign of BP there (when the
      polarity correction is on) and the five fields are summed. */
  method CorrectAndSumFrame(D: array<real>, V1: array<real>, T: array<real>, B1: array<real>, B3: array<real>,
                            BP: array<real>, frame: int, usePolarity: bool)
    returns (sumD: real, sumV1: real, sumT: real, sumB1: real, sumB3: real)
    requires 0 <= frame && (frame + 1) * FrameCells <= D.Length
    requires V1.Length == T.Length == B1.Length == B3.Length == BP.Length == D.Length
    requires B1 != B3 && B1 != D && B1 != V1 && B1 != T && B1 != BP
    requires B3 != D && B3 != V1 && B3 != T && B3 != BP
    modifies B1, B3
    ensures B1[..] == Corrected(old(B1[..]), BP[..], frame, usePolarity)
    ensures B3[..] == Corrected(old(B3[..]), BP[..], frame, usePolarity)
    ensures sumD == FrameSum(D[..], frame) && sumV1 == FrameSum(V1[..], frame) && sumT == FrameSum(T[..], frame)
    ensures sumB1 == FrameSum(B1[..], frame) && sumB3 == FrameSum(B3[..], frame)
  {
    ghost var base := frame * FrameCells;
    ghost var bp := BP[..];
    ghost var old1, old3 := B1[..], B3[..];
    ghost var target1, target3 := Corrected(old1, bp, frame, usePolarity), Corrected(old3, bp, frame, usePolarity);
    sumD, sumV1, sumT, sumB1, sumB3 := 0.0, 0.0, 0.0, 0.0, 0.0;
    ProgressEnds(old1, old1, bp, frame, usePolarity);
    ProgressEnds(old3, old3, bp, frame, usePolarity);
    for j := 0 to LatitudeDim
      invariant Progress(B1[..], old1, target1, frame, j, 0)
      invariant Progress(B3[..], old3, target3, frame, j, 0)
      invariant sumD == RowsSum(D[..], base, j) && sumV1 == RowsSum(V1[..], base, j) && sumT == RowsSum(T[..], base, j)
      invariant sumB1 == RowsSum(target1, base, j) && sumB3 == RowsSum(target3, base, j)
    {
      sumD, sumV1, sumT, sumB1, sumB3 := SweepLatitude(D, V1, T, B1, B3, BP, frame, j, usePolarity, old1, old3, bp,
                                                       target1, target3, sumD, sumV1, sumT, sumB1, sumB3);
    }
    ProgressEnds(B1[..], old1, bp, frame, usePolarity);
    ProgressEnds(B3[..], old3, bp, frame, usePolarity);
  }

  /** One pass of the outer loop of read_bnd's double loop: latitude j is corrected
      and summed, and the progress over the frame moves on to latitude j + 1. */
  method SweepLatitude(D: array<real>, V1: array<real>, T: array<real>, B1: array<real>, B3: array<real>,
                       BP: array<real>, frame: int, j: int, usePolarity: bool,
                       ghost orig1: seq<real>, ghost orig3: seq<real>, ghost bp: seq<real>,
                       ghost target1: seq<real>, ghost target3: seq<real>,
                       sumD: real, sumV1: real, sumT: real, sumB1: real, sumB3: real)
    returns (sumD': real, sumV1': real, sumT': real, sumB1': real, sumB3': real)
    requires 0 <= frame && (frame + 1) * FrameCells <= D.Length && 0 <= j < LatitudeDim
    requires V1.Length == T.Length == B1.Length == B3.Length == BP.Length == D.Length == |orig1| == |orig3|
    requires B1 != B3 && B1 != D && B1 != V1 && B1 != T && B1 != BP
    requires B3 != D && B3 != V1 && B3 != T && B3 != BP
    requires bp == BP[..]
    requires target1 == Corrected(orig1, bp, frame, usePolarity) && target3 == Corrected(orig3, bp, frame, usePolarity)
    requires Progress(B1[..], orig1, target1, frame, j, 0)
    requires Progress(B3[..], orig3, target3, frame, j, 0)
    requires sumD == RowsSum(D[..], frame * FrameCells, j) && sumV1 == RowsSum(V1[..], frame * FrameCells, j)
    requires sumT == RowsSum(T[..], frame * FrameCells, j)
    requires sumB1 == RowsSum(target1, frame * FrameCells, j) && sumB3 == RowsSum(target3, frame * FrameCells, j)
    modifies B1, B3
    ensures Progress(B1[..], orig1, target1, frame, j + 1, 0)
    ensures Progress(B3[..], orig3, target3, frame, j + 1, 0)
    ensures sumD' == RowsSum(D[..], frame * FrameCells, j + 1) && sumV1' == RowsSum(V1[..], frame * FrameCells, j + 1)
    ensures sumT' == RowsSum(T[..], frame * FrameCells, j + 1)
    ensures sumB1' == RowsSum(target1, frame * FrameCells, j + 1) && sumB3' == RowsSum(target3, frame * FrameCells, j + 1)
  {
    ghost var pre1, pre3 := B1[..], B3[..];
    RowUnvisited(pre1, orig1, target1, frame, j);
    RowUnvisited(pre3, orig3, target3, frame, j);
    CorrectedRow(orig1, bp, frame, j, usePolarity);
    CorrectedRow(orig3, bp, frame, j, usePolarity);
    var rowD, rowV1, rowT, rowB1, rowB3 := CorrectAndSumLatitude(D, V1, T, B1, B3, BP, frame, j, usePolarity,
                                                                orig1, orig3, target1, target3);
    RowAdvance(pre1, orig1, target1, frame, j);
    RowAdvance(pre3, orig3, target3, frame, j);
    sumD', sumV1', sumT', sumB1', sumB3' := sumD + rowD, sumV1 + rowV1, sumT + rowT, sumB1 + rowB1, sumB3 + rowB3;
  }

  /** Before latitude j is visited, all of its cells still hold their original values. */
  lemma RowUnvisited(b: seq<real>, orig: seq<real>, target: seq<real>, frame: int, j: int)
    requires |b| == |orig| == |target| && 0 <= frame && (frame + 1) * FrameCells <= |b|
    requires 0 <= j < LatitudeDim
    requires Progress(b, orig, target, frame, j, 0)
    ensures forall kk :: 0 <= kk < LongitudeDim ==> b[DataIndex(frame, kk, j)] == orig[DataIndex(frame, kk, j)]
  {
    forall kk | 0 <= kk < LongitudeDim
      ensures b[DataIndex(frame, kk, j)] == orig[DataIndex(frame, kk, j)]
    {
      ProgressUnvisited(b, orig, target, frame, j, kk);
    }
  }

  /** Visiting the whole of latitude j moves the progress on to latitude j + 1. */
  lemma RowAdvance(b: seq<real>, orig: seq<real>, target: seq<real>, frame: int, j: int)
    requires |b| == |orig| == |target| && 0 <= frame && (frame + 1) * FrameCells <= |b|
    requires 0 <= j < LatitudeDim
    requires Progress(b, orig, target, frame, j, 0)
    ensures Progress(PartialRow(b, target, frame, j, LongitudeDim), orig, target, frame, j + 1, 0)
  {
    PartialRowProgress(b, orig, target, frame, j, LongitudeDim);
    ProgressNextRow(PartialRow(b, target, frame, j, LongitudeDim), orig, target, frame, j);
  }

  /** Latitude j of b with its first k longitude cells replaced by those of t. */
  ghost function PartialRow(b: seq<real>, t: seq<real>, frame: int, j: int, k: int): (r: seq<real>)
    requires |t| == |b| && 0 <= frame && (frame + 1) * FrameCells <= |b|
    requires 0 <= j < LatitudeDim && 0 <= k <= LongitudeDim
    ensures |r| == |b|
  {
    if k == 0 then b
    else PartialRow(b, t, frame, j, k - 1)[DataIndex(frame, k - 1, j) := t[DataIndex(frame, k - 1, j)]]
  }

  lemma {:induction false} PartialRowUntouched(b: seq<real>, t: seq<real>, frame: int, j: int, k: int, kk: int)
    requires |t| == |b| && 0 <= frame && (frame + 1) * FrameCells <= |b|
    requires 0 <= j < LatitudeDim && 0 <= k <= kk < LongitudeDim
    ensures PartialRow(b, t, frame, j, k)[DataIndex(frame, kk, j)] == b[DataIndex(frame, kk, j)]
  {
    if k > 0 {
      PartialRowUntouched(b, t, frame, j, k - 1, kk);
      DataIndexOffset(frame, k - 1, j);
      DataIndexOffset(frame, kk, j);
    }
  }

  /** Replacing the first k cells of latitude j by their targets advances the progress by k cells. */
  lemma {:induction false} PartialRowProgress(b: seq<real>, orig: seq<real>, target: seq<real>, frame: int, j: int, k: int)
    requires |b| == |orig| == |target| && 0 <= frame && (frame + 1) * FrameCells <= |b|
    requires 0 <= j < LatitudeDim && 0 <= k <= LongitudeDim
    requires Progress(b, orig, target, frame, j, 0)
    ensures Progress(PartialRow(b, target, frame, j, k), orig, target, frame, j, k)
  {
    if k > 0 {
      PartialRowProgress(b, orig, target, frame, j, k - 1);
      var prev := PartialRow(b, target, frame, j, k - 1);
      var idx := DataIndex(frame, k - 1, j);
      DataIndexOffset(frame, k - 1, j);
      forall kk, jj | 0 <= kk < LongitudeDim && 0 <= jj < LatitudeDim && (kk != k - 1 || jj != j)
        ensures DataIndex(frame, kk, jj) != idx
      {
        DataIndexOffset(frame, kk, jj);
      }
    }
  }

  lemma ProgressUnvisited(b: seq<real>, orig: seq<real>, target: seq<real>, frame: int, j: int, k: int)
    requires |b| == |orig| == |target| && 0 <= frame && (frame + 1) * FrameCells <= |b|
    requires 0 <= j < LatitudeDim && 0 <= k < LongitudeDim
    requires Progress(b, orig, target, frame, j, 0)
    ensures b[DataIndex(frame, k, j)] == orig[DataIndex(frame, k, j)]
  {
  }

  /** One cell of the polarity correction: when it is on, b at cell (k, j) of
      the frame, still as read, is multiplied by the sign of BP there. */
  method CorrectCell(b: array<real>, BP: array<real>, frame: int, j: int, k: int, usePolarity: bool,
                     ghost orig: seq<real>)
    requires b != BP && b.Length == BP.Length == |orig|
    requires 0 <= frame && (frame + 1) * FrameCells <= b.Length
    requires 0 <= k < LongitudeDim && 0 <= j < LatitudeDim
    requires b[DataIndex(frame, k, j)] == orig[DataIndex(frame, k, j)]
    modifies b
    ensures var idx := DataIndex(frame, k, j);
              b[..] == old(b[..])[idx := CellCorrection(orig[idx], BP[idx], usePolarity)]
  {
    var idx := DataIndex(frame, k, j);
    if usePolarity {
      b[idx] := b[idx] * (if BP[idx] > 0.0 then 1.0 else -1.0);
    } else {
      assert old(b[..]) == old(b[..])[idx := orig[idx]];
    }
  }

  /** The body of read_bnd's double loop at cell (k, j) of the frame: the
      polarity correction of B1 and B3 there, then the five values added to the sums. */
  method VisitCell(D: array<real>, V1: array<real>, T: array<real>, B1: array<real>, B3: array<real>,
                   BP: array<real>, frame: int, j: int, k: int, usePolarity: bool,
                   ghost orig1: seq<real>, ghost orig3: seq<real>, ghost target1: seq<real>, ghost target3: seq<real>)
    returns (d: real, v1: real, t: real, b1: real, b3: real)
    requires 0 <= frame && (frame + 1) * FrameCells <= D.Length
    requires 0 <= k < LongitudeDim && 0 <= j < LatitudeDim
    requires V1.Length == T.Length == B1.Length == B3.Length == BP.Length == D.Length == |orig1| == |orig3|
    requires B1 != B3 && B1 != D && B1 != V1 && B1 != T && B1 != BP
    requires B3 != D && B3 != V1 && B3 != T && B3 != BP
    requires B1[DataIndex(frame, k, j)] == orig1[DataIndex(frame, k, j)]
    requires B3[DataIndex(frame, k, j)] == orig3[DataIndex(frame, k, j)]
    requires |target1| == |target3| == D.Length
    requires target1[DataIndex(frame, k, j)] == CellCorrection(orig1[DataIndex(frame, k, j)], BP[DataIndex(frame, k, j)], usePolarity)
    requires target3[DataIndex(frame, k, j)] == CellCorrection(orig3[DataIndex(frame, k, j)], BP[DataIndex(frame, k, j)], usePolarity)
    modifies B1, B3
    ensures var idx := DataIndex(frame, k, j);
              && B1[..] == old(B1[..])[idx := target1[idx]]
              && B3[..] == old(B3[..])[idx := target3[idx]]
              && d == D[idx] && v1 == V1[idx] && t == T[idx]
              && b1 == target1[idx] && b3 == target3[idx]
  {
    CorrectCell(B1, BP, frame, j, k, usePolarity, orig1);
    CorrectCell(B3, BP, frame, j, k, usePolarity, orig3);
    var idx := DataIndex(frame, k, j);
    d, v1, t, b1, b3 := D[idx], V1[idx], T[idx], B1[idx], B3[idx];
  }

  /** The inner loop of read_bnd's double loop: latitude j of the frame swept over
      all longitudes k. */
  method CorrectAndSumLatitude(D: array<real>, V1: array<real>, T: array<real>, B1: array<real>, B3: array<real>,
                               BP: array<real>, frame: int, j: int, usePolarity: bool,
                               ghost orig1: seq<real>, ghost orig3: seq<real>,
                               ghost target1: seq<real>, ghost target3: seq<real>)
    returns (rowD: real, rowV1: real, rowT: real, rowB1: real, rowB3: real)
    requires 0 <= frame && (frame + 1) * FrameCells <= D.Length && 0 <= j < LatitudeDim
    requires V1.Length == T.Length == B1.Length == B3.Length == BP.Length == D.Length == |orig1| == |orig3|
    requires B1 != B3 && B1 != D && B1 != V1 && B1 != T && B1 != BP
    requires B3 != D && B3 != V1 && B3 != T && B3 != BP
    requires forall kk :: 0 <= kk < LongitudeDim ==> B1[DataIndex(frame, kk, j)] == orig1[DataIndex(frame, kk, j)]
    requires forall kk :: 0 <= kk < LongitudeDim ==> B3[DataIndex(frame, kk, j)] == orig3[DataIndex(frame, kk, j)]
    requires |target1| == |target3| == D.Length
    requires forall kk :: 0 <= kk < LongitudeDim ==>
               target1[DataIndex(frame, kk, j)] == CellCorrection(orig1[DataIndex(frame, kk, j)], BP[DataIndex(frame, kk, j)], usePolarity)
    requires forall kk :: 0 <= kk < LongitudeDim ==>
               target3[DataIndex(frame, kk, j)] == CellCorrection(orig3[DataIndex(frame, kk, j)], BP[DataIndex(frame, kk, j)], usePolarity)
    modifies B1, B3
    ensures B1[..] == PartialRow(old(B1[..]), target1, frame, j, LongitudeDim)
    ensures B3[..] == PartialRow(old(B3[..]), target3, frame, j, LongitudeDim)
    ensures rowD == RowSum(D[..], frame * FrameCells, j, LongitudeDim)
    ensures rowV1 == RowSum(V1[..], frame * FrameCells, j, LongitudeDim)
    ensures rowT == RowSum(T[..], frame * FrameCells, j, LongitudeDim)
    ensures rowB1 == RowSum(target1, frame * FrameCells, j, LongitudeDim)
    ensures rowB3 == RowSum(target3, frame * FrameCells, j, LongitudeDim)
  {
    ghost var base := frame * FrameCells;
    ghost var sD, sV1, sT := D[..], V1[..], T[..];
    ghost var start1, start3 := B1[..], B3[..];
    rowD, rowV1, rowT, rowB1, rowB3 := 0.0, 0.0, 0.0, 0.0, 0.0;
    for k := 0 to LongitudeDim
      invariant B1[..] == PartialRow(start1, target1, frame, j, k)
      invariant B3[..] == PartialRow(start3, target3, frame, j, k)
      invariant rowD == RowSum(sD, base, j, k) && rowV1 == RowSum(sV1, base, j, k) && rowT == RowSum(sT, base, j, k)
      invariant rowB1 == RowSum(target1, base, j, k) && rowB3 == RowSum(target3, base, j, k)
    {
      var idx := DataIndex(frame, k, j);
      DataIndexOffset(frame, k, j);
      PartialRowUntouched(start1, target1, frame, j, k, k);
      PartialRowUntouched(start3, target3, frame, j, k, k);
      var d, v1, t, b1, b3 := VisitCell(D, V1, T, B1, B3, BP, frame, j, k, usePolarity, orig1, orig3, target1, target3);
      assert idx == base + k * LatitudeDim + j;
      rowD, rowV1, rowT, rowB1, rowB3 := rowD + d, rowV1 + v1, rowT + t, rowB1 + b1, rowB3 + b3;
    }
  }

  class BoundaryData {
    var D: array<real>
    var V1: array<real>
    var T: array<real>
    var B1: array<real>
    var B3: array<real>
    var BP: array<real>
    var TIME: array<real>
    var cmeSegments: Segments

    var bkgFrame: int
    var meanD: real
    var meanV1: real
    var meanT: real
    var meanB1: real
    var meanB3: real

    var n2: nat
    var n3: nat
    var ntime: nat
    var mode: BndMode

    var obsdateHour: int
    var plutoTimeFromMainBnd: real

    /** The arrays the cube reader hands over match the 60 x 180 grid and the
        frame count; the background frame is one of the cube's frames; the two
        field arrays corrected in place share storage with no other array. */
    ghost predicate Valid()
      reads this
    {
      n2 == LatitudeDim && n3 == LongitudeDim && ntime >= 1 &&
      D.Length == ntime * FrameCells && V1.Length == ntime * FrameCells &&
      T.Length == ntime * FrameCells && B1.Length == ntime * FrameCells &&
      B3.Length == ntime * FrameCells && BP.Length == ntime * FrameCells &&
      TIME.Length == ntime &&
      0 <= bkgFrame < ntime &&
      B1 != B3 && {B1, B3} !! {D, V1, T, BP, TIME}
    }

    ghost function Arrays(): set<object>
      reads this
    {
      {D, V1, T, B1, B3, BP, TIME}
    }

    /** The state right after the cube reader filled the arrays (netCDF reading
        is not modelled): ambient mode, background frame 0, no offset. The segment
        list is left unset by read_bnd in ambient mode and never read there; the model
        gives it size 0. */
    constructor (D: array<real>, V1: array<real>, T: array<real>, B1: array<real>, B3: array<real>,
                 BP: array<real>, TIME: array<real>, ntime: nat)
      requires ntime >= 1
      requires D.Length == ntime * FrameCells && V1.Length == ntime * FrameCells
      requires T.Length == ntime * FrameCells && B1.Length == ntime * FrameCells
      requires B3.Length == ntime * FrameCells && BP.Length == ntime * FrameCells
      requires TIME.Length == ntime
      requires B1 != B3 && {B1, B3} !! {D, V1, T, BP, TIME}
      ensures Valid()
      ensures this.D == D && this.V1 == V1 && this.T == T && this.B1 == B1 && this.B3 == B3
      ensures this.BP == BP && this.TIME == TIME && this.ntime == ntime
      ensures bkgFrame == 0 && mode == Ambient && plutoTimeFromMainBnd == 0.0
      ensures cmeSegments.size == 0
    {
      this.D, this.V1, this.T, this.B1, this.B3, this.BP, this.TIME := D, V1, T, B1, B3, BP, TIME;
      this.ntime := ntime;
      n2, n3 := LatitudeDim, LongitudeDim;
      cmeSegments := Segments(0, seq(MaxSegments, _ => Segment(0, 0)));
      bkgFrame := 0;
      meanD, meanV1, meanT, meanB1, meanB3 := 0.0, 0.0, 0.0, 0.0, 0.0;
      mode := Ambient;
      obsdateHour := 0;
      plutoTimeFromMainBnd := 0.0;
    }

    method GetBkgFrame() returns (frame: int)
      requires ntime >= 1
      requires 0 <= cmeSegments.size <= |cmeSegments.slots|
      ensures frame == BkgFrame(cmeSegments.slots[..cmeSegments.size], ntime)
    {
      ghost var segs := cmeSegments.slots[..cmeSegments.size];
      frame := 0;
      for i := 0 to cmeSegments.size
        invariant i == 0 ==> frame == 0
        invariant BkgScan(segs, i, frame, ntime) == BkgFrame(segs, ntime)
      {
        if frame < cmeSegments.slots[i].left {
          return frame;
        } else {
          frame := cmeSegments.slots[i].right + 1;
        }
      }
      if frame < ntime {
        return frame;
      }
      // mode == CME, so there is at least one segment
      return cmeSegments.slots[0].right;
    }

    /** The polarity correction and the means, both over the background frame only. */
    method ApplyPolarityAndMeans(usePolarity: bool)
      requires Valid()
      modifies this`meanD, this`meanV1, this`meanT, this`meanB1, this`meanB3, B1, B3
      ensures Valid()
      ensures B1[..] == Corrected(old(B1[..]), BP[..], bkgFrame, usePolarity)
      ensures B3[..] == Corrected(old(B3[..]), BP[..], bkgFrame, usePolarity)
      ensures meanD == FrameSum(D[..], bkgFrame) / (n2 * n3) as real
      ensures meanV1 == FrameSum(V1[..], bkgFrame) / (n2 * n3) as real
      ensures meanT == FrameSum(T[..], bkgFrame) / (n2 * n3) as real
      ensures meanB1 == FrameSum(B1[..], bkgFrame) / (n2 * n3) as real
      ensures meanB3 == FrameSum(B3[..], bkgFrame) / (n2 * n3) as real
    {
      FrameFits(bkgFrame, ntime);
      var sumD, sumV1, sumT, sumB1, sumB3 := CorrectAndSumFrame(D, V1, T, B1, B3, BP, bkgFrame, usePolarity);
      meanD := sumD / (n2 * n3) as real;
      meanV1 := sumV1 / (n2 * n3) as real;
      meanT := sumT / (n2 * n3) as real;
      meanB1 := sumB1 / (n2 * n3) as real;
      meanB3 := sumB3 / (n2 * n3) as real;
    }

    /** The mode, and in event mode the segments and the background frame. */
    method SelectBackground()
      requires Valid()
      requires |Runs(CmeFlags(T[..], ntime), 0)| <= MaxSegments
      modifies this`mode, this`bkgFrame, this`cmeSegments
      ensures Valid()
      ensures mode == (if ntime > 1 then Cme else Ambient)
      ensures mode == Ambient ==> bkgFrame == 0 && cmeSegments == old(cmeSegments)
      ensures mode == Cme ==>
                && 0 <= cmeSegments.size <= |cmeSegments.slots|
                && cmeSegments.slots[..cmeSegments.size] == Runs(CmeFlags(T[..], ntime), 0)
                && bkgFrame == BkgFrame(cmeSegments.slots[..cmeSegments.size], ntime)
    {
      if ntime > 1 {
        mode := Cme;
      } else {
        mode := Ambient;
      }
      bkgFrame := 0;
      if mode == Cme {
        cmeSegments := GetCmesSegments(T, ntime);
        bkgFrame := GetBkgFrame();
        RunsOrdered(CmeFlags(T[..], ntime), 0);
        BkgFrameFirstFree(cmeSegments.slots[..cmeSegments.size], ntime);
      }
    }

    /** The hour read from the cube's calibration date, and no offset to the main cube yet. */
    method SetObsdateHour(obsdate: string)
      requires |obsdate| >= 13
      modifies this`obsdateHour, this`plutoTimeFromMainBnd
      ensures obsdateHour == ObsdateHour(obsdate) && plutoTimeFromMainBnd == 0.0
    {
      obsdateHour := AtoiTwo(obsdate[11], obsdate[12]);
      plutoTimeFromMainBnd := 0.0;
    }

    /** Steps of read_bnd after the arrays are read: the mode, the event segments
        and background frame in event mode, the polarity correction and the means,
        the observation hour, and a zero offset to the main cube. */
    method PostLoad(usePolarity: bool, obsdate: string)
      requires Valid() && |obsdate| >= 13
      requires |Runs(CmeFlags(T[..], ntime), 0)| <= MaxSegments
      modifies this`mode, this`bkgFrame, this`cmeSegments
      modifies this`meanD, this`meanV1, this`meanT, this`meanB1, this`meanB3
      modifies this`obsdateHour, this`plutoTimeFromMainBnd, B1, B3
      ensures Valid()
      ensures mode == (if ntime > 1 then Cme else Ambient)
      ensures mode == Ambient ==> bkgFrame == 0 && cmeSegments == old(cmeSegments)
      ensures mode == Cme ==>
                && 0 <= cmeSegments.size <= |cmeSegments.slots|
                && cmeSegments.slots[..cmeSegments.size] == Runs(CmeFlags(T[..], ntime), 0)
                && bkgFrame == BkgFrame(cmeSegments.slots[..cmeSegments.size], ntime)
      ensures B1[..] == Corrected(old(B1[..]), BP[..], bkgFrame, usePolarity)
      ensures B3[..] == Corrected(old(B3[..]), BP[..], bkgFrame, usePolarity)
      ensures meanD == FrameSum(D[..], bkgFrame) / (n2 * n3) as real
      ensures meanV1 == FrameSum(V1[..], bkgFrame) / (n2 * n3) as real
      ensures meanT == FrameSum(T[..], bkgFrame) / (n2 * n3) as real
      ensures meanB1 == FrameSum(B1[..], bkgFrame) / (n2 * n3) as real
      ensures meanB3 == FrameSum(B3[..], bkgFrame) / (n2 * n3) as real
      ensures obsdateHour == ObsdateHour(obsdate)
      ensures plutoTimeFromMainBnd == 0.0
    {
      SelectBackground();
      ApplyPolarityAndMeans(usePolarity);
      SetObsdateHour(obsdate);
    }
  }

  /** read_bnd with the cube reader's output passed in. */
  method ReadBnd(D: array<real>, V1: array<real>, T: array<real>, B1: array<real>, B3: array<real>,
                 BP: array<real>, TIME: array<real>, ntime: nat, obsdate: string, usePolarity: bool)
    returns (data: BoundaryData)
    requires ntime >= 1 && |obsdate| >= 13
    requires D.Length == ntime * FrameCells && V1.Length == ntime * FrameCells
    requires T.Length == ntime * FrameCells && B1.Length == ntime * FrameCells
    requires B3.Length == ntime * FrameCells && BP.Length == ntime * FrameCells
    requires TIME.Length == ntime
    requires B1 != B3 && {B1, B3} !! {D, V1, T, BP, TIME}
    requires |Runs(CmeFlags(T[..], ntime), 0)| <= MaxSegments
    modifies B1, B3
    ensures fresh(data) && data.Valid()
    ensures data.D == D && data.V1 == V1 && data.T == T && data.B1 == B1 && data.B3 == B3
    ensures data.BP == BP && data.TIME == TIME && data.ntime == ntime
    ensures data.mode == (if ntime > 1 then Cme else Ambient)
    ensures data.mode == Ambient ==> data.bkgFrame == 0 && data.cmeSegments.size == 0
    ensures data.mode == Cme ==>
              && 0 <= data.cmeSegments.size <= |data.cmeSegments.slots|
              && data.cmeSegments.slots[..data.cmeSegments.size] == Runs(CmeFlags(T[..], ntime), 0)
              && data.bkgFrame == BkgFrame(Runs(CmeFlags(T[..], ntime), 0), ntime)
    ensures unchanged(D, V1, T, BP, TIME)
    ensures B1[..] == Corrected(old(B1[..]), BP[..], data.bkgFrame, usePolarity)
    ensures B3[..] == Corrected(old(B3[..]), BP[..], data.bkgFrame, usePolarity)
    ensures data.meanD == FrameSum(D[..], data.bkgFrame) / (LatitudeDim * LongitudeDim) as real
    ensures data.meanV1 == FrameSum(V1[..], data.bkgFrame) / (LatitudeDim * LongitudeDim) as real
    ensures data.meanT == FrameSum(T[..], data.bkgFrame) / (LatitudeDim * LongitudeDim) as real
    ensures data.meanB1 == FrameSum(B1[..], data.bkgFrame) / (LatitudeDim * LongitudeDim) as real
    ensures data.meanB3 == FrameSum(B3[..], data.bkgFrame) / (LatitudeDim * LongitudeDim) as real
    ensures data.obsdateHour == ObsdateHour(obsdate) && data.plutoTimeFromMainBnd == 0.0
  {
    data := new BoundaryData(D, V1, T, B1, B3, BP, TIME, ntime);
    data.PostLoad(usePolarity, obsdate);
  }
}
