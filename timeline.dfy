/** The CME timeline: every cube's frames cut into adjacent frame pairs (the
    background frame is never the right end of a pair), gathered into one
    fixed-capacity array, sorted by (left time, right time, cube), and searched
    by simulation time. */
module CmeTimeline {
  import opened Utils
  import opened Bnd

  /** Capacity of the timeline's segment array; nothing checks it is not exceeded. */
  const MaxCmeSegments: int := 1000

  /** One pair of frames of one cube, with the simulation times of both ends. */
  datatype CmeSegment = CmeSegment(leftTime: real, rightTime: real, dailyIdx: int,
                                   leftFrameIndex: int, rightFrameIndex: int)

  // ---------------------------------------------------------------------------
  // The comparator handed to the sort

  /** 1 when a comes after b: larger left time, then larger right time, then larger
      cube index; 0 in every other case, including equal keys. */
  function Comparator(a: CmeSegment, b: CmeSegment): (r: int)
    ensures r == 0 || r == 1
  {
    if a.leftTime > b.leftTime
       || (a.leftTime == b.leftTime && a.rightTime > b.rightTime)
       || (a.leftTime == b.leftTime && a.rightTime == b.rightTime && a.dailyIdx > b.dailyIdx)
    then 1 else 0
  }

  /** The sort key, as a sequence of reals compared lexicographically. */
  function Key(a: CmeSegment): (key: seq<real>)
    ensures |key| == 3
  {
    [a.leftTime, a.rightTime, a.dailyIdx as real]
  }

  /** Reference order: x is lexicographically greater than y. */
  predicate LexGreater(x: seq<real>, y: seq<real>)
    requires |x| == |y|
    decreases |x|
  {
    |x| > 0 && (x[0] > y[0] || (x[0] == y[0] && LexGreater(x[1..], y[1..])))
  }

  /** The comparator returns 1 exactly when a's key is lexicographically greater than b's. */
  lemma {:induction false} ComparatorIsLexGreater(a: CmeSegment, b: CmeSegment)
    ensures Comparator(a, b) == 1 <==> LexGreater(Key(a), Key(b))
  {
    var ka, kb := Key(a), Key(b);
    assert ka[1..][1..][1..] == [];
    assert !LexGreater(ka[1..][1..][1..], kb[1..][1..][1..]);
    assert LexGreater(ka[1..][1..], kb[1..][1..]) <==> a.dailyIdx > b.dailyIdx;
    assert LexGreater(ka[1..], kb[1..]) <==>
           a.rightTime > b.rightTime || (a.rightTime == b.rightTime && a.dailyIdx > b.dailyIdx);
  }

  /** Comparator 0 both ways happens only for equal keys. */
  lemma ComparatorTotal(a: CmeSegment, b: CmeSegment)
    ensures Comparator(a, b) == 1 || Comparator(b, a) == 1 || Key(a) == Key(b)
  {
  }

  /** "Comes after" is a strict order: irreflexive, asymmetric and transitive. */
  lemma ComparatorStrictOrder(a: CmeSegment, b: CmeSegment, c: CmeSegment)
    ensures Comparator(a, a) == 0
    ensures Comparator(a, b) == 1 ==> Comparator(b, a) == 0
    ensures Comparator(a, b) == 1 && Comparator(b, c) == 1 ==> Comparator(a, c) == 1
  {
  }

  /** "Does not come after" (comparator 0) is transitive, so a sequence sorted pair by
      adjacent pair is sorted pair by pair. */
  lemma NotAfterTransitive(a: CmeSegment, b: CmeSegment, c: CmeSegment)
    requires Comparator(a, b) == 0 && Comparator(b, c) == 0
    ensures Comparator(a, c) == 0
  {
  }

  /** No element comes after a later one. */
  ghost predicate Sorted(s: seq<CmeSegment>) {
    forall p, q :: 0 <= p < q < |s| ==> Comparator(s[p], s[q]) == 0
  }

  /** A sorted timeline is in non-decreasing left-time order and has no adjacent
      pair the comparator would swap. */
  lemma SortedOrder(s: seq<CmeSegment>)
    requires Sorted(s)
    ensures forall i :: 0 <= i < |s| - 1 ==> Comparator(s[i], s[i + 1]) == 0
    ensures forall p, q :: 0 <= p < q < |s| ==> s[p].leftTime <= s[q].leftTime
  {
    forall p, q | 0 <= p < q < |s|
      ensures s[p].leftTime <= s[q].leftTime
    {
      assert Comparator(s[p], s[q]) == 0;
    }
  }

  // ---------------------------------------------------------------------------
  // The frame pairs of one cube, in closed form

  /** The background frame is skipped as a right end when it is one of frames 1 .. ntime-1. */
  predicate SkipsBkg(ntime: int, bkg: int) {
    1 <= bkg < ntime
  }

  /** Frame of the i-th left end of the walk: frames in order, the background frame left out. */
  function KeptFrame(i: int, bkg: int): (f: int)
    ensures f == i || f == i + 1
    ensures 1 <= bkg ==> f != bkg
  {
    if 1 <= bkg <= i then i + 1 else i
  }

  /** Number of pairs a cube with ntime frames contributes. */
  function PairCount(ntime: int, bkg: int): (n: int)
    ensures n >= 0
    ensures ntime >= 1 ==> n == ntime - 1 - (if SkipsBkg(ntime, bkg) then 1 else 0)
    ensures ntime <= 1 ==> n == 0
  {
    if ntime <= 1 then 0 else if SkipsBkg(ntime, bkg) then ntime - 2 else ntime - 1
  }

  /** The walk emits pair c exactly while the next kept frame is still a frame of the cube. */
  lemma PairEmittedIff(c: int, ntime: int, bkg: int)
    requires c >= 0
    ensures KeptFrame(c + 1, bkg) < ntime <==> c < PairCount(ntime, bkg)
  {
  }

  /** The i-th pair of cube d: kept frames i and i + 1 with their times shifted by the cube's offset. */
  function CubeSegment(d: int, ntime: int, bkg: int, times: seq<real>, offset: real, i: int): (s: CmeSegment)
    requires |times| == ntime && 0 <= i < PairCount(ntime, bkg)
    ensures 0 <= s.leftFrameIndex < s.rightFrameIndex < ntime
  {
    PairEmittedIff(i, ntime, bkg);
    var l, r := KeptFrame(i, bkg), KeptFrame(i + 1, bkg);
    CmeSegment(offset + ConvertToPlutoTime(times[l]), offset + ConvertToPlutoTime(times[r]), d, l, r)
  }

  ghost function CubeSegments(d: int, ntime: int, bkg: int, times: seq<real>, offset: real): (segs: seq<CmeSegment>)
    requires |times| == ntime
    ensures |segs| == PairCount(ntime, bkg)
  {
    seq(PairCount(ntime, bkg), i requires 0 <= i < PairCount(ntime, bkg) => CubeSegment(d, ntime, bkg, times, offset, i))
  }

  /** Shape of a cube's pairs: tagged with the cube; frames in range with the right end
      never the background frame; a chain starting at frame 0 where each pair starts at
      the previous right end; a pair spans two frames exactly when it jumps the background
      frame; the times are the frame times shifted by the cube's offset. */
  lemma CubeSegmentsShape(d: int, ntime: int, bkg: int, times: seq<real>, offset: real)
    requires |times| == ntime
    ensures var segs := CubeSegments(d, ntime, bkg, times, offset);
      && (forall i :: 0 <= i < |segs| ==>
            && segs[i].dailyIdx == d
            && 0 <= segs[i].leftFrameIndex < segs[i].rightFrameIndex < ntime
            && segs[i].rightFrameIndex != bkg
            && (segs[i].leftFrameIndex == bkg ==> bkg == 0)
            && (segs[i].rightFrameIndex - segs[i].leftFrameIndex == 2 <==> segs[i].leftFrameIndex + 1 == bkg)
            && segs[i].rightFrameIndex - segs[i].leftFrameIndex <= 2
            && segs[i].leftTime == offset + ConvertToPlutoTime(times[segs[i].leftFrameIndex])
            && segs[i].rightTime == offset + ConvertToPlutoTime(times[segs[i].rightFrameIndex]))
      && (|segs| > 0 ==> segs[0].leftFrameIndex == 0)
      && (forall i :: 0 <= i < |segs| - 1 ==> segs[i + 1].leftFrameIndex == segs[i].rightFrameIndex)
  {
  }

  /** A single-frame cube contributes no pair; with the background frame at 0 every
      frame after the first ends a pair. */
  lemma CubeSegmentsCount(d: int, ntime: int, bkg: int, times: seq<real>, offset: real)
    requires |times| == ntime
    ensures ntime == 1 ==> CubeSegments(d, ntime, bkg, times, offset) == []
    ensures ntime >= 1 && bkg == 0 ==> |CubeSegments(d, ntime, bkg, times, offset)| == ntime - 1
    ensures ntime >= 2 && 1 <= bkg < ntime ==> |CubeSegments(d, ntime, bkg, times, offset)| == ntime - 2
  {
  }

  /** The pairs of all cubes 0 .. n-1, in the order the walk emits them. */
  ghost function Emitted(days: seq<BoundaryData>, n: nat): (segs: seq<CmeSegment>)
    requires n <= |days|
    requires forall b :: b in days ==> b.Valid()
    reads set b | b in days
    reads set b | b in days :: b.TIME
  {
    if n == 0 then []
    else
      var b := days[n - 1];
      Emitted(days, n - 1) + CubeSegments(n - 1, b.ntime, b.bkgFrame, b.TIME[..], b.plutoTimeFromMainBnd)
  }

  /** Every emitted pair belongs to one of the cubes, lies inside it and carries the
      times of its two frames shifted by that cube's offset. */
  lemma {:induction false} EmittedBelongs(days: seq<BoundaryData>, n: nat)
    requires n <= |days|
    requires forall b :: b in days ==> b.Valid()
    ensures forall s :: s in Emitted(days, n) ==>
              && 0 <= s.dailyIdx < n && days[s.dailyIdx].Valid()
              && 0 <= s.leftFrameIndex < s.rightFrameIndex < days[s.dailyIdx].ntime
              && s.leftTime == days[s.dailyIdx].plutoTimeFromMainBnd +
                               ConvertToPlutoTime(days[s.dailyIdx].TIME[s.leftFrameIndex])
              && s.rightTime == days[s.dailyIdx].plutoTimeFromMainBnd +
                                ConvertToPlutoTime(days[s.dailyIdx].TIME[s.rightFrameIndex])
  {
    if n > 0 {
      EmittedBelongs(days, n - 1);
      var b := days[n - 1];
      assert b in days;
      CubeSegmentsShape(n - 1, b.ntime, b.bkgFrame, b.TIME[..], b.plutoTimeFromMainBnd);
    }
  }

  // ---------------------------------------------------------------------------
  // Timeline segments against the cubes

  /** A timeline segment names two frames of the cube, whose times differ. */
  ghost predicate FitsCube(b: BoundaryData, s: CmeSegment)
    reads b, b.TIME
  {
    && b.Valid()
    && 0 <= s.leftFrameIndex < b.ntime && 0 <= s.rightFrameIndex < b.ntime
    && ConvertToPlutoTime(b.TIME[s.leftFrameIndex]) != ConvertToPlutoTime(b.TIME[s.rightFrameIndex])
  }

  /** A timeline segment fits the cube its daily index names. */
  ghost predicate Fits(days: seq<BoundaryData>, s: CmeSegment)
    reads set b | b in days, set b | b in days :: b.TIME
  {
    0 <= s.dailyIdx < |days| && FitsCube(days[s.dailyIdx], s)
  }

  /** The segment's times are its two frames' times on today's clock. */
  ghost predicate OnCubeClock(b: BoundaryData, s: CmeSegment)
    reads b, b.TIME
    requires FitsCube(b, s)
  {
    s.leftTime == b.plutoTimeFromMainBnd + ConvertToPlutoTime(b.TIME[s.leftFrameIndex]) &&
    s.rightTime == b.plutoTimeFromMainBnd + ConvertToPlutoTime(b.TIME[s.rightFrameIndex])
  }

  /** The segments of a timeline built from the cubes are on their cubes' clocks, and they
      fit whenever the cubes' frame times strictly increase. */
  lemma TimelineOnCubeClocks(days: seq<BoundaryData>, segs: seq<CmeSegment>)
    requires forall b :: b in days ==> b.Valid()
    requires multiset(segs) == multiset(Emitted(days, |days|))
    requires forall b, f :: b in days && 0 <= f < b.ntime - 1 ==> b.TIME[f] < b.TIME[f + 1]
    ensures forall s :: s in segs ==>
              Fits(days, s) && OnCubeClock(days[s.dailyIdx], s) && s.leftTime < s.rightTime
  {
    EmittedBelongs(days, |days|);
    forall s | s in segs
      ensures Fits(days, s) && OnCubeClock(days[s.dailyIdx], s) && s.leftTime < s.rightTime
    {
      assert s in multiset(Emitted(days, |days|));
      var b := days[s.dailyIdx];
      assert b in days;
      FrameTimesIncrease(b, s.leftFrameIndex, s.rightFrameIndex);
    }
  }

  /** Strictly increasing frame times keep their order between any two frames. */
  lemma {:induction false} FrameTimesIncrease(b: BoundaryData, f: int, g: int)
    requires b.Valid() && 0 <= f < g < b.ntime
    requires forall i :: 0 <= i < b.ntime - 1 ==> b.TIME[i] < b.TIME[i + 1]
    ensures ConvertToPlutoTime(b.TIME[f]) < ConvertToPlutoTime(b.TIME[g])
    decreases g - f
  {
    if f + 1 < g {
      FrameTimesIncrease(b, f + 1, g);
    }
    assert b.TIME[f] < b.TIME[f + 1];
  }

  // ---------------------------------------------------------------------------
  // Building the timeline

  /** Appends the pairs of cube d (the body of create_timeline's outer loop). */
  method AppendCube(a: array<CmeSegment>, current: int, d: int, b: BoundaryData) returns (next: int)
    requires b.Valid() && 0 <= current
    requires current + PairCount(b.ntime, b.bkgFrame) <= a.Length
    modifies a
    ensures next == current + PairCount(b.ntime, b.bkgFrame)
    ensures a[..next] == old(a[..current]) + CubeSegments(d, b.ntime, b.bkgFrame, b.TIME[..], b.plutoTimeFromMainBnd)
  {
    ghost var pairs := CubeSegments(d, b.ntime, b.bkgFrame, b.TIME[..], b.plutoTimeFromMainBnd);
    ghost var prefix := a[..current];
    ghost var c := 0;
    next := current;
    var left, right := 0, 1;
    while right < b.ntime
      invariant 0 <= c <= PairCount(b.ntime, b.bkgFrame) && next == current + c
      invariant left == KeptFrame(c, b.bkgFrame) && right == left + 1
      invariant a[..next] == prefix + pairs[..c]
      decreases b.ntime - right
    {
      if right == b.bkgFrame {
        right := right + 1;
      }
      PairEmittedIff(c, b.ntime, b.bkgFrame);
      if right >= b.ntime {
        break;
      }
      a[next] := CmeSegment(b.plutoTimeFromMainBnd + ConvertToPlutoTime(b.TIME[left]),
                            b.plutoTimeFromMainBnd + ConvertToPlutoTime(b.TIME[right]),
                            d, left, right);
      assert a[next] == pairs[c];
      assert pairs[..c + 1] == pairs[..c] + [pairs[c]];
      next := next + 1;
      c := c + 1;
      left := right;
      right := right + 1;
    }
    PairEmittedIff(c, b.ntime, b.bkgFrame);
    assert pairs[..c] == pairs;
  }

  /** The loops of create_timeline before the sort: every cube's pairs, cube by cube. */
  method FillTimeline(a: array<CmeSegment>, days: seq<BoundaryData>) returns (len: int)
    requires forall b :: b in days ==> b.Valid()
    requires |Emitted(days, |days|)| <= a.Length
    modifies a
    ensures len == |Emitted(days, |days|)|
    ensures a[..len] == Emitted(days, |days|)
  {
    len := 0;
    for d := 0 to |days|
      invariant len == |Emitted(days, d)| <= a.Length
      invariant a[..len] == Emitted(days, d)
    {
      EmittedPrefix(days, d + 1, |days|);
      assert days[d] in days;
      len := AppendCube(a, len, d, days[d]);
    }
  }

  /** Emitted only grows as more cubes are walked. */
  lemma {:induction false} EmittedPrefix(days: seq<BoundaryData>, m: nat, n: nat)
    requires m <= n <= |days|
    requires forall b :: b in days ==> b.Valid()
    ensures |Emitted(days, m)| <= |Emitted(days, n)|
    decreases n - m
  {
    if m < n {
      EmittedPrefix(days, m, n - 1);
    }
  }

  // ---------------------------------------------------------------------------
  // The sort: insertion by adjacent swaps, using the comparator as "comes after"

  /** a[..n] sorted except that position j may be out of place to the left. */
  ghost predicate SortedBut(s: seq<CmeSegment>, i: int, j: int)
    requires 0 <= j <= i < |s|
  {
    && (forall p, q :: 0 <= p < q <= i && p != j && q != j ==> Comparator(s[p], s[q]) == 0)
    && (forall q :: j < q <= i ==> Comparator(s[j], s[q]) == 0)
    && (forall p, q :: 0 <= p < j < q <= i ==> Comparator(s[p], s[q]) == 0)
  }

  /** Moves a[i] left past every earlier element that comes after it. */
  method InsertAt(a: array<CmeSegment>, i: int)
    requires 0 <= i < a.Length
    requires Sorted(a[..i])
    modifies a
    ensures Sorted(a[..i + 1])
    ensures multiset(a[..i + 1]) == multiset(old(a[..i + 1]))
    ensures a[i + 1..] == old(a[i + 1..])
  {
    var j := i;
    while j > 0 && Comparator(a[j - 1], a[j]) == 1
      invariant 0 <= j <= i
      invariant SortedBut(a[..], i, j)
      invariant multiset(a[..i + 1]) == multiset(old(a[..i + 1]))
      invariant a[i + 1..] == old(a[i + 1..])
      decreases j
    {
      SwapDown(a, i, j);
      j := j - 1;
    }
    SortedAtRest(a[..], i, j);
  }

  /** One adjacent swap of the insertion keeps the shape of SortedBut, one place further left. */
  method SwapDown(a: array<CmeSegment>, i: int, j: int)
    requires 0 < j <= i < a.Length
    requires SortedBut(a[..], i, j) && Comparator(a[j - 1], a[j]) == 1
    modifies a
    ensures SortedBut(a[..], i, j - 1)
    ensures multiset(a[..i + 1]) == multiset(old(a[..i + 1]))
    ensures a[i + 1..] == old(a[i + 1..])
    ensures a[..j - 1] == old(a[..j - 1])
  {
    ghost var s := a[..];
    a[j - 1], a[j] := a[j], a[j - 1];
    ghost var t := a[..];
    assert t == s[j - 1 := s[j]][j := s[j - 1]];
    assert t[..i + 1] == s[..i + 1][j - 1 := s[j]][j := s[j - 1]];
    SwapKeepsShape(s, t, i, j);
  }

  lemma SwapKeepsShape(s: seq<CmeSegment>, t: seq<CmeSegment>, i: int, j: int)
    requires 0 < j <= i < |s| && t == s[j - 1 := s[j]][j := s[j - 1]]
    requires SortedBut(s, i, j) && Comparator(s[j - 1], s[j]) == 1
    ensures SortedBut(t, i, j - 1)
  {
    ComparatorStrictOrder(s[j - 1], s[j], s[j]);
  }

  /** When the insertion stops, the prefix is sorted. */
  lemma SortedAtRest(s: seq<CmeSegment>, i: int, j: int)
    requires 0 <= j <= i < |s|
    requires SortedBut(s, i, j)
    requires j == 0 || Comparator(s[j - 1], s[j]) == 0
    ensures Sorted(s[..i + 1])
  {
    forall p, q | 0 <= p < q <= i
      ensures Comparator(s[p], s[q]) == 0
    {
      if q == j && p < j - 1 {
        NotAfterTransitive(s[p], s[j - 1], s[j]);
      }
    }
  }

  /** The qsort call of create_timeline: a[..n] sorted in place, a permutation of itself. */
  method SortTimeline(a: array<CmeSegment>, n: int)
    requires 0 <= n <= a.Length
    modifies a
    ensures Sorted(a[..n])
    ensures multiset(a[..n]) == multiset(old(a[..n]))
  {
    for i := 0 to n
      invariant Sorted(a[..i])
      invariant multiset(a[..n]) == multiset(old(a[..n]))
    {
      ghost var before := a[..];
      InsertAt(a, i);
      assert a[..n] == a[..i + 1] + a[i + 1..n];
      assert before[..n] == before[..i + 1] + before[i + 1..n];
      assert a[i + 1..n] == before[i + 1..n];
    }
  }

  // ---------------------------------------------------------------------------
  // The timeline

  /** The first segment (in timeline order) whose closed time interval holds t, or -1. */
  function Lookup(segs: seq<CmeSegment>, t: real, from: nat): (r: int)
    requires from <= |segs|
    decreases |segs| - from
  {
    if from == |segs| then -1
    else if segs[from].leftTime <= t <= segs[from].rightTime then from
    else Lookup(segs, t, from + 1)
  }

  predicate Holds(s: CmeSegment, t: real) {
    s.leftTime <= t <= s.rightTime
  }

  /** Lookup is the first match: -1 exactly when no segment holds t, otherwise an index
      whose segment holds t and before which none does. */
  lemma {:induction false} LookupFirstMatch(segs: seq<CmeSegment>, t: real, from: nat)
    requires from <= |segs|
    ensures var r := Lookup(segs, t, from);
      && (r == -1 <==> forall i :: from <= i < |segs| ==> !Holds(segs[i], t))
      && (r != -1 ==> from <= r < |segs| && Holds(segs[r], t) &&
                      forall i :: from <= i < r ==> !Holds(segs[i], t))
    decreases |segs| - from
  {
    if from < |segs| && !Holds(segs[from], t) {
      LookupFirstMatch(segs, t, from + 1);
    }
  }

  class Timeline {
    var len: int
    var segments: array<CmeSegment>

    ghost predicate Valid()
      reads this
    {
      segments.Length == MaxCmeSegments && 0 <= len <= MaxCmeSegments
    }

    function Contents(): seq<CmeSegment>
      reads this, segments
      requires Valid()
    {
      segments[..len]
    }

    /** create_timeline: all cubes' pairs, sorted by the comparator. The capacity of
        1000 pairs is not checked by the walk, so it is required here. */
    constructor Create(days: seq<BoundaryData>)
      requires forall b :: b in days ==> b.Valid()
      requires |Emitted(days, |days|)| <= MaxCmeSegments
      ensures Valid() && fresh(segments)
      ensures len == |old(Emitted(days, |days|))|
      ensures Sorted(Contents())
      ensures multiset(Contents()) == multiset(old(Emitted(days, |days|)))
    {
      ghost var emitted := Emitted(days, |days|);
      var a := new CmeSegment[MaxCmeSegments];
      var n := FillTimeline(a, days);
      assert a[..n] == emitted;
      SortTimeline(a, n);
      len, segments := n, a;
    }

    /** get_cme_index_by_pluto_time: the first segment holding t, or -1; nothing changes. */
    method IndexByPlutoTime(t: real) returns (idx: int)
      requires Valid()
      ensures idx == Lookup(Contents(), t, 0)
      ensures -1 <= idx < len
    {
      idx := -1;
      var i := 0;
      while i < len
        invariant 0 <= i <= len
        invariant Lookup(Contents(), t, 0) == Lookup(Contents(), t, i)
      {
        if t >= segments[i].leftTime && t <= segments[i].rightTime {
          idx := i;
          break;
        }
        i := i + 1;
      }
      LookupFirstMatch(Contents(), t, 0);
    }
  }
}
