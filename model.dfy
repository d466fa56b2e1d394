/** Interpolation of the boundary values: the longitude rotation of the Sun
    between a frame's time and the simulation time, the linear blend, the time
    normalisation, the radial rescaling, and the ambient and event interpolators. */
module Model {
  import opened Utils
  import opened Bnd

  /** Values the host supplies: the angular velocity of its rotating frame and its pi. */
  datatype Host = Host(omegaZ: real, pi: real)

  predicate ValidHost(host: Host) {
    host.pi != 0.0
  }

  /** The five boundary quantities of one cell. */
  datatype Values = Values(d: real, v1: real, t: real, b1: real, b3: real)

  /** Outcome of an interpolation that aborts when the blend weight leaves [-1, 1]. */
  datatype Interpolated = Ok(v: Values) | CoefError(q: real)

  /** Carrington sidereal rotation period, in days. */
  const CarringtonPeriod: real := 25.38

  function Abs(x: real): (r: real)
    ensures r >= 0.0 && (r == x || r == -x)
  {
    if x < 0.0 then -x else x
  }

  // ---------------------------------------------------------------------------
  // rotate_bc

  /** Longitude bin k moved back by the Carrington rotation over t days and forward by
      the rotation of the host's frame, before wrapping. */
  function Shift(k: real, t: real, host: Host): real
    requires ValidHost(host)
  {
    k - 180.0 * t / CarringtonPeriod + t * 180.0 * host.omegaZ / (2.0 * host.pi)
  }

  /** Whole turns of 180 that bring x into [0, 180). */
  function Turns(x: real): int {
    -((x / 180.0).Floor)
  }

  /** x wrapped into [0, 180) by whole turns of 180. */
  function WrapLon(x: real): (r: real)
    ensures 0.0 <= r < 180.0
    ensures ((r - x) / 180.0).Floor as real * 180.0 == r - x
  {
    var n := (x / 180.0).Floor;
    assert n as real <= x / 180.0 < n as real + 1.0;
    x + 180.0 * Turns(x) as real
  }

  /** The wrap is the only value in [0, 180) a whole number of turns away from x. */
  lemma WrapLonUnique(x: real, y: real, turns: int)
    requires 0.0 <= y < 180.0 && y == x + 180.0 * turns as real
    ensures y == WrapLon(x)
  {
    var m := turns - Turns(x);
    assert y - WrapLon(x) == 180.0 * m as real;
    assert -180.0 < 180.0 * m as real < 180.0;
    assert m == 0;
  }

  /** Values already in [0, 180) are left alone. */
  lemma WrapLonInRange(x: real)
    requires 0.0 <= x < 180.0
    ensures WrapLon(x) == x
  {
    WrapLonUnique(x, x, 0);
  }

  /** The rotated longitude bin rotate_bc computes. */
  function Rotation(k: real, t: real, host: Host): (r: real)
    requires ValidHost(host)
    ensures 0.0 <= r < 180.0
    ensures ((r - Shift(k, t, host)) / 180.0).Floor as real * 180.0 == r - Shift(k, t, host)
  {
    WrapLon(Shift(k, t, host))
  }

  /** No time, no rotation: an in-range bin is its own rotation. */
  lemma RotationAtZero(k: real, host: Host)
    requires ValidHost(host) && 0.0 <= k < 180.0
    ensures Rotation(k, 0.0, host) == k
  {
    assert Shift(k, 0.0, host) == k;
    WrapLonInRange(k);
  }

  /** rotate_bc: the shift, then 180 added while negative and subtracted while 180 or more. */
  method RotateBc(k: real, t: real, host: Host) returns (r: real)
    requires ValidHost(host)
    ensures r == Rotation(k, t, host)
    ensures 0.0 <= r < 180.0
  {
    r := k;
    r := r - 180.0 * t / CarringtonPeriod;
    r := r + t * 180.0 * host.omegaZ / (2.0 * host.pi);
    ghost var shifted := Shift(k, t, host);
    assert r == shifted;
    ghost var turns := 0;
    while r < 0.0
      invariant r == shifted + 180.0 * turns as real
      invariant r < 0.0 ==> turns >= 0
      invariant r >= 0.0 ==> r < 180.0 || turns == 0
      decreases if r < 0.0 then (-r).Floor + 1 else 0
    {
      r := r + 180.0;
      turns := turns + 1;
    }
    while r >= 180.0
      invariant r == shifted + 180.0 * turns as real
      invariant r >= 0.0
      decreases r.Floor
    {
      r := r - 180.0;
      turns := turns - 1;
    }
    WrapLonUnique(shifted, r, turns);
  }

  // ---------------------------------------------------------------------------
  // lerp, normalize_time, normalize

  function Lerp(a: real, b: real, s: real): real {
    a * (1.0 - s) + b * s
  }

  /** The blend starts at a, ends at b, and is constant between equal values. */
  lemma LerpEnds(a: real, b: real, s: real)
    ensures Lerp(a, b, 0.0) == a && Lerp(a, b, 1.0) == b && Lerp(a, a, s) == a
  {
  }

  /** The blend is a plus the weighted difference. */
  lemma LerpAsOffset(a: real, b: real, s: real)
    ensures Lerp(a, b, s) == a + (b - a) * s
  {
    assert a * (1.0 - s) == a - a * s;
    assert (b - a) * s == b * s - a * s;
  }

  /** Blending from a to b with weight s is blending from b to a with weight 1 - s. */
  lemma LerpSwap(a: real, b: real, s: real)
    ensures Lerp(a, b, s) == Lerp(b, a, 1.0 - s)
  {
  }

  /** A non-negative amount scaled by a weight in [0, 1] stays between 0 and the amount. */
  lemma ScaleByWeight(c: real, s: real)
    requires c >= 0.0 && 0.0 <= s <= 1.0
    ensures 0.0 <= c * s <= c
  {
    assert c - c * s == c * (1.0 - s);
  }

  lemma LerpOrdered(lo: real, hi: real, s: real)
    requires lo <= hi && 0.0 <= s <= 1.0
    ensures lo <= Lerp(lo, hi, s) <= hi
  {
    LerpAsOffset(lo, hi, s);
    ScaleByWeight(hi - lo, s);
  }

  /** For weights in [0, 1] the blend stays between its two ends. */
  lemma LerpBetween(a: real, b: real, s: real)
    requires 0.0 <= s <= 1.0
    ensures a <= b ==> a <= Lerp(a, b, s) <= b
    ensures b <= a ==> b <= Lerp(a, b, s) <= a
  {
    if a <= b {
      LerpOrdered(a, b, s);
    }
    if b <= a {
      LerpSwap(a, b, s);
      LerpOrdered(b, a, 1.0 - s);
    }
  }

  /** Dividing by d and multiplying back gives the original amount. */
  lemma DivThenMul(x: real, d: real)
    requires d != 0.0
    ensures (x / d) * d == x
  {
  }

  /** A product with a positive factor is non-negative only if the other factor is. */
  lemma NonNegativeFactor(x: real, d: real)
    requires d > 0.0 && x * d >= 0.0
    ensures x >= 0.0
  {
  }

  function NormalizeTime(t: real, left: real, right: real): real
    requires right != left
  {
    (t - left) / (right - left)
  }

  /** The normalised time is the blend weight that reproduces t from the two ends. */
  lemma NormalizeTimeInverse(t: real, left: real, right: real)
    requires right != left
    ensures Lerp(left, right, NormalizeTime(t, left, right)) == t
    ensures NormalizeTime(left, left, right) == 0.0 && NormalizeTime(right, left, right) == 1.0
  {
    var q := NormalizeTime(t, left, right);
    DivThenMul(t - left, right - left);
    LerpAsOffset(left, right, q);
    var d := right - left;
    assert d / d == 1.0;
  }

  /** Between the two ends the normalised time lies in [0, 1]. */
  lemma NormalizeTimeInUnit(t: real, left: real, right: real)
    requires left < right && left <= t <= right
    ensures 0.0 <= NormalizeTime(t, left, right) <= 1.0
  {
    var d := right - left;
    var q := NormalizeTime(t, left, right);
    DivThenMul(t - left, d);
    NonNegativeFactor(q, d);
    assert (1.0 - q) * d == d - (t - left);
    NonNegativeFactor(1.0 - q, d);
  }

  /** Radial rescaling to the boundary radius x1: density and both field components by
      (0.1 / x1)^2, temperature by 0.1 / x1, velocity untouched. */
  function Normalize(v: Values, x1: real): (r: Values)
    requires x1 != 0.0
    ensures r.v1 == v.v1
    ensures r.t * x1 == 0.1 * v.t
    ensures r.d * (x1 * x1) == 0.1 * 0.1 * v.d
    ensures r.b1 * (x1 * x1) == 0.1 * 0.1 * v.b1 && r.b3 * (x1 * x1) == 0.1 * 0.1 * v.b3
  {
    var coef1 := 0.1 / x1;
    var coef2 := 0.1 * 0.1 / (x1 * x1);
    Values(v.d * coef2, v.v1, v.t * coef1, v.b1 * coef2, v.b3 * coef2)
  }

  /** At the reference radius 0.1 the rescaling is the identity. */
  lemma NormalizeAtReference(v: Values)
    ensures Normalize(v, 0.1) == v
  {
  }

  function LerpValues(a: Values, b: Values, s: real): Values {
    Values(Lerp(a.d, b.d, s), Lerp(a.v1, b.v1, s), Lerp(a.t, b.t, s), Lerp(a.b1, b.b1, s), Lerp(a.b3, b.b3, s))
  }

  lemma LerpValuesEnds(a: Values, b: Values)
    ensures LerpValues(a, b, 0.0) == a && LerpValues(a, b, 1.0) == b
  {
    LerpEnds(a.d, b.d, 0.0);
  }

  // ---------------------------------------------------------------------------
  // Reading a cube

  /** The five quantities stored at cell (k, j) of a frame. */
  function Cell(data: BoundaryData, frame: int, k: int, j: int): (v: Values)
    reads data, data.D, data.V1, data.T, data.B1, data.B3
    requires data.Valid() && 0 <= frame < data.ntime
    requires 0 <= k < LongitudeDim && 0 <= j < LatitudeDim
  {
    FrameFits(frame, data.ntime);
    var idx := DataIndex(frame, k, j);
    Values(data.D[idx], data.V1[idx], data.T[idx], data.B1[idx], data.B3[idx])
  }

  /** The two longitude bins and the weight interpolate_vars uses for a rotated bin kk:
      kk0 is kk truncated (the floor, kk being non-negative), kk1 the next bin but never
      past 179, and s the fractional part. */
  function Bins(kk: real): (r: (int, int, real))
    requires 0.0 <= kk < 180.0
    ensures 0 <= r.0 < LongitudeDim && 0 <= r.1 < LongitudeDim
    ensures r.1 == (if r.0 == LongitudeDim - 1 then LongitudeDim - 1 else r.0 + 1)
    ensures 0.0 <= r.2 < 1.0 && r.0 as real + r.2 == kk
  {
    var kk0 := kk.Floor;
    (kk0, Min(179, kk0 + 1), kk - kk0 as real)
  }

  /** interpolate_vars: the blend of the two bins around kk at latitude jj of a frame. */
  function InterpolateVars(data: BoundaryData, kk: real, jj: int, frame: int): Values
    reads data, data.D, data.V1, data.T, data.B1, data.B3
    requires data.Valid() && 0 <= frame < data.ntime
    requires 0.0 <= kk < 180.0 && 0 <= jj < LatitudeDim
  {
    var (kk0, kk1, s) := Bins(kk);
    LerpValues(Cell(data, frame, kk0, jj), Cell(data, frame, kk1, jj), s)
  }

  /** A whole bin reads its own cell exactly. */
  lemma InterpolateVarsAtBin(data: BoundaryData, k: int, jj: int, frame: int)
    requires data.Valid() && 0 <= frame < data.ntime
    requires 0 <= k < LongitudeDim && 0 <= jj < LatitudeDim
    ensures InterpolateVars(data, k as real, jj, frame) == Cell(data, frame, k, jj)
  {
    var (kk0, kk1, s) := Bins(k as real);
    assert kk0 == k && s == 0.0;
    LerpValuesEnds(Cell(data, frame, kk0, jj), Cell(data, frame, kk1, jj));
  }

  /** Past the last whole bin the blend does not wrap to bin 0: bin 179 is paired with itself. */
  lemma InterpolateVarsLastBin(data: BoundaryData, kk: real, jj: int, frame: int)
    requires data.Valid() && 0 <= frame < data.ntime
    requires 179.0 <= kk < 180.0 && 0 <= jj < LatitudeDim
    ensures InterpolateVars(data, kk, jj, frame) == Cell(data, frame, LongitudeDim - 1, jj)
  {
    var (kk0, kk1, s) := Bins(kk);
    assert kk0 == 179 && kk1 == 179;
    var c := Cell(data, frame, 179, jj);
    LerpEnds(c.d, c.d, s);
    LerpEnds(c.v1, c.v1, s);
    LerpEnds(c.t, c.t, s);
    LerpEnds(c.b1, c.b1, s);
    LerpEnds(c.b3, c.b3, s);
  }

  // ---------------------------------------------------------------------------
  // interpolate_ambient and interpolate_cme

  /** Simulation time of a frame of the cube, without the cube's offset. */
  function FrameTime(data: BoundaryData, frame: int): real
    reads data, data.TIME
    requires data.Valid() && 0 <= frame < data.ntime
  {
    ConvertToPlutoTime(data.TIME[frame])
  }

  /** interpolate_ambient: the background frame rotated from its own time to t,
      interpolated at (k, j), then rescaled to x1. */
  function InterpolateAmbient(data: BoundaryData, k: int, j: int, t: real, x1: real, host: Host): Values
    reads data, data.D, data.V1, data.T, data.B1, data.B3, data.TIME
    requires data.Valid() && ValidHost(host) && x1 != 0.0 && 0 <= j < LatitudeDim
  {
    var bkgFrameTime := FrameTime(data, data.bkgFrame);
    var kk := Rotation(k as real, -bkgFrameTime + t, host);
    Normalize(InterpolateVars(data, kk, j, data.bkgFrame), x1)
  }

  /** At the background frame's own time the ambient value is the rescaled stored cell. */
  lemma AmbientAtBkgTime(data: BoundaryData, k: int, j: int, x1: real, host: Host)
    requires data.Valid() && ValidHost(host) && x1 != 0.0
    requires 0 <= k < LongitudeDim && 0 <= j < LatitudeDim
    ensures InterpolateAmbient(data, k, j, FrameTime(data, data.bkgFrame), x1, host) ==
            Normalize(Cell(data, data.bkgFrame, k, j), x1)
  {
    var bkgFrameTime := FrameTime(data, data.bkgFrame);
    assert -bkgFrameTime + bkgFrameTime == 0.0;
    RotationAtZero(k as real, host);
    InterpolateVarsAtBin(data, k, j, data.bkgFrame);
  }

  /** Only the background frame is read: two cubes with the same background frame, the
      same time there and the same cells there give the same ambient values. */
  lemma AmbientReadsOnlyBkgFrame(a: BoundaryData, b: BoundaryData, k: int, j: int, t: real, x1: real, host: Host)
    requires a.Valid() && b.Valid() && ValidHost(host) && x1 != 0.0 && 0 <= j < LatitudeDim
    requires a.bkgFrame == b.bkgFrame && FrameTime(a, a.bkgFrame) == FrameTime(b, b.bkgFrame)
    requires forall kk :: 0 <= kk < LongitudeDim ==> Cell(a, a.bkgFrame, kk, j) == Cell(b, b.bkgFrame, kk, j)
    ensures InterpolateAmbient(a, k, j, t, x1, host) == InterpolateAmbient(b, k, j, t, x1, host)
  {
    var kk := Rotation(k as real, -FrameTime(a, a.bkgFrame) + t, host);
    var (kk0, kk1, s) := Bins(kk);
    assert Cell(a, a.bkgFrame, kk0, j) == Cell(b, b.bkgFrame, kk0, j);
    assert Cell(a, a.bkgFrame, kk1, j) == Cell(b, b.bkgFrame, kk1, j);
  }

  /** interpolate_cme: both frames rotated to t and interpolated at (k, j), blended by the
      normalised time q between the two frame times, then rescaled; |q| > 1 aborts. */
  function InterpolateCme(data: BoundaryData, leftFrame: int, rightFrame: int, k: int, j: int,
                          t: real, x1: real, host: Host): (r: Interpolated)
    reads data, data.D, data.V1, data.T, data.B1, data.B3, data.TIME
    requires data.Valid() && ValidHost(host) && x1 != 0.0 && 0 <= j < LatitudeDim
    requires 0 <= leftFrame < data.ntime && 0 <= rightFrame < data.ntime
    requires FrameTime(data, leftFrame) != FrameTime(data, rightFrame)
    ensures r.CoefError? <==> Abs(NormalizeTime(t, FrameTime(data, leftFrame), FrameTime(data, rightFrame))) > 1.0
  {
    var leftTime := FrameTime(data, leftFrame);
    var rightTime := FrameTime(data, rightFrame);
    var kkCur := Rotation(k as real, t - leftTime, host);
    var kkNext := Rotation(k as real, -rightTime + t, host);
    var cur := InterpolateVars(data, kkCur, j, leftFrame);
    var next := InterpolateVars(data, kkNext, j, rightFrame);
    var q := NormalizeTime(t, leftTime, rightTime);
    if Abs(q) > 1.0 then CoefError(q)
    else Ok(Normalize(LerpValues(cur, next, q), x1))
  }

  /** Inside the two frames' time span the event interpolation never aborts. */
  lemma CmeWithinSpan(data: BoundaryData, leftFrame: int, rightFrame: int, k: int, j: int,
                      t: real, x1: real, host: Host)
    requires data.Valid() && ValidHost(host) && x1 != 0.0 && 0 <= j < LatitudeDim
    requires 0 <= leftFrame < data.ntime && 0 <= rightFrame < data.ntime
    requires FrameTime(data, leftFrame) < FrameTime(data, rightFrame)
    requires FrameTime(data, leftFrame) <= t <= FrameTime(data, rightFrame)
    ensures InterpolateCme(data, leftFrame, rightFrame, k, j, t, x1, host).Ok?
  {
    NormalizeTimeInUnit(t, FrameTime(data, leftFrame), FrameTime(data, rightFrame));
  }

  /** At the left frame's time the result is the rescaled left-frame cell; at the right
      frame's time, the rescaled right-frame cell. */
  lemma CmeAtFrameTimes(data: BoundaryData, leftFrame: int, rightFrame: int, k: int, j: int,
                        x1: real, host: Host)
    requires data.Valid() && ValidHost(host) && x1 != 0.0
    requires 0 <= k < LongitudeDim && 0 <= j < LatitudeDim
    requires 0 <= leftFrame < data.ntime && 0 <= rightFrame < data.ntime
    requires FrameTime(data, leftFrame) != FrameTime(data, rightFrame)
    ensures InterpolateCme(data, leftFrame, rightFrame, k, j, FrameTime(data, leftFrame), x1, host) ==
            Ok(Normalize(Cell(data, leftFrame, k, j), x1))
    ensures InterpolateCme(data, leftFrame, rightFrame, k, j, FrameTime(data, rightFrame), x1, host) ==
            Ok(Normalize(Cell(data, rightFrame, k, j), x1))
  {
    var lt, rt := FrameTime(data, leftFrame), FrameTime(data, rightFrame);
    NormalizeTimeInverse(lt, lt, rt);
    NormalizeTimeInverse(rt, lt, rt);
    assert lt - lt == 0.0 && -rt + rt == 0.0;
    RotationAtZero(k as real, host);
    InterpolateVarsAtBin(data, k, j, leftFrame);
    InterpolateVarsAtBin(data, k, j, rightFrame);
    LerpValuesEnds(Cell(data, leftFrame, k, j), InterpolateVars(data, Rotation(k as real, -rt + lt, host), j, rightFrame));
    LerpValuesEnds(InterpolateVars(data, Rotation(k as real, rt - lt, host), j, leftFrame), Cell(data, rightFrame, k, j));
  }
}
