/** Grid constants, flat cube indexing, time conversion, the observation-hour
    parser and the mapping of a process's local cell indices onto the global
    60 x 180 latitude/longitude grid. */
module Utils {

  /** Fixed resolution of the measurement cube. */
  const LatitudeDim: int := 60
  const LongitudeDim: int := 180
  /** Number of cells in one frame: 180 longitude bins times 60 latitude bins. */
  const FrameCells: int := 10800
  /** Seconds in one day: the unit of the simulation clock. */
  const SecondsPerDay: real := 86400.0

  /** Converts a cube time stamp in seconds into simulation time (days). */
  function ConvertToPlutoTime(time: real): (days: real)
    ensures days * SecondsPerDay == time
  {
    time / SecondsPerDay
  }

  lemma ConvertWholeDays(d: real)
    ensures ConvertToPlutoTime(SecondsPerDay * d) == d
  {
  }

  lemma ConvertMonotone(a: real, b: real)
    requires a <= b
    ensures ConvertToPlutoTime(a) <= ConvertToPlutoTime(b)
  {
  }

  /** Frame-major flat index: frame, then longitude bin k, then latitude bin j. */
  function DataIndex(frame: int, k: int, j: int): (idx: int)
    ensures 0 <= frame && 0 <= k < LongitudeDim && 0 <= j < LatitudeDim ==>
              frame * FrameCells <= idx < (frame + 1) * FrameCells
  {
    (frame * 180 + k) * 60 + j
  }

  /** A frame of a cube with `ntime` frames lies inside the cube's cells. */
  lemma FrameFits(frame: int, ntime: int)
    requires 0 <= frame < ntime
    ensures 0 <= frame * FrameCells && (frame + 1) * FrameCells <= ntime * FrameCells
  {
  }

  /** Two in-range triples share a flat index only if they are the same triple. */
  lemma DataIndexInjective(f1: int, k1: int, j1: int, f2: int, k2: int, j2: int)
    requires 0 <= k1 < LongitudeDim && 0 <= j1 < LatitudeDim
    requires 0 <= k2 < LongitudeDim && 0 <= j2 < LatitudeDim
    requires DataIndex(f1, k1, j1) == DataIndex(f2, k2, j2)
    ensures f1 == f2 && k1 == k2 && j1 == j2
  {
    assert (f1 * 180 + k1) * 60 + j1 == (f2 * 180 + k2) * 60 + j2;
    assert j1 == j2 by {
      assert ((f1 * 180 + k1) - (f2 * 180 + k2)) * 60 == j2 - j1;
    }
    assert f1 * 180 + k1 == f2 * 180 + k2;
    assert k1 == k2 by {
      assert (f1 - f2) * 180 == k2 - k1;
    }
  }

  function Min(x: int, y: int): (r: int)
    ensures r <= x && r <= y
    ensures r == x || r == y
  {
    if x < y then x else y
  }

  function Max(x: int, y: int): (r: int)
    ensures r >= x && r >= y
    ensures r == x || r == y
  {
    if x < y then y else x
  }

  predicate IsDigit(c: char) {
    '0' <= c <= '9'
  }

  function DigitValue(c: char): int
    requires IsDigit(c)
  {
    c as int - '0' as int
  }

  /** The characters C's isspace accepts before a number. */
  predicate IsSpace(c: char) {
    c == ' ' || c == '\t' || c == '\n' || c == '\r' || c as int == 11 || c as int == 12
  }

  /** C's atoi applied to the two-character string c1 c2: leading white space
      and one sign are accepted, the digits that follow are read, and parsing
      stops at the first character that is not a digit. */
  function AtoiTwo(c1: char, c2: char): (n: int)
    ensures -9 <= n <= 99
    ensures IsDigit(c1) && IsDigit(c2) ==> n == 10 * DigitValue(c1) + DigitValue(c2)
    ensures !IsDigit(c1) && !IsDigit(c2) ==> n == 0
  {
    if IsDigit(c1) then
      (if IsDigit(c2) then 10 * DigitValue(c1) + DigitValue(c2) else DigitValue(c1))
    else if IsDigit(c2) && IsSpace(c1) then DigitValue(c2)
    else if IsDigit(c2) && c1 == '+' then DigitValue(c2)
    else if IsDigit(c2) && c1 == '-' then -DigitValue(c2)
    else 0
  }

  /** The hour of an "obsdate_cal" calendar string: characters 11 and 12 read as a number. */
  function ObsdateHour(date: string): (hour: int)
    requires |date| >= 13
    ensures -9 <= hour <= 99
    ensures IsDigit(date[11]) && IsDigit(date[12]) ==>
              hour == 10 * DigitValue(date[11]) + DigitValue(date[12])
  {
    AtoiTwo(date[11], date[12])
  }

  function ObsdateCalToSecondsFromMidnight(date: string): (seconds: int)
    requires |date| >= 13
    ensures seconds % 3600 == 0
    ensures IsDigit(date[11]) && IsDigit(date[12]) ==>
              seconds == (10 * DigitValue(date[11]) + DigitValue(date[12])) * 3600
  {
    ObsdateHour(date) * 60 * 60
  }

  /** Only characters 11 and 12 of the calendar string matter. */
  lemma ObsdateReadsOnlyHourCharacters(a: string, b: string)
    requires |a| >= 13 && |b| >= 13
    requires a[11] == b[11] && a[12] == b[12]
    ensures ObsdateCalToSecondsFromMidnight(a) == ObsdateCalToSecondsFromMidnight(b)
  {
  }

  // ---------------------------------------------------------------------------
  // Local-to-global index mapping

  /** Number of longitude pieces the 180 bins are cut into by the domain decomposition. */
  function PiecesK(nx3: int): int
    requires 0 < nx3 <= LongitudeDim
  {
    180 / nx3
  }

  /** Global latitude before clamping: local index minus the two ghost cells plus
      the offset of this rank's piece. */
  function RawGlobalJ(localJ: int, prank: int, nx2: int, nx3: int): int
    requires prank >= 0 && 0 < nx3 <= LongitudeDim
  {
    localJ - 2 + prank / PiecesK(nx3) * nx2
  }

  /** Global longitude before wrapping. */
  function RawGlobalK(localK: int, prank: int, nx3: int): int
    requires prank >= 0 && 0 < nx3 <= LongitudeDim
  {
    localK - 2 + prank % PiecesK(nx3) * nx3
  }

  /** Clamps a latitude index into [0, 59]. */
  function ClampLatitude(j: int): (r: int)
    ensures 0 <= r < LatitudeDim
    ensures 0 <= j < LatitudeDim ==> r == j
    ensures j < 0 ==> r == 0
    ensures j >= LatitudeDim ==> r == LatitudeDim - 1
  {
    if j < 0 then 0 else if j > 59 then 59 else j
  }

  function GlobalJ(localJ: int, prank: int, nx2: int, nx3: int): int
    requires prank >= 0 && 0 < nx3 <= LongitudeDim
  {
    ClampLatitude(RawGlobalJ(localJ, prank, nx2, nx3))
  }

  /** Wraps a longitude index into [0, 179]; the reference is Euclidean remainder. */
  function GlobalK(localK: int, prank: int, nx3: int): int
    requires prank >= 0 && 0 < nx3 <= LongitudeDim
  {
    RawGlobalK(localK, prank, nx3) % LongitudeDim
  }

  /** The out-parameters global_j and global_k: latitude is clamped, longitude
      is wrapped by repeatedly adding or subtracting 180. */
  method MapToGlobalIndexes(localJ: int, localK: int, prank: int, nx2: int, nx3: int)
    returns (globalJ: int, globalK: int)
    requires prank >= 0 && 0 < nx3 <= LongitudeDim
    ensures 0 <= globalJ < LatitudeDim && 0 <= globalK < LongitudeDim
    ensures globalJ == GlobalJ(localJ, prank, nx2, nx3)
    ensures globalK == GlobalK(localK, prank, nx3)
    ensures (globalK - RawGlobalK(localK, prank, nx3)) % LongitudeDim == 0
  {
    var totalPiecesK := 180 / nx3;
    globalJ := localJ - 2 + prank / totalPiecesK * nx2;
    globalK := localK - 2 + prank % totalPiecesK * nx3;
    if globalJ < 0 {
      globalJ := 0;
    }
    if globalJ > 59 {
      globalJ := 59;
    }
    ghost var raw := globalK;
    ghost var turns: int := 0;
    while globalK < 0
      invariant globalK == raw + 180 * turns
      invariant globalK < 0 ==> turns >= 0
      invariant globalK >= 0 ==> globalK < 180 || turns == 0
      decreases -globalK
    {
      globalK := globalK + 180;
      turns := turns + 1;
    }
    while globalK > 179
      invariant globalK == raw + 180 * turns
      invariant globalK >= 0
      decreases globalK
    {
      globalK := globalK - 180;
      turns := turns - 1;
    }
    WrapByTurns(raw, turns);
  }

  /** If adding whole turns of 180 lands in [0, 180), the result is the Euclidean remainder. */
  lemma WrapByTurns(raw: int, turns: int)
    requires 0 <= raw + 180 * turns < 180
    ensures raw + 180 * turns == raw % 180
  {
    var q := raw / 180;
    assert raw == 180 * q + raw % 180;
    assert 180 * (turns + q) == raw + 180 * turns - raw % 180;
    assert -180 < 180 * (turns + q) < 180;
    assert turns + q == 0;
  }

  /** In-range longitudes are left as they are; every result is congruent to the raw value. */
  lemma GlobalKProperties(localK: int, prank: int, nx3: int)
    requires prank >= 0 && 0 < nx3 <= LongitudeDim
    ensures 0 <= GlobalK(localK, prank, nx3) < LongitudeDim
    ensures var raw := RawGlobalK(localK, prank, nx3);
              0 <= raw < LongitudeDim ==> GlobalK(localK, prank, nx3) == raw
    ensures (GlobalK(localK, prank, nx3) - RawGlobalK(localK, prank, nx3)) % LongitudeDim == 0
  {
  }
}
