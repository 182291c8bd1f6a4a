/** The night-hours helper of the monthly pay handler: how much of a work
    interval falls into the two fixed night windows anchored to the local
    calendar day of the interval's start. */
module Night {
  import opened Base

  /** A half-open window [from, until) of timestamps. */
  datatype Window = Window(from: int, until: int)

  /** The two windows of the start's day: 00:00-06:00, and 22:00 to 06:00 of the next day. */
  function NightWindows(start: int): (ws: seq<Window>)
    ensures |ws| == 2
    ensures ws[0].from == DayStart(start) && ws[0].until == ws[0].from + 6 * MsPerHour
    ensures ws[1].from == ws[0].from + 22 * MsPerHour && ws[1].until == ws[0].from + 30 * MsPerHour
  {
    var day := DayStart(start);
    [Window(day, day + 6 * MsPerHour), Window(day + 22 * MsPerHour, day + MsPerDay + 6 * MsPerHour)]
  }

  /** Length of the intersection of [start, end) with `w`, or 0 when they do not meet. */
  function Clip(start: int, end: int, w: Window): (ms: int)
    ensures 0 <= ms
    ensures ms > 0 <==> Max(start, w.from) < Min(end, w.until)
  {
    var lo := Max(start, w.from);
    var hi := Min(end, w.until);
    if lo < hi then hi - lo else 0
  }

  /** Sum of the clipped lengths over a list of windows, taken left to right. */
  function ClipSum(start: int, end: int, ws: seq<Window>): int
  {
    if ws == [] then 0 else ClipSum(start, end, ws[..|ws| - 1]) + Clip(start, end, ws[|ws| - 1])
  }

  /** Night milliseconds of [start, end), as the loop over the two windows accumulates them. */
  function NightMs(start: int, end: int): int
  {
    ClipSum(start, end, NightWindows(start))
  }

  /** Night hours of [start, end) (the helper's return value). */
  function NightHours(start: int, end: int): real
  {
    NightMs(start, end) as real / MsPerHour as real
  }

  /** The helper itself: accumulate the overlap with each window, then convert to hours. */
  method NightOverlap(start: int, end: int) returns (hours: real)
    ensures hours == NightHours(start, end)
  {
    var overlapMillis := 0;
    var ranges := NightWindows(start);
    for i := 0 to |ranges|
      invariant overlapMillis == ClipSum(start, end, ranges[..i])
    {
      var maxStart := Max(start, ranges[i].from);
      var minEnd := Min(end, ranges[i].until);
      if maxStart < minEnd {
        overlapMillis := overlapMillis + (minEnd - maxStart);
      }
      assert ranges[..i + 1][..i] == ranges[..i];
    }
    assert ranges[..|ranges|] == ranges;
    hours := overlapMillis as real / MsPerHour as real;
  }

  lemma NightMsUnfold(start: int, end: int)
    ensures NightMs(start, end)
         == Clip(start, end, NightWindows(start)[0]) + Clip(start, end, NightWindows(start)[1])
  {
    var ws := NightWindows(start);
    assert ws[..|ws| - 1] == ws[..1];
    assert ws[..1][..0] == [];
    assert ClipSum(start, end, ws[..1]) == Clip(start, end, ws[0]);
  }

  // ---------------------------------------------------------------------------
  // Properties of the night measure

  /** Never negative, and never more than the interval's own length. */
  lemma NightMsBounds(start: int, end: int)
    ensures 0 <= NightMs(start, end)
    ensures start <= end ==> NightMs(start, end) <= end - start
  {
    NightMsUnfold(start, end);
  }

  /** At most the 6 + 8 hours the two windows span together. */
  lemma NightMsAtMostFourteenHours(start: int, end: int)
    ensures NightMs(start, end) <= 14 * MsPerHour
  {
    NightMsUnfold(start, end);
  }

  /** An empty or reversed interval has no night time. */
  lemma NightMsOfEmptyInterval(start: int, end: int)
    requires end <= start
    ensures NightMs(start, end) == 0
  {
    NightMsUnfold(start, end);
  }

  /** An interval within 06:00-22:00 of its start's day has no night time. */
  lemma NightMsOfDaytime(start: int, end: int)
    requires DayStart(start) + 6 * MsPerHour <= start
    requires end <= DayStart(start) + 22 * MsPerHour
    ensures NightMs(start, end) == 0
  {
    NightMsUnfold(start, end);
  }

  /** An interval within 00:00-06:00 of its start's day is night time throughout. */
  lemma NightMsOfEarlyMorning(start: int, end: int)
    requires start <= end <= DayStart(start) + 6 * MsPerHour
    ensures NightMs(start, end) == end - start
  {
    NightMsUnfold(start, end);
  }

  /** An interval from 22:00 up to 06:00 of the next day is night time throughout. */
  lemma NightMsOfOvernight(start: int, end: int)
    requires DayStart(start) + 22 * MsPerHour <= start <= end
    requires end <= DayStart(start) + 30 * MsPerHour
    ensures NightMs(start, end) == end - start
  {
    NightMsUnfold(start, end);
  }

  // ---------------------------------------------------------------------------
  // An independent reference: counting night instants

  /** Whether instant `t` lies in one of the night windows anchored at midnight `day`. */
  predicate InNight(day: int, t: int)
  {
    (day <= t < day + 6 * MsPerHour) || (day + 22 * MsPerHour <= t < day + 30 * MsPerHour)
  }

  /** The night milliseconds of [start, end), as a set of instants. */
  ghost function NightInstants(start: int, end: int): set<int>
  {
    set t | start <= t < end && InNight(DayStart(start), t)
  }

  /** Extending an interval by one millisecond adds one exactly when that instant is night time. */
  lemma NightMsStep(start: int, end: int)
    requires start < end
    ensures NightMs(start, end)
         == NightMs(start, end - 1) + (if InNight(DayStart(start), end - 1) then 1 else 0)
  {
    NightMsUnfold(start, end);
    NightMsUnfold(start, end - 1);
  }

  /** The loop's sum equals the number of night instants in [start, end). */
  lemma {:induction false} NightMsCountsInstants(start: int, end: int)
    ensures |NightInstants(start, end)| == NightMs(start, end)
    decreases end - start
  {
    if end <= start {
      assert NightInstants(start, end) == {};
      NightMsOfEmptyInterval(start, end);
    } else {
      NightMsCountsInstants(start, end - 1);
      NightMsStep(start, end);
      var last := if InNight(DayStart(start), end - 1) then {end - 1} else {};
      assert NightInstants(start, end) == NightInstants(start, end - 1) + last;
      assert end - 1 !in NightInstants(start, end - 1);
    }
  }
}
