/** The duty-hour analyzer: the time-off gaps and shift lengths of a schedule
    inside an analysis window, the four rule scans over them, and the report
    that combines the scans. */
module AnalyzeSchedule {
  import opened Shifts

  /** The hash built by `getTimeOffDurations`, in hours: `timeOff[i]` is the
      time off before shift `i` (plus one trailing entry), `shifts[i]` the
      length of shift `i`. */
  datatype Durations = Durations(timeOff: seq<real>, shifts: seq<real>)

  /** The only failure of the analysis: with a single shift the trailing-gap
      step reads the end of `schedule[i - 1]` at `i = 0`, which does not exist. */
  datatype AnalysisError = MissingPreviousShift

  /** A report field that is either `false` or a nonempty list of schedule indices. */
  datatype Violations = NoViolations | Offenders(indices: seq<nat>)

  datatype Report = Report(
    timeOff: Violations,
    longShifts: Violations,
    enoughTimeOff: bool,
    averageHours: Violations)

  predicate Increasing(r: seq<nat>) {
    forall i, j :: 0 <= i < j < |r| ==> r[i] < r[j]
  }

  /** Putting an index below every element in front of an increasing list
      keeps it increasing. */
  lemma PrependIncreasing(x: nat, rest: seq<nat>)
    requires Increasing(rest)
    requires forall k :: k in rest ==> x < k
    ensures Increasing([x] + rest)
  {
    assert forall i :: 0 <= i < |rest| ==> rest[i] in rest;
  }

  // ---------------------------------------------------------------------------
  // Durations

  /** The time off between consecutive shifts: entry `j` is the gap between
      the end of shift `j` and the start of shift `j + 1`. */
  function BetweenGaps(s: seq<Shift>): (r: seq<real>)
    ensures |r| == if s == [] then 0 else |s| - 1
    ensures forall j :: 0 <= j < |r| ==> r[j] == Hours(s[j + 1].start, s[j].end)
  {
    if |s| < 2 then []
    else BetweenGaps(s[..|s| - 1]) + [Hours(s[|s| - 1].start, s[|s| - 2].end)]
  }

  /** The length of every shift, in order. */
  function ShiftLengths(s: seq<Shift>): (r: seq<real>)
    ensures |r| == |s|
    ensures forall i :: 0 <= i < |s| ==> r[i] == Hours(s[i].end, s[i].start)
  {
    if s == [] then []
    else ShiftLengths(s[..|s| - 1]) + [Hours(s[|s| - 1].end, s[|s| - 1].start)]
  }

  /** What `getTimeOffDurations` produces for a window and a schedule. The
      trailing gap is measured from the end of the second-to-last shift, and a
      one-shift schedule has no such shift. */
  function TimeOffDurations(startDate: Instant, endDate: Instant, schedule: seq<Shift>): (r: Result<Durations, AnalysisError>)
    ensures r.Err? <==> |schedule| == 1
    ensures schedule == [] ==> r == Ok(Durations([], []))
    ensures r.Ok? && schedule != [] ==>
      var n, gaps, lengths := |schedule|, r.value.timeOff, r.value.shifts;
      |gaps| == n + 1 && |lengths| == n &&
      gaps[0] == Hours(schedule[0].start, startDate) &&
      (forall i :: 1 <= i < n ==> gaps[i] == Hours(schedule[i].start, schedule[i - 1].end)) &&
      gaps[n] == Hours(endDate, schedule[n - 2].end) &&
      (forall i :: 0 <= i < n ==> lengths[i] == Hours(schedule[i].end, schedule[i].start))
  {
    var n := |schedule|;
    if n == 0 then Ok(Durations([], []))
    else if n == 1 then Err(MissingPreviousShift)
    else
      var gaps := [Hours(schedule[0].start, startDate)] + BetweenGaps(schedule) + [Hours(endDate, schedule[n - 2].end)];
      assert forall i :: 1 <= i < n ==> gaps[i] == BetweenGaps(schedule)[i - 1];
      Ok(Durations(gaps, ShiftLengths(schedule)))
  }

  /** The loop of `getTimeOffDurations`: per shift, push the gap before it, after
      the last shift push the trailing gap, then push the shift's length. */
  method GetTimeOffDurations(startDate: Instant, endDate: Instant, schedule: seq<Shift>)
    returns (r: Result<Durations, AnalysisError>)
    ensures r == TimeOffDurations(startDate, endDate, schedule)
  {
    var timeOff: seq<real> := [];
    var shifts: seq<real> := [];
    var n := |schedule|;
    var i := 0;
    while i < n
      invariant 0 <= i <= n
      invariant n == 1 ==> i == 0
      invariant i == 0 ==> timeOff == []
      invariant 0 < i < n ==> timeOff == [Hours(schedule[0].start, startDate)] + BetweenGaps(schedule[..i])
      invariant 0 < i == n ==>
        timeOff == [Hours(schedule[0].start, startDate)] + BetweenGaps(schedule[..i]) + [Hours(endDate, schedule[n - 2].end)]
      invariant shifts == ShiftLengths(schedule[..i])
    {
      var timeOffDiff: real;
      if i == 0 {
        timeOffDiff := Hours(schedule[i].start, startDate);
      } else {
        timeOffDiff := Hours(schedule[i].start, schedule[i - 1].end);
      }
      timeOff := timeOff + [timeOffDiff];
      if i == n - 1 {
        if i == 0 {
          return Err(MissingPreviousShift);
        }
        timeOff := timeOff + [Hours(endDate, schedule[i - 1].end)];
      }
      var shiftDiff := Hours(schedule[i].end, schedule[i].start);
      shifts := shifts + [shiftDiff];
      assert schedule[..i + 1][..i] == schedule[..i];
      i := i + 1;
    }
    assert schedule[..n] == schedule;
    r := Ok(Durations(timeOff, shifts));
  }

  // ---------------------------------------------------------------------------
  // Rule scans

  /** The reduce that pushes `base + index` for every entry the callback flags,
      starting from an empty list. */
  function Flagged(xs: seq<real>, flag: real -> bool, base: nat): (r: seq<nat>)
    ensures forall k :: k in r <==> base <= k < base + |xs| && flag(xs[k - base])
    ensures Increasing(r)
  {
    if xs == [] then []
    else
      var rest := Flagged(xs[1..], flag, base + 1);
      var head := if flag(xs[0]) then [base] else [];
      PrependIncreasing(base, rest);
      FlaggedCons(xs, flag, base, head, rest);
      head + rest
  }

  /** One step of the reduce: the indices flagged in the tail, shifted by one,
      plus `base` when the first entry is flagged. */
  lemma FlaggedCons(xs: seq<real>, flag: real -> bool, base: nat, head: seq<nat>, rest: seq<nat>)
    requires xs != [] && head == if flag(xs[0]) then [base] else []
    requires forall k :: k in rest <==> base + 1 <= k < base + |xs| && flag(xs[1..][k - (base + 1)])
    ensures forall k :: k in head + rest <==> base <= k < base + |xs| && flag(xs[k - base])
  {
    forall k ensures k in head + rest <==> base <= k < base + |xs| && flag(xs[k - base]) {
      if base < k < base + |xs| {
        assert xs[1..][k - (base + 1)] == xs[k - base];
      }
    }
  }

  /** `discoverShortTimeOff`: the interior gaps (the first and the trailing gap
      are sliced off) shorter than `timeOffBetween`, reported as the index of
      the shift that follows the gap. */
  function DiscoverShortTimeOff(d: Durations, p: Policy): (r: seq<nat>)
    ensures forall k :: k in r <==> 1 <= k < |d.timeOff| - 1 && d.timeOff[k] < p.timeOffBetween
    ensures Increasing(r)
  {
    var interior := if |d.timeOff| < 2 then [] else d.timeOff[1..|d.timeOff| - 1];
    Flagged(interior, ShortGap(p), 1)
  }

  /** The callback of `discoverShortTimeOff`: a gap shorter than `timeOffBetween`. */
  function ShortGap(p: Policy): real -> bool {
    g => g < p.timeOffBetween
  }

  /** `discoverLongShifts`: the shifts strictly longer than `shiftMaximumLength`. */
  function DiscoverLongShifts(d: Durations, p: Policy): (r: seq<nat>)
    ensures forall k :: k in r <==> 0 <= k < |d.shifts| && d.shifts[k] > p.shiftMaximumLength
    ensures Increasing(r)
  {
    Flagged(d.shifts, LongShift(p), 0)
  }

  /** The callback of `discoverLongShifts`: a length above `shiftMaximumLength`. */
  function LongShift(p: Policy): real -> bool {
    l => l > p.shiftMaximumLength
  }

  /** The reduce of `discoverEnoughTimeOff`: its callback returns the floor of
      the current gap over `unit` and never reads `memo`. */
  function FloorReduce(gaps: seq<real>, unit: real, memo: int): (r: int)
    requires unit != 0.0
    ensures gaps == [] ==> r == memo
    ensures gaps != [] ==> r == (gaps[|gaps| - 1] / unit).Floor
  {
    if gaps == [] then memo else FloorReduce(gaps[1..], unit, (gaps[0] / unit).Floor)
  }

  /** `discoverEnoughTimeOff`: only the last gap decides; with no gaps the
      reduce returns its initial value 0. A `daysOffLength` of zero makes the
      last quotient +Infinity for a positive gap, -Infinity for a negative one
      and NaN for a zero one, so only a positive last gap passes. */
  function DiscoverEnoughTimeOff(d: Durations, p: Policy): (r: bool)
    ensures d.timeOff == [] ==> (r <==> 0.0 >= p.daysOffMonth)
    ensures d.timeOff != [] && p.daysOffLength != 0.0 ==>
      (r <==> (d.timeOff[|d.timeOff| - 1] / p.daysOffLength).Floor as real >= p.daysOffMonth)
    ensures d.timeOff != [] && p.daysOffLength == 0.0 ==> (r <==> d.timeOff[|d.timeOff| - 1] > 0.0)
  {
    if d.timeOff == [] then 0.0 >= p.daysOffMonth
    else if p.daysOffLength == 0.0 then d.timeOff[|d.timeOff| - 1] > 0.0
    else FloorReduce(d.timeOff, p.daysOffLength, 0) as real >= p.daysOffMonth
  }

  /** The sum of the first `n` hours of `xs`, accumulated left to right. */
  function SumTo(xs: seq<real>, n: nat): real
    requires n <= |xs|
  {
    if n == 0 then 0.0 else SumTo(xs, n - 1) + xs[n - 1]
  }

  /** The reduce of `discoverAverageHoursWorked` from `index` on, `total` being
      the running sum of the shifts before `index`. */
  function OffendingFrom(shifts: seq<real>, limit: real, index: nat, total: real): (r: seq<nat>)
    requires index <= |shifts| && total == SumTo(shifts, index)
    decreases |shifts| - index
    ensures forall k :: k in r <==> index <= k < |shifts| && SumTo(shifts, k + 1) > limit
    ensures Increasing(r)
  {
    if index == |shifts| then []
    else
      var t := total + shifts[index];
      var rest := OffendingFrom(shifts, limit, index + 1, t);
      var head := if t > limit then [index] else [];
      PrependIncreasing(index, rest);
      assert [] + rest == rest;
      OffendingCons(shifts, limit, index, head, rest);
      head + rest
  }

  /** One step of the reduce: the offenders after `index`, plus `index` itself
      when the running total including it exceeds the limit. */
  lemma OffendingCons(shifts: seq<real>, limit: real, index: nat, head: seq<nat>, rest: seq<nat>)
    requires index < |shifts|
    requires head == if SumTo(shifts, index + 1) > limit then [index] else []
    requires forall k :: k in rest <==> index + 1 <= k < |shifts| && SumTo(shifts, k + 1) > limit
    ensures forall k :: k in head + rest <==> index <= k < |shifts| && SumTo(shifts, k + 1) > limit
  {
  }

  /** `discoverAverageHoursWorked`: every shift at which the running total of
      hours worked exceeds `hoursMonth`. */
  function DiscoverAverageHoursWorked(d: Durations, p: Policy): (r: seq<nat>)
    ensures forall k :: k in r <==> 0 <= k < |d.shifts| && SumTo(d.shifts, k + 1) > p.hoursMonth
    ensures Increasing(r)
  {
    OffendingFrom(d.shifts, p.hoursMonth, 0, 0.0)
  }

  // ---------------------------------------------------------------------------
  // Report

  /** The indices a report field lists (none for `false`). */
  function Indices(v: Violations): seq<nat> {
    if v.Offenders? then v.indices else []
  }

  /** `(list.length > 0) ? list : false` */
  function AsViolations(xs: seq<nat>): (v: Violations)
    ensures v.NoViolations? <==> xs == []
    ensures Indices(v) == xs
  {
    if |xs| > 0 then Offenders(xs) else NoViolations
  }

  /** `analyze`: the report for a window and a schedule, stated against the
      schedule itself. */
  function Analyze(startDate: Instant, endDate: Instant, schedule: seq<Shift>, p: Policy): (r: Result<Report, AnalysisError>)
    ensures r.Err? <==> |schedule| == 1
    ensures schedule == [] ==>
      r == Ok(Report(NoViolations, NoViolations, 0.0 >= p.daysOffMonth, NoViolations))
  {
    match TimeOffDurations(startDate, endDate, schedule)
    case Err(e) => Err(e)
    case Ok(d) =>
      Ok(Report(
        AsViolations(DiscoverShortTimeOff(d, p)),
        AsViolations(DiscoverLongShifts(d, p)),
        DiscoverEnoughTimeOff(d, p),
        AsViolations(DiscoverAverageHoursWorked(d, p))))
  }

  // ---------------------------------------------------------------------------
  // Properties

  /** `Analyze` unfolded once: for any schedule but a one-shift one, the report
      holds the four scans of the schedule's durations. The field lemmas below
      call it so that none of them unfolds `Analyze` in its own context. */
  lemma AnalyzeReport(startDate: Instant, endDate: Instant, schedule: seq<Shift>, p: Policy)
    requires |schedule| != 1
    ensures TimeOffDurations(startDate, endDate, schedule).Ok?
    ensures var d := TimeOffDurations(startDate, endDate, schedule).value;
      Analyze(startDate, endDate, schedule, p) == Ok(Report(
        AsViolations(DiscoverShortTimeOff(d, p)),
        AsViolations(DiscoverLongShifts(d, p)),
        DiscoverEnoughTimeOff(d, p),
        AsViolations(DiscoverAverageHoursWorked(d, p))))
  {
  }

  lemma {:induction false} SumPrefixMonotone(xs: seq<real>, i: nat, j: nat)
    requires i <= j <= |xs|
    requires forall k :: 0 <= k < |xs| ==> xs[k] >= 0.0
    ensures SumTo(xs, i) <= SumTo(xs, j)
  {
    if i < j {
      SumPrefixMonotone(xs, i, j - 1);
    }
  }

  /** With no negative shift lengths, the shifts flagged for average hours are
      exactly those from the first offender to the last shift. */
  lemma AverageHoursSuffix(d: Durations, p: Policy)
    requires forall k :: 0 <= k < |d.shifts| ==> d.shifts[k] >= 0.0
    ensures var r := DiscoverAverageHoursWorked(d, p);
      r == [] || forall k :: 0 <= k < |d.shifts| ==> (k in r <==> r[0] <= k)
  {
    var r := DiscoverAverageHoursWorked(d, p);
    if r != [] {
      forall k | 0 <= k < |d.shifts|
        ensures k in r <==> r[0] <= k
      {
        assert r[0] in r;
        if r[0] <= k {
          SumPrefixMonotone(d.shifts, r[0] + 1, k + 1);
        }
        if k in r {
          var j :| 0 <= j < |r| && r[j] == k;
          assert j == 0 || r[0] < r[j];
        }
      }
    }
  }

  /** The report's average-hours field, for a schedule whose shifts all end
      after they start, is `false` or the contiguous run of indices from the
      first shift that takes the running total over `hoursMonth` to the last. */
  lemma AnalyzeAverageHoursSuffix(startDate: Instant, endDate: Instant, schedule: seq<Shift>, p: Policy)
    requires |schedule| != 1
    requires forall i :: 0 <= i < |schedule| ==> schedule[i].start <= schedule[i].end
    ensures Analyze(startDate, endDate, schedule, p).Ok?
    ensures var v := Analyze(startDate, endDate, schedule, p).value.averageHours;
      v.NoViolations? ||
      forall k :: 0 <= k < |schedule| ==> (k in v.indices <==> v.indices[0] <= k)
  {
    var d := TimeOffDurations(startDate, endDate, schedule).value;
    AnalyzeReport(startDate, endDate, schedule, p);
    AverageHoursSuffix(d, p);
  }

  /** The report's time-off field lists, in order, exactly the shifts that
      start less than `timeOffBetween` hours after the previous shift ends:
      the gap before the first shift and the trailing gap are never inspected. */
  lemma AnalyzeShortTimeOff(startDate: Instant, endDate: Instant, schedule: seq<Shift>, p: Policy)
    requires |schedule| != 1
    ensures Analyze(startDate, endDate, schedule, p).Ok?
    ensures var v := Analyze(startDate, endDate, schedule, p).value.timeOff;
      (v.Offenders? ==> v.indices != []) && Increasing(Indices(v)) &&
      forall k :: k in Indices(v) <==>
        1 <= k < |schedule| && Hours(schedule[k].start, schedule[k - 1].end) < p.timeOffBetween
  {
    var d := TimeOffDurations(startDate, endDate, schedule).value;
    var r := DiscoverShortTimeOff(d, p);
    AnalyzeReport(startDate, endDate, schedule, p);
    forall k ensures k in r <==> 1 <= k < |schedule| && Hours(schedule[k].start, schedule[k - 1].end) < p.timeOffBetween {
      if 1 <= k < |schedule| {
        assert d.timeOff[k] == Hours(schedule[k].start, schedule[k - 1].end);
      }
    }
  }

  /** The report's long-shift field lists, in order, exactly the shifts longer
      than `shiftMaximumLength`; a shift of exactly the maximum is not listed. */
  lemma AnalyzeLongShifts(startDate: Instant, endDate: Instant, schedule: seq<Shift>, p: Policy)
    requires |schedule| != 1
    ensures Analyze(startDate, endDate, schedule, p).Ok?
    ensures var v := Analyze(startDate, endDate, schedule, p).value.longShifts;
      (v.Offenders? ==> v.indices != []) && Increasing(Indices(v)) &&
      forall k :: k in Indices(v) <==>
        0 <= k < |schedule| && Hours(schedule[k].end, schedule[k].start) > p.shiftMaximumLength
  {
    var d := TimeOffDurations(startDate, endDate, schedule).value;
    var r := DiscoverLongShifts(d, p);
    AnalyzeReport(startDate, endDate, schedule, p);
  }

  /** The report's enough-time-off flag looks only at the trailing gap, which
      runs from the end of the second-to-last shift to the end of the window. */
  lemma AnalyzeEnoughTimeOff(startDate: Instant, endDate: Instant, schedule: seq<Shift>, p: Policy)
    requires |schedule| >= 2
    ensures Analyze(startDate, endDate, schedule, p).Ok?
    ensures var trailing := Hours(endDate, schedule[|schedule| - 2].end);
      Analyze(startDate, endDate, schedule, p).value.enoughTimeOff <==>
        if p.daysOffLength == 0.0 then trailing > 0.0
        else (trailing / p.daysOffLength).Floor as real >= p.daysOffMonth
  {
    var d := TimeOffDurations(startDate, endDate, schedule).value;
    AnalyzeReport(startDate, endDate, schedule, p);
  }

  /** The hours worked in the first `n` shifts of a schedule. */
  function HoursWorked(schedule: seq<Shift>, n: nat): real
    requires n <= |schedule|
  {
    if n == 0 then 0.0 else HoursWorked(schedule, n - 1) + Hours(schedule[n - 1].end, schedule[n - 1].start)
  }

  lemma {:induction false} SumToShiftLengths(schedule: seq<Shift>, lengths: seq<real>, n: nat)
    requires |lengths| == |schedule| && n <= |schedule|
    requires forall i :: 0 <= i < |schedule| ==> lengths[i] == Hours(schedule[i].end, schedule[i].start)
    ensures SumTo(lengths, n) == HoursWorked(schedule, n)
  {
    if n > 0 {
      SumToShiftLengths(schedule, lengths, n - 1);
    }
  }

  /** Over the lengths of a schedule's shifts, the average-hours scan flags
      exactly the shifts at which the hours worked so far exceed `hoursMonth`. */
  lemma AverageHoursWorkedOfSchedule(schedule: seq<Shift>, d: Durations, p: Policy)
    requires |d.shifts| == |schedule|
    requires forall i :: 0 <= i < |schedule| ==> d.shifts[i] == Hours(schedule[i].end, schedule[i].start)
    ensures forall k :: k in DiscoverAverageHoursWorked(d, p) <==>
      0 <= k < |schedule| && HoursWorked(schedule, k + 1) > p.hoursMonth
  {
    forall n | 0 <= n <= |schedule| ensures SumTo(d.shifts, n) == HoursWorked(schedule, n) {
      SumToShiftLengths(schedule, d.shifts, n);
    }
  }

  /** The report's average-hours field lists, in order, exactly the shifts at
      which the hours worked so far exceed `hoursMonth`. */
  lemma AnalyzeAverageHours(startDate: Instant, endDate: Instant, schedule: seq<Shift>, p: Policy)
    requires |schedule| != 1
    ensures Analyze(startDate, endDate, schedule, p).Ok?
    ensures var v := Analyze(startDate, endDate, schedule, p).value.averageHours;
      (v.Offenders? ==> v.indices != []) && Increasing(Indices(v)) &&
      forall k :: k in Indices(v) <==>
        0 <= k < |schedule| && HoursWorked(schedule, k + 1) > p.hoursMonth
  {
    var d := TimeOffDurations(startDate, endDate, schedule).value;
    AverageHoursWorkedOfSchedule(schedule, d, p);
    AnalyzeReport(startDate, endDate, schedule, p);
  }

  /** Two shifts in a ten-hour window: the trailing gap is measured from the end
      of the first shift (eight hours), not of the last one (six hours). */
  lemma TrailingGapExample()
    ensures var h := MillisPerHour;
      TimeOffDurations(0, 10 * h, [Shift(h, 2 * h), Shift(3 * h, 4 * h)])
        == Ok(Durations([1.0, 1.0, 8.0], [1.0, 1.0]))
  {
    var h := MillisPerHour;
    var s := [Shift(h, 2 * h), Shift(3 * h, 4 * h)];
    var d := TimeOffDurations(0, 10 * h, s).value;
    assert d.timeOff == [Hours(h, 0), Hours(3 * h, 2 * h), Hours(10 * h, 2 * h)];
    assert d.shifts == [Hours(2 * h, h), Hours(4 * h, 3 * h)];
  }

  /** The same schedule under the configured thresholds: the one-hour break
      before the second shift is too short, no shift is too long, the
      eight-hour trailing gap is less than four 24-hour days off, and two
      hours are far below the monthly limit. */
  lemma ConfiguredPolicyExample()
    ensures var h := MillisPerHour;
      Analyze(0, 10 * h, [Shift(h, 2 * h), Shift(3 * h, 4 * h)], ConfiguredPolicy)
        == Ok(Report(Offenders([1]), NoViolations, false, NoViolations))
  {
    var h := MillisPerHour;
    TrailingGapExample();
    AnalyzeReport(0, 10 * h, [Shift(h, 2 * h), Shift(3 * h, 4 * h)], ConfiguredPolicy);
    ConfiguredScansExample();
  }

  /** The four scans over the durations of `TrailingGapExample`. */
  lemma ConfiguredScansExample()
    ensures var d, p := Durations([1.0, 1.0, 8.0], [1.0, 1.0]), ConfiguredPolicy;
      DiscoverShortTimeOff(d, p) == [1] && DiscoverLongShifts(d, p) == [] &&
      !DiscoverEnoughTimeOff(d, p) && DiscoverAverageHoursWorked(d, p) == []
  {
    var d, p := Durations([1.0, 1.0, 8.0], [1.0, 1.0]), ConfiguredPolicy;
    assert d.timeOff[1..|d.timeOff| - 1] == [1.0];
    assert [1.0][1..] == [] && d.shifts[1..] == [1.0];
    assert Flagged([1.0], ShortGap(p), 1) == [1];
  }
}
