# Duty-hours schedule core in Dafny

This project models the two pieces of the duty-hours roster API that hold real
logic:

- **The duty-hour analyzer** (`modules/analyzeSchedule.js`). Given an analysis
  window and a person's shifts, it computes the time off before each shift,
  one trailing gap and every shift's length, all in hours. It then runs four
  rule scans over those lists against the `invalidHours` thresholds:
  - short time off between shifts;
  - shifts that are too long;
  - whether there was enough time off;
  - the running total of hours worked.

  It returns one report holding the four results.
- **Schedule admission and windowing** (`schema/UserSchema.js`).
  `addScheduleItem` rejects a candidate shift that collides with the user's
  existing shifts, or that does not end after it starts. Otherwise it appends
  the candidate to the user's schedule. `filterSchedule` returns the shifts
  that lie strictly inside a window, sorted by start.

Files:

- `shifts.dfy` (module `Shifts`): instants (integer milliseconds), the
  `Shift` record, `Hours` (exact hour difference), the `Policy` thresholds with
  the configured values (8, 320, 24, 4, 24), and `Result`/`Outcome`.
- `analyze_schedule.dfy` (module `AnalyzeSchedule`): `getTimeOffDurations` is
  a method with the source's loop, proved equal to the specification function
  `TimeOffDurations`. Each `discover*` scan is a fold with its own contract.
  `analyze` is `Analyze`, and lemmas state each report field in terms of the
  schedule itself.
- `user_schema.dfy` (module `UserSchema`): the conflict predicate, the `User`
  class whose `AddScheduleItem` appends to its `schedule` field, and
  `FilterSchedule`. `FilterSchedule` is a filter followed by a stable insertion
  sort, with sortedness, permutation and stability proved.

Behaviour the model keeps exactly as the code has it:

- The trailing gap is measured from the end of the *second-to-last* shift
  (`modules/analyzeSchedule.js:95`). The comment at lines 65-66 says "the end of
  the last shift", but the model follows the code.
- With exactly one shift, that step reads `schedule[-1].endDate` and throws. The
  model returns `Err(MissingPreviousShift)` from `TimeOffDurations` and `Analyze`.
- The enough-time-off reduce ignores its accumulator (lines 150-152), so only
  the last gap decides. Whole days off are not summed over all gaps. With no
  gaps at all, the result is `0 >= daysOffMonth`.
- The doc comment at lines 29-32 gives the wrong types for `enoughTimeOff`
  and `averageHours`. The model follows the returned object at lines 43-48:
  `enoughTimeOff` is a boolean, and the three index fields are `false` or a
  nonempty list.
- Admission does not reject a candidate that strictly contains an existing
  shift (`ContainingCandidateAdmitted`). A stored schedule can therefore hold
  overlapping shifts. What admission does preserve (`User.Valid`) is that every
  stored shift ends after it starts, and that every stored shift passed the
  check against every shift stored before it (`AdmittedInOrder`). So no two
  stored shifts share a start or an end, and neither endpoint of a shift lies
  strictly inside a shift stored earlier (`AdmittedDistinct`).
- A `daysOffLength` of zero is not an error in the code. The division gives
  +Infinity for a positive last gap, -Infinity for a negative one and NaN for
  a zero one. So `enoughTimeOff` is true exactly when the last gap is
  positive, and `DiscoverEnoughTimeOff` states that outcome directly.

`Analyze` is a function, so two calls with the same inputs give the same
report.

## Model

| member | source | states |
|---|---|---|
| `Shifts.Hours` | modules/analyzeSchedule.js:60-62 | the hour difference is positive exactly when the later instant is after the earlier one, zero exactly when they are equal, and equals the millisecond difference over 3 600 000 |
| `AnalyzeSchedule.BetweenGaps` | modules/analyzeSchedule.js:88-93 | one gap per consecutive pair of shifts; entry j is the time from the end of shift j to the start of shift j+1 |
| `AnalyzeSchedule.ShiftLengths` | modules/analyzeSchedule.js:99-101 | one length per shift; entry i is the time from the start to the end of shift i |
| `AnalyzeSchedule.TimeOffDurations` | modules/analyzeSchedule.js:79-105 | fails exactly for a one-shift schedule; an empty schedule gives two empty lists; otherwise there are n+1 gaps and n lengths, gap 0 is measured from the window start, gap i from the end of shift i-1, the trailing gap from the end of shift n-2 to the window end, and length i is the length of shift i |
| `AnalyzeSchedule.GetTimeOffDurations` | modules/analyzeSchedule.js:79-105 | the push loop, including the throw on a single shift, produces exactly `TimeOffDurations` |
| `AnalyzeSchedule.FlaggedCons` | modules/analyzeSchedule.js:134-139 | one step of the index-pushing reduce: the tail's flagged indices plus the current index when its entry is flagged are exactly the flagged indices from the current one on |
| `AnalyzeSchedule.Flagged` | modules/analyzeSchedule.js:134-139 | the reduce that pushes an index per flagged entry returns exactly the offset indices of the flagged entries, in strictly increasing order |
| `AnalyzeSchedule.DiscoverShortTimeOff` | modules/analyzeSchedule.js:116-123 | lists exactly the indices k with 1 <= k < len-1 whose gap is strictly below `timeOffBetween`, ascending; the first and the trailing gap are never inspected |
| `AnalyzeSchedule.DiscoverLongShifts` | modules/analyzeSchedule.js:133-140 | lists exactly the shifts strictly longer than `shiftMaximumLength`, ascending; a shift exactly at the maximum is not listed |
| `AnalyzeSchedule.FloorReduce` | modules/analyzeSchedule.js:150-152 | the reduce whose callback ignores `memo` returns the floor of the last gap over a nonzero unit, or its initial value when there are no gaps |
| `AnalyzeSchedule.DiscoverEnoughTimeOff` | modules/analyzeSchedule.js:149-153 | with no gaps, true exactly when 0 >= `daysOffMonth`; otherwise, for a nonzero `daysOffLength`, true exactly when floor(last gap / `daysOffLength`) >= `daysOffMonth`, and for a zero one exactly when the last gap is positive (the +Infinity quotient) |
| `AnalyzeSchedule.OffendingFrom` | modules/analyzeSchedule.js:164-168 | with `total` the running sum so far, flags exactly the later indices whose running sum exceeds the limit, ascending |
| `AnalyzeSchedule.OffendingCons` | modules/analyzeSchedule.js:164-168 | one step of the running-total reduce: the later offenders plus the current index when the total including it exceeds the limit are exactly the offenders from the current index on |
| `AnalyzeSchedule.DiscoverAverageHoursWorked` | modules/analyzeSchedule.js:163-171 | flags exactly the indices k where length[0] + ... + length[k] > `hoursMonth`, ascending |
| `AnalyzeSchedule.AsViolations` | modules/analyzeSchedule.js:44-47 | an empty index list becomes `false`, a nonempty one is reported unchanged |
| `AnalyzeSchedule.Analyze` | modules/analyzeSchedule.js:35-49 | fails exactly for a one-shift schedule; an empty schedule gives `false` for all three index fields and `0 >= daysOffMonth` for `enoughTimeOff` |
| `AnalyzeSchedule.AnalyzeShortTimeOff` | modules/analyzeSchedule.js:116-123 | the report's `timeOff` is `false` or a nonempty ascending list of exactly the shifts k >= 1 that start less than `timeOffBetween` hours after shift k-1 ends |
| `AnalyzeSchedule.AnalyzeLongShifts` | modules/analyzeSchedule.js:133-140 | the report's `longShifts` is `false` or a nonempty ascending list of exactly the shifts longer than `shiftMaximumLength` |
| `AnalyzeSchedule.AnalyzeEnoughTimeOff` | modules/analyzeSchedule.js:94-97 | for two or more shifts, `enoughTimeOff` depends only on the hours from the end of the second-to-last shift to the window end: floor of those hours over `daysOffLength` at least `daysOffMonth`, or, for a zero `daysOffLength`, those hours positive |
| `AnalyzeSchedule.SumToShiftLengths` | modules/analyzeSchedule.js:164-165 | the running sum over the computed lengths equals the hours worked in the first n shifts |
| `AnalyzeSchedule.AverageHoursWorkedOfSchedule` | modules/analyzeSchedule.js:163-170 | over a schedule's lengths, the average-hours scan flags exactly the shifts at which the hours worked so far exceed `hoursMonth` |
| `AnalyzeSchedule.AnalyzeAverageHours` | modules/analyzeSchedule.js:163-170 | the report's `averageHours` is `false` or a nonempty ascending list of exactly the shifts at which the hours worked so far exceed `hoursMonth` |
| `AnalyzeSchedule.SumPrefixMonotone` | modules/analyzeSchedule.js:165 | with no negative lengths, the running total never decreases |
| `AnalyzeSchedule.AverageHoursSuffix` | modules/analyzeSchedule.js:164-168 | with no negative lengths, the flagged indices are empty or exactly the run from the first offender to the last shift |
| `AnalyzeSchedule.AnalyzeAverageHoursSuffix` | modules/analyzeSchedule.js:163-170 | for shifts that do not end before they start, the report's `averageHours` is `false` or the contiguous run of indices from the first offender to the last shift |
| `AnalyzeSchedule.TrailingGapExample` | modules/analyzeSchedule.js:94-97 | two shifts in a ten-hour window: the trailing gap is eight hours (from the first shift's end), not six |
| `AnalyzeSchedule.ConfiguredScansExample` | config/config.js:11-17 | under the configured thresholds, the durations of `TrailingGapExample` give short time off at shift 1, no long shift, not enough time off and no excess hours |
| `AnalyzeSchedule.ConfiguredPolicyExample` | config/config.js:11-17 | the whole report for the schedule of `TrailingGapExample` under the configured thresholds is `{ timeOff: [1], longShifts: false, enoughTimeOff: false, averageHours: false }` |
| `UserSchema.ConflictsWith` | schema/UserSchema.js:155-162 | between shifts that end after they start, the per-item check fires exactly when the two overlap and the candidate does not strictly contain the item |
| `UserSchema.SomeConflict` | schema/UserSchema.js:155-163 | `_.some` is true exactly when the check fires for some existing item |
| `UserSchema.IsConflicting` | schema/UserSchema.js:155-165 | a candidate that does not end after it starts is rejected; over existing shifts that end after they start, rejection happens exactly when the candidate is degenerate or overlaps some item without strictly containing it |
| `UserSchema.AdmitPreserves` | schema/UserSchema.js:152-173 | appending a candidate the check lets through keeps every shift proper and every shift admitted against all earlier ones |
| `UserSchema.AdmittedDistinct` | schema/UserSchema.js:139-147 | in a schedule built by admission no two shifts share a start or an end, and neither endpoint of a later shift lies strictly inside an earlier one |
| `UserSchema.User.constructor` | schema/UserSchema.js:26-32 | a new user has an empty schedule, which is valid |
| `UserSchema.User.AddScheduleItem` | schema/UserSchema.js:152-173 | rejects exactly the conflicting candidates with an error and leaves the schedule unchanged; otherwise the schedule becomes the old one with the candidate appended; keeps `Valid`: every stored shift is proper and passed the check against every shift stored before it |
| `UserSchema.SharedEndpointRejected` | schema/UserSchema.js:159 | a candidate with the same start or the same end as an existing item is rejected |
| `UserSchema.EndpointInsideRejected` | schema/UserSchema.js:160 | a candidate whose start or end lies strictly inside an existing item is rejected |
| `UserSchema.TouchingAdmitted` | schema/UserSchema.js:139-147 | a proper candidate that meets every existing item at most at a boundary, such as back-to-back shifts, is admitted |
| `UserSchema.ContainingCandidateAdmitted` | schema/UserSchema.js:155-165 | a candidate strictly containing an existing item overlaps it and is still admitted |
| `UserSchema.KeepCounts` | schema/UserSchema.js:93-98 | the filter keeps every copy of each accepted item and nothing else |
| `UserSchema.KeepConcat` | schema/UserSchema.js:93-98 | filtering a concatenation is the concatenation of the filtered parts |
| `UserSchema.WithStartNone` | schema/UserSchema.js:99-101 | a list with no item starting at k has no items at key k |
| `UserSchema.Insert` | schema/UserSchema.js:99-101 | inserting adds exactly one copy of the item |
| `UserSchema.InsertSorted` | schema/UserSchema.js:99-101 | inserting into a list sorted by start keeps it sorted |
| `UserSchema.InsertStable` | schema/UserSchema.js:99-101 | inserting keeps the items of each start instant in order, with the new item after those already there |
| `UserSchema.InsertStableStep` | schema/UserSchema.js:99-101 | when the new item goes past the first one, stability of the insertion into the tail carries over to the whole list |
| `UserSchema.SortByStart` | schema/UserSchema.js:99-101 | the result is sorted by start and is a permutation of the input |
| `UserSchema.SortByStartStable` | schema/UserSchema.js:99-101 | the sort is stable: the items of each start instant keep their input order |
| `UserSchema.FilterSchedule` | schema/UserSchema.js:88-105 | the result is sorted by start, holds every copy of each item whose start and end both lie strictly inside the window and no other item, so items on a window boundary are dropped |
| `UserSchema.FilterScheduleStable` | schema/UserSchema.js:91-102 | items of the window with the same start keep their schedule order |
| `UserSchema.FilteredScheduleFeedsAnalyzer` | routes/userApi.js:188-200 | for a schedule of proper shifts, the filtered schedule is proper; every length the analyzer computes for it is positive, and so are its first and trailing gaps |

## Left out

- Persistence is not modelled. This covers `findByUserID`, `findMultipleUsersById`, `addUser` and the `user.save` callback after the append in `addScheduleItem`. They are asynchronous database I/O. `AddScheduleItem` ends at the in-memory append.
- HTTP routing, request validation, the Express setup, the global module loader and the environment configuration selection are not modelled. The thresholds are an explicit `Policy` parameter instead of the process-wide `DUTYHOURS.config`.
- The `User` class omits the record's `name`, `email`, `username` and `password` fields, which the core never reads. Stored schedule items also drop the `_id` that mongoose gives each subdocument; `Shift` holds only the start and the end.
- Durations are exact rational hours. moment's `diff(..., 'hours', true)` returns an IEEE double, and its rounding is not modelled.
- Instants are integer milliseconds. The call site converts shifts to Unix seconds before `analyze` reads them as milliseconds. That unit mismatch at the transport edge is not modelled. Date parsing and invalid dates are not modelled either.
- The calendar arithmetic that builds the window in `getScheduleReturn` is not modelled. It uses moment `set` and `add('weeks')`.
- FloorReduce: requires a nonzero unit, because its integer result cannot hold the Infinity or NaN that JavaScript gives for a zero divisor. `DiscoverEnoughTimeOff` does not call it in that case and states the comparison's outcome instead.
- Thresholds are finite reals. A threshold that is NaN or infinite in the configuration is not modelled. Every configured value is finite.
- The read-modify-write race between two concurrent `addScheduleItem` calls is not modelled. The model is sequential.
