# Attendance, schedule and pay server — a verified model

The server keeps three tables: Users, Attendance and schedule. Its route handlers do four kinds of work:

- **Check-in and check-out.** These are a per-user two-state guard over the Attendance ledger. A user is either checked out or has exactly one open row.
- **Schedule registration.** `POST /api/schedule` stores one row per calendar day of a date range.
- **Monthly pay.** `GET /api/schedule/my-salary` computes pay from a month's closed attendance rows:
  - base pay for every hour worked;
  - a weekly-rest allowance (주휴수당) for each week of the month with at least 15 hours, at min(h, 40)/40 of eight hours' wage;
  - a half-rate premium for hours inside the night windows 00:00–06:00 and 22:00–06:00 of the next day.
  - Every money figure is floored.
- **Manager views.** The manager routes provide:
  - a live dashboard classifying each worker as 미출근 (not in), 근무 중 (working) or 퇴근 (left), with lateness and counts;
  - an attendance list with worked durations as hours and minutes;
  - adding an employee (required fields, unique login id, default wage 9860);
  - deleting an employee together with their attendance rows.

## How the model is built

Modules, in dependency order:

- **`Base`:** time constants, the local day of a timestamp, JavaScript's sign-of-dividend remainder, and error results.
- **`Tables`:** rows, the table invariant, and the `Database` class.
- **`Night`**, **`Salary`**, **`SchedulePost`**, **`AttendanceRoute`** and **`Manager`**.

Conventions:

- **Timestamps** are integer local milliseconds. `DayStart(t) = t - t % 86400000` is the local midnight. `TimeOfDay(t)` is the offset into the day.
- **Hours and money.** Hours are `real` (the source's doubles without rounding). Money is floored with `.Floor`, which agrees with `Math.floor`.
- **Falsy request fields** are `0` for numbers and `""` for strings.
- **Handlers that write tables** (`CheckIn`, `CheckOut`, `PostSchedule`, `AddEmployee`, `DeleteEmployee`) are module-level methods that take the `db: Database` object. Each has `modifies db`, keeps `db.Valid()` and states the whole new state. `Valid()` says:
  - every user has at most one open attendance row;
  - keys are pairwise distinct within each table and lie below the next auto-increment value, so `WHERE id = ?` names one row;
  - login ids are unique.
- **Read-only handlers** take their query results as sequences. `/my-salary` and the attendance list receive the rows their SQL selects. `Dashboard` receives the whole Users and Attendance tables and makes its two selections itself (`WorkersOf`, `RecordsOfDay`), keeping table order.
- **Methods beside functions.** Where a handler computes a value step by step (`FinalPay`, `StatusOfWorker`), the method mirrors the handler's statements and is proved equal to a specifying function (`PayFigures`, `EntryFor`); the promises are proved about that function (`PayBounds`, `NotInMeansNoRecord`, `EntryFollowsFirstRecord`).
- **Loops.** The source's `for`, `while` and `forEach` loops are methods with loop invariants, proved against recursive specification functions: `NightOverlap`, `Accumulate`, `HolidayPay`, `PostSchedule`, the dashboard's `workers.map` (`CollectStatus`) and check-out's latest-open-row lookup (`FindLatestOpen`). The properties the source promises are then proved about those functions. The one-expression array calls `find` (`FirstRecordOf`), `filter` (`CountLate`, `WorkersOf`, `RecordsOfDay`) and the attendance list's `records.map` (`FormatRecords`) are functions.

## Model

| member | source | states |
|---|---|---|
| Base.DayStart | server/routes/schedule.js:108-111 | the local midnight of `t`: a multiple of a day, at most `t`, less than a day before it |
| Base.DayStartUnique | server/routes/schedule.js:108-118 | any day boundary within a day before `t` is `t`'s midnight, so windows anchored to it are that day's |
| Base.JsRem | server/routes/manager.js:177 | JavaScript `%`: the Euclidean remainder for non-negative dividends, in (-b, 0] for negative ones, and `a == b · trunc(a / b) + r` |
| Base.JsRemUnique | server/routes/manager.js:177 | those clauses determine the remainder: any `r` of the dividend's sign, smaller than `b` in size, that recomposes `a` with some quotient is `JsRem(a, b)` |
| Base.JsRemExamples | server/routes/manager.js:177 | `7 % 3 == 1`, `-7 % 3 == -1`, `-6 % 3 == 0`, and -90 minutes `% 1h` is -30 minutes |
| Base.HttpStatus | server/routes/attendance.js:13-48 | the status code of a refusal: 404 for `UserNotFound` and 400 for every other one. Which refusal each handler returns is stated in that handler's own contract |
| Night.NightWindows | server/routes/schedule.js:107-123 | exactly two windows: 00:00–06:00 of the start's day and 22:00 of that day to 06:00 of the next |
| Night.Clip | server/routes/schedule.js:127-132 | the intersection length is never negative, and is positive exactly when `max(start, s) < min(end, e)` |
| Night.NightOverlap | server/routes/schedule.js:104-136 | the loop over the two night ranges returns exactly `NightHours(start, end)`: the clipped overlaps summed, in hours |
| Night.NightMsBounds | server/routes/schedule.js:120-135 | night overlap is never negative, and when `start <= end` never exceeds `end - start` |
| Night.NightMsAtMostFourteenHours | server/routes/schedule.js:107-123 | the two windows cover at most 14 hours, so no interval earns more night time than that |
| Night.NightMsOfEmptyInterval | server/routes/schedule.js:130-132 | an interval with `end <= start` has no night time |
| Night.NightMsOfDaytime | server/routes/schedule.js:107-133 | an interval within 06:00–22:00 of its start day has no night time |
| Night.NightMsOfEarlyMorning | server/routes/schedule.js:107-111 | an interval within 00:00–06:00 of its start day is night time throughout |
| Night.NightMsOfOvernight | server/routes/schedule.js:113-118 | an interval within 22:00 to 06:00 of the next day is night time throughout |
| Night.NightMsCountsInstants | server/routes/schedule.js:104-136 | the overlap equals the number of milliseconds of `[start, end)` lying in a night window: an independent definition by counting instants |
| Salary.WeekOf | server/routes/schedule.js:175-176 | `Math.ceil(day / 7)` lies in 1..5 and week `w` holds exactly days `7(w-1)+1 .. 7w` |
| Salary.WorkHours | server/routes/schedule.js:165 | `(end - start) / 3600000`: an hour count times an hour's milliseconds gives the row's duration, non-negative exactly when check-out is not before check-in |
| Salary.Accumulate | server/routes/schedule.js:158-179 | the `forEach` computes the month's total hours, total night hours, and a bucket per week that has rows, each holding that week's hours (the falsy-bucket reset included) |
| Salary.BucketStep | server/routes/schedule.js:175-178 | adding a row's hours to its own week's bucket, other buckets untouched, keeps every bucket equal to its week's hours |
| Salary.HolidayPay | server/routes/schedule.js:181-188 | the allowance loop adds each bucket's share, nothing for weeks under 15 hours, capped at 40 hours |
| Salary.HolidayShare | server/routes/schedule.js:184-186 | one week's allowance: nothing under 15 hours, and from 40 hours on exactly the allowance of 40 hours |
| Salary.ProratedAllowance | server/routes/schedule.js:186 | `(calcHours / 40) * 8 * wage`: no hours give nothing, 40 hours give eight hours' wage |
| Salary.FinalPay | server/routes/schedule.js:190-196 | night premium at half rate, base pay floored, final pay the floor of base + allowance + premium |
| Salary.PayFigures | server/routes/schedule.js:192-205 | the summary echoes the wage and both hour totals; base pay, allowance and premium are the floors of `hours · wage`, the allowance and `night · wage / 2` |
| Salary.MySalary | server/routes/schedule.js:138-208 | unknown user gives `UserNotFound` (404) and nothing is computed; otherwise the summary is `MonthlyPay` of the rows and the user's wage |
| Salary.MonthlyPay | server/routes/schedule.js:158-208 | the reference summary of a month: it echoes the wage, reports the total and night hours of the rows, and the floored month allowance |
| Salary.WeeksPartitionHours | server/routes/schedule.js:162-179 | conservation: the five weekly buckets add up to the month's total hours, negative-duration rows included |
| Salary.NoHoursOutsideWeeks | server/routes/schedule.js:175-178 | no hours land in a week number outside 1..5 |
| Salary.EmptyWeekHasNoHours | server/routes/schedule.js:177-178 | a week without rows has no hours |
| Salary.BucketsMatchWeeks | server/routes/schedule.js:183-188 | the allowance summed over the map's buckets equals the allowance summed week by week over the rows |
| Salary.HolidayShareBounds | server/routes/schedule.js:184-186 | a week's share is 0 under 15 hours, `h/5 · wage` from 15 to 40, `8 · wage` from 40 on, and always between 0 and `8 · wage` |
| Salary.ProratedWithinCap | server/routes/schedule.js:185-186 | up to 40 hours the prorated allowance is `hours / 5` hours' wage, and at most eight hours' wage |
| Salary.HolidayShareExamples | server/routes/schedule.js:184-186 | exactly 15 hours is eligible, 14.99 is not, 50 hours pay as 40 |
| Salary.HolidayOfWeeksBounds | server/routes/schedule.js:182-188 | the month's allowance is between 0 and `8 · wage` per week counted |
| Salary.NoHolidayForShortWeeks | server/routes/schedule.js:184 | if every week has under 15 hours there is no allowance |
| Salary.NightHoursNonNegative | server/routes/schedule.js:171-172 | total night hours are never negative |
| Salary.NightWithinTotal | server/routes/schedule.js:165-172 | when no row ends before it starts, night hours never exceed total hours |
| Salary.PayBounds | server/routes/schedule.js:192-204 | with a non-negative wage: the allowance lies between 0 and `40 · wage`, the premium is non-negative, and the final pay is at least base + floored parts and at most one more |
| Salary.PayFiguresBounds | server/routes/schedule.js:192-205 | the same bounds on the money figures, for any non-negative night hours and any allowance between 0 and `40 · wage` |
| Salary.NoRecordsNoPay | server/routes/schedule.js:158-208 | a month without rows answers all zeros |
| Salary.PayExampleDayShift | server/routes/schedule.js:162-207 | a 09:00–18:00 shift at 10000 pays 90000, with no night time and no allowance |
| Salary.PayExampleOvernight | server/routes/schedule.js:162-207 | a 23:00–03:00 shift at 10000 pays 40000 base, 20000 premium, 60000 final |
| SchedulePost.DayRowsShape | server/routes/schedule.js:21-37 | one row per day from the start to the end date, the i-th for day `start + i`, all with the request's user and times; none when start > end |
| SchedulePost.DayRowsCoverRange | server/routes/schedule.js:23 | a day gets a row exactly when it lies in the range |
| SchedulePost.DayRowsSnoc | server/routes/schedule.js:33-36 | each loop step appends the row of the current day |
| SchedulePost.MissingAny | server/routes/schedule.js:11-13 | a falsy user id, start time or end time is always a missing field; a request with all fields present passes, whether its dates parse or not |
| SchedulePost.PostSchedule | server/routes/schedule.js:7-45 | a missing field gives `MissingField` (400) with nothing inserted; otherwise the schedule table gains exactly the range's rows, in date order, and no other table changes |
| Tables.FindUser | server/routes/attendance.js:37-48 | the lookup finds a row with the id exactly when one exists |
| Tables.HasOpen | server/routes/attendance.js:23-30 | the open-row query returns a row exactly when some row of the user has no check-out; this is the guard of check-in and check-out |
| Tables.OpenCountPositive | server/routes/attendance.js:23-30 | the open-row count is positive exactly when the open-row query returns a row |
| Tables.OpenCountAppend | server/routes/attendance.js:90-94 | appending a row adds one to its user's open count exactly when it is open |
| Tables.OpenCountClose | server/routes/attendance.js:160-165 | closing a row removes one from its user's open count if it was open, and changes no other count |
| Tables.AppendOpenKeepsConsistent | server/routes/attendance.js:22-34 | appending an open row for a user without one keeps the table invariant |
| Tables.CloseKeepsConsistent | server/routes/attendance.js:160-165 | closing any row keeps the table invariant |
| AttendanceRoute.IsLate | server/routes/attendance.js:53-62 | the intended lateness rule: late exactly when a start time is configured and the check-in's time of day is strictly after it |
| AttendanceRoute.IsLateAsWritten | server/routes/attendance.js:55-61 | the handler's test as written: never late without a start time, and on a server at UTC the same verdict as `IsLate` |
| AttendanceRoute.IsLateByTimeOfDay | server/routes/attendance.js:53-62 | with a start time, late exactly when the check-in's time of day is strictly after it; without one, never late |
| AttendanceRoute.IsLateSameEveryDay | server/routes/attendance.js:52-62 | lateness depends only on the time of day, and holds exactly when it is strictly after the start time |
| AttendanceRoute.AsWrittenCounterexample | server/routes/attendance.js:56-59 | at UTC+9 with start time 09:00, a check-in at 08:00 local is flagged late by the handler's test |
| AttendanceRoute.AsWrittenEarlyMorningAlwaysLate | server/routes/attendance.js:56-59 | ahead of UTC, every check-in in the first `offset` hours of the local day is flagged late whatever the start time |
| AttendanceRoute.AsWrittenAgreesAtUtc | server/routes/attendance.js:56-59 | at UTC the handler's test and the intended rule agree |
| AttendanceRoute.FindLatestOpen | server/routes/attendance.js:143-150 | finds nothing exactly when the user has no open row, otherwise an open row with the latest check-in |
| AttendanceRoute.CheckInKeepsConsistent | server/routes/attendance.js:22-34 | appending an open row for a user with no open row keeps the invariant and leaves that user exactly one open row |
| AttendanceRoute.CheckIn | server/routes/attendance.js:7-124 | missing id → 400; an open row → `AlreadyCheckedIn` before the user lookup; unknown user → 404; each error leaves the ledger unchanged. A nonzero id with no open row and a known user always succeeds: exactly one open row `(userId, now, null, isLate)` is appended, and the user then has one open row. Keeps the invariant |
| AttendanceRoute.CheckOut | server/routes/attendance.js:128-188 | missing id → 400; no open row → `NotCheckedIn` with nothing changed; otherwise it succeeds, and only the latest open row — the one row with that key — gets `checkOut = now`; the user has no open row left. Keeps the invariant |
| Manager.WorkersOf | server/routes/manager.js:21-22 | the workers are exactly the users with the worker role |
| Manager.RecordsOfDay | server/routes/manager.js:26-31 | exactly the attendance rows checked in on the given local day |
| Manager.FirstRecordOf | server/routes/manager.js:44 | the first row of the worker, or none exactly when the worker has no row |
| Manager.ClockOf | server/routes/manager.js:52-56 | local hour in 0..23 and minute in 0..59 of the check-in, bracketing its time of day |
| Manager.DashboardLate | server/routes/manager.js:59-61 | `getHours() >= 9 && getMinutes() > 0`: a late clock is after 09:00, and a check-in on the full hour is never late |
| Manager.DashboardLateMeans | server/routes/manager.js:58-61 | late exactly when the check-in is at 09:00 or later and at least one whole minute past the hour |
| Manager.DashboardLateExamples | server/routes/manager.js:58-61 | 09:00 and 10:00 are not late, 09:01 is, 08:59 is not |
| Manager.EntryFor | server/routes/manager.js:40-78 | the entry carries the worker's id and name, has a time exactly when it is not 미출근, and is never late when 미출근 |
| Manager.NotInMeansNoRecord | server/routes/manager.js:44-50 | an entry is 미출근 exactly when the worker has no row today |
| Manager.EntryFollowsFirstRecord | server/routes/manager.js:44-68 | the first matching row decides: 퇴근 if it has a check-out, else 근무 중, with its clock and lateness |
| Manager.CountsOrdered | server/routes/manager.js:36-87 | working ≤ checked in ≤ entries, and late ≤ checked in |
| Manager.CountLate | server/routes/manager.js:85 | `statusList.filter(s => s.isLate).length` is at most the number of entries |
| Manager.CountLateZero | server/routes/manager.js:85 | the late count is 0 exactly when no entry is late |
| Manager.EntriesIndex | server/routes/manager.js:40-78 | `workers.map` gives one entry per worker, the k-th being `EntryFor` the k-th worker |
| Manager.CollectStatus | server/routes/manager.js:36-78 | the `map` loop builds exactly `Entries` of the workers, and its two counters equal the checked-in and working counts of the entries |
| Manager.StatusOfWorker | server/routes/manager.js:40-78 | the `map` callback yields `EntryFor` the worker, and bumps the check-in counter exactly when the worker is not 미출근 and the working counter exactly when 근무 중 |
| Manager.BuildDashboard | server/routes/manager.js:36-89 | one entry per worker in worker order; the counters equal the counts of checked-in and working entries, `late` counts late entries, and the stats are ordered |
| Manager.Dashboard | server/routes/manager.js:6-97 | one entry per worker in worker order, each `EntryFor` that worker and today's rows; the stats count checked-in, working and late entries and all workers, with `working ≤ todayCheckIn ≤ totalWorkers` and `late ≤ todayCheckIn` |
| Manager.LoginTaken | server/routes/manager.js:120-124 | the duplicate query finds a row exactly when some user has that login id, compared exactly |
| Manager.AppendUserKeepsConsistent | server/routes/manager.js:126-130 | inserting a user with the next key and an unused login id keeps the users invariant: keys in range and distinct, login ids unique |
| Manager.AddEmployee | server/routes/manager.js:112-137 | a missing login id, password or name → 400; a taken login id → `DuplicateLoginId` with no insert; complete fields with an unused login id always succeed, appending one worker row with the next key and wage 9860 when none is given. Keeps the invariant |
| Manager.AttendanceWithout | server/routes/manager.js:143 | exactly the attendance rows of other users remain |
| Manager.UsersWithout | server/routes/manager.js:144-145 | exactly the users with another id remain |
| Manager.OpenCountAfterDelete | server/routes/manager.js:143 | the deleted user has no open row afterwards and everyone else's open count is unchanged |
| Manager.AttendanceWithoutKeepsKeys | server/routes/manager.js:143 | the attendance rows left after the cascade still have distinct keys |
| Manager.UsersWithoutKeepsKeys | server/routes/manager.js:144-145 | the users left after the delete still have distinct keys |
| Manager.DeleteKeepsConsistent | server/routes/manager.js:140-152 | the cascade keeps the table invariant |
| Manager.DeleteEmployee | server/routes/manager.js:140-152 | the user's attendance rows and user row are deleted and nothing else: schedule rows, other rows and keys stay. Keeps the invariant |
| Manager.DurationText | server/routes/manager.js:173-178 | '-' exactly for an open row; otherwise the whole hours bracket the duration (`Math.floor`) and the minutes lie in -60..59 |
| Manager.DurationTextSplitsMinutes | server/routes/manager.js:173-178 | for a non-negative duration, hours ≥ 0 and minutes in 0..59 together make up the whole minutes worked |
| Manager.DurationTextNegative | server/routes/manager.js:175-177 | a negative duration shows negative hours and minutes in -60..0 |
| Manager.FormatRecord | server/routes/manager.js:169-188 | keeps id and name; the out time is shown as 근무 중 exactly when the hours show '-' |
| Manager.FormatRecords | server/routes/manager.js:169-189 | one formatted row per row, in query order |

## Left out

- Socket.IO notifications after check-in and check-out. These are fire-and-forget output.
- Transactions, `FOR UPDATE` locks and the connection pool. The handlers are modelled one at a time, and the ledger invariant holds between them.
- Storage errors and the 500 answers. No query fails in the model, and a multi-row insert cannot stop half-way.
- The `/today` route that the check-in handler registers as a side effect. It is a route registration, not logic.
- The clock, the request bodies and the query results are parameters:
  - `now` is given;
  - `/my-salary` receives the user's closed rows of the month, with each row's day of the month, instead of filtering them by `MONTH`/`YEAR`;
  - the attendance list receives the joined, ordered rows.
- The `ORDER BY` of the attendance list. The list receives its rows already ordered. Check-out's `ORDER BY check_in_time DESC LIMIT 1` is modelled by `FindLatestOpen`, but ties between equal check-in times may go either way.
- `Manager.Dashboard`: the two SELECTs at manager.js:21 and 26-30 have no `ORDER BY`, and the model takes their rows in table (insertion) order. So the earliest row of the day decides a worker's status: a worker who checked in, out and in again today shows 퇴근. The database may return rows in another order.
- Time zones and daylight saving time. Local time is a fixed offset of UTC. `setHours`, `setDate` and `new Date(date)` are exact day arithmetic. For schedule registration, a date is a calendar-day number and an unparsable date is `Invalid`.
- Floating point. Hours are exact reals, so `toFixed(1)`, locale date and time strings and `padStart` formatting are left out. The dashboard clock is kept as hour and minute, and the list's times as timestamps.
- The parsing of `work_start_time` strings such as `'09:00:00'`. It is given as milliseconds after midnight.
- The listing routes `GET /employees`, `GET /schedule/date/:date` and `GET /schedule/my-schedule`. They are single queries.
- The login, notice and user-update routes, and the whole mobile app.
- Non-numeric or string ids from request bodies and URL parameters (the delete route's `:id` is a string that MySQL converts). Ids are integers.
- `Manager.AddEmployee`: a truthy but non-numeric `hourlyWage` is not modelled.
- `Manager.AddEmployee`: login ids are compared exactly (`Manager.LoginTaken`). `WHERE user_id = ?` compares by the column's collation, which under MySQL's default ignores case and accents, so "Alice" is refused when "alice" exists; the collation is not part of this model, and the uniqueness invariant is stated for exact equality.
- `Manager.AddEmployee`: the new user's `work_start_time` is taken to be NULL (`None`). The INSERT does not set it, and the column's default is not part of this model.

## Findings

| source | as written | input that shows it | evidently intended | confidence | as-written member | corrected member |
|---|---|---|---|---|---|---|
| server/routes/attendance.js:56-59 | the date of `now.toISOString()` is the UTC date, and the start time is then parsed as local time on that date | at UTC+9 with start time 09:00, a check-in at 08:00 local: the UTC date is the previous day, so the threshold is the previous day's 09:00 and the check-in is flagged late | late exactly when the check-in is after the start time on its own local day | not executed | `AttendanceRoute.IsLateAsWritten`, shown by `AttendanceRoute.AsWrittenCounterexample` | `AttendanceRoute.IsLate`, proved by `AttendanceRoute.IsLateSameEveryDay` and used by `AttendanceRoute.CheckIn` |
