# Bauzeitenplan scheduler — verified model

This project models the planning logic of the Bauzeitenplan generator, a
tool that builds a construction timetable for exhibition stands. The
planning runs in three steps:

1. **Total man-hours.** Each stand row has a stand type and an area. The
   stand type is upper-cased. It then gets the minutes-per-m² rate of the
   first configured type key that occurs in it as a substring, in
   configuration order, or 0 when no key occurs. The total is the sum of
   area × rate over all rows, divided by 60 (module `ManHours`,
   `man_hours.dfy`).
2. **Distribution.** The total is split over the construction phases in
   proportion to their slider percentages. The divisor is the sum of the
   percentages, or 1 when that sum is 0 (module `Distribution`,
   `distribution.dfy`).
3. **Scheduling.** The phases are laid out one after another, starting from a
   start instant, inside a daily working window `[open, close)`.
   - A cursor earlier than `open` snaps forward to it.
   - A cursor at or past `close` rolls over to the next day's `open`.
   - Otherwise the scheduler allocates `min(remaining, (close - cursor) × crew)`
     labor-hours. It emits a segment of wall length `alloc / crew` and
     moves the cursor to that segment's end.
   - If the crew can deliver nothing, the alert is raised and the segments
     emitted so far are thrown away. The alert ends the run: no later phase
     is examined, so the schedule ends up empty. With exact time this
     happens only for a crew of 0.

   The scheduler is an imperative method with two nested loops and a
   termination measure (module `Scheduler`, `scheduler.dfy`). Its properties
   are proved in `schedule_properties.dfy` (module `ScheduleProperties`).
   `plan.dfy` (module `Plan`) connects the three steps and works through
   concrete examples.

Time is exact. An instant is a `Cursor(day, tod)`, a day index plus a real
hour of the day. Labor-hours, areas and the crew size are reals.

`BuildSchedule` is specified by the predicate `IsScheduleOf`. That predicate
splits the schedule into one block of segments per task, so tasks with equal
names are still kept apart. It states four things:
- every segment lies inside one day's window;
- each segment starts where the cursor stood, advanced into the working
  window;
- all segments of a task except its last one end at the close;
- a task's segments together deliver exactly its hours.

`ScheduleUnique` proves that only one schedule satisfies this predicate.
So the postcondition pins the scheduler's output down completely.

## Model

| member | source | states |
|---|---|---|
| Scheduler.Advance | streamlit_app.py:141-147 | the instant where the next allocation starts is inside the window and not before the cursor: a cursor before the opening snaps to the opening, one at or past the close moves to the next day's opening |
| Scheduler.AdvanceEarliest | streamlit_app.py:141-147 | no working instant lies between the cursor and where Advance puts it, so snapping and rollover never skip usable time |
| Scheduler.BuildSchedule | streamlit_app.py:133-167 | the alert is raised exactly when the crew is 0 and some task has positive hours, and then the schedule is empty (all or nothing) and the run stopped at the first task with positive hours, examining none after it; otherwise the output is a schedule of all tasks in order, each segment inside one day's window, chained from the start, every task delivered exactly |
| Scheduler.ScheduleTask | streamlit_app.py:138-165 | one task's loop: infeasible exactly when the crew is 0 and the hours are positive; otherwise the segments carry the task name, lie in the window, are chained from the incoming cursor, all but the last end at the close, and deliver exactly the hours; a task of at most 0 hours emits nothing and leaves the cursor where it was |
| Scheduler.Allocate | streamlit_app.py:149-163 | the capacity test fails exactly when the crew is 0; otherwise the allocation is positive, at most the remaining hours, equals the segment's duration times the crew, and when it is less than the remaining hours the segment ends at the close and uses the whole rest of the window |
| ScheduleProperties.ScheduleOrdered | streamlit_app.py:138-165 | output order is chronological: each segment starts strictly after every earlier segment's start and not before its finish, so segments never overlap and earlier tasks come first |
| ScheduleProperties.ScheduleDeliversDemand | streamlit_app.py:158-164 | in a feasible run the labor in all segments adds up to the sum of the positive task hours |
| ScheduleProperties.AllocationBounds | streamlit_app.py:149-165 | every allocation of a task is positive, at most what was still to deliver before it (the remainder never goes negative), and at most the rest of that day's window times the crew |
| ScheduleProperties.BlockUnique | streamlit_app.py:138-165 | for given task, cursor, window and crew, only one sequence of segments satisfies the per-task contract |
| ScheduleProperties.ScheduleUnique | streamlit_app.py:133-167 | two results that both satisfy the scheduler's postcondition for the same inputs are equal, in segments and in their split per task |
| ScheduleProperties.LoadsAppend | streamlit_app.py:158-164 | delivered labor is additive over concatenated runs of segments |
| Plan.PartialForcesRollover | streamlit_app.py:145-147 | within one task every segment after a partial allocation starts at the next day's opening |
| Plan.SingleDayFit | streamlit_app.py:133-167 | 50 hours for a crew of 10 in an 8-19 window starting at day 0, 8:00 give exactly one segment from 8:00 to 13:00 |
| Plan.RolloverToNextDay | streamlit_app.py:133-167 | 200 hours for a crew of 14 in an 8-19 window give exactly 8:00-19:00 on day 0 and 8:00 to 8:00 + 23/7 h on day 1 |
| Plan.SnapAndSkip | streamlit_app.py:133-167 | a start at 6:00 snaps to the 8:00 opening, and a phase of 0 hours between two others emits nothing, so the next phase starts where the previous one ended |
| Plan.PlanDeliversTotal | streamlit_app.py:105-167 | with non-negative areas and a positive percentage sum, a feasible schedule of the unrounded distributed hours delivers exactly the project's total man-hours |
| ManHours.Upper | streamlit_app.py:88 | upper-casing keeps the length and maps every character through the letter conversion |
| ManHours.ContainsIff | streamlit_app.py:105 | the substring test holds exactly when the key equals some window of the stand type, in both directions |
| ManHours.MinutesPerSqm | streamlit_app.py:105 | the rate is 0 or the rate of a configured key that occurs in the stand type |
| ManHours.FirstMatchWins | streamlit_app.py:105 | when key k occurs and no earlier key does, the rate of key k is used |
| ManHours.NoMatchIsZero | streamlit_app.py:105 | when no key occurs in the stand type, the rate is 0 |
| ManHours.KeyOrderDecides | streamlit_app.py:105 | configuration order decides, not position in the text: "SYDNEY SMART" takes the rate of SMART when SMART is configured first |
| ManHours.DefaultLowerCaseMatches | streamlit_app.py:65-67 | with the default rates a lower-case "tokio" is upper-cased and matches TOKIO, at 30 minutes per m² |
| ManHours.UnparsedAreaAddsNothing | streamlit_app.py:89 | a row whose area cell does not parse adds nothing to the man-minutes or the total hours, whatever its stand type |
| ManHours.TotalHoursNonNegative | streamlit_app.py:105-107 | with no negative area the total man-hours are not negative |
| ManHours.ManMinutesAppend | streamlit_app.py:106-107 | the man-minutes of two tables together are the sum of their man-minutes |
| Distribution.Divisor | streamlit_app.py:123 | the divisor is at least 1 and equals the percentage sum whenever that is positive |
| Distribution.DistributeAt | streamlit_app.py:124 | phase i keeps its name and gets the total times its percentage over the divisor |
| Distribution.DistributeNonNegative | streamlit_app.py:124 | a non-negative total gives every phase non-negative hours |
| Distribution.DistributeMonotone | streamlit_app.py:124 | with a non-negative total, a larger percentage never gets fewer hours |
| Distribution.DistributeSums | streamlit_app.py:123-124 | when the percentages sum to a positive value the phase hours add up to the total |
| Distribution.DistributeZeroPct | streamlit_app.py:124 | a phase at 0 percent gets 0 hours |
| Distribution.DistributeAllZero | streamlit_app.py:123-124 | when every percentage is 0 every phase gets 0 hours |
| Distribution.DistributeDemand | streamlit_app.py:123-124 | with a non-negative total and a positive percentage sum, the distribution's positive hours add up to the total, so no phase is skipped for being negative |
| Distribution.DefaultSharesPct | streamlit_app.py:111-116 | the default percentages add up to 84 |
| Distribution.DefaultSharesSum | streamlit_app.py:111-124 | under the default percentages the divisor is 84 and the phase hours still add up to the total |

## Left out

- The web user interface is not modelled: page layout, sidebar inputs, sliders, tables, tabs, charts and the error messages shown. Their values enter the model as parameters: the stand table, the rates, the percentages, the start instant, the window and the crew size.
- The manual adjustment of the distributed hours (streamlit_app.py:128-131) is user input. The scheduler takes any task hours.
- Plan.PlanDeliversTotal: feeds the unrounded distribution to the scheduler. The program's input field for each phase starts at `round(h, 1)` (streamlit_app.py:131), so an unedited run schedules the rounded hours (streamlit_app.py:138). Each phase can then be off by up to 0.05 h, and a phase under 0.05 h rounds to 0 and is skipped. With a total of 1 h and the default percentages the program schedules 0.9 h. The rounding is not modelled.
- File upload, CSV and Excel reading, and project-file persistence are I/O and are not modelled. The table is given as a sequence of `Stand` rows, each with an optional parsed area.
- The per-hall and per-type area tables, the team summary table with its display rounding, and the PDF and CSV exports are presentation over foreign libraries. They are not modelled.
- Floating point and `timedelta` are replaced by exact reals. Two effects are therefore not captured:
  - the truncation to whole seconds when the remaining window is measured (streamlit_app.py:149);
  - the microsecond rounding of the segment length (streamlit_app.py:161).

  In the program these make most plans longer than one day come out infeasible even with a positive crew. The wall length `alloc / total_team` (streamlit_app.py:159) usually leaves the cursor with a sub-second part. A partial allocation from such a cursor then counts only the whole seconds left in the window (streamlit_app.py:149), so its segment ends that fraction of a second before the close. The next pass finds the cursor still before the close, measures 0 whole seconds, gets capacity 0, raises the alert and empties the schedule (streamlit_app.py:151-156). The alert ends the run (streamlit_app.py:166-167): no later phase is examined, so the schedule ends up empty. The model measures the window exactly: a partial allocation ends exactly at the close and rolls over to the next day.
- Calendar dates are a day index. Months, leap years and time zones do not matter, because the window is the same every day.
- Scheduler.BuildSchedule: requires `open < close`, which the source never checks. With an empty or inverted window, the source's rollover at streamlit_app.py:141-147 never ends. The window's close is also required to be below 24:00, as a time of day is.
- Scheduler.BuildSchedule: the crew size is a non-negative real. The source has a sum of three non-negative integer inputs, which is a special case.
- Scheduler.BuildSchedule: the start is any instant whose hour is below 24. The source always passes the window's opening on the start date. The general start is what makes the snap at streamlit_app.py:143-144 reachable.
- Scheduler.BuildSchedule: the error message shown when the schedule is empty (streamlit_app.py:153-155, 276) is presentation and is not modelled. The method returns the alert flag instead.
- ManHours.Upper: upper-cases only the ASCII letters a-z. The source's `str.upper` also converts other letters, such as ä to Ä; this is not modelled because it needs Unicode case tables.
- Parsing the area text into a number (streamlit_app.py:89) is left out. The model takes the parsed result, or its absence, as input. An absent value counts as area 0.
