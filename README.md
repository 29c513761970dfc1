# Aura task manager — a verified model of its store, statistics and focus timer

Aura is a single-page productivity app. Its `TaskManager` object keeps four stored lists:

- freeform tasks, each with a category;
- daily tasks, each with a time and a priority;
- focus sessions logged by a countdown timer;
- focus goals (a number of sessions a day, of a set length, for a number of days).

From these lists it computes the dashboard statistics. These are completion counts and a percentage, a per-category tally, a three-month histogram of completions, and month-over-month growth. It also computes the goal figures: today's qualifying sessions, progress, days left, the daily streak and the total focus time.

A small set of text helpers formats these figures. One renders minutes as `1d 3h` / `2h 5m` / `45m`. Two others convert between the 24-hour value of a time input and the 12-hour text shown on a daily task.

This project models that core in Dafny:

- `records.dfy` holds the record types and the pure list updates behind the mutators (toggle, remove, goal activation, goal edit).
- `statistics.dfy` holds `calculateStats`, `calculateMonthlyData` and `calculateGrowthMetrics`.
- `goals.dfy` holds the goal engine.
- `timeformat.dfy` holds the text helpers.
- `manager.dfy` holds the `TaskManager` class, with its lists as fields its methods reassign. It also holds the `Timer` class, whose fields `minutes`, `seconds`, `totalSeconds` and `isRunning` the timer methods update step by step, and the free functions `updateGoal` and `deleteGoal`.
- `dates.dfy`, `numbers.dfy`, `text.dfy`, `lists.dfy` and `wrappers.dfy` model the JavaScript built-ins the core relies on:
  - `Date` as a calendar date plus milliseconds, with `toDateString()` equality as equal day numbers;
  - `Math.round` and `Math.ceil` on exact quotients;
  - `toString`, `padStart`, `trim`, `parseInt` on digit strings;
  - `filter`, `find`, `some` and `length`.

"Now" (`new Date()` / `Date.now()`) is a parameter of every operation that reads the clock.

## Model

| member | source | states |
|---|---|---|
| Numbers.RoundDiv | script.js:167 | `Math.round(p/q)`: the result r satisfies 2qr <= 2p+q < 2qr+2q, i.e. it is the nearest integer with halves rounded up |
| Numbers.CeilDiv | script.js:1143 | `Math.ceil(p/q)`: the least integer at or above the quotient |
| Numbers.RoundDivAtLeast | script.js:1487-1491 | a rounded quotient is at least k exactly when 2p+q >= 2qk |
| Numbers.RoundDivExact | script.js:1487-1491 | rounding an exact multiple gives the multiplier back |
| Dates.MarchBoundary | script.js:232 | March 1st follows the last day of February by one day number, in leap and common years alike |
| Dates.InYearBoundary | script.js:232 | the first of any other month follows the last day of the month before by one day number |
| Dates.MonthBoundary | script.js:232 | the first of a month follows the last day of the month before by one day number |
| Dates.MonthSpan | script.js:230-243 | a real date lies at or after the start of its month and before the start of the next month |
| Dates.AtOrAfterMonthStart | script.js:230-241 | `taskDate >= new Date(y, m, 1)` holds exactly when the date's month is that month or a later one |
| Records.NewTask | script.js:762-776 | `addTask` appends a pending task with the given title and category, created now, without a completion date |
| Records.NewDailyTask | script.js:778-793 | `addDailyTask` appends a pending daily task with the given time and priority, created now |
| Records.NewFocusSession | script.js:1017-1031 | a logged session is completed and carries the given duration, type and date |
| Records.Toggle | script.js:800-805 | toggling flips `completed`; the completion date is now when it becomes completed and absent when it becomes pending; the result is consistent |
| Records.FindTask | script.js:797 | `find` by id gives the first task with that id, or none when no task has it |
| Records.ToggleById | script.js:795-814 | the first task with the id becomes its `Toggle` (flipped, completion date `now` or removed, other fields kept) and no other task changes; an unknown id changes nothing; ids, consistency and real dates are kept |
| Records.ToggleTwice | script.js:795-814 | toggling the same id twice restores the list, except for a new completion date |
| Records.RemoveTask | script.js:818-823 | the `filter` keeps exactly the tasks of the list whose id differs, and never lengthens it; a one-task list keeps its task exactly when the id differs |
| Records.RemoveTaskSplit | script.js:818-823 | deleting works on each part of the list separately, so the kept tasks stay in their original order |
| Records.RemoveTaskExact | script.js:816-827 | deleting keeps exactly the tasks with another id, each with all its copies, shrinks the list by the number of matches, and keeps consistency and real dates |
| Records.ActiveGoal | script.js:1421 | `find(goal => goal.active)` gives the first active goal of the list (no earlier goal is active), or none when no goal is active |
| Records.NewGoalIsTheActiveOne | script.js:1033-1055 | after `addGoal` the new goal is last and is the one active goal; the earlier goals keep every field except `active` |
| Records.RemoveGoal | script.js:2470 | the `filter` keeps exactly the goals whose id differs, so no goal with that id remains; a one-goal list keeps its goal exactly when the id differs |
| Records.RemoveGoalSplit | script.js:2470 | deleting works on each part of the list separately, so the kept goals stay in their original order |
| Records.RemoveGoalMultiset | script.js:2470 | every copy of a goal with another id is kept and every copy of one with that id is dropped |
| Records.RemoveGoalKeepsOneActive | script.js:2469-2473 | deleting goals keeps at most one active goal and removes exactly the goals with that id |
| Records.EditGoal | script.js:2453-2460 | the first goal with the id takes the new title, session count, session length, daily target and duration; every other goal, and every other field, stays as it was; an unknown id changes nothing; so at most one goal stays active |
| Statistics.Percentage | script.js:167 | the completion percentage is 0 with no tasks or nothing completed, 100 when all are completed, and always within 0..100 |
| Statistics.TallyCategories | script.js:170-180 | the `forEach` that builds `categories` computes the category tally |
| Statistics.TallyLookup | script.js:170-180 | each category's entry counts exactly the tasks filed under it, and how many of them are completed |
| Statistics.CategoryCompletedAtMostTotal | script.js:170-180 | a category's completed count never exceeds its total, which is at least 1 |
| Statistics.MissingCategoryIsPersonal | script.js:172 | tasks without a category (daily tasks, empty categories) are all tallied under `Personal` |
| Statistics.TallyNames | script.js:170-180 | the tally's keys are exactly the categories of the tasks |
| Statistics.TallyDistinct | script.js:170-180 | no category appears twice in the tally |
| Statistics.TallyLength | script.js:170-180 | the tally has exactly one entry per distinct category of the tasks |
| Statistics.TallySums | script.js:162-180 | the category totals add up to the task count, and the completed counts to the completed count |
| Statistics.MonthlyHistogram | script.js:197-221 | three buckets with distinct month names, the last one the current month |
| Statistics.MonthKeys | script.js:202-207 | the first loop creates one zero count per month, oldest first, named after the current month and the two before it |
| Statistics.CountTask | script.js:209-218 | one step of the second loop adds the task to the bucket named after its completion month, so every bucket again counts exactly its month's completions in the tasks seen so far |
| Statistics.CalculateMonthlyData | script.js:197-221 | the two loops of `calculateMonthlyData` compute the histogram: each bucket counts the completed tasks whose completion month matches |
| Statistics.MonthlyIgnoresYear | script.js:210-217 | the histogram looks only at the completion month: moving completions to another year leaves it unchanged |
| Statistics.MonthlyTotalBound | script.js:210-217 | the three buckets together count at most the completed tasks |
| Statistics.CurrentMonthWindow | script.js:230-241 | a date is counted as this month exactly when its month is this month or later |
| Statistics.LastMonthWindow | script.js:224-247 | with the corrected end of last month, a date is counted as last month exactly when it falls in the previous calendar month |
| Statistics.LastMonthWindowAsWritten | script.js:231-243 | the window as written lies inside last month and misses every time after midnight on its last day |
| Statistics.GrowthPercentage | script.js:250-261 | 100 with nothing last month and something this month; 0 with nothing in either; otherwise the rounded percentage change, which is at least -100, is non-negative exactly when this month reaches last month to within rounding, is 0 for equal counts and 100 for a doubling |
| Statistics.CalculateGrowthMetrics | script.js:224-263 | the counting loop gives this month's count and last month's count, the latter over the corrected window of the finding below; the percentage is that of the two counts; `isPositiveGrowth` holds exactly when it is non-negative |
| Statistics.GrowthCountsBound | script.js:237-245 | no task is counted in both months: the two counts add up to at most the completed count |
| Statistics.LastMonthCountIsCalendarMonth | script.js:224-247 | last month's count is the number of tasks completed in the previous calendar month |
| Statistics.AsWrittenUndercounts | script.js:231-243 | the window as written never counts more than the calendar month |
| Statistics.LastDayOfMonthIsMissed | script.js:231-243 | a task completed at noon on the last day of last month is counted in neither month by the window as written, and in last month by the corrected one |
| FocusEngine.TodayCompletedSessions | script.js:977-984 | today's qualifying sessions (same day, at most 5 minutes short of the goal's length, focus type) number at most the sessions |
| FocusEngine.Progress | script.js:1131-1134 | progress is within 0..100, is 0 with no sessions, and is 100 exactly when the sessions reach the target to within rounding |
| FocusEngine.ProgressMonotone | script.js:1131-1134 | more qualifying sessions never give less progress |
| FocusEngine.ProgressNearest | script.js:1133 | below 100, progress is the rounded percentage of sessions over target |
| FocusEngine.GoalProgressForGoal | script.js:1131-1134 | progress for a goal is within 0..100: 100 once the target is met, 0 with no qualifying session |
| FocusEngine.GoalProgress | script.js:966-975 | `calculateGoalProgress` is 0 without an active goal, and otherwise the active goal's progress |
| FocusEngine.AddSessionNeverLowersProgress | script.js:977-984 | logging a session never lowers progress, and a session that does not qualify leaves it unchanged |
| FocusEngine.ProgressExample | script.js:977-984 | for 4 sessions of 25 minutes, today's 24- and 26-minute focus sessions count, while a 19-minute one, a break and yesterday's session do not: progress is 50 |
| FocusEngine.DaysLeft | script.js:1136-1146 | days left are never negative, and are 0 exactly when the goal's end is not after now |
| FocusEngine.DaysLeftAtStart | script.js:1136-1146 | at the goal's start instant, the days left are its duration |
| FocusEngine.DaysLeftMonotone | script.js:1136-1146 | days left never increase as time passes, and once the goal has started they are at most its duration |
| FocusEngine.HasSessionOn | script.js:950-952 | `some` session on a day holds exactly when one of the sessions has that day number |
| FocusEngine.FirstDayIsFirst | script.js:942-964 | no session lies before the earliest session day, which bounds the walk back |
| FocusEngine.CalculateCurrentStreak | script.js:942-964 | the loop returns n such that every day from today back n-1 days has a session and the day before them has none |
| FocusEngine.StreakUnique | script.js:942-964 | that n is unique |
| FocusEngine.StreakBounded | script.js:942-964 | the streak is 0 without sessions, and otherwise reaches no further back than the earliest session day |
| FocusEngine.HasSessionOnAppend | script.js:950-952 | after logging a session, a day has a session exactly when it had one or is the new session's day |
| FocusEngine.SessionTodayExtendsStreak | script.js:942-964 | logging a session today turns a streak ending yesterday into one a day longer ending today |
| FocusEngine.TotalFocusTime | script.js:929-933 | the total focus time is non-negative when no duration is negative |
| FocusEngine.TotalFocusTimeAppend | script.js:929-933 | logging a session adds its length when it is a focus session, and nothing for a break |
| FocusEngine.TotalFocusTimeIgnoresBreaks | script.js:929-933 | the total equals the plain sum of the lengths of the focus sessions, filtered in order |
| Text.Trim | script.js:2443 | the trimmed title is a slice `s[a..b]` of the input where everything cut off at either end is white space (JavaScript's full white-space and line-terminator set) and the slice neither starts nor ends with white space; it is empty exactly when the input is all white space |
| TimeFormat.FormatDuration | script.js:994-1014 | the rendering has at least two characters, and reading it back (one part, or two parts split at the first space, each a number and a `d`/`h`/`m` unit) gives the minutes, except that from one day on the minutes within the hour are dropped |
| TimeFormat.FormatDurationShape | script.js:994-1014 | the text ends in `m` under an hour or when an hour count has leftover minutes, in `d` for whole days, otherwise in `h`; it has two parts (a space) exactly when days have leftover hours or hours have leftover minutes |
| TimeFormat.ReadTwoParts | script.js:1003-1009 | a two-part rendering such as `1d 3h` reads back as the sum of its parts |
| TimeFormat.FormatTime12 | script.js:1913-1919 | a valid `HH:MM` value renders as a valid 12-hour text |
| TimeFormat.ConvertTo24Hour | script.js:2124-2137 | a valid 12-hour text converts to a valid `HH:MM` value |
| TimeFormat.Hour24OfHour12 | script.js:2124-2136 | converting the 12-hour hour and meridiem of an hour 0..23 back gives that hour, padded to two digits |
| TimeFormat.Hour12Back | script.js:2128-2136 | a converted hour is two digits within 00..23, and its 12-hour rendering and meridiem are the converted ones |
| TimeFormat.Time24RoundTrip | script.js:1913-1919 | `convertTo24Hour(formatTime(t)) == t` for every valid `HH:MM` value |
| TimeFormat.Time12RoundTrip | script.js:2124-2137 | `formatTime(convertTo24Hour(u)) == u` for every valid 12-hour text |
| Manager.Timer.constructor | script.js:1335-1347 | `initializeFocusTimer` sets up a stopped, full focus countdown of the given minutes |
| Manager.Timer.SetTimer | script.js:1429-1435 | `setTimer` loads a full countdown (remaining equals total) and keeps the running flag |
| Manager.Timer.CountDown | script.js:1441-1450 | a tick takes one second off and keeps seconds in 0..59; a countdown at 00:00 is left untouched and reported as expired |
| Manager.Timer.Snapshot | script.js:1539-1548 | the saved timer state carries the timer's fields |
| Manager.Timer.Restore | script.js:1550-1566 | falsy fields fall back to 25, 0, 1500 and focus; a timer saved running comes back stopped; restoring the timer's own snapshot changes nothing unless its minutes or its total were 0, and 0 minutes come back as 25 |
| Manager.TaskManager.GoalMinutes | script.js:1498-1499 | the timer's fallback length is the active goal's session length, or 25 |
| Manager.TaskManager.constructor | script.js:3-70 | stored lists (empty when absent) and app state are loaded; the timer starts stopped, a full focus countdown of the active goal's length (or 25); when the last page was the focus page the saved minutes, seconds, total and mode are restored with the `||` fallbacks 25, 0, 1500 and focus |
| Manager.TaskManager.AddTask | script.js:762-776 | appends the new task and leaves everything else alone, keeping the store invariant |
| Manager.TaskManager.AddDailyTask | script.js:778-793 | appends the new daily task and leaves everything else alone, keeping the store invariant |
| Manager.TaskManager.ToggleTask | script.js:795-814 | toggles in the list `isDaily` selects and keeps the store invariant |
| Manager.TaskManager.DeleteTask | script.js:816-827 | filters the list `isDaily` selects; exactly the tasks with another id remain; the invariant is kept |
| Manager.TaskManager.AddFocusSession | script.js:1017-1031 | appends the session and raises the total focus time by its length when it is a focus session |
| Manager.TaskManager.UpdateTimerFromActiveGoal | script.js:1420-1427 | a stopped timer is loaded with the active goal's length; a running timer, or no active goal, leaves it alone |
| Manager.TaskManager.LoadGoalsToUI | script.js:1057-1089 | redrawing a non-empty goal list loads a stopped timer with the active goal's length; with no active goal, or a running timer, the countdown is untouched |
| Manager.TaskManager.DeactivateGoals | script.js:1035 | the `forEach` clears every `active` flag and changes nothing else: no goal stays active |
| Manager.TaskManager.AddGoal | script.js:1033-1055 | the new goal is appended as the only active goal, and a stopped timer is loaded with its session length; the running flag, the timer's mode and the other lists and app state are kept |
| Manager.TaskManager.SaveTimerState | script.js:1539-1548 | the app state's timer snapshot becomes the timer's current state |
| Manager.TaskManager.StartTimer | script.js:1437-1439 | the timer is running, with its countdown and mode unchanged |
| Manager.TaskManager.PauseTimer | script.js:1458-1463 | the timer stops where it is, and that stopped state is saved |
| Manager.TaskManager.ResetTimer | script.js:1465-1481 | stopped and full again at the active goal's length, else the active preset's, else 25, in the same mode; the app state changes only in its saved timer, which is the new one |
| Manager.TaskManager.CompleteTimer | script.js:1483-1501 | a session is logged exactly when the countdown was at least 20 minutes long, with its length rounded to whole minutes (so at least 20); the stopped countdown is saved as it was; the timer then stops, loaded with the active goal's length or 25 |
| Manager.TaskManager.Tick | script.js:1441-1454 | on a valid countdown, a tick lowers the remaining seconds by one, keeps the mode and saves the timer; at 00:00 it completes the timer: a countdown of 20 minutes or more is logged as a focus session of its rounded length, 00:00 is saved stopped, and the timer is reloaded with the active goal's length or 25 in the same mode; in both cases the app state changes only in its saved timer |
| Manager.TaskManager.CalculateStats | script.js:162-195 | completed + pending = total; the percentage is `Percentage` of the two (0 with no tasks, within 0..100); the categories are the tally and add up to the totals; the histogram and growth figures are those of all tasks and daily tasks together, with last month counted over the corrected window of the finding below, the growth percentage that of the two counts and the growth flag its sign |
| Manager.FullCountdownCounts | script.js:1483-1491 | completing a countdown of a goal's length (20 minutes or more) logs a session of exactly that length, which raises the goal's count for today by one |
| Manager.UpdateGoal | script.js:2436-2467 | the edit is applied exactly when the trimmed title and the four numbers are all truthy, otherwise the goals are unchanged; when a goal with the id exists the list is redrawn, so a stopped timer follows the active goal's (possibly edited) length; the one-active-goal rule is kept |
| Manager.DeleteGoal | script.js:2469-2473 | exactly the goals with another id remain and the one-active-goal rule is kept; the list is redrawn, so a stopped timer follows the remaining active goal |

## Left out

- Persistence: `localStorage` and JSON. The constructor takes the parsed stored values, with `None` for a missing key. The `save*` calls are no-ops, except `saveTimerState`, which updates the modelled app state.
- Rendering, charts, animations, notifications, sounds, `alert` and every DOM read and write. `resetTimer`'s active preset is a parameter. `updateTimerPresetFromGoal` and the preset buttons are not part of this model.
- Scheduling: `setInterval` / `clearInterval`. The interval callback is the explicit `Manager.TaskManager.Tick`. The chance of two intervals running at once after repeated starts is not modelled.
- Time zones and daylight saving. A day is always 86 400 000 ms, and "now" is a parameter. Dates are read as their local calendar fields.
- Floating point. Quotients are exact rationals rounded as `Math.round` / `Math.ceil` do. Durations and minutes are integers, as the forms and the timer produce them.
- `getTodayFocusSessions` and `calculateTodayFocusTime` only feed the display. They are not part of this model.
- `updateTask`, `updateDailyTask` and the modal form handlers edit only the page. They are not part of this model.
- `toggleTask` mutates the task object found by `find`. The model replaces that element of the list instead. No other reference to a task object exists in the core, so no aliasing is lost.
- FocusEngine.Progress: requires `sessionCount >= 1`. The goal forms enforce `min="1"` and `createGoal` rejects 0. With 0 sessions the JavaScript would compute `Infinity` (capped to 100) when a session was done today, and `NaN` otherwise.
- TimeFormat.FormatDuration: takes `nat` minutes only. Its inputs are totals of non-negative session lengths. Negative or fractional minutes are not modelled.
- TimeFormat.FormatTime12: requires a well-formed `HH:MM` value, which is what a time input produces. TimeFormat.ConvertTo24Hour likewise requires a well-formed 12-hour text, which is what `formatTime` produces.
- Statistics.CalculateMonthlyData: requires every stored completion date to be a real calendar instant. Stored dates come from `new Date().toISOString()`.
- Manager.TaskManager.CalculateStats: requires the same of the stored completion dates.
- Manager.TaskManager.LoadGoalsToUI: assumes the page has the goal container. Without it, `loadGoalsToUI` returns before touching the timer.
- Manager.Timer.Restore: the `timerState && this.timer` guard is always true here, because `init` always creates the timer before restoring it.
- Ids come from `Date.now()` (`StampedId`). Two records created in the same millisecond would share an id. The model does not assume ids are unique; `find` takes the first match, as the source does.

## Findings

| source | as written | input that shows it | evidently intended | confidence | as-written member | corrected member |
|---|---|---|---|---|---|---|
| script.js:232-243 | `lastMonthEnd = new Date(y, m, 0)` is midnight at the start of the last day of last month, and `taskDate <= lastMonthEnd` is the upper bound of last month | on 15 October 2026, a task completed at 12:00 on 30 September 2026 is counted in neither month | count every completion in the previous calendar month, i.e. bound last month by the start of this month | high (not executed) | Statistics.LastDayOfMonthIsMissed | Statistics.LastMonthWindow |
