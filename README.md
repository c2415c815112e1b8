# LocalMate task page and session script, in Dafny

LocalMate is a small personal-task application: a FastAPI backend and two
browser scripts. This project models the logic of the two scripts and proves
properties of it. `frontend/js/tasks.js` is the task page, and
`frontend/js/auth.js` is the session and localization script every page loads.

- **Countdown timer** (`countdown_timer.dfy`). The study timer of the task
  page holds its state in four script variables: `timerInterval`,
  `timerEndTime`, `currentTimerTaskId` and `timerDurationMinutes`.
  - The model adds what the timer functions write to the page (the `MM:SS`
    display, the button's `onclick`, the disabled inputs) and what they hand
    to the host (the intervals it keeps firing, the time entries posted to the
    server).
  - Class `Timer` holds that state in fields. Its methods `StartTimer`,
    `UpdateTimer`, `StopTimer`, `TimerCompleted` and `ResetTimerUI` change the
    fields in place. Each method is proved equal to a step function on the
    value `TimerState`.
  - The lemmas about those step functions prove that validation changes
    nothing and that the remaining time is never negative.
  - As the button is wired, the timer stays idle or running and a held
    interval is always scheduled (`RunAsWrittenKeepsWiredValid`). But a
    stopped run's interval goes on posting an entry on every firing (see
    "## Findings").
  - With the toggle click `ClickStep`, the full invariant `Valid` also holds:
    exactly the held interval is scheduled and every entry names a task. At
    most one entry is posted per run. Both rest on `timerCompleted` running
    to its end before the next click (see "## Left out").
  - Clicks and interval firings are events; `Run` applies a sequence of them.
- **Task lists** (`calendar.dfy`, `task_lists.dfy`).
  - `isToday` and `isOverdue` work on local calendar fields.
  - The `loadTasks` loop sorts the tasks into "today", "pending" or neither.
  - The `loadTaskSelector` filter offers the incomplete tasks to the timer.
- **Formatters** (`decimal.dfy`, `formatters.dfy`). `formatTime` writes
  `MM:SS` and is proved to round-trip. The total-time text comes from
  `updateTaskTotalTime`.
- **Localization and session** (`localization.dfy`, `auth_page.dfy`).
  - The two translation tables, `t(key)` and `updatePageText`.
  - `currentLanguage`, `setLanguage` and the text direction.
  - The token and user-data helpers and `logout`, over `localStorage`, which
    is modelled as a `map<string, string>` field of the class `Page`.

Clock readings are parameters: `Date.now()` is a number of milliseconds, and
`new Date()` is a `LocalDateTime` of local calendar fields. Each modelled
operation takes one reading, where the source may read the clock more than
once (see "## Left out"). `setInterval` is a set of scheduled handles plus the next handle the host
hands out. An interval firing is an explicit event that carries the clock
reading.
Handles start at 1, and both invariants (`Valid`, `WiredValid`) keep a held
handle positive. So the model's test for a held interval agrees with the
source's truthiness test `if (timerInterval)`.

Two details where the code is easy to misread:
- `timerEndTime` is in milliseconds (`Date.now() + duration * 60 * 1000`).
- An idle timer's duration is `0`, not `null`.

`tasks.js` asks `t` for keys the two tables in `auth.js` do not define, such
as `hours`, `minutes`, `startTimer` and `stopTimer`. `t` returns those keys
unchanged (`TranslateSpec`).

## Model

| member | source | states |
|---|---|---|
| Decimal.NatToString | frontend/js/tasks.js:378-379 | `String(n)`: at least one character, digits only, a single digit exactly below 10, no leading zero except for 0 |
| Decimal.PadStart2 | frontend/js/tasks.js:379 | `padStart(2, '0')`: length at least two, the original string as a suffix, zeros only in front of it |
| Decimal.DecimalValueOfNatToString | frontend/js/tasks.js:378-379 | reading back the digits `String(n)` wrote gives `n` |
| Decimal.NatToStringLength | frontend/js/tasks.js:379 | `String(n)` has at most two digits below 100 and at least three from 100 on |
| Decimal.PadStart2Value | frontend/js/tasks.js:379 | zero-padding keeps a digit string's digits and its value |
| Formatters.FormatTime | frontend/js/tasks.js:376-380 | `formatTime(seconds)`: whole minutes and leftover seconds, each padded to two digits, around a colon; its properties are stated by `FormatTimeShape` and `FormatTimeRoundTrip` |
| Formatters.FormatTimeShape | frontend/js/tasks.js:376-380 | `formatTime(s)` is at least five characters with a colon three from the end; the minute field reads back as `s / 60` and the two-digit second field as `s % 60`; length 5 exactly when `s < 6000` |
| Formatters.FormatTimeRoundTrip | frontend/js/tasks.js:376-380 | parsing `formatTime(s)` as a clock gives back `s` |
| Formatters.FormatTimeInjective | frontend/js/tasks.js:376-380 | different second counts never show the same text |
| Formatters.TotalTimeText | frontend/js/tasks.js:511-529 | the total-time text is hidden exactly when the total is not positive; the shown text case by case is stated by `TotalTimeTextCases` |
| Formatters.TotalTimeTextCases | frontend/js/tasks.js:511-529 | total time: hidden when the total is not positive; minutes only below an hour; hours only on a whole hour; otherwise both; the hours and minutes shown add up to the total |
| Calendar.IsToday | frontend/js/tasks.js:18-25 | `isToday`: day of month, month and year agree with the reading of `new Date()`; `IsTodaySameDay` states it as the same calendar day |
| Calendar.IsOverdue | frontend/js/tasks.js:28-35 | `isOverdue`: both dates at local midnight, compared with `<`; `IsOverdueEarlierDay` states it as an earlier calendar day |
| Calendar.DayNumberOrder | frontend/js/tasks.js:28-35 | comparing two dates at midnight with `<` agrees with calendar-day order; equal day numbers mean the same day, month and year |
| Calendar.IsTodaySameDay | frontend/js/tasks.js:18-25 | `isToday` holds exactly when both dates fall on the same calendar day |
| Calendar.IsOverdueEarlierDay | frontend/js/tasks.js:28-35 | `isOverdue` holds exactly when the due day is strictly before today, whatever the times of day |
| Calendar.TodayIsNotOverdue | frontend/js/tasks.js:18-35 | a task due later today is not overdue: `isToday` and `isOverdue` never hold together |
| Calendar.DayTrichotomy | frontend/js/tasks.js:18-35 | every due date is today, overdue or on a later day, and a later day is neither of the other two |
| TaskLists.BucketOf | frontend/js/tasks.js:188-194 | for one clock reading, a task is in neither list exactly when it is completed and not due today, and a pending task is neither overdue nor due today |
| TaskLists.SplitTasks | frontend/js/tasks.js:184-195 | the `forEach` partition loop builds exactly the today and pending selections, in input order |
| TaskLists.SelectAppend | frontend/js/tasks.js:187-195 | selection distributes over concatenation, so each list keeps the input order |
| TaskLists.SelectMembers | frontend/js/tasks.js:187-195 | a task is in a bucket's list exactly when it is an input task whose branch leads to that bucket |
| TaskLists.SelectPartition | frontend/js/tasks.js:187-195 | today, pending and "neither" together are the input as a multiset: nothing lost, nothing doubled |
| TaskLists.BucketsDisjoint | frontend/js/tasks.js:187-195 | no task is both in the today list and in the pending list |
| TaskLists.BucketRules | frontend/js/tasks.js:188-194 | for one clock reading, an incomplete task due today or earlier goes to today, and one due later goes to pending; a completed task goes to today when due today and nowhere otherwise |
| TaskLists.IncompleteTasks | frontend/js/tasks.js:367 | the filter keeps no completed task and never more tasks than it was given; `IncompleteTasksMembers` states membership in both directions |
| TaskLists.IncompleteTasksMembers | frontend/js/tasks.js:367 | the selector offers a task exactly when it is an input task that is not completed |
| TaskLists.SelectorOptions | frontend/js/tasks.js:364-372 | the selector holds one option more than there are incomplete tasks, and the first is the placeholder with an empty value |
| TaskLists.SelectorTasksAreListed | frontend/js/tasks.js:187-195 | for one and the same fetched task list and one clock reading, every task the selector offers is also listed, today or pending |
| TaskLists.SelectorOptionValues | frontend/js/tasks.js:364-372 | the selector is the placeholder with an empty value, then one option per incomplete task whose value is the task's decimal id and whose label is its title |
| Localization.TableKeysAgree | frontend/js/auth.js:6-53 | the `en` and `fa` tables define the same keys |
| Localization.TableValuesProper | frontend/js/auth.js:6-53 | no table entry is empty and none equals its own key |
| Localization.Translate | frontend/js/auth.js:72-74 | `t(key)` answers exactly when the language has a table, and never with an empty string for a non-empty key |
| Localization.TranslateSpec | frontend/js/auth.js:72-74 | `t(key)` answers exactly for the two supported languages: the table string for a table key, otherwise the key itself; never empty for a non-empty key |
| Localization.RefreshElement | frontend/js/auth.js:78-83 | refreshing one element fails only on an annotated element, and keeps the element's tag and key |
| Localization.RefreshElementChoice | frontend/js/auth.js:78-83 | an annotated `INPUT` with a placeholder gets `t(key)` as its placeholder, any other annotated element as its text; unannotated elements stay as they are; the refresh fails only on an annotated element when the language has no table |
| Localization.UpdatePageText | frontend/js/auth.js:76-85 | the loop refreshes every element as `RefreshElement` says when no lookup throws; when one throws, it reports failure and the elements are unchanged |
| Auth.InitialLanguage | frontend/js/auth.js:55 | the starting language is the stored non-empty `language` value, otherwise `en` |
| Auth.DirectionFor | frontend/js/auth.js:60-66 | the direction is right-to-left exactly for `fa` |
| Auth.Page.constructor | frontend/js/auth.js:55 | loading the script keeps the store and takes `currentLanguage` from it |
| Auth.Page.GetToken | frontend/js/auth.js:92-94 | the stored token, and none exactly when none is stored |
| Auth.Page.IsAuthenticated | frontend/js/auth.js:112-114 | authenticated exactly when a token is stored and it is not empty |
| Auth.Page.GetUserData | frontend/js/auth.js:105-110 | the stored username and language, each absent exactly when not stored |
| Auth.Page.SetToken | frontend/js/auth.js:88-90 | stores the token and nothing else; the user is then authenticated exactly when the token is non-empty |
| Auth.Page.RemoveToken | frontend/js/auth.js:96-98 | removes the token and nothing else; the user is no longer authenticated |
| Auth.Page.SetUserData | frontend/js/auth.js:100-103 | a later `getUserData()` returns the given username and language; the token is untouched |
| Auth.Page.Logout | frontend/js/auth.js:173-177 | removes token and username, keeps the stored language; the user is no longer authenticated |
| Auth.Page.SetLanguage | frontend/js/auth.js:57-70 | the language becomes current and stored, the direction follows it, and the page text is refreshed as `UpdatePageText` states |
| Auth.LoginLogoutScenario | frontend/js/auth.js:55-114 | from an empty store: not authenticated; authenticated after storing a token and profile, which reads back; not authenticated after logout; the next load starts in the stored language |
| CountdownTimer.Remaining | frontend/js/tasks.js:416 | remaining seconds are never negative: zero exactly when less than a second is left (or there is no end time), otherwise the floor of the milliseconds left divided by 1000 |
| CountdownTimer.Initial | frontend/js/tasks.js:353-356 | the four declarations give a valid idle timer with nothing scheduled or posted |
| CountdownTimer.RemainingCountsDown | frontend/js/tasks.js:416 | as the clock advances the remaining time never goes up |
| CountdownTimer.RemainingAtStart | frontend/js/tasks.js:399-416 | when the first `updateTimer` reads the same clock value as `startTimer`, the whole duration, in seconds, is left |
| CountdownTimer.ResetStep | frontend/js/tasks.js:469-481 | `resetTimerUI` leaves no task, duration 0, no end time, `00:00` shown, the button on start and the inputs enabled; the interval, the scheduled intervals and the posted entries are untouched |
| CountdownTimer.CompleteStep | frontend/js/tasks.js:436-466 | completion run to its end, with no click during its awaits, leaves the timer idle, unschedules the held interval and posts exactly one entry with the run's task and duration |
| CountdownTimer.ClearStep | frontend/js/tasks.js:437-440 | `clearInterval(timerInterval); timerInterval = null`: no interval held, the held one unscheduled, every other part of the state kept |
| CountdownTimer.StopStep | frontend/js/tasks.js:426-433 | stopping leaves the timer idle, unschedules the held interval and posts nothing |
| CountdownTimer.CompletionBeforeAwait | frontend/js/tasks.js:436-453 | `timerCompleted` up to its first await: no interval held, the held interval unscheduled so no firing of the run can follow, exactly the run's entry appended, and task, duration, end time, display, button, inputs and handle counter kept until the delayed reset |
| CountdownTimer.UpdateStep | frontend/js/tasks.js:414-423 | an update posts exactly when no time is left; otherwise only the display changes, to the remaining time |
| CountdownTimer.StartStep | frontend/js/tasks.js:383-411 | an empty selection raises "select a task" and a missing or sub-one duration raises "enter a duration", and either changes nothing; otherwise the run starts |
| CountdownTimer.Begin | frontend/js/tasks.js:397-409 | the assignments of a successful start make a running timer whose new interval was not already scheduled, valid when started from a valid idle timer, with the whole duration left at the start reading |
| CountdownTimer.StartRecordsRun | frontend/js/tasks.js:397-410 | a successful start records the task, the duration, the end `now + duration*60*1000` and a newly scheduled interval that the timer holds; the button switches to stop, the inputs are disabled and nothing is posted |
| CountdownTimer.StartFromIdleKeepsValid | frontend/js/tasks.js:383-411 | a start from a valid idle timer gives a valid timer that is running exactly when validation passed |
| CountdownTimer.StartKeepsWiredValid | frontend/js/tasks.js:383-411 | `startTimer` on any timer that is idle or running with its held interval scheduled leaves it so, whether or not a run was already going |
| CountdownTimer.StopWhenIdle | frontend/js/tasks.js:426-433 | stopping an idle timer changes none of the four timer variables, the scheduled intervals or the entries |
| CountdownTimer.TickStep | frontend/js/tasks.js:409-423 | a firing of an interval that is not scheduled changes nothing; a firing posts at most one entry, only appends, and hands out no new interval |
| CountdownTimer.ClickStepAsWritten | frontend/js/tasks.js:541-542 | as wired, a click never posts an entry, and once `onclick` has been assigned no click leaves the timer running |
| CountdownTimer.ClickStep | frontend/js/tasks.js:383-433 | the intended toggle: a click never posts; a running timer stops and its interval is unscheduled; an idle timer runs afterwards exactly when `startTimer`'s validation passes |
| CountdownTimer.StepKeepsValid | frontend/js/tasks.js:383-481 | with the toggle click and completion in one step, any click or firing keeps a valid timer valid, only appends entries, and posts only from a running timer, which it leaves idle |
| CountdownTimer.AtMostOneEntryPerRun | frontend/js/tasks.js:383-481 | with the toggle click and completion in one step, over any sequence of clicks and firings the timer stays valid and posts at most one entry per run started |
| CountdownTimer.StepAsWrittenKeepsWiredValid | frontend/js/tasks.js:383-542 | as wired, a click or a firing keeps the timer idle or running with its held interval scheduled and handed out, and only appends entries |
| CountdownTimer.RunAsWrittenKeepsWiredValid | frontend/js/tasks.js:383-542 | as wired, over any sequence of clicks and firings the timer stays idle or running with its held interval scheduled, and entries are only appended |
| CountdownTimer.TickCompletesAtZero | frontend/js/tasks.js:414-440 | a firing posts exactly when no time is left; it then posts the run's task and duration and clears the interval, so no firing of that run follows |
| CountdownTimer.StopClickOrphansInterval | frontend/js/tasks.js:383-433 | as wired (the listener `startTimer` of line 542 runs before `onclick`), a stop click restarts the run on a new interval and then clears only that one: the old interval stays scheduled, no longer held |
| CountdownTimer.OrphanTickPostsEmptyEntry | frontend/js/tasks.js:414-466 | a firing of an interval nobody holds, with no end time, posts an entry for the cleared task and duration and clears nothing |
| CountdownTimer.OrphanKeepsPosting | frontend/js/tasks.js:414-466 | an orphaned interval stays orphaned and posts one empty entry on every firing |
| CountdownTimer.OrphanedIntervalAsWritten | frontend/js/tasks.js:383-466 | as wired, after a stop click every later firing of the old interval posts an entry with no task and zero minutes, and the interval stays scheduled |
| CountdownTimer.StopClickStopsRun | frontend/js/tasks.js:426-433 | a toggle click on a running timer clears its interval: idle, nothing scheduled, nothing posted |
| CountdownTimer.StopClickCorrected | frontend/js/tasks.js:426-433 | with the toggle, the same click and firings leave the timer idle with nothing scheduled and nothing posted |
| CountdownTimer.StartClickStopsAtOnce | frontend/js/tasks.js:469-472 | as wired, once `onclick` is `startTimer` a valid click starts a run and stops it in the same click |
| CountdownTimer.RestartAsWritten | frontend/js/tasks.js:436-481 | as wired, after a run completes the next valid click leaves the timer idle with only the completed entry posted |
| CountdownTimer.RestartCorrected | frontend/js/tasks.js:383-481 | with the toggle, the next valid click after a run has completed in one step starts a new valid run |
| CountdownTimer.ToggleClickDuringCompletion | frontend/js/tasks.js:436-481 | a toggle click during `timerCompleted`'s awaits starts a run that the delayed reset wipes while its interval stays held; the timer is then not valid, and the next firing posts an entry with no task and zero minutes |
| CountdownTimer.WiredClickDuringCompletion | frontend/js/tasks.js:436-481 | as wired, a click during those awaits starts and stops a run, and the delayed reset leaves a valid idle timer with nothing scheduled and only the completed entry |
| CountdownTimer.StartThenComplete | frontend/js/tasks.js:383-466 | with one clock reading per operation, any task started from a fresh page for any positive number of minutes, with the interval firing when the time is up, posts exactly one entry with that task and duration and ends idle with nothing scheduled |
| CountdownTimer.OneMinuteRun | frontend/js/tasks.js:383-481 | with one clock reading per operation, a one-minute run of task "7" shows `01:00`; a minute later it posts exactly one entry (task "7", one minute) and ends idle at `00:00` with nothing scheduled |
| CountdownTimer.Timer.constructor | frontend/js/tasks.js:353-356 | the four declarations: a valid idle timer with nothing scheduled or posted |
| CountdownTimer.Timer.ResetTimerUI | frontend/js/tasks.js:469-481 | the fields change as `ResetStep` says |
| CountdownTimer.Timer.StopTimer | frontend/js/tasks.js:426-433 | the fields change as `StopStep` says; a valid timer ends valid and idle with nothing scheduled |
| CountdownTimer.Timer.TimerCompleted | frontend/js/tasks.js:436-466 | the fields change as `CompleteStep` says: one entry with the run's task and duration is appended |
| CountdownTimer.Timer.UpdateTimer | frontend/js/tasks.js:414-423 | the fields change as `UpdateStep` says; one entry is posted exactly when no time is left |
| CountdownTimer.Timer.StartTimer | frontend/js/tasks.js:383-411 | the fields and the outcome are as `StartStep` says; a failed validation leaves every field unchanged |
| CountdownTimer.Timer.IntervalFires | frontend/js/tasks.js:409-423 | a firing of a scheduled interval runs `updateTimer`, as `TickStep` says, and keeps the timer valid |
| CountdownTimer.Timer.ClickTimerButtonAsWritten | frontend/js/tasks.js:541-542 | a click runs the listener `startTimer` and then the `onclick` the click finds, as `ClickStepAsWritten` says |
| CountdownTimer.Timer.ClickTimerButton | frontend/js/tasks.js:383-433 | a toggle click stops a running timer or starts an idle one, as `ClickStep` says, and keeps the timer valid |

## Left out

- Network I/O is not modelled. This covers `fetchTasks`, `createTask`, `toggleTaskCompletion`, `moveTaskToToday`, `deleteTask`, `loginUser`, `registerUser`, and `updateTaskTotalTime`'s request.
  - The POST in `timerCompleted` is modelled only as one entry appended to `posted`.
  - The response status is never checked in the source (frontend/js/tasks.js:445-456), so the success notice appears even on an error status. That notice is not modelled.
- `timerCompleted` awaits twice between posting its entry and calling `resetTimerUI` (frontend/js/tasks.js:444-464). `CompletionBeforeAwait` models the part before the first await, and `CompleteStep` is that part followed by the reset with nothing in between. The held interval is already cleared there, so no firing of the run can arrive in that window, but a click can:
  - As wired, the click's listener starts a run and the `onclick` still on `stopTimer` stops it, so the delayed reset is harmless (`WiredClickDuringCompletion`).
  - With the toggle `ClickStep`, the click starts a new run. The delayed reset then wipes that run's task, duration and end time while its interval stays held. The next firing posts an entry with no task and zero minutes (`ToggleClickDuringCompletion`).
  - The toggle fix alone therefore does not cover a click during completion. `StepKeepsValid`, `AtMostOneEntryPerRun`, `RestartCorrected` and the corrected members of "## Findings" hold only when no click arrives during those awaits.
- DOM rendering, notifications, alerts and `playCompletionSound` are UI with no state the timer reads. Button labels and the `active` class are also left out.
- `parseInt` is not modelled. The duration reaches `StartTimer` already parsed, with `None` for `NaN`.
- Clearing the duration input in `resetTimerUI` (frontend/js/tasks.js:476) is not modelled: the input's value is a parameter of each click.
- `formatDate` is not part of this model: it delegates to moment and moment-jalaali, whose code is not part of this model.
- Time zones and daylight saving are not modelled. Dates are local calendar fields, and `<` on dates is the lexicographic order on those fields.
- The function-replacing wrappers (frontend/js/tasks.js:331-336, 545-549) only sequence other operations, mostly I/O.
- `updatePlaceholders` (frontend/js/tasks.js:323-328) writes `t(key)` into the placeholder of every element with a `data-i18n-placeholder` attribute. This is DOM output and is not modelled; the lookup itself is `Translate`.
- BucketOf: takes one reading of `new Date()` for both date tests, while `isToday` and `isOverdue` each read the clock (frontend/js/tasks.js:20, 30), up to four times per task in `loadTasks` (frontend/js/tasks.js:188-192). When midnight passes between the readings, an incomplete task can land in neither list, which the model does not capture.
- SplitTasks: uses `BucketOf` with one clock reading for the whole loop, so the same midnight case between tasks or within one task is not modelled.
- StartStep: the end time (frontend/js/tasks.js:399) and the first `updateTimer` (frontend/js/tasks.js:415) use the same clock value. In the source the second reading can be later, and the first display can then be one second short of the full duration.
- RemainingAtStart: states the full duration only for a first update at the start reading itself, for the same reason.
- OneMinuteRun: shows `01:00` only under the same single reading.
- SelectorTasksAreListed: `loadTaskSelector` fetches the tasks again (frontend/js/tasks.js:360) after the fetch the lists are built from (frontend/js/tasks.js:175). The model feeds one list to both, so a task added, removed or changed between the two fetches is not covered.
- The backend (`backend/main.py`, `backend/database.py`, `backend/auth.py`) is not part of this model.
- JavaScript numbers are doubles; the model's integers are unbounded. Looking up inherited object keys such as `constructor` in a translation table is also not modelled.
- Page markup is not part of this model. The timer starts with `00:00` shown and no `onclick` assigned. The page's direction is left-to-right until `setLanguage` first runs.

## Findings

| source | as written | input that shows it | evidently intended | confidence | as-written member | corrected member |
|---|---|---|---|---|---|---|
| frontend/js/tasks.js:383-433 | The button runs `startTimer` from a listener added at load (line 542), then whatever `onclick` holds. A stop click therefore restarts the run on a new interval, which overwrites `timerInterval`, and `stopTimer` clears only the new interval. The old interval keeps firing with `timerEndTime` null, so each firing posts `{task_id: null, duration_minutes: 0}` | start a run with task "7" for 5 minutes, click the button again while it runs, then let the host fire the old interval: every firing posts an empty entry | a click on a running timer stops it and clears its interval, and nothing more is posted | not executed; assumes the page markup puts no inline `onclick` on the button | CountdownTimer.OrphanedIntervalAsWritten | CountdownTimer.StopClickCorrected |
| frontend/js/tasks.js:469-481 | After a run completes, `resetTimerUI` sets `onclick` to `startTimer`. A click starts a run through the listener, which sets `onclick` to `stopTimer`, and the click then runs that handler and stops the run at once | complete any run, enter a duration and click start: the timer is idle again | the click starts a new run | not executed; assumes the page markup puts no inline `onclick` on the button | CountdownTimer.RestartAsWritten | CountdownTimer.RestartCorrected |

The rest of the model uses the corrected click, `ClickStep`, for `Step`, `Run`,
`AtMostOneEntryPerRun` and `Timer.ClickTimerButton`. Both corrected members
assume that `timerCompleted` finishes before the next click. A toggle click
during its awaits loses the new run (`ToggleClickDuringCompletion`), so the
toggle alone is not a complete fix. The clicks as wired are
kept in `ClickStepAsWritten`, `RunAsWritten` and
`Timer.ClickTimerButtonAsWritten`.
