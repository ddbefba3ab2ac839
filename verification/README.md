# WinClaw in Dafny

A Dafny model of the parts of WinClaw that decide when scheduled prompts fire, what conversation history is sent to the
model, how a streamed response is rebuilt, how requests are throttled, and how bytes travel over the service pipe, with
proofs over every input, every run or every interleaving. `dafny verify dfyconfig.toml` checks all of it.

## How it is organised

| file | models |
|---|---|
| `Calendar.dfy` | the proleptic Gregorian calendar (ISO 8601:2004 section 3.2.1) and the carrying of `time.Date` |
| `Strings.dfy`, `CronField.dfy` | the string functions the parser calls; cron fields and the five-field expression |
| `CronSearch.dfy`, `Schedule.dfy` | the search with jumps against a minute-by-minute scan; `nextRun`; enumeration; February 29 |
| `Scheduler.dfy`, `SchedulerRuns.dfy` | the task table as a class; whole runs for any next-run function |
| `SchedulerRecords.dfy` | what rows and executions carry over all runs |
| `SchedulerOverlaps.dfy`, `SchedulerAnyRuns.dfy` | when executions overlap; runs of any shape: firing, cancelling, resuming without catching up |
| `ScheduleInstances.dfy` | the run theorems for `nextRun` itself |
| `Lifecycle.dfy` | Start, Stop and executions as interleaving threads with a mutex and a wait group |
| `Agent.dfy`, `Conversation.dfy` | the tool loop over a shared history; what all runs and sessions keep |
| `Stream.dfy` | reading the event stream (section 9.2.5 of the WHATWG HTML standard, from parsed lines) and retrying |
| `RateLimit.dfy` | the token bucket |
| `Pipe.dfy`, `PipeProtocol.dfy` | frames under short reads, short writes and failures; handler and reader composed |
| `LineEditor.dfy`, `SplitArgs.dfy`, `Utf16.dfy` | the line editor, the argument splitter, the credential codec (RFC 2781 sections 2.1 and 2.2) |

A method carries the source's imperative code and is tied by its `ensures` to a function; lemmas then say what that
function means. A time is a number of nanoseconds since 0001-01-01 00:00 UTC, so that Go's zero time is 0, and a minute
is a number of minutes since then. `Scheduler` and the run modules take the next-run function as a parameter;
`ScheduleInstances` proves that `nextRun` has the shapes the run theorems ask for. A run is serial for a task when each
execution of that task ends before the next poll, whatever the other tasks do. `time.ParseDuration`, the API, the
tools, the clock, the operating system's read and write sizes, the JSON codec of chunks and the choice between ready
channels are parameters or free choices.

## Where the code and its comments differ

The model follows the code.

- The cron search covers 730 days (`internal/scheduler/scheduler.go:551-553`), not four years (`:541`). A task
  "0 0 29 2 *" that has fired on a February 29 therefore finds no next run, and the 30-second fallback makes it fire
  again and again on non-matching minutes, until the next February 29 is at most 730 days away
  (`ScheduleInstances.LeapDayTaskMisfiresAgain`, `Schedule.LeapDaySearchIff`). Being due means that a match has come
  exactly when the search found one (`SchedulerRuns.DueMeansMatchIff`); `SchedulerRuns.CronFiresIffMatch` and
  `SchedulerAnyRuns.AnyRunFiresIff` say exactly when a poll fires in either case.
- Day of month and day of week must both match (`:565`).
- `@once` is cancelled after its run only when the stored text is exactly "@once"; `nextRun` trims spaces, the
  completion does not (`:165`, `:362`). See `ScheduleInstances.OnceIffExact`. Even then "never re-fire" (`:166`) fails
  when a poll finds its execution in flight; the task fires at most once exactly when none does
  (`SchedulerOverlaps.OnceAtMostOnceIff`, `SchedulerOverlaps.OnceAtMostOnceIffSerial`).
- "Cancel permanently deactivates" (`:252`): Pause and Resume do not look at the status
  (`SchedulerRuns.ResumeRevives`). A cancelled task stays inactive exactly when no resume of it finds a next run
  (`SchedulerAnyRuns.StaysInactiveIff`).
- Resume lets a task fire "at the next scheduled interval rather than immediately catching up" (`:231-232`), but an
  execution that finishes after the resume puts its own next run in the place of the new one
  (`ScheduleInstances.EveryMinuteCatchesUp`). A task does not catch up exactly when every execution in flight at the
  resume stores as late a next run as the resume, or that next run has come already: `SchedulerAnyRuns.ResumeHoldsIff`
  for every monotone schedule, `EveryNoCatchUpIff` for intervals, `NoCatchUpIff` for cron.
- Executions of one task may overlap, because `next_run` is stored on completion (`SchedulerOverlaps.PollsOverlap`). They
  never do exactly when every poll that fires the task finds it idle (`SchedulerOverlaps.NeverOverlapsIff`) and, without
  a pause, resume or cancel of it, exactly when each of its executions ends before the next poll
  (`SchedulerOverlaps.NeverOverlapsIffSerial`).
- Stop "waits for in-flight tasks" (`:83`), but Start may take one more tick after the quit channel is closed, so an
  execution can start after Stop has returned (`Lifecycle.StopMayReturnBeforeAnExecution`). Nothing starts any more
  exactly when Start has left its loop (`Lifecycle.QuietIffLeftLoop`).
- The window "always starts on a user message" (`internal/agent/agent.go:225`): it drops an even number of messages, but
  a run that ends on tool results, because a later call failed or the loop was exhausted, shifts the positions of the
  user messages behind it. `Conversation.AnyWindowStartIff` gives the exact condition after any history;
  `Conversation.WindowStartIff` what it comes to while the history alternates, and `Conversation.AlternationIff` when it
  goes on doing so. With the default configuration one failed call is enough (`Conversation.DefaultWindowMisses`).
- A failed first call restores the history but not the attachment (`internal/agent/agent.go:99`, `:141-143`).
- Errors that are not API errors are retried up to three times, not once (`internal/api/client.go:295`;
  `Stream.TransportRetriedThreeTimes`), and the deltas of failed attempts have already been passed on
  (`Stream.RetriedDeltas`).
- Delta types without a case, such as "signature_delta", are dropped: what they carry is lost
  (`Stream.ScriptRebuildsIff`). Block indices with a gap drop blocks (`Stream.NoBlockDroppedIff`).
- A connection that closes early is an error exactly when the scanner has recorded a read failure by the time it hands
  over the marker line, or finds no more lines (`Stream.ReadSucceedsIff`). A stream cut short otherwise is a success; its
  content is whole exactly when the missing events carry nothing (`Stream.CutContentIff`). When stop reasons come after
  all block events, a nonempty stop reason proves that it is whole (`Stream.ReasonMeansWhole`).
- WriteFrame sends frames that ReadFrame refuses: the limit of 1 MiB is checked on one side only
  (`Pipe.RoundTripIffFits`, `PipeProtocol.UnfitStops`, `PipeProtocol.DeliversIffAllFit`).

## Model

| member | source | states |
|---|---|---|
| Calendar.ToYearDayInverts | internal/scheduler/scheduler.go:589-599 | the year and day found by 400-, 100-, 4- and 1-year cycles lie in that year and rebuild the day number |
| Calendar.YearDayIsUnique | internal/scheduler/scheduler.go:589-599 | no other year and day of year have that day number |
| Calendar.DateOfFields | internal/scheduler/scheduler.go:589-599 | for every minute, rebuilding it from its five fields is the identity |
| Calendar.FieldsOfDate | internal/scheduler/scheduler.go:589-599 | for every valid civil time, reading the built minute gives its fields back |
| Calendar.WeekdayAdvances | internal/scheduler/scheduler.go:563-569 | from every day to the next the weekday advances by one; with one known weekday this fixes them all |
| Calendar.MonthLengths | internal/scheduler/scheduler.go:556-569 | months have 31 and 30 days as the calendar has them, and February 28 or 29 |
| Calendar.LeapYears | internal/scheduler/scheduler.go:556-569 | which years are leap, by their number of fours: all but three in four of the centuries |
| Calendar.NextMonthJump | internal/scheduler/scheduler.go:556-561 | the month jump lands exactly on the first minute of the following month, December to January included, and passes only minutes of the same month |
| Calendar.NextDayJump | internal/scheduler/scheduler.go:563-569 | the day jump, past the end of any month included, lands on the next midnight and passes only minutes of the same date and weekday |
| Calendar.NextHourJump | internal/scheduler/scheduler.go:571-577 | the hour jump, hour 24 included, lands on the next full hour and passes only minutes of the same hour |
| Strings.AtoiItoa | internal/scheduler/scheduler.go:440-449 | a number written in decimal, bare or with either sign, is read back exactly when it is in the 64-bit range, and refused otherwise |
| Strings.AtoiNextDigit | internal/scheduler/scheduler.go:440-449 | one more digit makes ten times the number plus the digit, and one digit is its own value |
| Strings.AtoiLeadingZero | internal/scheduler/scheduler.go:440-449 | a leading zero does not change a number |
| Strings.AtoiRefuses | internal/scheduler/scheduler.go:440-449 | nothing but an optional sign and at least one digit is a number |
| Strings.TrimOfPadded | internal/scheduler/scheduler.go:362-362 | any white space around a text is taken off |
| Strings.FieldsOfWeave | internal/scheduler/scheduler.go:507-507 | words set apart by any runs of white space, with any around them, are the fields of the line |
| Strings.SplitOfJoin | internal/scheduler/scheduler.go:467-467 | parts joined by a separator they do not contain are split back |
| CronField.ParseCronField | internal/scheduler/scheduler.go:429-494 | the loops that fill the value map compute the field's meaning, or the same first error |
| CronField.CollectSteps | internal/scheduler/scheduler.go:460-462 | the counting loop collects exactly the values of the range that are a multiple of the step above its start |
| CronField.ListValues | internal/scheduler/scheduler.go:466-493 | an accepted list denotes a nonempty set within the bounds |
| CronField.PartValues | internal/scheduler/scheduler.go:468-491 | an accepted part denotes a nonempty set within the bounds |
| CronField.ItemsRoundTrip | internal/scheduler/scheduler.go:466-493 | any list of in-bounds values and ranges, written out, parses back to the union it denotes |
| CronField.EverySetIsExpressible | internal/scheduler/scheduler.go:466-493 | every nonempty set within the bounds has a text that parses to exactly that set |
| CronField.PartMeaning | internal/scheduler/scheduler.go:468-491 | any text whatever: a part is accepted exactly when it is an in-bounds number, or two ordered in-bounds numbers around its first '-', and denotes these |
| CronField.ItemsAcceptedIff | internal/scheduler/scheduler.go:466-493 | a written list is accepted exactly when all its values and ranges are in order and in bounds |
| CronField.StepAcceptedIff | internal/scheduler/scheduler.go:437-459 | any text with a '/': accepted exactly when the step is a positive number and the range is a star, a number or two numbers around its first '-' |
| CronField.StepRoundTrip | internal/scheduler/scheduler.go:437-464 | "*", a start or a range, over a step, parses to the values from start to end at a multiple of the step from the start; a zero or too large step is refused |
| CronField.StepInBoundsIff | internal/scheduler/scheduler.go:437-464 | step fields are not checked: their values lie within the bounds exactly when there are none or the start and the last value do; there are none exactly when the start is after the end |
| CronField.StarStepMeaning | internal/scheduler/scheduler.go:437-464 | "*" with step n accepts v exactly when v is in range and n divides v - lo |
| CronField.StarIsFullRange | internal/scheduler/scheduler.go:431-433 | a star and the full range accept the same in-range values |
| CronField.AcceptedListInBounds | internal/scheduler/scheduler.go:466-493 | every accepted token without a step that is not a star denotes a nonempty subset of the bounds |
| CronField.ParseCronExpr | internal/scheduler/scheduler.go:506-537 | five fields parsed left to right against their bounds; the first failure is the error |
| CronField.ExprRoundTrip | internal/scheduler/scheduler.go:506-537 | any five written fields (stars, lists, steps) set apart by any white space parse back to their five meanings |
| CronField.ExprAcceptedIff | internal/scheduler/scheduler.go:506-537 | any five written fields are accepted exactly when each is valid in its own bounds, and the first that is not is the error |
| CronField.OtherCountsRefused | internal/scheduler/scheduler.go:506-510 | any other number of words is refused with that number |
| CronSearch.ParseCron | internal/scheduler/scheduler.go:542-588 | the search with month, day, hour and minute jumps gives the result of the plain scan, errors included; it takes fewer than 1,000 iterations when minute and hour each allow an in-range value, and never more than the window has minutes |
| CronSearch.NextCronMeaning | internal/scheduler/scheduler.go:539-588 | for a parsed expression the result is the scan's first minute, as an instant, and an error exactly when the scan finds none; a minute is in the scanned set exactly when all five fields match |
| CronSearch.NextMatchIff | internal/scheduler/scheduler.go:548-588 | the scan finds m exactly when m is the least whole minute of the set strictly after the start and within 730 days, and nothing exactly when there is none |
| CronSearch.ScanIsLeastMatch | internal/scheduler/scheduler.go:555-588 | the plain scan gives the least match of its window, both directions |
| CronSearch.ScanSkips | internal/scheduler/scheduler.go:555-585 | skipping non-matching minutes, past the limit too, does not change the result |
| CronSearch.JumpSkipsNoMatch | internal/scheduler/scheduler.go:555-585 | every jump goes forward and passes only non-matching minutes |
| CronSearch.JumpCost | internal/scheduler/scheduler.go:555-585 | one iteration keeps what is known of the candidate and is paid for by the distance covered |
| Schedule.NextRunOfCron | internal/scheduler/scheduler.go:361-382 | for a text that parses as cron, `nextRun` gives the scan's answer |
| Schedule.NextRunOfFields | internal/scheduler/scheduler.go:361-382 | any five written fields with any white space around them run at the scan's answer for the minutes they mean |
| Schedule.OnceMeansNow | internal/scheduler/scheduler.go:361-366 | "@once" with any white space around it runs at its start |
| Schedule.EveryMeansDuration | internal/scheduler/scheduler.go:368-409 | "@every" and a text for `time.ParseDuration`, with any white space: that duration later when it is one and positive, an error otherwise |
| Schedule.EveryBadCount | internal/scheduler/scheduler.go:393-407 | a count of days or weeks that is not a number is an error |
| Schedule.NextRunOfEvery | internal/scheduler/scheduler.go:368-377 | for an "@every" text with a positive duration, `nextRun` is that much later from every start |
| Schedule.DaysAndWeeks | internal/scheduler/scheduler.go:387-410 | "@every" with a count of days or weeks, written in decimal, runs exactly that much later if and only if the count is positive and less than 2^63 nanoseconds; beyond, the 64-bit duration wraps around |
| Schedule.OnlyTheWindowFails | internal/scheduler/scheduler.go:361-382 | a schedule once accepted can fail later only as a cron text whose window holds no match |
| Schedule.NextMatchIsLeast | internal/scheduler/scheduler.go:548-588 | the next match is a match after the start and no later than any other; without one, no match lies in the window |
| Schedule.NextMatchConstant | internal/scheduler/scheduler.go:361-382 | the answer is the same from every instant up to the next match |
| Schedule.NextMatchMonotone | internal/scheduler/scheduler.go:361-382 | a later start never gives an earlier next match |
| Schedule.EnumeratesAllMatches | internal/scheduler/scheduler.go:361-382 | iterating lists exactly the matching minutes up to where it has come, once each, in increasing order, and stops early only before a 730-day gap |
| Schedule.LeapDaySearchIff | internal/scheduler/scheduler.go:551-555 | from any instant the search for a February 29 fails exactly when every later one's midnight is over 730 days away |
| Schedule.LeapDayGap | internal/scheduler/scheduler.go:551-555 | between two successive midnights of February 29, the search finds the second exactly when it is at most 730 days away, and nothing otherwise |
| Schedule.LeapDaySearchFails | internal/scheduler/scheduler.go:551-555 | from any instant of any February 29 the search for the next one fails |
| Scheduler.TaskScheduler.Schedule | internal/scheduler/scheduler.go:198-224 | the new table and the result, each rejected input included |
| Scheduler.TaskScheduler.QueryDue | internal/scheduler/scheduler.go:100-149 | the rows read are exactly the active ones whose next run has come, each once, in any order, with the next run computed at the poll |
| Scheduler.TaskScheduler.Spawn | internal/scheduler/scheduler.go:151-158 | each due row adds one execution in flight and one to the wait group |
| Scheduler.TaskScheduler.Poll | internal/scheduler/scheduler.go:99-159 | a poll changes no row and adds one execution for each due row |
| Scheduler.TaskScheduler.ExecuteTask | internal/scheduler/scheduler.go:162-185 | a finished execution leaves the wait group and updates only its own row: "@once" is cancelled, otherwise the next run is stored, or 30 seconds after the poll |
| Scheduler.TaskScheduler.SetStatus | internal/scheduler/scheduler.go:303-310 | for pause and cancel: sets the status of an existing row whatever it was; a missing row is an error |
| Scheduler.TaskScheduler.Resume | internal/scheduler/scheduler.go:233-250 | active again with a next run computed from now; a missing row or a failing schedule changes nothing |
| SchedulerRecords.PollStarts | internal/scheduler/scheduler.go:99-158 | a poll adds one execution for exactly each active row whose next run has come, of the whole row as stored, and no other |
| SchedulerRecords.ScheduleAcceptsIff | internal/scheduler/scheduler.go:198-222 | accepted exactly with 1 to 128, 64 and 10,000 bytes, a next run and a new id; otherwise nothing changes and the first failed check is the error |
| SchedulerRecords.ScheduleStores | internal/scheduler/scheduler.go:209-223 | what is stored, column by column; no other row changes |
| SchedulerRecords.ScheduledTaskKeepsColumns | internal/scheduler/scheduler.go:99-255 | over all runs from a successful Schedule, the row and every execution of it in flight carry the session, name, schedule and prompt that were given |
| SchedulerRecords.RecordRun | internal/scheduler/scheduler.go:161-255 | over all runs, "@once" included: the last run is the poll time of the execution that completed last, and the status that of the last pause, cancel, successful resume or "@once" completion |
| SchedulerRecords.RowChanges | internal/scheduler/scheduler.go:226-310 | pause, cancel and resume change only their own row and only status and next run; missing rows and failing schedules are errors that change nothing |
| SchedulerRuns.StepKeeps | internal/scheduler/scheduler.go:161-255 | every operation keeps rows under their id, executions with a row, and every row's schedule; none deletes a row |
| SchedulerRuns.OnlyInsertAndResumeActivate | internal/scheduler/scheduler.go:161-255 | a step that makes a task active is its insertion or its resume |
| SchedulerRuns.InactiveStaysInactive | internal/scheduler/scheduler.go:226-255 | over all runs without a resume of it, an inactive task stays inactive and never fires |
| SchedulerRuns.ResumeRevives | internal/scheduler/scheduler.go:233-250 | resuming a cancelled task makes it active exactly when its schedule has a next run |
| SchedulerRuns.StoredNextRun | internal/scheduler/scheduler.go:173-184 | the stored value is the next run whenever there is one and the fallback exactly otherwise |
| SchedulerRuns.EpochIs1970 | internal/scheduler/scheduler.go:107-107 | Unix second 0 is 1970-01-01 00:00, a Thursday |
| SchedulerRuns.InsertAnchors | internal/scheduler/scheduler.go:209-223 | a freshly scheduled task stores the next run computed at its insertion |
| SchedulerRuns.AnchorRun | internal/scheduler/scheduler.go:99-185 | over all runs serial for the task the stored next run is the one computed at the last firing or insertion |
| SchedulerRuns.CronFiresIffMatch | internal/scheduler/scheduler.go:99-185 | over all runs that are serial for a cron task and leave it alone, a poll at p fires it exactly when one of its minutes lies in (a, p], a being its last firing or insertion; after a failed search, exactly when 30 seconds have passed |
| SchedulerRuns.NoMatchIsMissed | internal/scheduler/scheduler.go:99-185 | however long the run, the first poll at or after a matching minute fires, if the search from the last firing found any match |
| SchedulerRuns.DueMeansMatchIff | internal/scheduler/scheduler.go:173-178 | a next run has come exactly when a match has, at all polls, if and only if the search found one |
| SchedulerRuns.FiringsHaveOwnMinutes | internal/scheduler/scheduler.go:99-185 | while the searches succeed, the firings can be matched with distinct matching minutes, each between a firing and the one before |
| SchedulerRuns.FailedSearchMisfires | internal/scheduler/scheduler.go:173-178 | after a failed search the task fires 30 seconds later although no matching minute has come |
| SchedulerRuns.OnceFiresAtMostOnce | internal/scheduler/scheduler.go:165-171 | in runs serial for the task and without a resume of it, a task stored as "@once" fires at most once |
| SchedulerRuns.SpacedOnceRefires | internal/scheduler/scheduler.go:165-184 | a task that runs as soon as possible under any other text fires twice in a poll, complete, poll run |
| SchedulerRuns.OnceTableIsInserted | internal/scheduler/scheduler.go:198-224 | the table of that run is what Schedule stores |
| SchedulerRuns.OnceIff | internal/scheduler/scheduler.go:161-185 | a task that runs as soon as possible fires at most once in all such runs exactly when its text is "@once" |
| SchedulerRuns.EverySpacing | internal/scheduler/scheduler.go:161-185 | in runs serial for the task, with any pauses, resumes and cancels, n + 1 firings of an interval task span more than n times (interval minus one second) |
| SchedulerOverlaps.PollOverlapsIff | internal/scheduler/scheduler.go:151-158 | a poll makes executions of a task overlap exactly when it fires a task that is not idle |
| SchedulerOverlaps.NeverOverlapsIff | internal/scheduler/scheduler.go:99-185 | over all runs, executions of a task never overlap exactly when every poll that fires it finds it idle |
| SchedulerOverlaps.NeverOverlapsIffSerial | internal/scheduler/scheduler.go:99-185 | over all runs without a pause, resume or cancel of it, exactly when each of its executions completes before the next poll |
| SchedulerOverlaps.SerialNeverOverlaps | internal/scheduler/scheduler.go:151-185 | with pauses, resumes and cancels too, a run serial for a task never has two of its executions in flight |
| SchedulerOverlaps.PollsOverlap | internal/scheduler/scheduler.go:151-185 | a fired task whose executions do not complete is fired again by the next poll, whatever happens to other tasks in between |
| SchedulerOverlaps.OnceAtMostOnceIff | internal/scheduler/scheduler.go:151-171 | over all runs without a resume, from an idle state, a task stored as "@once" fires at most once exactly when no poll fires it while it is in flight |
| SchedulerOverlaps.OnceAtMostOnceIffSerial | internal/scheduler/scheduler.go:151-171 | without a pause or cancel either, exactly when its execution completes before the next poll |
| SchedulerAnyRuns.StoredRun | internal/scheduler/scheduler.go:161-250 | over all runs, with any overlaps, pauses, resumes and cancels, the stored next run of a task other than "@once" is that of the last completion or resume, and the status that of the last pause, cancel or resume |
| SchedulerAnyRuns.AnyRunFiresIff | internal/scheduler/scheduler.go:99-250 | over all such runs a poll fires a cron task exactly when it is left active and a match has come since the instant of that computation, or the fallback has |
| SchedulerAnyRuns.StaysInactiveIff | internal/scheduler/scheduler.go:226-255 | over all runs an inactive task stays inactive exactly when no resume of it finds a next run |
| SchedulerAnyRuns.ResumeHoldsIff | internal/scheduler/scheduler.go:231-250 | for every monotone schedule: a resumed task fires next no earlier than the next run the resume computed, however the run goes on, exactly when every execution in flight at the resume stores one as late, or it has come already |
| SchedulerAnyRuns.EveryNoCatchUpIff | internal/scheduler/scheduler.go:231-250 | for "@every d": exactly when no execution in flight at the resume at r has runAt + d in an earlier second than r + d, or r + d falls in the second of r |
| SchedulerAnyRuns.NoCatchUpIff | internal/scheduler/scheduler.go:231-250 | for cron: the next firing has a match after the resume exactly when every execution in flight at the resume has a next run later than it |
| SchedulerAnyRuns.ResumeCatchesUp | internal/scheduler/scheduler.go:231-250 | a cron task that is fired, misses a match, is paused and resumed while its execution is in flight, does catch up |
| ScheduleInstances.CronTexts | internal/scheduler/scheduler.go:361-382 | a text that parses as cron is a cron task with the minutes of its fields |
| ScheduleInstances.EveryTexts | internal/scheduler/scheduler.go:368-377 | an "@every" text with a positive duration is an interval task |
| ScheduleInstances.EveryDurationTexts | internal/scheduler/scheduler.go:368-409 | "@every" and a text that `time.ParseDuration` reads as a positive duration is a task with that interval |
| ScheduleInstances.OnceTexts | internal/scheduler/scheduler.go:362-366 | a text that is "@once" once trimmed runs as soon as possible |
| ScheduleInstances.ActualNeverBefore | internal/scheduler/scheduler.go:361-382 | no next run is before its start |
| ScheduleInstances.ScheduledCronFires | internal/scheduler/scheduler.go:99-224 | from a successful Schedule of a cron text on: the serial firing condition for every later poll of every run serial for the task |
| ScheduleInstances.ScheduledCronFiresInAnyRun | internal/scheduler/scheduler.go:99-250 | the same for every run of any shape |
| ScheduleInstances.ResumeDoesNotCatchUpIff | internal/scheduler/scheduler.go:198-250 | from a successful Schedule on, after every run: the exact condition for a resume not to catch up |
| ScheduleInstances.EveryMinuteCatchesUp | internal/scheduler/scheduler.go:198-250 | "* * * * *" scheduled at any time, fired, paused and resumed two minutes later with its execution in flight: it catches up |
| ScheduleInstances.OnceIffExact | internal/scheduler/scheduler.go:161-185 | of the texts that trim to "@once", exactly "@once" itself fires at most once in all runs serial for the task and without a resume |
| ScheduleInstances.LeapDayText | internal/scheduler/scheduler.go:506-537 | "0 0 29 2 *" parses to midnight of every February 29 |
| ScheduleInstances.LeapDayTaskMisfires | internal/scheduler/scheduler.go:173-178 | that task, fired on any February 29, fires again 30 seconds later with no matching minute between |
| ScheduleInstances.LeapDayTaskMisfiresAgain | internal/scheduler/scheduler.go:173-178 | as long as the next February 29 is over 730 days away, a poll of a serial run fires that task exactly when 30 seconds have passed since its last firing, and no match ever comes |
| Lifecycle.RunsKeepInvariant | internal/scheduler/scheduler.go:55-95 | over all interleavings the mutex has the holder the threads say, the wait group is exact, and quit is closed at most once |
| Lifecycle.ShutdownInvariant | internal/scheduler/scheduler.go:55-95 | the wait group counts the executions in flight plus the one being started; at most one close; nothing in flight once Start has returned |
| Lifecycle.StopWaitsForAll | internal/scheduler/scheduler.go:83-95 | at the instant a Stop call returns nothing is in flight or being started |
| Lifecycle.LeavesOnlyOnSignal | internal/scheduler/scheduler.go:63-79 | over all interleavings Start leaves its loop only after a close of quit or a cancellation |
| Lifecycle.ReturnedIsFinal | internal/scheduler/scheduler.go:67-79 | once Start has returned nothing is in flight and nothing ever starts again, whatever follows |
| Lifecycle.QuietIffLeftLoop | internal/scheduler/scheduler.go:63-95 | no continuation starts an execution exactly when Start has left its loop |
| Lifecycle.StopMayReturnBeforeAnExecution | internal/scheduler/scheduler.go:83-95 | a run in which Stop has returned and an execution can still start |
| Lifecycle.NeverStuck | internal/scheduler/scheduler.go:55-95 | while Start or a Stop call is under way some internal step is possible and, once Stop has been called or the context cancelled, a step other than a tick: no deadlock of mutex and wait group |
| Lifecycle.EveryStepNearer | internal/scheduler/scheduler.go:55-95 | every internal step other than a tick, by whichever thread, lowers a well-founded measure: only endless ticks can hold up a shutdown |
| Lifecycle.EveryStopCanReturn | internal/scheduler/scheduler.go:63-95 | from every reachable state after a Stop or a cancellation, internal steps without a tick make every Stop call and Start return |
| Agent.ConversationAgent.Run | internal/agent/agent.go:75-217 | the new history, the requests sent, the output, the tokens and the result are those of the loop, for every API and every tool; the attachment is consumed exactly when the input is accepted |
| Agent.ConversationAgent.WindowedHistory | internal/agent/agent.go:226-237 | all messages, or the tail after an even number of dropped ones |
| Agent.ConversationAgent.ExecuteTools | internal/agent/agent.go:163-204 | one result per tool use, in order, errors and screenshots included |
| Agent.ConversationAgent.Reset | internal/agent/agent.go:220-222 | the history is empty |
| Conversation.ResultsAnswer | internal/agent/agent.go:163-204 | for every reply the results carry exactly the ids of its tool uses, in order |
| Conversation.ResultAt | internal/agent/agent.go:163-204 | the result of the tool use at any position: its output, the screenshot behind the prefix, or its error marked as one, at that use's place among the results |
| Conversation.AnnouncementAt | internal/agent/agent.go:168-170 | every tool use is announced by its name, at its place |
| Conversation.ConcatJoins | internal/agent/agent.go:129-150 | the streamed text is the deltas in order |
| Conversation.WindowIsLongest | internal/agent/agent.go:226-237 | the window is the longest end of the history that fits and drops an even number |
| Conversation.RejectedIff | internal/agent/agent.go:75-89 | no call is made exactly for blank input, a full history or a failing prompt, with that error and no change |
| Conversation.FirstRequestEndsOnInput | internal/agent/agent.go:91-113 | the first request is the window of the history and one user message: the trimmed input, behind the attachment when there is one; at most ten requests follow one another |
| Conversation.LoopResult | internal/agent/agent.go:107-211 | by the way the loop ends: replies and answers in turn after the base, request k being the window of the history after k rounds, and the exact length |
| Conversation.LoopReports | internal/agent/agent.go:107-216 | however the loop ends: tokens are the sum over all replies, output is every delta and announcement in order, the result is the last nonempty streamed text, and it is an error exactly when the last call failed |
| Conversation.LoopLeavesTranscript | internal/agent/agent.go:107-211 | unless its first call fails, a run leaves the history followed by every reply as it came, each tool reply followed by its results |
| Conversation.AnyRunKeepsHistory | internal/agent/agent.go:75-217 | for every run, errors and exhaustion included: no two replies in a row, tool results answer their reply, at most 2 * MaxTurns + 20 messages, every request a nonempty suffix of at most 2 * HistoryWindow messages that ends on a user message |
| Conversation.SessionsKeepHistory | internal/agent/agent.go:65-222 | the same over all sequences of runs, resets and attachments |
| Conversation.FirstFailureRestores | internal/agent/agent.go:139-145 | a failed first call leaves the history as it was |
| Conversation.EvenRunAlternates | internal/agent/agent.go:75-237 | from an even alternating history every request starts and ends on a user message and alternates, and the history ends even exactly after a non-tool stop or a failed first call |
| Conversation.CleanSessionsAlternate | internal/agent/agent.go:75-222 | over all sessions of such runs the history alternates from a user message and is even between runs |
| Conversation.AlternationIff | internal/agent/agent.go:75-217 | after any history, a run leaves an alternating one, however the world answers, exactly when the history before it alternates and is even |
| Conversation.AnyWindowStartIff | internal/agent/agent.go:224-237 | after any history whatsoever, all requests of the next run start on a user message, however the world answers, exactly when at each of the ten lengths it can reach the first message kept is an old user message, or lies behind an even history or on the new message |
| Conversation.WindowStartIff | internal/agent/agent.go:224-237 | after an alternating history, that is exactly when the history is even or the window holds at least ten turns |
| Conversation.DefaultWindowMisses | internal/agent/agent.go:224-237 | a session with the default 20 turns and window of 20 after which a request starts on a reply |
| Stream.ReadStream | internal/api/client.go:166-268 | the scan loop gives the result and the deltas of the fold, for every cancellation and every time at which a read failure is recorded |
| Stream.BlocksAreIndependent | internal/api/client.go:203-240 | a block's state depends on its own events only, however events are interleaved |
| Stream.ScriptRebuildsIff | internal/api/client.go:212-240 | start, deltas and stop rebuild a block exactly when the start and the handled deltas carry all of it |
| Stream.Reassembles | internal/api/client.go:166-268 | for every split into deltas and every interleaving, the original blocks in index order, and the text deltas in order of arrival |
| Stream.LastOnesWin | internal/api/client.go:203-248 | over all lines, header, stop reason and output tokens are the last ones given, wherever they come among the blocks' events |
| Stream.ReadReturnsLast | internal/api/client.go:203-268 | the returned id, model, role, input tokens, stop reason and output tokens are the last ones before the marker, for every stream; the deltas passed on are those of the lines read, on errors too |
| Stream.NoBlockDroppedIff | internal/api/client.go:259-264 | all started blocks are returned exactly when their indices are 0 to n - 1 |
| Stream.ReadSucceedsIff | internal/api/client.go:182-257 | a read succeeds exactly when the context holds at every line looked at and no read failure has been recorded by the time of the marker, or of the end; it is cancelled exactly when the context does not hold |
| Stream.CutScriptIff | internal/api/client.go:212-240 | part of a block's events leaves the original block exactly when the missing ones carry nothing |
| Stream.CutContentIff | internal/api/client.go:182-268 | a stream cut anywhere without a read failure is a success, and its content is the whole content exactly when each block has started and its missing events carry nothing |
| Stream.ReasonMeansWhole | internal/api/client.go:182-268 | when stop reasons come after all block events, a nonempty stop reason proves that the content is whole, wherever the stream was cut |
| Stream.WithRetry | internal/api/client.go:271-309 | attempt k is made exactly when k <= 3 and every earlier one failed in a way that is retried without the context being found done; result and passed-on deltas of all attempts made; the exact backoff, at most 7 seconds |
| Stream.RetryEndsWith | internal/api/client.go:271-309 | the result by the last attempt: its response, the context's error or its own |
| Stream.StatusRetriedIff | internal/api/client.go:303-320 | of the HTTP errors exactly 429, 500 and 503 are retried |
| Stream.TransportRetriedThreeTimes | internal/api/client.go:290-300 | when all attempts fail without an API error, four are made, with the deltas of all four |
| Stream.RetriedDeltas | internal/api/client.go:102-137 | a call that succeeds at attempt m has passed on the deltas of all attempts: those of the response alone exactly when no earlier attempt had any |
| RateLimit.RateLimiter.constructor | internal/api/ratelimit.go:25-36 | a full bucket; a nonpositive rate means 50 per minute |
| RateLimit.RateLimiter.TryConsume | internal/api/ratelimit.go:64-84 | the new bucket and the answer of one attempt |
| RateLimit.RateLimiter.Wait | internal/api/ratelimit.go:40-60 | a single caller's loop ends within the polls that earn one token plus two: with the token of the first attempt that succeeds, or at the first check that finds the context done |
| RateLimit.AttemptKeepsValid | internal/api/ratelimit.go:64-84 | 0 <= tokens <= maxTokens after every attempt |
| RateLimit.SuccessesArePaid | internal/api/ratelimit.go:64-84 | successes and tokens left never exceed tokens at the start and the refill since |
| RateLimit.RateBound | internal/api/ratelimit.go:64-84 | whatever came before, any contiguous run of attempts over T seconds has at most maxTokens + refillRate * T successes |
| RateLimit.ConservesExactly | internal/api/ratelimit.go:64-84 | over any run without overflow, successes and tokens left are exactly the tokens at the start and the refill |
| RateLimit.IdleFills | internal/api/ratelimit.go:64-84 | after a long enough idle time the bucket is full |
| RateLimit.BurstIsWholeTokens | internal/api/ratelimit.go:64-84 | of any number of attempts at one instant exactly as many succeed as there are whole tokens |
| RateLimit.SucceedsIffAvailable | internal/api/ratelimit.go:64-84 | an attempt succeeds exactly from the instant on at which a whole token has been earned |
| RateLimit.FailuresAreInvisible | internal/api/ratelimit.go:64-84 | any number of failed attempts changes neither that instant nor the outcome of a later attempt |
| Pipe.ReadFull | internal/ipc/pipe.go:58-71 | for every schedule of short reads and failures: success only with exactly the next bytes; without failures, success exactly when enough bytes are left |
| Pipe.WriteAll | internal/ipc/pipe.go:74-84 | for every schedule of short writes and failures: everything, or a prefix and an error |
| Pipe.WriteFrame | internal/ipc/pipe.go:87-101 | header and payload, or a prefix of them and an error |
| Pipe.ReadFrame | internal/ipc/pipe.go:104-118 | a frame that is returned is exactly the next one, whatever the schedule; without failures, the errors of the byte-level decoding |
| Pipe.HeaderIsBigEndian | internal/ipc/pipe.go:87-111 | the four header bytes are the length, most significant first |
| Pipe.RoundTripIffFits | internal/ipc/pipe.go:87-118 | a written frame is read back, leaving the rest untouched, exactly when its payload has 1 to 2^20 bytes |
| Pipe.FramesRoundTrip | internal/ipc/pipe.go:87-118 | repeated reading gives back all payloads in order and consumes every byte |
| Pipe.TruncatedStream | internal/ipc/pipe.go:103-118 | a truncated stream gives the payloads of its whole frames and then an error, never a partial or shifted frame |
| PipeProtocol.HandleRequest | internal/service/service.go:176-217 | without write failures the handler puts exactly its chunks on the pipe, on every path, a failed read of the request included; the request is the front frame whenever the read succeeds or no read fails |
| PipeProtocol.EmissionMeaning | internal/service/service.go:176-217 | chunk by chunk, on every path: a text as it is, a tool's announcement as its name, and the last Done chunk with the error of that path |
| PipeProtocol.EmissionHasOneDone | internal/service/service.go:176-217 | on every path the handler emits one Done chunk, last |
| PipeProtocol.ReceiveChunks | internal/ipc/pipe.go:235-255 | for every schedule and every failure the channel carries one Done chunk, last; without failures, what the bytes hold |
| PipeProtocol.ReceivedHasOneDone | internal/ipc/pipe.go:235-255 | the same for all byte streams |
| PipeProtocol.DeliversAll | internal/ipc/pipe.go:229-256 | when every frame fits, the channel delivers exactly the emitted chunks in order |
| PipeProtocol.EndToEnd | internal/service/service.go:176-217 | request frame, handler, agent run and reader composed deliver what the handler emits |
| PipeProtocol.UnfitStops | internal/ipc/pipe.go:103-118 | a frame over the limit ends the delivery: the chunks before it, then one Done chunk with an error |
| PipeProtocol.UnparsableStops | internal/ipc/pipe.go:243-249 | a frame that is no chunk ends the delivery with one Done chunk |
| PipeProtocol.DeliversIffAllFit | internal/ipc/pipe.go:103-118 | delivery is exact if and only if every chunk fits |
| PipeProtocol.CutDelivers | internal/ipc/pipe.go:229-256 | a cut connection delivers exactly the chunks whose frames have come through whole and, unless these are all, one Done chunk with the error of a cut header or body |
| LineEditor.Editor.Insert | internal/terminal/repl.go:188-193 | append, shift and store are the zipper's insertion |
| LineEditor.Editor.DeleteBack | internal/terminal/repl.go:195-201 | the zipper's deletion before the cursor |
| LineEditor.Editor.DeleteForward | internal/terminal/repl.go:203-208 | the zipper's deletion at the cursor |
| LineEditor.Editor.MoveLeft | internal/terminal/repl.go:210-214 | the zipper's move to the left |
| LineEditor.Editor.MoveRight | internal/terminal/repl.go:216-220 | the zipper's move to the right |
| LineEditor.Editor.Apply | internal/terminal/repl.go:239-377 | any sequence of edits from the key loop is the zipper's sequence, with 0 <= cursor <= length |
| LineEditor.EditsRefine | internal/terminal/repl.go:182-220 | over all edit sequences the buffer and cursor abstract to the edited zipper |
| LineEditor.EditMeaning | internal/terminal/repl.go:188-220 | each edit by its effect on text and cursor, at the ends of the text too |
| LineEditor.TypingShows | internal/terminal/repl.go:188-193 | typing a text leaves that text with the cursor at its end |
| LineEditor.AbstractionIsFaithful | internal/terminal/repl.go:182-186 | the zipper determines the buffer and the cursor |
| LineEditor.HandleKey | internal/terminal/repl.go:321-343 | the arrow-key code is the navigation step |
| LineEditor.KeysShow | internal/terminal/repl.go:321-343 | after any keys the line shows the entry, or the typed text, of the position they lead to |
| LineEditor.UpsThenDownsRestore | internal/terminal/repl.go:321-343 | k Ups and then k Downs restore the typed text, for every k and every history |
| LineEditor.UpsThenDownsFrom | internal/terminal/repl.go:321-343 | from any position they come back to it exactly when the Ups do not pass the oldest entry or it is the typed line |
| SplitArgs.SplitLine | internal/terminal/repl.go:1097-1118 | the loop computes the split |
| SplitArgs.SplitInvertsQuoting | internal/terminal/repl.go:1096-1118 | nonempty arguments without double quotes, quoted or bare, joined by any number of spaces, come back as they were |
| SplitArgs.SplitConserves | internal/terminal/repl.go:1096-1118 | on any line the arguments together are the line minus quotes and unquoted spaces, and none is empty |
| SplitArgs.SplitIsRuns | internal/terminal/repl.go:1096-1118 | on any line the arguments are exactly the runs between unquoted spaces, without the quotes |
| Utf16.EncodeUtf16Bytes | internal/security/credman.go:77-85 | the buffer filled by index holds the encoding |
| Utf16.DecodeUtf16Bytes | internal/security/credman.go:88-97 | the units rebuilt by index decode to the text |
| Utf16.RoundTrip | internal/security/credman.go:75-97 | decoding the encoding gives every sequence of scalar values back, surrogate pairs included |
| Utf16.EncodedSize | internal/security/credman.go:77-85 | two bytes per scalar below U+10000 and four per supplementary one |
| Utf16.EncodedFirst | internal/security/credman.go:77-85 | the bytes of every scalar in numbers, low byte first, surrogates by the formula of RFC 2781 |
| Utf16.BrokenBecomesReplacement | internal/security/credman.go:77-97 | unpaired surrogates and runes that are no scalar values become U+FFFD |
| Utf16.TrailingByteIgnored | internal/security/credman.go:89-91 | an extra trailing byte does not change the decoding |
| Utf16.BlobRoundTripIff | internal/security/credman.go:75-97 | a blob survives decoding and encoding exactly when it has no odd byte and no unpaired surrogate |

## Left out

- SQLite, SQL text, pragmas and migrations: the task table is a map; each statement is one atomic step that succeeds, apart from a duplicate id; foreign keys, failing updates and updates under a cancelled context are not part of the model.
- HTTP, TLS, JSON and the line scanner's buffer limit: streams start from parsed lines; the pipe takes a chunk codec that reads back what it wrote.
- Windows calls, ACLs, DPAPI, Credential Manager calls, PowerShell tools, plugins, web search and terminal drawing: foreign calls or user interface.
- Session records, configuration files, memory files, system prompt text, thinking options and memory consolidation: thin wrappers; a failing system prompt is one of the world's choices, and the history window is positive because the configuration is validated.
- Integer widths: step loops and times are unbounded integers; numbers read by `Atoi` and durations in days and weeks have 64 bits as in the source.
- Rounding: the bucket uses real numbers in the place of 64-bit floats, and a clock that never goes back.
- RateLimit.RateLimiter.Wait: one caller only; with several callers a token can go to another one and no bound holds.
- Pipe.WriteAll: a write that moves no byte and reports no error would loop for ever; every write here moves at least one.
- PipeProtocol.HandleRequest: when a write fails the later ones are still tried and the bytes on the pipe are not specified; disconnecting may also drop bytes the client has not read, which `PipeProtocol.CutDelivers` covers on the client's side.
- Lifecycle.EveryStepNearer: a choice that prefers the tick for ever to a closed quit channel is not excluded; the polls of the loop stand for any number of due tasks, without the table.
- Lifecycle.RunsKeepInvariant: Go allows a wait group's Add from zero to race with a Wait only at the risk of a panic; Start's Add and Stop's Wait can do so, and the model takes both orders as harmless.
- Invalid UTF-8: strings are sequences of Unicode characters, which is what Go's conversions to runes give after replacement.
- The other keys of the line editor (interrupt, screen clearing, continuation lines, UTF-8 input decoding) and the growth of its buffer in memory.
- Stream.ReadStream: the map holds block states as values where the source mutates them through pointers.
