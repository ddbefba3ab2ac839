/** What rows and executions carry over all runs: the columns that Schedule sets, the last run and the status. */
module SchedulerRecords {
  import opened Wrappers
  import opened CronSearch
  import opened Schedule
  import opened Scheduler
  import opened SchedulerRuns

  // ---------------------------------------------------------------------------
  // What a poll starts
  // ---------------------------------------------------------------------------

  /** A poll starts one execution of each row that is active and whose next run has come: of the whole row, as it is. */
  lemma PollStarts(s: State, now: Time, nr: NextRunFn, e: Execution)
    requires WellFormed(s)
    ensures var id := e.task.id;
            var next := nr(e.task.schedule, now);
            Polled(s, now, nr).inFlight[e] - s.inFlight[e]
            == if && id in s.tasks && s.tasks[id].status == Active && s.tasks[id].nextRun <= Unix(now)
                  && e.task == s.tasks[id] && e.runAt == now && e.next == (if next.Success? then next.value else 0)
               then 1 else 0
  {
    var due := DueExecutions(s.tasks, now, nr);
    assert Polled(s, now, nr).inFlight[e] == s.inFlight[e] + multiset(due)[e];
    hide Unix;
    if e in due {
      assert e.task.id in s.tasks && e == ExecutionOf(s.tasks[e.task.id], now, nr);
    } else if e.task.id in s.tasks && IsDue(s.tasks[e.task.id], now) {
      assert ExecutionOf(s.tasks[e.task.id], now, nr) in due;
    }
  }

  // ---------------------------------------------------------------------------
  // The columns that Schedule sets
  // ---------------------------------------------------------------------------

  predicate HasColumns(task: Task, id: string, sessionId: string, name: string, schedule: string, prompt: string) {
    && task.id == id && task.sessionId == sessionId && task.name == name && task.schedule == schedule
    && task.prompt == prompt
  }

  /** The row of `id` and all its executions in flight have these columns. */
  ghost predicate AllHaveColumns(
    s: State, id: string, sessionId: string, name: string, schedule: string, prompt: string) {
    && WellFormed(s) && id in s.tasks && HasColumns(s.tasks[id], id, sessionId, name, schedule, prompt)
    && (forall e :: e in s.inFlight && e.task.id == id ==> HasColumns(e.task, id, sessionId, name, schedule, prompt))
  }

  lemma ColumnsStep(
    s: State, ev: Event, id: string, sessionId: string, name: string, schedule: string, prompt: string, nr: NextRunFn)
    requires AllHaveColumns(s, id, sessionId, name, schedule, prompt)
    ensures AllHaveColumns(Step(s, ev, nr), id, sessionId, name, schedule, prompt)
  {
    StepKeeps(s, ev, nr);
    var s' := Step(s, ev, nr);
    if ev.Poll? {
      PollTasks(s, ev.now, nr);
      forall e | e in s'.inFlight && e.task.id == id
        ensures HasColumns(e.task, id, sessionId, name, schedule, prompt)
      {
        PollStarts(s, ev.now, nr, e);
        hide Polled;
      }
    } else if ev.Complete? {
      hide NextRunValue, Unix;
      if ev.e in s.inFlight {
        OthersStay(s, ev.e);
      }
    } else {
      TouchesOneRow(s, ev, nr);
      hide Unix, ScheduleCheck;
    }
  }

  lemma {:induction false} ColumnsRun(
    s: State, evs: seq<Event>, id: string, sessionId: string, name: string, schedule: string, prompt: string,
    nr: NextRunFn)
    requires AllHaveColumns(s, id, sessionId, name, schedule, prompt)
    ensures AllHaveColumns(Run(s, evs, nr), id, sessionId, name, schedule, prompt)
    decreases |evs|
  {
    hide AllHaveColumns, Step;
    if evs != [] {
      ColumnsStep(s, evs[0], id, sessionId, name, schedule, prompt, nr);
      ColumnsRun(Step(s, evs[0], nr), evs[1..], id, sessionId, name, schedule, prompt, nr);
    }
  }

  /**
   Schedule takes a task exactly when name, schedule and prompt have 1 to 128, 64 and 10,000 bytes, the schedule has a
   next run and the id is new; a rejected one changes nothing.
   */
  lemma ScheduleAcceptsIff(
    s: State, id: string, sessionId: string, name: string, schedule: string, prompt: string, now: Time, nr: NextRunFn)
    ensures var (s', r) := Inserted(s, id, sessionId, name, schedule, prompt, now, nr);
            && (r.Success? <==>
                && 1 <= ByteLength(name) <= 128 && 1 <= ByteLength(schedule) <= 64 && 1 <= ByteLength(prompt) <= 10_000
                && nr(schedule, now).Success? && id !in s.tasks)
            && (r.Failure? ==> s' == s)
            && (r.Failure? ==>
                  r.error == (if !(1 <= ByteLength(name) <= 128) then BadName
                              else if !(1 <= ByteLength(schedule) <= 64) then BadSchedule
                              else if !(1 <= ByteLength(prompt) <= 10_000) then BadPrompt
                              else if nr(schedule, now).Failure? then CannotParse(nr(schedule, now).error)
                              else DuplicateId))
  {
    BytesOfText(name);
    BytesOfText(schedule);
    BytesOfText(prompt);
    hide ByteLength;
  }

  /** The number of bytes lies between one and four times the number of characters. */
  lemma {:induction false} BytesOfText(s: string)
    ensures |s| <= ByteLength(s) <= 4 * |s|
  {
    if s != "" {
      BytesOfText(s[..|s| - 1]);
    }
  }

  /** ASCII text has one byte for each character; bytes of joined texts add up. */
  lemma {:induction false} BytesAddUp(a: string, b: string)
    ensures ByteLength(a + b) == ByteLength(a) + ByteLength(b)
    ensures (forall i :: 0 <= i < |b| ==> b[i] < '\U{0080}') ==> ByteLength(b) == |b|
    decreases |b|
  {
    if b == "" {
      assert a + b == a;
    } else {
      assert (a + b)[..|a + b| - 1] == a + b[..|b| - 1];
      BytesAddUp(a, b[..|b| - 1]);
    }
  }

  /**
   Pausing, cancelling and resuming report a missing row, and resuming a schedule without a next run; then nothing has
   changed. Otherwise only this row has, in its status and, when it is resumed, in its next run.
   */
  lemma RowChanges(s: State, id: string, status: Status, now: Time, nr: NextRunFn)
    ensures var (s', r) := WithStatus(s, id, status);
            if id !in s.tasks then s' == s && r == Failure(NotFound)
            else r == Success(()) && s' == s.(tasks := s.tasks[id := s.tasks[id].(status := status)])
    ensures var (s', r) := Resumed(s, id, now, nr);
            if id !in s.tasks then s' == s && r == Failure(NotFound)
            else
              var next := nr(s.tasks[id].schedule, now);
              if next.Failure? then s' == s && r == Failure(CannotParse(next.error))
              else
                && r == Success(())
                && s' == s.(tasks := s.tasks[id := s.tasks[id].(status := Active, nextRun := Unix(next.value))])
  {
  }

  /** A scheduled task is stored as active and never run, with its next run and all that it was given. */
  lemma ScheduleStores(
    s: State, id: string, sessionId: string, name: string, schedule: string, prompt: string, now: Time, nr: NextRunFn)
    requires WellFormed(s) && Inserted(s, id, sessionId, name, schedule, prompt, now, nr).1.Success?
    ensures var (s', r) := Inserted(s, id, sessionId, name, schedule, prompt, now, nr);
            && r.value == id && AllHaveColumns(s', id, sessionId, name, schedule, prompt)
            && s'.inFlight == s.inFlight && s'.tasks.Keys == s.tasks.Keys + {id}
            && (forall i :: i in s.tasks ==> i != id && s'.tasks[i] == s.tasks[i])
            && s'.tasks[id].status == Active && s'.tasks[id].lastRun == 0
            && s'.tasks[id].nextRun == Unix(nr(schedule, now).value)
  {
    hide ScheduleCheck, Unix;
    StepKeeps(s, Insert(id, sessionId, name, schedule, prompt, now), nr);
  }

  /**
   Over all runs from a successful Schedule: the row keeps what it was given, and every execution of it in flight is for
   that session and prompt.
   */
  lemma ScheduledTaskKeepsColumns(
    s: State, id: string, sessionId: string, name: string, schedule: string, prompt: string, now: Time,
    evs: seq<Event>, nr: NextRunFn)
    requires WellFormed(s) && Inserted(s, id, sessionId, name, schedule, prompt, now, nr).1.Success?
    ensures var s' := Run(Inserted(s, id, sessionId, name, schedule, prompt, now, nr).0, evs, nr);
            AllHaveColumns(s', id, sessionId, name, schedule, prompt)
  {
    ScheduleStores(s, id, sessionId, name, schedule, prompt, now, nr);
    hide *;
    ColumnsRun(Inserted(s, id, sessionId, name, schedule, prompt, now, nr).0, evs, id, sessionId, name, schedule,
               prompt, nr);
  }

  // ---------------------------------------------------------------------------
  // The last run and the status
  // ---------------------------------------------------------------------------

  /** An execution of `id` that is in flight completes. */
  predicate Completes(s: State, ev: Event, id: string) {
    ev.Complete? && ev.e in s.inFlight && ev.e.task.id == id
  }

  /** The poll time of the execution of `id` that completed last, or `last` when none has. */
  function LastCompleted(s: State, evs: seq<Event>, id: string, last: int, nr: NextRunFn): int
    decreases |evs|
  {
    if evs == [] then last else
    var last' := if Completes(s, evs[0], id) then Unix(evs[0].e.runAt) else last;
    LastCompleted(Step(s, evs[0], nr), evs[1..], id, last', nr)
  }

  /** What an event makes of the status of `id`: a completed "@once" is cancelled. */
  function StatusNow(s: State, ev: Event, id: string, schedule: string, status: Status, nr: NextRunFn): Status {
    if schedule == "@once" && Completes(s, ev, id) then Cancelled
    else if ev.Pause? && ev.id == id then Paused
    else if ev.Cancel? && ev.id == id then Cancelled
    else if ev.Resume? && ev.id == id && nr(schedule, ev.now).Success? then Active
    else status
  }

  function StatusAtEnd(s: State, evs: seq<Event>, id: string, schedule: string, status: Status, nr: NextRunFn): Status
    decreases |evs|
  {
    if evs == [] then status else
    StatusAtEnd(Step(s, evs[0], nr), evs[1..], id, schedule, StatusNow(s, evs[0], id, schedule, status, nr), nr)
  }

  lemma RecordStep(s: State, ev: Event, id: string, nr: NextRunFn)
    requires WellFormed(s) && id in s.tasks
    ensures var row, s' := s.tasks[id], Step(s, ev, nr);
            && id in s'.tasks
            && s'.tasks[id].lastRun == (if Completes(s, ev, id) then Unix(ev.e.runAt) else row.lastRun)
            && s'.tasks[id].status
               == (if Completes(s, ev, id) then (if ev.e.task.schedule == "@once" then Cancelled else row.status)
                   else StatusNow(s, ev, id, row.schedule, row.status, nr))
            && s'.tasks[id].schedule == row.schedule
  {
    if ev.Complete? {
      CompleteRecords(s, ev.e, id);
    } else if ev.Poll? {
      PollTasks(s, ev.now, nr);
    } else {
      OtherRecords(s, ev, id, nr);
    }
    hide Polled, Completed, Unix, WellFormed;
  }

  lemma CompleteRecords(s: State, e: Execution, id: string)
    requires WellFormed(s) && id in s.tasks
    ensures var row, s' := s.tasks[id], Completed(s, e);
            && id in s'.tasks && s'.tasks[id].schedule == row.schedule
            && if e in s.inFlight && e.task.id == id then
                 && s'.tasks[id].lastRun == Unix(e.runAt)
                 && s'.tasks[id].status == (if e.task.schedule == "@once" then Cancelled else row.status)
               else s'.tasks[id] == row
  {
    hide NextRunValue, Unix;
  }

  lemma OtherRecords(s: State, ev: Event, id: string, nr: NextRunFn)
    requires WellFormed(s) && id in s.tasks && !ev.Poll? && !ev.Complete?
    ensures var row, s' := s.tasks[id], Step(s, ev, nr);
            && id in s'.tasks && s'.tasks[id].schedule == row.schedule && s'.tasks[id].lastRun == row.lastRun
            && s'.tasks[id].status == StatusNow(s, ev, id, row.schedule, row.status, nr)
  {
    hide Unix, ScheduleCheck, WellFormed;
  }

  /**
   Over all runs of any shape, "@once" included: the stored last run is the poll time of the execution that completed
   last, and the status is the one that the last pause, cancel, successful resume or "@once" completion has set.
   */
  lemma {:induction false} RecordRun(
    s: State, evs: seq<Event>, id: string, sessionId: string, name: string, schedule: string, prompt: string,
    nr: NextRunFn)
    requires AllHaveColumns(s, id, sessionId, name, schedule, prompt)
    ensures var s' := Run(s, evs, nr);
            && id in s'.tasks
            && s'.tasks[id].lastRun == LastCompleted(s, evs, id, s.tasks[id].lastRun, nr)
            && s'.tasks[id].status == StatusAtEnd(s, evs, id, schedule, s.tasks[id].status, nr)
    decreases |evs|
  {
    if evs != [] {
      RecordStep(s, evs[0], id, nr);
      ColumnsStep(s, evs[0], id, sessionId, name, schedule, prompt, nr);
      assert Completes(s, evs[0], id) ==> evs[0].e.task.schedule == schedule;
      hide Step, Unix, AllHaveColumns;
      RecordRun(Step(s, evs[0], nr), evs[1..], id, sessionId, name, schedule, prompt, nr);
    }
  }
}
