/**
 The task table and the executions in flight, as a class whose methods are the scheduler's operations and as a
 transition system over which whole runs are reasoned about. Each SQL statement is one atomic step that succeeds.
 */
module Scheduler {
  import opened Wrappers
  import opened CronSearch
  import opened Schedule

  datatype Status = Active | Paused | Cancelled

  /** A row of scheduled_tasks; `nextRun` and `lastRun` are Unix seconds. */
  datatype Task = Task(
    id: string, sessionId: string, name: string, schedule: string, nextRun: int, lastRun: int, status: Status,
    prompt: string)

  /** A started execution: the row as polled, the next run computed at the poll (zero on error) and the poll's time. */
  datatype Execution = Execution(task: Task, next: Time, runAt: Time)

  datatype State = State(tasks: map<string, Task>, inFlight: multiset<Execution>)

  datatype SchedulerError =
    | BadName
    | BadSchedule
    | BadPrompt
    | CannotParse(error: ScheduleError)
    | DuplicateId
    | NotFound

  const POLL_INTERVAL: Time := 30 * SECOND
  const MAX_NAME_LENGTH := 128
  const MAX_SCHEDULE_LENGTH := 64
  const MAX_PROMPT_LENGTH := 10_000

  /** Seconds from 0001-01-01 to 1970-01-01. */
  const UNIX_EPOCH := 62_135_596_800

  /** `Time.Unix`. */
  function Unix(t: Time): int {
    t / SECOND - UNIX_EPOCH
  }

  /** The length in bytes of a string, `len(s)` in Go. */
  function ByteLength(s: string): nat {
    if s == "" then 0 else
    var c := s[|s| - 1] as int;
    ByteLength(s[..|s| - 1]) + (if c < 0x80 then 1 else if c < 0x800 then 2 else if c < 0x10000 then 3 else 4)
  }

  // ---------------------------------------------------------------------------
  // What each operation does to the state
  // ---------------------------------------------------------------------------

  predicate IsDue(task: Task, now: Time) {
    task.status == Active && task.nextRun <= Unix(now)
  }

  /** The next run that a poll attaches to an execution: the zero time when the schedule gives an error. */
  function NextOrZero(schedule: string, now: Time, nr: NextRunFn): Time {
    match nr(schedule, now) case Success(t) => t case Failure(_) => 0
  }

  function ExecutionOf(task: Task, now: Time, nr: NextRunFn): Execution {
    Execution(task, NextOrZero(task.schedule, now, nr), now)
  }

  function DueIds(tasks: map<string, Task>, now: Time): set<string> {
    set id | id in tasks && IsDue(tasks[id], now)
  }

  function ExecutionsOf(tasks: map<string, Task>, ids: set<string>, now: Time, nr: NextRunFn): set<Execution>
    requires ids <= tasks.Keys
  {
    set id | id in ids :: ExecutionOf(tasks[id], now, nr)
  }

  function DueExecutions(tasks: map<string, Task>, now: Time, nr: NextRunFn): set<Execution> {
    ExecutionsOf(tasks, DueIds(tasks, now), now, nr)
  }

  /** The stored next run after an execution: 30 seconds later when there is no usable next run. */
  function NextRunValue(next: Time, runAt: Time): int {
    if next == 0 || next < runAt then Unix(runAt + POLL_INTERVAL) else Unix(next)
  }

  /** The row after an execution has finished. */
  function AfterRun(row: Task, e: Execution): Task {
    if e.task.schedule == ONCE then row.(status := Cancelled, lastRun := Unix(e.runAt))
    else row.(lastRun := Unix(e.runAt), nextRun := NextRunValue(e.next, e.runAt))
  }

  function ScheduleCheck(name: string, schedule: string, prompt: string): Option<SchedulerError> {
    if name == "" || ByteLength(name) > MAX_NAME_LENGTH then Some(BadName)
    else if schedule == "" || ByteLength(schedule) > MAX_SCHEDULE_LENGTH then Some(BadSchedule)
    else if prompt == "" || ByteLength(prompt) > MAX_PROMPT_LENGTH then Some(BadPrompt)
    else None
  }

  function Inserted(
    s: State, id: string, sessionId: string, name: string, schedule: string, prompt: string, now: Time, nr: NextRunFn
  ): (State, Result<string, SchedulerError>) {
    var bad := ScheduleCheck(name, schedule, prompt);
    if bad.Some? then (s, Failure(bad.value)) else
    match nr(schedule, now)
    case Failure(e) => (s, Failure(CannotParse(e)))
    case Success(next) =>
      if id in s.tasks then (s, Failure(DuplicateId))
      else (s.(tasks := s.tasks[id := Task(id, sessionId, name, schedule, Unix(next), 0, Active, prompt)]), Success(id))
  }

  function Polled(s: State, now: Time, nr: NextRunFn): State {
    s.(inFlight := s.inFlight + multiset(DueExecutions(s.tasks, now, nr)))
  }

  /** An execution finishes: its row, if still there, is updated. */
  function Completed(s: State, e: Execution): State {
    if e !in s.inFlight then s else
    State(if e.task.id in s.tasks then s.tasks[e.task.id := AfterRun(s.tasks[e.task.id], e)] else s.tasks,
          s.inFlight - multiset{e})
  }

  function WithStatus(s: State, id: string, status: Status): (State, Result<(), SchedulerError>) {
    if id in s.tasks then (s.(tasks := s.tasks[id := s.tasks[id].(status := status)]), Success(()))
    else (s, Failure(NotFound))
  }

  function Resumed(s: State, id: string, now: Time, nr: NextRunFn): (State, Result<(), SchedulerError>) {
    if id !in s.tasks then (s, Failure(NotFound)) else
    match nr(s.tasks[id].schedule, now)
    case Failure(e) => (s, Failure(CannotParse(e)))
    case Success(next) =>
      (s.(tasks := s.tasks[id := s.tasks[id].(status := Active, nextRun := Unix(next))]), Success(()))
  }

  // ---------------------------------------------------------------------------
  // The scheduler object
  // ---------------------------------------------------------------------------

  /** Rows are stored under their own id and every execution belongs to a row. */
  ghost predicate WellFormed(s: State) {
    && (forall id :: id in s.tasks ==> s.tasks[id].id == id)
    && (forall e :: e in s.inFlight ==> e.task.id in s.tasks)
  }

  lemma NoExecutions(tasks: map<string, Task>, now: Time, nr: NextRunFn)
    ensures ExecutionsOf(tasks, {}, now, nr) == {}
  {
  }

  lemma OneMoreExecution(tasks: map<string, Task>, seen: set<string>, id: string, now: Time, nr: NextRunFn)
    requires seen <= tasks.Keys && id in tasks && id !in seen
    requires forall i :: i in tasks ==> tasks[i].id == i
    ensures multiset(ExecutionsOf(tasks, seen + {id}, now, nr))
            == multiset(ExecutionsOf(tasks, seen, now, nr)) + multiset{ExecutionOf(tasks[id], now, nr)}
  {
    hide NextOrZero;
    var before := ExecutionsOf(tasks, seen, now, nr);
    var e := ExecutionOf(tasks[id], now, nr);
    assert e !in before;
    assert ExecutionsOf(tasks, seen + {id}, now, nr) == before + {e};
  }

  lemma InFlightHasRow(s: State, e: Execution)
    requires WellFormed(s) && e in s.inFlight
    ensures e.task.id in s.tasks
  {
  }

  lemma CompleteKeeps(s: State, e: Execution)
    requires WellFormed(s)
    ensures WellFormed(Completed(s, e))
  {
    hide NextRunValue;
    var s' := Completed(s, e);
    assert forall x :: x in s'.inFlight ==> x in s.inFlight;
  }

  class TaskScheduler {
    var tasks: map<string, Task>
    var inFlight: multiset<Execution>
    var wg: int
    const nr: NextRunFn

    ghost function Now(): State
      reads this
    {
      State(tasks, inFlight)
    }

    ghost predicate Valid()
      reads this
    {
      WellFormed(Now()) && wg == |inFlight|
    }

    constructor (nr: NextRunFn)
      ensures Valid() && Now() == State(map[], multiset{}) && this.nr == nr
    {
      tasks, inFlight, wg := map[], multiset{}, 0;
      this.nr := nr;
    }

    method Schedule(id: string, sessionId: string, name: string, schedule: string, prompt: string, now: Time)
      returns (r: Result<string, SchedulerError>)
      requires Valid()
      modifies this
      ensures Valid()
      ensures (Now(), r) == Inserted(old(Now()), id, sessionId, name, schedule, prompt, now, nr)
    {
      if name == "" || ByteLength(name) > MAX_NAME_LENGTH {
        return Failure(BadName);
      }
      if schedule == "" || ByteLength(schedule) > MAX_SCHEDULE_LENGTH {
        return Failure(BadSchedule);
      }
      if prompt == "" || ByteLength(prompt) > MAX_PROMPT_LENGTH {
        return Failure(BadPrompt);
      }
      var next := nr(schedule, now);
      if next.Failure? {
        return Failure(CannotParse(next.error));
      }
      if id in tasks {
        return Failure(DuplicateId);
      }
      tasks := tasks[id := Task(id, sessionId, name, schedule, Unix(next.value), 0, Active, prompt)];
      return Success(id);
    }

    /** The query of a poll: the due rows in some order, each with its next run. */
    method QueryDue(now: Time) returns (due: seq<Execution>)
      requires WellFormed(Now())
      ensures multiset(due) == multiset(DueExecutions(tasks, now, nr))
      ensures forall e :: e in due ==> e.task.id in tasks
    {
      hide IsDue, ExecutionsOf;
      assert ExecutionsOf(tasks, {}, now, nr) == {} by { NoExecutions(tasks, now, nr); }
      var rows := DueIds(tasks, now);
      due := [];
      ghost var seen: set<string> := {};
      while rows != {}
        invariant rows !! seen && rows + seen == DueIds(tasks, now)
        invariant multiset(due) == multiset(ExecutionsOf(tasks, seen, now, nr))
        invariant forall e :: e in due ==> e.task.id in tasks
        decreases |rows|
      {
        var id :| id in rows;
        rows := rows - {id};
        var t := tasks[id];
        var next := nr(t.schedule, now);
        OneMoreExecution(tasks, seen, id, now, nr);
        due := due + [Execution(t, if next.Success? then next.value else 0, now)];
        seen := seen + {id};
      }
      assert seen == DueIds(tasks, now);
    }

    /** One poll: query, then start one execution for each due row. */
    method Poll(now: Time)
      requires Valid()
      modifies this
      ensures Valid()
      ensures Now() == Polled(old(Now()), now, nr)
    {
      var due := QueryDue(now);
      Spawn(due);
    }

    /** The loop that starts one goroutine per due task. */
    method Spawn(due: seq<Execution>)
      requires Valid() && forall e :: e in due ==> e.task.id in tasks
      modifies this
      ensures Valid()
      ensures Now() == State(old(tasks), old(inFlight) + multiset(due))
    {
      for i := 0 to |due|
        invariant tasks == old(tasks)
        invariant inFlight == old(inFlight) + multiset(due[..i])
        invariant wg == |inFlight|
      {
        assert due[..i + 1] == due[..i] + [due[i]];
        wg := wg + 1;
        inFlight := inFlight + multiset{due[i]};
      }
      assert due[..|due|] == due;
    }

    /** The end of one execution: the row is updated and the wait group is decremented. */
    method ExecuteTask(e: Execution)
      requires Valid() && e in inFlight
      modifies this
      ensures Valid()
      ensures Now() == Completed(old(Now()), e)
    {
      hide Unix;
      ghost var s := Now();
      CompleteKeeps(s, e);
      assert e.task.id in tasks by { InFlightHasRow(s, e); }
      hide WellFormed;
      tasks := UpdateRow(e);
      inFlight := inFlight - multiset{e};
      wg := wg - 1;
      assert Now() == Completed(s, e);
    }

    /** The table after the UPDATE that ends an execution. */
    method UpdateRow(e: Execution) returns (updated: map<string, Task>)
      requires e.task.id in tasks
      ensures updated == tasks[e.task.id := AfterRun(tasks[e.task.id], e)]
    {
      hide Unix;
      var id := e.task.id;
      if e.task.schedule == ONCE {
        return tasks[id := tasks[id].(status := Cancelled, lastRun := Unix(e.runAt))];
      }
      var nextRunVal;
      if e.next == 0 || e.next < e.runAt {
        nextRunVal := Unix(e.runAt + POLL_INTERVAL);
      } else {
        nextRunVal := Unix(e.next);
      }
      return tasks[id := tasks[id].(lastRun := Unix(e.runAt), nextRun := nextRunVal)];
    }

    method SetStatus(id: string, status: Status) returns (r: Result<(), SchedulerError>)
      requires Valid()
      modifies this
      ensures Valid()
      ensures (Now(), r) == WithStatus(old(Now()), id, status)
    {
      if id !in tasks {
        return Failure(NotFound);
      }
      tasks := tasks[id := tasks[id].(status := status)];
      return Success(());
    }

    method Pause(id: string) returns (r: Result<(), SchedulerError>)
      requires Valid()
      modifies this
      ensures Valid()
      ensures (Now(), r) == WithStatus(old(Now()), id, Paused)
    {
      r := SetStatus(id, Paused);
    }

    method Cancel(id: string) returns (r: Result<(), SchedulerError>)
      requires Valid()
      modifies this
      ensures Valid()
      ensures (Now(), r) == WithStatus(old(Now()), id, Cancelled)
    {
      r := SetStatus(id, Cancelled);
    }

    method Resume(id: string, now: Time) returns (r: Result<(), SchedulerError>)
      requires Valid()
      modifies this
      ensures Valid()
      ensures (Now(), r) == Resumed(old(Now()), id, now, nr)
    {
      if id !in tasks {
        return Failure(NotFound);
      }
      var next := nr(tasks[id].schedule, now);
      if next.Failure? {
        return Failure(CannotParse(next.error));
      }
      tasks := tasks[id := tasks[id].(status := Active, nextRun := Unix(next.value))];
      return Success(());
    }
  }
}
