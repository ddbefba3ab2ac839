/**
 Runs of any shape: overlapping executions, pauses, resumes and cancels at any time. When a poll fires a task, and when
 a resumed task does not catch up on what it has missed.
 */
module SchedulerAnyRuns {
  import opened Wrappers
  import opened CronSearch
  import opened Schedule
  import opened Scheduler
  import opened SchedulerRuns

  /** An execution of `id` carries what the poll that started it computed. */
  predicate FromPoll(e: Execution, schedule: string, nr: NextRunFn) {
    e.task.schedule == schedule && e.runAt > 0 && e.next == NextOrZero(schedule, e.runAt, nr)
  }

  ghost predicate AllFromPolls(s: State, id: string, schedule: string, nr: NextRunFn) {
    forall e :: e in s.inFlight && e.task.id == id ==> FromPoll(e, schedule, nr)
  }

  /** The next run that is stored for a computation at `a`. */
  function StoredValue(schedule: string, a: Time, nr: NextRunFn): int {
    NextRunValue(NextOrZero(schedule, a, nr), a)
  }

  /** The stored next run of `id` is the one computed at `a`. */
  ghost predicate Stored(s: State, id: string, schedule: string, a: Time, nr: NextRunFn) {
    && WellFormed(s) && id in s.tasks && s.tasks[id].schedule == schedule && a > 0
    && s.tasks[id].nextRun == StoredValue(schedule, a, nr)
    && AllFromPolls(s, id, schedule, nr)
  }

  /**
   The instant from which the stored next run of `id` has been computed, after an event that found it at `a`: a
   completion stores what its poll computed, a resume what it computes itself.
   */
  function StoredFrom(s: State, ev: Event, id: string, schedule: string, a: Time, nr: NextRunFn): Time {
    match ev
    case Complete(e) => if e in s.inFlight && e.task.id == id then e.runAt else a
    case Resume(i, now) => if i == id && nr(schedule, now).Success? then now else a
    case _ => a
  }

  function LastStored(s: State, evs: seq<Event>, id: string, schedule: string, a: Time, nr: NextRunFn): Time
    decreases |evs|
  {
    if evs == [] then a else
    LastStored(Step(s, evs[0], nr), evs[1..], id, schedule, StoredFrom(s, evs[0], id, schedule, a, nr), nr)
  }

  /** The status of `id` after an event: only pauses, cancels and resumes that find a next run set it. */
  function StatusFrom(ev: Event, id: string, schedule: string, status: Status, nr: NextRunFn): Status {
    match ev
    case Pause(i) => if i == id then Paused else status
    case Cancel(i) => if i == id then Cancelled else status
    case Resume(i, now) => if i == id && nr(schedule, now).Success? then Active else status
    case _ => status
  }

  function LastStatus(evs: seq<Event>, id: string, schedule: string, status: Status, nr: NextRunFn): Status
    decreases |evs|
  {
    if evs == [] then status else
    LastStatus(evs[1..], id, schedule, StatusFrom(evs[0], id, schedule, status, nr), nr)
  }

  // ---------------------------------------------------------------------------
  // One step
  // ---------------------------------------------------------------------------

  lemma StoredPoll(s: State, now: Time, id: string, schedule: string, a: Time, nr: NextRunFn)
    requires Stored(s, id, schedule, a, nr) && now > 0
    ensures Stored(Polled(s, now, nr), id, schedule, a, nr)
  {
    PollKeeps(s, now, nr);
    hide NextOrZero, NextRunValue, IsDue;
    var due := DueExecutions(s.tasks, now, nr);
    assert forall e :: e in Polled(s, now, nr).inFlight <==> e in s.inFlight || e in due;
  }

  lemma StoredComplete(s: State, e: Execution, id: string, schedule: string, a: Time, nr: NextRunFn)
    requires Stored(s, id, schedule, a, nr) && schedule != ONCE
    ensures var s' := Completed(s, e);
            && Stored(s', id, schedule, StoredFrom(s, Complete(e), id, schedule, a, nr), nr)
            && s'.tasks[id].status == s.tasks[id].status
  {
    CompleteKeeps(s, e);
    hide NextOrZero, NextRunValue, WellFormed;
    if e in s.inFlight {
      OthersStay(s, e);
    }
  }

  lemma StoredResume(s: State, i: string, now: Time, id: string, schedule: string, a: Time, nr: NextRunFn)
    requires Stored(s, id, schedule, a, nr) && NeverBefore(nr) && now > 0
    ensures var s' := Resumed(s, i, now, nr).0;
            && Stored(s', id, schedule, StoredFrom(s, Resume(i, now), id, schedule, a, nr), nr)
            && s'.tasks[id].status == StatusFrom(Resume(i, now), id, schedule, s.tasks[id].status, nr)
  {
    ResumeKeeps(s, i, now, nr);
    StoredNextRun(schedule, now, nr);
    hide NextOrZero, NextRunValue, NeverBefore, WellFormed;
  }

  /** Nothing but a change of the row of `i` has happened, and not to `id`'s next run. */
  lemma StoredOther(s: State, ev: Event, id: string, schedule: string, a: Time, nr: NextRunFn)
    requires Stored(s, id, schedule, a, nr) && (ev.Insert? || ev.Pause? || ev.Cancel?)
    ensures var s' := Step(s, ev, nr);
            && Stored(s', id, schedule, a, nr)
            && s'.tasks[id].status == StatusFrom(ev, id, schedule, s.tasks[id].status, nr)
  {
    StepKeeps(s, ev, nr);
    hide NextOrZero, NextRunValue, WellFormed, ScheduleCheck;
  }

  lemma StoredStep(s: State, ev: Event, id: string, schedule: string, a: Time, nr: NextRunFn)
    requires Stored(s, id, schedule, a, nr) && schedule != ONCE && NeverBefore(nr)
    requires ev.Poll? || ev.Resume? ==> ev.now > 0
    ensures var s' := Step(s, ev, nr);
            && Stored(s', id, schedule, StoredFrom(s, ev, id, schedule, a, nr), nr)
            && s'.tasks[id].status == StatusFrom(ev, id, schedule, s.tasks[id].status, nr)
  {
    hide Stored, Polled, Completed, Resumed, NeverBefore;
    match ev
    case Poll(now) =>
      StoredPoll(s, now, id, schedule, a, nr);
      PollTasks(s, now, nr);
    case Complete(e) => StoredComplete(s, e, id, schedule, a, nr);
    case Resume(i, now) => StoredResume(s, i, now, id, schedule, a, nr);
    case _ => StoredOther(s, ev, id, schedule, a, nr);
  }

  // ---------------------------------------------------------------------------
  // Whole runs
  // ---------------------------------------------------------------------------

  /** Over all runs, the stored next run and the status are those of the last events that set them. */
  lemma {:induction false} StoredRun(
    s: State, evs: seq<Event>, id: string, schedule: string, a: Time, t: Time, nr: NextRunFn)
    requires Stored(s, id, schedule, a, nr) && schedule != ONCE && NeverBefore(nr) && Clock(evs, t) && t > 0
    ensures var s' := Run(s, evs, nr);
            && Stored(s', id, schedule, LastStored(s, evs, id, schedule, a, nr), nr)
            && s'.tasks[id].status == LastStatus(evs, id, schedule, s.tasks[id].status, nr)
    decreases |evs|
  {
    hide AllFromPolls, NeverBefore, Step, StoredFrom, StatusFrom, WellFormed, NextOrZero, NextRunValue;
    if evs != [] {
      var t' := ClockTail(evs, t);
      StoredStep(s, evs[0], id, schedule, a, nr);
      StoredRun(Step(s, evs[0], nr), evs[1..], id, schedule, StoredFrom(s, evs[0], id, schedule, a, nr), t', nr);
    }
  }

  /** The same as a condition on a poll. */
  lemma AnyRunFires(
    s: State, evs: seq<Event>, p: Time, id: string, schedule: string, a: Time, t: Time, nr: NextRunFn)
    requires Stored(s, id, schedule, a, nr) && schedule != ONCE && NeverBefore(nr) && Clock(evs, t) && t > 0
    ensures Fires(Run(s, evs, nr), id, p)
            <==> && LastStatus(evs, id, schedule, s.tasks[id].status, nr) == Active
                 && StoredValue(schedule, LastStored(s, evs, id, schedule, a, nr), nr) <= Unix(p)
  {
    hide NeverBefore, StoredValue, Unix, Run, LastStored, LastStatus, WellFormed, AllFromPolls, Clock;
    StoredRun(s, evs, id, schedule, a, t, nr);
  }

  /**
   Over all runs, overlapping and disturbed ones included: a poll at `p` fires a cron task exactly when the last pause,
   resume or cancel has left it active and its minutes are due at `p` since the instant `a` from which the stored next
   run was computed: the poll of the execution that completed last, or the resume, if that came later.
   */
  lemma AnyRunFiresIff(
    s: State, evs: seq<Event>, p: Time, id: string, schedule: string, minutes: MinuteSet, a: Time, t: Time,
    nr: NextRunFn)
    requires Stored(s, id, schedule, a, nr) && IsCronTask(schedule, minutes, nr) && NeverBefore(nr)
    requires Clock(evs, t) && t > 0
    ensures Fires(Run(s, evs, nr), id, p)
            <==> && LastStatus(evs, id, schedule, s.tasks[id].status, nr) == Active
                 && DueSince(minutes, LastStored(s, evs, id, schedule, a, nr), p)
  {
    CronIsNotOnce(schedule, minutes, nr);
    StoredRun(s, evs, id, schedule, a, t, nr);
    AnyRunFires(s, evs, p, id, schedule, a, t, nr);
    CronDue(minutes, schedule, LastStored(s, evs, id, schedule, a, nr), p, nr);
    hide NeverBefore, IsCronTask, NextOrZero, NextRunValue, Unix, Run, LastStored, LastStatus, WellFormed;
    hide AllFromPolls, Clock, DueSince;
  }

  lemma CronIsNotOnce(schedule: string, minutes: MinuteSet, nr: NextRunFn)
    requires IsCronTask(schedule, minutes, nr)
    ensures schedule != ONCE
    ensures forall now :: nr(schedule, now).Success? <==> NextMatch(minutes, now).Some?
  {
    hide NextMatch;
  }

  /** A freshly scheduled task. */
  lemma InsertStores(
    s: State, id: string, sessionId: string, name: string, schedule: string, prompt: string, now: Time, nr: NextRunFn)
    requires WellFormed(s) && now > 0 && NeverBefore(nr)
    requires Inserted(s, id, sessionId, name, schedule, prompt, now, nr).1.Success?
    ensures var s' := Inserted(s, id, sessionId, name, schedule, prompt, now, nr).0;
            Stored(s', id, schedule, now, nr) && s'.tasks[id].status == Active
  {
    hide ScheduleCheck;
    StepKeeps(s, Insert(id, sessionId, name, schedule, prompt, now), nr);
    StoredNextRun(schedule, now, nr);
  }

  // ---------------------------------------------------------------------------
  // How permanent a cancellation is
  // ---------------------------------------------------------------------------

  /** At no point of the run is `id` active. */
  ghost predicate NeverActive(s: State, evs: seq<Event>, id: string, nr: NextRunFn)
    decreases |evs|
  {
    !IsActive(s, id) && (evs == [] || NeverActive(Step(s, evs[0], nr), evs[1..], id, nr))
  }

  /** No resume of `id` in the run finds a next run. */
  ghost predicate ResumesFail(evs: seq<Event>, id: string, schedule: string, nr: NextRunFn) {
    forall i :: 0 <= i < |evs| && evs[i].Resume? && evs[i].id == id ==> nr(schedule, evs[i].now).Failure?
  }

  lemma ResumesFailTail(evs: seq<Event>, id: string, schedule: string, nr: NextRunFn)
    requires evs != []
    ensures ResumesFail(evs, id, schedule, nr)
            <==> ResumesFail([evs[0]], id, schedule, nr) && ResumesFail(evs[1..], id, schedule, nr)
  {
    assert forall i :: 0 <= i < |evs[1..]| ==> evs[1..][i] == evs[i + 1];
    if ResumesFail([evs[0]], id, schedule, nr) && ResumesFail(evs[1..], id, schedule, nr) {
      forall i | 0 <= i < |evs| && evs[i].Resume? && evs[i].id == id
        ensures nr(schedule, evs[i].now).Failure?
      {
        assert if i == 0 then evs[i] == [evs[0]][0] else evs[i] == evs[1..][i - 1];
      }
    }
    assert [evs[0]][0] == evs[0];
  }

  lemma InactiveStep(s: State, ev: Event, id: string, nr: NextRunFn)
    requires WellFormed(s) && id in s.tasks && !IsActive(s, id)
    ensures IsActive(Step(s, ev, nr), id) <==> !ResumesFail([ev], id, s.tasks[id].schedule, nr)
  {
    assert [ev][0] == ev;
    if ev.Resume? && ev.id == id {
      hide WellFormed;
    } else {
      hide Step, IsActive;
      if IsActive(Step(s, ev, nr), id) {
        OnlyInsertAndResumeActivate(s, ev, id, nr);
      }
    }
  }

  /** A cancelled or paused task stays inactive over a run exactly when no resume of it finds a next run. */
  lemma {:induction false} StaysInactiveIff(s: State, evs: seq<Event>, id: string, nr: NextRunFn)
    requires WellFormed(s) && id in s.tasks && !IsActive(s, id)
    ensures NeverActive(s, evs, id, nr) <==> ResumesFail(evs, id, s.tasks[id].schedule, nr)
    decreases |evs|
  {
    hide Step, IsActive, WellFormed, ResumesFail;
    if evs != [] {
      StepKeeps(s, evs[0], nr);
      InactiveStep(s, evs[0], id, nr);
      ResumesFailTail(evs, id, s.tasks[id].schedule, nr);
      if !IsActive(Step(s, evs[0], nr), id) {
        StaysInactiveIff(Step(s, evs[0], nr), evs[1..], id, nr);
      }
    } else {
      NoResumesFail(id, s.tasks[id].schedule, nr);
    }
  }

  lemma NoResumesFail(id: string, schedule: string, nr: NextRunFn)
    ensures ResumesFail([], id, schedule, nr)
  {
  }

  // ---------------------------------------------------------------------------
  // Resuming without catching up
  // ---------------------------------------------------------------------------

  /** The run `evs`, in which `id` does not fire, is followed by a poll at `p` that fires it. */
  ghost predicate NextFiring(s: State, evs: seq<Event>, p: Time, id: string, t: Time, nr: NextRunFn) {
    Clock(evs + [Poll(p)], t) && Firings(s, evs, id, nr) == [] && Fires(Run(s, evs, nr), id, p)
  }

  /** Whatever happens after `r`, the next firing comes no earlier than the Unix second `v`. */
  ghost predicate NotBefore(s: State, id: string, r: Time, v: int, nr: NextRunFn) {
    forall evs, p :: NextFiring(s, evs, p, id, r, nr) ==> v <= Unix(p)
  }

  /** A later start never gives an earlier next run. */
  ghost predicate IsMonotoneTask(schedule: string, nr: NextRunFn) {
    schedule != ONCE
    && forall a, b :: a <= b && nr(schedule, a).Success? && nr(schedule, b).Success? ==>
         nr(schedule, a).value <= nr(schedule, b).value
  }

  /** What is stored for `a` is no earlier than what is stored for `r`, or that has come at `r` already. */
  predicate LateEnough(schedule: string, a: Time, r: Time, nr: NextRunFn) {
    StoredValue(schedule, r, nr) <= StoredValue(schedule, a, nr) || StoredValue(schedule, r, nr) <= Unix(r)
  }

  ghost predicate AllLateEnough(s: State, id: string, schedule: string, r: Time, nr: NextRunFn) {
    forall e :: e in s.inFlight && e.task.id == id ==> LateEnough(schedule, e.runAt, r, nr)
  }

  lemma LaterIsLateEnough(schedule: string, a: Time, r: Time, nr: NextRunFn)
    requires IsMonotoneTask(schedule, nr) && NeverBefore(nr) && 0 < r <= a
    requires nr(schedule, r).Success? && nr(schedule, a).Success?
    ensures LateEnough(schedule, a, r, nr)
  {
    StoredNextRun(schedule, r, nr);
    StoredNextRun(schedule, a, nr);
    UnixMonotone(nr(schedule, r).value, nr(schedule, a).value);
  }

  lemma LateEnoughStep(s: State, ev: Event, id: string, schedule: string, a: Time, r: Time, nr: NextRunFn)
    requires WellFormed(s) && IsMonotoneTask(schedule, nr) && NeverBefore(nr) && r > 0 && nr(schedule, r).Success?
    requires LateEnough(schedule, a, r, nr) && AllLateEnough(s, id, schedule, r, nr)
    requires !FiresAt(s, ev, id) && (ev.Resume? ==> r <= ev.now)
    ensures LateEnough(schedule, StoredFrom(s, ev, id, schedule, a, nr), r, nr)
    ensures AllLateEnough(Step(s, ev, nr), id, schedule, r, nr)
  {
    if !ev.Poll? && !ev.Complete? {
      TouchesOneRow(s, ev, nr);
    }
    hide LateEnough, IsMonotoneTask, NeverBefore, WellFormed, IsDue, Completed, AfterRun;
    match ev
    case Poll(now) =>
      var due := DueExecutions(s.tasks, now, nr);
      assert forall e :: e in Polled(s, now, nr).inFlight <==> e in s.inFlight || e in due;
      NoneOfIt(s, now, id, nr);
    case Complete(e) =>
      if e in s.inFlight {
        OthersStay(s, e);
      } else {
        CompleteOfNothing(s, e);
      }
    case Resume(i, now) =>
      if nr(schedule, now).Success? {
        LaterIsLateEnough(schedule, now, r, nr);
      }
    case _ =>
  }

  lemma CompleteOfNothing(s: State, e: Execution)
    requires e !in s.inFlight
    ensures Completed(s, e) == s
  {
  }

  /** A poll that does not fire `id` starts no execution of it. */
  lemma NoneOfIt(s: State, now: Time, id: string, nr: NextRunFn)
    requires WellFormed(s) && !Fires(s, id, now)
    ensures forall e :: e in DueExecutions(s.tasks, now, nr) ==> e.task.id != id
  {
    hide NextOrZero, IsDue;
  }

  lemma {:induction false} LateEnoughRun(
    s: State, evs: seq<Event>, id: string, schedule: string, a: Time, r: Time, t: Time, nr: NextRunFn)
    requires WellFormed(s) && IsMonotoneTask(schedule, nr) && NeverBefore(nr) && 0 < r <= t && Clock(evs, t)
    requires LateEnough(schedule, a, r, nr) && AllLateEnough(s, id, schedule, r, nr) && nr(schedule, r).Success?
    requires Firings(s, evs, id, nr) == []
    ensures LateEnough(schedule, LastStored(s, evs, id, schedule, a, nr), r, nr)
    decreases |evs|
  {
    hide LateEnough, AllLateEnough, IsMonotoneTask, NeverBefore, WellFormed, Step, StoredFrom, Fires;
    if evs != [] {
      var t' := ClockTail(evs, t);
      StepKeeps(s, evs[0], nr);
      LateEnoughStep(s, evs[0], id, schedule, a, r, nr);
      LateEnoughRun(Step(s, evs[0], nr), evs[1..], id, schedule, StoredFrom(s, evs[0], id, schedule, a, nr), r, t', nr);
    }
  }

  lemma LateEnoughFires(
    s: State, evs: seq<Event>, p: Time, id: string, schedule: string, r: Time, nr: NextRunFn)
    requires Stored(s, id, schedule, r, nr) && IsMonotoneTask(schedule, nr) && NeverBefore(nr)
    requires AllLateEnough(s, id, schedule, r, nr) && nr(schedule, r).Success? && NextFiring(s, evs, p, id, r, nr)
    ensures StoredValue(schedule, r, nr) <= Unix(p)
  {
    ClockFront(evs, p, r);
    ClockEnd(evs, p, r);
    assert WellFormed(s) && r > 0 && schedule != ONCE && LateEnough(schedule, r, r, nr);
    hide Stored, StoredValue, IsMonotoneTask, NeverBefore, AllLateEnough, Clock, WellFormed, LastStored, LastStatus;
    LateEnoughRun(s, evs, id, schedule, r, r, r, nr);
    AnyRunFires(s, evs, p, id, schedule, r, r, nr);
    UnixMonotone(r, p);
  }

  /** An execution that stores too early a next run when it completes makes the task fire too early. */
  lemma CompletionFiresEarly(s: State, e: Execution, id: string, schedule: string, a: Time, r: Time, nr: NextRunFn)
    returns (p: Time)
    requires Stored(s, id, schedule, a, nr) && s.tasks[id].status == Active && schedule != ONCE
    requires NeverBefore(nr) && r > 0
    requires e in s.inFlight && e.task.id == id && !LateEnough(schedule, e.runAt, r, nr)
    ensures NextFiring(s, [Complete(e)], p, id, r, nr) && Unix(p) < StoredValue(schedule, r, nr)
  {
    var v := StoredValue(schedule, e.runAt, nr);
    p := if v <= Unix(r) then r else (v + UNIX_EPOCH) * SECOND;
    assert v <= Unix(p) < StoredValue(schedule, r, nr) && r <= p by {
      hide StoredValue;
    }
    OnlyCompletes(s, e, p, id, schedule, a, r, nr);
    hide Stored, StoredValue, NeverBefore, LateEnough, LastStored, LastStatus, Clock, Unix;
    AnyRunFires(s, [Complete(e)], p, id, schedule, a, r, nr);
  }

  lemma OnlyCompletes(s: State, e: Execution, p: Time, id: string, schedule: string, a: Time, r: Time, nr: NextRunFn)
    requires e in s.inFlight && e.task.id == id && r <= p && id in s.tasks
    ensures var evs := [Complete(e)];
            && Clock(evs, r) && Clock(evs + [Poll(p)], r) && Firings(s, evs, id, nr) == []
            && LastStored(s, evs, id, schedule, a, nr) == e.runAt
            && LastStatus(evs, id, schedule, s.tasks[id].status, nr) == s.tasks[id].status
  {
    hide Step;
    var evs := [Complete(e)];
    assert evs[1..] == [] && (evs + [Poll(p)])[1..] == [Poll(p)] && [Poll(p)][1..] == [];
    assert Clock([Poll(p)], r) && (evs + [Poll(p)])[0] == Complete(e);
    assert Firings(Step(s, evs[0], nr), [], id, nr) == [];
  }

  /**
   A resumed task of any monotone schedule, however the run goes on, fires next no earlier than the next run that the
   resume has computed, exactly when every execution of it that is in flight at the resume has a next run as late, or
   that next run has come already. An execution that finishes after the resume otherwise puts its own in its place.
   */
  lemma ResumeHoldsIff(before: State, id: string, schedule: string, a: Time, r: Time, nr: NextRunFn)
    requires Stored(before, id, schedule, a, nr) && IsMonotoneTask(schedule, nr) && NeverBefore(nr) && r > 0
    requires Resumed(before, id, r, nr).1.Success?
    ensures NotBefore(Resumed(before, id, r, nr).0, id, r, StoredValue(schedule, r, nr), nr)
            <==> AllLateEnough(before, id, schedule, r, nr)
  {
    var s := Resumed(before, id, r, nr).0;
    StoredResume(before, id, r, id, schedule, a, nr);
    assert s.inFlight == before.inFlight && nr(schedule, r).Success? && schedule != ONCE;
    assert Stored(s, id, schedule, r, nr) && s.tasks[id].status == Active;
    hide IsMonotoneTask, NeverBefore, LateEnough, StoredValue, Stored, Unix;
    if AllLateEnough(before, id, schedule, r, nr) {
      forall evs, p | NextFiring(s, evs, p, id, r, nr)
        ensures StoredValue(schedule, r, nr) <= Unix(p)
      {
        LateEnoughFires(s, evs, p, id, schedule, r, nr);
      }
    } else {
      var e :| e in s.inFlight && e.task.id == id && !LateEnough(schedule, e.runAt, r, nr);
      var p := CompletionFiresEarly(s, e, id, schedule, r, r, nr);
      assert NextFiring(s, [Complete(e)], p, id, r, nr);
    }
  }

  // ---------------------------------------------------------------------------
  // The same for intervals and for cron
  // ---------------------------------------------------------------------------

  /**
   A resumed "@every d" task next fires at r + d or later, to the second, exactly when no execution in flight at the
   resume was started by a poll in an earlier second, apart from intervals that end within the second of the resume.
   */
  lemma EveryNoCatchUpIff(before: State, id: string, schedule: string, d: int, a: Time, r: Time, nr: NextRunFn)
    requires Stored(before, id, schedule, a, nr) && IsEveryTask(schedule, d, nr) && NeverBefore(nr) && r > 0
    ensures NotBefore(Resumed(before, id, r, nr).0, id, r, Unix(r + d), nr)
            <==> forall e :: e in before.inFlight && e.task.id == id ==>
                   Unix(r + d) <= Unix(e.runAt + d) || Unix(r + d) <= Unix(r)
  {
    assert Resumed(before, id, r, nr).1.Success?;
    EveryStores(schedule, d, r, nr);
    forall e | e in before.inFlight && e.task.id == id
      ensures StoredValue(schedule, e.runAt, nr) == Unix(e.runAt + d)
    {
      EveryStores(schedule, d, e.runAt, nr);
    }
    EveryIsMonotone(schedule, d, nr);
    hide Stored, IsEveryTask, NeverBefore, StoredValue, Unix, NotBefore, IsMonotoneTask;
    ResumeHoldsIff(before, id, schedule, a, r, nr);
  }

  lemma EveryStores(schedule: string, d: int, a: Time, nr: NextRunFn)
    requires IsEveryTask(schedule, d, nr) && a > 0
    ensures StoredValue(schedule, a, nr) == Unix(a + d)
  {
  }

  lemma EveryIsMonotone(schedule: string, d: int, nr: NextRunFn)
    requires IsEveryTask(schedule, d, nr)
    ensures IsMonotoneTask(schedule, nr)
  {
  }

  lemma CronIsMonotone(schedule: string, minutes: MinuteSet, nr: NextRunFn)
    requires IsCronTask(schedule, minutes, nr)
    ensures IsMonotoneTask(schedule, nr)
  {
    hide NextMatch;
    forall a, b | a <= b && nr(schedule, a).Success? && nr(schedule, b).Success?
      ensures nr(schedule, a).value <= nr(schedule, b).value
    {
      NextMatchMonotone(minutes, a, b);
    }
  }

  /** Whatever happens after `r`, the next firing has a matching minute after `r`. */
  ghost predicate NoCatchUp(s: State, id: string, minutes: MinuteSet, r: Time, nr: NextRunFn) {
    forall evs, p :: NextFiring(s, evs, p, id, r, nr) ==> SomeMatchIn(minutes, r, p)
  }

  /** A next run computed at `a` is a match later than `r`. */
  predicate NothingMissed(minutes: MinuteSet, a: Time, r: Time) {
    NextMatch(minutes, a).Some? && NextMatch(minutes, a).value * MINUTE > r
  }

  /** The polls of all executions of `id` that are in flight have missed nothing up to `r`. */
  ghost predicate NothingMissedInFlight(s: State, id: string, minutes: MinuteSet, r: Time) {
    forall e :: e in s.inFlight && e.task.id == id ==> NothingMissed(minutes, e.runAt, r)
  }

  lemma CronStores(schedule: string, minutes: MinuteSet, a: Time, nr: NextRunFn)
    requires IsCronTask(schedule, minutes, nr) && a > 0
    ensures var next := NextMatch(minutes, a);
            && StoredValue(schedule, a, nr)
               == (if next.Some? then Unix(next.value * MINUTE) else Unix(a + POLL_INTERVAL))
            && (next.Some? ==> next.value * MINUTE > a)
  {
    hide NextMatch;
    NextMatchIsLeast(minutes, a);
  }

  /** For cron, late enough means that nothing was missed. */
  lemma LateEnoughIffNothingMissed(schedule: string, minutes: MinuteSet, q: Time, r: Time, nr: NextRunFn)
    requires IsCronTask(schedule, minutes, nr) && 0 < q <= r && NextMatch(minutes, r).Some?
    ensures LateEnough(schedule, q, r, nr) <==> NothingMissed(minutes, q, r)
  {
    hide NextMatch, StoredValue, Unix;
    CronStores(schedule, minutes, q, nr);
    CronStores(schedule, minutes, r, nr);
    hide IsCronTask;
    var next := NextMatch(minutes, r).value;
    MinuteReached(next, r);
    if NextMatch(minutes, q).Some? {
      if NothingMissed(minutes, q, r) {
        NextMatchConstant(minutes, q, r);
      } else {
        UnixMonotone(NextMatch(minutes, q).value * MINUTE, r);
      }
    } else {
      NextMatchIsLeast(minutes, q);
      if next * MINUTE <= q + POLL_INTERVAL {
        assert NextMatch(minutes, r).value == next;
        NextMatchIsLeast(minutes, r);
        MatchWidens(minutes, r, next, next * MINUTE, q, q + WINDOW * MINUTE);
      }
      MinuteReached(next, q + POLL_INTERVAL);
    }
  }

  lemma MatchWidens(minutes: MinuteSet, from: Time, m: int, p: Time, earlier: Time, later: Time)
    requires MatchIn(minutes, from, m, p) && earlier <= from && p <= later
    ensures SomeMatchIn(minutes, earlier, later)
  {
    assert MatchIn(minutes, earlier, m, later);
  }

  /**
   A resumed cron task does not catch up on what it has missed, exactly when every execution of it that is in flight at
   the resume was started by a poll whose next run is a match later than the resume.
   */
  lemma NoCatchUpIff(
    before: State, id: string, schedule: string, minutes: MinuteSet, a: Time, r: Time, nr: NextRunFn)
    requires Stored(before, id, schedule, a, nr) && IsCronTask(schedule, minutes, nr) && NeverBefore(nr) && r > 0
    requires Resumed(before, id, r, nr).1.Success?
    requires StartedBy(before, id, r)
    ensures NoCatchUp(Resumed(before, id, r, nr).0, id, minutes, r, nr)
            <==> NothingMissedInFlight(before, id, minutes, r)
  {
    CronIsNotOnce(schedule, minutes, nr);
    assert NextMatch(minutes, r).Some?;
    CronIsMonotone(schedule, minutes, nr);
    assert forall e :: e in before.inFlight && e.task.id == id ==> FromPoll(e, schedule, nr);
    hide NextMatch, Stored, IsCronTask, NeverBefore, IsMonotoneTask, NothingMissed, LateEnough, SomeMatchIn, Unix;
    hide Resumed, NextOrZero;
    ResumeHoldsIff(before, id, schedule, a, r, nr);
    forall p
      ensures SomeMatchIn(minutes, r, p) <==> StoredValue(schedule, r, nr) <= Unix(p)
    {
      CronDue(minutes, schedule, r, p, nr);
    }
    hide StoredValue;
    forall e | e in before.inFlight && e.task.id == id
      ensures LateEnough(schedule, e.runAt, r, nr) <==> NothingMissed(minutes, e.runAt, r)
    {
      LateEnoughIffNothingMissed(schedule, minutes, e.runAt, r, nr);
    }
  }

  /** All executions of `id` in flight were started by `t`. */
  ghost predicate StartedBy(s: State, id: string, t: Time) {
    forall e :: e in s.inFlight && e.task.id == id ==> e.runAt <= t
  }

  lemma StartedByStep(s: State, ev: Event, id: string, t: Time, t': Time, nr: NextRunFn)
    requires WellFormed(s) && StartedBy(s, id, t) && t <= t' && (ev.Poll? ==> t' == ev.now)
    ensures StartedBy(Step(s, ev, nr), id, t')
  {
    if ev.Poll? {
      hide NextOrZero, IsDue;
      var due := DueExecutions(s.tasks, ev.now, nr);
      assert forall e :: e in Polled(s, ev.now, nr).inFlight <==> e in s.inFlight || e in due;
    } else if ev.Complete? {
      if ev.e in s.inFlight {
        OthersStay(s, ev.e);
      }
    } else {
      TouchesOneRow(s, ev, nr);
    }
  }

  lemma {:induction false} StartedByRun(s: State, evs: seq<Event>, id: string, t: Time, r: Time, nr: NextRunFn)
    requires WellFormed(s) && StartedBy(s, id, t) && Clock(evs + [Resume(id, r)], t)
    ensures Clock(evs, t) && t <= r && StartedBy(Run(s, evs, nr), id, r)
    decreases |evs|
  {
    hide WellFormed, StartedBy, Step;
    var all := evs + [Resume(id, r)];
    var t' := ClockTail(all, t);
    if evs == [] {
      StartedByLater(s, id, t, r);
    } else {
      assert all[1..] == evs[1..] + [Resume(id, r)];
      StepKeeps(s, evs[0], nr);
      StartedByStep(s, evs[0], id, t, t', nr);
      StartedByRun(Step(s, evs[0], nr), evs[1..], id, t', r, nr);
    }
  }

  lemma StartedByLater(s: State, id: string, t: Time, r: Time)
    requires StartedBy(s, id, t) && t <= r
    ensures StartedBy(s, id, r)
  {
  }

  /**
   A task that does catch up: it is fired at `q`, misses a match, and is paused and resumed at `r` while its execution
   is still in flight.
   */
  lemma ResumeCatchesUp(
    s: State, id: string, schedule: string, minutes: MinuteSet, a: Time, q: Time, r: Time, nr: NextRunFn)
    requires Stored(s, id, schedule, a, nr) && IsCronTask(schedule, minutes, nr) && NeverBefore(nr)
    requires StartedBy(s, id, q) && 0 < q <= r && Fires(s, id, q)
    requires SomeMatchIn(minutes, q, r) && NextMatch(minutes, r).Some?
    ensures !NoCatchUp(Run(s, [Poll(q), Pause(id), Resume(id, r)], nr), id, minutes, r, nr)
  {
    var before := WithStatus(Polled(s, q, nr), id, Paused).0;
    var e := FiredThenPaused(s, id, schedule, a, q, nr);
    ThreeSteps(s, Poll(q), Pause(id), Resume(id, r), nr);
    assert Run(s, [Poll(q), Pause(id), Resume(id, r)], nr) == Resumed(before, id, r, nr).0;
    MissedMatch(minutes, q, r);
    CronIsNotOnce(schedule, minutes, nr);
    assert StartedBy(before, id, r);
    assert Resumed(before, id, r, nr).1.Success? by {
      assert id in before.tasks && before.tasks[id].schedule == schedule && nr(schedule, r).Success?;
    }
    hide Run, Resumed, NothingMissed, IsCronTask, NeverBefore, Stored, Polled, Fires, NextMatch;
    NoCatchUpIff(before, id, schedule, minutes, a, r, nr);
  }

  lemma MissedMatch(minutes: MinuteSet, q: Time, r: Time)
    requires SomeMatchIn(minutes, q, r)
    ensures !NothingMissed(minutes, q, r)
  {
    hide NextMatch;
    if NextMatch(minutes, q).Some? {
      SomeMatchByNext(minutes, q, r);
    }
  }

  lemma ThreeSteps(s: State, a: Event, b: Event, c: Event, nr: NextRunFn)
    ensures Run(s, [a, b, c], nr) == Step(Step(Step(s, a, nr), b, nr), c, nr)
  {
    hide Step;
    assert [a, b, c][1..] == [b, c] && [b, c][1..] == [c] && [c][1..] == [];
    assert Run(Step(Step(s, a, nr), b, nr), [c], nr) == Step(Step(Step(s, a, nr), b, nr), c, nr);
  }

  /** After a poll at `q` that fires `id` and a pause, the execution is in flight and the stored next run as before. */
  lemma FiredThenPaused(s: State, id: string, schedule: string, a: Time, q: Time, nr: NextRunFn) returns (e: Execution)
    requires Stored(s, id, schedule, a, nr) && StartedBy(s, id, q) && q > 0 && Fires(s, id, q)
    ensures var before := WithStatus(Polled(s, q, nr), id, Paused).0;
            && Stored(before, id, schedule, a, nr) && StartedBy(before, id, q)
            && e in before.inFlight && e.task.id == id && e.runAt == q
  {
    e := ExecutionOf(s.tasks[id], q, nr);
    StoredPoll(s, q, id, schedule, a, nr);
    StoredOther(Polled(s, q, nr), Pause(id), id, schedule, a, nr);
    FiredIsInFlight(s, id, q, nr);
    StartedByStep(s, Poll(q), id, q, q, nr);
    hide Stored, Polled, Fires, NextOrZero;
  }

  lemma FiredIsInFlight(s: State, id: string, q: Time, nr: NextRunFn)
    requires WellFormed(s) && Fires(s, id, q)
    ensures var e := ExecutionOf(s.tasks[id], q, nr);
            e in Polled(s, q, nr).inFlight && e.task.id == id && e.runAt == q
  {
    hide NextOrZero, IsDue;
    assert ExecutionOf(s.tasks[id], q, nr) in DueExecutions(s.tasks, q, nr);
  }
}
