/** Whole runs of the scheduler: which polls fire a task, how often, and what can make a task active. */
module SchedulerRuns {
  import opened Wrappers
  import opened CronSearch
  import opened Schedule
  import opened Scheduler
  import Calendar

  datatype Event =
    | Insert(id: string, sessionId: string, name: string, schedule: string, prompt: string, now: Time)
    | Poll(now: Time)
    | Complete(e: Execution)
    | Pause(id: string)
    | Resume(id: string, now: Time)
    | Cancel(id: string)

  function Step(s: State, ev: Event, nr: NextRunFn): State {
    match ev
    case Insert(id, sessionId, name, schedule, prompt, now) =>
      Inserted(s, id, sessionId, name, schedule, prompt, now, nr).0
    case Poll(now) => Polled(s, now, nr)
    case Complete(e) => Completed(s, e)
    case Pause(id) => WithStatus(s, id, Paused).0
    case Resume(id, now) => Resumed(s, id, now, nr).0
    case Cancel(id) => WithStatus(s, id, Cancelled).0
  }

  function Run(s: State, evs: seq<Event>, nr: NextRunFn): State
    decreases |evs|
  {
    if evs == [] then s else Run(Step(s, evs[0], nr), evs[1..], nr)
  }

  /** A poll at `now` starts an execution of `id`. */
  predicate Fires(s: State, id: string, now: Time) {
    id in s.tasks && IsDue(s.tasks[id], now)
  }

  predicate FiresAt(s: State, ev: Event, id: string) {
    ev.Poll? && Fires(s, id, ev.now)
  }

  /** The poll times at which `id` fires. */
  function Firings(s: State, evs: seq<Event>, id: string, nr: NextRunFn): seq<Time>
    decreases |evs|
  {
    if evs == [] then [] else
    (if FiresAt(s, evs[0], id) then [evs[0].now] else []) + Firings(Step(s, evs[0], nr), evs[1..], id, nr)
  }

  /** Events carry nondecreasing clock readings, none earlier than `t`. */
  ghost predicate Clock(evs: seq<Event>, t: Time) {
    evs == [] ||
    (match evs[0]
     case Insert(_, _, _, _, _, now) => t <= now && Clock(evs[1..], now)
     case Poll(now) => t <= now && Clock(evs[1..], now)
     case Resume(_, now) => t <= now && Clock(evs[1..], now)
     case _ => Clock(evs[1..], t))
  }

  /** No execution of `id` is in flight. */
  ghost predicate Idle(s: State, id: string) {
    forall e :: e in s.inFlight ==> e.task.id != id
  }

  /** Every execution of `id` completes before the next poll; other tasks may overlap polls freely. */
  ghost predicate Serial(s: State, evs: seq<Event>, id: string, nr: NextRunFn)
    decreases |evs|
  {
    evs == [] ||
    ((evs[0].Poll? ==> Idle(s, id)) && Serial(Step(s, evs[0], nr), evs[1..], id, nr))
  }

  ghost predicate NoResume(evs: seq<Event>, id: string) {
    forall i :: 0 <= i < |evs| ==> !(evs[i].Resume? && evs[i].id == id)
  }

  /** No pause, resume or cancel of `id`. */
  ghost predicate Undisturbed(evs: seq<Event>, id: string) {
    forall i :: 0 <= i < |evs| ==>
      !((evs[i].Pause? || evs[i].Resume? || evs[i].Cancel?) && evs[i].id == id)
  }

  // ---------------------------------------------------------------------------
  // Kinds of tasks, by what the next-run function answers
  // ---------------------------------------------------------------------------

  /** A task with these minutes. */
  ghost predicate IsCronTask(schedule: string, minutes: MinuteSet, nr: NextRunFn) {
    schedule != ONCE && forall from :: nr(schedule, from) == CronAnswer(minutes, from)
  }

  /** A task with this interval. */
  ghost predicate IsEveryTask(schedule: string, d: int, nr: NextRunFn) {
    schedule != ONCE && d > 0 && forall from :: nr(schedule, from) == Success(from + d)
  }

  /** A task that runs as soon as possible, whether or not its text is exactly "@once". */
  ghost predicate IsOnceTask(schedule: string, nr: NextRunFn) {
    forall from :: nr(schedule, from) == Success(from)
  }

  /** A next run is never before its start. */
  ghost predicate NeverBefore(nr: NextRunFn) {
    forall schedule, from :: nr(schedule, from).Success? ==> from <= nr(schedule, from).value
  }

  // ---------------------------------------------------------------------------
  // Steps
  // ---------------------------------------------------------------------------

  lemma PollKeeps(s: State, now: Time, nr: NextRunFn)
    requires WellFormed(s)
    ensures WellFormed(Polled(s, now, nr))
  {
    hide NextOrZero, IsDue;
    var due := DueExecutions(s.tasks, now, nr);
    assert forall e :: e in Polled(s, now, nr).inFlight <==> e in s.inFlight || e in due;
  }

  /** From an idle task a poll puts exactly its own execution in flight, and only if the task is due. */
  lemma PolledFromIdle(s: State, now: Time, id: string, nr: NextRunFn)
    requires WellFormed(s) && Idle(s, id)
    ensures var s' := Polled(s, now, nr);
            && s'.tasks == s.tasks
            && (forall e :: e in s'.inFlight && e.task.id == id ==>
                  Fires(s, id, now) && e == ExecutionOf(s.tasks[id], now, nr))
            && (Fires(s, id, now) ==> ExecutionOf(s.tasks[id], now, nr) in s'.inFlight
                                      && ExecutionOf(s.tasks[id], now, nr).task.id == id)
  {
    hide NextOrZero, IsDue;
    var due := DueExecutions(s.tasks, now, nr);
    assert forall e :: e in Polled(s, now, nr).inFlight <==> e in s.inFlight || e in due;
    if Fires(s, id, now) {
      assert ExecutionOf(s.tasks[id], now, nr) in due;
    }
  }

  /** Every row of `s` is still there with its schedule. */
  ghost predicate KeepsRows(s: State, s': State) {
    forall id :: id in s.tasks ==> id in s'.tasks && s'.tasks[id].schedule == s.tasks[id].schedule
  }

  lemma UpdateKeeps(s: State, id: string, row: Task)
    requires WellFormed(s) && row.id == id
    requires id in s.tasks ==> row.schedule == s.tasks[id].schedule
    ensures WellFormed(s.(tasks := s.tasks[id := row])) && KeepsRows(s, s.(tasks := s.tasks[id := row]))
  {
  }

  lemma StatusKeeps(s: State, id: string, status: Status)
    requires WellFormed(s)
    ensures WellFormed(WithStatus(s, id, status).0) && KeepsRows(s, WithStatus(s, id, status).0)
  {
    if id in s.tasks {
      UpdateKeeps(s, id, s.tasks[id].(status := status));
    }
  }

  lemma ResumeKeeps(s: State, id: string, now: Time, nr: NextRunFn)
    requires WellFormed(s)
    ensures WellFormed(Resumed(s, id, now, nr).0) && KeepsRows(s, Resumed(s, id, now, nr).0)
  {
    hide Unix;
    var s' := Resumed(s, id, now, nr).0;
    if s' != s {
      UpdateKeeps(s, id, s'.tasks[id]);
    }
  }

  lemma InsertKeeps(
    s: State, id: string, sessionId: string, name: string, schedule: string, prompt: string, now: Time, nr: NextRunFn)
    requires WellFormed(s)
    ensures var s' := Inserted(s, id, sessionId, name, schedule, prompt, now, nr).0; WellFormed(s') && KeepsRows(s, s')
  {
    hide Unix, ScheduleCheck;
    var s' := Inserted(s, id, sessionId, name, schedule, prompt, now, nr).0;
    if s' != s {
      UpdateKeeps(s, id, s'.tasks[id]);
    }
  }

  lemma CompleteKeepsRows(s: State, e: Execution)
    requires WellFormed(s)
    ensures WellFormed(Completed(s, e)) && KeepsRows(s, Completed(s, e))
  {
    CompleteKeeps(s, e);
    hide NextRunValue, Unix, WellFormed;
  }

  lemma PollKeepsRows(s: State, now: Time, nr: NextRunFn)
    requires WellFormed(s)
    ensures WellFormed(Polled(s, now, nr)) && KeepsRows(s, Polled(s, now, nr))
  {
    PollKeeps(s, now, nr);
    PollTasks(s, now, nr);
    hide Polled;
  }

  /** A step keeps the state well formed and never deletes a row or changes its schedule. */
  lemma StepKeeps(s: State, ev: Event, nr: NextRunFn)
    requires WellFormed(s)
    ensures WellFormed(Step(s, ev, nr)) && KeepsRows(s, Step(s, ev, nr))
  {
    hide WellFormed, KeepsRows, Inserted, Polled, Completed, WithStatus, Resumed;
    match ev
    case Poll(now) => PollKeepsRows(s, now, nr);
    case Complete(e) => CompleteKeepsRows(s, e);
    case Insert(id, sessionId, name, schedule, prompt, now) =>
      InsertKeeps(s, id, sessionId, name, schedule, prompt, now, nr);
    case Pause(id) => StatusKeeps(s, id, Paused);
    case Cancel(id) => StatusKeeps(s, id, Cancelled);
    case Resume(id, now) => ResumeKeeps(s, id, now, nr);
  }

  lemma PollTasks(s: State, now: Time, nr: NextRunFn)
    ensures Polled(s, now, nr).tasks == s.tasks
  {
  }

  ghost predicate IsActive(s: State, id: string) {
    id in s.tasks && s.tasks[id].status == Active
  }

  /** Apart from polls and completions, a step changes nothing but the row of its id, and only when it succeeds. */
  lemma TouchesOneRow(s: State, ev: Event, nr: NextRunFn)
    requires !ev.Poll? && !ev.Complete?
    ensures var s' := Step(s, ev, nr);
            && s'.inFlight == s.inFlight
            && (s' == s || (ev.id in s'.tasks && s'.tasks == s.tasks[ev.id := s'.tasks[ev.id]]))
            && (ev.Insert? && s' != s ==> ev.id !in s.tasks)
  {
    hide ScheduleCheck, Unix;
  }

  /** Only scheduling and resuming can make a task active. */
  lemma OnlyInsertAndResumeActivate(s: State, ev: Event, id: string, nr: NextRunFn)
    requires WellFormed(s)
    requires !IsActive(s, id) && IsActive(Step(s, ev, nr), id)
    ensures (ev.Insert? && ev.id == id && id !in s.tasks) || (ev.Resume? && ev.id == id)
  {
    if !ev.Poll? && !ev.Complete? {
      TouchesOneRow(s, ev, nr);
      hide Inserted, Resumed;
    } else if ev.Poll? {
      PollTasks(s, ev.now, nr);
      hide Polled;
    } else {
      hide NextRunValue;
    }
  }

  /** A task that is inactive stays inactive, and so never fires, for as long as it is not resumed. */
  lemma {:induction false} InactiveStaysInactive(s: State, evs: seq<Event>, id: string, nr: NextRunFn)
    requires WellFormed(s) && id in s.tasks && !IsActive(s, id) && NoResume(evs, id)
    ensures !IsActive(Run(s, evs, nr), id) && Firings(s, evs, id, nr) == []
    decreases |evs|
  {
    hide Step, IsDue;
    if evs != [] {
      StepKeeps(s, evs[0], nr);
      if IsActive(Step(s, evs[0], nr), id) {
        OnlyInsertAndResumeActivate(s, evs[0], id, nr);
      }
      assert NoResume(evs[1..], id) by {
        assert forall i :: 0 <= i < |evs[1..]| ==> evs[1..][i] == evs[i + 1];
      }
      NotDueWhenInactive(s, id);
      InactiveStaysInactive(Step(s, evs[0], nr), evs[1..], id, nr);
    }
  }

  /** A cancelled task is not final: resuming it makes it active exactly when its schedule has a next run. */
  lemma ResumeRevives(s: State, id: string, now: Time, nr: NextRunFn)
    requires id in s.tasks && s.tasks[id].status == Cancelled
    ensures IsActive(Resumed(s, id, now, nr).0, id) <==> nr(s.tasks[id].schedule, now).Success?
    ensures Resumed(s, id, now, nr).1.Success? <==> nr(s.tasks[id].schedule, now).Success?
  {
  }

  /** The Unix epoch is 1970-01-01 00:00, a Thursday. */
  lemma EpochIs1970()
    ensures Calendar.Date(1970, 1, 1, 0, 0) * MINUTE == UNIX_EPOCH * SECOND
    ensures Unix(Calendar.Date(1970, 1, 1, 0, 0) * MINUTE) == 0
    ensures Calendar.WeekdayOf(Calendar.Date(1970, 1, 1, 0, 0)) == 4
  {
    assert Calendar.DayNumber(1970, 1, 1) == 719_162;
  }

  lemma NotDueWhenInactive(s: State, id: string)
    requires !IsActive(s, id)
    ensures forall now :: !Fires(s, id, now)
  {
  }

  // ---------------------------------------------------------------------------
  // Cron tasks in serial runs
  // ---------------------------------------------------------------------------

  /**
   The stored next run of `id` is the one computed at `b`, its last firing or insertion, or is about to be stored by
   the execution in flight.
   */
  ghost predicate Anchored(s: State, id: string, schedule: string, b: Time, nr: NextRunFn) {
    && WellFormed(s)
    && IsActive(s, id) && s.tasks[id].schedule == schedule
    && (forall e :: e in s.inFlight && e.task.id == id ==>
          e.task.schedule == schedule && e.runAt == b && e.next == NextOrZero(schedule, b, nr))
    && ((forall e :: e in s.inFlight ==> e.task.id != id) ==>
          s.tasks[id].nextRun == NextRunValue(NextOrZero(schedule, b, nr), b))
  }

  /** The last firing of `id`, or `b` when it has not fired. */
  function LastFiring(s: State, evs: seq<Event>, id: string, b: Time, nr: NextRunFn): Time {
    var f := Firings(s, evs, id, nr);
    if f == [] then b else f[|f| - 1]
  }

  /** Another row's update, or none at all, leaves the anchor alone. */
  lemma AnchorOther(s: State, s': State, i: string, id: string, schedule: string, b: Time, nr: NextRunFn)
    requires Anchored(s, id, schedule, b, nr) && WellFormed(s') && s'.inFlight == s.inFlight
    requires s' == s || (i != id && i in s'.tasks && s'.tasks == s.tasks[i := s'.tasks[i]])
    ensures Anchored(s', id, schedule, b, nr)
  {
    hide NextOrZero, NextRunValue, WellFormed;
  }

  /** One step of a serial run moves the anchor exactly when the task fires. */
  lemma AnchorStep(s: State, ev: Event, id: string, schedule: string, b: Time, nr: NextRunFn)
    requires Anchored(s, id, schedule, b, nr) && schedule != ONCE
    requires ev.Poll? ==> Idle(s, id)
    requires Undisturbed([ev], id)
    ensures Anchored(Step(s, ev, nr), id, schedule, if FiresAt(s, ev, id) then ev.now else b, nr)
  {
    StepKeeps(s, ev, nr);
    assert [ev][0] == ev && id in s.tasks;
    if !ev.Poll? && !ev.Complete? {
      TouchesOneRow(s, ev, nr);
    }
    assert Step(s, ev, nr) == match ev
      case Poll(now) => Polled(s, now, nr)
      case Complete(e) => Completed(s, e)
      case _ => Step(s, ev, nr);
    hide Step, WellFormed, Anchored;
    match ev
    case Poll(now) => AnchorPoll(s, now, id, schedule, b, nr);
    case Complete(e) => AnchorComplete(s, e, id, schedule, b, nr);
    case _ => AnchorOther(s, Step(s, ev, nr), ev.id, id, schedule, b, nr);
  }

  lemma AnchorPoll(s: State, now: Time, id: string, schedule: string, b: Time, nr: NextRunFn)
    requires Anchored(s, id, schedule, b, nr) && Idle(s, id)
    requires WellFormed(Polled(s, now, nr))
    ensures Anchored(Polled(s, now, nr), id, schedule, if Fires(s, id, now) then now else b, nr)
  {
    PolledFromIdle(s, now, id, nr);
    hide NextOrZero, NextRunValue, Polled;
  }

  lemma AnchorComplete(s: State, e: Execution, id: string, schedule: string, b: Time, nr: NextRunFn)
    requires Anchored(s, id, schedule, b, nr) && schedule != ONCE
    requires WellFormed(Completed(s, e))
    ensures Anchored(Completed(s, e), id, schedule, b, nr)
  {
    hide NextOrZero, NextRunValue;
    if e in s.inFlight {
      OthersStay(s, e);
    }
  }

  lemma NoFirings(s: State, id: string, b: Time, nr: NextRunFn)
    ensures LastFiring(s, [], id, b, nr) == b
  {
  }

  lemma LastFiringStep(s: State, evs: seq<Event>, id: string, b: Time, nr: NextRunFn)
    requires evs != []
    ensures LastFiring(s, evs, id, b, nr)
            == LastFiring(Step(s, evs[0], nr), evs[1..], id, if FiresAt(s, evs[0], id) then evs[0].now else b, nr)
  {
    hide Step, Fires;
  }

  lemma {:induction false} AnchorRun(s: State, evs: seq<Event>, id: string, schedule: string, b: Time, nr: NextRunFn)
    requires Anchored(s, id, schedule, b, nr) && schedule != ONCE
    requires Serial(s, evs, id, nr) && Undisturbed(evs, id)
    ensures Anchored(Run(s, evs, nr), id, schedule, LastFiring(s, evs, id, b, nr), nr)
    decreases |evs|
  {
    hide Anchored, Step, Fires, LastFiring, Undisturbed;
    if evs == [] {
      assert LastFiring(s, [], id, b, nr) == b by { NoFirings(s, id, b, nr); }
    } else {
      UndisturbedTail(evs, id);
      AnchorStep(s, evs[0], id, schedule, b, nr);
      LastFiringStep(s, evs, id, b, nr);
      var b' := if FiresAt(s, evs[0], id) then evs[0].now else b;
      AnchorRun(Step(s, evs[0], nr), evs[1..], id, schedule, b', nr);
    }
  }

  lemma UndisturbedTail(evs: seq<Event>, id: string)
    requires evs != [] && Undisturbed(evs, id)
    ensures Undisturbed([evs[0]], id) && Undisturbed(evs[1..], id)
  {
    assert forall i :: 0 <= i < |evs[1..]| ==> evs[1..][i] == evs[i + 1];
  }

  /** In a serial run no execution of the task is in flight at the final poll. */
  lemma {:induction false} SerialBeforePoll(s: State, evs: seq<Event>, p: Time, id: string, nr: NextRunFn)
    requires Serial(s, evs + [Poll(p)], id, nr)
    ensures Serial(s, evs, id, nr) && Idle(Run(s, evs, nr), id)
    decreases |evs|
  {
    hide Step;
    var all := evs + [Poll(p)];
    if evs != [] {
      assert all[1..] == evs[1..] + [Poll(p)];
      SerialBeforePoll(Step(s, evs[0], nr), evs[1..], p, id, nr);
    }
  }

  ghost predicate HasPollAt(evs: seq<Event>, t: Time) {
    exists i :: 0 <= i < |evs| && evs[i].Poll? && evs[i].now == t
  }

  lemma HasPollFirst(evs: seq<Event>, t: Time)
    requires evs != [] && evs[0] == Poll(t)
    ensures HasPollAt(evs, t)
  {
    assert evs[0].Poll? && evs[0].now == t;
  }

  lemma HasPollTail(evs: seq<Event>, t: Time)
    requires evs != [] && HasPollAt(evs[1..], t)
    ensures HasPollAt(evs, t)
  {
    var i :| 0 <= i < |evs[1..]| && evs[1..][i].Poll? && evs[1..][i].now == t;
    assert evs[i + 1] == evs[1..][i];
  }

  /** The last firing is no earlier than the start of the clock and comes from a poll of the run. */
  lemma {:induction false} LastFiringInRun(s: State, evs: seq<Event>, id: string, b: Time, t: Time, nr: NextRunFn)
    requires Clock(evs, t) && b <= t
    ensures b <= LastFiring(s, evs, id, b, nr)
    ensures LastFiring(s, evs, id, b, nr) == b || HasPollAt(evs, LastFiring(s, evs, id, b, nr))
    decreases |evs|
  {
    hide Step, Fires, HasPollAt;
    if evs != [] {
      var t' := ClockTail(evs, t);
      var b' := if FiresAt(s, evs[0], id) then evs[0].now else b;
      LastFiringInRun(Step(s, evs[0], nr), evs[1..], id, b', t', nr);
      var last := LastFiring(s, evs, id, b, nr);
      if last != b && last != b' {
        HasPollTail(evs, last);
      } else if last != b {
        HasPollFirst(evs, b');
      }
    }
  }

  /** The clock reading after an event. */
  function ClockAfter(ev: Event, t: Time): Time {
    match ev
    case Insert(_, _, _, _, _, now) => now
    case Poll(now) => now
    case Resume(_, now) => now
    case _ => t
  }

  lemma ClockTail(evs: seq<Event>, t: Time) returns (t': Time)
    requires evs != [] && Clock(evs, t)
    ensures t' == ClockAfter(evs[0], t) && t <= t' && Clock(evs[1..], t')
  {
    t' := ClockAfter(evs[0], t);
  }

  /** No reading of a run is later than that of the poll that ends it. */
  lemma {:induction false} PollsInOrder(evs: seq<Event>, p: Time, t: Time, i: nat)
    requires Clock(evs + [Poll(p)], t) && i < |evs| && evs[i].Poll?
    ensures evs[i].now <= p
    decreases |evs|
  {
    var all := evs + [Poll(p)];
    assert all[1..] == evs[1..] + [Poll(p)];
    var t' := ClockTail(all, t);
    if i == 0 {
      ClockEnd(evs[1..], p, t');
    } else {
      PollsInOrder(evs[1..], p, t', i - 1);
    }
  }

  lemma {:induction false} ClockEnd(evs: seq<Event>, p: Time, t: Time)
    requires Clock(evs + [Poll(p)], t)
    ensures t <= p
    decreases |evs|
  {
    var all := evs + [Poll(p)];
    var t' := ClockTail(all, t);
    if evs != [] {
      assert all[1..] == evs[1..] + [Poll(p)];
      ClockEnd(evs[1..], p, t');
    }
  }

  lemma {:induction false} ClockFront(evs: seq<Event>, p: Time, t: Time)
    requires Clock(evs + [Poll(p)], t)
    ensures Clock(evs, t)
    decreases |evs|
  {
    if evs != [] {
      var all := evs + [Poll(p)];
      assert all[1..] == evs[1..] + [Poll(p)];
      var t' := ClockTail(all, t);
      ClockFront(evs[1..], p, t');
    }
  }

  /** The stored next run is the computed one when there is one, and 30 seconds after the run exactly otherwise. */
  lemma StoredNextRun(schedule: string, runAt: Time, nr: NextRunFn)
    requires runAt > 0 && NeverBefore(nr)
    ensures NextRunValue(NextOrZero(schedule, runAt, nr), runAt)
            == match nr(schedule, runAt)
               case Success(next) => Unix(next)
               case Failure(_) => Unix(runAt) + 30
  {
  }

  /** A freshly scheduled task is anchored at its insertion time. */
  lemma InsertAnchors(
    s: State, id: string, sessionId: string, name: string, schedule: string, prompt: string, now: Time, nr: NextRunFn)
    requires WellFormed(s) && now > 0 && NeverBefore(nr)
    requires Inserted(s, id, sessionId, name, schedule, prompt, now, nr).1.Success?
    ensures Anchored(Inserted(s, id, sessionId, name, schedule, prompt, now, nr).0, id, schedule, now, nr)
  {
    hide ScheduleCheck;
    StepKeeps(s, Insert(id, sessionId, name, schedule, prompt, now), nr);
  }

  /**
   A next run computed at `a` has come at `p`: a matching minute lies in (a, p] or, when the search from `a` finds
   nothing in its window, 30 seconds have passed.
   */
  ghost predicate DueSince(minutes: MinuteSet, a: Time, p: Time) {
    if NextMatch(minutes, a).Some? then SomeMatchIn(minutes, a, p) else Unix(a + POLL_INTERVAL) <= Unix(p)
  }

  /** What the stored next run of a cron task means at a poll. */
  lemma CronDue(minutes: MinuteSet, schedule: string, a: Time, p: Time, nr: NextRunFn)
    requires IsCronTask(schedule, minutes, nr) && a > 0
    ensures NextRunValue(NextOrZero(schedule, a, nr), a) <= Unix(p)
            <==> DueSince(minutes, a, p)
  {
    hide IsCron, NextMatch, Matches;
    if NextMatch(minutes, a).Some? {
      NextMatchIsLeast(minutes, a);
      MinuteReached(NextMatch(minutes, a).value, p);
      SomeMatchByNext(minutes, a, p);
    }
  }

  /** Being due means that a match has come, at every poll, exactly when the search has found one at all. */
  lemma DueMeansMatchIff(minutes: MinuteSet, a: Time)
    ensures (forall p :: DueSince(minutes, a, p) <==> SomeMatchIn(minutes, a, p)) <==> NextMatch(minutes, a).Some?
  {
    hide NextMatch;
    if NextMatch(minutes, a) == None {
      var p := a + POLL_INTERVAL;
      NextMatchIsLeast(minutes, a);
      if SomeMatchIn(minutes, a, p) {
        SomeMatchMonotone(minutes, a, p, a + WINDOW * MINUTE);
      }
      assert DueSince(minutes, a, p);
    }
  }

  lemma MinuteReached(t: int, p: Time)
    ensures Unix(t * MINUTE) <= Unix(p) <==> t * MINUTE <= p
  {
    assert t * MINUTE / SECOND == t * 60;
  }

  /**
   In a serial run that leaves `id` undisturbed, a poll at `p` fires the cron task exactly when a matching minute lies
   in (a, p], `a` being its last firing or insertion. When the search from `a` found nothing in its window, the poll
   fires exactly when 30 seconds have passed, matching minute or not.
   */
  lemma CronFiresIffMatch(
    s: State, evs: seq<Event>, p: Time, id: string, schedule: string, minutes: MinuteSet, b: Time, nr: NextRunFn)
    requires Anchored(s, id, schedule, b, nr) && IsCronTask(schedule, minutes, nr) && b > 0
    requires Clock(evs, b) && Serial(s, evs + [Poll(p)], id, nr) && Undisturbed(evs, id)
    ensures var a := LastFiring(s, evs, id, b, nr);
            Fires(Run(s, evs, nr), id, p)
            <==> DueSince(minutes, a, p)
  {
    SerialBeforePoll(s, evs, p, id, nr);
    LastFiringInRun(s, evs, id, b, b, nr);
    AnchorRun(s, evs, id, schedule, b, nr);
    CronDue(minutes, schedule, LastFiring(s, evs, id, b, nr), p, nr);
    hide DueSince, NextOrZero, NextRunValue, Unix, Serial, Run, LastFiring, IsCron;
  }

  /** The first poll at or after a matching minute fires, if the search from the last firing found a match at all. */
  lemma NoMatchIsMissed(
    s: State, evs: seq<Event>, p: Time, id: string, schedule: string, minutes: MinuteSet, b: Time, m: int,
    nr: NextRunFn)
    requires Anchored(s, id, schedule, b, nr) && IsCronTask(schedule, minutes, nr) && b > 0
    requires Clock(evs, b) && Serial(s, evs + [Poll(p)], id, nr) && Undisturbed(evs, id)
    requires MatchIn(minutes, b, m, p) && NextMatch(minutes, LastFiring(s, evs, id, b, nr)).Some?
    requires forall i :: 0 <= i < |evs| && evs[i].Poll? ==> evs[i].now < m * MINUTE
    ensures Fires(Run(s, evs, nr), id, p)
  {
    hide Anchored, IsCron, Serial, Clock, Undisturbed, Matches, NextMatch, Fires, LastFiring, Run;
    LastFiringInRun(s, evs, id, b, b, nr);
    CronFiresIffMatch(s, evs, p, id, schedule, minutes, b, nr);
    assert MatchIn(minutes, LastFiring(s, evs, id, b, nr), m, p);
  }

  /** The firing before the i-th, or `b` for the first. */
  function Before(firings: seq<Time>, b: Time, i: nat): Time
    requires i < |firings|
  {
    if i == 0 then b else firings[i - 1]
  }

  /** The search from every firing's predecessor succeeded. */
  ghost predicate Searched(minutes: MinuteSet, firings: seq<Time>, b: Time) {
    forall i :: 0 <= i < |firings| ==> NextMatch(minutes, Before(firings, b, i)).Some?
  }

  /**
   When every search succeeded, each firing has a matching minute of its own, after the previous firing: a matching
   minute is never fired twice.
   */
  lemma {:induction false} FiringsHaveOwnMinutes(
    s: State, evs: seq<Event>, id: string, schedule: string, minutes: MinuteSet, b: Time, t: Time, nr: NextRunFn)
    returns (ms: seq<int>)
    requires Anchored(s, id, schedule, b, nr) && IsCronTask(schedule, minutes, nr) && 0 < b <= t
    requires Clock(evs, t) && Serial(s, evs, id, nr) && Undisturbed(evs, id)
    requires Searched(minutes, Firings(s, evs, id, nr), b)
    ensures var f := Firings(s, evs, id, nr);
            Charged(minutes, ms, f, b) && Increasing(ms)
    decreases |evs|
  {
    hide Anchored, IsCron, Step, NextMatch, Matches, Fires;
    ms := [];
    if evs != [] {
      var ev := evs[0];
      var s' := Step(s, ev, nr);
      var f, f' := Firings(s, evs, id, nr), Firings(s', evs[1..], id, nr);
      var t' := ClockTail(evs, t);
      UndisturbedTail(evs, id);
      AnchorStep(s, ev, id, schedule, b, nr);
      if FiresAt(s, ev, id) {
        var p := ev.now;
        assert f == [p] + f';
        assert NextMatch(minutes, Before(f, b, 0)).Some?;
        FirstFiringMatches(s, p, id, schedule, minutes, b, nr);
        var m :| MatchIn(minutes, b, m, p);
        SearchedTail(minutes, f, f', b, p);
        var rest := FiringsHaveOwnMinutes(s', evs[1..], id, schedule, minutes, p, t', nr);
        ms := [m] + rest;
        ChargedJoin(minutes, f', rest, b, p, m);
        IncreasingJoin(minutes, f', rest, b, p, m);
      } else {
        assert f == f';
        ms := FiringsHaveOwnMinutes(s', evs[1..], id, schedule, minutes, b, t', nr);
      }
    }
  }

  lemma SearchedTail(minutes: MinuteSet, f: seq<Time>, f': seq<Time>, b: Time, p: Time)
    requires f == [p] + f' && Searched(minutes, f, b)
    ensures Searched(minutes, f', p)
  {
    hide NextMatch;
    forall i | 0 <= i < |f'|
      ensures NextMatch(minutes, Before(f', p, i)).Some?
    {
      assert Before(f', p, i) == Before(f, b, i + 1);
    }
  }

  lemma FirstFiringMatches(s: State, p: Time, id: string, schedule: string, minutes: MinuteSet, b: Time, nr: NextRunFn)
    requires Anchored(s, id, schedule, b, nr) && IsCronTask(schedule, minutes, nr) && b > 0
    requires Idle(s, id) && Fires(s, id, p) && NextMatch(minutes, b).Some?
    ensures SomeMatchIn(minutes, b, p)
  {
    CronDue(minutes, schedule, b, p, nr);
    hide NextMatch, SomeMatchIn, NextOrZero, NextRunValue, Unix, IsCron;
  }

  lemma MatchesAreOrdered(minutes: MinuteSet, b: Time, m: int, p: Time, m': int, p': Time)
    requires MatchIn(minutes, b, m, p) && MatchIn(minutes, p, m', p')
    ensures m < m'
  {
    hide Matches;
  }

  /** `ms[i]` is a matching minute that lies between the firing before the i-th and the i-th. */
  ghost predicate Charged(minutes: MinuteSet, ms: seq<int>, firings: seq<Time>, b: Time) {
    && |ms| == |firings|
    && forall i :: 0 <= i < |ms| ==> MatchIn(minutes, Before(firings, b, i), ms[i], firings[i])
  }

  ghost predicate Increasing(ms: seq<int>) {
    forall i, j :: 0 <= i < j < |ms| ==> ms[i] < ms[j]
  }

  lemma ChargedJoin(minutes: MinuteSet, f: seq<Time>, rest: seq<int>, b: Time, p: Time, m: int)
    requires MatchIn(minutes, b, m, p) && Charged(minutes, rest, f, p)
    ensures Charged(minutes, [m] + rest, [p] + f, b)
  {
    hide MatchIn;
    var all, ms := [p] + f, [m] + rest;
    forall i | 0 <= i < |ms|
      ensures MatchIn(minutes, Before(all, b, i), ms[i], all[i])
    {
      if i > 0 {
        assert Before(f, p, i - 1) == Before(all, b, i);
        assert ms[i] == rest[i - 1] && all[i] == f[i - 1];
      }
    }
  }

  lemma IncreasingJoin(minutes: MinuteSet, f: seq<Time>, rest: seq<int>, b: Time, p: Time, m: int)
    requires MatchIn(minutes, b, m, p) && Charged(minutes, rest, f, p) && Increasing(rest)
    ensures Increasing([m] + rest)
  {
    hide MatchIn;
    if rest != [] {
      assert MatchIn(minutes, Before(f, p, 0), rest[0], f[0]);
      MatchesAreOrdered(minutes, b, m, p, rest[0], f[0]);
    }
  }

  /**
   A cron task whose search fails after a firing at `b` fires again 30 seconds later, although no matching minute has
   come: the fallback next run is used.
   */
  lemma FailedSearchMisfires(s: State, id: string, schedule: string, minutes: MinuteSet, b: Time, nr: NextRunFn)
    requires Anchored(s, id, schedule, b, nr) && IsCronTask(schedule, minutes, nr) && b > 0
    requires Idle(s, id) && NextMatch(minutes, b) == None
    ensures Fires(s, id, b + POLL_INTERVAL) && !SomeMatchIn(minutes, b, b + POLL_INTERVAL)
  {
    hide NextMatch, NextOrZero, NextRunValue;
    CronDue(minutes, schedule, b, b + POLL_INTERVAL, nr);
    NextMatchIsLeast(minutes, b);
    if SomeMatchIn(minutes, b, b + POLL_INTERVAL) {
      SomeMatchMonotone(minutes, b, b + POLL_INTERVAL, b + WINDOW * MINUTE);
    }
  }

  // ---------------------------------------------------------------------------
  // "@once" tasks
  // ---------------------------------------------------------------------------

  /** The task has fired its one time: it is inactive, or its execution is still to cancel it. */
  ghost predicate Spent(s: State, id: string) {
    && WellFormed(s) && id in s.tasks
    && (!IsActive(s, id) || exists e :: e in s.inFlight && e.task.id == id && e.task.schedule == ONCE)
  }

  /** An inactive task stays spent. */
  lemma InactiveIsSpent(s: State, ev: Event, id: string, nr: NextRunFn)
    requires WellFormed(s) && id in s.tasks && !IsActive(s, id) && !(ev.Resume? && ev.id == id)
    ensures Spent(Step(s, ev, nr), id) && !FiresAt(s, ev, id)
  {
    StepKeeps(s, ev, nr);
    NotDueWhenInactive(s, id);
    hide Step, IsActive;
    if IsActive(Step(s, ev, nr), id) {
      OnlyInsertAndResumeActivate(s, ev, id, nr);
    }
  }

  /** Completing the execution of a "@once" task cancels it. */
  lemma OnceCompletes(s: State, e: Execution, id: string)
    requires WellFormed(s) && e in s.inFlight && e.task.id == id && e.task.schedule == ONCE
    ensures id in Completed(s, e).tasks && !IsActive(Completed(s, e), id)
  {
  }

  lemma SpentStep(s: State, ev: Event, id: string, nr: NextRunFn)
    requires Spent(s, id)
    requires ev.Poll? ==> Idle(s, id)
    requires !(ev.Resume? && ev.id == id)
    ensures Spent(Step(s, ev, nr), id) && !FiresAt(s, ev, id)
  {
    if !IsActive(s, id) {
      InactiveIsSpent(s, ev, id, nr);
    } else {
      StepKeeps(s, ev, nr);
      var e :| e in s.inFlight && e.task.id == id && e.task.schedule == ONCE;
      hide WellFormed, IsActive;
      assert !ev.Poll?;
      if !ev.Complete? {
        TouchesOneRow(s, ev, nr);
        assert e in Step(s, ev, nr).inFlight;
      } else if ev.e == e {
        OnceCompletes(s, e, id);
      } else {
        if ev.e in s.inFlight {
          OthersStay(s, ev.e);
        }
        assert e in Completed(s, ev.e).inFlight;
      }
    }
  }

  lemma {:induction false} SpentNeverFires(s: State, evs: seq<Event>, id: string, nr: NextRunFn)
    requires Spent(s, id) && Serial(s, evs, id, nr) && NoResume(evs, id)
    ensures Firings(s, evs, id, nr) == []
    decreases |evs|
  {
    hide Spent, Step, Fires;
    if evs != [] {
      SpentStep(s, evs[0], id, nr);
      NoResumeTail(evs, id);
      SpentNeverFires(Step(s, evs[0], nr), evs[1..], id, nr);
    }
  }

  lemma NoResumeTail(evs: seq<Event>, id: string)
    requires evs != [] && NoResume(evs, id)
    ensures NoResume(evs[1..], id)
  {
    assert forall i :: 0 <= i < |evs[1..]| ==> evs[1..][i] == evs[i + 1];
  }

  /** In a serial run without a resume, a task stored as exactly "@once" fires at most once. */
  lemma {:induction false} OnceFiresAtMostOnce(s: State, evs: seq<Event>, id: string, nr: NextRunFn)
    requires WellFormed(s) && id in s.tasks && s.tasks[id].schedule == ONCE
    requires Serial(s, evs, id, nr) && NoResume(evs, id)
    ensures |Firings(s, evs, id, nr)| <= 1
    decreases |evs|
  {
    hide WellFormed, Step, Fires;
    if evs != [] {
      StepKeeps(s, evs[0], nr);
      NoResumeTail(evs, id);
      if FiresAt(s, evs[0], id) {
        OncePollSpends(s, evs[0].now, id, nr);
        SpentNeverFires(Step(s, evs[0], nr), evs[1..], id, nr);
      } else {
        OnceFiresAtMostOnce(Step(s, evs[0], nr), evs[1..], id, nr);
      }
    }
  }

  lemma OncePollSpends(s: State, now: Time, id: string, nr: NextRunFn)
    requires WellFormed(s) && id in s.tasks && s.tasks[id].schedule == ONCE && Fires(s, id, now)
    ensures Spent(Step(s, Poll(now), nr), id)
  {
    hide NextOrZero, IsDue;
    StepKeeps(s, Poll(now), nr);
    var e := ExecutionOf(s.tasks[id], now, nr);
    assert e in DueExecutions(s.tasks, now, nr);
    assert e in Polled(s, now, nr).inFlight;
  }

  /** From any insertion of `schedule`, serial runs without a resume fire the task at most once. */
  ghost predicate FiresOnce(schedule: string, nr: NextRunFn) {
    forall s, evs, id ::
      WellFormed(s) && IsActive(s, id) && s.tasks[id].schedule == schedule
      && Serial(s, evs, id, nr) && NoResume(evs, id)
      ==> |Firings(s, evs, id, nr)| <= 1
  }

  /** A one-row table holding a due "@once" task, as stored by an insertion at `now`. */
  function OnceTable(schedule: string, now: Time): State {
    State(map["id" := Task("id", "", "t", schedule, Unix(now), 0, Active, "p")], multiset{})
  }

  /** The table is what inserting the schedule into an empty table gives. */
  lemma OnceTableIsInserted(schedule: string, now: Time, nr: NextRunFn)
    requires IsOnceTask(schedule, nr) && schedule != "" && ByteLength(schedule) <= MAX_SCHEDULE_LENGTH
    ensures Inserted(State(map[], multiset{}), "id", "", "t", schedule, "p", now, nr)
            == (OnceTable(schedule, now), Success("id"))
  {
    assert ByteLength("t") == 1 && ByteLength("p") == 1 by {
      assert "t"[..0] == "" && "p"[..0] == "";
    }
  }

  /** Poll, complete, poll again, all at the same instant. */
  lemma SpacedOnceRefires(schedule: string, now: Time, nr: NextRunFn) returns (evs: seq<Event>)
    requires IsOnceTask(schedule, nr) && schedule != ONCE && now > 0
    ensures var s := OnceTable(schedule, now);
            Serial(s, evs, "id", nr) && NoResume(evs, "id") && Firings(s, evs, "id", nr) == [now, now]
  {
    var s := OnceTable(schedule, now);
    var e := Execution(s.tasks["id"], now, now);
    evs := [Poll(now), Complete(e), Poll(now)];
    var s1 := Step(s, evs[0], nr);
    SpacedOncePoll(s, schedule, now, nr);
    assert s1 == State(s.tasks, multiset{e});
    var s2 := Step(s1, evs[1], nr);
    assert s2.tasks["id"] == s.tasks["id"].(lastRun := Unix(now));
    assert s2.inFlight == multiset{};
    assert evs[1..] == [Complete(e), Poll(now)] && evs[1..][1..] == [Poll(now)] && evs[1..][1..][1..] == [];
    var s3 := Step(s2, Poll(now), nr);
    hide Step;
    assert Serial(s3, [], "id", nr) && Firings(s3, [], "id", nr) == [];
    assert Serial(s2, [Poll(now)], "id", nr) && Firings(s2, [Poll(now)], "id", nr) == [now] by {
      assert [Poll(now)][1..] == [];
    }
    assert Serial(s1, evs[1..], "id", nr) && Firings(s1, evs[1..], "id", nr) == [now];
  }

  lemma SpacedOncePoll(s: State, schedule: string, now: Time, nr: NextRunFn)
    requires IsOnceTask(schedule, nr) && s == OnceTable(schedule, now)
    ensures Polled(s, now, nr) == State(s.tasks, multiset{Execution(s.tasks["id"], now, now)})
  {
    assert DueIds(s.tasks, now) == {"id"};
    assert DueExecutions(s.tasks, now, nr) == {Execution(s.tasks["id"], now, now)};
  }

  /**
   Of the schedules that run as soon as possible, exactly the text "@once" fires once: any other is never cancelled.
   */
  lemma OnceIff(schedule: string, nr: NextRunFn)
    requires IsOnceTask(schedule, nr)
    ensures FiresOnce(schedule, nr) <==> schedule == ONCE
  {
    if schedule == ONCE {
      forall s, evs, id | WellFormed(s) && IsActive(s, id) && s.tasks[id].schedule == schedule
                          && Serial(s, evs, id, nr) && NoResume(evs, id)
        ensures |Firings(s, evs, id, nr)| <= 1
      {
        OnceFiresAtMostOnce(s, evs, id, nr);
      }
    } else {
      var evs := SpacedOnceRefires(schedule, SECOND, nr);
      var s := OnceTable(schedule, SECOND);
      assert WellFormed(s) && IsActive(s, "id") && s.tasks["id"].schedule == schedule;
      hide OnceTable, Serial, Firings, NoResume;
      assert |Firings(s, evs, "id", nr)| == 2;
    }
  }

  // ---------------------------------------------------------------------------
  // "@every" tasks
  // ---------------------------------------------------------------------------

  /** Since its firing at `last`, the task is not due before `last + d`, to the second. */
  ghost predicate Waiting(s: State, id: string, schedule: string, d: int, last: Time) {
    && WellFormed(s) && id in s.tasks && s.tasks[id].schedule == schedule
    && (forall e :: e in s.inFlight && e.task.id == id ==>
          e.task.schedule == schedule && e.runAt == last && e.next == last + d)
    && ((forall e :: e in s.inFlight ==> e.task.id != id) ==> s.tasks[id].nextRun >= Unix(last + d))
  }

  lemma UnixMonotone(a: Time, b: Time)
    requires a <= b
    ensures Unix(a) <= Unix(b)
  {
  }

  lemma EveryIsPositive(schedule: string, d: int, nr: NextRunFn)
    requires IsEveryTask(schedule, d, nr)
    ensures d > 0 && schedule != ONCE
  {
  }

  lemma WaitingPoll(s: State, now: Time, id: string, schedule: string, d: int, last: Time, nr: NextRunFn)
    requires IsEveryTask(schedule, d, nr) && Idle(s, id) && WellFormed(s)
    requires id in s.tasks && s.tasks[id].schedule == schedule
    requires !Fires(s, id, now) ==> Waiting(s, id, schedule, d, last)
    ensures Waiting(Polled(s, now, nr), id, schedule, d, if Fires(s, id, now) then now else last)
  {
    PollKeeps(s, now, nr);
    PolledFromIdle(s, now, id, nr);
    hide NextOrZero, IsEveryTask, Unix, Polled, WellFormed;
  }

  lemma WaitingComplete(s: State, e: Execution, id: string, schedule: string, d: int, last: Time)
    requires Waiting(s, id, schedule, d, last) && last > 0 && d > 0 && schedule != ONCE
    ensures Waiting(Completed(s, e), id, schedule, d, last)
  {
    CompleteKeeps(s, e);
    if e in s.inFlight {
      if e.task.id == id {
        WaitingStored(e, d, last);
      }
      hide Unix, NextRunValue, WellFormed;
      OthersStay(s, e);
    }
  }

  /** Completing an execution leaves all others in flight. */
  lemma OthersStay(s: State, e: Execution)
    requires e in s.inFlight
    ensures forall x :: x in Completed(s, e).inFlight ==> x in s.inFlight
    ensures forall x :: x in s.inFlight && x != e ==> x in Completed(s, e).inFlight
  {
    hide AfterRun;
  }

  lemma WaitingStored(e: Execution, d: int, last: Time)
    requires e.runAt == last && e.next == last + d && d > 0 && last > 0
    ensures NextRunValue(e.next, e.runAt) == Unix(last + d)
  {
  }

  lemma WaitingUpdate(s: State, id: string, schedule: string, d: int, last: Time, i: string, row: Task)
    requires Waiting(s, id, schedule, d, last) && row.id == i
    requires i in s.tasks ==> row.schedule == s.tasks[i].schedule
    requires i == id ==> row.nextRun >= s.tasks[id].nextRun || row.nextRun >= Unix(last + d)
    ensures Waiting(s.(tasks := s.tasks[i := row]), id, schedule, d, last)
  {
    UpdateKeeps(s, i, row);
  }

  lemma WaitingDue(s: State, now: Time, id: string, schedule: string, d: int, last: Time)
    requires Waiting(s, id, schedule, d, last) && Idle(s, id) && Fires(s, id, now)
    ensures now > last + d - SECOND
  {
  }

  lemma WaitingResume(s: State, i: string, now: Time, id: string, schedule: string, d: int, last: Time, nr: NextRunFn)
    requires IsEveryTask(schedule, d, nr) && Waiting(s, id, schedule, d, last) && last <= now
    ensures Waiting(Resumed(s, i, now, nr).0, id, schedule, d, last)
  {
    UnixMonotone(last + d, now + d);
    hide IsEveryTask;
    var s' := Resumed(s, i, now, nr).0;
    if s' != s {
      var row := s'.tasks[i];
      assert i == id ==> row.nextRun >= Unix(last + d);
      hide Waiting;
      WaitingUpdate(s, id, schedule, d, last, i, row);
    }
  }

  lemma WaitingStep(s: State, ev: Event, id: string, schedule: string, d: int, last: Time, nr: NextRunFn)
    requires IsEveryTask(schedule, d, nr) && Waiting(s, id, schedule, d, last) && last > 0
    requires ev.Poll? ==> Idle(s, id)
    requires ev.Poll? || ev.Resume? ==> last <= ev.now
    ensures Waiting(Step(s, ev, nr), id, schedule, d, if FiresAt(s, ev, id) then ev.now else last)
    ensures FiresAt(s, ev, id) ==> ev.now > last + d - SECOND
  {
    hide IsEveryTask, ScheduleCheck, IsDue;
    var s' := Step(s, ev, nr);
    match ev
    case Poll(now) =>
      WaitingPoll(s, now, id, schedule, d, last, nr);
      if Fires(s, id, now) {
        WaitingDue(s, now, id, schedule, d, last);
      }
    case Complete(e) =>
      assert d > 0 && schedule != ONCE by { EveryIsPositive(schedule, d, nr); }
      WaitingComplete(s, e, id, schedule, d, last);
    case Resume(i, now) =>
      WaitingResume(s, i, now, id, schedule, d, last, nr);
    case Insert(i, _, _, _, _, _) =>
      if s' != s { WaitingUpdate(s, id, schedule, d, last, i, s'.tasks[i]); }
    case Pause(i) =>
      if i in s.tasks { WaitingUpdate(s, id, schedule, d, last, i, s'.tasks[i]); }
    case Cancel(i) =>
      if i in s.tasks { WaitingUpdate(s, id, schedule, d, last, i, s'.tasks[i]); }
  }

  /** More than n * (d - 1s) lies between `a` and `b`. */
  predicate Apart(a: Time, b: Time, n: int, d: int) {
    b - a > n * (d - SECOND)
  }

  lemma ApartJoin(a: Time, b: Time, c: Time, n: int, d: int)
    requires b > a + d - SECOND
    ensures Apart(a, b, 1, d)
    ensures Apart(b, c, n, d) ==> Apart(a, c, n + 1, d)
  {
    assert (n + 1) * (d - SECOND) == n * (d - SECOND) + (d - SECOND);
  }

  /** The k-th of `firings` comes more than k * (d - 1s) after `last`. */
  ghost predicate AllApart(last: Time, firings: seq<Time>, d: int) {
    forall k :: 0 <= k < |firings| ==> Apart(last, firings[k], k + 1, d)
  }

  lemma AllApartEmpty(last: Time, d: int)
    ensures AllApart(last, [], d)
  {
  }

  lemma AllApartJoin(last: Time, p: Time, firings: seq<Time>, d: int)
    requires p > last + d - SECOND && AllApart(p, firings, d)
    ensures AllApart(last, [p] + firings, d)
  {
    hide Apart;
    var all := [p] + firings;
    forall k | 0 <= k < |all|
      ensures Apart(last, all[k], k + 1, d)
    {
      ApartJoin(last, p, all[k], k, d);
      if k > 0 {
        assert all[k] == firings[k - 1];
      }
    }
  }

  /** After a firing at `last`, the k-th firing comes more than k * (d - 1s) later. */
  lemma {:induction false} EveryGaps(
    s: State, evs: seq<Event>, id: string, schedule: string, d: int, last: Time, t: Time, nr: NextRunFn)
    requires IsEveryTask(schedule, d, nr) && Waiting(s, id, schedule, d, last) && 0 < last <= t
    requires Clock(evs, t) && Serial(s, evs, id, nr)
    ensures var f := Firings(s, evs, id, nr);
            AllApart(last, f, d)
    decreases |evs|
  {
    hide IsEveryTask, Waiting, Step, Fires, AllApart;
    AllApartEmpty(last, d);
    if evs != [] {
      var ev := evs[0];
      var t' := ClockTail(evs, t);
      WaitingStep(s, ev, id, schedule, d, last, nr);
      var last' := if FiresAt(s, ev, id) then ev.now else last;
      EveryGaps(Step(s, ev, nr), evs[1..], id, schedule, d, last', t', nr);
      var f := Firings(s, evs, id, nr);
      var f' := Firings(Step(s, ev, nr), evs[1..], id, nr);
      if FiresAt(s, ev, id) {
        assert f == [ev.now] + f';
        AllApartJoin(last, ev.now, f', d);
      } else {
        assert f == f';
      }
    }
  }

  /**
   In a serial run, with any pauses, resumes and cancels, n + 1 firings of an "@every d" task span more than
   n * (d - 1s); the second is lost to Unix-second truncation.
   */
  lemma {:induction false} EverySpacing(
    s: State, evs: seq<Event>, id: string, schedule: string, d: int, t: Time, nr: NextRunFn)
    requires WellFormed(s) && id in s.tasks && s.tasks[id].schedule == schedule && IsEveryTask(schedule, d, nr)
    requires Clock(evs, t) && t > 0 && Serial(s, evs, id, nr)
    ensures var f := Firings(s, evs, id, nr);
            f != [] ==> AllApart(f[0], f[1..], d)
    decreases |evs|
  {
    hide IsEveryTask, WellFormed, Step, Fires, AllApart;
    if evs != [] {
      var ev := evs[0];
      var t' := ClockTail(evs, t);
      StepKeeps(s, ev, nr);
      var f := Firings(s, evs, id, nr);
      var f' := Firings(Step(s, ev, nr), evs[1..], id, nr);
      if FiresAt(s, ev, id) {
        EveryFirst(s, ev.now, id, schedule, d, nr);
        EveryGaps(Step(s, ev, nr), evs[1..], id, schedule, d, ev.now, t', nr);
        assert f == [ev.now] + f' && f[1..] == f';
      } else {
        assert f == f';
        EverySpacing(Step(s, ev, nr), evs[1..], id, schedule, d, t', nr);
      }
    }
  }

  lemma EveryFirst(s: State, now: Time, id: string, schedule: string, d: int, nr: NextRunFn)
    requires IsEveryTask(schedule, d, nr) && Idle(s, id) && WellFormed(s)
    requires id in s.tasks && s.tasks[id].schedule == schedule && Fires(s, id, now)
    ensures Waiting(Step(s, Poll(now), nr), id, schedule, d, now)
  {
    WaitingPoll(s, now, id, schedule, d, now, nr);
    hide Polled, Waiting;
  }
}
