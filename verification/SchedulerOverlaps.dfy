/** When two executions of one task are in flight at once, over all runs. */
module SchedulerOverlaps {
  import opened Wrappers
  import opened CronSearch
  import opened Schedule
  import opened Scheduler
  import opened SchedulerRuns

  /** At most one execution of `id` is in flight. */
  ghost predicate NoOverlap(s: State, id: string) {
    forall e, e' :: e in s.inFlight && e' in s.inFlight && e.task.id == id && e'.task.id == id ==>
      e == e' && s.inFlight[e] == 1
  }

  /** At no point of the run, its two ends included, does an execution of `id` overlap another. */
  ghost predicate NeverOverlaps(s: State, evs: seq<Event>, id: string, nr: NextRunFn)
    decreases |evs|
  {
    NoOverlap(s, id) && (evs == [] || NeverOverlaps(Step(s, evs[0], nr), evs[1..], id, nr))
  }

  /** Every poll that fires `id` finds it idle. */
  ghost predicate FiresIdle(s: State, evs: seq<Event>, id: string, nr: NextRunFn)
    decreases |evs|
  {
    evs == [] ||
    ((FiresAt(s, evs[0], id) ==> Idle(s, id)) && FiresIdle(Step(s, evs[0], nr), evs[1..], id, nr))
  }

  // ---------------------------------------------------------------------------
  // One step
  // ---------------------------------------------------------------------------

  /** A poll adds one execution of `id` when it fires it, and none otherwise. */
  lemma PolledExecutions(s: State, now: Time, id: string, nr: NextRunFn)
    requires WellFormed(s)
    ensures var s' := Polled(s, now, nr);
            forall e: Execution :: e.task.id == id ==>
              s'.inFlight[e] == s.inFlight[e]
                                + if Fires(s, id, now) && e == ExecutionOf(s.tasks[id], now, nr) then 1 else 0
  {
    hide NextOrZero, IsDue;
    var due := DueExecutions(s.tasks, now, nr);
    var s' := Polled(s, now, nr);
    forall e: Execution | e.task.id == id
      ensures s'.inFlight[e] == s.inFlight[e]
                                + if Fires(s, id, now) && e == ExecutionOf(s.tasks[id], now, nr) then 1 else 0
    {
      assert s'.inFlight[e] == s.inFlight[e] + multiset(due)[e];
      assert e in due <==> Fires(s, id, now) && e == ExecutionOf(s.tasks[id], now, nr);
    }
  }

  /** From a state without overlap, a poll causes one exactly when it fires a task that is not idle. */
  lemma PollOverlapsIff(s: State, now: Time, id: string, nr: NextRunFn)
    requires WellFormed(s) && NoOverlap(s, id)
    ensures NoOverlap(Polled(s, now, nr), id) <==> (Fires(s, id, now) ==> Idle(s, id))
  {
    PolledExecutions(s, now, id, nr);
    hide NextOrZero, IsDue, Polled;
    var s' := Polled(s, now, nr);
    if Fires(s, id, now) {
      var e := ExecutionOf(s.tasks[id], now, nr);
      assert e.task.id == id && e in s'.inFlight;
      if !Idle(s, id) {
        var x :| x in s.inFlight && x.task.id == id;
        assert x in s'.inFlight && (x == e ==> s'.inFlight[e] >= 2);
      } else {
        forall x | x in s'.inFlight && x.task.id == id
          ensures x == e && s'.inFlight[x] == 1
        {
          assert x !in s.inFlight;
        }
      }
    } else {
      assert forall x: Execution :: x.task.id == id ==> s'.inFlight[x] == s.inFlight[x];
    }
  }

  lemma CompleteNoOverlap(s: State, e: Execution, id: string)
    requires NoOverlap(s, id)
    ensures NoOverlap(Completed(s, e), id)
  {
    hide AfterRun;
    var s' := Completed(s, e);
    assert forall x :: x in s'.inFlight ==> x in s.inFlight && s'.inFlight[x] <= s.inFlight[x];
  }

  lemma StepOverlapsIff(s: State, ev: Event, id: string, nr: NextRunFn)
    requires WellFormed(s) && NoOverlap(s, id)
    ensures NoOverlap(Step(s, ev, nr), id) <==> (FiresAt(s, ev, id) ==> Idle(s, id))
  {
    if !ev.Poll? && !ev.Complete? {
      TouchesOneRow(s, ev, nr);
    }
    hide Polled, Completed, WellFormed, Fires, Idle;
    match ev
    case Poll(now) => PollOverlapsIff(s, now, id, nr);
    case Complete(e) => CompleteNoOverlap(s, e, id);
    case _ =>
  }

  // ---------------------------------------------------------------------------
  // Whole runs
  // ---------------------------------------------------------------------------

  /** Over all runs, executions of a task never overlap exactly when every poll that fires it finds it idle. */
  lemma {:induction false} NeverOverlapsIff(s: State, evs: seq<Event>, id: string, nr: NextRunFn)
    requires WellFormed(s) && NoOverlap(s, id)
    ensures NeverOverlaps(s, evs, id, nr) <==> FiresIdle(s, evs, id, nr)
    decreases |evs|
  {
    hide WellFormed, NoOverlap, Step, Idle, FiresAt;
    if evs != [] {
      StepKeeps(s, evs[0], nr);
      StepOverlapsIff(s, evs[0], id, nr);
      if NoOverlap(Step(s, evs[0], nr), id) {
        NeverOverlapsIff(Step(s, evs[0], nr), evs[1..], id, nr);
      } else {
        OverlapsAtOnce(Step(s, evs[0], nr), evs[1..], id, nr);
      }
    }
  }

  lemma OverlapsAtOnce(s: State, evs: seq<Event>, id: string, nr: NextRunFn)
    requires !NoOverlap(s, id)
    ensures !NeverOverlaps(s, evs, id, nr)
  {
  }

  lemma {:induction false} SerialFiresIdle(s: State, evs: seq<Event>, id: string, nr: NextRunFn)
    requires Serial(s, evs, id, nr)
    ensures FiresIdle(s, evs, id, nr)
    decreases |evs|
  {
    hide Step, Idle;
    if evs != [] {
      SerialFiresIdle(Step(s, evs[0], nr), evs[1..], id, nr);
    }
  }

  /** In its serial runs a task never has two executions in flight. */
  lemma SerialNeverOverlaps(s: State, evs: seq<Event>, id: string, nr: NextRunFn)
    requires WellFormed(s) && NoOverlap(s, id) && Serial(s, evs, id, nr)
    ensures NeverOverlaps(s, evs, id, nr)
  {
    SerialFiresIdle(s, evs, id, nr);
    NeverOverlapsIff(s, evs, id, nr);
  }

  /** A task that is in flight is still active and due. */
  ghost predicate BusyIsDue(s: State, id: string, t: Time) {
    Idle(s, id) || Fires(s, id, t)
  }

  lemma DueLater(s: State, id: string, t: Time, later: Time)
    requires Fires(s, id, t) && t <= later
    ensures Fires(s, id, later)
  {
    UnixMonotone(t, later);
  }

  /** Completing the only execution of a task leaves it idle; completing another's changes nothing for it. */
  lemma BusyComplete(s: State, e: Execution, id: string, t: Time)
    requires WellFormed(s) && NoOverlap(s, id) && BusyIsDue(s, id, t)
    ensures BusyIsDue(Completed(s, e), id, t)
  {
    hide AfterRun, IsDue;
    var s' := Completed(s, e);
    if e in s.inFlight {
      assert forall x :: x in s'.inFlight ==> x in s.inFlight;
      if e.task.id == id {
        forall x | x in s'.inFlight
          ensures x.task.id != id
        {
          assert x.task.id == id ==> x == e && s.inFlight[e] == 1;
        }
      }
    }
  }

  /** One step of an undisturbed run in which polls fire the task only when it is idle. */
  lemma BusyStep(s: State, evs: seq<Event>, id: string, t: Time, t': Time, nr: NextRunFn)
    requires WellFormed(s) && id in s.tasks && NoOverlap(s, id) && BusyIsDue(s, id, t)
    requires evs != [] && Undisturbed(evs, id) && t <= t' && (evs[0].Poll? ==> t' == evs[0].now)
    requires FiresAt(s, evs[0], id) ==> Idle(s, id)
    ensures BusyIsDue(Step(s, evs[0], nr), id, t')
    ensures evs[0].Poll? ==> Idle(s, id)
  {
    var ev := evs[0];
    if !ev.Poll? && !ev.Complete? {
      TouchesOneRow(s, ev, nr);
    }
    if !Idle(s, id) {
      DueLater(s, id, t, t');
    }
    hide IsDue, Polled, Completed, WellFormed, NoOverlap;
    match ev
    case Poll(now) =>
      assert Idle(s, id);
      PolledFromIdle(s, now, id, nr);
    case Complete(e) => BusyComplete(s, e, id, t');
    case _ =>
  }

  lemma {:induction false} FiresIdleIsSerial(s: State, evs: seq<Event>, id: string, t: Time, nr: NextRunFn)
    requires WellFormed(s) && id in s.tasks && NoOverlap(s, id) && BusyIsDue(s, id, t)
    requires Clock(evs, t) && Undisturbed(evs, id) && FiresIdle(s, evs, id, nr)
    ensures Serial(s, evs, id, nr)
    decreases |evs|
  {
    hide WellFormed, NoOverlap, Step, Idle, FiresAt, Undisturbed, BusyIsDue;
    if evs != [] {
      var t' := ClockTail(evs, t);
      StepKeeps(s, evs[0], nr);
      StepOverlapsIff(s, evs[0], id, nr);
      BusyStep(s, evs, id, t, t', nr);
      UndisturbedTail(evs, id);
      FiresIdleIsSerial(Step(s, evs[0], nr), evs[1..], id, t', nr);
    }
  }

  /**
   Without a pause, resume or cancel of it, the executions of a task never overlap exactly when each of them completes
   before the next poll.
   */
  lemma NeverOverlapsIffSerial(s: State, evs: seq<Event>, id: string, t: Time, nr: NextRunFn)
    requires WellFormed(s) && id in s.tasks && NoOverlap(s, id) && BusyIsDue(s, id, t)
    requires Clock(evs, t) && Undisturbed(evs, id)
    ensures NeverOverlaps(s, evs, id, nr) <==> Serial(s, evs, id, nr)
  {
    NeverOverlapsIff(s, evs, id, nr);
    if FiresIdle(s, evs, id, nr) {
      FiresIdleIsSerial(s, evs, id, t, nr);
    }
    if Serial(s, evs, id, nr) {
      SerialFiresIdle(s, evs, id, nr);
    }
  }

  // ---------------------------------------------------------------------------
  // A run with overlap
  // ---------------------------------------------------------------------------

  /** No execution of `id` completes. */
  ghost predicate NoCompletion(evs: seq<Event>, id: string) {
    forall i :: 0 <= i < |evs| && evs[i].Complete? ==> evs[i].e.task.id != id
  }

  /** A task in flight and due stays so, whatever happens to other tasks. */
  lemma {:induction false} StaysBusy(s: State, evs: seq<Event>, id: string, t: Time, nr: NextRunFn) returns (t': Time)
    requires WellFormed(s) && !Idle(s, id) && Fires(s, id, t)
    requires Clock(evs, t) && Undisturbed(evs, id) && NoCompletion(evs, id)
    ensures var s' := Run(s, evs, nr); WellFormed(s') && !Idle(s', id) && Fires(s', id, t')
    ensures forall p :: Clock(evs + [Poll(p)], t) ==> t' <= p
    decreases |evs|
  {
    hide WellFormed, Step, IsDue;
    t' := t;
    if evs != [] {
      var ev := evs[0];
      var next := ClockTail(evs, t);
      StepKeeps(s, ev, nr);
      DueLater(s, id, t, next);
      BusyKeeps(s, evs, id, next, nr);
      UndisturbedTail(evs, id);
      assert NoCompletion(evs[1..], id) by {
        assert forall i :: 0 <= i < |evs[1..]| ==> evs[1..][i] == evs[i + 1];
      }
      t' := StaysBusy(Step(s, ev, nr), evs[1..], id, next, nr);
      forall p | Clock(evs + [Poll(p)], t)
        ensures t' <= p
      {
        assert (evs + [Poll(p)])[1..] == evs[1..] + [Poll(p)];
        var _ := ClockTail(evs + [Poll(p)], t);
      }
    } else {
      forall p | Clock(evs + [Poll(p)], t)
        ensures t <= p
      {
        assert evs + [Poll(p)] == [Poll(p)];
      }
    }
  }

  lemma BusyKeeps(s: State, evs: seq<Event>, id: string, t: Time, nr: NextRunFn)
    requires WellFormed(s) && !Idle(s, id) && Fires(s, id, t)
    requires evs != [] && Undisturbed(evs, id) && NoCompletion(evs, id)
    ensures var s' := Step(s, evs[0], nr); !Idle(s', id) && Fires(s', id, t)
  {
    var ev := evs[0];
    var e :| e in s.inFlight && e.task.id == id;
    if !ev.Poll? && !ev.Complete? {
      TouchesOneRow(s, ev, nr);
    } else if ev.Poll? {
      PolledExecutions(s, ev.now, id, nr);
      PollTasks(s, ev.now, nr);
      assert e in Polled(s, ev.now, nr).inFlight;
    } else {
      assert ev.e.task.id != id;
      assert e in Completed(s, ev.e).inFlight by {
        if ev.e in s.inFlight {
          OthersStay(s, ev.e);
        }
      }
    }
    hide IsDue, Polled, Completed, WellFormed, Step;
  }

  /**
   A task that fires at `p` and whose executions do not complete is fired again by the next poll, whatever happens to
   other tasks in between: two of its executions are in flight.
   */
  lemma PollsOverlap(s: State, id: string, p: Time, evs: seq<Event>, p': Time, nr: NextRunFn)
    requires WellFormed(s) && Fires(s, id, p)
    requires Clock(evs + [Poll(p')], p) && Undisturbed(evs, id) && NoCompletion(evs, id)
    ensures !NoOverlap(Polled(Run(Polled(s, p, nr), evs, nr), p', nr), id)
  {
    var s1 := Polled(s, p, nr);
    PollKeeps(s, p, nr);
    PolledExecutions(s, p, id, nr);
    var e := ExecutionOf(s.tasks[id], p, nr);
    assert e.task.id == id && e in s1.inFlight;
    ClockFront(evs, p', p);
    var t := StaysBusy(s1, evs, id, p, nr);
    var s2 := Run(s1, evs, nr);
    DueLater(s2, id, t, p');
    hide Polled, Run, Fires;
    BusyPollOverlaps(s2, p', id, nr);
  }

  lemma BusyPollOverlaps(s: State, now: Time, id: string, nr: NextRunFn)
    requires WellFormed(s) && !Idle(s, id) && Fires(s, id, now)
    ensures !NoOverlap(Polled(s, now, nr), id)
  {
    PolledExecutions(s, now, id, nr);
    hide NextOrZero, IsDue, Polled;
    var s' := Polled(s, now, nr);
    var e := ExecutionOf(s.tasks[id], now, nr);
    var x :| x in s.inFlight && x.task.id == id;
    assert e.task.id == id && e in s'.inFlight && x in s'.inFlight && (x == e ==> s'.inFlight[e] >= 2);
  }

  // ---------------------------------------------------------------------------
  // "@once" and overlap
  // ---------------------------------------------------------------------------

  lemma {:induction false} NoFiringsFiresIdle(s: State, evs: seq<Event>, id: string, nr: NextRunFn)
    requires Firings(s, evs, id, nr) == []
    ensures FiresIdle(s, evs, id, nr)
    decreases |evs|
  {
    hide Step, Idle, Fires;
    if evs != [] {
      NoFiringsFiresIdle(Step(s, evs[0], nr), evs[1..], id, nr);
    }
  }

  /** An idle task that an event does not fire stays idle. */
  lemma IdleStep(s: State, ev: Event, id: string, nr: NextRunFn)
    requires WellFormed(s) && Idle(s, id) && !FiresAt(s, ev, id)
    ensures Idle(Step(s, ev, nr), id)
  {
    if ev.Poll? {
      PolledFromIdle(s, ev.now, id, nr);
    } else if ev.Complete? {
      if ev.e in s.inFlight {
        OthersStay(s, ev.e);
      }
    } else {
      TouchesOneRow(s, ev, nr);
    }
  }

  /** From an idle state, a task that fires at most once fires only when it is idle. */
  lemma {:induction false} AtMostOneFiresIdle(s: State, evs: seq<Event>, id: string, nr: NextRunFn)
    requires WellFormed(s) && Idle(s, id) && |Firings(s, evs, id, nr)| <= 1
    ensures FiresIdle(s, evs, id, nr)
    decreases |evs|
  {
    hide WellFormed, Step, Idle, Fires;
    if evs != [] {
      StepKeeps(s, evs[0], nr);
      if FiresAt(s, evs[0], id) {
        NoFiringsFiresIdle(Step(s, evs[0], nr), evs[1..], id, nr);
      } else {
        IdleStep(s, evs[0], id, nr);
        AtMostOneFiresIdle(Step(s, evs[0], nr), evs[1..], id, nr);
      }
    }
  }

  /** A spent task stays spent through every event that does not fire it. */
  lemma SpentStays(s: State, ev: Event, id: string, nr: NextRunFn)
    requires Spent(s, id) && !FiresAt(s, ev, id) && !(ev.Resume? && ev.id == id)
    ensures Spent(Step(s, ev, nr), id)
  {
    if !ev.Poll? {
      SpentStep(s, ev, id, nr);
    } else if IsActive(s, id) {
      StepKeeps(s, ev, nr);
      var e :| e in s.inFlight && e.task.id == id && e.task.schedule == ONCE;
      PolledExecutions(s, ev.now, id, nr);
      assert e in Polled(s, ev.now, nr).inFlight;
    } else {
      InactiveIsSpent(s, ev, id, nr);
    }
  }

  lemma {:induction false} SpentFiresNoMore(s: State, evs: seq<Event>, id: string, nr: NextRunFn)
    requires Spent(s, id) && FiresIdle(s, evs, id, nr) && NoResume(evs, id)
    ensures Firings(s, evs, id, nr) == []
    decreases |evs|
  {
    hide Step, Fires;
    if evs != [] {
      var ev := evs[0];
      if FiresAt(s, ev, id) {
        NotDueWhenInactive(s, id);
        assert false;
      }
      hide Spent;
      SpentStays(s, ev, id, nr);
      NoResumeTail(evs, id);
      SpentFiresNoMore(Step(s, ev, nr), evs[1..], id, nr);
    }
  }

  lemma {:induction false} OnceFiresIdleOnce(s: State, evs: seq<Event>, id: string, nr: NextRunFn)
    requires WellFormed(s) && id in s.tasks && s.tasks[id].schedule == ONCE
    requires FiresIdle(s, evs, id, nr) && NoResume(evs, id)
    ensures |Firings(s, evs, id, nr)| <= 1
    decreases |evs|
  {
    hide WellFormed, Step, Fires, Idle;
    if evs != [] {
      StepKeeps(s, evs[0], nr);
      NoResumeTail(evs, id);
      if FiresAt(s, evs[0], id) {
        OncePollSpends(s, evs[0].now, id, nr);
        SpentFiresNoMore(Step(s, evs[0], nr), evs[1..], id, nr);
      } else {
        OnceFiresIdleOnce(Step(s, evs[0], nr), evs[1..], id, nr);
      }
    }
  }

  /**
   Over all runs without a resume, from an idle state: a task stored as "@once" fires at most once exactly when no poll
   fires it while its execution is in flight.
   */
  lemma OnceAtMostOnceIff(s: State, evs: seq<Event>, id: string, nr: NextRunFn)
    requires WellFormed(s) && id in s.tasks && s.tasks[id].schedule == ONCE && Idle(s, id) && NoResume(evs, id)
    ensures |Firings(s, evs, id, nr)| <= 1 <==> FiresIdle(s, evs, id, nr)
  {
    if FiresIdle(s, evs, id, nr) {
      OnceFiresIdleOnce(s, evs, id, nr);
    }
    if |Firings(s, evs, id, nr)| <= 1 {
      AtMostOneFiresIdle(s, evs, id, nr);
    }
  }

  /** Without a pause or cancel either, exactly when its execution completes before the next poll. */
  lemma OnceAtMostOnceIffSerial(s: State, evs: seq<Event>, id: string, t: Time, nr: NextRunFn)
    requires WellFormed(s) && id in s.tasks && s.tasks[id].schedule == ONCE && Idle(s, id)
    requires Clock(evs, t) && Undisturbed(evs, id)
    ensures |Firings(s, evs, id, nr)| <= 1 <==> Serial(s, evs, id, nr)
  {
    assert NoResume(evs, id) && NoOverlap(s, id) && BusyIsDue(s, id, t);
    OnceAtMostOnceIff(s, evs, id, nr);
    NeverOverlapsIff(s, evs, id, nr);
    NeverOverlapsIffSerial(s, evs, id, t, nr);
  }
}
