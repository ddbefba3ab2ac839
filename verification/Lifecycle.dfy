/**
 Start, Stop and the executions of the scheduler as threads that interleave freely: one Start, any number of Stop
 calls, a mutex around the quit channel and the ticker, and a wait group.
 */
module Lifecycle {
  /** Where Start is. `Spawning(n)` still has n due tasks to start; `Added(n)` has called Add for one of them. */
  datatype StartPc =
    | NotStarted
    | SettingTicker
    | Querying
    | Spawning(left: nat)
    | Added(left: nat)
    | Selecting
    | CtxLocking
    | CtxLocked
    | Draining
    | Returned

  /** Where one Stop call is; `Locked`, `Closing` and `Unlocking` hold the mutex. */
  datatype StopPc = Locking | Locked | Closing | Unlocking | Waiting | StopReturned

  datatype Owner = Nobody | Starter | Stopper(k: nat)

  /** `closes` counts executed close(quit) calls and `started` all executions ever started. */
  datatype State = State(
    start: StartPc, stops: map<nat, StopPc>, mutex: Owner, closes: nat, ctxDone: bool, wg: int, running: set<nat>,
    started: nat)

  const INIT := State(NotStarted, map[], Nobody, 0, false, 0, {}, 0)

  datatype Action =
    | BeginStart | SetTicker | Query(due: nat) | Add | Go | EndPoll
    | Tick | SeeQuit | SeeCtx | LockCtx | StopTicker | ReturnStart
    | CancelCtx | Finish(execution: nat)
    | CallStop(k: nat) | LockStop(k: nat) | SeeClosed(k: nat) | SeeOpen(k: nat) | Close(k: nat) | Unlock(k: nat)
    | ReturnStop(k: nat)

  predicate StopIs(s: State, k: nat, pc: StopPc) {
    k in s.stops && s.stops[k] == pc
  }

  /** The guard of each atomic step. */
  predicate Enabled(s: State, a: Action) {
    match a
    case BeginStart => s.start.NotStarted? && s.mutex.Nobody?
    case SetTicker => s.start.SettingTicker?
    case Query(_) => s.start.Querying?
    case Add => s.start.Spawning? && s.start.left > 0
    case Go => s.start.Added? && s.start.left > 0
    case EndPoll => s.start.Spawning? && s.start.left == 0
    case Tick => s.start.Selecting?
    case SeeQuit => s.start.Selecting? && s.closes > 0
    case SeeCtx => s.start.Selecting? && s.ctxDone
    case LockCtx => s.start.CtxLocking? && s.mutex.Nobody?
    case StopTicker => s.start.CtxLocked?
    case ReturnStart => s.start.Draining? && s.wg == 0
    case CancelCtx => true
    case Finish(e) => e in s.running
    case CallStop(k) => k !in s.stops
    case LockStop(k) => StopIs(s, k, Locking) && s.mutex.Nobody?
    case SeeClosed(k) => StopIs(s, k, Locked) && s.closes > 0
    case SeeOpen(k) => StopIs(s, k, Locked) && s.closes == 0
    case Close(k) => StopIs(s, k, Closing)
    case Unlock(k) => StopIs(s, k, Unlocking)
    case ReturnStop(k) => StopIs(s, k, Waiting) && s.wg == 0
  }

  function Apply(s: State, a: Action): State
    requires Enabled(s, a)
  {
    match a
    case BeginStart => s.(start := SettingTicker, mutex := Starter)
    case SetTicker => s.(start := Querying, mutex := Nobody)
    case Query(due) => s.(start := Spawning(due))
    case Add => s.(start := Added(s.start.left), wg := s.wg + 1)
    case Go => s.(start := Spawning(s.start.left - 1), running := s.running + {s.started}, started := s.started + 1)
    case EndPoll => s.(start := Selecting)
    case Tick => s.(start := Querying)
    case SeeQuit => s.(start := Draining)
    case SeeCtx => s.(start := CtxLocking)
    case LockCtx => s.(start := CtxLocked, mutex := Starter)
    case StopTicker => s.(start := Draining, mutex := Nobody)
    case ReturnStart => s.(start := Returned)
    case CancelCtx => s.(ctxDone := true)
    case Finish(e) => s.(running := s.running - {e}, wg := s.wg - 1)
    case CallStop(k) => s.(stops := s.stops[k := Locking])
    case LockStop(k) => s.(stops := s.stops[k := Locked], mutex := Stopper(k))
    case SeeClosed(k) => s.(stops := s.stops[k := Unlocking])
    case SeeOpen(k) => s.(stops := s.stops[k := Closing])
    case Close(k) => s.(stops := s.stops[k := Unlocking], closes := s.closes + 1)
    case Unlock(k) => s.(stops := s.stops[k := Waiting], mutex := Nobody)
    case ReturnStop(k) => s.(stops := s.stops[k := StopReturned])
  }

  /** The actions can be taken one after the other. */
  predicate CanRun(s: State, acts: seq<Action>)
    decreases |acts|
  {
    acts == [] || (Enabled(s, acts[0]) && CanRun(Apply(s, acts[0]), acts[1..]))
  }

  function Run(s: State, acts: seq<Action>): State
    requires CanRun(s, acts)
    decreases |acts|
  {
    if acts == [] then s else Run(Apply(s, acts[0]), acts[1..])
  }

  // ---------------------------------------------------------------------------
  // The invariant
  // ---------------------------------------------------------------------------

  predicate HoldsMutex(pc: StopPc) {
    pc in {Locked, Closing, Unlocking}
  }

  ghost predicate MutexAgrees(s: State) {
    && (s.mutex.Starter? <==> s.start.SettingTicker? || s.start.CtxLocked?)
    && (forall k :: k in s.stops ==> (s.mutex == Stopper(k) <==> HoldsMutex(s.stops[k])))
    && (s.mutex.Stopper? ==> s.mutex.k in s.stops)
  }

  /** The wait group counts the executions in flight, plus the one that has been added but not yet started. */
  ghost predicate WaitGroupAgrees(s: State) {
    && s.wg == |s.running| + (if s.start.Added? then 1 else 0)
    && (s.start.Added? ==> s.start.left > 0)
    && (forall e :: e in s.running ==> e < s.started)
    && (s.start.Returned? ==> s.running == {})
  }

  predicate IsPastClose(pc: StopPc) {
    pc in {Unlocking, Waiting, StopReturned}
  }

  /** Quit is closed at most once, and every Stop call that is past the close finds it closed. */
  ghost predicate QuitAgrees(s: State) {
    && s.closes <= 1
    && (forall k :: k in s.stops && s.stops[k].Closing? ==> s.closes == 0)
    && (forall k :: k in s.stops && IsPastClose(s.stops[k]) ==> s.closes > 0)
  }

  ghost predicate Inv(s: State) {
    MutexAgrees(s) && WaitGroupAgrees(s) && QuitAgrees(s)
  }

  lemma InitInv()
    ensures Inv(INIT)
  {
  }

  lemma StepMutex(s: State, a: Action)
    requires Inv(s) && Enabled(s, a)
    ensures MutexAgrees(Apply(s, a))
  {
  }

  lemma StepWaitGroup(s: State, a: Action)
    requires WaitGroupAgrees(s) && Enabled(s, a)
    ensures WaitGroupAgrees(Apply(s, a))
  {
    if a.Go? {
      assert s.started !in s.running;
    }
  }

  lemma StepQuit(s: State, a: Action)
    requires Inv(s) && Enabled(s, a)
    ensures QuitAgrees(Apply(s, a))
  {
  }

  /** Over all interleavings: the wait group is exact, and quit is closed at most once. */
  lemma {:induction false} RunsKeepInvariant(s: State, acts: seq<Action>)
    requires Inv(s) && CanRun(s, acts)
    ensures Inv(Run(s, acts))
    decreases |acts|
  {
    hide MutexAgrees, WaitGroupAgrees, QuitAgrees, Enabled, Apply;
    if acts != [] {
      StepMutex(s, acts[0]);
      StepWaitGroup(s, acts[0]);
      StepQuit(s, acts[0]);
      RunsKeepInvariant(Apply(s, acts[0]), acts[1..]);
    }
  }

  lemma ShutdownInvariant(acts: seq<Action>)
    requires CanRun(INIT, acts)
    ensures var s := Run(INIT, acts);
            && s.closes <= 1
            && s.wg == |s.running| + (if s.start.Added? then 1 else 0)
            && (s.start.Returned? ==> s.running == {} && s.wg == 0)
  {
    InitInv();
    RunsKeepInvariant(INIT, acts);
    hide Run, CanRun;
  }

  /** When a Stop call returns, nothing is in flight or about to be started at that instant. */
  lemma StopWaitsForAll(acts: seq<Action>, k: nat)
    requires CanRun(INIT, acts) && Enabled(Run(INIT, acts), ReturnStop(k))
    ensures Run(INIT, acts).running == {} && !Run(INIT, acts).start.Added?
  {
    InitInv();
    RunsKeepInvariant(INIT, acts);
    hide Run, CanRun;
  }

  // ---------------------------------------------------------------------------
  // When nothing starts any more
  // ---------------------------------------------------------------------------

  /** Start has left its loop. */
  predicate HasLeftLoop(s: State) {
    s.start.CtxLocking? || s.start.CtxLocked? || s.start.Draining? || s.start.Returned?
  }

  lemma {:induction false} NothingStartsAfterLoop(s: State, acts: seq<Action>)
    requires HasLeftLoop(s) && CanRun(s, acts)
    ensures HasLeftLoop(Run(s, acts)) && Run(s, acts).started == s.started
    ensures s.start.Returned? ==> Run(s, acts).start.Returned?
    decreases |acts|
  {
    if acts != [] {
      NothingStartsAfterLoop(Apply(s, acts[0]), acts[1..]);
    }
  }

  /** Once Start has returned nothing is in flight and nothing ever starts again. */
  lemma ReturnedIsFinal(acts: seq<Action>, more: seq<Action>)
    requires CanRun(INIT, acts) && Run(INIT, acts).start.Returned?
    requires CanRun(Run(INIT, acts), more)
    ensures var s := Run(Run(INIT, acts), more);
            s.running == {} && s.wg == 0 && s.started == Run(INIT, acts).started
  {
    hide Run, CanRun, Enabled, Apply;
    var s := Run(INIT, acts);
    InitInv();
    RunsKeepInvariant(INIT, acts);
    RunsKeepInvariant(s, more);
    NothingStartsAfterLoop(s, more);
  }

  /** Start leaves its loop only after quit has been closed or the context cancelled. */
  lemma {:induction false} LeavesOnlyOnSignal(s: State, acts: seq<Action>)
    requires CanRun(s, acts) && (HasLeftLoop(s) ==> s.closes > 0 || s.ctxDone)
    ensures var s' := Run(s, acts); HasLeftLoop(s') ==> s'.closes > 0 || s'.ctxDone
    decreases |acts|
  {
    if acts != [] {
      LeavesOnlyOnSignal(Apply(s, acts[0]), acts[1..]);
    }
  }

  /** No run from `s` starts an execution. */
  ghost predicate QuietForever(s: State) {
    forall acts :: CanRun(s, acts) ==> Run(s, acts).started == s.started
  }

  lemma {:induction false} RunAppend(s: State, a: seq<Action>, b: seq<Action>)
    requires CanRun(s, a) && CanRun(Run(s, a), b)
    ensures CanRun(s, a + b) && Run(s, a + b) == Run(Run(s, a), b)
    decreases |a|
  {
    hide Enabled, Apply;
    if a == [] {
      assert a + b == b;
    } else {
      assert (a + b)[1..] == a[1..] + b;
      RunAppend(Apply(s, a[0]), a[1..], b);
    }
  }

  lemma RunOne(s: State, a: Action)
    requires Enabled(s, a)
    ensures CanRun(s, [a]) && Run(s, [a]) == Apply(s, a)
  {
    hide Enabled, Apply;
    assert [a][1..] == [];
    assert CanRun(Apply(s, a), []);
  }

  /** Take `a`, then `rest`. */
  lemma Prepend(s: State, a: Action, rest: seq<Action>)
    requires Enabled(s, a) && CanRun(Apply(s, a), rest)
    ensures CanRun(s, [a] + rest) && Run(s, [a] + rest) == Run(Apply(s, a), rest)
  {
    RunOne(s, a);
    RunAppend(s, [a], rest);
  }

  /** How far Start is from starting an execution. */
  function Distance(pc: StartPc): nat {
    match pc
    case Added(_) => 0
    case Spawning(left) => if left > 0 then 1 else 4
    case Querying => 2
    case Selecting => 3
    case SettingTicker => 5
    case NotStarted => 6
    case _ => 0
  }

  /** The next step of a Start that is still in its loop, when it has the mutex it needs. */
  function Towards(pc: StartPc): Action {
    match pc
    case NotStarted => BeginStart
    case SettingTicker => SetTicker
    case Querying => Query(1)
    case Spawning(left) => if left > 0 then Add else EndPoll
    case _ => Tick
  }

  /** A Start that is in its loop, or has not begun, can still start an execution. */
  lemma {:induction false} CanStillStart(s: State) returns (acts: seq<Action>)
    requires Inv(s) && !HasLeftLoop(s)
    requires s.start.NotStarted? ==> s.mutex.Nobody?
    ensures CanRun(s, acts) && Run(s, acts).started > s.started
    decreases Distance(s.start)
  {
    if s.start.Added? {
      acts := [Go];
      RunOne(s, Go);
    } else {
      var a := Towards(s.start);
      StepMutex(s, a);
      StepWaitGroup(s, a);
      StepQuit(s, a);
      var rest := CanStillStart(Apply(s, a));
      acts := [a] + rest;
      Prepend(s, a, rest);
    }
  }

  /** A Stop call that holds the mutex can release it. */
  lemma {:induction false} CanFreeMutex(s: State, k: nat) returns (acts: seq<Action>)
    requires Inv(s) && s.mutex == Stopper(k)
    ensures CanRun(s, acts)
    ensures var s' := Run(s, acts); s'.mutex.Nobody? && s'.start == s.start && s'.started == s.started && Inv(s')
    decreases if s.stops[k].Locked? then 2 else if s.stops[k].Closing? then 1 else 0
  {
    var a := match s.stops[k]
      case Locked => if s.closes > 0 then SeeClosed(k) else SeeOpen(k)
      case Closing => Close(k)
      case _ => Unlock(k);
    StepMutex(s, a);
    StepWaitGroup(s, a);
    StepQuit(s, a);
    if a.Unlock? {
      acts := [a];
      RunOne(s, a);
    } else {
      var rest := CanFreeMutex(Apply(s, a), k);
      acts := [a] + rest;
      Prepend(s, a, rest);
    }
  }

  /** Nothing starts any more exactly when Start has left its loop; a returned Stop is not enough. */
  lemma QuietIffLeftLoop(s: State)
    requires Inv(s)
    ensures QuietForever(s) <==> HasLeftLoop(s)
  {
    if HasLeftLoop(s) {
      forall acts | CanRun(s, acts)
        ensures Run(s, acts).started == s.started
      {
        NothingStartsAfterLoop(s, acts);
      }
    } else if s.start.NotStarted? && s.mutex.Stopper? {
      var free := CanFreeMutex(s, s.mutex.k);
      var more := CanStillStart(Run(s, free));
      RunAppend(s, free, more);
      assert CanRun(s, free + more);
    } else {
      var acts := CanStillStart(s);
      assert CanRun(s, acts);
    }
  }

  /** A Stop call can return while Start is still in its loop, so that an execution starts after the return. */
  lemma StopMayReturnBeforeAnExecution() returns (acts: seq<Action>)
    ensures CanRun(INIT, acts)
    ensures var s := Run(INIT, acts); StopIs(s, 0, StopReturned) && !QuietForever(s)
  {
    var first := [BeginStart, SetTicker, Query(0), EndPoll];
    var second := [CallStop(0), LockStop(0), SeeOpen(0), Close(0), Unlock(0), ReturnStop(0)];
    var s1 := State(Selecting, map[], Nobody, 0, false, 0, {}, 0);
    var s2 := WithStop(StopReturned, Nobody, 1);
    assert CanRun(INIT, first) && Run(INIT, first) == s1 by {
      IdlePoll();
    }
    assert CanRun(s1, second) && Run(s1, second) == s2 by {
      StopAlone();
    }
    hide CanRun, Run;
    RunAppend(INIT, first, second);
    acts := first + second;
    InitInv();
    RunsKeepInvariant(INIT, acts);
    QuietIffLeftLoop(s2);
  }

  lemma IdlePoll()
    ensures var acts := [BeginStart, SetTicker, Query(0), EndPoll];
            CanRun(INIT, acts) && Run(INIT, acts) == State(Selecting, map[], Nobody, 0, false, 0, {}, 0)
  {
    var a := INIT;
    var b := Apply(a, BeginStart);
    var c := Apply(b, SetTicker);
    var d := Apply(c, Query(0));
    RunOne(d, EndPoll);
    Prepend(c, Query(0), [EndPoll]);
    Prepend(b, SetTicker, [Query(0)] + [EndPoll]);
    Prepend(a, BeginStart, [SetTicker] + ([Query(0)] + [EndPoll]));
    assert [BeginStart] + ([SetTicker] + ([Query(0)] + [EndPoll])) == [BeginStart, SetTicker, Query(0), EndPoll];
  }

  /** Start is selecting and Stop call 0 is at `pc`. */
  function WithStop(pc: StopPc, mutex: Owner, closes: nat): State {
    State(Selecting, map[0 := pc], mutex, closes, false, 0, {}, 0)
  }

  /** Stop call 0 moves from `pc` to `next` by `a`. */
  ghost predicate StopMoves(pc: StopPc, mutex: Owner, closes: nat, a: Action, next: State) {
    Enabled(WithStop(pc, mutex, closes), a) && Apply(WithStop(pc, mutex, closes), a) == next
  }

  lemma StopCalls()
    ensures var a := State(Selecting, map[], Nobody, 0, false, 0, {}, 0);
            Enabled(a, CallStop(0)) && Apply(a, CallStop(0)) == WithStop(Locking, Nobody, 0)
  {
  }

  lemma StopLocks()
    ensures StopMoves(Locking, Nobody, 0, LockStop(0), WithStop(Locked, Stopper(0), 0))
    ensures StopMoves(Locked, Stopper(0), 0, SeeOpen(0), WithStop(Closing, Stopper(0), 0))
  {
    assert map[0 := Locking][0 := Locked] == map[0 := Locked];
    assert map[0 := Locked][0 := Closing] == map[0 := Closing];
  }

  lemma StopCloses()
    ensures StopMoves(Closing, Stopper(0), 0, Close(0), WithStop(Unlocking, Stopper(0), 1))
    ensures StopMoves(Unlocking, Stopper(0), 1, Unlock(0), WithStop(Waiting, Nobody, 1))
    ensures StopMoves(Waiting, Nobody, 1, ReturnStop(0), WithStop(StopReturned, Nobody, 1))
  {
    assert map[0 := Closing][0 := Unlocking] == map[0 := Unlocking];
    assert map[0 := Unlocking][0 := Waiting] == map[0 := Waiting];
    assert map[0 := Waiting][0 := StopReturned] == map[0 := StopReturned];
  }

  lemma StopAlone()
    ensures var s := State(Selecting, map[], Nobody, 0, false, 0, {}, 0);
            var acts := [CallStop(0), LockStop(0), SeeOpen(0), Close(0), Unlock(0), ReturnStop(0)];
            && CanRun(s, acts)
            && Run(s, acts) == WithStop(StopReturned, Nobody, 1)
  {
    hide Enabled, Apply, WithStop, CanRun, Run;
    StopCalls();
    StopLocks();
    StopCloses();
    RunOne(WithStop(Waiting, Nobody, 1), ReturnStop(0));
    var last := [ReturnStop(0)];
    Prepend(WithStop(Unlocking, Stopper(0), 1), Unlock(0), last);
    Prepend(WithStop(Closing, Stopper(0), 0), Close(0), [Unlock(0)] + last);
    Prepend(WithStop(Locked, Stopper(0), 0), SeeOpen(0), [Close(0)] + ([Unlock(0)] + last));
    Prepend(WithStop(Locking, Nobody, 0), LockStop(0), [SeeOpen(0)] + ([Close(0)] + ([Unlock(0)] + last)));
    Prepend(State(Selecting, map[], Nobody, 0, false, 0, {}, 0), CallStop(0),
            [LockStop(0)] + ([SeeOpen(0)] + ([Close(0)] + ([Unlock(0)] + last))));
    assert [CallStop(0)] + ([LockStop(0)] + ([SeeOpen(0)] + ([Close(0)] + ([Unlock(0)] + last))))
           == [CallStop(0), LockStop(0), SeeOpen(0), Close(0), Unlock(0), ReturnStop(0)];
  }

  // ---------------------------------------------------------------------------
  // No deadlock
  // ---------------------------------------------------------------------------

  /** A step of Start, of a Stop call or of an execution, as opposed to a new call or a cancellation from outside. */
  predicate IsInternal(a: Action) {
    !a.BeginStart? && !a.CancelCtx? && !a.CallStop?
  }

  /** An internal step other than one more tick. */
  predicate IsShutdownStep(a: Action) {
    IsInternal(a) && !a.Tick?
  }

  /** Start or some Stop call is under way. */
  ghost predicate Pending(s: State) {
    (!s.start.NotStarted? && !s.start.Returned?) || exists k :: k in s.stops && !s.stops[k].StopReturned?
  }

  /** The owner of the mutex can always take a step. */
  lemma OwnerCanStep(s: State) returns (a: Action)
    requires MutexAgrees(s) && !s.mutex.Nobody?
    ensures IsShutdownStep(a) && Enabled(s, a)
  {
    if s.mutex.Starter? {
      a := if s.start.SettingTicker? then SetTicker else StopTicker;
    } else {
      var k := s.mutex.k;
      a := match s.stops[k]
        case Locked => if s.closes > 0 then SeeClosed(k) else SeeOpen(k)
        case Closing => Close(k)
        case _ => Unlock(k);
    }
  }

  /** With a positive wait group and no execution about to start, some execution can finish. */
  lemma SomeoneRuns(s: State) returns (a: Action)
    requires WaitGroupAgrees(s) && s.wg != 0 && !s.start.Added?
    ensures IsShutdownStep(a) && Enabled(s, a)
  {
    assert |s.running| > 0;
    var e :| e in s.running;
    a := Finish(e);
  }

  lemma StartCanStep(s: State) returns (a: Action)
    requires Inv(s) && !s.start.NotStarted? && !s.start.Returned?
    ensures IsInternal(a) && Enabled(s, a)
    ensures a.Tick? ==> s.start.Selecting?
  {
    match s.start
    case SettingTicker => a := SetTicker;
    case Querying => a := Query(0);
    case Spawning(left) => a := if left > 0 then Add else EndPoll;
    case Added(_) => a := Go;
    case Selecting => a := Tick;
    case CtxLocking =>
      if s.mutex.Nobody? {
        a := LockCtx;
      } else {
        a := OwnerCanStep(s);
      }
    case CtxLocked => a := StopTicker;
    case _ =>
      if s.wg == 0 {
        a := ReturnStart;
      } else {
        a := SomeoneRuns(s);
      }
  }

  lemma StopCanStep(s: State, k: nat) returns (a: Action)
    requires Inv(s) && k in s.stops && !s.stops[k].StopReturned?
    requires s.start.NotStarted? || s.start.Returned?
    ensures IsShutdownStep(a) && Enabled(s, a)
  {
    if s.stops[k].Locking? && s.mutex.Nobody? {
      a := LockStop(k);
    } else if s.stops[k].Waiting? {
      if s.wg == 0 {
        a := ReturnStop(k);
      } else {
        a := SomeoneRuns(s);
      }
    } else {
      a := OwnerCanStep(s);
    }
  }

  // ---------------------------------------------------------------------------
  // Shutting down
  // ---------------------------------------------------------------------------

  /** Stop has been called, or the context cancelled. */
  predicate ShuttingDown(s: State) {
    s.stops != map[] || s.ctxDone
  }

  /** Every Stop call has returned, and so has Start if it was ever called. */
  ghost predicate AllReturned(s: State) {
    && (forall k :: k in s.stops ==> s.stops[k].StopReturned?)
    && (s.start.NotStarted? || s.start.Returned?)
  }

  /** A Start that waits for a tick can see the quit channel or the context, or a Stop call can go on to close it. */
  lemma SelectingCanLeave(s: State) returns (a: Action)
    requires Inv(s) && ShuttingDown(s) && s.start.Selecting?
    ensures IsShutdownStep(a) && Enabled(s, a)
  {
    if s.closes > 0 {
      a := SeeQuit;
    } else if s.ctxDone {
      a := SeeCtx;
    } else if s.mutex.Nobody? {
      var k :| k in s.stops;
      a := LockStop(k);
    } else {
      a := OwnerCanStep(s);
    }
  }

  /** Until all have returned a step other than a tick is possible: mutex and wait group do not deadlock. */
  lemma ShutdownNeverStuck(s: State) returns (a: Action)
    requires Inv(s) && ShuttingDown(s) && !AllReturned(s)
    ensures IsShutdownStep(a) && Enabled(s, a)
  {
    if s.start.Selecting? {
      a := SelectingCanLeave(s);
    } else if !s.start.NotStarted? && !s.start.Returned? {
      a := StartCanStep(s);
    } else {
      var k :| k in s.stops && !s.stops[k].StopReturned?;
      a := StopCanStep(s, k);
    }
  }

  /**
   While Start or a Stop call is under way some internal step is possible and, once Stop has been called or the context
   cancelled, a step other than a tick.
   */
  lemma NeverStuck(acts: seq<Action>) returns (a: Action)
    requires CanRun(INIT, acts) && Pending(Run(INIT, acts))
    ensures IsInternal(a) && Enabled(Run(INIT, acts), a)
    ensures ShuttingDown(Run(INIT, acts)) ==> !a.Tick?
  {
    InitInv();
    RunsKeepInvariant(INIT, acts);
    var s := Run(INIT, acts);
    hide Run, CanRun;
    if ShuttingDown(s) {
      a := ShutdownNeverStuck(s);
    } else {
      a := StartCanStep(s);
    }
  }

  function Unsettled(s: State): set<nat> {
    set k | k in s.stops && !s.stops[k].Waiting? && !s.stops[k].StopReturned?
  }

  function AtWait(s: State): set<nat> {
    set k | k in s.stops && s.stops[k].Waiting?
  }

  /** How many phases Start still has before it returns, if it does not tick again. */
  function Phase(pc: StartPc): nat {
    match pc
    case NotStarted => 9
    case SettingTicker => 8
    case Querying => 7
    case Spawning(_) => 6
    case Added(_) => 6
    case Selecting => 5
    case CtxLocking => 4
    case CtxLocked => 3
    case Draining => 2
    case Returned => 1
  }

  function SpawnsLeft(pc: StartPc): nat {
    match pc
    case Spawning(left) => 2 * left + 1
    case Added(left) => 2 * left
    case _ => 0
  }

  /** How long the mutex is still held; 4 when no Stop call holds it. */
  function HoldLeft(s: State): nat {
    if s.mutex.Stopper? && s.mutex.k in s.stops then
      match s.stops[s.mutex.k]
      case Locked => 3
      case Closing => 2
      case _ => 1
    else 4
  }

  /** `s'` is nearer to the end of the shutdown than `s`, lexicographically. */
  predicate Nearer(s': State, s: State) {
    var (u', p', n', h', r', w') := Remaining(s');
    var (u, p, n, h, r, w) := Remaining(s);
    u' < u || (u' == u &&
    (p' < p || (p' == p &&
    (n' < n || (n' == n &&
    (h' < h || (h' == h &&
    (r' < r || (r' == r &&
    w' < w)))))))))
  }

  function Remaining(s: State): (nat, nat, nat, nat, nat, nat) {
    (|Unsettled(s)|, Phase(s.start), SpawnsLeft(s.start), HoldLeft(s), |s.running|, |AtWait(s)|)
  }

  /** A step of a Stop call. */
  predicate IsStopStep(a: Action) {
    a.LockStop? || a.SeeClosed? || a.SeeOpen? || a.Close? || a.Unlock? || a.ReturnStop?
  }

  /** What a step does to the Stop calls that have not come to wait, and to those that wait. */
  lemma StopSets(s: State, a: Action)
    requires Enabled(s, a) && !a.CallStop?
    ensures Unsettled(Apply(s, a)) == if a.Unlock? then Unsettled(s) - {a.k} else Unsettled(s)
    ensures a.Unlock? ==> a.k in Unsettled(s)
    ensures !a.Unlock? ==> AtWait(Apply(s, a)) == if a.ReturnStop? then AtWait(s) - {a.k} else AtWait(s)
    ensures a.ReturnStop? ==> a.k in AtWait(s)
  {
    if !IsStopStep(a) {
      assert Apply(s, a).stops == s.stops;
      hide Apply;
    }
  }

  lemma StopStepNearer(s: State, a: Action)
    requires Inv(s) && Enabled(s, a) && IsStopStep(a)
    ensures Nearer(Apply(s, a), s)
  {
    StopSets(s, a);
    StopStepKeeps(s, a);
    HoldShrinks(s, a);
    hide Unsettled, AtWait, HoldLeft, Phase, SpawnsLeft, Apply, Enabled, Inv;
  }

  lemma StopStepKeeps(s: State, a: Action)
    requires Enabled(s, a) && IsStopStep(a)
    ensures Apply(s, a).start == s.start && Apply(s, a).running == s.running
  {
  }

  /** A Stop call takes the mutex, or moves on towards releasing it. */
  lemma HoldShrinks(s: State, a: Action)
    requires Inv(s) && Enabled(s, a) && IsStopStep(a)
    ensures !a.Unlock? && !a.ReturnStop? ==> HoldLeft(Apply(s, a)) < HoldLeft(s)
    ensures a.ReturnStop? ==> HoldLeft(Apply(s, a)) == HoldLeft(s)
  {
    hide WaitGroupAgrees, QuitAgrees;
  }

  lemma StartStepNearer(s: State, a: Action)
    requires Enabled(s, a) && IsShutdownStep(a) && !IsStopStep(a) && !a.Finish?
    ensures var pc, pc' := s.start, Apply(s, a).start;
            Phase(pc') < Phase(pc) || (Phase(pc') == Phase(pc) && SpawnsLeft(pc') < SpawnsLeft(pc))
  {
  }

  lemma FinishNearer(s: State, a: Action)
    requires Enabled(s, a) && a.Finish?
    ensures var s' := Apply(s, a);
            s'.start == s.start && s'.stops == s.stops && s'.mutex == s.mutex && |s'.running| < |s.running|
  {
  }

  /** Every internal step other than a tick, by whichever thread, brings the shutdown nearer to its end. */
  lemma EveryStepNearer(s: State, a: Action)
    requires Inv(s) && Enabled(s, a) && IsShutdownStep(a)
    ensures Nearer(Apply(s, a), s)
  {
    StopSets(s, a);
    hide Inv, Unsettled, AtWait, Phase, SpawnsLeft, Apply, Enabled;
    if IsStopStep(a) {
      StopStepNearer(s, a);
    } else if a.Finish? {
      FinishNearer(s, a);
    } else {
      StartStepNearer(s, a);
      hide HoldLeft;
    }
  }

  /** Whatever steps other than ticks have been taken already, others lead to the end. */
  lemma {:induction false} ShutdownCompletes(s: State) returns (acts: seq<Action>)
    requires Inv(s) && ShuttingDown(s)
    ensures CanRun(s, acts) && AllReturned(Run(s, acts))
    ensures forall i :: 0 <= i < |acts| ==> IsShutdownStep(acts[i])
    decreases |Unsettled(s)|, Phase(s.start), SpawnsLeft(s.start), HoldLeft(s), |s.running|, |AtWait(s)|
  {
    acts := [];
    if !AllReturned(s) {
      var a := ShutdownNeverStuck(s);
      EveryStepNearer(s, a);
      StepMutex(s, a);
      StepWaitGroup(s, a);
      StepQuit(s, a);
      StillShuttingDown(s, a);
      hide Unsettled, AtWait, Phase, SpawnsLeft, HoldLeft, Enabled, Apply, MutexAgrees, WaitGroupAgrees, QuitAgrees;
      hide AllReturned, ShuttingDown, IsShutdownStep;
      var rest := ShutdownCompletes(Apply(s, a));
      acts := [a] + rest;
      Prepend(s, a, rest);
    }
  }

  lemma StillShuttingDown(s: State, a: Action)
    requires ShuttingDown(s) && Enabled(s, a)
    ensures ShuttingDown(Apply(s, a))
  {
  }

  /**
   From every reachable state in which Stop has been called or the context cancelled, every Stop call and Start can
   return without a new call from outside and without another tick.
   */
  lemma EveryStopCanReturn(before: seq<Action>) returns (acts: seq<Action>)
    requires CanRun(INIT, before) && ShuttingDown(Run(INIT, before))
    ensures CanRun(Run(INIT, before), acts) && AllReturned(Run(Run(INIT, before), acts))
    ensures forall i :: 0 <= i < |acts| ==> IsShutdownStep(acts[i])
  {
    InitInv();
    RunsKeepInvariant(INIT, before);
    acts := ShutdownCompletes(Run(INIT, before));
  }
}
