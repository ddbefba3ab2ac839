/** The scheduler's run theorems for the repository's own `nextRun`. */
module ScheduleInstances {
  import opened Wrappers
  import opened Strings
  import opened CronField
  import opened CronSearch
  import opened Schedule
  import opened Scheduler
  import opened SchedulerRuns
  import opened SchedulerAnyRuns
  import opened SchedulerRecords
  import Calendar

  /** `nextRun` as a function of schedule and start. */
  function Actual(go: GoDuration): NextRunFn {
    (schedule: string, from: Time) => NextRun(schedule, from, go)
  }

  /** A five-field text that is neither "@once" nor "@every" is a cron task with the minutes of its fields. */
  lemma CronTexts(schedule: string, pc: ParsedCron, go: GoDuration)
    requires IsCron(schedule, pc)
    ensures IsCronTask(schedule, Minutes(pc), Actual(go))
  {
    hide NextRun, CronAnswer;
    forall from
      ensures NextRun(schedule, from, go) == CronAnswer(Minutes(pc), from)
    {
      NextRunOfCron(schedule, pc, from, go);
    }
    OnceText();
    hide TrimSpace, ParseExpr;
  }

  lemma OnceText()
    ensures TrimSpace(ONCE) == ONCE
  {
    TrimIsIdentity(ONCE);
  }

  /** An "@every d" text with a positive duration is a task with that interval. */
  lemma EveryTexts(schedule: string, d: int, go: GoDuration)
    requires IsEvery(schedule, d, go)
    ensures IsEveryTask(schedule, d, Actual(go))
  {
    OnceText();
    forall from
      ensures NextRun(schedule, from, go) == Success(from + d)
    {
      NextRunOfEvery(schedule, d, from, go);
    }
    hide TrimSpace, NextRun, ParseDuration, HasPrefix;
  }

  /** "@every" and a text that `time.ParseDuration` reads as a positive duration is a task with that interval. */
  lemma EveryDurationTexts(schedule: string, text: string, d: int, go: GoDuration)
    requires IsEveryOf(schedule, text) && go(text) == Some(d) && d > 0
    requires text != "" && !IsSpace(text[0]) && !IsSpace(text[|text| - 1]) && text[|text| - 1] !in {'d', 'w'}
    ensures IsEveryTask(schedule, d, Actual(go))
  {
    EveryIsNotOnce(schedule, text);
    EveryDurationFrom(schedule, text, d, go);
    hide NextRun, IsEveryOf, IsSpace;
  }

  lemma EveryDurationFrom(schedule: string, text: string, d: int, go: GoDuration)
    requires IsEveryOf(schedule, text) && go(text) == Some(d) && d > 0
    requires text != "" && !IsSpace(text[0]) && !IsSpace(text[|text| - 1]) && text[|text| - 1] !in {'d', 'w'}
    ensures forall from :: NextRun(schedule, from, go) == Success(from + d)
  {
    hide *;
    forall from
      ensures NextRun(schedule, from, go) == Success(from + d)
    {
      EveryMeansDuration(schedule, text, from, go);
    }
  }

  lemma EveryIsNotOnce(schedule: string, text: string)
    requires IsEveryOf(schedule, text) && text != "" && !IsSpace(text[|text| - 1])
    ensures schedule != ONCE
  {
    var left, gap, right :| AllSpaces(left) && AllSpaces(gap) && AllSpaces(right)
      && schedule == left + ("@every " + gap + text) + right;
    EveryTrims(schedule, left, gap, text, right);
    OnceText();
    hide TrimSpace;
  }

  /** A text that is "@once" once trimmed runs as soon as possible. */
  lemma OnceTexts(schedule: string, go: GoDuration)
    requires TrimSpace(schedule) == ONCE
    ensures IsOnceTask(schedule, Actual(go))
  {
    hide TrimSpace, ParseDuration, NextCron;
  }

  /** A successful next run is never before its start. */
  lemma ActualNeverBefore(go: GoDuration)
    ensures NeverBefore(Actual(go))
  {
    forall schedule, from | NextRun(schedule, from, go).Success?
      ensures from <= NextRun(schedule, from, go).value
    {
      NextRunNotBefore(schedule, from, go);
    }
    hide NextRun;
  }

  lemma NextRunNotBefore(schedule: string, from: Time, go: GoDuration)
    requires NextRun(schedule, from, go).Success?
    ensures from <= NextRun(schedule, from, go).value
  {
    hide TrimSpace, ParseDuration, ParseExpr, NextMatch;
    var s := TrimSpace(schedule);
    if s != ONCE && !HasPrefix(s, EVERY) {
      NextMatchIsLeast(Minutes(ParseExpr(s).value), from);
    }
  }

  /**
   The whole story of a cron task from its insertion at `now`: in a serial run that leaves it undisturbed, a poll fires
   it exactly when one of its minutes lies after its last firing or insertion and not after the poll, or when the search
   from there fails and 30 seconds have passed.
   */
  lemma ScheduledCronFires(
    s: State, id: string, sessionId: string, name: string, schedule: string, prompt: string, now: Time,
    pc: ParsedCron, evs: seq<Event>, p: Time, go: GoDuration)
    requires WellFormed(s) && now > 0 && IsCron(schedule, pc)
    requires Inserted(s, id, sessionId, name, schedule, prompt, now, Actual(go)).1.Success?
    requires var s' := Inserted(s, id, sessionId, name, schedule, prompt, now, Actual(go)).0;
             Clock(evs, now) && Serial(s', evs + [Poll(p)], id, Actual(go)) && Undisturbed(evs, id)
    ensures var s' := Inserted(s, id, sessionId, name, schedule, prompt, now, Actual(go)).0;
            var a := LastFiring(s', evs, id, now, Actual(go));
            Fires(Run(s', evs, Actual(go)), id, p) <==> DueSince(Minutes(pc), a, p)
  {
    ActualNeverBefore(go);
    CronTexts(schedule, pc, go);
    InsertAnchors(s, id, sessionId, name, schedule, prompt, now, Actual(go));
    hide *;
    CronFiresIffMatch(Inserted(s, id, sessionId, name, schedule, prompt, now, Actual(go)).0, evs, p, id, schedule,
                      Minutes(pc), now, Actual(go));
  }

  /**
   The same for every run whatsoever: from a successful Schedule on, a poll fires the task exactly when the last pause,
   resume or cancel has left it active and its minutes are due since the next run was last computed.
   */
  lemma ScheduledCronFiresInAnyRun(
    s: State, id: string, sessionId: string, name: string, schedule: string, prompt: string, now: Time,
    pc: ParsedCron, evs: seq<Event>, p: Time, go: GoDuration)
    requires WellFormed(s) && now > 0 && IsCron(schedule, pc) && Clock(evs, now)
    requires Inserted(s, id, sessionId, name, schedule, prompt, now, Actual(go)).1.Success?
    ensures var s' := Inserted(s, id, sessionId, name, schedule, prompt, now, Actual(go)).0;
            Fires(Run(s', evs, Actual(go)), id, p)
            <==> && LastStatus(evs, id, schedule, Active, Actual(go)) == Active
                 && DueSince(Minutes(pc), LastStored(s', evs, id, schedule, now, Actual(go)), p)
  {
    ActualNeverBefore(go);
    CronTexts(schedule, pc, go);
    InsertStores(s, id, sessionId, name, schedule, prompt, now, Actual(go));
    hide *;
    AnyRunFiresIff(Inserted(s, id, sessionId, name, schedule, prompt, now, Actual(go)).0, evs, p, id, schedule,
                   Minutes(pc), now, now, Actual(go));
  }

  /**
   From a successful Schedule on, after every run: a resume that finds a next run does not let the task catch up exactly
   when all its executions in flight have a next run later than the resume.
   */
  lemma ResumeDoesNotCatchUpIff(
    s: State, id: string, sessionId: string, name: string, schedule: string, prompt: string, now: Time,
    pc: ParsedCron, evs: seq<Event>, r: Time, go: GoDuration)
    requires WellFormed(s) && now > 0 && IsCron(schedule, pc) && Clock(evs + [Resume(id, r)], now)
    requires Inserted(s, id, sessionId, name, schedule, prompt, now, Actual(go)).1.Success?
    requires NextMatch(Minutes(pc), r).Some?
    ensures var s' := Inserted(s, id, sessionId, name, schedule, prompt, now, Actual(go)).0;
            var before := Run(s', evs, Actual(go));
            NoCatchUp(Step(before, Resume(id, r), Actual(go)), id, Minutes(pc), r, Actual(go))
            <==> NothingMissedInFlight(before, id, Minutes(pc), r)
  {
    ActualNeverBefore(go);
    CronTexts(schedule, pc, go);
    InsertStores(s, id, sessionId, name, schedule, prompt, now, Actual(go));
    var s' := Inserted(s, id, sessionId, name, schedule, prompt, now, Actual(go)).0;
    NothingInFlight(s, id, sessionId, name, schedule, prompt, now, Actual(go));
    StartedByRun(s', evs, id, now, r, Actual(go));
    CronIsNotOnce(schedule, Minutes(pc), Actual(go));
    StoredRun(s', evs, id, schedule, now, now, Actual(go));
    var before := Run(s', evs, Actual(go));
    ResumeSucceeds(before, id, schedule, r, Actual(go));
    hide *;
    NoCatchUpIff(before, id, schedule, Minutes(pc), LastStored(s', evs, id, schedule, now, Actual(go)), r, Actual(go));
  }

  lemma NothingInFlight(
    s: State, id: string, sessionId: string, name: string, schedule: string, prompt: string, now: Time, nr: NextRunFn)
    requires WellFormed(s) && Inserted(s, id, sessionId, name, schedule, prompt, now, nr).1.Success?
    ensures var s' := Inserted(s, id, sessionId, name, schedule, prompt, now, nr).0;
            WellFormed(s') && StartedBy(s', id, now)
  {
    hide ScheduleCheck;
    StepKeeps(s, Insert(id, sessionId, name, schedule, prompt, now), nr);
  }

  lemma ResumeSucceeds(s: State, id: string, schedule: string, r: Time, nr: NextRunFn)
    requires id in s.tasks && s.tasks[id].schedule == schedule && nr(schedule, r).Success?
    ensures Resumed(s, id, r, nr).1.Success? && Step(s, Resume(id, r), nr) == Resumed(s, id, r, nr).0
  {
  }

  /**
   Of the texts that mean "@once" once trimmed, exactly the untrimmed text "@once" fires once: a text with surrounding
   spaces is never cancelled.
   */
  lemma OnceIffExact(schedule: string, go: GoDuration)
    requires TrimSpace(schedule) == ONCE
    ensures FiresOnce(schedule, Actual(go)) <==> schedule == ONCE
  {
    OnceTexts(schedule, go);
    hide *;
    OnceIff(schedule, Actual(go));
  }

  // ---------------------------------------------------------------------------
  // February 29
  // ---------------------------------------------------------------------------

  const LEAP_DAY := "0 0 29 2 *"

  const LEAP_DAY_FIELDS := ParsedCron(OneOf({0}), OneOf({0}), OneOf({29}), OneOf({2}), Any)

  /** The text "0 0 29 2 *" is a leap-day schedule. */
  lemma LeapDayText()
    ensures IsCron(LEAP_DAY, LEAP_DAY_FIELDS) && IsLeapDaySchedule(LEAP_DAY_FIELDS)
  {
    LeapDayParses();
    LeapDayTrims();
    hide ParseExpr, TrimSpace;
    assert LEAP_DAY[0] == '0' && ONCE[0] == '@' && EVERY[0] == '@';
  }

  lemma LeapDayTrims()
    ensures TrimSpace(LEAP_DAY) == LEAP_DAY
  {
    TrimIsIdentity(LEAP_DAY);
  }

  /** Single spaces between five fields. */
  const SINGLE_SPACES: seq<string> := ["", " ", " ", " ", " ", ""]

  lemma LeapDayParses()
    ensures ParseExpr(LEAP_DAY) == Success(LEAP_DAY_FIELDS)
  {
    hide ParseExpr, RenderCron, RenderItems, ItemsValues;
    var zero, day, month := List([Single(0)]), List([Single(29)]), List([Single(2)]);
    ExprRoundTrip(zero, zero, day, month, Star, SINGLE_SPACES);
    LeapDayRendering();
    SingleMeaning(0, 0, 59);
    SingleMeaning(0, 0, 23);
    SingleMeaning(29, 1, 31);
    SingleMeaning(2, 1, 12);
  }

  lemma SingleMeaning(v: nat, lo: int, hi: int)
    requires lo <= v <= hi
    ensures List([Single(v)]).Meaning(lo, hi) == OneOf({v})
  {
    var items := [Single(v)];
    assert items[..|items| - 1] == [];
    assert ItemsValues(items) == {v};
  }

  lemma LeapDayRendering()
    ensures RenderCron(List([Single(0)]), List([Single(0)]), List([Single(29)]), List([Single(2)]), Star, SINGLE_SPACES)
            == LEAP_DAY
  {
    LeapDayNumbers();
    hide Itoa;
    RenderSingle(0);
    RenderSingle(29);
    RenderSingle(2);
    hide *;
    WeaveFive("0", "0", "29", "2", "*");
  }

  lemma LeapDayNumbers()
    ensures Itoa(0) == "0" && Itoa(2) == "2" && Itoa(29) == "29"
  {
    assert Itoa(29) == Itoa(2) + "9";
  }

  lemma RenderSingle(v: nat)
    ensures List([Single(v)]).Render() == Itoa(v)
  {
    assert RenderEach([Single(v)]) == [Itoa(v)];
  }

  lemma WeaveFive(a: string, b: string, c: string, d: string, e: string)
    ensures Weave(SINGLE_SPACES, [a, b, c, d, e]) == a + " " + b + " " + c + " " + d + " " + e
  {
    assert Weave([""], []) == "";
    assert [e][1..] == [] && [" ", ""][1..] == [""];
    assert Weave([" ", ""], [e]) == " " + e;
    assert [d, e][1..] == [e] && [" ", " ", ""][1..] == [" ", ""];
    assert Weave([" ", " ", ""], [d, e]) == " " + d + (" " + e);
    assert [c, d, e][1..] == [d, e] && [" ", " ", " ", ""][1..] == [" ", " ", ""];
    assert Weave([" ", " ", " ", ""], [c, d, e]) == " " + c + (" " + d + (" " + e));
    assert [b, c, d, e][1..] == [c, d, e] && [" ", " ", " ", " ", ""][1..] == [" ", " ", " ", ""];
    assert [a, b, c, d, e][1..] == [b, c, d, e] && SINGLE_SPACES[1..] == [" ", " ", " ", " ", ""];
    assert Weave(SINGLE_SPACES, [a, b, c, d, e]) == "" + a + (" " + b + (" " + c + (" " + d + (" " + e))));
  }

  /**
   A leap-day task that has fired on February 29 fires again 30 seconds later, although no matching minute has come:
   the search for the next one ends two years later, on February 28.
   */
  lemma LeapDayTaskMisfires(s: State, id: string, year: int, b: Time, go: GoDuration)
    requires Calendar.IsLeap(year) && b > 0
    requires Calendar.Date(year, 2, 29, 0, 0) * MINUTE <= b < Calendar.Date(year, 2, 30, 0, 0) * MINUTE
    requires Anchored(s, id, LEAP_DAY, b, Actual(go)) && Idle(s, id)
    ensures Fires(s, id, b + POLL_INTERVAL) && !SomeMatchIn(Minutes(LEAP_DAY_FIELDS), b, b + POLL_INTERVAL)
  {
    LeapDayText();
    LeapDaySearchFails(LEAP_DAY_FIELDS, year, b);
    CronTexts(LEAP_DAY, LEAP_DAY_FIELDS, go);
    hide *;
    FailedSearchMisfires(s, id, LEAP_DAY, Minutes(LEAP_DAY_FIELDS), b, Actual(go));
  }

  /**
   A leap-day task that has fired at or after the midnight of a February 29: as long as the next one is more than 730
   days away, a poll of a serial run fires it exactly when 30 seconds have passed since its last firing, and no matching
   minute ever comes.
   */
  lemma LeapDayTaskMisfiresAgain(s: State, id: string, year: int, b: Time, evs: seq<Event>, p: Time, go: GoDuration)
    requires Calendar.IsLeap(year) && b > 0 && LeapMidnight(year) * MINUTE <= b
    requires p + WINDOW * MINUTE < LeapMidnight(NextLeapYear(year)) * MINUTE
    requires Anchored(s, id, LEAP_DAY, b, Actual(go))
    requires Clock(evs + [Poll(p)], b) && Serial(s, evs + [Poll(p)], id, Actual(go)) && Undisturbed(evs, id)
    ensures Fires(Run(s, evs, Actual(go)), id, p)
            <==> Unix(LastFiring(s, evs, id, b, Actual(go)) + POLL_INTERVAL) <= Unix(p)
    ensures !SomeMatchIn(Minutes(LEAP_DAY_FIELDS), b, p)
  {
    var a := LastFiring(s, evs, id, b, Actual(go));
    ClockFront(evs, p, b);
    ClockEnd(evs, p, b);
    LastFiringInRun(s, evs, id, b, b, Actual(go));
    LastFiringBefore(evs, a, b, p);
    LeapDayText();
    CronTexts(LEAP_DAY, LEAP_DAY_FIELDS, go);
    hide *;
    NoLeapDayBetween(LEAP_DAY_FIELDS, year, b, p);
    assert a + WINDOW * MINUTE < LeapMidnight(NextLeapYear(year)) * MINUTE;
    LeapDayGap(LEAP_DAY_FIELDS, year, a);
    CronFiresIffMatch(s, evs, p, id, LEAP_DAY, Minutes(LEAP_DAY_FIELDS), b, Actual(go));
    DueAfterFailure(Minutes(LEAP_DAY_FIELDS), a, p);
  }

  lemma LastFiringBefore(evs: seq<Event>, a: Time, b: Time, p: Time)
    requires Clock(evs + [Poll(p)], b) && b <= p && (a == b || HasPollAt(evs, a))
    ensures a <= p
  {
    if a != b {
      var i :| 0 <= i < |evs| && evs[i].Poll? && evs[i].now == a;
      PollsInOrder(evs, p, b, i);
    }
  }

  lemma DueAfterFailure(minutes: MinuteSet, a: Time, p: Time)
    requires NextMatch(minutes, a) == None
    ensures DueSince(minutes, a, p) <==> Unix(a + POLL_INTERVAL) <= Unix(p)
  {
  }

  // ---------------------------------------------------------------------------
  // Catching up after a resume
  // ---------------------------------------------------------------------------

  const EVERY_MINUTE := "* * * * *"

  const EVERY_MINUTE_FIELDS := ParsedCron(Any, Any, Any, Any, Any)

  lemma EveryMinuteText()
    ensures IsCron(EVERY_MINUTE, EVERY_MINUTE_FIELDS)
  {
    EveryMinuteParses();
    EveryMinuteTrims();
    hide ParseExpr, TrimSpace;
    assert EVERY_MINUTE[0] == '*' && ONCE[0] == '@' && EVERY[0] == '@';
  }

  lemma EveryMinuteTrims()
    ensures TrimSpace(EVERY_MINUTE) == EVERY_MINUTE
  {
    TrimIsIdentity(EVERY_MINUTE);
  }

  lemma EveryMinuteParses()
    ensures ParseExpr(EVERY_MINUTE) == Success(EVERY_MINUTE_FIELDS)
  {
    hide ParseExpr, Weave, AreGaps;
    assert AreGaps(SINGLE_SPACES) by { SpacesAreGaps(); }
    ExprRoundTrip(Star, Star, Star, Star, Star, SINGLE_SPACES);
    WeaveFive("*", "*", "*", "*", "*");
    assert RenderCron(Star, Star, Star, Star, Star, SINGLE_SPACES) == EVERY_MINUTE;
  }

  lemma SpacesAreGaps()
    ensures AreGaps(SINGLE_SPACES)
  {
  }

  lemma EveryMinuteMatches(from: Time)
    ensures NextMatch(Minutes(EVERY_MINUTE_FIELDS), from).Some?
    ensures MatchIn(Minutes(EVERY_MINUTE_FIELDS), from, StartMinute(from), from + MINUTE)
  {
    var minutes := Minutes(EVERY_MINUTE_FIELDS);
    hide NextMatch;
    assert minutes(StartMinute(from));
    assert MatchIn(minutes, from, StartMinute(from), from + MINUTE);
    NextMatchIsLeast(minutes, from);
    assert MatchIn(minutes, from, StartMinute(from), from + WINDOW * MINUTE);
  }

  /** An empty table after scheduling "* * * * *" at `now`. */
  function EveryMinuteTable(now: Time, go: GoDuration): State {
    Inserted(State(map[], multiset{}), "id", "", "t", EVERY_MINUTE, "p", now, Actual(go)).0
  }

  lemma CheckPasses(name: string, schedule: string, prompt: string)
    requires 0 < |name| <= 32 && 0 < |schedule| <= 16 && 0 < |prompt| <= 2_500
    ensures ScheduleCheck(name, schedule, prompt) == None
  {
    BytesOfText(name);
    BytesOfText(schedule);
    BytesOfText(prompt);
    hide ByteLength;
  }

  lemma EveryMinuteNext(now: Time, go: GoDuration)
    ensures Actual(go)(EVERY_MINUTE, now).Success?
  {
    EveryMinuteText();
    CronTexts(EVERY_MINUTE, EVERY_MINUTE_FIELDS, go);
    EveryMinuteMatches(now);
    hide *;
    CronIsNotOnce(EVERY_MINUTE, Minutes(EVERY_MINUTE_FIELDS), Actual(go));
  }

  lemma EveryMinuteInserts(now: Time, go: GoDuration)
    ensures Inserted(State(map[], multiset{}), "id", "", "t", EVERY_MINUTE, "p", now, Actual(go)).1.Success?
  {
    assert |"t"| == |"p"| == 1 && |EVERY_MINUTE| == 9;
    hide *;
    EveryMinuteNext(now, go);
    CheckPasses("t", EVERY_MINUTE, "p");
    InsertSucceeds("id", "", "t", EVERY_MINUTE, "p", now, Actual(go));
  }

  lemma InsertSucceeds(
    id: string, sessionId: string, name: string, schedule: string, prompt: string, now: Time, nr: NextRunFn)
    requires ScheduleCheck(name, schedule, prompt) == None && nr(schedule, now).Success?
    ensures Inserted(State(map[], multiset{}), id, sessionId, name, schedule, prompt, now, nr).1.Success?
  {
    hide ScheduleCheck, Unix;
  }

  /**
   "* * * * *", scheduled at `now`, fired two minutes later, paused, and resumed two minutes after that with its
   execution still in flight: it does catch up.
   */
  lemma EveryMinuteCatchesUp(now: Time, go: GoDuration)
    requires now > 0
    ensures var r := now + 4 * MINUTE;
            var evs := [Poll(now + 2 * MINUTE), Pause("id"), Resume("id", r)];
            var s := Run(EveryMinuteTable(now, go), evs, Actual(go));
            !NoCatchUp(s, "id", Minutes(EVERY_MINUTE_FIELDS), r, Actual(go))
  {
    var nr, minutes := Actual(go), Minutes(EVERY_MINUTE_FIELDS);
    var q, r := now + 2 * MINUTE, now + 4 * MINUTE;
    var s := EveryMinuteTable(now, go);
    EveryMinuteInserts(now, go);
    ActualNeverBefore(go);
    EveryMinuteText();
    CronTexts(EVERY_MINUTE, EVERY_MINUTE_FIELDS, go);
    var empty := State(map[], multiset{});
    assert WellFormed(empty);
    InsertStores(empty, "id", "", "t", EVERY_MINUTE, "p", now, nr);
    NothingInFlight(empty, "id", "", "t", EVERY_MINUTE, "p", now, nr);
    EveryMinuteMatches(now);
    EveryMinuteMatches(q);
    EveryMinuteMatches(r);
    assert DueSince(minutes, now, q) && SomeMatchIn(minutes, q, r) by {
      hide NextMatch;
      assert MatchIn(minutes, now, StartMinute(now), q);
      assert MatchIn(minutes, q, StartMinute(q), r);
    }
    StartedByLater(s, "id", now, q);
    hide Minutes, NextMatch, DueSince, Stored, Run, StartedBy, Fires, Actual, EveryMinuteTable, Inserted, IsCron;
    AnyRunFiresIff(s, [], q, "id", EVERY_MINUTE, minutes, now, now, nr);
    NothingRun(s, "id", EVERY_MINUTE, now, nr);
    ResumeCatchesUp(s, "id", EVERY_MINUTE, minutes, now, q, r, nr);
  }

  lemma NothingRun(s: State, id: string, schedule: string, a: Time, nr: NextRunFn)
    ensures Run(s, [], nr) == s && LastStored(s, [], id, schedule, a, nr) == a
    ensures forall status :: LastStatus([], id, schedule, status, nr) == status
  {
  }
}
