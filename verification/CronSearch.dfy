/** The next-firing search of a cron expression against a plain minute-by-minute scan. */
module CronSearch {
  import opened Wrappers
  import opened Calendar
  import opened CronField

  /** Nanoseconds since 0001-01-01 00:00 UTC, so that the zero `time.Time` is 0. */
  type Time = int

  const SECOND: Time := 1_000_000_000
  const MINUTE: Time := 60 * SECOND

  /** 2 * 365 days of minutes. */
  const WINDOW := 1_051_200

  datatype CronError = BadExpr(error: ExprError) | NoValidTime

  /** Minute `t` is allowed by all five fields; day of month and day of week must both match. */
  predicate Matches(pc: ParsedCron, t: int) {
    && pc.month.Matches(MonthOf(t))
    && pc.dom.Matches(DayOf(t))
    && pc.dow.Matches(WeekdayOf(t))
    && pc.hour.Matches(HourOf(t))
    && pc.minute.Matches(MinuteOf(t))
  }

  /** A set of minutes to fire at. */
  type MinuteSet = int -> bool

  /** The minutes of an expression. */
  function Minutes(pc: ParsedCron): MinuteSet {
    (t: int) => Matches(pc, t)
  }

  /** The plain scan: the first minute of [t, limit) that is in the set. */
  function Scan(minutes: MinuteSet, t: int, limit: int): Option<int>
    decreases limit - t
  {
    if t >= limit then None
    else if minutes(t) then Some(t)
    else Scan(minutes, t + 1, limit)
  }

  /** The whole minute after `from`: truncate, then add one. */
  function StartMinute(from: Time): (t: int)
    ensures (t - 1) * MINUTE <= from < t * MINUTE
  {
    from / MINUTE + 1
  }

  function NextMatch(minutes: MinuteSet, from: Time): Option<int> {
    Scan(minutes, StartMinute(from), StartMinute(from) + WINDOW)
  }

  /** The next firing time of an expression, by the plain scan. */
  function NextCron(expr: string, from: Time): Result<Time, CronError> {
    match ParseExpr(expr)
    case Failure(e) => Failure(BadExpr(e))
    case Success(pc) =>
      match NextMatch(Minutes(pc), from)
      case None => Failure(NoValidTime)
      case Some(t) => Success(t * MINUTE)
  }

  // ---------------------------------------------------------------------------
  // What the scan finds
  // ---------------------------------------------------------------------------

  ghost predicate NoMatch(minutes: MinuteSet, t: int, j: int) {
    forall u :: t <= u < j ==> !minutes(u)
  }

  ghost predicate IsFirstMatch(minutes: MinuteSet, t: int, limit: int, m: int) {
    t <= m < limit && minutes(m) && NoMatch(minutes, t, m)
  }

  lemma {:induction false} ScanFinds(minutes: MinuteSet, t: int, limit: int)
    ensures match Scan(minutes, t, limit)
            case Some(m) => IsFirstMatch(minutes, t, limit, m)
            case None => NoMatch(minutes, t, limit)
    decreases limit - t
  {
    if t < limit && !minutes(t) {
      ScanFinds(minutes, t + 1, limit);
    }
  }

  /** The scan returns m exactly when m is the least match of the window, and nothing exactly when there is none. */
  lemma ScanIsLeastMatch(minutes: MinuteSet, t: int, limit: int)
    ensures forall m :: Scan(minutes, t, limit) == Some(m) <==> IsFirstMatch(minutes, t, limit, m)
    ensures Scan(minutes, t, limit) == None <==> NoMatch(minutes, t, limit)
  {
    ScanFinds(minutes, t, limit);
  }

  /** The window after `from`, in minutes and in instants. */
  lemma WindowBounds(from: Time, u: int)
    ensures from < u * MINUTE <==> StartMinute(from) <= u
    ensures u * MINUTE <= from + WINDOW * MINUTE <==> u < StartMinute(from) + WINDOW
  {
  }

  /** The next match is m exactly when m is the least whole minute of the set after `from` and within 730 days. */
  lemma NextMatchIff(minutes: MinuteSet, from: Time)
    ensures forall m :: NextMatch(minutes, from) == Some(m)
              <==> && minutes(m) && from < m * MINUTE <= from + WINDOW * MINUTE
                   && forall u :: from < u * MINUTE && minutes(u) ==> m <= u
    ensures NextMatch(minutes, from) == None
            <==> forall u :: from < u * MINUTE <= from + WINDOW * MINUTE ==> !minutes(u)
  {
    var t := StartMinute(from);
    ScanIsLeastMatch(minutes, t, t + WINDOW);
    forall u
      ensures from < u * MINUTE <==> t <= u
      ensures u * MINUTE <= from + WINDOW * MINUTE <==> u < t + WINDOW
    {
      WindowBounds(from, u);
    }
    hide StartMinute;
  }

  /**
   For an expression that parses, the next firing time is the least whole minute after `from` within 730 days at which
   all five fields match, and it is an error exactly when there is none.
   */
  lemma NextCronMeaning(expr: string, from: Time, pc: ParsedCron)
    requires ParseExpr(expr) == Success(pc)
    ensures match NextCron(expr, from)
            case Success(x) => x % MINUTE == 0 && NextMatch(Minutes(pc), from) == Some(x / MINUTE)
            case Failure(e) => e == NoValidTime && NextMatch(Minutes(pc), from) == None
    ensures forall u :: Minutes(pc)(u) <==> Matches(pc, u)
  {
    hide ParseExpr, NextMatch, Matches;
  }

  /** Skipping a run of non-matching minutes does not change the result, even past the limit. */
  lemma {:induction false} ScanSkips(minutes: MinuteSet, t: int, j: int, limit: int)
    requires t <= j
    requires NoMatch(minutes, t, j)
    ensures Scan(minutes, t, limit) == Scan(minutes, j, limit)
    decreases j - t
  {
    if t < j && t < limit {
      ScanSkips(minutes, t + 1, j, limit);
    }
  }

  // ---------------------------------------------------------------------------
  // The search with jumps
  // ---------------------------------------------------------------------------

  /** Where one iteration of the search moves a candidate that it does not return. */
  function Jump(pc: ParsedCron, t: int): int {
    if !pc.month.Matches(MonthOf(t)) then Date(YearOf(t), MonthOf(t) + 1, 1, 0, 0)
    else if !pc.dom.Matches(DayOf(t)) || !pc.dow.Matches(WeekdayOf(t)) then
      Date(YearOf(t), MonthOf(t), DayOf(t) + 1, 0, 0)
    else if !pc.hour.Matches(HourOf(t)) then Date(YearOf(t), MonthOf(t), DayOf(t), HourOf(t) + 1, 0)
    else t + 1
  }

  /** Every jump goes forward over non-matching minutes only. */
  lemma JumpSkipsNoMatch(pc: ParsedCron, t: int)
    requires !Matches(pc, t)
    ensures t < Jump(pc, t)
    ensures NoMatch(Minutes(pc), t, Jump(pc, t))
  {
    hide MonthOf, DayOf, YearOf, WeekdayOf, HourOf, MinuteOf, Date;
    NextMonthJump(t);
    NextDayJump(t);
    NextHourJump(t);
  }

  /** Each of minute and hour allows some in-range value. */
  ghost predicate Satisfiable(pc: ParsedCron) {
    && (exists m :: 0 <= m <= 59 && pc.minute.Matches(m))
    && (exists h :: 0 <= h <= 23 && pc.hour.Matches(h))
  }

  /** No minute below the candidate's minute matches in a matching hour. */
  ghost predicate MinuteSettled(pc: ParsedCron, c: int) {
    MinuteOf(c) > 0 ==>
      pc.hour.Matches(HourOf(c)) && forall m :: 0 <= m < MinuteOf(c) ==> !pc.minute.Matches(m)
  }

  /** A candidate inside a day belongs to a matching day whose earlier hours do not match. */
  ghost predicate HourSettled(pc: ParsedCron, c: int) {
    HourOf(c) > 0 || MinuteOf(c) > 0 ==>
      && pc.month.Matches(MonthOf(c)) && pc.dom.Matches(DayOf(c)) && pc.dow.Matches(WeekdayOf(c))
      && forall h :: 0 <= h < HourOf(c) ==> !pc.hour.Matches(h)
  }

  /** What the search knows about a candidate reached from `first`. */
  ghost predicate Settled(pc: ParsedCron, first: int, c: int) {
    && first <= c
    && (first / 60 < c / 60 ==> MinuteSettled(pc, c))
    && (first / MINUTES_PER_DAY < c / MINUTES_PER_DAY ==> HourSettled(pc, c))
  }

  /** An upper bound on the iterations spent to move from `first` to `c`. */
  function Budget(first: int, c: int): int {
    if c / 60 <= first / 60 then c - first
    else if c / MINUTES_PER_DAY <= first / MINUTES_PER_DAY then 60 + (HourOf(c) - HourOf(first)) + MinuteOf(c)
    else 144 + (c / MINUTES_PER_DAY - first / MINUTES_PER_DAY) + HourOf(c) + MinuteOf(c)
  }

  lemma NextMinuteInHour(c: int)
    requires MinuteOf(c) < 59
    ensures (c + 1) / 60 == c / 60 && (c + 1) / MINUTES_PER_DAY == c / MINUTES_PER_DAY
    ensures HourOf(c + 1) == HourOf(c) && MinuteOf(c + 1) == MinuteOf(c) + 1
  {
  }

  /** A jump out of a minute whose hour matches, past the first hour. */
  lemma MinuteStepCost(pc: ParsedCron, first: int, c: int)
    requires Satisfiable(pc) && Settled(pc, first, c) && first / 60 < c / 60
    requires pc.hour.Matches(HourOf(c)) && !pc.minute.Matches(MinuteOf(c))
    requires pc.month.Matches(MonthOf(c)) && pc.dom.Matches(DayOf(c)) && pc.dow.Matches(WeekdayOf(c))
    ensures Settled(pc, first, c + 1) && Budget(first, c + 1) >= Budget(first, c) + 1
  {
    hide MonthOfDay, DayOfDay;
    var m :| 0 <= m <= 59 && pc.minute.Matches(m);
    assert MinuteOf(c) < m;
    NextMinuteInHour(c);
    hide HourOf, MinuteOf;
  }

  lemma DaysOfHours(c: int)
    ensures c / MINUTES_PER_DAY == c / 60 / 24
  {
  }

  /** The minute that starts the hour after the hour of `c`. */
  lemma NextHourFields(c: int)
    ensures var j := (c / 60 + 1) * 60;
            && j / 60 == c / 60 + 1 && MinuteOf(j) == 0
            && (if HourOf(c) < 23
                then j / MINUTES_PER_DAY == c / MINUTES_PER_DAY && HourOf(j) == HourOf(c) + 1
                else j / MINUTES_PER_DAY == c / MINUTES_PER_DAY + 1 && HourOf(j) == 0)
  {
    var j := (c / 60 + 1) * 60;
    assert j / 60 == c / 60 + 1;
    DaysOfHours(c);
    DaysOfHours(j);
  }

  lemma NextMinuteWraps(c: int)
    requires MinuteOf(c) == 59
    ensures c + 1 == (c / 60 + 1) * 60
  {
  }

  lemma SameHour(first: int, c: int)
    requires first <= c && first / 60 == c / 60
    ensures c - first == MinuteOf(c) - MinuteOf(first)
    ensures HourOf(first) == HourOf(c) && first / MINUTES_PER_DAY == c / MINUTES_PER_DAY
  {
  }

  /** A minute step inside the first hour, or out of it. */
  lemma FirstHourStepCost(pc: ParsedCron, first: int, c: int)
    requires first <= c && first / 60 == c / 60
    ensures Settled(pc, first, c + 1) && Budget(first, c + 1) >= Budget(first, c) + 1
  {
    SameHour(first, c);
    if MinuteOf(c) < 59 {
      NextMinuteInHour(c);
    } else {
      NextMinuteWraps(c);
      NextHourFields(c);
    }
    hide MonthOfDay, DayOfDay, MinuteOf, HourOf;
  }

  lemma HourStepCost(pc: ParsedCron, first: int, c: int, j: int)
    requires Satisfiable(pc) && Settled(pc, first, c) && !pc.hour.Matches(HourOf(c))
    requires pc.month.Matches(MonthOf(c)) && pc.dom.Matches(DayOf(c)) && pc.dow.Matches(WeekdayOf(c))
    requires j == (c / 60 + 1) * 60
    ensures Settled(pc, first, j) && Budget(first, j) >= Budget(first, c) + 1
  {
    NextHourFields(c);
    if c / 60 <= first / 60 {
      SameHour(first, c);
    }
    hide MonthOfDay, DayOfDay, HourOf, MinuteOf;
    if first / MINUTES_PER_DAY < c / MINUTES_PER_DAY {
      var h :| 0 <= h <= 23 && pc.hour.Matches(h);
      assert HourOf(c) < h;
    }
  }

  lemma DayStartFields(c: int, j: int)
    requires c < j && j % MINUTES_PER_DAY == 0
    ensures HourOf(j) == 0 && MinuteOf(j) == 0
    ensures c / MINUTES_PER_DAY < j / MINUTES_PER_DAY && c / 60 < j / 60
  {
    var q := j / MINUTES_PER_DAY;
    assert j == 60 * (24 * q);
    assert j / 60 == 24 * q;
  }

  lemma DayStepCost(pc: ParsedCron, first: int, c: int, j: int)
    requires Settled(pc, first, c)
    requires !(pc.month.Matches(MonthOf(c)) && pc.dom.Matches(DayOf(c)) && pc.dow.Matches(WeekdayOf(c)))
    requires c < j && j % MINUTES_PER_DAY == 0
    ensures Settled(pc, first, j) && Budget(first, j) >= Budget(first, c) + 1
  {
    DayStartFields(c, j);
    if c / 60 <= first / 60 {
      SameHour(first, c);
    }
    hide MonthOf, DayOf, WeekdayOf, HourOf, MinuteOf;
  }

  lemma SettledFirstHour(pc: ParsedCron, first: int, c: int)
    requires Settled(pc, first, c) && c / 60 <= first / 60
    ensures first <= c && c / 60 == first / 60
  {
  }

  lemma MatchesFields(pc: ParsedCron, t: int)
    ensures Matches(pc, t) <==> (
              && pc.month.Matches(MonthOf(t)) && pc.dom.Matches(DayOf(t)) && pc.dow.Matches(WeekdayOf(t))
              && pc.hour.Matches(HourOf(t)) && pc.minute.Matches(MinuteOf(t)))
  {
  }

  predicate DayMatches(pc: ParsedCron, c: int) {
    pc.month.Matches(MonthOf(c)) && pc.dom.Matches(DayOf(c)) && pc.dow.Matches(WeekdayOf(c))
  }

  /** A jump lands on the start of a later day, of the next hour, or of the next minute. */
  lemma JumpLands(pc: ParsedCron, c: int)
    ensures !DayMatches(pc, c) ==> c < Jump(pc, c) && Jump(pc, c) % MINUTES_PER_DAY == 0
    ensures DayMatches(pc, c) && !pc.hour.Matches(HourOf(c)) ==> Jump(pc, c) == (c / 60 + 1) * 60
    ensures DayMatches(pc, c) && pc.hour.Matches(HourOf(c)) ==> Jump(pc, c) == c + 1
  {
    hide MonthOf, DayOf, YearOf, WeekdayOf, HourOf, Date;
    NextMonthJump(c);
    NextDayJump(c);
    NextHourJump(c);
  }

  lemma JumpCost(pc: ParsedCron, first: int, c: int)
    requires Satisfiable(pc) && Settled(pc, first, c) && !Matches(pc, c)
    ensures Settled(pc, first, Jump(pc, c)) && Budget(first, Jump(pc, c)) >= Budget(first, c) + 1
  {
    hide Jump, MonthOf, DayOf, YearOf, WeekdayOf, HourOf, MinuteOf, Settled, Budget, Satisfiable;
    JumpLands(pc, c);
    if !DayMatches(pc, c) {
      DayStepCost(pc, first, c, Jump(pc, c));
    } else if !pc.hour.Matches(HourOf(c)) {
      HourStepCost(pc, first, c, Jump(pc, c));
    } else if first / 60 < c / 60 {
      MatchesFields(pc, c);
      MinuteStepCost(pc, first, c);
    } else {
      SettledFirstHour(pc, first, c);
      FirstHourStepCost(pc, first, c);
    }
  }

  lemma BudgetInWindow(first: int, c: int)
    requires first <= c < first + WINDOW
    ensures Budget(first, c) <= 956
  {
  }

  lemma StartsSettled(pc: ParsedCron, first: int)
    ensures Settled(pc, first, first) && Budget(first, first) == 0
  {
  }

  /** The state of the search loop at a candidate reached in `steps` iterations. */
  ghost predicate Searching(pc: ParsedCron, first: int, c: int, steps: int) {
    && Scan(Minutes(pc), c, first + WINDOW) == Scan(Minutes(pc), first, first + WINDOW)
    && 0 <= steps <= c - first
    && (Satisfiable(pc) ==> Settled(pc, first, c) && steps <= Budget(first, c))
  }

  lemma SearchStarts(pc: ParsedCron, first: int)
    ensures Searching(pc, first, first, 0)
  {
    StartsSettled(pc, first);
  }

  lemma SearchJumps(pc: ParsedCron, first: int, c: int, steps: int)
    requires Searching(pc, first, c, steps) && c < first + WINDOW
    requires !Matches(pc, c)
    ensures c < Jump(pc, c) && Searching(pc, first, Jump(pc, c), steps + 1)
  {
    hide Matches, Satisfiable, Settled, Budget, Jump;
    JumpSkipsNoMatch(pc, c);
    ScanSkips(Minutes(pc), c, Jump(pc, c), first + WINDOW);
    if Satisfiable(pc) {
      JumpCost(pc, first, c);
    }
  }

  lemma SearchEnds(pc: ParsedCron, first: int, c: int, steps: int)
    requires Searching(pc, first, c, steps)
    requires c >= first + WINDOW || Matches(pc, c)
    ensures Scan(Minutes(pc), first, first + WINDOW) == if c >= first + WINDOW then None else Some(c)
  {
    hide Matches;
  }

  lemma SearchCost(pc: ParsedCron, first: int, c: int, steps: int)
    requires Searching(pc, first, c, steps) && c < first + WINDOW
    ensures steps < WINDOW && (Satisfiable(pc) ==> steps <= 956)
  {
    BudgetInWindow(first, c);
  }

  /**
   `parseCron`. The ghost out-parameter counts the iterations of the search loop.
   */
  method ParseCron(expr: string, from: Time) returns (r: Result<Time, CronError>, ghost steps: nat)
    ensures r == NextCron(expr, from)
    ensures match ParseExpr(expr)
            case Failure(_) => steps == 0
            case Success(pc) => steps <= WINDOW && (Satisfiable(pc) ==> steps < 1000)
  {
    hide ParseExpr, Scan, Matches, Satisfiable, Searching, MonthOf, DayOf, YearOf, WeekdayOf, HourOf, MinuteOf, Date;
    steps := 0;
    var parsed := ParseCronExpr(expr);
    if parsed.Failure? {
      return Failure(BadExpr(parsed.error)), steps;
    }
    var pc := parsed.value;
    var candidate := from / MINUTE + 1;
    ghost var first := candidate;
    var limit := candidate + 2 * 365 * 24 * 60;
    SearchStarts(pc, first);
    while candidate < limit
      invariant Searching(pc, first, candidate, steps)
      invariant steps <= WINDOW && (Satisfiable(pc) ==> steps <= 957)
      decreases limit - candidate
    {
      SearchCost(pc, first, candidate, steps);
      MatchesFields(pc, candidate);
      if !Matches(pc, candidate) {
        SearchJumps(pc, first, candidate, steps);
      }
      steps := steps + 1;
      var m := MonthOf(candidate);
      if !pc.month.Matches(m) {
        candidate := Date(YearOf(candidate), MonthOf(candidate) + 1, 1, 0, 0);
        continue;
      }
      var d := DayOf(candidate);
      var dow := WeekdayOf(candidate);
      if !pc.dom.Matches(d) || !pc.dow.Matches(dow) {
        candidate := Date(YearOf(candidate), MonthOf(candidate), d + 1, 0, 0);
        continue;
      }
      var h := HourOf(candidate);
      if !pc.hour.Matches(h) {
        candidate := Date(YearOf(candidate), MonthOf(candidate), DayOf(candidate), h + 1, 0);
        continue;
      }
      if pc.minute.Matches(MinuteOf(candidate)) {
        SearchEnds(pc, first, candidate, steps - 1);
        return Success(candidate * MINUTE), steps;
      }
      candidate := candidate + 1;
    }
    SearchEnds(pc, first, candidate, steps);
    return Failure(NoValidTime), steps;
  }
}
