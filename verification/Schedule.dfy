/** Schedule texts: "@once", "@every d" and cron, and how the firing times of a cron text enumerate its minutes. */
module Schedule {
  import opened Wrappers
  import opened Strings
  import opened Calendar
  import opened CronField
  import opened CronSearch

  const DAY: Time := 24 * 60 * MINUTE

  datatype ScheduleError = EmptyDuration | BadCount | BadDuration | NotPositive | BadCron(error: CronError)

  /** Go's `time.ParseDuration` on its own texts, in nanoseconds; outside the repository. */
  type GoDuration = string -> Option<int>

  /** What a 64-bit signed multiplication leaves of its exact result. */
  function Wrapped(n: int): (w: int)
    ensures MIN_INT64 <= w <= MAX_INT64
    ensures w == n <==> MIN_INT64 <= n <= MAX_INT64
  {
    (n - MIN_INT64) % TWO_64 + MIN_INT64
  }

  const TWO_64 := 0x1_0000_0000_0000_0000

  /** `parseDuration`: whole days and weeks here, everything else handed to `time.ParseDuration`. */
  function ParseDuration(text: string, go: GoDuration): Result<int, ScheduleError> {
    var s := TrimSpace(text);
    if s == "" then Failure(EmptyDuration)
    else if s[|s| - 1] == 'd' then
      match Atoi(s[..|s| - 1]) case None => Failure(BadCount) case Some(n) => Success(Wrapped(n * DAY))
    else if s[|s| - 1] == 'w' then
      match Atoi(s[..|s| - 1]) case None => Failure(BadCount) case Some(n) => Success(Wrapped(n * 7 * DAY))
    else
      match go(s) case None => Failure(BadDuration) case Some(d) => Success(d)
  }

  const EVERY := "@every "
  const ONCE := "@once"

  /** `nextRun`. */
  function NextRun(schedule: string, from: Time, go: GoDuration): Result<Time, ScheduleError> {
    var s := TrimSpace(schedule);
    if s == ONCE then Success(from)
    else if HasPrefix(s, EVERY) then
      var d :- ParseDuration(s[|EVERY|..], go);
      if d <= 0 then Failure(NotPositive) else Success(from + d)
    else
      match NextCron(s, from) case Failure(e) => Failure(BadCron(e)) case Success(t) => Success(t)
  }

  /** A next-run function, in the place of `nextRun`. */
  type NextRunFn = (string, Time) -> Result<Time, ScheduleError>

  /** The fields of a schedule that is neither "@once" nor "@every", when it parses. */
  predicate IsCron(schedule: string, pc: ParsedCron) {
    var s := TrimSpace(schedule);
    s != ONCE && !HasPrefix(s, EVERY) && ParseExpr(s) == Success(pc)
  }

  /** A schedule "@every d" with a positive duration. */
  predicate IsEvery(schedule: string, d: int, go: GoDuration) {
    var s := TrimSpace(schedule);
    s != ONCE && HasPrefix(s, EVERY) && ParseDuration(s[|EVERY|..], go) == Success(d) && d > 0
  }

  /** What `nextRun` answers for a cron schedule with these minutes. */
  function CronAnswer(minutes: MinuteSet, from: Time): Result<Time, ScheduleError> {
    match NextMatch(minutes, from) case None => Failure(BadCron(NoValidTime)) case Some(t) => Success(t * MINUTE)
  }

  lemma NextRunOfCron(schedule: string, pc: ParsedCron, from: Time, go: GoDuration)
    requires IsCron(schedule, pc)
    ensures NextRun(schedule, from, go) == CronAnswer(Minutes(pc), from)
  {
    hide TrimSpace, ParseExpr, NextMatch;
  }

  lemma NextRunOfEvery(schedule: string, d: int, from: Time, go: GoDuration)
    requires IsEvery(schedule, d, go)
    ensures NextRun(schedule, from, go) == Success(from + d)
  {
    hide TrimSpace, ParseDuration, HasPrefix;
  }

  /** The schedule "@every" for a duration's text, with any white space around the word and the text. */
  ghost predicate IsEveryOf(schedule: string, text: string) {
    exists left, gap, right ::
      AllSpaces(left) && AllSpaces(gap) && AllSpaces(right) && schedule == left + ("@every " + gap + text) + right
  }

  /** "@once", with any white space around it, is due at once. */
  lemma OnceMeansNow(left: string, right: string, from: Time, go: GoDuration)
    requires AllSpaces(left) && AllSpaces(right)
    ensures NextRun(left + "@once" + right, from, go) == Success(from)
  {
    TrimOfPadded(left, "@once", right);
    hide TrimSpace, AllSpaces;
  }

  /** Five written fields, set apart and surrounded by any white space, run at the minutes they mean. */
  lemma NextRunOfFields(
    minute: FieldText, hour: FieldText, dom: FieldText, month: FieldText, dow: FieldText, gaps: seq<string>, from: Time,
    go: GoDuration)
    requires minute.Valid(0, 59) && hour.Valid(0, 23) && dom.Valid(1, 31) && month.Valid(1, 12) && dow.Valid(0, 6)
    requires |gaps| == 6 && AreGaps(gaps)
    ensures var pc := ParsedCron(minute.Meaning(0, 59), hour.Meaning(0, 23), dom.Meaning(1, 31), month.Meaning(1, 12),
                                 dow.Meaning(0, 6));
            && IsCron(RenderCron(minute, hour, dom, month, dow, gaps), pc)
            && NextRun(RenderCron(minute, hour, dom, month, dow, gaps), from, go) == CronAnswer(Minutes(pc), from)
  {
    hide *;
    var pc := WrittenIsCron(minute, hour, dom, month, dow, gaps);
    NextRunOfCron(RenderCron(minute, hour, dom, month, dow, gaps), pc, from, go);
  }

  lemma WrittenIsCron(
    minute: FieldText, hour: FieldText, dom: FieldText, month: FieldText, dow: FieldText, gaps: seq<string>)
    returns (pc: ParsedCron)
    requires minute.Valid(0, 59) && hour.Valid(0, 23) && dom.Valid(1, 31) && month.Valid(1, 12) && dow.Valid(0, 6)
    requires |gaps| == 6 && AreGaps(gaps)
    ensures pc == ParsedCron(minute.Meaning(0, 59), hour.Meaning(0, 23), dom.Meaning(1, 31), month.Meaning(1, 12),
                             dow.Meaning(0, 6))
    ensures IsCron(RenderCron(minute, hour, dom, month, dow, gaps), pc)
  {
    pc := ParsedCron(minute.Meaning(0, 59), hour.Meaning(0, 23), dom.Meaning(1, 31), month.Meaning(1, 12),
                     dow.Meaning(0, 6));
    var expr, inner := RenderCron(minute, hour, dom, month, dow, gaps), gaps[5 := ""][0 := ""];
    WrittenTrims(minute, hour, dom, month, dow, gaps);
    assert ONCE[0] == EVERY[0] == '@';
    assert TrimSpace(expr) != ONCE && !HasPrefix(TrimSpace(expr), EVERY);
    assert IsCron(expr, pc) <==>
        TrimSpace(expr) != ONCE && !HasPrefix(TrimSpace(expr), EVERY) && ParseExpr(TrimSpace(expr)) == Success(pc);
    hide *;
    ExprRoundTrip(minute, hour, dom, month, dow, inner);
  }

  /** Trimmed, the written fields are the same without the outer gaps, and start on no '@'. */
  lemma WrittenTrims(
    minute: FieldText, hour: FieldText, dom: FieldText, month: FieldText, dow: FieldText, gaps: seq<string>)
    requires minute.Valid(0, 59) && hour.Valid(0, 23) && dom.Valid(1, 31) && month.Valid(1, 12) && dow.Valid(0, 6)
    requires |gaps| == 6 && AreGaps(gaps)
    ensures var inner := gaps[5 := ""][0 := ""];
            var s := TrimSpace(RenderCron(minute, hour, dom, month, dow, gaps));
            AreGaps(inner) && s == RenderCron(minute, hour, dom, month, dow, inner) && s != "" && s[0] != '@'
  {
    var inner := gaps[5 := ""][0 := ""];
    hide *;
    TextRoundTrip(minute, 0, 59);
    TextRoundTrip(hour, 0, 23);
    TextRoundTrip(dom, 1, 31);
    TextRoundTrip(month, 1, 12);
    TextRoundTrip(dow, 0, 6);
    TextStarts(minute, 0, 59);
    var words := RenderedFields(minute, hour, dom, month, dow, gaps);
    var again := RenderedFields(minute, hour, dom, month, dow, inner);
    assert gaps[|words| := ""][0 := ""] == inner;
    TrimOfWeave(gaps, words);
  }

  /** A written field starts on a star or a digit. */
  lemma TextStarts(text: FieldText, lo: int, hi: int)
    requires text.Valid(lo, hi)
    ensures text.Render() != "" && text.Render()[0] != '@'
  {
    if text.List? {
      ItemIsPlain(text.items[0]);
      RenderedTextSplits(text.items);
      assert text.Render()[0] == RenderItem(text.items[0])[0];
    }
  }

  /**
   "@every" and a text for `time.ParseDuration`, one that does not end on 'd' or 'w': the next run is that duration
   later when there is one and it is positive, and an error otherwise.
   */
  lemma EveryMeansDuration(schedule: string, text: string, from: Time, go: GoDuration)
    requires IsEveryOf(schedule, text)
    requires text != "" && !IsSpace(text[0]) && !IsSpace(text[|text| - 1]) && text[|text| - 1] !in {'d', 'w'}
    ensures NextRun(schedule, from, go)
            == match go(text)
               case None => Failure(BadDuration)
               case Some(d) => if d > 0 then Success(from + d) else Failure(NotPositive)
  {
    var rest := EveryParts(schedule, text);
    hide TrimSpace, IsSpace, Atoi, HasPrefix, NextCron, IsEveryOf;
  }

  /** What `nextRun` hands to `parseDuration`. */
  lemma EveryParts(schedule: string, text: string) returns (rest: string)
    requires IsEveryOf(schedule, text) && text != "" && !IsSpace(text[0]) && !IsSpace(text[|text| - 1])
    ensures var s := TrimSpace(schedule); s != ONCE && HasPrefix(s, EVERY) && s[|EVERY|..] == rest
    ensures TrimSpace(rest) == text
  {
    var left, gap, right :| AllSpaces(left) && AllSpaces(gap) && AllSpaces(right)
      && schedule == left + ("@every " + gap + text) + right;
    rest := gap + text;
    EveryTrims(schedule, left, gap, text, right);
    TrimOfPadded(gap, text, "");
    assert gap + text + "" == gap + text;
    hide *;
  }

  /** A trimmed "@every" schedule starts on the word; what follows it is the text and the gap before it. */
  lemma EveryTrims(schedule: string, left: string, gap: string, text: string, right: string)
    requires AllSpaces(left) && AllSpaces(gap) && AllSpaces(right) && schedule == left + (EVERY + gap + text) + right
    requires text != "" && !IsSpace(text[|text| - 1])
    ensures var s := TrimSpace(schedule); s != ONCE && HasPrefix(s, EVERY) && s[|EVERY|..] == gap + text
  {
    var core := EVERY + gap + text;
    assert core[0] == '@' && core[|core| - 1] == text[|text| - 1];
    TrimOfPadded(left, core, right);
    assert core[1] == 'e' && ONCE[1] == 'o';
    assert core[..|EVERY|] == EVERY;
  }

  /** A count of days or weeks that is not a number is an error. */
  lemma EveryBadCount(schedule: string, count: string, unit: char, from: Time, go: GoDuration)
    requires IsEveryOf(schedule, count + [unit]) && unit in {'d', 'w'}
    requires (count == "" || !IsSpace(count[0])) && Atoi(count).None?
    ensures NextRun(schedule, from, go) == Failure(BadCount)
  {
    var text := count + [unit];
    assert text[|text| - 1] == unit && !IsSpace(unit) && !IsSpace(text[0]) && text[..|text| - 1] == count;
    var rest := EveryParts(schedule, text);
    hide TrimSpace, IsSpace, Atoi, HasPrefix, NextCron, IsEveryOf;
  }

  /** That many days, or weeks. */
  function Counted(n: nat, unit: char): int {
    if unit == 'd' then n * DAY else n * 7 * DAY
  }

  /**
   "@every" with a count of days or weeks is that many days or weeks later exactly when there is at least one and the
   count is less than 2^63 nanoseconds; beyond, the 64-bit duration wraps around.
   */
  lemma DaysAndWeeks(n: nat, unit: char, from: Time, go: GoDuration)
    requires unit in {'d', 'w'}
    ensures NextRun(EVERY + (Itoa(n) + [unit]), from, go) == Success(from + Counted(n, unit))
            <==> 0 < Counted(n, unit) <= MAX_INT64
  {
    var text := Itoa(n) + [unit];
    CountIsSmaller(n, unit);
    CountedDuration(n, unit, go);
    EveryText(text);
    hide TrimSpace, ParseDuration, Itoa, HasPrefix, IsSpace, Counted, Wrapped;
    assert NextRun(EVERY + text, from, go).Success? ==>
        ParseDuration(text, go).Success? && ParseDuration(text, go).value > 0
        && NextRun(EVERY + text, from, go) == Success(from + ParseDuration(text, go).value);
  }

  lemma CountIsSmaller(n: nat, unit: char)
    ensures n <= Counted(n, unit)
  {
  }

  lemma CountTrims(n: nat, unit: char)
    requires unit in {'d', 'w'}
    ensures var text := Itoa(n) + [unit]; !IsSpace(text[|text| - 1]) && TrimSpace(text) == text
  {
    var text := Itoa(n) + [unit];
    assert text[0] == Itoa(n)[0] && IsDigit(Itoa(n)[0]);
    hide Itoa;
    TrimIsIdentity(text);
  }

  lemma CountedDuration(n: nat, unit: char, go: GoDuration)
    requires unit in {'d', 'w'}
    ensures var text := Itoa(n) + [unit];
            && text != "" && !IsSpace(text[|text| - 1])
            && ParseDuration(text, go)
               == if n <= MAX_INT64 then Success(Wrapped(Counted(n, unit))) else Failure(BadCount)
  {
    var text := Itoa(n) + [unit];
    AtoiItoa(n);
    CountTrims(n, unit);
    assert text[..|text| - 1] == Itoa(n);
    hide TrimSpace, Atoi, Itoa, IsSpace, Wrapped;
  }

  /** A text after "@every " that does not end on a space is taken as it is. */
  lemma EveryText(text: string)
    requires text != "" && !IsSpace(text[|text| - 1])
    ensures var s := EVERY + text;
            TrimSpace(s) == s && s != ONCE && HasPrefix(s, EVERY) && s[|EVERY|..] == text
  {
    var s := EVERY + text;
    assert s[0] == '@' && s[|s| - 1] == text[|text| - 1];
    TrimIsIdentity(s);
    assert s[1] == 'e' && ONCE[1] == 'o';
  }

  /** Once a schedule has been accepted, its next run can fail later only because the search window holds no match. */
  lemma OnlyTheWindowFails(schedule: string, accepted: Time, from: Time, go: GoDuration)
    requires NextRun(schedule, accepted, go).Success? && NextRun(schedule, from, go).Failure?
    ensures exists pc :: IsCron(schedule, pc) && NextMatch(Minutes(pc), from) == None
  {
    hide TrimSpace, ParseExpr, NextMatch, ParseDuration;
    var pc := ParseExpr(TrimSpace(schedule)).value;
    assert IsCron(schedule, pc) && NextMatch(Minutes(pc), from) == None;
  }

  // ---------------------------------------------------------------------------
  // Enumeration
  // ---------------------------------------------------------------------------

  /** Minute `m` matches and lies in the interval (b, p] of instants. */
  ghost predicate MatchIn(minutes: MinuteSet, b: Time, m: int, p: Time) {
    b < m * MINUTE <= p && minutes(m)
  }

  /** Some whole matching minute lies in (b, p]. */
  ghost predicate SomeMatchIn(minutes: MinuteSet, b: Time, p: Time) {
    exists m :: MatchIn(minutes, b, m, p)
  }

  /** The next match is the least matching minute strictly after `from` among the next 730 days. */
  lemma NextMatchIsLeast(minutes: MinuteSet, from: Time)
    ensures match NextMatch(minutes, from)
            case Some(t) =>
              && MatchIn(minutes, from, t, t * MINUTE)
              && (forall u :: minutes(u) && from < u * MINUTE ==> t <= u)
            case None => !SomeMatchIn(minutes, from, from + WINDOW * MINUTE)
  {
    ScanFinds(minutes, StartMinute(from), StartMinute(from) + WINDOW);
  }

  /** A match comes by `p` exactly when the next match does. */
  lemma SomeMatchByNext(minutes: MinuteSet, from: Time, p: Time)
    requires NextMatch(minutes, from).Some?
    ensures SomeMatchIn(minutes, from, p) <==> NextMatch(minutes, from).value * MINUTE <= p
  {
    hide NextMatch;
    NextMatchIsLeast(minutes, from);
    var t := NextMatch(minutes, from).value;
    if t * MINUTE <= p {
      assert MatchIn(minutes, from, t, p);
    }
  }

  lemma SomeMatchMonotone(minutes: MinuteSet, from: Time, p: Time, later: Time)
    requires p <= later && SomeMatchIn(minutes, from, p)
    ensures SomeMatchIn(minutes, from, later)
  {
    var m :| MatchIn(minutes, from, m, p);
    assert MatchIn(minutes, from, m, later);
  }

  /** Matching minutes after `from` start at StartMinute(from). */
  lemma AfterFrom(from: Time, m: int)
    ensures from < m * MINUTE <==> StartMinute(from) <= m
  {
  }

  /** Between `from` and its next match the answer does not change. */
  lemma NextMatchConstant(minutes: MinuteSet, from: Time, later: Time)
    requires NextMatch(minutes, from).Some? && from <= later < NextMatch(minutes, from).value * MINUTE
    ensures NextMatch(minutes, later) == NextMatch(minutes, from)
  {
    var t := NextMatch(minutes, from).value;
    AfterFrom(later, t);
    ScanFinds(minutes, StartMinute(from), StartMinute(from) + WINDOW);
    ScanIsLeastMatch(minutes, StartMinute(later), StartMinute(later) + WINDOW);
    assert IsFirstMatch(minutes, StartMinute(later), StartMinute(later) + WINDOW, t);
  }

  /** A later start never gives an earlier next match. */
  lemma NextMatchMonotone(minutes: MinuteSet, from: Time, later: Time)
    requires from <= later && NextMatch(minutes, from).Some? && NextMatch(minutes, later).Some?
    ensures NextMatch(minutes, from).value <= NextMatch(minutes, later).value
  {
    ScanFinds(minutes, StartMinute(from), StartMinute(from) + WINDOW);
    ScanFinds(minutes, StartMinute(later), StartMinute(later) + WINDOW);
  }

  /** Up to `n` successive firing minutes after `from`. */
  function Iterate(minutes: MinuteSet, from: Time, n: nat): seq<int>
    decreases n
  {
    if n == 0 then [] else
    match NextMatch(minutes, from)
    case None => []
    case Some(t) => [t] + Iterate(minutes, t * MINUTE, n - 1)
  }

  /** The instant an iteration has reached. */
  function Reached(from: Time, firings: seq<int>): Time {
    if firings == [] then from else firings[|firings| - 1] * MINUTE
  }

  /**
   Iterating the search lists exactly the matching minutes of (from, reached], once each and in increasing order,
   and it stops early only before a gap of 730 days without a match.
   */
  lemma {:induction false} EnumeratesAllMatches(minutes: MinuteSet, from: Time, n: nat)
    ensures var s := Iterate(minutes, from, n);
            && (forall i, j :: 0 <= i < j < |s| ==> s[i] < s[j])
            && (forall m :: m in s <==> MatchIn(minutes, from, m, Reached(from, s)))
            && (|s| < n ==> NextMatch(minutes, Reached(from, s)) == None)
    decreases n
  {
    hide NextMatch, MatchIn;
    if n > 0 && NextMatch(minutes, from).Some? {
      NextMatchIsLeast(minutes, from);
      var t := NextMatch(minutes, from).value;
      EnumeratesAllMatches(minutes, t * MINUTE, n - 1);
      var rest := Iterate(minutes, t * MINUTE, n - 1);
      assert Iterate(minutes, from, n) == [t] + rest;
      EnumerationGrows(minutes, from, t, rest);
    } else {
      NothingIn(minutes, from);
    }
  }

  /** With `t` the least match after `from`, a match is `t` or a match after `t`. */
  lemma MatchSplits(minutes: MinuteSet, from: Time, t: int, m: int, end: Time)
    requires MatchIn(minutes, from, t, t * MINUTE) && t * MINUTE <= end
    requires forall u :: minutes(u) && from < u * MINUTE ==> t <= u
    ensures MatchIn(minutes, from, m, end) <==> m == t || MatchIn(minutes, t * MINUTE, m, end)
  {
  }

  lemma NothingIn(minutes: MinuteSet, from: Time)
    ensures forall m :: !MatchIn(minutes, from, m, from)
  {
  }

  /** The least match followed by all matches after it are all matches. */
  lemma EnumerationGrows(minutes: MinuteSet, from: Time, t: int, rest: seq<int>)
    requires MatchIn(minutes, from, t, t * MINUTE)
    requires forall u :: minutes(u) && from < u * MINUTE ==> t <= u
    requires forall i, j :: 0 <= i < j < |rest| ==> rest[i] < rest[j]
    requires forall m :: m in rest <==> MatchIn(minutes, t * MINUTE, m, Reached(t * MINUTE, rest))
    ensures var s := [t] + rest;
            && Reached(from, s) == Reached(t * MINUTE, rest)
            && (forall i, j :: 0 <= i < j < |s| ==> s[i] < s[j])
            && (forall m :: m in s <==> MatchIn(minutes, from, m, Reached(from, s)))
  {
    var s := [t] + rest;
    var end := Reached(t * MINUTE, rest);
    assert Reached(from, s) == end;
    assert t * MINUTE <= end by {
      if rest != [] {
        assert rest[|rest| - 1] in rest;
      }
    }
    forall i, j | 0 <= i < j < |s|
      ensures s[i] < s[j]
    {
      assert s[j] == rest[j - 1] && rest[j - 1] in rest;
    }
    forall m
      ensures m in s <==> MatchIn(minutes, from, m, end)
    {
      assert m in s <==> m == t || m in rest;
      hide Reached;
      MatchSplits(minutes, from, t, m, end);
    }
  }

  // ---------------------------------------------------------------------------
  // A schedule the window is too short for
  // ---------------------------------------------------------------------------

  /** A minute on February 29 lies in a leap year. */
  lemma LeapDayInLeapYear(t: int)
    requires MonthOf(t) == 2 && DayOf(t) == 29
    ensures IsLeap(YearOf(t))
    ensures t / MINUTES_PER_DAY == DayNumber(YearOf(t), 2, 29)
  {
    DayNumberOfFields(t / MINUTES_PER_DAY);
    hide ToYearDay;
    DateOfFields(t);
  }

  /** Two different February 29 are more than 730 days apart. */
  lemma LeapDaysAreFar(year: int, y: int)
    requires IsLeap(year) && IsLeap(y) && year < y
    ensures DayNumber(y, 2, 29) > DayNumber(year, 2, 29) + 730
  {
    DayNumberInYear(year, 2, 29);
    DayNumberInYear(y, 2, 29);
    NotLeapNear(year);
    assert y >= year + 3;
    hide IsLeap, DaysBeforeYear, DayNumber;
    YearLength(year);
    YearLength(year + 1);
    YearsAreOrdered(year + 2, y);
    assert DaysInYear(year) == 366 && DaysInYear(year + 1) == 365 && DaysInYear(year + 2) == 365;
  }

  lemma NotLeapNear(year: int)
    requires IsLeap(year)
    ensures !IsLeap(year + 1) && !IsLeap(year + 2)
  {
  }

  /** Midnight of every February 29. */
  predicate IsLeapDaySchedule(pc: ParsedCron) {
    && pc.minute == OneOf({0}) && pc.hour == OneOf({0}) && pc.dom == OneOf({29}) && pc.month == OneOf({2})
    && pc.dow == Any
  }

  /** The first minute of February 29 of `year`. */
  function LeapMidnight(year: int): int {
    Date(year, 2, 29, 0, 0)
  }

  /** The minutes of the schedule are the first minutes of the leap years' February 29. */
  lemma LeapDayMatches(pc: ParsedCron, u: int)
    requires IsLeapDaySchedule(pc)
    ensures Matches(pc, u) ==> IsLeap(YearOf(u)) && u == LeapMidnight(YearOf(u))
  {
    hide YearOf, MonthOf, DayOf, HourOf, MinuteOf, WeekdayOf, Date, IsLeap;
    if Matches(pc, u) {
      assert MonthOf(u) == 2 && DayOf(u) == 29 && HourOf(u) == 0 && MinuteOf(u) == 0;
      LeapDayInLeapYear(u);
      DateOfFields(u);
    }
  }

  lemma LeapMidnightMatches(pc: ParsedCron, year: int)
    requires IsLeapDaySchedule(pc) && IsLeap(year)
    ensures Matches(pc, LeapMidnight(year))
  {
    assert 29 <= DaysInMonth(year, 2);
    FieldsOfDate(year, 2, 29, 0, 0);
    hide YearOf, MonthOf, DayOf, HourOf, MinuteOf, WeekdayOf, Date;
  }

  /** From any instant, the search fails exactly when every later midnight of a February 29 is over 730 days away. */
  lemma LeapDaySearchIff(pc: ParsedCron, from: Time)
    requires IsLeapDaySchedule(pc)
    ensures NextMatch(Minutes(pc), from) == None
            <==> forall y :: IsLeap(y) && from < LeapMidnight(y) * MINUTE ==>
                   from + WINDOW * MINUTE < LeapMidnight(y) * MINUTE
  {
    hide NextMatch, Matches, IsLeap, LeapMidnight;
    NextMatchIff(Minutes(pc), from);
    if NextMatch(Minutes(pc), from) == None {
      forall y | IsLeap(y) && from < LeapMidnight(y) * MINUTE
        ensures from + WINDOW * MINUTE < LeapMidnight(y) * MINUTE
      {
        LeapMidnightMatches(pc, y);
        assert Minutes(pc)(LeapMidnight(y));
      }
    } else {
      NextMatchIsLeast(Minutes(pc), from);
      var u := NextMatch(Minutes(pc), from).value;
      LeapDayMatches(pc, u);
    }
  }

  /** The leap year after `year`: four years after the last multiple of four, or eight across most centuries. */
  function NextLeapYear(year: int): (next: int)
    ensures year < next && IsLeap(next) && forall y :: year < y < next ==> !IsLeap(y)
  {
    var next := year / 4 * 4 + 4;
    if IsLeap(next) then next else next + 4
  }

  lemma LeapMidnightsAreOrdered(year: int, y: int)
    requires IsLeap(year) && IsLeap(y) && year < y
    ensures LeapMidnight(year) + WINDOW + MINUTES_PER_DAY <= LeapMidnight(y)
  {
    LeapDaysAreFar(year, y);
    hide DayNumber, IsLeap;
  }

  /** After the midnight of February 29 of `year`, the next one is that of the next leap year. */
  lemma NextLeapMidnight(year: int, from: Time, y: int)
    requires IsLeap(year) && IsLeap(y) && LeapMidnight(year) * MINUTE <= from < LeapMidnight(y) * MINUTE
    ensures LeapMidnight(NextLeapYear(year)) <= LeapMidnight(y)
  {
    hide LeapMidnight;
    var next := NextLeapYear(year);
    if y < year {
      LeapMidnightsAreOrdered(y, year);
    } else if next < y {
      LeapMidnightsAreOrdered(next, y);
    }
    hide IsLeap, NextLeapYear;
  }

  /**
   From an instant between two successive midnights of February 29, the search finds the second exactly when it is at
   most 730 days away, and nothing otherwise.
   */
  lemma LeapDayGap(pc: ParsedCron, year: int, from: Time)
    requires IsLeapDaySchedule(pc) && IsLeap(year)
    requires LeapMidnight(year) * MINUTE <= from < LeapMidnight(NextLeapYear(year)) * MINUTE
    ensures var next := LeapMidnight(NextLeapYear(year));
            NextMatch(Minutes(pc), from) == if from + WINDOW * MINUTE < next * MINUTE then None else Some(next)
  {
    hide NextMatch, Matches, IsLeap, LeapMidnight, NextLeapYear;
    var next := LeapMidnight(NextLeapYear(year));
    forall y | IsLeap(y) && from < LeapMidnight(y) * MINUTE
      ensures next <= LeapMidnight(y)
    {
      NextLeapMidnight(year, from, y);
    }
    LeapDaySearchIff(pc, from);
    LeapMidnightMatches(pc, NextLeapYear(year));
    assert Minutes(pc)(next);
    NextMatchIsLeast(Minutes(pc), from);
    if NextMatch(Minutes(pc), from).Some? {
      LeapDayMatches(pc, NextMatch(Minutes(pc), from).value);
    }
  }

  /** No match lies between two successive midnights of February 29. */
  lemma NoLeapDayBetween(pc: ParsedCron, year: int, from: Time, p: Time)
    requires IsLeapDaySchedule(pc) && IsLeap(year) && LeapMidnight(year) * MINUTE <= from
    requires p < LeapMidnight(NextLeapYear(year)) * MINUTE
    ensures !SomeMatchIn(Minutes(pc), from, p)
  {
    hide Matches, IsLeap, LeapMidnight, NextLeapYear;
    if SomeMatchIn(Minutes(pc), from, p) {
      var m :| MatchIn(Minutes(pc), from, m, p);
      LeapDayMatches(pc, m);
      NextLeapMidnight(year, from, YearOf(m));
    }
  }

  /** From any instant of February 29 the search for the next February 29 fails. */
  lemma LeapDaySearchFails(pc: ParsedCron, year: int, from: Time)
    requires IsLeapDaySchedule(pc) && IsLeap(year)
    requires Date(year, 2, 29, 0, 0) * MINUTE <= from < Date(year, 2, 30, 0, 0) * MINUTE
    ensures NextMatch(Minutes(pc), from) == None
  {
    assert Date(year, 2, 30, 0, 0) == LeapMidnight(year) + MINUTES_PER_DAY;
    LeapMidnightsAreOrdered(year, NextLeapYear(year));
    hide NextMatch, IsLeap, NextLeapYear;
    LeapDayGap(pc, year, from);
  }
}
