/** Parsing one cron field and the five-field expression, and what the accepted fields mean. */
module CronField {
  import opened Wrappers
  import opened Strings

  /** A nil value set in the source is `Any`. */
  datatype Field = Any | OneOf(values: set<int>) {
    predicate Matches(v: int) {
      Any? || v in values
    }
  }

  datatype FieldError =
    | InvalidStep
    | InvalidRangeStart
    | InvalidRangeEnd
    | InvalidRange
    | RangeOutOfBounds
    | InvalidValue
    | ValueOutOfBounds

  // ---------------------------------------------------------------------------
  // The value sets
  // ---------------------------------------------------------------------------

  /** `v` is `start` plus a multiple of `step`. */
  predicate OnStep(v: int, start: int, step: int)
    requires step > 0
  {
    (v - start) % step == 0
  }

  /** What the loop `for v := start; v <= end; v += step` visits. */
  function StepValues(start: int, end: int, step: int): set<int>
    requires step > 0
  {
    set v | start <= v <= end && OnStep(v, start, step)
  }

  function RangeValues(a: int, b: int): (values: set<int>)
    ensures forall v :: v in values <==> a <= v <= b
  {
    StepValues(a, b, 1)
  }

  /** One comma-separated part: a value or a range, both checked against the bounds. */
  function PartValues(part: string, lo: int, hi: int): (r: Result<set<int>, FieldError>)
    ensures r.Success? ==> r.value != {} && forall v :: v in r.value ==> lo <= v <= hi
  {
    var p := TrimSpace(part);
    if '-' in p then
      var bounds := SplitTwo(p, '-');
      var a, b := Atoi(bounds[0]), Atoi(bounds[1]);
      if a.None? || b.None? then Failure(InvalidRange)
      else if a.value > b.value || a.value < lo || b.value > hi then Failure(RangeOutOfBounds)
      else
        assert a.value in RangeValues(a.value, b.value);
        Success(RangeValues(a.value, b.value))
    else
      var v := Atoi(p);
      if v.None? then Failure(InvalidValue)
      else if v.value < lo || v.value > hi then Failure(ValueOutOfBounds)
      else Success({v.value})
  }

  /** All parts, left to right; the first bad part is the error. */
  function ListValues(parts: seq<string>, lo: int, hi: int): (r: Result<set<int>, FieldError>)
    ensures r.Success? && parts != [] ==> r.value != {}
    ensures r.Success? ==> forall v :: v in r.value ==> lo <= v <= hi
  {
    if parts == [] then Success({}) else
    var before :- ListValues(parts[..|parts| - 1], lo, hi);
    var last :- PartValues(parts[|parts| - 1], lo, hi);
    Success(before + last)
  }

  /** The start and end of a step expression's range, before the step. */
  function StepRange(text: string, lo: int, hi: int): Result<(int, int), FieldError> {
    if text == "*" then Success((lo, hi)) else
    var parts := SplitTwo(text, '-');
    var start := Atoi(parts[0]);
    if start.None? then Failure(InvalidRangeStart)
    else if |parts| == 1 then Success((start.value, hi))
    else
      var end := Atoi(parts[1]);
      if end.None? then Failure(InvalidRangeEnd) else Success((start.value, end.value))
  }

  /** The meaning of a field token; step expressions are not checked against the bounds. */
  function ParseField(field: string, lo: int, hi: int): Result<Field, FieldError> {
    var token := TrimSpace(field);
    if token == "*" then Success(Any)
    else if '/' in token then
      var parts := SplitTwo(token, '/');
      var step := Atoi(parts[1]);
      if step.None? || step.value <= 0 then Failure(InvalidStep) else
      var range :- StepRange(parts[0], lo, hi);
      Success(OneOf(StepValues(range.0, range.1, step.value)))
    else
      var values :- ListValues(Split(token, ','), lo, hi);
      Success(OneOf(values))
  }

  /** `parseCronField`: the `vals` map is filled one value at a time. */
  method ParseCronField(field: string, lo: int, hi: int) returns (r: Result<Field, FieldError>)
    ensures r == ParseField(field, lo, hi)
  {
    hide TrimSpace, Atoi, SplitTwo, Split, OnStep;
    var token := TrimSpace(field);
    if token == "*" {
      return Success(Any);
    }
    var vals: set<int> := {};
    if '/' in token {
      var parts := SplitTwo(token, '/');
      var step := Atoi(parts[1]);
      if step.None? || step.value <= 0 {
        return Failure(InvalidStep);
      }
      var rangeStart, rangeEnd := lo, hi;
      if parts[0] != "*" {
        var rangeParts := SplitTwo(parts[0], '-');
        var start := Atoi(rangeParts[0]);
        if start.None? {
          return Failure(InvalidRangeStart);
        }
        rangeStart := start.value;
        if |rangeParts| == 2 {
          var end := Atoi(rangeParts[1]);
          if end.None? {
            return Failure(InvalidRangeEnd);
          }
          rangeEnd := end.value;
        } else {
          rangeEnd := hi;
        }
      }
      vals := CollectSteps(rangeStart, rangeEnd, step.value);
      return Success(OneOf(vals));
    }
    var list := Split(token, ',');
    for i := 0 to |list|
      invariant ListValues(list[..i], lo, hi) == Success(vals)
    {
      assert list[..i + 1][..i] == list[..i];
      var part := TrimSpace(list[i]);
      if '-' in part {
        var bounds := SplitTwo(part, '-');
        var a, b := Atoi(bounds[0]), Atoi(bounds[1]);
        if a.None? || b.None? {
          ListFailure(list, i, lo, hi);
          return Failure(InvalidRange);
        }
        if a.value > b.value || a.value < lo || b.value > hi {
          ListFailure(list, i, lo, hi);
          return Failure(RangeOutOfBounds);
        }
        var more := CollectSteps(a.value, b.value, 1);
        vals := vals + more;
      } else {
        var v := Atoi(part);
        if v.None? {
          ListFailure(list, i, lo, hi);
          return Failure(InvalidValue);
        }
        if v.value < lo || v.value > hi {
          ListFailure(list, i, lo, hi);
          return Failure(ValueOutOfBounds);
        }
        vals := vals + {v.value};
      }
    }
    assert list[..|list|] == list;
    return Success(OneOf(vals));
  }

  /** The counting loops `for v := start; v <= end; v += step`. */
  method CollectSteps(start: int, end: int, step: int) returns (vals: set<int>)
    requires step > 0
    ensures vals == StepValues(start, end, step)
  {
    hide OnStep;
    vals := {};
    var v := start;
    ghost var k := 0;
    while v <= end
      invariant v == start + k * step && k >= 0
      invariant forall u :: u in vals <==> u in StepValues(start, end, step) && u < v
      decreases end - v
    {
      StepGap(start, v, step, k);
      vals := vals + {v};
      v := v + step;
      k := k + 1;
    }
  }

  /** Between two multiples of the step there is no third. */
  lemma StepGap(start: int, v: int, step: int, k: int)
    requires step > 0 && v == start + k * step
    ensures OnStep(v, start, step)
    ensures v + step == start + (k + 1) * step
    ensures forall u :: v < u < v + step ==> !OnStep(u, start, step)
  {
    ModOfMultiple(k, step, 0);
    forall u | v < u < v + step
      ensures !OnStep(u, start, step)
    {
      ModOfMultiple(k, step, u - v);
      assert u - start == k * step + (u - v);
    }
  }

  lemma ModOfMultiple(k: int, step: int, r: int)
    requires step > 0 && 0 <= r < step
    ensures (k * step + r) % step == r
  {
    var n := k * step + r;
    var q, m := n / step, n % step;
    assert n == step * q + m;
    if q < k {
      Scaled(k, q, step);
    } else if k < q {
      Scaled(q, k, step);
    }
  }

  lemma Scaled(a: int, b: int, step: int)
    requires a > b && step > 0
    ensures a * step - b * step >= step
  {
    assert a * step - b * step == (a - b) * step;
    assert (a - b - 1) * step >= 0;
  }

  /** A bad part makes the whole list fail with that part's error when all earlier parts are good. */
  lemma {:induction false} ListFailure(parts: seq<string>, i: nat, lo: int, hi: int)
    requires i < |parts|
    requires ListValues(parts[..i], lo, hi).Success?
    requires PartValues(parts[i], lo, hi).Failure?
    ensures ListValues(parts, lo, hi) == Failure(PartValues(parts[i], lo, hi).error)
  {
    var front := parts[..|parts| - 1];
    if i == |parts| - 1 {
      assert front == parts[..i];
    } else {
      assert front[..i] == parts[..i];
      ListFailure(front, i, lo, hi);
    }
  }

  // ---------------------------------------------------------------------------
  // What accepted fields mean
  // ---------------------------------------------------------------------------

  /** A star and the full range agree on every in-range value. */
  lemma StarIsFullRange(lo: int, hi: int)
    requires 0 <= lo <= hi <= MAX_INT64
    ensures ParseField("*", lo, hi) == Success(Any)
    ensures var full := ParseField(RenderItems([Range(lo, hi)]), lo, hi);
            full.Success? && forall v :: lo <= v <= hi ==> full.value.Matches(v) && Any.Matches(v)
  {
    TrimIsIdentity("*");
    ItemsRoundTrip([Range(lo, hi)], lo, hi);
    assert ItemsValues([Range(lo, hi)]) == RangeValues(lo, hi) by {
      assert [Range(lo, hi)][..0] == [];
    }
  }

  /** What a step is applied to: "*", a start that runs to the end of the bounds, or a range. */
  datatype StepBase = All | From(a: nat) | Between(a: nat, b: nat) {
    function Render(): (s: string)
      ensures s != "" && '/' !in s
      ensures !IsSpace(s[0])
    {
      match this
      case All => "*"
      case From(a) => DigitsHaveNoSlash(Itoa(a)); Itoa(a)
      case Between(a, b) =>
        DigitsHaveNoSlash(Itoa(a));
        DigitsHaveNoSlash(Itoa(b));
        Itoa(a) + "-" + Itoa(b)
    }

    function Start(lo: int): int {
      if All? then lo else a
    }

    function End(hi: int): int {
      if Between? then b else hi
    }

    predicate Valid() {
      match this
      case All => true
      case From(a) => a <= MAX_INT64
      case Between(a, b) => a <= MAX_INT64 && b <= MAX_INT64
    }
  }

  lemma DigitsHaveNoSlash(s: string)
    requires AllDigits(s)
    ensures '/' !in s && '-' !in s && s != "*" && (s != "" ==> !IsSpace(s[0]))
  {
    if s != "" {
      assert IsDigit(s[0]);
    }
  }

  function RenderStep(base: StepBase, n: nat): string {
    base.Render() + "/" + Itoa(n)
  }

  /** The values that a step expression accepts. */
  function SteppedValues(base: StepBase, n: nat, lo: int, hi: int): set<int>
    requires n > 0
  {
    StepValues(base.Start(lo), base.End(hi), n)
  }

  lemma StepRangeOfRendered(base: StepBase, lo: int, hi: int)
    requires base.Valid()
    ensures StepRange(base.Render(), lo, hi) == Success((base.Start(lo), base.End(hi)))
  {
    match base
    case All =>
    case From(a) =>
      AtoiItoa(a);
      DigitsHaveNoSlash(Itoa(a));
      SplitAtSeparator(Itoa(a), "", '-');
    case Between(a, b) =>
      AtoiItoa(a);
      AtoiItoa(b);
      DigitsHaveNoSlash(Itoa(a));
      assert base.Render() == Itoa(a) + ['-'] + Itoa(b);
      assert base.Render()[|Itoa(a)|] == '-';
      SplitAtSeparator(Itoa(a), Itoa(b), '-');
  }

  lemma StepTokenSplits(base: StepBase, n: nat)
    ensures var token := RenderStep(base, n);
            && SplitTwo(token, '/') == [base.Render(), Itoa(n)] && '/' in token
            && TrimSpace(token) == token && token != "*"
  {
    var token := RenderStep(base, n);
    assert token == base.Render() + ['/'] + Itoa(n);
    SplitAtSeparator(base.Render(), Itoa(n), '/');
    assert token[|base.Render()|] == '/';
    assert token[0] == base.Render()[0] && token[|token| - 1] == Itoa(n)[|Itoa(n)| - 1];
    TrimIsIdentity(token);
  }

  /**
   A step expression parses to the values from start to end whose distance from the start the step divides; a zero step
   is refused.
   */
  lemma StepRoundTrip(base: StepBase, n: nat, lo: int, hi: int)
    requires base.Valid()
    ensures ParseField(RenderStep(base, n), lo, hi)
            == if 0 < n <= MAX_INT64 then Success(OneOf(SteppedValues(base, n, lo, hi))) else Failure(InvalidStep)
  {
    hide TrimSpace, SplitTwo, Atoi, StepRange, StepValues, RenderStep, Itoa, AllDigits;
    StepTokenSplits(base, n);
    StepRangeOfRendered(base, lo, hi);
    AtoiItoa(n);
  }

  /** "*" with step n accepts an in-range v exactly when n divides v - lo, and nothing out of range. */
  lemma StarStepMeaning(n: nat, lo: int, hi: int, v: int)
    requires 0 < n <= MAX_INT64
    ensures var r := ParseField("*/" + Itoa(n), lo, hi);
            r.Success? && (r.value.Matches(v) <==> lo <= v <= hi && OnStep(v, lo, n))
  {
    hide OnStep, ParseField, Itoa, TrimSpace, AllDigits;
    StepRoundTrip(All, n, lo, hi);
    assert RenderStep(All, n) == "*/" + Itoa(n);
    hide RenderStep;
  }

  /**
   Step expressions are not checked against the bounds: all accepted values lie within them exactly when there are none
   or the start and the last value reached do. There are none exactly when the start is after the end.
   */
  lemma StepInBoundsIff(base: StepBase, n: nat, lo: int, hi: int)
    requires 0 < n
    ensures var start, end := base.Start(lo), base.End(hi);
            var values := SteppedValues(base, n, lo, hi);
            && (values == {} <==> start > end)
            && ((forall v :: v in values ==> lo <= v <= hi)
                <==> start > end || (lo <= start && start + (end - start) / n * n <= hi))
  {
    var start, end := base.Start(lo), base.End(hi);
    var values := SteppedValues(base, n, lo, hi);
    if start <= end {
      var last := LastOnStep(start, end, n);
      hide OnStep;
      assert start in values && last in values;
      assert forall v :: v in values ==> start <= v <= last;
    }
  }

  lemma LastOnStep(start: int, end: int, n: nat) returns (last: int)
    requires n > 0 && start <= end
    ensures last == start + (end - start) / n * n && start <= last <= end
    ensures OnStep(start, start, n) && OnStep(last, start, n) && forall v :: last < v <= end ==> !OnStep(v, start, n)
  {
    var k := (end - start) / n;
    last := start + k * n;
    assert k * n <= end - start < k * n + n && k * n >= 0;
    StepGap(start, start, n, 0);
    StepGap(start, last, n, k);
    hide OnStep;
  }

  /** An accepted list (no step) is a nonempty subset of the field's bounds. */
  lemma AcceptedListInBounds(field: string, lo: int, hi: int)
    requires '/' !in TrimSpace(field) && TrimSpace(field) != "*"
    requires ParseField(field, lo, hi).Success?
    ensures var f := ParseField(field, lo, hi).value;
            f.OneOf? && f.values != {} && forall v :: v in f.values ==> lo <= v <= hi
  {
    hide TrimSpace;
    assert Split(TrimSpace(field), ',') != [];
  }

  // ---------------------------------------------------------------------------
  // Rendering and parsing back
  // ---------------------------------------------------------------------------

  datatype Item = Single(v: nat) | Range(a: nat, b: nat)

  function ItemValues(item: Item): set<int> {
    match item
    case Single(v) => {v}
    case Range(a, b) => RangeValues(a, b)
  }

  function ItemsValues(items: seq<Item>): set<int> {
    if items == [] then {} else ItemsValues(items[..|items| - 1]) + ItemValues(items[|items| - 1])
  }

  predicate ItemInBounds(item: Item, lo: int, hi: int) {
    match item
    case Single(v) => lo <= v <= hi
    case Range(a, b) => lo <= a <= b <= hi
  }

  function RenderItem(item: Item): string {
    match item
    case Single(v) => Itoa(v)
    case Range(a, b) => Itoa(a) + "-" + Itoa(b)
  }

  function RenderEach(items: seq<Item>): (parts: seq<string>)
    ensures |parts| == |items|
    ensures forall i :: 0 <= i < |items| ==> parts[i] == RenderItem(items[i])
  {
    seq(|items|, i requires 0 <= i < |items| => RenderItem(items[i]))
  }

  function RenderItems(items: seq<Item>): string {
    Join(RenderEach(items), ',')
  }

  /** Made of digits and the given extra characters only: no space and no slash. */
  predicate Plain(s: string) {
    forall i :: 0 <= i < |s| ==> IsDigit(s[i]) || s[i] in {'-', ','}
  }

  lemma DigitsArePlain(s: string)
    requires AllDigits(s)
    ensures Plain(s) && '-' !in s && ',' !in s
  {
  }

  lemma PlainTrims(s: string)
    requires Plain(s)
    ensures TrimSpace(s) == s && '/' !in s && s != "*" && NoSpaces(s)
  {
    if s != "" {
      assert s[0] != '*';
    }
    TrimIsIdentity(s);
  }

  lemma ItemIsPlain(item: Item)
    ensures Plain(RenderItem(item)) && ',' !in RenderItem(item) && RenderItem(item) != ""
  {
  }

  lemma {:induction false} JoinIsPlain(parts: seq<string>)
    requires forall i :: 0 <= i < |parts| ==> Plain(parts[i])
    ensures Plain(Join(parts, ','))
  {
    if |parts| > 1 {
      JoinIsPlain(parts[1..]);
    }
  }

  lemma PartRoundTrip(item: Item, lo: int, hi: int)
    requires ItemInBounds(item, lo, hi) && hi <= MAX_INT64
    ensures PartValues(RenderItem(item), lo, hi) == Success(ItemValues(item))
  {
    PartAcceptedIff(item, lo, hi);
  }

  lemma RangeSplits(a: nat, b: nat)
    ensures var text := RenderItem(Range(a, b)); '-' in text && SplitTwo(text, '-') == [Itoa(a), Itoa(b)]
  {
    var text := RenderItem(Range(a, b));
    DigitsArePlain(Itoa(a));
    assert text == Itoa(a) + ['-'] + Itoa(b);
    assert text[|Itoa(a)|] == '-';
    SplitAtSeparator(Itoa(a), Itoa(b), '-');
  }

  lemma {:induction false} ListRoundTrip(items: seq<Item>, lo: int, hi: int)
    requires hi <= MAX_INT64
    requires forall i :: 0 <= i < |items| ==> ItemInBounds(items[i], lo, hi)
    ensures ListValues(RenderEach(items), lo, hi) == Success(ItemsValues(items))
  {
    if items != [] {
      var front := items[..|items| - 1];
      var parts := RenderEach(items);
      ListRoundTrip(front, lo, hi);
      assert parts[..|parts| - 1] == RenderEach(front);
      PartRoundTrip(items[|items| - 1], lo, hi);
    }
  }

  /** A rendered list parses back to the set it denotes. */
  lemma ItemsRoundTrip(items: seq<Item>, lo: int, hi: int)
    requires items != [] && hi <= MAX_INT64
    requires forall i :: 0 <= i < |items| ==> ItemInBounds(items[i], lo, hi)
    ensures ParseField(RenderItems(items), lo, hi) == Success(OneOf(ItemsValues(items)))
  {
    RenderedTextSplits(items);
    ListRoundTrip(items, lo, hi);
  }

  predicate ItemInRange(item: Item) {
    match item
    case Single(v) => v <= MAX_INT64
    case Range(a, b) => a <= MAX_INT64 && b <= MAX_INT64
  }

  /** A written value is accepted exactly within the bounds; a written range exactly when it is in order and within. */
  lemma PartAcceptedIff(item: Item, lo: int, hi: int)
    requires ItemInRange(item)
    ensures PartValues(RenderItem(item), lo, hi)
            == match item
               case Single(v) => if lo <= v <= hi then Success({v}) else Failure(ValueOutOfBounds)
               case Range(a, b) =>
                 if lo <= a <= b <= hi then Success(RangeValues(a, b)) else Failure(RangeOutOfBounds)
  {
    ItemTrims(item);
    match item
    case Single(v) =>
      AtoiItoa(v);
      DigitsArePlain(Itoa(v));
      hide Atoi, Itoa, TrimSpace, RangeValues, AllDigits;
    case Range(a, b) =>
      AtoiItoa(a);
      AtoiItoa(b);
      RangeSplits(a, b);
      hide Atoi, Itoa, TrimSpace, SplitTwo, RenderItem, RangeValues;
  }

  lemma ItemTrims(item: Item)
    ensures TrimSpace(RenderItem(item)) == RenderItem(item)
  {
    ItemIsPlain(item);
    PlainTrims(RenderItem(item));
  }

  lemma {:induction false} ListAcceptedIff(items: seq<Item>, lo: int, hi: int)
    requires forall i :: 0 <= i < |items| ==> ItemInRange(items[i])
    ensures ListValues(RenderEach(items), lo, hi).Success?
            <==> forall i :: 0 <= i < |items| ==> ItemInBounds(items[i], lo, hi)
  {
    hide PartValues, RenderItem;
    if items != [] {
      var front, last := items[..|items| - 1], items[|items| - 1];
      var parts := RenderEach(items);
      ListAcceptedIff(front, lo, hi);
      assert parts[..|parts| - 1] == RenderEach(front);
      PartAcceptedIff(last, lo, hi);
      if forall i :: 0 <= i < |front| ==> ItemInBounds(front[i], lo, hi) {
        assert forall i :: 0 <= i < |front| ==> front[i] == items[i];
      }
    }
  }

  lemma RenderedTextSplits(items: seq<Item>)
    requires items != []
    ensures RenderItem(items[0]) != ""
    ensures var text := RenderItems(items);
            && TrimSpace(text) == text && '/' !in text && text != "*" && Split(text, ',') == RenderEach(items)
            && text != "" && NoSpaces(text) && text[0] == RenderItem(items[0])[0]
  {
    var parts := RenderEach(items);
    forall i | 0 <= i < |parts|
      ensures Plain(parts[i]) && ',' !in parts[i] && parts[i] != ""
    {
      ItemIsPlain(items[i]);
    }
    JoinIsPlain(parts);
    PlainTrims(RenderItems(items));
    SplitOfJoin(parts, ',');
    assert RenderItems(items)[0] == parts[0][0];
  }

  /**
   A part is accepted exactly when it is a number within the bounds, or two numbers in order and within the bounds with
   a '-' between them, the first '-' of the part; it denotes the number, or the numbers from the first to the second.
   */
  lemma PartMeaning(part: string, lo: int, hi: int) returns (a: string, b: string)
    ensures var p, r := TrimSpace(part), PartValues(part, lo, hi);
            if '-' in p then
              && p == a + "-" + b && '-' !in a
              && (r.Success? <==> Atoi(a).Some? && Atoi(b).Some? && lo <= Atoi(a).value <= Atoi(b).value <= hi)
              && (r.Success? ==> forall v :: v in r.value <==> Atoi(a).value <= v <= Atoi(b).value)
            else
              && (r.Success? <==> Atoi(p).Some? && lo <= Atoi(p).value <= hi)
              && (r.Success? ==> r.value == {Atoi(p).value})
  {
    var p := TrimSpace(part);
    a, b := "", "";
    hide TrimSpace, Atoi;
    if '-' in p {
      SplitTwoMeaning(p, '-');
      a, b := SplitTwo(p, '-')[0], SplitTwo(p, '-')[1];
      hide SplitTwo;
    }
  }

  /**
   A step expression is accepted exactly when its step is a positive number and what stands before the first '/' is "*",
   a number, or two numbers with a '-' between them, the first '-' there.
   */
  lemma StepAcceptedIff(field: string, lo: int, hi: int) returns (range: string, step: string, a: string, b: string)
    requires '/' in TrimSpace(field)
    ensures TrimSpace(field) == range + "/" + step && '/' !in range
    ensures '-' in range ==> range == a + "-" + b && '-' !in a
    ensures ParseField(field, lo, hi).Success?
            <==> && Atoi(step).Some? && Atoi(step).value > 0
                 && (range == "*" || (if '-' in range then Atoi(a).Some? && Atoi(b).Some? else Atoi(range).Some?))
  {
    var token := TrimSpace(field);
    SplitTwoMeaning(token, '/');
    range, step, a, b := SplitTwo(token, '/')[0], SplitTwo(token, '/')[1], "", "";
    if '-' in range {
      SplitTwoMeaning(range, '-');
      a, b := SplitTwo(range, '-')[0], SplitTwo(range, '-')[1];
    } else {
      NoSeparator(range, '-');
    }
    hide TrimSpace, Atoi, SplitTwo, StepValues;
    assert token != "*" by {
      assert '/' in token;
    }
  }

  lemma NoSeparator(s: string, c: char)
    requires c !in s
    ensures SplitTwo(s, c) == [s]
  {
    SplitAtSeparator(s, "", c);
  }

  /** A written list is accepted exactly when all its values and ranges are in order and within the bounds. */
  lemma ItemsAcceptedIff(items: seq<Item>, lo: int, hi: int)
    requires items != [] && forall i :: 0 <= i < |items| ==> ItemInRange(items[i])
    ensures ParseField(RenderItems(items), lo, hi).Success?
            <==> forall i :: 0 <= i < |items| ==> ItemInBounds(items[i], lo, hi)
  {
    RenderedTextSplits(items);
    ListAcceptedIff(items, lo, hi);
    hide TrimSpace, Split, ListValues, RenderItems, ItemInBounds;
  }

  /** Every nonempty set within the bounds has a rendering that parses back to exactly that set. */
  lemma EverySetIsExpressible(s: set<int>, lo: int, hi: int) returns (items: seq<Item>)
    requires s != {} && 0 <= lo && hi <= MAX_INT64
    requires forall v :: v in s ==> lo <= v <= hi
    ensures ParseField(RenderItems(items), lo, hi) == Success(OneOf(s))
  {
    items := Singles(s, lo, hi);
    ItemsRoundTrip(items, lo, hi);
  }

  lemma {:induction false} Singles(s: set<int>, lo: int, hi: int) returns (items: seq<Item>)
    requires 0 <= lo && forall v :: v in s ==> lo <= v <= hi
    ensures forall i :: 0 <= i < |items| ==> ItemInBounds(items[i], lo, hi)
    ensures ItemsValues(items) == s
    ensures s != {} ==> items != []
    decreases hi - lo + 1
  {
    if hi < lo {
      items := [];
      assert forall v :: v !in s;
    } else {
      items := Singles(s - {hi}, lo, hi - 1);
      if hi in s {
        var front := items;
        items := items + [Single(hi)];
        assert items[..|items| - 1] == front;
      } else {
        assert s == s - {hi};
      }
    }
  }

  // ---------------------------------------------------------------------------
  // The five-field expression
  // ---------------------------------------------------------------------------

  datatype ParsedCron = ParsedCron(minute: Field, hour: Field, dom: Field, month: Field, dow: Field)

  datatype ExprError = FieldCount(n: nat) | BadField(position: nat, error: FieldError)

  function ParseAt(fields: seq<string>, position: nat, lo: int, hi: int): Result<Field, ExprError>
    requires position < |fields|
  {
    match ParseField(fields[position], lo, hi)
    case Success(f) => Success(f)
    case Failure(e) => Failure(BadField(position, e))
  }

  /** The meaning of an expression: exactly five fields, parsed left to right against their bounds. */
  function ParseExpr(expr: string): Result<ParsedCron, ExprError> {
    var fields := Fields(expr);
    if |fields| != 5 then Failure(FieldCount(|fields|)) else
    var minute :- ParseAt(fields, 0, 0, 59);
    var hour :- ParseAt(fields, 1, 0, 23);
    var dom :- ParseAt(fields, 2, 1, 31);
    var month :- ParseAt(fields, 3, 1, 12);
    var dow :- ParseAt(fields, 4, 0, 6);
    Success(ParsedCron(minute, hour, dom, month, dow))
  }

  /** `parseCronExpr`. */
  method ParseCronExpr(expr: string) returns (r: Result<ParsedCron, ExprError>)
    ensures r == ParseExpr(expr)
  {
    var fields := Fields(expr);
    if |fields| != 5 {
      return Failure(FieldCount(|fields|));
    }
    var minute := ParseCronField(fields[0], 0, 59);
    if minute.Failure? {
      return Failure(BadField(0, minute.error));
    }
    var hour := ParseCronField(fields[1], 0, 23);
    if hour.Failure? {
      return Failure(BadField(1, hour.error));
    }
    var dom := ParseCronField(fields[2], 1, 31);
    if dom.Failure? {
      return Failure(BadField(2, dom.error));
    }
    var month := ParseCronField(fields[3], 1, 12);
    if month.Failure? {
      return Failure(BadField(3, month.error));
    }
    var dow := ParseCronField(fields[4], 0, 6);
    if dow.Failure? {
      return Failure(BadField(4, dow.error));
    }
    return Success(ParsedCron(minute.value, hour.value, dom.value, month.value, dow.value));
  }

  /** How a user writes a field: a star, a list of values and ranges, or a step expression. */
  datatype FieldText = Star | List(items: seq<Item>) | Stepped(base: StepBase, n: nat) {
    predicate Valid(lo: int, hi: int) {
      match this
      case Star => true
      case List(items) => items != [] && forall i :: 0 <= i < |items| ==> ItemInBounds(items[i], lo, hi)
      case Stepped(base, n) => base.Valid() && 0 < n <= MAX_INT64
    }

    /** Its list is not empty and its numbers have 64 bits, in bounds or not. */
    predicate Writable() {
      match this
      case Star => true
      case List(items) => items != [] && forall i :: 0 <= i < |items| ==> ItemInRange(items[i])
      case Stepped(base, n) => base.Valid() && n <= MAX_INT64
    }

    function Render(): string {
      match this
      case Star => "*"
      case List(items) => RenderItems(items)
      case Stepped(base, n) => RenderStep(base, n)
    }

    function Meaning(lo: int, hi: int): Field
      requires Valid(lo, hi)
    {
      match this
      case Star => Any
      case List(items) => OneOf(ItemsValues(items))
      case Stepped(base, n) => OneOf(SteppedValues(base, n, lo, hi))
    }
  }

  lemma TextRoundTrip(text: FieldText, lo: int, hi: int)
    requires 0 <= lo && hi <= MAX_INT64 && text.Valid(lo, hi)
    ensures ParseField(text.Render(), lo, hi) == Success(text.Meaning(lo, hi))
    ensures text.Render() != "" && NoSpaces(text.Render())
  {
    if text.Star? {
      TrimIsIdentity("*");
    } else if text.Stepped? {
      StepRoundTrip(text.base, text.n, lo, hi);
      StepHasNoSpaces(text.base, text.n);
    } else {
      ItemsRoundTrip(text.items, lo, hi);
      RenderedTextSplits(text.items);
    }
  }

  /** A written field is accepted exactly when it is within its bounds and its step, if any, is not zero. */
  lemma TextAcceptedIff(text: FieldText, lo: int, hi: int)
    requires text.Writable()
    ensures ParseField(text.Render(), lo, hi).Success? <==> text.Valid(lo, hi)
    ensures text.Render() != "" && NoSpaces(text.Render())
  {
    match text
    case Star => TrimIsIdentity("*");
    case Stepped(base, n) =>
      StepRoundTrip(base, n, lo, hi);
      StepHasNoSpaces(base, n);
      hide ParseField, RenderStep, SteppedValues, NoSpaces;
    case List(items) =>
      ItemsAcceptedIff(items, lo, hi);
      RenderedTextSplits(items);
      hide ParseField, RenderItems, NoSpaces, ItemInBounds, ItemInRange;
  }

  lemma StepHasNoSpaces(base: StepBase, n: nat)
    ensures RenderStep(base, n) != "" && NoSpaces(RenderStep(base, n))
  {
    var token := RenderStep(base, n);
    forall i | 0 <= i < |token|
      ensures IsDigit(token[i]) || token[i] in {'*', '-', '/'}
    {
      if i >= |base.Render()| + 1 {
        assert token[i] == Itoa(n)[i - |base.Render()| - 1];
      }
    }
  }

  /** Five fields with gaps between and around them. */
  function RenderCron(
    minute: FieldText, hour: FieldText, dom: FieldText, month: FieldText, dow: FieldText, gaps: seq<string>): string
    requires |gaps| == 6
  {
    Weave(gaps, [minute.Render(), hour.Render(), dom.Render(), month.Render(), dow.Render()])
  }

  /** Five rendered fields set apart by any white space parse back to their five meanings. */
  lemma ExprRoundTrip(
    minute: FieldText, hour: FieldText, dom: FieldText, month: FieldText, dow: FieldText, gaps: seq<string>)
    requires minute.Valid(0, 59) && hour.Valid(0, 23) && dom.Valid(1, 31) && month.Valid(1, 12) && dow.Valid(0, 6)
    requires |gaps| == 6 && AreGaps(gaps)
    ensures ParseExpr(RenderCron(minute, hour, dom, month, dow, gaps))
            == Success(ParsedCron(minute.Meaning(0, 59), hour.Meaning(0, 23), dom.Meaning(1, 31),
                                  month.Meaning(1, 12), dow.Meaning(0, 6)))
  {
    hide ParseField, Fields, NoSpaces, Weave, AreGaps, RenderItems, ItemsValues, ItemInBounds;
    hide SteppedValues, RenderStep;
    var words := [minute.Render(), hour.Render(), dom.Render(), month.Render(), dow.Render()];
    TextRoundTrip(minute, 0, 59);
    TextRoundTrip(hour, 0, 23);
    TextRoundTrip(dom, 1, 31);
    TextRoundTrip(month, 1, 12);
    TextRoundTrip(dow, 0, 6);
    FieldsOfWeave(gaps, words);
    assert Fields(RenderCron(minute, hour, dom, month, dow, gaps)) == words;
  }

  /** Five written fields are accepted exactly when each is valid in its bounds; the first that is not is the error. */
  lemma ExprAcceptedIff(
    minute: FieldText, hour: FieldText, dom: FieldText, month: FieldText, dow: FieldText, gaps: seq<string>)
    requires minute.Writable() && hour.Writable() && dom.Writable() && month.Writable() && dow.Writable()
    requires |gaps| == 6 && AreGaps(gaps)
    ensures var r := ParseExpr(RenderCron(minute, hour, dom, month, dow, gaps));
            if !minute.Valid(0, 59) then r.Failure? && r.error.BadField? && r.error.position == 0
            else if !hour.Valid(0, 23) then r.Failure? && r.error.BadField? && r.error.position == 1
            else if !dom.Valid(1, 31) then r.Failure? && r.error.BadField? && r.error.position == 2
            else if !month.Valid(1, 12) then r.Failure? && r.error.BadField? && r.error.position == 3
            else if !dow.Valid(0, 6) then r.Failure? && r.error.BadField? && r.error.position == 4
            else r.Success?
  {
    hide *;
    TextAcceptedIff(minute, 0, 59);
    TextAcceptedIff(hour, 0, 23);
    TextAcceptedIff(dom, 1, 31);
    TextAcceptedIff(month, 1, 12);
    TextAcceptedIff(dow, 0, 6);
    var words := RenderedFields(minute, hour, dom, month, dow, gaps);
    FieldsOfFive(words, gaps);
    FirstBadField(RenderCron(minute, hour, dom, month, dow, gaps), words);
  }

  lemma RenderedFields(
    minute: FieldText, hour: FieldText, dom: FieldText, month: FieldText, dow: FieldText, gaps: seq<string>)
    returns (words: seq<string>)
    requires |gaps| == 6
    ensures words == [minute.Render(), hour.Render(), dom.Render(), month.Render(), dow.Render()]
    ensures RenderCron(minute, hour, dom, month, dow, gaps) == Weave(gaps, words)
  {
    words := [minute.Render(), hour.Render(), dom.Render(), month.Render(), dow.Render()];
  }

  lemma FieldsOfFive(words: seq<string>, gaps: seq<string>)
    requires |words| == 5 && |gaps| == 6 && AreGaps(gaps)
    requires forall i :: 0 <= i < |words| ==> words[i] != "" && NoSpaces(words[i])
    ensures Fields(Weave(gaps, words)) == words
  {
    hide *;
    FieldsOfWeave(gaps, words);
  }

  /** The first of five fields that does not parse is the error. */
  lemma FirstBadField(expr: string, words: seq<string>)
    requires |words| == 5 && Fields(expr) == words
    ensures var r := ParseExpr(expr);
            if ParseField(words[0], 0, 59).Failure? then r == Failure(BadField(0, ParseField(words[0], 0, 59).error))
            else if ParseField(words[1], 0, 23).Failure? then
              r == Failure(BadField(1, ParseField(words[1], 0, 23).error))
            else if ParseField(words[2], 1, 31).Failure? then
              r == Failure(BadField(2, ParseField(words[2], 1, 31).error))
            else if ParseField(words[3], 1, 12).Failure? then
              r == Failure(BadField(3, ParseField(words[3], 1, 12).error))
            else if ParseField(words[4], 0, 6).Failure? then
              r == Failure(BadField(4, ParseField(words[4], 0, 6).error))
            else r.Success?
  {
    hide ParseField, Fields;
  }

  /** Any other number of words is refused. */
  lemma OtherCountsRefused(words: seq<string>, gaps: seq<string>)
    requires |gaps| == |words| + 1 && AreGaps(gaps) && |words| != 5
    requires forall i :: 0 <= i < |words| ==> words[i] != "" && NoSpaces(words[i])
    ensures ParseExpr(Weave(gaps, words)) == Failure(FieldCount(|words|))
  {
    FieldsOfWeave(gaps, words);
    hide Fields, Weave;
  }
}
