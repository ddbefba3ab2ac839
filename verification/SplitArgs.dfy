/** The command-line splitter: double quotes group, spaces separate. */
module SplitArgs {

  /** The loop's state: finished arguments, the current one, and whether a quote is open. */
  datatype State = State(args: seq<string>, cur: string, inQuote: bool)

  function Step(s: State, c: char): State {
    if c == '"' then s.(inQuote := !s.inQuote)
    else if c == ' ' && !s.inQuote then
      (if s.cur != "" then State(s.args + [s.cur], "", false) else s)
    else s.(cur := s.cur + [c])
  }

  function Scan(s: State, line: string): State
    decreases |line|
  {
    if line == "" then s else Scan(Step(s, line[0]), line[1..])
  }

  function Finish(s: State): seq<string> {
    if s.cur != "" then s.args + [s.cur] else s.args
  }

  function Split(line: string): seq<string> {
    Finish(Scan(State([], "", false), line))
  }

  /** `splitArgs`. */
  method SplitLine(line: string) returns (args: seq<string>)
    ensures args == Split(line)
  {
    args := [];
    var cur := "";
    var inQuote := false;
    for i := 0 to |line|
      invariant Scan(State(args, cur, inQuote), line[i..]) == Scan(State([], "", false), line)
    {
      assert line[i..][1..] == line[i + 1..];
      var r := line[i];
      if r == '"' {
        inQuote := !inQuote;
      } else if r == ' ' && !inQuote {
        if |cur| > 0 {
          args := args + [cur];
          cur := "";
        }
      } else {
        cur := cur + [r];
      }
    }
    assert line[|line|..] == "";
    if |cur| > 0 {
      args := args + [cur];
    }
  }

  lemma {:induction false} ScanAppend(s: State, a: string, b: string)
    ensures Scan(s, a + b) == Scan(Scan(s, a), b)
    decreases |a|
  {
    hide Step;
    if a == "" {
      assert a + b == b;
    } else {
      assert (a + b)[1..] == a[1..] + b;
      ScanAppend(Step(s, a[0]), a[1..], b);
    }
  }

  // ---------------------------------------------------------------------------
  // Quoting and splitting back
  // ---------------------------------------------------------------------------

  /** How one argument is written, and how many spaces follow it. */
  datatype Written = Written(arg: string, quoted: bool, spaces: nat)

  predicate Valid(w: Written) {
    w.arg != "" && '"' !in w.arg && (!w.quoted ==> ' ' !in w.arg) && w.spaces > 0
  }

  function Spaces(n: nat): (s: string)
    ensures |s| == n && forall i :: 0 <= i < n ==> s[i] == ' '
  {
    seq(n, i => ' ')
  }

  function Token(w: Written): string {
    if w.quoted then "\"" + w.arg + "\"" else w.arg
  }

  /** The written arguments with spaces between them; the last one's spaces are left out. */
  function Write(ws: seq<Written>): string {
    if ws == [] then "" else
    if |ws| == 1 then Token(ws[0]) else Token(ws[0]) + Spaces(ws[0].spaces) + Write(ws[1..])
  }

  function ArgsOf(ws: seq<Written>): (args: seq<string>)
    ensures |args| == |ws|
  {
    seq(|ws|, i requires 0 <= i < |ws| => ws[i].arg)
  }

  /** Characters that are neither quotes nor separating spaces are collected. */
  lemma {:induction false} ScanPlain(s: State, text: string)
    requires '"' !in text && (s.inQuote || ' ' !in text)
    ensures Scan(s, text) == s.(cur := s.cur + text)
    decreases |text|
  {
    if text == "" {
      assert s.cur + "" == s.cur;
    } else {
      assert text[0] in text && forall c :: c in text[1..] ==> c in text;
      ScanPlain(Step(s, text[0]), text[1..]);
      assert s.cur + [text[0]] + text[1..] == s.cur + text;
    }
  }

  lemma ScanQuote(s: State)
    ensures Scan(s, "\"") == s.(inQuote := !s.inQuote)
  {
    assert "\""[1..] == "";
  }

  lemma ScanToken(args: seq<string>, w: Written)
    requires Valid(w)
    ensures Scan(State(args, "", false), Token(w)) == State(args, w.arg, false)
  {
    hide Step;
    assert "" + w.arg == w.arg;
    if w.quoted {
      ScanQuote(State(args, "", false));
      ScanPlain(State(args, "", true), w.arg);
      ScanQuote(State(args, w.arg, true));
      ScanAppend(State(args, "", false), "\"", w.arg);
      ScanAppend(State(args, "", false), "\"" + w.arg, "\"");
    } else {
      ScanPlain(State(args, "", false), w.arg);
    }
  }

  lemma {:induction false} ScanSpaces(s: State, n: nat)
    requires !s.inQuote
    ensures Scan(s, Spaces(n)) == if n > 0 && s.cur != "" then State(s.args + [s.cur], "", false) else s
    decreases n
  {
    if n > 0 {
      assert Spaces(n)[1..] == Spaces(n - 1);
      ScanSpaces(Step(s, ' '), n - 1);
    }
  }

  lemma {:induction false} ScanWritten(args: seq<string>, ws: seq<Written>)
    requires ws != [] && forall i :: 0 <= i < |ws| ==> Valid(ws[i])
    ensures Finish(Scan(State(args, "", false), Write(ws))) == args + ArgsOf(ws)
    decreases |ws|
  {
    hide Scan;
    var w := ws[0];
    ScanToken(args, w);
    if |ws| == 1 {
      assert ArgsOf(ws) == [w.arg];
    } else {
      ScanAppend(State(args, "", false), Token(w), Spaces(w.spaces));
      ScanAppend(State(args, "", false), Token(w) + Spaces(w.spaces), Write(ws[1..]));
      ScanSpaces(State(args, w.arg, false), w.spaces);
      ScanWritten(args + [w.arg], ws[1..]);
      assert args + [w.arg] + ArgsOf(ws[1..]) == args + ArgsOf(ws);
    }
  }

  /** Splitting inverts quoting: any nonempty arguments without double quotes come back as they were. */
  lemma SplitInvertsQuoting(ws: seq<Written>)
    requires forall i :: 0 <= i < |ws| ==> Valid(ws[i])
    ensures Split(Write(ws)) == ArgsOf(ws)
  {
    if ws != [] {
      ScanWritten([], ws);
      assert [] + ArgsOf(ws) == ArgsOf(ws);
    }
  }

  // ---------------------------------------------------------------------------
  // Conservation on any line
  // ---------------------------------------------------------------------------

  function Flatten(args: seq<string>): string {
    if args == [] then "" else Flatten(args[..|args| - 1]) + args[|args| - 1]
  }

  /** What is kept of one character: nothing of a quote or of an unquoted space. */
  function KeptChar(c: char, inQuote: bool): string {
    if c == '"' || (c == ' ' && !inQuote) then "" else [c]
  }

  /** The line without its quotes and its unquoted spaces. */
  function Kept(line: string, inQuote: bool): string
    decreases |line|
  {
    if line == "" then "" else
    KeptChar(line[0], inQuote) + Kept(line[1..], if line[0] == '"' then !inQuote else inQuote)
  }

  ghost predicate NoneEmpty(args: seq<string>) {
    forall i :: 0 <= i < |args| ==> args[i] != ""
  }

  lemma FlattenOneMore(args: seq<string>, last: string)
    ensures Flatten(args + [last]) == Flatten(args) + last
  {
    assert (args + [last])[..|args|] == args;
  }

  /** The text held by a state. */
  function Held(s: State): string {
    Flatten(s.args) + s.cur
  }

  lemma FinishFlattens(s: State)
    requires NoneEmpty(s.args)
    ensures Flatten(Finish(s)) == Held(s) && NoneEmpty(Finish(s))
  {
    FlattenOneMore(s.args, s.cur);
    assert Flatten(s.args) + "" == Flatten(s.args);
  }

  lemma StepConserves(s: State, c: char)
    requires NoneEmpty(s.args)
    ensures Held(Step(s, c)) == Held(s) + KeptChar(c, s.inQuote) && NoneEmpty(Step(s, c).args)
    ensures Step(s, c).inQuote == if c == '"' then !s.inQuote else s.inQuote
  {
    FlattenOneMore(s.args, s.cur);
    assert Held(s) + "" == Held(s) && Flatten(s.args) + s.cur + "" == Held(s);
    assert Flatten(s.args) + (s.cur + [c]) == Flatten(s.args) + s.cur + [c];
  }

  lemma {:induction false} ScanConserves(s: State, line: string)
    requires NoneEmpty(s.args)
    ensures Held(Scan(s, line)) == Held(s) + Kept(line, s.inQuote) && NoneEmpty(Scan(s, line).args)
    decreases |line|
  {
    hide Step, Held, KeptChar, NoneEmpty;
    if line == "" {
      assert Held(s) + "" == Held(s);
    } else {
      var next := Step(s, line[0]);
      StepConserves(s, line[0]);
      ScanConserves(next, line[1..]);
      assert Held(s) + KeptChar(line[0], s.inQuote) + Kept(line[1..], next.inQuote)
             == Held(s) + (KeptChar(line[0], s.inQuote) + Kept(line[1..], next.inQuote));
    }
  }

  /** On any line the arguments together are the line minus quotes and unquoted spaces, and none is empty. */
  lemma SplitConserves(line: string)
    ensures Flatten(Split(line)) == Kept(line, false)
    ensures NoneEmpty(Split(line))
  {
    var s := State([], "", false);
    ScanConserves(s, line);
    FinishFlattens(Scan(s, line));
    assert Held(s) + Kept(line, false) == Kept(line, false);
  }

  // ---------------------------------------------------------------------------
  // Where arguments end
  // ---------------------------------------------------------------------------

  /** A character of an argument, or an unquoted space. */
  datatype Mark = Gap | Keep(c: char)

  /** The line without its quotes, with its unquoted spaces as gaps. */
  function Marked(line: string, inQuote: bool): seq<Mark>
    decreases |line|
  {
    if line == "" then []
    else if line[0] == '"' then Marked(line[1..], !inQuote)
    else [if line[0] == ' ' && !inQuote then Gap else Keep(line[0])] + Marked(line[1..], inQuote)
  }

  /** How many characters are kept before the first gap. */
  function RunLength(marks: seq<Mark>): (n: nat)
    ensures n <= |marks| && forall i :: 0 <= i < n ==> marks[i].Keep?
    ensures n < |marks| ==> marks[n].Gap?
  {
    if marks == [] || marks[0].Gap? then 0 else
    var n := RunLength(marks[1..]) + 1;
    assert forall i :: 0 < i < n ==> marks[i] == marks[1..][i - 1];
    n
  }

  function Characters(marks: seq<Mark>): (s: string)
    requires forall i :: 0 <= i < |marks| ==> marks[i].Keep?
    ensures |s| == |marks|
  {
    seq(|marks|, i requires 0 <= i < |marks| => marks[i].c)
  }

  /** The maximal runs of kept characters. */
  function Runs(marks: seq<Mark>): seq<string>
    decreases |marks|
  {
    if marks == [] then []
    else if marks[0].Gap? then Runs(marks[1..])
    else [Characters(marks[..RunLength(marks)])] + Runs(marks[RunLength(marks)..])
  }

  /** The runs when `cur` has been kept already. */
  function RunsFrom(cur: string, marks: seq<Mark>): seq<string> {
    var n := RunLength(marks);
    var first := cur + Characters(marks[..n]);
    (if first == "" then [] else [first]) + Runs(marks[n..])
  }

  lemma RunsFromNothing(marks: seq<Mark>)
    ensures RunsFrom("", marks) == Runs(marks)
  {
    var n := RunLength(marks);
    assert "" + Characters(marks[..n]) == Characters(marks[..n]);
    if n == 0 {
      assert marks[..0] == [] && marks[0..] == marks;
    }
  }

  lemma RunsFromKeep(cur: string, c: char, marks: seq<Mark>)
    ensures RunsFrom(cur, [Keep(c)] + marks) == RunsFrom(cur + [c], marks)
  {
    var all := [Keep(c)] + marks;
    assert all[1..] == marks;
    var n := RunLength(marks);
    assert RunLength(all) == n + 1;
    assert all[..n + 1] == [Keep(c)] + marks[..n] && all[n + 1..] == marks[n..];
    assert cur + Characters(all[..n + 1]) == cur + [c] + Characters(marks[..n]);
  }

  lemma RunsFromGap(cur: string, marks: seq<Mark>)
    ensures RunsFrom(cur, [Gap] + marks) == (if cur == "" then [] else [cur]) + Runs(marks)
  {
    var all := [Gap] + marks;
    assert all[1..] == marks && all[..0] == [] && all[0..] == all;
    assert cur + Characters(all[..0]) == cur;
  }

  lemma {:induction false} ScanRuns(s: State, line: string)
    ensures Finish(Scan(s, line)) == s.args + RunsFrom(s.cur, Marked(line, s.inQuote))
    decreases |line|
  {
    if line == "" {
      assert s.cur + Characters([]) == s.cur;
      assert RunsFrom(s.cur, []) == (if s.cur == "" then [] else [s.cur]) + [];
    } else {
      var c, rest := line[0], line[1..];
      ScanRuns(Step(s, c), rest);
      if c != '"' {
        if c == ' ' && !s.inQuote {
          RunsFromGap(s.cur, Marked(rest, false));
          RunsFromNothing(Marked(rest, false));
        } else {
          RunsFromKeep(s.cur, c, Marked(rest, s.inQuote));
        }
      }
    }
  }

  /** On any line the arguments are exactly the runs between unquoted spaces, without the quotes. */
  lemma SplitIsRuns(line: string)
    ensures Split(line) == Runs(Marked(line, false))
  {
    ScanRuns(State([], "", false), line);
    RunsFromNothing(Marked(line, false));
    assert [] + Runs(Marked(line, false)) == Runs(Marked(line, false));
  }
}
