/** What every run of the conversation loop keeps, and exactly when the history alternates. */
module Conversation {
  import opened Wrappers
  import opened Strings
  import opened Agent

  // ---------------------------------------------------------------------------
  // Tool results answer tool uses
  // ---------------------------------------------------------------------------

  function ToolUseIds(content: seq<Block>): seq<string> {
    if content == [] then [] else
    var b := content[|content| - 1];
    ToolUseIds(content[..|content| - 1]) + (if b.ToolUse? then [b.id] else [])
  }

  predicate AllResults(blocks: seq<Block>) {
    forall i :: 0 <= i < |blocks| ==> blocks[i].ToolResult?
  }

  function ResultIds(blocks: seq<Block>): seq<string>
    requires AllResults(blocks)
  {
    seq(|blocks|, i requires 0 <= i < |blocks| => blocks[i].toolUseId)
  }

  /** A user message made of tool results only. */
  predicate IsToolResults(m: Message) {
    m.role.User? && m.content.Blocks? && AllResults(m.content.blocks)
  }

  /** `m` answers exactly the tool uses of `use`, in their order. */
  predicate Answers(m: Message, use: Message) {
    && IsToolResults(m) && use.role.Assistant? && use.content.Blocks?
    && ResultIds(m.content.blocks) == ToolUseIds(use.content.blocks)
  }

  lemma {:induction false} ResultsAnswer(content: seq<Block>, i: nat, world: World)
    ensures AllResults(Results(content, i, world))
    ensures ResultIds(Results(content, i, world)) == ToolUseIds(content)
  {
    if content != [] {
      ResultsAnswer(content[..|content| - 1], i, world);
    }
  }

  /** How many tool uses stand before position `n`. */
  function UsesBefore(content: seq<Block>, n: nat): nat
    requires n <= |content|
  {
    if n == 0 then 0 else UsesBefore(content, n - 1) + (if content[n - 1].ToolUse? then 1 else 0)
  }

  lemma {:induction false} UsesOfPrefix(content: seq<Block>, m: nat, n: nat)
    requires n <= m <= |content|
    ensures UsesBefore(content[..m], n) == UsesBefore(content, n)
    decreases n
  {
    if n > 0 {
      UsesOfPrefix(content, m, n - 1);
    }
  }

  /**
   The result for the tool use at position `n` stands where that use stands among the tool uses, and says what the tool
   said: its output, the screenshot behind the image prefix, or its error, marked as one.
   */
  lemma {:induction false} ResultAt(content: seq<Block>, i: nat, world: World, n: nat)
    requires n < |content| && content[n].ToolUse?
    ensures var results, k := Results(content, i, world), UsesBefore(content, n);
            && k < |results| == UsesBefore(content, |content|)
            && results[k] == match world.tool(i, n, content[n].name, content[n].input)
                             case ToolError(e) => ToolResult(content[n].id, Plain(e, true))
                             case Output(t) =>
                               if "IMAGE_BASE64:" <= t then ToolResult(content[n].id, Screenshot(t[13..]))
                               else ToolResult(content[n].id, Plain(t, false))
    decreases |content|
  {
    var front := content[..|content| - 1];
    ResultCount(front, i, world);
    UsesOfPrefix(content, |front|, |front|);
    if n < |front| {
      UsesOfPrefix(content, |front|, n);
      ResultAt(front, i, world, n);
    }
  }

  lemma {:induction false} ResultCount(content: seq<Block>, i: nat, world: World)
    ensures |Results(content, i, world)| == UsesBefore(content, |content|)
    decreases |content|
  {
    if content != [] {
      ResultCount(content[..|content| - 1], i, world);
      UsesOfPrefix(content, |content| - 1, |content| - 1);
    }
  }

  /** Every tool use is announced by its name, in order. */
  lemma {:induction false} AnnouncementAt(content: seq<Block>, n: nat)
    requires n < |content| && content[n].ToolUse?
    ensures var marks, k := Announcements(content), UsesBefore(content, n);
            k < |marks| == UsesBefore(content, |content|) && marks[k] == "\U{0000}TOOL\U{0000}" + content[n].name
    decreases |content|
  {
    var front := content[..|content| - 1];
    AnnouncementCount(front);
    UsesOfPrefix(content, |front|, |front|);
    if n < |front| {
      UsesOfPrefix(content, |front|, n);
      AnnouncementAt(front, n);
    }
  }

  lemma {:induction false} AnnouncementCount(content: seq<Block>)
    ensures |Announcements(content)| == UsesBefore(content, |content|)
    decreases |content|
  {
    if content != [] {
      AnnouncementCount(content[..|content| - 1]);
      UsesOfPrefix(content, |content| - 1, |content| - 1);
    }
  }

  /** The streamed text is the deltas, joined in order. */
  lemma {:induction false} ConcatJoins(a: seq<string>, b: seq<string>, text: string)
    ensures Concat(a + b) == Concat(a) + Concat(b) && Concat([text]) == text
    decreases |b|
  {
    assert [text][..0] == [];
    if b == [] {
      assert a + b == a;
    } else {
      assert (a + b)[..|a + b| - 1] == a + b[..|b| - 1];
      ConcatJoins(a, b[..|b| - 1], text);
    }
  }

  /** The window is the longest end of the history that fits and drops an even number of messages. */
  lemma WindowIsLongest(msgs: seq<Message>, window: nat)
    requires window > 0
    ensures var w := Windowed(msgs, window);
            var dropped := |msgs| - |w|;
            && |w| <= 2 * window && 0 <= dropped && dropped % 2 == 0 && w == msgs[dropped..]
            && (dropped > 0 ==> |w| + 2 > 2 * window)
  {
  }

  // ---------------------------------------------------------------------------
  // Accepted and rejected runs
  // ---------------------------------------------------------------------------

  /** Blank input, a full history and a failing system prompt are refused, in this order, without a call or a change. */
  lemma RejectedIff(
    msgs: seq<Message>, attachment: Option<Block>, input: string, world: World, maxTurns: nat, window: nat)
    requires window > 0
    ensures var o := RunOn(msgs, attachment, input, world, maxTurns, window);
            && (o.requests == [] <==> TrimSpace(input) == "" || |msgs| >= 2 * maxTurns || world.promptFails)
            && (o.requests == [] ==>
                  && o.messages == msgs && o.outputs == [] && o.tokens == 0
                  && o.result == Failure(if TrimSpace(input) == "" then EmptyInput
                                         else if |msgs| >= 2 * maxTurns then TooManyTurns else PromptFailed))
  {
    hide TrimSpace, Loop, LoopEnding, Windowed;
    if Rejection(msgs, input, world, maxTurns).None? {
      RunResult(msgs, attachment, input, world, maxTurns, window);
    }
  }

  /** The first request of an accepted run ends on the trimmed input, behind the attachment when there is one. */
  lemma FirstRequestEndsOnInput(
    msgs: seq<Message>, attachment: Option<Block>, input: string, world: World, maxTurns: nat, window: nat)
    requires window > 0 && Rejection(msgs, input, world, maxTurns).None?
    ensures var o := RunOn(msgs, attachment, input, world, maxTurns, window);
            && 0 < |o.requests| <= 10 && o.requests[0] != []
            && var m := o.requests[0][|o.requests[0]| - 1];
               && m.role.User? && o.requests[0] == Windowed(msgs + [m], window)
               && m.content == match attachment
                               case None => Str(TrimSpace(input))
                               case Some(image) => Blocks([image, Text(TrimSpace(input))])
  {
    hide TrimSpace, Loop, LoopEnding, Continues;
    var base := msgs + [UserMessage(TrimSpace(input), attachment)];
    var o := RunOn(msgs, attachment, input, world, maxTurns, window);
    RunResult(msgs, attachment, input, world, maxTurns, window);
    if !LoopEnding(base, 0, world, window).FirstCallFailed? {
      assert Continues(base, o.messages) ==> base <= o.messages by { ContinuesLongerIf(base, o.messages); }
      assert o.requests[0] == Windowed(o.messages[..|base| + 2 * 0], window);
      assert o.messages[..|base|] == base;
    }
    var w := Windowed(base, window);
    assert w[|w| - 1] == base[|base| - 1];
  }

  lemma ContinuesLongerIf(base: seq<Message>, msgs: seq<Message>)
    ensures Continues(base, msgs) ==> base <= msgs
  {
  }

  // ---------------------------------------------------------------------------
  // One run of the loop
  // ---------------------------------------------------------------------------

  function RoleAt(j: nat): Role {
    if j % 2 == 0 then User else Assistant
  }

  /** From `base` on, `msgs` goes on with replies and their answers in turn. */
  ghost predicate Continues(base: seq<Message>, msgs: seq<Message>) {
    && base <= msgs
    && (forall j :: |base| <= j < |msgs| ==> msgs[j].role == RoleAt(j - |base| + 1))
    && (forall j :: |base| < j < |msgs| && msgs[j].role.User? ==> Answers(msgs[j], msgs[j - 1]))
  }

  /** Request k was the window of the history as it was after k rounds. */
  ghost predicate Tracked(base: seq<Message>, msgs: seq<Message>, requests: seq<seq<Message>>, window: nat)
    requires window > 0
  {
    forall k :: 0 <= k < |requests| ==>
      |base| + 2 * k <= |msgs| && requests[k] == Windowed(msgs[..|base| + 2 * k], window)
  }

  datatype Ending = Finished | FirstCallFailed | LaterCallFailed | Exhausted

  /** How the loop ends from iteration `i` on. */
  function LoopEnding(msgs: seq<Message>, i: nat, world: World, window: nat): Ending
    requires window > 0
    decreases MAX_TOOL_LOOP - i
  {
    if i >= MAX_TOOL_LOOP then Exhausted else
    match world.api(i, Windowed(msgs, window))
    case ApiError(_) => if i == 0 then FirstCallFailed else LaterCallFailed
    case Reply(_, content, stopReason, _) =>
      if stopReason != TOOL_USE then Finished else
      LoopEnding(msgs + [Message(Assistant, Blocks(content)), Message(User, Blocks(Results(content, i, world)))], i + 1,
                 world, window)
  }

  /** One more round keeps the structure. */
  lemma RoundContinues(base: seq<Message>, msgs: seq<Message>, content: seq<Block>, i: nat, world: World)
    requires Continues(base, msgs) && (|msgs| - |base|) % 2 == 0
    ensures Continues(base, msgs + [Message(Assistant, Blocks(content))])
    ensures Continues(base, msgs + [Message(Assistant, Blocks(content)),
                                    Message(User, Blocks(Results(content, i, world)))])
  {
    ResultsAnswer(content, i, world);
    hide Results, ToolUseIds, ResultIds;
  }

  lemma TrackedGrows(
    base: seq<Message>, msgs: seq<Message>, more: seq<Message>, requests: seq<seq<Message>>, window: nat)
    requires window > 0 && Tracked(base, msgs, requests, window) && |msgs| == |base| + 2 * |requests|
    ensures Tracked(base, msgs + more, requests + [Windowed(msgs, window)], window)
  {
    hide Windowed;
    var all := requests + [Windowed(msgs, window)];
    forall k | 0 <= k < |all|
      ensures |base| + 2 * k <= |msgs + more|
      ensures all[k] == Windowed((msgs + more)[..|base| + 2 * k], window)
    {
      if k < |requests| {
        assert requests[k] == Windowed(msgs[..|base| + 2 * k], window);
        assert (msgs + more)[..|base| + 2 * k] == msgs[..|base| + 2 * k];
      } else {
        assert (msgs + more)[..|base| + 2 * k] == msgs;
      }
    }
  }

  /** What the loop leaves behind, by the way it ends. */
  ghost predicate LoopLeaves(base: seq<Message>, o: Outcome, end: Ending, window: nat)
    requires window > 0 && base != []
  {
    if end.FirstCallFailed? then
      o.messages == base[..|base| - 1] && o.requests == [Windowed(base, window)] && o.result == Failure(CallFailed)
    else
      && Continues(base, o.messages)
      && Tracked(base, o.messages, o.requests, window)
      && 0 < |o.requests| <= MAX_TOOL_LOOP
      && (end.Finished? ==> |o.messages| == |base| + 2 * |o.requests| - 1 && o.result.Success?)
      && (end.LaterCallFailed? ==> |o.messages| == |base| + 2 * |o.requests| - 2 && o.result == Failure(CallFailed))
      && (end.Exhausted? ==>
            |o.messages| == |base| + 2 * |o.requests| && |o.requests| == MAX_TOOL_LOOP && o.result.Success?)
  }

  lemma {:induction false} LoopResult(
    base: seq<Message>, msgs: seq<Message>, i: nat, text: string, requests: seq<seq<Message>>, outputs: seq<string>,
    tokens: int, world: World, window: nat)
    requires window > 0 && base != [] && i <= MAX_TOOL_LOOP
    requires Continues(base, msgs) && |msgs| == |base| + 2 * i
    requires |requests| == i && Tracked(base, msgs, requests, window)
    ensures LoopLeaves(base, Loop(msgs, i, text, requests, outputs, tokens, world, window),
                       LoopEnding(msgs, i, world, window), window)
    decreases MAX_TOOL_LOOP - i
  {
    hide Windowed, Results, Announcements, Concat, Continues, Tracked, Loop;
    LoopStep(msgs, i, text, requests, outputs, tokens, world, window);
    if i == 0 {
      assert Continues(base, msgs) ==> msgs == base by { ContinuesLonger(base, msgs); }
    }
    if i < MAX_TOOL_LOOP {
      var request := Windowed(msgs, window);
      var a := world.api(i, request);
      if a.ApiError? {
        TrackedGrows(base, msgs, [], requests, window);
        assert msgs + [] == msgs;
      } else {
        var reply := Message(Assistant, Blocks(a.content));
        RoundContinues(base, msgs, a.content, i, world);
        if a.stopReason != TOOL_USE {
          TrackedGrows(base, msgs, [reply], requests, window);
        } else {
          var answer := Message(User, Blocks(Results(a.content, i, world)));
          TrackedGrows(base, msgs, [reply, answer], requests, window);
          assert msgs + [reply] + [answer] == msgs + [reply, answer];
          var text' := if Concat(a.deltas) != "" then Concat(a.deltas) else text;
          LoopResult(base, msgs + [reply, answer], i + 1, text', requests + [request],
                     outputs + a.deltas + Announcements(a.content), tokens + a.tokens, world, window);
        }
      }
    }
  }

  lemma ContinuesLonger(base: seq<Message>, msgs: seq<Message>)
    requires Continues(base, msgs)
    ensures base <= msgs && (|msgs| == |base| ==> msgs == base)
  {
  }

  /** The same for a Run that is not rejected. */
  lemma RunResult(
    msgs: seq<Message>, attachment: Option<Block>, input: string, world: World, maxTurns: nat, window: nat)
    requires window > 0 && Rejection(msgs, input, world, maxTurns).None?
    ensures var base := msgs + [UserMessage(TrimSpace(input), attachment)];
            LoopLeaves(base, RunOn(msgs, attachment, input, world, maxTurns, window),
                       LoopEnding(base, 0, world, window), window)
  {
    var base := msgs + [UserMessage(TrimSpace(input), attachment)];
    LoopResult(base, base, 0, "", [], [], 0, world, window);
    hide Loop, LoopEnding, LoopLeaves;
  }

  // ---------------------------------------------------------------------------
  // What a run reports
  // ---------------------------------------------------------------------------

  /** The outcomes of the calls that the loop makes from iteration `i` on, in order. */
  function CallsMade(msgs: seq<Message>, i: nat, world: World, window: nat): seq<ApiOutcome>
    requires window > 0
    decreases MAX_TOOL_LOOP - i
  {
    if i >= MAX_TOOL_LOOP then [] else
    var a := world.api(i, Windowed(msgs, window));
    if a.ApiError? || a.stopReason != TOOL_USE then [a] else
    [a] + CallsMade(msgs + [Message(Assistant, Blocks(a.content)), Message(User, Blocks(Results(a.content, i, world)))],
                    i + 1, world, window)
  }

  function TotalTokens(calls: seq<ApiOutcome>): int {
    if calls == [] then 0 else (if calls[0].Reply? then calls[0].tokens else 0) + TotalTokens(calls[1..])
  }

  /** The streamed text of the last reply that had any, or `text`. */
  function LastText(calls: seq<ApiOutcome>, text: string): string {
    if calls == [] then text else
    LastText(calls[1..], if calls[0].Reply? && Concat(calls[0].deltas) != "" then Concat(calls[0].deltas) else text)
  }

  /** All deltas, those of a failed call included, and the announcements of the tools that are then called. */
  function AllOutput(calls: seq<ApiOutcome>): seq<string> {
    if calls == [] then [] else
    calls[0].deltas
    + (if calls[0].Reply? && calls[0].stopReason == TOOL_USE then Announcements(calls[0].content) else [])
    + AllOutput(calls[1..])
  }

  lemma ReportOfLast(a: ApiOutcome, text: string)
    requires a.ApiError? || a.stopReason != TOOL_USE
    ensures AllOutput([a]) == a.deltas && TotalTokens([a]) == if a.Reply? then a.tokens else 0
    ensures LastText([a], text) == if a.Reply? && Concat(a.deltas) != "" then Concat(a.deltas) else text
  {
    assert [a][1..] == [];
    hide Concat;
  }

  lemma ReportOfNone(text: string)
    ensures AllOutput([]) == [] && TotalTokens([]) == 0 && LastText([], text) == text
  {
  }

  lemma ReportOfMore(a: ApiOutcome, rest: seq<ApiOutcome>, text: string)
    requires a.Reply? && a.stopReason == TOOL_USE
    ensures AllOutput([a] + rest) == a.deltas + Announcements(a.content) + AllOutput(rest)
    ensures TotalTokens([a] + rest) == a.tokens + TotalTokens(rest)
    ensures LastText([a] + rest, text) == LastText(rest, if Concat(a.deltas) != "" then Concat(a.deltas) else text)
  {
    assert ([a] + rest)[1..] == rest;
    hide Concat, Announcements;
  }

  /** A run reports the sum of the replies' tokens, the last nonempty streamed text, and the output in order. */
  lemma {:induction false} LoopReports(
    msgs: seq<Message>, i: nat, text: string, requests: seq<seq<Message>>, outputs: seq<string>, tokens: int,
    world: World, window: nat)
    requires window > 0 && msgs != [] && i <= MAX_TOOL_LOOP
    ensures var o := Loop(msgs, i, text, requests, outputs, tokens, world, window);
            var calls := CallsMade(msgs, i, world, window);
            && o.tokens == tokens + TotalTokens(calls)
            && o.outputs == outputs + AllOutput(calls)
            && (o.result.Success? ==> o.result.value == LastText(calls, text))
            && (o.result.Failure? <==> calls != [] && calls[|calls| - 1].ApiError?)
            && |o.requests| == |requests| + |calls|
    decreases MAX_TOOL_LOOP - i
  {
    hide Windowed, Results, Announcements, Concat, Loop, AllOutput, TotalTokens, LastText;
    LoopStep(msgs, i, text, requests, outputs, tokens, world, window);
    if i == MAX_TOOL_LOOP {
      ReportOfNone(text);
    } else {
      var request := Windowed(msgs, window);
      var a := world.api(i, request);
      if a.ApiError? || a.stopReason != TOOL_USE {
        ReportOfLast(a, text);
      } else {
        var reply, answer := Message(Assistant, Blocks(a.content)), Message(User, Blocks(Results(a.content, i, world)));
        assert msgs + [reply] + [answer] == msgs + [reply, answer];
        var rest := CallsMade(msgs + [reply, answer], i + 1, world, window);
        ReportOfMore(a, rest, text);
        var text' := if Concat(a.deltas) != "" then Concat(a.deltas) else text;
        LoopReports(msgs + [reply, answer], i + 1, text', requests + [request],
                    outputs + a.deltas + Announcements(a.content), tokens + a.tokens, world, window);
        assert outputs + a.deltas + Announcements(a.content) + AllOutput(rest)
               == outputs + (a.deltas + Announcements(a.content) + AllOutput(rest));
      }
    }
  }

  /** What the calls from iteration `i` on leave in the history: each reply as it came, and its tools' results. */
  function Transcript(calls: seq<ApiOutcome>, i: nat, world: World): seq<Message> {
    if calls == [] || calls[0].ApiError? then [] else
    [Message(Assistant, Blocks(calls[0].content))]
    + (if calls[0].stopReason == "tool_use" then [Message(User, Blocks(Results(calls[0].content, i, world)))] else [])
    + Transcript(calls[1..], i + 1, world)
  }

  /** A run that does not fail on its first call leaves the history followed by the transcript of its calls. */
  lemma {:induction false} LoopLeavesTranscript(
    msgs: seq<Message>, i: nat, text: string, requests: seq<seq<Message>>, outputs: seq<string>, tokens: int,
    world: World, window: nat)
    requires window > 0 && msgs != [] && i <= MAX_TOOL_LOOP
    ensures var calls := CallsMade(msgs, i, world, window);
            (i == 0 ==> calls != [] && calls[0].Reply?) ==>
              Loop(msgs, i, text, requests, outputs, tokens, world, window).messages
              == msgs + Transcript(calls, i, world)
    decreases MAX_TOOL_LOOP - i
  {
    hide Windowed, Results, Announcements, Concat, Loop, Transcript;
    LoopStep(msgs, i, text, requests, outputs, tokens, world, window);
    if i == MAX_TOOL_LOOP {
      NoTranscript(msgs, i, world);
    } else {
      var request := Windowed(msgs, window);
      var a := world.api(i, request);
      if a.ApiError? || a.stopReason != TOOL_USE {
        LastTranscript(a, msgs, i, world);
      } else {
        var reply, answer := Message(Assistant, Blocks(a.content)), Message(User, Blocks(Results(a.content, i, world)));
        assert msgs + [reply] + [answer] == msgs + [reply, answer];
        var rest := CallsMade(msgs + [reply, answer], i + 1, world, window);
        MoreTranscript(a, rest, i, world);
        var text' := if Concat(a.deltas) != "" then Concat(a.deltas) else text;
        LoopLeavesTranscript(msgs + [reply, answer], i + 1, text', requests + [request],
                             outputs + a.deltas + Announcements(a.content), tokens + a.tokens, world, window);
        assert msgs + [reply, answer] + Transcript(rest, i + 1, world)
               == msgs + ([reply, answer] + Transcript(rest, i + 1, world));
      }
    }
  }

  lemma NoTranscript(msgs: seq<Message>, i: nat, world: World)
    ensures msgs + Transcript([], i, world) == msgs
  {
  }

  lemma LastTranscript(a: ApiOutcome, msgs: seq<Message>, i: nat, world: World)
    requires a.ApiError? || a.stopReason != TOOL_USE
    ensures msgs + Transcript([a], i, world)
            == if a.ApiError? then msgs else msgs + [Message(Assistant, Blocks(a.content))]
  {
    assert [a][1..] == [] && Transcript([], i + 1, world) == [];
    hide Results;
  }

  lemma MoreTranscript(a: ApiOutcome, rest: seq<ApiOutcome>, i: nat, world: World)
    requires a.Reply? && a.stopReason == TOOL_USE
    ensures Transcript([a] + rest, i, world)
            == [Message(Assistant, Blocks(a.content)), Message(User, Blocks(Results(a.content, i, world)))]
               + Transcript(rest, i + 1, world)
  {
    assert ([a] + rest)[1..] == rest;
    hide Results;
  }

  // ---------------------------------------------------------------------------
  // Facts of all runs
  // ---------------------------------------------------------------------------

  /** The history begins with a user message, has no two replies in a row, and all tool results answer their reply. */
  ghost predicate HistoryOk(msgs: seq<Message>) {
    && (msgs != [] ==> msgs[0].role.User?)
    && (forall j :: 0 < j < |msgs| && msgs[j].role.Assistant? ==> msgs[j - 1].role.User?)
    && (forall j :: 0 <= j < |msgs| && IsToolResults(msgs[j]) ==> j > 0 && Answers(msgs[j], msgs[j - 1]))
  }

  lemma BaseOk(msgs: seq<Message>, attachment: Option<Block>, input: string)
    requires HistoryOk(msgs)
    ensures HistoryOk(msgs + [UserMessage(input, attachment)])
  {
    hide Answers;
    var m := UserMessage(input, attachment);
    if m.content.Blocks? {
      assert m.content.blocks[1] == Text(input);
    }
    assert !IsToolResults(m);
  }

  lemma ContinuationOk(base: seq<Message>, msgs: seq<Message>)
    requires base != [] && HistoryOk(base) && base[|base| - 1].role.User? && Continues(base, msgs)
    ensures HistoryOk(msgs)
  {
    hide IsToolResults, Answers;
    forall j | 0 < j < |msgs| && msgs[j].role.Assistant?
      ensures msgs[j - 1].role.User?
    {
      if j > |base| {
        assert msgs[j - 1].role == RoleAt(j - |base|);
      } else {
        assert msgs[j - 1] == base[j - 1];
      }
    }
    assert |base| < |msgs| ==> msgs[|base|].role == RoleAt(1);
    forall j | 0 <= j < |msgs| && IsToolResults(msgs[j])
      ensures j > 0 && Answers(msgs[j], msgs[j - 1])
    {
      assert msgs[j].role.User? by { ResultsAreUser(msgs[j]); }
      if j < |base| {
        assert msgs[j] == base[j];
        assert j > 0 && msgs[j - 1] == base[j - 1];
      }
    }
  }

  lemma ResultsAreUser(m: Message)
    requires IsToolResults(m)
    ensures m.role.User?
  {
  }

  /** A request is a nonempty suffix of the history, within the window, and ends on a user message. */
  ghost predicate RequestOk(request: seq<Message>, history: seq<Message>, window: nat) {
    && 0 < |request| <= 2 * window
    && |request| <= |history| && request == history[|history| - |request|..]
    && request[|request| - 1].role.User?
  }

  lemma WindowOk(msgs: seq<Message>, window: nat)
    requires window > 0 && msgs != [] && msgs[|msgs| - 1].role.User?
    ensures RequestOk(Windowed(msgs, window), msgs, window)
  {
  }

  /** Every round of the loop ends on a user message. */
  lemma RoundEndsOnUser(base: seq<Message>, msgs: seq<Message>, k: nat)
    requires Continues(base, msgs) && base != [] && base[|base| - 1].role.User? && |base| + 2 * k <= |msgs|
    ensures msgs[|base| + 2 * k - 1].role.User?
  {
    if k > 0 {
      assert msgs[|base| + 2 * k - 1].role == RoleAt(|base| + 2 * k - 1 - |base| + 1);
    }
  }

  /** The k-th request was made on the history `base` plus k rounds. */
  ghost predicate RequestsOk(base: seq<Message>, o: Outcome, window: nat) {
    forall k :: 0 <= k < |o.requests| ==>
      (k == 0 && RequestOk(o.requests[k], base, window)) ||
      (|base| + 2 * k <= |o.messages| && base <= o.messages
       && RequestOk(o.requests[k], o.messages[..|base| + 2 * k], window))
  }

  lemma TrackedRequestsOk(base: seq<Message>, o: Outcome, window: nat)
    requires window > 0 && base != [] && base[|base| - 1].role.User?
    requires Continues(base, o.messages) && Tracked(base, o.messages, o.requests, window)
    ensures RequestsOk(base, o, window)
  {
    hide Windowed, RequestOk, Answers;
    forall k | 0 <= k < |o.requests|
      ensures |base| + 2 * k <= |o.messages| && base <= o.messages
      ensures RequestOk(o.requests[k], o.messages[..|base| + 2 * k], window)
    {
      RoundEndsOnUser(base, o.messages, k);
      WindowOk(o.messages[..|base| + 2 * k], window);
    }
  }

  /**
   For every run, errors and loop exhaustion included: the history stays well formed and within 2 * maxTurns + 20
   messages, and the k-th request is a suffix of the history of its time, at most 2 * window long, ending on a user
   message.
   */
  lemma AnyRunKeepsHistory(
    msgs: seq<Message>, attachment: Option<Block>, input: string, world: World, maxTurns: nat, window: nat)
    requires window > 0 && HistoryOk(msgs) && |msgs| <= 2 * maxTurns + 20
    ensures var o := RunOn(msgs, attachment, input, world, maxTurns, window);
            && HistoryOk(o.messages) && |o.messages| <= 2 * maxTurns + 20
            && RequestsOk(msgs + [UserMessage(TrimSpace(input), attachment)], o, window)
  {
    hide Loop, TrimSpace, Windowed, HistoryOk, RequestOk, Continues, LoopEnding, Tracked;
    if Rejection(msgs, input, world, maxTurns).None? {
      var o := RunOn(msgs, attachment, input, world, maxTurns, window);
      var base := msgs + [UserMessage(TrimSpace(input), attachment)];
      BaseOk(msgs, attachment, TrimSpace(input));
      RunResult(msgs, attachment, input, world, maxTurns, window);
      if LoopEnding(base, 0, world, window).FirstCallFailed? {
        assert base[..|base| - 1] == msgs;
        WindowOk(base, window);
      } else {
        ContinuationOk(base, o.messages);
        TrackedRequestsOk(base, o, window);
      }
    }
  }

  /** A failed first call leaves the history exactly as it was, although the attachment is gone. */
  lemma FirstFailureRestores(
    msgs: seq<Message>, attachment: Option<Block>, input: string, world: World, maxTurns: nat, window: nat)
    requires window > 0 && Rejection(msgs, input, world, maxTurns).None?
    requires world.api(0, Windowed(msgs + [UserMessage(TrimSpace(input), attachment)], window)).ApiError?
    ensures var o := RunOn(msgs, attachment, input, world, maxTurns, window);
            o.messages == msgs && o.result == Failure(CallFailed) && o.tokens == 0
  {
    hide TrimSpace, Windowed;
    var base := msgs + [UserMessage(TrimSpace(input), attachment)];
    LoopStep(base, 0, "", [], [], 0, world, window);
  }

  // ---------------------------------------------------------------------------
  // Alternation
  // ---------------------------------------------------------------------------

  ghost predicate Alternates(msgs: seq<Message>) {
    forall j :: 0 <= j < |msgs| ==> msgs[j].role == RoleAt(j)
  }

  /** An even alternating history goes on alternating during a run, and all its requests start on a user message. */
  lemma EvenRunAlternates(
    msgs: seq<Message>, attachment: Option<Block>, input: string, world: World, maxTurns: nat, window: nat)
    requires window > 0 && Alternates(msgs) && |msgs| % 2 == 0
    requires Rejection(msgs, input, world, maxTurns).None?
    ensures var o := RunOn(msgs, attachment, input, world, maxTurns, window);
            var end := LoopEnding(msgs + [UserMessage(TrimSpace(input), attachment)], 0, world, window);
            && Alternates(o.messages)
            && (|o.messages| % 2 == 0 <==> end.Finished? || end.FirstCallFailed?)
            && (forall k :: 0 <= k < |o.requests| ==>
                  o.requests[k] != [] && Alternates(o.requests[k]) && |o.requests[k]| % 2 == 1)
  {
    hide Loop, TrimSpace, Windowed, LoopEnding;
    var o := RunOn(msgs, attachment, input, world, maxTurns, window);
    var base := msgs + [UserMessage(TrimSpace(input), attachment)];
    RunResult(msgs, attachment, input, world, maxTurns, window);
    if LoopEnding(base, 0, world, window).FirstCallFailed? {
      assert base[..|base| - 1] == msgs;
      OddWindow(base, window);
    } else {
      ContinuationAlternates(base, o.messages);
      forall k | 0 <= k < |o.requests|
        ensures o.requests[k] != [] && Alternates(o.requests[k]) && |o.requests[k]| % 2 == 1
      {
        OddWindow(o.messages[..|base| + 2 * k], window);
      }
    }
  }

  lemma RoleShift(j: nat, n: nat)
    requires n % 2 == 1 && n <= j
    ensures RoleAt(j - n + 1) == RoleAt(j)
  {
  }

  lemma ContinuationAlternates(base: seq<Message>, msgs: seq<Message>)
    requires Alternates(base) && |base| % 2 == 1 && Continues(base, msgs)
    ensures Alternates(msgs)
  {
    hide Answers, RoleAt;
    forall j | 0 <= j < |msgs|
      ensures msgs[j].role == RoleAt(j)
    {
      if j < |base| {
        assert msgs[j] == base[j];
      } else {
        RoleShift(j, |base|);
      }
    }
  }

  lemma OddWindow(msgs: seq<Message>, window: nat)
    requires window > 0 && Alternates(msgs) && |msgs| % 2 == 1
    ensures var w := Windowed(msgs, window); w != [] && Alternates(w) && |w| % 2 == 1
  {
    var w := Windowed(msgs, window);
    var drop := |msgs| - |w|;
    assert drop % 2 == 0;
    forall j | 0 <= j < |w|
      ensures w[j].role == RoleAt(j)
    {
      assert w[j] == msgs[drop + j];
    }
  }

  /** Calls on one session. */
  datatype Call = Talk(input: string, world: World) | Forget | Attach(block: Block)

  datatype Session = Session(messages: seq<Message>, attachment: Option<Block>)

  function After(s: Session, call: Call, maxTurns: nat, window: nat): Session
    requires window > 0
  {
    match call
    case Forget => s.(messages := [])
    case Attach(block) => s.(attachment := Some(block))
    case Talk(input, world) =>
      if Rejection(s.messages, input, world, maxTurns).Some? then s
      else Session(RunOn(s.messages, s.attachment, input, world, maxTurns, window).messages, None)
  }

  function AfterAll(s: Session, calls: seq<Call>, maxTurns: nat, window: nat): Session
    requires window > 0
    decreases |calls|
  {
    if calls == [] then s else AfterAll(After(s, calls[0], maxTurns, window), calls[1..], maxTurns, window)
  }

  /** A run is rejected, ends with a non-tool stop, or fails on its first call. */
  predicate IsClean(s: Session, call: Call, maxTurns: nat, window: nat)
    requires window > 0
  {
    call.Talk? && Rejection(s.messages, call.input, call.world, maxTurns).None? ==>
      var base := s.messages + [UserMessage(TrimSpace(call.input), s.attachment)];
      LoopEnding(base, 0, call.world, window) in {Finished, FirstCallFailed}
  }

  ghost predicate AllClean(s: Session, calls: seq<Call>, maxTurns: nat, window: nat)
    requires window > 0
    decreases |calls|
  {
    calls != [] ==>
      IsClean(s, calls[0], maxTurns, window)
      && AllClean(After(s, calls[0], maxTurns, window), calls[1..], maxTurns, window)
  }

  /** Over all sessions: the history is well formed and bounded. */
  lemma {:induction false} SessionsKeepHistory(s: Session, calls: seq<Call>, maxTurns: nat, window: nat)
    requires window > 0 && HistoryOk(s.messages) && |s.messages| <= 2 * maxTurns + 20
    ensures var s' := AfterAll(s, calls, maxTurns, window);
            HistoryOk(s'.messages) && |s'.messages| <= 2 * maxTurns + 20
    decreases |calls|
  {
    hide HistoryOk, RunOn, Rejection;
    if calls != [] {
      var c := calls[0];
      if c.Talk? {
        AnyRunKeepsHistory(s.messages, s.attachment, c.input, c.world, maxTurns, window);
      } else if c.Forget? {
        EmptyOk();
      }
      SessionsKeepHistory(After(s, c, maxTurns, window), calls[1..], maxTurns, window);
    }
  }

  lemma EmptyOk()
    ensures HistoryOk([])
  {
  }

  /** Over all sessions of clean runs: the history alternates from a user message and is even between runs. */
  lemma {:induction false} CleanSessionsAlternate(s: Session, calls: seq<Call>, maxTurns: nat, window: nat)
    requires window > 0 && Alternates(s.messages) && |s.messages| % 2 == 0
    requires AllClean(s, calls, maxTurns, window)
    ensures var s' := AfterAll(s, calls, maxTurns, window);
            Alternates(s'.messages) && |s'.messages| % 2 == 0
    decreases |calls|
  {
    hide RunOn, Rejection, TrimSpace, LoopEnding;
    if calls != [] {
      var c := calls[0];
      if c.Talk? && Rejection(s.messages, c.input, c.world, maxTurns).None? {
        EvenRunAlternates(s.messages, s.attachment, c.input, c.world, maxTurns, window);
      }
      CleanSessionsAlternate(After(s, c, maxTurns, window), calls[1..], maxTurns, window);
    }
  }

  /** The model that always calls tools, without naming one. */
  function AlwaysTools(): World {
    World((i: nat, r: seq<Message>) => Reply([], [], TOOL_USE, 0),
          (i: nat, n: nat, name: string, input: string) => Output(""), false)
  }

  lemma {:induction false} AlwaysToolsExhausts(msgs: seq<Message>, i: nat, window: nat)
    requires window > 0 && i <= MAX_TOOL_LOOP
    ensures LoopEnding(msgs, i, AlwaysTools(), window) == Exhausted
    decreases MAX_TOOL_LOOP - i
  {
    hide Windowed;
    if i < MAX_TOOL_LOOP {
      var next := msgs + [Message(Assistant, Blocks([])), Message(User, Blocks(Results([], i, AlwaysTools())))];
      AlwaysToolsExhausts(next, i + 1, window);
    }
  }

  /** Every way the world can answer an accepted run leaves an alternating history. */
  ghost predicate KeepsAlternation(
    msgs: seq<Message>, attachment: Option<Block>, input: string, maxTurns: nat, window: nat)
    requires window > 0
  {
    forall world: World :: !world.promptFails ==>
      Alternates(RunOn(msgs, attachment, input, world, maxTurns, window).messages)
  }

  /** A run keeps alternation exactly when the history before it alternates and does not end on a user message. */
  lemma AlternationIff(msgs: seq<Message>, attachment: Option<Block>, input: string, maxTurns: nat, window: nat)
    requires window > 0 && |msgs| < 2 * maxTurns && TrimSpace(input) != ""
    ensures KeepsAlternation(msgs, attachment, input, maxTurns, window) <==> Alternates(msgs) && |msgs| % 2 == 0
  {
    hide Loop, TrimSpace, Windowed, LoopEnding, Alternates;
    if Alternates(msgs) && |msgs| % 2 == 0 {
      forall world: World | !world.promptFails
        ensures Alternates(RunOn(msgs, attachment, input, world, maxTurns, window).messages)
      {
        EvenRunAlternates(msgs, attachment, input, world, maxTurns, window);
      }
    } else {
      var world := AlwaysTools();
      var base := msgs + [UserMessage(TrimSpace(input), attachment)];
      var o := RunOn(msgs, attachment, input, world, maxTurns, window);
      AlwaysToolsExhausts(base, 0, window);
      RunResult(msgs, attachment, input, world, maxTurns, window);
      AlternatesNoMore(msgs, base, o.messages);
      assert !world.promptFails;
    }
  }

  lemma AlternatesNoMore(msgs: seq<Message>, base: seq<Message>, all: seq<Message>)
    requires !Alternates(msgs) || |msgs| % 2 == 1
    requires msgs <= base <= all && |base| == |msgs| + 1 && base[|msgs|].role.User?
    ensures !Alternates(all)
  {
    assert all[|msgs|].role.User?;
    if !Alternates(msgs) {
      var j :| 0 <= j < |msgs| && msgs[j].role != RoleAt(j);
      assert all[j].role != RoleAt(j);
    }
  }

  /** Every request of an accepted run starts on a user message, however the world answers. */
  ghost predicate RequestsStartOnUser(
    msgs: seq<Message>, attachment: Option<Block>, input: string, maxTurns: nat, window: nat)
    requires window > 0
  {
    forall world: World :: !world.promptFails ==>
      var o := RunOn(msgs, attachment, input, world, maxTurns, window);
      forall k :: 0 <= k < |o.requests| ==> StartsOnUser(o.requests[k])
  }

  predicate StartsOnUser(request: seq<Message>) {
    request != [] && request[0].role.User?
  }

  /** How many messages the window drops from a history of this length. */
  function Dropped(length: nat, window: nat): nat {
    if length <= 2 * window then 0 else
    var drop := length - 2 * window;
    if drop % 2 != 0 then drop + 1 else drop
  }

  /**
   The request after `k` rounds starts on a user message: in the old history its first message is one; behind it, the
   number of messages dropped is even, as the positions of the new user messages are exactly when the history is even.
   */
  predicate StartOk(msgs: seq<Message>, window: nat, k: nat) {
    var d := Dropped(|msgs| + 1 + 2 * k, window);
    if d < |msgs| then msgs[d].role.User? else d == |msgs| || |msgs| % 2 == 0
  }

  /** The first message of the window after `k` rounds, by its position. */
  lemma StartOfRequest(msgs: seq<Message>, base: seq<Message>, all: seq<Message>, k: nat, window: nat)
    requires window > 0 && Continues(base, all) && |base| + 2 * k <= |all|
    requires msgs <= base && |base| == |msgs| + 1 && base[|msgs|].role.User?
    ensures StartsOnUser(Windowed(all[..|base| + 2 * k], window)) <==> StartOk(msgs, window, k)
  {
    hide Answers;
    var h := all[..|base| + 2 * k];
    var d := WindowDrops(h, window);
    hide Windowed, Dropped;
    if d <= |msgs| {
      assert h[d] == base[d];
    } else {
      assert h[d] == all[d] && all[d].role == RoleAt(d - |base| + 1);
    }
  }

  lemma WindowDrops(msgs: seq<Message>, window: nat) returns (d: nat)
    requires window > 0 && msgs != []
    ensures d == Dropped(|msgs|, window) < |msgs| && d % 2 == 0 && Windowed(msgs, window) == msgs[d..]
  {
    d := Dropped(|msgs|, window);
  }

  lemma RequestStarts(
    msgs: seq<Message>, attachment: Option<Block>, input: string, world: World, maxTurns: nat, window: nat)
    requires window > 0 && Rejection(msgs, input, world, maxTurns).None?
    ensures var o := RunOn(msgs, attachment, input, world, maxTurns, window);
            && |o.requests| <= MAX_TOOL_LOOP
            && forall k :: 0 <= k < |o.requests| ==> (StartsOnUser(o.requests[k]) <==> StartOk(msgs, window, k))
  {
    hide Loop, TrimSpace, Windowed, LoopEnding, StartOk, StartsOnUser, Continues;
    var o := RunOn(msgs, attachment, input, world, maxTurns, window);
    var base := msgs + [UserMessage(TrimSpace(input), attachment)];
    RunResult(msgs, attachment, input, world, maxTurns, window);
    if LoopEnding(base, 0, world, window).FirstCallFailed? {
      assert base[..|base| + 2 * 0] == base;
      ContinuesItself(base);
      StartOfRequest(msgs, base, base, 0, window);
    } else {
      forall k | 0 <= k < |o.requests|
        ensures StartsOnUser(o.requests[k]) <==> StartOk(msgs, window, k)
      {
        StartOfRequest(msgs, base, o.messages, k, window);
      }
    }
  }

  lemma ContinuesItself(base: seq<Message>)
    ensures Continues(base, base)
  {
  }

  /**
   After any history whatsoever: all requests of the next run start on a user message, however the world answers,
   exactly when each of the ten windows it can come to does.
   */
  lemma AnyWindowStartIff(msgs: seq<Message>, attachment: Option<Block>, input: string, maxTurns: nat, window: nat)
    requires window > 0 && |msgs| < 2 * maxTurns && TrimSpace(input) != ""
    ensures RequestsStartOnUser(msgs, attachment, input, maxTurns, window)
            <==> forall k :: 0 <= k < MAX_TOOL_LOOP ==> StartOk(msgs, window, k)
  {
    hide Loop, TrimSpace, Windowed, LoopEnding, StartOk, StartsOnUser, Continues, RunOn;
    forall world: World | !world.promptFails
      ensures var o := RunOn(msgs, attachment, input, world, maxTurns, window);
              && |o.requests| <= MAX_TOOL_LOOP
              && forall k :: 0 <= k < |o.requests| ==> (StartsOnUser(o.requests[k]) <==> StartOk(msgs, window, k))
    {
      RequestStarts(msgs, attachment, input, world, maxTurns, window);
    }
    var world := AlwaysTools();
    assert !world.promptFails;
    AlwaysToolsExhausts(msgs + [UserMessage(TrimSpace(input), attachment)], 0, window);
    RunResult(msgs, attachment, input, world, maxTurns, window);
    var o := RunOn(msgs, attachment, input, world, maxTurns, window);
    assert |o.requests| == MAX_TOOL_LOOP;
    if RequestsStartOnUser(msgs, attachment, input, maxTurns, window) {
      assert forall k :: 0 <= k < |o.requests| ==> StartsOnUser(o.requests[k]);
    }
  }

  /**
   After an alternating history, this comes to: the history is even or the window holds at least ten turns. A history
   that ends on a user message shifts the window's parity.
   */
  lemma WindowStartIff(msgs: seq<Message>, attachment: Option<Block>, input: string, maxTurns: nat, window: nat)
    requires window > 0 && Alternates(msgs) && |msgs| < 2 * maxTurns && TrimSpace(input) != ""
    ensures RequestsStartOnUser(msgs, attachment, input, maxTurns, window) <==> |msgs| % 2 == 0 || window >= 10
  {
    AnyWindowStartIff(msgs, attachment, input, maxTurns, window);
    hide RequestsStartOnUser, TrimSpace, StartOk, Alternates;
    if |msgs| % 2 == 0 || window >= 10 {
      forall k | 0 <= k < MAX_TOOL_LOOP
        ensures StartOk(msgs, window, k)
      {
        AlternatingStart(msgs, window, k);
      }
    } else {
      ShiftedStart(msgs, window);
    }
  }

  lemma AlternatingStart(msgs: seq<Message>, window: nat, k: nat)
    requires window > 0 && Alternates(msgs) && k < MAX_TOOL_LOOP && (|msgs| % 2 == 0 || window >= 10)
    ensures StartOk(msgs, window, k)
  {
    var d := Dropped(|msgs| + 1 + 2 * k, window);
    assert d % 2 == 0;
    if d < |msgs| {
      assert msgs[d].role == RoleAt(d);
    }
  }

  /** After an odd history, `window` rounds shift the window to the reply right behind the new user message. */
  lemma ShiftedStart(msgs: seq<Message>, window: nat)
    requires window > 0 && |msgs| % 2 == 1
    ensures !StartOk(msgs, window, window)
  {
    assert Dropped(|msgs| + 1 + 2 * window, window) == |msgs| + 1;
  }

  // ---------------------------------------------------------------------------
  // A session with the default configuration
  // ---------------------------------------------------------------------------

  /** The model that always answers at once. */
  function AlwaysEnds(): World {
    World((i: nat, r: seq<Message>) => Reply([], [], "end_turn", 0),
          (i: nat, n: nat, name: string, input: string) => Output(""), false)
  }

  /** The model that calls tools once and cannot be reached after that. */
  function FailsSecondCall(): World {
    World((i: nat, r: seq<Message>) => if i == 0 then Reply([], [], TOOL_USE, 0) else ApiError([]),
          (i: nat, n: nat, name: string, input: string) => Output(""), false)
  }

  lemma CleanTalk(s: Session, maxTurns: nat, window: nat)
    requires window > 0 && |s.messages| < 2 * maxTurns && s.attachment == None
    ensures var s' := After(s, Talk("x", AlwaysEnds()), maxTurns, window);
            && s'.attachment == None
            && s'.messages == s.messages + [Message(User, Str("x")), Message(Assistant, Blocks([]))]
  {
    hide Windowed;
    TrimIsIdentity("x");
    LoopStep(s.messages + [Message(User, Str("x"))], 0, "", [], [], 0, AlwaysEnds(), window);
  }

  lemma {:induction false} CleanTalks(s: Session, n: nat, maxTurns: nat, window: nat)
    requires window > 0 && |s.messages| + 2 * n <= 2 * maxTurns && s.attachment == None
    ensures var s' := AfterAll(s, seq(n, _ => Talk("x", AlwaysEnds())), maxTurns, window);
            && s'.attachment == None && |s'.messages| == |s.messages| + 2 * n && s.messages <= s'.messages
            && forall j :: |s.messages| <= j < |s'.messages| ==> s'.messages[j].role == RoleAt(j - |s.messages|)
    decreases n
  {
    hide After;
    if n > 0 {
      var calls := seq(n, _ => Talk("x", AlwaysEnds()));
      CleanTalk(s, maxTurns, window);
      var next := After(s, calls[0], maxTurns, window);
      assert calls[1..] == seq(n - 1, _ => Talk("x", AlwaysEnds()));
      CleanTalks(next, n - 1, maxTurns, window);
      var s' := AfterAll(s, calls, maxTurns, window);
      forall j | |s.messages| <= j < |s'.messages|
        ensures s'.messages[j].role == RoleAt(j - |s.messages|)
      {
        if j < |next.messages| {
          assert s'.messages[j] == next.messages[j];
        }
      }
    }
  }

  lemma BrokenTalk(maxTurns: nat, window: nat)
    requires window > 0 && maxTurns > 0
    ensures var s := After(Session([], None), Talk("x", FailsSecondCall()), maxTurns, window);
            && s.attachment == None && |s.messages| == 3
  {
    hide Windowed;
    TrimIsIdentity("x");
    var base := [Message(User, Str("x"))];
    assert [] + base == base;
    var all := base + [Message(Assistant, Blocks([]))] + [Message(User, Blocks([]))];
    LoopStep(base, 0, "", [], [], 0, FailsSecondCall(), window);
    LoopStep(all, 1, "", [Windowed(base, window)], [] + [] + [], 0, FailsSecondCall(), window);
  }

  const DEFAULT_TURNS := 20
  const DEFAULT_WINDOW := 20

  /**
   With the default configuration: after a session in which one run's second call has failed, the next run can send a
   request that starts on a reply. Once the history does not alternate, a window of 20 turns does not help.
   */
  lemma DefaultWindowMisses() returns (calls: seq<Call>)
    ensures var s := AfterAll(Session([], None), calls, DEFAULT_TURNS, DEFAULT_WINDOW);
            && |s.messages| == 39
            && !RequestsStartOnUser(s.messages, s.attachment, "x", DEFAULT_TURNS, DEFAULT_WINDOW)
  {
    calls := BrokenSession();
    var s := AfterAll(Session([], None), calls, DEFAULT_TURNS, DEFAULT_WINDOW);
    TrimIsIdentity("x");
    assert TrimSpace("x") != "";
    MissedStart(s.messages);
    hide *;
    AnyWindowStartIff(s.messages, s.attachment, "x", DEFAULT_TURNS, DEFAULT_WINDOW);
  }

  /** Of 39 messages, two rounds make 44, of which the window drops four. */
  lemma MissedStart(msgs: seq<Message>)
    requires |msgs| == 39 && msgs[4].role.Assistant?
    ensures !StartOk(msgs, DEFAULT_WINDOW, 2)
  {
    assert Dropped(39 + 1 + 2 * 2, DEFAULT_WINDOW) == 4;
  }

  /** One broken run and 18 clean ones. */
  lemma BrokenSession() returns (calls: seq<Call>)
    ensures var s := AfterAll(Session([], None), calls, DEFAULT_TURNS, DEFAULT_WINDOW);
            s.attachment == None && |s.messages| == 39 && s.messages[4].role.Assistant?
  {
    hide After;
    calls := [Talk("x", FailsSecondCall())] + seq(18, _ => Talk("x", AlwaysEnds()));
    var s0 := Session([], None);
    BrokenTalk(DEFAULT_TURNS, DEFAULT_WINDOW);
    var s1 := After(s0, calls[0], DEFAULT_TURNS, DEFAULT_WINDOW);
    assert calls[1..] == seq(18, _ => Talk("x", AlwaysEnds()));
    var s := AfterAll(s1, calls[1..], DEFAULT_TURNS, DEFAULT_WINDOW);
    assert s == AfterAll(s0, calls, DEFAULT_TURNS, DEFAULT_WINDOW);
    CleanTalks(s1, 18, DEFAULT_TURNS, DEFAULT_WINDOW);
    assert s.messages[4].role == RoleAt(1);
  }
}
