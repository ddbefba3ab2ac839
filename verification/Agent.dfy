/**
 The agent's conversation loop over a shared history: bounded tool iterations, rollback of a failed first call and the
 sliding window. The API and the tools are arbitrary oracles.
 */
module Agent {
  import opened Wrappers
  import opened Strings

  datatype Role = User | Assistant

  datatype ResultBody = Plain(content: string, isError: bool) | Screenshot(data: string)

  datatype Block =
    | Text(text: string)
    | ToolUse(id: string, name: string, input: string)
    | ToolResult(toolUseId: string, body: ResultBody)
    | Image(mediaType: string, data: string)
    | Other(kind: string)

  datatype Content = Str(text: string) | Blocks(blocks: seq<Block>)

  datatype Message = Message(role: Role, content: Content)

  /** One streamed call: the text deltas seen by the caller, then the full response or an error. */
  datatype ApiOutcome =
    | Reply(deltas: seq<string>, content: seq<Block>, stopReason: string, tokens: int)
    | ApiError(deltas: seq<string>)

  datatype ToolOutcome = Output(text: string) | ToolError(text: string)

  /** What the outside answers: to the i-th call's request, and to each tool use of the i-th reply by position. */
  datatype World = World(
    api: (nat, seq<Message>) -> ApiOutcome,
    tool: (nat, nat, string, string) -> ToolOutcome,
    promptFails: bool)

  datatype RunError = EmptyInput | TooManyTurns | PromptFailed | CallFailed

  /** The end of a Run: the history, the requests it sent, what it passed to onOutput, its tokens and its result. */
  datatype Outcome = Outcome(
    messages: seq<Message>, requests: seq<seq<Message>>, outputs: seq<string>, tokens: int,
    result: Result<string, RunError>)

  const MAX_TOOL_LOOP := 10
  const TOOL_USE := "tool_use"
  const IMAGE_PREFIX := "IMAGE_BASE64:"
  const TOOL_MARK := "\U{0000}TOOL\U{0000}"

  // ---------------------------------------------------------------------------
  // What a Run does
  // ---------------------------------------------------------------------------

  /** `windowedHistory`: at most 2 * window messages, an even number of them dropped. */
  function Windowed(msgs: seq<Message>, window: nat): (w: seq<Message>)
    requires window > 0
  {
    if |msgs| <= 2 * window then msgs else
    var drop := |msgs| - 2 * window;
    msgs[if drop % 2 != 0 then drop + 1 else drop..]
  }

  function ResultOf(use: Block, outcome: ToolOutcome): Block
    requires use.ToolUse?
  {
    match outcome
    case ToolError(e) => ToolResult(use.id, Plain(e, true))
    case Output(t) =>
      if IMAGE_PREFIX <= t then ToolResult(use.id, Screenshot(t[|IMAGE_PREFIX|..]))
      else ToolResult(use.id, Plain(t, false))
  }

  /** The tool results of the i-th reply, one per tool use, in order. */
  function Results(content: seq<Block>, i: nat, world: World): seq<Block> {
    if content == [] then [] else
    var n := |content| - 1;
    var before := Results(content[..n], i, world);
    var b := content[n];
    if b.ToolUse? then before + [ResultOf(b, world.tool(i, n, b.name, b.input))] else before
  }

  /** The tool announcements passed to onOutput. */
  function Announcements(content: seq<Block>): seq<string> {
    if content == [] then [] else
    var b := content[|content| - 1];
    Announcements(content[..|content| - 1]) + (if b.ToolUse? then [TOOL_MARK + b.name] else [])
  }

  function Concat(parts: seq<string>): string {
    if parts == [] then "" else Concat(parts[..|parts| - 1]) + parts[|parts| - 1]
  }

  /** The loop from iteration `i` on, with everything accumulated so far. */
  function Loop(
    msgs: seq<Message>, i: nat, text: string, requests: seq<seq<Message>>, outputs: seq<string>, tokens: int,
    world: World, window: nat): Outcome
    requires window > 0 && msgs != []
    decreases MAX_TOOL_LOOP - i
  {
    if i >= MAX_TOOL_LOOP then Outcome(msgs, requests, outputs, tokens, Success(text)) else
    var request := Windowed(msgs, window);
    match world.api(i, request)
    case ApiError(deltas) =>
      Outcome(if i == 0 then msgs[..|msgs| - 1] else msgs, requests + [request], outputs + deltas, tokens,
              Failure(CallFailed))
    case Reply(deltas, content, stopReason, used) =>
      var text' := if Concat(deltas) != "" then Concat(deltas) else text;
      var answered := msgs + [Message(Assistant, Blocks(content))];
      if stopReason != TOOL_USE then
        Outcome(answered, requests + [request], outputs + deltas, tokens + used, Success(text'))
      else
        Loop(answered + [Message(User, Blocks(Results(content, i, world)))], i + 1, text', requests + [request],
             outputs + deltas + Announcements(content), tokens + used, world, window)
  }

  /** One iteration of the loop. */
  lemma LoopStep(
    msgs: seq<Message>, i: nat, text: string, requests: seq<seq<Message>>, outputs: seq<string>, tokens: int,
    world: World, window: nat)
    requires window > 0 && msgs != []
    ensures var o := Loop(msgs, i, text, requests, outputs, tokens, world, window);
            if i >= MAX_TOOL_LOOP then o == Outcome(msgs, requests, outputs, tokens, Success(text)) else
            var request := Windowed(msgs, window);
            var a := world.api(i, request);
            if a.ApiError? then
              var left := if i == 0 then msgs[..|msgs| - 1] else msgs;
              o == Outcome(left, requests + [request], outputs + a.deltas, tokens, Failure(CallFailed))
            else
              var text' := if Concat(a.deltas) != "" then Concat(a.deltas) else text;
              var answered := msgs + [Message(Assistant, Blocks(a.content))];
              if a.stopReason != TOOL_USE then
                o == Outcome(answered, requests + [request], outputs + a.deltas, tokens + a.tokens, Success(text'))
              else
                o == Loop(answered + [Message(User, Blocks(Results(a.content, i, world)))], i + 1, text',
                          requests + [request], outputs + a.deltas + Announcements(a.content), tokens + a.tokens, world,
                          window)
  {
    hide Windowed, Results, Announcements, Concat;
  }

  /** The user message of a Run, with the pending attachment when there is one. */
  function UserMessage(input: string, attachment: Option<Block>): Message {
    match attachment
    case Some(image) => Message(User, Blocks([image, Text(input)]))
    case None => Message(User, Str(input))
  }

  function Rejection(msgs: seq<Message>, input: string, world: World, maxTurns: nat): Option<RunError> {
    if TrimSpace(input) == "" then Some(EmptyInput)
    else if |msgs| >= maxTurns * 2 then Some(TooManyTurns)
    else if world.promptFails then Some(PromptFailed)
    else None
  }

  /** A whole Run on a history. */
  function RunOn(
    msgs: seq<Message>, attachment: Option<Block>, input: string, world: World, maxTurns: nat, window: nat): Outcome
    requires window > 0
  {
    var rejected := Rejection(msgs, input, world, maxTurns);
    if rejected.Some? then Outcome(msgs, [], [], 0, Failure(rejected.value))
    else Loop(msgs + [UserMessage(TrimSpace(input), attachment)], 0, "", [], [], 0, world, window)
  }

  class ConversationAgent {
    var messages: seq<Message>
    var tokensUsed: int
    var pendingAttachment: Option<Block>
    const maxTurns: nat
    const historyWindow: nat

    constructor (maxTurns: nat, historyWindow: nat)
      requires historyWindow > 0
      ensures messages == [] && tokensUsed == 0 && pendingAttachment == None
      ensures this.maxTurns == maxTurns && this.historyWindow == historyWindow
    {
      messages, tokensUsed, pendingAttachment := [], 0, None;
      this.maxTurns, this.historyWindow := maxTurns, historyWindow;
    }

    method SetAttachment(block: Block)
      modifies this`pendingAttachment
      ensures pendingAttachment == Some(block)
    {
      pendingAttachment := Some(block);
    }

    method Reset()
      modifies this`messages
      ensures messages == []
    {
      messages := [];
    }

    method WindowedHistory() returns (msgs: seq<Message>)
      requires historyWindow > 0
      ensures msgs == Windowed(messages, historyWindow)
    {
      var limit := historyWindow * 2;
      if |messages| <= limit {
        return messages;
      }
      var drop := |messages| - limit;
      if drop % 2 != 0 {
        drop := drop + 1;
      }
      return messages[drop..];
    }

    /** The tool calls of one reply. */
    method ExecuteTools(content: seq<Block>, i: nat, world: World) returns (results: seq<Block>, marks: seq<string>)
      ensures results == Results(content, i, world)
      ensures marks == Announcements(content)
    {
      results, marks := [], [];
      for n := 0 to |content|
        invariant results == Results(content[..n], i, world)
        invariant marks == Announcements(content[..n])
      {
        assert content[..n + 1][..n] == content[..n];
        var block := content[n];
        if !block.ToolUse? {
          continue;
        }
        marks := marks + [TOOL_MARK + block.name];
        var outcome := world.tool(i, n, block.name, block.input);
        var isError := outcome.ToolError?;
        if !isError && IMAGE_PREFIX <= outcome.text {
          results := results + [ToolResult(block.id, Screenshot(outcome.text[|IMAGE_PREFIX|..]))];
        } else {
          results := results + [ToolResult(block.id, Plain(outcome.text, isError))];
        }
      }
      assert content[..|content|] == content;
    }

    method Run(userInput: string, world: World)
      returns (r: Result<string, RunError>, requests: seq<seq<Message>>, outputs: seq<string>)
      requires historyWindow > 0
      modifies this
      ensures Outcome(messages, requests, outputs, tokensUsed - old(tokensUsed), r)
              == RunOn(old(messages), old(pendingAttachment), userInput, world, maxTurns, historyWindow)
      ensures pendingAttachment
              == if Rejection(old(messages), userInput, world, maxTurns).Some? then old(pendingAttachment) else None
    {
      hide TrimSpace, Windowed, Results, Announcements, Concat, Loop;
      requests, outputs := [], [];
      var input := TrimSpace(userInput);
      if input == "" {
        return Failure(EmptyInput), [], [];
      }
      if |messages| >= maxTurns * 2 {
        return Failure(TooManyTurns), [], [];
      }
      if world.promptFails {
        return Failure(PromptFailed), [], [];
      }
      var userMsg;
      if pendingAttachment.Some? {
        userMsg := Message(User, Blocks([pendingAttachment.value, Text(input)]));
        pendingAttachment := None;
      } else {
        userMsg := Message(User, Str(input));
      }
      messages := messages + [userMsg];
      ghost var goal := Loop(messages, 0, "", [], [], 0, world, historyWindow);
      var finalText := "";
      var iteration := 0;
      while iteration < MAX_TOOL_LOOP
        invariant 0 <= iteration <= MAX_TOOL_LOOP && messages != [] && pendingAttachment == None
        invariant Loop(messages, iteration, finalText, requests, outputs, tokensUsed - old(tokensUsed), world,
                       historyWindow)
                  == goal
      {
        LoopStep(messages, iteration, finalText, requests, outputs, tokensUsed - old(tokensUsed), world, historyWindow);
        var request := WindowedHistory();
        requests := requests + [request];
        var resp := world.api(iteration, request);
        outputs := outputs + resp.deltas;
        if resp.ApiError? {
          if iteration == 0 {
            messages := messages[..|messages| - 1];
          }
          return Failure(CallFailed), requests, outputs;
        }
        tokensUsed := tokensUsed + resp.tokens;
        var textBuf := Concat(resp.deltas);
        if textBuf != "" {
          finalText := textBuf;
        }
        messages := messages + [Message(Assistant, Blocks(resp.content))];
        if resp.stopReason != TOOL_USE {
          return Success(finalText), requests, outputs;
        }
        var results, marks := ExecuteTools(resp.content, iteration, world);
        outputs := outputs + marks;
        messages := messages + [Message(User, Blocks(results))];
        iteration := iteration + 1;
      }
      LoopStep(messages, iteration, finalText, requests, outputs, tokensUsed - old(tokensUsed), world, historyWindow);
      return Success(finalText), requests, outputs;
    }
  }
}
