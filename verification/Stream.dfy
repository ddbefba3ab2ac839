/**
 Rebuilding a response from the event stream of section 9.2.5 of the WHATWG HTML standard, starting from parsed lines,
 and the retries around it.
 */
module Stream {
  import opened Wrappers

  datatype Block = Block(
    kind: string, text: string, id: string, name: string, input: string, thinking: string, signature: string)

  /** `Unknown` is any delta type the reader has no case for, "signature_delta" among them. */
  datatype Delta =
    | TextDelta(text: string)
    | JsonDelta(json: string)
    | ThinkingDelta(thinking: string)
    | Unknown(payload: string)

  datatype Header = Header(id: string, model: string, role: string, inputTokens: int)

  datatype Event =
    | MessageStart(message: Option<Header>)
    | BlockStart(index: int, block: Option<Block>)
    | BlockDelta(index: int, delta: Option<Delta>)
    | BlockStop(index: int)
    | MessageDelta(stopReason: Option<string>, outputTokens: Option<int>)
    | Ping
    | OtherEvent

  /** One scanned line: not a data line, the "[DONE]" marker, data that does not parse, or an event. */
  datatype Line = NotData | Done | Unparsable | Data(event: Event)

  datatype BlockState = BlockState(block: Block, json: string)

  datatype Acc = Acc(
    header: Header, stopReason: string, outputTokens: int, blocks: map<int, BlockState>, log: seq<string>)

  datatype Response = Response(
    id: string, model: string, role: string, content: seq<Block>, stopReason: string, inputTokens: int,
    outputTokens: int)

  datatype StreamError = Cancelled | ReadFailed

  const START := Acc(Header("", "", "", 0), "", 0, map[], [])
  const TOOL_USE := "tool_use"

  // ---------------------------------------------------------------------------
  // One line
  // ---------------------------------------------------------------------------

  function Extended(bs: BlockState, d: Delta): BlockState {
    match d
    case TextDelta(t) => bs.(block := bs.block.(text := bs.block.text + t))
    case JsonDelta(j) => bs.(json := bs.json + j)
    case ThinkingDelta(t) => bs.(block := bs.block.(thinking := bs.block.thinking + t))
    case Unknown(_) => bs
  }

  function Closed(bs: BlockState): BlockState {
    if bs.block.kind == TOOL_USE && bs.json != "" then bs.(block := bs.block.(input := bs.json)) else bs
  }

  function Feed(acc: Acc, line: Line): Acc {
    if !line.Data? then acc else
    match line.event
    case MessageStart(m) => if m.Some? then acc.(header := m.value) else acc
    case BlockStart(i, b) => if b.Some? then acc.(blocks := acc.blocks[i := BlockState(b.value, "")]) else acc
    case BlockDelta(i, d) =>
      if i in acc.blocks && d.Some? then
        acc.(blocks := acc.blocks[i := Extended(acc.blocks[i], d.value)],
             log := if d.value.TextDelta? then acc.log + [d.value.text] else acc.log)
      else acc
    case BlockStop(i) => if i in acc.blocks then acc.(blocks := acc.blocks[i := Closed(acc.blocks[i])]) else acc
    case MessageDelta(reason, tokens) =>
      acc.(stopReason := if reason.Some? && reason.value != "" then reason.value else acc.stopReason,
           outputTokens := if tokens.Some? && tokens.value > 0 then tokens.value else acc.outputTokens)
    case Ping => acc
    case OtherEvent => acc
  }

  /** How scanning ends: the context was found done at a line, or line `at` was the marker or past the last line. */
  datatype ScanEnd = StoppedByContext(acc: Acc) | Ended(acc: Acc, at: nat)

  function ScanLines(acc: Acc, lines: seq<Line>, i: nat, ctxDone: nat -> bool): ScanEnd
    decreases |lines| - i
  {
    if i >= |lines| then Ended(acc, i)
    else if ctxDone(i) then StoppedByContext(acc)
    else if lines[i].Done? then Ended(acc, i)
    else ScanLines(Feed(acc, lines[i]), lines, i + 1, ctxDone)
  }

  /** The blocks found at indices 0 to n - 1, in index order. */
  function Assembled(blocks: map<int, BlockState>, n: nat): seq<Block> {
    if n == 0 then [] else
    Assembled(blocks, n - 1) + (if n - 1 in blocks then [blocks[n - 1].block] else [])
  }

  function Content(blocks: map<int, BlockState>): seq<Block> {
    Assembled(blocks, |blocks|)
  }

  function ResponseOf(acc: Acc): Response {
    Response(acc.header.id, acc.header.model, acc.header.role, Content(acc.blocks), acc.stopReason,
             acc.header.inputTokens, acc.outputTokens)
  }

  /** What reading the stream gives: the response or an error, and the deltas passed to onDelta. */
  function Read(lines: seq<Line>, failedBy: nat -> bool, ctxDone: nat -> bool)
    : (Result<Response, StreamError>, seq<string>)
  {
    match ScanLines(START, lines, 0, ctxDone)
    case StoppedByContext(acc) => (Failure(Cancelled), acc.log)
    case Ended(acc, at) =>
      (if failedBy(at) then Failure(ReadFailed) else Success(ResponseOf(acc)), acc.log)
  }

  /**
   `readStream`. `failedBy(i)` tells whether the scanner has recorded a read failure by the time it hands over line i,
   or by the time it finds no more when i is past the last line; `ctxDone(i)` is asked at line i.
   */
  method ReadStream(lines: seq<Line>, failedBy: nat -> bool, ctxDone: nat -> bool)
    returns (r: Result<Response, StreamError>, log: seq<string>)
    ensures (r, log) == Read(lines, failedBy, ctxDone)
  {
    var header := Header("", "", "", 0);
    var stopReason := "";
    var outputTokens := 0;
    var blocks: map<int, BlockState> := map[];
    log := [];
    var i := 0;
    var sawMarker := false;
    while i < |lines| && !sawMarker
      invariant i <= |lines|
      invariant var acc := Acc(header, stopReason, outputTokens, blocks, log);
                ScanLines(START, lines, 0, ctxDone)
                == if sawMarker then Ended(acc, i) else ScanLines(acc, lines, i, ctxDone)
      decreases |lines| - i, !sawMarker
    {
      if ctxDone(i) {
        return Failure(Cancelled), log;
      }
      var line := lines[i];
      if line.Done? {
        sawMarker := true;
        continue;
      }
      i := i + 1;
      if !line.Data? {
        continue;
      }
      match line.event {
        case MessageStart(message) =>
          if message.Some? {
            header := message.value;
          }
        case BlockStart(index, block) =>
          if block.Some? {
            blocks := blocks[index := BlockState(block.value, "")];
          }
        case BlockDelta(index, delta) =>
          if index !in blocks || delta.None? {
            continue;
          }
          var bs := blocks[index];
          match delta.value {
            case TextDelta(text) =>
              blocks := blocks[index := bs.(block := bs.block.(text := bs.block.text + text))];
              log := log + [text];
            case JsonDelta(json) =>
              blocks := blocks[index := bs.(json := bs.json + json)];
            case ThinkingDelta(thinking) =>
              blocks := blocks[index := bs.(block := bs.block.(thinking := bs.block.thinking + thinking))];
            case Unknown(_) =>
              assert blocks == blocks[index := bs];
          }
        case BlockStop(index) =>
          if index in blocks {
            var bs := blocks[index];
            if bs.block.kind == TOOL_USE && bs.json != "" {
              blocks := blocks[index := bs.(block := bs.block.(input := bs.json))];
            } else {
              assert blocks == blocks[index := bs];
            }
          }
        case MessageDelta(reason, tokens) =>
          if reason.Some? && reason.value != "" {
            stopReason := reason.value;
          }
          if tokens.Some? && tokens.value > 0 {
            outputTokens := tokens.value;
          }
        case Ping =>
        case OtherEvent =>
      }
    }
    if failedBy(i) {
      return Failure(ReadFailed), log;
    }
    var content := [];
    for n := 0 to |blocks|
      invariant content == Assembled(blocks, n)
    {
      if n in blocks {
        content := content + [blocks[n].block];
      }
    }
    r := Success(Response(header.id, header.model, header.role, content, stopReason, header.inputTokens, outputTokens));
  }

  // ---------------------------------------------------------------------------
  // The events of one block
  // ---------------------------------------------------------------------------

  datatype BlockEvent = Open(block: Block) | Piece(delta: Delta) | Close

  /** A line as an event of the block at `i`, when it is one that the reader acts on. */
  function EventOf(line: Line, i: int): Option<BlockEvent> {
    if !line.Data? then None else
    match line.event
    case BlockStart(j, Some(b)) => if j == i then Some(Open(b)) else None
    case BlockDelta(j, Some(d)) => if j == i then Some(Piece(d)) else None
    case BlockStop(j) => if j == i then Some(Close) else None
    case _ => None
  }

  /** The events of block `i`, in order of arrival. */
  function Projection(lines: seq<Line>, i: int): seq<BlockEvent> {
    if lines == [] then [] else
    (if EventOf(lines[0], i).Some? then [EventOf(lines[0], i).value] else []) + Projection(lines[1..], i)
  }

  function Advance(st: Option<BlockState>, ev: BlockEvent): Option<BlockState> {
    match ev
    case Open(b) => Some(BlockState(b, ""))
    case Piece(d) => if st.Some? then Some(Extended(st.value, d)) else None
    case Close => if st.Some? then Some(Closed(st.value)) else None
  }

  function AdvanceAll(st: Option<BlockState>, evs: seq<BlockEvent>): Option<BlockState>
    decreases |evs|
  {
    if evs == [] then st else AdvanceAll(Advance(st, evs[0]), evs[1..])
  }

  function Lookup(blocks: map<int, BlockState>, i: int): Option<BlockState> {
    if i in blocks then Some(blocks[i]) else None
  }

  function FeedAll(acc: Acc, lines: seq<Line>): Acc
    decreases |lines|
  {
    if lines == [] then acc else FeedAll(Feed(acc, lines[0]), lines[1..])
  }

  lemma FeedOne(acc: Acc, line: Line, i: int)
    ensures Lookup(Feed(acc, line).blocks, i)
            == if EventOf(line, i).Some? then Advance(Lookup(acc.blocks, i), EventOf(line, i).value)
               else Lookup(acc.blocks, i)
  {
  }

  /** Blocks do not interfere: the state of a block depends on its own events only, however they are interleaved. */
  lemma {:induction false} BlocksAreIndependent(acc: Acc, lines: seq<Line>, i: int)
    ensures Lookup(FeedAll(acc, lines).blocks, i) == AdvanceAll(Lookup(acc.blocks, i), Projection(lines, i))
    decreases |lines|
  {
    if lines != [] {
      FeedOne(acc, lines[0], i);
      hide Feed, EventOf, Lookup, Advance;
      BlocksAreIndependent(Feed(acc, lines[0]), lines[1..], i);
      var head := if EventOf(lines[0], i).Some? then [EventOf(lines[0], i).value] else [];
      assert Projection(lines, i) == head + Projection(lines[1..], i);
      if EventOf(lines[0], i).Some? {
        assert Projection(lines, i)[1..] == Projection(lines[1..], i);
      } else {
        assert Projection(lines, i) == Projection(lines[1..], i);
      }
    }
  }

  // ---------------------------------------------------------------------------
  // Splitting a block into deltas
  // ---------------------------------------------------------------------------

  function TextPart(d: Delta): string {
    if d.TextDelta? then d.text else ""
  }

  function JsonPart(d: Delta): string {
    if d.JsonDelta? then d.json else ""
  }

  function ThinkingPart(d: Delta): string {
    if d.ThinkingDelta? then d.thinking else ""
  }

  function TextOf(deltas: seq<Delta>): string {
    if deltas == [] then "" else TextPart(deltas[0]) + TextOf(deltas[1..])
  }

  function JsonOf(deltas: seq<Delta>): string {
    if deltas == [] then "" else JsonPart(deltas[0]) + JsonOf(deltas[1..])
  }

  function ThinkingOf(deltas: seq<Delta>): string {
    if deltas == [] then "" else ThinkingPart(deltas[0]) + ThinkingOf(deltas[1..])
  }

  function Pieces(deltas: seq<Delta>): (ps: seq<BlockEvent>)
    ensures |ps| == |deltas|
  {
    seq(|deltas|, i requires 0 <= i < |deltas| => Piece(deltas[i]))
  }

  /** A block's events: its start, its deltas, its stop. */
  function Script(shell: Block, deltas: seq<Delta>): seq<BlockEvent> {
    [Open(shell)] + Pieces(deltas) + [Close]
  }

  /** The start block and the deltas carry exactly the original's parts. */
  predicate Carries(shell: Block, deltas: seq<Delta>, original: Block) {
    && shell.kind == original.kind && shell.id == original.id && shell.name == original.name
    && shell.signature == original.signature
    && shell.text + TextOf(deltas) == original.text
    && shell.thinking + ThinkingOf(deltas) == original.thinking
    && original.input == if original.kind == TOOL_USE && JsonOf(deltas) != "" then JsonOf(deltas) else shell.input
  }

  /** One delta extends the running text, thinking and JSON by its own part. */
  lemma ExtendedSums(bs: BlockState, deltas: seq<Delta>)
    requires deltas != []
    ensures var next := Extended(bs, deltas[0]);
            && next.block.text + TextOf(deltas[1..]) == bs.block.text + TextOf(deltas)
            && next.block.thinking + ThinkingOf(deltas[1..]) == bs.block.thinking + ThinkingOf(deltas)
            && next.json + JsonOf(deltas[1..]) == bs.json + JsonOf(deltas)
            && next.block == bs.block.(text := next.block.text, thinking := next.block.thinking)
  {
    ExtendedParts(bs, deltas[0]);
    hide Extended, TextPart, JsonPart, ThinkingPart;
    Associate(bs.block.text, TextPart(deltas[0]), TextOf(deltas[1..]));
    Associate(bs.block.thinking, ThinkingPart(deltas[0]), ThinkingOf(deltas[1..]));
    Associate(bs.json, JsonPart(deltas[0]), JsonOf(deltas[1..]));
  }

  lemma ExtendedParts(bs: BlockState, d: Delta)
    ensures var next := Extended(bs, d);
            && next.block.text == bs.block.text + TextPart(d)
            && next.block == bs.block.(text := next.block.text, thinking := bs.block.thinking + ThinkingPart(d))
            && next.json == bs.json + JsonPart(d)
  {
    assert bs.block.text + "" == bs.block.text && bs.block.thinking + "" == bs.block.thinking;
    assert bs.json + "" == bs.json;
  }

  lemma Associate(a: string, b: string, c: string)
    ensures a + b + c == a + (b + c)
  {
  }

  /** The state of a block after its deltas. */
  function Gathered(bs: BlockState, deltas: seq<Delta>): BlockState {
    BlockState(bs.block.(text := bs.block.text + TextOf(deltas), thinking := bs.block.thinking + ThinkingOf(deltas)),
               bs.json + JsonOf(deltas))
  }

  lemma {:induction false} PiecesExtend(bs: BlockState, deltas: seq<Delta>)
    ensures AdvanceAll(Some(bs), Pieces(deltas) + [Close]) == Some(Closed(Gathered(bs, deltas)))
    decreases |deltas|
  {
    hide Closed;
    var evs := Pieces(deltas) + [Close];
    if deltas == [] {
      assert evs == [Close] && [Close][1..] == [];
      assert bs.block.text + "" == bs.block.text && bs.block.thinking + "" == bs.block.thinking;
      assert bs.json + "" == bs.json;
      assert Gathered(bs, deltas) == bs;
    } else {
      assert evs[0] == Piece(deltas[0]);
      assert evs[1..] == Pieces(deltas[1..]) + [Close];
      var next := Extended(bs, deltas[0]);
      ExtendedSums(bs, deltas);
      assert Gathered(next, deltas[1..]) == Gathered(bs, deltas);
      hide Extended, Gathered, TextOf, JsonOf, ThinkingOf;
      PiecesExtend(next, deltas[1..]);
    }
  }

  /**
   A block's script rebuilds the original exactly when the start block and the handled deltas carry all of it; what
   unknown deltas carry, such as a streamed signature, is lost.
   */
  lemma ScriptRebuildsIff(shell: Block, deltas: seq<Delta>, original: Block, st: Option<BlockState>)
    ensures var end := AdvanceAll(st, Script(shell, deltas));
            end.Some? && (end.value.block == original <==> Carries(shell, deltas, original))
  {
    var script := Script(shell, deltas);
    assert script[0] == Open(shell) && script[1..] == Pieces(deltas) + [Close];
    PiecesExtend(BlockState(shell, ""), deltas);
    assert "" + JsonOf(deltas) == JsonOf(deltas);
  }

  // ---------------------------------------------------------------------------
  // The whole response
  // ---------------------------------------------------------------------------

  /** For each of the n indices the lines hold exactly one script; no other index occurs. */
  ghost predicate Interleaves(lines: seq<Line>, shells: seq<Block>, deltas: seq<seq<Delta>>) {
    && |shells| == |deltas|
    && (forall i :: 0 <= i < |shells| ==> Projection(lines, i) == Script(shells[i], deltas[i]))
    && (forall i :: !(0 <= i < |shells|) ==> Projection(lines, i) == [])
  }

  /** The text delta of a line, when it has one. */
  function Arrival(line: Line): seq<string> {
    if line.Data? && line.event.BlockDelta? && line.event.delta.Some? && line.event.delta.value.TextDelta?
    then [line.event.delta.value.text] else []
  }

  /** The text deltas of all lines, in order of arrival. */
  function TextArrivals(lines: seq<Line>): seq<string> {
    if lines == [] then [] else Arrival(lines[0]) + TextArrivals(lines[1..])
  }

  ghost predicate NoMarker(lines: seq<Line>) {
    forall i :: 0 <= i < |lines| ==> !lines[i].Done?
  }

  /** Scanning lines without a marker feeds them all; a marker ends the scan and hides what follows. */
  lemma {:induction false} ScanFeeds(acc: Acc, lines: seq<Line>, rest: seq<Line>, i: nat, ctxDone: nat -> bool)
    requires i <= |lines| && NoMarker(lines) && (rest == [] || rest[0].Done?)
    requires forall k :: !ctxDone(k)
    ensures ScanLines(acc, lines + rest, i, ctxDone) == Ended(FeedAll(acc, lines[i..]), |lines|)
    decreases |lines| - i
  {
    hide Feed;
    var all := lines + rest;
    if i < |lines| {
      assert all[i] == lines[i] && !lines[i].Done?;
      assert lines[i..][1..] == lines[i + 1..];
      ScanFeeds(Feed(acc, lines[i]), lines, rest, i + 1, ctxDone);
    } else {
      assert lines[i..] == [];
      if rest != [] {
        assert all[i] == rest[0];
      }
    }
  }

  /** Each block is open, or its next event opens it. */
  ghost predicate OpensFirst(acc: Acc, lines: seq<Line>) {
    forall i :: i in acc.blocks || Projection(lines, i) == [] || Projection(lines, i)[0].Open?
  }

  lemma ProjectionHead(lines: seq<Line>, i: int)
    requires lines != []
    ensures EventOf(lines[0], i).Some? ==>
              Projection(lines, i) != [] && Projection(lines, i)[0] == EventOf(lines[0], i).value
    ensures EventOf(lines[0], i).None? ==> Projection(lines, i) == Projection(lines[1..], i)
  {
    hide EventOf;
  }

  lemma OpensFirstStep(acc: Acc, lines: seq<Line>)
    requires lines != [] && OpensFirst(acc, lines)
    ensures OpensFirst(Feed(acc, lines[0]), lines[1..])
  {
    var next := Feed(acc, lines[0]);
    forall i
      ensures i in next.blocks || Projection(lines[1..], i) == [] || Projection(lines[1..], i)[0].Open?
    {
      FeedOne(acc, lines[0], i);
      ProjectionHead(lines, i);
    }
  }

  lemma LogStep(acc: Acc, lines: seq<Line>)
    requires lines != [] && OpensFirst(acc, lines)
    ensures Feed(acc, lines[0]).log == acc.log + Arrival(lines[0])
  {
    var line := lines[0];
    if line.Data? && line.event.BlockDelta? && line.event.delta.Some? {
      ProjectionHead(lines, line.event.index);
      assert line.event.index in acc.blocks;
    }
  }

  lemma {:induction false} LogIsArrivals(acc: Acc, lines: seq<Line>)
    requires OpensFirst(acc, lines)
    ensures FeedAll(acc, lines).log == acc.log + TextArrivals(lines)
    decreases |lines|
  {
    hide Feed, OpensFirst, Arrival;
    if lines != [] {
      OpensFirstStep(acc, lines);
      LogStep(acc, lines);
      LogIsArrivals(Feed(acc, lines[0]), lines[1..]);
      assert acc.log + Arrival(lines[0]) + TextArrivals(lines[1..]) == acc.log + TextArrivals(lines);
    }
  }

  lemma {:induction false} AssembledAll(blocks: map<int, BlockState>, original: seq<Block>, n: nat)
    requires n <= |original|
    requires forall i :: 0 <= i < n ==> i in blocks && blocks[i].block == original[i]
    ensures Assembled(blocks, n) == original[..n]
  {
    if n > 0 {
      AssembledAll(blocks, original, n - 1);
      assert original[..n] == original[..n - 1] + [original[n - 1]];
    }
  }

  lemma KeysAreIndices(blocks: map<int, BlockState>, n: nat)
    requires forall i :: i in blocks <==> 0 <= i < n
    ensures |blocks| == n
  {
    assert blocks.Keys == Indices(n);
    IndexCount(n);
  }

  function Indices(n: nat): (s: set<int>)
    ensures forall i :: i in s <==> 0 <= i < n
  {
    if n == 0 then {} else Indices(n - 1) + {n - 1}
  }

  lemma {:induction false} IndexCount(n: nat)
    ensures |Indices(n)| == n
  {
    if n > 0 {
      IndexCount(n - 1);
      var before := Indices(n - 1);
      assert Indices(n) == before + {n - 1} && n - 1 !in before;
      hide Indices;
    }
  }

  /** Interleaved scripts leave exactly the original blocks, in index order. */
  lemma RebuiltContent(lines: seq<Line>, shells: seq<Block>, deltas: seq<seq<Delta>>, original: seq<Block>)
    requires |original| == |shells| && Interleaves(lines, shells, deltas)
    requires forall i :: 0 <= i < |original| ==> Carries(shells[i], deltas[i], original[i])
    ensures Content(FeedAll(START, lines).blocks) == original
  {
    hide Feed, Advance, EventOf, Carries, Script;
    var acc := FeedAll(START, lines);
    forall i
      ensures 0 <= i < |original| ==> i in acc.blocks && acc.blocks[i].block == original[i]
      ensures !(0 <= i < |original|) ==> i !in acc.blocks
    {
      BlocksAreIndependent(START, lines, i);
      if 0 <= i < |original| {
        ScriptRebuildsIff(shells[i], deltas[i], original[i], None);
        assert Lookup(acc.blocks, i) == AdvanceAll(None, Script(shells[i], deltas[i]));
      } else {
        assert Lookup(acc.blocks, i) == AdvanceAll(None, Projection(lines, i)) && Projection(lines, i) == [];
      }
    }
    hide AdvanceAll, Projection, FeedAll, Interleaves;
    KeysAreIndices(acc.blocks, |original|);
    AssembledAll(acc.blocks, original, |original|);
    assert original[..|original|] == original;
  }

  /** A script opens its block first. */
  lemma ScriptsOpenFirst(lines: seq<Line>, shells: seq<Block>, deltas: seq<seq<Delta>>)
    requires Interleaves(lines, shells, deltas)
    ensures OpensFirst(START, lines)
  {
    hide Projection;
    forall i
      ensures i in START.blocks || Projection(lines, i) == [] || Projection(lines, i)[0].Open?
    {
      if 0 <= i < |shells| {
        assert Script(shells[i], deltas[i])[0] == Open(shells[i]);
      }
    }
  }

  /**
   Reassembly: however each block is split into deltas and however the blocks' events are interleaved with each other
   and with other lines, reading gives the original blocks in index order, and onDelta saw the text deltas in order of
   arrival. Anything after a "[DONE]" marker is ignored.
   */
  lemma Reassembles(
    lines: seq<Line>, rest: seq<Line>, shells: seq<Block>, deltas: seq<seq<Delta>>, original: seq<Block>,
    failedBy: nat -> bool, ctxDone: nat -> bool)
    requires |original| == |shells| && Interleaves(lines, shells, deltas)
    requires forall i :: 0 <= i < |original| ==> Carries(shells[i], deltas[i], original[i])
    requires NoMarker(lines) && (rest == [] || rest[0].Done?)
    requires !failedBy(|lines|) && forall k :: !ctxDone(k)
    ensures var (r, log) := Read(lines + rest, failedBy, ctxDone);
            r.Success? && r.value.content == original && log == TextArrivals(lines)
  {
    RebuiltContent(lines, shells, deltas, original);
    ScriptsOpenFirst(lines, shells, deltas);
    LogIsArrivals(START, lines);
    hide Feed, FeedAll, Interleaves, Carries, Content, OpensFirst, ScanLines;
    ScanFeeds(START, lines, rest, 0, ctxDone);
    assert lines[0..] == lines && [] + TextArrivals(lines) == TextArrivals(lines);
  }

  lemma {:induction false} AssembledLength(blocks: map<int, BlockState>, n: nat)
    ensures |Assembled(blocks, n)| <= n
    ensures |Assembled(blocks, n)| == n <==> forall i :: 0 <= i < n ==> i in blocks
  {
    if n > 0 {
      AssembledLength(blocks, n - 1);
    }
  }

  /** No started block is dropped exactly when the indices are 0 to n - 1 without a gap. */
  lemma NoBlockDroppedIff(blocks: map<int, BlockState>)
    ensures |Content(blocks)| == |blocks| <==> forall i :: i in blocks ==> 0 <= i < |blocks|
  {
    var n := |blocks|;
    hide Indices;
    AssembledLength(blocks, n);
    IndexCount(n);
    if forall i :: 0 <= i < n ==> i in blocks {
      SameSizeSubset(Indices(n), blocks.Keys);
    }
    if forall i :: i in blocks ==> 0 <= i < n {
      SameSizeSubset(blocks.Keys, Indices(n));
    }
  }

  lemma SameSizeSubset(a: set<int>, b: set<int>)
    requires a <= b && |a| == |b|
    ensures a == b
  {
    assert b == a + (b - a);
    assert |b - a| == 0;
  }

  // ---------------------------------------------------------------------------
  // The rest of the response
  // ---------------------------------------------------------------------------

  /** The last message start with a message, if any. */
  function LastHeader(lines: seq<Line>): Option<Header> {
    if lines == [] then None else
    var l := lines[|lines| - 1];
    if l.Data? && l.event.MessageStart? && l.event.message.Some? then l.event.message
    else LastHeader(lines[..|lines| - 1])
  }

  /** The last nonempty stop reason. */
  function LastReason(lines: seq<Line>): string {
    if lines == [] then "" else
    var l := lines[|lines| - 1];
    if l.Data? && l.event.MessageDelta? && l.event.stopReason.Some? && l.event.stopReason.value != ""
    then l.event.stopReason.value else LastReason(lines[..|lines| - 1])
  }

  /** The last positive count of output tokens. */
  function LastTokens(lines: seq<Line>): int {
    if lines == [] then 0 else
    var l := lines[|lines| - 1];
    if l.Data? && l.event.MessageDelta? && l.event.outputTokens.Some? && l.event.outputTokens.value > 0
    then l.event.outputTokens.value else LastTokens(lines[..|lines| - 1])
  }

  /** Header, stop reason and output tokens are the last ones given, wherever they come among the blocks' events. */
  lemma {:induction false} LastOnesWin(lines: seq<Line>)
    ensures var acc := FeedAll(START, lines);
            && acc.header == (if LastHeader(lines).Some? then LastHeader(lines).value else START.header)
            && acc.stopReason == LastReason(lines) && acc.outputTokens == LastTokens(lines)
    decreases |lines|
  {
    if lines != [] {
      var front, l := lines[..|lines| - 1], lines[|lines| - 1];
      LastOnesWin(front);
      FeedAppend(START, front, [l]);
      assert front + [l] == lines;
      assert [l][1..] == [];
      assert FeedAll(START, lines) == Feed(FeedAll(START, front), l);
    }
  }

  // ---------------------------------------------------------------------------
  // A stream that is cut off
  // ---------------------------------------------------------------------------

  lemma {:induction false} FeedAppend(acc: Acc, a: seq<Line>, b: seq<Line>)
    ensures FeedAll(acc, a + b) == FeedAll(FeedAll(acc, a), b)
    decreases |a|
  {
    hide Feed;
    if a == [] {
      assert a + b == b;
    } else {
      assert (a + b)[1..] == a[1..] + b;
      FeedAppend(Feed(acc, a[0]), a[1..], b);
    }
  }

  /** The position of the first marker, or the number of lines when there is none. */
  function MarkerAt(lines: seq<Line>): (i: nat)
    ensures i <= |lines| && (forall j :: 0 <= j < i ==> !lines[j].Done?) && (i < |lines| ==> lines[i].Done?)
  {
    if lines == [] || lines[0].Done? then 0 else
    var i := MarkerAt(lines[1..]) + 1;
    assert forall j :: 0 < j < i ==> lines[j] == lines[1..][j - 1];
    i
  }

  /** The context is not done at any line that is looked at, the marker included. */
  ghost predicate ContextHolds(lines: seq<Line>, ctxDone: nat -> bool) {
    forall k: nat :: k < |lines| && k <= MarkerAt(lines) ==> !ctxDone(k)
  }

  lemma {:induction false} ScanStops(acc: Acc, lines: seq<Line>, i: nat, ctxDone: nat -> bool)
    requires i <= MarkerAt(lines)
    ensures var end := ScanLines(acc, lines, i, ctxDone);
            && (end.Ended? <==> forall k: nat :: i <= k < |lines| && k <= MarkerAt(lines) ==> !ctxDone(k))
            && (end.Ended? ==> end.at == MarkerAt(lines))
    decreases |lines| - i
  {
    hide Feed;
    if i < MarkerAt(lines) && !ctxDone(i) {
      ScanStops(Feed(acc, lines[i]), lines, i + 1, ctxDone);
    }
  }

  /**
   A read succeeds exactly when the context holds and no read failure has been recorded by the time of the marker, or of
   the end: a connection that closes early without one is not noticed.
   */
  lemma ReadSucceedsIff(lines: seq<Line>, failedBy: nat -> bool, ctxDone: nat -> bool)
    ensures var r := Read(lines, failedBy, ctxDone).0;
            && (r.Success? <==> ContextHolds(lines, ctxDone) && !failedBy(MarkerAt(lines)))
            && (r == Failure(Cancelled) <==> !ContextHolds(lines, ctxDone))
  {
    ScanStops(START, lines, 0, ctxDone);
    hide ScanLines, ResponseOf;
  }

  /** How many lines have been read at the end: up to the marker, the last, or the first with the context done. */
  function LinesRead(lines: seq<Line>, i: nat, ctxDone: nat -> bool): (n: nat)
    requires i <= MarkerAt(lines)
    ensures i <= n <= MarkerAt(lines)
    decreases |lines| - i
  {
    if i == MarkerAt(lines) || ctxDone(i) then i else LinesRead(lines, i + 1, ctxDone)
  }

  lemma {:induction false} ScanFeedsRead(acc: Acc, lines: seq<Line>, i: nat, ctxDone: nat -> bool)
    requires i <= MarkerAt(lines)
    ensures var n := LinesRead(lines, i, ctxDone);
            && ScanLines(acc, lines, i, ctxDone).acc == FeedAll(acc, lines[i..n])
            && (ScanLines(acc, lines, i, ctxDone).Ended? ==> n == MarkerAt(lines))
    decreases |lines| - i
  {
    hide Feed;
    var n := LinesRead(lines, i, ctxDone);
    if i == MarkerAt(lines) || ctxDone(i) {
      assert lines[i..n] == [];
    } else {
      assert lines[i..n][0] == lines[i] && lines[i..n][1..] == lines[i + 1..n];
      ScanFeedsRead(Feed(acc, lines[i]), lines, i + 1, ctxDone);
    }
  }

  /**
   What a successful read returns besides the content: id, model, role and input tokens of the last message start
   before the marker, the last nonempty stop reason and the last positive count of output tokens. Whether it succeeds or
   not, it has passed on the deltas of the lines that were read.
   */
  lemma ReadReturnsLast(lines: seq<Line>, failedBy: nat -> bool, ctxDone: nat -> bool)
    ensures var (r, log) := Read(lines, failedBy, ctxDone);
            && log == FeedAll(START, lines[..LinesRead(lines, 0, ctxDone)]).log
            && (r.Success? ==>
                  var before := lines[..MarkerAt(lines)];
                  var header := LastHeader(before);
                  && r.value.id == (if header.Some? then header.value.id else "")
                  && r.value.model == (if header.Some? then header.value.model else "")
                  && r.value.role == (if header.Some? then header.value.role else "")
                  && r.value.inputTokens == (if header.Some? then header.value.inputTokens else 0)
                  && r.value.stopReason == LastReason(before)
                  && r.value.outputTokens == LastTokens(before)
                  && r.value.content == Content(FeedAll(START, before).blocks))
  {
    ScanFeedsRead(START, lines, 0, ctxDone);
    var n := LinesRead(lines, 0, ctxDone);
    assert lines[0..n] == lines[..n];
    LastOnesWin(lines[..MarkerAt(lines)]);
    hide Feed, FeedAll, ScanLines, LastHeader, LastReason, LastTokens, Content, MarkerAt, LinesRead;
  }

  /** `k` events of the script have come through, and the missing ones carry nothing. */
  predicate NothingMissing(k: nat, shell: Block, deltas: seq<Delta>, original: Block) {
    || k == |deltas| + 2
    || (0 < k <= |deltas| + 1 && TextOf(deltas[k - 1..]) == "" && ThinkingOf(deltas[k - 1..]) == ""
        && shell.input == original.input)
  }

  lemma {:induction false} PartsSplit(deltas: seq<Delta>, j: nat)
    requires j <= |deltas|
    ensures TextOf(deltas) == TextOf(deltas[..j]) + TextOf(deltas[j..])
    ensures ThinkingOf(deltas) == ThinkingOf(deltas[..j]) + ThinkingOf(deltas[j..])
    decreases j
  {
    if j > 0 {
      PartsSplit(deltas[1..], j - 1);
      assert deltas[..j][1..] == deltas[1..][..j - 1] && deltas[1..][j - 1..] == deltas[j..];
      Associate(TextPart(deltas[0]), TextOf(deltas[1..][..j - 1]), TextOf(deltas[j..]));
      Associate(ThinkingPart(deltas[0]), ThinkingOf(deltas[1..][..j - 1]), ThinkingOf(deltas[j..]));
    } else {
      assert deltas[..0] == [] && deltas[0..] == deltas;
      assert "" + TextOf(deltas) == TextOf(deltas) && "" + ThinkingOf(deltas) == ThinkingOf(deltas);
    }
  }

  lemma {:induction false} PiecesGather(bs: BlockState, deltas: seq<Delta>)
    ensures AdvanceAll(Some(bs), Pieces(deltas)) == Some(Gathered(bs, deltas))
    decreases |deltas|
  {
    var evs := Pieces(deltas);
    if deltas == [] {
      assert bs.block.text + "" == bs.block.text && bs.block.thinking + "" == bs.block.thinking;
      assert bs.json + "" == bs.json;
    } else {
      assert evs[0] == Piece(deltas[0]) && evs[1..] == Pieces(deltas[1..]);
      var next := Extended(bs, deltas[0]);
      ExtendedSums(bs, deltas);
      assert Gathered(next, deltas[1..]) == Gathered(bs, deltas);
      hide Extended, Gathered, TextOf, JsonOf, ThinkingOf;
      PiecesGather(next, deltas[1..]);
    }
  }

  lemma SameStart(a: string, b: string, c: string)
    ensures a + b == a + (b + c) <==> c == ""
  {
    assert |a + (b + c)| == |a + b| + |c|;
    if c == "" {
      assert b + c == b;
    }
  }

  /** A cut script still leaves the original block exactly when the missing events carry nothing. */
  lemma CutScriptIff(shell: Block, deltas: seq<Delta>, original: Block, k: nat)
    requires Carries(shell, deltas, original) && k <= |deltas| + 2
    ensures var end := AdvanceAll(None, Script(shell, deltas)[..k]);
            && (end.Some? <==> k > 0)
            && (end.Some? && end.value.block == original <==> NothingMissing(k, shell, deltas, original))
  {
    var script := Script(shell, deltas);
    hide TextOf, ThinkingOf, JsonOf;
    if k == |deltas| + 2 {
      assert script[..k] == script;
      ScriptRebuildsIff(shell, deltas, original, None);
    } else if k > 0 {
      var some := deltas[..k - 1];
      var cut := script[..k];
      assert cut[0] == Open(shell) && cut[1..] == Pieces(some);
      PiecesGather(BlockState(shell, ""), some);
      PartsSplit(deltas, k - 1);
      SameStart(shell.text, TextOf(some), TextOf(deltas[k - 1..]));
      SameStart(shell.thinking, ThinkingOf(some), ThinkingOf(deltas[k - 1..]));
    } else {
      assert script[..k] == [];
    }
  }

  lemma {:induction false} ProjectionAppend(a: seq<Line>, b: seq<Line>, i: int)
    ensures Projection(a + b, i) == Projection(a, i) + Projection(b, i)
    decreases |a|
  {
    hide EventOf;
    if a == [] {
      assert a + b == b;
    } else {
      assert (a + b)[1..] == a[1..] + b;
      ProjectionAppend(a[1..], b, i);
      var head := if EventOf(a[0], i).Some? then [EventOf(a[0], i).value] else [];
      assert Projection(a + b, i) == head + (Projection(a[1..], i) + Projection(b, i));
      assert Projection(a, i) == head + Projection(a[1..], i);
    }
  }

  /** The blocks of a cut stream are the originals exactly when nothing that is missing carries anything. */
  ghost predicate CutKeepsBlocks(seen: seq<Line>, shells: seq<Block>, deltas: seq<seq<Delta>>, original: seq<Block>)
    requires |shells| == |deltas| == |original|
  {
    forall i :: 0 <= i < |original| ==> NothingMissing(|Projection(seen, i)|, shells[i], deltas[i], original[i])
  }

  lemma AssembledWithin(blocks: map<int, BlockState>, n: nat)
    requires forall i :: i in blocks ==> 0 <= i < n
    ensures |blocks| <= n
    ensures |blocks| == n ==> forall i :: 0 <= i < n ==> i in blocks
  {
    assert blocks.Keys <= Indices(n);
    IndexCount(n);
    SubsetSize(blocks.Keys, Indices(n));
    if |blocks| == n {
      SameSizeSubset(blocks.Keys, Indices(n));
    }
  }

  lemma SubsetSize(a: set<int>, b: set<int>)
    requires a <= b
    ensures |a| <= |b|
  {
    assert b == a + (b - a);
  }

  /** The content is the original exactly when each of its blocks is there and is the original. */
  lemma ContentIff(blocks: map<int, BlockState>, original: seq<Block>)
    requires forall i :: i in blocks ==> 0 <= i < |original|
    ensures Content(blocks) == original
            <==> forall i :: 0 <= i < |original| ==> i in blocks && blocks[i].block == original[i]
  {
    var n := |original|;
    AssembledWithin(blocks, n);
    AssembledLength(blocks, |blocks|);
    hide Indices;
    if forall i :: 0 <= i < n ==> i in blocks && blocks[i].block == original[i] {
      KeysAreIndices(blocks, n);
      AssembledAll(blocks, original, n);
      assert original[..n] == original;
    } else if Content(blocks) == original {
      AssembledAt(blocks, n);
    }
  }

  lemma {:induction false} AssembledAt(blocks: map<int, BlockState>, n: nat)
    requires forall i :: 0 <= i < n ==> i in blocks
    ensures |Assembled(blocks, n)| == n && forall i :: 0 <= i < n ==> Assembled(blocks, n)[i] == blocks[i].block
  {
    if n > 0 {
      AssembledAt(blocks, n - 1);
    }
  }

  /**
   A stream that is cut short without a read failure, anywhere: its content is still the whole content exactly when, for
   each block, its start has come and the missing deltas and stop carry nothing.
   */
  lemma CutContentIff(
    seen: seq<Line>, missing: seq<Line>, shells: seq<Block>, deltas: seq<seq<Delta>>, original: seq<Block>,
    failedBy: nat -> bool, ctxDone: nat -> bool)
    requires |original| == |shells| && Interleaves(seen + missing, shells, deltas)
    requires forall i :: 0 <= i < |original| ==> Carries(shells[i], deltas[i], original[i])
    requires NoMarker(seen) && !failedBy(|seen|) && forall k :: !ctxDone(k)
    ensures var r := Read(seen, failedBy, ctxDone).0;
            r.Success? && (r.value.content == original <==> CutKeepsBlocks(seen, shells, deltas, original))
  {
    hide Feed, Advance, EventOf, Carries, ScanLines, NothingMissing, Content, Script;
    ScanFeeds(START, seen, [], 0, ctxDone);
    assert seen + [] == seen && seen[0..] == seen;
    var acc := FeedAll(START, seen);
    forall i
      ensures Lookup(acc.blocks, i) == AdvanceAll(None, Projection(seen, i))
      ensures Projection(seen, i) <= Projection(seen + missing, i)
    {
      BlocksAreIndependent(START, seen, i);
      ProjectionAppend(seen, missing, i);
    }
    forall i
      ensures !(0 <= i < |original|) ==> i !in acc.blocks
      ensures 0 <= i < |original| ==>
                (i in acc.blocks && acc.blocks[i].block == original[i]
                 <==> NothingMissing(|Projection(seen, i)|, shells[i], deltas[i], original[i]))
    {
      if 0 <= i < |original| {
        CutBlock(seen, missing, i, shells, deltas, original);
      } else {
        assert Projection(seen, i) == [];
        assert Lookup(acc.blocks, i) == None;
      }
    }
    ContentIff(acc.blocks, original);
  }

  lemma CutBlock(
    seen: seq<Line>, missing: seq<Line>, i: nat, shells: seq<Block>, deltas: seq<seq<Delta>>, original: seq<Block>)
    requires |original| == |shells| && Interleaves(seen + missing, shells, deltas) && i < |original|
    requires Carries(shells[i], deltas[i], original[i])
    ensures var end := AdvanceAll(None, Projection(seen, i));
            end.Some? && end.value.block == original[i]
            <==> NothingMissing(|Projection(seen, i)|, shells[i], deltas[i], original[i])
  {
    hide EventOf, Carries, NothingMissing, AdvanceAll;
    ProjectionAppend(seen, missing, i);
    var k, script := |Projection(seen, i)|, Script(shells[i], deltas[i]);
    assert Projection(seen, i) == script[..k];
    CutScriptIff(shells[i], deltas[i], original[i], k);
  }

  predicate GivesReason(line: Line) {
    line.Data? && line.event.MessageDelta? && line.event.stopReason.Some? && line.event.stopReason.value != ""
  }

  predicate IsBlockEvent(line: Line) {
    line.Data? && (line.event.BlockStart? || line.event.BlockDelta? || line.event.BlockStop?)
  }

  /** Every nonempty stop reason comes after all block events. */
  ghost predicate ReasonsLast(lines: seq<Line>) {
    forall i, j :: 0 <= i < j < |lines| && GivesReason(lines[i]) ==> !IsBlockEvent(lines[j])
  }

  lemma {:induction false} ReasonSeen(lines: seq<Line>) returns (i: nat)
    requires LastReason(lines) != ""
    ensures i < |lines| && GivesReason(lines[i])
    decreases |lines|
  {
    var l := lines[|lines| - 1];
    if GivesReason(l) {
      i := |lines| - 1;
    } else {
      i := ReasonSeen(lines[..|lines| - 1]);
    }
  }

  lemma {:induction false} NoBlockEvents(lines: seq<Line>, i: int)
    requires forall j :: 0 <= j < |lines| ==> !IsBlockEvent(lines[j])
    ensures Projection(lines, i) == []
  {
    if lines != [] {
      NoBlockEvents(lines[1..], i);
    }
  }

  /**
   What a caller can check: when the stop reasons come after all block events, a nonempty stop reason proves that the
   content is whole, wherever the stream was cut.
   */
  lemma ReasonMeansWhole(
    seen: seq<Line>, missing: seq<Line>, shells: seq<Block>, deltas: seq<seq<Delta>>, original: seq<Block>,
    failedBy: nat -> bool, ctxDone: nat -> bool)
    requires |original| == |shells| && Interleaves(seen + missing, shells, deltas) && ReasonsLast(seen + missing)
    requires forall i :: 0 <= i < |original| ==> Carries(shells[i], deltas[i], original[i])
    requires NoMarker(seen) && !failedBy(|seen|) && forall k :: !ctxDone(k)
    ensures var r := Read(seen, failedBy, ctxDone).0;
            r.Success? && (r.value.stopReason != "" ==> r.value.content == original)
  {
    CutContentIff(seen, missing, shells, deltas, original, failedBy, ctxDone);
    LastOnesWin(seen);
    ScanFeeds(START, seen, [], 0, ctxDone);
    assert seen + [] == seen && seen[0..] == seen;
    hide Feed, EventOf, Carries, ScanLines, Content, FeedAll;
    if LastReason(seen) != "" {
      var j := ReasonSeen(seen);
      var all := seen + missing;
      forall n | 0 <= n < |missing|
        ensures !IsBlockEvent(missing[n])
      {
        assert all[j] == seen[j] && all[|seen| + n] == missing[n];
      }
      forall i | 0 <= i < |original|
        ensures NothingMissing(|Projection(seen, i)|, shells[i], deltas[i], original[i])
      {
        ProjectionAppend(seen, missing, i);
        NoBlockEvents(missing, i);
      }
    }
  }

  // ---------------------------------------------------------------------------
  // Retries
  // ---------------------------------------------------------------------------

  /** An attempt's error: an HTTP status, or anything else, such as a stream that breaks off. */
  datatype TryError = Status(code: int) | Transport

  /** One attempt: the deltas it passed on and how it ended. */
  datatype Try = Try(log: seq<string>, result: Result<Response, TryError>)

  datatype RetryError = Last(error: TryError) | ContextDone

  const MAX_RETRIES := 3

  predicate IsRetryable(code: int) {
    code == 429 || code == 500 || code == 503
  }

  /** The attempts from the k-th on: the result and all deltas passed on. */
  function RetryFrom(
    k: nat, last: TryError, tries: nat -> Try, ctxDoneAfter: nat -> bool, ctxDoneWaiting: nat -> bool
  ): (Result<Response, RetryError>, seq<string>)
    decreases MAX_RETRIES + 1 - k
  {
    if k > MAX_RETRIES then (Failure(Last(last)), [])
    else if k > 0 && ctxDoneWaiting(k) then (Failure(ContextDone), [])
    else
      match tries(k).result
      case Success(r) => (Success(r), tries(k).log)
      case Failure(e) =>
        if e.Transport? && ctxDoneAfter(k) then (Failure(ContextDone), tries(k).log)
        else if e.Status? && !IsRetryable(e.code) then (Failure(Last(e)), tries(k).log)
        else
          var (r, log) := RetryFrom(k + 1, e, tries, ctxDoneAfter, ctxDoneWaiting);
          (r, tries(k).log + log)
  }

  /** The k-th attempt fails in a way that is retried. */
  predicate FailsRetryably(k: nat, tries: nat -> Try, ctxDoneAfter: nat -> bool) {
    && tries(k).result.Failure?
    && (match tries(k).result.error case Transport => !ctxDoneAfter(k) case Status(code) => IsRetryable(code))
  }

  /** The k-th attempt fails in a way that is retried, and the context is not found done before the next one. */
  predicate GoesOn(k: nat, tries: nat -> Try, ctxDoneAfter: nat -> bool, ctxDoneWaiting: nat -> bool) {
    FailsRetryably(k, tries, ctxDoneAfter) && !ctxDoneWaiting(k + 1)
  }

  /** All attempts before the k-th went on. */
  ghost predicate AllGoOn(k: nat, tries: nat -> Try, ctxDoneAfter: nat -> bool, ctxDoneWaiting: nat -> bool) {
    forall j: nat :: j < k ==> GoesOn(j, tries, ctxDoneAfter, ctxDoneWaiting)
  }

  /** The backoff before attempt `k`, all in all, in seconds. */
  function Backoff(k: nat): nat {
    if k == 0 then 0 else if k == 1 then 1 else 2 * Backoff(k - 1) + 1
  }

  /**
   `withRetry` around a streaming attempt. `attempts` counts the calls made: attempt k is made exactly when k <= 3 and
   all earlier ones went on. `waited` is the backoff slept through, in seconds.
   */
  method WithRetry(tries: nat -> Try, ctxDoneAfter: nat -> bool, ctxDoneWaiting: nat -> bool)
    returns (r: Result<Response, RetryError>, log: seq<string>, waited: nat, attempts: nat)
    ensures (r, log) == RetryFrom(0, Transport, tries, ctxDoneAfter, ctxDoneWaiting)
    ensures forall k: nat :: k < attempts <==> k <= MAX_RETRIES && AllGoOn(k, tries, ctxDoneAfter, ctxDoneWaiting)
    ensures 1 <= attempts <= MAX_RETRIES + 1 && log == LogsBefore(tries, 0, attempts)
    ensures waited == [0, 1, 3, 7][attempts - 1]
  {
    hide IsRetryable, AllGoOn, LogsBefore, Backoff, RetryFrom;
    attempts := 0;
    NoneYet(tries, ctxDoneAfter, ctxDoneWaiting);
    var backoff := 1;
    var lastErr := Transport;
    log := [];
    assert StillToCome([], 0, Transport, tries, ctxDoneAfter, ctxDoneWaiting) by {
      ghost var all := RetryFrom(0, Transport, tries, ctxDoneAfter, ctxDoneWaiting).1;
      assert [] + all == all;
    }
    waited := 0;
    var attempt := 0;
    while attempt <= MAX_RETRIES
      invariant 0 <= attempt <= MAX_RETRIES + 1 && attempts == attempt
      invariant (attempt == 0 && waited == 0 && backoff == 1)
                || (attempt > 0 && waited == Backoff(attempt - 1) && backoff == Backoff(attempt - 1) + 1)
      invariant attempt > 0 ==> AllGoOn(attempt - 1, tries, ctxDoneAfter, ctxDoneWaiting)
                                && FailsRetryably(attempt - 1, tries, ctxDoneAfter)
      invariant log == LogsBefore(tries, 0, attempts)
      invariant StillToCome(log, attempt, lastErr, tries, ctxDoneAfter, ctxDoneWaiting)
    {
      RetryStep(log, attempt, lastErr, tries, ctxDoneAfter, ctxDoneWaiting);
      if attempt > 0 {
        if ctxDoneWaiting(attempt) {
          AttemptsAre(attempts, tries, ctxDoneAfter, ctxDoneWaiting);
          return Failure(ContextDone), log, waited, attempts;
        }
        AllGoOnNext(attempt, tries, ctxDoneAfter, ctxDoneWaiting);
        BackoffNext(attempt);
        waited := waited + backoff;
        backoff := backoff * 2;
      }
      var t := tries(attempt);
      attempts := attempts + 1;
      log := log + t.log;
      LogsBeforeNext(tries, 0, attempt);
      if t.result.Success? {
        AttemptsAre(attempts, tries, ctxDoneAfter, ctxDoneWaiting);
        return Success(t.result.value), log, waited, attempts;
      }
      lastErr := t.result.error;
      if lastErr.Transport? {
        if ctxDoneAfter(attempt) {
          AttemptsAre(attempts, tries, ctxDoneAfter, ctxDoneWaiting);
          return Failure(ContextDone), log, waited, attempts;
        }
      } else if !IsRetryable(lastErr.code) {
        AttemptsAre(attempts, tries, ctxDoneAfter, ctxDoneWaiting);
        return Failure(Last(lastErr)), log, waited, attempts;
      }
      attempt := attempt + 1;
    }
    RetryOver(log, lastErr, tries, ctxDoneAfter, ctxDoneWaiting);
    AttemptsAre(attempts, tries, ctxDoneAfter, ctxDoneWaiting);
    return Failure(Last(lastErr)), log, waited, attempts;
  }

  /** With `log` passed on, the attempts from the k-th on give the result of the whole call. */
  ghost predicate StillToCome(
    log: seq<string>, k: nat, last: TryError, tries: nat -> Try, ctxDoneAfter: nat -> bool, ctxDoneWaiting: nat -> bool)
  {
    var (r, rest) := RetryFrom(k, last, tries, ctxDoneAfter, ctxDoneWaiting);
    (r, log + rest) == RetryFrom(0, Transport, tries, ctxDoneAfter, ctxDoneWaiting)
  }

  lemma RetryStep(
    log: seq<string>, k: nat, last: TryError, tries: nat -> Try, ctxDoneAfter: nat -> bool, ctxDoneWaiting: nat -> bool)
    requires k <= MAX_RETRIES && StillToCome(log, k, last, tries, ctxDoneAfter, ctxDoneWaiting)
    ensures var all := RetryFrom(0, Transport, tries, ctxDoneAfter, ctxDoneWaiting);
            var t := tries(k);
            if k > 0 && ctxDoneWaiting(k) then all == (Failure(ContextDone), log)
            else if t.result.Success? then all == (Success(t.result.value), log + t.log)
            else if FailsRetryably(k, tries, ctxDoneAfter) then
              StillToCome(log + t.log, k + 1, t.result.error, tries, ctxDoneAfter, ctxDoneWaiting)
            else all == (Failure(if t.result.error.Transport? then ContextDone else Last(t.result.error)), log + t.log)
  {
    hide IsRetryable;
    assert log + [] == log;
    var t := tries(k);
    if t.result.Failure? {
      var rest := RetryFrom(k + 1, t.result.error, tries, ctxDoneAfter, ctxDoneWaiting).1;
      assert log + (t.log + rest) == log + t.log + rest;
    }
  }

  lemma RetryOver(
    log: seq<string>, last: TryError, tries: nat -> Try, ctxDoneAfter: nat -> bool, ctxDoneWaiting: nat -> bool)
    requires StillToCome(log, MAX_RETRIES + 1, last, tries, ctxDoneAfter, ctxDoneWaiting)
    ensures RetryFrom(0, Transport, tries, ctxDoneAfter, ctxDoneWaiting) == (Failure(Last(last)), log)
  {
    assert log + [] == log;
  }

  lemma NoneYet(tries: nat -> Try, ctxDoneAfter: nat -> bool, ctxDoneWaiting: nat -> bool)
    ensures AllGoOn(0, tries, ctxDoneAfter, ctxDoneWaiting) && LogsBefore(tries, 0, 0) == [] && Backoff(0) == 0
  {
  }

  lemma AllGoOnNext(k: nat, tries: nat -> Try, ctxDoneAfter: nat -> bool, ctxDoneWaiting: nat -> bool)
    requires k > 0 && AllGoOn(k - 1, tries, ctxDoneAfter, ctxDoneWaiting)
    requires GoesOn(k - 1, tries, ctxDoneAfter, ctxDoneWaiting)
    ensures AllGoOn(k, tries, ctxDoneAfter, ctxDoneWaiting)
  {
    hide GoesOn;
  }

  lemma BackoffNext(k: nat)
    requires 0 < k <= MAX_RETRIES
    ensures Backoff(k) == 2 * Backoff(k - 1) + 1 <= 7
  {
  }

  /** `n` attempts are made when the first n - 1 go on and the n-th is the last allowed one or does not. */
  lemma AttemptsAre(n: nat, tries: nat -> Try, ctxDoneAfter: nat -> bool, ctxDoneWaiting: nat -> bool)
    requires 0 < n <= MAX_RETRIES + 1 && AllGoOn(n - 1, tries, ctxDoneAfter, ctxDoneWaiting)
    requires n == MAX_RETRIES + 1 || !GoesOn(n - 1, tries, ctxDoneAfter, ctxDoneWaiting)
    ensures forall k: nat :: k < n <==> k <= MAX_RETRIES && AllGoOn(k, tries, ctxDoneAfter, ctxDoneWaiting)
    ensures Backoff(n - 1) == [0, 1, 3, 7][n - 1]
  {
    hide GoesOn;
    BackoffNext(3);
    assert Backoff(1) == 1 && Backoff(2) == 3;
  }

  /** When all attempts fail without an API error and the context holds, four are made: the first and three more. */
  lemma TransportRetriedThreeTimes(tries: nat -> Try)
    requires forall j :: tries(j).result == Failure(Transport)
    ensures var never := (j: nat) => false;
            && AllGoOn(MAX_RETRIES, tries, never, never)
            && RetryFrom(0, Transport, tries, never, never) == (Failure(Last(Transport)), LogsBefore(tries, 0, 4))
  {
    TransportRetriedFrom(0, tries);
  }

  lemma {:induction false} TransportRetriedFrom(k: nat, tries: nat -> Try)
    requires forall j :: tries(j).result == Failure(Transport)
    requires k <= MAX_RETRIES + 1
    ensures var never := (j: nat) => false;
            RetryFrom(k, Transport, tries, never, never) == (Failure(Last(Transport)), LogsBefore(tries, k, 4))
    decreases MAX_RETRIES + 1 - k
  {
    if k <= MAX_RETRIES {
      TransportRetriedFrom(k + 1, tries);
    }
  }

  /**
   How a call ends, by its last attempt, the m-th: with its response; with the context's error when the context was
   found done after it or while waiting for the next; with its own error otherwise, retryable or not.
   */
  lemma {:induction false} RetryEndsWith(
    k: nat, last: TryError, m: nat, tries: nat -> Try, ctxDoneAfter: nat -> bool, ctxDoneWaiting: nat -> bool)
    requires k <= m <= MAX_RETRIES && (k == 0 || !ctxDoneWaiting(k))
    requires forall j: nat :: k <= j < m ==> GoesOn(j, tries, ctxDoneAfter, ctxDoneWaiting)
    requires m == MAX_RETRIES || !GoesOn(m, tries, ctxDoneAfter, ctxDoneWaiting)
    ensures RetryFrom(k, last, tries, ctxDoneAfter, ctxDoneWaiting).0
            == match tries(m).result
               case Success(r) => Success(r)
               case Failure(Transport) =>
                 if ctxDoneAfter(m) || m < MAX_RETRIES then Failure(ContextDone) else Failure(Last(Transport))
               case Failure(Status(code)) =>
                 if IsRetryable(code) && m < MAX_RETRIES then Failure(ContextDone) else Failure(Last(Status(code)))
    decreases m - k
  {
    hide IsRetryable;
    if k < m {
      assert GoesOn(k, tries, ctxDoneAfter, ctxDoneWaiting);
      RetryEndsWith(k + 1, tries(k).result.error, m, tries, ctxDoneAfter, ctxDoneWaiting);
    }
  }

  /** Of the HTTP errors exactly 429, 500 and 503 are retried: when every attempt fails with it, three times. */
  lemma StatusRetriedIff(tries: nat -> Try, code: int)
    requires forall j :: tries(j).result == Failure(Status(code))
    ensures var never := (j: nat) => false;
            RetryFrom(0, Transport, tries, never, never)
            == (Failure(Last(Status(code))), if code in {429, 500, 503} then LogsBefore(tries, 0, 4) else tries(0).log)
  {
    StatusRetriedFrom(0, Transport, tries, code);
    assert LogsBefore(tries, 1, 1) == [] && LogsBefore(tries, 0, 1) == tries(0).log + [] == tries(0).log;
  }

  lemma {:induction false} StatusRetriedFrom(k: nat, last: TryError, tries: nat -> Try, code: int)
    requires forall j :: tries(j).result == Failure(Status(code))
    requires k <= MAX_RETRIES + 1 && (k == MAX_RETRIES + 1 ==> last == Status(code))
    ensures var never := (j: nat) => false;
            RetryFrom(k, last, tries, never, never)
            == (Failure(Last(Status(code))),
                if code in {429, 500, 503} || k == MAX_RETRIES + 1 then LogsBefore(tries, k, 4) else tries(k).log)
    decreases MAX_RETRIES + 1 - k
  {
    if k <= MAX_RETRIES {
      StatusRetriedFrom(k + 1, Status(code), tries, code);
    }
  }

  lemma {:induction false} LogsBeforeNext(tries: nat -> Try, j: nat, m: nat)
    requires j <= m
    ensures LogsBefore(tries, j, m + 1) == LogsBefore(tries, j, m) + tries(m).log
    decreases m - j
  {
    if j < m {
      LogsBeforeNext(tries, j + 1, m);
    }
  }

  /** The deltas of attempts j to m - 1, joined. */
  function LogsBefore(tries: nat -> Try, j: nat, m: nat): seq<string>
    decreases m - j
  {
    if j >= m then [] else tries(j).log + LogsBefore(tries, j + 1, m)
  }

  lemma {:induction false} RetrySucceedsAt(
    k: nat, last: TryError, tries: nat -> Try, ctxDoneAfter: nat -> bool, ctxDoneWaiting: nat -> bool)
    returns (m: nat)
    requires RetryFrom(k, last, tries, ctxDoneAfter, ctxDoneWaiting).0.Success?
    ensures k <= m <= MAX_RETRIES && tries(m).result.Success? && forall j :: k <= j < m ==> tries(j).result.Failure?
    ensures RetryFrom(k, last, tries, ctxDoneAfter, ctxDoneWaiting)
            == (Success(tries(m).result.value), LogsBefore(tries, k, m) + tries(m).log)
    decreases MAX_RETRIES + 1 - k
  {
    if tries(k).result.Success? {
      m := k;
      assert [] + tries(k).log == tries(k).log;
    } else {
      m := RetrySucceedsAt(k + 1, tries(k).result.error, tries, ctxDoneAfter, ctxDoneWaiting);
      assert tries(k).log + (LogsBefore(tries, k + 1, m) + tries(m).log)
             == tries(k).log + LogsBefore(tries, k + 1, m) + tries(m).log;
    }
  }

  lemma {:induction false} LogsBeforeEmpty(tries: nat -> Try, j: nat, m: nat)
    ensures LogsBefore(tries, j, m) == [] <==> forall i :: j <= i < m ==> tries(i).log == []
    decreases m - j
  {
    if j < m {
      LogsBeforeEmpty(tries, j + 1, m);
      assert LogsBefore(tries, j, m) == [] <==> tries(j).log == [] && LogsBefore(tries, j + 1, m) == [];
    }
  }

  /**
   When a retried call succeeds at attempt m, the caller has seen the deltas of every attempt: they are those of the
   returned response alone exactly when no earlier attempt had passed on any.
   */
  lemma RetriedDeltas(tries: nat -> Try, ctxDoneAfter: nat -> bool, ctxDoneWaiting: nat -> bool) returns (m: nat)
    requires RetryFrom(0, Transport, tries, ctxDoneAfter, ctxDoneWaiting).0.Success?
    ensures var (r, log) := RetryFrom(0, Transport, tries, ctxDoneAfter, ctxDoneWaiting);
            && m <= MAX_RETRIES && tries(m).result == Success(r.value)
            && log == LogsBefore(tries, 0, m) + tries(m).log
            && (log == tries(m).log <==> forall j :: 0 <= j < m ==> tries(j).log == [])
  {
    m := RetrySucceedsAt(0, Transport, tries, ctxDoneAfter, ctxDoneWaiting);
    LogsBeforeEmpty(tries, 0, m);
    var earlier := LogsBefore(tries, 0, m);
    if earlier == [] {
      assert earlier + tries(m).log == tries(m).log;
    } else {
      assert |earlier + tries(m).log| > |tries(m).log|;
    }
  }
}
