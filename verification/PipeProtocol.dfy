/** The chunk protocol over the frames: the service's pipe handler and the client's reader goroutine. */
module PipeProtocol {
  import opened Wrappers
  import opened Pipe
  import Agent

  datatype Chunk = Chunk(text: string, tool: string, done: bool, error: string)

  datatype Request = Request(session: string, prompt: string)

  /** The JSON codec of chunks, kept abstract. */
  datatype Codec = Codec(encode: Chunk -> seq<Byte>, decode: seq<Byte> -> Option<Chunk>)

  ghost predicate RoundTrips(codec: Codec) {
    forall c :: codec.decode(codec.encode(c)) == Some(c)
  }

  /** The texts of error values. */
  datatype Texts = Texts(frame: FrameError -> string, parse: string, run: Agent.RunError -> string)

  /** What the handler depends on: the request parser, which sessions can be resolved, and the agent's world. */
  datatype Service = Service(
    parse: seq<Byte> -> Option<Request>, hasSession: string -> bool, world: Agent.World, maxTurns: nat, window: nat,
    texts: Texts)

  function DoneChunk(error: string): Chunk {
    Chunk("", "", true, error)
  }

  /** Exactly one Done chunk, and it is the last. */
  ghost predicate OneDoneLast(cs: seq<Chunk>) {
    cs != [] && cs[|cs| - 1].done && forall i :: 0 <= i < |cs| - 1 ==> !cs[i].done
  }

  // ---------------------------------------------------------------------------
  // The server
  // ---------------------------------------------------------------------------

  /** The callback that turns agent output into a chunk. */
  function ChunkOf(output: string): Chunk {
    if Agent.TOOL_MARK <= output then Chunk("", output[|Agent.TOOL_MARK|..], false, "")
    else Chunk(output, "", false, "")
  }

  function ChunksOf(outputs: seq<string>): (cs: seq<Chunk>)
    ensures |cs| == |outputs|
    ensures forall i :: 0 <= i < |cs| ==> cs[i] == ChunkOf(outputs[i]) && !cs[i].done
  {
    seq(|outputs|, i requires 0 <= i < |outputs| => ChunkOf(outputs[i]))
  }

  /** Everything the handler sends for the outcome of reading the request frame. */
  function Emission(r: Result<seq<Byte>, FrameError>, service: Service): seq<Chunk>
    requires service.window > 0
  {
    if r.Failure? then [DoneChunk("read request: " + service.texts.frame(r.error))] else
    match service.parse(r.value)
    case None => [DoneChunk("parse request: " + service.texts.parse)]
    case Some(req) =>
      if !service.hasSession(req.session) then [DoneChunk("no session available")] else
      var o := Agent.RunOn([], None, req.prompt, service.world, service.maxTurns, service.window);
      ChunksOf(o.outputs) + [DoneChunk(if o.result.Failure? then service.texts.run(o.result.error) else "")]
  }

  function EncodeAll(cs: seq<Chunk>, codec: Codec): (ps: seq<seq<Byte>>)
    ensures |ps| == |cs|
    ensures forall i :: 0 <= i < |cs| ==> ps[i] == codec.encode(cs[i])
  {
    seq(|cs|, i requires 0 <= i < |cs| => codec.encode(cs[i]))
  }

  /** The bytes of a list of chunks on the pipe. */
  function Wire(cs: seq<Chunk>, codec: Codec): seq<Byte> {
    Frames(EncodeAll(cs, codec))
  }

  lemma {:induction false} FramesAppend(ps: seq<seq<Byte>>, p: seq<Byte>)
    ensures Frames(ps + [p]) == Frames(ps) + Frame(p)
    decreases |ps|
  {
    hide Frame;
    if ps == [] {
      assert [p][1..] == [] && ps + [p] == [p];
      assert Frames([p]) == Frame(p) + [] == Frame(p);
    } else {
      assert (ps + [p])[1..] == ps[1..] + [p];
      FramesAppend(ps[1..], p);
      assert Frame(ps[0]) + (Frames(ps[1..]) + Frame(p)) == Frame(ps[0]) + Frames(ps[1..]) + Frame(p);
    }
  }

  lemma WireAppend(cs: seq<Chunk>, c: Chunk, codec: Codec)
    ensures Wire(cs + [c], codec) == Wire(cs, codec) + Frame(codec.encode(c))
  {
    assert EncodeAll(cs + [c], codec) == EncodeAll(cs, codec) + [codec.encode(c)];
    FramesAppend(EncodeAll(cs, codec), codec.encode(c));
  }

  /** Send one chunk; like the handler, the caller ignores a write error. */
  method Send(h: Handle, c: Chunk, codec: Codec, ghost sent: seq<Chunk>, ghost start: seq<Byte>)
    requires WritesReliably(h.plan) ==> h.outbound == start + Wire(sent, codec)
    modifies h`outbound, h`calls
    ensures WritesReliably(h.plan) ==> h.outbound == start + Wire(sent + [c], codec)
  {
    hide Wire, Frame;
    ghost var before := h.outbound;
    var _ := WriteFrame(h, codec.encode(c));
    WireAppend(sent, c, codec);
    assert start + Wire(sent, codec) + Frame(codec.encode(c)) == start + (Wire(sent, codec) + Frame(codec.encode(c)));
  }

  /**
   The function that `makePipeHandler` returns. The agent starts on an empty history and writes as it goes. `request` is
   what reading the request frame gave: whenever it succeeds, and always when no read fails, it is the front frame.
   */
  method HandleRequest(h: Handle, codec: Codec, service: Service) returns (ghost request: Result<seq<Byte>, FrameError>)
    requires service.window > 0
    modifies h
    ensures WritesReliably(h.plan) ==> h.outbound == old(h.outbound) + Wire(Emission(request, service), codec)
    ensures request.Success? || ReadsReliably(h.plan) ==> request == Decode(old(h.inbound)).0
  {
    hide Wire, Decode, Agent.RunOn;
    ghost var start := h.outbound;
    assert start + Wire([], codec) == start by { EmptyWire(start, codec); }
    var data := ReadFrame(h);
    request := data;
    if data.Failure? {
      var c := DoneChunk("read request: " + service.texts.frame(data.error));
      assert [] + [c] == [c];
      Send(h, c, codec, [], start);
      return;
    }
    var req := service.parse(data.value);
    if req.None? {
      var c := DoneChunk("parse request: " + service.texts.parse);
      assert [] + [c] == [c];
      Send(h, c, codec, [], start);
      return;
    }
    if !service.hasSession(req.value.session) {
      var c := DoneChunk("no session available");
      assert [] + [c] == [c];
      Send(h, c, codec, [], start);
      return;
    }
    var agent := new Agent.ConversationAgent(service.maxTurns, service.window);
    var r, _, outputs := agent.Run(req.value.prompt, service.world);
    for i := 0 to |outputs|
      invariant WritesReliably(h.plan) ==> h.outbound == start + Wire(ChunksOf(outputs[..i]), codec)
    {
      assert ChunksOf(outputs[..i + 1]) == ChunksOf(outputs[..i]) + [ChunkOf(outputs[i])];
      Send(h, ChunkOf(outputs[i]), codec, ChunksOf(outputs[..i]), start);
    }
    assert outputs[..|outputs|] == outputs;
    var errStr := if r.Failure? then service.texts.run(r.error) else "";
    Send(h, DoneChunk(errStr), codec, ChunksOf(outputs), start);
  }

  lemma EmptyWire(start: seq<Byte>, codec: Codec)
    ensures start + Wire([], codec) == start
  {
    assert EncodeAll([], codec) == [];
  }

  /**
   What the handler sends, path by path: one Done chunk with the error when there is no run; otherwise one chunk for
   each piece of output, a tool's announcement as its name and a text as it is, and a Done chunk with the run's error,
   if any.
   */
  lemma EmissionMeaning(r: Result<seq<Byte>, FrameError>, service: Service)
    requires service.window > 0
    ensures var cs := Emission(r, service);
            match r
            case Failure(e) => cs == [Chunk("", "", true, "read request: " + service.texts.frame(e))]
            case Success(data) =>
              match service.parse(data)
              case None => cs == [Chunk("", "", true, "parse request: " + service.texts.parse)]
              case Some(req) =>
                if !service.hasSession(req.session) then cs == [Chunk("", "", true, "no session available")]
                else
                  var o := Agent.RunOn([], None, req.prompt, service.world, service.maxTurns, service.window);
                  && |cs| == |o.outputs| + 1
                  && cs[|o.outputs|]
                     == Chunk("", "", true, if o.result.Failure? then service.texts.run(o.result.error) else "")
                  && forall k :: 0 <= k < |o.outputs| ==>
                       cs[k] == if "\U{0000}TOOL\U{0000}" <= o.outputs[k] then Chunk("", o.outputs[k][6..], false, "")
                                else Chunk(o.outputs[k], "", false, "")
  {
    hide Agent.RunOn;
  }

  lemma EmissionHasOneDone(r: Result<seq<Byte>, FrameError>, service: Service)
    requires service.window > 0
    ensures OneDoneLast(Emission(r, service))
  {
    hide Agent.RunOn;
  }

  // ---------------------------------------------------------------------------
  // The client
  // ---------------------------------------------------------------------------

  /** The chunks the client's channel carries when the pipe holds the bytes `s` and then ends. */
  function Received(s: seq<Byte>, codec: Codec, texts: Texts): seq<Chunk>
    decreases |s|
  {
    var (r, rest) := Decode(s);
    match r
    case Failure(e) => [DoneChunk(texts.frame(e))]
    case Success(data) =>
      match codec.decode(data)
      case None => [DoneChunk("parse chunk: " + texts.parse)]
      case Some(c) =>
        assert |rest| < |s|;
        if c.done then [c] else [c] + Received(rest, codec, texts)
  }

  /** The reader goroutine of `Send`. */
  method ReceiveChunks(h: Handle, codec: Codec, texts: Texts) returns (ch: seq<Chunk>)
    modifies h`inbound, h`calls
    ensures OneDoneLast(ch)
    ensures ReadsReliably(h.plan) ==> ch == Received(old(h.inbound), codec, texts)
  {
    hide Decode;
    ch := [];
    ghost var all := Received(h.inbound, codec, texts);
    assert [] + all == all;
    while true
      invariant forall i :: 0 <= i < |ch| ==> !ch[i].done
      invariant ReadsReliably(h.plan) ==> ch + Received(h.inbound, codec, texts) == all
      decreases |h.inbound|
    {
      var data := ReadFrame(h);
      if data.Failure? {
        return ch + [DoneChunk(texts.frame(data.error))];
      }
      var c := codec.decode(data.value);
      if c.None? {
        return ch + [DoneChunk("parse chunk: " + texts.parse)];
      }
      if c.value.done {
        return ch + [c.value];
      }
      assert ch + ([c.value] + Received(h.inbound, codec, texts)) == ch + [c.value] + Received(h.inbound, codec, texts);
      ch := ch + [c.value];
    }
  }

  /** On every path, failures included, the channel carries exactly one Done chunk, which is last. */
  lemma {:induction false} ReceivedHasOneDone(s: seq<Byte>, codec: Codec, texts: Texts)
    ensures OneDoneLast(Received(s, codec, texts))
    decreases |s|
  {
    var (r, rest) := Decode(s);
    if r.Success? && codec.decode(r.value).Some? && !codec.decode(r.value).value.done {
      ReceivedHasOneDone(rest, codec, texts);
    }
  }

  /** A whole frame whose payload is no chunk ends the delivery with one Done chunk. */
  lemma UnparsableStops(payload: seq<Byte>, rest: seq<Byte>, codec: Codec, texts: Texts)
    requires Fits(payload) && codec.decode(payload) == None
    ensures Received(Frame(payload) + rest, codec, texts) == [Chunk("", "", true, "parse chunk: " + texts.parse)]
  {
    hide Frame, Decode;
    DecodeOfFrame(payload, rest);
  }

  // ---------------------------------------------------------------------------
  // End to end
  // ---------------------------------------------------------------------------

  predicate ChunkFits(c: Chunk, codec: Codec) {
    Fits(codec.encode(c))
  }

  lemma WireHead(cs: seq<Chunk>, codec: Codec)
    requires cs != []
    ensures Wire(cs, codec) == Frame(codec.encode(cs[0])) + Wire(cs[1..], codec)
  {
    hide Frame;
    assert EncodeAll(cs, codec)[1..] == EncodeAll(cs[1..], codec);
  }

  lemma TailHasOneDone(cs: seq<Chunk>)
    requires OneDoneLast(cs) && |cs| > 1
    ensures OneDoneLast(cs[1..]) && !cs[0].done
  {
  }

  /** When every frame fits, the channel delivers exactly the emitted chunks, in order. */
  lemma {:induction false} DeliversAll(cs: seq<Chunk>, codec: Codec, texts: Texts)
    requires RoundTrips(codec) && OneDoneLast(cs)
    requires forall i :: 0 <= i < |cs| ==> ChunkFits(cs[i], codec)
    ensures Received(Wire(cs, codec), codec, texts) == cs
    decreases |cs|
  {
    hide Frame, Decode, Wire;
    WireHead(cs, codec);
    assert ChunkFits(cs[0], codec);
    DecodeOfFrame(codec.encode(cs[0]), Wire(cs[1..], codec));
    if |cs| == 1 {
      assert cs == [cs[0]];
    } else {
      TailHasOneDone(cs);
      DeliversAll(cs[1..], codec, texts);
      assert cs == [cs[0]] + cs[1..];
    }
  }

  /** A frame over the limit ends the delivery: the client gets the chunks before it and a Done chunk with an error. */
  lemma {:induction false} UnfitStops(cs: seq<Chunk>, k: nat, codec: Codec, texts: Texts)
    requires RoundTrips(codec) && OneDoneLast(cs) && k < |cs|
    requires forall i :: 0 <= i < k ==> ChunkFits(cs[i], codec)
    requires !ChunkFits(cs[k], codec) && |codec.encode(cs[k])| < TWO_32
    ensures Received(Wire(cs, codec), codec, texts)
            == cs[..k] + [Chunk("", "", true, texts.frame(BadLength(|codec.encode(cs[k])|)))]
    decreases |cs|
  {
    hide Frame, Decode, Wire;
    WireHead(cs, codec);
    if k == 0 {
      BadFrameIsRefused(codec.encode(cs[0]), Wire(cs[1..], codec));
      assert cs[..0] == [];
    } else {
      assert ChunkFits(cs[0], codec);
      DecodeOfFrame(codec.encode(cs[0]), Wire(cs[1..], codec));
      TailHasOneDone(cs);
      UnfitStops(cs[1..], k - 1, codec, texts);
      assert cs[..k] == [cs[0]] + cs[1..][..k - 1];
    }
  }

  /**
   As long as the client's own error chunks would fit, the channel delivers exactly the emitted chunks if and only if
   every one of them fits.
   */
  lemma DeliversIffAllFit(cs: seq<Chunk>, codec: Codec, texts: Texts)
    requires RoundTrips(codec) && OneDoneLast(cs)
    requires forall i :: 0 <= i < |cs| ==> |codec.encode(cs[i])| < TWO_32
    requires forall e :: ChunkFits(DoneChunk(texts.frame(e)), codec)
    ensures Received(Wire(cs, codec), codec, texts) == cs
            <==> forall i :: 0 <= i < |cs| ==> ChunkFits(cs[i], codec)
  {
    hide Received, Wire, RoundTrips, OneDoneLast;
    if forall i :: 0 <= i < |cs| ==> ChunkFits(cs[i], codec) {
      DeliversAll(cs, codec, texts);
    } else {
      var k := FirstUnfit(cs, codec);
      UnfitStops(cs, k, codec, texts);
      var cut := cs[..k] + [DoneChunk(texts.frame(BadLength(|codec.encode(cs[k])|)))];
      assert ChunkFits(cut[k], codec) && !ChunkFits(cs[k], codec);
    }
  }

  lemma {:induction false} FirstUnfit(cs: seq<Chunk>, codec: Codec) returns (k: nat)
    requires exists i :: 0 <= i < |cs| && !ChunkFits(cs[i], codec)
    ensures k < |cs| && !ChunkFits(cs[k], codec) && forall i :: 0 <= i < k ==> ChunkFits(cs[i], codec)
    decreases |cs|
  {
    hide ChunkFits;
    var last := |cs| - 1;
    if exists i :: 0 <= i < last && !ChunkFits(cs[i], codec) {
      var i :| 0 <= i < last && !ChunkFits(cs[i], codec);
      assert cs[..last][i] == cs[i];
      k := FirstUnfit(cs[..last], codec);
    } else {
      k := last;
    }
  }

  lemma WireStart(cs: seq<Chunk>, k: nat, codec: Codec)
    requires 0 < k <= |cs|
    ensures Wire(cs[..k], codec) == Frame(codec.encode(cs[0])) + Wire(cs[1..][..k - 1], codec)
  {
    hide Wire, Frame;
    WireHead(cs[..k], codec);
    assert cs[..k][1..] == cs[1..][..k - 1];
  }

  lemma WireOfNothing(codec: Codec)
    ensures Wire([], codec) == []
  {
  }

  /**
   A cut connection delivers the chunks whose frames have come through whole, `k` of them, and then, unless these are
   all, a Done chunk with an error.
   */
  lemma {:induction false} CutDelivers(cs: seq<Chunk>, t: seq<Byte>, codec: Codec, texts: Texts) returns (k: nat)
    requires RoundTrips(codec) && OneDoneLast(cs) && t <= Wire(cs, codec)
    requires forall i :: 0 <= i < |cs| ==> ChunkFits(cs[i], codec)
    ensures k <= |cs| && Wire(cs[..k], codec) <= t
    ensures k < |cs| ==> |t| < |Wire(cs[..k + 1], codec)|
    ensures if k == |cs| then Received(t, codec, texts) == cs
            else exists e: FrameError :: (e.HeaderCut? || e.BodyCut?)
                             && Received(t, codec, texts) == cs[..k] + [Chunk("", "", true, texts.frame(e))]
    decreases |cs|
  {
    hide Frame, Decode, Wire;
    WireHead(cs, codec);
    var f := Frame(codec.encode(cs[0]));
    assert ChunkFits(cs[0], codec);
    WireOfNothing(codec);
    WireStart(cs, 1, codec);
    assert cs[1..][..0] == [] && f + [] == f;
    if |t| < |f| {
      k := 0;
      assert cs[..0] == [];
      assert t <= f by { assert t == Wire(cs, codec)[..|t|] == f[..|t|]; }
      CutFrame(codec.encode(cs[0]), t);
      var e := Decode(t).0.error;
      assert Received(t, codec, texts) == cs[..0] + [DoneChunk(texts.frame(e))];
    } else {
      var rest := t[|f|..];
      assert t == f + rest && rest <= Wire(cs[1..], codec) by {
        assert t == Wire(cs, codec)[..|t|];
        assert Wire(cs[1..], codec) == Wire(cs, codec)[|f|..];
      }
      DecodeOfFrame(codec.encode(cs[0]), rest);
      if |cs| == 1 {
        k := 1;
        assert cs == [cs[0]] && cs[..1] == cs;
      } else {
        TailHasOneDone(cs);
        var k' := CutDelivers(cs[1..], rest, codec, texts);
        k := k' + 1;
        WireStart(cs, k, codec);
        assert cs == [cs[0]] + cs[1..] && cs[..k] == [cs[0]] + cs[1..][..k'];
        if k < |cs| {
          WireStart(cs, k + 1, codec);
          var e: FrameError :| (e.HeaderCut? || e.BodyCut?)
            && Received(rest, codec, texts) == cs[1..][..k'] + [DoneChunk(texts.frame(e))];
          assert [cs[0]] + (cs[1..][..k'] + [DoneChunk(texts.frame(e))]) == cs[..k] + [DoneChunk(texts.frame(e))];
        }
      }
    }
  }

  /** Handler and reader composed: what the client receives is what the handler emitted for the request it was sent. */
  lemma EndToEnd(request: seq<Byte>, service: Service, codec: Codec, texts: Texts)
    requires service.window > 0 && RoundTrips(codec) && Fits(request)
    requires var cs := Emission(Success(request), service); forall i :: 0 <= i < |cs| ==> ChunkFits(cs[i], codec)
    ensures Decode(Frame(request)).0 == Success(request)
    ensures var cs := Emission(Decode(Frame(request)).0, service); Received(Wire(cs, codec), codec, texts) == cs
  {
    hide Wire, Agent.RunOn;
    DecodeOfFrame(request, []);
    assert Frame(request) + [] == Frame(request);
    hide Frame, Decode, Emission;
    var cs := Emission(Success(request), service);
    EmissionHasOneDone(Success(request), service);
    DeliversAll(cs, codec, texts);
  }
}
