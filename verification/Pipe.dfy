/** Length-prefixed frames over a pipe handle with short reads, short writes and failures. */
module Pipe {
  import opened Wrappers

  type Byte = x: int | 0 <= x < 256

  const MAX_FRAME := 0x10_0000
  const TWO_32 := 0x1_0000_0000

  // ---------------------------------------------------------------------------
  // Frames on byte sequences
  // ---------------------------------------------------------------------------

  /** `binary.BigEndian.PutUint32` of a length truncated to 32 bits. */
  function Header(n: nat): (h: seq<Byte>)
    ensures |h| == 4
  {
    var u := n % TWO_32;
    [u / 0x100_0000, u / 0x1_0000 % 0x100, u / 0x100 % 0x100, u % 0x100]
  }

  /** `binary.BigEndian.Uint32`. */
  function Length(h: seq<Byte>): (n: nat)
    requires |h| == 4
    ensures n < TWO_32
  {
    var a: int, b: int, c: int, d: int := h[0], h[1], h[2], h[3];
    ((a * 0x100 + b) * 0x100 + c) * 0x100 + d
  }

  function Frame(payload: seq<Byte>): (f: seq<Byte>)
    ensures |f| == 4 + |payload|
  {
    Header(|payload|) + payload
  }

  datatype FrameError = HeaderCut | BadLength(n: nat) | BodyCut

  /** Reading one frame from the front of `s`: the result and what is left. */
  function Decode(s: seq<Byte>): (Result<seq<Byte>, FrameError>, seq<Byte>) {
    if |s| < 4 then (Failure(HeaderCut), []) else
    var n := Length(s[..4]);
    if n == 0 || n > MAX_FRAME then (Failure(BadLength(n)), s[4..])
    else if |s| < 4 + n then (Failure(BodyCut), [])
    else (Success(s[4..4 + n]), s[4 + n..])
  }

  lemma LengthOfHeader(n: nat)
    ensures Length(Header(n)) == n % TWO_32
  {
    var u := n % TWO_32;
    assert u / 0x100 / 0x100 == u / 0x1_0000 && u / 0x1_0000 / 0x100 == u / 0x100_0000;
    assert u == u / 0x100 * 0x100 + u % 0x100;
    assert u / 0x100 == u / 0x100 / 0x100 * 0x100 + u / 0x100 % 0x100;
    assert u / 0x1_0000 == u / 0x1_0000 / 0x100 * 0x100 + u / 0x1_0000 % 0x100;
  }

  /** The header is the length in 32 bits, most significant byte first. */
  lemma HeaderIsBigEndian(n: nat)
    requires n < TWO_32
    ensures var h := Header(n);
            var a: int, b: int, c: int, d: int := h[0], h[1], h[2], h[3];
            n == a * 0x100_0000 + b * 0x1_0000 + c * 0x100 + d
  {
    LengthOfHeader(n);
    assert n % TWO_32 == n;
    hide Header;
  }

  predicate Fits(payload: seq<Byte>) {
    1 <= |payload| <= MAX_FRAME
  }

  lemma DecodeOfFrame(payload: seq<Byte>, rest: seq<Byte>)
    requires Fits(payload)
    ensures Decode(Frame(payload) + rest) == (Success(payload), rest)
  {
    hide Header, Length;
    LengthOfHeader(|payload|);
    var s := Frame(payload) + rest;
    assert s[..4] == Header(|payload|);
    assert s[4..4 + |payload|] == payload && s[4 + |payload|..] == rest;
  }

  /** A written frame is read back exactly when its payload has 1 to 2^20 bytes. */
  lemma RoundTripIffFits(payload: seq<Byte>, rest: seq<Byte>)
    ensures Decode(Frame(payload) + rest) == (Success(payload), rest) <==> 1 <= |payload| <= 0x10_0000
  {
    hide Header, Length;
    LengthOfHeader(|payload|);
    var s := Frame(payload) + rest;
    assert s[..4] == Header(|payload|);
    if Fits(payload) {
      DecodeOfFrame(payload, rest);
    } else if |payload| < TWO_32 {
      assert |payload| % TWO_32 == |payload|;
    }
  }

  /** A frame with a bad length is refused after its header. */
  lemma BadFrameIsRefused(payload: seq<Byte>, rest: seq<Byte>)
    requires !Fits(payload) && |payload| < TWO_32
    ensures Decode(Frame(payload) + rest).0 == Failure(BadLength(|payload|))
  {
    hide Header, Length;
    LengthOfHeader(|payload|);
    var s := Frame(payload) + rest;
    assert s[..4] == Header(|payload|);
    assert |payload| % TWO_32 == |payload|;
  }

  function Frames(payloads: seq<seq<Byte>>): seq<Byte> {
    if payloads == [] then [] else Frame(payloads[0]) + Frames(payloads[1..])
  }

  /** Reading frames until one fails: the payloads, the failure and what is left. */
  function DecodeAll(s: seq<Byte>): (seq<seq<Byte>>, FrameError, seq<Byte>)
    decreases |s|
  {
    var (r, rest) := Decode(s);
    match r
    case Failure(e) => ([], e, rest)
    case Success(p) =>
      assert |rest| < |s|;
      var (ps, e, left) := DecodeAll(rest);
      ([p] + ps, e, left)
  }

  ghost predicate AllFit(payloads: seq<seq<Byte>>) {
    forall i :: 0 <= i < |payloads| ==> Fits(payloads[i])
  }

  /** Repeated reading gives back exactly the written payloads, in order, and consumes every byte. */
  lemma {:induction false} FramesRoundTrip(payloads: seq<seq<Byte>>)
    requires AllFit(payloads)
    ensures DecodeAll(Frames(payloads)) == (payloads, HeaderCut, [])
    decreases |payloads|
  {
    hide Frame, Decode;
    if payloads == [] {
      assert Decode([]) == (Failure(HeaderCut), []) by { DecodeOfNothing(); }
    } else {
      DecodeOfFrame(payloads[0], Frames(payloads[1..]));
      FramesRoundTrip(payloads[1..]);
      assert [payloads[0]] + payloads[1..] == payloads;
    }
  }

  lemma DecodeOfNothing()
    ensures Decode([]) == (Failure(HeaderCut), [])
  {
  }

  /** A proper prefix of one frame is an error that consumes everything. */
  lemma CutFrame(payload: seq<Byte>, t: seq<Byte>)
    requires Fits(payload) && t <= Frame(payload) && |t| < |Frame(payload)|
    ensures Decode(t) == (Failure(if |t| < 4 then HeaderCut else BodyCut), [])
  {
    hide Header, Length;
    LengthOfHeader(|payload|);
    if |t| >= 4 {
      assert t[..4] == Frame(payload)[..4] == Header(|payload|);
    }
  }

  /**
   A truncated stream gives the payloads of its whole frames and then an error: never a partial or shifted frame.
   `k` is the number of whole frames that the truncated stream `t` still holds.
   */
  lemma {:induction false} TruncatedStream(payloads: seq<seq<Byte>>, t: seq<Byte>) returns (k: nat)
    requires AllFit(payloads) && t <= Frames(payloads)
    ensures k <= |payloads| && Frames(payloads[..k]) <= t
    ensures k < |payloads| ==> |t| < |Frames(payloads[..k + 1])|
    ensures var (ps, e, left) := DecodeAll(t);
            ps == payloads[..k] && left == [] && (e == HeaderCut || e == BodyCut)
    decreases |payloads|
  {
    hide Frame, Decode;
    k := 0;
    if payloads == [] {
      DecodeOfNothing();
      assert t == [] && payloads[..0] == [];
    } else {
      var f := Frame(payloads[0]);
      assert payloads[..1][1..] == [] && payloads[..1][0] == payloads[0];
      assert Frames(payloads[..1]) == f + [] == f;
      if |t| < |f| {
        assert t <= f by { assert t == Frames(payloads)[..|t|] == f[..|t|]; }
        CutFrame(payloads[0], t);
        assert payloads[..0] == [];
      } else {
        var rest := t[|f|..];
        assert t == f + rest && rest <= Frames(payloads[1..]) by {
          assert t == Frames(payloads)[..|t|];
          assert Frames(payloads[1..]) == Frames(payloads)[|f|..];
        }
        DecodeOfFrame(payloads[0], rest);
        var k' := TruncatedStream(payloads[1..], rest);
        k := k' + 1;
        assert payloads[..k] == [payloads[0]] + payloads[1..][..k'];
        assert payloads[..k][1..] == payloads[1..][..k'];
        assert Frames(payloads[..k]) == f + Frames(payloads[1..][..k']);
        if k < |payloads| {
          assert payloads[..k + 1][1..] == payloads[1..][..k' + 1];
        }
      }
    }
  }

  // ---------------------------------------------------------------------------
  // The pipe handle
  // ---------------------------------------------------------------------------

  /** How the system answers the k-th call: how many bytes it would move, and whether it fails. */
  datatype Plan = Plan(readSize: nat -> nat, readFails: nat -> bool, writeSize: nat -> nat, writeFails: nat -> bool)

  ghost predicate ReadsReliably(plan: Plan) {
    forall k: nat :: !plan.readFails(k)
  }

  ghost predicate WritesReliably(plan: Plan) {
    forall k: nat :: !plan.writeFails(k)
  }

  function Clamp(n: nat, limit: nat): (m: nat)
    ensures m <= limit && (limit > 0 ==> m > 0)
  {
    if n == 0 then (if limit > 0 then 1 else 0) else if n <= limit then n else limit
  }

  /** One end of a pipe: the bytes still to be read, the bytes written, and the number of calls so far. */
  class Handle {
    var inbound: seq<Byte>
    var outbound: seq<Byte>
    var calls: nat
    const plan: Plan

    constructor (inbound: seq<Byte>, plan: Plan)
      ensures this.inbound == inbound && outbound == [] && this.plan == plan
    {
      this.inbound, outbound, calls := inbound, [], 0;
      this.plan := plan;
    }

    /** `windows.ReadFile` into buf[from..]: moves at least one byte while there are any, and none at the end. */
    method ReadFile(buf: array<Byte>, from: nat) returns (n: nat, failed: bool)
      requires from <= buf.Length
      modifies this`inbound, this`calls, buf
      ensures failed ==> inbound == old(inbound) && !ReadsReliably(plan)
      ensures !failed ==>
                && n <= buf.Length - from && n <= |old(inbound)|
                && (n == 0 ==> from == buf.Length || old(inbound) == [])
                && inbound == old(inbound)[n..]
                && buf[from..from + n] == old(inbound)[..n]
      ensures buf[..from] == old(buf[..from])
    {
      var call := calls;
      calls := calls + 1;
      failed := plan.readFails(call);
      n := 0;
      if failed {
        return;
      }
      var room := buf.Length - from;
      n := Clamp(plan.readSize(call), if room <= |inbound| then room else |inbound|);
      forall i | 0 <= i < n {
        buf[from + i] := inbound[i];
      }
      inbound := inbound[n..];
    }

    /** `windows.WriteFile` of a nonempty buffer: moves at least one byte. */
    method WriteFile(data: seq<Byte>) returns (n: nat, failed: bool)
      requires data != []
      modifies this`outbound, this`calls
      ensures failed ==> outbound == old(outbound) && !WritesReliably(plan)
      ensures !failed ==> 0 < n <= |data| && outbound == old(outbound) + data[..n]
    {
      var call := calls;
      calls := calls + 1;
      failed := plan.writeFails(call);
      n := 0;
      if failed {
        return;
      }
      n := Clamp(plan.writeSize(call), |data|);
      outbound := outbound + data[..n];
    }
  }

  /** `readFull`: fills the buffer whatever the sizes of the reads, or fails. */
  method ReadFull(h: Handle, buf: array<Byte>) returns (ok: bool)
    modifies h`inbound, h`calls, buf
    ensures ok ==> buf.Length <= |old(h.inbound)|
                   && buf[..] == old(h.inbound)[..buf.Length] && h.inbound == old(h.inbound)[buf.Length..]
    ensures ReadsReliably(h.plan) ==> (ok <==> buf.Length <= |old(h.inbound)|) && (!ok ==> h.inbound == [])
    ensures |h.inbound| <= |old(h.inbound)|
  {
    var total := 0;
    while total < buf.Length
      invariant 0 <= total <= buf.Length && total <= |old(h.inbound)|
      invariant h.inbound == old(h.inbound)[total..]
      invariant buf[..total] == old(h.inbound)[..total]
    {
      ghost var before := buf[..total];
      var n, failed := h.ReadFile(buf, total);
      if failed {
        return false;
      }
      if n == 0 {
        return false;
      }
      assert buf[..total + n] == before + old(h.inbound)[total..][..n];
      total := total + n;
    }
    assert buf[..] == buf[..buf.Length];
    return true;
  }

  /** `writeAll`: writes everything whatever the sizes of the writes, or fails after a prefix. */
  method WriteAll(h: Handle, data: seq<Byte>) returns (ok: bool)
    modifies h`outbound, h`calls
    ensures ok ==> h.outbound == old(h.outbound) + data
    ensures old(h.outbound) <= h.outbound <= old(h.outbound) + data
    ensures WritesReliably(h.plan) ==> ok
  {
    var written := 0;
    assert data[..0] == [];
    while written < |data|
      invariant 0 <= written <= |data|
      invariant h.outbound == old(h.outbound) + data[..written]
    {
      var n, failed := h.WriteFile(data[written..]);
      if failed {
        return false;
      }
      assert data[..written] + data[written..][..n] == data[..written + n];
      written := written + n;
    }
    assert data[..written] == data;
    return true;
  }

  /** `WriteFrame` of marshalled data. */
  method WriteFrame(h: Handle, data: seq<Byte>) returns (ok: bool)
    modifies h`outbound, h`calls
    ensures ok ==> h.outbound == old(h.outbound) + Frame(data)
    ensures old(h.outbound) <= h.outbound <= old(h.outbound) + Frame(data)
    ensures WritesReliably(h.plan) ==> ok
  {
    var hdr := Header(|data|);
    assert old(h.outbound) + (hdr + data) == old(h.outbound) + hdr + data;
    ok := WriteAll(h, hdr);
    if !ok {
      return;
    }
    ok := WriteAll(h, data);
  }

  /** `ReadFrame`: when it succeeds it has read exactly the front frame, whatever the schedule of reads. */
  method ReadFrame(h: Handle) returns (r: Result<seq<Byte>, FrameError>)
    modifies h`inbound, h`calls
    ensures r.Success? ==> (r, h.inbound) == Decode(old(h.inbound))
    ensures ReadsReliably(h.plan) ==> (r, h.inbound) == Decode(old(h.inbound))
    ensures |h.inbound| <= |old(h.inbound)| && (r.Success? ==> |h.inbound| < |old(h.inbound)|)
  {
    hide Length;
    ghost var s := h.inbound;
    var hdr := new Byte[4];
    var ok := ReadFull(h, hdr);
    if !ok {
      return Failure(HeaderCut);
    }
    var n := Length(hdr[..]);
    if n == 0 || n > MAX_FRAME {
      return Failure(BadLength(n));
    }
    var buf := new Byte[n];
    ok := ReadFull(h, buf);
    if !ok {
      return Failure(BodyCut);
    }
    assert s[4..][..n] == s[4..4 + n] && s[4..][n..] == s[4 + n..];
    return Success(buf[..]);
  }
}
