/** The client's side of one request, and both sides together. */
module ClientRelay {
  import opened Basics
  import opened Frames
  import opened Relay
  import Trojan

  const MAX_FIRST_PACKET := 8192
  /** `CloseReason::ClientClose as u8`. */
  const CLIENT_CLOSE: byte := 0

  /** Why the client's relay gave up. */
  datatype GiveUp = BadHeader | SessionWrite | SessionRead | InboundRead | InboundWrite | UnexpectedFrame

  datatype ClientOutcome = Completed(tx: nat, rx: nat) | GaveUp(cause: GiveUp) | Panicked | Ongoing

  /** The frames sent, how much of the inbound connection was read, whether it ended, the server
      frames consumed, the bytes written back to the inbound connection, and how many reads and writes
      and reads of the inbound connection that took. */
  datatype ClientRun = ClientRun(outcome: ClientOutcome, sent: seq<Frame>, taken: nat, closed: bool,
                                 consumed: nat, toInbound: seq<byte>, ops: nat, inboundReads: nat)

  /** The bytes after the Trojan header in the buffer the request came in. */
  function PayloadAfterHeader(outbuf: Option<seq<byte>>): seq<byte> {
    if outbuf.None? then []
    else
      var len := Trojan.HeaderLen(outbuf.value);
      if len.Err? then [] else outbuf.value[len.value..]
  }

  /** It gives up only on a header it cannot read, a frame that has no place there, or a failed read or
      write. */
  predicate ClientJustified(cause: GiveUp, outbuf: Option<seq<byte>>, frames: seq<Frame>, fails: bool,
                            fault: nat -> bool, consumed: nat, ops: nat)
    requires consumed <= |frames|
  {
    match cause
    case BadHeader => outbuf.Some? && Trojan.HeaderLen(outbuf.value).Err?
    case UnexpectedFrame =>
      consumed > 0 && !Expected(frames[consumed - 1]) && IsBody(frames[..consumed - 1]) && NoFaults(fault, ops)
    case SessionRead => fails && consumed == |frames| && IsBody(frames) && NoFaults(fault, ops)
    case _ => ops > 0 && fault(ops - 1) && NoFaults(fault, ops - 1)
  }

  /**
   However a relay ended, it sent only a first part of the payload and inbound bytes, wrote back
   only a first part of the Data consumed, and answered Pings in order. It panics exactly on a payload
   too long for a frame, gives up only for cause, and is still going only when `steps` turns were taken
   or there is nothing to do but wait for the server.
   A relay that returned Ok sent exactly the payload it was given and then the inbound bytes it
   read, ended its side only at the end of the inbound stream, consumed the server's frames exactly
   through the first EndRequest and wrote back exactly the Data before it.
   */
  predicate ClientSpec(outbuf: Option<seq<byte>>, inbound: seq<byte>, frames: seq<Frame>, fails: bool,
                       fault: nat -> bool, steps: nat, r: ClientRun)
  {
    && r.consumed <= |frames| && r.taken <= |inbound|
    && (r.outcome.Panicked? <==> |PayloadAfterHeader(outbuf)| > MAX_FRAME_PAYLOAD)
    && (outbuf.Some? && Trojan.HeaderLen(outbuf.value).Err? ==> r.outcome == GaveUp(BadHeader))
    && DataOf(r.sent) <= PayloadAfterHeader(outbuf) + inbound
    && r.toInbound <= DataOf(frames[..r.consumed])
    && PongTokens(r.sent) <= PingTokens(frames[..r.consumed])
    && r.inboundReads <= r.taken + 1
    && (r.outcome.GaveUp? ==> ClientJustified(r.outcome.cause, outbuf, frames, fails, fault, r.consumed, r.ops))
    && (!r.outcome.GaveUp? ==> NoFaults(fault, r.ops))
    && (r.outcome.Ongoing? ==>
          && IsBody(frames[..r.consumed])
          && (r.consumed + r.inboundReads == steps || (r.closed && r.consumed == |frames| && !fails)))
    && (r.outcome.Completed? ==>
          && (outbuf.Some? ==> Trojan.HeaderLen(outbuf.value).Ok?)
          && RelayOutput(r.sent, MAX_FRAME_PAYLOAD)
          && DataOf(r.sent) == PayloadAfterHeader(outbuf) + inbound[..r.taken]
          && HasEnd(r.sent) == r.closed
          && (r.closed ==> r.taken == |inbound|)
          && IsTail(frames[..r.consumed])
          && r.toInbound == DataOf(frames[..r.consumed])
          && PongTokens(r.sent) == PingTokens(frames[..r.consumed])
          && r.outcome.tx == |DataOf(r.sent)| && r.outcome.rx == |r.toInbound|)
  }

  /** The first packet: what is left of the request's buffer, topped up from the inbound stream. */
  method SendFirst(outbuf: Option<seq<byte>>, inbound: seq<byte>, fault: nat -> bool)
    returns (ok: ClientOutcome, sent: seq<Frame>, taken: nat, tx: nat, ops: nat)
    ensures taken <= |inbound| && (ok.Ongoing? || ok.GaveUp? || ok.Panicked?)
    ensures ok.Panicked? <==> |PayloadAfterHeader(outbuf)| > MAX_FRAME_PAYLOAD
    ensures ok == GaveUp(BadHeader) <==> outbuf.Some? && Trojan.HeaderLen(outbuf.value).Err?
    ensures ok.GaveUp? ==> ok.cause.BadHeader? || (ok.cause.SessionWrite? && ops == 1 && fault(0))
    ensures !ok.GaveUp? ==> NoFaults(fault, ops)
    ensures ok.Ongoing? || sent == []
    ensures ok.Ongoing? ==>
              && (outbuf.Some? ==> Trojan.HeaderLen(outbuf.value).Ok?)
              && RelayOutput(sent, MAX_FRAME_PAYLOAD) && !HasEnd(sent)
              && DataOf(sent) == PayloadAfterHeader(outbuf) + inbound[..taken]
              && PongTokens(sent) == [] && tx == |DataOf(sent)|
  {
    sent, taken, tx, ops := [], 0, 0, 0;
    NothingYet(MAX_FRAME_PAYLOAD);
    if outbuf.None? {
      return Ongoing, sent, taken, tx, ops;
    }
    var header := Trojan.HeaderLen(outbuf.value);
    if header.Err? {
      return GaveUp(BadHeader), sent, taken, tx, ops;
    }
    var first := outbuf.value;
    if |first| < MAX_FIRST_PACKET {
      taken :| 0 <= taken <= |inbound| && taken <= MAX_FIRST_PACKET - |first|;
      first := first + inbound[..taken];
    }
    var data := first[header.value..];
    assert data == PayloadAfterHeader(outbuf) + inbound[..taken];
    if data != [] {
      tx := |data|;
      if |data| > MAX_FRAME_PAYLOAD {
        return Panicked, sent, taken, tx, ops;
      }
      ops := 1;
      if fault(0) {
        return GaveUp(SessionWrite), sent, taken, tx, ops;
      }
      Snoc(sent, Data(data));
      OutputSnoc(sent, MAX_FRAME_PAYLOAD, Data(data));
      sent := sent + [Data(data)];
    }
    return Ongoing, sent, taken, tx, ops;
  }

  /** The frames sent so far carry the payload and the inbound bytes read, and end with them. */
  predicate Sent(payload: seq<byte>, inbound: seq<byte>, sent: seq<Frame>, taken: nat, closed: bool) {
    && taken <= |inbound|
    && RelayOutput(sent, MAX_FRAME_PAYLOAD)
    && DataOf(sent) == payload + inbound[..taken]
    && HasEnd(sent) == closed
    && (closed ==> taken == |inbound|)
  }

  /** The frame for a read of `n` bytes. */
  function NextFrame(inbound: seq<byte>, taken: nat, n: nat): Frame
    requires taken + n <= |inbound|
  {
    if n == 0 then EndRequest(CLIENT_CLOSE) else Data(inbound[taken..taken + n])
  }

  lemma SentRead(payload: seq<byte>, inbound: seq<byte>, sent: seq<Frame>, taken: nat, n: nat)
    requires Sent(payload, inbound, sent, taken, false) && taken + n <= |inbound| && n <= RELAY_BUF
    requires n == 0 ==> taken == |inbound|
    ensures var more := sent + [NextFrame(inbound, taken, n)];
            && Sent(payload, inbound, more, taken + n, n == 0)
            && |DataOf(more)| == |DataOf(sent)| + n
            && PongTokens(more) == PongTokens(sent)
  {
    hide DataOf, PongTokens, PingTokens, RelayOutput, HasEnd;
    var f := NextFrame(inbound, taken, n);
    Snoc(sent, f);
    OutputSnoc(sent, MAX_FRAME_PAYLOAD, f);
    assert inbound[..taken + n] == inbound[..taken] + inbound[taken..taken + n];
    assert (payload + inbound[..taken]) + inbound[taken..taken + n] == payload + inbound[..taken + n];
  }

  lemma SentPong(payload: seq<byte>, inbound: seq<byte>, sent: seq<Frame>, taken: nat, closed: bool, token: u32)
    requires Sent(payload, inbound, sent, taken, closed)
    ensures Sent(payload, inbound, sent + [Pong(token)], taken, closed)
    ensures DataOf(sent + [Pong(token)]) == DataOf(sent)
    ensures PongTokens(sent + [Pong(token)]) == PongTokens(sent) + [token]
  {
    hide DataOf, PongTokens, PingTokens, RelayOutput, HasEnd;
    Snoc(sent, Pong(token));
    OutputSnoc(sent, MAX_FRAME_PAYLOAD, Pong(token));
  }

  /** The relay's variables. */
  datatype ClientGoing = ClientGoing(tx: nat, rx: nat, closed: bool, consumed: nat, toInbound: seq<byte>,
                         sent: seq<Frame>, taken: nat, ops: nat, inboundReads: nat)
  {
    function End(o: ClientOutcome): ClientRun {
      ClientRun(o, sent, taken, closed, consumed, toInbound, ops, inboundReads)
    }
  }

  /** What holds of them between turns. */
  predicate Underway(outbuf: Option<seq<byte>>, inbound: seq<byte>, frames: seq<Frame>, fault: nat -> bool, g: ClientGoing) {
    && (outbuf.Some? ==> Trojan.HeaderLen(outbuf.value).Ok?)
    && |PayloadAfterHeader(outbuf)| <= MAX_FRAME_PAYLOAD
    && g.consumed <= |frames| && IsBody(frames[..g.consumed])
    && g.toInbound == DataOf(frames[..g.consumed]) && g.rx == |g.toInbound|
    && Sent(PayloadAfterHeader(outbuf), inbound, g.sent, g.taken, g.closed) && g.tx == |DataOf(g.sent)|
    && PongTokens(g.sent) == PingTokens(frames[..g.consumed])
    && NoFaults(fault, g.ops)
    && g.inboundReads <= g.taken + if g.closed then 1 else 0
  }

  lemma FaultNext(fault: nat -> bool, ops: nat)
    requires NoFaults(fault, ops)
    ensures !fault(ops) ==> NoFaults(fault, ops + 1)
  {
  }

  lemma SentIsPrefix(payload: seq<byte>, inbound: seq<byte>, sent: seq<Frame>, taken: nat, closed: bool)
    requires Sent(payload, inbound, sent, taken, closed)
    ensures taken <= |inbound| && DataOf(sent) <= payload + inbound
  {
    hide DataOf, RelayOutput, HasEnd;
    assert payload + inbound == payload + inbound[..taken] + inbound[taken..];
  }

  /** The ways to give up with these variables. */
  lemma GivesUp(outbuf: Option<seq<byte>>, inbound: seq<byte>, frames: seq<Frame>, fails: bool, fault: nat -> bool,
                steps: nat, g: ClientGoing, h: ClientGoing, cause: GiveUp)
    requires Underway(outbuf, inbound, frames, fault, g) && !cause.BadHeader?
    requires h == g.(ops := h.ops, consumed := h.consumed, toInbound := h.toInbound)
    requires g.consumed <= h.consumed <= |frames| && h.toInbound <= DataOf(frames[..h.consumed])
    requires PongTokens(g.sent) <= PingTokens(frames[..h.consumed])
    requires ClientJustified(cause, outbuf, frames, fails, fault, h.consumed, h.ops)
    ensures ClientSpec(outbuf, inbound, frames, fails, fault, steps, h.End(GaveUp(cause)))
  {
    hide DataOf, PingTokens, PongTokens, RelayOutput, HasEnd, NoFaults, IsBody, IsTail, ClientJustified, Sent;
    SentIsPrefix(PayloadAfterHeader(outbuf), inbound, g.sent, g.taken, g.closed);
  }

  /** The turn of a read from the inbound connection. */
  method InboundTurn(outbuf: Option<seq<byte>>, inbound: seq<byte>, frames: seq<Frame>, fails: bool,
                     fault: nat -> bool, g: ClientGoing, ghost steps: nat)
    returns (h: ClientGoing, stop: Option<ClientRun>)
    requires Underway(outbuf, inbound, frames, fault, g) && !g.closed
    ensures stop.Some? ==> ClientSpec(outbuf, inbound, frames, fails, fault, steps, stop.value)
    ensures stop.None? ==> Underway(outbuf, inbound, frames, fault, h) && h.inboundReads == g.inboundReads + 1
    ensures h.consumed == g.consumed
  {
    hide DataOf, PingTokens, PongTokens, RelayOutput, HasEnd, NoFaults, IsBody, IsTail, ClientSpec, Sent, PayloadAfterHeader;
    FaultNext(fault, g.ops);
    h, stop := g.(ops := g.ops + 1), None;
    if fault(g.ops) {
      GivesUp(outbuf, inbound, frames, fails, fault, steps, g, h, InboundRead);
      return h, Some(h.End(GaveUp(InboundRead)));
    }
    SentIsPrefix(PayloadAfterHeader(outbuf), inbound, g.sent, g.taken, g.closed);
    var n := ReadSome(|inbound| - g.taken);
    FaultNext(fault, h.ops);
    h := h.(ops := g.ops + 2);
    if fault(g.ops + 1) {
      GivesUp(outbuf, inbound, frames, fails, fault, steps, g, h, SessionWrite);
      return h, Some(h.End(GaveUp(SessionWrite)));
    }
    SentRead(PayloadAfterHeader(outbuf), inbound, g.sent, g.taken, n);
    h := h.(sent := g.sent + [NextFrame(inbound, g.taken, n)], closed := n == 0, tx := g.tx + n, taken := g.taken + n,
            inboundReads := g.inboundReads + 1);
  }

  /** The turn of a frame from the server, other than the last. */
  method FrameTurn(outbuf: Option<seq<byte>>, inbound: seq<byte>, frames: seq<Frame>, fails: bool,
                   fault: nat -> bool, g: ClientGoing, ghost steps: nat)
    returns (h: ClientGoing, stop: Option<ClientRun>)
    requires Underway(outbuf, inbound, frames, fault, g) && g.consumed < |frames|
    ensures stop.Some? ==> ClientSpec(outbuf, inbound, frames, fails, fault, steps, stop.value)
    ensures stop.Some? && stop.value.outcome.Completed? <==> frames[g.consumed].EndRequest?
    ensures stop.None? ==> Underway(outbuf, inbound, frames, fault, h)
    ensures h.consumed == g.consumed + 1 && h.inboundReads == g.inboundReads
  {
    hide DataOf, PingTokens, PongTokens, RelayOutput, HasEnd, NoFaults, ClientSpec, Sent, PayloadAfterHeader;
    var frame := frames[g.consumed];
    assert frames[..g.consumed + 1] == frames[..g.consumed] + [frame];
    Snoc(frames[..g.consumed], frame);
    FaultNext(fault, g.ops);
    h, stop := g.(consumed := g.consumed + 1), None;
    match frame {
      case Data(data) =>
        h := h.(rx := g.rx + |data|, ops := g.ops + 1);
        if fault(g.ops) {
          assert 0 <= |data|;
          var k: nat :| k <= |data|;
          h := h.(toInbound := g.toInbound + data[..k]);
          GivesUp(outbuf, inbound, frames, fails, fault, steps, g, h.(rx := g.rx), InboundWrite);
          return h, Some(h.(rx := g.rx).End(GaveUp(InboundWrite)));
        }
        h := h.(toInbound := g.toInbound + data);
      case EndRequest(_) =>
        Completes(outbuf, inbound, frames, fails, fault, steps, g);
        return h, Some(h.End(Completed(g.tx, g.rx)));
      case Ping(token) =>
        h := h.(ops := g.ops + 1);
        if fault(g.ops) {
          GivesUp(outbuf, inbound, frames, fails, fault, steps, g, h, SessionWrite);
          return h, Some(h.End(GaveUp(SessionWrite)));
        }
        SentPong(PayloadAfterHeader(outbuf), inbound, g.sent, g.taken, g.closed, token);
        h := h.(sent := g.sent + [Pong(token)]);
      case _ =>
        GivesUp(outbuf, inbound, frames, fails, fault, steps, g, h, UnexpectedFrame);
        return h, Some(h.End(GaveUp(UnexpectedFrame)));
    }
  }

  lemma Completes(outbuf: Option<seq<byte>>, inbound: seq<byte>, frames: seq<Frame>, fails: bool, fault: nat -> bool,
                  steps: nat, g: ClientGoing)
    requires Underway(outbuf, inbound, frames, fault, g) && g.consumed < |frames| && frames[g.consumed].EndRequest?
    ensures ClientSpec(outbuf, inbound, frames, fails, fault, steps,
                       g.(consumed := g.consumed + 1).End(Completed(g.tx, g.rx)))
  {
    hide DataOf, PingTokens, PongTokens, RelayOutput, HasEnd, NoFaults, PayloadAfterHeader;
    var frame := frames[g.consumed];
    assert frames[..g.consumed + 1] == frames[..g.consumed] + [frame];
    Snoc(frames[..g.consumed], frame);
    SentIsPrefix(PayloadAfterHeader(outbuf), inbound, g.sent, g.taken, g.closed);
  }

  /** `relay_tcp_frames`: the server will send `frames`, the inbound connection `inbound`, and the n-th
      read of the inbound connection or write to either side fails if `fault(n)`. */
  method RelayTcpFrames(outbuf: Option<seq<byte>>, inbound: seq<byte>, frames: seq<Frame>, fails: bool,
                        fault: nat -> bool, steps: nat)
    returns (r: ClientRun)
    ensures ClientSpec(outbuf, inbound, frames, fails, fault, steps, r)
  {
    hide ClientSpec, Underway;
    var started, sent, taken, tx, ops := SendFirst(outbuf, inbound, fault);
    if !started.Ongoing? {
      StopsFirst(outbuf, inbound, frames, fails, fault, steps, started, taken, ops);
      return ClientRun(started, sent, taken, false, 0, [], ops, 0);
    }
    var g := ClientGoing(tx, 0, false, 0, [], sent, taken, ops, 0);
    SetsOut(outbuf, inbound, frames, fault, g);
    var left := steps;
    while left > 0
      invariant Underway(outbuf, inbound, frames, fault, g)
      invariant g.consumed + g.inboundReads + left == steps
    {
      left := left - 1;
      UnderwayBounds(outbuf, inbound, frames, fault, g);
      var stop := None;
      if {
      case !g.closed =>
        g, stop := InboundTurn(outbuf, inbound, frames, fails, fault, g, steps);
      case g.consumed < |frames| =>
        g, stop := FrameTurn(outbuf, inbound, frames, fails, fault, g, steps);
      case g.consumed == |frames| && fails =>
        ReadFails(outbuf, inbound, frames, fault, steps, g);
        return g.End(GaveUp(SessionRead));
      case g.closed && g.consumed == |frames| && !fails =>
        StillGoing(outbuf, inbound, frames, fails, fault, steps, g);
        return g.End(Ongoing);
      }
      if stop.Some? {
        return stop.value;
      }
    }
    StillGoing(outbuf, inbound, frames, fails, fault, steps, g);
    return g.End(Ongoing);
  }

  lemma StopsFirst(outbuf: Option<seq<byte>>, inbound: seq<byte>, frames: seq<Frame>, fails: bool, fault: nat -> bool,
                   steps: nat, o: ClientOutcome, taken: nat, ops: nat)
    requires taken <= |inbound| && (o.GaveUp? || o.Panicked?)
    requires o.Panicked? <==> |PayloadAfterHeader(outbuf)| > MAX_FRAME_PAYLOAD
    requires o == GaveUp(BadHeader) <==> outbuf.Some? && Trojan.HeaderLen(outbuf.value).Err?
    requires o.GaveUp? ==> o.cause.BadHeader? || (o.cause.SessionWrite? && ops == 1 && fault(0))
    requires !o.GaveUp? ==> NoFaults(fault, ops)
    ensures ClientSpec(outbuf, inbound, frames, fails, fault, steps, ClientRun(o, [], taken, false, 0, [], ops, 0))
  {
    hide PayloadAfterHeader, Trojan.HeaderLen;
    NothingYet(MAX_FRAME_PAYLOAD);
    assert frames[..0] == [];
  }

  lemma SetsOut(outbuf: Option<seq<byte>>, inbound: seq<byte>, frames: seq<Frame>, fault: nat -> bool, g: ClientGoing)
    requires outbuf.Some? ==> Trojan.HeaderLen(outbuf.value).Ok?
    requires |PayloadAfterHeader(outbuf)| <= MAX_FRAME_PAYLOAD && g.taken <= |inbound|
    requires RelayOutput(g.sent, MAX_FRAME_PAYLOAD) && !HasEnd(g.sent)
    requires DataOf(g.sent) == PayloadAfterHeader(outbuf) + inbound[..g.taken] && g.tx == |DataOf(g.sent)|
    requires PongTokens(g.sent) == [] && NoFaults(fault, g.ops)
    requires g == ClientGoing(g.tx, 0, false, 0, [], g.sent, g.taken, g.ops, 0)
    ensures Underway(outbuf, inbound, frames, fault, g)
  {
    NothingYet(MAX_FRAME_PAYLOAD);
    assert frames[..0] == [];
  }

  lemma UnderwayBounds(outbuf: Option<seq<byte>>, inbound: seq<byte>, frames: seq<Frame>, fault: nat -> bool, g: ClientGoing)
    requires Underway(outbuf, inbound, frames, fault, g)
    ensures g.consumed <= |frames|
  {
  }

  lemma ReadFails(outbuf: Option<seq<byte>>, inbound: seq<byte>, frames: seq<Frame>, fault: nat -> bool, steps: nat, g: ClientGoing)
    requires Underway(outbuf, inbound, frames, fault, g) && g.consumed == |frames|
    ensures ClientSpec(outbuf, inbound, frames, true, fault, steps, g.End(GaveUp(SessionRead)))
  {
    hide ClientSpec, PayloadAfterHeader, DataOf, PongTokens, PingTokens;
    assert frames[..|frames|] == frames;
    GivesUp(outbuf, inbound, frames, true, fault, steps, g, g, SessionRead);
  }

  lemma StillGoing(outbuf: Option<seq<byte>>, inbound: seq<byte>, frames: seq<Frame>, fails: bool, fault: nat -> bool,
                   steps: nat, g: ClientGoing)
    requires Underway(outbuf, inbound, frames, fault, g)
    requires g.consumed + g.inboundReads == steps || (g.closed && g.consumed == |frames| && !fails)
    ensures ClientSpec(outbuf, inbound, frames, fails, fault, steps, g.End(Ongoing))
  {
    hide PayloadAfterHeader, DataOf, PongTokens, PingTokens, RelayOutput, HasEnd;
    SentIsPrefix(PayloadAfterHeader(outbuf), inbound, g.sent, g.taken, g.closed);
  }

  /** If the server answers with a whole request's frames and nothing fails, the relay completes, given
      enough turns. */
  lemma ClientFinishes(outbuf: Option<seq<byte>>, inbound: seq<byte>, frames: seq<Frame>, fails: bool,
                       fault: nat -> bool, steps: nat, r: ClientRun, k: nat)
    requires ClientSpec(outbuf, inbound, frames, fails, fault, steps, r)
    requires outbuf.Some? ==> Trojan.HeaderLen(outbuf.value).Ok?
    requires |PayloadAfterHeader(outbuf)| <= MAX_FRAME_PAYLOAD
    requires 0 < k <= |frames| && IsTail(frames[..k]) && (forall n: nat :: !fault(n))
    requires steps > |frames| + |inbound| + 1
    ensures r.outcome.Completed? && r.consumed == k
  {
    hide DataOf, PingTokens, PongTokens, RelayOutput, HasEnd, NoFaults, IsTail, IsBody, PayloadAfterHeader;
    StopsInside(frames, k, if r.consumed == 0 then 0 else r.consumed - 1);
    assert frames[..|frames|] == frames;
    assert r.outcome.Completed?;
    SameEnd(frames, k, r.consumed);
  }

  // ---------- both sides ----------

  /** Once a relay's output has ended, dropping what follows loses no Data. */
  lemma {:induction false} DataEndsThere(fs: seq<Frame>, max: nat, k: nat)
    requires RelayOutput(fs, max) && k <= |fs| && IsTail(fs[..k])
    ensures DataOf(fs[..k]) == DataOf(fs)
    decreases |fs|
  {
    if k == |fs| {
      assert fs[..k] == fs;
    } else {
      var n := |fs| - 1;
      assert fs[k - 1].EndRequest? && fs[n].Pong?;
      assert fs[..n][..k] == fs[..k];
      DataEndsThere(fs[..n], max, k);
    }
  }

  lemma OutputFits(fs: seq<Frame>, max: nat)
    requires RelayOutput(fs, max) && max <= MAX_FRAME_PAYLOAD
    ensures forall f :: f in fs ==> Fits(f)
  {
    forall f | f in fs
      ensures Fits(f)
    {
      var i :| 0 <= i < |fs| && fs[i] == f;
    }
  }

  /**
   A client relay and a server relay talking to each other over the session, both returning Ok with
   the client's side ended: the target received exactly the client's payload and inbound bytes, the
   client's inbound connection received exactly the target's response, the two sides agree on both
   totals, and every frame survived its encoding.
   */
  lemma EndToEnd(outbuf: Option<seq<byte>>, inbound: seq<byte>, response: seq<byte>, fails: bool, fault: nat -> bool,
                 turns: nat, broken: bool, env: Env, steps: nat, c: ClientRun, s: Relayed)
    requires ClientSpec(outbuf, inbound, s.toClient, fails, fault, turns, c) && c.outcome.Completed? && c.closed
    requires RelaySpec(c.sent, broken, response, env, steps, s) && s.outcome.Finished?
    ensures s.toTarget == PayloadAfterHeader(outbuf) + inbound
    ensures c.toInbound == response
    ensures c.outcome.tx == s.outcome.tx && c.outcome.rx == s.outcome.rx
    ensures forall f :: f in c.sent + s.toClient ==> Fits(f)
    ensures ReadAll(EncodeAll(c.sent)) == (c.sent, None) && ReadAll(EncodeAll(s.toClient)) == (s.toClient, None)
  {
    hide DataOf, PayloadAfterHeader, RelayOutput, IsTail, PongTokens, PingTokens, ReadAll, EncodeAll, Fits;
    DataEndsThere(c.sent, MAX_FRAME_PAYLOAD, s.consumed);
    DataEndsThere(s.toClient, RELAY_BUF, c.consumed);
    OutputFits(c.sent, MAX_FRAME_PAYLOAD);
    OutputFits(s.toClient, RELAY_BUF);
    StreamRoundTrip(c.sent);
    StreamRoundTrip(s.toClient);
    assert inbound[..|inbound|] == inbound && response[..|response|] == response;
  }

  /**
   The same request sent one-shot: the server reads the header off the buffer and forwards the rest
   and everything after it. The reusable path opened the same address and gave it the same bytes.
   */
  lemma SameAsOneShot(b: seq<byte>, inbound: seq<byte>, response: seq<byte>, fails: bool, fault: nat -> bool,
                      turns: nat, broken: bool, env: Env, steps: nat, c: ClientRun, s: Relayed)
    requires Trojan.ReadRequest(b).Ok? && Trojan.ReadRequest(b).value.0.cmd == Trojan.CONNECT
    requires ClientSpec(Some(b), inbound, s.toClient, fails, fault, turns, c) && c.outcome.Completed? && c.closed
    requires RelaySpec(c.sent, broken, response, env, steps, s) && s.outcome.Finished?
    ensures var (request, payload) := Trojan.ReadRequest(b).value;
            && Trojan.OpenRequestOf(Some(b)).Ok? && Trojan.OpenedAddr(b) == Ok(request.addr)
            && s.toTarget == payload + inbound
            && c.toInbound == response
  {
    hide Trojan.ReadRequest, Trojan.OpenRequestOf, Trojan.FrameAddr, Trojan.HeaderLen;
    hide ClientSpec, RelaySpec;
    Trojan.PathsAgree(b);
    EndToEnd(Some(b), inbound, response, fails, fault, turns, broken, env, steps, c, s);
  }
}
