/**
 The server's loop over one reusable session: negotiation, then requests one after another until
 a limit, a shutdown, the client or an error ends it.

 `select!` is a nondeterministic choice, and the clock and the shutdown watch may show anything at
 each look. `steps` bounds how far a run is followed.
 */
module SessionLoop {
  import opened Basics
  import opened Frames
  import opened Relay
  import opened Bracketing
  import Trojan

  datatype SessionState =
    | Connecting | Handshaking | Idle | Opening | Active | Draining | Closing | Closed | Poisoned

  datatype CloseReason =
    | ClientClose | ClientInitiated | ServerClose | ServerError | IdleTimeout | MaxAgeExceeded
    | MaxRequestsExceeded | MaxRequestsReached | KeepaliveTimeout | ProtocolError
    | VersionMismatch | ShutdownDrain | CheckoutFailed | ReasonPoisoned

  function ReasonCode(r: CloseReason): byte {
    match r
    case ClientClose => 0x01
    case ClientInitiated => 0x01
    case ServerClose => 0x02
    case ServerError => 0x02
    case IdleTimeout => 0x03
    case MaxAgeExceeded => 0x04
    case MaxRequestsExceeded => 0x05
    case MaxRequestsReached => 0x05
    case KeepaliveTimeout => 0x06
    case ProtocolError => 0x07
    case VersionMismatch => 0x08
    case ShutdownDrain => 0x09
    case CheckoutFailed => 0x0a
    case ReasonPoisoned => 0x0b
  }

  datatype Limits = Limits(maxRequests: nat, maxAge: nat, idleTimeout: nat)

  /** `checked_duration_since`: a clock that went back never counts as elapsed. */
  predicate ElapsedAtLeast(now: nat, then_: nat, duration: nat) {
    now >= then_ && now - then_ >= duration
  }

  function ExpiredLimit(l: Limits, requestCount: nat, createdAt: nat, lastActivity: nat, now: nat): Option<CloseReason> {
    if requestCount >= l.maxRequests then Some(MaxRequestsReached)
    else if ElapsedAtLeast(now, createdAt, l.maxAge) then Some(MaxAgeExceeded)
    else if ElapsedAtLeast(now, lastActivity, l.idleTimeout) then Some(IdleTimeout)
    else None
  }

  /** The limits as inequalities, the first that is met giving the reason. */
  lemma LimitExactly(l: Limits, requestCount: nat, createdAt: nat, lastActivity: nat, now: nat)
    ensures var r := ExpiredLimit(l, requestCount, createdAt, lastActivity, now);
            && (r == Some(MaxRequestsReached) <==> requestCount >= l.maxRequests)
            && (r == Some(MaxAgeExceeded) <==>
                  requestCount < l.maxRequests && now >= createdAt + l.maxAge)
            && (r == Some(IdleTimeout) <==>
                  requestCount < l.maxRequests && now < createdAt + l.maxAge && now >= lastActivity + l.idleTimeout)
            && (r.None? <==>
                  requestCount < l.maxRequests && now < createdAt + l.maxAge && now < lastActivity + l.idleTimeout)
            && (r.Some? ==> ReasonCode(r.value) == LimitByte(l, requestCount, createdAt, now))
  {
  }

  /** The byte of the Close a limit leads to. */
  function LimitByte(l: Limits, requestCount: nat, createdAt: nat, now: nat): byte {
    if requestCount >= l.maxRequests then 0x05
    else if now >= createdAt + l.maxAge then 0x04
    else 0x03
  }

  /** Reasons share a byte only with their own synonym. */
  lemma ReasonCodesDistinct(a: CloseReason, b: CloseReason)
    ensures ReasonCode(a) == ReasonCode(b)
            <==> || a == b
                 || {a, b} == {ClientClose, ClientInitiated}
                 || {a, b} == {ServerClose, ServerError}
                 || {a, b} == {MaxRequestsExceeded, MaxRequestsReached}
    ensures 0x01 <= ReasonCode(a) <= 0x0b
  {
    assert {a, b} == {ClientClose, ClientInitiated} <==> (a, b) == (ClientClose, ClientInitiated) || (b, a) == (ClientClose, ClientInitiated);
    assert {a, b} == {ServerClose, ServerError} <==> (a, b) == (ServerClose, ServerError) || (b, a) == (ServerClose, ServerError);
    assert {a, b} == {MaxRequestsExceeded, MaxRequestsReached}
      <==> (a, b) == (MaxRequestsExceeded, MaxRequestsReached) || (b, a) == (MaxRequestsExceeded, MaxRequestsReached);
  }

  predicate Farewell(f: Frame) {
    f.Close? || f.Reset?
  }

  predicate NoFarewell(fs: seq<Frame>) {
    forall i :: 0 <= i < |fs| ==> !Farewell(fs[i])
  }

  /** Exactly one Close or Reset, and it is the last frame. */
  predicate OneFarewell(fs: seq<Frame>) {
    fs != [] && Farewell(fs[|fs| - 1]) && NoFarewell(fs[..|fs| - 1])
  }

  /** A request the server takes on: a Connect to an address that translates. */
  predicate Servable(f: Frame) {
    && f.OpenRequest? && f.cmd == 0x01
    && Trojan.FrameAddr(f.atyp, f.addr, f.port).Ok?
  }

  predicate AllServable(items: seq<Item>) {
    forall i :: 0 <= i < |items| && items[i].Request? ==> Servable(items[i].open)
  }

  /** The delivery of the request opened at frame `at`, given up after frame `upTo - 1`: its own
      target, and only a first part of its own Data. */
  predicate CutShort(frames: seq<Frame>, at: nat, upTo: nat, d: Delivery) {
    && at < upTo <= |frames|
    && Servable(frames[at])
    && d.dest == Trojan.FrameAddr(frames[at].atyp, frames[at].addr, frames[at].port)
    && d.data <= DataOf(frames[at + 1..upTo])
  }

  /** What the client gets for a Ping, and for a request whose target answered `reply`. */
  predicate Answers(it: Item, reply: seq<byte>, fs: seq<Frame>) {
    match it
    case Between(ping) => ping.Ping? && fs == [Pong(ping.token)]
    case Request(_, tail) =>
      RelayOutput(fs, RELAY_BUF) && HasEnd(fs) && DataOf(fs) == reply && PongTokens(fs) == PingTokens(tail)
  }

  function Join(fss: seq<seq<Frame>>): seq<Frame> {
    if fss == [] then [] else Join(fss[..|fss| - 1]) + fss[|fss| - 1]
  }

  /** Every item served got its own answer. */
  ghost predicate Answered(served: seq<Item>, replies: seq<seq<byte>>, answers: seq<seq<Frame>>) {
    && |served| == |replies| == |answers|
    && forall i :: 0 <= i < |served| ==> Answers(served[i], replies[i], answers[i])
  }

  lemma AnswerMore(served: seq<Item>, replies: seq<seq<byte>>, answers: seq<seq<Frame>>, it: Item, reply: seq<byte>, fs: seq<Frame>)
    requires Answered(served, replies, answers) && Answers(it, reply, fs)
    ensures Answered(served + [it], replies + [reply], answers + [fs])
    ensures Join(answers + [fs]) == Join(answers) + fs
  {
    hide Answers;
    assert (answers + [fs])[..|answers|] == answers;
  }

  lemma NothingAnswered()
    ensures Answered([], [], []) && Join([]) == [] && AllServable([])
  {
  }

  /** How many frames of the stream come before the requests: the ClientHello, unless the caller had
      already read it. */
  function Skip(first: Option<Frame>): nat {
    if first.Some? then 0 else 1
  }

  /** However the client meant its stream to divide into requests, even if not all of it was sent,
      the deliveries are its first requests, in order. */
  ghost predicate InOrder(frames: seq<Frame>, skip: nat, targets: seq<Delivery>) {
    forall items :: AllOk(items) && skip <= |frames| && frames[skip..] <= Flatten(items) ==>
      targets <= Deliveries(items)
  }

  datatype Handled = Continue | Stop | Failed | Unfinished

  datatype Run = ReturnedOk | ReturnedErr | StillGoing

  class Session {
    const limits: Limits
    /** Everything the client will ever send, after which reads hang, or fail if `fails`. */
    const frames: seq<Frame>
    const fails: bool
    /** Whether the n-th connection, read from a target or write fails. */
    const fault: nat -> bool
    /** Whether the server may be shutting down, and how often the shutdown watch will change. */
    const mayGoDown: bool
    const notices: nat
    var state: SessionState
    var requestCount: nat
    var createdAt: nat
    var lastActivity: nat
    var consumed: nat
    var written: seq<Frame>
    var ops: nat
    var looks: nat
    /** Each completed request's target and what it was given. */
    var targets: seq<Delivery>
    /** The same for a request that did not complete. */
    var partial: Option<Delivery>
    /** Where serving began, and how the frames served since then divide. */
    ghost var start: nat
    ghost var served: seq<Item>
    /** What the target of each item answered, and what the client was sent for it. */
    ghost var replies: seq<seq<byte>>
    ghost var answers: seq<seq<Frame>>

    constructor (limits: Limits, frames: seq<Frame>, fails: bool, fault: nat -> bool, mayGoDown: bool, notices: nat, now: nat)
      ensures this.limits == limits && this.frames == frames && this.fails == fails && this.fault == fault
      ensures this.mayGoDown == mayGoDown && this.notices == notices
      ensures Fresh()
    {
      this.limits, this.frames, this.fails, this.fault := limits, frames, fails, fault;
      this.mayGoDown, this.notices := mayGoDown, notices;
      state, requestCount, createdAt, lastActivity := Handshaking, 0, now, now;
      consumed, written, targets, partial, ops, looks := 0, [], [], None, 0, 0;
      start, served, replies, answers := 0, [], [], [];
    }

    ghost predicate Fresh()
      reads this
    {
      && state == Handshaking && requestCount == 0 && consumed == 0 && written == [] && targets == []
      && partial == None && ops == 0 && looks == 0 && start == 0 && served == [] && replies == [] && answers == []
    }

    /** Requests served so far are whole brackets of the client's stream, each a Connect to a good
        address; each bracket's Data, and nothing else, went to that bracket's own target, and each has
        its own answer. */
    ghost predicate Bracketed()
      reads this`start, this`served, this`targets, this`replies, this`answers
    {
      && start <= |frames|
      && AllOk(served) && AllServable(served)
      && Flatten(served) <= frames[start..]
      && targets == Deliveries(served)
      && Answered(served, replies, answers)
    }

    /** The client was sent those answers first of all, in order. */
    ghost predicate Told()
      reads this`answers, this`written
    {
      Join(answers) <= written
    }

    /** The head of the serving loop. */
    ghost predicate AtHead()
      reads this
    {
      && state == Idle
      && Bracketed()
      && consumed == start + |Flatten(served)|
      && NoFarewell(written) && written == Join(answers)
      && requestCount <= limits.maxRequests
      && partial.None? && looks <= notices
    }

    ghost predicate Over()
      reads this
    {
      (state == Closed || state == Poisoned) && OneFarewell(written)
    }

    ghost predicate Kept()
      reads this
    {
      && Bracketed() && Told() && requestCount <= limits.maxRequests
      && (partial.Some? ==> CutShort(frames, start + |Flatten(served)|, consumed, partial.value))
    }

    /** The last thing tried failed. */
    ghost predicate Broke()
      reads this
    {
      ops > 0 && fault(ops - 1)
    }

    method WriteFrame(f: Frame) returns (ok: bool)
      modifies this`written, this`ops
      ensures ok == !fault(old(ops)) && ops == old(ops) + 1
      ensures written == if ok then old(written) + [f] else old(written)
    {
      ops := ops + 1;
      if fault(ops - 1) {
        return false;
      }
      written := written + [f];
      return true;
    }

    /** A look at the shutdown watch. */
    method ShuttingDown() returns (down: bool)
      ensures down ==> mayGoDown
    {
      down :| down ==> mayGoDown;
    }

    method CloseSession(reason: CloseReason) returns (ok: bool)
      requires NoFarewell(written)
      modifies this`state, this`written, this`ops
      ensures written == if ok then old(written) + [Close(ReasonCode(reason))] else old(written)
      ensures if ok then state == Closed && Over() else state == Closing && Broke()
    {
      state := Closing;
      ok := WriteFrame(Close(ReasonCode(reason)));
      if !ok {
        return false;
      }
      state := Closed;
      assert written[..|written| - 1] == old(written);
    }

    method ResetSession(reason: CloseReason) returns (ok: bool)
      modifies this`state, this`written, this`ops
      ensures written == if ok then old(written) + [Reset(ReasonCode(reason))] else old(written)
      ensures state == Poisoned && (!ok ==> Broke())
      ensures ok && old(NoFarewell(written)) ==> Over()
    {
      state := Poisoned;
      ok := WriteFrame(Reset(ReasonCode(reason)));
      assert ok ==> written[..|written| - 1] == old(written);
    }

    /** The Active arm could write both a Close and a Reset; the loop never reaches it. */
    method GracefulShutdown() returns (ok: bool)
      requires NoFarewell(written) || state == Closed || state == Poisoned
      modifies this`state, this`written, this`ops
      ensures !ok ==> Broke()
      ensures old(state) == Closed || old(state) == Poisoned ==>
                ok && state == old(state) && written == old(written)
      ensures old(state) == Active && ok ==> state == Closed || state == Poisoned
      ensures old(state) != Active && old(state) != Closed && old(state) != Poisoned ==>
                && written == (if ok then old(written) + [Close(0x09)] else old(written))
                && if ok then state == Closed && Over() else state == Closing
    {
      match state {
        case Active =>
          state := Draining;
          ok := CloseSession(ShutdownDrain);
          if * {
            ok := ResetSession(ShutdownDrain);
          }
        case Closed =>
          return true;
        case Poisoned =>
          return true;
        case _ =>
          ok := CloseSession(ShutdownDrain);
      }
    }

    /**
     `relay_open_request`. A request that is no Connect, or whose address does not translate, is given
     up with nothing done; so is one whose target cannot be reached. Any other is relayed, and what the
     relay did is what was done.
     */
    method RelayOpenRequest(open: Frame, down: bool)
      returns (r: Outcome, ghost relayed: Option<Relayed>, ghost reply: seq<byte>, ghost env: Env, ghost steps: nat)
      requires open.OpenRequest? && state == Active && Bracketed() && NoFarewell(written) && partial.None?
      requires consumed == start + |Flatten(served)| + 1 <= |frames| && frames[consumed - 1] == open
      requires written == Join(answers) && looks <= notices && (down ==> mayGoDown)
      modifies this`consumed, this`written, this`targets, this`partial, this`ops, this`looks
      modifies this`served, this`replies, this`answers
      ensures Bracketed() && Told() && NoFarewell(written) && looks <= notices
      ensures consumed >= old(consumed) && looks >= old(looks)
      ensures relayed.Some? <==> Servable(open) && !fault(old(ops))
      ensures relayed.None? ==>
                && consumed == old(consumed) && written == old(written) && targets == old(targets) && partial.None?
                && looks == old(looks) && served == old(served)
                && (if open.cmd != 0x01 then r == Aborted(NotConnect) && ops == old(ops)
                    else if Trojan.FrameAddr(open.atyp, open.addr, open.port).Err? then r == Aborted(BadAddress) && ops == old(ops)
                    else r == Aborted(ConnectFailed) && ops == old(ops) + 1)
      ensures relayed.Some? ==>
                && RelaySpec(frames[old(consumed)..], fails, reply, env, steps, relayed.value)
                && r == relayed.value.outcome
                && consumed == old(consumed) + relayed.value.consumed
                && written == old(written) + relayed.value.toClient
                && ops == old(ops) + 1 + relayed.value.ops
                && (env.mayGoDown ==> mayGoDown) && (env.down ==> down)
                && (forall n: nat :: env.fault(n) == fault(old(ops) + 1 + n))
      ensures r.Finished? ==>
                && consumed == start + |Flatten(served)| && |targets| == |old(targets)| + 1
                && partial.None? && written == Join(answers)
      ensures !r.Finished? ==> targets == old(targets)
      ensures relayed.Some? && !r.Finished? ==> partial.Some?
      ensures partial.Some? ==> CutShort(frames, start + |Flatten(served)|, consumed, partial.value)
    {
      hide Bracketed, CutShort, Trojan.FrameAddr, Flatten, NoFarewell, Join, RelaySpec;
      relayed, reply, steps := None, [], 0;
      env := Env(fault, down, mayGoDown, 0);
      var good, dest := Check(open);
      if good.Some? {
        return Aborted(good.value), relayed, reply, env, steps;
      }
      ops := ops + 1;
      if fault(ops - 1) {
        return Aborted(ConnectFailed), relayed, reply, env, steps;
      }
      var x;
      x, reply, env, steps := RelayConnected(open, dest, down);
      relayed := Some(x);
      return x.outcome, relayed, reply, env, steps;
    }

    /** Why a request is refused out of hand, or where it goes. */
    method Check(open: Frame) returns (refused: Option<Cause>, dest: Result<Trojan.Addr, Trojan.FrameAddrError>)
      requires open.OpenRequest?
      ensures refused.None? <==> Servable(open)
      ensures refused == Some(NotConnect) <==> open.cmd != 0x01
      ensures refused.Some? && open.cmd == 0x01 ==>
                refused.value == BadAddress && Trojan.FrameAddr(open.atyp, open.addr, open.port).Err?
      ensures refused.None? ==> dest == Trojan.FrameAddr(open.atyp, open.addr, open.port)
    {
      hide Trojan.FrameAddr;
      dest := Trojan.FrameAddr(open.atyp, open.addr, open.port);
      return if open.cmd != Trojan.CONNECT then Some(NotConnect) else if dest.Err? then Some(BadAddress) else None, dest;
    }

    /** The relay with a target that was reached. */
    method RelayConnected(open: Frame, dest: Result<Trojan.Addr, Trojan.FrameAddrError>, down: bool)
      returns (x: Relayed, ghost reply: seq<byte>, ghost env: Env, ghost steps: nat)
      requires Servable(open) && dest == Trojan.FrameAddr(open.atyp, open.addr, open.port)
      requires Bracketed() && NoFarewell(written) && partial.None? && looks <= notices && (down ==> mayGoDown)
      requires consumed == start + |Flatten(served)| + 1 <= |frames| && frames[consumed - 1] == open
      requires written == Join(answers)
      modifies this`consumed, this`written, this`targets, this`partial, this`ops, this`looks
      modifies this`served, this`replies, this`answers
      ensures RelaySpec(frames[old(consumed)..], fails, reply, env, steps, x)
      ensures (env.mayGoDown ==> mayGoDown) && (env.down ==> down)
      ensures forall n: nat :: env.fault(n) == fault(old(ops) + n)
      ensures consumed == old(consumed) + x.consumed && written == old(written) + x.toClient
      ensures ops == old(ops) + x.ops && looks == old(looks) + x.looks && looks <= notices
      ensures Bracketed() && Told() && NoFarewell(written)
      ensures x.outcome.Finished? ==>
                && consumed == start + |Flatten(served)| && |targets| == |old(targets)| + 1
                && partial.None? && written == Join(answers)
      ensures !x.outcome.Finished? ==> targets == old(targets) && served == old(served) && partial.Some?
      ensures partial.Some? ==> CutShort(frames, start + |Flatten(served)|, consumed, partial.value)
    {
      hide Bracketed, CutShort, Trojan.FrameAddr, Flatten, NoFarewell, Join, RelaySpec, Servable, RelayOutput, DataOf;
      var response: seq<byte>, inner: nat := *, *;
      var base, faults := ops, fault;
      var around := Env((n: nat) => faults(base + n), down, mayGoDown, notices - looks);
      var more := frames[consumed..];
      x := RelayFramedTcp(more, fails, response, around, inner);
      reply, env, steps := response, around, inner;
      RelayedBounds(more, fails, reply, env, steps, x);
      RelayedHasNoFarewell(written, x.toClient);
      if x.outcome.Finished? {
        RecordRequest(open, dest, x, reply, env, steps);
      } else {
        var d := Delivery(dest, x.toTarget);
        CutShortHere(frames, consumed, x, d);
        partial := Some(d);
      }
      written := written + x.toClient;
      consumed, ops, looks := consumed + x.consumed, ops + x.ops, looks + x.looks;
    }

    /** A request that finished is one more item served. */
    method RecordRequest(open: Frame, dest: Result<Trojan.Addr, Trojan.FrameAddrError>, x: Relayed,
                         ghost reply: seq<byte>, ghost env: Env, ghost steps: nat)
      requires Servable(open) && dest == Trojan.FrameAddr(open.atyp, open.addr, open.port)
      requires Bracketed() && consumed == start + |Flatten(served)| + 1 <= |frames| && frames[consumed - 1] == open
      requires RelaySpec(frames[consumed..], fails, reply, env, steps, x) && x.outcome.Finished?
      modifies this`targets, this`served, this`replies, this`answers
      ensures Bracketed() && Join(answers) == old(Join(answers)) + x.toClient
      ensures consumed + x.consumed == start + |Flatten(served)| && |targets| == |old(targets)| + 1
    {
      hide CutShort, Trojan.FrameAddr, Flatten, Deliveries, AllOk, AllServable, Answered, RelayOutput, Servable,
           HasEnd, DataOf, PongTokens, PingTokens, Justified, NoFaults, IsBody, IsTail, Join;
      ghost var tail := frames[consumed..][..x.consumed];
      ghost var it := Request(open, tail);
      OpenFrame(open);
      ServeItem(frames, start, served, open, tail);
      StillServable(served, open, tail);
      assert reply[..|reply|] == reply;
      AnswerMore(served, replies, answers, it, reply, x.toClient);
      targets := targets + [Delivery(dest, x.toTarget)];
      served, replies, answers := served + [it], replies + [reply], answers + [x.toClient];
    }

    /** The OpenRequest arm of `handle_frame`; `down` and `now` are what the watch and the clock show
        when the request is done. */
    method HandleOpen(open: Frame, downBefore: bool, down: bool, now: nat) returns (h: Handled)
      requires AboutToHandle(open) && open.OpenRequest? && (downBefore || down ==> mayGoDown)
      modifies this`state, this`requestCount, this`consumed, this`written, this`ops, this`looks
      modifies this`targets, this`partial, this`served, this`replies, this`answers
      ensures Kept() && start == old(start)
      ensures h.Continue? ==> AtHead() && requestCount < limits.maxRequests && |targets| == |old(targets)| + 1
      ensures h.Continue? ==> !down && now < createdAt + limits.maxAge && now < lastActivity + limits.idleTimeout
      ensures consumed >= old(consumed) && looks >= old(looks)
      ensures h.Stop? ==> Over()
      ensures h.Failed? ==> Broke()
      ensures h.Unfinished? ==> state == Active && Servable(open) && partial.Some?
      ensures requestCount == old(requestCount) + 1
      ensures h.Continue? || targets != old(targets) || partial.Some? ==> Servable(open)
      // a request is refused before any byte of it is read or passed on only for itself, or if its target
      // cannot be reached
      ensures targets == old(targets) && partial.None? ==>
                && (!Servable(open) || fault(old(ops))) && consumed == old(consumed)
                && (h.Stop? ==> written == old(written) + [Reset(0x02)])
      ensures h.Stop? && targets == old(targets) ==> written[|written| - 1] == Reset(0x02)
      ensures h.Stop? && targets != old(targets) ==>
                written[|written| - 1] == Close(if down then 0x09 else LimitByte(limits, requestCount, createdAt, now))
    {
      hide Bracketed, CutShort, Flatten, Deliveries, NoFarewell, OneFarewell, AllOk, AllServable, Answered, ReasonCode, Servable,
           RelaySpec, LimitByte;
      state := Active;
      requestCount := requestCount + 1;
      var r; ghost var relayed, reply, env, steps;
      r, relayed, reply, env, steps := RelayOpenRequest(open, downBefore);
      match r {
        case StillRunning =>
          return Unfinished;
        case Aborted(_) =>
          h := GiveUp();
        case Finished(_, _) =>
          state := Idle;
          h := AfterRequest(down, now);
      }
    }

    /** About to handle `frame`, the one just read. */
    ghost predicate AboutToHandle(frame: Frame)
      reads this
    {
      && state == Idle && Bracketed() && NoFarewell(written) && written == Join(answers)
      && requestCount < limits.maxRequests && partial.None? && looks <= notices
      && consumed == start + |Flatten(served)| + 1 <= |frames| && frames[consumed - 1] == frame
    }

    /** What `handle_frame` does when the relay failed. */
    method GiveUp() returns (h: Handled)
      requires Kept() && NoFarewell(written)
      modifies this`state, this`written, this`ops
      ensures Kept()
      ensures h.Stop? || h.Failed?
      ensures h.Stop? ==> Over() && written == old(written) + [Reset(0x02)]
      ensures h.Failed? ==> Broke()
    {
      hide Bracketed, CutShort, Flatten, Deliveries, NoFarewell, OneFarewell, AllOk, AllServable, Answered, Join;
      var ok := ResetSession(ServerError);
      return if ok then Stop else Failed;
    }

    /** What `handle_frame` does once a request is done: go on, unless told or obliged to close. */
    method AfterRequest(down: bool, now: nat) returns (h: Handled)
      requires AtHead()
      modifies this`state, this`written, this`ops
      ensures !h.Unfinished? && Kept()
      ensures h.Continue? ==> AtHead() && requestCount < limits.maxRequests
      ensures h.Continue? <==>
                && !down && requestCount < limits.maxRequests
                && now < createdAt + limits.maxAge && now < lastActivity + limits.idleTimeout
      ensures h.Stop? ==> Over()
      ensures h.Failed? ==> Broke()
      ensures h.Stop? ==>
                written == old(written) + [Close(if down then 0x09 else LimitByte(limits, requestCount, createdAt, now))]
    {
      hide Bracketed, CutShort, Flatten, Deliveries, NoFarewell, OneFarewell, AllOk, AllServable, Answered, Join;
      if down {
        var ok := CloseSession(ShutdownDrain);
        return if ok then Stop else Failed;
      }
      LimitExactly(limits, requestCount, createdAt, lastActivity, now);
      var reason := ExpiredLimit(limits, requestCount, createdAt, lastActivity, now);
      if reason.Some? {
        var ok := CloseSession(reason.value);
        return if ok then Stop else Failed;
      }
      return Continue;
    }

    method HandleFrame(frame: Frame, downBefore: bool, down: bool, now: nat) returns (h: Handled)
      requires AboutToHandle(frame) && (downBefore || down ==> mayGoDown)
      modifies this`state, this`requestCount, this`consumed, this`written, this`ops, this`looks
      modifies this`targets, this`partial, this`served, this`replies, this`answers
      ensures Kept() && start == old(start)
      ensures h.Continue? ==> AtHead() && requestCount < limits.maxRequests
      ensures consumed >= old(consumed) && looks >= old(looks)
      ensures h.Continue? ==> frame.Ping? || Servable(frame)
      ensures frame.Ping? ==>
                if fault(old(ops)) then h.Failed? else h.Continue? && written == old(written) + [Pong(frame.token)]
      ensures h.Stop? ==> Over()
      ensures h.Failed? ==> Broke()
      ensures h.Unfinished? ==> state == Active && Servable(frame)
      ensures h.Stop? && frame.Close? ==> written == old(written) + [Close(0x01)]
      ensures h.Stop? && !frame.Close? && !frame.OpenRequest? ==> written == old(written) + [Reset(0x07)]
    {
      hide Bracketed, CutShort, Flatten, Deliveries, NoFarewell, OneFarewell, AllOk, AllServable, Answered, Servable, LimitByte;
      match frame {
        case OpenRequest(_, _, _, _) =>
          h := HandleOpen(frame, downBefore, down, now);
        case Ping(token) =>
          h := HandlePing(frame);
        case Close(_) =>
          var ok := CloseSession(ClientInitiated);
          return if ok then Stop else Failed;
        case _ =>
          var ok := ResetSession(ProtocolError);
          return if ok then Stop else Failed;
      }
    }

    method HandlePing(ping: Frame) returns (h: Handled)
      requires AboutToHandle(ping) && ping.Ping?
      modifies this`written, this`ops, this`served, this`replies, this`answers
      ensures Kept()
      ensures if fault(old(ops)) then h.Failed? && Broke()
              else h.Continue? && AtHead() && written == old(written) + [Pong(ping.token)]
    {
      hide Bracketed, CutShort, Flatten, Deliveries, NoFarewell, AllOk, AllServable, Answered, Join;
      var ok := WriteFrame(Pong(ping.token));
      if !ok {
        return Failed;
      }
      RecordPing(ping);
      return Continue;
    }

    /** The Pong just written is the answer to one more item. */
    ghost method RecordPing(ping: Frame)
      requires state == Idle && Bracketed() && partial.None? && looks <= notices && requestCount < limits.maxRequests
      requires ping.Ping? && NoFarewell(Join(answers)) && written == Join(answers) + [Pong(ping.token)]
      requires consumed == start + |Flatten(served)| + 1 <= |frames| && frames[consumed - 1] == ping
      modifies this`served, this`replies, this`answers
      ensures AtHead()
    {
      hide CutShort, Flatten, Deliveries, NoFarewell, AllOk, AllServable, Answered, Join;
      PongIsNoFarewell(Join(answers), ping.token);
      ServePing(frames, start, served, ping);
      PingServable(served, ping);
      AnswerMore(served, replies, answers, Between(ping), [], [Pong(ping.token)]);
      served, replies, answers := served + [Between(ping)], replies + [[]], answers + [[Pong(ping.token)]];
    }

    /** One turn of the loop; `down` and `now` are what the watch and the clock show at its head, `at`
        what the clock shows when a frame has been read. */
    method Turn(down: bool, now: nat, at: nat) returns (h: Handled)
      requires AtHead() && (down ==> mayGoDown)
      modifies this
      ensures Kept() && start == old(start) && createdAt == old(createdAt)
      ensures lastActivity == if consumed > old(consumed) then at else old(lastActivity)
      ensures h.Continue? ==> AtHead() && (consumed > old(consumed) || looks > old(looks))
      ensures consumed >= old(consumed) && looks >= old(looks)
      ensures h.Stop? ==> Over()
      ensures h.Failed? ==> Broke()
      ensures h.Unfinished? ==> state == Active
      ensures down ==> (h.Stop? || h.Failed?) && (h.Stop? ==> written == old(written) + [Close(0x09)])
      ensures !down && !(old(requestCount) < limits.maxRequests && now < old(createdAt) + limits.maxAge
                         && now < old(lastActivity) + limits.idleTimeout) ==>
                && (h.Stop? || h.Failed?) && consumed == old(consumed)
                && (h.Stop? ==>
                      written == old(written) + [Close(LimitByte(limits, old(requestCount), old(createdAt), now))])
    {
      hide Bracketed, CutShort, Flatten, Deliveries, NoFarewell, OneFarewell, AllOk, AllServable, Answered, Join, Servable;
      if down {
        var ok := GracefulShutdown();
        return if ok then Stop else Failed;
      }
      LimitExactly(limits, requestCount, createdAt, lastActivity, now);
      var reason := ExpiredLimit(limits, requestCount, createdAt, lastActivity, now);
      if reason.Some? {
        var ok := CloseSession(reason.value);
        return if ok then Stop else Failed;
      }
      h := Select(at);
    }

    lemma HeadBounds()
      requires Bracketed()
      ensures start + |Flatten(served)| <= |frames|
    {
      hide Flatten, AllOk, AllServable, Deliveries, Answered;
    }

    /** The `select!` of the loop. */
    method Select(at: nat) returns (h: Handled)
      requires AtHead() && requestCount < limits.maxRequests
      modifies this
      ensures Kept() && start == old(start) && createdAt == old(createdAt)
      ensures lastActivity == if consumed > old(consumed) then at else old(lastActivity)
      ensures h.Continue? ==> AtHead() && (consumed > old(consumed) || looks > old(looks))
      ensures consumed >= old(consumed) && looks >= old(looks)
      ensures h.Stop? ==> Over()
      ensures h.Failed? ==> Broke()
      ensures h.Unfinished? ==> state == Active
    {
      hide Bracketed, CutShort, Flatten, Deliveries, NoFarewell, OneFarewell, AllOk, AllServable, Answered, Join, Servable, ReasonCode,
           LimitByte;
      HeadBounds();
      if {
      case consumed < |frames| =>
        var frame := frames[consumed];
        consumed := consumed + 1;
        lastActivity := at;
        var first := ShuttingDown();
        var later := ShuttingDown();
        var now: nat := *;
        h := HandleFrame(frame, first, later, now);
      case consumed == |frames| && fails =>
        var ok := ResetSession(ProtocolError);
        return if ok then Stop else Failed;
      case looks < notices =>
        looks := looks + 1;
        var down := ShuttingDown();
        if down {
          var ok := GracefulShutdown();
          return if ok then Stop else Failed;
        }
        return Continue;
      case true =>
        var ok := CloseSession(IdleTimeout);
        return if ok then Stop else Failed;
      }
    }

    method ServeLoop(steps: nat) returns (r: Run)
      requires AtHead() || (Over() && Kept())
      modifies this
      ensures Kept() && start == old(start)
      ensures old(state) != Idle ==> served == old(served) && partial == old(partial)
      ensures r.ReturnedOk? ==> Over()
      ensures r.ReturnedErr? ==> Broke()
      ensures r.StillGoing? ==> state == Active || consumed + looks >= old(consumed) + old(looks) + steps
    {
      hide Bracketed, CutShort, Flatten, Deliveries, NoFarewell, OneFarewell, AllOk, AllServable, Answered, Join, LimitByte;
      if state == Closed || state == Poisoned {
        return ReturnedOk;
      }
      var left := steps;
      while left > 0
        invariant AtHead() && start == old(start)
        invariant consumed + looks + left >= old(consumed) + old(looks) + steps
      {
        left := left - 1;
        var down := ShuttingDown();
        var now: nat, at: nat := *, *;
        var h := Turn(down, now, at);
        match h {
          case Continue =>
          case Stop =>
            return ReturnedOk;
          case Failed =>
            return ReturnedErr;
          case Unfinished =>
            return StillGoing;
        }
      }
      return StillGoing;
    }

    /** `negotiate_frame`: `frame` is what was read, or None for a read error. */
    method NegotiateFrame(frame: Option<Frame>, now: nat) returns (ok: bool)
      requires state == Handshaking && written == [] && requestCount == 0 && consumed <= |frames|
      requires served == [] && replies == [] && answers == [] && targets == [] && partial.None? && looks <= notices
      modifies this`state, this`start, this`lastActivity, this`written, this`ops
      ensures ok ==> AtHead() || (Over() && Kept())
      ensures ok && AtHead() <==> frame.Some? && frame.value.ClientHello? && frame.value.version == 1
      ensures ok && AtHead() ==> lastActivity == now
      ensures !ok ==> written == [] && Broke()
      ensures ok && frame.Some? && frame.value.ClientHello? && frame.value.version != 1 ==> written == [Close(0x08)]
      ensures ok && !(frame.Some? && frame.value.ClientHello?) ==> written == [Reset(0x07)]
      ensures Kept() && start == consumed
    {
      hide CutShort, Flatten, Deliveries, NoFarewell, OneFarewell, AllOk, AllServable, Answered, Join;
      start := consumed;
      NothingServed(frames, start);
      NothingAnswered();
      if frame.Some? && frame.value.ClientHello? {
        if frame.value.version == PROTOCOL_VERSION {
          state := Idle;
          lastActivity := now;
          return true;
        }
        ok := CloseSession(VersionMismatch);
      } else {
        ok := ResetSession(ProtocolError);
      }
    }

    /** `negotiate`: waits for the first frame, or for a shutdown. */
    method Negotiate() returns (r: Option<bool>)
      requires Fresh()
      modifies this
      ensures Kept()
      ensures r == Some(true) ==> (AtHead() && start == 1) || (Over() && Kept())
      ensures r != Some(true) ==> written == []
      ensures r == Some(false) ==> Broke()
      ensures r.None? ==> frames == [] && !fails && state == Handshaking
      ensures served == [] && partial.None?
      ensures mayGoDown || frames == [] || (r.Some? && start == 1)
    {
      hide CutShort, Flatten, Deliveries, NoFarewell, OneFarewell, AllOk, AllServable, Answered, Join, ReasonCode;
      start := 0;
      NothingServed(frames, start);
      NothingAnswered();
      var now: nat := *;
      if {
      case frames != [] =>
        consumed := 1;
        var ok := NegotiateFrame(Some(frames[0]), now);
        return Some(ok);
      case frames == [] && fails =>
        var ok := NegotiateFrame(None, now);
        return Some(ok);
      case mayGoDown =>
        var ok := CloseSession(ShutdownDrain);
        return Some(ok);
      case frames == [] && !fails =>
        return None;
      }
    }

    /**
     `run_with_stream_and_first_frame`. A run that returns Ok has written exactly one Close or Reset,
     as its last frame, and is Closed or Poisoned; it returns an error only if a write just failed. At
     any point of any run, the requests completed are the first brackets of the client's stream, each a
     Connect to a good address, each target was given its own bracket's Data and the client its answer,
     a request that did not complete gave its own target only a first part of its own Data, and no
     more requests were taken than the limit. A run is unfinished only inside a relay, while waiting for
     the first frame, or after `steps` frames and looks at the watch.
     */
    method RunSession(first: Option<Frame>, steps: nat) returns (r: Run)
      requires Fresh()
      modifies this
      ensures Bracketed() && Told()
      // serving began right after the ClientHello
      ensures served != [] || partial.Some? ==> start == Skip(first)
      // so the k-th delivery is the k-th request of the client's own division of its stream
      ensures InOrder(frames, Skip(first), targets)
      ensures partial.Some? ==> CutShort(frames, start + |Flatten(served)|, consumed, partial.value)
      ensures requestCount <= limits.maxRequests
      ensures r.ReturnedOk? ==> (state == Closed || state == Poisoned) && OneFarewell(written)
      ensures r.ReturnedErr? ==> ops > 0 && fault(ops - 1)
      ensures r.StillGoing? ==>
                state == Active || (first.None? && frames == [] && !fails && written == []) || consumed + looks >= steps
    {
      hide InOrder, CutShort, Flatten, Deliveries, NoFarewell, OneFarewell, AllOk, AllServable, Answered, Join;
      var ok: bool;
      if first.Some? {
        var now: nat := *;
        ok := NegotiateFrame(first, now);
      } else {
        var n := Negotiate();
        if n.None? {
          ServedInOrder(frames, start, served, Skip(first));
          return StillGoing;
        }
        ok := n.value;
      }
      if !ok {
        ServedInOrder(frames, start, served, Skip(first));
        return ReturnedErr;
      }
      r := ServeLoop(steps);
      ServedInOrder(frames, start, served, Skip(first));
    }
  }

  lemma OpenFrame(f: Frame)
    requires Servable(f)
    ensures f.OpenRequest?
  {
  }

  lemma RelayedBounds(frames: seq<Frame>, fails: bool, reply: seq<byte>, env: Env, steps: nat, x: Relayed)
    requires RelaySpec(frames, fails, reply, env, steps, x)
    ensures x.consumed <= |frames| && x.looks <= env.notices && RelayOutput(x.toClient, RELAY_BUF)
    ensures x.toTarget <= DataOf(frames[..x.consumed])
  {
    hide DataOf, RelayOutput, HasEnd, PongTokens, PingTokens, IsTail, IsBody, Justified, NoFaults;
  }

  lemma StillServable(served: seq<Item>, open: Frame, tail: seq<Frame>)
    requires AllServable(served) && Servable(open)
    ensures AllServable(served + [Request(open, tail)])
  {
    hide Servable;
  }

  lemma PingServable(served: seq<Item>, ping: Frame)
    requires AllServable(served)
    ensures AllServable(served + [Between(ping)])
  {
    hide Servable;
  }

  lemma NothingServed(frames: seq<Frame>, start: nat)
    requires start <= |frames|
    ensures AllOk([]) && Flatten([]) == [] && Deliveries([]) == []
    ensures Flatten([]) <= frames[start..]
    ensures NoFarewell([])
  {
  }

  lemma ServedInOrder(frames: seq<Frame>, start: nat, served: seq<Item>, skip: nat)
    requires start <= |frames| && AllOk(served) && Flatten(served) <= frames[start..]
    requires served != [] ==> start == skip
    ensures InOrder(frames, skip, Deliveries(served))
  {
    hide Flatten, Deliveries, AllOk;
    NothingServed(frames, start);
    forall items | AllOk(items) && skip <= |frames| && frames[skip..] <= Flatten(items)
      ensures Deliveries(served) <= Deliveries(items)
    {
      if served != [] {
        BracketingIsUnique(served, items);
      }
    }
  }

  lemma PongIsNoFarewell(written: seq<Frame>, token: u32)
    requires NoFarewell(written)
    ensures NoFarewell(written + [Pong(token)])
  {
  }

  lemma RelayedHasNoFarewell(written: seq<Frame>, more: seq<Frame>)
    requires NoFarewell(written) && RelayOutput(more, RELAY_BUF)
    ensures NoFarewell(written + more)
  {
  }

  lemma CutShortHere(frames: seq<Frame>, consumed: nat, r: Relayed, d: Delivery)
    requires 0 < consumed <= |frames| && Servable(frames[consumed - 1])
    requires var open := frames[consumed - 1]; d.dest == Trojan.FrameAddr(open.atyp, open.addr, open.port)
    requires r.consumed <= |frames[consumed..]|
    requires d.data == r.toTarget <= DataOf(frames[consumed..][..r.consumed])
    ensures CutShort(frames, consumed - 1, consumed + r.consumed, d)
  {
    hide DataOf, Trojan.FrameAddr;
    assert frames[consumed..][..r.consumed] == frames[consumed..consumed + r.consumed];
  }

  /** A completed request is one more item. */
  lemma ServeItem(frames: seq<Frame>, start: nat, served: seq<Item>, open: Frame, tail: seq<Frame>)
    requires start <= |frames| && AllOk(served) && Flatten(served) <= frames[start..]
    requires var at := start + |Flatten(served)|;
             at < |frames| && frames[at] == open && tail <= frames[at + 1..]
    requires open.OpenRequest? && IsTail(tail)
    ensures var more := served + [Request(open, tail)];
            && AllOk(more) && Flatten(more) <= frames[start..]
            && |Flatten(more)| == |Flatten(served)| + 1 + |tail|
            && Deliveries(more) == Deliveries(served) + [DeliveryOf(open, tail)]
  {
    hide Flatten, Deliveries, DeliveryOf;
    ItemsSnoc(served, Request(open, tail));
    var s, n := frames[start..], |Flatten(served)|;
    assert s[n + 1..] == frames[start + n + 1..];
    assert s[..n + 1 + |tail|] == s[..n] + [s[n]] + s[n + 1..][..|tail|];
    assert Flatten(served) + ([open] + tail) == s[..n + 1 + |tail|];
  }

  lemma ServePing(frames: seq<Frame>, start: nat, served: seq<Item>, ping: Frame)
    requires start <= |frames| && AllOk(served) && Flatten(served) <= frames[start..]
    requires var at := start + |Flatten(served)|; at < |frames| && frames[at] == ping
    requires ping.Ping?
    ensures var more := served + [Between(ping)];
            && AllOk(more) && Flatten(more) <= frames[start..]
            && |Flatten(more)| == |Flatten(served)| + 1
            && Deliveries(more) == Deliveries(served)
  {
    hide CutShort, Flatten, Deliveries;
    ItemsSnoc(served, Between(ping));
    var s, n := frames[start..], |Flatten(served)|;
    assert Flatten(served) + [ping] == s[..n + 1];
  }
}
