/**
 One request carried over a reusable session: what lists of frames carry, and the server's relay
 between session frames and the target.

 Frame reads are atomic. `select!` is a nondeterministic choice among its enabled branches, and
 `steps` bounds how far a run is followed: every claim holds for every bound.
 */
module Relay {
  import opened Basics
  import opened Frames

  const RELAY_BUF := 16 * 1024
  const END_REQUEST_OK: byte := 0x00

  // ---------- what a list of frames carries ----------

  /** The payload bytes of the Data frames, in order. */
  function DataOf(fs: seq<Frame>): seq<byte> {
    if fs == [] then []
    else
      var f := fs[|fs| - 1];
      DataOf(fs[..|fs| - 1]) + if f.Data? then f.data else []
  }

  function PingTokens(fs: seq<Frame>): seq<u32> {
    if fs == [] then []
    else
      var f := fs[|fs| - 1];
      PingTokens(fs[..|fs| - 1]) + if f.Ping? then [f.token] else []
  }

  function PongTokens(fs: seq<Frame>): seq<u32> {
    if fs == [] then []
    else
      var f := fs[|fs| - 1];
      PongTokens(fs[..|fs| - 1]) + if f.Pong? then [f.token] else []
  }

  lemma Snoc(fs: seq<Frame>, f: Frame)
    ensures DataOf(fs + [f]) == DataOf(fs) + (if f.Data? then f.data else [])
    ensures PingTokens(fs + [f]) == PingTokens(fs) + (if f.Ping? then [f.token] else [])
    ensures PongTokens(fs + [f]) == PongTokens(fs) + (if f.Pong? then [f.token] else [])
  {
    assert (fs + [f])[..|fs|] == fs;
  }

  /** Frames a client may send while its request is open. */
  predicate IsBody(fs: seq<Frame>) {
    forall i :: 0 <= i < |fs| ==> fs[i].Data? || fs[i].Ping?
  }

  /** A request's frames after its OpenRequest. */
  predicate IsTail(fs: seq<Frame>) {
    fs != [] && fs[|fs| - 1].EndRequest? && IsBody(fs[..|fs| - 1])
  }

  /** Data of at most `max` bytes, Pong and EndRequest(0) frames only; nothing but Pong after the end. */
  predicate RelayOutput(fs: seq<Frame>, max: nat) {
    && (forall i :: 0 <= i < |fs| ==> fs[i].Pong? || fs[i] == EndRequest(0x00) || (fs[i].Data? && |fs[i].data| <= max))
    && (forall i, j :: 0 <= i < j < |fs| && fs[i].EndRequest? ==> fs[j].Pong?)
  }

  predicate HasEnd(fs: seq<Frame>) {
    exists i :: 0 <= i < |fs| && fs[i].EndRequest?
  }

  lemma OutputSnoc(fs: seq<Frame>, max: nat, f: Frame)
    requires RelayOutput(fs, max)
    requires f.Pong? || (!HasEnd(fs) && (f == EndRequest(0x00) || (f.Data? && |f.data| <= max)))
    ensures RelayOutput(fs + [f], max)
    ensures HasEnd(fs + [f]) <==> HasEnd(fs) || f.EndRequest?
  {
    var gs := fs + [f];
    assert gs[|fs|] == f;
    if HasEnd(fs) {
      var i :| 0 <= i < |fs| && fs[i].EndRequest?;
      assert gs[i].EndRequest?;
    }
  }

  // ---------- the server's side ----------

  /** Why a request was given up. */
  datatype Cause =
    | NotConnect | BadAddress | ConnectFailed
    | ClientRead | ClientWrite | TargetRead | TargetWrite
    | Unexpected | DrainTimeout

  datatype Outcome = Finished(tx: nat, rx: nat) | Aborted(cause: Cause) | StillRunning

  /**
   What happens around a relay: whether its n-th read from the target or write to either side fails,
   whether the server is shutting down or may come to, and how often the shutdown watch will change.
   */
  datatype Env = Env(fault: nat -> bool, down: bool, mayGoDown: bool, notices: nat)

  predicate NoFaults(fault: nat -> bool, n: nat) {
    forall i :: 0 <= i < n ==> !fault(i)
  }

  /**
   What a relay did: how many client frames it consumed, the bytes it wrote to the target, how
   many of the target's bytes it passed on, the frames it wrote to the client, and how many reads
   and writes, target reads and looks at the shutdown watch that took.
   */
  datatype Relayed = Relayed(outcome: Outcome, consumed: nat, toTarget: seq<byte>, taken: nat, toClient: seq<Frame>,
                             ops: nat, targetReads: nat, looks: nat)

  predicate Expected(f: Frame) {
    f.Data? || f.Ping? || f.EndRequest?
  }

  /** A relay gives up only on a frame that has no place there, a failed read or write, or the drain
      timer of a server that is shutting down. */
  predicate Justified(cause: Cause, frames: seq<Frame>, fails: bool, env: Env, consumed: nat, ops: nat)
    requires consumed <= |frames|
  {
    match cause
    case Unexpected =>
      consumed > 0 && !Expected(frames[consumed - 1]) && IsBody(frames[..consumed - 1]) && NoFaults(env.fault, ops)
    case ClientRead => fails && consumed == |frames| && IsBody(frames) && NoFaults(env.fault, ops)
    case ClientWrite => ops > 0 && env.fault(ops - 1) && NoFaults(env.fault, ops - 1)
    case TargetRead => ops > 0 && env.fault(ops - 1) && NoFaults(env.fault, ops - 1)
    case TargetWrite => ops > 0 && env.fault(ops - 1) && NoFaults(env.fault, ops - 1)
    case DrainTimeout => (env.down || env.mayGoDown) && NoFaults(env.fault, ops)
    case _ => false
  }

  /**
   However a relay ended, the target was given only a first part of the Data consumed, the client
   only a first part of the response, and Pings were answered in order. It stops early only for
   cause, and is still running only when `steps` turns were taken or there is nothing to do but wait
   for the client.
   A relay that returned Ok consumed exactly through the first EndRequest, gave the target exactly
   the Data before it, sent the client exactly the target's bytes and then one EndRequest, answered
   each Ping in order, and counted both directions right.
   */
  predicate RelaySpec(frames: seq<Frame>, fails: bool, response: seq<byte>, env: Env, steps: nat, r: Relayed) {
    && r.consumed <= |frames|
    && r.taken <= |response|
    && RelayOutput(r.toClient, RELAY_BUF)
    && DataOf(r.toClient) == response[..r.taken]
    && (HasEnd(r.toClient) ==> r.taken == |response|)
    && r.toTarget <= DataOf(frames[..r.consumed])
    && PongTokens(r.toClient) <= PingTokens(frames[..r.consumed])
    && r.targetReads <= r.taken + 1 && r.looks <= env.notices
    && (r.outcome.Aborted? ==> Justified(r.outcome.cause, frames, fails, env, r.consumed, r.ops))
    && (!r.outcome.Aborted? ==> NoFaults(env.fault, r.ops))
    && (r.outcome.StillRunning? ==>
          && (IsBody(frames[..r.consumed]) || IsTail(frames[..r.consumed]))
          && (|| r.consumed + r.targetReads + r.looks == steps
              || (r.consumed == |frames| && !fails && IsBody(frames) && HasEnd(r.toClient) && r.looks == env.notices)))
    && (r.outcome.Finished? ==>
          && IsTail(frames[..r.consumed])
          && r.toTarget == DataOf(frames[..r.consumed])
          && r.taken == |response|
          && HasEnd(r.toClient)
          && PongTokens(r.toClient) == PingTokens(frames[..r.consumed])
          && r.outcome.tx == |r.toTarget| && r.outcome.rx == |response|)
  }

  /** The relay's variables. */
  datatype Going = Going(tx: nat, rx: nat, clientEnded: bool, targetEnded: bool, draining: bool,
                         consumed: nat, toTarget: seq<byte>, taken: nat, toClient: seq<Frame>,
                         ops: nat, targetReads: nat, looks: nat)
  {
    function End(o: Outcome): Relayed {
      Relayed(o, consumed, toTarget, taken, toClient, ops, targetReads, looks)
    }
  }

  /** What holds of them between turns. */
  predicate Underway(frames: seq<Frame>, response: seq<byte>, env: Env, g: Going) {
    && g.consumed <= |frames| && g.taken <= |response|
    && (if g.clientEnded then IsTail(frames[..g.consumed]) else IsBody(frames[..g.consumed]))
    && g.toTarget == DataOf(frames[..g.consumed]) && g.tx == |g.toTarget|
    && DataOf(g.toClient) == response[..g.taken] && g.rx == g.taken
    && PongTokens(g.toClient) == PingTokens(frames[..g.consumed])
    && RelayOutput(g.toClient, RELAY_BUF) && HasEnd(g.toClient) == g.targetEnded
    && (g.targetEnded ==> g.taken == |response|)
    && NoFaults(env.fault, g.ops)
    && g.targetReads <= g.taken + (if g.targetEnded then 1 else 0) && g.looks <= env.notices
    && (g.draining ==> env.down || env.mayGoDown)
  }

  /** The turn of a client frame; `stop` if the relay is given up there. */
  method ClientTurn(frames: seq<Frame>, fails: bool, response: seq<byte>, env: Env, g: Going, ghost steps: nat)
    returns (h: Going, stop: Option<Relayed>)
    requires Underway(frames, response, env, g) && !g.clientEnded && g.consumed < |frames|
    ensures stop.Some? ==> RelaySpec(frames, fails, response, env, steps, stop.value) && stop.value.outcome.Aborted?
    ensures stop.None? ==> Underway(frames, response, env, h)
    ensures h.consumed == g.consumed + 1 && h.targetReads == g.targetReads && h.looks == g.looks
    ensures h.targetEnded == g.targetEnded
  {
    hide DataOf, PingTokens, PongTokens, RelayOutput, HasEnd, NoFaults, Justified;
    var frame := frames[g.consumed];
    assert frames[..g.consumed + 1] == frames[..g.consumed] + [frame];
    Snoc(frames[..g.consumed], frame);
    h, stop := g.(consumed := g.consumed + 1), None;
    GivesUp(frames, fails, env, h.consumed, g.ops);
    FaultNow(env, g.ops);
    match frame {
      case Data(data) =>
        h := h.(tx := g.tx + |data|, ops := g.ops + 1);
        if env.fault(g.ops) {
          assert 0 <= |data|;
          var k: nat :| k <= |data|;
          return h, Some(h.(toTarget := g.toTarget + data[..k]).End(Aborted(TargetWrite)));
        }
        h := h.(toTarget := g.toTarget + data);
      case EndRequest(_) =>
        h := h.(clientEnded := true);
      case Ping(token) =>
        h := h.(ops := g.ops + 1);
        if env.fault(g.ops) {
          return h, Some(h.End(Aborted(ClientWrite)));
        }
        Snoc(g.toClient, Pong(token));
        OutputSnoc(g.toClient, RELAY_BUF, Pong(token));
        h := h.(toClient := g.toClient + [Pong(token)]);
      case _ =>
        return h, Some(h.End(Aborted(Unexpected)));
    }
  }

  /** The turn of a read from the target. */
  method TargetTurn(frames: seq<Frame>, fails: bool, response: seq<byte>, env: Env, g: Going, ghost steps: nat)
    returns (h: Going, stop: Option<Relayed>)
    requires Underway(frames, response, env, g) && !g.targetEnded
    ensures stop.Some? ==> RelaySpec(frames, fails, response, env, steps, stop.value) && stop.value.outcome.Aborted?
    ensures stop.None? ==> Underway(frames, response, env, h) && h.targetReads == g.targetReads + 1
    ensures h.consumed == g.consumed && h.looks == g.looks && h.clientEnded == g.clientEnded
  {
    hide DataOf, PingTokens, PongTokens, RelayOutput, HasEnd, NoFaults, Justified, IsBody, IsTail;
    GivesUp(frames, fails, env, g.consumed, g.ops);
    FaultNow(env, g.ops);
    h, stop := g.(ops := g.ops + 1), None;
    if env.fault(g.ops) {
      return h, Some(h.End(Aborted(TargetRead)));
    }
    var n := ReadSome(|response| - g.taken);
    var frame := if n == 0 then EndRequest(END_REQUEST_OK) else Data(response[g.taken..g.taken + n]);
    GivesUp(frames, fails, env, g.consumed, h.ops);
    FaultNow(env, h.ops);
    h := h.(ops := g.ops + 2);
    if env.fault(g.ops + 1) {
      return h, Some(h.End(Aborted(ClientWrite)));
    }
    Snoc(g.toClient, frame);
    OutputSnoc(g.toClient, RELAY_BUF, frame);
    assert response[..g.taken] + response[g.taken..g.taken + n] == response[..g.taken + n];
    h := h.(toClient := g.toClient + [frame], targetEnded := n == 0, rx := g.rx + n, taken := g.taken + n,
            targetReads := g.targetReads + 1);
  }

  /**
   `relay_framed_tcp`. The client's frames are `frames`, then nothing more, or a read error if
   `fails`. The target answers `response` and closes. As long as a request is not over some
   alternative of the source's `select!` can still happen, which is why its `else` arm is dead.
   */
  method RelayFramedTcp(frames: seq<Frame>, fails: bool, response: seq<byte>, env: Env, steps: nat)
    returns (r: Relayed)
    ensures RelaySpec(frames, fails, response, env, steps, r)
  {
    hide Underway, RelaySpec;
    var g := Going(0, 0, false, false, env.down, 0, [], 0, [], 0, 0, 0);
    SetsOut(frames, response, env);
    var left := steps;
    while left > 0
      invariant Underway(frames, response, env, g)
      invariant !(g.clientEnded && g.targetEnded)
      invariant g.consumed + g.targetReads + g.looks + left == steps
    {
      left := left - 1;
      UnderwayBounds(frames, response, env, g);
      var stop := None;
      if {
      case !g.clientEnded && g.consumed < |frames| =>
        g, stop := ClientTurn(frames, fails, response, env, g, steps);
      case !g.clientEnded && g.consumed == |frames| && fails =>
        EndsOnRead(frames, response, env, steps, g);
        return g.End(Aborted(ClientRead));
      case !g.targetEnded =>
        g, stop := TargetTurn(frames, fails, response, env, g, steps);
      case !g.draining && g.looks < env.notices =>
        var down :| down ==> env.mayGoDown;
        LooksUp(frames, response, env, g, down);
        g := g.(looks := g.looks + 1, draining := down);
      case g.draining =>
        EndsDraining(frames, fails, response, env, steps, g);
        return g.End(Aborted(DrainTimeout));
      case !g.clientEnded && g.consumed == |frames| && !fails && g.targetEnded && g.looks == env.notices =>
        Waits(frames, fails, response, env, steps, g);
        return g.End(StillRunning);
      }
      if stop.Some? {
        return stop.value;
      }
      if g.clientEnded && g.targetEnded {
        Finishes(frames, fails, response, env, steps, g);
        return g.End(Finished(g.tx, g.rx));
      }
    }
    Pauses(frames, fails, response, env, steps, g);
    return g.End(StillRunning);
  }

  lemma SetsOut(frames: seq<Frame>, response: seq<byte>, env: Env)
    ensures Underway(frames, response, env, Going(0, 0, false, false, env.down, 0, [], 0, [], 0, 0, 0))
  {
    NothingYet(RELAY_BUF);
    assert frames[..0] == [] && response[..0] == [];
  }

  lemma UnderwayBounds(frames: seq<Frame>, response: seq<byte>, env: Env, g: Going)
    requires Underway(frames, response, env, g)
    ensures g.consumed <= |frames| && g.looks <= env.notices
  {
  }

  lemma LooksUp(frames: seq<Frame>, response: seq<byte>, env: Env, g: Going, down: bool)
    requires Underway(frames, response, env, g) && g.looks < env.notices && (down ==> env.mayGoDown)
    ensures Underway(frames, response, env, g.(looks := g.looks + 1, draining := down))
  {
  }

  lemma EndsOnRead(frames: seq<Frame>, response: seq<byte>, env: Env, steps: nat, g: Going)
    requires Underway(frames, response, env, g) && !g.clientEnded && g.consumed == |frames|
    ensures RelaySpec(frames, true, response, env, steps, g.End(Aborted(ClientRead)))
  {
    assert frames[..|frames|] == frames;
  }

  lemma EndsDraining(frames: seq<Frame>, fails: bool, response: seq<byte>, env: Env, steps: nat, g: Going)
    requires Underway(frames, response, env, g) && g.draining
    ensures RelaySpec(frames, fails, response, env, steps, g.End(Aborted(DrainTimeout)))
  {
  }

  lemma Waits(frames: seq<Frame>, fails: bool, response: seq<byte>, env: Env, steps: nat, g: Going)
    requires Underway(frames, response, env, g) && !g.clientEnded && g.consumed == |frames| && !fails
    requires g.targetEnded && g.looks == env.notices
    ensures RelaySpec(frames, fails, response, env, steps, g.End(StillRunning))
  {
    assert frames[..|frames|] == frames;
  }

  lemma Pauses(frames: seq<Frame>, fails: bool, response: seq<byte>, env: Env, steps: nat, g: Going)
    requires Underway(frames, response, env, g) && g.consumed + g.targetReads + g.looks == steps
    ensures RelaySpec(frames, fails, response, env, steps, g.End(StillRunning))
  {
  }

  lemma Finishes(frames: seq<Frame>, fails: bool, response: seq<byte>, env: Env, steps: nat, g: Going)
    requires Underway(frames, response, env, g) && g.clientEnded && g.targetEnded
    ensures RelaySpec(frames, fails, response, env, steps, g.End(Finished(g.tx, g.rx)))
  {
    assert response[..|response|] == response;
  }

  /** A read from a peer with `avail` bytes still to come: zero only at the end of its stream. */
  method ReadSome(avail: nat) returns (n: nat)
    ensures n <= avail && n <= RELAY_BUF && (n == 0 <==> avail == 0)
  {
    if avail == 0 {
      return 0;
    }
    n :| 0 < n <= avail && n <= RELAY_BUF;
  }

  lemma NothingYet(max: nat)
    ensures DataOf([]) == [] && PingTokens([]) == [] && PongTokens([]) == []
    ensures RelayOutput([], max) && !HasEnd([])
  {
  }

  lemma FaultNow(env: Env, ops: nat)
    requires NoFaults(env.fault, ops)
    ensures !env.fault(ops) ==> NoFaults(env.fault, ops + 1)
  {
  }

  /** The ways to give up at operation `ops`. */
  lemma GivesUp(frames: seq<Frame>, fails: bool, env: Env, consumed: nat, ops: nat)
    requires consumed <= |frames| && NoFaults(env.fault, ops)
    ensures env.fault(ops) ==>
              && Justified(TargetWrite, frames, fails, env, consumed, ops + 1)
              && Justified(ClientWrite, frames, fails, env, consumed, ops + 1)
              && Justified(TargetRead, frames, fails, env, consumed, ops + 1)
    ensures consumed > 0 && !Expected(frames[consumed - 1]) && IsBody(frames[..consumed - 1]) ==>
              Justified(Unexpected, frames, fails, env, consumed, ops)
    ensures env.down || env.mayGoDown ==> Justified(DrainTimeout, frames, fails, env, consumed, ops)
  {
  }

  // ---------- it gets there ----------

  /** The first EndRequest is at `k - 1`: what comes before a relay stops is no other than that request. */
  lemma StopsInside(frames: seq<Frame>, k: nat, n: nat)
    requires 0 < k <= |frames| && IsTail(frames[..k])
    ensures n < |frames| && IsBody(frames[..n]) ==> n < k && Expected(frames[n])
    ensures !IsBody(frames)
  {
    assert frames[..k][k - 1] == frames[k - 1] && frames[k - 1].EndRequest?;
    assert forall i :: 0 <= i < k - 1 ==> frames[..k][..k - 1][i] == frames[i];
    if n < |frames| && n >= k {
      assert frames[..n][k - 1] == frames[k - 1];
    }
  }

  /**
   A whole request, no failing read or write and no shutdown: given enough turns the relay finishes,
   whatever the schedule.
   */
  lemma RelayFinishes(frames: seq<Frame>, fails: bool, response: seq<byte>, env: Env, steps: nat, r: Relayed, k: nat)
    requires RelaySpec(frames, fails, response, env, steps, r)
    requires 0 < k <= |frames| && IsTail(frames[..k])
    requires (forall n: nat :: !env.fault(n)) && !env.down && !env.mayGoDown
    requires steps > |frames| + |response| + 1 + env.notices
    ensures r.outcome.Finished? && r.consumed == k
  {
    hide DataOf, PingTokens, PongTokens, RelayOutput, HasEnd, NoFaults, IsTail, IsBody;
    StopsInside(frames, k, if r.consumed == 0 then 0 else r.consumed - 1);
    assert r.outcome.Finished?;
    SameEnd(frames, k, r.consumed);
  }

  lemma SameEnd(frames: seq<Frame>, k: nat, m: nat)
    requires k <= |frames| && m <= |frames| && IsTail(frames[..k]) && IsTail(frames[..m])
    ensures k == m
  {
    assert frames[..k][k - 1] == frames[k - 1] && frames[..m][m - 1] == frames[m - 1];
    assert forall i :: 0 <= i < m - 1 ==> frames[..m][..m - 1][i] == frames[i];
    assert forall i :: 0 <= i < k - 1 ==> frames[..k][..k - 1][i] == frames[i];
  }
}
