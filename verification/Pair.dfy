/**
 Two `SnowyStream` objects joined by a channel that carries the bytes one socket has sent to the
 other socket's inbox. Whatever the schedule, what the objects do is a run of `Tunnel`, so all that is
 proved of those runs holds of the objects.
 */
module Pair {
  import opened Basics
  import opened Noise
  import opened SnowyStream
  import opened Tunnel

  /** Two different streams with the same keys. */
  ghost predicate Linked(tx: SnowyStream, rx: SnowyStream) {
    && tx != rx && tx.socket != rx.socket && tx.pendingReadBuffer != rx.pendingReadBuffer
    && tx.cipher == rx.cipher && Sound(tx.cipher)
  }

  /** `s` is the state of the two objects when the channel has carried `moved` bytes. The receiving
      socket sees the end of the stream only after all of it. */
  ghost predicate Matches(tx: SnowyStream, rx: SnowyStream, moved: nat, s: Net)
    reads tx, rx, tx.socket, rx.socket, rx.pendingReadBuffer
  {
    && tx.Valid() && rx.Valid()
    && s.tx == tx.Send() && s.rx == rx.Recv()
    && moved <= |tx.socket.sent|
    && s.wire == rx.socket.inbox + tx.socket.sent[moved..]
    && (rx.socket.peerClosed ==> s.closed && moved == |tx.socket.sent|)
  }

  method Write(tx: SnowyStream, rx: SnowyStream, moved: nat, buf: seq<byte>, ghost s: Net)
    returns (w: WritePoll, ghost a: Act, ghost t: Net)
    requires Linked(tx, rx) && Matches(tx, rx, moved, s) && !s.closed
    modifies tx, tx.socket
    ensures Matches(tx, rx, moved, t) && !t.closed && Tunnel.Next(tx.cipher, s, a, t)
    ensures t.delivered == s.delivered
    ensures t.reported == if w.Accepted? then s.reported + buf[..Min(w.n, |buf|)] else s.reported
    ensures a.Write? && a.w == w
  {
    hide WriteSpec, Records;
    ghost var sent, k, ans;
    ghost var flying := tx.socket.sent[moved..];
    w, sent, k, ans := tx.PollWrite(buf);
    a := Act.Write(buf, w, sent, k, ans);
    assert tx.socket.sent[moved..] == flying + sent;
    assert rx.socket.inbox + (flying + sent) == s.wire + sent;
    t := s.(tx := tx.Send(), wire := s.wire + sent,
            sealed := s.sealed + buf[..Min(k, |buf|)],
            reported := if w.Accepted? then s.reported + buf[..Min(w.n, |buf|)] else s.reported,
            lost := if w.WriteError? then s.lost + k else s.lost);
  }

  method Flush(tx: SnowyStream, rx: SnowyStream, moved: nat, shutdown: bool, ghost s: Net)
    returns (f: FlushPoll, ghost a: Act, ghost t: Net)
    requires Linked(tx, rx) && Matches(tx, rx, moved, s) && !s.closed
    modifies tx, tx.socket
    ensures Matches(tx, rx, moved, t) && !t.closed && Tunnel.Next(tx.cipher, s, a, t)
    ensures t.delivered == s.delivered && t.reported == s.reported && a.Flush?
  {
    hide FlushSpec;
    ghost var sent, ans, g;
    ghost var flying := tx.socket.sent[moved..];
    if shutdown {
      f, g, sent, ans := tx.PollShutdown();
    } else {
      f, sent, ans := tx.PollFlush();
      g := f;
    }
    a := Act.Flush(g, sent, ans);
    assert tx.socket.sent[moved..] == flying + sent;
    assert rx.socket.inbox + (flying + sent) == s.wire + sent;
    t := s.(tx := tx.Send(), wire := s.wire + sent);
  }

  method Read(tx: SnowyStream, rx: SnowyStream, moved: nat, room: nat, ghost s: Net)
    returns (r: ReadPoll, got: seq<byte>, ghost a: Act, ghost t: Net)
    requires Linked(tx, rx) && Matches(tx, rx, moved, s)
    modifies rx, rx.socket, rx.pendingReadBuffer
    ensures rx.socket.peerClosed == old(rx.socket.peerClosed)
    ensures Matches(tx, rx, moved, t) && t.closed == s.closed && Tunnel.Next(tx.cipher, s, a, t)
    ensures t.delivered == s.delivered + got && t.reported == s.reported
    ensures a.Read? && a.r == r
  {
    hide ReadSpec;
    ghost var taken, k, ans;
    ghost var flying := tx.socket.sent[moved..];
    r, got, taken, k, ans := rx.PollRead(room);
    a := Act.Read(room, r, taken, got, k, ans);
    t := s.(rx := rx.Recv(), wire := rx.socket.inbox + flying, delivered := s.delivered + got);
    assert s.wire == taken + t.wire;
    EofIsEnd(tx.cipher, s.rx, room, r, t.rx, taken, got, k, ans, rx.socket.AtEof(), s.closed && t.wire == []);
  }

  /** The end of stream matters only where it is reached. */
  lemma EofIsEnd(c: Cipher, pre: RecvHalf, room: nat, r: ReadPoll, post: RecvHalf, taken: seq<byte>,
                 got: seq<byte>, k: nat, ans: Answers, seen: bool, really: bool)
    requires ReadSpec(c, pre, room, r, post, taken, got, k, seen, ans) && (seen ==> really)
    ensures ReadSpec(c, pre, room, r, post, taken, got, k, really, ans)
  {
    hide Progress, Refused, ReadRecord;
  }

  /** The channel carries `n` more bytes; the streams do not notice. */
  method Carry(tx: SnowyStream, rx: SnowyStream, moved: nat, n: nat, ghost s: Net)
    requires Linked(tx, rx) && Matches(tx, rx, moved, s) && moved + n <= |tx.socket.sent|
    modifies rx.socket`inbox
    ensures Matches(tx, rx, moved + n, s)
  {
    ghost var inbox, flying := rx.socket.inbox, tx.socket.sent[moved..];
    rx.socket.inbox := rx.socket.inbox + tx.socket.sent[moved..moved + n];
    assert flying == tx.socket.sent[moved..moved + n] + tx.socket.sent[moved + n..];
    assert rx.socket.inbox + tx.socket.sent[moved + n..] == inbox + flying;
  }

  /** The receiving socket learns that the sender is gone. */
  method End(tx: SnowyStream, rx: SnowyStream, moved: nat, ghost s: Net)
    requires Linked(tx, rx) && Matches(tx, rx, moved, s) && s.closed && moved == |tx.socket.sent|
    modifies rx.socket`peerClosed
    ensures Matches(tx, rx, moved, s)
  {
    rx.socket.peerClosed := true;
  }

  lemma Begins(tx: SnowyStream, rx: SnowyStream, s: Net)
    requires tx.Valid() && rx.Valid() && tx.socket.sent == [] && rx.socket.inbox == [] && !rx.socket.peerClosed
    requires tx.Send() == SendHalf(true, 0, []) && rx.Recv() == RecvHalf(true, 0, [], [])
    requires s == Net(tx.Send(), [], false, rx.Recv(), [], [], [], 0)
    ensures Matches(tx, rx, 0, s) && Init(s)
  {
  }

  lemma CarriedSome(tx: SnowyStream, rx: SnowyStream, moved: nat, s: Net)
    requires Matches(tx, rx, moved, s)
    ensures moved <= |tx.socket.sent|
  {
  }

  /** The sender may go away at any time. */
  lemma Goes(tx: SnowyStream, rx: SnowyStream, moved: nat, s: Net)
    requires Sound(tx.cipher) && Matches(tx, rx, moved, s)
    ensures Matches(tx, rx, moved, s.(closed := true)) && Tunnel.Next(tx.cipher, s, CloseSocket, s.(closed := true))
  {
  }

  predicate SomeWriteFailed(acts: seq<Act>) {
    exists i :: 0 <= i < |acts| && acts[i].Write? && acts[i].w.WriteError?
  }

  lemma RunBegins(c: Cipher, s: Net)
    requires Sound(c) && Init(s)
    ensures IsRun(c, [s], []) && !SomeWriteFailed([])
  {
  }

  lemma NoFailureNoLoss(c: Cipher, states: seq<Net>, acts: seq<Act>)
    requires Sound(c) && IsRun(c, states, acts) && !SomeWriteFailed(acts)
    ensures states[|acts|].lost == 0
  {
    hide Tunnel.Next, Init;
    LostCounts(c, states, acts, |acts|);
  }

  lemma RunGrows(c: Cipher, states: seq<Net>, acts: seq<Act>, a: Act, t: Net)
    requires Sound(c) && IsRun(c, states, acts) && Tunnel.Next(c, states[|acts|], a, t)
    ensures IsRun(c, states + [t], acts + [a])
    ensures SomeWriteFailed(acts + [a]) <==> SomeWriteFailed(acts) || (a.Write? && a.w.WriteError?)
  {
    assert (acts + [a])[|acts|] == a;
    assert forall i :: 0 <= i < |acts| ==> (acts + [a])[i] == acts[i];
    hide Tunnel.Next, Init;
    forall i | 0 <= i < |acts + [a]|
      ensures Tunnel.Next(c, (states + [t])[i], (acts + [a])[i], (states + [t])[i + 1])
    {
      if i < |acts| {
        assert Tunnel.Next(c, states[i], acts[i], states[i + 1]);
      }
    }
  }

  /**
   Two fresh streams under any schedule of writes, flushes, a shutdown, the sender going away at any
   time, reads into buffers of any size, and a channel that carries any number of bytes at a time.
   */
  method Drive(cipher: Cipher, steps: nat)
    returns (accepted: seq<byte>, delivered: seq<byte>, failed: bool, ghost states: seq<Net>, ghost acts: seq<Act>)
    requires Sound(cipher)
    ensures |states| == |acts| + 1 && IsRun(cipher, states, acts)
    ensures states[|acts|].reported == accepted && states[|acts|].delivered == delivered
    ensures Fifo(cipher, states[|acts|])
    ensures failed <==> SomeWriteFailed(acts)
    ensures !failed ==> delivered <= accepted
  {
    hide Fifo, Tunnel.Next, Matches, Init, IsRun, SomeWriteFailed;
    var zeros: nat, more: nat := *, *;
    var left := new Socket(zeros);
    var right := new Socket(more);
    var tx := new SnowyStream(left, cipher);
    var rx := new SnowyStream(right, cipher);
    accepted, delivered, failed := [], [], false;
    var moved: nat, closed := 0, false;
    states := [Net(tx.Send(), [], false, rx.Recv(), [], [], [], 0)];
    acts := [];
    Begins(tx, rx, states[0]);
    RunBegins(cipher, states[0]);
    var todo := steps;
    while todo > 0
      invariant Linked(tx, rx) && tx.cipher == cipher && tx.socket == left && rx.socket == right
      invariant fresh(tx) && fresh(rx) && fresh(left) && fresh(right) && fresh(rx.pendingReadBuffer)
      invariant |states| == |acts| + 1 && IsRun(cipher, states, acts)
      invariant var s := states[|acts|];
                Matches(tx, rx, moved, s) && s.closed == closed && s.reported == accepted && s.delivered == delivered
      invariant failed <==> SomeWriteFailed(acts)
    {
      todo := todo - 1;
      ghost var s := states[|acts|];
      ghost var a, t := CloseSocket, s;
      if {
      case !closed =>
        var buf: seq<byte> := *;
        var w;
        w, a, t := Write(tx, rx, moved, buf, s);
        if w.Accepted? {
          accepted := accepted + buf[..Min(w.n, |buf|)];
        }
        failed := failed || w.WriteError?;
      case !closed =>
        var shutdown: bool := *;
        var f;
        f, a, t := Flush(tx, rx, moved, shutdown, s);
      case true =>
        var room: nat := *;
        var r, got;
        r, got, a, t := Read(tx, rx, moved, room, s);
        delivered := delivered + got;
      case true =>
        CarriedSome(tx, rx, moved, s);
        var n: nat :| moved + n <= |left.sent|;
        Carry(tx, rx, moved, n, s);
        moved := moved + n;
        continue;
      case !closed =>
        t := s.(closed := true);
        closed := true;
        Goes(tx, rx, moved, s);
      case closed =>
        if moved == |left.sent| {
          End(tx, rx, moved, s);
        }
        continue;
      }
      RunGrows(cipher, states, acts, a, t);
      states, acts := states + [t], acts + [a];
    }
    RunsAreFifo(cipher, states, acts, |acts|);
    DeliveredIsPrefix(cipher, states, acts, |acts|);
    if !failed {
      NoFailureNoLoss(cipher, states, acts);
    }
  }
}
