/**
 `SnowyStream`: a poll-driven byte pipe over a socket. Writing cuts plaintext into sealed
 records; reading reassembles, parses and opens them. The socket may take or give any number
 of bytes, or none, at each call.
 */
module SnowyStream {
  import opened Basics
  import opened Noise

  // ---------- what one poll does, on values ----------

  /** The sending side between polls: `out` is the sealed bytes the socket has not taken yet. */
  datatype SendHalf = SendHalf(open: bool, nonce: nat, out: seq<byte>)

  /** The receiving side between polls: `pending` is raw socket bytes, `unread` is plaintext. */
  datatype RecvHalf = RecvHalf(open: bool, nonce: nat, pending: seq<byte>, unread: seq<byte>)

  datatype WritePoll = WritePending | Accepted(n: nat) | WriteError(zero: bool)

  datatype FlushPoll = FlushPending | Flushed | FlushError

  datatype ReadErrorKind =
    | InvalidFrame
    | Undecryptable
    | HalfFrame
    | SocketFailed(fatal: bool)

  datatype ReadPoll = ReadPending | ReadReady | ReadError(kind: ReadErrorKind)

  /** What the socket answered during one poll: that it has nothing now, or that it failed. */
  datatype Answers = Answers(blocked: bool, broke: bool)

  const SMOOTH := Answers(false, false)

  /** Some way through a `poll_write`: exactly `buf[..k]` has been sealed, cut only on chunk
      boundaries, sealed bytes leave in order, and the first of `buf` is not sealed before
      everything buffered earlier has left. */
  ghost predicate Sealing(c: Cipher, pre: SendHalf, cur: SendHalf, buf: seq<byte>, sent: seq<byte>, k: nat)
    requires Sound(c)
  {
    && k <= |buf|
    && (k == |buf| || k % MAX_PLAINTEXT == 0)
    && pre.out + Records(c, pre.nonce, buf[..k]) == sent + cur.out
    && cur.nonce == pre.nonce + Chunks(k)
    && (k > 0 ==> pre.out <= sent)
  }

  /**
   One `poll_write(buf)` that handed `sent` to the socket and sealed exactly `buf[..k]`. Pending
   means nothing of `buf` was sealed, and Accepted(n) that exactly n bytes were. Stopping short of
   handing everything over is always the socket's doing.
   */
  ghost predicate WriteSpec(c: Cipher, pre: SendHalf, buf: seq<byte>, r: WritePoll,
                            post: SendHalf, sent: seq<byte>, k: nat, ans: Answers)
    requires Sound(c)
  {
    if !pre.open then r == Accepted(0) && post == pre && sent == [] && k == 0 && ans == SMOOTH
    else
      && Sealing(c, pre, post, buf, sent, k)
      && ans.blocked == (r.WritePending? || (r.Accepted? && post.out != []))
      && ans.broke == (r == WriteError(false))
      && match r
         case WritePending => k == 0 && post.open && post.out != []
         case Accepted(n) => n == k <= |buf| && post.open && (k < |buf| ==> k > 0 && post.out != [])
         case WriteError(zero) => post.open == !zero && post.out != []
  }

  /** One `poll_flush` (or the flushing part of `poll_shutdown`): nothing new is sealed. */
  predicate FlushSpec(pre: SendHalf, r: FlushPoll, post: SendHalf, sent: seq<byte>, ans: Answers) {
    && pre.out == sent + post.out
    && post.nonce == pre.nonce
    && (r.Flushed? <==> post.out == [])
    && ans == Answers(r.FlushPending?, r.FlushError?)
  }

  /** Some way through a `poll_read`: every plaintext byte the stream held or opened is either in
      `got` or still unread, in order. */
  predicate Progress(c: Cipher, pre: RecvHalf, cur: RecvHalf, taken: seq<byte>, got: seq<byte>, k: nat) {
    var d := Drain(c, pre.nonce, pre.pending + taken, k);
    && d.ok
    && cur.nonce == d.nonce
    && cur.pending == d.rest
    && pre.unread + d.plain == got + cur.unread
  }

  /** A `poll_read` that met a record the cipher refuses: everything before it was handed over. */
  predicate Refused(c: Cipher, pre: RecvHalf, nonce: nat, taken: seq<byte>, got: seq<byte>, k: nat) {
    var d := Drain(c, pre.nonce, pre.pending + taken, k);
    && d.ok
    && nonce == d.nonce
    && got == pre.unread + d.plain
    && DoesNotOpen(c, d.nonce, d.rest)
  }

  /**
   One `poll_read` into a buffer with `room` free bytes that took `taken` off the socket, opened
   `k` records and put `got` into the buffer. It goes on until the buffer is full or no whole record
   is left, and waits or fails only because the socket did.
   */
  predicate ReadSpec(c: Cipher, pre: RecvHalf, room: nat, r: ReadPoll, post: RecvHalf,
                     taken: seq<byte>, got: seq<byte>, k: nat, atEof: bool, ans: Answers)
  {
    if !pre.open then r == ReadReady && post == pre && taken == [] && got == [] && k == 0 && ans == SMOOTH
    else
      && |got| <= room
      && ans == Answers(r.ReadPending?, r.ReadError? && r.kind.SocketFailed?)
      && (if r == ReadError(Undecryptable)
          then Refused(c, pre, post.nonce, taken, got, k)
          else Progress(c, pre, post, taken, got, k))
      && match r
         case ReadPending =>
           post.open && got == [] && post.unread == [] && Incomplete(ReadRecord(post.pending))
         case ReadReady =>
           && post.open
           && (post.unread != [] ==> |got| == room)
           && (post.unread == [] ==> Incomplete(ReadRecord(post.pending)))
           && (got == [] && room > 0 ==> atEof && post.unread == [] && post.pending == [])
         case ReadError(InvalidFrame) =>
           !post.open && post.unread == [] && BadFrame(ReadRecord(post.pending))
         case ReadError(Undecryptable) =>
           post.open && |post.unread| == MAX_PLAINTEXT // of whatever memory held
         case ReadError(HalfFrame) =>
           && post.open && got == [] && post.unread == [] && post.pending != []
           && Incomplete(ReadRecord(post.pending)) && atEof
         case ReadError(SocketFailed(fatal)) =>
           post.open == !fatal && got == [] && post.unread == []
  }

  predicate BadFrame(r: Result<Record, RecordError>) {
    r.Err? && !Incomplete(r)
  }

  /** The next record is complete but is not a message the cipher accepts. */
  predicate DoesNotOpen(c: Cipher, n: nat, b: seq<byte>) {
    var r := ReadRecord(b);
    r.Ok? && r.value.payload != [] && Open(c, n, r.value.payload).None?
  }

  // ---------- the socket ----------

  datatype SocketRead = Pending | Got(n: nat) | Failed(fatal: bool)

  datatype SocketWrite = Blocked | Took(n: nat) | Broken

  /** How pushing out the write buffer ended. */
  datatype Pushed = Drained | Stalled | TookNothing | Failing

  datatype Tally = Tally(blocked: nat, broke: nat) {
    function Add(ans: Answers): Tally {
      Tally(blocked + if ans.blocked then 1 else 0, broke + if ans.broke then 1 else 0)
    }
  }

  /** A connected TCP socket: `inbox` is what the peer has sent and nobody has read. */
  class Socket {
    var inbox: seq<byte>
    var peerClosed: bool
    var sent: seq<byte>
    var writeClosed: bool
    /** How many more times a write will report success after taking no bytes. */
    var zeros: nat
    /** How often reading and writing has blocked and failed so far. */
    ghost var readTally: Tally
    ghost var writeTally: Tally

    constructor (zeros: nat)
      ensures inbox == [] && sent == [] && !peerClosed && !writeClosed && this.zeros == zeros
    {
      inbox, sent, peerClosed, writeClosed := [], [], false, false;
      this.zeros := zeros;
      readTally, writeTally := Tally(0, 0), Tally(0, 0);
    }

    ghost predicate AtEof()
      reads this
    {
      peerClosed && inbox == []
    }

    /** Zero bytes mean end of stream or no room, as the trait promises. */
    method PollRead(buf: array<byte>, from: nat) returns (r: SocketRead)
      requires from <= buf.Length
      modifies this`inbox, this`readTally, buf
      ensures readTally == old(readTally).Add(Answers(r.Pending?, r.Failed?))
      ensures !r.Got? ==> inbox == old(inbox) && buf[..] == old(buf[..])
      ensures r.Got? ==>
                && r.n <= |old(inbox)| && r.n <= buf.Length - from
                && inbox == old(inbox)[r.n..]
                && buf[..from] == old(buf[..from])
                && buf[from..from + r.n] == old(inbox)[..r.n]
                && (r.n == 0 ==> from == buf.Length || old(AtEof()))
    {
      if * {
        readTally := readTally.Add(Answers(true, false));
        return Pending;
      } else if * {
        var fatal: bool := *;
        readTally := readTally.Add(Answers(false, true));
        return Failed(fatal);
      }
      var most := Min(|inbox|, buf.Length - from);
      if most > 0 {
        var n: nat :| 0 < n <= most;
        forall i | 0 <= i < n {
          buf[from + i] := inbox[i];
        }
        inbox := inbox[n..];
        return Got(n);
      } else if from == buf.Length || peerClosed {
        return Got(0);
      }
      readTally := readTally.Add(Answers(true, false));
      return Pending;
    }

    method PollWrite(data: seq<byte>) returns (r: SocketWrite)
      modifies this`sent, this`zeros, this`writeTally
      ensures zeros <= old(zeros)
      ensures writeTally == old(writeTally).Add(Answers(r.Blocked?, r.Broken?))
      ensures !r.Took? ==> sent == old(sent)
      ensures r.Took? ==> r.n <= |data| && sent == old(sent) + data[..r.n]
      ensures r.Took? && r.n == 0 && data != [] ==> zeros < old(zeros)
    {
      if * {
        writeTally := writeTally.Add(Answers(true, false));
        return Blocked;
      } else if * {
        writeTally := writeTally.Add(Answers(false, true));
        return Broken;
      }
      assert |data| <= |data|;
      var n: nat :| n <= |data| && (n == 0 && data != [] ==> zeros > 0);
      if n == 0 && data != [] {
        zeros := zeros - 1;
      }
      sent := sent + data[..n];
      return Took(n);
    }

    method PollShutdown() returns (r: FlushPoll)
      modifies this`writeClosed
      ensures writeClosed == (old(writeClosed) || r.Flushed?)
    {
      if * {
        return FlushPending;
      } else if * {
        return FlushError;
      }
      writeClosed := true;
      return Flushed;
    }
  }

  // ---------- the stream ----------

  datatype SnowyState = Stream | ReadShutdown | WriteShutdown | FullyShutdown {
    function ShutdownRead(): SnowyState {
      if WriteShutdown? || FullyShutdown? then FullyShutdown else ReadShutdown
    }

    function ShutdownWrite(): SnowyState {
      if ReadShutdown? || FullyShutdown? then FullyShutdown else WriteShutdown
    }

    predicate Writeable() {
      !WriteShutdown? && !FullyShutdown?
    }

    predicate Readable() {
      !ReadShutdown? && !FullyShutdown?
    }
  }

  datatype Stop = Full | Empty | Misframed | Unopened

  datatype Popped = Opened | Skipped | NoRecord | Malformed | Forged

  class SnowyStream {
    const cipher: Cipher
    const socket: Socket
    var state: SnowyState
    var sendNonce: nat
    var recvNonce: nat
    const pendingReadBuffer: array<byte>
    var pendingReadFilled: nat
    var readBuffer: seq<byte>
    var readOffset: nat
    var writeBuffer: seq<byte>
    var writeOffset: nat

    ghost predicate Valid()
      reads this
    {
      && pendingReadBuffer.Length == MAX_WIRE_SIZE
      && pendingReadFilled <= MAX_WIRE_SIZE
      && (readOffset < |readBuffer| || (readOffset == 0 && readBuffer == []))
      && writeOffset <= |writeBuffer| <= HEADER_LEN + MAX_CIPHERTEXT
    }

    ghost function Send(): SendHalf
      requires Valid()
      reads this
    {
      SendHalf(state.Writeable(), sendNonce, writeBuffer[writeOffset..])
    }

    ghost function Recv(): RecvHalf
      requires Valid()
      reads this, pendingReadBuffer
    {
      RecvHalf(state.Readable(), recvNonce, pendingReadBuffer[..pendingReadFilled], readBuffer[readOffset..])
    }

    constructor (socket: Socket, cipher: Cipher)
      ensures Valid() && fresh(pendingReadBuffer)
      ensures this.socket == socket && this.cipher == cipher
      ensures Send() == SendHalf(true, 0, []) && Recv() == RecvHalf(true, 0, [], [])
    {
      this.socket, this.cipher := socket, cipher;
      state := Stream;
      sendNonce, recvNonce := 0, 0;
      pendingReadBuffer := new byte[MAX_WIRE_SIZE];
      pendingReadFilled := 0;
      readBuffer, readOffset := [], 0;
      writeBuffer, writeOffset := [], 0;
    }

    /** One socket write of what is left in the write buffer. */
    method PushOnce() returns (w: SocketWrite, ghost step: seq<byte>)
      requires Valid() && writeOffset < |writeBuffer|
      modifies this`writeOffset, socket`sent, socket`zeros, socket`writeTally
      ensures Valid()
      ensures socket.sent == old(socket.sent) + step
      ensures old(Send().out) == step + Send().out
      ensures writeOffset == old(writeOffset) + |step|
      ensures w.Took? ==> w.n == |step| && (step == [] ==> socket.zeros < old(socket.zeros))
      ensures socket.zeros <= old(socket.zeros)
      ensures !w.Took? ==> step == []
      ensures socket.writeTally == old(socket.writeTally).Add(Answers(w.Blocked?, w.Broken?))
    {
      ghost var before := Send().out;
      w := socket.PollWrite(writeBuffer[writeOffset..]);
      step := [];
      if w.Took? {
        step := before[..w.n];
        writeOffset := writeOffset + w.n;
        assert writeBuffer[writeOffset..] == before[w.n..];
      }
    }

    /** Hand the sealed bytes to the socket until they are gone or the socket stops. */
    method PushOut() returns (r: Pushed, ghost sent: seq<byte>)
      requires Valid()
      modifies this`writeOffset, socket`sent, socket`zeros, socket`writeTally
      ensures Valid()
      ensures socket.sent == old(socket.sent) + sent
      ensures old(Send().out) == sent + Send().out
      ensures r.Drained? <==> Send().out == []
      ensures socket.writeTally == old(socket.writeTally).Add(Answers(r.Stalled?, r.Failing?))
      ensures socket.zeros <= old(socket.zeros) && (r.TookNothing? ==> socket.zeros < old(socket.zeros))
    {
      sent := [];
      while writeOffset < |writeBuffer|
        invariant Valid()
        invariant socket.sent == old(socket.sent) + sent
        invariant old(Send().out) == sent + Send().out
        invariant socket.writeTally == old(socket.writeTally) && socket.zeros <= old(socket.zeros)
      {
        var w; ghost var step;
        w, step := PushOnce();
        Regroup(sent, step, Send().out);
        Regroup(old(socket.sent), sent, step);
        sent := sent + step;
        match w {
          case Took(n) =>
            if n == 0 {
              return TookNothing, sent;
            }
          case Broken =>
            return Failing, sent;
          case Blocked =>
            return Stalled, sent;
        }
      }
      return Drained, sent;
    }

    method PollWrite(buf: seq<byte>)
      returns (r: WritePoll, ghost sent: seq<byte>, ghost k: nat, ghost ans: Answers)
      requires Valid() && Sound(cipher)
      modifies this`state, this`sendNonce, this`writeBuffer, this`writeOffset, socket`sent, socket`zeros, socket`writeTally
      ensures Valid()
      ensures state.Readable() == old(state.Readable())
      ensures socket.sent == old(socket.sent) + sent
      ensures WriteSpec(cipher, old(Send()), buf, r, Send(), sent, k, ans)
      ensures socket.writeTally == old(socket.writeTally).Add(ans)
      ensures r == WriteError(true) ==> socket.zeros < old(socket.zeros)
    {
      hide Sealing, SealRecord;
      sent, k, ans := [], 0, SMOOTH;
      if !state.Writeable() {
        return Accepted(0), sent, k, ans;
      }
      ghost var pre := Send();
      var offset := 0;
      SealingStart(cipher, pre, buf);
      while true
        invariant Valid() && state == old(state)
        invariant offset <= |buf|
        invariant socket.sent == old(socket.sent) + sent
        invariant socket.writeTally == old(socket.writeTally) && socket.zeros <= old(socket.zeros)
        invariant Sealing(cipher, pre, Send(), buf, sent, offset)
        decreases |buf| - offset
      {
        k := offset;
        ghost var cur := Send();
        var w; ghost var step;
        w, step := PushOut();
        SealingPush(cipher, pre, cur, buf, sent, k, step, Send());
        Regroup(old(socket.sent), sent, step);
        sent := sent + step;
        ans := Answers(w.Stalled?, w.Failing?);
        match w {
          case Stalled =>
            return if offset == 0 then WritePending else Accepted(offset), sent, k, ans;
          case Failing =>
            return WriteError(false), sent, k, ans;
          case TookNothing =>
            state := state.ShutdownWrite();
            SealingIgnoresOpen(cipher, pre, buf, sent, k, Send());
            return WriteError(true), sent, k, ans;
          case Drained =>
        }
        writeOffset, writeBuffer := 0, [];
        if offset == |buf| {
          return Accepted(offset), sent, k, ans;
        }
        var len := Min(|buf| - offset, MAX_PLAINTEXT);
        cur := Send();
        SealNext(buf, offset, len);
        SealingMore(cipher, pre, cur, buf, sent, offset, len);
        offset := offset + len;
      }
    }

    method PollFlush() returns (r: FlushPoll, ghost sent: seq<byte>, ghost ans: Answers)
      requires Valid()
      modifies this`writeBuffer, this`writeOffset, socket`sent, socket`zeros, socket`writeTally
      ensures Valid()
      ensures socket.sent == old(socket.sent) + sent
      ensures socket.writeTally == old(socket.writeTally).Add(ans)
      ensures FlushSpec(old(Send()), r, Send(), sent, ans) && Send().open == old(Send().open)
    {
      sent, ans := [], SMOOTH;
      while writeOffset < |writeBuffer|
        invariant Valid() && writeBuffer == old(writeBuffer)
        invariant socket.sent == old(socket.sent) + sent && socket.writeTally == old(socket.writeTally)
        invariant old(Send().out) == sent + Send().out
        decreases |writeBuffer| - writeOffset, socket.zeros
      {
        var w; ghost var step;
        w, step := PushOnce();
        Regroup(sent, step, Send().out);
        Regroup(old(socket.sent), sent, step);
        sent := sent + step;
        match w {
          case Took(_) =>
          case Broken =>
            return FlushError, sent, Answers(false, true);
          case Blocked =>
            return FlushPending, sent, Answers(true, false);
        }
      }
      writeOffset, writeBuffer := 0, [];
      return Flushed, sent, SMOOTH;
    }

    /** The socket is shut down only once every sealed byte is on it; until then this is a flush. */
    method PollShutdown() returns (r: FlushPoll, ghost f: FlushPoll, ghost sent: seq<byte>, ghost ans: Answers)
      requires Valid()
      modifies this`state, this`writeBuffer, this`writeOffset
      modifies socket`sent, socket`zeros, socket`writeTally, socket`writeClosed
      ensures Valid() && !Send().open && state.Readable() == old(state.Readable())
      ensures socket.sent == old(socket.sent) + sent
      ensures socket.writeTally == old(socket.writeTally).Add(ans)
      ensures FlushSpec(old(Send()), f, Send(), sent, ans)
      ensures !f.Flushed? ==> r == f && socket.writeClosed == old(socket.writeClosed)
      ensures f.Flushed? ==> socket.writeClosed == (old(socket.writeClosed) || r.Flushed?)
    {
      if state.Writeable() {
        state := state.ShutdownWrite();
      }
      r, sent, ans := PollFlush();
      f := r;
      if r.Flushed? {
        r := socket.PollShutdown();
      }
    }

    /** Parse one record off `pendingReadBuffer` and open it into `readBuffer`. */
    method PopRecord() returns (r: Popped)
      requires Valid() && readBuffer == [] && readOffset == 0
      modifies this`state, this`recvNonce, this`readBuffer, this`pendingReadFilled, pendingReadBuffer
      ensures Valid() && state.Writeable() == old(state.Writeable())
      ensures match r
              case Opened => PopsTo(cipher, old(Recv()), Recv()) && state == old(state)
              case Skipped => PopsTo(cipher, old(Recv()), Recv()) && state == old(state)
              case NoRecord => Recv() == old(Recv()) && Incomplete(ReadRecord(Recv().pending)) && state == old(state)
              case Malformed => Recv() == old(Recv()).(open := false) && BadFrame(ReadRecord(Recv().pending))
              case Forged =>
                && state == old(state) && recvNonce == old(recvNonce) && |Recv().unread| == MAX_PLAINTEXT
                && DoesNotOpen(cipher, recvNonce, old(Recv().pending))
      ensures r.Opened? || r.Skipped? ==> pendingReadFilled < old(pendingReadFilled)
    {
      hide ReadRecord;
      ghost var before := Recv().pending;
      var rec := ReadRecord(pendingReadBuffer[..pendingReadFilled]);
      if Incomplete(rec) {
        return NoRecord;
      } else if rec.Err? {
        state := state.ShutdownRead();
        return Malformed;
      }
      var n := rec.value.used;
      DropFront(n);
      if rec.value.payload == [] {
        return Skipped;
      }
      var p := Open(cipher, recvNonce, rec.value.payload);
      if p.None? {
        // the buffer was already grown to its full, uninitialised length
        assert |seq<byte>(MAX_PLAINTEXT, _ => 0)| == MAX_PLAINTEXT;
        var junk: seq<byte> :| |junk| == MAX_PLAINTEXT;
        readBuffer := junk;
        return Forged;
      }
      recvNonce := recvNonce + 1;
      readBuffer := p.value;
      return Opened;
    }

    /** `copy_within(n..filled, 0)`. */
    method DropFront(n: nat)
      requires Valid() && n <= pendingReadFilled
      modifies this`pendingReadFilled, pendingReadBuffer
      ensures Valid() && pendingReadFilled == old(pendingReadFilled) - n
      ensures pendingReadBuffer[..pendingReadFilled] == old(pendingReadBuffer[n..pendingReadFilled])
    {
      forall i | 0 <= i < pendingReadFilled - n {
        pendingReadBuffer[i] := pendingReadBuffer[i + n];
      }
      pendingReadFilled := pendingReadFilled - n;
    }

    /** The `'read_ready` loop: hand over plaintext and open buffered records until the caller's
        buffer is full or no complete record is left. */
    method DrainBuffered(room: nat, ghost pre: RecvHalf, ghost taken: seq<byte>, ghost before: nat)
      returns (stop: Stop, got: seq<byte>, ghost k: nat)
      requires Valid() && Progress(cipher, pre, Recv(), taken, [], before)
      modifies this`state, this`recvNonce, this`readBuffer, this`readOffset, this`pendingReadFilled, pendingReadBuffer
      ensures Valid() && state.Writeable() == old(state.Writeable())
      ensures |got| <= room
      ensures stop.Unopened? || Progress(cipher, pre, Recv(), taken, got, k)
      ensures state.Readable() == (old(state.Readable()) && !stop.Misframed?)
      ensures match stop
              case Full => Recv().unread != [] && |got| == room
              case Empty => Recv().unread == [] && Incomplete(ReadRecord(Recv().pending))
              case Misframed => Recv().unread == [] && BadFrame(ReadRecord(Recv().pending))
              case Unopened =>
                Refused(cipher, pre, recvNonce, taken, got, k) && |Recv().unread| == MAX_PLAINTEXT
    {
      hide ReadRecord, Progress, Refused;
      got, k := [], before;
      while true
        invariant Valid() && state == old(state)
        invariant |got| <= room
        invariant Progress(cipher, pre, Recv(), taken, got, k)
        decreases pendingReadFilled
      {
        if readOffset < |readBuffer| {
          var len := Min(|readBuffer| - readOffset, room - |got|);
          ghost var cur := Recv();
          ProgressServe(cipher, pre, cur, taken, got, k, len);
          assert readBuffer[readOffset..readOffset + len] == cur.unread[..len];
          got := got + readBuffer[readOffset..readOffset + len];
          readOffset := readOffset + len;
          assert readBuffer[readOffset..] == cur.unread[len..];
          if readOffset < |readBuffer| {
            assert Recv() == cur.(unread := cur.unread[len..]);
            return Full, got, k;
          }
          readOffset, readBuffer := 0, [];
          assert Recv() == cur.(unread := cur.unread[len..]);
        }
        ghost var cur := Recv();
        var popped := PopRecord();
        match popped {
          case Opened =>
            ProgressPop(cipher, pre, cur, taken, got, k, Recv());
            k := k + 1;
          case Skipped =>
            ProgressPop(cipher, pre, cur, taken, got, k, Recv());
            k := k + 1;
          case NoRecord =>
            return Empty, got, k;
          case Malformed =>
            ProgressIgnoresOpen(cipher, pre, cur, taken, got, k, Recv());
            return Misframed, got, k;
          case Forged =>
            ProgressRefused(cipher, pre, cur, taken, got, k);
            return Unopened, got, k;
        }
      }
    }

    method PollRead(room: nat)
      returns (r: ReadPoll, got: seq<byte>, ghost taken: seq<byte>, ghost k: nat, ghost ans: Answers)
      requires Valid()
      modifies this`state, this`recvNonce, this`readBuffer, this`readOffset,
               this`pendingReadFilled, pendingReadBuffer, socket`inbox, socket`readTally
      ensures Valid() && state.Writeable() == old(state.Writeable())
      ensures old(socket.inbox) == taken + socket.inbox
      ensures ReadSpec(cipher, old(Recv()), room, r, Recv(), taken, got, k, socket.AtEof(), ans)
      ensures socket.readTally == old(socket.readTally).Add(ans)
    {
      hide ReadRecord, Progress, Refused, Incomplete, BadFrame, DoesNotOpen;
      got, taken, k, ans := [], [], 0, SMOOTH;
      if !state.Readable() {
        return ReadReady, got, taken, k, ans;
      }
      ghost var pre := Recv();
      ProgressStart(cipher, pre);
      while true
        invariant Valid() && state.Readable() && state.Writeable() == old(state.Writeable())
        invariant old(socket.inbox) == taken + socket.inbox
        invariant got == []
        invariant ans == SMOOTH && socket.readTally == old(socket.readTally)
        invariant Progress(cipher, pre, Recv(), taken, got, k)
        decreases |socket.inbox|
      {
        var stop;
        stop, got, k := DrainBuffered(room, pre, taken, k);
        match stop {
          case Misframed =>
            return ReadError(InvalidFrame), got, taken, k, ans;
          case Unopened =>
            return ReadError(Undecryptable), got, taken, k, ans;
          case Full =>
            break;
          case Empty =>
        }
        if got != [] {
          break;
        }
        var answer; ghost var more;
        answer, more, ans := Refill(room, pre, taken, k);
        taken := taken + more;
        if answer.Some? {
          return answer.value, got, taken, k, ans;
        }
      }
      return ReadReady, got, taken, k, ans;
    }

    /** The socket part of `poll_read`: either more bytes to look at, or the answer. */
    method Refill(room: nat, ghost pre: RecvHalf, ghost taken: seq<byte>, ghost k: nat)
      returns (answer: Option<ReadPoll>, ghost more: seq<byte>, ghost ans: Answers)
      requires Valid() && state.Readable() && pre.open
      requires Recv().unread == [] && Incomplete(ReadRecord(Recv().pending))
      requires Progress(cipher, pre, Recv(), taken, [], k)
      modifies this`state, this`pendingReadFilled, pendingReadBuffer, socket`inbox, socket`readTally
      ensures Valid() && state.Writeable() == old(state.Writeable())
      ensures old(socket.inbox) == more + socket.inbox
      ensures answer.None? ==>
                more != [] && state == old(state) && Progress(cipher, pre, Recv(), taken + more, [], k)
      ensures answer.Some? ==>
                ReadSpec(cipher, pre, room, answer.value, Recv(), taken + more, [], k, socket.AtEof(), ans)
      ensures answer.None? ==> ans == SMOOTH
      ensures socket.readTally == old(socket.readTally).Add(ans)
    {
      hide ReadRecord, Progress, Refused, Incomplete, BadFrame, DoesNotOpen;
      IncompleteIsSmallerThanBuffer(pendingReadBuffer[..pendingReadFilled]);
      var s;
      s, more := Fill(pre, taken, k);
      ans := Answers(s.Pending?, s.Failed?);
      match s {
        case Pending =>
          return Some(ReadPending), more, ans;
        case Failed(fatal) =>
          ghost var cur := Recv();
          if fatal {
            state := state.ShutdownRead();
          }
          ProgressIgnoresOpen(cipher, pre, cur, taken + more, [], k, Recv());
          return Some(ReadError(SocketFailed(fatal))), more, ans;
        case Got(n) =>
          if n == 0 {
            return Some(if pendingReadFilled > 0 then ReadError(HalfFrame) else ReadReady), more, ans;
          }
      }
      return None, more, ans;
    }

    /** Read the socket into the free part of the buffer, which is not empty. */
    method Fill(ghost pre: RecvHalf, ghost taken: seq<byte>, ghost k: nat)
      returns (s: SocketRead, ghost more: seq<byte>)
      requires Valid() && pendingReadFilled < MAX_WIRE_SIZE
      requires Progress(cipher, pre, Recv(), taken, [], k)
      modifies this`pendingReadFilled, pendingReadBuffer, socket`inbox, socket`readTally
      ensures Valid()
      ensures old(socket.inbox) == more + socket.inbox
      ensures Recv() == old(Recv()).(pending := old(Recv().pending) + more)
      ensures more == [] ==> Recv() == old(Recv())
      ensures Progress(cipher, pre, Recv(), taken + more, [], k)
      ensures s.Got? && s.n > 0 <==> more != []
      ensures s == Got(0) ==> socket.AtEof()
      ensures socket.readTally == old(socket.readTally).Add(Answers(s.Pending?, s.Failed?))
    {
      hide ReadRecord, Progress;
      ghost var cur := Recv();
      ghost var inbox := socket.inbox;
      s := socket.PollRead(pendingReadBuffer, pendingReadFilled);
      more := [];
      if s.Got? {
        more := inbox[..s.n];
        pendingReadFilled := pendingReadFilled + s.n;
      }
      ProgressTake(cipher, pre, cur, taken, [], k, more);
      assert pendingReadBuffer[..pendingReadFilled] == cur.pending + more;
    }

    /** Fill the write buffer with one record for `buf[offset..offset + len]`. */
    method SealNext(buf: seq<byte>, offset: nat, len: nat)
      requires Valid() && Sound(cipher)
      requires offset + len <= |buf| && len <= MAX_PLAINTEXT
      requires writeBuffer == [] && writeOffset == 0
      modifies this`sendNonce, this`writeBuffer
      ensures Valid()
      ensures |cipher.seal(old(sendNonce), buf[offset..offset + len])| == len + TAG_LEN
      ensures Send().out == SealRecord(cipher, old(sendNonce), buf[offset..offset + len])
      ensures sendNonce == old(sendNonce) + 1
    {
      var sealed := cipher.seal(sendNonce, buf[offset..offset + len]);
      assert |sealed| == len + TAG_LEN;
      writeBuffer := [APPLICATION_DATA, 3, 3] + U16Bytes(|sealed|) + sealed;
      sendNonce := sendNonce + 1;
    }
  }

  lemma Regroup(a: seq<byte>, b: seq<byte>, c: seq<byte>)
    ensures a + (b + c) == (a + b) + c
  {
  }

  lemma ProgressStart(c: Cipher, pre: RecvHalf)
    ensures Progress(c, pre, pre, [], [], 0)
  {
    assert pre.pending + [] == pre.pending;
  }

  lemma ProgressServe(c: Cipher, pre: RecvHalf, cur: RecvHalf, taken: seq<byte>, got: seq<byte>, k: nat, len: nat)
    requires Progress(c, pre, cur, taken, got, k) && len <= |cur.unread|
    ensures Progress(c, pre, cur.(unread := cur.unread[len..]), taken, got + cur.unread[..len], k)
  {
    hide Drain;
    assert got + cur.unread == (got + cur.unread[..len]) + cur.unread[len..];
  }

  lemma ProgressIgnoresOpen(c: Cipher, pre: RecvHalf, cur: RecvHalf, taken: seq<byte>, got: seq<byte>, k: nat, post: RecvHalf)
    requires Progress(c, pre, cur, taken, got, k) && post == cur.(open := post.open)
    ensures Progress(c, pre, post, taken, got, k)
  {
    hide Drain;
  }

  lemma ProgressRefused(c: Cipher, pre: RecvHalf, cur: RecvHalf, taken: seq<byte>, got: seq<byte>, k: nat)
    requires Progress(c, pre, cur, taken, got, k) && cur.unread == []
    requires DoesNotOpen(c, cur.nonce, cur.pending)
    ensures Refused(c, pre, cur.nonce, taken, got, k)
  {
    hide Drain, ReadRecord;
    assert got + [] == got;
  }

  lemma ProgressTake(c: Cipher, pre: RecvHalf, cur: RecvHalf, taken: seq<byte>, got: seq<byte>, k: nat, more: seq<byte>)
    requires Progress(c, pre, cur, taken, got, k)
    ensures Progress(c, pre, cur.(pending := cur.pending + more), taken + more, got, k)
  {
    DrainStable(c, pre.nonce, pre.pending + taken, k, more);
    assert pre.pending + taken + more == pre.pending + (taken + more);
  }

  /** Opening the next record moves it from `pending` to `unread`. */
  lemma ProgressPop(c: Cipher, pre: RecvHalf, cur: RecvHalf, taken: seq<byte>, got: seq<byte>, k: nat, post: RecvHalf)
    requires Progress(c, pre, cur, taken, got, k) && cur.unread == []
    requires PopsTo(c, cur, post)
    ensures Progress(c, pre, post, taken, got, k + 1)
  {
    hide NextRecord;
    var d := Drain(c, pre.nonce, pre.pending + taken, k);
    assert pre.unread + (d.plain + post.unread) == (pre.unread + d.plain) + post.unread;
  }

  /** `post` is `cur` after its first record was removed and, unless empty, opened. */
  predicate PopsTo(c: Cipher, cur: RecvHalf, post: RecvHalf) {
    NextRecord(c, cur.nonce, cur.pending) == Go(post.unread, post.nonce, post.pending)
  }

  lemma SealingStart(c: Cipher, pre: SendHalf, buf: seq<byte>)
    requires Sound(c)
    ensures Sealing(c, pre, pre, buf, [], 0)
  {
    RecordsOfNothing(c, pre.nonce);
  }

  lemma SealingPush(c: Cipher, pre: SendHalf, cur: SendHalf, buf: seq<byte>, sent: seq<byte>, k: nat,
                    step: seq<byte>, post: SendHalf)
    requires Sound(c) && Sealing(c, pre, cur, buf, sent, k)
    requires cur.out == step + post.out && post.nonce == cur.nonce
    ensures Sealing(c, pre, post, buf, sent + step, k)
  {
    hide Records;
    assert sent + (step + post.out) == (sent + step) + post.out;
  }

  /**
   When a failing `poll_write` has sealed part of its buffer: exactly if the socket took all that was
   buffered before the call. On a flushed stream that is always.
   */
  lemma FailedWriteSealsExactly(c: Cipher, pre: SendHalf, buf: seq<byte>, zero: bool,
                                post: SendHalf, sent: seq<byte>, k: nat, ans: Answers)
    requires Sound(c) && WriteSpec(c, pre, buf, WriteError(zero), post, sent, k, ans)
    ensures k > 0 <==> pre.out <= sent
    ensures pre.out == [] ==> k > 0
  {
    hide Records;
    if k == 0 {
      RecordsOfNothing(c, pre.nonce);
      assert |pre.out| == |sent| + |post.out|;
    }
  }

  /** The socket takes what was buffered, one chunk is sealed, and the socket breaks. */
  lemma WriteBreaksAfterSealing(c: Cipher, pre: SendHalf, buf: seq<byte>) returns (post: SendHalf, k: nat)
    requires Sound(c) && pre.open && buf != []
    ensures k > 0 && WriteSpec(c, pre, buf, WriteError(false), post, pre.out, k, Answers(false, true))
  {
    hide Sealing, SealRecord, Records, Chunks;
    k := Min(|buf|, MAX_PLAINTEXT);
    var drained := pre.(out := []);
    SealingStart(c, pre, buf);
    assert pre.out == pre.out + drained.out;
    SealingPush(c, pre, pre, buf, [], 0, pre.out, drained);
    assert [] + pre.out == pre.out;
    SealingMore(c, pre, drained, buf, pre.out, 0, k);
    assert |c.seal(drained.nonce, buf[0..k])| == k + TAG_LEN;
    post := drained.(nonce := pre.nonce + 1, out := SealRecord(c, pre.nonce, buf[0..k]));
    RecordNotEmpty(c, pre.nonce, buf[0..k]);
  }

  lemma RecordNotEmpty(c: Cipher, n: nat, p: seq<byte>)
    requires |c.seal(n, p)| < 0x1_0000
    ensures SealRecord(c, n, p) != []
  {
    assert |SealRecord(c, n, p)| >= HEADER_LEN;
  }

  /** What can be told before the call: a write may fail with part of its buffer sealed exactly when
      the stream is writeable and there is something to write. */
  lemma WriteCanSealAndFailExactly(c: Cipher, pre: SendHalf, buf: seq<byte>)
    requires Sound(c)
    ensures (exists zero, post, sent, k: nat, ans :: WriteSpec(c, pre, buf, WriteError(zero), post, sent, k, ans) && k > 0)
            <==> pre.open && buf != []
  {
    hide Sealing;
    if pre.open && buf != [] {
      var post, k := WriteBreaksAfterSealing(c, pre, buf);
      assert WriteSpec(c, pre, buf, WriteError(false), post, pre.out, k, Answers(false, true));
    } else {
      forall zero, post, sent, k: nat, ans | WriteSpec(c, pre, buf, WriteError(zero), post, sent, k, ans)
        ensures k == 0
      {
        SealsAtMost(c, pre, post, buf, sent, k);
      }
    }
  }

  lemma SealsAtMost(c: Cipher, pre: SendHalf, cur: SendHalf, buf: seq<byte>, sent: seq<byte>, k: nat)
    requires Sound(c) && Sealing(c, pre, cur, buf, sent, k)
    ensures k <= |buf|
  {
  }

  lemma SealingIgnoresOpen(c: Cipher, pre: SendHalf, buf: seq<byte>, sent: seq<byte>, k: nat, post: SendHalf)
    requires Sound(c) && Sealing(c, pre, post.(open := true), buf, sent, k)
    ensures Sealing(c, pre, post, buf, sent, k)
  {
    hide Records;
  }

  /** Sealing one more chunk once the buffer is empty. */
  lemma SealingMore(c: Cipher, pre: SendHalf, cur: SendHalf, buf: seq<byte>, sent: seq<byte>, offset: nat, len: nat)
    requires Sound(c) && Sealing(c, pre, cur, buf, sent, offset) && cur.out == []
    requires offset < |buf| && len == Min(|buf| - offset, MAX_PLAINTEXT)
    ensures |c.seal(cur.nonce, buf[offset..offset + len])| == len + TAG_LEN
    ensures var post := cur.(nonce := cur.nonce + 1, out := SealRecord(c, cur.nonce, buf[offset..offset + len]));
            Sealing(c, pre, post, buf, sent, offset + len)
  {
    hide SealRecord, Records, Chunks;
    OneMoreRecord(c, pre.nonce, buf, offset, len);
    var rec := SealRecord(c, cur.nonce, buf[offset..offset + len]);
    Appended(pre.out, Records(c, pre.nonce, buf[..offset]), sent, rec);
  }

  lemma OneMoreRecord(c: Cipher, n: nat, buf: seq<byte>, offset: nat, len: nat)
    requires Sound(c) && offset % MAX_PLAINTEXT == 0
    requires offset < |buf| && len == Min(|buf| - offset, MAX_PLAINTEXT)
    ensures var p, m := buf[offset..offset + len], n + Chunks(offset);
            && |c.seal(m, p)| == len + TAG_LEN
            && Records(c, n, buf[..offset + len]) == Records(c, n, buf[..offset]) + SealRecord(c, m, p)
            && Chunks(offset + len) == Chunks(offset) + 1
  {
    hide SealRecord, Records, Chunks;
    var p := buf[offset..offset + len];
    assert buf[..offset + len] == buf[..offset] + p;
    RecordsSplit(c, n, buf[..offset], p);
    RecordsOfOneChunk(c, n + Chunks(offset), p);
  }

  lemma Appended(out: seq<byte>, recs: seq<byte>, sent: seq<byte>, rec: seq<byte>)
    requires out + recs == sent + []
    ensures out <= sent && out + (recs + rec) == sent + rec
  {
    assert out + (recs + rec) == (out + recs) + rec;
    assert sent == out + recs;
  }
}
