/**
 Two `SnowyStream`s joined by a reliable byte channel, one direction of it: however polls
 interleave and however the socket splits the bytes, the pair is an exact FIFO.
 */
module Tunnel {
  import opened Basics
  import opened Noise
  import opened SnowyStream

  /**
   `wire` is in flight between the sockets. `sealed` is every plaintext byte the sender ever
   sealed, `reported` every byte its caller was told was accepted, `delivered` every byte put into
   the reader's buffers. `lost` counts the bytes sealed by calls that then returned an error.
   */
  datatype Net = Net(tx: SendHalf, wire: seq<byte>, closed: bool, rx: RecvHalf,
                     sealed: seq<byte>, reported: seq<byte>, delivered: seq<byte>, lost: nat)

  datatype Act =
    | Write(buf: seq<byte>, w: WritePoll, sent: seq<byte>, k: nat, ans: Answers)
    | Flush(f: FlushPoll, sent: seq<byte>, ans: Answers)
    | CloseSocket
    | Read(room: nat, r: ReadPoll, taken: seq<byte>, got: seq<byte>, popped: nat, ans: Answers)

  ghost predicate Init(s: Net) {
    && s.tx.nonce == s.rx.nonce && s.tx.out == [] && s.wire == [] && s.rx.pending == [] && s.rx.unread == []
    && s.sealed == s.reported == s.delivered == [] && s.lost == 0
  }

  /** One poll on either side, as the stream's methods promise it. */
  ghost predicate Next(c: Cipher, s: Net, a: Act, t: Net)
    requires Sound(c)
  {
    match a
    case Write(buf, w, sent, k, ans) =>
      && WriteSpec(c, s.tx, buf, w, t.tx, sent, k, ans)
      && t == s.(tx := t.tx, wire := s.wire + sent,
                 sealed := s.sealed + buf[..Min(k, |buf|)],
                 reported := if w.Accepted? then s.reported + buf[..Min(w.n, |buf|)] else s.reported,
                 lost := if w.WriteError? then s.lost + k else s.lost)
    case Flush(f, sent, ans) =>
      && FlushSpec(s.tx, f, t.tx, sent, ans)
      && t == s.(tx := t.tx, wire := s.wire + sent)
    case CloseSocket =>
      t == s.(closed := true)
    case Read(room, r, taken, got, k, ans) =>
      && s.wire == taken + t.wire
      && ReadSpec(c, s.rx, room, r, t.rx, taken, got, k, s.closed && t.wire == [], ans)
      && t == s.(rx := t.rx, wire := t.wire, delivered := s.delivered + got)
  }

  /** Everything sealed but not yet decoded, in the order the reader will meet it. */
  function Undecoded(s: Net): seq<byte> {
    s.rx.pending + s.wire + s.tx.out
  }

  /**
   The FIFO law: delivered bytes, then bytes already decoded, then what the bytes on their way
   decode to, are exactly the bytes sealed. All of it decodes, it ends on a record boundary, and
   the counters of the two sides differ by exactly the records in between.
   */
  ghost predicate Fifo(c: Cipher, s: Net) {
    var d := Decode(c, s.rx.nonce, Undecoded(s));
    && d.ok && d.rest == [] && d.nonce == s.tx.nonce
    && s.delivered + s.rx.unread + d.plain == s.sealed
    && |s.sealed| == |s.reported| + s.lost
    && (s.lost == 0 ==> s.reported == s.sealed)
  }

  lemma InitFifo(c: Cipher, s: Net)
    requires Init(s)
    ensures Fifo(c, s)
  {
    assert Undecoded(s) == [];
  }

  /** Sealing more data appends its records to the stream, which decodes to that data appended. */
  lemma WriteExtendsDecoding(c: Cipher, s: Net, a: Act, t: Net)
    requires Sound(c) && Fifo(c, s) && a.Write? && Next(c, s, a, t) && s.tx.open
    ensures a.k <= |a.buf|
    ensures var d := Decode(c, s.rx.nonce, Undecoded(s));
            Decode(c, s.rx.nonce, Undecoded(t)) == Decoding(d.plain + a.buf[..a.k], t.tx.nonce, [], true)
  {
    hide Decode, Records;
    var data := a.buf[..a.k];
    var recs := Records(c, s.tx.nonce, data);
    assert Undecoded(t) == s.rx.pending + s.wire + (a.sent + t.tx.out) == Undecoded(s) + recs;
    DecodeAppend(c, s.rx.nonce, Undecoded(s), recs);
    DecodeRecords(c, s.tx.nonce, data, []);
    assert recs + [] == recs && data + [] == data;
    DecodeNothing(c, s.tx.nonce + Chunks(|data|));
  }

  lemma WriteKeepsFifo(c: Cipher, s: Net, a: Act, t: Net)
    requires Sound(c) && Fifo(c, s) && a.Write? && Next(c, s, a, t)
    ensures Fifo(c, t)
  {
    hide Decode, Sealing;
    if s.tx.open {
      WriteExtendsDecoding(c, s, a, t);
      var data, d := a.buf[..a.k], Decode(c, s.rx.nonce, Undecoded(s));
      assert s.delivered + s.rx.unread + (d.plain + data) == s.sealed + data;
    } else {
      assert a.buf[..0] == [];
      assert s.wire + [] == s.wire && s.sealed + [] == s.sealed && s.reported + [] == s.reported;
    }
  }

  lemma DecodeNothing(c: Cipher, n: nat)
    ensures Decode(c, n, []) == Decoding([], n, [], true)
  {
  }

  lemma FlushKeepsFifo(c: Cipher, s: Net, a: Act, t: Net)
    requires Sound(c) && Fifo(c, s) && a.Flush? && Next(c, s, a, t)
    ensures Fifo(c, t)
  {
    hide Decode;
    assert Undecoded(t) == s.rx.pending + s.wire + (a.sent + t.tx.out) == Undecoded(s);
  }

  /** Decoding from before a read is decoding from after it, with the bytes opened in front. */
  lemma ReadIsDecoding(c: Cipher, s: Net, a: Act, t: Net)
    requires Sound(c) && a.Read? && Next(c, s, a, t) && s.rx.open
    ensures var d := Drain(c, s.rx.nonce, s.rx.pending + a.taken, a.popped);
            && d.ok && t.rx.nonce == d.nonce
            && Decode(c, s.rx.nonce, Undecoded(s))
               == Prepend(d.plain, Decode(c, d.nonce, d.rest + t.wire + t.tx.out))
  {
    hide Decode, Drain, ReadRecord;
    var b, more, k := s.rx.pending + a.taken, t.wire + t.tx.out, a.popped;
    assert Undecoded(s) == b + more;
    DrainStable(c, s.rx.nonce, b, k, more);
    DrainDecode(c, s.rx.nonce, b + more, k);
    var d := Drain(c, s.rx.nonce, b, k);
    assert d.rest + more == d.rest + t.wire + t.tx.out;
  }

  /** An honest peer's bytes are never refused. */
  lemma HonestBytesOpen(c: Cipher, s: Net, a: Act, t: Net)
    requires Sound(c) && Fifo(c, s) && a.Read? && Next(c, s, a, t)
    ensures a.r != ReadError(InvalidFrame) && a.r != ReadError(Undecryptable)
  {
    hide Decode, Drain, ReadRecord;
    if s.rx.open {
      ReadIsDecoding(c, s, a, t);
      var d := Drain(c, s.rx.nonce, s.rx.pending + a.taken, a.popped);
      assert d.rest + (t.wire + t.tx.out) == d.rest + t.wire + t.tx.out;
      if a.r == ReadError(InvalidFrame) || a.r == ReadError(Undecryptable) {
        BadFrontFails(c, d.nonce, d.rest, t.wire + t.tx.out);
        assert false;
      }
    }
  }

  lemma BadFrontFails(c: Cipher, n: nat, b: seq<byte>, more: seq<byte>)
    requires BadFrame(ReadRecord(b)) || DoesNotOpen(c, n, b)
    ensures !Decode(c, n, b + more).ok
  {
    hide ReadRecord;
    assert NextRecord(c, n, b).Bad?;
    DecodeFailureIsFinal(c, n, b, more);
  }

  lemma ReadKeepsFifo(c: Cipher, s: Net, a: Act, t: Net)
    requires Sound(c) && Fifo(c, s) && a.Read? && Next(c, s, a, t)
    ensures Fifo(c, t)
  {
    hide Decode, Drain, ReadRecord;
    HonestBytesOpen(c, s, a, t);
    if s.rx.open {
      ReadIsDecoding(c, s, a, t);
      var p := Drain(c, s.rx.nonce, s.rx.pending + a.taken, a.popped).plain;
      var tail := Decode(c, t.rx.nonce, Undecoded(t)).plain;
      assert s.delivered + s.rx.unread + (p + tail) == s.delivered + (s.rx.unread + p) + tail;
      assert s.delivered + (a.got + t.rx.unread) + tail == (s.delivered + a.got) + t.rx.unread + tail;
    } else {
      assert s.wire == t.wire && s.delivered + [] == s.delivered;
    }
  }

  ghost predicate IsRun(c: Cipher, states: seq<Net>, acts: seq<Act>)
    requires Sound(c)
  {
    && |states| == |acts| + 1
    && Init(states[0])
    && forall i :: 0 <= i < |acts| ==> Next(c, states[i], acts[i], states[i + 1])
  }

  /** Under every interleaving of polls, with the socket splitting bytes at will. */
  lemma {:induction false} RunsAreFifo(c: Cipher, states: seq<Net>, acts: seq<Act>, i: nat)
    requires Sound(c) && IsRun(c, states, acts) && i < |states|
    ensures Fifo(c, states[i])
  {
    hide Decode;
    if i == 0 {
      InitFifo(c, states[0]);
    } else {
      RunsAreFifo(c, states, acts, i - 1);
      var s, a, t := states[i - 1], acts[i - 1], states[i];
      match a
      case Write(_, _, _, _, _) => WriteKeepsFifo(c, s, a, t);
      case Flush(_, _, _) => FlushKeepsFifo(c, s, a, t);
      case CloseSocket =>
      case Read(_, _, _, _, _, _) => ReadKeepsFifo(c, s, a, t);
    }
  }

  /**
   No false end of stream: when a reader with room is told "zero bytes" on a readable stream, the
   peer has closed and every byte that reached the wire has been delivered; if the sender had also
   flushed, that is every byte ever accepted.
   */
  lemma NoFalseEof(c: Cipher, states: seq<Net>, acts: seq<Act>, i: nat)
    requires Sound(c) && IsRun(c, states, acts) && i < |acts|
    requires var a := acts[i]; a.Read? && a.r.ReadReady? && a.got == [] && a.room > 0 && states[i].rx.open
    ensures var t := states[i + 1];
            && t.closed && t.wire == [] && t.rx.pending == [] && t.rx.unread == []
            && t.delivered <= t.sealed
            && (t.tx.out == [] ==> t.delivered == t.sealed && t.rx.nonce == t.tx.nonce)
            && (t.tx.out == [] && t.lost == 0 ==> t.delivered == t.reported)
  {
    hide ReadRecord;
    RunsAreFifo(c, states, acts, i + 1);
    var t := states[i + 1];
    var d := Decode(c, t.rx.nonce, Undecoded(t));
    assert t.delivered + t.rx.unread + d.plain == t.delivered + d.plain;
    if t.tx.out == [] {
      assert Undecoded(t) == [];
      DecodeNothing(c, t.rx.nonce);
      assert t.delivered + [] == t.delivered;
    }
  }

  /**
   Reading gets on: a poll with room on a readable stream that was neither blocked nor failed by the
   socket delivers at least one byte, unless the peer has closed and nothing more can come. Then the
   reader has everything that reached it whole, and an error exactly if a record was cut in two.
   */
  lemma ReadGetsOn(c: Cipher, states: seq<Net>, acts: seq<Act>, i: nat)
    requires Sound(c) && IsRun(c, states, acts) && i < |acts|
    requires acts[i].Read? && states[i].rx.open && acts[i].room > 0 && acts[i].ans == SMOOTH
    ensures var a, t := acts[i], states[i + 1];
            || (a.r.ReadReady? && a.got != [])
            || (t.closed && t.wire == [] && t.rx.unread == []
                && a.r == if t.rx.pending == [] then ReadReady else ReadError(HalfFrame))
  {
    hide ReadRecord, Progress, Refused, Fifo, Decode;
    RunsAreFifo(c, states, acts, i);
    HonestBytesOpen(c, states[i], acts[i], states[i + 1]);
  }

  /** And it hands over all it can: short of a full buffer, no whole record is kept back. */
  lemma ReadKeepsNothingBack(c: Cipher, states: seq<Net>, acts: seq<Act>, i: nat)
    requires Sound(c) && IsRun(c, states, acts) && i < |acts|
    requires acts[i].Read? && acts[i].r.ReadReady? && states[i].rx.open && |acts[i].got| < acts[i].room
    ensures var t := states[i + 1]; t.rx.unread == [] && NextRecord(c, t.rx.nonce, t.rx.pending).Wait?
  {
    hide ReadRecord, Progress, Refused;
    assert Next(c, states[i], acts[i], states[i + 1]);
  }

  /** Writing gets on: unless the socket blocked, failed or took nothing, the whole buffer is accepted
      and every sealed byte is on the wire. */
  lemma WriteGetsOn(c: Cipher, states: seq<Net>, acts: seq<Act>, i: nat)
    requires Sound(c) && IsRun(c, states, acts) && i < |acts|
    requires acts[i].Write? && states[i].tx.open && acts[i].ans == SMOOTH && acts[i].w != WriteError(true)
    ensures acts[i].w == Accepted(|acts[i].buf|) && states[i + 1].tx.out == []
  {
    hide Sealing;
    assert Next(c, states[i], acts[i], states[i + 1]);
  }

  /** A half-read record at end of stream means the peer closed before flushing. */
  lemma HalfFrameMeansUnflushed(c: Cipher, states: seq<Net>, acts: seq<Act>, i: nat)
    requires Sound(c) && IsRun(c, states, acts) && i < |acts|
    requires acts[i].Read? && acts[i].r == ReadError(HalfFrame)
    ensures states[i + 1].closed && states[i + 1].tx.out != []
  {
    hide ReadRecord;
    RunsAreFifo(c, states, acts, i + 1);
    var t := states[i + 1];
    assert t.rx.pending + [] + [] == t.rx.pending;
  }

  /**
   What callers were told was accepted is what was sealed, except that a `poll_write` failing after
   the socket took everything buffered before it leaves a chunk in the stream unreported. Exactly
   then they differ.
   */
  lemma ReportedExactlyWhenNothingLost(c: Cipher, states: seq<Net>, acts: seq<Act>, i: nat)
    requires Sound(c) && IsRun(c, states, acts) && i < |states|
    ensures states[i].reported == states[i].sealed <==>
            forall j :: 0 <= j < i ==> !LosesChunk(states[j], acts[j])
  {
    hide Decode, WriteSpec, ReadSpec, Records;
    RunsAreFifo(c, states, acts, i);
    LostCounts(c, states, acts, i);
  }

  /** A failing write whose socket took all that was buffered before the call. */
  predicate LosesChunk(s: Net, a: Act) {
    a.Write? && a.w.WriteError? && s.tx.out <= a.sent
  }

  lemma LostStep(c: Cipher, s: Net, a: Act, t: Net)
    requires Sound(c) && Next(c, s, a, t)
    ensures t.lost == 0 <==> s.lost == 0 && !LosesChunk(s, a)
  {
    hide WriteSpec, ReadSpec, FlushSpec;
    if a.Write? && a.w.WriteError? {
      FailedWriteSealsExactly(c, s.tx, a.buf, a.w.zero, t.tx, a.sent, a.k, a.ans);
    }
  }

  lemma {:induction false} LostCounts(c: Cipher, states: seq<Net>, acts: seq<Act>, i: nat)
    requires Sound(c) && IsRun(c, states, acts) && i < |states|
    ensures states[i].lost == 0 <==>
            forall j :: 0 <= j < i ==> !LosesChunk(states[j], acts[j])
  {
    hide Next, LosesChunk;
    if i > 0 {
      LostCounts(c, states, acts, i - 1);
      assert Next(c, states[i - 1], acts[i - 1], states[i]);
      LostStep(c, states[i - 1], acts[i - 1], states[i]);
    }
  }

  /** Such a call exists: two chunks, the socket breaking after the first was sealed. */
  lemma FailingWriteCanSeal(c: Cipher) returns (s: Net, a: Act, t: Net)
    requires Sound(c)
    ensures Init(s) && Next(c, s, a, t) && a.Write? && a.w == WriteError(false)
    ensures t.reported == [] && |t.sealed| == MAX_PLAINTEXT
  {
    hide Decode, Records, Chunks;
    var buf: seq<byte> := seq(MAX_PLAINTEXT + 1, _ => 0);
    s := Net(SendHalf(true, 0, []), [], false, RecvHalf(true, 0, [], []), [], [], [], 0);
    var first := buf[..MAX_PLAINTEXT];
    var out := Records(c, 0, first);
    RecordsOfOneChunk(c, 0, first);
    a := Write(buf, WriteError(false), [], MAX_PLAINTEXT, Answers(false, true));
    t := s.(tx := SendHalf(true, 1, out), sealed := first, lost := MAX_PLAINTEXT);
    assert [] + out == out;
  }

  /** A reader that keeps up has received exactly what was accepted once both sides are drained. */
  lemma DrainedMeansDelivered(c: Cipher, states: seq<Net>, acts: seq<Act>, i: nat)
    requires Sound(c) && IsRun(c, states, acts) && i < |states|
    requires Undecoded(states[i]) == [] && states[i].rx.unread == [] && states[i].lost == 0
    ensures states[i].delivered == states[i].reported && states[i].rx.nonce == states[i].tx.nonce
  {
    hide ReadRecord;
    RunsAreFifo(c, states, acts, i);
    DecodeNothing(c, states[i].rx.nonce);
    assert states[i].delivered + [] + [] == states[i].delivered;
  }

  /** The reader never sees a byte out of place: what it was given is a prefix of what was accepted. */
  lemma DeliveredIsPrefix(c: Cipher, states: seq<Net>, acts: seq<Act>, i: nat)
    requires Sound(c) && IsRun(c, states, acts) && i < |states|
    ensures states[i].delivered <= states[i].sealed
    ensures states[i].lost == 0 ==> states[i].delivered <= states[i].reported
  {
    hide Decode;
    RunsAreFifo(c, states, acts, i);
    var s := states[i];
    var d := Decode(c, s.rx.nonce, Undecoded(s));
    assert s.delivered + s.rx.unread + d.plain == s.delivered + (s.rx.unread + d.plain);
  }
}
