/** Raw TLS records during the camouflage handshake: reading one message, and relaying a TLS 1.2
    handshake up to the record that finishes it. */
module Handshake {
  import opened Basics
  import opened Noise

  // ---------- read_tls_message ----------

  /** `buf` is what the caller's buffer holds afterwards, `rest` what is left on the stream. */
  datatype ReadOutcome =
    | Message(buf: seq<byte>, rest: seq<byte>)
    | Rejected(error: RecordError, rest: seq<byte>)
    | Eof

  /** `read_tls_message` on a stream that ends after `s`. */
  function ReadMessage(s: seq<byte>): ReadOutcome {
    if |s| < HEADER_LEN then Eof
    else
      var len, rest := U16Of(s[3], s[4]), s[HEADER_LEN..];
      if !KnownContentType(s[0]) then Rejected(InvalidContentType, rest)
      else if !AcceptedVersion(U16Of(s[1], s[2])) then Rejected(UnknownProtocolVersion, rest)
      else if s[0] != APPLICATION_DATA && len == 0 then Rejected(InvalidEmptyPayload, rest)
      else if len >= MAX_CIPHERTEXT then Rejected(MessageTooLarge, rest)
      else if |rest| < len then Eof
      else Message(s[..HEADER_LEN + len], rest[len..])
  }

  /**
   The message reader accepts exactly the records the parser accepts that are shorter than 2^14,
   and what it leaves in the buffer is that record, which the parser then reads whole.
   */
  lemma ReaderAcceptsRecords(s: seq<byte>)
    ensures var r := ReadMessage(s);
            && (r.Message? <==> ReadRecord(s).Ok? && |ReadRecord(s).value.payload| < MAX_CIPHERTEXT)
            && (r.Message? ==>
                  && r.buf + r.rest == s
                  && ReadRecord(r.buf) == ReadRecord(s) && ReadRecord(r.buf).value.used == |r.buf|)
  {
    var r := ReadMessage(s);
    if r.Message? {
      AcceptedIsRecord(s);
      assert r.buf + r.rest == s;
      ReadRecordStable(r.buf, r.rest);
    }
  }

  lemma AcceptedIsRecord(s: seq<byte>)
    requires ReadMessage(s).Message?
    ensures var b := ReadMessage(s).buf; ReadRecord(b).Ok? && ReadRecord(b).value.used == |b|
  {
    var b := ReadMessage(s).buf;
    assert forall i :: 0 <= i < HEADER_LEN ==> b[i] == s[i];
  }

  /** Given a whole header, the reader rejects what the parser rejects, for the same reason; on its
      own it rejects only lengths of 2^14 and more. */
  lemma ReaderRejectsWithParser(s: seq<byte>)
    requires |s| >= HEADER_LEN
    ensures var r := ReadMessage(s);
            && (ReadRecord(s).Err? && !Incomplete(ReadRecord(s)) ==> r == Rejected(ReadRecord(s).error, s[HEADER_LEN..]))
            && (r.Rejected? && ReadRecord(s) != Err(r.error) ==>
                  r.error == MessageTooLarge && MAX_CIPHERTEXT <= U16Of(s[3], s[4]) < MAX_PAYLOAD)
  {
  }

  /** It runs into the end of the stream exactly when the header is cut short, or the header is fine and
      the data is. */
  lemma ReaderEofExactly(s: seq<byte>)
    ensures ReadMessage(s) == Eof
            <==> |s| < HEADER_LEN || (Incomplete(ReadRecord(s)) && (s[3] as int) * 256 + (s[4] as int) < 0x4000)
  {
  }

  // ---------- copy_until_tls12_handshake_finished ----------

  const HANDSHAKE: byte := 0x16
  const CHANGE_CIPHER_SPEC: byte := 0x14

  datatype CopyOutcome = Done | InvalidState | Truncated | WriteFailed

  /** Length of the record whose header is at the front. */
  function RecordLen(b: seq<byte>): nat
    requires |b| >= HEADER_LEN
  {
    HEADER_LEN + U16Of(b[3], b[4])
  }

  /** How the copy ends on input `b`, and how many bytes it forwards. */
  function Copy(b: seq<byte>, seen: bool): (r: (CopyOutcome, nat))
    ensures r.1 <= |b|
    decreases |b|
  {
    if |b| < HEADER_LEN then (Truncated, 0)
    else if |b| < RecordLen(b) then (Truncated, HEADER_LEN)
    else
      var n := RecordLen(b);
      if b[0] != HANDSHAKE && b[0] != CHANGE_CIPHER_SPEC then (InvalidState, n)
      else if seen then (Done, n)
      else
        var (o, m) := Copy(b[n..], b[0] == CHANGE_CIPHER_SPEC);
        (o, n + m)
  }

  datatype Forward = Forwarded | Short | Broken

  /**
   One turn of the loop: read a header, write it, read its data, write it. `rest` is what is left on
   the stream: a read that finds too little has taken what there was.
   */
  method ForwardRecord(b: seq<byte>, out: seq<byte>) returns (f: Forward, out': seq<byte>, rest: seq<byte>)
    ensures f.Short? <==> |b| < HEADER_LEN || (|b| < RecordLen(b) && !f.Broken?)
    ensures f.Short? ==> rest == [] && out' == out + b[..if |b| < HEADER_LEN then 0 else HEADER_LEN]
    ensures f.Forwarded? ==> out' == out + b[..RecordLen(b)] && rest == b[RecordLen(b)..]
    ensures f.Broken? ==> |b| >= HEADER_LEN && |rest| <= |b|
    ensures f.Broken? ==> var n := |b| - |rest|; n <= Available(b) && rest == b[n..] && out' <= out + b[..n]
  {
    if |b| < HEADER_LEN {
      return Short, out, [];
    }
    var header := b[..HEADER_LEN];
    var size := U16Of(header[3], header[4]);
    var failed;
    out', failed := Write(out, header);
    if failed {
      return Broken, out', b[HEADER_LEN..];
    }
    if |b| < HEADER_LEN + size {
      return Short, out', [];
    }
    var data := b[HEADER_LEN..HEADER_LEN + size];
    assert b[..HEADER_LEN + size] == header + data;
    assert out + header + data == out + b[..HEADER_LEN + size];
    rest := b[HEADER_LEN + size..];
    out', failed := Write(out', data);
    return if failed then Broken else Forwarded, out', rest;
  }

  /** The bytes of the first record that are there. */
  function Available(b: seq<byte>): (n: nat)
    requires |b| >= HEADER_LEN
    ensures HEADER_LEN <= n <= |b|
  {
    if |b| < RecordLen(b) then HEADER_LEN else RecordLen(b)
  }

  /**
   What the copy did to a stream: the outcome, the bytes written and what it left unread. What was
   read is the stream without `rest`; only a stream that ends inside a record, or a failing write,
   makes it more than what was written.
   */
  predicate CopySpec(input: seq<byte>, o: CopyOutcome, out: seq<byte>, rest: seq<byte>) {
    && (o.WriteFailed? || (o == Copy(input, false).0 && out == input[..Copy(input, false).1]))
    && out <= input[..Copy(input, false).1]
    && |rest| <= |input| && rest == input[|input| - |rest|..]
    && out <= input[..|input| - |rest|]
    && (o.Done? || o.InvalidState? ==> out + rest == input)
    && (o.Truncated? ==> rest == [])
  }

  /** Between two turns everything read was written, and what the copy does is what it will do. */
  predicate Copying(input: seq<byte>, out: seq<byte>, rest: seq<byte>, seen: bool) {
    && out + rest == input
    && Copy(input, false) == (Copy(rest, seen).0, |out| + Copy(rest, seen).1)
  }

  /** The loop itself. Writing may fail at any point, after any part of the data. */
  method CopyUntilFinished(input: seq<byte>) returns (o: CopyOutcome, out: seq<byte>, rest: seq<byte>)
    ensures CopySpec(input, o, out, rest)
  {
    hide Copy, RecordLen, Available, CopySpec, Copying;
    rest := input;
    var seen := false;
    out := [];
    CopyingStart(input);
    while true
      invariant Copying(input, out, rest, seen)
      decreases |rest|
    {
      ghost var done, b := out, rest;
      var typ := if |rest| >= HEADER_LEN then rest[0] else 0;
      var f;
      f, out, rest := ForwardRecord(rest, out);
      match f {
        case Short =>
          StopsShort(input, done, b, seen, out);
          return Truncated, out, rest;
        case Broken =>
          StopsBroken(input, done, b, seen, out, rest);
          return WriteFailed, out, rest;
        case Forwarded =>
      }
      GoesOn(input, done, b, seen);
      if typ != HANDSHAKE {
        if typ != CHANGE_CIPHER_SPEC {
          return InvalidState, out, rest;
        }
        if !seen {
          seen := true;
          continue;
        }
      }
      if seen {
        return Done, out, rest;
      }
    }
  }

  lemma CopyingStart(input: seq<byte>)
    ensures Copying(input, [], input, false)
  {
    assert [] + input == input;
  }

  lemma StopsShort(input: seq<byte>, done: seq<byte>, b: seq<byte>, seen: bool, out: seq<byte>)
    requires Copying(input, done, b, seen) && (|b| < HEADER_LEN || |b| < RecordLen(b))
    requires out == done + b[..if |b| < HEADER_LEN then 0 else HEADER_LEN]
    ensures CopySpec(input, Truncated, out, [])
  {
    hide Copy, RecordLen, Available;
    CopyFirst(b, seen);
    TakeAcross(done, b, Copy(b, seen).1);
    assert input[..|input|] == input;
  }

  lemma StopsBroken(input: seq<byte>, done: seq<byte>, b: seq<byte>, seen: bool, out: seq<byte>, rest: seq<byte>)
    requires Copying(input, done, b, seen) && |b| >= HEADER_LEN && |rest| <= |b|
    requires var n := |b| - |rest|; n <= Available(b) && rest == b[n..] && out <= done + b[..n]
    ensures CopySpec(input, WriteFailed, out, rest)
  {
    hide Copy, RecordLen, Available;
    CopyFirst(b, seen);
    TakeAcross(done, b, Copy(b, seen).1);
    Leaves(done, b, |b| - |rest|, Copy(b, seen).1, out);
  }

  /** A whole record was forwarded: the copy is over, or the remainder is copied the same way. */
  lemma GoesOn(input: seq<byte>, done: seq<byte>, b: seq<byte>, seen: bool)
    requires Copying(input, done, b, seen) && |b| >= HEADER_LEN && |b| >= RecordLen(b)
    ensures var out, rest, t := done + b[..RecordLen(b)], b[RecordLen(b)..], b[0];
            && |rest| < |b|
            && (t != HANDSHAKE && t != CHANGE_CIPHER_SPEC ==> CopySpec(input, InvalidState, out, rest))
            && (t == HANDSHAKE || t == CHANGE_CIPHER_SPEC ==>
                  if seen then CopySpec(input, Done, out, rest)
                  else Copying(input, out, rest, t == CHANGE_CIPHER_SPEC))
  {
    hide Copy, RecordLen, Available;
    var n := RecordLen(b);
    var out := done + b[..n];
    CopyFirst(b, seen);
    TakeAcross(done, b, n);
    Leaves(done, b, n, n, out);
  }

  /** One unfolding of `Copy`, in terms of what one turn of the loop forwards. */
  lemma CopyFirst(b: seq<byte>, seen: bool)
    ensures |b| < HEADER_LEN ==> Copy(b, seen) == (Truncated, 0)
    ensures |b| >= HEADER_LEN ==> HEADER_LEN <= RecordLen(b) && Available(b) <= Copy(b, seen).1
    ensures |b| >= HEADER_LEN && |b| < RecordLen(b) ==> Copy(b, seen) == (Truncated, HEADER_LEN)
    ensures |b| >= HEADER_LEN && |b| >= RecordLen(b) ==>
              var n, t := RecordLen(b), b[0];
              && Available(b) == n
              && Copy(b, seen) == if t != HANDSHAKE && t != CHANGE_CIPHER_SPEC then (InvalidState, n)
                                  else if seen then (Done, n)
                                  else (Copy(b[n..], t == CHANGE_CIPHER_SPEC).0, n + Copy(b[n..], t == CHANGE_CIPHER_SPEC).1)
  {
  }

  lemma TakeAcross(a: seq<byte>, b: seq<byte>, n: nat)
    requires n <= |b|
    ensures (a + b)[..|a| + n] == a + b[..n]
  {
  }

  /** After `n` bytes of `b` were taken and at most they were written. */
  lemma Leaves(a: seq<byte>, b: seq<byte>, n: nat, total: nat, out: seq<byte>)
    requires n <= total <= |b| && out <= a + b[..n]
    ensures out <= a + b[..total]
    ensures a + b[..n] + b[n..] == a + b
    ensures var m := |a + b| - |b[n..]|; (a + b)[m..] == b[n..] && out <= (a + b)[..m]
  {
    assert a + b[..total] == a + b[..n] + b[n..total];
    TakeAcross(a, b, n);
    assert (a + b)[|a| + n..] == b[n..];
  }

  /** `write_all`: everything, or a failure after some part of it. */
  method Write(out: seq<byte>, data: seq<byte>) returns (out': seq<byte>, failed: bool)
    ensures if failed then out <= out' <= out + data else out' == out + data
  {
    if * {
      assert 0 <= |data|;
      var k: nat :| k <= |data|;
      return out + data[..k], true;
    }
    return out + data, false;
  }

  // ---------- which records those are ----------

  predicate IsRecord(r: seq<byte>) {
    |r| >= HEADER_LEN && |r| == RecordLen(r)
  }

  function Join(recs: seq<seq<byte>>): seq<byte> {
    if recs == [] then [] else recs[0] + Join(recs[1..])
  }

  /** Handshake records, then a ChangeCipherSpec, then one more of either kind; `seen` when the
      ChangeCipherSpec is already behind. */
  predicate Finishes(recs: seq<seq<byte>>, seen: bool) {
    && recs != []
    && IsRecord(recs[0])
    && (recs[0][0] == HANDSHAKE || recs[0][0] == CHANGE_CIPHER_SPEC)
    && (if seen then |recs| == 1 else Finishes(recs[1..], recs[0][0] == CHANGE_CIPHER_SPEC))
  }

  lemma FrontRecord(r: seq<byte>, more: seq<byte>)
    requires IsRecord(r)
    ensures |r + more| >= HEADER_LEN && RecordLen(r + more) == |r| && (r + more)[|r|..] == more
    ensures (r + more)[0] == r[0]
  {
    assert forall i :: 0 <= i < HEADER_LEN ==> (r + more)[i] == r[i];
  }

  /** Given such records, the copy ends well right after the last of them, whatever follows. */
  lemma {:induction false} CopyStopsThere(recs: seq<seq<byte>>, seen: bool, rest: seq<byte>)
    requires Finishes(recs, seen)
    ensures Copy(Join(recs) + rest, seen) == (Done, |Join(recs)|)
  {
    hide IsRecord, RecordLen;
    var r, more := recs[0], Join(recs[1..]) + rest;
    assert Join(recs) + rest == r + more;
    FrontRecord(r, more);
    assert |r| >= HEADER_LEN by { RecordHasHeader(r); }
    if seen {
      assert recs[1..] == [];
    } else {
      CopyStopsThere(recs[1..], r[0] == CHANGE_CIPHER_SPEC, rest);
    }
  }

  lemma RecordHasHeader(r: seq<byte>)
    requires IsRecord(r)
    ensures |r| >= HEADER_LEN
  {
  }

  /** And it ends well on nothing else: the bytes forwarded are such records. */
  lemma {:induction false} CopyFinds(b: seq<byte>, seen: bool) returns (recs: seq<seq<byte>>)
    requires Copy(b, seen).0 == Done
    ensures Finishes(recs, seen) && Join(recs) == b[..Copy(b, seen).1]
    decreases |b|
  {
    var n := RecordLen(b);
    var r := b[..n];
    assert IsRecord(r) && r[0] == b[0];
    if seen {
      recs := [r];
      assert Join(recs[1..]) == [] && r + [] == r;
    } else {
      var more := CopyFinds(b[n..], b[0] == CHANGE_CIPHER_SPEC);
      recs := [r] + more;
      assert recs[1..] == more;
      assert b[..n + Copy(b[n..], b[0] == CHANGE_CIPHER_SPEC).1]
          == r + b[n..][..Copy(b[n..], b[0] == CHANGE_CIPHER_SPEC).1];
    }
  }

  /** So the copy succeeds exactly when the stream begins with the records of a finished handshake. */
  lemma CopySucceedsExactly(b: seq<byte>)
    ensures Copy(b, false).0 == Done <==> exists recs :: Finishes(recs, false) && Join(recs) <= b
  {
    hide Copy, Finishes;
    if Copy(b, false).0 == Done {
      var recs := CopyFinds(b, false);
    }
    if recs :| Finishes(recs, false) && Join(recs) <= b {
      CopyStopsThere(recs, false, b[|Join(recs)|..]);
      assert Join(recs) + b[|Join(recs)|..] == b;
    }
  }

  /** Handshake records and at most one ChangeCipherSpec, as the last: nothing has finished yet. `seen`
      when the last record was that ChangeCipherSpec. */
  predicate Unfinished(recs: seq<seq<byte>>, seen: bool) {
    if recs == [] then !seen
    else
      && (forall i :: 0 <= i < |recs| ==> IsRecord(recs[i]))
      && (forall i :: 0 <= i < |recs| - 1 ==> recs[i][0] == HANDSHAKE)
      && recs[|recs| - 1][0] == if seen then CHANGE_CIPHER_SPEC else HANDSHAKE
  }

  /** A record that belongs to no handshake. */
  predicate Foreign(r: seq<byte>) {
    IsRecord(r) && r[0] != HANDSHAKE && r[0] != CHANGE_CIPHER_SPEC
  }

  /** After an unfinished beginning the copy is where it was, with the beginning forwarded. */
  lemma {:induction false} CopyPasses(recs: seq<seq<byte>>, seen: bool, rest: seq<byte>)
    requires Unfinished(recs, seen)
    ensures Copy(Join(recs) + rest, false) == (Copy(rest, seen).0, |Join(recs)| + Copy(rest, seen).1)
  {
    hide RecordLen;
    if recs == [] {
      assert Join(recs) + rest == rest;
    } else {
      var r, more := recs[0], Join(recs[1..]) + rest;
      assert IsRecord(r);
      assert Join(recs) + rest == r + more;
      FrontRecord(r, more);
      if |recs| == 1 {
        assert recs[1..] == [];
        assert more == rest;
      } else {
        assert Unfinished(recs[1..], seen);
        CopyPasses(recs[1..], seen, rest);
      }
    }
  }

  /** Where a failing copy met the foreign record. */
  lemma {:induction false} CopyMeets(b: seq<byte>, seen: bool) returns (recs: seq<seq<byte>>, r: seq<byte>)
    requires Copy(b, seen).0 == InvalidState
    ensures Foreign(r) && Join(recs) + r <= b
    ensures if seen then recs == [] else Unfinished(recs, true) || Unfinished(recs, false)
    decreases |b|
  {
    var n := RecordLen(b);
    var first := b[..n];
    assert IsRecord(first) && first[0] == b[0];
    if b[0] != HANDSHAKE && b[0] != CHANGE_CIPHER_SPEC {
      recs, r := [], first;
      assert Join(recs) + r == r;
    } else {
      var more;
      more, r := CopyMeets(b[n..], b[0] == CHANGE_CIPHER_SPEC);
      recs := [first] + more;
      assert recs[1..] == more;
      assert Join(recs) + r == first + (Join(more) + r);
      assert b == first + b[n..];
      if b[0] == CHANGE_CIPHER_SPEC {
        assert Unfinished(recs, true);
      } else {
        var s := Unfinished(more, true);
        assert Unfinished(recs, s);
      }
    }
  }

  /** The copy fails as invalid exactly when an unfinished handshake is followed by a foreign record;
      on all else that does not succeed the stream ended too early. */
  lemma CopyInvalidExactly(b: seq<byte>)
    ensures Copy(b, false).0 == InvalidState
            <==> exists recs, seen, r :: Unfinished(recs, seen) && Foreign(r) && Join(recs) + r <= b
    ensures Copy(b, false).0 != WriteFailed
  {
    hide Unfinished, Foreign;
    NeverWriteFailed(b, false);
    if Copy(b, false).0 == InvalidState {
      var recs, r := CopyMeets(b, false);
      var seen := Unfinished(recs, true);
      assert Unfinished(recs, seen) && Foreign(r) && Join(recs) + r <= b;
    }
    if recs, seen, r :| Unfinished(recs, seen) && Foreign(r) && Join(recs) + r <= b {
      var rest := b[|Join(recs) + r|..];
      assert b == Join(recs) + (r + rest);
      CopyPasses(recs, seen, r + rest);
      ForeignStops(r, rest, seen);
    }
  }

  lemma ForeignStops(r: seq<byte>, rest: seq<byte>, seen: bool)
    requires Foreign(r)
    ensures Copy(r + rest, seen).0 == InvalidState
  {
    hide RecordLen;
    FrontRecord(r, rest);
    RecordHasHeader(r);
  }

  lemma {:induction false} NeverWriteFailed(b: seq<byte>, seen: bool)
    ensures Copy(b, seen).0 != WriteFailed
    decreases |b|
  {
    if |b| >= HEADER_LEN && |b| >= RecordLen(b) {
      NeverWriteFailed(b[RecordLen(b)..], b[0] == CHANGE_CIPHER_SPEC);
    }
  }

  /** On a record of any other type everything up to and including it was still forwarded. */
  lemma {:induction false} InvalidStateForwardsAll(b: seq<byte>, seen: bool) returns (last: nat)
    requires Copy(b, seen).0 == InvalidState
    ensures last + HEADER_LEN <= Copy(b, seen).1 == last + RecordLen(b[last..])
    ensures b[last] != HANDSHAKE && b[last] != CHANGE_CIPHER_SPEC
    decreases |b|
  {
    var n := RecordLen(b);
    if b[0] != HANDSHAKE && b[0] != CHANGE_CIPHER_SPEC {
      last := 0;
      assert b[0..] == b;
    } else {
      var l := InvalidStateForwardsAll(b[n..], b[0] == CHANGE_CIPHER_SPEC);
      last := n + l;
      assert b[n..][l..] == b[last..];
    }
  }
}
