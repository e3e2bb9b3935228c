/**
 The record layer of the tunnel: TLS-looking records whose payloads are Noise
 transport messages.

 Noise itself stays abstract. A `Cipher` is any pair of functions indexed by
 the message counter; `Sound` is all that is ever asked of it.
 */
module Noise {
  import opened Basics

  const HEADER_LEN := 5
  const TAG_LEN := 16
  const MAX_CIPHERTEXT := 0x4000
  const MAX_PLAINTEXT := MAX_CIPHERTEXT - TAG_LEN
  /** `OpaqueMessage::MAX_PAYLOAD` and `MAX_WIRE_SIZE` of rustls. */
  const MAX_PAYLOAD := 0x4000 + 2048
  const MAX_WIRE_SIZE := MAX_PAYLOAD + HEADER_LEN

  const APPLICATION_DATA: byte := 0x17

  datatype Cipher = Cipher(
    seal: (nat, seq<byte>) -> seq<byte>,
    open: (nat, seq<byte>) -> Option<seq<byte>>)

  /** Section 5.1 of the Noise Protocol Framework: opening with the counter used for sealing
      gives the plaintext back, and sealing costs one authentication tag. */
  ghost predicate Sound(c: Cipher) {
    forall n: nat, p: seq<byte> {:trigger c.seal(n, p)} ::
      |c.seal(n, p)| == |p| + TAG_LEN && c.open(n, c.seal(n, p)) == Some(p)
  }

  // ---------- the record parser ----------

  datatype RecordError =
    | TooShortForHeader
    | TooShortForLength
    | InvalidContentType
    | UnknownProtocolVersion
    | InvalidEmptyPayload
    | MessageTooLarge

  /** One record at the front of a byte string: its payload and the bytes it takes up. */
  datatype Record = Record(typ: byte, payload: seq<byte>, used: nat)

  /** ChangeCipherSpec, Alert, Handshake, ApplicationData, Heartbeat. */
  predicate KnownContentType(t: byte) {
    0x14 <= t <= 0x18
  }

  /** 0x03XX, and the other versions rustls has a name for (SSLv2 and the DTLS family). */
  predicate AcceptedVersion(v: u16) {
    v / 0x100 == 3 || v == 0x0200 || v == 0xfeff || v == 0xfefd || v == 0xfefc
  }

  /** `OpaqueMessage::read` on the front of `b`. */
  function ReadRecord(b: seq<byte>): (r: Result<Record, RecordError>)
    ensures r.Ok? ==>
              && HEADER_LEN <= r.value.used <= |b|
              && r.value.used < MAX_WIRE_SIZE
              && r.value.payload == b[HEADER_LEN..r.value.used]
  {
    if |b| < 1 then Err(TooShortForHeader)
    else if !KnownContentType(b[0]) then Err(InvalidContentType)
    else if |b| < 3 then Err(TooShortForHeader)
    else if !AcceptedVersion(U16Of(b[1], b[2])) then Err(UnknownProtocolVersion)
    else if |b| < HEADER_LEN then Err(TooShortForHeader)
    else
      var len := U16Of(b[3], b[4]);
      if b[0] != APPLICATION_DATA && len == 0 then Err(InvalidEmptyPayload)
      else if len >= MAX_PAYLOAD then Err(MessageTooLarge)
      else if |b| < HEADER_LEN + len then Err(TooShortForLength)
      else Ok(Record(b[0], b[HEADER_LEN..HEADER_LEN + len], HEADER_LEN + len))
  }

  /** More input may still complete the record. */
  predicate Incomplete(r: Result<Record, RecordError>) {
    r.Err? && (r.error.TooShortForHeader? || r.error.TooShortForLength?)
  }

  /**
   Which byte strings begin with a whole record, in the numbers of section 5.1 of RFC 8446: a content
   type from 20 to 24, a version that starts with 3 or is one of four others, a length below 2^14 +
   2048 that is zero only for application data, and that many bytes.
   */
  lemma RecordsExactly(b: seq<byte>)
    ensures ReadRecord(b).Ok?
            <==> && |b| >= 5 && 20 <= b[0] <= 24
                 && (b[1] == 3 || (b[1] == 2 && b[2] == 0) || (b[1] == 254 && b[2] in {252, 253, 255}))
                 && var len: int := (b[3] as int) * 256 + (b[4] as int);
                    len < 18432 && (b[0] == 23 || len > 0) && |b| >= 5 + len
    ensures ReadRecord(b).Ok? ==>
              var len: int := (b[3] as int) * 256 + (b[4] as int);
              ReadRecord(b).value == Record(b[0], b[5..5 + len], 5 + len)
  {
    if |b| >= 3 {
      var v: u16 := U16Of(b[1], b[2]);
      assert v / 0x100 == b[1] && v % 0x100 == b[2];
    }
  }

  /** Why the receive buffer can never be full when the socket is polled. */
  lemma IncompleteIsSmallerThanBuffer(b: seq<byte>)
    requires Incomplete(ReadRecord(b))
    ensures |b| < MAX_WIRE_SIZE
  {
  }

  /** A verdict other than "incomplete" does not depend on what follows. */
  lemma ReadRecordStable(b: seq<byte>, more: seq<byte>)
    requires !Incomplete(ReadRecord(b))
    ensures ReadRecord(b + more) == ReadRecord(b)
  {
    var r := ReadRecord(b);
    if r.Ok? {
      assert (b + more)[HEADER_LEN..r.value.used] == b[HEADER_LEN..r.value.used];
    }
  }

  // ---------- sealing ----------

  /** One application-data record holding `p` sealed under counter `n`. */
  function SealRecord(c: Cipher, n: nat, p: seq<byte>): seq<byte>
    requires |c.seal(n, p)| < 0x1_0000
  {
    [APPLICATION_DATA, 3, 3] + U16Bytes(|c.seal(n, p)|) + c.seal(n, p)
  }

  /** How many records `len` plaintext bytes are cut into. */
  function Chunks(len: nat): nat {
    if len == 0 then 0 else 1 + Chunks(len - Min(len, MAX_PLAINTEXT))
  }

  /** `data` cut into records of at most `MAX_PLAINTEXT` bytes, sealed under consecutive counters. */
  ghost function Records(c: Cipher, n: nat, data: seq<byte>): seq<byte>
    requires Sound(c)
    decreases |data|
  {
    if data == [] then []
    else
      var len := Min(|data|, MAX_PLAINTEXT);
      SealRecord(c, n, data[..len]) + Records(c, n + 1, data[len..])
  }

  // ---------- opening ----------

  /** `TransportState::read_message` into a buffer of `MAX_PLAINTEXT` bytes. */
  function Open(c: Cipher, n: nat, payload: seq<byte>): Option<seq<byte>> {
    if |payload| < TAG_LEN || |payload| - TAG_LEN > MAX_PLAINTEXT then None
    else c.open(n, payload)
  }

  /** What the front of a receiver's bytes allows: wait for more, give up, or go on with a record
      removed and, unless its payload was empty, opened. */
  datatype Next = Wait | Bad | Go(plain: seq<byte>, nonce: nat, rest: seq<byte>)

  function NextRecord(c: Cipher, n: nat, b: seq<byte>): (x: Next)
    ensures x.Go? ==> |x.rest| < |b|
  {
    var r := ReadRecord(b);
    if Incomplete(r) then Wait
    else if r.Err? then Bad
    else if r.value.payload == [] then Go([], n, b[r.value.used..])
    else
      match Open(c, n, r.value.payload)
      case None => Bad
      case Some(p) => Go(p, n + 1, b[r.value.used..])
  }

  /** Bytes that arrive later change nothing once a record is complete. */
  lemma NextRecordStable(c: Cipher, n: nat, b: seq<byte>, more: seq<byte>)
    requires !NextRecord(c, n, b).Wait?
    ensures var x := NextRecord(c, n, b);
            NextRecord(c, n, b + more) == if x.Go? then x.(rest := x.rest + more) else Bad
  {
    hide ReadRecord;
    ReadRecordStable(b, more);
    var r := ReadRecord(b);
    if r.Ok? {
      assert (b + more)[r.value.used..] == b[r.value.used..] + more;
    }
  }

  /** Plaintext decoded so far, with the counter and the bytes the receiver is left with. */
  datatype Decoding = Decoding(plain: seq<byte>, nonce: nat, rest: seq<byte>, ok: bool)

  function Prepend(p: seq<byte>, d: Decoding): Decoding {
    d.(plain := p + d.plain)
  }

  /** Decode every complete record of `b`; `ok` is false when a record is malformed or does not open. */
  function Decode(c: Cipher, n: nat, b: seq<byte>): Decoding
    decreases |b|
  {
    match NextRecord(c, n, b)
    case Wait => Decoding([], n, b, true)
    case Bad => Decoding([], n, b, false)
    case Go(p, m, rest) => Prepend(p, Decode(c, m, rest))
  }

  /** Decode exactly `k` records, where all of them are complete and open. */
  function Drain(c: Cipher, n: nat, b: seq<byte>, k: nat): Decoding {
    if k == 0 then Decoding([], n, b, true)
    else
      var d := Drain(c, n, b, k - 1);
      match NextRecord(c, d.nonce, d.rest)
      case Wait => d.(ok := false)
      case Bad => d.(ok := false)
      case Go(p, m, rest) => Decoding(d.plain + p, m, rest, d.ok)
  }

  /** Bytes that arrive later do not change what was drained. */
  lemma {:induction false} DrainStable(c: Cipher, n: nat, b: seq<byte>, k: nat, more: seq<byte>)
    requires Drain(c, n, b, k).ok
    ensures Drain(c, n, b + more, k) == Drain(c, n, b, k).(rest := Drain(c, n, b, k).rest + more)
  {
    hide NextRecord;
    if k > 0 {
      var d := Drain(c, n, b, k - 1);
      DrainStable(c, n, b, k - 1, more);
      NextRecordStable(c, d.nonce, d.rest, more);
    }
  }

  /** Draining is a prefix of decoding. */
  lemma {:induction false} DrainDecode(c: Cipher, n: nat, b: seq<byte>, k: nat)
    requires Drain(c, n, b, k).ok
    ensures var d := Drain(c, n, b, k); Decode(c, n, b) == Prepend(d.plain, Decode(c, d.nonce, d.rest))
  {
    hide NextRecord;
    if k > 0 {
      var d, e := Drain(c, n, b, k - 1), Drain(c, n, b, k);
      DrainDecode(c, n, b, k - 1);
      var p, tail := NextRecord(c, d.nonce, d.rest).plain, Decode(c, e.nonce, e.rest).plain;
      assert d.plain + (p + tail) == (d.plain + p) + tail;
    }
  }

  // ---------- sealing and opening are inverse ----------

  lemma ReadSealedRecord(c: Cipher, n: nat, p: seq<byte>, rest: seq<byte>)
    requires Sound(c) && |p| <= MAX_PLAINTEXT
    ensures |c.seal(n, p)| == |p| + TAG_LEN
    ensures ReadRecord(SealRecord(c, n, p) + rest)
            == Ok(Record(APPLICATION_DATA, c.seal(n, p), |SealRecord(c, n, p)|))
    ensures (SealRecord(c, n, p) + rest)[|SealRecord(c, n, p)|..] == rest
  {
    var ct := c.seal(n, p);
    var b := SealRecord(c, n, p) + rest;
    assert b[1] == 3 && b[2] == 3;
    assert U16Of(b[3], b[4]) == |ct|;
    assert b[HEADER_LEN..HEADER_LEN + |ct|] == ct;
  }

  lemma DecodeSealedRecord(c: Cipher, n: nat, p: seq<byte>, rest: seq<byte>)
    requires Sound(c) && |p| <= MAX_PLAINTEXT && |c.seal(n, p)| == |p| + TAG_LEN
    ensures Decode(c, n, SealRecord(c, n, p) + rest) == Prepend(p, Decode(c, n + 1, rest))
  {
    hide ReadRecord, SealRecord;
    ReadSealedRecord(c, n, p, rest);
    assert Open(c, n, c.seal(n, p)) == Some(p);
  }

  /** Whatever a sender cuts and seals, a receiver with the same counter decodes to the same
      bytes, ends on a record boundary, and has advanced its counter as far as the sender. */
  lemma {:induction false} DecodeRecords(c: Cipher, n: nat, data: seq<byte>, rest: seq<byte>)
    requires Sound(c)
    ensures Decode(c, n, Records(c, n, data) + rest)
            == Prepend(data, Decode(c, n + Chunks(|data|), rest))
    decreases |data|
  {
    hide Decode, SealRecord;
    if data == [] {
      assert Records(c, n, data) + rest == rest;
    } else {
      var len := Min(|data|, MAX_PLAINTEXT);
      var p, tail := data[..len], data[len..];
      assert |c.seal(n, p)| == |p| + TAG_LEN;
      assert Records(c, n, data) + rest == SealRecord(c, n, p) + (Records(c, n + 1, tail) + rest);
      DecodeSealedRecord(c, n, p, Records(c, n + 1, tail) + rest);
      DecodeRecords(c, n + 1, tail, rest);
      assert p + tail == data;
      assert p + (tail + Decode(c, n + Chunks(|data|), rest).plain)
          == data + Decode(c, n + Chunks(|data|), rest).plain;
    }
  }

  /** What is on the wire: application data, version 3.3, the length of plaintext and tag, big-endian. */
  lemma SealedRecordLayout(c: Cipher, n: nat, p: seq<byte>)
    requires Sound(c) && |p| <= MAX_PLAINTEXT
    ensures |c.seal(n, p)| == |p| + 16
    ensures var r, len := SealRecord(c, n, p), |p| + 16;
            r == [23, 3, 3, len / 256, len % 256] + c.seal(n, p)
  {
    assert |c.seal(n, p)| == |p| + TAG_LEN;
  }

  /** A buffer is cut into as few records as possible: one for each 16368 bytes or part of them. */
  lemma {:induction false} ChunksExactly(len: nat)
    ensures Chunks(len) == (len + 16367) / 16368
  {
    if len > 16368 {
      ChunksExactly(len - 16368);
    }
  }

  lemma RecordsOfNothing(c: Cipher, n: nat)
    requires Sound(c)
    ensures Records(c, n, []) == [] && Chunks(0) == 0
  {
  }

  lemma RecordsOfOneChunk(c: Cipher, n: nat, p: seq<byte>)
    requires Sound(c) && 0 < |p| <= MAX_PLAINTEXT
    ensures |c.seal(n, p)| == |p| + TAG_LEN
    ensures Records(c, n, p) == SealRecord(c, n, p)
    ensures Chunks(|p|) == 1
  {
    hide SealRecord;
    assert |c.seal(n, p)| == |p| + TAG_LEN;
    assert p[..|p|] == p;
    assert Records(c, n + 1, p[|p|..]) == [];
  }

  /** Cutting a prefix that ends on a chunk boundary and then the remainder is cutting the whole. */
  lemma {:induction false} RecordsSplit(c: Cipher, n: nat, done: seq<byte>, more: seq<byte>)
    requires Sound(c) && |done| % MAX_PLAINTEXT == 0
    ensures Records(c, n, done + more) == Records(c, n, done) + Records(c, n + Chunks(|done|), more)
    ensures Chunks(|done + more|) == Chunks(|done|) + Chunks(|more|)
    decreases |done|
  {
    hide SealRecord;
    if done == [] {
      assert done + more == more;
      assert Records(c, n, done) + Records(c, n, more) == Records(c, n, more);
    } else {
      var tail := done[MAX_PLAINTEXT..];
      RecordsSplit(c, n + 1, tail, more);
      var whole := done + more;
      assert whole[..MAX_PLAINTEXT] == done[..MAX_PLAINTEXT];
      assert whole[MAX_PLAINTEXT..] == tail + more;
    }
  }

  /** Decoding a stream that ended on a boundary goes on with whatever is appended. */
  lemma {:induction false} DecodeAppend(c: Cipher, n: nat, b: seq<byte>, more: seq<byte>)
    requires Decode(c, n, b).ok && Decode(c, n, b).rest == []
    ensures Decode(c, n, b + more)
            == Prepend(Decode(c, n, b).plain, Decode(c, Decode(c, n, b).nonce, more))
    decreases |b|
  {
    hide NextRecord;
    match NextRecord(c, n, b)
    case Wait => assert b + more == more;
    case Bad =>
    case Go(p, m, rest) =>
      NextRecordStable(c, n, b, more);
      DecodeAppend(c, m, rest, more);
      var d := Decode(c, m, rest);
      var tail := Decode(c, d.nonce, more).plain;
      assert p + (d.plain + tail) == (p + d.plain) + tail;
  }

  /** A failed decoding stays failed whatever is appended. */
  lemma {:induction false} DecodeFailureIsFinal(c: Cipher, n: nat, b: seq<byte>, more: seq<byte>)
    requires !Decode(c, n, b).ok
    ensures !Decode(c, n, b + more).ok
    decreases |b|
  {
    hide NextRecord;
    NextRecordStable(c, n, b, more);
    var x := NextRecord(c, n, b);
    if x.Go? {
      DecodeFailureIsFinal(c, x.nonce, x.rest, more);
    }
  }

  // ---------- the assumption is not empty ----------

  /** A cipher that does nothing but append a tag satisfies `Sound`. */
  lemma SoundCipherExists() returns (c: Cipher)
    ensures Sound(c)
  {
    var tag: seq<byte> := seq(TAG_LEN, _ => 0);
    c := Cipher((n, p) => p + tag,
                (n, ct: seq<byte>) => if |ct| < TAG_LEN then None else Some(ct[..|ct| - TAG_LEN]));
    forall n: nat, p: seq<byte> {:trigger c.seal(n, p)}
      ensures |c.seal(n, p)| == |p| + TAG_LEN && c.open(n, c.seal(n, p)) == Some(p)
    {
      assert (p + tag)[..|p|] == p;
    }
  }
}
