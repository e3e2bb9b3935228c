/** The frames of a reusable session and their byte encoding. */
module Frames {
  import opened Basics

  const MAX_FRAME_PAYLOAD := 0xffff
  const PROTOCOL_VERSION: byte := 1

  datatype Frame =
    | ClientHello(version: byte, capabilities: u16)
    | OpenRequest(cmd: byte, atyp: byte, addr: seq<byte>, port: u16)
    | Data(data: seq<byte>)
    | EndRequest(reason: byte)
    | Reset(reason: byte)
    | Ping(token: u32)
    | Pong(token: u32)
    | Close(reason: byte)

  datatype FrameError =
    | UnknownFrameType(typ: byte)
    | UnexpectedEof
    | InvalidPayload
    | Io

  function TypeOf(f: Frame): byte {
    match f
    case ClientHello(_, _) => 0x01
    case OpenRequest(_, _, _, _) => 0x02
    case Data(_) => 0x03
    case EndRequest(_) => 0x04
    case Reset(_) => 0x05
    case Ping(_) => 0x06
    case Pong(_) => 0x07
    case Close(_) => 0x08
  }

  function Payload(f: Frame): seq<byte> {
    match f
    case ClientHello(version, capabilities) => [version] + U16Bytes(capabilities)
    case OpenRequest(cmd, atyp, addr, port) => [cmd, atyp] + addr + U16Bytes(port)
    case Data(data) => data
    case EndRequest(reason) => [reason]
    case Reset(reason) => [reason]
    case Ping(token) => U32Bytes(token)
    case Pong(token) => U32Bytes(token)
    case Close(reason) => [reason]
  }

  /** The length field has two bytes; `encode` panics on anything longer. */
  predicate Fits(f: Frame) {
    |Payload(f)| <= MAX_FRAME_PAYLOAD
  }

  /** `Frame::encode`; None is the panic on an oversized payload. */
  function Encode(f: Frame): Option<seq<byte>> {
    if Fits(f) then Some([TypeOf(f)] + U16Bytes(|Payload(f)|) + Payload(f)) else None
  }

  function ParsePayload(typ: byte, p: seq<byte>): Result<Frame, FrameError> {
    match typ
    case 0x01 =>
      if |p| != 3 then Err(InvalidPayload) else Ok(ClientHello(p[0], U16Of(p[1], p[2])))
    case 0x02 =>
      if |p| < 4 then Err(InvalidPayload)
      else Ok(OpenRequest(p[0], p[1], p[2..|p| - 2], U16Of(p[|p| - 2], p[|p| - 1])))
    case 0x03 => Ok(Data(p))
    case 0x04 => if |p| != 1 then Err(InvalidPayload) else Ok(EndRequest(p[0]))
    case 0x05 => if |p| != 1 then Err(InvalidPayload) else Ok(Reset(p[0]))
    case 0x06 => if |p| != 4 then Err(InvalidPayload) else Ok(Ping(U32Of(p[0], p[1], p[2], p[3])))
    case 0x07 => if |p| != 4 then Err(InvalidPayload) else Ok(Pong(U32Of(p[0], p[1], p[2], p[3])))
    case 0x08 => if |p| != 1 then Err(InvalidPayload) else Ok(Close(p[0]))
    case other => Err(UnknownFrameType(other))
  }

  /** Bytes of the frame at the front of `b`, as its length field tells. */
  function FrameLen(b: seq<byte>): nat
    requires |b| >= 3
  {
    3 + U16Of(b[1], b[2])
  }

  /** `Frame::decode`. */
  function Decode(b: seq<byte>): Result<Frame, FrameError> {
    if |b| < 3 || |b| < FrameLen(b) then Err(UnexpectedEof)
    else ParsePayload(b[0], b[3..FrameLen(b)])
  }

  /** `read_frame` on a stream that ends after `s`: the frame and what is left on the stream. */
  function ReadFrame(s: seq<byte>): (Result<Frame, FrameError>, seq<byte>) {
    if |s| < 3 || |s| < FrameLen(s) then (Err(Io), [])
    else (Decode(s[..FrameLen(s)]), s[FrameLen(s)..])
  }

  // ---------- payloads ----------

  lemma U16RoundTrip(n: u16)
    ensures U16Of(U16Bytes(n)[0], U16Bytes(n)[1]) == n
  {
  }

  lemma U32RoundTrip(n: u32)
    ensures var b := U32Bytes(n); U32Of(b[0], b[1], b[2], b[3]) == n
  {
  }

  lemma U16Canonical(hi: byte, lo: byte)
    ensures U16Bytes(U16Of(hi, lo)) == [hi, lo]
  {
  }

  lemma SplitWord(hi: u16, lo: u16)
    ensures (hi * 0x1_0000 + lo) / 0x1_0000 == hi && (hi * 0x1_0000 + lo) % 0x1_0000 == lo
  {
  }

  lemma U32Canonical(b: seq<byte>)
    requires |b| == 4
    ensures U32Bytes(U32Of(b[0], b[1], b[2], b[3])) == b
  {
    hide U16Of, U16Bytes;
    SplitWord(U16Of(b[0], b[1]), U16Of(b[2], b[3]));
    U16Canonical(b[0], b[1]);
    U16Canonical(b[2], b[3]);
  }

  lemma ParseOfPayload(f: Frame)
    ensures ParsePayload(TypeOf(f), Payload(f)) == Ok(f)
  {
    match f
    case ClientHello(v, caps) => U16RoundTrip(caps);
    case OpenRequest(cmd, atyp, addr, port) =>
      U16RoundTrip(port);
      var p := Payload(f);
      assert p[2..|p| - 2] == addr;
    case Ping(token) => U32RoundTrip(token);
    case Pong(token) => U32RoundTrip(token);
    case _ =>
  }

  lemma PayloadOfParse(typ: byte, p: seq<byte>, f: Frame)
    requires ParsePayload(typ, p) == Ok(f)
    ensures TypeOf(f) == typ && Payload(f) == p
  {
    match f
    case OpenRequest(_, _, addr, _) => OpenRequestOfParse(p, f);
    case Ping(_) => U32Canonical(p);
    case Pong(_) => U32Canonical(p);
    case _ =>
  }

  lemma OpenRequestOfParse(p: seq<byte>, f: Frame)
    requires ParsePayload(0x02, p) == Ok(f)
    ensures Payload(f) == p
  {
    U16Canonical(p[|p| - 2], p[|p| - 1]);
    assert [p[0], p[1]] + p[2..|p| - 2] + [p[|p| - 2], p[|p| - 1]] == p;
  }

  // ---------- frames ----------

  lemma DecodeEncoded(f: Frame, rest: seq<byte>)
    requires Fits(f)
    ensures var b := Encode(f).value + rest;
            |b| >= 3 && FrameLen(b) == |Encode(f).value| && Decode(b) == Ok(f)
  {
    hide ParsePayload, Payload, TypeOf;
    var e := Encode(f).value;
    var b := e + rest;
    U16RoundTrip(|Payload(f)|);
    assert b[0] == TypeOf(f) && b[1] == e[1] && b[2] == e[2];
    assert b[3..FrameLen(b)] == Payload(f);
    ParseOfPayload(f);
  }

  /** What is on the wire: the type, the payload's length big-endian, the payload. */
  lemma Layout(f: Frame)
    requires Fits(f)
    ensures var b, n := Encode(f).value, |Payload(f)|;
            && b == [TypeOf(f), n / 256, n % 256] + Payload(f)
            && b[0] == (match f
                        case ClientHello(_, _) => 1
                        case OpenRequest(_, _, _, _) => 2
                        case Data(_) => 3
                        case EndRequest(_) => 4
                        case Reset(_) => 5
                        case Ping(_) => 6
                        case Pong(_) => 7
                        case Close(_) => 8)
            && (f.OpenRequest? ==> b[3..] == [f.cmd, f.atyp] + f.addr + [f.port / 256, f.port % 256])
            && (f.ClientHello? ==> b[3..] == [f.version, f.capabilities / 256, f.capabilities % 256])
            && (f.Ping? || f.Pong? ==> U32Of(b[3], b[4], b[5], b[6]) == f.token
                                       && b[3] == f.token / 0x100_0000 && b[6] == f.token % 256)
  {
    if f.Ping? || f.Pong? {
      U32RoundTrip(f.token);
    }
  }

  /** Decoding an encoded frame gives it back, whatever follows, and reading it consumes no more. */
  lemma RoundTrip(f: Frame, rest: seq<byte>)
    requires Fits(f)
    ensures Decode(Encode(f).value) == Decode(Encode(f).value + rest) == Ok(f)
    ensures ReadFrame(Encode(f).value + rest) == (Ok(f), rest)
  {
    hide Decode, Payload, TypeOf;
    var e := Encode(f).value;
    DecodeEncoded(f, rest);
    DecodeEncoded(f, []);
    assert e + [] == e;
    assert (e + rest)[..|e|] == e && (e + rest)[|e|..] == rest;
  }

  /** The encoding is the only one: a frame that decodes re-encodes to exactly the bytes used. */
  lemma Canonical(b: seq<byte>, f: Frame)
    requires Decode(b) == Ok(f)
    ensures Fits(f) && |b| >= FrameLen(b) && Encode(f) == Some(b[..FrameLen(b)])
  {
    hide ParsePayload, Payload, TypeOf;
    PayloadOfParse(b[0], b[3..FrameLen(b)], f);
    assert b[..FrameLen(b)] == [b[0]] + [b[1], b[2]] + b[3..FrameLen(b)];
  }

  /** No encoding is a proper prefix of another. */
  lemma PrefixFree(f: Frame, g: Frame)
    requires Fits(f) && Fits(g) && Encode(f).value <= Encode(g).value
    ensures f == g
  {
    var e, d := Encode(f).value, Encode(g).value;
    var rest := d[|e|..];
    assert d == e + rest && d + [] == d;
    RoundTrip(f, rest);
    RoundTrip(g, []);
  }

  // ---------- streams of frames ----------

  /** What repeated `write_frame` puts on a stream. */
  function EncodeAll(fs: seq<Frame>): (b: seq<byte>)
    requires forall f :: f in fs ==> Fits(f)
  {
    if fs == [] then [] else Encode(fs[0]).value + EncodeAll(fs[1..])
  }

  /** What repeated `read_frame` takes off a stream: the frames, and how it ended. */
  function ReadAll(s: seq<byte>): (seq<Frame>, Option<FrameError>)
    decreases |s|
  {
    if s == [] then ([], None)
    else
      var (r, rest) := ReadFrame(s);
      if r.Err? then ([], Some(r.error))
      else
        var (fs, end) := ReadAll(rest);
        ([r.value] + fs, end)
  }

  /** A stream of encoded frames reads back as exactly those frames. */
  lemma {:induction false} StreamRoundTrip(fs: seq<Frame>)
    requires forall f :: f in fs ==> Fits(f)
    ensures ReadAll(EncodeAll(fs)) == (fs, None)
  {
    hide Encode, ReadFrame;
    if fs != [] {
      RoundTrip(fs[0], EncodeAll(fs[1..]));
      EncodingNonEmpty(fs[0]);
      StreamRoundTrip(fs[1..]);
      assert [fs[0]] + fs[1..] == fs;
    }
  }

  lemma EncodingNonEmpty(f: Frame)
    requires Fits(f)
    ensures Encode(f).value != []
  {
    assert |Encode(f).value| >= 3;
  }
}
