/**
 The Trojan-like request header and datagrams, and the translation of a header into an
 OpenRequest frame and back into an address.
 */
module Trojan {
  import opened Basics
  import opened Frames

  const CONNECT: byte := 0x01
  const UDP_ASSOCIATE: byte := 0x03
  const CR: byte := 0x0d
  const LF: byte := 0x0a

  /** `socks5_protocol::Address`; a domain is a Rust `String`, so its bytes are UTF-8. */
  datatype Addr =
    | V4(ip: seq<byte>, port: u16)
    | V6(ip: seq<byte>, port: u16)
    | Domain(name: seq<byte>, port: u16)

  predicate Continuation(b: byte) {
    0x80 <= b < 0xc0
  }

  /** Section 4 of RFC 3629. */
  predicate ValidUtf8(b: seq<byte>)
    decreases |b|
  {
    || b == []
    || (b[0] < 0x80 && ValidUtf8(b[1..]))
    || (|b| >= 2 && 0xc2 <= b[0] < 0xe0 && Continuation(b[1]) && ValidUtf8(b[2..]))
    || (|b| >= 3 && 0xe0 <= b[0] < 0xf0 && Continuation(b[1]) && Continuation(b[2])
        && (b[0] == 0xe0 ==> b[1] >= 0xa0) && (b[0] == 0xed ==> b[1] < 0xa0) && ValidUtf8(b[3..]))
    || (|b| >= 4 && 0xf0 <= b[0] < 0xf5 && Continuation(b[1]) && Continuation(b[2]) && Continuation(b[3])
        && (b[0] == 0xf0 ==> b[1] >= 0x90) && (b[0] == 0xf4 ==> b[1] < 0x90) && ValidUtf8(b[4..]))
  }

  /** An address Rust's types can hold. */
  predicate AddrOk(a: Addr) {
    match a
    case V4(ip, _) => |ip| == 4
    case V6(ip, _) => |ip| == 16
    case Domain(name, _) => ValidUtf8(name)
  }

  /** The address layout of section 5 of RFC 1928; None when the domain is too long to be sent. */
  function WriteAddr(a: Addr): Option<seq<byte>> {
    match a
    case V4(ip, port) => Some([0x01] + ip + U16Bytes(port))
    case V6(ip, port) => Some([0x04] + ip + U16Bytes(port))
    case Domain(name, port) =>
      if |name| >= 0x100 then None else Some([0x03, |name|] + name + U16Bytes(port))
  }

  datatype ReadError = Eof | BadCommand | BadAddressType | BadUtf8 | Malformed

  /** `n` address bytes and a port. */
  function ReadHostPort(s: seq<byte>, n: nat): Option<(seq<byte>, u16, seq<byte>)> {
    if |s| < n + 2 then None else Some((s[..n], U16Of(s[n], s[n + 1]), s[n + 2..]))
  }

  /** `Address::read`. */
  function ReadAddr(s: seq<byte>): (r: Result<(Addr, seq<byte>), ReadError>)
    ensures r.Ok? ==> AddrOk(r.value.0)
  {
    if s == [] then Err(Eof)
    else if s[0] == 0x01 then
      match ReadHostPort(s[1..], 4)
      case None => Err(Eof)
      case Some((ip, port, rest)) => Ok((V4(ip, port), rest))
    else if s[0] == 0x04 then
      match ReadHostPort(s[1..], 16)
      case None => Err(Eof)
      case Some((ip, port, rest)) => Ok((V6(ip, port), rest))
    else if s[0] == 0x03 then
      if |s| < 2 then Err(Eof)
      else
        match ReadHostPort(s[2..], s[1])
        case None => Err(Eof)
        case Some((name, port, rest)) =>
          if ValidUtf8(name) then Ok((Domain(name, port), rest)) else Err(BadUtf8)
    else Err(BadAddressType)
  }

  lemma AddrRoundTrip(a: Addr, rest: seq<byte>)
    requires AddrOk(a) && WriteAddr(a).Some?
    ensures ReadAddr(WriteAddr(a).value + rest) == Ok((a, rest))
  {
    hide ValidUtf8;
    var s := WriteAddr(a).value + rest;
    U16RoundTrip(a.port);
    var host, at := if a.Domain? then a.name else a.ip, if a.Domain? then 2 else 1;
    var t := s[at..];
    assert t == host + U16Bytes(a.port) + rest;
    assert t[..|host|] == host && t[|host| + 2..] == rest;
    assert t[|host|] == U16Bytes(a.port)[0] && t[|host| + 1] == U16Bytes(a.port)[1];
  }

  // ---------- requests ----------

  datatype Request = Request(cmd: byte, addr: Addr)

  /** `TrojanLikeRequest::encoded`; None is the panic on an over-long domain. */
  function EncodeRequest(r: Request): Option<seq<byte>> {
    match WriteAddr(r.addr)
    case None => None
    case Some(a) => Some([r.cmd] + a + [CR, LF])
  }

  /** `read_trojan_like_request`: the request and the payload after it. */
  function ReadRequest(s: seq<byte>): Result<(Request, seq<byte>), ReadError> {
    if s == [] then Err(Eof)
    else if s[0] != CONNECT && s[0] != UDP_ASSOCIATE then Err(BadCommand)
    else
      match ReadAddr(s[1..])
      case Err(e) => Err(e)
      case Ok((addr, rest)) =>
        if |rest| < 2 then Err(Eof)
        else if rest[0] != CR || rest[1] != LF then Err(Malformed)
        else Ok((Request(s[0], addr), rest[2..]))
  }

  /** What is on the wire: the command, the address as section 5 of RFC 1928 has it, CR and LF. */
  lemma RequestLayout(r: Request, b: seq<byte>)
    requires EncodeRequest(r) == Some(b)
    ensures var port := [r.addr.port / 256, r.addr.port % 256];
            b == match r.addr
                 case V4(ip, _) => [r.cmd, 1] + ip + port + [13, 10]
                 case V6(ip, _) => [r.cmd, 4] + ip + port + [13, 10]
                 case Domain(name, _) => [r.cmd, 3, |name|] + name + port + [13, 10]
  {
  }

  lemma RequestRoundTrip(r: Request, payload: seq<byte>)
    requires r.cmd == CONNECT || r.cmd == UDP_ASSOCIATE
    requires AddrOk(r.addr) && EncodeRequest(r).Some?
    ensures ReadRequest(EncodeRequest(r).value + payload) == Ok((r, payload))
  {
    hide ReadAddr, WriteAddr, AddrOk;
    var a := WriteAddr(r.addr).value;
    var s := EncodeRequest(r).value + payload;
    assert s[1..] == a + ([CR, LF] + payload);
    AddrRoundTrip(r.addr, [CR, LF] + payload);
    assert ([CR, LF] + payload)[2..] == payload;
  }

  // ---------- the reusable path ----------

  datatype HeaderError = Missing | Unsupported | Truncated | Panics

  /** Where the address bytes start and how many there are; None for an unknown type or a missing
      length byte. */
  function Host(b: seq<byte>): Option<(nat, nat)>
    requires |b| >= 2
  {
    if b[1] == 0x01 then Some((2, 4))
    else if b[1] == 0x04 then Some((2, 16))
    else if b[1] == 0x03 && |b| >= 3 then Some((3, b[2]))
    else None
  }

  /** `open_request_from_trojan_header`. */
  function OpenRequestOf(outbuf: Option<seq<byte>>): Result<Frame, HeaderError> {
    match outbuf
    case None => Err(Missing)
    case Some(b) =>
      if |b| < 2 then Err(Panics)
      else
        match Host(b)
        case None => if b[1] == 0x03 then Err(Panics) else Err(Unsupported)
        case Some((at, n)) =>
          if |b| < at + n + 2 then Err(Truncated)
          else Ok(OpenRequest(b[0], b[1], b[at..at + n], U16Of(b[at + n], b[at + n + 1])))
  }

  /** `trojan_header_len`. */
  function HeaderLen(b: seq<byte>): (r: Result<nat, HeaderError>)
    ensures r.Ok? ==> r.value <= |b|
  {
    if |b| < 4 then Err(Truncated)
    else
      match Host(b)
      case None => Err(Unsupported)
      case Some((at, n)) => if |b| < at + n + 4 then Err(Truncated) else Ok(at + n + 4)
  }

  datatype FrameAddrError = BadLength | BadEncoding | BadType

  /** `frame_addr_to_trojan_addr`. */
  function FrameAddr(atyp: byte, addr: seq<byte>, port: u16): Result<Addr, FrameAddrError> {
    if atyp == 0x01 then if |addr| == 4 then Ok(V4(addr, port)) else Err(BadLength)
    else if atyp == 0x04 then if |addr| == 16 then Ok(V6(addr, port)) else Err(BadLength)
    else if atyp == 0x03 then if ValidUtf8(addr) then Ok(Domain(addr, port)) else Err(BadEncoding)
    else Err(BadType)
  }

  /** Both readers find the same address at the same place. */
  lemma SameAddress(b: seq<byte>)
    requires |b| >= 2
    ensures ReadAddr(b[1..]).Ok? <==> OpenRequestOf(Some(b)).Ok? && OpenedAddr(b).Ok?
    ensures ReadAddr(b[1..]).Ok? ==>
              var (at, n) := Host(b).value;
              at + n + 2 <= |b| && OpenedAddr(b) == Ok(ReadAddr(b[1..]).value.0)
              && ReadAddr(b[1..]).value.1 == b[at + n + 2..]
  {
    hide ValidUtf8;
    if Host(b).Some? {
      var (at, n) := Host(b).value;
      assert b[1..][at - 1..] == b[at..];
      if |b| >= at + n + 2 {
        assert b[at..][..n] == b[at..at + n];
        assert b[at..][n + 2..] == b[at + n + 2..];
      }
    }
  }

  lemma ReadAddrOfNothing()
    ensures ReadAddr([]) == Err(Eof)
  {
  }

  /** The address the reusable server takes from the client's frame. */
  function OpenedAddr(b: seq<byte>): Result<Addr, FrameAddrError>
    requires OpenRequestOf(Some(b)).Ok?
  {
    var f := OpenRequestOf(Some(b)).value;
    FrameAddr(f.atyp, f.addr, f.port)
  }

  /**
   On every buffer: the one-shot server reads a Connect request exactly when the reusable client
   can turn it into a frame, the reusable server can turn that frame into an address, and the
   header ends in CRLF; and then both paths have the same address and split off the same payload.
   */
  lemma PathsAgree(b: seq<byte>)
    ensures ReadRequest(b).Ok? && ReadRequest(b).value.0.cmd == CONNECT <==> ReusableAccepts(b)
    ensures ReusableAccepts(b) ==>
              && OpenedAddr(b) == Ok(ReadRequest(b).value.0.addr)
              && b[HeaderLen(b).value..] == ReadRequest(b).value.1
  {
    hide FrameAddr, ReadAddr;
    ReadAddrOfNothing();
    if |b| >= 2 {
      SameAddress(b);
      if Host(b).Some? {
        var (at, n) := Host(b).value;
        if |b| >= at + n + 4 {
          assert b[at + n + 2..][2..] == b[at + n + 4..];
        }
      }
    } else if b != [] {
      assert b[1..] == [];
    }
  }

  /** A header without its CRLF: the reusable path opens it, the one-shot server refuses it. */
  lemma CrlfOnlyMattersOneShot(b: seq<byte>)
    requires b == [CONNECT, 0x01, 127, 0, 0, 1, 0, 80, 0, 0]
    ensures OpenRequestOf(Some(b)).Ok? && OpenRequestOf(Some(b)).value.cmd == CONNECT
    ensures OpenedAddr(b) == Ok(V4([127, 0, 0, 1], 80)) && HeaderLen(b) == Ok(|b|)
    ensures ReadRequest(b) == Err(Malformed)
  {
    assert b[2..6] == [127, 0, 0, 1];
    assert |b[1..]| == 9 && b[1..][1..] == b[2..];
    assert b[2..][6..] == b[8..];
  }

  /** The frame carries the request over the wire unchanged. */
  lemma OpenRequestSurvives(b: seq<byte>)
    requires OpenRequestOf(Some(b)).Ok?
    ensures var f := OpenRequestOf(Some(b)).value;
            Fits(f) && Frames.Decode(Encode(f).value) == Ok(f)
  {
    hide Frames.Decode, Encode;
    RoundTrip(OpenRequestOf(Some(b)).value, []);
  }

  /** What the reusable path asks of a buffer, and the CRLF only the one-shot path looks at. */
  predicate ReusableAccepts(b: seq<byte>) {
    var open, len := OpenRequestOf(Some(b)), HeaderLen(b);
    && open.Ok? && len.Ok? && open.value.cmd == CONNECT && OpenedAddr(b).Ok?
    && len.value >= 2 && b[len.value - 2] == CR && b[len.value - 1] == LF
  }

  /** So for every request the client can encode, whatever payload follows it. */
  lemma ReusablePathMeansOneShot(addr: Addr, payload: seq<byte>)
    requires AddrOk(addr) && EncodeRequest(Request(CONNECT, addr)).Some?
    ensures var h := EncodeRequest(Request(CONNECT, addr)).value;
            var open := OpenRequestOf(Some(h + payload));
            && open.Ok? && Fits(open.value) && Frames.Decode(Encode(open.value).value) == Ok(open.value)
            && FrameAddr(open.value.atyp, open.value.addr, open.value.port) == Ok(addr)
            && HeaderLen(h + payload) == Ok(|h|)
  {
    hide OpenRequestOf, FrameAddr, ReadRequest, Encode, Frames.Decode, EncodeRequest, HeaderLen;
    RequestRoundTrip(Request(CONNECT, addr), payload);
    var h := EncodeRequest(Request(CONNECT, addr)).value;
    var b := h + payload;
    PathsAgree(b);
    OpenRequestSurvives(b);
    assert |b[HeaderLen(b).value..]| == |payload|;
  }

  // ---------- datagrams ----------

  /** `send_to`: the length field keeps only the low sixteen bits. */
  function SendTo(data: seq<byte>, a: Addr): Option<seq<byte>> {
    match WriteAddr(a)
    case None => None
    case Some(w) => Some(w + U16Bytes(|data| % 0x1_0000) + [CR, LF] + data)
  }

  datatype Received =
    | Datagram(data: seq<byte>, addr: Addr, rest: seq<byte>)
    | Closed
    | Failed
    | TooBig

  /** `recv_from` into a buffer of `room` bytes; TooBig is its failed assertion. */
  function RecvFrom(s: seq<byte>, room: nat): Received {
    match ReadAddr(s)
    case Err(Eof) => Closed
    case Err(_) => Failed
    case Ok((a, t)) =>
      if |t| < 4 then Failed
      else
        var len := U16Of(t[0], t[1]);
        if t[2] != CR || t[3] != LF then Failed
        else if len >= room then TooBig
        else if |t| < 4 + len then Failed
        else Datagram(t[4..4 + len], a, t[4 + len..])
  }

  /** 65536 bytes are announced as none: the receiver sees an empty datagram, and its bytes as what
      follows. */
  lemma LongDatagramIsLost(data: seq<byte>, a: Addr, rest: seq<byte>, room: nat)
    requires AddrOk(a) && SendTo(data, a).Some? && |data| == 0x1_0000 && room > 0
    ensures RecvFrom(SendTo(data, a).value + rest, room) == Datagram([], a, data + rest)
  {
    hide ReadAddr, WriteAddr, AddrOk;
    var t := U16Bytes(0) + [CR, LF] + data + rest;
    assert SendTo(data, a).value + rest == WriteAddr(a).value + t;
    AddrRoundTrip(a, t);
    assert t[0] == 0 && t[1] == 0 && t[2] == CR && t[3] == LF;
    assert t[4..4] == [] && t[4..] == data + rest;
  }

  /** A datagram arrives intact, and the stream stays in step, exactly when it is shorter than both
      the length field's range and the receiver's buffer. */
  lemma DatagramRoundTrip(data: seq<byte>, a: Addr, rest: seq<byte>, room: nat)
    requires AddrOk(a) && SendTo(data, a).Some?
    ensures RecvFrom(SendTo(data, a).value + rest, room) == Datagram(data, a, rest)
            <==> |data| < 0x1_0000 && |data| < room
  {
    hide ReadAddr, WriteAddr, AddrOk;
    var len := |data| % 0x1_0000;
    var t := U16Bytes(len) + [CR, LF] + data + rest;
    assert SendTo(data, a).value + rest == WriteAddr(a).value + t;
    AddrRoundTrip(a, t);
    U16RoundTrip(len);
    assert t[0] == U16Bytes(len)[0] && t[1] == U16Bytes(len)[1] && t[2] == CR && t[3] == LF;
    if |data| < 0x1_0000 {
      assert t[4..4 + len] == data && t[4 + len..] == rest;
    } else {
      assert |t[4..4 + len]| != |data|;
    }
  }
}
