/** The bytes of a ClientHello message (section 4.1.2 of RFC 8446), and how many there are. */
module HelloCodec {
  import opened Basics
  import opened Fingerprint

  // ---------- bytes ----------

  /** A vector behind a one-byte length; like the encoder, only the low bits of a longer one are kept. */
  function Vec8(b: seq<byte>): seq<byte> {
    [|b| % 0x100] + b
  }

  function Vec16(b: seq<byte>): seq<byte> {
    U16Bytes(|b| % 0x1_0000) + b
  }

  function U16s(vs: seq<u16>): (b: seq<byte>)
    ensures |b| == 2 * |vs|
  {
    if vs == [] then [] else U16s(vs[..|vs| - 1]) + U16Bytes(vs[|vs| - 1])
  }

  /** Protocol names, each behind its length. */
  function Names(names: seq<seq<byte>>): seq<byte> {
    if names == [] then [] else Names(names[..|names| - 1]) + Vec8(names[|names| - 1])
  }

  function ShareBytes(ss: seq<Share>): seq<byte> {
    if ss == [] then []
    else
      var s := ss[|ss| - 1];
      ShareBytes(ss[..|ss| - 1]) + U16Bytes(s.group) + Vec16(s.key)
  }

  function Body(e: Extension): seq<byte> {
    match e
    case NamedGroups(gs) => Vec16(U16s(gs))
    case ECPointFormats(fs) => Vec8(fs)
    case Protocols(names) => Vec16(Names(names))
    case SupportedVersions(vs) => Vec8(U16s(vs))
    case SignatureAlgorithms(vs) => Vec16(U16s(vs))
    case KeyShare(ss) => Vec16(ShareBytes(ss))
    case Unknown(_, payload) => payload
    case Other(_, body) => body
  }

  function ExtensionBytes(es: seq<Extension>): seq<byte> {
    if es == [] then []
    else
      var e := es[|es| - 1];
      ExtensionBytes(es[..|es| - 1]) + U16Bytes(TypeOf(e)) + Vec16(Body(e))
  }

  /** `head` is version, random and session id, `tail` the compression methods. No extensions, no
      extension block. */
  function HelloBody(head: seq<byte>, ciphers: seq<u16>, tail: seq<byte>, es: seq<Extension>): seq<byte> {
    head + Vec16(U16s(ciphers)) + tail + if es == [] then [] else Vec16(ExtensionBytes(es))
  }

  /** The handshake message: its type, a three-byte length and the hello. */
  function Encode(head: seq<byte>, ciphers: seq<u16>, tail: seq<byte>, es: seq<Extension>): seq<byte> {
    var b := HelloBody(head, ciphers, tail, es);
    [0x01] + [|b| / 0x1_0000 % 0x100] + U16Bytes(|b| % 0x1_0000) + b
  }

  // ---------- lengths ----------

  function NamesLen(names: seq<seq<byte>>): nat {
    if names == [] then 0 else NamesLen(names[..|names| - 1]) + 1 + |names[|names| - 1]|
  }

  function SharesLen(ss: seq<Share>): nat {
    if ss == [] then 0 else SharesLen(ss[..|ss| - 1]) + 2 + 2 + |ss[|ss| - 1].key|
  }

  /** Bytes of one encoded extension: type, length and body. */
  function ExtLen(e: Extension): nat {
    4 + match e
        case NamedGroups(gs) => 2 + 2 * |gs|
        case ECPointFormats(fs) => 1 + |fs|
        case Protocols(names) => 2 + NamesLen(names)
        case SupportedVersions(vs) => 1 + 2 * |vs|
        case SignatureAlgorithms(vs) => 2 + 2 * |vs|
        case KeyShare(ss) => 2 + SharesLen(ss)
        case Unknown(_, payload) => |payload|
        case Other(_, body) => |body|
  }

  function SumLen(es: seq<Extension>): nat {
    if es == [] then 0 else SumLen(es[..|es| - 1]) + ExtLen(es[|es| - 1])
  }

  /** Bytes of the message; `fixed` is everything but suites and extensions. */
  function EncodedLen(fixed: nat, ciphers: seq<u16>, es: seq<Extension>): nat {
    fixed + 2 * |ciphers| + if es == [] then 0 else 2 + SumLen(es)
  }

  lemma {:induction false} NamesLength(names: seq<seq<byte>>)
    ensures |Names(names)| == NamesLen(names)
  {
    if names != [] {
      NamesLength(names[..|names| - 1]);
    }
  }

  lemma {:induction false} SharesLength(ss: seq<Share>)
    ensures |ShareBytes(ss)| == SharesLen(ss)
  {
    if ss != [] {
      SharesLength(ss[..|ss| - 1]);
    }
  }

  lemma BodyLength(e: Extension)
    ensures |U16Bytes(TypeOf(e)) + Vec16(Body(e))| == ExtLen(e)
  {
    if e.Protocols? {
      NamesLength(e.alpn);
    } else if e.KeyShare? {
      SharesLength(e.shares);
    }
  }

  lemma {:induction false} ExtensionsLength(es: seq<Extension>)
    ensures |ExtensionBytes(es)| == SumLen(es)
  {
    hide ExtLen, Body, Vec16;
    if es != [] {
      var n := |es| - 1;
      ExtensionsLength(es[..n]);
      BodyLength(es[n]);
      assert |ExtensionBytes(es)| == |ExtensionBytes(es[..n])| + |U16Bytes(TypeOf(es[n])) + Vec16(Body(es[n]))|;
    }
  }

  /** The encoding is as long as the lengths of its parts add up to. */
  lemma EncodingLength(head: seq<byte>, ciphers: seq<u16>, tail: seq<byte>, es: seq<Extension>)
    ensures |Encode(head, ciphers, tail, es)| == EncodedLen(6 + |head| + |tail|, ciphers, es)
  {
    ExtensionsLength(es);
  }

  // ---------- what the dummies say ----------

  /** A dummy is a well-formed extension of its kind: an empty renegotiation info, the one protocol h2
      for ALPS, brotli as the one way to compress certificates, and nothing for any other type. */
  lemma DummiesSayLittle(t: u16)
    ensures Dummy(t) ==
              Unknown(t, if t == 0xff01 then Vec8([])
                         else if t == 0x4469 then Vec16(Names([['h' as int, '2' as int]]))
                         else if t == 0x001b then Vec8(U16s([0x0002]))
                         else [])
  {
    var h2: seq<byte> := ['h' as int, '2' as int];
    assert [h2][..0] == [] && Names([h2]) == Names([]) + Vec8(h2);
    var brotli: seq<u16> := [0x0002];
    assert brotli[..0] == [] && U16s(brotli) == U16s([]) + U16Bytes(0x0002);
  }
}
