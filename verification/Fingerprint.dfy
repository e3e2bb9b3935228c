/**
 Rewriting a ClientHello to match a fingerprint: the data, and the first pass, which puts the
 extensions into the order of a list.

 Randomness is a parameter: `order` is the JA3 extension list after its GREASE entries were redrawn.
 */
module Fingerprint {
  import opened Basics

  const NAMED_GROUPS: u16 := 0x000a
  const EC_POINT_FORMATS: u16 := 0x000b
  const SIGNATURE_ALGORITHMS: u16 := 0x000d
  const ALPN: u16 := 0x0010
  const PADDING: u16 := 0x0015
  const COMPRESS_CERTIFICATE: u16 := 0x001b
  const SUPPORTED_VERSIONS: u16 := 0x002b
  const KEY_SHARE: u16 := 0x0033
  const ALPS: u16 := 0x4469
  const RENEGOTIATION_INFO: u16 := 0xff01
  const PADDING_TARGET := 512

  datatype Share = Share(group: u16, key: seq<byte>)

  /** `ClientExtension`; `Other` is any extension with a type of its own that is left alone. */
  datatype Extension =
    | NamedGroups(groups: seq<u16>)
    | ECPointFormats(formats: seq<byte>)
    | Protocols(alpn: seq<seq<byte>>)
    | SupportedVersions(versions: seq<u16>)
    | SignatureAlgorithms(algos: seq<u16>)
    | KeyShare(shares: seq<Share>)
    | Unknown(typ: u16, payload: seq<byte>)
    | Other(otherTyp: u16, body: seq<byte>)

  function TypeOf(e: Extension): u16 {
    match e
    case NamedGroups(_) => NAMED_GROUPS
    case ECPointFormats(_) => EC_POINT_FORMATS
    case Protocols(_) => ALPN
    case SupportedVersions(_) => SUPPORTED_VERSIONS
    case SignatureAlgorithms(_) => SIGNATURE_ALGORITHMS
    case KeyShare(_) => KEY_SHARE
    case Unknown(typ, _) => typ
    case Other(typ, _) => typ
  }

  function Types(es: seq<Extension>): seq<u16> {
    seq(|es|, i requires 0 <= i < |es| => TypeOf(es[i]))
  }

  datatype Ja3 = Ja3(version: u16, ciphers: seq<u16>, extensions: seq<u16>, curves: seq<u16>, formats: seq<byte>)

  datatype Spec = Spec(ja3: Option<Ja3>, alpn: Option<seq<seq<byte>>>, algos: Option<seq<u16>>,
                       versions: Option<seq<u16>>, shares: Option<seq<u16>>)

  /** RFC 8701: 0x0a0a, 0x1a1a, up to 0xfafa. */
  predicate IsGrease(v: u16) {
    v / 0x100 == v % 0x100 && v % 0x10 == 0x0a
  }

  // ---------- matching the extension order ----------

  /** The extensions by type; of several with one type the last wins. */
  function MapOf(es: seq<Extension>): map<u16, Extension> {
    if es == [] then map[] else MapOf(es[..|es| - 1])[TypeOf(es[|es| - 1]) := es[|es| - 1]]
  }

  /** What stands in for a listed extension the message does not have. */
  function Dummy(typ: u16): Extension {
    Unknown(typ,
            if typ == RENEGOTIATION_INFO then [0x00]
            else if typ == ALPS then [0x00, 0x03, 0x02, 0x68, 0x32]
            else if typ == COMPRESS_CERTIFICATE then [0x02, 0x00, 0x02]
            else [])
  }

  /** The listed extensions in list order; None is the panic on a missing ALPN extension. */
  function Listed(m: map<u16, Extension>, order: seq<u16>, add: bool): Option<seq<Extension>> {
    if order == [] then Some([])
    else
      var t := order[0];
      if t in m then Cons(m[t], Listed(m - {t}, order[1..], add))
      else if !add then Listed(m, order[1..], add)
      else if t == ALPN then None
      else Cons(Dummy(t), Listed(m, order[1..], add))
  }

  function Cons(e: Extension, tail: Option<seq<Extension>>): Option<seq<Extension>> {
    if tail.None? then None else Some([e] + tail.value)
  }

  predicate NoRepeat(ts: seq<u16>) {
    forall i, j :: 0 <= i < j < |ts| ==> ts[i] != ts[j]
  }

  /** The same extensions, each type once, in some order. */
  ghost predicate Lists(es: seq<Extension>, m: map<u16, Extension>) {
    NoRepeat(Types(es)) && MapOf(es) == m
  }

  function Set(ts: seq<u16>): set<u16> {
    set t | t in ts
  }

  method BuildMap(es: seq<Extension>) returns (m: map<u16, Extension>)
    ensures m == MapOf(es)
  {
    m := map[];
    for i := 0 to |es|
      invariant m == MapOf(es[..i])
    {
      assert es[..i + 1][..i] == es[..i];
      m := m[TypeOf(es[i]) := es[i]];
    }
    assert es[..|es|] == es;
  }

  /** `into_values`: every value once, in an order the caller cannot rely on. */
  method Values(m: map<u16, Extension>) returns (es: seq<Extension>)
    requires forall t :: t in m ==> TypeOf(m[t]) == t
    ensures Lists(es, m)
  {
    hide Lists;
    es := [];
    var left := m;
    ListsNothing();
    assert m - left.Keys == map[];
    while left != map[]
      invariant left.Keys <= m.Keys && forall t :: t in left ==> left[t] == m[t]
      invariant Lists(es, m - left.Keys)
      decreases |left|
    {
      assert left.Keys != {};
      var t :| t in left;
      ListsSnoc(es, m - left.Keys, m[t]);
      es := es + [m[t]];
      assert (m - left.Keys)[t := m[t]] == m - (left - {t}).Keys;
      left := left - {t};
    }
    assert m - left.Keys == m;
  }

  lemma ListsSnoc(es: seq<Extension>, m: map<u16, Extension>, e: Extension)
    requires Lists(es, m) && TypeOf(e) !in m
    ensures Lists(es + [e], m[TypeOf(e) := e])
  {
    MapOfKeys(es);
    assert (es + [e])[..|es|] == es;
    assert Types(es + [e]) == Types(es) + [TypeOf(e)];
  }

  lemma {:induction false} MapOfKeys(es: seq<Extension>)
    ensures forall t :: t in MapOf(es) <==> t in Types(es)
    ensures forall t :: t in MapOf(es) ==> TypeOf(MapOf(es)[t]) == t && MapOf(es)[t] in es
  {
    if es != [] {
      var n := |es| - 1;
      MapOfKeys(es[..n]);
      assert es == es[..n] + [es[n]];
      assert Types(es) == Types(es[..n]) + [TypeOf(es[n])];
    }
  }

  /** Of several extensions of one type the last is the one that counts. */
  lemma {:induction false} LastOfTypeCounts(es: seq<Extension>, k: nat)
    requires k < |es| && forall i :: k < i < |es| ==> TypeOf(es[i]) != TypeOf(es[k])
    ensures TypeOf(es[k]) in MapOf(es) && MapOf(es)[TypeOf(es[k])] == es[k]
  {
    var n := |es| - 1;
    if k < n {
      LastOfTypeCounts(es[..n], k);
    }
  }

  /** The first pass: listed extensions first, then, unless dropped, the rest in hash-map order. */
  method Reorder(es: seq<Extension>, order: seq<u16>, add: bool, drop: bool)
    returns (r: Option<seq<Extension>>, ghost rest: seq<Extension>)
    ensures r.None? <==> Listed(MapOf(es), order, add).None?
    ensures r.Some? ==>
              && r.value == Listed(MapOf(es), order, add).value + rest
              && if drop then rest == [] else Lists(rest, MapOf(es) - Set(order))
  {
    hide Listed, Lists, MapOf;
    var m := BuildMap(es);
    MapOfKeys(es);
    ghost var m0 := m;
    var new_: seq<Extension> := [];
    rest := [];
    var i := 0;
    assert order[0..] == order;
    AppendNothing(Listed(m0, order, add));
    while i < |order|
      invariant 0 <= i <= |order|
      invariant m == m0 - Set(order[..i])
      invariant Listed(m0, order, add) == Append(new_, Listed(m, order[i..], add))
    {
      var t := order[i];
      ListedStep(m, order[i..], add);
      assert order[i..][1..] == order[i + 1..];
      assert Set(order[..i + 1]) == Set(order[..i]) + {t} by { assert order[..i + 1] == order[..i] + [t]; }
      if t in m {
        AppendCons(new_, m[t], Listed(m - {t}, order[i + 1..], add));
        new_ := new_ + [m[t]];
        m := m - {t};
      } else if add {
        if t == ALPN {
          return None, rest;
        }
        AppendCons(new_, Dummy(t), Listed(m, order[i + 1..], add));
        new_ := new_ + [Dummy(t)];
      }
      i := i + 1;
    }
    ListedStep(m, order[i..], add);
    assert order[..i] == order;
    assert new_ + [] == new_;
    if !drop {
      var extra := Values(m);
      rest := extra;
      new_ := new_ + extra;
    }
    r := Some(new_);
  }

  function Append(front: seq<Extension>, tail: Option<seq<Extension>>): Option<seq<Extension>> {
    if tail.None? then None else Some(front + tail.value)
  }

  lemma AppendNothing(tail: Option<seq<Extension>>)
    ensures Append([], tail) == tail
  {
    if tail.Some? {
      assert [] + tail.value == tail.value;
    }
  }

  lemma AppendCons(front: seq<Extension>, e: Extension, tail: Option<seq<Extension>>)
    ensures Append(front, Cons(e, tail)) == Append(front + [e], tail)
  {
    if tail.Some? {
      assert front + ([e] + tail.value) == front + [e] + tail.value;
    }
  }

  /** One unfolding of `Listed`. */
  lemma ListedStep(m: map<u16, Extension>, order: seq<u16>, add: bool)
    ensures order == [] ==> Listed(m, order, add) == Some([])
    ensures order != [] ==>
              var t := order[0];
              Listed(m, order, add) ==
                if t in m then Cons(m[t], Listed(m - {t}, order[1..], add))
                else if !add then Listed(m, order[1..], add)
                else if t == ALPN then None
                else Cons(Dummy(t), Listed(m, order[1..], add))
  {
  }

  // ---------- what that order is ----------

  predicate TypedMap(m: map<u16, Extension>) {
    forall t :: t in m ==> TypeOf(m[t]) == t
  }

  lemma TypesCons(e: Extension, es: seq<Extension>)
    ensures Types([e] + es) == [TypeOf(e)] + Types(es)
  {
  }

  /** Adding what is missing, the types are exactly the list. */
  lemma {:induction false} AddingMatchesList(m: map<u16, Extension>, order: seq<u16>)
    requires TypedMap(m) && Listed(m, order, true).Some?
    ensures Types(Listed(m, order, true).value) == order
  {
    if order != [] {
      var t := order[0];
      var rest := if t in m then m - {t} else m;
      AddingMatchesList(rest, order[1..]);
      TypesCons(if t in m then m[t] else Dummy(t), Listed(rest, order[1..], true).value);
      assert order == [t] + order[1..];
    }
  }

  /** What stands at place `i` of the list: the message's own extension where its type is listed
      first, and otherwise a dummy. */
  function ListedAs(m: map<u16, Extension>, order: seq<u16>, i: nat): Extension
    requires i < |order|
  {
    if order[i] in m && order[i] !in order[..i] then m[order[i]] else Dummy(order[i])
  }

  /** Adding what is missing, every extension of the message that is listed is kept as it was. */
  lemma {:induction false} AddingKeepsContents(m: map<u16, Extension>, order: seq<u16>, i: nat)
    requires Listed(m, order, true).Some? && i < |order|
    ensures |Listed(m, order, true).value| == |order|
    ensures Listed(m, order, true).value[i] == ListedAs(m, order, i)
  {
    var t := order[0];
    var rest, tail := if t in m then m - {t} else m, order[1..];
    if |order| == 1 {
      assert tail == [];
    } else if i == 0 {
      AddingKeepsContents(rest, tail, 0);
    } else {
      AddingKeepsContents(rest, tail, i - 1);
      assert order[..i] == [t] + tail[..i - 1];
    }
  }

  /** Whatever is listed is the message's own extension of that type or a dummy. */
  lemma {:induction false} ListedMembers(m: map<u16, Extension>, order: seq<u16>, add: bool)
    requires TypedMap(m) && Listed(m, order, add).Some?
    ensures forall e :: e in Listed(m, order, add).value ==>
              && TypeOf(e) in order
              && (e == Dummy(TypeOf(e)) || (TypeOf(e) in m && m[TypeOf(e)] == e))
  {
    if order != [] {
      var t := order[0];
      assert order == [t] + order[1..];
      ListedMembers(if t in m then m - {t} else m, order[1..], add);
    }
  }

  /** A type that comes a second time comes as a dummy. */
  predicate RepeatsAreDummies(es: seq<Extension>) {
    forall i, j :: 0 <= i < j < |es| && TypeOf(es[i]) == TypeOf(es[j]) ==> es[j] == Dummy(TypeOf(es[j]))
  }

  lemma {:induction false} ListedOnce(m: map<u16, Extension>, order: seq<u16>, add: bool)
    requires TypedMap(m) && Listed(m, order, add).Some?
    ensures RepeatsAreDummies(Listed(m, order, add).value)
  {
    if order != [] {
      var t := order[0];
      var m' := if t in m then m - {t} else m;
      ListedOnce(m', order[1..], add);
      ListedMembers(m', order[1..], add);
    }
  }

  /** Nothing the message has is left out of the list. */
  lemma {:induction false} ListedHas(m: map<u16, Extension>, order: seq<u16>, add: bool, t: u16)
    requires Listed(m, order, add).Some? && t in m && t in order
    ensures m[t] in Listed(m, order, add).value
  {
    var u := order[0];
    assert order == [u] + order[1..];
    if u != t {
      ListedHas(if u in m then m - {u} else m, order[1..], add, t);
    }
  }

  function Occurrences(ts: seq<u16>, t: u16): nat {
    if ts == [] then 0 else (if ts[0] == t then 1 else 0) + Occurrences(ts[1..], t)
  }

  /** The rewriting panics exactly when it must add and ALPN is listed more often than present. */
  lemma {:induction false} PanicsExactly(m: map<u16, Extension>, order: seq<u16>, add: bool)
    ensures Listed(m, order, add).None?
            <==> add && Occurrences(order, ALPN) > if ALPN in m then 1 else 0
  {
    if order != [] {
      var t := order[0];
      if t in m {
        PanicsExactly(m - {t}, order[1..], add);
      } else {
        PanicsExactly(m, order[1..], add);
      }
    }
  }

  /** The list restricted to types the message has, each once. */
  function Kept(order: seq<u16>, have: set<u16>): seq<u16> {
    if order == [] then []
    else if order[0] in have then [order[0]] + Kept(order[1..], have - {order[0]})
    else Kept(order[1..], have)
  }

  /** The part of the message that is listed. */
  function Only(m: map<u16, Extension>, order: seq<u16>): map<u16, Extension> {
    map t | t in m && t in order :: m[t]
  }

  lemma OnlyStep(m: map<u16, Extension>, order: seq<u16>)
    requires order != []
    ensures var t := order[0];
            && t !in Only(m - {t}, order[1..])
            && Only(m, order) == if t in m then Only(m - {t}, order[1..])[t := m[t]] else Only(m, order[1..])
  {
    assert order == [order[0]] + order[1..];
  }

  lemma OnlyAndRest(m: map<u16, Extension>, order: seq<u16>)
    ensures Only(m, order).Keys !! (m - Set(order)).Keys
    ensures Only(m, order) + (m - Set(order)) == m
  {
  }

  lemma {:induction false} KeepingFollowsList(m: map<u16, Extension>, order: seq<u16>)
    requires TypedMap(m)
    ensures Listed(m, order, false).Some?
    ensures Types(Listed(m, order, false).value) == Kept(order, m.Keys)
    ensures Lists(Listed(m, order, false).value, Only(m, order))
  {
    hide Lists, Only;
    if order == [] {
      ListsNothing();
      OnlyNothing(m);
    } else {
      var t := order[0];
      OnlyStep(m, order);
      if t in m {
        KeepingFollowsList(m - {t}, order[1..]);
        var tail := Listed(m - {t}, order[1..], false).value;
        TypesCons(m[t], tail);
        assert (m - {t}).Keys == m.Keys - {t};
        ListsCons(m[t], tail, Only(m - {t}, order[1..]));
      } else {
        KeepingFollowsList(m, order[1..]);
      }
    }
  }

  lemma OnlyNothing(m: map<u16, Extension>)
    ensures Only(m, []) == map[]
  {
  }

  lemma ListsNothing()
    ensures Lists([], map[])
  {
  }

  lemma {:induction false} MapOfConcat(a: seq<Extension>, b: seq<Extension>)
    ensures MapOf(a + b) == MapOf(a) + MapOf(b)
    decreases |b|
  {
    if b == [] {
      assert a + b == a;
    } else {
      var n := |b| - 1;
      MapOfConcat(a, b[..n]);
      assert (a + b)[..|a| + n] == a + b[..n];
    }
  }

  lemma ListsConcat(a: seq<Extension>, m: map<u16, Extension>, b: seq<Extension>, n: map<u16, Extension>)
    requires Lists(a, m) && Lists(b, n) && m.Keys !! n.Keys
    ensures Lists(a + b, m + n)
  {
    MapOfConcat(a, b);
    MapOfKeys(a);
    MapOfKeys(b);
    assert Types(a + b) == Types(a) + Types(b);
    assert forall i :: 0 <= i < |a| ==> Types(a)[i] in m.Keys;
    assert forall i :: 0 <= i < |b| ==> Types(b)[i] in n.Keys;
  }

  lemma ListsCons(e: Extension, es: seq<Extension>, m: map<u16, Extension>)
    requires Lists(es, m) && TypeOf(e) !in m
    ensures Lists([e] + es, m[TypeOf(e) := e])
  {
    ListsNothing();
    ListsSnoc([], map[], e);
    assert [] + [e] == [e];
    var one: map<u16, Extension> := map[][TypeOf(e) := e];
    ListsConcat([e], one, es, m);
    assert one + m == m[TypeOf(e) := e];
  }

  /** Lists of one map are permutations of each other. */
  lemma SameMapSameElements(a: seq<Extension>, b: seq<Extension>)
    requires NoRepeat(Types(a)) && NoRepeat(Types(b)) && MapOf(a) == MapOf(b)
    ensures multiset(a) == multiset(b)
  {
    hide NoRepeat;
    forall e: Extension
      ensures multiset(a)[e] == multiset(b)[e]
    {
      CountInList(a, e);
      CountInList(b, e);
    }
  }

  lemma {:induction false} CountInList(es: seq<Extension>, e: Extension)
    requires NoRepeat(Types(es))
    ensures multiset(es)[e] == if TypeOf(e) in MapOf(es) && MapOf(es)[TypeOf(e)] == e then 1 else 0
  {
    if es != [] {
      var n := |es| - 1;
      var init, last := es[..n], es[n];
      assert es == init + [last];
      assert Types(init) == Types(es)[..n];
      CountInList(init, e);
      MapOfKeys(init);
      assert TypeOf(last) !in Types(init) by {
        assert forall i :: 0 <= i < n ==> Types(init)[i] == Types(es)[i] != Types(es)[n];
      }
    }
  }

  /**
   With nothing added or dropped and distinct types to begin with, the first pass is a permutation:
   the listed extensions the message has, in list order, and then all the others.
   */
  lemma PlainReorderIsPermutation(es: seq<Extension>, order: seq<u16>, rest: seq<Extension>)
    requires NoRepeat(Types(es)) && Lists(rest, MapOf(es) - Set(order))
    ensures var listed := Listed(MapOf(es), order, false);
            && listed.Some?
            && multiset(listed.value + rest) == multiset(es)
            && Types(listed.value) == Kept(order, MapOf(es).Keys)
            && forall e :: e in rest ==> TypeOf(e) !in order
  {
    hide Listed, Kept, Only, Types;
    var m := MapOf(es);
    MapOfKeys(es);
    KeepingFollowsList(m, order);
    var listed := Listed(m, order, false).value;
    OnlyAndRest(m, order);
    ListsConcat(listed, Only(m, order), rest, m - Set(order));
    SameMapSameElements(listed + rest, es);
    RestIsUnlisted(rest, m, order);
  }

  lemma RestIsUnlisted(rest: seq<Extension>, m: map<u16, Extension>, order: seq<u16>)
    requires Lists(rest, m - Set(order))
    ensures forall e :: e in rest ==> TypeOf(e) !in order
  {
    MapOfKeys(rest);
    forall e | e in rest
      ensures TypeOf(e) !in order
    {
      var i :| 0 <= i < |rest| && rest[i] == e;
      assert Types(rest)[i] == TypeOf(e);
      assert TypeOf(e) in (m - Set(order)).Keys;
      assert TypeOf(e) !in Set(order);
    }
  }
}
