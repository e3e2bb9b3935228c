/** The whole rewriting of a ClientHello message, with the padding pass and the encoding. */
module Overwrite {
  import opened Basics
  import opened Fingerprint
  import opened Grease
  import opened HelloCodec

  lemma {:induction false} SumLenUpdate(es: seq<Extension>, i: nat, e: Extension)
    requires i < |es|
    ensures SumLen(es[i := e]) == SumLen(es) - ExtLen(es[i]) + ExtLen(e)
  {
    hide ExtLen;
    var n := |es| - 1;
    if i < n {
      SumLenUpdate(es[..n], i, e);
      assert es[i := e][..n] == es[..n][i := e];
    } else {
      assert es[i := e][..n] == es[..n];
    }
  }

  // ---------- padding ----------

  predicate HasPadding(es: seq<Extension>) {
    exists i :: 0 <= i < |es| && IsPadding(es[i])
  }

  predicate PaddingEmpty(es: seq<Extension>) {
    forall i :: 0 <= i < |es| && IsPadding(es[i]) ==> es[i].payload == []
  }

  function EmptyPadding(es: seq<Extension>): seq<Extension> {
    seq(|es|, i requires 0 <= i < |es| => if IsPadding(es[i]) then Unknown(PADDING, []) else es[i])
  }

  /** Section 4 of RFC 7685: resize the first padding extension to reach the target. */
  method Pad(es: seq<Extension>, head: seq<byte>, ciphers: seq<u16>, tail: seq<byte>) returns (new_: seq<Extension>)
    requires PaddingEmpty(es) && HasPadding(es)
    ensures |new_| == |es| && EmptyPadding(new_) == es
    ensures Types(new_) == Types(es)
    ensures var bare := |Encode(head, ciphers, tail, es)|;
            |Encode(head, ciphers, tail, new_)| == if bare < 512 then 512 else bare
  {
    hide ExtLen, SumLen, Encode;
    new_ := es;
    var len := |Encode(head, ciphers, tail, es)|;
    EncodingLength(head, ciphers, tail, es);
    var padLen := if len < PADDING_TARGET then PADDING_TARGET - len else 0;
    assert EmptyPadding(es) == es;
    if padLen != 0 {
      var i := 0;
      while i < |es|
        invariant 0 <= i <= |es| && new_ == es
        invariant forall j :: 0 <= j < i ==> !IsPadding(es[j])
      {
        if IsPadding(es[i]) {
          var padded := Unknown(PADDING, seq(padLen, _ => 0));
          SumLenUpdate(es, i, padded);
          PaddingExtLen(es[i], padded);
          new_ := es[i := padded];
          EncodingLength(head, ciphers, tail, new_);
          assert EmptyPadding(new_) == es;
          return;
        }
        i := i + 1;
      }
    }
  }

  lemma PaddingExtLen(e: Extension, padded: Extension)
    requires IsPadding(e) && e.payload == [] && IsPadding(padded)
    ensures ExtLen(padded) == ExtLen(e) + |padded.payload|
  {
  }

  // ---------- the message ----------

  /** `order` is the JA3 list with only its GREASE entries redrawn. */
  predicate Regreased(list: seq<u16>, order: seq<u16>) {
    && |order| == |list|
    && forall i :: 0 <= i < |list| ==> if IsGrease(list[i]) then IsGrease(order[i]) else order[i] == list[i]
  }

  /** What the first pass makes of a message: `mid`, of which `rest` is the part that is not listed. */
  ghost predicate FirstPass(es: seq<Extension>, order: seq<u16>, add: bool, drop: bool,
                            mid: seq<Extension>, rest: seq<Extension>)
  {
    && Listed(MapOf(es), order, add).Some?
    && mid == Listed(MapOf(es), order, add).value + rest
    && if drop then rest == [] else Lists(rest, MapOf(es) - Set(order))
  }

  class Message {
    const isClientHello: bool
    /** What comes before the suites and between them and the extensions, or, if this is not a
        ClientHello, the whole encoding. */
    const head: seq<byte>
    const tail: seq<byte>
    var version: u16
    var ciphers: seq<u16>
    var extensions: seq<Extension>
    /** The stored encoding of the message. */
    var encoded: seq<byte>

    ghost function Encoding(): seq<byte>
      reads this
    {
      if isClientHello then Encode(head, ciphers, tail, extensions) else head
    }

    /**
     `overwrite_client_hello_with_fingerprint_spec`; false is its panic. `mid` is the extension list
     between the two passes and `rest` its unlisted part.
     */
    method Overwrite(fp: Spec, add: bool, drop: bool, order: seq<u16>, draw: nat -> u16, redraw: (u16, nat) -> u16)
      returns (ok: bool, ghost mid: seq<Extension>, ghost rest: seq<Extension>)
      requires fp.ja3.Some? ==> Regreased(fp.ja3.value.extensions, order)
      modifies this
      ensures version == if fp.ja3.Some? then fp.ja3.value.version else old(version)
      ensures !isClientHello ==> ok && ciphers == old(ciphers) && extensions == old(extensions)
      ensures !ok <==> isClientHello && fp.ja3.Some? && Listed(MapOf(old(extensions)), order, add).None?
      ensures isClientHello ==> ciphers == if fp.ja3.Some? then fp.ja3.value.ciphers else old(ciphers)
      ensures ok ==> encoded == Encoding()
      ensures ok && isClientHello ==>
                && |extensions| == |mid|
                && EmptyPadding(extensions) == RewriteAll(fp, mid, draw, redraw).0
                && Types(extensions) == Types(mid)
      // the second pass: every extension has the fingerprint's value
      ensures ok && isClientHello ==>
                forall i :: 0 <= i < |mid| ==> ValueMatches(fp, mid[i], EmptyPadding(extensions)[i], draw, redraw)
      ensures ok && isClientHello && fp.ja3.None? ==> mid == old(extensions)
      // the first pass: the listed extensions, then every unlisted one, unless dropped
      ensures ok && isClientHello && fp.ja3.Some? ==>
                && FirstPass(old(extensions), order, add, drop, mid, rest)
                && Types(extensions) == (if add then order else Kept(order, MapOf(old(extensions)).Keys)) + Types(rest)
      // adding and dropping: the types are the redrawn list, in order
      ensures ok && isClientHello && fp.ja3.Some? && add && drop ==> Types(extensions) == order
      // neither: a permutation, the listed ones first and in list order
      ensures ok && isClientHello && fp.ja3.Some? && !add && !drop && NoRepeat(Types(old(extensions))) ==>
                && multiset(mid) == multiset(old(extensions))
                && Kept(order, MapOf(old(extensions)).Keys) <= Types(extensions)
      // whenever there is padding the encoding has exactly the padded size
      ensures ok && isClientHello && HasPadding(extensions) ==>
                var bare := |Encode(head, ciphers, tail, EmptyPadding(extensions))|;
                |encoded| == if bare < 512 then 512 else bare
      // GREASE key shares are offered groups
      ensures ok && isClientHello && fp.ja3.Some? && fp.shares.Some?
              && GreaseCount(fp.shares.value) <= GreaseCount(fp.ja3.value.curves) ==>
                forall a: nat, b: nat :: OneOfEach(mid, a, b) ==> Offered(extensions, a, b)
      ensures ok && isClientHello && AllGrease(draw) ==>
                forall a: nat, b: nat :: OneOfEach(mid, a, b) && GreaseFits(fp, mid[a].groups) ==> Offered(extensions, a, b)
    {
      hide Listed, MapOf, Kept, RewriteAll, Encode, NoRepeat, GreaseCount, OneOfEach, Lists, Only,
           ListedAs, AllGrease, GreaseFits, ValueMatches;
      if fp.ja3.Some? {
        version := fp.ja3.value.version;
      }
      mid, rest := extensions, [];
      if !isClientHello {
        encoded := head;
        return true, mid, rest;
      }
      var es := extensions;
      if fp.ja3.Some? {
        ciphers := fp.ja3.value.ciphers;
        var r;
        r, rest := Reorder(es, order, add, drop);
        if r.None? {
          return false, mid, rest;
        }
        mid := r.value;
        FirstPassMeans(es, order, add, drop, mid, rest);
        assert Types([]) == [] && order + [] == order;
        es := r.value;
      }
      var new_, pad := RewriteValues(fp, es, draw, redraw);
      RewrittenPadding(fp, mid, draw, redraw);
      GreaseKept(fp, mid, draw, redraw);
      assert pad == HasPadding(new_);
      extensions := new_;
      if pad {
        extensions := Pad(new_, head, ciphers, tail);
      }
      assert EmptyPadding(new_) == new_;
      PaddingKeepsOthers(extensions, new_);
      encoded := Encode(head, ciphers, tail, extensions);
      return true, mid, rest;
    }
  }

  /**
   What that means for the caller's message. Adding: the list itself comes first, each place with
   the message's own extension where it has one. Not adding: the listed extensions it has, in list
   order. Either way the others follow, unless dropped, and with neither adding nor dropping nothing
   is gained or lost.
   */
  lemma FirstPassMeans(es: seq<Extension>, order: seq<u16>, add: bool, drop: bool, mid: seq<Extension>, rest: seq<Extension>)
    requires FirstPass(es, order, add, drop, mid, rest)
    ensures var m := MapOf(es);
            && Types(mid) == (if add then order else Kept(order, m.Keys)) + Types(rest)
            && (add ==> forall i :: 0 <= i < |order| ==> mid[i] == ListedAs(m, order, i))
            && (!add ==> multiset(mid) == multiset(Listed(m, order, false).value) + multiset(rest)
                         && Lists(Listed(m, order, false).value, Only(m, order)))
            && (forall e :: e in rest ==> TypeOf(e) !in order)
            && (!add && !drop && NoRepeat(Types(es)) ==> multiset(mid) == multiset(es))
  {
    hide Listed, MapOf, Kept, Lists, NoRepeat, Only;
    var m := MapOf(es);
    var listed := Listed(m, order, add).value;
    MapOfKeys(es);
    assert Types(mid) == Types(listed) + Types(rest);
    if add {
      AddingMatchesList(m, order);
      assert |listed| == |Types(listed)|;
      forall i | 0 <= i < |order|
        ensures mid[i] == ListedAs(m, order, i)
      {
        AddingKeepsContents(m, order, i);
      }
    } else {
      KeepingFollowsList(m, order);
    }
    if !drop {
      RestIsUnlisted(rest, m, order);
      if !add && NoRepeat(Types(es)) {
        PlainReorderIsPermutation(es, order, rest);
      }
    }
  }

  // ---------- the groups and the key shares get through ----------

  lemma {:induction false} MapOfAt(es: seq<Extension>, i: nat)
    requires NoRepeat(Types(es)) && i < |es|
    ensures TypeOf(es[i]) in MapOf(es) && MapOf(es)[TypeOf(es[i])] == es[i]
  {
    var n := |es| - 1;
    if i < n {
      assert Types(es[..n]) == Types(es)[..n];
      assert Types(es)[i] != Types(es)[n];
      MapOfAt(es[..n], i);
    }
  }

  /** In the message between the passes everything is the message's own or a dummy, and what comes a
      second time is a dummy. */
  lemma MidFacts(es: seq<Extension>, order: seq<u16>, add: bool, drop: bool, mid: seq<Extension>, rest: seq<Extension>)
    requires FirstPass(es, order, add, drop, mid, rest)
    ensures forall e :: e in mid ==>
              && (drop ==> TypeOf(e) in order)
              && (e == Dummy(TypeOf(e)) || (TypeOf(e) in MapOf(es) && MapOf(es)[TypeOf(e)] == e))
    ensures RepeatsAreDummies(mid)
  {
    hide Listed, MapOf;
    var m := MapOf(es);
    var listed := Listed(m, order, add).value;
    MapOfKeys(es);
    ListedMembers(m, order, add);
    ListedOnce(m, order, add);
    if !drop {
      MapOfKeys(rest);
      RestIsUnlisted(rest, m, order);
      RestIsOwn(rest, m, order);
      JoinedOnce(listed, rest, order);
    } else {
      assert mid == listed;
    }
  }

  lemma RestIsOwn(rest: seq<Extension>, m: map<u16, Extension>, order: seq<u16>)
    requires Lists(rest, m - Set(order))
    ensures forall e :: e in rest ==> TypeOf(e) in m && m[TypeOf(e)] == e
    ensures forall i, j :: 0 <= i < j < |rest| ==> TypeOf(rest[i]) != TypeOf(rest[j])
  {
    forall e | e in rest
      ensures TypeOf(e) in m && m[TypeOf(e)] == e
    {
      var i :| 0 <= i < |rest| && rest[i] == e;
      MapOfAt(rest, i);
    }
    assert forall i :: 0 <= i < |rest| ==> Types(rest)[i] == TypeOf(rest[i]);
  }

  lemma JoinedOnce(listed: seq<Extension>, rest: seq<Extension>, order: seq<u16>)
    requires RepeatsAreDummies(listed) && forall e :: e in listed ==> TypeOf(e) in order
    requires forall e :: e in rest ==> TypeOf(e) !in order
    requires forall i, j :: 0 <= i < j < |rest| ==> TypeOf(rest[i]) != TypeOf(rest[j])
    ensures RepeatsAreDummies(listed + rest)
  {
    var all, n := listed + rest, |listed|;
    assert forall i :: 0 <= i < n ==> all[i] == listed[i] && all[i] in listed;
    assert forall i :: n <= i < |all| ==> all[i] == rest[i - n] && all[i] in rest;
  }

  /** The message's own extension of type `t` is still there. */
  lemma MidHas(es: seq<Extension>, order: seq<u16>, add: bool, drop: bool, mid: seq<Extension>, rest: seq<Extension>, t: u16)
    requires FirstPass(es, order, add, drop, mid, rest) && t in MapOf(es) && (t in order || !drop)
    ensures MapOf(es)[t] in mid
  {
    hide Listed, MapOf;
    var m: map<u16, Extension> := MapOf(es);
    if t in order {
      ListedHas(m, order, add, t);
    } else {
      MapOfKeys(rest);
      var left: map<u16, Extension> := m - Set(order);
      assert t in left && left[t] == m[t];
    }
  }

  /**
   From the message passed in to the message between the passes: with distinct types, its groups and
   its key shares get through, once each, exactly unless one of them is dropped.
   */
  lemma OneOfEachGetsThrough(es: seq<Extension>, order: seq<u16>, add: bool, drop: bool,
                             mid: seq<Extension>, rest: seq<Extension>, a: nat, b: nat)
    requires FirstPass(es, order, add, drop, mid, rest) && NoRepeat(Types(es)) && OneOfEach(es, a, b)
    ensures (exists a': nat, b': nat :: OneOfEach(mid, a', b') && mid[a'] == es[a] && mid[b'] == es[b])
            <==> !drop || (NAMED_GROUPS in order && KEY_SHARE in order)
  {
    hide FirstPass, MapOf, NoRepeat, IsGrease;
    MapOfAt(es, a);
    MapOfAt(es, b);
    MidFacts(es, order, add, drop, mid, rest);
    if !drop || (NAMED_GROUPS in order && KEY_SHARE in order) {
      MidHas(es, order, add, drop, mid, rest, NAMED_GROUPS);
      MidHas(es, order, add, drop, mid, rest, KEY_SHARE);
      var a': nat :| a' < |mid| && mid[a'] == es[a];
      var b': nat :| b' < |mid| && mid[b'] == es[b];
      OnlyOneReal(mid, a');
      OnlyOneReal(mid, b');
      assert OneOfEach(mid, a', b');
    }
    if a': nat, b': nat :| OneOfEach(mid, a', b') && mid[a'] == es[a] && mid[b'] == es[b] {
      assert mid[a'] in mid && mid[b'] in mid;
    }
  }

  lemma OnlyOneReal(mid: seq<Extension>, k: nat)
    requires RepeatsAreDummies(mid) && k < |mid| && !mid[k].Unknown?
    ensures forall i :: 0 <= i < |mid| && i != k && TypeOf(mid[i]) == TypeOf(mid[k]) ==> mid[i].Unknown?
  {
  }

  /** The second pass empties every padding extension and makes no other. */
  lemma {:induction false} RewrittenPadding(fp: Spec, es: seq<Extension>, draw: nat -> u16, redraw: (u16, nat) -> u16)
    ensures var new_ := RewriteAll(fp, es, draw, redraw).0;
            && PaddingEmpty(new_)
            && Types(new_) == Types(es)
            && (HasPadding(new_) <==> HasPadding(es))
  {
    hide RewriteAll, Rewrite;
    var new_ := RewriteAll(fp, es, draw, redraw).0;
    forall i | 0 <= i < |es|
      ensures (IsPadding(new_[i]) <==> IsPadding(es[i])) && (IsPadding(new_[i]) ==> new_[i].payload == [])
    {
      RewriteAt(fp, es, i, draw, redraw);
      RewriteOne(fp, es[i], PoolAt(fp, es, i, draw, redraw), draw, redraw);
    }
    if HasPadding(es) {
      var i :| 0 <= i < |es| && IsPadding(es[i]);
      assert IsPadding(new_[i]);
    }
  }

  lemma RewriteOne(fp: Spec, e: Extension, p: Pool, draw: nat -> u16, redraw: (u16, nat) -> u16)
    ensures var f := Rewrite(fp, e, p, draw, redraw).0;
            (IsPadding(f) <==> IsPadding(e)) && (IsPadding(f) ==> f.payload == [])
  {
    hide Groups, Shares, ShareMap;
  }

  lemma GreaseKept(fp: Spec, es: seq<Extension>, draw: nat -> u16, redraw: (u16, nat) -> u16)
    ensures fp.ja3.Some? && fp.shares.Some? && GreaseCount(fp.shares.value) <= GreaseCount(fp.ja3.value.curves) ==>
              forall a: nat, b: nat :: OneOfEach(es, a, b) ==> Offered(RewriteAll(fp, es, draw, redraw).0, a, b)
    ensures AllGrease(draw) ==>
              forall a: nat, b: nat :: OneOfEach(es, a, b) && GreaseFits(fp, es[a].groups) ==>
                Offered(RewriteAll(fp, es, draw, redraw).0, a, b)
  {
    hide RewriteAll, GreaseCount, Offered, GreaseFits, AllGrease;
    if fp.ja3.Some? && fp.shares.Some? && GreaseCount(fp.shares.value) <= GreaseCount(fp.ja3.value.curves) {
      forall a: nat, b: nat | OneOfEach(es, a, b)
        ensures Offered(RewriteAll(fp, es, draw, redraw).0, a, b)
      {
        GreaseSharesOffered(fp, es, a, b, draw, redraw);
      }
    }
    if AllGrease(draw) {
      forall a: nat, b: nat | OneOfEach(es, a, b) && GreaseFits(fp, es[a].groups)
        ensures Offered(RewriteAll(fp, es, draw, redraw).0, a, b)
      {
        GreaseFitsSuffices(fp, es, a, b, draw, redraw);
      }
    }
  }

  /**
   The two passes together, from the message passed in: if it has one list of groups and one of key
   shares, neither is dropped and the fingerprint fits, every GREASE key share ends up offered.
   */
  lemma GreaseEndToEnd(fp: Spec, es: seq<Extension>, order: seq<u16>, add: bool, drop: bool,
                       mid: seq<Extension>, rest: seq<Extension>, new_: seq<Extension>, a: nat, b: nat,
                       draw: nat -> u16, redraw: (u16, nat) -> u16)
    requires FirstPass(es, order, add, drop, mid, rest) && NoRepeat(Types(es)) && OneOfEach(es, a, b)
    requires !drop || (NAMED_GROUPS in order && KEY_SHARE in order)
    requires AllGrease(draw) && GreaseFits(fp, es[a].groups)
    requires |new_| == |mid| && EmptyPadding(new_) == RewriteAll(fp, mid, draw, redraw).0
    ensures exists a': nat, b': nat :: OneOfEach(mid, a', b') && Offered(new_, a', b')
  {
    hide FirstPass, NoRepeat, AllGrease, GreaseFits, RewriteAll, EmptyPadding, Offered;
    OneOfEachGetsThrough(es, order, add, drop, mid, rest, a, b);
    var a': nat, b': nat :| OneOfEach(mid, a', b') && mid[a'] == es[a] && mid[b'] == es[b];
    GreaseFitsSuffices(fp, mid, a', b', draw, redraw);
    PaddingKeepsOthers(new_, RewriteAll(fp, mid, draw, redraw).0);
  }

  lemma PaddingKeepsOthers(new_: seq<Extension>, es: seq<Extension>)
    requires |new_| == |es| && EmptyPadding(new_) == es
    ensures forall a: nat, b: nat :: Offered(es, a, b) ==> Offered(new_, a, b)
    ensures HasPadding(new_) <==> HasPadding(es)
  {
    assert forall i :: 0 <= i < |es| ==> es[i] == if IsPadding(new_[i]) then Unknown(PADDING, []) else new_[i];
    if HasPadding(new_) {
      var i :| 0 <= i < |new_| && IsPadding(new_[i]);
      assert IsPadding(es[i]);
    }
  }
}
