/**
 The second pass: extension values are overwritten, and the GREASE values drawn for the offered
 groups and for the key shares are shared, whichever of the two comes first. Randomness is a
 parameter: `draw` gives the GREASE values in the order they are drawn, `redraw` those of the other
 lists.
 */
module Grease {
  import opened Basics
  import opened Fingerprint

  /** GREASE values drawn and not yet matched, and how many were drawn altogether. */
  datatype Pool = Pool(stack: seq<u16>, drawn: nat)

  /** One GREASE value: drawn and remembered when filling the stack, otherwise taken off it, or
      drawn when it is empty. */
  function NextGrease(fill: bool, p: Pool, draw: nat -> u16): (u16, Pool) {
    if fill then (draw(p.drawn), Pool(p.stack + [draw(p.drawn)], p.drawn + 1))
    else if p.stack == [] then (draw(p.drawn), Pool([], p.drawn + 1))
    else (p.stack[|p.stack| - 1], p.(stack := p.stack[..|p.stack| - 1]))
  }

  /** The offered groups for the fingerprint's `curves`. */
  function Groups(fill: bool, curves: seq<u16>, p: Pool, draw: nat -> u16): (r: (seq<u16>, Pool))
    ensures |r.0| == |curves|
  {
    if curves == [] then ([], p)
    else
      var (gs, q) := Groups(fill, curves[..|curves| - 1], p, draw);
      var c := curves[|curves| - 1];
      if IsGrease(c) then
        var (g, q') := NextGrease(fill, q, draw);
        (gs + [g], q')
      else (gs + [c], q)
  }

  method RewriteGroups(curves: seq<u16>, p: Pool, draw: nat -> u16) returns (groups: seq<u16>, q: Pool)
    ensures (groups, q) == Groups(p.stack == [], curves, p, draw)
  {
    var fill := p.stack == [];
    groups, q := [], p;
    for i := 0 to |curves|
      invariant (groups, q) == Groups(fill, curves[..i], p, draw)
    {
      assert curves[..i + 1][..i] == curves[..i];
      if IsGrease(curves[i]) {
        var (g, q') := NextGrease(fill, q, draw);
        groups, q := groups + [g], q';
      } else {
        groups := groups + [curves[i]];
      }
    }
    assert curves[..|curves|] == curves;
  }

  /** Shares by group; of several for one group the last wins. */
  function ShareMap(shares: seq<Share>): map<u16, Share> {
    if shares == [] then map[]
    else ShareMap(shares[..|shares| - 1])[shares[|shares| - 1].group := shares[|shares| - 1]]
  }

  /** The key shares for the fingerprint's `curves`, and the old shares not used yet. */
  function Shares(fill: bool, curves: seq<u16>, m: map<u16, Share>, p: Pool, draw: nat -> u16)
    : (r: (seq<Share>, map<u16, Share>, Pool))
    ensures |r.0| == |curves|
  {
    if curves == [] then ([], m, p)
    else
      var (ss, left, q) := Shares(fill, curves[..|curves| - 1], m, p, draw);
      var c := curves[|curves| - 1];
      if c in left then (ss + [left[c]], left - {c}, q)
      else if IsGrease(c) then
        var (g, q') := NextGrease(fill, q, draw);
        (ss + [Share(g, [0x00])], left, q')
      else (ss + [Share(c, [0x00])], left, q)
  }

  method RewriteShares(curves: seq<u16>, shares: seq<Share>, p: Pool, draw: nat -> u16)
    returns (new_: seq<Share>, q: Pool)
    ensures var r := Shares(p.stack == [], curves, ShareMap(shares), p, draw);
            new_ == r.0 && q == r.2
  {
    var m: map<u16, Share> := map[];
    for i := 0 to |shares|
      invariant m == ShareMap(shares[..i])
    {
      assert shares[..i + 1][..i] == shares[..i];
      m := m[shares[i].group := shares[i]];
    }
    assert shares[..|shares|] == shares;
    var fill := p.stack == [];
    ghost var m0 := m;
    new_, q := [], p;
    for i := 0 to |curves|
      invariant (new_, m, q) == Shares(fill, curves[..i], m0, p, draw)
    {
      assert curves[..i + 1][..i] == curves[..i];
      var c := curves[i];
      if c in m {
        new_, m := new_ + [m[c]], m - {c};
      } else if IsGrease(c) {
        var (g, q') := NextGrease(fill, q, draw);
        new_, q := new_ + [Share(g, [0x00])], q';
      } else {
        new_ := new_ + [Share(c, [0x00])];
      }
    }
    assert curves[..|curves|] == curves;
  }

  // ---------- one extension ----------

  /** `try_regrease_u16_be` over a list: GREASE entries redrawn, the rest kept. */
  function Regrease(typ: u16, vs: seq<u16>, redraw: (u16, nat) -> u16): (r: seq<u16>)
    ensures |r| == |vs|
    ensures forall i :: 0 <= i < |vs| ==> r[i] == if IsGrease(vs[i]) then redraw(typ, i) else vs[i]
  {
    seq(|vs|, i requires 0 <= i < |vs| => if IsGrease(vs[i]) then redraw(typ, i) else vs[i])
  }

  /** What the second pass makes of one extension. */
  function Rewrite(fp: Spec, e: Extension, p: Pool, draw: nat -> u16, redraw: (u16, nat) -> u16): (r: (Extension, Pool))
    ensures TypeOf(r.0) == TypeOf(e)
  {
    match e
    case NamedGroups(_) =>
      if fp.ja3.None? then (e, p)
      else
        var (gs, q) := Groups(p.stack == [], fp.ja3.value.curves, p, draw);
        (NamedGroups(gs), q)
    case ECPointFormats(_) => (if fp.ja3.Some? then ECPointFormats(fp.ja3.value.formats) else e, p)
    case Protocols(_) => (if fp.alpn.Some? then Protocols(fp.alpn.value) else e, p)
    case SupportedVersions(_) =>
      (if fp.versions.Some? then SupportedVersions(Regrease(SUPPORTED_VERSIONS, fp.versions.value, redraw)) else e, p)
    case SignatureAlgorithms(_) =>
      (if fp.algos.Some? then SignatureAlgorithms(Regrease(SIGNATURE_ALGORITHMS, fp.algos.value, redraw)) else e, p)
    case KeyShare(shares) =>
      if fp.shares.None? then (e, p)
      else
        var (ss, _, q) := Shares(p.stack == [], fp.shares.value, ShareMap(shares), p, draw);
        (KeyShare(ss), q)
    case Unknown(typ, _) => (if typ == PADDING then Unknown(PADDING, []) else e, p)
    case Other(_, _) => (e, p)
  }

  /** The second pass over a list of extensions. */
  function RewriteAll(fp: Spec, es: seq<Extension>, draw: nat -> u16, redraw: (u16, nat) -> u16): (r: (seq<Extension>, Pool))
    ensures |r.0| == |es|
    ensures forall i :: 0 <= i < |es| ==> TypeOf(r.0[i]) == TypeOf(es[i])
  {
    if es == [] then ([], Pool([], 0))
    else
      var (new_, p) := RewriteAll(fp, es[..|es| - 1], draw, redraw);
      var (e, q) := Rewrite(fp, es[|es| - 1], p, draw, redraw);
      (new_ + [e], q)
  }

  predicate IsPadding(e: Extension) {
    e.Unknown? && e.typ == PADDING
  }

  /** One turn of the second pass. */
  method RewriteExtension(fp: Spec, e: Extension, p: Pool, draw: nat -> u16, redraw: (u16, nat) -> u16)
    returns (new_: Extension, q: Pool)
    ensures (new_, q) == Rewrite(fp, e, p, draw, redraw)
  {
    hide Groups, Shares, ShareMap;
    new_, q := e, p;
    match e {
      case NamedGroups(_) =>
        if fp.ja3.Some? {
          var groups;
          groups, q := RewriteGroups(fp.ja3.value.curves, p, draw);
          new_ := NamedGroups(groups);
        }
      case ECPointFormats(_) =>
        if fp.ja3.Some? {
          new_ := ECPointFormats(fp.ja3.value.formats);
        }
      case Protocols(_) =>
        if fp.alpn.Some? {
          new_ := Protocols(fp.alpn.value);
        }
      case SupportedVersions(_) =>
        if fp.versions.Some? {
          new_ := SupportedVersions(Regrease(SUPPORTED_VERSIONS, fp.versions.value, redraw));
        }
      case SignatureAlgorithms(_) =>
        if fp.algos.Some? {
          new_ := SignatureAlgorithms(Regrease(SIGNATURE_ALGORITHMS, fp.algos.value, redraw));
        }
      case KeyShare(shares) =>
        if fp.shares.Some? {
          var ss;
          ss, q := RewriteShares(fp.shares.value, shares, p, draw);
          new_ := KeyShare(ss);
        }
      case Unknown(typ, _) =>
        if typ == PADDING {
          new_ := Unknown(PADDING, []);
        }
      case Other(_, _) =>
    }
  }

  // ---------- what the second pass leaves in each extension ----------

  ghost predicate Drawn(v: u16, draw: nat -> u16) {
    exists n: nat :: v == draw(n)
  }

  ghost predicate StackDrawn(p: Pool, draw: nat -> u16) {
    forall i :: 0 <= i < |p.stack| ==> Drawn(p.stack[i], draw)
  }

  /** Every curve in its place; GREASE ones with a value that was drawn. */
  ghost predicate GroupsMatch(curves: seq<u16>, groups: seq<u16>, draw: nat -> u16) {
    && |groups| == |curves|
    && forall i :: 0 <= i < |curves| ==>
         if IsGrease(curves[i]) then Drawn(groups[i], draw) else groups[i] == curves[i]
  }

  /** The last share for group `g`, or -1. */
  function LastShare(shares: seq<Share>, g: u16): (k: int)
    ensures -1 <= k < |shares|
    ensures k >= 0 ==> shares[k].group == g
    ensures forall i :: k < i < |shares| ==> shares[i].group != g
  {
    if shares == [] then -1
    else if shares[|shares| - 1].group == g then |shares| - 1
    else LastShare(shares[..|shares| - 1], g)
  }

  /** Every wanted curve in its place: where it comes first and the message has a share for it, that
      share, key and all; everywhere else a one-byte dummy key. */
  ghost predicate SharesMatch(wanted: seq<u16>, had: seq<Share>, shares: seq<Share>, draw: nat -> u16) {
    && |shares| == |wanted|
    && forall i :: 0 <= i < |wanted| ==>
         var k := LastShare(had, wanted[i]);
         if k >= 0 && wanted[i] !in wanted[..i] then shares[i] == had[k]
         else
           && shares[i].key == [0x00]
           && if IsGrease(wanted[i]) then Drawn(shares[i].group, draw) else shares[i].group == wanted[i]
  }

  ghost predicate ListMatches(typ: u16, wanted: seq<u16>, vs: seq<u16>, redraw: (u16, nat) -> u16) {
    && |vs| == |wanted|
    && forall i :: 0 <= i < |wanted| ==> vs[i] == if IsGrease(wanted[i]) then redraw(typ, i) else wanted[i]
  }

  /** `f` is what the fingerprint makes of extension `e`. */
  ghost predicate ValueMatches(fp: Spec, e: Extension, f: Extension, draw: nat -> u16, redraw: (u16, nat) -> u16) {
    match e
    case NamedGroups(_) =>
      if fp.ja3.None? then f == e else f.NamedGroups? && GroupsMatch(fp.ja3.value.curves, f.groups, draw)
    case ECPointFormats(_) => f == if fp.ja3.Some? then ECPointFormats(fp.ja3.value.formats) else e
    case Protocols(_) => f == if fp.alpn.Some? then Protocols(fp.alpn.value) else e
    case SupportedVersions(_) =>
      if fp.versions.None? then f == e
      else f.SupportedVersions? && ListMatches(SUPPORTED_VERSIONS, fp.versions.value, f.versions, redraw)
    case SignatureAlgorithms(_) =>
      if fp.algos.None? then f == e
      else f.SignatureAlgorithms? && ListMatches(SIGNATURE_ALGORITHMS, fp.algos.value, f.algos, redraw)
    case KeyShare(had) =>
      if fp.shares.None? then f == e else f.KeyShare? && SharesMatch(fp.shares.value, had, f.shares, draw)
    case Unknown(typ, _) => f == if typ == PADDING then Unknown(PADDING, []) else e
    case Other(_, _) => f == e
  }

  lemma NextGreaseDrawn(fill: bool, p: Pool, draw: nat -> u16)
    requires StackDrawn(p, draw)
    ensures var (g, q) := NextGrease(fill, p, draw); Drawn(g, draw) && StackDrawn(q, draw)
  {
    assert Drawn(draw(p.drawn), draw);
  }

  lemma {:induction false} GroupsMean(fill: bool, curves: seq<u16>, p: Pool, draw: nat -> u16)
    requires StackDrawn(p, draw)
    ensures var (gs, q) := Groups(fill, curves, p, draw); GroupsMatch(curves, gs, draw) && StackDrawn(q, draw)
  {
    hide IsGrease, NextGrease, StackDrawn, Drawn;
    if curves != [] {
      var init := curves[..|curves| - 1];
      GroupsMean(fill, init, p, draw);
      NextGreaseDrawn(fill, Groups(fill, init, p, draw).1, draw);
    }
  }

  lemma {:induction false} ShareMapIsLast(shares: seq<Share>, g: u16)
    ensures g in ShareMap(shares) <==> LastShare(shares, g) >= 0
    ensures g in ShareMap(shares) ==> ShareMap(shares)[g] == shares[LastShare(shares, g)]
  {
    if shares != [] {
      ShareMapIsLast(shares[..|shares| - 1], g);
    }
  }

  /** The shares built so far, and what is left of the old ones. */
  ghost predicate SharesSoFar(curves: seq<u16>, m: map<u16, Share>, ss: seq<Share>, left: map<u16, Share>, draw: nat -> u16) {
    && |ss| == |curves|
    && (forall g :: g in left <==> g in m && g !in curves)
    && (forall g :: g in left ==> left[g] == m[g])
    && forall i :: 0 <= i < |curves| ==> ShareAt(curves, m, ss[i], i, draw)
  }

  ghost predicate ShareAt(curves: seq<u16>, m: map<u16, Share>, share: Share, i: nat, draw: nat -> u16)
    requires i < |curves|
  {
    if curves[i] in m && curves[i] !in curves[..i] then share == m[curves[i]]
    else
      && share.key == [0x00]
      && if IsGrease(curves[i]) then Drawn(share.group, draw) else share.group == curves[i]
  }

  lemma {:induction false} SharesMean(fill: bool, curves: seq<u16>, m: map<u16, Share>, p: Pool, draw: nat -> u16)
    requires StackDrawn(p, draw)
    ensures var (ss, left, q) := Shares(fill, curves, m, p, draw);
            SharesSoFar(curves, m, ss, left, draw) && StackDrawn(q, draw)
  {
    hide IsGrease, NextGrease, StackDrawn, Drawn, SharesSoFar;
    if curves == [] {
      NoSharesYet(m, draw);
    } else {
      var n := |curves| - 1;
      SharesMean(fill, curves[..n], m, p, draw);
      var (ss, left, q) := Shares(fill, curves[..n], m, p, draw);
      NextGreaseDrawn(fill, q, draw);
      var (ss', left', _) := Shares(fill, curves, m, p, draw);
      OneMoreShare(curves, m, ss, left, ss'[n], left', draw);
      assert ss' == ss + [ss'[n]];
    }
  }

  lemma NoSharesYet(m: map<u16, Share>, draw: nat -> u16)
    ensures SharesSoFar([], m, [], m, draw)
  {
  }

  lemma OneMoreShare(curves: seq<u16>, m: map<u16, Share>, ss: seq<Share>, left: map<u16, Share>,
                     share: Share, left': map<u16, Share>, draw: nat -> u16)
    requires curves != [] && SharesSoFar(curves[..|curves| - 1], m, ss, left, draw)
    requires var c := curves[|curves| - 1];
             if c in left then share == left[c] && left' == left - {c}
             else
               && left' == left && share.key == [0x00]
               && if IsGrease(c) then Drawn(share.group, draw) else share.group == c
    ensures SharesSoFar(curves, m, ss + [share], left', draw)
  {
    hide IsGrease, Drawn;
    var n := |curves| - 1;
    var init := curves[..n];
    assert curves == init + [curves[n]];
    forall i | 0 <= i < |curves|
      ensures ShareAt(curves, m, (ss + [share])[i], i, draw)
    {
      if i < n {
        assert ShareAt(init, m, ss[i], i, draw);
        assert init[..i] == curves[..i];
      }
    }
  }

  lemma SharesMatchMessage(wanted: seq<u16>, had: seq<Share>, ss: seq<Share>, left: map<u16, Share>, draw: nat -> u16)
    requires SharesSoFar(wanted, ShareMap(had), ss, left, draw)
    ensures SharesMatch(wanted, had, ss, draw)
  {
    hide IsGrease, Drawn, ShareMap, LastShare;
    forall i | 0 <= i < |wanted|
      ensures ShareAt(wanted, ShareMap(had), ss[i], i, draw)
      ensures wanted[i] in ShareMap(had) <==> LastShare(had, wanted[i]) >= 0
      ensures wanted[i] in ShareMap(had) ==> ShareMap(had)[wanted[i]] == had[LastShare(had, wanted[i])]
    {
      ShareMapIsLast(had, wanted[i]);
    }
  }

  lemma RewriteMeans(fp: Spec, e: Extension, p: Pool, draw: nat -> u16, redraw: (u16, nat) -> u16)
    requires StackDrawn(p, draw)
    ensures var (f, q) := Rewrite(fp, e, p, draw, redraw);
            ValueMatches(fp, e, f, draw, redraw) && StackDrawn(q, draw)
  {
    hide IsGrease, Groups, Shares, ShareMap, SharesSoFar, SharesMatch, GroupsMatch, StackDrawn;
    if e.NamedGroups? && fp.ja3.Some? {
      GroupsMean(p.stack == [], fp.ja3.value.curves, p, draw);
    } else if e.KeyShare? && fp.shares.Some? {
      SharesMean(p.stack == [], fp.shares.value, ShareMap(e.shares), p, draw);
      var (ss, left, _) := Shares(p.stack == [], fp.shares.value, ShareMap(e.shares), p, draw);
      SharesMatchMessage(fp.shares.value, e.shares, ss, left, draw);
    }
  }

  /** Every extension of the result is what the fingerprint makes of the one in its place. */
  lemma {:induction false} RewriteAllMeans(fp: Spec, es: seq<Extension>, draw: nat -> u16, redraw: (u16, nat) -> u16)
    ensures var (new_, p) := RewriteAll(fp, es, draw, redraw);
            && StackDrawn(p, draw)
            && forall i :: 0 <= i < |es| ==> ValueMatches(fp, es[i], new_[i], draw, redraw)
  {
    hide Rewrite, ValueMatches;
    if es != [] {
      var n := |es| - 1;
      RewriteAllMeans(fp, es[..n], draw, redraw);
      RewriteMeans(fp, es[n], RewriteAll(fp, es[..n], draw, redraw).1, draw, redraw);
    }
  }

  method RewriteValues(fp: Spec, es: seq<Extension>, draw: nat -> u16, redraw: (u16, nat) -> u16)
    returns (new_: seq<Extension>, pad: bool)
    ensures new_ == RewriteAll(fp, es, draw, redraw).0
    ensures |new_| == |es| && forall i :: 0 <= i < |es| ==> ValueMatches(fp, es[i], new_[i], draw, redraw)
    ensures pad <==> exists i :: 0 <= i < |es| && IsPadding(es[i])
  {
    hide Rewrite, ValueMatches;
    RewriteAllMeans(fp, es, draw, redraw);
    new_, pad := [], false;
    var p := Pool([], 0);
    for i := 0 to |es|
      invariant (new_, p) == RewriteAll(fp, es[..i], draw, redraw)
      invariant pad <==> exists j :: 0 <= j < i && IsPadding(es[j])
    {
      assert es[..i + 1][..i] == es[..i];
      var e;
      e, p := RewriteExtension(fp, es[i], p, draw, redraw);
      new_ := new_ + [e];
      pad := pad || IsPadding(es[i]);
    }
    assert es[..|es|] == es;
  }

  // ---------- GREASE is shared ----------

  function GreaseCount(vs: seq<u16>): nat {
    if vs == [] then 0 else GreaseCount(vs[..|vs| - 1]) + if IsGrease(vs[|vs| - 1]) then 1 else 0
  }

  /** Filling: the stack remembers exactly the values put in place of GREASE. */
  lemma {:induction false} FilledGroups(curves: seq<u16>, k: nat, draw: nat -> u16)
    ensures var (gs, q) := Groups(true, curves, Pool([], k), draw);
            && |q.stack| == GreaseCount(curves)
            && forall g :: g in q.stack ==> g in gs
  {
    hide IsGrease;
    if curves != [] {
      FilledGroups(curves[..|curves| - 1], k, draw);
    }
  }

  /** Matching: values leave the stack from the top, each into the groups. */
  lemma {:induction false} MatchedGroups(curves: seq<u16>, p: Pool, draw: nat -> u16)
    ensures var (gs, q) := Groups(false, curves, p, draw);
            && q.stack <= p.stack
            && |q.stack| == (if GreaseCount(curves) < |p.stack| then |p.stack| - GreaseCount(curves) else 0)
            && forall i :: |q.stack| <= i < |p.stack| ==> p.stack[i] in gs
  {
    hide IsGrease;
    if curves != [] {
      MatchedGroups(curves[..|curves| - 1], p, draw);
    }
  }

  predicate SharesTyped(m: map<u16, Share>) {
    forall g :: g in m ==> m[g].group == g && !IsGrease(g)
  }

  lemma {:induction false} FilledShares(curves: seq<u16>, m: map<u16, Share>, k: nat, draw: nat -> u16)
    requires SharesTyped(m)
    ensures var (ss, left, q) := Shares(true, curves, m, Pool([], k), draw);
            && SharesTyped(left)
            && |q.stack| == GreaseCount(curves)
            && forall i :: 0 <= i < |ss| && IsGrease(ss[i].group) ==> ss[i].group in q.stack
  {
    hide IsGrease;
    if curves != [] {
      FilledShares(curves[..|curves| - 1], m, k, draw);
    }
  }

  lemma {:induction false} MatchedShares(curves: seq<u16>, m: map<u16, Share>, p: Pool, draw: nat -> u16)
    requires SharesTyped(m) && GreaseCount(curves) <= |p.stack|
    ensures var (ss, left, q) := Shares(false, curves, m, p, draw);
            && SharesTyped(left)
            && q.stack <= p.stack && |q.stack| == |p.stack| - GreaseCount(curves)
            && forall i :: 0 <= i < |ss| && IsGrease(ss[i].group) ==> ss[i].group in p.stack
  {
    hide IsGrease;
    if curves != [] {
      MatchedShares(curves[..|curves| - 1], m, p, draw);
    }
  }

  lemma {:induction false} ShareMapTyped(shares: seq<Share>)
    requires forall i :: 0 <= i < |shares| ==> !IsGrease(shares[i].group)
    ensures SharesTyped(ShareMap(shares))
  {
    if shares != [] {
      ShareMapTyped(shares[..|shares| - 1]);
    }
  }

  // ---------- over the whole message ----------

  /** The pool when extension `i` is reached. */
  function PoolAt(fp: Spec, es: seq<Extension>, i: nat, draw: nat -> u16, redraw: (u16, nat) -> u16): Pool
    requires i <= |es|
  {
    RewriteAll(fp, es[..i], draw, redraw).1
  }

  lemma PoolAtStart(fp: Spec, es: seq<Extension>, draw: nat -> u16, redraw: (u16, nat) -> u16)
    ensures PoolAt(fp, es, 0, draw, redraw) == Pool([], 0)
  {
    assert es[..0] == [];
  }

  lemma {:induction false} RewriteAt(fp: Spec, es: seq<Extension>, i: nat, draw: nat -> u16, redraw: (u16, nat) -> u16)
    requires i < |es|
    ensures var (e, q) := Rewrite(fp, es[i], PoolAt(fp, es, i, draw, redraw), draw, redraw);
            && RewriteAll(fp, es, draw, redraw).0[i] == e
            && PoolAt(fp, es, i + 1, draw, redraw) == q
  {
    hide Rewrite;
    var n := |es| - 1;
    assert es[..i + 1][..i] == es[..i];
    if i < n {
      RewriteAt(fp, es[..n], i, draw, redraw);
      assert es[..n][..i] == es[..i] && es[..n][..i + 1] == es[..i + 1];
    } else {
      assert es[..n + 1] == es;
    }
  }

  predicate LeavesPool(fp: Spec, e: Extension) {
    (e.NamedGroups? ==> fp.ja3.None?) && (e.KeyShare? ==> fp.shares.None?)
  }

  /** Other extensions leave the pool alone. */
  lemma {:induction false} PoolKept(fp: Spec, es: seq<Extension>, i: nat, j: nat, draw: nat -> u16, redraw: (u16, nat) -> u16)
    requires i <= j <= |es|
    requires forall k :: i <= k < j ==> LeavesPool(fp, es[k])
    ensures PoolAt(fp, es, j, draw, redraw) == PoolAt(fp, es, i, draw, redraw)
    decreases j - i
  {
    if i < j {
      PoolKept(fp, es, i, j - 1, draw, redraw);
      assert es[..j][..j - 1] == es[..j - 1];
    }
  }

  /** One NamedGroups extension, at `a`, and one KeyShare extension without GREASE, at `b`. */
  predicate OneOfEach(es: seq<Extension>, a: nat, b: nat) {
    && a < |es| && b < |es| && es[a].NamedGroups? && es[b].KeyShare?
    && (forall i :: 0 <= i < |es| && es[i].NamedGroups? ==> i == a)
    && (forall i :: 0 <= i < |es| && es[i].KeyShare? ==> i == b)
    && (forall i :: 0 <= i < |es[b].shares| ==> !IsGrease(es[b].shares[i].group))
  }

  /** Section 4.2.8 of RFC 8446: every GREASE key share is for a group that is offered. */
  predicate Offered(es: seq<Extension>, a: nat, b: nat) {
    && a < |es| && b < |es| && es[a].NamedGroups? && es[b].KeyShare?
    && forall i :: 0 <= i < |es[b].shares| && IsGrease(es[b].shares[i].group) ==> es[b].shares[i].group in es[a].groups
  }

  /** The two extensions as rewritten, and the pools they start from. */
  lemma RewrittenPair(fp: Spec, es: seq<Extension>, a: nat, b: nat, draw: nat -> u16, redraw: (u16, nat) -> u16)
    requires fp.ja3.Some? && fp.shares.Some? && OneOfEach(es, a, b)
    ensures var new_ := RewriteAll(fp, es, draw, redraw).0;
            var curves, wanted, m := fp.ja3.value.curves, fp.shares.value, ShareMap(es[b].shares);
            var start := Pool([], 0);
            if a < b then
              var (gs, p) := Groups(true, curves, start, draw);
              new_[a] == NamedGroups(gs) && new_[b] == KeyShare(Shares(p.stack == [], wanted, m, p, draw).0)
            else
              var (ss, _, p) := Shares(true, wanted, m, start, draw);
              new_[b] == KeyShare(ss) && new_[a] == NamedGroups(Groups(p.stack == [], curves, p, draw).0)
  {
    hide Groups, Shares, ShareMap, RewriteAll, PoolAt;
    var x, y := if a < b then a else b, if a < b then b else a;
    RewriteAt(fp, es, x, draw, redraw);
    RewriteAt(fp, es, y, draw, redraw);
    PoolKept(fp, es, 0, x, draw, redraw);
    PoolAtStart(fp, es, draw, redraw);
    PoolKept(fp, es, x + 1, y, draw, redraw);
  }

  /** With no more GREASE key shares than GREASE curves, whichever extension comes first. */
  lemma GreaseSharesOffered(fp: Spec, es: seq<Extension>, a: nat, b: nat, draw: nat -> u16, redraw: (u16, nat) -> u16)
    requires fp.ja3.Some? && fp.shares.Some? && OneOfEach(es, a, b)
    requires GreaseCount(fp.shares.value) <= GreaseCount(fp.ja3.value.curves)
    ensures Offered(RewriteAll(fp, es, draw, redraw).0, a, b)
  {
    hide Groups, Shares, ShareMap, RewriteAll, IsGrease;
    RewrittenPair(fp, es, a, b, draw, redraw);
    ShareMapTyped(es[b].shares);
    var curves, wanted, m := fp.ja3.value.curves, fp.shares.value, ShareMap(es[b].shares);
    if a < b {
      FilledGroups(curves, 0, draw);
      var (gs, p) := Groups(true, curves, Pool([], 0), draw);
      if p.stack == [] {
        FilledShares(wanted, m, p.drawn, draw);
      } else {
        MatchedShares(wanted, m, p, draw);
      }
    } else {
      FilledShares(wanted, m, 0, draw);
      var (ss, _, p) := Shares(true, wanted, m, Pool([], 0), draw);
      if p.stack != [] {
        MatchedGroups(curves, p, draw);
      }
    }
  }

  // ---------- and not otherwise ----------

  ghost predicate AllGrease(draw: nat -> u16) {
    forall n: nat :: IsGrease(draw(n))
  }

  /** Filled groups are curves or draws, in sequence. */
  lemma {:induction false} FilledGroupsFrom(curves: seq<u16>, k: nat, draw: nat -> u16)
    ensures var (gs, q) := Groups(true, curves, Pool([], k), draw);
            && q.drawn == k + GreaseCount(curves)
            && forall i :: 0 <= i < |gs| ==> !IsGrease(gs[i]) || exists n: nat :: k <= n < q.drawn && gs[i] == draw(n)
  {
    hide IsGrease;
    if curves != [] {
      FilledGroupsFrom(curves[..|curves| - 1], k, draw);
      var (gs, q) := Groups(true, curves[..|curves| - 1], Pool([], k), draw);
      assert draw(q.drawn) == draw(q.drawn);
    }
  }

  /** Matched groups are curves, values taken off the stack, or new draws. */
  lemma {:induction false} MatchedGroupsFrom(curves: seq<u16>, p: Pool, draw: nat -> u16)
    ensures var (gs, q) := Groups(false, curves, p, draw);
            && q.stack <= p.stack && q.drawn >= p.drawn
            && forall i :: 0 <= i < |gs| ==>
                 || !IsGrease(gs[i])
                 || (exists j :: |q.stack| <= j < |p.stack| && gs[i] == p.stack[j])
                 || (exists n: nat :: p.drawn <= n && gs[i] == draw(n))
  {
    hide IsGrease;
    if curves != [] {
      MatchedGroupsFrom(curves[..|curves| - 1], p, draw);
      var (gs, q) := Groups(false, curves[..|curves| - 1], p, draw);
      if IsGrease(curves[|curves| - 1]) && q.stack != [] {
        assert q.stack[|q.stack| - 1] == p.stack[|q.stack| - 1];
      }
    }
  }

  /** Filled shares put the draws on the stack in sequence, and the first draw into a share. */
  lemma {:induction false} FilledSharesFrom(curves: seq<u16>, m: map<u16, Share>, k: nat, draw: nat -> u16)
    requires SharesTyped(m)
    ensures var (ss, left, q) := Shares(true, curves, m, Pool([], k), draw);
            && SharesTyped(left)
            && q.drawn == k + |q.stack| && |q.stack| == GreaseCount(curves)
            && (forall i :: 0 <= i < |q.stack| ==> q.stack[i] == draw(k + i))
            && (GreaseCount(curves) > 0 ==> exists i :: 0 <= i < |ss| && ss[i].group == draw(k))
  {
    hide IsGrease;
    if curves != [] {
      var init := curves[..|curves| - 1];
      FilledSharesFrom(init, m, k, draw);
      var (ss, left, q) := Shares(true, init, m, Pool([], k), draw);
      var (ss', _, _) := Shares(true, curves, m, Pool([], k), draw);
      if GreaseCount(init) > 0 {
        var i :| 0 <= i < |ss| && ss[i].group == draw(k);
        assert ss'[i] == ss[i];
      } else if IsGrease(curves[|curves| - 1]) {
        assert ss'[|ss|].group == draw(k);
      }
    }
  }

  /** Once the stack runs out, a share gets a new draw. */
  lemma {:induction false} ExhaustedShares(curves: seq<u16>, m: map<u16, Share>, p: Pool, draw: nat -> u16)
    requires SharesTyped(m)
    ensures var (ss, left, q) := Shares(false, curves, m, p, draw);
            && SharesTyped(left)
            && (if GreaseCount(curves) <= |p.stack|
                then |q.stack| == |p.stack| - GreaseCount(curves) && q.drawn == p.drawn
                else q.stack == [])
            && (GreaseCount(curves) > |p.stack| ==> exists i :: 0 <= i < |ss| && ss[i].group == draw(p.drawn))
  {
    hide IsGrease;
    if curves != [] {
      var init := curves[..|curves| - 1];
      ExhaustedShares(init, m, p, draw);
      var (ss, left, q) := Shares(false, init, m, p, draw);
      var (ss', _, _) := Shares(false, curves, m, p, draw);
      if GreaseCount(init) > |p.stack| {
        var i :| 0 <= i < |ss| && ss[i].group == draw(p.drawn);
        assert ss'[i] == ss[i];
      } else if GreaseCount(curves) > |p.stack| {
        assert ss'[|ss|].group == draw(p.drawn);
      }
    }
  }

  /** With more, some choice of GREASE values leaves a key share for a group that is not offered. */
  lemma ExcessGreaseNotOffered(fp: Spec, es: seq<Extension>, a: nat, b: nat, redraw: (u16, nat) -> u16)
    returns (draw: nat -> u16)
    requires fp.ja3.Some? && fp.shares.Some? && OneOfEach(es, a, b)
    requires GreaseCount(fp.shares.value) > GreaseCount(fp.ja3.value.curves)
    ensures AllGrease(draw) && !Offered(RewriteAll(fp, es, draw, redraw).0, a, b)
  {
    hide Groups, Shares, ShareMap, RewriteAll, GreaseCount;
    ShareMapTyped(es[b].shares);
    var curves, wanted, m := fp.ja3.value.curves, fp.shares.value, ShareMap(es[b].shares);
    var c := GreaseCount(curves);
    if a < b {
      draw := n => if n < c then 0x0a0a else 0x1a1a;
      RewrittenPair(fp, es, a, b, draw, redraw);
      FilledGroups(curves, 0, draw);
      FilledGroupsFrom(curves, 0, draw);
      var (gs, p) := Groups(true, curves, Pool([], 0), draw);
      assert 0x1a1a !in gs;
      if p.stack == [] {
        FilledSharesFrom(wanted, m, p.drawn, draw);
        assert p == Pool([], p.drawn);
      } else {
        ExhaustedShares(wanted, m, p, draw);
      }
    } else {
      draw := n => if n == 0 then 0x1a1a else 0x0a0a;
      RewrittenPair(fp, es, a, b, draw, redraw);
      FilledSharesFrom(wanted, m, 0, draw);
      var (ss, _, p) := Shares(true, wanted, m, Pool([], 0), draw);
      MatchedGroups(curves, p, draw);
      MatchedGroupsFrom(curves, p, draw);
      assert 0x1a1a !in Groups(false, curves, p, draw).0;
    }
  }

  // ---------- without a JA3 or without key shares ----------

  /** A spec without a JA3 leaves the groups alone and draws for its key shares. */
  lemma SharesWithoutJa3(fp: Spec, es: seq<Extension>, a: nat, b: nat, draw: nat -> u16, redraw: (u16, nat) -> u16)
    requires fp.ja3.None? && fp.shares.Some? && OneOfEach(es, a, b)
    ensures var new_ := RewriteAll(fp, es, draw, redraw).0;
            && new_[a] == es[a]
            && new_[b] == KeyShare(Shares(true, fp.shares.value, ShareMap(es[b].shares), Pool([], 0), draw).0)
  {
    hide Groups, Shares, ShareMap, RewriteAll, PoolAt;
    RewriteAt(fp, es, a, draw, redraw);
    RewriteAt(fp, es, b, draw, redraw);
    PoolKept(fp, es, 0, b, draw, redraw);
    PoolAtStart(fp, es, draw, redraw);
  }

  ghost predicate AllGreaseIn(groups: seq<u16>) {
    forall v: u16 :: IsGrease(v) ==> v in groups
  }

  lemma WithoutJa3(fp: Spec, es: seq<Extension>, a: nat, b: nat, draw: nat -> u16, redraw: (u16, nat) -> u16)
    requires fp.ja3.None? && fp.shares.Some? && OneOfEach(es, a, b) && AllGrease(draw)
    requires GreaseCount(fp.shares.value) == 0 || AllGreaseIn(es[a].groups)
    ensures Offered(RewriteAll(fp, es, draw, redraw).0, a, b)
  {
    hide Groups, Shares, ShareMap, RewriteAll, IsGrease, GreaseCount;
    SharesWithoutJa3(fp, es, a, b, draw, redraw);
    ShareMapTyped(es[b].shares);
    FilledShares(fp.shares.value, ShareMap(es[b].shares), 0, draw);
    FilledSharesFrom(fp.shares.value, ShareMap(es[b].shares), 0, draw);
  }

  lemma WithoutJa3NotOffered(fp: Spec, es: seq<Extension>, a: nat, b: nat, redraw: (u16, nat) -> u16)
    returns (draw: nat -> u16)
    requires fp.ja3.None? && fp.shares.Some? && OneOfEach(es, a, b)
    requires GreaseCount(fp.shares.value) > 0 && !AllGreaseIn(es[a].groups)
    ensures AllGrease(draw) && !Offered(RewriteAll(fp, es, draw, redraw).0, a, b)
  {
    hide Groups, Shares, ShareMap, RewriteAll, IsGrease, GreaseCount;
    var v: u16 :| IsGrease(v) && v !in es[a].groups;
    draw := _ => v;
    SharesWithoutJa3(fp, es, a, b, draw, redraw);
    ShareMapTyped(es[b].shares);
    FilledSharesFrom(fp.shares.value, ShareMap(es[b].shares), 0, draw);
  }

  /** Key shares that are not rewritten hold no GREASE to begin with. */
  lemma SharesKept(fp: Spec, es: seq<Extension>, a: nat, b: nat, draw: nat -> u16, redraw: (u16, nat) -> u16)
    requires fp.shares.None? && OneOfEach(es, a, b)
    ensures Offered(RewriteAll(fp, es, draw, redraw).0, a, b)
  {
    hide Groups, Shares, ShareMap, RewriteAll, PoolAt, IsGrease;
    RewriteAt(fp, es, a, draw, redraw);
    RewriteAt(fp, es, b, draw, redraw);
  }

  /** What a fingerprint must meet: nothing if it leaves the key shares alone; no more GREASE key
      shares than GREASE curves if it rewrites the groups too; otherwise no GREASE key share at all,
      or a message that already offers every GREASE value. */
  ghost predicate GreaseFits(fp: Spec, groups: seq<u16>) {
    || fp.shares.None?
    || (if fp.ja3.Some? then GreaseCount(fp.shares.value) <= GreaseCount(fp.ja3.value.curves)
        else GreaseCount(fp.shares.value) == 0 || AllGreaseIn(groups))
  }

  lemma GreaseFitsSuffices(fp: Spec, es: seq<Extension>, a: nat, b: nat, draw: nat -> u16, redraw: (u16, nat) -> u16)
    requires OneOfEach(es, a, b) && AllGrease(draw) && GreaseFits(fp, es[a].groups)
    ensures Offered(RewriteAll(fp, es, draw, redraw).0, a, b)
  {
    hide RewriteAll, GreaseCount, Offered, AllGrease, AllGreaseIn;
    if fp.shares.None? {
      SharesKept(fp, es, a, b, draw, redraw);
    } else if fp.ja3.None? {
      WithoutJa3(fp, es, a, b, draw, redraw);
    } else {
      GreaseSharesOffered(fp, es, a, b, draw, redraw);
    }
  }

  lemma GreaseFitsNeeded(fp: Spec, es: seq<Extension>, a: nat, b: nat, redraw: (u16, nat) -> u16)
    returns (draw: nat -> u16)
    requires OneOfEach(es, a, b) && !GreaseFits(fp, es[a].groups)
    ensures AllGrease(draw) && !Offered(RewriteAll(fp, es, draw, redraw).0, a, b)
  {
    hide RewriteAll, GreaseCount, Offered, AllGrease, AllGreaseIn;
    if fp.ja3.None? {
      draw := WithoutJa3NotOffered(fp, es, a, b, redraw);
    } else {
      draw := ExcessGreaseNotOffered(fp, es, a, b, redraw);
    }
  }

  /** So a fingerprint keeps GREASE consistent for every choice of values exactly when it fits. */
  lemma SharedGreaseExactly(fp: Spec, es: seq<Extension>, a: nat, b: nat, redraw: (u16, nat) -> u16)
    requires OneOfEach(es, a, b)
    ensures (forall draw: nat -> u16 :: AllGrease(draw) ==> Offered(RewriteAll(fp, es, draw, redraw).0, a, b))
            <==> GreaseFits(fp, es[a].groups)
  {
    hide RewriteAll, Offered, GreaseFits;
    if GreaseFits(fp, es[a].groups) {
      forall draw: nat -> u16 | AllGrease(draw)
        ensures Offered(RewriteAll(fp, es, draw, redraw).0, a, b)
      {
        GreaseFitsSuffices(fp, es, a, b, draw, redraw);
      }
    } else {
      var draw := GreaseFitsNeeded(fp, es, a, b, redraw);
    }
  }
}
