/** Who gets in: the time signature, the Noise check and the replay filter together, over any run. */
module Admission {
  import opened Basics
  import opened ReplayFilter
  import T = Totp

  /** A ClientHello's credentials, the server's clock when it arrived, whether its Noise message
      opens, and its peer. */
  datatype Hello = Hello(nonce: Nonce, sig: seq<byte>, time: nat, noiseOk: bool, peer: nat)

  datatype Outcome = Unauthenticated | ReplayDetected(firstFrom: nat) | Admitted | Panicked

  predicate Authenticates(t: T.Totp, h: Hello) {
    T.VerifyAt(t, h.nonce.bytes, h.sig, h.time) == T.Accept && h.noiseOk
  }

  /** The authentication and replay part of `Server::accept`. */
  function Decide(t: T.Totp, cap: nat, es: seq<Entry>, h: Hello): (seq<Entry>, Outcome)
    requires cap > 0
  {
    if T.VerifyAt(t, h.nonce.bytes, h.sig, h.time) == T.Overflow then (es, Panicked)
    else if !Authenticates(t, h) then (es, Unauthenticated)
    else
      var (es', hit) := Touch(es, cap, h.nonce, h.peer);
      (es', if hit.Some? then ReplayDetected(hit.value) else Admitted)
  }

  /**
   Who gets past authentication, in the terms of the credentials: a hello whose Noise message opens
   and whose signature is that of a step in the window. Any other is turned away and leaves no trace,
   and only arithmetic that overflows panics.
   */
  lemma OnlyGenuineGetIn(t: T.Totp, cap: nat, es: seq<Entry>, h: Hello)
    requires cap > 0
    ensures var (es', o) := Decide(t, cap, es, h);
            var v := T.VerifyAt(t, h.nonce.bytes, h.sig, h.time);
            && (o.Admitted? || o.ReplayDetected? <==> h.noiseOk && v == T.Accept)
            && (o.Admitted? || o.ReplayDetected? ==>
                  h.noiseOk && t.step > 0 && T.InWindow(t, h.nonce.bytes, h.sig, h.time))
            && (T.InRange(t, h.time) && h.noiseOk && T.InWindow(t, h.nonce.bytes, h.sig, h.time) ==>
                  o.Admitted? || o.ReplayDetected?)
            && (o.Panicked? <==> v == T.Overflow)
            && (T.InRange(t, h.time) ==> !o.Panicked?)
            && (o.Panicked? || o.Unauthenticated? ==> es' == es)
            && (o.Admitted? || o.ReplayDetected? ==> es' != [] && es'[0].nonce == h.nonce)
  {
    hide T.VerifyAt, T.InWindow, T.InRange;
    T.VerifyIsWindow(t, h.nonce.bytes, h.sig, h.time);
  }

  class Server {
    const totp: T.Totp
    const capacity: nat
    var entries: seq<Entry>

    constructor (totp: T.Totp, capacity: nat)
      ensures this.totp == totp && this.capacity == capacity && entries == []
    {
      this.totp, this.capacity := totp, capacity;
      entries := [];
    }

    /** `LruCache::get`: a hit becomes the most recent entry. */
    method Get(n: Nonce) returns (r: Option<nat>)
      modifies this
      ensures var i := IndexOf(old(entries), n);
              if i < |old(entries)|
              then entries == ToFront(old(entries), i) && r == Some(old(entries)[i].from)
              else entries == old(entries) && r == None
    {
      var i := IndexOf(entries, n);
      if i == |entries| {
        return None;
      }
      r := Some(entries[i].from);
      entries := ToFront(entries, i);
    }

    /** `LruCache::put` of a nonce that is not in the cache. */
    method Put(n: Nonce, from: nat)
      requires capacity > 0
      modifies this
      ensures entries == [Entry(n, from)] + if |old(entries)| < capacity then old(entries) else old(entries)[..capacity - 1]
    {
      if |entries| >= capacity {
        entries := entries[..capacity - 1];
      }
      entries := [Entry(n, from)] + entries;
    }

    method Admit(h: Hello) returns (o: Outcome)
      requires capacity > 0
      modifies this
      ensures (entries, o) == Decide(totp, capacity, old(entries), h)
    {
      var v := T.Verify(totp, h.nonce.bytes, h.sig, h.time);
      if v == T.Overflow {
        return Panicked;
      }
      if v != T.Accept || !h.noiseOk {
        return Unauthenticated;
      }
      var hit := Get(h.nonce);
      if hit.Some? {
        return ReplayDetected(hit.value);
      }
      Put(h.nonce, h.peer);
      return Admitted;
    }
  }

  // ---------- runs ----------

  /** The filter after a run. */
  function Exec(t: T.Totp, cap: nat, hs: seq<Hello>): seq<Entry>
    requires cap > 0
  {
    if hs == [] then [] else Decide(t, cap, Exec(t, cap, hs[..|hs| - 1]), hs[|hs| - 1]).0
  }

  function OutcomeAt(t: T.Totp, cap: nat, hs: seq<Hello>, k: nat): Outcome
    requires cap > 0 && k < |hs|
  {
    Decide(t, cap, Exec(t, cap, hs[..k]), hs[k]).1
  }

  /** The nonces of the hellos that authenticated, in order. */
  function AuthNonces(t: T.Totp, hs: seq<Hello>): seq<Nonce> {
    if hs == [] then []
    else AuthNonces(t, hs[..|hs| - 1]) + if Authenticates(t, hs[|hs| - 1]) then [hs[|hs| - 1].nonce] else []
  }

  /** Over any run, the filter holds exactly the most recent distinct nonces that authenticated. */
  lemma {:induction false} FilterIsRecentAuthenticated(t: T.Totp, cap: nat, hs: seq<Hello>)
    requires cap > 0
    ensures Reflects(Exec(t, cap, hs), cap, AuthNonces(t, hs))
  {
    hide Authenticates, Touch, Recent;
    if hs == [] {
      RecentOfNothing();
    } else {
      var n := |hs| - 1;
      var h, hist := hs[n], AuthNonces(t, hs[..n]);
      FilterIsRecentAuthenticated(t, cap, hs[..n]);
      if Authenticates(t, h) {
        NotOverflow(t, h);
        TouchReflects(Exec(t, cap, hs[..n]), cap, hist, h.nonce, h.peer);
      } else {
        assert hist + [] == hist;
      }
    }
  }

  lemma NotOverflow(t: T.Totp, h: Hello)
    requires Authenticates(t, h)
    ensures T.VerifyAt(t, h.nonce.bytes, h.sig, h.time) != T.Overflow
  {
  }

  /** Over a run: every nonce in the history came with a Noise message that opened and a signature in
      the window, and every such hello is in the history. */
  lemma {:induction false} HistoryIsGenuine(t: T.Totp, hs: seq<Hello>, n: Nonce)
    ensures n in AuthNonces(t, hs)
            <==> exists i :: 0 <= i < |hs| && hs[i].nonce == n && hs[i].noiseOk
                             && T.VerifyAt(t, n.bytes, hs[i].sig, hs[i].time) == T.Accept
  {
    hide T.VerifyAt;
    if hs != [] {
      var k := |hs| - 1;
      HistoryIsGenuine(t, hs[..k], n);
      assert hs == hs[..k] + [hs[k]];
    }
  }

  /** An authenticated hello is a replay exactly when its nonce was presented before and fewer than
      `cap` distinct other nonces have authenticated since. */
  lemma ReplayExactly(t: T.Totp, cap: nat, hs: seq<Hello>, k: nat)
    requires cap > 0 && k < |hs| && Authenticates(t, hs[k])
    ensures var past, n := AuthNonces(t, hs[..k]), hs[k].nonce;
            var last := LastSeen(past, n);
            if last >= 0 && |Distinct(past[last + 1..])| < cap
            then OutcomeAt(t, cap, hs, k).ReplayDetected?
            else OutcomeAt(t, cap, hs, k) == Admitted
  {
    hide Touch, Recent, Authenticates, Exec, AuthNonces;
    var past := AuthNonces(t, hs[..k]);
    NotOverflow(t, hs[k]);
    FilterIsRecentAuthenticated(t, cap, hs[..k]);
    TouchReflects(Exec(t, cap, hs[..k]), cap, past, hs[k].nonce, hs[k].peer);
    RememberedExactly(past, cap, hs[k].nonce);
  }

  lemma {:induction false} AuthConcat(t: T.Totp, a: seq<Hello>, b: seq<Hello>)
    ensures AuthNonces(t, a + b) == AuthNonces(t, a) + AuthNonces(t, b)
    decreases |b|
  {
    hide Authenticates;
    if b == [] {
      assert a + b == a;
    } else {
      var n := |b| - 1;
      AuthConcat(t, a, b[..n]);
      assert (a + b)[..|a| + n] == a + b[..n];
    }
  }

  lemma AuthSplit(t: T.Totp, hs: seq<Hello>, i: nat, j: nat)
    requires i < j <= |hs| && Authenticates(t, hs[i])
    ensures AuthNonces(t, hs[..j]) == AuthNonces(t, hs[..i]) + [hs[i].nonce] + AuthNonces(t, hs[i + 1..j])
  {
    hide Authenticates;
    assert hs[..i] == hs[..i + 1][..i];
    assert hs[..j] == hs[..i + 1] + hs[i + 1..j];
    AuthConcat(t, hs[..i + 1], hs[i + 1..j]);
  }

  lemma SubsetSize(a: set<Nonce>, b: set<Nonce>)
    requires a <= b
    ensures |a| <= |b|
  {
    assert b == a + (b - a);
  }

  /** What follows the last sight of `n` is part of what follows any sight of it. */
  lemma OthersSinceThen(before: seq<Nonce>, n: Nonce, after: seq<Nonce>)
    ensures var h := before + [n] + after;
            && LastSeen(h, n) >= |before|
            && |Distinct(h[LastSeen(h, n) + 1..])| <= |Distinct(after) - {n}|
  {
    var h := before + [n] + after;
    assert h[|before|] == n;
    var last := LastSeen(h, n);
    var tail := h[last + 1..];
    assert tail == after[last - |before|..];
    assert forall x :: x in tail ==> x in after && x != n;
    SubsetSize(Distinct(tail), Distinct(after) - {n});
  }

  /**
   The same ClientHello admitted twice: at least `cap` other nonces authenticated in between, and
   the two times are less than (2 * skew + 1) * step seconds apart.
   */
  lemma AdmittedTwice(t: T.Totp, cap: nat, hs: seq<Hello>, i: nat, j: nat)
    requires cap > 0 && i < j < |hs|
    requires hs[i].nonce == hs[j].nonce && hs[i].sig == hs[j].sig
    requires OutcomeAt(t, cap, hs, i) == Admitted && OutcomeAt(t, cap, hs, j) == Admitted
    requires T.CollisionFree(t, hs[i].nonce.bytes)
    ensures |Distinct(AuthNonces(t, hs[i + 1..j])) - {hs[i].nonce}| >= cap
    ensures hs[j].time < hs[i].time + (2 * t.skew + 1) * t.step
    ensures hs[i].time < hs[j].time + (2 * t.skew + 1) * t.step
  {
    hide Touch, Exec, AuthNonces, T.VerifyAt, T.CollisionFree;
    var n := hs[i].nonce;
    T.VerifiedTimesAreClose(t, n.bytes, hs[i].sig, hs[i].time, hs[j].time);
    T.VerifiedTimesAreClose(t, n.bytes, hs[i].sig, hs[j].time, hs[i].time);
    AuthSplit(t, hs, i, j);
    OthersSinceThen(AuthNonces(t, hs[..i]), n, AuthNonces(t, hs[i + 1..j]));
    ReplayExactly(t, cap, hs, j);
  }

  /** The bound is met: with room for one nonce, one other nonce in between is enough. */
  lemma AdmittedAgain() returns (t: T.Totp, hs: seq<Hello>)
    ensures |hs| == 3 && hs[0] == hs[2]
    ensures T.CollisionFree(t, hs[0].nonce.bytes)
    ensures OutcomeAt(t, 1, hs, 0) == OutcomeAt(t, 1, hs, 2) == Admitted
  {
    hide T.CollisionFree, Authenticates, OutcomeAt;
    t := T.CollisionFreeExists(30, 1);
    var x := Genuine(t, Nonce([]));
    var y := Genuine(t, Nonce([0]));
    hs := [x, y, x];
    OneBetween(t, x, y);
  }

  lemma Genuine(t: T.Totp, n: Nonce) returns (h: Hello)
    requires t.step == 30 && t.skew == 1
    ensures h.nonce == n && Authenticates(t, h)
  {
    hide T.VerifyAt, T.Sign;
    h := Hello(n, T.Sign(t, 60, n.bytes), 60, true, 0);
    T.RecentSignatureVerifies(t, n.bytes, 60, 60);
  }

  lemma OneBetween(t: T.Totp, x: Hello, y: Hello)
    requires Authenticates(t, x) && Authenticates(t, y) && x.nonce != y.nonce
    ensures OutcomeAt(t, 1, [x, y, x], 0) == OutcomeAt(t, 1, [x, y, x], 2) == Admitted
  {
    hide Authenticates, OutcomeAt, AuthNonces, LastSeen, Distinct;
    var hs := [x, y, x];
    assert hs[..0] == [] && hs[..2] == [x, y];
    AuthOfTwo(t, x, y);
    SeenOfTwo(x.nonce, y.nonce);
    ReplayExactly(t, 1, hs, 0);
    ReplayExactly(t, 1, hs, 2);
  }

  lemma SeenOfTwo(x: Nonce, y: Nonce)
    requires x != y
    ensures LastSeen([], x) == -1
    ensures LastSeen([x, y], x) == 0 && |Distinct([x, y][1..])| == 1
  {
    assert [x, y][0] == x && [x, y][1] == y;
    assert [x, y][1..] == [y] && Distinct([y]) == {y};
  }

  lemma AuthOfTwo(t: T.Totp, x: Hello, y: Hello)
    requires Authenticates(t, x) && Authenticates(t, y)
    ensures AuthNonces(t, []) == [] && AuthNonces(t, [x, y]) == [x.nonce, y.nonce]
  {
    hide Authenticates;
    assert [x][..0] == [] && [x, y][..1] == [x];
    assert AuthNonces(t, [x]) == [x.nonce];
  }

  // ---------- who was first ----------

  /** Position of the last hello with this nonce that was admitted, or -1. */
  function LastAdmitted(t: T.Totp, cap: nat, hs: seq<Hello>, n: Nonce): (j: int)
    requires cap > 0
    ensures -1 <= j < |hs|
    ensures j >= 0 ==> hs[j].nonce == n
  {
    if hs == [] then -1
    else
      var k := |hs| - 1;
      if hs[k].nonce == n && OutcomeAt(t, cap, hs, k) == Admitted then k else LastAdmitted(t, cap, hs[..k], n)
  }

  /** An entry names the peer whose hello put it there. */
  predicate FromAdmitted(t: T.Totp, cap: nat, hs: seq<Hello>, e: Entry)
    requires cap > 0
  {
    var j := LastAdmitted(t, cap, hs, e.nonce);
    j >= 0 && hs[j].peer == e.from
  }

  lemma TouchEntries(es: seq<Entry>, cap: nat, n: Nonce, from: nat)
    requires cap > 0
    ensures var (es', hit) := Touch(es, cap, n, from);
            && (hit.Some? ==> Entry(n, hit.value) in es)
            && forall e :: e in es' ==> (e in es && (hit.None? ==> e.nonce != n)) || (hit.None? && e == Entry(n, from))
  {
  }

  /** An entry that was there before, unless its nonce is let in now. */
  lemma StillFromAdmitted(t: T.Totp, cap: nat, hs: seq<Hello>, e: Entry)
    requires cap > 0 && hs != [] && FromAdmitted(t, cap, hs[..|hs| - 1], e)
    requires e.nonce != hs[|hs| - 1].nonce || OutcomeAt(t, cap, hs, |hs| - 1) != Admitted
    ensures FromAdmitted(t, cap, hs, e)
  {
    hide OutcomeAt;
  }

  lemma JustAdmitted(t: T.Totp, cap: nat, hs: seq<Hello>)
    requires cap > 0 && hs != [] && OutcomeAt(t, cap, hs, |hs| - 1) == Admitted
    ensures FromAdmitted(t, cap, hs, Entry(hs[|hs| - 1].nonce, hs[|hs| - 1].peer))
  {
    hide OutcomeAt;
  }

  lemma {:induction false} EntriesFromAdmitted(t: T.Totp, cap: nat, hs: seq<Hello>)
    requires cap > 0
    ensures forall e :: e in Exec(t, cap, hs) ==> FromAdmitted(t, cap, hs, e)
  {
    hide T.VerifyAt, Touch, FromAdmitted;
    if hs != [] {
      var k := |hs| - 1;
      var h, es := hs[k], Exec(t, cap, hs[..k]);
      EntriesFromAdmitted(t, cap, hs[..k]);
      TouchEntries(es, cap, h.nonce, h.peer);
      forall e | e in Exec(t, cap, hs)
        ensures FromAdmitted(t, cap, hs, e)
      {
        if e in es && (e.nonce != h.nonce || OutcomeAt(t, cap, hs, k) != Admitted) {
          StillFromAdmitted(t, cap, hs, e);
        } else {
          assert OutcomeAt(t, cap, hs, k) == Admitted;
          var r := Touch(es, cap, h.nonce, h.peer);
          assert r.1.None?;
          assert e in r.0;
          assert e == Entry(h.nonce, h.peer);
          JustAdmitted(t, cap, hs);
        }
      }
    }
  }

  /** A replay is reported with the peer of the hello that was let in with that nonce last. */
  lemma ReplayNamesFirst(t: T.Totp, cap: nat, hs: seq<Hello>, k: nat)
    requires cap > 0 && k < |hs| && OutcomeAt(t, cap, hs, k).ReplayDetected?
    ensures var j := LastAdmitted(t, cap, hs[..k], hs[k].nonce);
            0 <= j < k && OutcomeAt(t, cap, hs, k) == ReplayDetected(hs[j].peer)
  {
    hide T.VerifyAt, Touch, LastAdmitted;
    EntriesFromAdmitted(t, cap, hs[..k]);
    TouchEntries(Exec(t, cap, hs[..k]), cap, hs[k].nonce, hs[k].peer);
  }
}
