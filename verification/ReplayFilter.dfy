/**
 The LRU cache that rejects replayed handshakes, against the plain history of what was presented:
 at any time it holds the most recent distinct nonces, and nothing else decides.
 */
module ReplayFilter {
  import opened Basics

  /** The 32 bytes of a client random. */
  datatype Nonce = Nonce(bytes: seq<byte>)

  /** One cache entry and who first presented the nonce. */
  datatype Entry = Entry(nonce: Nonce, from: nat)

  // ---------- the cache, most recently used first ----------

  function IndexOf(es: seq<Entry>, n: Nonce): (i: nat)
    ensures i <= |es|
    ensures i < |es| ==> es[i].nonce == n
    ensures forall j :: 0 <= j < i ==> es[j].nonce != n
  {
    if es == [] || es[0].nonce == n then 0 else 1 + IndexOf(es[1..], n)
  }

  function ToFront(es: seq<Entry>, i: nat): seq<Entry>
    requires i < |es|
  {
    [es[i]] + es[..i] + es[i + 1..]
  }

  /** `get` moves a hit to the front; a miss is `put` in front, evicting the last when full. */
  function Touch(es: seq<Entry>, cap: nat, n: Nonce, from: nat): (r: (seq<Entry>, Option<nat>))
    requires cap > 0
  {
    var i := IndexOf(es, n);
    if i < |es| then (ToFront(es, i), Some(es[i].from))
    else if |es| < cap then ([Entry(n, from)] + es, None)
    else ([Entry(n, from)] + es[..cap - 1], None)
  }

  function Keys(es: seq<Entry>): seq<Nonce> {
    seq(|es|, i requires 0 <= i < |es| => es[i].nonce)
  }

  // ---------- the history ----------

  function Without(s: seq<Nonce>, n: Nonce): seq<Nonce> {
    if s == [] then []
    else if s[0] == n then Without(s[1..], n)
    else [s[0]] + Without(s[1..], n)
  }

  /** The distinct nonces of a history, the one presented last first. */
  function Recent(h: seq<Nonce>): seq<Nonce> {
    if h == [] then [] else [h[|h| - 1]] + Without(Recent(h[..|h| - 1]), h[|h| - 1])
  }

  function Take(s: seq<Nonce>, k: nat): seq<Nonce> {
    if k < |s| then s[..k] else s
  }

  function Distinct(h: seq<Nonce>): set<Nonce> {
    set n | n in h
  }

  predicate NoRepeat(s: seq<Nonce>) {
    forall i, j :: 0 <= i < j < |s| ==> s[i] != s[j]
  }

  // ---------- lists ----------

  lemma {:induction false} WithoutConcat(a: seq<Nonce>, b: seq<Nonce>, n: Nonce)
    ensures Without(a + b, n) == Without(a, n) + Without(b, n)
  {
    if a == [] {
      assert a + b == b;
    } else {
      WithoutConcat(a[1..], b, n);
      assert (a + b)[1..] == a[1..] + b;
      assert [a[0]] + (Without(a[1..], n) + Without(b, n)) == ([a[0]] + Without(a[1..], n)) + Without(b, n);
    }
  }

  lemma {:induction false} WithoutAbsent(s: seq<Nonce>, n: Nonce)
    requires n !in s
    ensures Without(s, n) == s
  {
    if s != [] {
      assert s == [s[0]] + s[1..];
      WithoutAbsent(s[1..], n);
    }
  }

  lemma {:induction false} WithoutMembers(s: seq<Nonce>, n: Nonce)
    ensures forall x :: x in Without(s, n) <==> x in s && x != n
  {
    if s != [] {
      assert s == [s[0]] + s[1..];
      WithoutMembers(s[1..], n);
    }
  }

  lemma {:induction false} WithoutNoRepeat(s: seq<Nonce>, n: Nonce)
    requires NoRepeat(s)
    ensures NoRepeat(Without(s, n))
  {
    if s != [] {
      WithoutNoRepeat(s[1..], n);
      WithoutMembers(s[1..], n);
      assert s[0] !in s[1..];
    }
  }

  /** Removing the entry at `i` from a list without repeats. */
  lemma {:induction false} WithoutAt(s: seq<Nonce>, i: nat)
    requires NoRepeat(s) && i < |s|
    ensures Without(s, s[i]) == s[..i] + s[i + 1..]
  {
    if i == 0 {
      WithoutAbsent(s[1..], s[0]);
    } else {
      var t := s[1..];
      WithoutAt(t, i - 1);
      assert t[i - 1] == s[i] && t[i..] == s[i + 1..];
      assert [s[0]] + t[..i - 1] == s[..i];
      assert [s[0]] + (t[..i - 1] + t[i..]) == ([s[0]] + t[..i - 1]) + t[i..];
    }
  }

  lemma ConsNoRepeat(n: Nonce, s: seq<Nonce>)
    requires NoRepeat(s) && n !in s
    ensures NoRepeat([n] + s)
  {
  }

  lemma {:induction false} RecentFacts(h: seq<Nonce>)
    ensures NoRepeat(Recent(h))
    ensures forall x :: x in Recent(h) <==> x in h
  {
    hide Without;
    if h != [] {
      var n := |h| - 1;
      var r := Recent(h[..n]);
      RecentFacts(h[..n]);
      WithoutNoRepeat(r, h[n]);
      WithoutMembers(r, h[n]);
      ConsNoRepeat(h[n], Without(r, h[n]));
      assert h == h[..n] + [h[n]];
    }
  }

  lemma {:induction false} DistinctCount(s: seq<Nonce>)
    requires NoRepeat(s)
    ensures |Distinct(s)| == |s|
  {
    if s != [] {
      assert s[0] !in s[1..];
      assert Distinct(s) == {s[0]} + Distinct(s[1..]);
      DistinctCount(s[1..]);
    }
  }

  lemma RecentCount(h: seq<Nonce>)
    ensures |Recent(h)| == |Distinct(h)|
  {
    RecentFacts(h);
    DistinctCount(Recent(h));
    assert Distinct(Recent(h)) == Distinct(h);
  }

  /** Keeping the first `cap` before or after bringing `n` to the front is the same. */
  lemma TakeCommutes(r: seq<Nonce>, cap: nat, n: Nonce)
    requires NoRepeat(r) && cap > 0
    ensures Take([n] + Without(Take(r, cap), n), cap) == Take([n] + Without(r, n), cap)
  {
    if cap < |r| {
      var a, b := r[..cap], r[cap..];
      assert r == a + b;
      WithoutConcat(a, b, n);
      if n in a {
        var i :| 0 <= i < |a| && a[i] == n;
        WithoutAt(a, i);
        assert |Without(a, n)| == cap - 1;
        assert ([n] + (Without(a, n) + Without(b, n)))[..cap] == [n] + Without(a, n);
      } else {
        WithoutAbsent(a, n);
        assert ([n] + (a + Without(b, n)))[..cap] == ([n] + a)[..cap];
      }
    }
  }

  // ---------- the cache is the recent history ----------

  lemma TouchKeys(es: seq<Entry>, cap: nat, n: Nonce, from: nat)
    requires cap > 0 && |es| <= cap && NoRepeat(Keys(es))
    ensures Keys(Touch(es, cap, n, from).0) == Take([n] + Without(Keys(es), n), cap)
    ensures Touch(es, cap, n, from).1.Some? <==> n in Keys(es)
  {
    hide Without;
    var ks, i := Keys(es), IndexOf(es, n);
    if i < |es| {
      assert ks[i] == n;
      WithoutAt(ks, i);
    } else {
      assert n !in ks;
      WithoutAbsent(ks, n);
    }
  }

  /** The cache after a history: entries whose keys are the `cap` most recent distinct nonces. */
  ghost predicate Reflects(es: seq<Entry>, cap: nat, h: seq<Nonce>) {
    Keys(es) == Take(Recent(h), cap)
  }

  lemma TouchReflects(es: seq<Entry>, cap: nat, h: seq<Nonce>, n: Nonce, from: nat)
    requires cap > 0 && Reflects(es, cap, h)
    ensures Reflects(Touch(es, cap, n, from).0, cap, h + [n])
    ensures Touch(es, cap, n, from).1.Some? <==> n in Take(Recent(h), cap)
  {
    hide Touch, Without;
    RecentFacts(h);
    var r := Recent(h);
    assert |es| == |Keys(es)|;
    TouchKeys(es, cap, n, from);
    TakeCommutes(r, cap, n);
    assert (h + [n])[..|h|] == h;
  }

  // ---------- when is a nonce still remembered ----------

  lemma RecentSnoc(h: seq<Nonce>, x: Nonce)
    ensures Recent(h + [x]) == [x] + Without(Recent(h), x)
  {
    assert (h + [x])[..|h|] == h;
  }

  /** Bringing another nonce to the front keeps what is behind it in order. */
  lemma WithoutPrefix(p: seq<Nonce>, n: Nonce, r: seq<Nonce>, x: Nonce)
    requires p + [n] <= r && x != n
    ensures Without(p, x) + [n] <= Without(r, x)
  {
    hide Without;
    var tail := r[|p| + 1..];
    assert r == (p + [n]) + tail;
    WithoutConcat(p + [n], tail, x);
    WithoutConcat(p, [n], x);
    WithoutAbsent([n], x);
  }

  lemma {:induction false} RecentAfter(a: seq<Nonce>, n: Nonce, b: seq<Nonce>)
    requires n !in b
    ensures Recent(b) + [n] <= Recent(a + [n] + b)
    decreases |b|
  {
    hide Recent, Without;
    if b == [] {
      assert a + [n] + b == a + [n] && Recent(b) == [] by { RecentOfNothing(); }
      RecentSnoc(a, n);
    } else {
      var m := |b| - 1;
      var x, c := b[m], b[..m];
      assert b == c + [x] && a + [n] + b == (a + [n] + c) + [x];
      RecentAfter(a, n, c);
      RecentSnoc(a + [n] + c, x);
      RecentSnoc(c, x);
      WithoutPrefix(Recent(c), n, Recent(a + [n] + c), x);
    }
  }

  lemma RecentOfNothing()
    ensures Recent([]) == []
  {
  }

  /** Position of the last time `n` was presented, or -1. */
  function LastSeen(h: seq<Nonce>, n: Nonce): (j: int)
    ensures -1 <= j < |h|
    ensures j >= 0 ==> h[j] == n
    ensures forall i :: j < i < |h| ==> h[i] != n
  {
    if h == [] then -1 else if h[|h| - 1] == n then |h| - 1 else LastSeen(h[..|h| - 1], n)
  }

  /**
   A nonce is remembered exactly when it was presented before and fewer than `cap` distinct other
   nonces were presented since the last time.
   */
  lemma RememberedExactly(h: seq<Nonce>, cap: nat, n: Nonce)
    ensures n in Take(Recent(h), cap)
            <==> LastSeen(h, n) >= 0 && |Distinct(h[LastSeen(h, n) + 1..])| < cap
  {
    hide Recent;
    RecentFacts(h);
    var j := LastSeen(h, n);
    if j >= 0 {
      var a, b := h[..j], h[j + 1..];
      assert h == a + [n] + b;
      RecentAfter(a, n, b);
      RecentCount(b);
      assert (Recent(b) + [n])[|Recent(b)|] == n;
      var r, k := Recent(h), |Recent(b)|;
      assert r[k] == n;
      if n in Take(r, cap) {
        var i :| 0 <= i < |Take(r, cap)| && Take(r, cap)[i] == n;
        assert r[i] == n;
        assert i == k;
      }
      assert k < cap ==> Take(r, cap)[k] in Take(r, cap);
    } else {
      assert n !in h;
    }
  }
}
