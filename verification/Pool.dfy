/**
 The client's pool of reusable sessions: the regions its mutex guards, as operations on the
 guarded state, and the class that performs them in place.
 */
module Pool {
  /** `ReuseConfig`, the part the pool reads. */
  datatype Config = Config(maxIdle: nat, maxRequests: nat, maxAge: nat, idleTimeout: nat)

  /** What `ReuseConfig::new` lets through. */
  predicate Accepted(cfg: Config) {
    cfg.maxIdle > 0 && cfg.maxRequests > 0 && 0 < cfg.idleTimeout < cfg.maxAge
  }

  /** `PooledSession`; `id` stands for its stream. */
  datatype Session = Session(id: nat, useCount: nat, createdAt: nat, lastUsed: nat, reuseCount: nat)

  /** `PoolInner`. */
  datatype Inner = Inner(idle: seq<Session>, checkedOut: nat, closed: bool, checkoutCount: nat, reuseCount: nat)

  const EMPTY := Inner([], 0, false, 0, 0)

  /** `Instant::duration_since`, which saturates: `now` may be older than the session. */
  function Since(now: nat, then_: nat): nat {
    if now < then_ then 0 else now - then_
  }

  predicate IsReusable(cfg: Config, s: Session, now: nat) {
    && s.useCount < cfg.maxRequests
    && Since(now, s.createdAt) < cfg.maxAge
    && Since(now, s.lastUsed) < cfg.idleTimeout
  }

  /** The three limits, as inequalities. A clock that reads earlier than the session counts as no time. */
  lemma ReusableExactly(cfg: Config, s: Session, now: nat)
    requires cfg.maxAge > 0 && cfg.idleTimeout > 0
    ensures IsReusable(cfg, s, now)
            <==> && s.useCount < cfg.maxRequests
                 && now < s.createdAt + cfg.maxAge
                 && now < s.lastUsed + cfg.idleTimeout
  {
  }

  /** The most recently returned session that is still reusable, or -1. */
  function LastReusable(cfg: Config, idle: seq<Session>, now: nat): (k: int)
    ensures -1 <= k < |idle|
    ensures k >= 0 ==> IsReusable(cfg, idle[k], now)
    ensures forall j :: k < j < |idle| ==> !IsReusable(cfg, idle[j], now)
  {
    if idle == [] then -1
    else if IsReusable(cfg, idle[|idle| - 1], now) then |idle| - 1
    else LastReusable(cfg, idle[..|idle| - 1], now)
  }

  function Reused(s: Session, now: nat): Session {
    s.(useCount := s.useCount + 1, reuseCount := s.reuseCount + 1, lastUsed := now)
  }

  datatype Checkout = Refused | Hit(session: Session) | Miss

  /** First critical section of `checkout`. Everything newer than the session taken is evicted. */
  function EnterPool(cfg: Config, p: Inner, now: nat): (r: (Inner, Checkout))
    ensures r.1.Hit? ==>
              && |r.0.idle| < |p.idle| && r.0.idle == p.idle[..|r.0.idle|]
              && IsReusable(cfg, p.idle[|r.0.idle|], now)
              && r.1.session == Reused(p.idle[|r.0.idle|], now)
              && forall j :: |r.0.idle| < j < |p.idle| ==> !IsReusable(cfg, p.idle[j], now)
  {
    if p.closed then (p, Refused)
    else
      var k := LastReusable(cfg, p.idle, now);
      if k < 0 then (p.(idle := []), Miss)
      else
        (p.(idle := p.idle[..k], checkedOut := p.checkedOut + 1,
            checkoutCount := p.checkoutCount + 1, reuseCount := p.reuseCount + 1),
         Hit(Reused(p.idle[k], now)))
  }

  /** Second critical section of `checkout`, reached with a fresh connection. */
  function AdmitFresh(p: Inner, shutdown: bool): (Inner, bool) {
    if p.closed || shutdown then (p, false)
    else (p.(checkedOut := p.checkedOut + 1, checkoutCount := p.checkoutCount + 1), true)
  }

  datatype Returned = Returned(inner: Inner, kept: bool, evicted: seq<Session>)

  /** The critical section of `return_session`. */
  function GiveBack(cfg: Config, p: Inner, s: Session, healthy: bool, now: nat, shutdown: bool): Returned {
    var s' := s.(lastUsed := now);
    var q := p.(checkedOut := if p.checkedOut == 0 then 0 else p.checkedOut - 1);
    if !healthy || !IsReusable(cfg, s', now) then Returned(q, false, [])
    else if q.closed || shutdown then Returned(q, false, [])
    else if |q.idle| >= cfg.maxIdle then
      if q.checkedOut > 0 then Returned(q, false, [])
      else if q.idle != [] then Returned(q.(idle := q.idle[1..] + [s']), true, [q.idle[0]])
      else Returned(q.(idle := [s']), true, [])
    else Returned(q.(idle := q.idle + [s']), true, [])
  }

  /**
   What a checkout finds: refused exactly when the pool is closed; otherwise a hit exactly when some
   idle session has uses, age and idle time left, and the hit is the newest of those, older ones
   staying; otherwise a miss that leaves nothing idle.
   */
  lemma CheckoutExactly(cfg: Config, p: Inner, now: nat)
    requires cfg.maxAge > 0 && cfg.idleTimeout > 0
    ensures var (q, r) := EnterPool(cfg, p, now);
            && (r.Refused? <==> p.closed)
            && (r.Refused? ==> q == p)
            && (r.Hit? <==> !p.closed && exists k :: 0 <= k < |p.idle| && Usable(cfg, p.idle[k], now))
            && (r.Hit? ==>
                  && |q.idle| < |p.idle| && q.idle == p.idle[..|q.idle|]
                  && Usable(cfg, p.idle[|q.idle|], now)
                  && (forall j :: |q.idle| < j < |p.idle| ==> !Usable(cfg, p.idle[j], now))
                  && r.session == p.idle[|q.idle|].(useCount := p.idle[|q.idle|].useCount + 1,
                                                    reuseCount := p.idle[|q.idle|].reuseCount + 1,
                                                    lastUsed := now)
                  && q.checkedOut == p.checkedOut + 1 && !q.closed)
            && (r.Miss? ==> q == p.(idle := []))
  {
    hide IsReusable, LastReusable;
    forall k | 0 <= k < |p.idle|
      ensures IsReusable(cfg, p.idle[k], now) <==> Usable(cfg, p.idle[k], now)
    {
      ReusableExactly(cfg, p.idle[k], now);
    }
  }

  /** Uses, age and idle time left. */
  predicate Usable(cfg: Config, s: Session, now: nat) {
    && s.useCount < cfg.maxRequests
    && now < s.createdAt + cfg.maxAge
    && now < s.lastUsed + cfg.idleTimeout
  }

  /** A fresh connection is let in exactly while the pool is open and not shutting down. */
  lemma AdmitExactly(p: Inner, shutdown: bool)
    ensures var (q, ok) := AdmitFresh(p, shutdown);
            && (ok <==> !p.closed && !shutdown)
            && q.checkedOut == p.checkedOut + (if ok then 1 else 0)
            && q.idle == p.idle && q.closed == p.closed
  {
  }

  /** A returned session is kept exactly when it is healthy, has uses and age left, the pool is neither
      closed nor shutting down, and there is room for it or nothing else is checked out. */
  lemma KeptExactly(cfg: Config, p: Inner, s: Session, healthy: bool, now: nat, shutdown: bool)
    requires cfg.maxAge > 0 && cfg.idleTimeout > 0
    ensures GiveBack(cfg, p, s, healthy, now, shutdown).kept
            <==> && healthy && !p.closed && !shutdown
                 && s.useCount < cfg.maxRequests && now < s.createdAt + cfg.maxAge
                 && (|p.idle| < cfg.maxIdle || p.checkedOut <= 1)
    ensures var q := GiveBack(cfg, p, s, healthy, now, shutdown).inner;
            q.checkedOut == (if p.checkedOut == 0 then 0 else p.checkedOut - 1) && q.closed == p.closed
  {
    hide IsReusable;
    ReusableExactly(cfg, s.(lastUsed := now), now);
  }

  /** A session that was kept is the next one handed out, as long as it is still reusable. */
  lemma ReturnThenCheckout(cfg: Config, p: Inner, s: Session, healthy: bool, now: nat, shutdown: bool, later: nat)
    requires GiveBack(cfg, p, s, healthy, now, shutdown).kept
    requires IsReusable(cfg, s.(lastUsed := now), later)
    ensures EnterPool(cfg, GiveBack(cfg, p, s, healthy, now, shutdown).inner, later).1
            == Hit(Reused(s.(lastUsed := now), later))
  {
    var idle := GiveBack(cfg, p, s, healthy, now, shutdown).inner.idle;
    assert idle[|idle| - 1] == s.(lastUsed := now);
  }

  /** A return costs the pool at most its oldest idle session, and only when nothing is left
      checked out; all other idle sessions stay, in order. */
  lemma ReturnEvictsOldest(cfg: Config, p: Inner, s: Session, healthy: bool, now: nat, shutdown: bool)
    ensures var r := GiveBack(cfg, p, s, healthy, now, shutdown);
            r.evicted + r.inner.idle == p.idle + (if r.kept then [s.(lastUsed := now)] else [])
            && (r.evicted != [] ==> r.kept && |r.evicted| == 1 && r.inner.checkedOut == 0 && |p.idle| >= cfg.maxIdle)
  {
    var r := GiveBack(cfg, p, s, healthy, now, shutdown);
    if r.evicted != [] {
      assert [p.idle[0]] + (p.idle[1..] + [s.(lastUsed := now)]) == p.idle + [s.(lastUsed := now)];
    }
  }

  /** First critical section of `close_all`. */
  function CloseAll(p: Inner): Inner {
    p.(closed := true, idle := [])
  }

  /** `discard_checked_out`. */
  function Discard(p: Inner): Inner {
    p.(checkedOut := if p.checkedOut == 0 then 0 else p.checkedOut - 1)
  }

  /** The guarded state in place; each method is one lock-held region. */
  class SessionPool {
    const config: Config
    var idle: seq<Session>
    var checkedOut: nat
    var closed: bool
    var checkoutCount: nat
    var reuseCount: nat

    constructor (config: Config)
      ensures this.config == config && State() == EMPTY
    {
      this.config := config;
      idle, checkedOut, closed, checkoutCount, reuseCount := [], 0, false, 0, 0;
    }

    ghost function State(): Inner
      reads this
    {
      Inner(idle, checkedOut, closed, checkoutCount, reuseCount)
    }

    method EnterSection(now: nat) returns (r: Checkout)
      modifies this
      ensures (State(), r) == EnterPool(config, old(State()), now)
    {
      if closed {
        return Refused;
      }
      while idle != []
        invariant State() == old(State()).(idle := idle)
        invariant idle <= old(idle)
        invariant LastReusable(config, idle, now) == LastReusable(config, old(idle), now)
        decreases |idle|
      {
        var session := idle[|idle| - 1];
        assert old(idle)[..|idle| - 1] == idle[..|idle| - 1];
        idle := idle[..|idle| - 1];
        if IsReusable(config, session, now) {
          session := Reused(session, now);
          checkedOut := checkedOut + 1;
          checkoutCount := checkoutCount + 1;
          reuseCount := reuseCount + 1;
          return Hit(session);
        }
      }
      return Miss;
    }

    method AdmitSection(shutdown: bool) returns (ok: bool)
      modifies this
      ensures (State(), ok) == AdmitFresh(old(State()), shutdown)
    {
      if closed || shutdown {
        return false;
      }
      checkedOut := checkedOut + 1;
      checkoutCount := checkoutCount + 1;
      return true;
    }

    method ReturnSection(s: Session, healthy: bool, now: nat, shutdown: bool) returns (kept: bool)
      modifies this
      ensures State() == GiveBack(config, old(State()), s, healthy, now, shutdown).inner
      ensures kept == GiveBack(config, old(State()), s, healthy, now, shutdown).kept
    {
      var session := s.(lastUsed := now);
      if checkedOut != 0 {
        checkedOut := checkedOut - 1;
      }
      var hasOtherCheckedOut := checkedOut > 0;
      if !healthy || !IsReusable(config, session, now) {
        return false;
      }
      if closed || shutdown {
        return false;
      }
      if |idle| >= config.maxIdle {
        if hasOtherCheckedOut {
          return false;
        }
        if idle != [] {
          idle := idle[1..];
        }
      }
      idle := idle + [session];
      return true;
    }

    method CloseSection() returns (outstanding: nat)
      modifies this
      ensures State() == CloseAll(old(State())) && outstanding == checkedOut
    {
      closed := true;
      idle := [];
      return checkedOut;
    }

    method DiscardSection()
      modifies this
      ensures State() == Discard(old(State()))
    {
      if checkedOut == 0 {
        return;
      }
      checkedOut := checkedOut - 1;
    }
  }
}
