/**
 Every interleaving of the tasks that use a `SessionPool`. A task moves between the pool's
 critical sections; connecting, waiting for the lock and holding a session happen outside them,
 and a task may be cancelled, or drop what it holds, at any of those points.
 */
module PoolRuns {
  import opened Pool

  /**
   `handle` is true for sessions taken through `checkout_with_retry`; `retried` once its one retry
   is used. `Leaked` is a task that lost a checked-out session without telling the pool.
   */
  datatype Task =
    | Starting(handle: bool, retried: bool)
    | Entering(handle: bool, retried: bool, now: nat)
    | Connecting(handle: bool, retried: bool)
    | Connected(handle: bool, retried: bool, session: Session)
    | Holding(handle: bool, retried: bool, session: Session, relayed: bool)
    | Returning(session: Session, healthy: bool, now: nat)
    | Discarding
    | Draining
    | Done
    | Leaked

  /** `dropped` lists the sessions whose streams are closed, `minted` counts new sessions handed
      out, and `drained` is set when GracefulDrain is emitted. */
  datatype Sys = Sys(pool: Inner, shutdown: bool, tasks: seq<Task>, created: nat,
                     dropped: seq<Session>, minted: nat, drained: bool)

  const START := Sys(EMPTY, false, [], 0, [], 0, false)

  datatype Event =
    | Spawn(handle: bool)
    | SetShutdown(on: bool)
    | CloseAllSection
    | Gate(i: nat, now: nat)
    | EnterSection(i: nat)
    | ConnectDone(i: nat, now: nat, ok: bool)
    | AdmitSection(i: nat)
    | MarkRelayed(i: nat)
    | IntoSession(i: nat)
    | BeginReturn(i: nat, healthy: bool, now: nat)
    | ReturnSection(i: nat)
    | RetryAfterError(i: nat)
    | DiscardSection(i: nat)
    | DrainCheck(i: nat)
    | Cancel(i: nat)

  /** How often session `id` occurs in a list. */
  function Count(ss: seq<Session>, id: nat): nat {
    if ss == [] then 0 else Count(ss[..|ss| - 1], id) + if ss[|ss| - 1].id == id then 1 else 0
  }

  /** The session a task has in its hands. */
  function Carried(t: Task): seq<Session> {
    if t.Connected? || t.Holding? || t.Returning? then [t.session] else []
  }

  function TaskCount(ts: seq<Task>, id: nat): nat {
    if ts == [] then 0 else TaskCount(ts[..|ts| - 1], id) + Count(Carried(ts[|ts| - 1]), id)
  }

  /** A task the pool counts as having a session checked out. */
  function Owes(t: Task): nat {
    if t.Holding? || t.Returning? || t.Discarding? || t.Leaked? then 1 else 0
  }

  function Owed(ts: seq<Task>): nat {
    if ts == [] then 0 else Owed(ts[..|ts| - 1]) + Owes(ts[|ts| - 1])
  }

  /** One event; an event that does not apply to its task changes nothing. */
  function Step(cfg: Config, s: Sys, e: Event): Sys {
    match e
    case Spawn(handle) => s.(tasks := s.tasks + [Starting(handle, false)])
    case SetShutdown(on) => s.(shutdown := on)
    case CloseAllSection =>
      var q := CloseAll(s.pool);
      s.(pool := q, dropped := s.dropped + s.pool.idle,
         tasks := if q.checkedOut == 0 then s.tasks else s.tasks + [Draining],
         drained := s.drained || q.checkedOut == 0)
    case _ =>
      if e.i < |s.tasks| then TaskStep(cfg, s, e, e.i, s.tasks[e.i]) else s
  }

  function Put(s: Sys, i: nat, t: Task): Sys
    requires i < |s.tasks|
  {
    s.(tasks := s.tasks[i := t])
  }

  /** An event of task `i`, which is currently `t`. */
  function TaskStep(cfg: Config, s: Sys, e: Event, i: nat, t: Task): Sys
    requires i < |s.tasks| && t == s.tasks[i]
  {
    match e
    case Gate(_, now) =>
      if !t.Starting? then s
      else Put(s, i, if s.shutdown then Done else Entering(t.handle, t.retried, now))
    case EnterSection(_) =>
      if !t.Entering? then s else EnterStep(cfg, s, i, t)
    case ConnectDone(_, now, ok) =>
      if !t.Connecting? then s
      else if !ok then Put(s, i, Done)
      else Put(s, i, Connected(t.handle, t.retried, Session(s.created, 1, now, now, 0))).(created := s.created + 1)
    case AdmitSection(_) =>
      if !t.Connected? then s
      else
        var (q, ok) := AdmitFresh(s.pool, s.shutdown);
        if ok then Put(s, i, Holding(t.handle, t.retried, t.session, false)).(pool := q, minted := s.minted + 1)
        else Put(s, i, Done).(pool := q, dropped := s.dropped + Carried(t))
    case MarkRelayed(_) =>
      if t.Holding? && t.handle then Put(s, i, t.(relayed := true)) else s
    case IntoSession(_) =>
      if t.Holding? then Put(s, i, t.(handle := false)) else s
    case BeginReturn(_, healthy, now) =>
      if t.Holding? && !t.handle then Put(s, i, Returning(t.session, healthy, now)) else s
    case ReturnSection(_) =>
      if !t.Returning? then s
      else
        var r := GiveBack(cfg, s.pool, t.session, t.healthy, t.now, s.shutdown);
        Put(s, i, Done).(pool := r.inner,
                         dropped := s.dropped + r.evicted + if r.kept then [] else Carried(t))
    case RetryAfterError(_) =>
      if !(t.Holding? && t.handle) then s
      else Put(s, i, if t.relayed || t.retried then Leaked else Discarding).(dropped := s.dropped + Carried(t))
    case DiscardSection(_) =>
      if t.Discarding? then Put(s, i, Starting(true, true)).(pool := Discard(s.pool)) else s
    case DrainCheck(_) =>
      if t.Draining? && s.pool.checkedOut == 0 then Put(s, i, Done).(drained := true) else s
    case Cancel(_) =>
      Put(s, i, if Owes(t) == 1 then Leaked else Done).(dropped := s.dropped + Carried(t))
    case _ => s
  }

  function EnterStep(cfg: Config, s: Sys, i: nat, t: Task): Sys
    requires i < |s.tasks| && t == s.tasks[i] && t.Entering?
  {
    var (q, r) := EnterPool(cfg, s.pool, t.now);
    match r
    case Refused => Put(s, i, Done)
    case Miss => Put(s, i, Connecting(t.handle, t.retried)).(pool := q, dropped := s.dropped + s.pool.idle)
    case Hit(session) =>
      Put(s, i, Holding(t.handle, t.retried, session, false))
        .(pool := q, dropped := s.dropped + s.pool.idle[|q.idle| + 1..])
  }

  function Exec(cfg: Config, s: Sys, events: seq<Event>): Sys {
    if events == [] then s else Step(cfg, Exec(cfg, s, events[..|events| - 1]), events[|events| - 1])
  }

  // ---------- the invariant ----------

  /** How many places session `id` is in: idle, with a task, or closed. */
  function Places(s: Sys, id: nat): nat {
    Count(s.pool.idle, id) + TaskCount(s.tasks, id) + Count(s.dropped, id)
  }

  /** Every session created is in exactly one place, and no other session is anywhere. */
  ghost predicate OnePlace(s: Sys) {
    forall id: nat :: Places(s, id) == if id < s.created then 1 else 0
  }

  predicate SessionOk(cfg: Config, s: Session) {
    1 <= s.useCount <= cfg.maxRequests && s.useCount == s.reuseCount + 1
  }

  predicate TaskOk(cfg: Config, t: Task) {
    && (t.Holding? || t.Returning? || t.Connected? ==> SessionOk(cfg, t.session))
    && (t.Connected? ==> t.session.useCount == 1)
  }

  ghost predicate Bounds(cfg: Config, s: Sys) {
    && |s.pool.idle| <= cfg.maxIdle
    && (forall i :: 0 <= i < |s.pool.idle| ==>
          SessionOk(cfg, s.pool.idle[i]) && s.pool.idle[i].useCount < cfg.maxRequests)
    && (forall i :: 0 <= i < |s.tasks| ==> TaskOk(cfg, s.tasks[i]))
    && s.pool.checkoutCount == s.pool.reuseCount + s.minted
  }

  ghost predicate Accounted(s: Sys) {
    s.pool.checkedOut == Owed(s.tasks) && OnePlace(s)
  }

  predicate Closing(s: Sys) {
    && (s.pool.closed ==> s.pool.idle == [])
    && (forall i :: 0 <= i < |s.tasks| && s.tasks[i].Draining? ==> s.pool.closed)
    && (s.drained ==> s.pool.closed && s.pool.checkedOut == 0)
  }

  ghost predicate Inv(cfg: Config, s: Sys) {
    Bounds(cfg, s) && Accounted(s) && Closing(s)
  }

  // ---------- sums over lists ----------

  lemma {:induction false} OwedUpdate(ts: seq<Task>, i: nat, t: Task)
    requires i < |ts|
    ensures Owed(ts[i := t]) == Owed(ts) - Owes(ts[i]) + Owes(t)
    ensures Owed(ts) >= Owes(ts[i])
  {
    var n := |ts| - 1;
    if i < n {
      OwedUpdate(ts[..n], i, t);
      assert ts[i := t][..n] == ts[..n][i := t];
    } else {
      assert ts[i := t][..n] == ts[..n];
    }
  }

  lemma {:induction false} TaskCountUpdate(ts: seq<Task>, i: nat, t: Task, id: nat)
    requires i < |ts|
    ensures TaskCount(ts[i := t], id) == TaskCount(ts, id) - Count(Carried(ts[i]), id) + Count(Carried(t), id)
  {
    var n := |ts| - 1;
    if i < n {
      TaskCountUpdate(ts[..n], i, t, id);
      assert ts[i := t][..n] == ts[..n][i := t];
    } else {
      assert ts[i := t][..n] == ts[..n];
    }
  }

  lemma SumsAppend(ts: seq<Task>, t: Task, id: nat)
    ensures Owed(ts + [t]) == Owed(ts) + Owes(t)
    ensures TaskCount(ts + [t], id) == TaskCount(ts, id) + Count(Carried(t), id)
  {
    assert (ts + [t])[..|ts|] == ts;
  }

  lemma {:induction false} CountConcat(a: seq<Session>, b: seq<Session>, id: nat)
    ensures Count(a + b, id) == Count(a, id) + Count(b, id)
    decreases |b|
  {
    if b == [] {
      assert a + b == a;
    } else {
      var n := |b| - 1;
      CountConcat(a, b[..n], id);
      assert (a + b)[..|a| + n] == a + b[..n];
    }
  }

  lemma CountSplit(ss: seq<Session>, k: nat, id: nat)
    requires k <= |ss|
    ensures Count(ss, id) == Count(ss[..k], id) + Count(ss[k..], id)
  {
    assert ss[..k] + ss[k..] == ss;
    CountConcat(ss[..k], ss[k..], id);
  }

  // ---------- one step ----------

  /** Putting task `i` into a new state moves its session, and nobody else's. */
  lemma PutCounts(s: Sys, i: nat, t: Task, id: nat)
    requires i < |s.tasks|
    ensures TaskCount(Put(s, i, t).tasks, id)
            == TaskCount(s.tasks, id) - Count(Carried(s.tasks[i]), id) + Count(Carried(t), id)
    ensures Owed(Put(s, i, t).tasks) == Owed(s.tasks) - Owes(s.tasks[i]) + Owes(t)
    ensures Owed(s.tasks) >= Owes(s.tasks[i])
  {
    TaskCountUpdate(s.tasks, i, t, id);
    OwedUpdate(s.tasks, i, t);
  }

  lemma TakeIdle(idle: seq<Session>, k: nat, id: nat)
    requires k < |idle|
    ensures Count(idle, id) == Count(idle[..k], id) + Count([idle[k]], id) + Count(idle[k + 1..], id)
  {
    CountSplit(idle, k, id);
    CountSplit(idle[k..], 1, id);
    assert idle[k..][..1] == [idle[k]] && idle[k..][1..] == idle[k + 1..];
  }

  lemma CountOne(a: Session, b: Session, id: nat)
    requires a.id == b.id
    ensures Count([a], id) == Count([b], id) == if a.id == id then 1 else 0
    ensures Count([], id) == 0
  {
    assert [a][..0] == [] && [b][..0] == [];
  }

  /** What a step did to the books, seen from one session. */
  predicate Balanced(s: Sys, s': Sys, id: nat) {
    && s.created <= s'.created
    && Places(s', id) == Places(s, id) + (if s.created <= id < s'.created then 1 else 0)
    && (s.pool.checkedOut == Owed(s.tasks) ==> s'.pool.checkedOut == Owed(s'.tasks))
  }

  /** A section that takes an idle session moves it and what was evicted, losing none. */
  lemma EnterBalanced(cfg: Config, s: Sys, i: nat, t: Task, id: nat)
    requires i < |s.tasks| && t == s.tasks[i] && t.Entering?
    ensures Balanced(s, EnterStep(cfg, s, i, t), id)
  {
    hide TaskCount, Owed, Count, LastReusable, IsReusable;
    var idle := s.pool.idle;
    var (q, r) := EnterPool(cfg, s.pool, t.now);
    match r
    case Refused => PutCounts(s, i, Done, id);
    case Miss =>
      PutCounts(s, i, Connecting(t.handle, t.retried), id);
      CountConcat(s.dropped, idle, id);
      CountNone(id);
    case Hit(session) =>
      PutCounts(s, i, Holding(t.handle, t.retried, session, false), id);
      TakeIdle(idle, |q.idle|, id);
      CountOne(session, idle[|q.idle|], id);
      CountConcat(s.dropped, idle[|q.idle| + 1..], id);
  }

  lemma CountNone(id: nat)
    ensures Count([], id) == 0
  {
  }

  lemma ReturnBalanced(cfg: Config, s: Sys, i: nat, id: nat)
    requires i < |s.tasks| && s.tasks[i].Returning?
    ensures Balanced(s, Step(cfg, s, ReturnSection(i)), id)
  {
    hide TaskCount, Owed, Count, IsReusable;
    var t, idle := s.tasks[i], s.pool.idle;
    var r := GiveBack(cfg, s.pool, t.session, t.healthy, t.now, s.shutdown);
    PutCounts(s, i, Done, id);
    CountNone(id);
    var lost := if r.kept then [] else Carried(t);
    CountConcat(s.dropped + r.evicted, lost, id);
    CountConcat(s.dropped, r.evicted, id);
    if r.kept {
      var s' := t.session.(lastUsed := t.now);
      CountOne(t.session, s', id);
      var left := if r.evicted == [] then idle else idle[1..];
      assert r.inner.idle == left + [s'];
      CountConcat(left, [s'], id);
      if r.evicted != [] {
        TakeIdle(idle, 0, id);
      }
    }
  }

  lemma TaskBalanced(cfg: Config, s: Sys, e: Event, i: nat, id: nat)
    requires i < |s.tasks|
    ensures Balanced(s, TaskStep(cfg, s, e, i, s.tasks[i]), id)
  {
    hide TaskCount, Owed, Count, IsReusable, EnterStep, GiveBack;
    var t := s.tasks[i];
    var s' := TaskStep(cfg, s, e, i, t);
    CountNone(id);
    if s' != s {
      if e.EnterSection? {
        EnterBalanced(cfg, s, i, t, id);
      } else if e.ReturnSection? {
        assert Step(cfg, s, Event.ReturnSection(i)) == s';
        ReturnBalanced(cfg, s, i, id);
      } else {
        PutCounts(s, i, s'.tasks[i], id);
        CountConcat(s.dropped, Carried(t), id);
        if e.ConnectDone? && e.ok {
          CountOne(s'.tasks[i].session, s'.tasks[i].session, id);
        }
      }
    }
  }

  lemma StepBalanced(cfg: Config, s: Sys, e: Event, id: nat)
    ensures Balanced(s, Step(cfg, s, e), id)
  {
    hide TaskCount, Owed, Count, TaskStep;
    match e
    case Spawn(handle) => SumsAppend(s.tasks, Starting(handle, false), id); CountNone(id);
    case SetShutdown(_) =>
    case CloseAllSection =>
      SumsAppend(s.tasks, Draining, id);
      CountConcat(s.dropped, s.pool.idle, id);
      CountNone(id);
    case _ => if e.i < |s.tasks| { TaskBalanced(cfg, s, e, e.i, id); }
  }

  lemma StepAccounted(cfg: Config, s: Sys, e: Event)
    requires Accounted(s)
    ensures Accounted(Step(cfg, s, e))
  {
    hide Step, Owed, Places;
    StepBalanced(cfg, s, e, 0);
    forall id: nat
      ensures Places(Step(cfg, s, e), id) == if id < Step(cfg, s, e).created then 1 else 0
    {
      StepBalanced(cfg, s, e, id);
    }
  }

  lemma EnterBounds(cfg: Config, s: Sys, i: nat, t: Task)
    requires Bounds(cfg, s) && i < |s.tasks| && t == s.tasks[i] && t.Entering?
    ensures Bounds(cfg, EnterStep(cfg, s, i, t))
  {
    hide LastReusable, Exec;
    var (q, r) := EnterPool(cfg, s.pool, t.now);
    if r.Hit? {
      assert SessionOk(cfg, s.pool.idle[|q.idle|]);
    }
  }

  lemma ReturnBounds(cfg: Config, s: Sys, i: nat)
    requires Pool.Accepted(cfg) && Bounds(cfg, s) && i < |s.tasks| && s.tasks[i].Returning?
    ensures Bounds(cfg, Step(cfg, s, ReturnSection(i)))
  {
    hide LastReusable, EnterStep;
    assert TaskOk(cfg, s.tasks[i]);
  }

  lemma StepBounds(cfg: Config, s: Sys, e: Event)
    requires Pool.Accepted(cfg) && Bounds(cfg, s)
    ensures Bounds(cfg, Step(cfg, s, e))
  {
    hide EnterStep, GiveBack, IsReusable;
    if e.EnterSection? && e.i < |s.tasks| && s.tasks[e.i].Entering? {
      EnterBounds(cfg, s, e.i, s.tasks[e.i]);
    } else if e.ReturnSection? && e.i < |s.tasks| && s.tasks[e.i].Returning? {
      ReturnBounds(cfg, s, e.i);
    }
  }

  lemma StepClosing(cfg: Config, s: Sys, e: Event)
    requires Closing(s)
    ensures Closing(Step(cfg, s, e))
  {
    hide LastReusable, IsReusable;
  }

  /** In any run from the empty pool, under any interleaving. */
  lemma {:induction false} RunsKeepInv(cfg: Config, events: seq<Event>)
    requires Pool.Accepted(cfg)
    ensures Inv(cfg, Exec(cfg, START, events))
  {
    hide Step, Bounds;
    if events == [] {
      StartInv(cfg);
    } else {
      var n := |events| - 1;
      RunsKeepInv(cfg, events[..n]);
      var s := Exec(cfg, START, events[..n]);
      StepBounds(cfg, s, events[n]);
      StepAccounted(cfg, s, events[n]);
      StepClosing(cfg, s, events[n]);
    }
  }

  lemma StartInv(cfg: Config)
    ensures Inv(cfg, START)
  {
    forall id: nat ensures Places(START, id) == if id < START.created then 1 else 0 {
    }
  }

  /** A returning or discarding task always finds something checked out. */
  lemma ReturnNeverUnderflows(cfg: Config, events: seq<Event>, i: nat)
    requires Pool.Accepted(cfg)
    requires var s := Exec(cfg, START, events);
             i < |s.tasks| && (s.tasks[i].Returning? || s.tasks[i].Discarding?)
    ensures Exec(cfg, START, events).pool.checkedOut > 0
  {
    hide Step, Exec;
    RunsKeepInv(cfg, events);
    var s := Exec(cfg, START, events);
    OwedUpdate(s.tasks, i, Done);
  }

  // ---------- closing is final ----------

  /** No task gets hold of a session it did not already hold. */
  predicate NobodyNewHolds(s: Sys, s': Sys) {
    && |s.tasks| <= |s'.tasks|
    && forall i :: 0 <= i < |s'.tasks| && s'.tasks[i].Holding? ==>
         i < |s.tasks| && s.tasks[i].Holding? && s.tasks[i].session == s'.tasks[i].session
  }

  lemma StepClosed(cfg: Config, s: Sys, e: Event)
    requires s.pool.closed && s.pool.idle == []
    ensures var s' := Step(cfg, s, e);
            && s'.pool.closed && s'.pool.idle == []
            && s'.pool.checkedOut <= s.pool.checkedOut
            && s'.pool.checkoutCount == s.pool.checkoutCount
            && NobodyNewHolds(s, s')
  {
    hide TaskStep;
    match e
    case Spawn(_) =>
    case SetShutdown(_) =>
    case CloseAllSection =>
    case _ => if e.i < |s.tasks| { TaskClosed(cfg, s, e, e.i); }
  }

  lemma TaskClosed(cfg: Config, s: Sys, e: Event, i: nat)
    requires s.pool.closed && s.pool.idle == [] && i < |s.tasks|
    ensures var s' := TaskStep(cfg, s, e, i, s.tasks[i]);
            && s'.pool.closed && s'.pool.idle == []
            && s'.pool.checkedOut <= s.pool.checkedOut
            && s'.pool.checkoutCount == s.pool.checkoutCount
            && NobodyNewHolds(s, s')
  {
    hide EnterPool, GiveBack;
    var t := s.tasks[i];
    if t.Entering? {
      ClosedRefuses(cfg, s.pool, t.now);
    } else if t.Returning? {
      ClosedKeepsNothing(cfg, s.pool, t.session, t.healthy, t.now, s.shutdown);
    }
  }

  lemma ClosedRefuses(cfg: Config, p: Inner, now: nat)
    requires p.closed
    ensures EnterPool(cfg, p, now) == (p, Refused)
  {
  }

  lemma ClosedKeepsNothing(cfg: Config, p: Inner, s: Session, healthy: bool, now: nat, shutdown: bool)
    requires p.closed
    ensures var r := GiveBack(cfg, p, s, healthy, now, shutdown);
            !r.kept && r.evicted == [] && r.inner == Discard(p)
  {
  }

  /** Once closed, whatever happens next: nothing idle, nothing more checked out, and no checkout
      succeeds, not even one that was already connecting. */
  lemma {:induction false} ClosingIsFinal(cfg: Config, s: Sys, later: seq<Event>)
    requires s.pool.closed && s.pool.idle == []
    ensures var s' := Exec(cfg, s, later);
            && s'.pool.closed && s'.pool.idle == []
            && s'.pool.checkedOut <= s.pool.checkedOut
            && s'.pool.checkoutCount == s.pool.checkoutCount
            && NobodyNewHolds(s, s')
  {
    hide Step;
    if later != [] {
      var n := |later| - 1;
      ClosingIsFinal(cfg, s, later[..n]);
      StepClosed(cfg, Exec(cfg, s, later[..n]), later[n]);
    }
  }

  lemma {:induction false} ExecAppend(cfg: Config, s: Sys, a: seq<Event>, b: seq<Event>)
    ensures Exec(cfg, s, a + b) == Exec(cfg, Exec(cfg, s, a), b)
    decreases |b|
  {
    hide Step;
    if b == [] {
      assert a + b == a;
    } else {
      var n := |b| - 1;
      ExecAppend(cfg, s, a, b[..n]);
      assert (a + b)[..|a| + n] == a + b[..n];
    }
  }

  lemma {:induction false} NothingOwed(ts: seq<Task>, i: nat)
    requires Owed(ts) == 0 && i < |ts|
    ensures Owes(ts[i]) == 0
  {
    OwedUpdate(ts, i, Done);
  }

  /** When GracefulDrain has been emitted no task holds, is returning, or lost a session, and none
      ever will. */
  lemma DrainIsSafe(cfg: Config, events: seq<Event>, later: seq<Event>, i: nat)
    requires Pool.Accepted(cfg) && Exec(cfg, START, events).drained
    requires i < |Exec(cfg, START, events + later).tasks|
    ensures Owes(Exec(cfg, START, events + later).tasks[i]) == 0
  {
    hide Step, Exec, Owed;
    var s := Exec(cfg, START, events);
    RunsKeepInv(cfg, events);
    RunsKeepInv(cfg, events + later);
    ExecAppend(cfg, START, events, later);
    ClosingIsFinal(cfg, s, later);
    NothingOwed(Exec(cfg, START, events + later).tasks, i);
  }

  // ---------- a lost session is never forgotten ----------

  lemma StepKeepsLeaked(cfg: Config, s: Sys, e: Event, i: nat)
    requires i < |s.tasks| && s.tasks[i].Leaked?
    ensures var s' := Step(cfg, s, e); i < |s'.tasks| && s'.tasks[i].Leaked?
  {
    hide EnterPool, GiveBack;
  }

  /** A task that lost its session stays counted, whatever happens. */
  lemma {:induction false} LeakedForEver(cfg: Config, s: Sys, later: seq<Event>, i: nat)
    requires i < |s.tasks| && s.tasks[i].Leaked?
    ensures var s' := Exec(cfg, s, later); i < |s'.tasks| && s'.tasks[i].Leaked?
  {
    hide Step;
    if later != [] {
      var n := |later| - 1;
      LeakedForEver(cfg, s, later[..n], i);
      StepKeepsLeaked(cfg, Exec(cfg, s, later[..n]), later[n], i);
    }
  }

  ghost predicate NoneLost(s: Sys) {
    forall i :: 0 <= i < |s.tasks| ==> !s.tasks[i].Leaked?
  }

  /** Only task `i` moved, and the pool no longer counts it. */
  predicate Settled(s: Sys, s': Sys, i: nat) {
    && i < |s.tasks| == |s'.tasks|
    && Owes(s'.tasks[i]) == 0
    && forall j :: 0 <= j < |s.tasks| && j != i ==> s'.tasks[j] == s.tasks[j]
  }

  /** What task `i` does to be done with its session. */
  function Settle(t: Task, i: nat): seq<Event> {
    match t
    case Holding(_, _, _, _) => [IntoSession(i), BeginReturn(i, true, 0), ReturnSection(i)]
    case Returning(_, _, _) => [ReturnSection(i)]
    case Discarding => [DiscardSection(i)]
    case _ => []
  }

  lemma ExecOne(cfg: Config, s: Sys, e: Event)
    ensures Exec(cfg, s, [e]) == Step(cfg, s, e)
  {
    hide Step;
    assert [e][..0] == [];
  }

  lemma ReturnSettles(cfg: Config, s: Sys, i: nat)
    requires i < |s.tasks| && s.tasks[i].Returning?
    ensures Settled(s, Step(cfg, s, ReturnSection(i)), i)
  {
    hide GiveBack;
  }

  lemma HolderReturns(cfg: Config, s: Sys, i: nat)
    requires i < |s.tasks| && s.tasks[i].Holding?
    ensures var s' := Step(cfg, Step(cfg, s, IntoSession(i)), BeginReturn(i, true, 0));
            && i < |s'.tasks| == |s.tasks| && s'.tasks[i].Returning?
            && forall j :: 0 <= j < |s.tasks| && j != i ==> s'.tasks[j] == s.tasks[j]
  {
    hide GiveBack, EnterStep;
  }

  lemma TaskSettles(cfg: Config, s: Sys, i: nat)
    requires i < |s.tasks| && !s.tasks[i].Leaked?
    ensures Settled(s, Exec(cfg, s, Settle(s.tasks[i], i)), i)
  {
    hide Step;
    var t := s.tasks[i];
    match t
    case Holding(_, _, _, _) =>
      var a, b, c := IntoSession(i), BeginReturn(i, true, 0), Event.ReturnSection(i);
      ExecAppend(cfg, s, [a] + [b], [c]);
      ExecAppend(cfg, s, [a], [b]);
      assert Settle(t, i) == [a] + [b] + [c];
      var s1 := Step(cfg, s, a);
      var s2 := Step(cfg, s1, b);
      ExecOne(cfg, s, a);
      ExecOne(cfg, s1, b);
      ExecOne(cfg, s2, c);
      HolderReturns(cfg, s, i);
      ReturnSettles(cfg, s2, i);
    case Returning(_, _, _) =>
      ExecOne(cfg, s, Event.ReturnSection(i));
      ReturnSettles(cfg, s, i);
    case Discarding =>
      ExecOne(cfg, s, Event.DiscardSection(i));
      DiscardSettles(cfg, s, i);
    case _ =>
  }

  lemma DiscardSettles(cfg: Config, s: Sys, i: nat)
    requires i < |s.tasks| && s.tasks[i].Discarding?
    ensures Settled(s, Step(cfg, s, DiscardSection(i)), i)
  {
    hide GiveBack, EnterStep;
  }

  /** The first `n` tasks can all be done with their sessions. */
  lemma {:induction false} TasksSettle(cfg: Config, s: Sys, n: nat) returns (events: seq<Event>)
    requires NoneLost(s) && n <= |s.tasks|
    ensures var s' := Exec(cfg, s, events);
            && |s'.tasks| == |s.tasks|
            && (forall j :: 0 <= j < n ==> Owes(s'.tasks[j]) == 0)
            && (forall j :: n <= j < |s.tasks| ==> s'.tasks[j] == s.tasks[j])
  {
    hide Step, Settle;
    if n == 0 {
      events := [];
    } else {
      var before := TasksSettle(cfg, s, n - 1);
      var s1 := Exec(cfg, s, before);
      TaskSettles(cfg, s1, n - 1);
      var more := Settle(s1.tasks[n - 1], n - 1);
      events := before + more;
      ExecAppend(cfg, s, before, more);
    }
  }

  lemma {:induction false} NobodyOwes(ts: seq<Task>)
    requires forall i :: 0 <= i < |ts| ==> Owes(ts[i]) == 0
    ensures Owed(ts) == 0
  {
    if ts != [] {
      NobodyOwes(ts[..|ts| - 1]);
    }
  }

  lemma CloseDrains(cfg: Config, s: Sys)
    requires s.pool.checkedOut == 0
    ensures Step(cfg, s, CloseAllSection).drained
  {
  }

  lemma LostNeverDrains(cfg: Config, events: seq<Event>, later: seq<Event>)
    requires Pool.Accepted(cfg) && !NoneLost(Exec(cfg, START, events))
    ensures !Exec(cfg, START, events + later).drained
  {
    hide Step, Exec, Owed, Bounds;
    var s := Exec(cfg, START, events);
    var i :| 0 <= i < |s.tasks| && s.tasks[i].Leaked?;
    ExecAppend(cfg, START, events, later);
    LeakedForEver(cfg, s, later, i);
    RunsKeepInv(cfg, events + later);
    var s' := Exec(cfg, START, events + later);
    if s'.drained {
      NothingOwed(s'.tasks, i);
      assert false;
    }
  }

  lemma OthersDrain(cfg: Config, events: seq<Event>) returns (later: seq<Event>)
    requires Pool.Accepted(cfg) && NoneLost(Exec(cfg, START, events))
    ensures Exec(cfg, START, events + later).drained
  {
    hide Step, Exec, Bounds;
    var s := Exec(cfg, START, events);
    var settle := TasksSettle(cfg, s, |s.tasks|);
    ExecAppend(cfg, START, events, settle);
    RunsKeepInv(cfg, events + settle);
    var s1 := Exec(cfg, s, settle);
    NobodyOwes(s1.tasks);
    CloseDrains(cfg, s1);
    ExecOne(cfg, s1, CloseAllSection);
    ExecAppend(cfg, START, events + settle, [CloseAllSection]);
    later := settle + [CloseAllSection];
    assert events + settle + [CloseAllSection] == events + later;
  }

  /**
   After any run a graceful drain is still possible exactly when no task has lost a session it had
   checked out.
   */
  lemma DrainsExactlyWhenNoneLost(cfg: Config, events: seq<Event>)
    requires Pool.Accepted(cfg)
    ensures (exists later: seq<Event> :: Exec(cfg, START, events + later).drained)
            <==> NoneLost(Exec(cfg, START, events))
  {
    hide Step, Exec;
    if NoneLost(Exec(cfg, START, events)) {
      var later := OthersDrain(cfg, events);
    } else {
      forall later: seq<Event>
        ensures !Exec(cfg, START, events + later).drained
      {
        LostNeverDrains(cfg, events, later);
      }
    }
  }

  /** A session can be lost: checked out through a handle that is then dropped. */
  lemma DroppedHandleIsLost(cfg: Config)
    ensures var run := [Spawn(true), Gate(0, 0), Event.EnterSection(0), ConnectDone(0, 0, true),
                        Event.AdmitSection(0), Cancel(0)];
            !NoneLost(Exec(cfg, START, run))
  {
    var e1, e2, e3, e4, e5, e6 := Spawn(true), Gate(0, 0), Event.EnterSection(0), ConnectDone(0, 0, true),
                                  Event.AdmitSection(0), Cancel(0);
    var s1 := Step(cfg, START, e1);
    var s2 := Step(cfg, s1, e2);
    var s3 := Step(cfg, s2, e3);
    var s4 := Step(cfg, s3, e4);
    var s5 := Step(cfg, s4, e5);
    var s6 := Step(cfg, s5, e6);
    assert s6.tasks[0].Leaked?;
    var run := [e1, e2, e3, e4, e5, e6];
    assert run[..5] == [e1, e2, e3, e4, e5] && run[..5][..4] == [e1, e2, e3, e4];
    assert run[..5][..4][..3] == [e1, e2, e3] && [e1, e2, e3][..2] == [e1, e2];
    assert [e1, e2][..1] == [e1] && [e1][..0] == [];
    assert Exec(cfg, START, [e1]) == s1;
    assert Exec(cfg, START, [e1, e2]) == s2;
    assert Exec(cfg, START, [e1, e2, e3]) == s3;
    assert Exec(cfg, START, [e1, e2, e3, e4]) == s4;
    assert Exec(cfg, START, [e1, e2, e3, e4, e5]) == s5;
  }

  // ---------- a closed session never comes back ----------

  lemma StepDropsMore(cfg: Config, s: Sys, e: Event)
    ensures s.dropped <= Step(cfg, s, e).dropped
  {
    hide GiveBack, EnterPool;
  }

  lemma {:induction false} DroppedGrows(cfg: Config, s: Sys, later: seq<Event>)
    ensures s.dropped <= Exec(cfg, s, later).dropped
  {
    hide Step;
    if later != [] {
      var n := |later| - 1;
      DroppedGrows(cfg, s, later[..n]);
      StepDropsMore(cfg, Exec(cfg, s, later[..n]), later[n]);
    }
  }

  lemma {:induction false} CountsOne(ss: seq<Session>, s: Session)
    requires s in ss
    ensures Count(ss, s.id) >= 1
  {
    var n := |ss| - 1;
    if ss[n] != s {
      assert s in ss[..n];
      CountsOne(ss[..n], s);
    }
  }

  lemma {:induction false} CarriedCounts(ts: seq<Task>, i: nat, id: nat)
    requires i < |ts|
    ensures Count(Carried(ts[i]), id) <= TaskCount(ts, id)
  {
    var n := |ts| - 1;
    if i < n {
      CarriedCounts(ts[..n], i, id);
    }
  }

  predicate Has(t: Task, id: nat) {
    (t.Connected? || t.Holding? || t.Returning?) && t.session.id == id
  }

  /** Once a session was closed it is not idle, and no task has it. */
  lemma DroppedIsGone(cfg: Config, s: Sys, x: Session, i: nat)
    requires Accounted(s) && x in s.dropped
    ensures forall k :: 0 <= k < |s.pool.idle| ==> s.pool.idle[k].id != x.id
    ensures i < |s.tasks| ==> !Has(s.tasks[i], x.id)
  {
    CountsOne(s.dropped, x);
    assert Places(s, x.id) <= 1;
    forall k | 0 <= k < |s.pool.idle|
      ensures s.pool.idle[k].id != x.id
    {
      CountsOne(s.pool.idle, s.pool.idle[k]);
    }
    if i < |s.tasks| {
      CarriedCounts(s.tasks, i, x.id);
    }
  }

  /** In any run, a session returned unhealthy is closed then and there, and no task ever has it again. */
  lemma UnhealthyNeverHeldAgain(cfg: Config, events: seq<Event>, i: nat, later: seq<Event>, j: nat)
    requires Pool.Accepted(cfg)
    requires var s := Exec(cfg, START, events);
             i < |s.tasks| && s.tasks[i].Returning? && !s.tasks[i].healthy
    requires j < |Exec(cfg, START, events + [ReturnSection(i)] + later).tasks|
    ensures var x := Exec(cfg, START, events).tasks[i].session;
            !Has(Exec(cfg, START, events + [ReturnSection(i)] + later).tasks[j], x.id)
  {
    hide Step, Exec, Bounds, Closing, Has;
    var s := Exec(cfg, START, events);
    var e := Event.ReturnSection(i);
    ExecAppend(cfg, START, events, [e]);
    ExecOne(cfg, s, e);
    UnhealthyIsDropped(cfg, s, i);
    var s1 := Step(cfg, s, e);
    ExecAppend(cfg, START, events + [e], later);
    DroppedGrows(cfg, s1, later);
    RunsKeepInv(cfg, events + [e] + later);
    DroppedIsGone(cfg, Exec(cfg, START, events + [e] + later), s.tasks[i].session, j);
  }

  lemma UnhealthyIsDropped(cfg: Config, s: Sys, i: nat)
    requires Pool.Accepted(cfg) && i < |s.tasks| && s.tasks[i].Returning? && !s.tasks[i].healthy
    ensures s.tasks[i].session in Step(cfg, s, ReturnSection(i)).dropped
  {
    hide GiveBack;
    var t := s.tasks[i];
    KeptExactly(cfg, s.pool, t.session, t.healthy, t.now, s.shutdown);
    var d := Step(cfg, s, Event.ReturnSection(i)).dropped;
    assert d[|d| - 1] == t.session;
  }

  // ---------- at most one retry, and none after payload ----------

  /** A task whose retry is used up, or that has no handle left to retry with. */
  predicate Spent(t: Task) {
    match t
    case Starting(_, retried) => retried
    case Entering(_, retried, _) => retried
    case Connecting(_, retried) => retried
    case Connected(_, retried, _) => retried
    case Holding(_, retried, _, _) => retried
    case Discarding => false
    case _ => true
  }

  /** What a step may do to a task, as far as retrying goes. */
  predicate RetryRule(t: Task, t': Task) {
    && (Spent(t) ==> Spent(t'))
    && (t'.Discarding? && !t.Discarding? ==> t.Holding? && t.handle && !t.relayed && !t.retried)
    && (t.Discarding? && !t'.Discarding? ==> Spent(t'))
  }

  lemma OwnStepRetries(cfg: Config, s: Sys, e: Event, i: nat)
    requires i < |s.tasks|
    ensures var s' := TaskStep(cfg, s, e, i, s.tasks[i]);
            && |s'.tasks| == |s.tasks| && RetryRule(s.tasks[i], s'.tasks[i])
            && forall j :: 0 <= j < |s.tasks| && j != i ==> s'.tasks[j] == s.tasks[j]
  {
    hide GiveBack, EnterPool;
  }

  lemma StepKeepsSpent(cfg: Config, s: Sys, e: Event, i: nat)
    requires i < |s.tasks|
    ensures var s' := Step(cfg, s, e); i < |s'.tasks| && RetryRule(s.tasks[i], s'.tasks[i])
  {
    hide TaskStep;
    match e
    case Spawn(_) =>
    case SetShutdown(_) =>
    case CloseAllSection =>
    case _ => if e.i < |s.tasks| { OwnStepRetries(cfg, s, e, e.i); }
  }

  /** A task gives a session up for a retry only while holding it through a handle, before any payload,
      and in no run a second time. */
  lemma {:induction false} NoSecondRetry(cfg: Config, s: Sys, later: seq<Event>, i: nat)
    requires i < |s.tasks| && Spent(s.tasks[i])
    ensures var s' := Exec(cfg, s, later);
            i < |s'.tasks| && Spent(s'.tasks[i]) && !s'.tasks[i].Discarding?
  {
    hide Step;
    if later != [] {
      var n := |later| - 1;
      NoSecondRetry(cfg, s, later[..n], i);
      StepKeepsSpent(cfg, Exec(cfg, s, later[..n]), later[n], i);
    }
  }

  // ---------- shutting down ----------

  /** While shutting down no task passes the gate, no fresh session is handed out and none goes idle. */
  lemma StepInShutdown(cfg: Config, s: Sys, e: Event)
    requires s.shutdown
    ensures var s' := Step(cfg, s, e);
            && s'.minted == s.minted
            && s'.pool.idle <= s.pool.idle
            && forall i :: 0 <= i < |s.tasks| && s.tasks[i].Starting? ==> !s'.tasks[i].Entering?
  {
    hide LastReusable, IsReusable;
  }

  lemma {:induction false} ShutdownMintsNothing(cfg: Config, s: Sys, later: seq<Event>)
    requires s.shutdown && forall i :: 0 <= i < |later| ==> !later[i].SetShutdown?
    ensures var s' := Exec(cfg, s, later); s'.shutdown && s'.minted == s.minted && s'.pool.idle <= s.pool.idle
  {
    hide Step;
    if later != [] {
      var n := |later| - 1;
      ShutdownMintsNothing(cfg, s, later[..n]);
      StepInShutdown(cfg, Exec(cfg, s, later[..n]), later[n]);
      ShutdownStays(cfg, Exec(cfg, s, later[..n]), later[n]);
    }
  }

  lemma ShutdownStays(cfg: Config, s: Sys, e: Event)
    requires !e.SetShutdown?
    ensures Step(cfg, s, e).shutdown == s.shutdown
  {
    hide GiveBack, EnterPool;
  }

  // ---------- checking out works ----------

  /** In an open pool that is not shutting down, a task at the gate gets a session: an idle one, or a
      fresh one if connecting works. */
  lemma CheckoutWorks(cfg: Config, s: Sys, i: nat, now: nat)
    requires !s.pool.closed && !s.shutdown && i < |s.tasks| && s.tasks[i].Starting?
    ensures var s2 := Step(cfg, Step(cfg, s, Gate(i, now)), EnterSection(i));
            var s4 := Step(cfg, Step(cfg, s2, ConnectDone(i, now, true)), AdmitSection(i));
            && i < |s2.tasks| && i < |s4.tasks|
            && (s2.tasks[i].Holding? || s4.tasks[i].Holding?)
            && (s2.tasks[i].Holding? <==> exists k :: 0 <= k < |s.pool.idle| && IsReusable(cfg, s.pool.idle[k], now))
            && (!s2.tasks[i].Holding? ==> s4.tasks[i].session == Session(s.created, 1, now, now, 0))
  {
    hide IsReusable, LastReusable, GiveBack;
  }
}
