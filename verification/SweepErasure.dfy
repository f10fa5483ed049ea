/** Erasing the sweep from an interleaving of single statements: when it changes what a check is
    told, and when it does not. Two runs are followed side by side, the one with the sweep tasks and
    the one in which their actions are left out. */
module SweepErasure {
  import opened Common
  import opened Sessions
  import opened SessionInterleaving

  // ----- the two runs -----

  /** `sweeps` are the tasks of the periodic job. */
  predicate WellFormed(a: Action, sweeps: set<TaskId>) {
    a.Begin? ==> (a.task in sweeps <==> a.what.SweepSelect?)
  }

  /** Instants start at `now` and never decrease. */
  predicate InOrder(actions: seq<Action>, now: Instant)
    decreases |actions|
  {
    actions == [] || (now <= TimeOf(actions[0], now) && InOrder(actions[1..], TimeOf(actions[0], now)))
  }

  function TimeOf(a: Action, now: Instant): Instant {
    if a.Advance? then a.now else now
  }

  function Erase(actions: seq<Action>, sweeps: set<TaskId>): seq<Action>
    decreases |actions|
  {
    if actions == [] then []
    else if actions[0].task in sweeps then Erase(actions[1..], sweeps)
    else [actions[0]] + Erase(actions[1..], sweeps)
  }

  /** The same action in the run without the sweep. */
  function Erased(p: System, a: Action, sweeps: set<TaskId>): System {
    if a.task in sweeps then p else Next(p, a)
  }

  // ----- what the two runs have in common while nothing has gone wrong -----

  predicate Refused(r: Row, now: Instant) {
    r.status != Active || now - r.lastAccess > IDLE_TIMEOUT
  }

  /** In use alike, or refused in both. */
  predicate RowAlike(a: Row, b: Row, now: Instant) {
    && a.token == b.token && a.loginAt == b.loginAt
    && (|| (a.status == Active && b.status == Active && a.lastAccess == b.lastAccess)
        || (Refused(a, now) && Refused(b, now)))
  }

  ghost predicate RowsAlike(f: Rows, g: Rows, now: Instant) {
    && (forall id :: id in f <==> id in g)
    && (forall id :: id in f ==> RowAlike(f[id], g[id], now))
  }

  /** A refused check may still have its write to do in one run only, and so may a kick of a closed session. */
  ghost predicate TaskAlike(s: System, p: System, t: Task, u: Task) {
    || t == u
    || (t == CheckDone(false) && u.CheckExpire?) || (t.CheckExpire? && u == CheckDone(false))
    || (t == Finished && u.KickUpdate? && Closed(s, u.id)) || (t.KickUpdate? && u == Finished && Closed(p, t.id))
  }

  predicate OfSweep(t: Task) {
    t.SweepSelect? || t.SweepUpdate?
  }

  ghost predicate Alike(s: System, p: System, sweeps: set<TaskId>, now: Instant) {
    && s.nextId == p.nextId
    && RowsAlike(s.rows, p.rows, now)
    && (forall k :: k in p.tasks ==> && k !in sweeps && k in s.tasks && !OfSweep(p.tasks[k])
                                     && TaskAlike(s, p, s.tasks[k], p.tasks[k]))
    && (forall k :: k in s.tasks && k !in sweeps ==> k in p.tasks)
    && (forall k :: k in s.tasks && k in sweeps ==> OfSweep(s.tasks[k]) || s.tasks[k] == Finished)
  }

  // ----- the steps that matter -----

  /** The update of a sweep reaches a session used within the timeout. */
  predicate SweepsInUse(s: System, ids: set<SessionId>, now: Instant) {
    exists id :: id in ids && id in s.rows && !Refused(s.rows[id], now)
  }

  /** The late write of an accepted check reaches a session that is open in one run only. */
  predicate TouchesHalfOpen(s: System, p: System, token: string) {
    exists id :: id in s.rows && id in p.rows && s.rows[id].token == token
                 && (s.rows[id].status == Active) != (p.rows[id].status == Active)
  }

  /** The late write of a refused check, outstanding in this run only, reaches a session in use: its
      token has been given to a new row in the meantime. */
  predicate ExpiresInUse(s: System, token: string, now: Instant) {
    exists id :: id in s.rows && s.rows[id].token == token && !Refused(s.rows[id], now)
  }

  predicate Breaks(s: System, p: System, a: Action) {
    a.Advance? && a.task in s.tasks &&
    var t := s.tasks[a.task];
    if t.SweepUpdate? then SweepsInUse(s, t.ids, a.now)
    else
      a.task in p.tasks &&
      var u := p.tasks[a.task];
      || (t.CheckTouch? && TouchesHalfOpen(s, p, t.token))
      || (t == CheckDone(false) && u.CheckExpire? && ExpiresInUse(p, u.token, a.now))
      || (t.CheckExpire? && u == CheckDone(false) && ExpiresInUse(s, t.token, a.now))
  }

  ghost predicate NeverBreaks(s: System, p: System, actions: seq<Action>, sweeps: set<TaskId>)
    decreases |actions|
  {
    actions == [] ||
    (!Breaks(s, p, actions[0]) && NeverBreaks(Next(s, actions[0]), Erased(p, actions[0], sweeps), actions[1..], sweeps))
  }

  /** A check of any token, looked up at this instant, is told the same in both runs. */
  ghost predicate Agree(f: Rows, g: Rows, now: Instant) {
    forall token :: Accepts(f, token, now) == Accepts(g, token, now)
  }

  ghost predicate AlwaysAgree(s: System, p: System, actions: seq<Action>, sweeps: set<TaskId>)
    decreases |actions|
  {
    actions == [] ||
    var s', p' := Next(s, actions[0]), Erased(p, actions[0], sweeps);
    (actions[0].Advance? ==> Agree(s'.rows, p'.rows, actions[0].now)) && AlwaysAgree(s', p', actions[1..], sweeps)
  }

  // ----- statements keep the rows alike -----

  lemma AlikeBackwards(f: Rows, g: Rows, now: Instant)
    requires RowsAlike(f, g, now)
    ensures RowsAlike(g, f, now)
  {
  }

  lemma AlikeAgree(f: Rows, g: Rows, now: Instant)
    requires RowsAlike(f, g, now)
    ensures Agree(f, g, now)
  {
    forall token ensures Accepts(f, token, now) == Accepts(g, token, now) {
      assert forall id :: id in f ==> RowAlike(f[id], g[id], now);
    }
  }

  lemma TouchKeepsAlike(f: Rows, g: Rows, token: string, now: Instant)
    requires RowsAlike(f, g, now)
    requires forall id :: id in f && id in g && f[id].token == token
                          ==> (f[id].status == Active <==> g[id].status == Active)
    ensures RowsAlike(Touch(f, token, now), Touch(g, token, now), now)
  {
  }

  lemma ExpireKeepsAlike(f: Rows, g: Rows, token: string, now: Instant)
    requires RowsAlike(f, g, now)
    ensures RowsAlike(Expire(f, token, now), Expire(g, token, now), now)
  {
  }

  lemma LoneExpireKeepsAlike(f: Rows, g: Rows, token: string, now: Instant)
    requires RowsAlike(f, g, now)
    requires forall id :: id in g && g[id].token == token ==> Refused(g[id], now)
    ensures RowsAlike(f, Expire(g, token, now), now)
  {
  }

  lemma KickKeepsAlike(f: Rows, g: Rows, id: SessionId, admin: string, now: Instant)
    requires RowsAlike(f, g, now)
    ensures RowsAlike(KickWrite(f, id, admin), KickWrite(g, id, admin), now)
  {
  }

  lemma LoneKickKeepsAlike(f: Rows, g: Rows, id: SessionId, admin: string, now: Instant)
    requires RowsAlike(f, g, now) && (id in f ==> f[id].status != Active)
    ensures RowsAlike(f, KickWrite(g, id, admin), now)
  {
  }

  lemma SweepKeepsAlike(f: Rows, g: Rows, ids: set<SessionId>, now: Instant)
    requires RowsAlike(f, g, now)
    requires forall id :: id in ids && id in f ==> Refused(f[id], now)
    ensures RowsAlike(ExpireIds(f, ids), g, now)
  {
  }

  // ----- one action -----

  /** A lookup is told the same, though what is left to do may differ. */
  lemma LookupAlike(s: System, p: System, t: Task, now: Instant)
    requires RowsAlike(s.rows, p.rows, now) && s.nextId == p.nextId
    requires SessionInterleaving.Valid(s) && SessionInterleaving.Valid(p)
    requires t.CheckLookup? || t.KickLookup?
    ensures TaskAlike(s, p, Advanced(s, t, now).2, Advanced(p, t, now).2)
    ensures !OfSweep(Advanced(p, t, now).2)
  {
    if t.CheckLookup? {
      assert HasToken(s.rows, t.token) == HasToken(p.rows, t.token);
      assert forall id :: id in s.rows ==> RowAlike(s.rows[id], p.rows[id], now);
      AlikeAgree(s.rows, p.rows, now);
      if HasToken(s.rows, t.token) {
        var id :| id in s.rows && s.rows[id].token == t.token;
        assert RowAlike(s.rows[id], p.rows[id], now);
        assert Accepts(s.rows, t.token, now) <==> !Refused(s.rows[id], now);
      }
    }
  }

  /** The rows, the next identifier and the task after one statement of a task that both runs have. */
  lemma StatementAlike(s: System, p: System, t: Task, now: Instant)
    requires RowsAlike(s.rows, p.rows, now) && s.nextId == p.nextId
    requires !OfSweep(t) && !t.CheckLookup? && !t.KickLookup?
    requires t.CheckTouch? ==> !TouchesHalfOpen(s, p, t.token)
    ensures Advanced(s, t, now).1 == Advanced(p, t, now).1
    ensures Advanced(s, t, now).2 == Advanced(p, t, now).2
    ensures RowsAlike(Advanced(s, t, now).0, Advanced(p, t, now).0, now)
  {
    match t {
      case CheckTouch(token) => TouchKeepsAlike(s.rows, p.rows, token, now);
      case CheckExpire(token) => ExpireKeepsAlike(s.rows, p.rows, token, now);
      case LogoutUpdate(token) => ExpireKeepsAlike(s.rows, p.rows, token, now);
      case KickUpdate(id, admin) => KickKeepsAlike(s.rows, p.rows, id, admin, now);
      case LoginInsert(token) => AlikeTokens(s.rows, p.rows, token, now);
      case _ =>
    }
  }

  lemma AlikeTokens(f: Rows, g: Rows, token: string, now: Instant)
    requires RowsAlike(f, g, now)
    ensures HasToken(f, token) == HasToken(g, token)
  {
    assert forall id :: id in f ==> RowAlike(f[id], g[id], now);
  }

  /** The same for a task that has something left to do in one run only, or a different thing. */
  lemma UnequalStatementAlike(s: System, p: System, t: Task, u: Task, now: Instant)
    requires RowsAlike(s.rows, p.rows, now) && s.nextId == p.nextId
    requires t != u && TaskAlike(s, p, t, u)
    requires t == CheckDone(false) && u.CheckExpire? ==> !ExpiresInUse(p, u.token, now)
    requires t.CheckExpire? && u == CheckDone(false) ==> !ExpiresInUse(s, t.token, now)
    ensures Advanced(s, t, now).1 == s.nextId && Advanced(p, u, now).1 == p.nextId
    ensures Advanced(s, t, now).2 == Advanced(p, u, now).2
    ensures RowsAlike(Advanced(s, t, now).0, Advanced(p, u, now).0, now)
  {
    AlikeBackwards(s.rows, p.rows, now);
    if u.CheckExpire? {
      LoneExpireKeepsAlike(s.rows, p.rows, u.token, now);
    } else if t.CheckExpire? {
      LoneExpireKeepsAlike(p.rows, s.rows, t.token, now);
      AlikeBackwards(p.rows, Advanced(s, t, now).0, now);
    } else if u.KickUpdate? {
      LoneKickKeepsAlike(s.rows, p.rows, u.id, u.admin, now);
    } else {
      LoneKickKeepsAlike(p.rows, s.rows, t.id, t.admin, now);
      AlikeBackwards(p.rows, Advanced(s, t, now).0, now);
    }
  }

  lemma LaterAlike(s: System, p: System, sweeps: set<TaskId>, now: Instant, at: Instant)
    requires Alike(s, p, sweeps, now) && now <= at
    ensures Alike(s, p, sweeps, at)
  {
    assert forall id :: id in s.rows ==> RowAlike(s.rows[id], p.rows[id], at);
  }

  /** The tasks that did not move stay alike: a closed session stays closed. */
  lemma OtherTasksAlike(s: System, p: System, s': System, p': System, k: TaskId)
    requires k in s.tasks && k in p.tasks && TaskAlike(s, p, s.tasks[k], p.tasks[k])
    requires k in s'.tasks && k in p'.tasks && s'.tasks[k] == s.tasks[k] && p'.tasks[k] == p.tasks[k]
    requires forall id :: Closed(s, id) ==> Closed(s', id)
    requires forall id :: Closed(p, id) ==> Closed(p', id)
    ensures TaskAlike(s', p', s'.tasks[k], p'.tasks[k])
  {
  }

  lemma ClosedStays(s: System, a: Action)
    ensures forall id :: Closed(s, id) ==> Closed(Next(s, a), id)
  {
    forall id | Closed(s, id) ensures Closed(Next(s, a), id) {
      NextKeepsClosed(s, a, id);
    }
  }

  lemma BeginKeepsAlike(s: System, p: System, a: Action, sweeps: set<TaskId>, now: Instant)
    requires Alike(s, p, sweeps, now) && a.Begin? && WellFormed(a, sweeps)
    ensures Alike(Next(s, a), Erased(p, a, sweeps), sweeps, now)
  {
    var s', p' := Next(s, a), Erased(p, a, sweeps);
    ClosedStays(s, a);
    ClosedStays(p, a);
    forall k | k in p'.tasks
      ensures k !in sweeps && k in s'.tasks && !OfSweep(p'.tasks[k]) && TaskAlike(s', p', s'.tasks[k], p'.tasks[k])
    {
      if k in p.tasks {
        OtherTasksAlike(s, p, s', p', k);
      }
    }
  }

  lemma SweepActionKeepsAlike(s: System, p: System, a: Action, sweeps: set<TaskId>)
    requires a.Advance? && Alike(s, p, sweeps, a.now) && a.task in sweeps && !Breaks(s, p, a)
    ensures Alike(Next(s, a), p, sweeps, a.now)
  {
    var s' := Next(s, a);
    ClosedStays(s, a);
    if a.task in s.tasks && s.tasks[a.task].SweepUpdate? {
      SweepKeepsAlike(s.rows, p.rows, s.tasks[a.task].ids, a.now);
    }
    forall k | k in p.tasks ensures k in s'.tasks && TaskAlike(s', p, s'.tasks[k], p.tasks[k]) {
      OtherTasksAlike(s, p, s', p, k);
    }
  }

  lemma TaskActionKeepsAlike(s: System, p: System, a: Action, sweeps: set<TaskId>)
    requires SessionInterleaving.Valid(s) && SessionInterleaving.Valid(p)
    requires a.Advance? && Alike(s, p, sweeps, a.now) && a.task in p.tasks && !Breaks(s, p, a)
    ensures Alike(Next(s, a), Next(p, a), sweeps, a.now)
  {
    var s', p' := Next(s, a), Next(p, a);
    var t, u := s.tasks[a.task], p.tasks[a.task];
    ClosedStays(s, a);
    ClosedStays(p, a);
    if t != u {
      UnequalStatementAlike(s, p, t, u, a.now);
    } else if t.CheckLookup? || t.KickLookup? {
      LookupAlike(s, p, t, a.now);
    } else {
      StatementAlike(s, p, t, a.now);
    }
    assert RowsAlike(s'.rows, p'.rows, a.now);
    forall k | k in p'.tasks
      ensures k !in sweeps && k in s'.tasks && !OfSweep(p'.tasks[k]) && TaskAlike(s', p', s'.tasks[k], p'.tasks[k])
    {
      if k != a.task {
        OtherTasksAlike(s, p, s', p', k);
      }
    }
  }

  lemma ActionKeepsAlike(s: System, p: System, a: Action, sweeps: set<TaskId>, now: Instant)
    requires SessionInterleaving.Valid(s) && SessionInterleaving.Valid(p)
    requires Alike(s, p, sweeps, now) && now <= TimeOf(a, now) && WellFormed(a, sweeps) && !Breaks(s, p, a)
    ensures Alike(Next(s, a), Erased(p, a, sweeps), sweeps, TimeOf(a, now))
  {
    LaterAlike(s, p, sweeps, now, TimeOf(a, now));
    if a.Begin? {
      BeginKeepsAlike(s, p, a, sweeps, now);
    } else if a.task in sweeps {
      SweepActionKeepsAlike(s, p, a, sweeps);
    } else if a.task in p.tasks {
      TaskActionKeepsAlike(s, p, a, sweeps);
    }
  }

  // ----- a step that breaks shows at once -----

  lemma DisagreeOn(f: Rows, g: Rows, id: SessionId, now: Instant)
    requires Unique(f) && Unique(g) && id in f && id in g && f[id].token == g[id].token
    requires Refused(f[id], now) != Refused(g[id], now)
    ensures !Agree(f, g, now)
  {
    OneRowDecides(f, id, now);
    OneRowDecides(g, id, now);
    assert Accepts(f, f[id].token, now) != Accepts(g, f[id].token, now);
  }

  lemma BreakDisagrees(s: System, p: System, a: Action, sweeps: set<TaskId>)
    requires SessionInterleaving.Valid(s) && SessionInterleaving.Valid(p)
    requires a.Advance? && Alike(s, p, sweeps, a.now) && Breaks(s, p, a)
    ensures !Agree(Next(s, a).rows, Erased(p, a, sweeps).rows, a.now)
  {
    NextKeepsValid(s, a);
    NextKeepsValid(p, a);
    var s', p' := Next(s, a), Erased(p, a, sweeps);
    var t := s.tasks[a.task];
    var id: SessionId;
    if t.SweepUpdate? {
      assert a.task !in p.tasks;
      assert a.task in sweeps;
      id :| id in t.ids && id in s.rows && !Refused(s.rows[id], a.now);
    } else if t.CheckTouch? && TouchesHalfOpen(s, p, t.token) {
      id :| id in s.rows && id in p.rows && s.rows[id].token == t.token
            && (s.rows[id].status == Active) != (p.rows[id].status == Active);
    } else if t == CheckDone(false) {
      id :| id in p.rows && p.rows[id].token == p.tasks[a.task].token && !Refused(p.rows[id], a.now);
    } else {
      id :| id in s.rows && s.rows[id].token == t.token && !Refused(s.rows[id], a.now);
    }
    assert RowAlike(s.rows[id], p.rows[id], a.now);
    DisagreeOn(s'.rows, p'.rows, id, a.now);
  }

  // ----- whole interleavings -----

  /** The sweep is the only difference to begin with, and has not begun. */
  predicate NoSweepYet(s: System, sweeps: set<TaskId>) {
    forall k :: k in s.tasks ==> k !in sweeps && !OfSweep(s.tasks[k])
  }

  lemma AlikeToItself(s: System, sweeps: set<TaskId>, now: Instant)
    requires NoSweepYet(s, sweeps)
    ensures Alike(s, s, sweeps, now)
  {
  }

  lemma {:induction false} AgreeIffNeverBreaks(s: System, p: System, actions: seq<Action>, sweeps: set<TaskId>,
                                               now: Instant)
    requires SessionInterleaving.Valid(s) && SessionInterleaving.Valid(p) && Alike(s, p, sweeps, now)
    requires InOrder(actions, now) && forall i :: 0 <= i < |actions| ==> WellFormed(actions[i], sweeps)
    ensures AlwaysAgree(s, p, actions, sweeps) <==> NeverBreaks(s, p, actions, sweeps)
    decreases |actions|
  {
    if actions != [] {
      var a := actions[0];
      if Breaks(s, p, a) {
        LaterAlike(s, p, sweeps, now, a.now);
        BreakDisagrees(s, p, a, sweeps);
      } else {
        ActionKeepsAlike(s, p, a, sweeps, now);
        NextKeepsValid(s, a);
        NextKeepsValid(p, a);
        AlikeAgree(Next(s, a).rows, Erased(p, a, sweeps).rows, TimeOf(a, now));
        AgreeIffNeverBreaks(Next(s, a), Erased(p, a, sweeps), actions[1..], sweeps, TimeOf(a, now));
      }
    }
  }

  /** In any interleaving, in time order, leaving the sweep out changes what a check of some token would
      be told at some instant exactly when one of three late writes happens: a sweep updates a session
      used within the timeout, an accepted check touches a session open in one run only, or a refused
      check that has its write to do in one run only expires a newer session that was given the same
      token. */
  lemma SweepHarmlessIff(s: System, actions: seq<Action>, sweeps: set<TaskId>, now: Instant)
    requires SessionInterleaving.Valid(s) && NoSweepYet(s, sweeps)
    requires InOrder(actions, now) && forall i :: 0 <= i < |actions| ==> WellFormed(actions[i], sweeps)
    ensures AlwaysAgree(s, s, actions, sweeps) <==> NeverBreaks(s, s, actions, sweeps)
  {
    AlikeToItself(s, sweeps, now);
    AgreeIffNeverBreaks(s, s, actions, sweeps, now);
  }

  /** What a check has been told: the answer is fixed by its lookup, before its write. */
  function Verdict(t: Task): Option<bool> {
    match t
    case CheckTouch(_) => Some(true)
    case CheckExpire(_) => Some(false)
    case CheckDone(accepted) => Some(accepted)
    case _ => None
  }

  lemma LookupVerdict(rows: Rows, token: string, now: Instant)
    ensures Verdict(AfterLookup(rows, token, now)) == Some(Accepts(rows, token, now))
  {
  }

  lemma {:induction false} AlikeAtTheEnd(s: System, p: System, actions: seq<Action>, sweeps: set<TaskId>,
                                         now: Instant)
    returns (end: Instant)
    requires SessionInterleaving.Valid(s) && SessionInterleaving.Valid(p) && Alike(s, p, sweeps, now)
    requires InOrder(actions, now) && forall i :: 0 <= i < |actions| ==> WellFormed(actions[i], sweeps)
    requires NeverBreaks(s, p, actions, sweeps)
    ensures Alike(Exec(s, actions), Exec(p, Erase(actions, sweeps)), sweeps, end)
    decreases |actions|
  {
    if actions == [] {
      end := now;
    } else {
      var a := actions[0];
      ActionKeepsAlike(s, p, a, sweeps, now);
      NextKeepsValid(s, a);
      NextKeepsValid(p, a);
      end := AlikeAtTheEnd(Next(s, a), Erased(p, a, sweeps), actions[1..], sweeps, TimeOf(a, now));
      if a.task !in sweeps {
        assert Erase(actions, sweeps)[1..] == Erase(actions[1..], sweeps);
      }
    }
  }

  /** Without such a write every check of the run has been told the same as in the run without the sweep. */
  lemma HarmlessRunSameVerdicts(s: System, actions: seq<Action>, sweeps: set<TaskId>, now: Instant, check: TaskId)
    requires SessionInterleaving.Valid(s) && NoSweepYet(s, sweeps)
    requires InOrder(actions, now) && forall i :: 0 <= i < |actions| ==> WellFormed(actions[i], sweeps)
    requires NeverBreaks(s, s, actions, sweeps) && check in Exec(s, Erase(actions, sweeps)).tasks
    ensures check in Exec(s, actions).tasks
    ensures Verdict(Exec(s, actions).tasks[check]) == Verdict(Exec(s, Erase(actions, sweeps)).tasks[check])
  {
    AlikeToItself(s, sweeps, now);
    var end := AlikeAtTheEnd(s, s, actions, sweeps, now);
  }

  // ----- each of the three can happen -----

  const T := IDLE_TIMEOUT

  const ONE_ROW := System(map[1 := Row("t", Active, "", 0, 0)], 2, map[])

  /** A check is accepted just in time and has its touch to do; the sweep has selected the row. */
  const SELECTED: seq<Action> := [Begin(1, CheckLookup("t")), Advance(1, T), Begin(2, SweepSelect), Advance(2, T + 1)]

  /** The row is touched between the sweep's select and its update. */
  const UPDATE_AFTER_TOUCH := SELECTED + [Advance(1, T + 2), Advance(2, T + 3)]

  /** The row is touched after the sweep's update, which found it as idle as the select did. */
  const TOUCH_AFTER_UPDATE := SELECTED + [Advance(2, T + 2), Advance(1, T + 3)]

  /** The shortest retention period. */
  const DAY := 24 * IDLE_TIMEOUT

  /** A second login in the second of the first one, so with its token, has its insert still to do; the
      row is swept, and then a check is refused, which without the sweep has a write to do. */
  const SWEPT: seq<Action> := [
    Begin(4, LoginInsert("t")), Begin(2, SweepSelect), Advance(2, DAY + 1), Advance(2, DAY + 1),
    Begin(1, CheckLookup("t")), Advance(1, DAY + 1)]

  const PURGE: seq<Action> := [Begin(3, PurgeDelete(1)), Advance(3, DAY + 1)]

  const LATE_INSERT := Advance(4, DAY + 1)

  /** Before that write the row is purged and the insert of the second login takes place. */
  const TOKEN_USED_AGAIN := SWEPT + (PURGE + [LATE_INSERT]) + [Advance(1, DAY + 2)]

  lemma {:induction false} ExecSplit(s: System, x: seq<Action>, y: seq<Action>, sweeps: set<TaskId>)
    ensures Exec(s, x + y) == Exec(Exec(s, x), y)
    ensures Erase(x + y, sweeps) == Erase(x, sweeps) + Erase(y, sweeps)
    decreases |x|
  {
    if x == [] {
      assert x + y == y;
    } else {
      assert (x + y)[1..] == x[1..] + y;
      ExecSplit(Next(s, x[0]), x[1..], y, sweeps);
    }
  }

  /** Both runs, cut after `x`. */
  lemma BothSplit(s: System, x: seq<Action>, y: seq<Action>, sweeps: set<TaskId>)
    ensures Exec(s, x + y) == Exec(Exec(s, x), y)
    ensures Exec(s, Erase(x + y, sweeps)) == Exec(Exec(s, Erase(x, sweeps)), Erase(y, sweeps))
  {
    ExecSplit(s, x, y, sweeps);
    ExecSplit(s, Erase(x, sweeps), Erase(y, sweeps), sweeps);
  }

  /** Both runs, one action on. */
  lemma Unfold(s: System, p: System, actions: seq<Action>, i: nat, sweeps: set<TaskId>)
    requires i < |actions|
    ensures Exec(s, actions[i..]) == Exec(Next(s, actions[i]), actions[i + 1..])
    ensures Exec(p, Erase(actions[i..], sweeps)) == Exec(Erased(p, actions[i], sweeps), Erase(actions[i + 1..], sweeps))
  {
    assert actions[i..][1..] == actions[i + 1..];
    if actions[i].task !in sweeps {
      assert Erase(actions[i..], sweeps)[1..] == Erase(actions[i + 1..], sweeps);
    }
  }

  lemma TwoActions(s: System, p: System, x: Action, y: Action, sweeps: set<TaskId>)
    ensures Exec(s, [x, y]) == Next(Next(s, x), y)
    ensures Exec(p, Erase([x, y], sweeps)) == Erased(Erased(p, x, sweeps), y, sweeps)
  {
    var a := [x, y];
    Unfold(s, p, a, 0, sweeps);
    Unfold(Next(s, x), Erased(p, x, sweeps), a, 1, sweeps);
    assert a[0..] == a && a[2..] == [];
  }

  lemma AfterSelected()
    ensures Exec(ONE_ROW, SELECTED) == ONE_ROW.(tasks := map[1 := CheckTouch("t"), 2 := SweepUpdate({1})])
    ensures Exec(ONE_ROW, Erase(SELECTED, {2})) == ONE_ROW.(tasks := map[1 := CheckTouch("t")])
  {
    var a := SELECTED;
    assert 1 in ONE_ROW.rows && HasToken(ONE_ROW.rows, "t");
    var s2 := Next(Next(ONE_ROW, a[0]), a[1]);
    assert s2.tasks == map[1 := CheckTouch("t")];
    var s4 := Next(Next(s2, a[2]), a[3]);
    assert IdleIds(ONE_ROW.rows, T + 1 - IDLE_TIMEOUT) == {1};
    assert s4.tasks == map[1 := CheckTouch("t"), 2 := SweepUpdate({1})];
    Unfold(ONE_ROW, ONE_ROW, a, 0, {2});
    Unfold(Next(ONE_ROW, a[0]), Next(ONE_ROW, a[0]), a, 1, {2});
    Unfold(s2, s2, a, 2, {2});
    Unfold(Next(s2, a[2]), s2, a, 3, {2});
    assert a[0..] == a && a[4..] == [];
  }

  lemma UpdateAfterTouchChangesAnAnswer()
    ensures !Accepts(Exec(ONE_ROW, UPDATE_AFTER_TOUCH).rows, "t", T + 4)
    ensures Accepts(Exec(ONE_ROW, Erase(UPDATE_AFTER_TOUCH, {2})).rows, "t", T + 4)
  {
    AfterSelected();
    var tail := [Advance(1, T + 2), Advance(2, T + 3)];
    BothSplit(ONE_ROW, SELECTED, tail, {2});
    var s, p := Exec(ONE_ROW, SELECTED), Exec(ONE_ROW, Erase(SELECTED, {2}));
    TwoActions(s, p, tail[0], tail[1], {2});
    assert Next(Next(s, tail[0]), tail[1]).rows[1] == Row("t", Expired, "", 0, T + 2);
    assert Next(p, tail[0]).rows[1] == Row("t", Active, "", 0, T + 2);
  }

  lemma TouchAfterUpdateChangesAnAnswer()
    ensures !Accepts(Exec(ONE_ROW, TOUCH_AFTER_UPDATE).rows, "t", T + 4)
    ensures Accepts(Exec(ONE_ROW, Erase(TOUCH_AFTER_UPDATE, {2})).rows, "t", T + 4)
  {
    AfterSelected();
    var tail := [Advance(2, T + 2), Advance(1, T + 3)];
    BothSplit(ONE_ROW, SELECTED, tail, {2});
    var s, p := Exec(ONE_ROW, SELECTED), Exec(ONE_ROW, Erase(SELECTED, {2}));
    TwoActions(s, p, tail[0], tail[1], {2});
    assert Next(Next(s, tail[0]), tail[1]).rows[1] == Row("t", Expired, "", 0, T + 3);
    assert Next(p, tail[1]).rows[1] == Row("t", Active, "", 0, T + 3);
  }

  lemma AfterSwept()
    ensures Exec(ONE_ROW, SWEPT) == System(map[1 := Row("t", Expired, "", 0, 0)], 2,
                                           map[4 := LoginInsert("t"), 2 := Finished, 1 := CheckDone(false)])
    ensures Exec(ONE_ROW, Erase(SWEPT, {2})) == ONE_ROW.(tasks := map[4 := LoginInsert("t"), 1 := CheckExpire("t")])
  {
    var a := SWEPT;
    var s1 := Next(ONE_ROW, a[0]);
    var s3 := Next(Next(s1, a[1]), a[2]);
    assert IdleIds(ONE_ROW.rows, DAY + 1 - IDLE_TIMEOUT) == {1};
    var s4 := Next(s3, a[3]);
    assert s4 == System(map[1 := Row("t", Expired, "", 0, 0)], 2, map[4 := LoginInsert("t"), 2 := Finished]);
    assert 1 in s4.rows && HasToken(s4.rows, "t");
    assert 1 in ONE_ROW.rows && HasToken(ONE_ROW.rows, "t");
    var s5, p5 := Next(s4, a[4]), Next(s1, a[4]);
    assert AfterLookup(ONE_ROW.rows, "t", DAY + 1) == CheckExpire("t");
    Unfold(ONE_ROW, ONE_ROW, a, 0, {2});
    Unfold(s1, s1, a, 1, {2});
    Unfold(Next(s1, a[1]), s1, a, 2, {2});
    Unfold(s3, s1, a, 3, {2});
    Unfold(s4, s1, a, 4, {2});
    Unfold(s5, p5, a, 5, {2});
    assert a[0..] == a && a[6..] == [];
  }

  lemma {:induction false} EraseNothing(actions: seq<Action>, sweeps: set<TaskId>)
    requires forall i :: 0 <= i < |actions| ==> actions[i].task !in sweeps
    ensures Erase(actions, sweeps) == actions
    decreases |actions|
  {
    if actions != [] {
      EraseNothing(actions[1..], sweeps);
    }
  }

  /** A task that starts and runs its one statement. */
  lemma OneStatement(s: System, k: TaskId, what: Task, now: Instant)
    requires k !in s.tasks && Startable(what)
    ensures var done := Advanced(s, what, now);
            Exec(s, [Begin(k, what), Advance(k, now)]) == System(done.0, done.1, s.tasks[k := done.2])
  {
    TwoActions(s, s, Begin(k, what), Advance(k, now), {});
    assert s.tasks[k := what][k := Advanced(s, what, now).2] == s.tasks[k := Advanced(s, what, now).2];
  }

  lemma AfterPurge(s: System, row: Row)
    requires s.rows == map[1 := row] && row.loginAt == 0 && 3 !in s.tasks
    ensures Exec(s, PURGE) == System(map[], s.nextId, s.tasks[3 := Finished])
  {
    OneStatement(s, 3, PurgeDelete(1), DAY + 1);
    assert DeleteBefore(s.rows, 1) == map[];
  }

  /** Purging the only row, after which the late insert finds its token free. */
  lemma AfterLateInsert(s: System, row: Row)
    requires s.rows == map[1 := row] && row.loginAt == 0 && s.nextId == 2
    requires 3 !in s.tasks && 4 in s.tasks && s.tasks[4] == LoginInsert("t")
    ensures Exec(s, PURGE + [LATE_INSERT])
         == System(map[2 := Row("t", Active, "", DAY + 1, DAY + 1)], 3, s.tasks[3 := Finished][4 := Finished])
  {
    AfterPurge(s, row);
    BothSplit(s, PURGE, [LATE_INSERT], {});
    var m := System(map[], 2, s.tasks[3 := Finished]);
    Unfold(m, m, [LATE_INSERT], 0, {});
    assert [LATE_INSERT][0..] == [LATE_INSERT] && [LATE_INSERT][1..] == [];
  }

  lemma AfterSweptAndLateInsert()
    ensures var s := Exec(ONE_ROW, SWEPT + (PURGE + [LATE_INSERT]));
            && s.rows == map[2 := Row("t", Active, "", DAY + 1, DAY + 1)]
            && 1 in s.tasks && s.tasks[1] == CheckDone(false)
    ensures var p := Exec(ONE_ROW, Erase(SWEPT + (PURGE + [LATE_INSERT]), {2}));
            && p.rows == map[2 := Row("t", Active, "", DAY + 1, DAY + 1)]
            && 1 in p.tasks && p.tasks[1] == CheckExpire("t")
  {
    AfterSwept();
    BothSplit(ONE_ROW, SWEPT, PURGE + [LATE_INSERT], {2});
    EraseNothing(PURGE + [LATE_INSERT], {2});
    AfterLateInsert(Exec(ONE_ROW, SWEPT), Row("t", Expired, "", 0, 0));
    AfterLateInsert(Exec(ONE_ROW, Erase(SWEPT, {2})), Row("t", Active, "", 0, 0));
  }

  lemma LastWriteDecides(s: System, p: System, row: Row)
    requires s.rows == p.rows == map[2 := row] && row == Row("t", Active, "", DAY + 1, DAY + 1)
    requires 1 in s.tasks && s.tasks[1] == CheckDone(false) && 1 in p.tasks && p.tasks[1] == CheckExpire("t")
    ensures Accepts(Next(s, Advance(1, DAY + 2)).rows, "t", DAY + 4)
    ensures !Accepts(Next(p, Advance(1, DAY + 2)).rows, "t", DAY + 4)
  {
    assert Next(p, Advance(1, DAY + 2)).rows[2].status == Expired;
  }

  /** Here the run with the sweep is the one that accepts. */
  lemma TokenUsedAgainChangesAnAnswer()
    ensures Accepts(Exec(ONE_ROW, TOKEN_USED_AGAIN).rows, "t", DAY + 4)
    ensures !Accepts(Exec(ONE_ROW, Erase(TOKEN_USED_AGAIN, {2})).rows, "t", DAY + 4)
  {
    var before, last := SWEPT + (PURGE + [LATE_INSERT]), [Advance(1, DAY + 2)];
    AfterSweptAndLateInsert();
    BothSplit(ONE_ROW, before, last, {2});
    var s, p := Exec(ONE_ROW, before), Exec(ONE_ROW, Erase(before, {2}));
    EraseNothing(last, {2});
    Unfold(s, p, last, 0, {2});
    assert last[0..] == last && last[1..] == [];
    LastWriteDecides(s, p, s.rows[2]);
  }
}
