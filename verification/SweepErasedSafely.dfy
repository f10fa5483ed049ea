/** A condition on the real run alone, without looking at the run that leaves the sweep out, under which
    the sweep changes nothing that any check is told. */
module SweepErasedSafely {
  import opened Sessions
  import opened SessionInterleaving
  import opened SweepErasure

  // ----- what is asked of the real run -----

  predicate TouchesClosed(rows: Rows, token: string) {
    exists id :: id in rows && rows[id].token == token && rows[id].status != Active
  }

  /** The action gives a token to a new row. */
  predicate Gives(s: System, a: Action) {
    && a.Advance? && a.task in s.tasks
    && s.tasks[a.task].LoginInsert? && !HasToken(s.rows, s.tasks[a.task].token)
  }

  function GivenAfter(s: System, a: Action, given: set<string>): set<string> {
    if Gives(s, a) then given + {s.tasks[a.task].token} else given
  }

  /** A sweep updates a session in use, an accepted check touches one that is not active, or a token
      is given a second time. */
  predicate Risky(s: System, a: Action, given: set<string>) {
    a.Advance? && a.task in s.tasks &&
    var t := s.tasks[a.task];
    || (t.SweepUpdate? && SweepsInUse(s, t.ids, a.now))
    || (t.CheckTouch? && TouchesClosed(s.rows, t.token))
    || (Gives(s, a) && t.token in given)
  }

  /** `given` are the tokens that have had a row. */
  ghost predicate NeverRisky(s: System, actions: seq<Action>, given: set<string>)
    decreases |actions|
  {
    actions == [] ||
    (!Risky(s, actions[0], given) && NeverRisky(Next(s, actions[0]), actions[1..], GivenAfter(s, actions[0], given)))
  }

  ghost predicate TokensIn(rows: Rows, given: set<string>) {
    forall id :: id in rows ==> rows[id].token in given
  }

  // ----- what then holds between the two runs -----

  /** Active with the sweep means active without it, last used at the same instant. */
  ghost predicate NoMoreActive(f: Rows, g: Rows) {
    forall id :: id in f && id in g && f[id].status == Active
                 ==> g[id].status == Active && g[id].lastAccess == f[id].lastAccess
  }

  /** Only the run without the sweep can have a write of a refused check to do that the other one has
      not, and then the token is closed for good in the other one. */
  ghost predicate LateExpiryHarmless(rows: Rows, t: Task, u: Task, given: set<string>) {
    && !(t.CheckExpire? && u == CheckDone(false))
    && (t == CheckDone(false) && u.CheckExpire? ==>
          u.token in given && forall id :: id in rows && rows[id].token == u.token ==> rows[id].status != Active)
  }

  ghost predicate Behind(s: System, p: System, given: set<string>) {
    && TokensIn(s.rows, given) && NoMoreActive(s.rows, p.rows)
    && (forall k :: k in s.tasks && k in p.tasks ==> LateExpiryHarmless(s.rows, s.tasks[k], p.tasks[k], given))
  }

  lemma NoBreak(s: System, p: System, a: Action, sweeps: set<TaskId>, now: Instant, given: set<string>)
    requires Alike(s, p, sweeps, now) && now <= TimeOf(a, now) && Behind(s, p, given) && !Risky(s, a, given)
    ensures !Breaks(s, p, a)
  {
    LaterAlike(s, p, sweeps, now, TimeOf(a, now));
    if a.Advance? && a.task in s.tasks && a.task in p.tasks {
      assert LateExpiryHarmless(s.rows, s.tasks[a.task], p.tasks[a.task], given);
      assert forall id :: id in s.rows ==> RowAlike(s.rows[id], p.rows[id], a.now);
    }
  }

  /** Tokens that are closed, or were given before, stay harmless; nothing becomes active again. */
  lemma HarmlessStays(s: System, a: Action, t: Task, u: Task, given: set<string>)
    requires LateExpiryHarmless(s.rows, t, u, given) && !Risky(s, a, given)
    ensures LateExpiryHarmless(Next(s, a).rows, t, u, GivenAfter(s, a, given))
  {
  }

  lemma TokensStayIn(s: System, a: Action, given: set<string>)
    requires TokensIn(s.rows, given)
    ensures TokensIn(Next(s, a).rows, GivenAfter(s, a, given))
  {
  }

  /** One statement of a task that both runs have. */
  lemma StatementKeepsBehind(s: System, p: System, t: Task, u: Task, now: Instant, given: set<string>)
    requires SessionInterleaving.Valid(s) && SessionInterleaving.Valid(p)
    requires RowsAlike(s.rows, p.rows, now) && s.nextId == p.nextId && NoMoreActive(s.rows, p.rows)
    requires TaskAlike(s, p, t, u) && !OfSweep(u) && LateExpiryHarmless(s.rows, t, u, given)
    requires t.CheckTouch? ==> !TouchesClosed(s.rows, t.token)
    ensures NoMoreActive(Advanced(s, t, now).0, Advanced(p, u, now).0)
  {
    if t.LoginInsert? {
      AlikeTokens(s.rows, p.rows, t.token, now);
    }
  }

  /** A lookup leaves a write of the harmless kind at most. */
  lemma LookupKeepsHarmless(s: System, p: System, token: string, now: Instant, given: set<string>)
    requires SessionInterleaving.Valid(s) && RowsAlike(s.rows, p.rows, now)
    requires SessionInterleaving.Valid(p) && TokensIn(s.rows, given) && NoMoreActive(s.rows, p.rows)
    ensures LateExpiryHarmless(s.rows, AfterLookup(s.rows, token, now), AfterLookup(p.rows, token, now), given)
  {
    AlikeTokens(s.rows, p.rows, token, now);
    if HasToken(s.rows, token) {
      var id :| id in s.rows && s.rows[id].token == token;
      OneRowDecides(s.rows, id, now);
      assert RowAlike(s.rows[id], p.rows[id], now);
      OneRowDecides(p.rows, id, now);
    }
  }

  lemma MovedKeepsHarmless(s: System, p: System, t: Task, u: Task, now: Instant, given: set<string>)
    requires SessionInterleaving.Valid(s) && SessionInterleaving.Valid(p) && RowsAlike(s.rows, p.rows, now)
    requires TokensIn(s.rows, given) && NoMoreActive(s.rows, p.rows)
    requires TaskAlike(s, p, t, u) && !OfSweep(u)
    ensures LateExpiryHarmless(s.rows, Advanced(s, t, now).2, Advanced(p, u, now).2, given)
  {
    if t.CheckLookup? {
      LookupKeepsHarmless(s, p, t.token, now, given);
    }
  }

  lemma TaskKeepsBehind(s: System, p: System, a: Action, sweeps: set<TaskId>, given: set<string>)
    requires SessionInterleaving.Valid(s) && SessionInterleaving.Valid(p)
    requires a.Advance? && Alike(s, p, sweeps, a.now) && a.task in p.tasks
    requires Behind(s, p, given) && !Risky(s, a, given)
    ensures Behind(Next(s, a), Next(p, a), GivenAfter(s, a, given))
  {
    var s', p', given' := Next(s, a), Next(p, a), GivenAfter(s, a, given);
    var t, u := s.tasks[a.task], p.tasks[a.task];
    TokensStayIn(s, a, given);
    assert LateExpiryHarmless(s.rows, t, u, given);
    StatementKeepsBehind(s, p, t, u, a.now, given);
    MovedKeepsHarmless(s, p, t, u, a.now, given);
    forall k | k in s'.tasks && k in p'.tasks ensures LateExpiryHarmless(s'.rows, s'.tasks[k], p'.tasks[k], given') {
      if k != a.task {
        HarmlessStays(s, a, s.tasks[k], p.tasks[k], given);
      } else {
        HarmlessStays(s, a, s'.tasks[k], p'.tasks[k], given);
      }
    }
  }

  lemma ActionKeepsBehind(s: System, p: System, a: Action, sweeps: set<TaskId>, now: Instant, given: set<string>)
    requires SessionInterleaving.Valid(s) && SessionInterleaving.Valid(p)
    requires Alike(s, p, sweeps, now) && now <= TimeOf(a, now) && WellFormed(a, sweeps)
    requires Behind(s, p, given) && !Risky(s, a, given)
    ensures Behind(Next(s, a), Erased(p, a, sweeps), GivenAfter(s, a, given))
  {
    LaterAlike(s, p, sweeps, now, TimeOf(a, now));
    if a.Advance? && a.task !in sweeps && a.task in p.tasks {
      TaskKeepsBehind(s, p, a, sweeps, given);
    } else {
      var s', p', given' := Next(s, a), Erased(p, a, sweeps), GivenAfter(s, a, given);
      TokensStayIn(s, a, given);
      forall k | k in s'.tasks && k in p'.tasks ensures LateExpiryHarmless(s'.rows, s'.tasks[k], p'.tasks[k], given') {
        if k in p.tasks {
          HarmlessStays(s, a, s.tasks[k], p.tasks[k], given);
        }
      }
    }
  }

  lemma {:induction false} NeverRiskyNeverBreaks(s: System, p: System, actions: seq<Action>, sweeps: set<TaskId>,
                                                 now: Instant, given: set<string>)
    requires SessionInterleaving.Valid(s) && SessionInterleaving.Valid(p) && Alike(s, p, sweeps, now)
    requires InOrder(actions, now) && forall i :: 0 <= i < |actions| ==> WellFormed(actions[i], sweeps)
    requires Behind(s, p, given) && NeverRisky(s, actions, given)
    ensures NeverBreaks(s, p, actions, sweeps)
    decreases |actions|
  {
    if actions != [] {
      var a := actions[0];
      NoBreak(s, p, a, sweeps, now, given);
      ActionKeepsAlike(s, p, a, sweeps, now);
      ActionKeepsBehind(s, p, a, sweeps, now, given);
      NextKeepsValid(s, a);
      NextKeepsValid(p, a);
      NeverRiskyNeverBreaks(Next(s, a), Erased(p, a, sweeps), actions[1..], sweeps, TimeOf(a, now),
                            GivenAfter(s, a, given));
    }
  }

  /** If in the run as it happens no sweep updates a session in use, no accepted check touches one that
      is not active and no token is given twice, then leaving the sweeps out changes nothing that a check
      of any token would be told at any instant. */
  lemma SafeRunSweepHarmless(s: System, actions: seq<Action>, sweeps: set<TaskId>, now: Instant, given: set<string>)
    requires SessionInterleaving.Valid(s) && NoSweepYet(s, sweeps) && TokensIn(s.rows, given)
    requires InOrder(actions, now) && forall i :: 0 <= i < |actions| ==> WellFormed(actions[i], sweeps)
    requires NeverRisky(s, actions, given)
    ensures AlwaysAgree(s, s, actions, sweeps) && NeverBreaks(s, s, actions, sweeps)
  {
    AlikeToItself(s, sweeps, now);
    NeverRiskyNeverBreaks(s, s, actions, sweeps, now, given);
    SweepHarmlessIff(s, actions, sweeps, now);
  }
}
