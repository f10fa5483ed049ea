/** When a session is accepted, told from the events of the run alone: neither the rows nor the log are
    looked at. */
module SessionEvents {
  import opened Sessions

  /** From `last`, the instant at which the session was last known to be used, up to `now`: no logout with
      its token, no kick of it, and a check of it at least once an hour. */
  predicate KeptInUse(run: seq<Event>, id: SessionId, token: string, last: Instant, now: Instant)
    decreases |run|
  {
    if run == [] then now - last <= IDLE_TIMEOUT
    else if run[0] == Check(token, run[0].at)
    then run[0].at - last <= IDLE_TIMEOUT && KeptInUse(run[1..], id, token, run[0].at, now)
    else !Ends(run[0], id, token) && KeptInUse(run[1..], id, token, last, now)
  }

  predicate Ends(e: Event, id: SessionId, token: string) {
    (e.Logout? && e.token == token) || (e.Kick? && e.id == id)
  }

  /** The last instant of a run in time order. */
  function EndOf(run: seq<Event>, start: Instant): Instant {
    if run == [] then start else run[|run| - 1].at
  }

  lemma {:induction false} IdsNeverReturn(s: Store, run: seq<Event>, id: SessionId)
    requires id < s.nextId && id !in s.rows
    ensures id !in Run(s, run).rows
    decreases |run|
  {
    if run != [] {
      IdsNeverReturn(Step(s, run[0]), run[1..], id);
    }
  }

  lemma {:induction false} TokenIsFixed(s: Store, run: seq<Event>, id: SessionId)
    requires Valid(s) && id in s.rows && id in Run(s, run).rows
    ensures Run(s, run).rows[id].token == s.rows[id].token
    decreases |run|
  {
    if run != [] {
      StepKeepsValid(s, run[0]);
      if id !in Step(s, run[0]).rows {
        IdsNeverReturn(Step(s, run[0]), run[1..], id);
      }
      TokenIsFixed(Step(s, run[0]), run[1..], id);
    }
  }

  lemma {:induction false} RunKeepsValid(s: Store, run: seq<Event>)
    requires Valid(s)
    ensures Valid(Run(s, run))
    decreases |run|
  {
    if run != [] {
      StepKeepsValid(s, run[0]);
      RunKeepsValid(Step(s, run[0]), run[1..]);
    }
  }

  /** Once it is not active it never is again. */
  lemma {:induction false} ClosedForGood(s: Store, run: seq<Event>, id: SessionId)
    requires Valid(s) && id in s.rows && s.rows[id].status != Active && id in Run(s, run).rows
    ensures Run(s, run).rows[id].status != Active
    decreases |run|
  {
    if run != [] {
      StepKeepsValid(s, run[0]);
      if id !in Step(s, run[0]).rows {
        IdsNeverReturn(Step(s, run[0]), run[1..], id);
      }
      ClosedForGood(Step(s, run[0]), run[1..], id);
    }
  }

  /** Idle for too long: nothing that follows brings it back. */
  lemma {:induction false} TooLongIsNotKept(run: seq<Event>, id: SessionId, token: string, last: Instant,
                                            at: Instant, now: Instant)
    requires Ordered(run, at) && EndOf(run, at) <= now && at - last > IDLE_TIMEOUT
    ensures !KeptInUse(run, id, token, last, now)
    decreases |run|
  {
    if run != [] {
      if run[0] != Check(token, run[0].at) {
        TooLongIsNotKept(run[1..], id, token, last, run[0].at, now);
      }
    }
  }

  /** What one event does to an active session of this token. */
  lemma OneEvent(s: Store, e: Event, id: SessionId)
    requires Valid(s) && id in s.rows && s.rows[id].status == Active && id in Step(s, e).rows
    ensures var row, row' := s.rows[id], Step(s, e).rows[id];
            if e == Check(row.token, e.at)
            then if e.at - row.lastAccess <= IDLE_TIMEOUT then row' == row.(lastAccess := e.at)
                 else row'.status != Active
            else if Ends(e, id, row.token) then row'.status != Active
            else row' == row || (row'.status != Active && e.at - row.lastAccess > IDLE_TIMEOUT)
  {
    OneRowDecides(s.rows, id, e.at);
  }

  lemma {:induction false} ActiveIffKept(s: Store, run: seq<Event>, id: SessionId, start: Instant, now: Instant)
    requires Valid(s) && id in s.rows && s.rows[id].status == Active && id in Run(s, run).rows
    requires Ordered(run, start) && EndOf(run, start) <= now
    ensures Accepts(Run(s, run).rows, s.rows[id].token, now)
       <==> KeptInUse(run, id, s.rows[id].token, s.rows[id].lastAccess, now)
    decreases |run|
  {
    if run == [] {
      OneRowDecides(s.rows, id, now);
    } else {
      var e, s' := run[0], Step(s, run[0]);
      StepKeepsValid(s, e);
      if id !in s'.rows {
        IdsNeverReturn(s', run[1..], id);
      }
      OneEvent(s, e, id);
      if s'.rows[id].status == Active {
        ActiveIffKept(s', run[1..], id, e.at, now);
      } else {
        ClosedForGood(s', run[1..], id);
        TokenIsFixed(s, run, id);
        RunKeepsValid(s, run);
        OneRowDecides(Run(s, run).rows, id, now);
        if e.at - s.rows[id].lastAccess > IDLE_TIMEOUT && e != Check(s.rows[id].token, e.at) {
          TooLongIsNotKept(run[1..], id, s.rows[id].token, s.rows[id].lastAccess, e.at, now);
        }
      }
    }
  }

  /** A session that a login opened is accepted later, while its row exists, exactly if the events since
      hold no logout with its token and no kick of it, and no hour without a check of it. */
  lemma AcceptedIffKeptInUse(s: Store, token: string, at: Instant, run: seq<Event>, now: Instant)
    requires Valid(s) && !HasToken(s.rows, token)
    requires Ordered(run, at) && EndOf(run, at) <= now
    requires s.nextId in Run(Step(s, Login(token, at)), run).rows
    ensures Accepts(Run(Step(s, Login(token, at)), run).rows, token, now) <==> KeptInUse(run, s.nextId, token, at, now)
  {
    StepKeepsValid(s, Login(token, at));
    ActiveIffKept(Step(s, Login(token, at)), run, s.nextId, at, now);
  }

  /** A logout or a kick ends the session for good. */
  lemma EndedIsRefused(s: Store, e: Event, id: SessionId, run: seq<Event>, now: Instant)
    requires Valid(s) && id in s.rows && Ends(e, id, s.rows[id].token) && id in Run(Step(s, e), run).rows
    ensures !Accepts(Run(Step(s, e), run).rows, s.rows[id].token, now)
  {
    StepKeepsValid(s, e);
    assert id in Step(s, e).rows;
    assert Step(s, e).rows[id].status != Active && Step(s, e).rows[id].token == s.rows[id].token;
    ClosedForGood(Step(s, e), run, id);
    TokenIsFixed(Step(s, e), run, id);
  }

  // ----- the log -----

  /** Sweeps and purges are not recorded, nor are a login and a kick that did not take place. */
  ghost function Recorded(s: Store, run: seq<Event>): seq<Entry>
    decreases |run|
  {
    if run == [] then []
    else
      (match run[0]
       case Check(token, at) => [Checked(token, Accepts(s.rows, token, at), at)]
       case Logout(token, _) => [LoggedOut(token)]
       case Login(token, at) => if HasToken(s.rows, token) then [] else [LoggedIn(s.nextId, token, at)]
       case Kick(id, _, _) => if id in s.rows && s.rows[id].status == Active then [KickedOut(id)] else []
       case _ => [])
      + Recorded(Step(s, run[0]), run[1..])
  }

  /** The log grows by one entry for each check and logout, and for each login and kick that took place. */
  lemma {:induction false} LogRecordsRun(s: Store, run: seq<Event>)
    ensures Run(s, run).log == s.log + Recorded(s, run)
    decreases |run|
  {
    if run != [] {
      LogRecordsRun(Step(s, run[0]), run[1..]);
    }
  }
}
