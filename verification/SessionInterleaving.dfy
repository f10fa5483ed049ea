/** The same statements, interleaved one at a time: a check or a kick looks a row up and writes
    later, the sweep selects identifiers and updates them later without looking again. */
module SessionInterleaving {
  import opened Sessions

  type TaskId = int

  datatype Task =
    | CheckLookup(token: string)
    | CheckTouch(token: string)
    | CheckExpire(token: string)
    | CheckDone(accepted: bool)
    | KickLookup(id: SessionId, admin: string)
    | KickUpdate(id: SessionId, admin: string)
    | SweepSelect
    | SweepUpdate(ids: set<SessionId>)
    | LogoutUpdate(token: string)
    | PurgeDelete(before: Instant)
    | LoginInsert(token: string)
    | Finished

  datatype System = System(rows: Rows, nextId: SessionId, tasks: map<TaskId, Task>)

  datatype Action =
    | Begin(task: TaskId, what: Task)
    | Advance(task: TaskId, now: Instant)

  predicate Startable(t: Task) {
    t.CheckLookup? || t.KickLookup? || t.SweepSelect? || t.LogoutUpdate? || t.PurgeDelete? || t.LoginInsert?
  }

  /** What a check does next after reading these rows. */
  function AfterLookup(rows: Rows, token: string, now: Instant): Task {
    if !HasToken(rows, token) then CheckDone(true)
    else if exists id :: id in rows && rows[id].token == token && rows[id].status != Active then CheckDone(false)
    else if !Accepts(rows, token, now) then CheckExpire(token)
    else CheckTouch(token)
  }

  /** One statement of one task. */
  function Advanced(s: System, t: Task, now: Instant): (Rows, SessionId, Task) {
    match t
    case CheckLookup(token) => (s.rows, s.nextId, AfterLookup(s.rows, token, now))
    case CheckTouch(token) => (Touch(s.rows, token, now), s.nextId, CheckDone(true))
    case CheckExpire(token) => (Expire(s.rows, token, now), s.nextId, CheckDone(false))
    case KickLookup(id, admin) =>
      (s.rows, s.nextId, if id in s.rows && s.rows[id].status == Active then KickUpdate(id, admin) else Finished)
    case KickUpdate(id, admin) => (KickWrite(s.rows, id, admin), s.nextId, Finished)
    case SweepSelect => (s.rows, s.nextId, SweepUpdate(IdleIds(s.rows, now - IDLE_TIMEOUT)))
    case SweepUpdate(ids) => (ExpireIds(s.rows, ids), s.nextId, Finished)
    case LogoutUpdate(token) => (Expire(s.rows, token, now), s.nextId, Finished)
    case PurgeDelete(before) => (DeleteBefore(s.rows, before), s.nextId, Finished)
    case LoginInsert(token) =>
      if HasToken(s.rows, token) then (s.rows, s.nextId, Finished)
      else (Inserted(s.rows, s.nextId, token, now), s.nextId + 1, Finished)
    case CheckDone(_) => (s.rows, s.nextId, t)
    case Finished => (s.rows, s.nextId, t)
  }

  /** An action that is not possible leaves the system as it is. */
  function Next(s: System, a: Action): System {
    match a
    case Begin(task, what) =>
      if task in s.tasks || !Startable(what) then s else s.(tasks := s.tasks[task := what])
    case Advance(task, now) =>
      if task !in s.tasks then s
      else
        var (rows, nextId, t) := Advanced(s, s.tasks[task], now);
        System(rows, nextId, s.tasks[task := t])
  }

  function Exec(s: System, actions: seq<Action>): System
    decreases |actions|
  {
    if actions == [] then s else Exec(Next(s, actions[0]), actions[1..])
  }

  ghost predicate Valid(s: System) {
    Unique(s.rows) && forall id :: id in s.rows ==> id < s.nextId
  }

  lemma NextKeepsValid(s: System, a: Action)
    requires Valid(s)
    ensures Valid(Next(s, a))
  {
  }

  lemma {:induction false} ExecKeepsValid(s: System, actions: seq<Action>)
    requires Valid(s)
    ensures Valid(Exec(s, actions))
    decreases |actions|
  {
    if actions != [] {
      NextKeepsValid(s, actions[0]);
      ExecKeepsValid(Next(s, actions[0]), actions[1..]);
    }
  }

  /** The session has existed, and is not active now: it is in another status, or its row is gone. */
  ghost predicate Closed(s: System, id: SessionId) {
    id < s.nextId && (id in s.rows ==> s.rows[id].status != Active)
  }

  lemma NextKeepsClosed(s: System, a: Action, id: SessionId)
    requires Closed(s, id)
    ensures Closed(Next(s, a), id)
  {
  }

  /** In every interleaving a session that is no longer active never becomes active again. */
  lemma {:induction false} NeverActiveAgain(s: System, actions: seq<Action>, id: SessionId)
    requires Closed(s, id)
    ensures Closed(Exec(s, actions), id)
    decreases |actions|
  {
    if actions != [] {
      NextKeepsClosed(s, actions[0], id);
      NeverActiveAgain(Next(s, actions[0]), actions[1..], id);
    }
  }

  lemma {:induction false} IdsNeverReturn(s: System, actions: seq<Action>, id: SessionId)
    requires id < s.nextId
    ensures id < Exec(s, actions).nextId
    decreases |actions|
  {
    if actions != [] {
      IdsNeverReturn(Next(s, actions[0]), actions[1..], id);
    }
  }

  /** Whatever made a session leave "active", and however the statements interleave before and after,
      it is not active again: its identifier is not reused and no statement sets that status. */
  lemma LeftActiveForGood(s: System, before: seq<Action>, afterwards: seq<Action>, id: SessionId)
    requires Valid(s) && id in s.rows
    requires id in Exec(s, before).rows ==> Exec(s, before).rows[id].status != Active
    ensures var end := Exec(Exec(s, before), afterwards); id in end.rows ==> end.rows[id].status != Active
  {
    IdsNeverReturn(s, before, id);
    NeverActiveAgain(Exec(s, before), afterwards, id);
  }

  lemma {:induction false} AnswerIsFinal(s: System, actions: seq<Action>, task: TaskId, accepted: bool)
    requires task in s.tasks && s.tasks[task] == CheckDone(accepted)
    ensures task in Exec(s, actions).tasks && Exec(s, actions).tasks[task] == CheckDone(accepted)
    decreases |actions|
  {
    if actions != [] {
      AnswerIsFinal(Next(s, actions[0]), actions[1..], task, accepted);
    }
  }

  /** Any check whose lookup runs after a session left "active" is refused, for good, while the row
      exists, whatever ran between the two and whatever runs afterwards. */
  lemma LateLookupIsRefused(s: System, between: seq<Action>, task: TaskId, now: Instant, id: SessionId,
                            afterwards: seq<Action>)
    requires Valid(s) && Closed(s, id)
    requires var m := Exec(s, between);
             id in m.rows && task in m.tasks && m.tasks[task] == CheckLookup(m.rows[id].token)
    ensures var end := Exec(Next(Exec(s, between), Advance(task, now)), afterwards);
            task in end.tasks && end.tasks[task] == CheckDone(false)
  {
    var m := Exec(s, between);
    NeverActiveAgain(s, between, id);
    assert HasToken(m.rows, m.rows[id].token);
    AnswerIsFinal(Next(m, Advance(task, now)), afterwards, task, false);
  }

  // ----- an operation with nothing in between is one step -----

  /** The statements of one operation, one after the other. */
  function Alone(k: TaskId, what: Task, now: Instant): seq<Action> {
    [Begin(k, what), Advance(k, now), Advance(k, now)]
  }

  lemma AloneInSteps(s: System, k: TaskId, what: Task, now: Instant)
    requires k !in s.tasks && Startable(what)
    ensures var first := Advanced(s, what, now);
            var second := Advanced(System(first.0, first.1, s.tasks[k := first.2]), first.2, now);
            Exec(s, Alone(k, what, now)) == System(second.0, second.1, s.tasks[k := second.2])
  {
    var a := Alone(k, what, now);
    var s1 := Next(s, a[0]);
    var s2 := Next(s1, a[1]);
    var s3 := Next(s2, a[2]);
    assert a[1..][1..] == a[2..] && a[2..][1..] == [];
    assert Exec(s, a) == Exec(s1, a[1..]) == Exec(s2, a[2..]) == Exec(s3, []);
    var first := Advanced(s, what, now);
    assert s2 == System(first.0, first.1, s.tasks[k := first.2]);
    assert s2.tasks[k := Advanced(s2, first.2, now).2] == s.tasks[k := Advanced(s2, first.2, now).2];
  }

  /** The operation that a task performs, as one step. */
  function EventOf(what: Task, now: Instant): Event
    requires Startable(what)
  {
    match what
    case CheckLookup(token) => Check(token, now)
    case KickLookup(id, admin) => Kick(id, admin, now)
    case SweepSelect => Sweep(now)
    case LogoutUpdate(token) => Logout(token, now)
    case PurgeDelete(before) => Purge(before, now)
    case LoginInsert(token) => Login(token, now)
  }

  lemma CheckAloneIsOneStep(s: System, k: TaskId, token: string, now: Instant, log: seq<Entry>)
    requires Valid(s) && k !in s.tasks
    ensures var end := Exec(s, Alone(k, CheckLookup(token), now));
            var store := Step(Store(s.rows, s.nextId, log), Check(token, now));
            && end.rows == store.rows && end.nextId == store.nextId
            && end.tasks == s.tasks[k := CheckDone(Accepts(s.rows, token, now))]
  {
    AloneInSteps(s, k, CheckLookup(token), now);
    if !HasToken(s.rows, token) {
      TouchOfUnknown(s.rows, token, now);
    } else {
      var id :| id in s.rows && s.rows[id].token == token;
      OneRowDecides(s.rows, id, now);
      if s.rows[id].status != Active {
        ExpireOfInactive(s.rows, token, now);
      }
    }
  }

  lemma KickAloneIsOneStep(s: System, k: TaskId, id: SessionId, admin: string, now: Instant, log: seq<Entry>)
    requires Valid(s) && k !in s.tasks
    ensures var end := Exec(s, Alone(k, KickLookup(id, admin), now));
            var store := Step(Store(s.rows, s.nextId, log), Kick(id, admin, now));
            end.rows == store.rows && end.nextId == store.nextId && end.tasks == s.tasks[k := Finished]
  {
    AloneInSteps(s, k, KickLookup(id, admin), now);
  }

  /** With nothing in between, the statements of an operation do to the rows what the operation does as one
      step, and a check is told what it is told there. */
  lemma AloneIsOneStep(s: System, k: TaskId, what: Task, now: Instant, log: seq<Entry>)
    requires Valid(s) && k !in s.tasks && Startable(what)
    ensures var end := Exec(s, Alone(k, what, now));
            var store := Step(Store(s.rows, s.nextId, log), EventOf(what, now));
            && end.rows == store.rows && end.nextId == store.nextId
            && end.tasks == s.tasks[k := if what.CheckLookup? then CheckDone(Accepts(s.rows, what.token, now))
                                         else Finished]
  {
    if what.CheckLookup? {
      CheckAloneIsOneStep(s, k, what.token, now, log);
    } else if what.KickLookup? {
      KickAloneIsOneStep(s, k, what.id, what.admin, now, log);
    } else {
      AloneInSteps(s, k, what, now);
    }
  }
}
