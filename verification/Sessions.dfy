/** Session rows, the statements that rewrite them, and what whole runs of session operations do.
    Instants are integers (nanoseconds) that never decrease along a run. */
module Sessions {
  type SessionId = int

  type Instant = int

  const IDLE_TIMEOUT: int := 3_600_000_000_000

  datatype Status = Active | Kicked | Expired

  datatype Row = Row(token: string, status: Status, kickedBy: string, loginAt: Instant, lastAccess: Instant)

  type Rows = map<SessionId, Row>

  // ----- statements -----

  predicate HasToken(rows: Rows, token: string) {
    exists id :: id in rows && rows[id].token == token
  }

  function Inserted(rows: Rows, id: SessionId, token: string, now: Instant): Rows {
    rows[id := Row(token, Active, "", now, now)]
  }

  function Touch(rows: Rows, token: string, now: Instant): Rows {
    map id | id in rows :: if rows[id].token == token then rows[id].(lastAccess := now) else rows[id]
  }

  function Expire(rows: Rows, token: string, now: Instant): Rows {
    map id | id in rows ::
      if rows[id].token == token && rows[id].status == Active then rows[id].(status := Expired, lastAccess := now)
      else rows[id]
  }

  /** Updating one row by identifier; it does not look at the status again. */
  function KickWrite(rows: Rows, id: SessionId, admin: string): Rows {
    if id in rows then rows[id := rows[id].(status := Kicked, kickedBy := admin)] else rows
  }

  function IdleIds(rows: Rows, idleSince: Instant): set<SessionId> {
    set id | id in rows && rows[id].status == Active && rows[id].lastAccess < idleSince
  }

  /** Updating rows by identifier; it does not look at the status again either. */
  function ExpireIds(rows: Rows, ids: set<SessionId>): Rows {
    map id | id in rows :: if id in ids then rows[id].(status := Expired) else rows[id]
  }

  function DeleteBefore(rows: Rows, before: Instant): Rows {
    map id | id in rows && rows[id].loginAt >= before :: rows[id]
  }

  /** The token column is unique. */
  ghost predicate Unique(rows: Rows) {
    forall i, j :: i in rows && j in rows && rows[i].token == rows[j].token ==> i == j
  }

  /** The answer of a check on these rows; a token without a row is let through. */
  predicate Accepts(rows: Rows, token: string, now: Instant) {
    forall id :: id in rows && rows[id].token == token
                 ==> rows[id].status == Active && now - rows[id].lastAccess <= IDLE_TIMEOUT
  }

  lemma OneRowDecides(rows: Rows, id: SessionId, now: Instant)
    requires Unique(rows) && id in rows
    ensures Accepts(rows, rows[id].token, now) <==>
            rows[id].status == Active && now - rows[id].lastAccess <= IDLE_TIMEOUT
    ensures forall k :: k in rows && rows[k].token == rows[id].token ==> k == id
  {
  }

  lemma TouchOfUnknown(rows: Rows, token: string, now: Instant)
    requires !HasToken(rows, token)
    ensures Touch(rows, token, now) == rows
  {
    assert forall id :: id in rows ==> Touch(rows, token, now)[id] == rows[id];
  }

  lemma ExpireOfInactive(rows: Rows, token: string, now: Instant)
    requires forall id :: id in rows && rows[id].token == token ==> rows[id].status != Active
    ensures Expire(rows, token, now) == rows
  {
    assert forall id :: id in rows ==> Expire(rows, token, now)[id] == rows[id];
  }

  // ----- whole operations, each one step -----

  datatype Event =
    | Login(token: string, at: Instant)
    | Check(token: string, at: Instant)
    | Logout(token: string, at: Instant)
    | Kick(id: SessionId, admin: string, at: Instant)
    | Sweep(at: Instant)
    | Purge(before: Instant, at: Instant)

  /** What a run has recorded: logins and kicks that took place, logouts, and the answer of every check. */
  datatype Entry =
    | LoggedIn(id: SessionId, token: string, at: Instant)
    | Checked(token: string, accepted: bool, at: Instant)
    | LoggedOut(token: string)
    | KickedOut(id: SessionId)

  datatype Store = Store(rows: Rows, nextId: SessionId, log: seq<Entry>)

  const EMPTY := Store(map[], 1, [])

  ghost predicate Valid(s: Store) {
    Unique(s.rows) && forall id :: id in s.rows ==> id < s.nextId
  }

  function Step(s: Store, e: Event): Store {
    match e
    case Login(token, at) =>
      if HasToken(s.rows, token) then s
      else Store(Inserted(s.rows, s.nextId, token, at), s.nextId + 1, s.log + [LoggedIn(s.nextId, token, at)])
    case Check(token, at) =>
      var accepted := Accepts(s.rows, token, at);
      s.(rows := if accepted then Touch(s.rows, token, at) else Expire(s.rows, token, at),
         log := s.log + [Checked(token, accepted, at)])
    case Logout(token, at) => s.(rows := Expire(s.rows, token, at), log := s.log + [LoggedOut(token)])
    case Kick(id, admin, _) =>
      if id in s.rows && s.rows[id].status == Active
      then s.(rows := KickWrite(s.rows, id, admin), log := s.log + [KickedOut(id)])
      else s
    case Sweep(at) => s.(rows := ExpireIds(s.rows, IdleIds(s.rows, at - IDLE_TIMEOUT)))
    case Purge(before, _) => s.(rows := DeleteBefore(s.rows, before))
  }

  function Run(s: Store, run: seq<Event>): Store
    decreases |run|
  {
    if run == [] then s else Run(Step(s, run[0]), run[1..])
  }

  /** Instants start at `now` and never decrease. */
  predicate Ordered(run: seq<Event>, now: Instant)
    decreases |run|
  {
    run == [] || (now <= run[0].at && Ordered(run[1..], run[0].at))
  }

  lemma StepKeepsValid(s: Store, e: Event)
    requires Valid(s)
    ensures Valid(Step(s, e))
  {
  }

  // ----- erasing the sweep -----

  function Erase(run: seq<Event>): seq<Event>
    decreases |run|
  {
    if run == [] then []
    else if run[0].Sweep? then Erase(run[1..])
    else [run[0]] + Erase(run[1..])
  }

  /** The checks of a log with their answers, in order. */
  function Checks(log: seq<Entry>): seq<Entry>
    decreases |log|
  {
    if log == [] then []
    else Checks(log[..|log| - 1]) + if log[|log| - 1].Checked? then [log[|log| - 1]] else []
  }

  /** A row of the run with sweeps against the same row of the run without: a swept row may still be
      active but idle there, or have been kicked since. */
  ghost predicate RowSimulates(swept: Row, plain: Row, now: Instant) {
    && swept.token == plain.token && swept.loginAt == plain.loginAt
    && (|| (swept.status == plain.status && (swept.status == Active ==> swept.lastAccess == plain.lastAccess))
        || (swept.status == Expired && plain.status == Kicked)
        || (swept.status == Expired && plain.status == Active && now - plain.lastAccess > IDLE_TIMEOUT))
  }

  ghost predicate RowsSimulate(swept: Rows, plain: Rows, now: Instant) {
    && (forall id :: id in swept <==> id in plain)
    && (forall id :: id in swept ==> RowSimulates(swept[id], plain[id], now))
  }

  ghost predicate Simulates(swept: Store, plain: Store, now: Instant) {
    && swept.nextId == plain.nextId
    && RowsSimulate(swept.rows, plain.rows, now)
    && Checks(swept.log) == Checks(plain.log)
  }

  lemma SimulatedAnswer(f: Rows, g: Rows, token: string, now: Instant)
    requires RowsSimulate(f, g, now)
    ensures Accepts(f, token, now) == Accepts(g, token, now)
    ensures HasToken(f, token) == HasToken(g, token)
  {
  }

  lemma SimulatedExpire(f: Rows, g: Rows, token: string, now: Instant)
    requires RowsSimulate(f, g, now)
    ensures RowsSimulate(Expire(f, token, now), Expire(g, token, now), now)
  {
  }

  lemma SimulatedTouch(f: Rows, g: Rows, token: string, now: Instant)
    requires RowsSimulate(f, g, now) && Accepts(f, token, now)
    ensures RowsSimulate(Touch(f, token, now), Touch(g, token, now), now)
  {
  }

  lemma SimulatedKick(f: Rows, g: Rows, id: SessionId, admin: string, now: Instant)
    requires RowsSimulate(f, g, now) && id in f
    ensures g[id].status == Active ==>
              RowsSimulate(if f[id].status == Active then KickWrite(f, id, admin) else f, KickWrite(g, id, admin), now)
    ensures g[id].status != Active ==> f[id].status != Active
  {
  }

  lemma ChecksAppendBoth(log: seq<Entry>, log': seq<Entry>, e: Entry)
    requires Checks(log) == Checks(log')
    ensures Checks(log + [e]) == Checks(log' + [e])
    ensures !e.Checked? ==> Checks(log + [e]) == Checks(log) && Checks(log' + [e]) == Checks(log')
  {
  }

  lemma SimulatedCheck(f: Store, g: Store, token: string, now: Instant)
    requires Simulates(f, g, now)
    ensures Simulates(Step(f, Check(token, now)), Step(g, Check(token, now)), now)
  {
    SimulatedAnswer(f.rows, g.rows, token, now);
    ChecksAppendBoth(f.log, g.log, Checked(token, Accepts(f.rows, token, now), now));
    if Accepts(f.rows, token, now) {
      SimulatedTouch(f.rows, g.rows, token, now);
    } else {
      SimulatedExpire(f.rows, g.rows, token, now);
    }
  }

  lemma SimulationStep(f: Store, g: Store, e: Event, now: Instant)
    requires Simulates(f, g, now) && now <= e.at && !e.Sweep?
    ensures Simulates(Step(f, e), Step(g, e), e.at)
  {
    assert RowsSimulate(f.rows, g.rows, e.at);
    match e {
      case Login(token, at) =>
        SimulatedAnswer(f.rows, g.rows, token, at);
        ChecksAppendBoth(f.log, g.log, LoggedIn(f.nextId, token, at));
      case Check(token, at) => SimulatedCheck(f, g, token, at);
      case Logout(token, at) =>
        ChecksAppendBoth(f.log, g.log, LoggedOut(token));
        SimulatedExpire(f.rows, g.rows, token, at);
      case Kick(id, admin, at) =>
        ChecksAppendBoth(f.log, g.log, KickedOut(id));
        if id in f.rows {
          SimulatedKick(f.rows, g.rows, id, admin, at);
        }
      case Purge(_, _) =>
    }
  }

  lemma SweepIsInvisible(f: Store, g: Store, at: Instant, now: Instant)
    requires Simulates(f, g, now) && now <= at
    ensures Simulates(Step(f, Sweep(at)), g, at)
  {
  }

  lemma {:induction false} RunSimulates(f: Store, g: Store, run: seq<Event>, now: Instant)
    requires Simulates(f, g, now) && Ordered(run, now)
    ensures Checks(Run(f, run).log) == Checks(Run(g, Erase(run)).log)
    decreases |run|
  {
    if run != [] {
      var e := run[0];
      if e.Sweep? {
        SweepIsInvisible(f, g, e.at, now);
        RunSimulates(Step(f, e), g, run[1..], e.at);
      } else {
        SimulationStep(f, g, e, now);
        RunSimulates(Step(f, e), Step(g, e), run[1..], e.at);
        assert Erase(run)[1..] == Erase(run[1..]);
      }
    }
  }

  /** Erasing every sweep of a run changes no answer of any check. */
  lemma SweepChangesNoAnswer(s: Store, run: seq<Event>, now: Instant)
    requires Ordered(run, now)
    ensures Checks(Run(s, run).log) == Checks(Run(s, Erase(run)).log)
  {
    RunSimulates(s, s, run, now);
  }

  // ----- acceptance as a fact about history -----

  /** Login of session `id` and the checks of its token accepted since, oldest first. */
  function Instants(log: seq<Entry>, id: SessionId, token: string): seq<Instant>
    decreases |log|
  {
    if log == [] then []
    else WithEntry(Instants(log[..|log| - 1], id, token), log[|log| - 1], id, token)
  }

  function WithEntry(instants: seq<Instant>, e: Entry, id: SessionId, token: string): seq<Instant> {
    match e
    case LoggedIn(i, _, at) => if i == id then [at] else instants
    case Checked(t, accepted, at) => if t == token && accepted && instants != [] then instants + [at] else instants
    case _ => instants
  }

  /** A kick of the session or a logout with its token has happened since its login. */
  predicate Ended(log: seq<Entry>, id: SessionId, token: string)
    decreases |log|
  {
    log != [] && EndedAfter(Ended(log[..|log| - 1], id, token), log[|log| - 1], id, token)
  }

  predicate EndedAfter(ended: bool, e: Entry, id: SessionId, token: string) {
    match e
    case LoggedIn(i, _, _) => i != id && ended
    case LoggedOut(t) => t == token || ended
    case KickedOut(i) => i == id || ended
    case Checked(_, _, _) => ended
  }

  predicate NoLongGap(instants: seq<Instant>) {
    forall i :: 0 < i < |instants| ==> instants[i] - instants[i - 1] <= IDLE_TIMEOUT
  }

  ghost predicate RowMatchesHistory(log: seq<Entry>, id: SessionId, row: Row, now: Instant) {
    var instants := Instants(log, id, row.token);
    && instants != [] && NoLongGap(instants)
    && (if row.status == Active
        then !Ended(log, id, row.token) && row.lastAccess == instants[|instants| - 1]
        else Ended(log, id, row.token) || now - instants[|instants| - 1] > IDLE_TIMEOUT)
  }

  ghost predicate MatchesHistory(s: Store, now: Instant) {
    forall id :: id in s.rows ==> RowMatchesHistory(s.log, id, s.rows[id], now)
  }

  lemma AppendHistory(log: seq<Entry>, e: Entry, id: SessionId, token: string)
    ensures Instants(log + [e], id, token) == WithEntry(Instants(log, id, token), e, id, token)
    ensures Ended(log + [e], id, token) == EndedAfter(Ended(log, id, token), e, id, token)
  {
  }

  /** An entry about some other session leaves the history of this one alone. */
  lemma EntryAboutOthers(log: seq<Entry>, e: Entry, id: SessionId, row: Row, now: Instant, at: Instant)
    requires RowMatchesHistory(log, id, row, now) && now <= at
    requires match e
             case LoggedIn(i, _, _) => i != id
             case Checked(t, accepted, _) => t != row.token || !accepted
             case LoggedOut(t) => t != row.token || row.status != Active
             case KickedOut(i) => i != id
    ensures RowMatchesHistory(log + [e], id, row, at)
  {
  }

  lemma CheckHistory(s: Store, token: string, at: Instant, now: Instant, id: SessionId)
    requires Valid(s) && id in s.rows && RowMatchesHistory(s.log, id, s.rows[id], now) && now <= at
    ensures var s' := Step(s, Check(token, at)); RowMatchesHistory(s'.log, id, s'.rows[id], at)
  {
    var accepted := Accepts(s.rows, token, at);
    if s.rows[id].token == token {
      AppendHistory(s.log, Checked(token, accepted, at), id, token);
    } else {
      EntryAboutOthers(s.log, Checked(token, accepted, at), id, s.rows[id], now, at);
    }
  }

  lemma LogoutHistory(s: Store, token: string, at: Instant, now: Instant, id: SessionId)
    requires Valid(s) && id in s.rows && RowMatchesHistory(s.log, id, s.rows[id], now) && now <= at
    ensures var s' := Step(s, Logout(token, at)); RowMatchesHistory(s'.log, id, s'.rows[id], at)
  {
  }

  lemma HistoryStep(s: Store, e: Event, now: Instant, id: SessionId)
    requires Valid(s) && MatchesHistory(s, now) && now <= e.at
    requires id in Step(s, e).rows
    ensures RowMatchesHistory(Step(s, e).log, id, Step(s, e).rows[id], e.at)
  {
    if id in s.rows {
      assert RowMatchesHistory(s.log, id, s.rows[id], now);
    }
    match e {
      case Login(token, at) =>
        if !HasToken(s.rows, token) {
          if id == s.nextId {
            AppendHistory(s.log, LoggedIn(id, token, at), id, token);
          } else {
            EntryAboutOthers(s.log, LoggedIn(s.nextId, token, at), id, s.rows[id], now, at);
          }
        }
      case Check(token, at) => CheckHistory(s, token, at, now, id);
      case Logout(token, at) => LogoutHistory(s, token, at, now, id);
      case Kick(k, admin, at) =>
        if k in s.rows && s.rows[k].status == Active {
          if id == k {
            AppendHistory(s.log, KickedOut(k), id, s.rows[id].token);
          } else {
            EntryAboutOthers(s.log, KickedOut(k), id, s.rows[id], now, at);
          }
        }
      case Sweep(_) =>
      case Purge(_, _) =>
    }
  }

  lemma {:induction false} RunMatchesHistory(s: Store, run: seq<Event>, now: Instant, end: Instant)
    requires Valid(s) && MatchesHistory(s, now) && Ordered(run, now)
    requires run == [] ==> now <= end
    requires run != [] ==> run[|run| - 1].at <= end
    ensures Valid(Run(s, run)) && MatchesHistory(Run(s, run), end)
    decreases |run|
  {
    if run != [] {
      StepKeepsValid(s, run[0]);
      forall id | id in Step(s, run[0]).rows
        ensures RowMatchesHistory(Step(s, run[0]).log, id, Step(s, run[0]).rows[id], run[0].at)
      {
        HistoryStep(s, run[0], now, id);
      }
      RunMatchesHistory(Step(s, run[0]), run[1..], run[0].at, end);
    }
  }

  /** A check on an existing row accepts exactly when neither a kick nor a logout has happened since
      login, and no gap between login, the accepted checks and now is longer than the timeout. */
  lemma AcceptsIffHistory(run: seq<Event>, start: Instant, id: SessionId, now: Instant)
    requires id in Run(EMPTY, run).rows
    requires Ordered(run + [Check(Run(EMPTY, run).rows[id].token, now)], start)
    ensures var s := Run(EMPTY, run);
            var token := s.rows[id].token;
            Accepts(s.rows, token, now) <==> !Ended(s.log, id, token) && NoLongGap(Instants(s.log, id, token) + [now])
  {
    var s := Run(EMPTY, run);
    var token := s.rows[id].token;
    OrderedAppend(run, Check(token, now), start);
    RunMatchesHistory(EMPTY, run, start, now);
    assert RowMatchesHistory(s.log, id, s.rows[id], now);
    var instants := Instants(s.log, id, token);
    assert (instants + [now])[|instants|] - (instants + [now])[|instants| - 1] == now - instants[|instants| - 1];
    if NoLongGap(instants + [now]) {
      assert now - instants[|instants| - 1] <= IDLE_TIMEOUT;
    }
  }

  lemma {:induction false} OrderedAppend(run: seq<Event>, e: Event, now: Instant)
    requires Ordered(run + [e], now)
    ensures Ordered(run, now) && (if run == [] then now else run[|run| - 1].at) <= e.at
    decreases |run|
  {
    if run != [] {
      assert (run + [e])[1..] == run[1..] + [e];
      OrderedAppend(run[1..], e, run[0].at);
    }
  }
}
