/** A WebSocket handler looks a session up, and registers its connection in the hub later; a kick, an
    expiry or a sweep writes to the session, and notifies the hub later. All of it statement by statement:
    when a closed session keeps a connection that is told nothing. */
module LiveConnection {
  import opened Sessions
  import Hub
  import SI = SessionInterleaving

  type TaskId = SI.TaskId

  type HandlerId = int

  /** A session event that is to be sent by the task that made it. */
  datatype Notice = Notice(task: TaskId, session: SessionId, event: string)

  datatype Handler =
    | Admitted(session: SessionId)
    | Connected(session: SessionId, channel: Hub.ChannelId)
    | Gone

  /** `found` are the sessions that a check found for its token, `owed` the notices still to be looked up. */
  datatype World = World(
    sessions: SI.System,
    hub: Hub.HubState,
    found: map<TaskId, set<SessionId>>,
    owed: set<Notice>,
    handlers: map<HandlerId, Handler>)

  datatype Step =
    | Statement(action: SI.Action)
    | LookUp(notice: Notice)
    | Send(task: TaskId)
    | Admit(handler: HandlerId, session: SessionId)
    | Connect(handler: HandlerId)
    | Disconnect(handler: HandlerId)
    | Take(handler: HandlerId)

  function FoundAfter(w: World, a: SI.Action): map<TaskId, set<SessionId>> {
    if a.Advance? && a.task in w.sessions.tasks && w.sessions.tasks[a.task].CheckLookup?
    then w.found[a.task := IdsOf(w.sessions.rows, w.sessions.tasks[a.task].token)]
    else w.found
  }

  function IdsOf(rows: Rows, token: string): set<SessionId> {
    set id | id in rows && rows[id].token == token
  }

  /** What a statement obliges its task to send. A logout sends nothing. */
  function Due(w: World, a: SI.Action): set<Notice> {
    if !a.Advance? || a.task !in w.sessions.tasks then {}
    else
      match w.sessions.tasks[a.task]
      case KickUpdate(id, _) => if id in w.sessions.rows then {Notice(a.task, id, "kicked")} else {}
      case CheckExpire(_) => if a.task in w.found then Expiries(a.task, w.found[a.task]) else {}
      case SweepUpdate(ids) => Expiries(a.task, ids)
      case _ => {}
  }

  function Expiries(task: TaskId, ids: set<SessionId>): set<Notice> {
    set id | id in ids :: Notice(task, id, "expired")
  }

  /** A task looks up one notice at a time and sends it before the next one. */
  predicate LooksUp(w: World, s: Step) {
    s.LookUp? && s.notice in w.owed && s.notice.task !in w.hub.lookedUp
  }

  /** The step on the hub, if the step is one. */
  function HubStepOf(w: World, s: Step): seq<Hub.HubStep> {
    match s
    case Statement(_) => []
    case LookUp(n) => if LooksUp(w, s) then [Hub.Lookup(n.task, n.session, n.event)] else []
    case Send(task) => [Hub.Send(task)]
    case Admit(_, _) => []
    case Connect(h) =>
      if h in w.handlers && w.handlers[h].Admitted? then [Hub.Register(w.handlers[h].session)] else []
    case Disconnect(h) =>
      if h in w.handlers && w.handlers[h].Connected? then [Hub.Unregister(w.handlers[h].session)] else []
    case Take(h) =>
      if h in w.handlers && w.handlers[h].Connected? then [Hub.Take(w.handlers[h].channel)] else []
  }

  /** A handler is admitted if the session is active when it looks, and never looks again. */
  function HandlersAfter(w: World, s: Step): map<HandlerId, Handler> {
    match s
    case Admit(h, id) =>
      if h !in w.handlers && id in w.sessions.rows && w.sessions.rows[id].status == Active
      then w.handlers[h := Admitted(id)] else w.handlers
    case Connect(h) =>
      if h in w.handlers && w.handlers[h].Admitted?
      then w.handlers[h := Connected(w.handlers[h].session, w.hub.nextChannel)] else w.handlers
    case Disconnect(h) =>
      if h in w.handlers && w.handlers[h].Connected? then w.handlers[h := Gone] else w.handlers
    case _ => w.handlers
  }

  function Next(w: World, s: Step): World {
    World(
      if s.Statement? then SI.Next(w.sessions, s.action) else w.sessions,
      Hub.Run(w.hub, HubStepOf(w, s)),
      if s.Statement? then FoundAfter(w, s.action) else w.found,
      if s.Statement? then w.owed + Due(w, s.action) else if LooksUp(w, s) then w.owed - {s.notice} else w.owed,
      HandlersAfter(w, s))
  }

  function Run(w: World, run: seq<Step>): World
    decreases |run|
  {
    if run == [] then w else Run(Next(w, run[0]), run[1..])
  }

  function HubSteps(w: World, run: seq<Step>): seq<Hub.HubStep>
    decreases |run|
  {
    if run == [] then [] else HubStepOf(w, run[0]) + HubSteps(Next(w, run[0]), run[1..])
  }

  lemma {:induction false} HubRuns(w: World, run: seq<Step>)
    ensures Run(w, run).hub == Hub.Run(w.hub, HubSteps(w, run))
    decreases |run|
  {
    if run != [] {
      HubRuns(Next(w, run[0]), run[1..]);
      Hub.RunSplit(w.hub, HubStepOf(w, run[0]), HubSteps(Next(w, run[0]), run[1..]));
    }
  }

  /** A channel is registered for one session at most. */
  ghost predicate OnlyFor(h: Hub.HubState, c: Hub.ChannelId, session: SessionId) {
    c in h.buffers && forall t :: t in h.channels && h.channels[t] == c ==> t == session
  }

  ghost predicate Valid(w: World) {
    && Hub.Valid(w.hub)
    && (forall h :: h in w.handlers && w.handlers[h].Connected?
                    ==> OnlyFor(w.hub, w.handlers[h].channel, w.handlers[h].session))
  }

  lemma HubNext(h: Hub.HubState, s: Hub.HubStep)
    ensures Hub.Run(h, [s]) == Hub.Next(h, s)
  {
    assert [s][1..] == [];
    assert Hub.Run(Hub.Next(h, s), [s][1..]) == Hub.Next(h, s);
  }

  /** The hub after one step: unchanged, or after one hub step. */
  lemma HubAfter(w: World, s: Step)
    ensures HubStepOf(w, s) == [] ==> Next(w, s).hub == w.hub
    ensures HubStepOf(w, s) != [] ==> |HubStepOf(w, s)| == 1 && Next(w, s).hub == Hub.Next(w.hub, HubStepOf(w, s)[0])
  {
    if HubStepOf(w, s) != [] {
      HubNext(w.hub, HubStepOf(w, s)[0]);
      assert HubStepOf(w, s) == [HubStepOf(w, s)[0]];
    }
  }

  lemma OnlyForStays(h: Hub.HubState, s: Hub.HubStep, c: Hub.ChannelId, session: SessionId)
    requires Hub.Valid(h) && OnlyFor(h, c, session)
    ensures OnlyFor(Hub.Next(h, s), c, session)
  {
  }

  lemma NextKeepsValid(w: World, s: Step)
    requires Valid(w)
    ensures Valid(Next(w, s))
  {
    var w' := Next(w, s);
    HubAfter(w, s);
    if HubStepOf(w, s) != [] {
      Hub.NextKeepsValid(w.hub, HubStepOf(w, s)[0]);
    }
    forall h | h in w'.handlers && w'.handlers[h].Connected?
      ensures OnlyFor(w'.hub, w'.handlers[h].channel, w'.handlers[h].session)
    {
      if h in w.handlers && w.handlers[h].Connected? && HubStepOf(w, s) != [] {
        OnlyForStays(w.hub, HubStepOf(w, s)[0], w.handlers[h].channel, w.handlers[h].session);
      }
    }
  }

  // ----- what a connection hears -----

  /** Its channel has been given an event, or a notifier that looked it up is about to. */
  ghost predicate Hears(h: Hub.HubState, c: Hub.ChannelId)
    requires Hub.Valid(h) && c in h.buffers
  {
    Hub.History(h, c) != [] || exists n :: n in h.lookedUp && h.lookedUp[n].0 == c
  }

  /** A notice of the session is looked up. */
  predicate LooksUpFor(w: World, s: Step, session: SessionId) {
    LooksUp(w, s) && s.notice.session == session
  }

  lemma HearsAfter(w: World, s: Step, c: Hub.ChannelId, session: SessionId)
    requires Valid(w) && OnlyFor(w.hub, c, session)
    ensures Valid(Next(w, s)) && OnlyFor(Next(w, s).hub, c, session)
    ensures Hears(Next(w, s).hub, c)
       <==> Hears(w.hub, c) || (LooksUpFor(w, s, session) && session in w.hub.channels && w.hub.channels[session] == c)
  {
    NextKeepsValid(w, s);
    HubAfter(w, s);
    if HubStepOf(w, s) != [] {
      OnlyForStays(w.hub, HubStepOf(w, s)[0], c, session);
      HearsAfterHubStep(w.hub, HubStepOf(w, s)[0], c, session);
    }
  }

  lemma HearsAfterHubStep(h: Hub.HubState, s: Hub.HubStep, c: Hub.ChannelId, session: SessionId)
    requires Hub.Valid(h) && OnlyFor(h, c, session) && (s.Lookup? ==> s.notifier !in h.lookedUp)
    ensures Hub.Valid(Hub.Next(h, s)) && c in Hub.Next(h, s).buffers
    ensures Hears(Hub.Next(h, s), c)
       <==> Hears(h, c) || (s.Lookup? && s.session == session && session in h.channels && h.channels[session] == c)
  {
    var h' := Hub.Next(h, s);
    Hub.NextKeepsValid(h, s);
    Hub.NextExtendsHistory(h, s, c);
    match s {
      case Lookup(n, t, event) =>
        assert t !in h.channels ==> h'.lookedUp == h.lookedUp;
        assert t in h.channels ==> n in h'.lookedUp && h'.lookedUp[n].0 == h.channels[t];
        assert forall m :: m in h.lookedUp ==> m in h'.lookedUp && h'.lookedUp[m] == h.lookedUp[m];
      case Send(n) =>
        if n in h.lookedUp && h.lookedUp[n].0 == c {
          assert h'.buffers[c] != [];
        } else {
          assert Hub.History(h', c) == Hub.History(h, c);
          assert forall m :: m in h.lookedUp && h.lookedUp[m].0 == c ==> m in h'.lookedUp && h'.lookedUp[m].0 == c;
        }
      case Take(d) => TakingKeepsHistory(h, d, c);
      case _ =>
        assert Hub.History(h', c) == Hub.History(h, c);
    }
  }

  lemma TakingKeepsHistory(h: Hub.HubState, d: Hub.ChannelId, c: Hub.ChannelId)
    requires Hub.Valid(h) && c in h.buffers
    ensures Hub.Valid(Hub.Next(h, Hub.Take(d))) && c in Hub.Next(h, Hub.Take(d)).buffers
    ensures Hub.History(Hub.Next(h, Hub.Take(d)), c) == Hub.History(h, c)
  {
  }

  /** A notice of the session is looked up while the hub has this channel for it. */
  ghost predicate Reached(w: World, run: seq<Step>, session: SessionId, c: Hub.ChannelId)
    decreases |run|
  {
    run != [] &&
    (|| (LooksUpFor(w, run[0], session) && session in w.hub.channels && w.hub.channels[session] == c)
     || Reached(Next(w, run[0]), run[1..], session, c))
  }

  lemma {:induction false} HearsIffReached(w: World, run: seq<Step>, session: SessionId, c: Hub.ChannelId)
    requires Valid(w) && OnlyFor(w.hub, c, session)
    ensures Valid(Run(w, run)) && OnlyFor(Run(w, run).hub, c, session)
    ensures Hears(Run(w, run).hub, c) <==> Hears(w.hub, c) || Reached(w, run, session, c)
    decreases |run|
  {
    if run != [] {
      HearsAfter(w, run[0], c, session);
      HearsIffReached(Next(w, run[0]), run[1..], session, c);
    }
  }

  ghost predicate FoundAt(w: World, run: seq<Step>, i: nat, session: SessionId, c: Hub.ChannelId)
    requires i < |run|
  {
    var m := Run(w, run[..i]);
    LooksUpFor(m, run[i], session) && session in m.hub.channels && m.hub.channels[session] == c
  }

  lemma FoundLater(w: World, run: seq<Step>, i: nat, session: SessionId, c: Hub.ChannelId)
    requires 0 < i < |run|
    ensures FoundAt(w, run, i, session, c) <==> FoundAt(Next(w, run[0]), run[1..], i - 1, session, c)
  {
    assert run[..i][1..] == run[1..][..i - 1];
  }

  lemma {:induction false} FoundIsReached(w: World, run: seq<Step>, i: nat, session: SessionId, c: Hub.ChannelId)
    requires i < |run| && FoundAt(w, run, i, session, c)
    ensures Reached(w, run, session, c)
    decreases i
  {
    if i == 0 {
      assert Run(w, run[..0]) == w;
    } else {
      FoundLater(w, run, i, session, c);
      FoundIsReached(Next(w, run[0]), run[1..], i - 1, session, c);
    }
  }

  lemma {:induction false} ReachedIsFound(w: World, run: seq<Step>, session: SessionId, c: Hub.ChannelId)
    returns (i: nat)
    requires Reached(w, run, session, c)
    ensures i < |run| && FoundAt(w, run, i, session, c)
    decreases |run|
  {
    if Reached(Next(w, run[0]), run[1..], session, c) {
      i := ReachedIsFound(Next(w, run[0]), run[1..], session, c);
      i := i + 1;
      FoundLater(w, run, i, session, c);
    } else {
      i := 0;
      assert Run(w, run[..0]) == w;
    }
  }

  lemma ConnectsUnheard(w: World, h: HandlerId)
    requires Valid(w) && h in w.handlers && w.handlers[h].Admitted?
    ensures var open := Next(w, Connect(h));
            && Valid(open) && OnlyFor(open.hub, w.hub.nextChannel, w.handlers[h].session)
            && open.hub == Hub.Next(w.hub, Hub.Register(w.handlers[h].session))
            && !Hears(open.hub, w.hub.nextChannel)
  {
    NextKeepsValid(w, Connect(h));
    HubAfter(w, Connect(h));
  }

  /** A notice of the session is looked up, and until then nobody has registered or unregistered it. */
  ghost predicate NoticedAt(w: World, run: seq<Step>, i: nat, session: SessionId)
    requires i < |run|
  {
    LooksUpFor(Run(w, run[..i]), run[i], session) && Hub.Untouched(HubSteps(w, run[..i]), session)
  }

  lemma NoticedIffFound(w: World, h: HandlerId, since: seq<Step>, i: nat)
    requires Valid(w) && h in w.handlers && w.handlers[h].Admitted? && i < |since|
    ensures NoticedAt(Next(w, Connect(h)), since, i, w.handlers[h].session)
       <==> FoundAt(Next(w, Connect(h)), since, i, w.handlers[h].session, w.hub.nextChannel)
  {
    var session, open := w.handlers[h].session, Next(w, Connect(h));
    ConnectsUnheard(w, h);
    HubRuns(open, since[..i]);
    Hub.FoundIffUntouched(w.hub, session, HubSteps(open, since[..i]));
  }

  /** A connection hears exactly if some notice of its session is looked up after it registered and
      before anybody else registers or unregisters the session. */
  lemma HearsIff(w: World, h: HandlerId, since: seq<Step>)
    requires Valid(w) && h in w.handlers && w.handlers[h].Admitted?
    ensures var open := Next(w, Connect(h));
            var end := Run(open, since);
            && Valid(end) && w.hub.nextChannel in end.hub.buffers
            && (Hears(end.hub, w.hub.nextChannel)
                <==> exists i: nat :: i < |since| && NoticedAt(open, since, i, w.handlers[h].session))
  {
    var session, open, c := w.handlers[h].session, Next(w, Connect(h)), w.hub.nextChannel;
    ConnectsUnheard(w, h);
    HearsIffReached(open, since, session, c);
    if Reached(open, since, session, c) {
      var i := ReachedIsFound(open, since, session, c);
      NoticedIffFound(w, h, since, i);
    }
    if i: nat :| i < |since| && NoticedAt(open, since, i, session) {
      NoticedIffFound(w, h, since, i);
      FoundIsReached(open, since, i, session, c);
    }
  }

  lemma CarriesAfter(w: World, s: Step, session: SessionId, c: Hub.ChannelId, event: string)
    requires Valid(w) && OnlyFor(w.hub, c, session)
    requires c in Next(w, s).hub.buffers && c in Next(w, s).hub.taken && Hub.Carries(Next(w, s).hub, c, event)
    ensures Hub.Carries(w.hub, c, event) || (LooksUpFor(w, s, session) && s.notice.event == event)
  {
    HubAfter(w, s);
    if HubStepOf(w, s) != [] {
      Hub.CarriesAfter(w.hub, HubStepOf(w, s)[0], c, event);
    }
  }

  lemma {:induction false} CarriedWasLookedUp(w: World, run: seq<Step>, session: SessionId, c: Hub.ChannelId,
                                              event: string) returns (i: nat)
    requires Valid(w) && OnlyFor(w.hub, c, session) && !Hub.Carries(w.hub, c, event)
    requires var end := Run(w, run).hub; c in end.buffers && c in end.taken && Hub.Carries(end, c, event)
    ensures i < |run| && LooksUpFor(Run(w, run[..i]), run[i], session) && run[i].notice.event == event
    decreases |run|
  {
    HearsAfter(w, run[0], c, session);
    if Hub.Carries(Next(w, run[0]).hub, c, event) {
      CarriesAfter(w, run[0], session, c, event);
      i := 0;
      assert Run(w, run[..0]) == w;
    } else {
      i := CarriedWasLookedUp(Next(w, run[0]), run[1..], session, c, event);
      i := i + 1;
      assert run[..i][1..] == run[1..][..i - 1];
    }
  }

  /** An event that a connection is given is the event of a notice of its session, looked up since. */
  lemma HearsWhatWasSent(w: World, h: HandlerId, since: seq<Step>, event: string) returns (i: nat)
    requires Valid(w) && h in w.handlers && w.handlers[h].Admitted?
    requires var end, c := Run(Next(w, Connect(h)), since).hub, w.hub.nextChannel;
             c in end.buffers && c in end.taken && event in Hub.History(end, c)
    ensures i < |since| && LooksUpFor(Run(Next(w, Connect(h)), since[..i]), since[i], w.handlers[h].session)
    ensures since[i].notice.event == event
  {
    ConnectsUnheard(w, h);
    i := CarriedWasLookedUp(Next(w, Connect(h)), since, w.handlers[h].session, w.hub.nextChannel, event);
  }

  // ----- who is told what -----

  /** Whoever closes an active session owes it a notice, save a logout; a refused check owes it to the
      sessions that its token had when it looked, which is another one if the token was given again since. */
  lemma ClosingOwesNotice(w: World, a: SI.Action, id: SessionId)
    requires id in w.sessions.rows && w.sessions.rows[id].status == Active
    requires var w' := Next(w, Statement(a)); id in w'.sessions.rows && w'.sessions.rows[id].status != Active
    ensures a.Advance? && a.task in w.sessions.tasks
    ensures var t, owed := w.sessions.tasks[a.task], Next(w, Statement(a)).owed;
            || (t.LogoutUpdate? && t.token == w.sessions.rows[id].token)
            || (t.KickUpdate? && t.id == id && Notice(a.task, id, "kicked") in owed)
            || (t.SweepUpdate? && id in t.ids && Notice(a.task, id, "expired") in owed)
            || (t.CheckExpire? && t.token == w.sessions.rows[id].token
                && (Notice(a.task, id, "expired") in owed <==>
                    || Notice(a.task, id, "expired") in w.owed || (a.task in w.found && id in w.found[a.task])))
  {
  }

  /** What a task is about to write or send is about sessions that exist or existed, and what a check found
      still has its token. */
  ghost predicate TaskHonest(w: World, k: TaskId)
    requires k in w.sessions.tasks
  {
    match w.sessions.tasks[k]
    case KickUpdate(id, _) => id < w.sessions.nextId
    case SweepUpdate(ids) => forall id :: id in ids ==> id < w.sessions.nextId
    case CheckExpire(token) =>
      k in w.found ==> forall id :: id in w.found[k] ==>
        id < w.sessions.nextId && (id in w.sessions.rows ==> w.sessions.rows[id].token == token)
    case _ => true
  }

  ghost predicate Honest(w: World) {
    && Valid(w) && SI.Valid(w.sessions)
    && (forall k :: k in w.sessions.tasks ==> TaskHonest(w, k))
    && (forall n :: n in w.owed ==> SI.Closed(w.sessions, n.session))
    && (forall h :: h in w.handlers && w.handlers[h].Connected? && Hears(w.hub, w.handlers[h].channel)
                    ==> SI.Closed(w.sessions, w.handlers[h].session))
  }

  lemma StatementKeepsClosed(w: World, a: SI.Action)
    ensures forall id :: SI.Closed(w.sessions, id) ==> SI.Closed(Next(w, Statement(a)).sessions, id)
  {
    forall id | SI.Closed(w.sessions, id) ensures SI.Closed(Next(w, Statement(a)).sessions, id) {
      SI.NextKeepsClosed(w.sessions, a, id);
    }
  }

  lemma TaskStaysHonest(w: World, a: SI.Action, k: TaskId)
    requires Honest(w) && k in Next(w, Statement(a)).sessions.tasks
    ensures TaskHonest(Next(w, Statement(a)), k)
  {
    assert k in w.sessions.tasks ==> TaskHonest(w, k);
  }

  /** What becomes due is about a session that the same statement has closed, or found closed. */
  lemma DueIsClosed(w: World, a: SI.Action, n: Notice)
    requires Honest(w) && n in Due(w, a)
    ensures SI.Closed(Next(w, Statement(a)).sessions, n.session)
  {
    assert TaskHonest(w, a.task);
  }

  lemma StatementKeepsHonest(w: World, a: SI.Action)
    requires Honest(w)
    ensures Honest(Next(w, Statement(a)))
  {
    var w' := Next(w, Statement(a));
    NextKeepsValid(w, Statement(a));
    SI.NextKeepsValid(w.sessions, a);
    StatementKeepsClosed(w, a);
    forall k | k in w'.sessions.tasks ensures TaskHonest(w', k) {
      TaskStaysHonest(w, a, k);
    }
    forall n | n in w'.owed ensures SI.Closed(w'.sessions, n.session) {
      if n !in w.owed {
        DueIsClosed(w, a, n);
      }
    }
  }

  lemma HubStepKeepsHonest(w: World, s: Step)
    requires Honest(w) && !s.Statement?
    ensures Honest(Next(w, s))
  {
    var w' := Next(w, s);
    NextKeepsValid(w, s);
    forall k | k in w'.sessions.tasks ensures TaskHonest(w', k) {
      assert TaskHonest(w, k);
    }
    forall h | h in w'.handlers && w'.handlers[h].Connected? && Hears(w'.hub, w'.handlers[h].channel)
      ensures SI.Closed(w'.sessions, w'.handlers[h].session)
    {
      if h in w.handlers && w.handlers[h].Connected? {
        HearsAfter(w, s, w.handlers[h].channel, w.handlers[h].session);
      } else {
        ConnectsUnheard(w, h);
      }
    }
  }

  const EMPTY := World(SI.System(map[], 1, map[]), Hub.NO_CONNECTIONS, map[], {}, map[])

  lemma {:induction false} RunKeepsHonest(w: World, run: seq<Step>)
    requires Honest(w)
    ensures Honest(Run(w, run))
    decreases |run|
  {
    if run != [] {
      if run[0].Statement? {
        StatementKeepsHonest(w, run[0].action);
      } else {
        HubStepKeepsHonest(w, run[0]);
      }
      RunKeepsHonest(Next(w, run[0]), run[1..]);
    }
  }

  /** No false alarm, in any run: a connection that hears anything belongs to a session that is closed. */
  lemma HearsOnlyIfClosed(run: seq<Step>, h: HandlerId)
    requires var w := Run(EMPTY, run); h in w.handlers && w.handlers[h].Connected?
    ensures var w := Run(EMPTY, run);
            && Valid(w)
            && (Hears(w.hub, w.handlers[h].channel) ==> SI.Closed(w.sessions, w.handlers[h].session))
  {
    RunKeepsHonest(EMPTY, run);
  }

  /** Once a session is closed no handler is let in for it any more, in any run. */
  lemma {:induction false} ClosedIsNotAdmitted(w: World, run: seq<Step>, id: SessionId, h: HandlerId)
    requires SI.Closed(w.sessions, id)
    requires h in w.handlers ==> w.handlers[h].Gone? || w.handlers[h].session != id
    ensures var end := Run(w, run); h in end.handlers ==> end.handlers[h].Gone? || end.handlers[h].session != id
    decreases |run|
  {
    if run != [] {
      StaysClosed(w, [run[0]], id);
      assert Run(w, [run[0]]) == Run(Next(w, run[0]), []);
      ClosedIsNotAdmitted(Next(w, run[0]), run[1..], id, h);
    }
  }

  // ----- a session that is closed, with nothing under way -----

  /** No task has a write that sends a notice of the session still to do, or the notice itself. */
  ghost predicate Quiet(w: World, id: SessionId) {
    && (forall k :: k in w.sessions.tasks ==>
          var t := w.sessions.tasks[k];
          && !(t.KickUpdate? && t.id == id) && !(t.SweepUpdate? && id in t.ids)
          && !(t.CheckExpire? && k in w.found && id in w.found[k]))
    && (forall n :: n in w.owed ==> n.session != id)
  }

  lemma QuietStays(w: World, s: Step, id: SessionId)
    requires Quiet(w, id) && SI.Closed(w.sessions, id)
    ensures Quiet(Next(w, s), id) && SI.Closed(Next(w, s).sessions, id)
  {
  }

  /** Once the session is closed and nothing of it is under way, a connection that has not heard of it
      never will, whatever runs: nobody kicks, sweeps or expires a session that is not active. */
  lemma {:induction false} NeverHears(w: World, run: seq<Step>, id: SessionId, c: Hub.ChannelId)
    requires Valid(w) && OnlyFor(w.hub, c, id) && !Hears(w.hub, c)
    requires Quiet(w, id) && SI.Closed(w.sessions, id)
    ensures Valid(Run(w, run)) && c in Run(w, run).hub.buffers
    ensures SI.Closed(Run(w, run).sessions, id) && !Hears(Run(w, run).hub, c)
    decreases |run|
  {
    if run != [] {
      HearsAfter(w, run[0], c, id);
      QuietStays(w, run[0], id);
      NeverHears(Next(w, run[0]), run[1..], id, c);
    }
  }

  /** A logout closes the session and tells its connection nothing, then or later. */
  lemma LogoutIsNotHeard(w: World, h: HandlerId, k: TaskId, now: Instant, run: seq<Step>)
    requires Valid(w) && h in w.handlers && w.handlers[h].Connected? && !Hears(w.hub, w.handlers[h].channel)
    requires var id := w.handlers[h].session;
             && Quiet(w, id) && id in w.sessions.rows && id < w.sessions.nextId
             && k in w.sessions.tasks && w.sessions.tasks[k] == SI.LogoutUpdate(w.sessions.rows[id].token)
    ensures var end := Run(Next(w, Statement(SI.Advance(k, now))), run);
            && Valid(end) && w.handlers[h].channel in end.hub.buffers
            && SI.Closed(end.sessions, w.handlers[h].session) && !Hears(end.hub, w.handlers[h].channel)
  {
    var s := Statement(SI.Advance(k, now));
    NextKeepsValid(w, s);
    NeverHears(Next(w, s), run, w.handlers[h].session, w.handlers[h].channel);
  }

  // ----- a kick and a connection -----

  /** The update and the lookup of the kick are both done. */
  ghost predicate LookedUp(w: World, k: TaskId) {
    && k in w.sessions.tasks && w.sessions.tasks[k] == SI.Finished
    && (forall n :: n in w.owed ==> n.task != k)
  }

  /** The kick has found the session active; it has its update to do, or has done it and has its lookup
      in the hub to do. */
  ghost predicate Kicking(w: World, k: TaskId, id: SessionId) {
    && id < w.sessions.nextId && k in w.sessions.tasks
    && (|| (&& w.sessions.tasks[k].KickUpdate? && w.sessions.tasks[k].id == id
            && forall n :: n in w.owed ==> n.task != k)
        || (&& w.sessions.tasks[k] == SI.Finished && SI.Closed(w.sessions, id) && Notice(k, id, "kicked") in w.owed
            && forall n :: n in w.owed && n.task == k ==> n == Notice(k, id, "kicked")))
  }

  lemma LookedUpStays(w: World, s: Step, k: TaskId)
    requires LookedUp(w, k)
    ensures LookedUp(Next(w, s), k)
  {
  }

  lemma {:induction false} LooksUpOnce(w: World, run: seq<Step>, k: TaskId, i: nat)
    requires LookedUp(w, k) && i <= |run|
    ensures LookedUp(Run(w, run[..i]), k)
    decreases i
  {
    if i > 0 {
      LookedUpStays(w, run[0], k);
      LooksUpOnce(Next(w, run[0]), run[1..], k, i - 1);
      assert run[..i][1..] == run[1..][..i - 1];
    }
  }

  lemma {:induction false} GoneForGood(w: World, run: seq<Step>, id: SessionId)
    requires id < w.sessions.nextId && id !in w.sessions.rows
    ensures id !in Run(w, run).sessions.rows
    decreases |run|
  {
    if run != [] {
      GoneForGood(Next(w, run[0]), run[1..], id);
    }
  }

  lemma KickingStep(w: World, s: Step, k: TaskId, id: SessionId)
    requires Kicking(w, k, id)
    ensures var w' := Next(w, s);
            || Kicking(w', k, id)
            || (id < w'.sessions.nextId && id !in w'.sessions.rows)
            || (LookedUp(w', k) && SI.Closed(w'.sessions, id) && LooksUpFor(w, s, id) && s.notice.task == k)
  {
    if s.Statement? && s.action.Advance? && s.action.task == k && w.sessions.tasks[k].KickUpdate? {
      assert Due(w, s.action) == if id in w.sessions.rows then {Notice(k, id, "kicked")} else {};
    } else if s.Statement? {
      assert forall n :: n in Due(w, s.action) ==> n.task != k;
    }
  }

  lemma {:induction false} StaysClosed(w: World, run: seq<Step>, id: SessionId)
    requires SI.Closed(w.sessions, id)
    ensures SI.Closed(Run(w, run).sessions, id)
    decreases |run|
  {
    if run != [] {
      StaysClosed(Next(w, run[0]), run[1..], id);
    }
  }

  /** If the row stays, the kick is under way until it has looked the session up, once. */
  lemma {:induction false} KickLooksUp(w: World, run: seq<Step>, k: TaskId, id: SessionId) returns (i: nat)
    requires Kicking(w, k, id) && id in Run(w, run).sessions.rows
    ensures Kicking(Run(w, run), k, id) || (LookedUp(Run(w, run), k) && SI.Closed(Run(w, run).sessions, id))
    ensures LookedUp(Run(w, run), k) ==>
              i < |run| && LooksUpFor(Run(w, run[..i]), run[i], id) && run[i].notice.task == k
    decreases |run|
  {
    i := 0;
    if run != [] {
      var w', rest := Next(w, run[0]), run[1..];
      KickingStep(w, run[0], k, id);
      assert Run(w, run[..0]) == w;
      if Kicking(w', k, id) {
        i := KickLooksUp(w', rest, k, id);
        i := i + 1;
        assert i < |run| ==> run[..i][1..] == rest[..i - 1];
      } else if id !in w'.sessions.rows {
        GoneForGood(w', rest, id);
      } else {
        StaysClosed(w', rest, id);
        LooksUpOnce(w', rest, k, |rest|);
        assert rest[..|rest|] == rest;
      }
    }
  }

  lemma UntouchedParts(x: seq<Hub.HubStep>, y: seq<Hub.HubStep>, session: SessionId)
    ensures Hub.Untouched(x + y, session) <==> Hub.Untouched(x, session) && Hub.Untouched(y, session)
  {
    assert forall j :: 0 <= j < |x| ==> x[j] == (x + y)[j];
    assert forall j :: 0 <= j < |y| ==> y[j] == (x + y)[|x| + j];
  }

  lemma {:induction false} UntouchedBefore(w: World, run: seq<Step>, i: nat, session: SessionId)
    requires i <= |run| && Hub.Untouched(HubSteps(w, run), session)
    ensures Hub.Untouched(HubSteps(w, run[..i]), session)
    decreases i
  {
    if i > 0 {
      var w', rest := Next(w, run[0]), run[1..];
      UntouchedParts(HubStepOf(w, run[0]), HubSteps(w', rest), session);
      UntouchedBefore(w', rest, i - 1, session);
      UntouchedParts(HubStepOf(w, run[0]), HubSteps(w', rest[..i - 1]), session);
      assert run[..i][1..] == rest[..i - 1];
    }
  }

  lemma {:induction false} IdsNeverReturn(w: World, run: seq<Step>, id: SessionId)
    requires id < w.sessions.nextId
    ensures id < Run(w, run).sessions.nextId
    decreases |run|
  {
    if run != [] {
      IdsNeverReturn(Next(w, run[0]), run[1..], id);
    }
  }

  /** Nobody but this kick looks the session up. */
  ghost predicate OnlyKick(w: World, run: seq<Step>, k: TaskId, id: SessionId) {
    forall i :: 0 <= i < |run| && LooksUpFor(Run(w, run[..i]), run[i], id) ==> run[i].notice.task == k
  }

  /** A handler was let in, and a kick has found the session active: whatever runs until both are done,
      the session ends closed, and its connection hears of that exactly if the kick had not yet looked it
      up when the connection registered (given one connection and one closing of the session). */
  lemma KickHeardIff(w: World, first: seq<Step>, h: HandlerId, second: seq<Step>, k: TaskId, id: SessionId)
    requires Kicking(w, k, id)
    requires var m := Run(w, first);
             && Valid(m) && h in m.handlers && m.handlers[h] == Admitted(id)
             && Hub.Untouched(HubSteps(Next(m, Connect(h)), second), id)
             && OnlyKick(Next(m, Connect(h)), second, k, id)
    requires var end := Run(Next(Run(w, first), Connect(h)), second);
             LookedUp(end, k) && id in end.sessions.rows
    ensures var m := Run(w, first);
            var end := Run(Next(m, Connect(h)), second);
            && Valid(end) && m.hub.nextChannel in end.hub.buffers && SI.Closed(end.sessions, id)
            && (Hears(end.hub, m.hub.nextChannel) <==> !LookedUp(m, k))
  {
    var m := Run(w, first);
    var open := Next(m, Connect(h));
    if id !in m.sessions.rows {
      IdsNeverReturn(w, first, id);
      GoneForGood(open, second, id);
    }
    var i := KickLooksUp(w, first, k, id);
    HearsIff(m, h, second);
    if LookedUp(m, k) {
      LookedUpStays(m, Connect(h), k);
      forall j: nat | j < |second| ensures !NoticedAt(open, second, j, id) {
        LooksUpOnce(open, second, k, j);
      }
      StaysClosed(open, second, id);
    } else {
      var j := KickLooksUp(open, second, k, id);
      UntouchedBefore(open, second, j, id);
      assert NoticedAt(open, second, j, id);
    }
  }

  // ----- such a run -----

  const KICK_BEGUN := World(
    SI.System(map[1 := Row("t", Active, "", 0, 0)], 2, map[7 := SI.KickLookup(1, "root")]),
    Hub.NO_CONNECTIONS, map[], {}, map[])

  /** A handler is let in, the session is kicked and its notice finds nobody, then the handler connects. */
  const KICKED_UNHEARD: seq<Step> := [
    Admit(1, 1), Statement(SI.Advance(7, 5)), Statement(SI.Advance(7, 6)), LookUp(Notice(7, 1, "kicked")), Connect(1)]

  const KICKED := SI.System(map[1 := Row("t", Kicked, "root", 0, 0)], 2, map[7 := SI.Finished])

  const KICKED_AND_CONNECTED := World(
    KICKED, Hub.Next(Hub.NO_CONNECTIONS, Hub.Register(1)), map[], {}, map[1 := Connected(1, 1)])

  lemma Unfold(w: World, run: seq<Step>, i: nat)
    requires i < |run|
    ensures Run(w, run[i..]) == Run(Next(w, run[i]), run[i + 1..])
  {
    assert run[i..][1..] == run[i + 1..];
  }

  lemma KickedBeforeConnecting()
    ensures Next(Next(Next(KICK_BEGUN, KICKED_UNHEARD[0]), KICKED_UNHEARD[1]), KICKED_UNHEARD[2])
         == World(KICKED, Hub.NO_CONNECTIONS, map[], {Notice(7, 1, "kicked")}, map[1 := Admitted(1)])
  {
    var w2 := Next(Next(KICK_BEGUN, KICKED_UNHEARD[0]), KICKED_UNHEARD[1]);
    assert w2 == World(SI.System(KICK_BEGUN.sessions.rows, 2, map[7 := SI.KickUpdate(1, "root")]), Hub.NO_CONNECTIONS,
                       map[], {}, map[1 := Admitted(1)]);
  }

  lemma NoticeFindsNobody()
    ensures var w := World(KICKED, Hub.NO_CONNECTIONS, map[], {Notice(7, 1, "kicked")}, map[1 := Admitted(1)]);
            Next(Next(w, KICKED_UNHEARD[3]), KICKED_UNHEARD[4]) == KICKED_AND_CONNECTED
  {
    var w := World(KICKED, Hub.NO_CONNECTIONS, map[], {Notice(7, 1, "kicked")}, map[1 := Admitted(1)]);
    HubAfter(w, KICKED_UNHEARD[3]);
    assert Hub.NO_CONNECTIONS.lookedUp - {7} == Hub.NO_CONNECTIONS.lookedUp;
    var w' := Next(w, KICKED_UNHEARD[3]);
    assert w' == World(KICKED, Hub.NO_CONNECTIONS, map[], {}, map[1 := Admitted(1)]);
    HubAfter(w', KICKED_UNHEARD[4]);
  }

  lemma AfterKickedUnheard()
    ensures Run(KICK_BEGUN, KICKED_UNHEARD) == KICKED_AND_CONNECTED
  {
    var a := KICKED_UNHEARD;
    var w2 := Next(Next(KICK_BEGUN, a[0]), a[1]);
    var w3 := Next(w2, a[2]);
    KickedBeforeConnecting();
    NoticeFindsNobody();
    Unfold(KICK_BEGUN, a, 0);
    Unfold(Next(KICK_BEGUN, a[0]), a, 1);
    Unfold(w2, a, 2);
    Unfold(w3, a, 3);
    Unfold(Next(w3, a[3]), a, 4);
    assert a[0..] == a && a[5..] == [];
  }

  lemma KickedIsSettled()
    ensures var w := KICKED_AND_CONNECTED;
            && Valid(w) && OnlyFor(w.hub, 1, 1) && !Hears(w.hub, 1) && Quiet(w, 1) && SI.Closed(w.sessions, 1)
  {
    assert KICKED_AND_CONNECTED.hub == Hub.HubState(map[1 := 1], map[1 := []], map[1 := []], 2, map[]);
  }

  /** The kicked session keeps a connection that never hears of it, whatever runs afterwards. */
  lemma KickedAndNeverHears(run: seq<Step>)
    ensures Run(KICK_BEGUN, KICKED_UNHEARD) == KICKED_AND_CONNECTED
    ensures var end := Run(KICKED_AND_CONNECTED, run); Valid(end) && 1 in end.hub.buffers && !Hears(end.hub, 1)
  {
    AfterKickedUnheard();
    KickedIsSettled();
    NeverHears(KICKED_AND_CONNECTED, run, 1, 1);
  }
}
