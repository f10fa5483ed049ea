/** The session operations in the form the service has them: look a row up, branch, write a
    statement, notify the live connection. Each is proved to be one step of the run model and to do
    to the hub exactly what it should. */
module SessionService {
  import opened Common
  import opened Sessions
  import Hub

  datatype SessionError = Unauthorized | NotFound | NotActive

  class Service {
    var rows: Rows
    var nextId: SessionId
    const hub: Hub.SessionHub
    ghost var log: seq<Entry>

    constructor ()
      ensures State() == EMPTY && fresh(hub) && hub.State() == Hub.NO_CONNECTIONS
    {
      rows, nextId, log := map[], 1, [];
      hub := new Hub.SessionHub();
    }

    ghost function State(): Store
      reads this
    {
      Store(rows, nextId, log)
    }

    ghost predicate Ready()
      reads this, hub
    {
      Valid(State()) && Hub.Valid(hub.State())
    }

    method FindByToken(token: string) returns (found: Option<SessionId>)
      ensures found.Some? <==> HasToken(rows, token)
      ensures found.Some? ==> found.value in rows && rows[found.value].token == token
    {
      if id :| id in rows && rows[id].token == token {
        return Some(id);
      }
      return None;
    }

    /** The insert needs the user, and fails on the unique column if the token already has a row. */
    method CreateSession(token: string, userExists: bool, now: Instant) returns (created: bool)
      requires Ready()
      modifies this
      ensures Ready() && hub.State() == old(hub.State())
      ensures created <==> userExists && !HasToken(old(rows), token)
      ensures State() == if userExists then Step(old(State()), Login(token, now)) else old(State())
      ensures rows == if created then old(rows)[old(nextId) := Row(token, Active, "", now, now)] else old(rows)
      ensures nextId == if created then old(nextId) + 1 else old(nextId)
      ensures nextId == if created then old(nextId) + 1 else old(nextId)
    {
      StepKeepsValid(State(), Login(token, now));
      if !userExists {
        return false;
      }
      var existing := FindByToken(token);
      if existing.Some? {
        return false;
      }
      log := log + [LoggedIn(nextId, token, now)];
      rows := Inserted(rows, nextId, token, now);
      nextId := nextId + 1;
      return true;
    }

    method CheckSession(token: string, now: Instant) returns (accepted: bool)
      requires Ready()
      modifies this, hub
      ensures Ready() && State() == Step(old(State()), Check(token, now))
      ensures accepted == Accepts(old(rows), token, now)
      ensures rows.Keys == old(rows).Keys
      ensures forall id :: id in rows && rows[id].token != token ==> rows[id] == old(rows)[id]
      ensures forall id :: id in rows && rows[id].token == token && accepted
                           ==> rows[id] == old(rows)[id].(lastAccess := now)
      ensures forall id :: id in rows && rows[id].token == token && !accepted
                           ==> rows[id] == if old(rows)[id].status != Active then old(rows)[id]
                                           else old(rows)[id].(status := Expired, lastAccess := now)
      ensures forall id :: id in rows && old(rows)[id].status != rows[id].status
                           ==> hub.State() == Hub.Notified(old(hub.State()), id, "expired")
      ensures (forall id :: id in rows ==> old(rows)[id].status == rows[id].status) ==> hub.State() == old(hub.State())
      ensures forall id :: id in rows && old(rows)[id].status != rows[id].status ==>
                hub.buffers == if id in old(hub.channels) && old(hub.buffers)[old(hub.channels)[id]] == []
                               then old(hub.buffers)[old(hub.channels)[id] := ["expired"]] else old(hub.buffers)
    {
      StepKeepsValid(State(), Check(token, now));
      assert Unique(rows);
      var session := FindByToken(token);
      log := log + [Checked(token, Accepts(rows, token, now), now)];
      if session.None? {
        TouchOfUnknown(rows, token, now);
        return true;
      }
      var row := rows[session.value];
      OneRowDecides(rows, session.value, now);
      if row.status != Active {
        ExpireOfInactive(rows, token, now);
        return false;
      }
      if now - row.lastAccess > IDLE_TIMEOUT {
        rows := Expire(rows, token, now);
        Hub.NotifiedFillsOneChannel(hub.State(), session.value, "expired");
        hub.Notify(session.value, "expired");
        assert rows[session.value].status == Expired;
        return false;
      }
      rows := Touch(rows, token, now);
      return true;
    }

    /** `tokenHash` stands for the digest of the raw token. Logging out notifies nobody. */
    method LogoutSession(rawToken: string, tokenHash: string -> string, now: Instant)
      requires Ready()
      modifies this
      ensures Ready() && hub.State() == old(hub.State())
      ensures State() == if rawToken == "" then old(State()) else Step(old(State()), Logout(tokenHash(rawToken), now))
      ensures rawToken == "" ==> rows == old(rows)
      ensures rows.Keys == old(rows).Keys && nextId == old(nextId)
      ensures rawToken != "" ==> forall id :: id in rows ==>
                rows[id] == if old(rows)[id].token == tokenHash(rawToken) && old(rows)[id].status == Active
                            then old(rows)[id].(status := Expired, lastAccess := now) else old(rows)[id]
    {
      if rawToken == "" {
        return;
      }
      StepKeepsValid(State(), Logout(tokenHash(rawToken), now));
      log := log + [LoggedOut(tokenHash(rawToken))];
      rows := Expire(rows, tokenHash(rawToken), now);
    }

    /** `admin` is the caller's name, absent when the request carries no identity. A kicked session that
        has a connection has an event waiting for it afterwards. */
    method KickSession(id: SessionId, admin: Option<string>, now: Instant) returns (error: Option<SessionError>)
      requires Ready()
      modifies this, hub
      ensures Ready()
      ensures State() == if admin.None? then old(State()) else Step(old(State()), Kick(id, admin.value, now))
      ensures error == None <==> admin.Some? && id in old(rows) && old(rows)[id].status == Active
      ensures error == Some(NotActive) <==> admin.Some? && id in old(rows) && old(rows)[id].status != Active
      ensures error == Some(Unauthorized) <==> admin.None?
      ensures rows == if error == None then old(rows)[id := old(rows)[id].(status := Kicked, kickedBy := admin.value)]
                      else old(rows)
      ensures hub.State() == if error == None then Hub.Notified(old(hub.State()), id, "kicked") else old(hub.State())
      ensures hub.channels == old(hub.channels)
      ensures hub.buffers == if && error == None && id in old(hub.channels)
                                && old(hub.buffers)[old(hub.channels)[id]] == []
                             then old(hub.buffers)[old(hub.channels)[id] := ["kicked"]] else old(hub.buffers)
    {
      if admin.None? {
        return Some(Unauthorized);
      }
      StepKeepsValid(State(), Kick(id, admin.value, now));
      if id !in rows {
        return Some(NotFound);
      }
      if rows[id].status != Active {
        return Some(NotActive);
      }
      log := log + [KickedOut(id)];
      rows := KickWrite(rows, id, admin.value);
      Hub.NotifiedFillsOneChannel(hub.State(), id, "kicked");
      hub.Notify(id, "kicked");
      return None;
    }

    method NotifyExpired(ids: set<SessionId>) returns (ghost order: seq<SessionId>)
      requires Hub.Valid(hub.State())
      modifies hub
      ensures Lists(order, ids) && Hub.Valid(hub.State())
      ensures hub.State() == Hub.NotifiedAll(old(hub.State()), order, "expired")
    {
      var pending := InSomeOrder(ids);
      for i := 0 to |pending|
        invariant hub.State() == Hub.NotifiedAll(old(hub.State()), pending[..i], "expired")
        invariant Hub.Valid(hub.State())
      {
        Hub.NotifiedFillsOneChannel(hub.State(), pending[i], "expired");
        assert pending[..i + 1][..i] == pending[..i];
        hub.Notify(pending[i], "expired");
      }
      order := pending;
      assert pending[..|pending|] == pending;
    }

    /** The five-minute job notifies every session it expires, once, and no other. */
    method SweepIdle(now: Instant) returns (ghost order: seq<SessionId>)
      requires Ready()
      modifies this, hub
      ensures Ready() && State() == Step(old(State()), Sweep(now))
      ensures forall id :: id in rows <==> id in old(rows)
      ensures forall id :: id in rows ==>
                rows[id] == if old(rows)[id].status == Active && now - old(rows)[id].lastAccess > IDLE_TIMEOUT
                            then old(rows)[id].(status := Expired) else old(rows)[id]
      ensures Lists(order, StatusChanged(old(rows), rows))
      ensures hub.State() == Hub.NotifiedAll(old(hub.State()), order, "expired")
      ensures hub.channels == old(hub.channels)
      ensures forall id :: id in StatusChanged(old(rows), rows) && id in hub.channels ==>
                var c := hub.channels[id];
                hub.buffers[c] == if old(hub.buffers)[c] == [] then ["expired"] else old(hub.buffers)[c]
      ensures forall c :: c in old(hub.buffers)
                          && (forall id :: id in StatusChanged(old(rows), rows) && id in hub.channels
                                           ==> hub.channels[id] != c)
                          ==> c in hub.buffers && hub.buffers[c] == old(hub.buffers)[c]
    {
      StepKeepsValid(State(), Sweep(now));
      var ids := IdleIds(rows, now - IDLE_TIMEOUT);
      SweptAreIdle(rows, ids);
      rows := ExpireIds(rows, ids);
      ghost var before := hub.State();
      order := NotifyExpired(ids);
      Hub.AllNotifiedHear(before, order, "expired");
    }

    method PurgeBefore(before: Instant, now: Instant)
      requires Ready()
      modifies this
      ensures Ready() && State() == Step(old(State()), Purge(before, now)) && hub.State() == old(hub.State())
      ensures forall id :: id in rows <==> id in old(rows) && old(rows)[id].loginAt >= before
      ensures forall id :: id in rows ==> rows[id] == old(rows)[id]
    {
      StepKeepsValid(State(), Purge(before, now));
      rows := DeleteBefore(rows, before);
    }
  }

  function StatusChanged(was: Rows, rows: Rows): set<SessionId> {
    set id | id in was && id in rows && was[id].status != rows[id].status
  }

  lemma SweptAreIdle(rows: Rows, ids: set<SessionId>)
    requires forall id :: id in ids ==> id in rows && rows[id].status == Active
    ensures StatusChanged(rows, ExpireIds(rows, ids)) == ids
  {
    forall id | id in ids ensures id in StatusChanged(rows, ExpireIds(rows, ids)) {
      assert ExpireIds(rows, ids)[id].status == Expired;
    }
  }
}
