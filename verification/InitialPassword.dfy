/** The generated admin password, kept in the memory of one process and, as a hash, in the user table.
    `matches(hash, password)` stands for the password hash comparison; usernames identify users. */
module InitialPassword {
  import opened Common

  const ADMIN := "admin"

  const ADMIN_NAME := "System Administrator"

  datatype Source = Local | Ldap

  datatype User = User(
    passwordHash: string,
    displayName: string,
    disabled: bool,
    source: Source,
    initialPasswordUsed: bool,
    totpEnabled: bool)

  /** `memory` is the password held by the running process, empty when it holds none. */
  datatype System = System(users: map<string, User>, memory: string)

  const FRESH := System(map[], "")

  type Matches = (string, string) -> bool

  datatype Event =
    | Restart(password: string, hash: string)
    | Login(username: string, password: string, ldapName: Option<string>, totpRequired: bool, signs: bool)
    | ChangePassword(username: string, oldPassword: string, newHash: Option<string>)
    | CreateUser(username: string, displayName: string, hash: string, disabled: bool)
    | UpdateUser(username: string, displayName: string, disabled: bool)
    | DeleteUser(username: string)
    | SetTotp(username: string, enabled: bool)

  /** `initialPassword` is empty unless this login is the one that is handed it. */
  datatype Reply = Refused | NeedsCode | LoggedIn(initialPassword: string)

  /** The hash written at start-up is the hash of the password generated then. */
  ghost predicate Genuine(matches: Matches, e: Event) {
    e.Restart? ==> e.password != "" && matches(e.hash, e.password)
  }

  // ----- start-up -----

  /** The table after start-up: the admin is created, or given a new hash while its first password is unused. */
  function Bootstrapped(users: map<string, User>, hash: string): map<string, User> {
    if ADMIN !in users then users[ADMIN := User(hash, ADMIN_NAME, false, Local, false, false)]
    else if !users[ADMIN].initialPasswordUsed then users[ADMIN := users[ADMIN].(passwordHash := hash)]
    else users
  }

  function Restarted(s: System, password: string, hash: string): System {
    var users := Bootstrapped(s.users, hash);
    System(users, if users[ADMIN].initialPasswordUsed then "" else password)
  }

  // ----- login -----

  /** Who logs in (`ldapName` is the display name from a directory that accepts the password): the local
      account if the password fits, else the directory's, unless a local account has the name. An account
      needs a name. */
  function Identified(users: map<string, User>, matches: Matches, e: Event): Option<User>
    requires e.Login?
  {
    if e.username in users && matches(users[e.username].passwordHash, e.password) then Some(users[e.username])
    else if e.ldapName.None? || e.username == "" then None
    else if e.username !in users then Some(User("", e.ldapName.value, false, Ldap, true, false))
    else if users[e.username].source == Ldap then Some(Renamed(users[e.username], e.ldapName.value))
    else None
  }

  /** The directory's display name replaces the stored one unless it is empty. */
  function Renamed(user: User, name: string): User {
    if name != "" && name != user.displayName then user.(displayName := name) else user
  }

  function LoginReply(s: System, matches: Matches, e: Event): Reply
    requires e.Login?
  {
    var user := Identified(s.users, matches, e);
    if user.None? || user.value.disabled then Refused
    else if e.totpRequired && user.value.totpEnabled then NeedsCode
    else if !e.signs then Refused
    else if e.username == ADMIN && !user.value.initialPasswordUsed && s.memory != "" then LoggedIn(s.memory)
    else LoggedIn("")
  }

  function AfterLogin(s: System, matches: Matches, e: Event): System
    requires e.Login?
  {
    var user := Identified(s.users, matches, e);
    if user.None? then s
    else
      var users := s.users[e.username := user.value];
      var reply := LoginReply(s, matches, e);
      if reply.LoggedIn? && reply.initialPassword != ""
      then System(users[e.username := user.value.(initialPasswordUsed := true)], "")
      else System(users, s.memory)
  }

  /** Who is let in, and who is asked for a code, on the table and the arguments. */
  lemma LoginReplyIff(s: System, matches: Matches, e: Event)
    requires e.Login?
    ensures var known, reply := e.username in s.users, LoginReply(s, matches, e);
            var local := known && matches(s.users[e.username].passwordHash, e.password);
            var directory := e.ldapName.Some? && e.username != "" && (known ==> s.users[e.username].source == Ldap);
            var enabled := known ==> !s.users[e.username].disabled;
            var code := e.totpRequired && known && s.users[e.username].totpEnabled;
            && (reply.LoggedIn? <==> (local || directory) && enabled && !code && e.signs)
            && (reply == NeedsCode <==> (local || directory) && enabled && code)
            && (reply.LoggedIn? && reply.initialPassword != "" <==>
                  && reply.LoggedIn? && e.username == ADMIN && ADMIN in s.users
                  && !s.users[ADMIN].initialPasswordUsed && s.memory != "")
            && (reply.LoggedIn? && reply.initialPassword != "" ==> reply.initialPassword == s.memory)
  {
  }

  function Step(s: System, matches: Matches, e: Event): System {
    match e
    case Restart(password, hash) => Restarted(s, password, hash)
    case Login(_, _, _, _, _) => AfterLogin(s, matches, e)
    case ChangePassword(name, oldPassword, newHash) =>
      if name !in s.users || !matches(s.users[name].passwordHash, oldPassword) || newHash.None? then s
      else s.(users := s.users[name := s.users[name].(passwordHash := newHash.value, initialPasswordUsed := true)])
    case CreateUser(name, displayName, hash, disabled) =>
      if name == "" || name in s.users then s
      else s.(users := s.users[name := User(hash, displayName, disabled, Local, true, false)])
    case UpdateUser(name, displayName, disabled) =>
      if name !in s.users then s
      else s.(users := s.users[name := s.users[name].(displayName := displayName, disabled := disabled)])
    case DeleteUser(name) => if name == ADMIN then s else s.(users := s.users - {name})
    case SetTotp(name, enabled) =>
      if name in s.users then s.(users := s.users[name := s.users[name].(totpEnabled := enabled)]) else s
  }

  function Run(s: System, matches: Matches, run: seq<Event>): System
    decreases |run|
  {
    if run == [] then s else Run(Step(s, matches, run[0]), matches, run[1..])
  }

  /** What anyone may ask for: the password, while it is unused and this process holds it. */
  function Available(s: System): Option<string> {
    if ADMIN !in s.users || s.users[ADMIN].initialPasswordUsed || s.memory == "" then None else Some(s.memory)
  }

  // ----- what every run keeps -----

  ghost predicate Inv(s: System, matches: Matches) {
    && (ADMIN in s.users && !s.users[ADMIN].initialPasswordUsed ==> s.users[ADMIN].source == Local)
    && (s.memory != "" ==> ADMIN in s.users)
    && (s.memory != "" && !s.users[ADMIN].initialPasswordUsed ==> matches(s.users[ADMIN].passwordHash, s.memory))
  }

  lemma StepKeepsInv(s: System, matches: Matches, e: Event)
    requires Inv(s, matches) && Genuine(matches, e)
    ensures Inv(Step(s, matches, e), matches)
  {
  }

  lemma {:induction false} RunKeepsInv(s: System, matches: Matches, run: seq<Event>)
    requires Inv(s, matches) && forall i :: 0 <= i < |run| ==> Genuine(matches, run[i])
    ensures Inv(Run(s, matches, run), matches)
    decreases |run|
  {
    if run != [] {
      StepKeepsInv(s, matches, run[0]);
      RunKeepsInv(Step(s, matches, run[0]), matches, run[1..]);
    }
  }

  /** Whenever the initial password is available it is the admin's password, restarts included. */
  lemma AvailableMatches(matches: Matches, run: seq<Event>)
    requires forall i :: 0 <= i < |run| ==> Genuine(matches, run[i])
    ensures var s := Run(FRESH, matches, run);
            Available(s).Some? ==> ADMIN in s.users && matches(s.users[ADMIN].passwordHash, Available(s).value)
  {
    RunKeepsInv(FRESH, matches, run);
  }

  predicate Used(s: System) {
    ADMIN in s.users && s.users[ADMIN].initialPasswordUsed
  }

  lemma {:induction false} UsedForGood(s: System, matches: Matches, run: seq<Event>)
    requires Used(s)
    ensures Used(Run(s, matches, run)) && Available(Run(s, matches, run)) == None
    decreases |run|
  {
    if run != [] {
      UsedForGood(Step(s, matches, run[0]), matches, run[1..]);
    }
  }

  predicate HandsOver(s: System, matches: Matches, e: Event) {
    e.Login? && LoginReply(s, matches, e).LoggedIn? && LoginReply(s, matches, e).initialPassword != ""
  }

  /** How many logins of a run are handed the initial password. */
  function HandOvers(s: System, matches: Matches, run: seq<Event>): nat
    decreases |run|
  {
    if run == [] then 0
    else (if HandsOver(s, matches, run[0]) then 1 else 0) + HandOvers(Step(s, matches, run[0]), matches, run[1..])
  }

  /** The login that is handed the password came with the admin's password and is the same password's. */
  lemma HandOverIsGenuine(s: System, matches: Matches, e: Event)
    requires Inv(s, matches) && HandsOver(s, matches, e)
    ensures e.username == ADMIN && ADMIN in s.users && !s.users[ADMIN].initialPasswordUsed
    ensures matches(s.users[ADMIN].passwordHash, e.password)
    ensures matches(s.users[ADMIN].passwordHash, LoginReply(s, matches, e).initialPassword)
    ensures Used(Step(s, matches, e))
  {
  }

  lemma {:induction false} NoneOnceUsed(s: System, matches: Matches, run: seq<Event>)
    requires Inv(s, matches) && Used(s) && forall i :: 0 <= i < |run| ==> Genuine(matches, run[i])
    ensures HandOvers(s, matches, run) == 0
    decreases |run|
  {
    if run != [] {
      UsedForGood(s, matches, [run[0]]);
      assert Run(s, matches, [run[0]]) == Run(Step(s, matches, run[0]), matches, []);
      StepKeepsInv(s, matches, run[0]);
      NoneOnceUsed(Step(s, matches, run[0]), matches, run[1..]);
    }
  }

  /** In any run, restarts included, at most one login is ever handed the initial password. */
  lemma {:induction false} AtMostOneHandOver(s: System, matches: Matches, run: seq<Event>)
    requires Inv(s, matches) && forall i :: 0 <= i < |run| ==> Genuine(matches, run[i])
    ensures HandOvers(s, matches, run) <= 1
    decreases |run|
  {
    if run != [] {
      var s' := Step(s, matches, run[0]);
      StepKeepsInv(s, matches, run[0]);
      if HandsOver(s, matches, run[0]) {
        HandOverIsGenuine(s, matches, run[0]);
        NoneOnceUsed(s', matches, run[1..]);
      } else {
        AtMostOneHandOver(s', matches, run[1..]);
      }
    }
  }

  // ----- the use case as it is written -----

  class UseCase {
    var users: map<string, User>
    var initialAdminPassword: string
    const matches: Matches

    /** A start of the process on an existing table: memory is empty until the admin is set up. */
    constructor (users: map<string, User>, password: string, hash: string, matches: Matches)
      ensures this.matches == matches
      ensures State() == Restarted(System(users, ""), password, hash)
      ensures ADMIN in this.users && this.users[ADMIN].initialPasswordUsed ==> initialAdminPassword == ""
      ensures ADMIN in this.users && !this.users[ADMIN].initialPasswordUsed ==> initialAdminPassword == password
    {
      this.users, initialAdminPassword, this.matches := users, "", matches;
      new;
      BootstrapAdmin(password, hash);
    }

    ghost function State(): System
      reads this
    {
      System(users, initialAdminPassword)
    }

    method BootstrapAdmin(password: string, hash: string)
      requires initialAdminPassword == ""
      modifies this
      ensures State() == Restarted(old(State()), password, hash)
      ensures users.Keys == old(users).Keys + {ADMIN}
      ensures forall u :: u in old(users) && u != ADMIN ==> users[u] == old(users)[u]
      ensures ADMIN !in old(users) ==> users[ADMIN] == User(hash, ADMIN_NAME, false, Local, false, false)
      ensures ADMIN in old(users) ==>
                users[ADMIN] == if old(users)[ADMIN].initialPasswordUsed then old(users)[ADMIN]
                                else old(users)[ADMIN].(passwordHash := hash)
      ensures initialAdminPassword == if users[ADMIN].initialPasswordUsed then "" else password
    {
      if ADMIN !in users {
        users := users[ADMIN := User(hash, ADMIN_NAME, false, Local, false, false)];
      } else if !users[ADMIN].initialPasswordUsed {
        users := users[ADMIN := users[ADMIN].(passwordHash := hash)];
      }
      if !users[ADMIN].initialPasswordUsed {
        initialAdminPassword := password;
      }
    }

    method Authenticate(username: string, password: string, ldapName: Option<string>) returns (user: Option<User>)
      modifies this`users
      ensures user == Identified(old(users), matches, Event.Login(username, password, ldapName, false, false))
      ensures users == if user.Some? then old(users)[username := user.value] else old(users)
      ensures var local := username in old(users) && matches(old(users)[username].passwordHash, password);
              var directory := ldapName.Some? && username != ""
                               && (username in old(users) ==> old(users)[username].source == Ldap);
              && (user.Some? <==> local || directory)
              && (user.Some? && username !in old(users) ==>
                    user.value == User("", ldapName.value, false, Ldap, true, false))
              && (user.Some? && username in old(users) ==>
                    user.value == if !local && ldapName.value != ""
                                  then old(users)[username].(displayName := ldapName.value) else old(users)[username])
    {
      if username in users && matches(users[username].passwordHash, password) {
        assert users[username := users[username]] == users;
        return Some(users[username]);
      }
      if ldapName.None? || username == "" {
        return None;
      }
      if username in users {
        if users[username].source != Ldap {
          return None;
        }
        users := users[username := Renamed(users[username], ldapName.value)];
        return Some(users[username]);
      }
      users := users[username := User("", ldapName.value, false, Ldap, true, false)];
      return Some(users[username]);
    }

    method Login(username: string, password: string, ldapName: Option<string>, totpRequired: bool, signs: bool)
      returns (reply: Reply)
      modifies this
      ensures var e := Event.Login(username, password, ldapName, totpRequired, signs);
              reply == LoginReply(old(State()), matches, e) && State() == Step(old(State()), matches, e)
      ensures var local := username in old(users) && matches(old(users)[username].passwordHash, password);
              var directory := ldapName.Some? && username != ""
                               && (username in old(users) ==> old(users)[username].source == Ldap);
              var enabled := username in old(users) ==> !old(users)[username].disabled;
              var code := totpRequired && username in old(users) && old(users)[username].totpEnabled;
              && (reply.LoggedIn? <==> (local || directory) && enabled && !code && signs)
              && (reply == NeedsCode <==> (local || directory) && enabled && code)
              && (username in old(users) && !local && directory ==>
                    users[username].displayName == if ldapName.value != "" then ldapName.value
                                                   else old(users)[username].displayName)
              && (username in old(users) && (local || !directory) ==>
                    users[username].displayName == old(users)[username].displayName)
              && (username !in old(users) ==> users == if directory then old(users)[username := User(
                                                         "", ldapName.value, false, Ldap, true, false)] else old(users))
      ensures var handed := reply.LoggedIn? && reply.initialPassword != "";
              && (handed <==> && reply.LoggedIn? && username == ADMIN && ADMIN in old(users)
                              && !old(users)[ADMIN].initialPasswordUsed && old(initialAdminPassword) != "")
              && (handed ==> reply.initialPassword == old(initialAdminPassword))
              && initialAdminPassword == (if handed then "" else old(initialAdminPassword))
              && (username in old(users) ==>
                    && users.Keys == old(users).Keys
                    && users[username] == old(users)[username].(
                         displayName := users[username].displayName,
                         initialPasswordUsed := handed || old(users)[username].initialPasswordUsed))
      ensures forall u :: u != username && u in old(users) ==> u in users && users[u] == old(users)[u]
    {
      LoginReplyIff(State(), matches, Event.Login(username, password, ldapName, totpRequired, signs));
      var user := Authenticate(username, password, ldapName);
      if user.None? || user.value.disabled {
        return Refused;
      }
      if totpRequired && user.value.totpEnabled {
        return NeedsCode;
      }
      if !signs {
        return Refused;
      }
      reply := LoggedIn("");
      if username == ADMIN && !user.value.initialPasswordUsed && initialAdminPassword != "" {
        reply := LoggedIn(initialAdminPassword);
        users := users[username := users[username].(initialPasswordUsed := true)];
        initialAdminPassword := "";
      }
    }

    method InitialPassword() returns (password: Option<string>)
      ensures password == Available(State())
      ensures password.Some? <==> ADMIN in users && !users[ADMIN].initialPasswordUsed && initialAdminPassword != ""
      ensures password.Some? ==> password.value == initialAdminPassword
    {
      var used := ADMIN !in users || users[ADMIN].initialPasswordUsed;
      if used || initialAdminPassword == "" {
        return None;
      }
      return Some(initialAdminPassword);
    }

    /** `newHash` is absent when the new password is refused for being blank. */
    method ChangePassword(username: string, oldPassword: string, newHash: Option<string>) returns (changed: bool)
      modifies this
      ensures State() == Step(old(State()), matches, Event.ChangePassword(username, oldPassword, newHash))
      ensures changed <==>
              username in old(users) && matches(old(users)[username].passwordHash, oldPassword) && newHash.Some?
      ensures users == if !changed then old(users)
                       else old(users)[username := old(users)[username].(
                              passwordHash := newHash.value, initialPasswordUsed := true)]
      ensures initialAdminPassword == old(initialAdminPassword)
    {
      if username !in users || !matches(users[username].passwordHash, oldPassword) || newHash.None? {
        return false;
      }
      users := users[username := users[username].(passwordHash := newHash.value, initialPasswordUsed := true)];
      return true;
    }

    /** `hash` is absent when the password is refused for being blank. */
    method CreateUser(username: string, displayName: string, hash: Option<string>, disabled: bool)
      returns (created: bool)
      modifies this`users
      ensures created <==> hash.Some? && username != "" && username !in old(users)
      ensures users == if created
                       then old(users)[username := User(hash.value, displayName, disabled, Local, true, false)]
                       else old(users)
      ensures hash.Some? ==>
                State() == Step(old(State()), matches, Event.CreateUser(username, displayName, hash.value, disabled))
    {
      if hash.None? || username == "" || username in users {
        return false;
      }
      users := users[username := User(hash.value, displayName, disabled, Local, true, false)];
      return true;
    }

    method UpdateUser(username: string, displayName: string, disabled: bool) returns (updated: bool)
      modifies this`users
      ensures updated <==> username in old(users)
      ensures users == if updated then old(users)[username := old(users)[username].(
                                                    displayName := displayName, disabled := disabled)]
                       else old(users)
      ensures State() == Step(old(State()), matches, Event.UpdateUser(username, displayName, disabled))
    {
      if username !in users {
        return false;
      }
      users := users[username := users[username].(displayName := displayName, disabled := disabled)];
      return true;
    }

    /** Nobody deletes themselves, and nobody the admin. */
    method DeleteUser(username: string, current: string) returns (deleted: bool)
      modifies this`users
      ensures deleted <==> username in old(users) && username != current && username != ADMIN
      ensures users == if deleted then old(users) - {username} else old(users)
      ensures username != current ==> State() == Step(old(State()), matches, Event.DeleteUser(username))
    {
      if username == current || username !in users || username == ADMIN {
        assert username !in users ==> users - {username} == users;
        return false;
      }
      users := users - {username};
      return true;
    }

    /** Switching codes on or off for a user. */
    method SetTotp(username: string, enabled: bool) returns (found: bool)
      modifies this`users
      ensures found <==> username in old(users)
      ensures users == if found then old(users)[username := old(users)[username].(totpEnabled := enabled)]
                       else old(users)
      ensures State() == Step(old(State()), matches, Event.SetTotp(username, enabled))
    {
      if username !in users {
        return false;
      }
      users := users[username := users[username].(totpEnabled := enabled)];
      return true;
    }
  }
}
