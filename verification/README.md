# Verification of the access, session and token cores

A Dafny 4.11 model of the stateful cores of a service template written in Go: the role-inheritance
graph and the access decision, the session state machine with its idle sweep and live-connection hub,
the self-describing service token, the initial admin password, the settings store, the batched edge
loaders and the audit diff. Verify everything with `dafny verify dfyconfig.toml`.

| file | what it holds |
|---|---|
| Common.dfy | options, results, and "every element once, in some order" for queries and map iteration |
| RoleGraph.dfy | walks, reachability, cycles, and replacing the parents of one role |
| RoleStore.dfy | the tables behind roles, each repository call as one step, acyclicity over whole runs |
| Access.dfy | the access decision, its declarative form, monotonicity and locality |
| Revocation.dfy | what a principal still reaches and may do after something is taken from a role |
| AuthRepo.dfy | the two depth-first searches and the repository calls, with the mutable maps they share |
| Sessions.dfy | session rows, statements, whole runs: erasing the sweep, acceptance as history |
| SessionEvents.dfy | when a session is accepted, told from the events of the run alone |
| SessionService.dfy | the session operations as the service performs them, and what they do to the hub |
| SessionInterleaving.dfy | the same statements interleaved one at a time |
| SweepErasure.dfy | an interleaving with and without its sweeps: exactly when a check would be told something else |
| SweepErasedSafely.dfy | a condition on the real interleaving alone under which it would not |
| Hub.dfy | the hub of buffered channels |
| LiveConnection.dfy | sessions, hub and connection handlers together, step by step: exactly when a connection hears of the end of its session |
| Base64Url.dfy | base64url without padding, big-endian integers, 64-bit words |
| ServiceToken.dfy | generating, reading and expiring a token text |
| ServiceAccounts.dfy | service accounts write by write, and the decision on a presented token |
| InitialPassword.dfy | the generated admin password over runs with restarts |
| InitialPasswordRace.dfy | several logins at once: exactly when more than one is handed the password |
| Settings.dfy | settings as key-value rows, defaults, retention periods |
| EdgeLoader.dfy | the many-to-many and many-to-one loaders |
| ChangedFields.dfy | the audit diff |

Every operation of a class is tied twice: to a step of the run model, on which the theorems are proved,
and to its rows, on which its contract says outright what changes and what each error means.

## What was found

- **The parents edge is mirrored.** The schema declares `edge.To("parents", Role.Type)` without an
  inverse (internal/data/ent/schema/role.go:35), so the generated builders write that edge, and only
  that edge, with `Bidi: true` (internal/data/ent/role_create.go:316, role_update.go:451, 464, 480,
  957, 970, 986). The library that reads the flag is not part of this model; the flag means that both
  directions of an edge are stored and cleared. The tables therefore carry a flag `mirrored`, and the
  results say which case they are about. Directed (as the documentation describes inheritance): the
  cycle check is exact and runs stay acyclic under the condition below. Mirrored (as the builders
  write it): one ordinary inheritance already makes a two-step cycle
  (`MirroredInheritanceCycles`), saving a parent that is already there is refused
  (`MirroredResaveRefused`), and a parent also inherits from its child (`MirroredInheritanceIsMutual`).
- **When every state is acyclic.** `RunAcyclicIff` gives the exact condition, on the arguments of each
  accepted call: directed, a new role names only roles that already exist; mirrored, no parents are
  given at all. Skipping the search for a new role is sound exactly under the first: a role created
  with its own future identifier among its parents becomes its own parent (`SelfNamedRoleCycles`).
- **The sweep and single statements.** Erasing sweeps changes no answer when each operation is one
  step (`SweepChangesNoAnswer`). With statements interleaved it can, and `SweepHarmlessIff` says exactly
  when. At some instant a check of some token would be told something else if and only if one of three
  late writes happens: the update of a sweep reaches a session used within the timeout, because the
  update does not look at the row again (`UpdateAfterTouchChangesAnAnswer`); an accepted check touches a
  session that is open in one of the two runs only, because the touch does not look at the status
  (`TouchAfterUpdateChangesAnAnswer`); or the write of a refused check that is outstanding in one run only
  expires a newer session that was given the same token (`TokenUsedAgainChangesAnAnswer`). A token carries
  its signing second (internal/biz/auth.go:469-473), so a token recurs only between logins of one user in
  the same second, and gets a second row only if the second insert waits until the first row is purged, at
  least a day later; the input shown is such a run. On the real run alone: if no sweep updates a session
  in use, no accepted check touches one that is not active and no token is given twice, the sweep is
  harmless (`SafeRunSweepHarmless`). What survives every interleaving is that a closed session stays
  closed (`LeftActiveForGood`, `LateLookupIsRefused`).
- **Locality in a mirrored store.** Changing the parents of a role that a principal does not reach
  leaves what it reaches alone in a directed store; in a mirrored one exactly if it reaches none of the
  new parents (`ReachUnchangedIff`), and otherwise a denied operation can become allowed
  (`MirroredChangeElsewhereAllows`).
- **Rotation can be undone.** The second write of an account's creation stores the first token again
  without looking. If the account was rotated in between, the first token works and the new one is lost
  (`RotationUndoneByCreation`); a rotated token stays refused exactly if no such write is still to come
  (`StaysLockedOutIff`).
- **Disabling can be undone.** The third write of a creation, made when roles are given, stores the
  description and the disabled flag as they were read after the second write. A disabling in between is
  lost and the token works again (`DisablingUndoneByCreation`). An account that is disabled stays so, whatever
  runs short of an update that enables it, exactly if no creation has read it back too early
  (`DisablingHoldsIff`, `StaysOffIff`).
- **The initial password and logins at once.** With each login one step at most one is handed the
  password (`AtMostOneHandOver`). With the steps of several logins interleaved that holds exactly if no
  login finds the password in memory while another one still holds it (`AtMostOnceIff`), and from a first
  start it can fail: two logins that read the admin before either looks at the memory can both return the
  password (`TwoFirstLoginsBothReturnIt`, `NotAtMostOnce`).
- **Lifetimes wrap.** A lifetime is exact up to 106751 days and for no longer one (`ExpiryExactIff`).
- **Delivery of notices.** A notifier finds a connection exactly if it looks the session up after the
  connection registered and nobody else has registered or unregistered the session since
  (`FoundIffUntouched`, `HeardIffUntouched`). Since a handler looks at the status first and registers
  later, a session can be closed in between. If a kick is what closes it, the connection hears of that
  exactly if the kick had not yet looked the hub up when the connection registered (`KickHeardIff`); and
  if not, it never will, because nobody kicks, sweeps or expires a session that is not active
  (`NeverHears`; `KickedAndNeverHears` is such a run). A logout tells the connection of its session
  nothing at all (`LogoutIsNotHeard`). There is no false alarm: whoever hears anything is connected to a
  session that is closed (`HearsOnlyIfClosed`). A refused check notifies the session it found, so if its
  token was given to a newer session in between, that one is expired and not told (`ClosingOwesNotice`).

## Assumptions

The read and the write connection see the same data, and no database or network call fails for a
reason of its own. In the run theorems about roles, in those of Sessions.dfy about sessions and in those of
InitialPassword.dfy and SessionEvents.dfy about logins and sessions, a repository or service call is one step; SessionInterleaving.dfy,
SweepErasure.dfy, SweepErasedSafely.dfy, ServiceAccounts.dfy, Hub.dfy, LiveConnection.dfy and
InitialPasswordRace.dfy go statement by statement; with nothing in between the two agree
(`SessionInterleaving.AloneIsOneStep`, `InitialPasswordRace.LoginAloneIsOneStep`). Identifiers are handed out in increasing order, are never reused and are never 0. A new row is written before its edge
rows, and foreign keys are checked on the result. Deleting a role drops its edges
(internal/data/ent/migrate/schema.go:219-237). Time never decreases along a run of sessions, and the
clock reading of the fast token check comes first. Hashes, password comparison and text scanning are
parameters; a lemma that needs the digest to be free of collisions, or the scanner to read back
printed integers, says so in its `requires`.

## Model

| member | source | states |
|---|---|---|
| RoleGraph.CycleCheckExact | internal/data/auth.go:394-405 | replacing a role's parents in an acyclic directed graph makes a cycle if and only if some new parent already reaches the role, although the old parents are still there when this is checked |
| RoleGraph.OnlyItselfReaches | internal/data/auth.go:321-338 | nothing but the role itself reaches a role that no edge points at |
| RoleGraph.ClosedKeepsReachable | internal/data/auth.go:591-610 | a set closed under parents contains everything reachable from its members, which is why an exhausted search is complete |
| RoleGraph.MirroredEdgeCycles | internal/data/ent/role_update.go:445-490 | writing any parent in both directions makes a cycle |
| RoleStore.NoErrorMeansNoneReaches | internal/data/auth.go:573-589 | validation passes if and only if the role is new or no proposed parent is or reaches it |
| RoleStore.FirstOffenderIsReported | internal/data/auth.go:573-589 | the first parent that is or reaches the role decides the error: itself, or a cycle |
| RoleStore.RefusedIffCyclic | internal/data/auth.go:394-405 | on an acyclic directed graph new parents are refused if and only if the graph with them would have a cycle |
| RoleStore.CallKeepsValid | internal/data/auth.go:321-405 | every call keeps the foreign keys, the identifier order and, in a mirrored store, symmetry |
| RoleStore.CreateAcyclicIff | internal/data/auth.go:321-338 | creating a role without a search keeps a directed graph acyclic if and only if its parents already exist |
| RoleStore.CallAcyclicIff | internal/data/auth.go:321-405 | one call keeps the graph acyclic if and only if it is refused or made with care |
| RoleStore.RunAcyclicIff | internal/data/auth.go:321-405 | over any run of create, inherit, delete and assign calls every state is acyclic if and only if every accepted call was made with care |
| RoleStore.SelfNamedRoleCycles | internal/data/auth.go:573-589 | a first role that names its own identifier-to-be becomes its own parent |
| RoleStore.MirroredInheritanceCycles | internal/data/ent/role_create.go:310-325 | with the mirrored edge one ordinary inheritance makes a cycle |
| RoleStore.MirroredResaveRefused | internal/data/ent/role_update.go:951-1000 | with the mirrored edge saving a parent that is already there is refused and changes nothing |
| RoleStore.MirroredInheritanceIsMutual | internal/data/ent/role_create.go:310-325 | with the mirrored edge a role reaches exactly the roles that reach it |
| Access.HasPermission | internal/biz/auth.go:441-458 | true if and only if some listed role is Admin or some listed permission matches, at any position of either list |
| Access.MatchesIffCovers | internal/biz/auth.go:445-456 | a permission matches if and only if it is system/*, names the operation, or is a prefix of it followed by a star |
| Access.DecisionIsDeclarative | internal/biz/auth.go:313-329 | on any lists the search may return, in any order, the decision is: a reachable role is Admin or a reachable permission covers the operation |
| Access.AllowedIffSomeRoleAllows | internal/biz/auth.go:313-329 | several roles allow exactly what one of them allows |
| Access.SameRolesSameDecision | internal/data/service_account.go:129-152 | a user and a service account holding the same roles get the same answer |
| Access.AllowedMonotone | internal/biz/auth.go:441-458 | more roles held, parents, grants or permissions never turn an allowed operation into a denied one |
| Access.AddingNeverDenies | internal/data/auth.go:384-405 | creating a role, or saving parents or permissions that include the old ones, denies nothing that was allowed |
| Access.DecisionIsLocal | internal/data/auth.go:548-571 | stores that agree on what the principal reaches give it the same decision |
| Access.ReachUnchangedIff | internal/data/auth.go:394-405 | an accepted change of the parents of an unreachable role leaves what the principal reaches unchanged: always in a directed store, in a mirrored one if and only if no new parent is reachable |
| Access.MirroredChangeElsewhereAllows | internal/data/ent/role_update.go:951-1000 | a mirrored store in which such a change turns a denied operation into an allowed one |
| Access.ChangeElsewhereIsInvisible | internal/data/auth.go:384-405 | changing a role's parents or permissions changes no decision for a principal that does not reach it (mirrored: nor the new parents, a condition that ReachUnchangedIff shows to be exact) |
| Revocation.ReachAfterReplacingIff | internal/data/auth.go:394-405 | after parents are replaced a role is reached if and only if it is in every set that holds where one starts and cannot be left along the edges kept or newly named |
| Revocation.RevokingTakesEffect | internal/data/auth.go:394-405 | a principal that such a set keeps from every Admin role and every covering grant is denied |
| Revocation.RoleWithoutParents | internal/data/auth.go:394-405 | a role whose parents are cleared allows what it grants itself and nothing else |
| Revocation.GrantsAfterAssigning | internal/data/auth.go:384-392 | after assigning permissions a role grants the given ones, every other role what it granted before |
| Revocation.DeletedRoleIsUnreachable | internal/data/auth.go:370-382 | a deleted role is reached by no user and no service account |
| AuthRepo.Repo.RoleReaches | internal/data/auth.go:591-610 | from an empty visited map, true if and only if a path of parents leads to the target, on any finite graph; terminates on cycles; the shared map only gains roles whose parents it also holds |
| AuthRepo.Repo.ValidateRoleInheritance | internal/data/auth.go:573-589 | nothing is reported if and only if the role is new or no parent is or reaches it; otherwise the first one that does, as itself or as a cycle |
| AuthRepo.Repo.CreateRole | internal/data/auth.go:321-338 | the new row, exactly which grants and parent edges there are afterwards, and the exact condition of each error |
| AuthRepo.Repo.SetRoleInheritances | internal/data/auth.go:394-405 | accepted: the role has exactly the given parents and every edge of other roles is as before (mirrored: both directions of the given ones, and edges elsewhere as before); refused: nothing changes; when |
| AuthRepo.Repo.DeleteRole | internal/data/auth.go:370-382 | the role is gone with exactly the edges, grants and assignments that mention it; the exact condition of each error |
| AuthRepo.Repo.AssignRolePermissions | internal/data/auth.go:384-392 | the role grants exactly the given permissions and every other role what it did; refused when |
| AuthRepo.Repo.SetAccountRoles | internal/data/service_account.go:69-87 | an account holds exactly the given roles afterwards and no other principal's roles change; refused when a role does not exist |
| AuthRepo.Repo.CollectRolePermissions | internal/data/auth.go:548-571 | one collection keeps lists and visited map in step, adds only reachable roles, and leaves no parent of what it added behind |
| AuthRepo.Repo.EffectiveFrom | internal/data/auth.go:180-193 | for any starting roles sharing one visited map and any graph: each reachable role exactly once and no other, and exactly the union of their permissions |
| AuthRepo.Repo.EffectivePermissions | internal/data/auth.go:171-194 | the same for the roles of a user |
| AuthRepo.Repo.EffectiveServiceAccountPermissions | internal/data/service_account.go:129-152 | the same for the roles of a service account |
| AuthRepo.Repo.Authorize | internal/biz/auth.go:313-329 | succeeds if and only if the user exists, is enabled and some role assigned to it allows the operation; which error otherwise |
| AuthRepo.Repo.PermitsAccount | internal/biz/service_account.go:190-196 | the last check on a service account holds if and only if some role it holds allows the operation |
| Sessions.SimulationStep | internal/biz/session.go:142-188 | a run with sweeps and the run without stay related through every other operation |
| Sessions.SweepIsInvisible | internal/data/session.go:130-158 | a sweep only takes rows to where the other run already refuses them |
| Sessions.SweepChangesNoAnswer | internal/biz/session.go:251-261 | erasing every sweep from any run leaves every check and its answer the same |
| Sessions.RunMatchesHistory | internal/biz/session.go:140-188 | in every reachable state each row's status and last access are what its history says |
| Sessions.AcceptsIffHistory | internal/biz/session.go:140-157 | a check on an existing row accepts if and only if no kick or logout happened since login and no gap between login, accepted checks and now exceeds one hour |
| SessionEvents.AcceptedIffKeptInUse | internal/biz/session.go:140-188 | over any run after a login, while the row exists, a check accepts if and only if the events since hold no logout with the token, no kick of the session and no hour without a check of it |
| SessionEvents.EndedIsRefused | internal/biz/session.go:167-188 | after a logout with its token or a kick of it every later check of a session refuses |
| SessionEvents.LogRecordsRun | internal/biz/session.go:140-188 | the log of the run theorems grows by one entry for each check and logout and for each login and kick that took place |
| SessionService.Service.CreateSession | internal/data/session.go:42-59 | is the login step; fails exactly when the user does not exist or the token already has a row |
| SessionService.Service.CheckSession | internal/biz/session.go:142-157 | is the check step; its answer; what it does to every row; a connection of the session it expires waits with "expired" unless it had an event, and the hub is left alone when it expires none |
| SessionService.Service.LogoutSession | internal/biz/session.go:167-172 | for a token that is not empty, the active row of its digest expires now and every other row is as before; otherwise nothing changes; notifies nobody |
| SessionService.Service.KickSession | internal/biz/session.go:178-188 | the row it changes and each error case; exactly on success the connection of the session waits with "kicked" unless it had an event |
| SessionService.Service.SweepIdle | internal/biz/session.go:251-261 | expires exactly the idle active rows; the connections of these wait with "expired" unless they had an event, and all others are left alone |
| SessionService.Service.PurgeBefore | internal/data/session.go:160-165 | is the retention step, by login time |
| SessionInterleaving.NeverActiveAgain | internal/data/session.go:75-158 | in every interleaving of statements a session that is not active never becomes active |
| SessionInterleaving.LeftActiveForGood | internal/data/session.go:105-158 | whatever made a row leave "active", no later statement of any interleaving brings it back |
| SessionInterleaving.LateLookupIsRefused | internal/biz/session.go:142-157 | a check whose lookup runs after that is refused, for good, while the row exists |
| SessionInterleaving.AloneIsOneStep | internal/data/session.go:42-165 | with nothing in between, the statements of every operation do to the rows what the operation does as one step, and a check is told the same |
| SweepErasure.ActionKeepsAlike | internal/data/session.go:42-165 | every action other than the three late writes keeps an interleaving and the same one without sweeps alike |
| SweepErasure.BreakDisagrees | internal/data/session.go:75-158 | right after such a write some token would be told something else in the two runs |
| SweepErasure.SweepHarmlessIff | internal/data/session.go:75-158 | over any interleaving in time order, the two runs would give a check of any token the same answer at every instant if and only if none of the three late writes happens |
| SweepErasure.HarmlessRunSameVerdicts | internal/biz/session.go:142-157 | then every check of the run has been told the same in both |
| SweepErasure.LookupVerdict | internal/biz/session.go:142-157 | the answer of a check is fixed by its lookup |
| SweepErasure.UpdateAfterTouchChangesAnAnswer | internal/data/session.go:130-158 | the sweep's update expires a session touched since its select |
| SweepErasure.TouchAfterUpdateChangesAnAnswer | internal/data/session.go:75-80 | a late touch keeps a session alive only if the sweep has not expired it first |
| SweepErasure.TokenUsedAgainChangesAnAnswer | internal/data/session.go:122-128 | a late expiry hits a newer session with the same token, in the run without the sweep only; the token is that of a second login in the same second, whose insert waits until the first row is purged a day later |
| SweepErasedSafely.ActionKeepsBehind | internal/data/session.go:75-158 | as long as the real run takes none of the three risks, what is active in it is active, and as recently used, without the sweep, and a late expiry of the other run only concerns a token that is closed |
| SweepErasedSafely.SafeRunSweepHarmless | internal/data/session.go:75-158 | if no sweep updates a session in use, no accepted check touches one that is not active and no token is given twice, all in the real run, then both runs would give a check of any token the same answer at every instant |
| Hub.AtMostOneEvent | internal/biz/hub.go:16-51 | no channel ever holds more than one event |
| Hub.NothingIsLost | internal/biz/hub.go:41-51 | what a channel was given stays, in order, until taken, and is taken once |
| Hub.EventsWereLookedUp | internal/biz/hub.go:41-51 | over any run, every event that a channel is given was looked up as that event for that channel |
| Hub.FoundIffUntouched | internal/biz/hub.go:16-29 | a lookup finds the connection's channel if and only if nobody registered or unregistered the session since |
| Hub.NotifyIsDelivered | internal/biz/hub.go:41-51 | if the lookup falls into that time, then once the send has run the channel holds an event or one was taken, for ever after; the first one it was ever given is this event if there was none before |
| Hub.EarlyLookupMisses | internal/server/ws.go:50-60 | a notifier that looked up before the connection registered gives it nothing, however late it sends |
| Hub.HeardIffUntouched | internal/biz/hub.go:16-51 | a notification of a session is offered to a connection if and only if nobody else registered or unregistered the session since it did |
| Hub.AllNotifiedHear | internal/biz/session.go:258-260 | notifying a list of sessions, in any order, leaves the event waiting for each that has a connection without one, and changes no other channel |
| Hub.NotifiedIsLookupThenSend | internal/biz/hub.go:41-51 | a notification with nothing in between is the lookup step followed by the sending step |
| Hub.SessionHub.Notify | internal/biz/hub.go:32-51 | the channel of the session, if there is one and it is empty, then holds exactly the given event; nothing else changes |
| Hub.SessionHub.Register | internal/biz/hub.go:16-22 | the session gets a new empty channel, not handed out before; nothing else changes |
| Hub.SessionHub.Unregister | internal/biz/hub.go:25-29 | the session has no channel, whoever registered; nothing else changes |
| Hub.SessionHub.LookUp | internal/biz/hub.go:41-44 | the notifier holds the channel registered now, with its event, or nothing |
| Hub.SessionHub.TrySend | internal/biz/hub.go:44-50 | the channel looked up, if it is empty, then holds exactly the event of the lookup; it always completes |
| Hub.SessionHub.Receive | internal/server/ws.go:81-86 | returns the event that waits, if any, and leaves the channel empty |
| LiveConnection.HearsIff | internal/server/ws.go:46-61 | over any run a connection hears of its session if and only if some notice of the session is looked up after it registered and before the session is registered or unregistered again |
| LiveConnection.HearsWhatWasSent | internal/biz/hub.go:32-51 | an event that a connection is given is the event of a notice of its session that was looked up since it registered |
| LiveConnection.ClosingOwesNotice | internal/biz/session.go:142-188 | whoever closes an active session, other than a logout, owes it a notice of the right kind; a refused check owes it to the sessions its token had when it looked |
| LiveConnection.HearsOnlyIfClosed | internal/biz/session.go:142-188 | in any run from nothing, a connection that hears anything belongs to a session that is closed |
| LiveConnection.ClosedIsNotAdmitted | internal/server/ws.go:46-52 | once a session is closed no handler is let in for it, in any run |
| LiveConnection.KickHeardIff | internal/biz/session.go:178-188 | a session kicked after a handler found it active ends closed, and the handler's connection hears of it if and only if the kick had not yet looked the hub up when the connection registered (one connection, no other notice) |
| LiveConnection.KickLooksUp | internal/biz/session.go:178-188 | a kick that found the session active, and whose row stays, closes it and looks the hub up before it is done |
| LiveConnection.NeverHears | internal/data/session.go:105-158 | once the session is closed and nothing of it is under way, a connection that has not heard never will, in any run |
| LiveConnection.LogoutIsNotHeard | internal/biz/session.go:167-172 | a logout closes the session and, if nothing else of it is under way, no later run tells its connection |
| LiveConnection.KickedAndNeverHears | internal/server/ws.go:46-61 | a run in which a kicked session keeps a connection that never hears of it |
| Base64Url.AlphabetRoundTrip | internal/biz/service_account.go:74 | the alphabet of section 5 of RFC 4648 is a bijection that avoids line breaks |
| Base64Url.BytesOfSextets | internal/biz/service_account.go:74 | splitting any bytes into sextets and joining them gives the bytes back |
| Base64Url.SextetsOfBytes | internal/biz/service_account.go:98 | joining and splitting gives the same sextets if and only if the spare bits are zero |
| Base64Url.DecodeEncode | internal/biz/service_account.go:74-98 | decoding inverts encoding for every byte sequence; length without padding, section 3.2 of RFC 4648 |
| Base64Url.DecodeIff | internal/biz/service_account.go:98 | a text without line breaks decodes if and only if it is what some sextets are written as and does not leave one over |
| Base64Url.DecodeIgnoresBreaks | internal/biz/service_account.go:98 | a line break anywhere changes nothing |
| Base64Url.Vectors | internal/biz/service_account.go:74 | the encodings that section 10 of RFC 4648 lists, without padding, and one with both special characters |
| Base64Url.FirstByteIsMostSignificant | internal/biz/service_account.go:102 | in the integer read, the first byte has the highest weight |
| Base64Url.BigEndianRoundTrip | internal/biz/service_account.go:70-102 | reading inverts writing for every integer that fits |
| Base64Url.BigEndianOfRead | internal/biz/service_account.go:70-102 | writing inverts reading for all bytes |
| ServiceToken.PutUint64 | internal/biz/service_account.go:70 | writes the eight big-endian bytes in place and leaves the rest |
| ServiceToken.GenerateServiceToken | internal/biz/service_account.go:62-78 | the text of the whole expiry second and the 24 random bytes, and the exact expiry instant |
| ServiceToken.TokenRoundTrip | internal/biz/service_account.go:90-107 | every 64-bit expiry and every 24 random bytes come back from the text, which has 47 characters |
| ServiceToken.TokenExpiryIff | internal/biz/service_account.go:90-102 | a text carries an expiry if and only if it is the prefix and base64url text of at least eight bytes that begin with that expiry as it is written |
| ServiceToken.TokenTextInjective | internal/biz/service_account.go:62-78 | equal texts have equal expiry and equal random bytes |
| ServiceToken.LifetimeExactIff | internal/biz/service_account.go:66 | the 64-bit duration is exact if and only if it is at most 106751 days, and else off by at least a second |
| ServiceToken.ExpiresAtIff | internal/biz/service_account.go:65-69 | a token never expires if and only if its lifetime is not positive; otherwise the lifetime is added exactly up to 106751 days and never beyond |
| ServiceToken.ExpiryExactIff | internal/biz/service_account.go:65-69 | the packed expiry is the issuing second plus days times 86400 if and only if there are at most 106751 days |
| ServiceAccounts.AfterKeepsValid | internal/data/service_account.go:28-113 | every single write keeps each row's digest and expiry those of the token it carries, or the expiry unstored while the creation is unfinished |
| ServiceAccounts.FastCheckChangesNothing | internal/biz/service_account.go:175-189 | for every text presented in every reachable state, checking the embedded expiry first never changes who gets in |
| ServiceAccounts.DecisionIff | internal/biz/service_account.go:175-196 | each of the five answers on the rows, for any permission check |
| ServiceAccounts.StoppedCreationStillExpires | internal/biz/service_account.go:117-131 | if creation stops after its first write the row alone never expires, but the token is refused exactly once the current second passes the one it carries |
| ServiceAccounts.RotatedTokenIsLockedOut | internal/biz/service_account.go:162-173 | right after rotation no account carries the previous token |
| ServiceAccounts.StaysLockedOutIff | internal/data/service_account.go:97-113 | over any later run that does not issue it anew, a token that is locked out stays so if and only if no creation that still carries it gets its second write done |
| ServiceAccounts.RotatedTokenStaysInvalidIff | internal/biz/service_account.go:117-173 | the same from a rotation on |
| ServiceAccounts.RotationUndoneByCreation | internal/biz/service_account.go:117-131 | an account rotated between the two writes of its creation ends with the first token valid and the new one invalid |
| ServiceAccounts.StaysOffIff | internal/biz/service_account.go:132-138 | over any later run a disabled account stays disabled if and only if no update enables it and no creation that read it back enabled gets its third write done |
| ServiceAccounts.DisablingHoldsIff | internal/data/service_account.go:69-87 | a disabling holds over every run without an update that takes it back if and only if no creation has read the account back enabled and has its third write to do |
| ServiceAccounts.DisablingUndoneByCreation | internal/biz/service_account.go:132-138 | a token refused as disabled is accepted after the third write of the creation |
| ServiceAccounts.DisabledIsRefused | internal/biz/service_account.go:184-186 | the token of an account is refused as disabled if and only if the account is disabled |
| ServiceAccounts.LockedOutIsInvalid | internal/biz/service_account.go:179-183 | a token is refused as invalid if and only if no account carries it |
| ServiceAccounts.Service.InsertAndStore | internal/data/service_account.go:28-113 | the row, then the token again with its expiry |
| ServiceAccounts.Service.CreateServiceAccount | internal/biz/service_account.go:117-144 | the row and the roles afterwards, when it is refused, and which writes it is; an account whose roles are refused stays although the caller gets an error |
| ServiceAccounts.Service.UpdateServiceAccount | internal/data/service_account.go:69-87 | new row and roles; roles not given are left alone; refused as a whole for a missing account or role |
| ServiceAccounts.Service.DeleteServiceAccount | internal/data/service_account.go:89-95 | exactly this account is gone; whether it was there |
| ServiceAccounts.Service.RegenerateServiceAccountToken | internal/biz/service_account.go:162-173 | the new digest, prefix and expiry of the row and nothing else; refused for a missing account or a digest in use |
| ServiceAccounts.Service.AuthorizeServiceAccount | internal/biz/service_account.go:175-196 | lets an account in if and only if the text carries an expiry that has not passed, the account has its digest, is enabled and not expired, and its roles allow the operation; the exact condition of each of the four errors |
| InitialPassword.RunKeepsInv | internal/biz/auth.go:220-311 | an unused password in memory is always the admin's, and only a local admin has one |
| InitialPassword.AvailableMatches | internal/biz/auth.go:283-296 | over any run with restarts, an available initial password matches the stored admin hash |
| InitialPassword.UsedForGood | internal/data/auth.go:142-151 | the used flag never goes back, and nothing is available after it |
| InitialPassword.HandOverIsGenuine | internal/biz/auth.go:271-278 | a login that is handed the password came with the admin's password and is handed that password |
| InitialPassword.LoginReplyIff | internal/biz/auth.go:240-281 | who is let in, who is asked for a code and who is handed the initial password, each if and only if, on the user table |
| InitialPassword.AtMostOneHandOver | internal/biz/auth.go:240-281 | over any run in which a login is one step at most one login is handed the initial password |
| InitialPasswordRace.AtMostOnceIff | internal/biz/auth.go:271-278 | over any interleaving of logins, restarts included, at most one is handed it if and only if no login finds it in memory while another one holds it |
| InitialPasswordRace.AtMostOnceFromStartIff | internal/biz/auth.go:220-281 | the same from a first start on |
| InitialPasswordRace.LoginAloneIsOneStep | internal/biz/auth.go:240-281 | the steps of a login with nothing in between do what the login does as one step, and return the password exactly if it is handed over there |
| InitialPasswordRace.OverlapReturnsTwice | internal/biz/auth.go:271-278 | whenever a login finds the password while another one holds it, both can return it |
| InitialPasswordRace.TwoFirstLoginsBothReturnIt | internal/biz/auth.go:220-281 | a run from a first start in which two logins overlap and both return it |
| InitialPasswordRace.NotAtMostOnce | internal/biz/auth.go:220-281 | over that run more than one login is handed it |
| InitialPassword.UseCase.BootstrapAdmin | internal/biz/auth.go:220-238 | the admin row afterwards, created or given the hash while its password is unused; the memory; no other user changes |
| InitialPassword.UseCase.Authenticate | internal/biz/auth.go:240-248 | a user if and only if the local password fits or the directory accepts and no local account has the name; which row it is, with the display name of the directory |
| InitialPassword.UseCase.Login | internal/biz/auth.go:240-281 | lets in if and only if the account is known, enabled, needs no code and the token can be signed; asks for a code exactly when one is needed; hands the password over exactly to an admin with the flag unused; every row and the memory afterwards |
| InitialPassword.UseCase.InitialPassword | internal/biz/auth.go:283-296 | the password in memory if and only if there is one and the admin has not used it |
| InitialPassword.UseCase.ChangePassword | internal/biz/auth.go:298-311 | succeeds exactly with the old password and a usable new one; then the row has the new hash and the flag, and nothing else changes |
| InitialPassword.UseCase.CreateUser | internal/data/auth.go:230-245 | refused for a blank password, no name or a name in use; the new row |
| InitialPassword.UseCase.UpdateUser | internal/data/auth.go:265-276 | display name and disabled flag of that row and nothing else |
| InitialPassword.UseCase.DeleteUser | internal/data/auth.go:278-293 | refused for oneself and for the admin; exactly that row is gone |
| InitialPassword.UseCase.SetTotp | internal/data/auth.go:153-169 | that flag of that row and nothing else |
| Settings.DigitsRoundTrip | internal/data/session.go:374-386 | printed digits are read back |
| Settings.ScanDecimalReads | internal/data/session.go:374-386 | a decimal scanner reads back every 32-bit integer as printed, negative ones included |
| Settings.ReadAfterUpdate | internal/data/session.go:318-340 | reading after an update gives what was set, with each period that is not positive and each empty name replaced by its default |
| Settings.ReadIsStable | internal/data/session.go:342-354 | the defaults a read writes back change no later read and are written once |
| Settings.RetentionInRange | internal/biz/session.go:236-243 | for any stored rows and any scanner each period used is between 1 and 2^31 - 1 |
| Settings.Repo.GetSettings | internal/data/session.go:272-316 | in any row order, the settings the rows mean; every row there is kept, and each of the five missing ones is written with its default |
| Settings.Repo.Upsert | internal/data/session.go:356-372 | in any map order, exactly the given keys are overwritten or added |
| Settings.Repo.UpdateSettings | internal/data/session.go:318-340 | the six rows of an update, all others kept, and the names filled into the caller's settings |
| EdgeLoader.HandedGivesRoles | internal/data/ent/permission_query.go:539-547 | handing the grouped roles out gives each permission exactly its roles |
| EdgeLoader.Group | internal/data/ent/permission_query.go:528-532 | after any rows, repeats included: who holds which role, and one object per role |
| EdgeLoader.LoadRoles | internal/data/ent/permission_query.go:489-549 | each permission ends with each of its roles exactly once and no other, one object per role |
| EdgeLoader.LoadModule | internal/data/ent/permission_query.go:457-488 | each permission gets the module its foreign key names, shared, or is left alone; the error branch is never taken |
| ChangedFields.Diff | internal/service/service.go:761-788 | both sides hold exactly the fields whose presence or value differs, with their value on that side or nil |
| ChangedFields.SwappingSwaps | internal/service/service.go:761-788 | swapping the records swaps the sides |
| ChangedFields.PatchGivesAfter | internal/service/service.go:761-788 | patching the record before with the after side gives the record after if and only if no changed field is nil there |

## Left out

- HTTP, gRPC and WebSocket transport, LDAP and single sign-on protocols, registries, configuration, metrics and tracing: input and output around libraries.
- Failures of the database or the random source: every modelled error is one the code or a constraint raises.
- Two-factor set-up and codes: only whether a login stops to ask for one is modelled.
- Why a handler gives up (a failed upgrade, a timeout, a client that left): it may never connect, and may disconnect at any step.
- JWT contents and signing: whether signing succeeds is an input of the login step.
- Concurrent role calls: check and write of one inheritance change are one step here.
- Creating, changing and deleting permissions and modules, and changing a role's description: they would only add easy steps; the monotonicity and locality lemmas cover their effect on decisions.
- The guard that keeps the Admin role on the admin user: another call replaces roles without it, so it holds over no run.
- Deleting a service account does not drop the roles it held from the role tables: its identifier is never used again.
- Precision of stored instants: an expiry is stored exactly as computed.
- Page listing, labels, user-agent and address parsing, audit log rows.
- InitialPassword.UseCase.CreateUser: the roles given with a new or changed user are not stored here.
- InitialPassword.UseCase.Login: users are identified by their unique name instead of a numeric identifier.
- EdgeLoader.LoadRoles: the query is the sequence of join rows it may read; building the SQL text is not modelled.
- Settings.Repo.GetSettings: which texts a scan accepts beyond printed integers is left to the scanner, because no result depends on it.
- ServiceAccounts.Service.CreateServiceAccount: lifetimes whose expiry second does not fit 64 bits are excluded, as no clock reaches them.
