/** Service accounts, write by write, and the decision that a token presented to the API gets. The
    digest of a token is a parameter; only the results that name it assume it has no collisions. */
module ServiceAccounts {
  import opened Common
  import opened Base64Url
  import opened ServiceToken
  import Access
  import AuthRepo
  import RoleStore

  type AccountId = int

  datatype Account = Account(
    name: string,
    description: string,
    tokenHash: string,
    tokenPrefix: string,
    expiresAt: Option<Instant>,
    disabled: bool)

  /** `issued` is the token whose digest the row carries. A creation passes through the other three:
      `creating` while its second write, which stores the expiry, is still to come, `reading` until it
      has read the row back, and `finishing`, with the row it read, until its third write. Only rows are
      stored. */
  datatype Store = Store(
    accounts: map<AccountId, Account>,
    nextId: AccountId,
    issued: map<AccountId, NewToken>,
    creating: map<AccountId, NewToken>,
    reading: set<AccountId>,
    finishing: map<AccountId, Account>)

  const EMPTY := Store(map[], 1, map[], map[], {}, map[])

  /** `StoreRoles` is the third write of a creation, made only if roles are given and taking effect only
      if they exist; the roles themselves are kept elsewhere. */
  datatype Write =
    | InsertAccount(name: string, description: string, token: NewToken)
    | StoreExpiry(id: AccountId)
    | ReadBack(id: AccountId, rolesGiven: bool)
    | StoreRoles(id: AccountId, rolesExist: bool)
    | Regenerate(id: AccountId, token: NewToken)
    | UpdateAccount(id: AccountId, description: string, disabled: bool)
    | Delete(id: AccountId)

  predicate HashTaken(s: Store, hash: string, except: AccountId) {
    exists id :: id in s.accounts && id != except && s.accounts[id].tokenHash == hash
  }

  /** Storing a token: digest, display prefix and expiry in one row update. */
  function WithToken(s: Store, digest: string -> string, id: AccountId, t: NewToken): Store
    requires id in s.accounts
  {
    s.(accounts := s.accounts[id := s.accounts[id].(
                     tokenHash := digest(t.token), tokenPrefix := TokenPrefix(t.token), expiresAt := t.expiresAt)],
       issued := s.issued[id := t])
  }

  /** The update of an account by an administrator, and the third write of a creation. */
  function WithDetails(s: Store, id: AccountId, description: string, disabled: bool): Store {
    if id in s.accounts
    then s.(accounts := s.accounts[id := s.accounts[id].(description := description, disabled := disabled)])
    else s
  }

  function NewAccount(digest: string -> string, name: string, description: string, t: NewToken): Account {
    Account(name, description, digest(t.token), TokenPrefix(t.token), None, false)
  }

  predicate InsertRefused(s: Store, digest: string -> string, name: string, t: NewToken) {
    name == "" || (exists id :: id in s.accounts && s.accounts[id].name == name) || HashTaken(s, digest(t.token), 0)
  }

  /** One database statement; a write that is refused changes no row. */
  function After(s: Store, digest: string -> string, w: Write): Store {
    match w
    case InsertAccount(name, description, t) =>
      if InsertRefused(s, digest, name, t) then s
      else s.(accounts := s.accounts[s.nextId := NewAccount(digest, name, description, t)], nextId := s.nextId + 1,
              issued := s.issued[s.nextId := t], creating := s.creating[s.nextId := t])
    case StoreExpiry(id) =>
      if id !in s.creating then s
      else
        var done := s.(creating := s.creating - {id});
        if id !in s.accounts || HashTaken(s, digest(s.creating[id].token), id) then done
        else WithToken(done, digest, id, s.creating[id]).(reading := s.reading + {id})
    case ReadBack(id, rolesGiven) =>
      if id !in s.reading then s
      else
        s.(reading := s.reading - {id},
           finishing := if rolesGiven && id in s.accounts then s.finishing[id := s.accounts[id]] else s.finishing)
    case StoreRoles(id, rolesExist) =>
      if id !in s.finishing then s
      else
        var done := s.(finishing := s.finishing - {id});
        if rolesExist then WithDetails(done, id, s.finishing[id].description, s.finishing[id].disabled) else done
    case Regenerate(id, t) =>
      if id !in s.accounts || HashTaken(s, digest(t.token), id) then s else WithToken(s, digest, id, t)
    case UpdateAccount(id, description, disabled) => WithDetails(s, id, description, disabled)
    case Delete(id) => s.(accounts := s.accounts - {id}, issued := s.issued - {id})
  }

  /** What the generator returns for some lifetime, instant and random bytes. */
  ghost predicate Generated(t: NewToken) {
    && InRange(t.expiresAt)
    && exists random: seq<Byte> :: |random| == 24 && t.token == TokenText(EmbeddedExpiry(t.expiresAt), random)
  }

  ghost predicate Genuine(w: Write) {
    (w.InsertAccount? || w.Regenerate?) ==> Generated(w.token)
  }

  /** The stored expiry is the one of the token, or the creation has not stored it yet. */
  ghost predicate RowMatchesToken(s: Store, digest: string -> string, id: AccountId)
    requires id in s.accounts && id in s.issued
  {
    && Generated(s.issued[id])
    && s.accounts[id].tokenHash == digest(s.issued[id].token)
    && (|| s.accounts[id].expiresAt == s.issued[id].expiresAt
        || (s.accounts[id].expiresAt == None && id in s.creating && s.creating[id] == s.issued[id]))
  }

  ghost predicate Valid(s: Store, digest: string -> string) {
    ValidExcept(s, digest, {})
  }

  ghost predicate ValidExcept(s: Store, digest: string -> string, pending: set<AccountId>) {
    && 0 < s.nextId
    && s.accounts.Keys == s.issued.Keys
    && (forall id :: id in s.accounts ==> 0 < id < s.nextId && (id !in pending ==> RowMatchesToken(s, digest, id)))
    && (forall i, j :: i in s.accounts && j in s.accounts && s.accounts[i].tokenHash == s.accounts[j].tokenHash
                       ==> i == j)
    && (forall id :: id in s.creating ==> id < s.nextId && Generated(s.creating[id]))
    && (forall id :: id in s.reading || id in s.finishing ==> id < s.nextId)
  }

  lemma WithTokenKeepsValid(s: Store, digest: string -> string, id: AccountId, t: NewToken)
    requires ValidExcept(s, digest, {id}) && Generated(t) && id in s.accounts && !HashTaken(s, digest(t.token), id)
    ensures Valid(WithToken(s, digest, id, t), digest)
  {
    var s' := WithToken(s, digest, id, t);
    assert s'.accounts.Keys == s.accounts.Keys && s'.issued.Keys == s.issued.Keys;
    forall k | k in s'.accounts ensures 0 < k < s'.nextId && RowMatchesToken(s', digest, k) {
      assert k != id ==> RowMatchesToken(s, digest, k);
    }
  }

  lemma InsertKeepsValid(s: Store, digest: string -> string, name: string, description: string, t: NewToken)
    requires Valid(s, digest) && Generated(t)
    ensures Valid(After(s, digest, InsertAccount(name, description, t)), digest)
  {
    var s' := After(s, digest, InsertAccount(name, description, t));
    forall k | k in s'.accounts ensures k in s'.issued && 0 < k < s'.nextId && RowMatchesToken(s', digest, k) {
      if k in s.accounts {
        assert RowMatchesToken(s, digest, k);
      }
    }
  }

  lemma StoreExpiryKeepsValid(s: Store, digest: string -> string, id: AccountId)
    requires Valid(s, digest) && id in s.creating
    ensures Valid(After(s, digest, StoreExpiry(id)), digest)
  {
    var done := s.(creating := s.creating - {id});
    forall k | k in s.accounts && k != id ensures RowMatchesToken(done, digest, k) {
      assert RowMatchesToken(s, digest, k);
    }
    if id in s.accounts {
      assert RowMatchesToken(s, digest, id);
      if !HashTaken(s, digest(s.creating[id].token), id) {
        WithTokenKeepsValid(done, digest, id, s.creating[id]);
        var stored := WithToken(done, digest, id, s.creating[id]);
        SameTokensKeepValid(stored, stored.(reading := stored.reading + {id}), digest);
      }
    }
  }

  /** Reading back, and storing a description and a flag, leave everything about tokens alone. */
  lemma SameTokensKeepValid(s: Store, s': Store, digest: string -> string)
    requires Valid(s, digest)
    requires s'.nextId == s.nextId && s'.issued == s.issued && s'.creating == s.creating
    requires s'.accounts.Keys == s.accounts.Keys
    requires forall id :: id in s.accounts ==> s'.accounts[id].tokenHash == s.accounts[id].tokenHash
                                               && s'.accounts[id].expiresAt == s.accounts[id].expiresAt
    requires forall id :: id in s'.reading || id in s'.finishing ==> id < s.nextId
    ensures Valid(s', digest)
  {
    forall k | k in s'.accounts ensures k in s'.issued && RowMatchesToken(s', digest, k) {
      assert RowMatchesToken(s, digest, k);
    }
  }

  lemma DetailsKeepValid(s: Store, digest: string -> string, w: Write)
    requires Valid(s, digest) && (w.ReadBack? || w.StoreRoles? || w.UpdateAccount?)
    ensures Valid(After(s, digest, w), digest)
  {
    SameTokensKeepValid(s, After(s, digest, w), digest);
  }

  lemma DeleteKeepsValid(s: Store, digest: string -> string, id: AccountId)
    requires Valid(s, digest)
    ensures Valid(After(s, digest, Delete(id)), digest)
  {
    var s' := After(s, digest, Delete(id));
    forall k | k in s'.accounts ensures k in s'.issued && RowMatchesToken(s', digest, k) {
      assert RowMatchesToken(s, digest, k);
    }
  }

  lemma AfterKeepsValid(s: Store, digest: string -> string, w: Write)
    requires Valid(s, digest) && Genuine(w)
    ensures Valid(After(s, digest, w), digest)
  {
    match w {
      case InsertAccount(name, description, t) => InsertKeepsValid(s, digest, name, description, t);
      case StoreExpiry(id) =>
        if id in s.creating {
          StoreExpiryKeepsValid(s, digest, id);
        }
      case Regenerate(id, t) =>
        if id in s.accounts && !HashTaken(s, digest(t.token), id) {
          WithTokenKeepsValid(s, digest, id, t);
        }
      case Delete(id) => DeleteKeepsValid(s, digest, id);
      case _ => DetailsKeepValid(s, digest, w);
    }
  }

  function Run(s: Store, digest: string -> string, writes: seq<Write>): Store
    decreases |writes|
  {
    if writes == [] then s else Run(After(s, digest, writes[0]), digest, writes[1..])
  }

  lemma {:induction false} RunKeepsValid(s: Store, digest: string -> string, writes: seq<Write>)
    requires Valid(s, digest) && forall i :: 0 <= i < |writes| ==> Genuine(writes[i])
    ensures Valid(Run(s, digest, writes), digest)
    decreases |writes|
  {
    if writes != [] {
      AfterKeepsValid(s, digest, writes[0]);
      RunKeepsValid(After(s, digest, writes[0]), digest, writes[1..]);
    }
  }

  // ----- the decision -----

  datatype Refusal = Invalid | Expired | Disabled | Denied

  ghost predicate Injective(digest: string -> string) {
    forall a, b :: digest(a) == digest(b) ==> a == b
  }

  ghost predicate Carries(s: Store, id: AccountId, hash: string) {
    id in s.accounts && s.accounts[id].tokenHash == hash
  }

  /** The stored row decides: found, enabled, not past its expiry, permitted. */
  ghost function StoredDecision(s: Store, digest: string -> string, token: string, now: Instant,
                                permits: AccountId -> bool)
    : Result<AccountId, Refusal>
  {
    if !(exists id :: Carries(s, id, digest(token))) then Err(Invalid)
    else
      var id :| Carries(s, id, digest(token));
      var a := s.accounts[id];
      if a.disabled then Err(Disabled)
      else if a.expiresAt.Some? && now > a.expiresAt.value then Err(Expired)
      else if !permits(id) then Err(Denied)
      else Ok(id)
  }

  /** The decision the API takes: the expiry in the token is looked at first, at `early`. */
  ghost function Decision(s: Store, digest: string -> string, token: string, early: Instant, now: Instant,
                          permits: AccountId -> bool)
    : Result<AccountId, Refusal>
  {
    match ValidateServiceTokenExpiry(token, early)
    case Some(InvalidToken) => Err(Invalid)
    case Some(TokenExpired) => Err(Expired)
    case None => StoredDecision(s, digest, token, now, permits)
  }

  /** The text is a service token, and the second it carries has not passed. */
  predicate FreshText(token: string, early: Instant) {
    TokenExpiry(token).Some? && (TokenExpiry(token).value == 0 || Unix(early) <= TokenExpiry(token).value)
  }

  /** Each answer on the rows: who is let in, and which error everybody else gets. */
  lemma DecisionIff(s: Store, digest: string -> string, token: string, early: Instant, now: Instant,
                    permits: AccountId -> bool)
    requires Valid(s, digest)
    ensures var r, hash := Decision(s, digest, token, early, now, permits), digest(token);
            && (forall id :: r == Ok(id) <==>
                  && FreshText(token, early) && id in s.accounts && s.accounts[id].tokenHash == hash
                  && !s.accounts[id].disabled
                  && (s.accounts[id].expiresAt.Some? ==> now <= s.accounts[id].expiresAt.value) && permits(id))
            && (r == Err(Denied) <==> FreshText(token, early) && exists id ::
                  && id in s.accounts && s.accounts[id].tokenHash == hash && !s.accounts[id].disabled
                  && (s.accounts[id].expiresAt.Some? ==> now <= s.accounts[id].expiresAt.value) && !permits(id))
            && (r == Err(Disabled) <==> FreshText(token, early) && exists id ::
                  id in s.accounts && s.accounts[id].tokenHash == hash && s.accounts[id].disabled)
            && (r == Err(Expired) <==> TokenExpiry(token).Some? && (FreshText(token, early) ==> exists id ::
                  && id in s.accounts && s.accounts[id].tokenHash == hash && !s.accounts[id].disabled
                  && s.accounts[id].expiresAt.Some? && now > s.accounts[id].expiresAt.value))
            && (r == Err(Invalid) <==>
                  || TokenExpiry(token).None?
                  || (FreshText(token, early) && forall id :: id in s.accounts ==> s.accounts[id].tokenHash != hash))
  {
    if FreshText(token, early) {
      if id :| Carries(s, id, digest(token)) {
        assert forall k :: Carries(s, k, digest(token)) ==> k == id;
      } else {
        assert forall id :: id in s.accounts && s.accounts[id].tokenHash == digest(token)
                            ==> Carries(s, id, digest(token));
      }
    }
  }

  lemma IssuedTokenExpiry(t: NewToken)
    requires Generated(t)
    ensures TokenExpiry(t.token) == Some(EmbeddedExpiry(t.expiresAt)) && |t.token| == 47
  {
    var random: seq<Byte> :| |random| == 24 && t.token == TokenText(EmbeddedExpiry(t.expiresAt), random);
    TokenRoundTrip(EmbeddedExpiry(t.expiresAt), random);
  }

  /** The only account a text can open is the one whose token it is. */
  lemma CarrierHoldsToken(s: Store, digest: string -> string, token: string, id: AccountId)
    requires Valid(s, digest) && Injective(digest) && Carries(s, id, digest(token))
    ensures id in s.issued && s.issued[id].token == token && RowMatchesToken(s, digest, id)
    ensures TokenExpiry(token) == Some(EmbeddedExpiry(s.issued[id].expiresAt))
  {
    assert RowMatchesToken(s, digest, id);
    IssuedTokenExpiry(s.issued[id]);
  }

  ghost predicate ExpiryStored(s: Store, token: string) {
    forall id :: id in s.accounts && id in s.issued && s.issued[id].token == token
                 ==> id !in s.creating || s.accounts[id].expiresAt == s.issued[id].expiresAt
  }

  lemma RejectedEarlyIsRejected(s: Store, digest: string -> string, token: string, early: Instant, now: Instant,
                                permits: AccountId -> bool)
    requires Valid(s, digest) && Injective(digest) && early <= now && ExpiryStored(s, token)
    requires ValidateServiceTokenExpiry(token, early).Some?
    ensures StoredDecision(s, digest, token, now, permits).Err?
  {
    if exists id :: Carries(s, id, digest(token)) {
      var id :| Carries(s, id, digest(token));
      CarrierHoldsToken(s, digest, token, id);
      PastSecondIsPastInstant(s.issued[id].expiresAt, early, now);
    }
  }

  /** For every text presented, at every reachable state, looking at the expiry inside the token first
      never changes who gets in, once the expiry of the account holding that token has been stored. */
  lemma FastCheckChangesNothing(writes: seq<Write>, digest: string -> string, token: string, early: Instant,
                                now: Instant, permits: AccountId -> bool)
    requires forall i :: 0 <= i < |writes| ==> Genuine(writes[i])
    requires Injective(digest) && early <= now && ExpiryStored(Run(EMPTY, digest, writes), token)
    ensures var s := Run(EMPTY, digest, writes);
            var fast := Decision(s, digest, token, early, now, permits);
            var stored := StoredDecision(s, digest, token, now, permits);
            (fast.Ok? <==> stored.Ok?) && (fast.Ok? ==> fast == stored)
  {
    RunKeepsValid(EMPTY, digest, writes);
    if ValidateServiceTokenExpiry(token, early).Some? {
      RejectedEarlyIsRejected(Run(EMPTY, digest, writes), digest, token, early, now, permits);
    }
  }

  lemma PastSecondIsPastInstant(expiresAt: Option<Instant>, early: Instant, now: Instant)
    requires early <= now && EmbeddedExpiry(expiresAt) != 0 && Unix(early) > EmbeddedExpiry(expiresAt)
    ensures expiresAt.Some? && now > expiresAt.value
  {
  }

  /** If creation stops after its first write, the stored row alone would let the token in for ever;
      with the check inside the token it is let in exactly until the second it carries has passed. */
  lemma StoppedCreationStillExpires(writes: seq<Write>, digest: string -> string, id: AccountId, early: Instant,
                                    now: Instant, permits: AccountId -> bool)
    requires forall i :: 0 <= i < |writes| ==> Genuine(writes[i])
    requires var s := Run(EMPTY, digest, writes);
             && id in s.accounts && id in s.issued
             && s.accounts[id].expiresAt == None && !s.accounts[id].disabled && permits(id)
    ensures var s := Run(EMPTY, digest, writes);
            var exp := EmbeddedExpiry(s.issued[id].expiresAt);
            && StoredDecision(s, digest, s.issued[id].token, now, permits) == Ok(id)
            && Decision(s, digest, s.issued[id].token, early, now, permits)
               == if exp != 0 && Unix(early) > exp then Err(Expired) else Ok(id)
  {
    var s := Run(EMPTY, digest, writes);
    RunKeepsValid(EMPTY, digest, writes);
    assert RowMatchesToken(s, digest, id);
    IssuedTokenExpiry(s.issued[id]);
    assert Carries(s, id, digest(s.issued[id].token));
  }

  // ----- rotation -----

  ghost predicate LockedOut(s: Store, digest: string -> string, token: string) {
    forall id :: !Carries(s, id, digest(token))
  }

  lemma LockedOutIsInvalid(s: Store, digest: string -> string, token: string, now: Instant, permits: AccountId -> bool)
    ensures LockedOut(s, digest, token) <==> StoredDecision(s, digest, token, now, permits) == Err(Invalid)
  {
  }

  /** Right after its rotation a token is locked out. */
  lemma RotatedTokenIsLockedOut(s: Store, digest: string -> string, id: AccountId, t: NewToken)
    requires Valid(s, digest) && Injective(digest) && id in s.accounts && s.issued[id].token != t.token
    requires !HashTaken(s, digest(t.token), id)
    ensures LockedOut(After(s, digest, Regenerate(id, t)), digest, s.issued[id].token)
  {
    var previous := s.issued[id].token;
    var s' := After(s, digest, Regenerate(id, t));
    assert RowMatchesToken(s, digest, id);
    forall k ensures !Carries(s', k, digest(previous)) {
      if k in s'.accounts && k != id {
        assert s'.accounts[k] == s.accounts[k];
      }
    }
  }

  /** The write is not one that issues this token anew. */
  predicate IssuesOther(w: Write, token: string) {
    (w.InsertAccount? || w.Regenerate?) ==> w.token.token != token
  }

  /** The second write of a creation, still outstanding, that carries this token and finds its account. */
  predicate Revives(s: Store, digest: string -> string, w: Write, token: string) {
    && w.StoreExpiry? && w.id in s.creating && s.creating[w.id].token == token
    && w.id in s.accounts && !HashTaken(s, digest(token), w.id)
  }

  lemma LockedOutUnlessRevived(s: Store, digest: string -> string, w: Write, token: string)
    requires Injective(digest) && LockedOut(s, digest, token) && IssuesOther(w, token)
    ensures LockedOut(After(s, digest, w), digest, token) <==> !Revives(s, digest, w, token)
  {
    var s' := After(s, digest, w);
    if Revives(s, digest, w, token) {
      assert Carries(s', w.id, digest(token));
    } else {
      forall k ensures !Carries(s', k, digest(token)) {
        assert !Carries(s, k, digest(token));
      }
    }
  }

  ghost predicate StaysLockedOut(s: Store, digest: string -> string, writes: seq<Write>, token: string)
    decreases |writes|
  {
    && LockedOut(s, digest, token)
    && (writes != [] ==> StaysLockedOut(After(s, digest, writes[0]), digest, writes[1..], token))
  }

  ghost predicate NeverRevived(s: Store, digest: string -> string, writes: seq<Write>, token: string)
    decreases |writes|
  {
    || writes == []
    || (&& !Revives(s, digest, writes[0], token)
        && NeverRevived(After(s, digest, writes[0]), digest, writes[1..], token))
  }

  /** A token that is locked out stays so over any later run that does not issue it anew, exactly when
      no creation that still carries it gets its second write done. */
  lemma {:induction false} StaysLockedOutIff(s: Store, digest: string -> string, writes: seq<Write>, token: string)
    requires Injective(digest) && LockedOut(s, digest, token)
    requires forall i :: 0 <= i < |writes| ==> IssuesOther(writes[i], token)
    ensures StaysLockedOut(s, digest, writes, token) <==> NeverRevived(s, digest, writes, token)
    decreases |writes|
  {
    if writes != [] {
      var s' := After(s, digest, writes[0]);
      LockedOutUnlessRevived(s, digest, writes[0], token);
      if LockedOut(s', digest, token) {
        StaysLockedOutIff(s', digest, writes[1..], token);
      } else {
        assert !StaysLockedOut(s', digest, writes[1..], token);
      }
    }
  }

  /** After a rotation: the previous token stays invalid under the same condition. */
  lemma RotatedTokenStaysInvalidIff(s: Store, digest: string -> string, id: AccountId, t: NewToken,
                                    writes: seq<Write>)
    requires Valid(s, digest) && Injective(digest) && id in s.accounts && s.issued[id].token != t.token
    requires !HashTaken(s, digest(t.token), id)
    requires forall i :: 0 <= i < |writes| ==> IssuesOther(writes[i], s.issued[id].token)
    ensures var s' := After(s, digest, Regenerate(id, t));
            var previous := s.issued[id].token;
            StaysLockedOut(s', digest, writes, previous) <==> NeverRevived(s', digest, writes, previous)
  {
    RotatedTokenIsLockedOut(s, digest, id, t);
    StaysLockedOutIff(After(s, digest, Regenerate(id, t)), digest, writes, s.issued[id].token);
  }

  /** An account rotated between the two writes of its creation: the second write brings the first
      token back, and it is the new one that is lost. */
  lemma RotationUndoneByCreation(digest: string -> string, t: NewToken, t': NewToken, now: Instant,
                                 permits: AccountId -> bool)
    requires Injective(digest) && t.token != t'.token && t.expiresAt == None && permits(1)
    ensures var s := Run(EMPTY, digest, [InsertAccount("a", "", t), Regenerate(1, t'), StoreExpiry(1)]);
            && StoredDecision(s, digest, t.token, now, permits) == Ok(1)
            && StoredDecision(s, digest, t'.token, now, permits) == Err(Invalid)
  {
    var w := [InsertAccount("a", "", t), Regenerate(1, t'), StoreExpiry(1)];
    var s1 := After(EMPTY, digest, w[0]);
    assert 1 in s1.accounts && s1.creating == map[1 := t];
    var s2 := After(s1, digest, w[1]);
    assert s2.accounts.Keys == {1};
    var s3 := After(s2, digest, w[2]);
    assert s3.accounts.Keys == {1} && s3.accounts[1].tokenHash == digest(t.token);
    assert w[1..][1..] == w[2..] && w[2..][1..] == [];
    assert Run(EMPTY, digest, w) == Run(s1, digest, w[1..]) == Run(s2, digest, w[2..]) == Run(s3, digest, []);
    assert Carries(s3, 1, digest(t.token));
  }

  // ----- disabling -----

  /** The account exists and is disabled, or has existed and is deleted. */
  ghost predicate Off(s: Store, id: AccountId) {
    id < s.nextId && (id in s.accounts ==> s.accounts[id].disabled)
  }

  lemma DisabledIsRefused(s: Store, digest: string -> string, id: AccountId, now: Instant, permits: AccountId -> bool)
    requires Valid(s, digest) && id in s.accounts
    ensures s.accounts[id].disabled <==> StoredDecision(s, digest, s.issued[id].token, now, permits) == Err(Disabled)
  {
    assert RowMatchesToken(s, digest, id);
    assert Carries(s, id, digest(s.issued[id].token));
  }

  /** An update that asks for it enables an account, and so does the third write of a creation that read
      the account back while it was enabled. */
  predicate Enables(s: Store, w: Write, id: AccountId) {
    && id in s.accounts
    && (|| (w.UpdateAccount? && w.id == id && !w.disabled)
        || (w.StoreRoles? && w.id == id && w.rolesExist && id in s.finishing && !s.finishing[id].disabled))
  }

  lemma OffUnlessEnabled(s: Store, digest: string -> string, w: Write, id: AccountId)
    requires Off(s, id)
    ensures Off(After(s, digest, w), id) <==> !Enables(s, w, id)
  {
  }

  ghost predicate StaysOff(s: Store, digest: string -> string, writes: seq<Write>, id: AccountId)
    decreases |writes|
  {
    Off(s, id) && (writes != [] ==> StaysOff(After(s, digest, writes[0]), digest, writes[1..], id))
  }

  ghost predicate NeverEnabled(s: Store, digest: string -> string, writes: seq<Write>, id: AccountId)
    decreases |writes|
  {
    || writes == []
    || (!Enables(s, writes[0], id) && NeverEnabled(After(s, digest, writes[0]), digest, writes[1..], id))
  }

  /** A disabled account stays so over any later run exactly when no update enables it and no creation
      that read it back enabled gets its third write done. */
  lemma {:induction false} StaysOffIff(s: Store, digest: string -> string, writes: seq<Write>, id: AccountId)
    requires Off(s, id)
    ensures StaysOff(s, digest, writes, id) <==> NeverEnabled(s, digest, writes, id)
    decreases |writes|
  {
    if writes != [] {
      var s' := After(s, digest, writes[0]);
      OffUnlessEnabled(s, digest, writes[0], id);
      if Off(s', id) {
        StaysOffIff(s', digest, writes[1..], id);
      } else {
        assert !StaysOff(s', digest, writes[1..], id);
      }
    }
  }

  /** A creation has read the account back while it was enabled, and has its third write to do. */
  predicate ReadBackEnabled(s: Store, id: AccountId) {
    id in s.accounts && id in s.finishing && !s.finishing[id].disabled
  }

  predicate NoEnablingUpdate(writes: seq<Write>, id: AccountId) {
    forall i :: 0 <= i < |writes| ==> !(writes[i].UpdateAccount? && writes[i].id == id && !writes[i].disabled)
  }

  lemma {:induction false} DisablingHolds(s: Store, digest: string -> string, writes: seq<Write>, id: AccountId)
    requires Off(s, id) && !ReadBackEnabled(s, id) && NoEnablingUpdate(writes, id)
    ensures StaysOff(s, digest, writes, id)
    decreases |writes|
  {
    if writes != [] {
      OffUnlessEnabled(s, digest, writes[0], id);
      DisablingHolds(After(s, digest, writes[0]), digest, writes[1..], id);
    }
  }

  /** What a creation reads back later is that the account is disabled. So a disabling holds until an
      update takes it back, whatever else runs, exactly when no creation read the account too early. */
  lemma DisablingHoldsIff(s: Store, digest: string -> string, id: AccountId)
    requires Off(s, id)
    ensures (forall writes :: NoEnablingUpdate(writes, id) ==> StaysOff(s, digest, writes, id))
       <==> !ReadBackEnabled(s, id)
  {
    if ReadBackEnabled(s, id) {
      var third := [StoreRoles(id, true)];
      assert !Off(After(s, digest, third[0]), id);
      assert NoEnablingUpdate(third, id) && !StaysOff(s, digest, third, id);
    } else {
      forall writes | NoEnablingUpdate(writes, id) ensures StaysOff(s, digest, writes, id) {
        DisablingHolds(s, digest, writes, id);
      }
    }
  }

  lemma {:induction false} RunSplit(s: Store, digest: string -> string, first: seq<Write>, second: seq<Write>)
    ensures Run(s, digest, first + second) == Run(Run(s, digest, first), digest, second)
    decreases |first|
  {
    if first == [] {
      assert first + second == second;
    } else {
      assert (first + second)[1..] == first[1..] + second;
      RunSplit(After(s, digest, first[0]), digest, first[1..], second);
    }
  }

  /** A creation with roles that an administrator disables after it has read the account back. */
  function DisabledTooEarly(t: NewToken): seq<Write> {
    [InsertAccount("a", "", t), StoreExpiry(1), ReadBack(1, true), UpdateAccount(1, "", true)]
  }

  lemma AfterDisabling(digest: string -> string, t: NewToken)
    ensures var row := NewAccount(digest, "a", "", t).(expiresAt := t.expiresAt);
            Run(EMPTY, digest, DisabledTooEarly(t))
            == Store(map[1 := row.(disabled := true)], 2, map[1 := t], map[], {}, map[1 := row])
  {
    var w := DisabledTooEarly(t);
    var row := NewAccount(digest, "a", "", t).(expiresAt := t.expiresAt);
    var s1 := After(EMPTY, digest, w[0]);
    assert s1 == Store(map[1 := row.(expiresAt := None)], 2, map[1 := t], map[1 := t], {}, map[]);
    var s2 := After(s1, digest, w[1]);
    assert s2 == Store(map[1 := row], 2, map[1 := t], map[], {1}, map[]);
    var s3 := After(s2, digest, w[2]);
    assert s3 == Store(map[1 := row], 2, map[1 := t], map[], {}, map[1 := row]);
    var s4 := After(s3, digest, w[3]);
    assert w[1..][1..] == w[2..] && w[2..][1..] == w[3..] && w[3..][1..] == [];
    assert Run(EMPTY, digest, w) == Run(s1, digest, w[1..]) == Run(s2, digest, w[2..]);
    assert Run(s2, digest, w[2..]) == Run(s3, digest, w[3..]) == Run(s4, digest, []);
  }

  /** Its third write enables the account again: the token is refused before it and accepted after it. */
  lemma DisablingUndoneByCreation(digest: string -> string, t: NewToken, now: Instant, permits: AccountId -> bool)
    requires t.expiresAt == None && permits(1)
    ensures var before := Run(EMPTY, digest, DisabledTooEarly(t));
            StoredDecision(before, digest, t.token, now, permits) == Err(Disabled)
    ensures var end := Run(EMPTY, digest, DisabledTooEarly(t) + [StoreRoles(1, true)]);
            StoredDecision(end, digest, t.token, now, permits) == Ok(1)
  {
    AfterDisabling(digest, t);
    RunSplit(EMPTY, digest, DisabledTooEarly(t), [StoreRoles(1, true)]);
    var before := Run(EMPTY, digest, DisabledTooEarly(t));
    var end := After(before, digest, StoreRoles(1, true));
    assert Run(before, digest, [StoreRoles(1, true)]) == Run(end, digest, []);
    assert Carries(before, 1, digest(t.token)) && Carries(end, 1, digest(t.token));
  }

  // ----- the service -----

  /** What one creation does with nothing else in between. */
  function CreationWrites(id: AccountId, name: string, description: string, t: NewToken, rolesGiven: bool,
                          rolesExist: bool): seq<Write>
  {
    [InsertAccount(name, description, t), StoreExpiry(id), ReadBack(id, rolesGiven), StoreRoles(id, rolesExist)]
  }

  lemma CreationInSteps(s: Store, digest: string -> string, id: AccountId, name: string, description: string,
                        t: NewToken, rolesGiven: bool, rolesExist: bool)
    ensures var stored := After(After(s, digest, InsertAccount(name, description, t)), digest, StoreExpiry(id));
            Run(s, digest, CreationWrites(id, name, description, t, rolesGiven, rolesExist))
            == After(After(stored, digest, ReadBack(id, rolesGiven)), digest, StoreRoles(id, rolesExist))
  {
    var w := CreationWrites(id, name, description, t, rolesGiven, rolesExist);
    var s2 := After(After(s, digest, w[0]), digest, w[1]);
    var s4 := After(After(s2, digest, w[2]), digest, w[3]);
    assert w[1..][1..] == w[2..] && w[2..][1..] == w[3..] && w[3..][1..] == [];
    assert Run(s, digest, w) == Run(After(s, digest, w[0]), digest, w[1..]) == Run(s2, digest, w[2..]);
    assert Run(s2, digest, w[2..]) == Run(After(s2, digest, w[2]), digest, w[3..]) == Run(s4, digest, []);
  }

  /** Storing the same token again changes the expiry only. */
  lemma StoreSameToken(s: Store, digest: string -> string, id: AccountId)
    requires Valid(s, digest) && id in s.accounts && id in s.creating && s.issued[id] == s.creating[id]
    requires s.accounts[id].tokenPrefix == TokenPrefix(s.creating[id].token)
    ensures var stored := After(s, digest, StoreExpiry(id));
            && Valid(stored, digest)
            && stored == s.(accounts := s.accounts[id := s.accounts[id].(expiresAt := s.creating[id].expiresAt)],
                            creating := s.creating - {id}, reading := s.reading + {id})
  {
    AfterKeepsValid(s, digest, StoreExpiry(id));
    assert RowMatchesToken(s, digest, id);
    assert !HashTaken(s, digest(s.creating[id].token), id);
    assert s.issued[id := s.creating[id]] == s.issued;
  }

  /** After a refused first write the others find nothing to do. */
  lemma RefusedInSteps(s: Store, digest: string -> string, name: string, description: string, t: NewToken,
                       rolesGiven: bool, rolesExist: bool)
    requires Valid(s, digest) && InsertRefused(s, digest, name, t)
    ensures Run(s, digest, CreationWrites(s.nextId, name, description, t, rolesGiven, rolesExist)) == s
  {
    CreationInSteps(s, digest, s.nextId, name, description, t, rolesGiven, rolesExist);
  }

  /** The columns that the first write is checked against. */
  ghost predicate Insertable(accounts: map<AccountId, Account>, name: string, hash: string) {
    name != "" && forall k :: k in accounts ==> accounts[k].name != name && accounts[k].tokenHash != hash
  }

  lemma InsertableIff(s: Store, digest: string -> string, name: string, t: NewToken)
    requires Valid(s, digest)
    ensures Insertable(s.accounts, name, digest(t.token)) <==> !InsertRefused(s, digest, name, t)
  {
  }

  lemma WrittenTwice(accounts: map<AccountId, Account>, id: AccountId, first: Account, second: Account)
    ensures accounts[id := first][id := second] == accounts[id := second]
  {
  }

  /** No other account has the digest. */
  ghost predicate HashIsFree(accounts: map<AccountId, Account>, hash: string, id: AccountId) {
    forall k :: k in accounts && k != id ==> accounts[k].tokenHash != hash
  }

  class Service {
    var store: Store
    const roles: AuthRepo.Repo
    const digest: string -> string

    constructor (roles: AuthRepo.Repo, digest: string -> string)
      ensures store == EMPTY && this.roles == roles && this.digest == digest && Valid(store, digest)
    {
      store, this.roles, this.digest := EMPTY, roles, digest;
    }

    /** The row, then the same token again together with its expiry, then, if roles are given, those
        roles with the description and the flag that were read back. When a role does not exist the caller
        gets an error, and the account stays, with its token and no roles. */
    method CreateServiceAccount(name: string, description: string, days: Int32, roleIds: seq<int>, now: Instant,
                                random: seq<Byte>)
      returns (created: Option<(AccountId, NewToken)>)
      requires Valid(store, digest) && RoleStore.Valid(roles.db)
      requires |random| == 24 && InRange(ExpiresAt(days, now))
      modifies this`store, roles
      ensures Valid(store, digest) && RoleStore.Valid(roles.db)
      ensures var exp := ExpiresAt(days, now);
              var t := NewToken(TokenText(EmbeddedExpiry(exp), random), exp);
              var id := old(store.nextId);
              var inserted := Insertable(old(store).accounts, name, digest(t.token));
              var rolesExist := RoleStore.SetOf(roleIds) <= old(roles.db).roles.Keys;
              && store == Run(old(store), digest, CreationWrites(id, name, description, t, roleIds != [], rolesExist))
              && store.accounts == (if inserted then old(store).accounts[id := Account(
                                      name, description, digest(t.token), TokenPrefix(t.token), exp, false)]
                                    else old(store).accounts)
              && roles.db == (if inserted && roleIds != [] && rolesExist
                              then RoleStore.WithAccountRoles(old(roles.db), id, roleIds) else old(roles.db))
              && created == (if inserted && (roleIds == [] || rolesExist) then Some((id, t)) else None)
    {
      var t := GenerateServiceToken(days, now, random);
      assert Generated(t);
      var accepted := CreateWithToken(name, description, t, roleIds);
      return if accepted then Some((store.nextId - 1, t)) else None;
    }

    /** Creation with the token it was given. */
    method CreateWithToken(name: string, description: string, t: NewToken, roleIds: seq<int>) returns (accepted: bool)
      requires Valid(store, digest) && RoleStore.Valid(roles.db) && Generated(t)
      modifies this`store, roles
      ensures Valid(store, digest) && RoleStore.Valid(roles.db)
      ensures var id := old(store.nextId);
              var inserted := Insertable(old(store).accounts, name, digest(t.token));
              var rolesExist := RoleStore.SetOf(roleIds) <= old(roles.db).roles.Keys;
              && store == Run(old(store), digest, CreationWrites(id, name, description, t, roleIds != [], rolesExist))
              && store.nextId == (if inserted then id + 1 else id)
              && store.accounts == (if inserted then old(store).accounts[id := Account(
                                      name, description, digest(t.token), TokenPrefix(t.token), t.expiresAt, false)]
                                    else old(store).accounts)
              && roles.db == (if inserted && roleIds != [] && rolesExist
                              then RoleStore.WithAccountRoles(old(roles.db), id, roleIds) else old(roles.db))
              && accepted == (inserted && (roleIds == [] || rolesExist))
    {
      var id := store.nextId;
      ghost var before, rolesExist := store, RoleStore.SetOf(roleIds) <= roles.db.roles.Keys;
      InsertableIff(store, digest, name, t);
      if InsertRefused(store, digest, name, t) {
        RefusedInSteps(store, digest, name, description, t, roleIds != [], rolesExist);
        return false;
      }
      InsertAndStore(id, name, description, t);
      accepted := ReadBackAndStoreRoles(id, roleIds);
      CreationInSteps(before, digest, id, name, description, t, roleIds != [], rolesExist);
    }

    /** What follows the second write; with nothing in between the row does not change again. */
    method ReadBackAndStoreRoles(id: AccountId, roleIds: seq<int>) returns (accepted: bool)
      requires Valid(store, digest) && RoleStore.Valid(roles.db)
      requires id in store.accounts && id in store.reading && id !in store.finishing
      modifies this`store, roles
      ensures Valid(store, digest) && RoleStore.Valid(roles.db)
      ensures store.accounts == old(store).accounts && store.nextId == old(store).nextId
      ensures var rolesExist := RoleStore.SetOf(roleIds) <= old(roles.db).roles.Keys;
              && store == After(After(old(store), digest, ReadBack(id, roleIds != [])), digest,
                                StoreRoles(id, rolesExist))
              && accepted == (roleIds == [] || rolesExist)
              && roles.db == (if roleIds != [] && accepted
                              then RoleStore.WithAccountRoles(old(roles.db), id, roleIds) else old(roles.db))
    {
      AfterKeepsValid(store, digest, ReadBack(id, false));
      var account := store.accounts[id];
      store := store.(reading := store.reading - {id});
      if roleIds == [] {
        return true;
      }
      assert store.finishing[id := account] - {id} == store.finishing;
      accepted := roles.SetAccountRoles(id, roleIds);
      if accepted {
        var row := store.accounts[id].(description := account.description, disabled := account.disabled);
        assert store.accounts[id := row] == store.accounts;
        store := store.(accounts := store.accounts[id := row]);
      }
    }

    method InsertRow(id: AccountId, name: string, description: string, t: NewToken)
      requires Valid(store, digest) && Generated(t) && id == store.nextId && !InsertRefused(store, digest, name, t)
      modifies this`store
      ensures Valid(store, digest) && store == After(old(store), digest, InsertAccount(name, description, t))
      ensures store.accounts == old(store).accounts[id := Account(
                                  name, description, digest(t.token), TokenPrefix(t.token), None, false)]
      ensures store.nextId == id + 1 && id !in store.finishing
      ensures id in store.creating && id in store.issued && t == store.creating[id] == store.issued[id]
    {
      AfterKeepsValid(store, digest, InsertAccount(name, description, t));
      var row := Account(name, description, digest(t.token), TokenPrefix(t.token), None, false);
      store := store.(accounts := store.accounts[id := row], nextId := id + 1,
                      issued := store.issued[id := t], creating := store.creating[id := t]);
    }

    method StoreToken(id: AccountId, t: NewToken)
      requires Valid(store, digest) && id in store.accounts && id in store.creating
      requires t == store.creating[id] == store.issued[id] && store.accounts[id].tokenPrefix == TokenPrefix(t.token)
      modifies this`store
      ensures Valid(store, digest) && store == After(old(store), digest, StoreExpiry(id))
      ensures store.accounts == old(store).accounts[id := old(store).accounts[id].(expiresAt := t.expiresAt)]
      ensures store.nextId == old(store).nextId && store.finishing == old(store).finishing && id in store.reading
    {
      StoreSameToken(store, digest, id);
      store := store.(accounts := store.accounts[id := store.accounts[id].(expiresAt := t.expiresAt)],
                      creating := store.creating - {id}, reading := store.reading + {id});
    }

    /** The two writes about the token. */
    method InsertAndStore(id: AccountId, name: string, description: string, t: NewToken)
      requires Valid(store, digest) && Generated(t) && id == store.nextId && !InsertRefused(store, digest, name, t)
      modifies this`store
      ensures Valid(store, digest)
      ensures store == After(After(old(store), digest, InsertAccount(name, description, t)), digest, StoreExpiry(id))
      ensures store.nextId == id + 1
      ensures store.accounts == old(store).accounts[id := Account(
                                  name, description, digest(t.token), TokenPrefix(t.token), t.expiresAt, false)]
      ensures id in store.reading && id !in store.finishing
    {
      ghost var accounts, row := store.accounts, Account(
        name, description, digest(t.token), TokenPrefix(t.token), None, false);
      InsertRow(id, name, description, t);
      StoreToken(id, t);
      WrittenTwice(accounts, id, row, row.(expiresAt := t.expiresAt));
    }

    /** No roles given means the roles are left alone; all of it is refused when a given role does not exist. */
    method UpdateServiceAccount(id: AccountId, description: string, disabled: bool, roleIds: Option<seq<int>>)
      returns (updated: bool)
      requires Valid(store, digest) && RoleStore.Valid(roles.db)
      modifies this`store, roles
      ensures Valid(store, digest) && RoleStore.Valid(roles.db)
      ensures updated <==> id in old(store).accounts
                           && (roleIds.Some? ==> RoleStore.SetOf(roleIds.value) <= old(roles.db).roles.Keys)
      ensures store == if updated then After(old(store), digest, UpdateAccount(id, description, disabled))
                       else old(store)
      ensures store.accounts == if updated
                                then old(store).accounts[id := old(store).accounts[id].(
                                       description := description, disabled := disabled)]
                                else old(store).accounts
      ensures roles.db == if updated && roleIds.Some? then RoleStore.WithAccountRoles(old(roles.db), id, roleIds.value)
                          else old(roles.db)
    {
      if id !in store.accounts {
        return false;
      }
      if roleIds.Some? {
        var accepted := roles.SetAccountRoles(id, roleIds.value);
        if !accepted {
          return false;
        }
      }
      AfterKeepsValid(store, digest, UpdateAccount(id, description, disabled));
      var row := store.accounts[id].(description := description, disabled := disabled);
      store := store.(accounts := store.accounts[id := row]);
      return true;
    }

    method DeleteServiceAccount(id: AccountId) returns (deleted: bool)
      requires Valid(store, digest)
      modifies this`store
      ensures Valid(store, digest) && store == After(old(store), digest, Delete(id))
      ensures deleted <==> id in old(store).accounts
      ensures store.accounts == old(store).accounts - {id}
    {
      AfterKeepsValid(store, digest, Delete(id));
      deleted := id in store.accounts;
      store := store.(accounts := store.accounts - {id}, issued := store.issued - {id});
    }

    method RegenerateServiceAccountToken(id: AccountId, days: Int32, now: Instant, random: seq<Byte>)
      returns (token: Option<NewToken>)
      requires Valid(store, digest) && |random| == 24 && InRange(ExpiresAt(days, now))
      modifies this`store
      ensures Valid(store, digest)
      ensures var exp := ExpiresAt(days, now);
              var t := NewToken(TokenText(EmbeddedExpiry(exp), random), exp);
              && store == After(old(store), digest, Regenerate(id, t))
              && token == (if id in old(store).accounts && HashIsFree(old(store).accounts, digest(t.token), id)
                           then Some(t) else None)
              && store.accounts == (if token == None then old(store).accounts
                                    else old(store).accounts[id := old(store).accounts[id].(
                                           tokenHash := digest(t.token), tokenPrefix := TokenPrefix(t.token),
                                           expiresAt := exp)])
    {
      var t := GenerateServiceToken(days, now, random);
      AfterKeepsValid(store, digest, Regenerate(id, t));
      if id !in store.accounts || HashTaken(store, digest(t.token), id) {
        return None;
      }
      var row := store.accounts[id].(
        tokenHash := digest(t.token), tokenPrefix := TokenPrefix(t.token), expiresAt := t.expiresAt);
      store := store.(accounts := store.accounts[id := row], issued := store.issued[id := t]);
      return Some(t);
    }

    /** The last check is the decision on what the roles of the account reach. */
    method AuthorizeServiceAccount(token: string, operation: string, early: Instant, now: Instant)
      returns (r: Result<AccountId, Refusal>)
      requires Valid(store, digest) && RoleStore.Valid(roles.db)
      ensures var t := roles.db;
              r == Decision(store, digest, token, early, now,
                            id => Access.Allowed(t, Access.AccountStarts(t, id), operation))
      ensures forall id :: r == Ok(id) <==>
                && FreshText(token, early) && id in store.accounts && store.accounts[id].tokenHash == digest(token)
                && !store.accounts[id].disabled
                && (store.accounts[id].expiresAt.Some? ==> now <= store.accounts[id].expiresAt.value)
                && Access.Allowed(roles.db, Access.AccountStarts(roles.db, id), operation)
      ensures r == Err(Denied) <==> FreshText(token, early) && exists id ::
                && id in store.accounts && store.accounts[id].tokenHash == digest(token)
                && !store.accounts[id].disabled
                && (store.accounts[id].expiresAt.Some? ==> now <= store.accounts[id].expiresAt.value)
                && !Access.Allowed(roles.db, Access.AccountStarts(roles.db, id), operation)
      ensures r == Err(Disabled) <==> FreshText(token, early) && exists id ::
                id in store.accounts && store.accounts[id].tokenHash == digest(token) && store.accounts[id].disabled
      ensures r == Err(Expired) <==> TokenExpiry(token).Some? && (FreshText(token, early) ==> exists id ::
                && id in store.accounts && store.accounts[id].tokenHash == digest(token)
                && !store.accounts[id].disabled
                && store.accounts[id].expiresAt.Some? && now > store.accounts[id].expiresAt.value)
      ensures r == Err(Invalid) <==>
                || TokenExpiry(token).None?
                || (&& FreshText(token, early)
                    && forall id :: id in store.accounts ==> store.accounts[id].tokenHash != digest(token))
    {
      ghost var t := roles.db;
      DecisionIff(store, digest, token, early, now, id => Access.Allowed(t, Access.AccountStarts(t, id), operation));
      var error := ValidateServiceTokenExpiry(token, early);
      match error {
        case Some(InvalidToken) => return Err(Invalid);
        case Some(TokenExpired) => return Err(Expired);
        case None =>
      }
      var hash := digest(token);
      if id :| id in store.accounts && store.accounts[id].tokenHash == hash {
        assert Carries(store, id, hash);
        var account := store.accounts[id];
        if account.disabled {
          return Err(Disabled);
        }
        if account.expiresAt.Some? && now > account.expiresAt.value {
          return Err(Expired);
        }
        var allowed := roles.PermitsAccount(id, operation);
        return if allowed then Ok(id) else Err(Denied);
      }
      return Err(Invalid);
    }
  }
}
