/** The in-memory store and the service calls on it, each proved to be one step of the session model. */
module AuthenticationService {
  import opened Wrappers
  import opened AuthSessions

  function CountHits(t: Target, sessions: seq<Session>): nat
  {
    if sessions == [] then 0
    else CountHits(t, sessions[..|sessions| - 1]) + if Hits(t, sessions[|sessions| - 1]) then 1 else 0
  }

  class InMemoryAuthStore {
    var accounts: map<string, Account>
    var sessions: seq<Session>
    var securityEvents: seq<string>

    ghost function State(): Store
      reads this
    {
      Store(accounts, sessions, securityEvents)
    }

    /** The sessions are the entries of a `Map` keyed by id. */
    ghost predicate Valid()
      reads this
    {
      forall i, j :: 0 <= i < j < |sessions| ==> sessions[i].id != sessions[j].id
    }

    constructor ()
      ensures State() == EMPTY && Valid()
    {
      accounts, sessions, securityEvents := map[], [], [];
    }

    method CreateAccount(account: Account) returns (created: bool)
      modifies this`accounts
      ensures created <==> !NameTaken(old(State()), account.normalizedUsername)
      ensures accounts == if created then old(accounts)[account.id := account] else old(accounts)
    {
      if exists id :: id in accounts && accounts[id].normalizedUsername == account.normalizedUsername { return false; }
      accounts := accounts[account.id := account];
      created := true;
    }

    method UpdatePasswordHash(id: string, passwordHash: string)
      modifies this`accounts
      ensures accounts == if id in old(accounts) then old(accounts)[id := old(accounts)[id].(passwordHash := passwordHash)] else old(accounts)
    {
      if id in accounts { accounts := accounts[id := accounts[id].(passwordHash := passwordHash)]; }
    }

    method ChangeCredentials(id: string, expectedVersion: nat, passwordHash: string) returns (updated: Option<Account>)
      modifies this`accounts
      ensures var matches := id in old(accounts) && old(accounts)[id].credentialVersion == expectedVersion;
              && updated == (if matches then Some(Changed(old(accounts)[id], passwordHash)) else None)
              && accounts == if matches then old(accounts)[id := Changed(old(accounts)[id], passwordHash)] else old(accounts)
    {
      if id !in accounts || accounts[id].credentialVersion != expectedVersion { return None; }
      var account := accounts[id].(passwordHash := passwordHash, credentialVersion := accounts[id].credentialVersion + 1);
      accounts := accounts[id := account];
      updated := Some(account);
    }

    method ResetCredentials(id: string, passwordHash: string)
      modifies this`accounts
      ensures accounts == if id in old(accounts) then old(accounts)[id := Changed(old(accounts)[id], passwordHash)] else old(accounts)
    {
      if id in accounts {
        accounts := accounts[id := accounts[id].(passwordHash := passwordHash, credentialVersion := accounts[id].credentialVersion + 1)];
      }
    }

    method CreateSession(session: Session)
      requires Valid()
      modifies this`sessions
      ensures Valid() && sessions == PutSession(old(sessions), session)
    {
      var i := IndexOfId(sessions, session.id);
      if i < 0 { sessions := sessions + [session]; } else { sessions := sessions[i := session]; }
    }

    method TouchSession(id: string, lastSeenAt: int, idleExpiresAt: int) returns (touched: bool)
      requires Valid()
      modifies this`sessions
      ensures Valid() && |sessions| == |old(sessions)|
      ensures touched <==> exists i :: 0 <= i < |sessions| && old(sessions)[i].id == id && old(sessions)[i].revokedAt.None?
      ensures forall i :: 0 <= i < |sessions| ==>
                (sessions[i] == if old(sessions)[i].id == id && old(sessions)[i].revokedAt.None?
                                then old(sessions)[i].(lastSeenAt := lastSeenAt, idleExpiresAt := idleExpiresAt)
                                else old(sessions)[i])
    {
      var i := IndexOfId(sessions, id);
      if i < 0 || sessions[i].revokedAt.Some? { return false; }
      sessions := sessions[i := sessions[i].(lastSeenAt := lastSeenAt, idleExpiresAt := idleExpiresAt)];
      touched := true;
    }

    method RevokeSession(id: string, revokedAt: int)
      requires Valid()
      modifies this`sessions
      ensures Valid() && sessions == Revoke(old(sessions), One(id), revokedAt)
    {
      var i := IndexOfId(sessions, id);
      if i >= 0 {
        var value := sessions[i];
        sessions := sessions[i := value.(revokedAt := if value.revokedAt.Some? then value.revokedAt else Some(revokedAt))];
      }
      assert sessions == Revoke(old(sessions), One(id), revokedAt);
    }

    method RevokeOwned(accountId: string, publicHandle: string, revokedAt: int) returns (found: bool)
      requires Valid()
      modifies this`sessions
      ensures Valid()
      ensures var i := IndexOfOwned(old(sessions), accountId, publicHandle);
              && (found <==> i >= 0)
              && sessions == if found then old(sessions)[i := old(sessions)[i].(revokedAt := Some(revokedAt))] else old(sessions)
    {
      var i := IndexOfOwned(sessions, accountId, publicHandle);
      if i < 0 { return false; }
      sessions := sessions[i := sessions[i].(revokedAt := Some(revokedAt))];
      found := true;
    }

    /** The loops of `revokeAllSessions` and `revokeOtherSessions`. */
    method RevokeEach(t: Target, revokedAt: int) returns (count: nat)
      requires Valid()
      modifies this`sessions
      ensures Valid() && sessions == Revoke(old(sessions), t, revokedAt)
      ensures count == CountHits(t, old(sessions))
    {
      hide Hits;
      count := 0;
      ghost var before, after := sessions, Revoke(sessions, t, revokedAt);
      for i := 0 to |sessions|
        invariant |sessions| == |before| && count == CountHits(t, before[..i])
        invariant forall k :: 0 <= k < i ==> sessions[k] == after[k]
        invariant forall k :: i <= k < |sessions| ==> sessions[k] == before[k]
      {
        assert before[..i + 1][..i] == before[..i];
        if Hits(t, sessions[i]) {
          sessions := sessions[i := sessions[i].(revokedAt := Some(revokedAt))];
          count := count + 1;
        }
      }
      assert before[..|before|] == before;
      assert sessions == after;
    }

    /** The catch branch of `transaction`: whatever the work did is undone. */
    method Restore(accounts: map<string, Account>, sessions: seq<Session>, securityEvents: seq<string>)
      modifies this
      ensures State() == Store(accounts, sessions, securityEvents)
    {
      this.accounts, this.sessions, this.securityEvents := accounts, sessions, securityEvents;
    }

    method RecordSecurityEvent(event: string)
      modifies this`securityEvents
      ensures securityEvents == old(securityEvents) + [event]
    {
      securityEvents := securityEvents + [event];
    }
  }

  method IssueSession(config: Config, store: InMemoryAuthStore, account: Account, now: int, r: Randomness) returns (session: Session)
    requires store.Valid()
    modifies store`sessions
    ensures store.Valid() && session == Issued(config, account, now, r)
    ensures store.sessions == PutSession(old(store.sessions), session)
  {
    session := Session(r.id, r.publicHandle, account.id, Sha256(r.token), account.credentialVersion, now, now,
                       now + config.absoluteSessionMs, now + config.idleSessionMs, None);
    store.CreateSession(session);
  }

  /** `sessionFails`: the session cannot be issued, and the transaction takes the account back. */
  method Register(config: Config, store: InMemoryAuthStore, account: Account, allowed: bool, now: int, r: Randomness, sessionFails: bool)
    returns (result: Result<Session, Error>)
    requires store.Valid()
    modifies store
    ensures store.Valid()
    ensures result == if !allowed then Failure(RateLimited)
                      else if NameTaken(old(store.State()), account.normalizedUsername) then Failure(IdentifierUnavailable)
                      else if sessionFails then Failure(Internal)
                      else Success(Issued(config, account, now, r))
    ensures store.State() == if result.Success? then RegisterStep(config, old(store.State()), account, allowed, now, r) else old(store.State())
    ensures !sessionFails ==> store.State() == RegisterStep(config, old(store.State()), account, allowed, now, r)
  {
    if !allowed { return Failure(RateLimited); }
    var accounts, sessions, securityEvents := store.accounts, store.sessions, store.securityEvents;
    var created := store.CreateAccount(account);
    if !created {
      store.Restore(accounts, sessions, securityEvents);
      return Failure(IdentifierUnavailable);
    }
    if sessionFails {
      store.Restore(accounts, sessions, securityEvents);
      return Failure(Internal);
    }
    var session := IssueSession(config, store, account, now, r);
    result := Success(session);
  }

  method Login(config: Config, store: InMemoryAuthStore, accountId: string, allowed: bool, passwordMatches: bool,
               rehash: Option<string>, now: int, r: Randomness)
    returns (result: Result<Session, Error>)
    requires store.Valid()
    modifies store
    ensures store.Valid()
    ensures store.State() == LoginStep(config, old(store.State()), accountId, allowed, passwordMatches, rehash, now, r)
    ensures !allowed ==> result == Failure(RateLimited)
    ensures allowed && !MayLogin(old(store.State()), accountId, allowed, passwordMatches) ==> result == Failure(AuthenticationFailed)
    ensures MayLogin(old(store.State()), accountId, allowed, passwordMatches) ==>
              result == Success(Issued(config, old(store.accounts)[accountId], now, r))
  {
    if !allowed { return Failure(RateLimited); }
    if accountId !in store.accounts || !passwordMatches || !store.accounts[accountId].active { return Failure(AuthenticationFailed); }
    var account := store.accounts[accountId];
    if rehash.Some? { store.UpdatePasswordHash(accountId, rehash.value); }
    var session := IssueSession(config, store, account, now, r);
    result := Success(session);
  }

  method Authenticate(config: Config, store: InMemoryAuthStore, token: string, now: int) returns (result: Result<Session, Error>)
    requires store.Valid()
    modifies store
    ensures store.Valid() && store.State() == AuthenticateStep(config, old(store.State()), token, now)
    ensures !Authenticates(old(store.State()), token, now) ==> result == Failure(Unauthenticated)
    ensures Authenticates(old(store.State()), token, now) ==>
              var s := old(store.sessions)[IndexOfToken(old(store.sessions), Sha256(token))];
              result == Success(s.(idleExpiresAt := Min(now + config.idleSessionMs, s.expiresAt)))
  {
    if !IsToken(token) { return Failure(Unauthenticated); }
    var i := IndexOfToken(store.sessions, Sha256(token));
    if i < 0 { return Failure(Unauthenticated); }
    var session := store.sessions[i];
    if session.accountId !in store.accounts { return Failure(Unauthenticated); }
    var account := store.accounts[session.accountId];
    if !account.active || account.credentialVersion != session.credentialVersion || session.revokedAt.Some?
       || now >= session.expiresAt || now >= session.idleExpiresAt {
      return Failure(Unauthenticated);
    }
    var idleExpiresAt := Min(now + config.idleSessionMs, session.expiresAt);
    var touched := store.TouchSession(session.id, now, idleExpiresAt);
    assert store.sessions == old(store.sessions)[i := Touched(config, session, now)];
    if !touched { return Failure(Unauthenticated); }
    result := Success(session.(idleExpiresAt := idleExpiresAt));
  }

  method Logout(store: InMemoryAuthStore, sessionId: string, now: int)
    requires store.Valid()
    modifies store
    ensures store.Valid() && store.State() == RevokeStep(old(store.State()), One(sessionId), now)
  {
    store.RevokeSession(sessionId, now);
  }

  /** `recordFails`: the security event cannot be recorded, and the transaction takes the revocations back. */
  method LogoutAll(store: InMemoryAuthStore, accountId: string, now: int, recordFails: bool) returns (done: bool)
    requires store.Valid()
    modifies store
    ensures store.Valid() && (done <==> !recordFails)
    ensures store.State() == if done then RevokeStep(old(store.State()), All(accountId), now) else old(store.State())
  {
    done := RevokeAndRecord(store, All(accountId), now, recordFails);
  }

  method LogoutOthers(store: InMemoryAuthStore, accountId: string, currentSessionId: string, now: int, recordFails: bool) returns (done: bool)
    requires store.Valid()
    modifies store
    ensures store.Valid() && (done <==> !recordFails)
    ensures store.State() == if done then RevokeStep(old(store.State()), Others(accountId, currentSessionId), now) else old(store.State())
  {
    done := RevokeAndRecord(store, Others(accountId, currentSessionId), now, recordFails);
  }

  method RevokeAndRecord(store: InMemoryAuthStore, t: Target, now: int, recordFails: bool) returns (done: bool)
    requires store.Valid() && !t.One?
    modifies store
    ensures store.Valid() && (done <==> !recordFails)
    ensures store.State() == if done then RevokeStep(old(store.State()), t, now) else old(store.State())
  {
    var accounts, sessions, securityEvents := store.accounts, store.sessions, store.securityEvents;
    var _ := store.RevokeEach(t, now);
    if recordFails {
      store.Restore(accounts, sessions, securityEvents);
      return false;
    }
    store.RecordSecurityEvent("sessions_revoked");
    done := true;
  }

  method RevokeOwnedSession(store: InMemoryAuthStore, accountId: string, publicHandle: string, now: int, recordFails: bool)
    returns (result: Result<bool, Error>)
    requires store.Valid()
    modifies store
    ensures store.Valid()
    ensures var found := IndexOfOwned(old(store.sessions), accountId, publicHandle) >= 0;
            && result == (if found && recordFails then Failure(Internal) else Success(found))
            && store.State() == if result.Success? then RevokeOwnedStep(old(store.State()), accountId, publicHandle, now) else old(store.State())
  {
    var accounts, sessions, securityEvents := store.accounts, store.sessions, store.securityEvents;
    var revoked := store.RevokeOwned(accountId, publicHandle, now);
    if revoked {
      if recordFails {
        store.Restore(accounts, sessions, securityEvents);
        return Failure(Internal);
      }
      store.RecordSecurityEvent("sessions_revoked");
    }
    result := Success(revoked);
  }

  /** The writes of the transaction in `changePassword`; `failsAfter` of them succeed before one throws. */
  const CHANGE_WRITES: nat := 4

  method ChangePassword(config: Config, store: InMemoryAuthStore, accountId: string, currentMatches: bool, newMatches: bool,
                        passwordHash: string, now: int, r: Randomness, failsAfter: nat)
    returns (result: Result<Session, Error>)
    requires store.Valid()
    modifies store
    ensures store.Valid()
    ensures var may := MayChange(old(store.State()), accountId, currentMatches, newMatches);
            && (!may ==> result == Failure(AuthenticationFailed))
            && (may && failsAfter < CHANGE_WRITES ==> result == Failure(Internal))
            && (may && failsAfter >= CHANGE_WRITES ==> result.Success? && result.value.id == r.id)
    ensures store.State() ==
              if result.Success?
              then ChangePasswordStep(config, old(store.State()), accountId, currentMatches, newMatches, passwordHash, now, r)
              else old(store.State())
  {
    if accountId !in store.accounts || !store.accounts[accountId].active || !currentMatches { return Failure(AuthenticationFailed); }
    if newMatches { return Failure(AuthenticationFailed); }
    var account := store.accounts[accountId];
    var accounts, sessions, securityEvents := store.accounts, store.sessions, store.securityEvents;
    var done := ChangeCredentialsAndRevoke(store, account, accountId, passwordHash, now, failsAfter);
    if !done {
      store.Restore(accounts, sessions, securityEvents);
      return Failure(Internal);
    }
    var session := IssueSession(config, store, Changed(account, passwordHash), now, r);
    result := Success(session);
  }

  /** The first three writes, and the failure of any of the four. */
  method ChangeCredentialsAndRevoke(store: InMemoryAuthStore, account: Account, accountId: string, passwordHash: string, now: int, failsAfter: nat)
    returns (done: bool)
    requires store.Valid() && accountId in store.accounts && store.accounts[accountId] == account
    modifies store
    ensures store.Valid() && (done <==> failsAfter >= CHANGE_WRITES)
    ensures done ==> store.accounts == old(store.accounts)[accountId := Changed(account, passwordHash)]
                     && store.sessions == Revoke(old(store.sessions), All(accountId), now)
                     && store.securityEvents == old(store.securityEvents) + ["credentials_changed"]
  {
    if failsAfter == 0 { return false; }
    var updated := store.ChangeCredentials(accountId, account.credentialVersion, passwordHash);
    if updated.None? || failsAfter == 1 { return false; }
    var _ := store.RevokeEach(All(accountId), now);
    if failsAfter == 2 { return false; }
    store.RecordSecurityEvent("credentials_changed");
    done := failsAfter >= CHANGE_WRITES;
  }

  /** `revokeFails`: the revocation cannot be written, and the new credentials are taken back. */
  method ResetCredentials(store: InMemoryAuthStore, accountId: string, passwordHash: string, now: int, revokeFails: bool) returns (done: bool)
    requires store.Valid()
    modifies store
    ensures store.Valid() && (done <==> !revokeFails)
    ensures store.State() == if done then ResetStep(old(store.State()), accountId, passwordHash, now) else old(store.State())
  {
    var accounts, sessions, securityEvents := store.accounts, store.sessions, store.securityEvents;
    store.ResetCredentials(accountId, passwordHash);
    if revokeFails {
      store.Restore(accounts, sessions, securityEvents);
      return false;
    }
    var _ := store.RevokeEach(All(accountId), now);
    done := true;
  }
}
