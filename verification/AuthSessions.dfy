/**
 Sessions of accounts: what the service calls do to the in-memory store, each call taken as one
 step, and what every run of calls keeps.
 */
module AuthSessions {
  import opened Wrappers

  /** `protectSessionToken`, an injective digest represented by its preimage. */
  datatype Digest = Sha256(token: string)

  datatype Account = Account(id: string, normalizedUsername: string, passwordHash: string, active: bool, credentialVersion: nat)

  datatype Session = Session(
    id: string, publicHandle: string, accountId: string, tokenHash: Digest, credentialVersion: nat,
    createdAt: int, lastSeenAt: int, expiresAt: int, idleExpiresAt: int, revokedAt: Option<int>)

  /** Sessions stand in insertion order, as the iteration of a `Map` sees them. */
  datatype Store = Store(accounts: map<string, Account>, sessions: seq<Session>, securityEvents: seq<string>)

  datatype Config = Config(absoluteSessionMs: nat, idleSessionMs: nat)

  /** The random values of one issued session. */
  datatype Randomness = Randomness(id: string, token: string, publicHandle: string)

  datatype Error = AuthenticationFailed | IdentifierUnavailable | RateLimited | Unauthenticated | Internal

  // ----- the store -----

  /** The index of the first session with the digest, or -1. */
  function IndexOfToken(sessions: seq<Session>, hash: Digest): (i: int)
    ensures -1 <= i < |sessions|
    ensures i >= 0 ==> sessions[i].tokenHash == hash
    ensures i < 0 ==> forall k :: 0 <= k < |sessions| ==> sessions[k].tokenHash != hash
  {
    if sessions == [] then -1
    else if sessions[0].tokenHash == hash then 0
    else
      var i := IndexOfToken(sessions[1..], hash);
      if i < 0 then -1 else i + 1
  }

  function IndexOfId(sessions: seq<Session>, id: string): (i: int)
    ensures -1 <= i < |sessions|
    ensures i >= 0 ==> sessions[i].id == id
    ensures i < 0 ==> forall k :: 0 <= k < |sessions| ==> sessions[k].id != id
  {
    if sessions == [] then -1
    else if sessions[0].id == id then 0
    else
      var i := IndexOfId(sessions[1..], id);
      if i < 0 then -1 else i + 1
  }

  /** `Map.set` keeps the place of a key that is present. */
  function PutSession(sessions: seq<Session>, s: Session): seq<Session>
  {
    var i := IndexOfId(sessions, s.id);
    if i < 0 then sessions + [s] else sessions[i := s]
  }

  /** Which unrevoked sessions a call revokes. */
  datatype Target = One(id: string) | All(accountId: string) | Others(accountId: string, currentId: string)

  predicate Hits(t: Target, s: Session)
  {
    && s.revokedAt.None?
    && match t
       case One(id) => s.id == id
       case All(accountId) => s.accountId == accountId
       case Others(accountId, currentId) => s.accountId == accountId && s.id != currentId
  }

  function Revoke(sessions: seq<Session>, t: Target, at: int): seq<Session>
  {
    seq(|sessions|, i requires 0 <= i < |sessions| =>
      if Hits(t, sessions[i]) then sessions[i].(revokedAt := Some(at)) else sessions[i])
  }

  /** The first unrevoked session of the account with the handle, or -1. */
  function IndexOfOwned(sessions: seq<Session>, accountId: string, handle: string): (i: int)
    ensures -1 <= i < |sessions|
    ensures i >= 0 ==> sessions[i].accountId == accountId && sessions[i].publicHandle == handle && sessions[i].revokedAt.None?
    ensures i < 0 ==> forall k :: 0 <= k < |sessions| ==>
              !(sessions[k].accountId == accountId && sessions[k].publicHandle == handle && sessions[k].revokedAt.None?)
  {
    if sessions == [] then -1
    else if sessions[0].accountId == accountId && sessions[0].publicHandle == handle && sessions[0].revokedAt.None? then 0
    else
      var i := IndexOfOwned(sessions[1..], accountId, handle);
      if i < 0 then -1 else i + 1
  }

  // ----- the service -----

  /** The session that `issueSession` makes. */
  function Issued(c: Config, account: Account, now: int, r: Randomness): Session
  {
    Session(r.id, r.publicHandle, account.id, Sha256(r.token), account.credentialVersion, now, now,
            now + c.absoluteSessionMs, now + c.idleSessionMs, None)
  }

  /** What `authenticate` and `listSessions` ask of a session. */
  predicate IsLive(st: Store, s: Session, now: int)
  {
    && s.accountId in st.accounts
    && st.accounts[s.accountId].active
    && st.accounts[s.accountId].credentialVersion == s.credentialVersion
    && s.revokedAt.None?
    && now < s.expiresAt && now < s.idleExpiresAt
  }

  function Min(a: int, b: int): int { if a <= b then a else b }

  function Touched(c: Config, s: Session, now: int): Session
  {
    s.(lastSeenAt := now, idleExpiresAt := Min(now + c.idleSessionMs, s.expiresAt))
  }

  predicate IsTokenChar(ch: char)
  {
    'A' <= ch <= 'Z' || 'a' <= ch <= 'z' || '0' <= ch <= '9' || ch == '_' || ch == '-'
  }

  predicate IsToken(token: string)
  {
    |token| == 43 && forall i :: 0 <= i < |token| ==> IsTokenChar(token[i])
  }

  /** Whether a token authenticates now. */
  predicate Authenticates(st: Store, token: string, now: int)
  {
    IsToken(token) && IndexOfToken(st.sessions, Sha256(token)) >= 0
    && IsLive(st, st.sessions[IndexOfToken(st.sessions, Sha256(token))], now)
  }

  function AuthenticateStep(c: Config, st: Store, token: string, now: int): Store
  {
    if !Authenticates(st, token, now) then st
    else
      var i := IndexOfToken(st.sessions, Sha256(token));
      st.(sessions := st.sessions[i := Touched(c, st.sessions[i], now)])
  }

  /** `logoutOthers` and its kin record one security event. */
  function RevokeStep(st: Store, t: Target, now: int): Store
  {
    var revoked := st.(sessions := Revoke(st.sessions, t, now));
    if t.One? then revoked else revoked.(securityEvents := revoked.securityEvents + ["sessions_revoked"])
  }

  function RevokeOwnedStep(st: Store, accountId: string, handle: string, now: int): Store
  {
    var i := IndexOfOwned(st.sessions, accountId, handle);
    if i < 0 then st
    else st.(sessions := st.sessions[i := st.sessions[i].(revokedAt := Some(now))],
             securityEvents := st.securityEvents + ["sessions_revoked"])
  }

  predicate NameTaken(st: Store, name: string)
  {
    exists id :: id in st.accounts && st.accounts[id].normalizedUsername == name
  }

  /** A registration that is not turned away and whose name is free. */
  function RegisterStep(c: Config, st: Store, account: Account, allowed: bool, now: int, r: Randomness): Store
  {
    if !allowed || NameTaken(st, account.normalizedUsername) then st
    else st.(accounts := st.accounts[account.id := account],
             sessions := PutSession(st.sessions, Issued(c, account, now, r)))
  }

  /** `passwordMatches` is the answer of the password hasher, `rehash` a stronger hash to store. */
  predicate MayLogin(st: Store, accountId: string, allowed: bool, passwordMatches: bool)
  {
    allowed && accountId in st.accounts && passwordMatches && st.accounts[accountId].active
  }

  function LoginStep(c: Config, st: Store, accountId: string, allowed: bool, passwordMatches: bool, rehash: Option<string>,
                     now: int, r: Randomness): Store
  {
    if !MayLogin(st, accountId, allowed, passwordMatches) then st
    else
      var account := st.accounts[accountId];
      st.(accounts := if rehash.Some? then st.accounts[accountId := account.(passwordHash := rehash.value)] else st.accounts,
          sessions := PutSession(st.sessions, Issued(c, account, now, r)))
  }

  predicate MayChange(st: Store, accountId: string, currentMatches: bool, newMatches: bool)
  {
    accountId in st.accounts && st.accounts[accountId].active && currentMatches && !newMatches
  }

  function Changed(account: Account, passwordHash: string): Account
  {
    account.(passwordHash := passwordHash, credentialVersion := account.credentialVersion + 1)
  }

  function ChangePasswordStep(c: Config, st: Store, accountId: string, currentMatches: bool, newMatches: bool,
                              passwordHash: string, now: int, r: Randomness): Store
  {
    if !MayChange(st, accountId, currentMatches, newMatches) then st
    else
      var account := Changed(st.accounts[accountId], passwordHash);
      Store(st.accounts[accountId := account],
            PutSession(Revoke(st.sessions, All(accountId), now), Issued(c, account, now, r)),
            st.securityEvents + ["credentials_changed"])
  }

  function ResetStep(st: Store, accountId: string, passwordHash: string, now: int): Store
  {
    st.(accounts := if accountId in st.accounts then st.accounts[accountId := Changed(st.accounts[accountId], passwordHash)]
                    else st.accounts,
        sessions := Revoke(st.sessions, All(accountId), now))
  }

  datatype Event =
    | Register(account: Account, allowed: bool, now: int, r: Randomness)
    | Login(accountId: string, allowed: bool, passwordMatches: bool, rehash: Option<string>, now: int, r: Randomness)
    | Authenticate(token: string, now: int)
    | Logout(t: Target, now: int)
    | RevokeOwned(accountId: string, handle: string, now: int)
    | ChangePassword(accountId: string, currentMatches: bool, newMatches: bool, passwordHash: string, now: int, r: Randomness)
    | Reset(accountId: string, passwordHash: string, now: int)

  function Step(c: Config, st: Store, e: Event): Store
  {
    match e
    case Register(account, allowed, now, r) => RegisterStep(c, st, account, allowed, now, r)
    case Login(accountId, allowed, matches, rehash, now, r) => LoginStep(c, st, accountId, allowed, matches, rehash, now, r)
    case Authenticate(token, now) => AuthenticateStep(c, st, token, now)
    case Logout(t, now) => RevokeStep(st, t, now)
    case RevokeOwned(accountId, handle, now) => RevokeOwnedStep(st, accountId, handle, now)
    case ChangePassword(accountId, current, new_, hash, now, r) => ChangePasswordStep(c, st, accountId, current, new_, hash, now, r)
    case Reset(accountId, hash, now) => ResetStep(st, accountId, hash, now)
  }

  /** Random values are new, and a registered account starts with a new id. */
  predicate IsFresh(st: Store, r: Randomness)
  {
    && IsToken(r.token)
    && forall i :: 0 <= i < |st.sessions| ==> st.sessions[i].id != r.id && st.sessions[i].tokenHash != Sha256(r.token)
  }

  predicate Legal(st: Store, e: Event)
  {
    match e
    case Register(account, _, _, r) => account.id !in st.accounts && IsFresh(st, r)
    case Login(_, _, _, _, _, r) => IsFresh(st, r)
    case ChangePassword(_, _, _, _, _, r) => IsFresh(st, r)
    case _ => true
  }

  // ----- sessions only age -----

  /** What no call changes about a session, and that a revocation stays. */
  predicate Ages(s: Session, later: Session)
  {
    && later.id == s.id && later.tokenHash == s.tokenHash && later.accountId == s.accountId
    && later.publicHandle == s.publicHandle && later.credentialVersion == s.credentialVersion
    && later.createdAt == s.createdAt && later.expiresAt == s.expiresAt
    && (s.revokedAt.Some? ==> later == s)
  }

  ghost predicate Descends(st: Store, later: Store)
  {
    && |st.sessions| <= |later.sessions|
    && (forall i :: 0 <= i < |st.sessions| ==> Ages(st.sessions[i], later.sessions[i]))
    && (forall id :: id in st.accounts ==>
          id in later.accounts && st.accounts[id].credentialVersion <= later.accounts[id].credentialVersion)
  }

  /** Ids, digests, expiry and versions of every reachable store. */
  ghost predicate Sound(c: Config, st: Store)
  {
    && DistinctSessions(st.sessions)
    && (forall i :: 0 <= i < |st.sessions| ==> IsSound(c, st, st.sessions[i]))
    && (forall id :: id in st.accounts ==> st.accounts[id].id == id)
  }

  ghost predicate DistinctSessions(sessions: seq<Session>)
  {
    forall i, j :: 0 <= i < j < |sessions| ==> sessions[i].id != sessions[j].id && sessions[i].tokenHash != sessions[j].tokenHash
  }

  ghost predicate IsSound(c: Config, st: Store, s: Session)
  {
    && s.expiresAt == s.createdAt + c.absoluteSessionMs
    && (c.idleSessionMs <= c.absoluteSessionMs ==> s.idleExpiresAt <= s.expiresAt)
    && s.accountId in st.accounts && s.credentialVersion <= st.accounts[s.accountId].credentialVersion
    && IsToken(s.tokenHash.token)
  }

  lemma RegisterDescends(c: Config, st: Store, account: Account, allowed: bool, now: int, r: Randomness)
    requires account.id !in st.accounts && IsFresh(st, r)
    ensures Descends(st, RegisterStep(c, st, account, allowed, now, r))
  {
    hide NameTaken, IsToken;
  }

  lemma LoginDescends(c: Config, st: Store, accountId: string, allowed: bool, matches: bool, rehash: Option<string>, now: int, r: Randomness)
    requires IsFresh(st, r)
    ensures Descends(st, LoginStep(c, st, accountId, allowed, matches, rehash, now, r))
  {
    hide IsToken;
  }

  lemma AuthenticateDescends(c: Config, st: Store, token: string, now: int)
    ensures Descends(st, AuthenticateStep(c, st, token, now))
  {
    hide IsToken, IndexOfToken;
  }

  lemma RevokedAges(sessions: seq<Session>, t: Target, now: int)
    ensures var revoked := Revoke(sessions, t, now);
            |revoked| == |sessions| && forall i :: 0 <= i < |revoked| ==> Ages(sessions[i], revoked[i])
  {
  }

  lemma RevokeDescends(st: Store, t: Target, now: int)
    ensures Descends(st, st.(sessions := Revoke(st.sessions, t, now)))
  {
    hide Revoke, Ages;
    RevokedAges(st.sessions, t, now);
  }

  lemma RevokeOwnedDescends(st: Store, accountId: string, handle: string, now: int)
    ensures Descends(st, RevokeOwnedStep(st, accountId, handle, now))
  {
    hide IndexOfOwned;
  }

  lemma ChangeDescends(c: Config, st: Store, accountId: string, currentMatches: bool, newMatches: bool,
                       passwordHash: string, now: int, r: Randomness)
    requires IsFresh(st, r)
    ensures Descends(st, ChangePasswordStep(c, st, accountId, currentMatches, newMatches, passwordHash, now, r))
  {
    hide IsToken, MayChange, Revoke;
    RevokedAges(st.sessions, All(accountId), now);
  }

  lemma StepDescends(c: Config, st: Store, e: Event)
    requires Legal(st, e)
    ensures Descends(st, Step(c, st, e))
  {
    hide RegisterStep, LoginStep, AuthenticateStep, RevokeOwnedStep, ChangePasswordStep, Revoke, IsFresh, Ages;
    match e
    case Register(account, allowed, now, r) => RegisterDescends(c, st, account, allowed, now, r);
    case Login(accountId, allowed, matches, rehash, now, r) => LoginDescends(c, st, accountId, allowed, matches, rehash, now, r);
    case Authenticate(token, now) => AuthenticateDescends(c, st, token, now);
    case Logout(t, now) => RevokeDescends(st, t, now);
    case RevokeOwned(accountId, handle, now) => RevokeOwnedDescends(st, accountId, handle, now);
    case ChangePassword(accountId, current, new_, hash, now, r) => ChangeDescends(c, st, accountId, current, new_, hash, now, r);
    case Reset(accountId, _, now) => RevokeDescends(st, All(accountId), now);
  }

  lemma RegisterIsSound(c: Config, st: Store, account: Account, allowed: bool, now: int, r: Randomness)
    requires Sound(c, st) && IsFresh(st, r) && account.id !in st.accounts
    ensures Sound(c, RegisterStep(c, st, account, allowed, now, r))
  {
  }

  lemma LoginIsSound(c: Config, st: Store, accountId: string, allowed: bool, matches: bool, rehash: Option<string>, now: int, r: Randomness)
    requires Sound(c, st) && IsFresh(st, r)
    ensures Sound(c, LoginStep(c, st, accountId, allowed, matches, rehash, now, r))
  {
  }

  /** Sessions that only aged, with the idle limit unchanged or capped, keep a store sound. */
  lemma AgedIsSound(c: Config, st: Store, later: Store)
    requires Sound(c, st) && Descends(st, later) && Capped(st, later)
    ensures Sound(c, later)
  {
  }

  ghost predicate Capped(st: Store, later: Store)
  {
    && |later.sessions| == |st.sessions|
    && (forall i :: 0 <= i < |st.sessions| ==>
          later.sessions[i].idleExpiresAt == st.sessions[i].idleExpiresAt || later.sessions[i].idleExpiresAt <= st.sessions[i].expiresAt)
    && (forall id :: id in later.accounts ==> id in st.accounts && later.accounts[id].id == st.accounts[id].id)
  }

  /** All sessions of the account are revoked and its version has moved on. */
  function Cut(st: Store, accountId: string, passwordHash: string, now: int): Store
    requires accountId in st.accounts
  {
    Store(st.accounts[accountId := Changed(st.accounts[accountId], passwordHash)],
          Revoke(st.sessions, All(accountId), now), st.securityEvents + ["credentials_changed"])
  }

  lemma CutAges(st: Store, accountId: string, passwordHash: string, now: int, r: Randomness)
    requires accountId in st.accounts
    ensures var cut := Cut(st, accountId, passwordHash, now);
            Descends(st, cut) && Capped(st, cut) && (IsFresh(st, r) ==> IsFresh(cut, r))
  {
  }

  lemma IssuedIsSound(c: Config, st: Store, account: Account, now: int, r: Randomness)
    requires Sound(c, st) && IsFresh(st, r) && account.id in st.accounts && st.accounts[account.id] == account
    ensures Sound(c, st.(sessions := PutSession(st.sessions, Issued(c, account, now, r))))
  {
  }

  lemma ChangeIsSound(c: Config, st: Store, accountId: string, current: bool, new_: bool, passwordHash: string, now: int, r: Randomness)
    requires Sound(c, st) && IsFresh(st, r)
    ensures Sound(c, ChangePasswordStep(c, st, accountId, current, new_, passwordHash, now, r))
  {
    if MayChange(st, accountId, current, new_) {
      hide Descends, Capped, IsFresh, DistinctSessions, IsSound, Revoke;
      var cut := Cut(st, accountId, passwordHash, now);
      CutAges(st, accountId, passwordHash, now, r);
      AgedIsSound(c, st, cut);
      IssuedIsSound(c, cut, Changed(st.accounts[accountId], passwordHash), now, r);
    }
  }

  /** Calls that issue no session. */
  lemma AgingIsSound(c: Config, st: Store, e: Event)
    requires Sound(c, st) && (e.Authenticate? || e.Logout? || e.RevokeOwned? || e.Reset?)
    ensures Sound(c, Step(c, st, e))
  {
    hide Sound, Descends, Capped, Step;
    StepDescends(c, st, e);
    AgingIsCapped(c, st, e);
    AgedIsSound(c, st, Step(c, st, e));
  }

  lemma AgingIsCapped(c: Config, st: Store, e: Event)
    requires e.Authenticate? || e.Logout? || e.RevokeOwned? || e.Reset?
    ensures Capped(st, Step(c, st, e))
  {
  }

  lemma StepKeepsSound(c: Config, st: Store, e: Event)
    requires Legal(st, e) && Sound(c, st)
    ensures Sound(c, Step(c, st, e))
  {
    hide Sound, IsFresh, RegisterStep, LoginStep, ChangePasswordStep, AuthenticateStep, RevokeStep, RevokeOwnedStep, ResetStep;
    match e
    case Register(account, allowed, now, r) => RegisterIsSound(c, st, account, allowed, now, r);
    case Login(accountId, allowed, matches, rehash, now, r) => LoginIsSound(c, st, accountId, allowed, matches, rehash, now, r);
    case ChangePassword(accountId, current, new_, hash, now, r) => ChangeIsSound(c, st, accountId, current, new_, hash, now, r);
    case Authenticate(_, _) => AgingIsSound(c, st, e);
    case Logout(_, _) => AgingIsSound(c, st, e);
    case RevokeOwned(_, _, _) => AgingIsSound(c, st, e);
    case Reset(_, _, _) => AgingIsSound(c, st, e);
  }

  // ----- runs -----

  ghost predicate Runs(c: Config, st: Store, events: seq<Event>)
    decreases |events|
  {
    events == [] || (Legal(st, events[0]) && Runs(c, Step(c, st, events[0]), events[1..]))
  }

  function After(c: Config, st: Store, events: seq<Event>): Store
    decreases |events|
  {
    if events == [] then st else After(c, Step(c, st, events[0]), events[1..])
  }

  const EMPTY := Store(map[], [], [])

  lemma {:induction false} RunKeepsSound(c: Config, st: Store, events: seq<Event>)
    requires Runs(c, st, events) && Sound(c, st)
    ensures Sound(c, After(c, st, events))
    decreases |events|
  {
    hide Sound, Legal, Step;
    if events != [] {
      StepKeepsSound(c, st, events[0]);
      RunKeepsSound(c, Step(c, st, events[0]), events[1..]);
    }
  }

  lemma DescendsIsTransitive(a: Store, b: Store, c: Store)
    requires Descends(a, b) && Descends(b, c)
    ensures Descends(a, c)
  {
  }

  /** Over any run a session keeps its owner and its expiry, and once revoked it never changes. */
  lemma {:induction false} SessionsOnlyAge(c: Config, st: Store, events: seq<Event>)
    requires Runs(c, st, events)
    ensures Descends(st, After(c, st, events))
    decreases |events|
  {
    hide Descends, Legal, Step;
    if events == [] {
      DescendsIsReflexive(st);
    } else {
      StepDescends(c, st, events[0]);
      SessionsOnlyAge(c, Step(c, st, events[0]), events[1..]);
      DescendsIsTransitive(st, Step(c, st, events[0]), After(c, st, events));
    }
  }

  lemma DescendsIsReflexive(st: Store)
    ensures Descends(st, st)
  {
  }

  // ----- what authenticates -----

  lemma {:induction false} TokenFindsItsSession(sessions: seq<Session>, i: nat)
    requires DistinctSessions(sessions) && i < |sessions|
    ensures IndexOfToken(sessions, sessions[i].tokenHash) == i
  {
  }

  /** In a sound store a session's token authenticates exactly while the session is live. */
  lemma LiveIsAuthentic(c: Config, st: Store, i: nat, now: int)
    requires Sound(c, st) && i < |st.sessions|
    ensures Authenticates(st, st.sessions[i].tokenHash.token, now) <==> IsLive(st, st.sessions[i], now)
  {
    hide IsToken, IsLive;
    TokenFindsItsSession(st.sessions, i);
    assert IsSound(c, st, st.sessions[i]);
  }

  /** No use of a session carries it past the expiry fixed when it was issued. */
  lemma NothingOutlivesItsExpiry(c: Config, st: Store, events: seq<Event>, i: nat, now: int)
    requires Runs(c, st, events) && Sound(c, st) && i < |st.sessions|
    requires now >= st.sessions[i].createdAt + c.absoluteSessionMs
    ensures !Authenticates(After(c, st, events), st.sessions[i].tokenHash.token, now)
  {
    hide Sound, Runs, After, Authenticates;
    var later := After(c, st, events);
    SessionsOnlyAge(c, st, events);
    RunKeepsSound(c, st, events);
    SoundAt(c, st, i);
    LiveIsAuthentic(c, later, i, now);
  }

  lemma SoundAt(c: Config, st: Store, i: nat)
    requires Sound(c, st) && i < |st.sessions|
    ensures IsSound(c, st, st.sessions[i])
  {
  }

  /** A revoked session never authenticates again, whatever follows. */
  lemma RevokedStaysOut(c: Config, st: Store, events: seq<Event>, i: nat, now: int)
    requires Runs(c, st, events) && Sound(c, st) && i < |st.sessions| && st.sessions[i].revokedAt.Some?
    ensures !Authenticates(After(c, st, events), st.sessions[i].tokenHash.token, now)
  {
    hide Sound, Runs, After, Authenticates;
    SessionsOnlyAge(c, st, events);
    RunKeepsSound(c, st, events);
    LiveIsAuthentic(c, After(c, st, events), i, now);
  }

  /** In reachable stores the idle limit lies within the absolute one when the configuration says so. */
  lemma IdleWithinAbsolute(c: Config, events: seq<Event>, i: nat)
    requires Runs(c, EMPTY, events) && c.idleSessionMs <= c.absoluteSessionMs
    requires i < |After(c, EMPTY, events).sessions|
    ensures var s := After(c, EMPTY, events).sessions[i];
            s.idleExpiresAt <= s.expiresAt && s.expiresAt == s.createdAt + c.absoluteSessionMs
  {
    hide Runs, After;
    RunKeepsSound(c, EMPTY, events);
    SoundAt(c, After(c, EMPTY, events), i);
  }

  // ----- changing a password -----

  /** Right after a change the returned session, while its limits are positive, is the only one of its account that authenticates. */
  lemma OnlyTheReturnedSession(c: Config, st: Store, accountId: string, passwordHash: string, now: int, r: Randomness, i: nat)
    requires Sound(c, st) && IsFresh(st, r) && MayChange(st, accountId, true, false)
    requires var later := ChangePasswordStep(c, st, accountId, true, false, passwordHash, now, r);
             i < |later.sessions| && later.sessions[i].accountId == accountId
    ensures var later := ChangePasswordStep(c, st, accountId, true, false, passwordHash, now, r);
            Authenticates(later, later.sessions[i].tokenHash.token, now)
            <==> later.sessions[i].id == r.id && c.absoluteSessionMs > 0 && c.idleSessionMs > 0
  {
    hide Sound, Authenticates;
    var later := ChangePasswordStep(c, st, accountId, true, false, passwordHash, now, r);
    ChangeIsSound(c, st, accountId, true, false, passwordHash, now, r);
    LiveIsAuthentic(c, later, i, now);
  }

  /** The sessions from before a password change never authenticate again, in any continuation. */
  lemma OldSessionsStayOut(c: Config, st: Store, accountId: string, passwordHash: string, now: int, r: Randomness,
                           events: seq<Event>, i: nat, later: int)
    requires Sound(c, st) && IsFresh(st, r) && MayChange(st, accountId, true, false)
    requires Runs(c, ChangePasswordStep(c, st, accountId, true, false, passwordHash, now, r), events)
    requires i < |st.sessions| && st.sessions[i].accountId == accountId
    ensures !Authenticates(After(c, ChangePasswordStep(c, st, accountId, true, false, passwordHash, now, r), events),
                           st.sessions[i].tokenHash.token, later)
  {
    hide Sound, Authenticates, Runs, After;
    var changed := ChangePasswordStep(c, st, accountId, true, false, passwordHash, now, r);
    ChangeIsSound(c, st, accountId, true, false, passwordHash, now, r);
    RevokedStaysOut(c, changed, events, i, later);
  }

  // ----- logging out -----

  /** A logout call ends exactly the sessions it aims at and no other. */
  lemma LogoutIsExact(c: Config, st: Store, t: Target, now: int, i: nat, later: int)
    requires Sound(c, st) && i < |st.sessions|
    ensures var s := st.sessions[i];
            var aimed := match t
                         case One(id) => s.id == id
                         case All(accountId) => s.accountId == accountId
                         case Others(accountId, currentId) => s.accountId == accountId && s.id != currentId;
            Authenticates(RevokeStep(st, t, now), s.tokenHash.token, later) <==> Authenticates(st, s.tokenHash.token, later) && !aimed
  {
    hide Sound, Authenticates;
    AgingIsSound(c, st, Logout(t, now));
    LiveIsAuthentic(c, st, i, later);
    LiveIsAuthentic(c, RevokeStep(st, t, now), i, later);
  }

  // ----- every call, exactly -----

  /** A token authenticates exactly through an unrevoked session of an active account, at its version and within both limits. */
  lemma AuthenticatesExactly(c: Config, st: Store, token: string, now: int)
    requires Sound(c, st)
    ensures Authenticates(st, token, now) <==>
              exists i :: 0 <= i < |st.sessions|
                && var s := st.sessions[i];
                && s.tokenHash == Sha256(token) && s.revokedAt == None && now < s.expiresAt && now < s.idleExpiresAt
                && s.accountId in st.accounts && st.accounts[s.accountId].active
                && s.credentialVersion == st.accounts[s.accountId].credentialVersion
  {
    hide DistinctSessions;
    if i: int :| 0 <= i < |st.sessions| && st.sessions[i].tokenHash == Sha256(token) && IsLive(st, st.sessions[i], now) {
      TokenFindsItsSession(st.sessions, i);
    }
  }

  /** Only texts of 43 characters of the URL-safe base 64 alphabet are tokens. */
  lemma TokensAre(token: string)
    ensures IsToken(token) <==> |token| == 43 && forall i :: 0 <= i < 43 ==>
              'A' <= token[i] <= 'Z' || 'a' <= token[i] <= 'z' || '0' <= token[i] <= '9' || token[i] == '-' || token[i] == '_'
  {
  }

  /** Putting a session replaces the one with its id in place, or appends. */
  lemma PutIsMapSet(sessions: seq<Session>, s: Session)
    ensures var put := PutSession(sessions, s);
            && (forall i :: 0 <= i < |sessions| && sessions[i].id != s.id ==> i < |put| && put[i] == sessions[i])
            && (if forall i :: 0 <= i < |sessions| ==> sessions[i].id != s.id then put == sessions + [s]
                else |put| == |sessions| && exists i :: 0 <= i < |sessions| && sessions[i].id == s.id && put[i] == s)
  {
  }

  /** What each call records for the account's security log. */
  lemma EventsAreRecorded(c: Config, st: Store, e: Event)
    ensures Step(c, st, e).securityEvents == st.securityEvents +
              match e
              case Logout(t, _) => if t.One? then [] else ["sessions_revoked"]
              case RevokeOwned(accountId, handle, _) =>
                if exists i :: 0 <= i < |st.sessions| && IsHandle(st.sessions[i], accountId, handle) then ["sessions_revoked"] else []
              case ChangePassword(accountId, current, reused, _, _, _) =>
                if current && !reused && accountId in st.accounts && st.accounts[accountId].active then ["credentials_changed"] else []
              case _ => []
  {
    assert st.securityEvents + [] == st.securityEvents;
    if e.RevokeOwned? {
      var i := IndexOfOwned(st.sessions, e.accountId, e.handle);
      if i >= 0 { assert IsHandle(st.sessions[i], e.accountId, e.handle); }
    }
  }

  /** What each call does to the accounts. */
  lemma AccountsAfter(c: Config, st: Store, e: Event)
    requires Sound(c, st)
    ensures Step(c, st, e).accounts ==
              match e
              case Register(account, allowed, _, _) =>
                if allowed && forall id :: id in st.accounts ==> st.accounts[id].normalizedUsername != account.normalizedUsername
                then st.accounts[account.id := account] else st.accounts
              case Login(accountId, allowed, matches, rehash, _, _) =>
                if allowed && matches && accountId in st.accounts && st.accounts[accountId].active && rehash.Some?
                then var a := st.accounts[accountId];
                     st.accounts[accountId := Account(a.id, a.normalizedUsername, rehash.value, a.active, a.credentialVersion)]
                else st.accounts
              case ChangePassword(accountId, current, reused, hash, _, _) =>
                if current && !reused && accountId in st.accounts && st.accounts[accountId].active
                then var a := st.accounts[accountId];
                     st.accounts[accountId := Account(a.id, a.normalizedUsername, hash, a.active, a.credentialVersion + 1)]
                else st.accounts
              case Reset(accountId, hash, _) =>
                if accountId in st.accounts
                then var a := st.accounts[accountId];
                     st.accounts[accountId := Account(a.id, a.normalizedUsername, hash, a.active, a.credentialVersion + 1)]
                else st.accounts
              case _ => st.accounts
  {
    hide PutSession, Revoke, Issued;
  }

  /** A use moves the idle limit of its own session, within the absolute one, and touches no other. */
  lemma UseIsExact(c: Config, st: Store, i: nat, now: int, j: nat, later: int)
    requires Sound(c, st) && i < |st.sessions| && j < |st.sessions|
    requires Authenticates(st, st.sessions[i].tokenHash.token, now)
    ensures var st' := Step(c, st, Authenticate(st.sessions[i].tokenHash.token, now));
            Authenticates(st', st.sessions[j].tokenHash.token, later) <==>
              if j == i then later < now + c.idleSessionMs && later < st.sessions[i].expiresAt
              else Authenticates(st, st.sessions[j].tokenHash.token, later)
    ensures Step(c, st, Authenticate(st.sessions[i].tokenHash.token, now)).sessions[i].lastSeenAt == now
  {
    hide Sound, Authenticates, IsToken;
    var e := Authenticate(st.sessions[i].tokenHash.token, now);
    var st' := Step(c, st, e);
    assert DistinctSessions(st.sessions) by { SoundIsDistinct(c, st); }
    TokenFindsItsSession(st.sessions, i);
    AgingIsSound(c, st, e);
    assert |st'.sessions| == |st.sessions| && st'.sessions[j].tokenHash == st.sessions[j].tokenHash;
    LiveIsAuthentic(c, st, i, now);
    LiveIsAuthentic(c, st, j, later);
    LiveIsAuthentic(c, st', j, later);
  }

  lemma SoundIsDistinct(c: Config, st: Store)
    requires Sound(c, st)
    ensures DistinctSessions(st.sessions)
  {
  }

  /** The new session that a call issues, with its token. */
  predicate Issues(c: Config, st: Store, e: Event, token: string)
  {
    var later := Step(c, st, e);
    && |later.sessions| == |st.sessions| + 1
    && later.sessions[|st.sessions|].tokenHash == Sha256(token)
  }

  /** The token was just issued, or just authenticated. */
  predicate Renews(c: Config, st: Store, e: Event, token: string)
  {
    if e.Authenticate? then e.token == token && Authenticates(st, token, e.now) else Issues(c, st, e, token)
  }

  /** Some call of the run issued the token or was authenticated by it, less than the idle time before `at`. */
  ghost predicate RenewedWithin(c: Config, st: Store, events: seq<Event>, token: string, at: int)
    decreases |events|
  {
    events != [] && ((Renews(c, st, events[0], token) && at < events[0].now + c.idleSessionMs)
                     || RenewedWithin(c, Step(c, st, events[0]), events[1..], token, at))
  }

  /** Some session of the store still holds the token within its idle limit. */
  predicate IsUnspent(st: Store, token: string, at: int)
  {
    exists i :: 0 <= i < |st.sessions| && st.sessions[i].tokenHash == Sha256(token) && at < st.sessions[i].idleExpiresAt
  }

  lemma StepRenews(c: Config, st: Store, e: Event, token: string, at: int)
    requires Legal(st, e) && Sound(c, st) && IsUnspent(Step(c, st, e), token, at)
    ensures IsUnspent(st, token, at) || (Renews(c, st, e, token) && at < e.now + c.idleSessionMs)
  {
    hide Sound, IsToken, IsLive, Revoke, NameTaken, MayLogin, MayChange, IndexOfOwned, IndexOfToken;
    var later := Step(c, st, e);
    var i :| 0 <= i < |later.sessions| && later.sessions[i].tokenHash == Sha256(token) && at < later.sessions[i].idleExpiresAt;
    match e
    case Authenticate(_, _) =>
    case Logout(t, now) => RevokedKeepIdle(st.sessions, t, now);
    case RevokeOwned(_, _, _) =>
    case Reset(accountId, _, now) => RevokedKeepIdle(st.sessions, All(accountId), now);
    case ChangePassword(accountId, _, _, _, now, _) => RevokedKeepIdle(st.sessions, All(accountId), now);
    case _ =>
  }

  lemma RevokedKeepIdle(sessions: seq<Session>, t: Target, now: int)
    ensures var revoked := Revoke(sessions, t, now);
            |revoked| == |sessions| && forall i :: 0 <= i < |revoked| ==>
              revoked[i].id == sessions[i].id && revoked[i].tokenHash == sessions[i].tokenHash
              && revoked[i].idleExpiresAt == sessions[i].idleExpiresAt
  {
  }

  lemma {:induction false} UnspentWasRenewed(c: Config, st: Store, events: seq<Event>, token: string, at: int)
    requires Runs(c, st, events) && Sound(c, st) && IsUnspent(After(c, st, events), token, at)
    ensures IsUnspent(st, token, at) || RenewedWithin(c, st, events, token, at)
    decreases |events|
  {
    hide Sound, Step, Legal, IsUnspent, Renews;
    if events != [] {
      StepKeepsSound(c, st, events[0]);
      UnspentWasRenewed(c, Step(c, st, events[0]), events[1..], token, at);
      if IsUnspent(Step(c, st, events[0]), token, at) { StepRenews(c, st, events[0], token, at); }
    }
  }

  /** Over any run: a token that authenticates was issued or used less than the idle time before. */
  lemma IdleTokensExpire(c: Config, events: seq<Event>, token: string, at: int)
    requires Runs(c, EMPTY, events) && Authenticates(After(c, EMPTY, events), token, at)
    ensures RenewedWithin(c, EMPTY, events, token, at)
  {
    hide Runs, After, RenewedWithin, Authenticates, Sound;
    var later := After(c, EMPTY, events);
    assert Sound(c, EMPTY) by { EmptyIsSound(c); }
    RunKeepsSound(c, EMPTY, events);
    AuthenticatesExactly(c, later, token, at);
    UnspentWasRenewed(c, EMPTY, events, token, at);
  }

  lemma EmptyIsSound(c: Config)
    ensures Sound(c, EMPTY)
  {
  }

  /** A new session's token authenticates exactly within both limits, counted from its issue; the other tokens are as before. */
  ghost predicate IssuesExactly(c: Config, st: Store, later: Store, active: bool, r: Randomness, now: int)
  {
    && (forall at :: Authenticates(later, r.token, at) <==> active && at < now + c.absoluteSessionMs && at < now + c.idleSessionMs)
    && (forall i, at :: 0 <= i < |st.sessions| ==>
          (Authenticates(later, st.sessions[i].tokenHash.token, at) <==> Authenticates(st, st.sessions[i].tokenHash.token, at)))
  }

  lemma IssueIsExact(c: Config, st: Store, later: Store, account: Account, r: Randomness, now: int)
    requires Sound(c, st) && Sound(c, later) && IsFresh(st, r)
    requires later.sessions == st.sessions + [Issued(c, account, now, r)]
    requires account.id in later.accounts && later.accounts[account.id].credentialVersion == account.credentialVersion
    requires later.accounts[account.id].active == account.active
    requires forall i :: 0 <= i < |st.sessions| ==>
               var id := st.sessions[i].accountId;
               id in later.accounts && id in st.accounts && later.accounts[id].active == st.accounts[id].active
               && later.accounts[id].credentialVersion == st.accounts[id].credentialVersion
    ensures IssuesExactly(c, st, later, account.active, r, now)
  {
    hide Sound, Authenticates, IsFresh;
    var n := |st.sessions|;
    assert later.sessions[n] == Issued(c, account, now, r);
    forall at: int
      ensures Authenticates(later, r.token, at) <==> account.active && at < now + c.absoluteSessionMs && at < now + c.idleSessionMs
    {
      LiveIsAuthentic(c, later, n, at);
    }
    forall i, at: int | 0 <= i < n
      ensures Authenticates(later, st.sessions[i].tokenHash.token, at) <==> Authenticates(st, st.sessions[i].tokenHash.token, at)
    {
      assert later.sessions[i] == st.sessions[i];
      LiveIsAuthentic(c, later, i, at);
      LiveIsAuthentic(c, st, i, at);
    }
  }

  lemma FreshIsAppended(st: Store, r: Randomness, s: Session)
    requires IsFresh(st, r) && s.id == r.id
    ensures PutSession(st.sessions, s) == st.sessions + [s]
  {
  }

  /** A registration issues a session exactly when it is not turned away and nobody has the name. */
  lemma RegistrationIsExact(c: Config, st: Store, account: Account, allowed: bool, now: int, r: Randomness)
    requires Sound(c, st) && Legal(st, Register(account, allowed, now, r))
    ensures var later := Step(c, st, Register(account, allowed, now, r));
            if allowed && forall id :: id in st.accounts ==> st.accounts[id].normalizedUsername != account.normalizedUsername
            then later.accounts == st.accounts[account.id := account] && IssuesExactly(c, st, later, account.active, r, now)
            else later == st
  {
    hide Sound, Authenticates, IsFresh, PutSession, IssuesExactly;
    var later := Step(c, st, Register(account, allowed, now, r));
    StepKeepsSound(c, st, Register(account, allowed, now, r));
    if later != st {
      FreshIsAppended(st, r, Issued(c, account, now, r));
      assert forall i :: 0 <= i < |st.sessions| ==> st.sessions[i].accountId in st.accounts by { SessionsHaveAccounts(c, st); }
      IssueIsExact(c, st, later, account, r, now);
    }
  }

  lemma SessionsHaveAccounts(c: Config, st: Store)
    requires Sound(c, st)
    ensures forall i :: 0 <= i < |st.sessions| ==> st.sessions[i].accountId in st.accounts
    ensures forall id :: id in st.accounts ==> st.accounts[id].id == id
  {
    forall i | 0 <= i < |st.sessions| ensures st.sessions[i].accountId in st.accounts { SoundAt(c, st, i); }
  }

  /** A login issues a session exactly to an active account whose password matches. */
  lemma LoginIsExact(c: Config, st: Store, accountId: string, allowed: bool, matches: bool, rehash: Option<string>, now: int, r: Randomness)
    requires Sound(c, st) && IsFresh(st, r)
    ensures var later := Step(c, st, Login(accountId, allowed, matches, rehash, now, r));
            if allowed && matches && accountId in st.accounts && st.accounts[accountId].active
            then IssuesExactly(c, st, later, true, r, now)
            else later == st
  {
    hide Sound, Authenticates, IsFresh, PutSession, IssuesExactly;
    var e := Login(accountId, allowed, matches, rehash, now, r);
    var later := Step(c, st, e);
    StepKeepsSound(c, st, e);
    SessionsHaveAccounts(c, st);
    if allowed && matches && accountId in st.accounts && st.accounts[accountId].active {
      FreshIsAppended(st, r, Issued(c, st.accounts[accountId], now, r));
      IssueIsExact(c, st, later, st.accounts[accountId], r, now);
    }
  }

  /** A reset ends all sessions of its account and no other. */
  lemma ResetIsExact(c: Config, st: Store, accountId: string, passwordHash: string, now: int, i: nat, at: int)
    requires Sound(c, st) && i < |st.sessions|
    ensures var s := st.sessions[i];
            Authenticates(Step(c, st, Reset(accountId, passwordHash, now)), s.tokenHash.token, at) <==>
              Authenticates(st, s.tokenHash.token, at) && s.accountId != accountId
  {
    hide Sound, Authenticates;
    var e := Reset(accountId, passwordHash, now);
    AgingIsSound(c, st, e);
    SessionsHaveAccounts(c, st);
    LiveIsAuthentic(c, st, i, at);
    LiveIsAuthentic(c, Step(c, st, e), i, at);
  }

  /** A password change ends all earlier sessions of its account and no other. */
  lemma ChangeEndsSessions(c: Config, st: Store, accountId: string, passwordHash: string, now: int, r: Randomness, i: nat, at: int)
    requires Sound(c, st) && IsFresh(st, r) && i < |st.sessions| && accountId in st.accounts && st.accounts[accountId].active
    ensures var s := st.sessions[i];
            Authenticates(Step(c, st, ChangePassword(accountId, true, false, passwordHash, now, r)), s.tokenHash.token, at) <==>
              Authenticates(st, s.tokenHash.token, at) && s.accountId != accountId
  {
    hide Sound, Authenticates, IsFresh, PutSession;
    var e := ChangePassword(accountId, true, false, passwordHash, now, r);
    var later := Step(c, st, e);
    StepKeepsSound(c, st, e);
    SessionsHaveAccounts(c, st);
    var cut := Cut(st, accountId, passwordHash, now);
    assert IsFresh(cut, r) by { CutAges(st, accountId, passwordHash, now, r); }
    FreshIsAppended(cut, r, Issued(c, Changed(st.accounts[accountId], passwordHash), now, r));
    assert later.sessions[i] == Revoke(st.sessions, All(accountId), now)[i];
    LiveIsAuthentic(c, st, i, at);
    LiveIsAuthentic(c, later, i, at);
  }

  /** A wrong current password, a reused one or an inactive account changes nothing. */
  lemma RefusedChangesNothing(c: Config, st: Store, accountId: string, current: bool, reused: bool, passwordHash: string, now: int, r: Randomness)
    requires !current || reused || accountId !in st.accounts || !st.accounts[accountId].active
    ensures Step(c, st, ChangePassword(accountId, current, reused, passwordHash, now, r)) == st
  {
  }

  /** Revoking by handle ends exactly the first unrevoked session of that account with the handle. */
  lemma RevokeOwnedIsExact(c: Config, st: Store, accountId: string, handle: string, now: int, i: nat, at: int)
    requires Sound(c, st) && i < |st.sessions|
    ensures var s := st.sessions[i];
            var isFirst := IsHandle(s, accountId, handle) && forall k :: 0 <= k < i ==> !IsHandle(st.sessions[k], accountId, handle);
            Authenticates(Step(c, st, RevokeOwned(accountId, handle, now)), s.tokenHash.token, at) <==>
              Authenticates(st, s.tokenHash.token, at) && !isFirst
  {
    hide Sound, Authenticates, IndexOfOwned;
    var e := RevokeOwned(accountId, handle, now);
    AgingIsSound(c, st, e);
    FirstOwned(st.sessions, accountId, handle);
    LiveIsAuthentic(c, st, i, at);
    LiveIsAuthentic(c, Step(c, st, e), i, at);
  }

  predicate IsHandle(s: Session, accountId: string, handle: string)
  {
    s.revokedAt == None && s.accountId == accountId && s.publicHandle == handle
  }

  lemma {:induction false} FirstOwned(sessions: seq<Session>, accountId: string, handle: string)
    ensures var i := IndexOfOwned(sessions, accountId, handle);
            forall k :: 0 <= k < |sessions| && k < (if i < 0 then |sessions| else i) ==> !IsHandle(sessions[k], accountId, handle)
  {
    if sessions != [] { FirstOwned(sessions[1..], accountId, handle); }
  }
}
