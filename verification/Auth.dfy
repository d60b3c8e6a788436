/** Login, token rotation, logout and access as steps of one system with a clock and a Redis that forgets.
    AuthApi.dfy proves that the endpoints' objects move exactly like this. */
module Auth {
  import opened Wrappers
  import opened Redis
  import LoginGuard

  datatype TokenKind = Access | Refresh

  // A token is known by its jti, the serial number of its issue: uuid4 draws never repeat, and a string that carries
  // no genuine signature is a jti that was never issued. `family` is bookkeeping of the model: the refresh token of
  // the login it descends from.
  datatype Claims = Claims(sub: string, role: string, kind: TokenKind, exp: int, family: nat)

  datatype User = User(role: string, hash: string, algorithm: string, disabled: bool)

  // No denylist was ever set up, or there is one: it answers what it is asked or not, and its writes may fail apart
  // from that.
  datatype Availability = Absent | Present(answers: bool, writing: Writing)

  const Up := Present(true, Works)
  const Down := Present(false, Refused)
  const ReadOnly := Present(true, Refused)

  // The denylist in use: keys in Redis with a time to live, or a set that never forgets.
  datatype Denylist = Expiring | Permanent(revoked: set<nat>)

  datatype State = State(now: int, up: Availability, store: Store, denylist: Denylist,
                         users: map<string, User>, issued: seq<Claims>)

  // Passwords and hashes are judged by argon2, outside the model.
  datatype Config = Config(
    accessSeconds: int, refreshSeconds: int, failureThreshold: int, failureWindow: int,
    verify: (string, string) -> bool, rehash: (string, string) -> Option<string>)

  datatype Request =
    | Tick(ms: nat)
    | Connectivity(up: Availability)
    | Login(username: string, password: string, clientIp: string)
    | RefreshToken(token: nat)
    | Logout(token: nat)
    | CurrentUser(token: nat)
    | DisableUser(username: string)

  datatype Reply =
    | Done
    | Tokens(access: nat, refresh: nat, expiresIn: int)
    | Authenticated(username: string, role: string, jti: nat)
    | InvalidToken | TokenExpired | WrongTokenType | TokenRevoked | BadUser | BadCredentials
    | TooManyRequests
    | ServiceUnavailable
    | InternalError

  // --- tokens ---

  // exp is written in whole seconds; a token is refused at and after it (RFC 7519, section 4.1.4).
  function Expiry(now: int, seconds: int): int {
    (now + 1000 * seconds) / 1000
  }

  predicate Unexpired(c: Claims, now: int) {
    now < 1000 * c.exp
  }

  function Decode(s: State, token: nat): Result<Claims, Reply> {
    if token >= |s.issued| then Failure(InvalidToken)
    else if !Unexpired(s.issued[token], s.now) then Failure(TokenExpired)
    else Success(s.issued[token])
  }

  // create_access_token, then create_refresh_token. A login's refresh token starts a family.
  function IssuePair(cfg: Config, s: State, sub: string, role: string, family: Option<nat>): (State, Reply) {
    var access, refresh := |s.issued|, |s.issued| + 1;
    var kin := if family.Some? then family.value else refresh;
    (s.(issued := s.issued + [Claims(sub, role, Access, Expiry(s.now, cfg.accessSeconds), kin),
                              Claims(sub, role, Refresh, Expiry(s.now, cfg.refreshSeconds), kin)]),
     Tokens(access, refresh, cfg.accessSeconds))
  }

  // --- denylist ---

  predicate Revoked(s: State, token: nat) {
    match s.denylist
    case Expiring => Live(s.store, Denied(token), s.now)
    case Permanent(revoked) => token in revoked
  }

  function Revoke(s: State, token: nat, seconds: int): State {
    match s.denylist
    case Expiring => s.(store := SetEx(s.store, Denied(token), seconds, s.now))
    case Permanent(revoked) => s.(denylist := Permanent(revoked + {token}))
  }

  predicate Answers(s: State) {
    s.up.Present? && s.up.answers
  }

  predicate Applies(s: State) {
    s.up.Present? && s.up.writing != Refused
  }

  predicate Confirms(s: State) {
    s.up.Present? && s.up.writing == Works
  }

  // RedisDenylist.revoke: ValueError for a time to live below one second, DenylistUnavailableError without a
  // confirmation from Redis. The flag says that neither was raised.
  function TryRevoke(s: State, token: nat, seconds: int): (State, bool) {
    if seconds < 1 then (s, false)
    else (if Applies(s) then Revoke(s, token, seconds) else s, Confirms(s))
  }

  // --- users ---

  predicate Enabled(s: State, username: string) {
    username in s.users && !s.users[username].disabled
  }

  // InMemoryUserRepository.authenticate: on success the stored hash may be upgraded.
  function Authenticate(cfg: Config, users: map<string, User>, username: string, password: string)
    : Option<map<string, User>>
  {
    if username !in users || users[username].disabled || !cfg.verify(password, users[username].hash) then None
    else
      var upgraded := cfg.rehash(users[username].hash, password);
      if upgraded.None? then Some(users)
      else Some(users[username := users[username].(hash := upgraded.value, algorithm := "argon2id")])
  }

  // --- endpoints ---

  function DoLogin(cfg: Config, s: State, username: string, password: string, clientIp: string): (State, Reply) {
    var k := LoginFailures(clientIp);
    if Answers(s) && Live(s.store, k, s.now) && Count(s.store, k, s.now) >= cfg.failureThreshold then
      (s, TooManyRequests)
    else
      match Authenticate(cfg, s.users, username, password)
      case None =>
        (if Applies(s) then s.(store := LoginGuard.Recorded(s.store, k, cfg.failureWindow, s.now)) else s,
         BadCredentials)
      case Some(users) =>
        var s' := s.(users := users, store := if Applies(s) then Delete(s.store, k) else s.store);
        IssuePair(cfg, s', username, users[username].role, None)
  }

  function DoRefresh(cfg: Config, s: State, token: nat): (State, Reply) {
    match Decode(s, token)
    case Failure(reply) => (s, reply)
    case Success(claims) =>
      if claims.kind != Refresh then (s, WrongTokenType)
      else if s.up == Absent then (s, ServiceUnavailable)
      else if !Answers(s) then (s, InternalError)
      else if Revoked(s, token) then (s, TokenRevoked)
      else if !Enabled(s, claims.sub) then (s, BadUser)
      else
        var (s', ok) := TryRevoke(s, token, cfg.refreshSeconds);
        if !ok then (s', InternalError)
        else IssuePair(cfg, s', claims.sub, s.users[claims.sub].role, Some(claims.family))
  }

  // get_current_user: if the denylist cannot be consulted the token passes.
  function DoCurrentUser(s: State, token: nat): Reply {
    match Decode(s, token)
    case Failure(reply) => reply
    case Success(claims) =>
      if claims.kind != Access then WrongTokenType
      else if Answers(s) && Revoked(s, token) then TokenRevoked
      else if !Enabled(s, claims.sub) then BadUser
      else Authenticated(claims.sub, s.users[claims.sub].role, token)
  }

  function DoLogout(cfg: Config, s: State, token: nat): (State, Reply) {
    var caller := DoCurrentUser(s, token);
    if !caller.Authenticated? then (s, caller)
    else if s.up == Absent then (s, ServiceUnavailable)
    else
      var (s', ok) := TryRevoke(s, token, cfg.accessSeconds);
      (s', if ok then Done else InternalError)
  }

  function DoDisable(s: State, username: string): State {
    if username !in s.users then s
    else s.(users := s.users[username := s.users[username].(disabled := true)])
  }

  function Step(cfg: Config, s: State, r: Request): (State, Reply) {
    match r
    case Tick(ms) => (s.(now := s.now + ms), Done)
    case Connectivity(up) => (s.(up := up), Done)
    case Login(username, password, clientIp) => DoLogin(cfg, s, username, password, clientIp)
    case RefreshToken(token) => DoRefresh(cfg, s, token)
    case Logout(token) => DoLogout(cfg, s, token)
    case CurrentUser(token) => (s, DoCurrentUser(s, token))
    case DisableUser(username) => (DoDisable(s, username), Done)
  }

  function Run(cfg: Config, s: State, requests: seq<Request>): State
    decreases requests
  {
    if requests == [] then s else Run(cfg, Step(cfg, s, requests[0]).0, requests[1..])
  }

  function Replies(cfg: Config, s: State, requests: seq<Request>): seq<Reply>
    decreases requests
  {
    if requests == [] then []
    else [Step(cfg, s, requests[0]).1] + Replies(cfg, Step(cfg, s, requests[0]).0, requests[1..])
  }

  function Start(now: int, up: Availability, denylist: Denylist, users: map<string, User>): State {
    State(now, up, map[], denylist, users, [])
  }

  // --- the expiring denylist refines the permanent one ---

  function LifeOf(cfg: Config, kind: TokenKind): int {
    if kind == Access then cfg.accessSeconds else cfg.refreshSeconds
  }

  // Every issued token dies no later than one full life after now.
  ghost predicate LivesBounded(cfg: Config, s: State) {
    forall t :: 0 <= t < |s.issued| ==> 1000 * s.issued[t].exp <= s.now + 1000 * LifeOf(cfg, s.issued[t].kind)
  }

  // The two denylists agree on every token that still matters, and an expiring entry outlives its token.
  ghost predicate SameVerdict(e: State, p: State, t: nat)
    requires p.denylist.Permanent? && t < |e.issued|
  {
    && (Denied(t) in e.store ==> t in p.denylist.revoked && e.store[Denied(t)].expiresAt.Some?)
    && (t in p.denylist.revoked && Unexpired(e.issued[t], e.now) ==>
          Denied(t) in e.store && e.store[Denied(t)].expiresAt.Some?
          && 1000 * e.issued[t].exp <= e.store[Denied(t)].expiresAt.value)
  }

  ghost predicate SameCounters(e: Store, p: Store) {
    forall ip: string ::
      && (LoginFailures(ip) in e <==> LoginFailures(ip) in p)
      && (LoginFailures(ip) in e ==> e[LoginFailures(ip)] == p[LoginFailures(ip)])
  }

  ghost predicate Simulates(cfg: Config, e: State, p: State) {
    && e.denylist == Expiring && p.denylist.Permanent?
    && e.now == p.now && e.up == p.up && e.users == p.users && e.issued == p.issued
    && LivesBounded(cfg, e)
    && SameCounters(e.store, p.store)
    && (forall t :: 0 <= t < |e.issued| ==> SameVerdict(e, p, t))
    && (forall t: nat :: t >= |e.issued| ==> Denied(t) !in e.store && t !in p.denylist.revoked)
  }

  lemma {:induction false} SameAnswer(cfg: Config, e: State, p: State, t: nat)
    requires Simulates(cfg, e, p) && t < |e.issued| && Unexpired(e.issued[t], e.now)
    ensures Revoked(e, t) <==> Revoked(p, t)
  {
    assert SameVerdict(e, p, t);
  }

  lemma {:induction false} TickSimulates(cfg: Config, e: State, p: State, ms: nat)
    requires Simulates(cfg, e, p)
    ensures Simulates(cfg, Step(cfg, e, Tick(ms)).0, Step(cfg, p, Tick(ms)).0)
  {
    var e', p' := Step(cfg, e, Tick(ms)).0, Step(cfg, p, Tick(ms)).0;
    forall t | 0 <= t < |e'.issued|
      ensures SameVerdict(e', p', t)
    {
      assert SameVerdict(e, p, t);
    }
  }

  lemma {:induction false} RevokeSimulates(cfg: Config, e: State, p: State, t: nat)
    requires Simulates(cfg, e, p) && t < |e.issued|
    ensures Simulates(cfg, Revoke(e, t, LifeOf(cfg, e.issued[t].kind)), Revoke(p, t, LifeOf(cfg, e.issued[t].kind)))
  {
    var life := LifeOf(cfg, e.issued[t].kind);
    var e', p' := Revoke(e, t, life), Revoke(p, t, life);
    forall u | 0 <= u < |e'.issued|
      ensures SameVerdict(e', p', u)
    {
      assert SameVerdict(e, p, u);
    }
  }

  lemma {:induction false} IssueSimulates(cfg: Config, e: State, p: State, sub: string, role: string,
                                          family: Option<nat>)
    requires Simulates(cfg, e, p)
    ensures Simulates(cfg, IssuePair(cfg, e, sub, role, family).0, IssuePair(cfg, p, sub, role, family).0)
  {
    var e', p' := IssuePair(cfg, e, sub, role, family).0, IssuePair(cfg, p, sub, role, family).0;
    forall t | 0 <= t < |e'.issued|
      ensures SameVerdict(e', p', t)
    {
      if t < |e.issued| {
        assert SameVerdict(e, p, t);
      }
    }
  }

  lemma {:induction false} CounterSimulates(cfg: Config, e: State, p: State, k: Key, users: map<string, User>)
    requires Simulates(cfg, e, p) && k.LoginFailures?
    ensures Live(e.store, k, e.now) == Live(p.store, k, p.now) && Count(e.store, k, e.now) == Count(p.store, k, p.now)
    ensures Simulates(cfg, e.(store := Delete(e.store, k), users := users),
                      p.(store := Delete(p.store, k), users := users))
    ensures var window := cfg.failureWindow;
            Simulates(cfg, e.(store := LoginGuard.Recorded(e.store, k, window, e.now)),
                      p.(store := LoginGuard.Recorded(p.store, k, window, p.now)))
  {
    assert k == LoginFailures(k.clientIp);
    StoreSimulates(cfg, e, p, Delete(e.store, k), Delete(p.store, k), users);
    var e', p' := LoginGuard.Recorded(e.store, k, cfg.failureWindow, e.now),
                  LoginGuard.Recorded(p.store, k, cfg.failureWindow, p.now);
    assert SameCounters(e', p');
    StoreSimulates(cfg, e, p, e', p', e.users);
  }

  lemma {:induction false} StoreSimulates(cfg: Config, e: State, p: State, eStore: Store, pStore: Store,
                                          users: map<string, User>)
    requires Simulates(cfg, e, p) && SameCounters(eStore, pStore)
    requires forall t: nat :: (Denied(t) in eStore <==> Denied(t) in e.store)
                              && (Denied(t) in eStore ==> eStore[Denied(t)] == e.store[Denied(t)])
    ensures Simulates(cfg, e.(store := eStore, users := users), p.(store := pStore, users := users))
  {
    var e', p' := e.(store := eStore, users := users), p.(store := pStore, users := users);
    forall t | 0 <= t < |e'.issued|
      ensures SameVerdict(e', p', t)
    {
      assert SameVerdict(e, p, t);
    }
  }

  lemma {:induction false} LoginSimulates(cfg: Config, e: State, p: State, username: string, password: string,
                                          clientIp: string)
    requires Simulates(cfg, e, p)
    ensures var (e', re), (p', rp) :=
              DoLogin(cfg, e, username, password, clientIp), DoLogin(cfg, p, username, password, clientIp);
            re == rp && Simulates(cfg, e', p')
  {
    var k := LoginFailures(clientIp);
    CounterSimulates(cfg, e, p, k, e.users);
    match Authenticate(cfg, e.users, username, password)
    case None =>
    case Some(users) =>
      CounterSimulates(cfg, e, p, k, users);
      StoreSimulates(cfg, e, p, e.store, p.store, users);
      var eStore := if Applies(e) then Delete(e.store, k) else e.store;
      var pStore := if Applies(e) then Delete(p.store, k) else p.store;
      IssueSimulates(cfg, e.(users := users, store := eStore), p.(users := users, store := pStore),
                     username, users[username].role, None);
  }

  lemma {:induction false} RefreshSimulates(cfg: Config, e: State, p: State, token: nat)
    requires Simulates(cfg, e, p)
    ensures var (e', re), (p', rp) := DoRefresh(cfg, e, token), DoRefresh(cfg, p, token);
            re == rp && Simulates(cfg, e', p')
  {
    if token < |e.issued| && Unexpired(e.issued[token], e.now) && e.issued[token].kind == Refresh {
      SameAnswer(cfg, e, p, token);
      RevokeSimulates(cfg, e, p, token);
      var claims := e.issued[token];
      if Enabled(e, claims.sub) {
        IssueSimulates(cfg, Revoke(e, token, cfg.refreshSeconds), Revoke(p, token, cfg.refreshSeconds),
                       claims.sub, e.users[claims.sub].role, Some(claims.family));
      }
    }
  }

  lemma {:induction false} AccessSimulates(cfg: Config, e: State, p: State, token: nat)
    requires Simulates(cfg, e, p)
    ensures DoCurrentUser(e, token) == DoCurrentUser(p, token)
    ensures var (e', re), (p', rp) := DoLogout(cfg, e, token), DoLogout(cfg, p, token);
            re == rp && Simulates(cfg, e', p')
  {
    if token < |e.issued| && Unexpired(e.issued[token], e.now) {
      SameAnswer(cfg, e, p, token);
      RevokeSimulates(cfg, e, p, token);
    }
  }

  lemma {:induction false} StepSimulates(cfg: Config, e: State, p: State, r: Request)
    requires Simulates(cfg, e, p)
    ensures var (e', re), (p', rp) := Step(cfg, e, r), Step(cfg, p, r);
            re == rp && Simulates(cfg, e', p')
  {
    match r
    case Tick(ms) => TickSimulates(cfg, e, p, ms);
    case Connectivity(up) =>
      var e', p' := e.(up := up), p.(up := up);
      assert forall t :: 0 <= t < |e'.issued| ==> SameVerdict(e, p, t) ==> SameVerdict(e', p', t);
    case Login(username, password, clientIp) => LoginSimulates(cfg, e, p, username, password, clientIp);
    case RefreshToken(token) => RefreshSimulates(cfg, e, p, token);
    case Logout(token) => AccessSimulates(cfg, e, p, token);
    case CurrentUser(token) => AccessSimulates(cfg, e, p, token);
    case DisableUser(username) => StoreSimulates(cfg, e, p, e.store, p.store, DoDisable(e, username).users);
  }

  lemma {:induction false} RunSimulates(cfg: Config, e: State, p: State, requests: seq<Request>)
    requires Simulates(cfg, e, p)
    ensures Replies(cfg, e, requests) == Replies(cfg, p, requests)
    ensures Simulates(cfg, Run(cfg, e, requests), Run(cfg, p, requests))
    decreases requests
  {
    if requests == [] {
    } else {
      StepSimulates(cfg, e, p, requests[0]);
      RunSimulates(cfg, Step(cfg, e, requests[0]).0, Step(cfg, p, requests[0]).0, requests[1..]);
    }
  }

  /** The denylist that Redis garbage-collects decides exactly like one that never forgets: in every run of logins,
      refreshes, logouts, accesses, outages and clock ticks, every reply is the same. */
  lemma {:induction false} ExpiringDenylistIsEnough(cfg: Config, now: int, up: Availability, users: map<string, User>,
                                                    requests: seq<Request>)
    ensures Replies(cfg, Start(now, up, Expiring, users), requests)
         == Replies(cfg, Start(now, up, Permanent({}), users), requests)
  {
    RunSimulates(cfg, Start(now, up, Expiring, users), Start(now, up, Permanent({}), users), requests);
  }

  // --- what the permanent machine keeps ---

  predicate Unspent(s: State, token: nat)
    requires s.denylist.Permanent?
  {
    token < |s.issued| && s.issued[token].kind == Refresh && token !in s.denylist.revoked
  }

  // Per family, at most one refresh token is not revoked; families are named by an issued token.
  ghost predicate Linear(s: State) {
    && s.denylist.Permanent?
    && (forall t :: t in s.denylist.revoked ==> t < |s.issued|)
    && (forall t :: 0 <= t < |s.issued| ==> s.issued[t].family < |s.issued|)
    && (forall a: nat, b: nat :: Unspent(s, a) && Unspent(s, b) && s.issued[a].family == s.issued[b].family ==> a == b)
  }

  // No refresh token of the family is left to exchange, as the permanent machine sees it.
  ghost predicate FamilyEnded(p: State, family: nat) {
    && p.denylist.Permanent? && family < |p.issued|
    && forall t: nat :: Unspent(p, t) ==> p.issued[t].family != family
  }

  // The later state forgets nothing of the earlier one.
  ghost predicate Grows(s: State, s': State)
    requires s.denylist.Permanent? && s'.denylist.Permanent?
  {
    s.denylist.revoked <= s'.denylist.revoked && s.issued <= s'.issued
  }

  lemma {:induction false} RevokeKeepsLinear(s: State, token: nat, seconds: int)
    requires Linear(s) && token < |s.issued|
    ensures Linear(Revoke(s, token, seconds)) && Grows(s, Revoke(s, token, seconds))
  {
    var s' := Revoke(s, token, seconds);
    assert forall t: nat :: Unspent(s', t) ==> Unspent(s, t);
  }

  // A new pair may join a family that has no unspent token, or start its own.
  lemma {:induction false} IssueKeepsLinear(cfg: Config, s: State, sub: string, role: string, family: Option<nat>)
    requires Linear(s)
    requires family.Some? ==> FamilyEnded(s, family.value)
    ensures Linear(IssuePair(cfg, s, sub, role, family).0) && Grows(s, IssuePair(cfg, s, sub, role, family).0)
  {
    var s' := IssuePair(cfg, s, sub, role, family).0;
    forall a: nat, b: nat | Unspent(s', a) && Unspent(s', b) && s'.issued[a].family == s'.issued[b].family
      ensures a == b
    {
      assert a < |s.issued| ==> Unspent(s, a);
      assert b < |s.issued| ==> Unspent(s, b);
    }
  }

  lemma {:induction false} SpendEndsFamily(s: State, token: nat, seconds: int)
    requires Linear(s) && Unspent(s, token)
    ensures FamilyEnded(Revoke(s, token, seconds), s.issued[token].family)
  {
    var s' := Revoke(s, token, seconds);
    forall t: nat | Unspent(s', t)
      ensures s'.issued[t].family != s.issued[token].family
    {
      assert Unspent(s, t);
    }
  }

  lemma {:induction false} RefreshKeepsLinear(cfg: Config, s: State, token: nat)
    requires Linear(s)
    ensures Linear(DoRefresh(cfg, s, token).0) && Grows(s, DoRefresh(cfg, s, token).0)
  {
    if token < |s.issued| {
      var claims, s' := s.issued[token], Revoke(s, token, cfg.refreshSeconds);
      RevokeKeepsLinear(s, token, cfg.refreshSeconds);
      if Unspent(s, token) && Enabled(s, claims.sub) {
        SpendEndsFamily(s, token, cfg.refreshSeconds);
        IssueKeepsLinear(cfg, s', claims.sub, s.users[claims.sub].role, Some(claims.family));
      }
    }
  }

  lemma {:induction false} LoginKeepsLinear(cfg: Config, s: State, username: string, password: string,
                                            clientIp: string)
    requires Linear(s)
    ensures Linear(DoLogin(cfg, s, username, password, clientIp).0)
            && Grows(s, DoLogin(cfg, s, username, password, clientIp).0)
  {
    match Authenticate(cfg, s.users, username, password)
    case None =>
    case Some(users) =>
      var k := LoginFailures(clientIp);
      var s' := s.(users := users, store := if Applies(s) then Delete(s.store, k) else s.store);
      assert forall t: nat :: Unspent(s', t) ==> Unspent(s, t);
      IssueKeepsLinear(cfg, s', username, users[username].role, None);
  }

  lemma {:induction false} StepKeepsLinear(cfg: Config, s: State, r: Request)
    requires Linear(s)
    ensures Linear(Step(cfg, s, r).0) && Grows(s, Step(cfg, s, r).0)
  {
    match r
    case Login(username, password, clientIp) => LoginKeepsLinear(cfg, s, username, password, clientIp);
    case RefreshToken(token) => RefreshKeepsLinear(cfg, s, token);
    case Logout(token) =>
      if token < |s.issued| {
        RevokeKeepsLinear(s, token, cfg.accessSeconds);
      }
    case _ =>
      var s' := Step(cfg, s, r).0;
      assert forall t: nat :: Unspent(s', t) ==> Unspent(s, t);
  }

  lemma {:induction false} RunKeepsLinear(cfg: Config, s: State, requests: seq<Request>)
    requires Linear(s)
    ensures Linear(Run(cfg, s, requests))
    ensures Grows(s, Run(cfg, s, requests))
    decreases requests
  {
    if requests == [] {
    } else {
      StepKeepsLinear(cfg, s, requests[0]);
      RunKeepsLinear(cfg, Step(cfg, s, requests[0]).0, requests[1..]);
    }
  }

  // Would be exchanged if presented now, with Redis at work.
  predicate Acceptable(cfg: Config, s: State, token: nat) {
    DoRefresh(cfg, s.(up := Up), token).1.Tokens?
  }

  /** At every moment of every run, of all refresh tokens descended from one login at most one is acceptable. */
  lemma {:induction false} OneAcceptablePerFamily(cfg: Config, now: int, up: Availability, users: map<string, User>,
                                                  requests: seq<Request>,
                               a: nat, b: nat)
    requires var s := Run(cfg, Start(now, up, Expiring, users), requests);
             Acceptable(cfg, s, a) && Acceptable(cfg, s, b) && s.issued[a].family == s.issued[b].family
    ensures a == b
  {
    var e0, p0 := Start(now, up, Expiring, users), Start(now, up, Permanent({}), users);
    RunSimulates(cfg, e0, p0, requests);
    RunKeepsLinear(cfg, p0, requests);
    var e, p := Run(cfg, e0, requests), Run(cfg, p0, requests);
    AcceptableIsUnspent(cfg, e, p, a);
    AcceptableIsUnspent(cfg, e, p, b);
  }

  lemma {:induction false} AcceptableIsUnspent(cfg: Config, e: State, p: State, token: nat)
    requires Simulates(cfg, e, p) && Acceptable(cfg, e, token)
    ensures Unspent(p, token)
  {
    SameAnswer(cfg, e, p, token);
  }

  // How often a token was exchanged in a run.
  function Exchanges(requests: seq<Request>, replies: seq<Reply>, token: nat): nat
    requires |requests| == |replies|
  {
    if requests == [] then 0
    else (if requests[0] == RefreshToken(token) && replies[0].Tokens? then 1 else 0)
         + Exchanges(requests[1..], replies[1..], token)
  }

  lemma {:induction false} RepliesCount(cfg: Config, s: State, requests: seq<Request>)
    ensures |Replies(cfg, s, requests)| == |requests|
    decreases requests
  {
    if requests == [] {
    } else {
      RepliesCount(cfg, Step(cfg, s, requests[0]).0, requests[1..]);
    }
  }

  lemma {:induction false} ExchangedOnceFrom(cfg: Config, s: State, requests: seq<Request>, token: nat)
    requires Linear(s)
    ensures |Replies(cfg, s, requests)| == |requests|
    ensures Exchanges(requests, Replies(cfg, s, requests), token) <= if token in s.denylist.revoked then 0 else 1
    decreases requests
  {
    RepliesCount(cfg, s, requests);
    if requests == [] {
    } else {
      var next := Step(cfg, s, requests[0]).0;
      StepKeepsLinear(cfg, s, requests[0]);
      ExchangedOnceFrom(cfg, next, requests[1..], token);
      assert Replies(cfg, s, requests)[1..] == Replies(cfg, next, requests[1..]);
    }
  }

  /** In every sequential run each refresh token is exchanged at most once. */
  lemma {:induction false} ExchangedAtMostOnce(cfg: Config, now: int, up: Availability, users: map<string, User>,
                                               requests: seq<Request>, token: nat)
    ensures var replies := Replies(cfg, Start(now, up, Expiring, users), requests);
            |replies| == |requests| && Exchanges(requests, replies, token) <= 1
  {
    ExpiringDenylistIsEnough(cfg, now, up, users, requests);
    ExchangedOnceFrom(cfg, Start(now, up, Permanent({}), users), requests, token);
  }

  // Spent on logout, as the permanent machine sees it.
  ghost predicate LoggedOut(s: State, token: nat) {
    s.denylist.Permanent? && token < |s.issued| && s.issued[token].kind == Access && token in s.denylist.revoked
  }

  lemma {:induction false} LogoutSpends(cfg: Config, p: State, token: nat)
    requires p.denylist.Permanent? && DoLogout(cfg, p, token).1 == Done
    ensures LoggedOut(DoLogout(cfg, p, token).0, token)
  {
  }

  lemma {:induction false} LoggedOutForGood(cfg: Config, p: State, token: nat, requests: seq<Request>)
    requires Linear(p) && LoggedOut(p, token)
    ensures LoggedOut(Run(cfg, p, requests), token)
  {
    RunKeepsLinear(cfg, p, requests);
  }

  predicate PassesInOutage(s: State, token: nat)
    requires token < |s.issued|
  {
    !Answers(s) && Unexpired(s.issued[token], s.now) && Enabled(s, s.issued[token].sub)
  }

  /** A logged-out access token, for the rest of every run, is let through exactly when it has not expired, its user is
      enabled and the denylist cannot be consulted. */
  lemma {:induction false} LoggedOutOnlyPassesInAnOutage(cfg: Config, now: int, up: Availability, users: map<string,
                                                         User>,
                                      before: seq<Request>, token: nat, after: seq<Request>)
    requires DoLogout(cfg, Run(cfg, Start(now, up, Expiring, users), before), token).1 == Done
    ensures var s := Run(cfg, DoLogout(cfg, Run(cfg, Start(now, up, Expiring, users), before), token).0, after);
            token < |s.issued| && (DoCurrentUser(s, token).Authenticated? <==> PassesInOutage(s, token))
  {
    var e0, p0 := Start(now, up, Expiring, users), Start(now, up, Permanent({}), users);
    RunSimulates(cfg, e0, p0, before);
    RunKeepsLinear(cfg, p0, before);
    var e1, p1 := Run(cfg, e0, before), Run(cfg, p0, before);
    AccessSimulates(cfg, e1, p1, token);
    StepKeepsLinear(cfg, p1, Logout(token));
    LogoutSpends(cfg, p1, token);
    FromLogoutOn(cfg, DoLogout(cfg, e1, token).0, DoLogout(cfg, p1, token).0, token, after);
  }

  lemma {:induction false} FromLogoutOn(cfg: Config, e: State, p: State, token: nat, after: seq<Request>)
    requires Simulates(cfg, e, p) && Linear(p) && LoggedOut(p, token)
    ensures var s := Run(cfg, e, after);
            token < |s.issued| && (DoCurrentUser(s, token).Authenticated? <==> PassesInOutage(s, token))
  {
    RunSimulates(cfg, e, p, after);
    LoggedOutForGood(cfg, p, token, after);
    AccessSimulates(cfg, Run(cfg, e, after), Run(cfg, p, after), token);
  }

  /** The two kinds of token are not interchangeable: whatever the state, no token passes both endpoints. */
  lemma {:induction false} KindsAreSeparate(cfg: Config, s: State, token: nat)
    ensures !(Acceptable(cfg, s, token) && DoCurrentUser(s, token).Authenticated?)
    ensures token < |s.issued| && s.issued[token].kind == Refresh ==> !DoCurrentUser(s, token).Authenticated?
  {
  }

  // --- errors that no handler catches ---

  // A token that decodes, of this kind.
  predicate Presentable(s: State, token: nat, kind: TokenKind) {
    token < |s.issued| && Unexpired(s.issued[token], s.now) && s.issued[token].kind == kind
  }

  /** Refresh ends in an internal error exactly when a genuine, unexpired refresh token meets a denylist that does not
      answer, or is about to be exchanged and its revocation is not confirmed or would last less than a second. */
  lemma {:induction false} RefreshFailsInternallyWhen(cfg: Config, s: State, token: nat)
    ensures DoRefresh(cfg, s, token).1 == InternalError <==>
              && Presentable(s, token, Refresh) && s.up.Present?
              && (!Answers(s)
                  || (!Revoked(s, token) && Enabled(s, s.issued[token].sub)
                      && (!Confirms(s) || cfg.refreshSeconds < 1)))
  {
  }

  /** Logout ends in one exactly when a genuine, unexpired access token of an enabled user is not known to be revoked,
      because it is not or because the denylist does not answer and the check before lets it pass, and its own
      revocation is not confirmed or would last less than a second. */
  lemma {:induction false} LogoutFailsInternallyWhen(cfg: Config, s: State, token: nat)
    ensures DoLogout(cfg, s, token).1 == InternalError <==>
              && Presentable(s, token, Access) && Enabled(s, s.issued[token].sub) && s.up.Present?
              && !(Answers(s) && Revoked(s, token))
              && (!Confirms(s) || cfg.accessSeconds < 1)
  {
  }

  lemma {:induction false} ExpiryIsAhead(now: int, seconds: int)
    requires seconds >= 1
    ensures now < 1000 * Expiry(now, seconds)
  {
    assert now + 1000 * seconds - 1000 < 1000 * ((now + 1000 * seconds) / 1000);
  }

  /** After any login of any run, both endpoints fail so with the tokens just issued as soon as Redis cannot be reached,
      and as soon as it answers but takes no writes. */
  lemma {:induction false} OutageAfterLogin(cfg: Config, now: int, up: Availability, users: map<string, User>,
                                            before: seq<Request>, username: string, password: string, clientIp: string,
                                            trouble: Availability)
    requires cfg.accessSeconds >= 1 && cfg.refreshSeconds >= 1 && trouble in {Down, ReadOnly}
    requires var s := Run(cfg, Start(now, up, Expiring, users), before);
             DoLogin(cfg, s, username, password, clientIp).1.Tokens?
    ensures var s := Run(cfg, Start(now, up, Expiring, users), before);
            var (s1, tokens) := DoLogin(cfg, s, username, password, clientIp);
            var s2 := Step(cfg, s1, Connectivity(trouble)).0;
            && Step(cfg, s2, RefreshToken(tokens.refresh)).1 == InternalError
            && Step(cfg, s2, Logout(tokens.access)).1 == InternalError
  {
    var e0, p0 := Start(now, up, Expiring, users), Start(now, up, Permanent({}), users);
    RunSimulates(cfg, e0, p0, before);
    var e, p := Run(cfg, e0, before), Run(cfg, p0, before);
    var (s1, tokens) := DoLogin(cfg, e, username, password, clientIp);
    LoginIssues(cfg, e, p, username, password, clientIp);
    var s2 := s1.(up := trouble);
    RefreshFailsInternallyWhen(cfg, s2, tokens.refresh);
    LogoutFailsInternallyWhen(cfg, s2, tokens.access);
  }

  lemma {:induction false} LoginIssues(cfg: Config, e: State, p: State, username: string, password: string,
                                       clientIp: string)
    requires Simulates(cfg, e, p) && cfg.accessSeconds >= 1 && cfg.refreshSeconds >= 1
    requires DoLogin(cfg, e, username, password, clientIp).1.Tokens?
    ensures var (s, tokens) := DoLogin(cfg, e, username, password, clientIp);
            && Presentable(s, tokens.access, Access) && Presentable(s, tokens.refresh, Refresh)
            && s.denylist == Expiring && !Revoked(s, tokens.access) && !Revoked(s, tokens.refresh)
            && s.issued[tokens.access].sub == s.issued[tokens.refresh].sub == username && Enabled(s, username)
  {
    ExpiryIsAhead(e.now, cfg.accessSeconds);
    ExpiryIsAhead(e.now, cfg.refreshSeconds);
  }

  // --- an exchange without a confirmation ---

  lemma {:induction false} StepKeepsEnded(cfg: Config, p: State, family: nat, r: Request)
    requires Linear(p) && FamilyEnded(p, family)
    ensures FamilyEnded(Step(cfg, p, r).0, family)
  {
    var p' := Step(cfg, p, r).0;
    StepKeepsLinear(cfg, p, r);
    forall t: nat | Unspent(p', t)
      ensures p'.issued[t].family != family
    {
      assert t < |p.issued| ==> Unspent(p, t);
      if r.RefreshToken? && t >= |p.issued| {
        assert Unspent(p, r.token);
      }
    }
  }

  lemma {:induction false} RunKeepsEnded(cfg: Config, p: State, family: nat, requests: seq<Request>)
    requires Linear(p) && FamilyEnded(p, family)
    ensures FamilyEnded(Run(cfg, p, requests), family)
    decreases requests
  {
    if requests == [] {
    } else {
      StepKeepsEnded(cfg, p, family, requests[0]);
      StepKeepsLinear(cfg, p, requests[0]);
      RunKeepsEnded(cfg, Step(cfg, p, requests[0]).0, family, requests[1..]);
    }
  }

  predicate Unanswered(cfg: Config, s: State, token: nat) {
    s.up == Present(true, Unconfirmed) && DoRefresh(cfg, s, token).1 == InternalError && cfg.refreshSeconds >= 1
  }

  lemma {:induction false} UnansweredEndsFamily(cfg: Config, p: State, token: nat)
    requires Linear(p) && Unanswered(cfg, p, token)
    ensures token < |p.issued| && FamilyEnded(DoRefresh(cfg, p, token).0, p.issued[token].family)
  {
    RefreshFailsInternallyWhen(cfg, p, token);
    var p' := DoRefresh(cfg, p, token).0;
    assert Unspent(p, token);
    forall t: nat | Unspent(p', t)
      ensures p'.issued[t].family != p.issued[token].family
    {
      assert Unspent(p, t);
    }
  }

  /** If the revocation in an exchange is done but its confirmation lost, the old token is spent and no new one was
      issued: no refresh token of that login is acceptable ever again. */
  lemma {:induction false} LostConfirmationEndsTheSession(cfg: Config, now: int, up: Availability,
                                                          users: map<string, User>, before: seq<Request>, token: nat,
                                                          after: seq<Request>, other: nat)
    requires Unanswered(cfg, Run(cfg, Start(now, up, Expiring, users), before), token)
    ensures var s := Run(cfg, Start(now, up, Expiring, users), before);
            var s' := Run(cfg, DoRefresh(cfg, s, token).0, after);
            token < |s.issued| && (Acceptable(cfg, s', other) ==> s'.issued[other].family != s.issued[token].family)
  {
    var e0, p0 := Start(now, up, Expiring, users), Start(now, up, Permanent({}), users);
    RunSimulates(cfg, e0, p0, before);
    RunKeepsLinear(cfg, p0, before);
    var e, p := Run(cfg, e0, before), Run(cfg, p0, before);
    RefreshSimulates(cfg, e, p, token);
    StepKeepsLinear(cfg, p, RefreshToken(token));
    UnansweredEndsFamily(cfg, p, token);
    var e1, p1, family := DoRefresh(cfg, e, token).0, DoRefresh(cfg, p, token).0, p.issued[token].family;
    RunSimulates(cfg, e1, p1, after);
    RunKeepsEnded(cfg, p1, family, after);
    if Acceptable(cfg, Run(cfg, e1, after), other) {
      AcceptableIsUnspent(cfg, Run(cfg, e1, after), Run(cfg, p1, after), other);
    }
  }

  // A reply that lets the user in.
  predicate LetsIn(s: State, r: Request, reply: Reply, username: string) {
    match r
    case Login(u, _, _) => u == username && reply.Tokens?
    case RefreshToken(t) => t < |s.issued| && s.issued[t].sub == username && reply.Tokens?
    case Logout(t) => t < |s.issued| && s.issued[t].sub == username && reply == Done
    case CurrentUser(t) => t < |s.issued| && s.issued[t].sub == username && reply.Authenticated?
    case _ => false
  }

  /** Once a user is disabled nothing lets them in again: no login, refresh, access or logout of theirs succeeds, with
      any token issued before or after. */
  lemma {:induction false} DisabledStaysOut(cfg: Config, s: State, username: string, requests: seq<Request>)
    requires username in s.users && s.users[username].disabled
    ensures var s' := Run(cfg, s, requests);
            username in s'.users && s'.users[username].disabled
            && forall r :: !LetsIn(s', r, Step(cfg, s', r).1, username)
    decreases requests
  {
    if requests != [] {
      DisabledStaysOut(cfg, Step(cfg, s, requests[0]).0, username, requests[1..]);
    } else {
      forall r
        ensures !LetsIn(s, r, Step(cfg, s, r).1, username)
      {
      }
    }
  }
}
