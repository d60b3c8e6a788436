/** What each request to the authentication endpoints does, told by its reply, the keys in Redis, the users and the
    tokens issued: the steps of Auth.dfy from the outside. */
module AuthLaws {
  import opened Wrappers
  import opened Redis
  import opened Auth
  import LoginGuard

  // A key that has not expired.
  predicate Stands(s: State, k: Key) {
    k in s.store && (s.store[k].expiresAt.Some? ==> s.now < s.store[k].expiresAt.value)
  }

  // The same user, but for a password hash that may have been upgraded.
  predicate SameButHash(before: User, after: User) {
    before.role == after.role && before.disabled == after.disabled
  }

  // --- one login ---

  // What the password check says.
  predicate Knows(cfg: Config, s: State, username: string, password: string) {
    username in s.users && !s.users[username].disabled && cfg.verify(password, s.users[username].hash)
  }

  /** Which of the three replies a login gets: too many failures exactly if the denylist answers and the address's key
      stands at the threshold or above; otherwise tokens exactly for the right password of an enabled user. */
  lemma {:induction false} LoginReplies(cfg: Config, s: State, username: string, password: string, clientIp: string)
    ensures var k, reply := LoginFailures(clientIp), Step(cfg, s, Login(username, password, clientIp)).1;
            && (reply == TooManyRequests <==>
                  s.up.Present? && s.up.answers && Stands(s, k) && s.store[k].value >= cfg.failureThreshold)
            && (reply.Tokens? <==> reply != TooManyRequests && Knows(cfg, s, username, password))
            && (reply == BadCredentials <==> reply != TooManyRequests && !Knows(cfg, s, username, password))
  {
  }

  /** A failed login changes the counter of its address and nothing else, and that only if Redis applies writes: the
      count goes up by one, from zero if the key did not stand, and will stand for a whole window. A login that is
      turned away changes nothing. */
  lemma {:induction false} FailureIsCounted(cfg: Config, s: State, username: string, password: string, clientIp: string)
    ensures var k, (s', reply) := LoginFailures(clientIp), Step(cfg, s, Login(username, password, clientIp));
            && (reply == TooManyRequests ==> s' == s)
            && (reply == BadCredentials ==>
                  var count := (if Stands(s, k) then s.store[k].value else 0) + 1;
                  s' == if s.up.Present? && s.up.writing != Refused
                        then s.(store := s.store[k := Entry(count, Some(s.now + 1000 * cfg.failureWindow))])
                        else s)
  {
  }

  // A token of this kind for this user, which lives so many seconds, less a fraction of one.
  predicate IssuedNow(c: Claims, s: State, kind: TokenKind, username: string, seconds: int) {
    && c.kind == kind && c.sub == username && username in s.users && c.role == s.users[username].role
    && s.now + 1000 * (seconds - 1) < 1000 * c.exp <= s.now + 1000 * seconds
  }

  // Exactly one access and one refresh token were added, of this family.
  ghost predicate PairIssued(cfg: Config, s: State, s': State, reply: Reply, username: string, family: nat) {
    && |s'.issued| == |s.issued| + 2 && s.issued <= s'.issued
    && reply == Tokens(|s.issued|, |s.issued| + 1, cfg.accessSeconds)
    && IssuedNow(s'.issued[|s.issued|], s, Access, username, cfg.accessSeconds)
    && IssuedNow(s'.issued[|s.issued| + 1], s, Refresh, username, cfg.refreshSeconds)
    && s'.issued[|s.issued|].family == s'.issued[|s.issued| + 1].family == family
  }

  lemma {:induction false} ExpiryBounds(now: int, seconds: int)
    ensures now + 1000 * (seconds - 1) < 1000 * Expiry(now, seconds) <= now + 1000 * seconds
  {
  }

  /** A successful login removes the counter of its address, if Redis applies writes, and no other key; it issues one
      access and one refresh token for the user, in a family of their own; and of the users it may change the hash of
      the one that logged in, to what the hasher asks for. */
  lemma {:induction false} LoginLetsIn(cfg: Config, s: State, username: string, password: string, clientIp: string)
    requires Step(cfg, s, Login(username, password, clientIp)).1.Tokens?
    ensures var k, (s', reply) := LoginFailures(clientIp), Step(cfg, s, Login(username, password, clientIp));
            && s'.store == (if s.up.Present? && s.up.writing != Refused then s.store - {k} else s.store)
            && s'.now == s.now && s'.up == s.up && s'.denylist == s.denylist
            && PairIssued(cfg, s, s', reply, username, |s.issued| + 1)
            && s'.users.Keys == s.users.Keys
            && (forall u :: u in s.users && u != username ==> s'.users[u] == s.users[u])
            && username in s.users && SameButHash(s.users[username], s'.users[username])
            && var upgrade := cfg.rehash(s.users[username].hash, password);
               if upgrade.Some? then s'.users[username].hash == upgrade.value
                                     && s'.users[username].algorithm == "argon2id"
               else s'.users[username] == s.users[username]
  {
    ExpiryBounds(s.now, cfg.accessSeconds);
    ExpiryBounds(s.now, cfg.refreshSeconds);
  }

  // --- many logins from one address ---

  predicate From(r: Request, clientIp: string) {
    r.Login? && r.clientIp == clientIp
  }

  function Elapsed(requests: seq<Request>): nat {
    if requests == [] then 0
    else (if requests[0].Tick? then requests[0].ms else 0) + Elapsed(requests[1..])
  }

  // How often a login from this address was answered so.
  function Answered(cfg: Config, s: State, requests: seq<Request>, clientIp: string, reply: Reply): nat
    decreases requests
  {
    if requests == [] then 0
    else (if From(requests[0], clientIp) && Step(cfg, s, requests[0]).1 == reply then 1 else 0)
         + Answered(cfg, Step(cfg, s, requests[0]).0, requests[1..], clientIp, reply)
  }

  // Redis is at work throughout, and nobody succeeds from this address.
  ghost predicate OnlyFailures(cfg: Config, s: State, requests: seq<Request>, clientIp: string)
    decreases requests
  {
    s.up == Up && (requests == [] ||
      (&& !(From(requests[0], clientIp) && Step(cfg, s, requests[0]).1.Tokens?)
       && OnlyFailures(cfg, Step(cfg, s, requests[0]).0, requests[1..], clientIp)))
  }

  // A missing key always passes, so a threshold below one acts like one.
  function Allowed(cfg: Config): nat {
    if cfg.failureThreshold > 1 then cfg.failureThreshold else 1
  }

  // The address has used up this many attempts, and nothing will be forgotten in the next d milliseconds.
  predicate Used(s: State, k: Key, n: int, d: nat) {
    k in s.store && s.store[k].value == n && s.store[k].expiresAt.Some? && s.now + d < s.store[k].expiresAt.value
  }

  // Other requests leave the counter of an address alone.
  lemma {:induction false} CounterStays(cfg: Config, s: State, r: Request, clientIp: string)
    requires !From(r, clientIp)
    ensures var k, s' := LoginFailures(clientIp), Step(cfg, s, r).0;
            && (k in s'.store <==> k in s.store) && (k in s.store ==> s'.store[k] == s.store[k])
            && s'.now == s.now + Elapsed([r])
  {
    assert [r][1..] == [];
  }

  lemma {:induction false} UsedStays(cfg: Config, s: State, requests: seq<Request>, clientIp: string, n: int)
    requires cfg.failureWindow >= 1 && Elapsed(requests) < 1000 * cfg.failureWindow
    requires OnlyFailures(cfg, s, requests, clientIp)
    requires Used(s, LoginFailures(clientIp), n, Elapsed(requests)) && 1 <= n <= Allowed(cfg)
    ensures var bad := Answered(cfg, s, requests, clientIp, BadCredentials);
            && n + bad <= Allowed(cfg)
            && Used(Run(cfg, s, requests), LoginFailures(clientIp), n + bad, 0)
            && Run(cfg, s, requests).up == Up
    decreases requests
  {
    if requests == [] {
    } else {
      var r, k := requests[0], LoginFailures(clientIp);
      var s' := Step(cfg, s, r).0;
      if From(r, clientIp) {
        LoginReplies(cfg, s, r.username, r.password, clientIp);
        FailureIsCounted(cfg, s, r.username, r.password, clientIp);
        var n' := if Step(cfg, s, r).1 == BadCredentials then n + 1 else n;
        UsedStays(cfg, s', requests[1..], clientIp, n');
      } else {
        CounterStays(cfg, s, r, clientIp);
        assert [r][1..] == [];
        UsedStays(cfg, s', requests[1..], clientIp, n);
      }
    }
  }

  // No counter stands at zero or below.
  ghost predicate Counts(s: State, clientIp: string) {
    LoginFailures(clientIp) in s.store ==> s.store[LoginFailures(clientIp)].value >= 1
  }

  lemma {:induction false} StepCounts(cfg: Config, s: State, r: Request, clientIp: string)
    requires Counts(s, clientIp)
    ensures Counts(Step(cfg, s, r).0, clientIp)
  {
    if From(r, clientIp) {
      LoginReplies(cfg, s, r.username, r.password, clientIp);
      FailureIsCounted(cfg, s, r.username, r.password, clientIp);
      if Step(cfg, s, r).1.Tokens? {
        LoginLetsIn(cfg, s, r.username, r.password, clientIp);
      }
    } else {
      CounterStays(cfg, s, r, clientIp);
    }
  }

  lemma {:induction false} RunCounts(cfg: Config, s: State, requests: seq<Request>, clientIp: string)
    requires Counts(s, clientIp)
    ensures Counts(Run(cfg, s, requests), clientIp)
    decreases requests
  {
    if requests == [] {
    } else {
      StepCounts(cfg, s, requests[0], clientIp);
      RunCounts(cfg, Step(cfg, s, requests[0]).0, requests[1..], clientIp);
    }
  }

  lemma {:induction false} GuessesAreBounded(cfg: Config, s: State, requests: seq<Request>, clientIp: string)
    requires cfg.failureWindow >= 1 && Elapsed(requests) < 1000 * cfg.failureWindow
    requires OnlyFailures(cfg, s, requests, clientIp) && Counts(s, clientIp)
    ensures var bad := Answered(cfg, s, requests, clientIp, BadCredentials);
            && bad <= Allowed(cfg)
            && Run(cfg, s, requests).up == Up
            && (bad > 0 ==> exists n :: bad <= n <= Allowed(cfg)
                              && Used(Run(cfg, s, requests), LoginFailures(clientIp), n, 0))
    decreases requests
  {
    if requests == [] {
    } else {
      var r, k := requests[0], LoginFailures(clientIp);
      var s' := Step(cfg, s, r).0;
      if From(r, clientIp) && Step(cfg, s, r).1 == BadCredentials {
        LoginReplies(cfg, s, r.username, r.password, clientIp);
        FailureIsCounted(cfg, s, r.username, r.password, clientIp);
        FirstGuess(cfg, s, requests, clientIp);
      } else {
        StepCounts(cfg, s, r, clientIp);
        GuessesAreBounded(cfg, s', requests[1..], clientIp);
      }
    }
  }

  lemma {:induction false} FirstGuess(cfg: Config, s: State, requests: seq<Request>, clientIp: string)
    requires cfg.failureWindow >= 1 && Elapsed(requests) < 1000 * cfg.failureWindow
    requires requests != [] && OnlyFailures(cfg, s, requests, clientIp) && Counts(s, clientIp)
    requires From(requests[0], clientIp) && Step(cfg, s, requests[0]).1 == BadCredentials
    ensures var bad := Answered(cfg, s, requests, clientIp, BadCredentials);
            && bad <= Allowed(cfg) && Run(cfg, s, requests).up == Up
            && exists n :: bad <= n <= Allowed(cfg) && Used(Run(cfg, s, requests), LoginFailures(clientIp), n, 0)
  {
    var r, k, rest := requests[0], LoginFailures(clientIp), requests[1..];
    LoginReplies(cfg, s, r.username, r.password, clientIp);
    FailureIsCounted(cfg, s, r.username, r.password, clientIp);
    var s' := Step(cfg, s, r).0;
    var n := s'.store[k].value;
    UsedStays(cfg, s', rest, clientIp, n);
    assert Used(Run(cfg, s', rest), k, n + Answered(cfg, s', rest, clientIp, BadCredentials), 0);
  }

  /** The brute-force law, over the endpoint itself: after anything that may have happened before, in an interval
      shorter than the window, with Redis at work and nobody succeeding from the address, at most `threshold` logins
      from it are answered BadCredentials; and once that many were, every further one is turned away, right password
      or not. */
  lemma {:induction false} GuessingIsLimited(cfg: Config, now: int, up: Availability, users: map<string, User>,
                                             before: seq<Request>, interval: seq<Request>, clientIp: string)
    requires cfg.failureWindow >= 1 && Elapsed(interval) < 1000 * cfg.failureWindow
    requires OnlyFailures(cfg, Run(cfg, Start(now, up, Expiring, users), before), interval, clientIp)
    ensures var s := Run(cfg, Start(now, up, Expiring, users), before);
            var bad := Answered(cfg, s, interval, clientIp, BadCredentials);
            && bad <= Allowed(cfg)
            && (bad == Allowed(cfg) ==> forall username, password ::
                  Step(cfg, Run(cfg, s, interval), Login(username, password, clientIp)).1 == TooManyRequests)
  {
    var start := Start(now, up, Expiring, users);
    var s := Run(cfg, start, before);
    RunCounts(cfg, start, before, clientIp);
    GuessesAreBounded(cfg, s, interval, clientIp);
    forall username, password | Answered(cfg, s, interval, clientIp, BadCredentials) == Allowed(cfg)
      ensures Step(cfg, Run(cfg, s, interval), Login(username, password, clientIp)).1 == TooManyRequests
    {
      LoginReplies(cfg, Run(cfg, s, interval), username, password, clientIp);
    }
  }

  function Guesses(username: string, password: string, clientIp: string, n: nat): seq<Request> {
    if n == 0 then [] else [Login(username, password, clientIp)] + Guesses(username, password, clientIp, n - 1)
  }

  lemma {:induction false} GuessesFrom(cfg: Config, s: State, username: string, password: string, clientIp: string,
                                       n: nat, used: nat)
    requires s.up == Up && cfg.failureWindow >= 1 && !Knows(cfg, s, username, password) && used <= Allowed(cfg)
    requires if used == 0 then !Stands(s, LoginFailures(clientIp)) else Used(s, LoginFailures(clientIp), used, 0)
    ensures var left := Allowed(cfg) - used;
            && Answered(cfg, s, Guesses(username, password, clientIp, n), clientIp, BadCredentials)
               == (if n < left then n else left)
            && Answered(cfg, s, Guesses(username, password, clientIp, n), clientIp, TooManyRequests)
               == (if n < left then 0 else n - left)
    decreases n
  {
    if n == 0 {
    } else {
      var requests, r := Guesses(username, password, clientIp, n), Login(username, password, clientIp);
      assert requests[0] == r && requests[1..] == Guesses(username, password, clientIp, n - 1);
      LoginReplies(cfg, s, username, password, clientIp);
      FailureIsCounted(cfg, s, username, password, clientIp);
      GuessesFrom(cfg, Step(cfg, s, r).0, username, password, clientIp, n - 1,
                  if used < Allowed(cfg) then used + 1 else used);
    }
  }

  /** And the limit is met: of any number of wrong guesses at once from an address without a counter the first
      `threshold` are answered BadCredentials and all the others are turned away. */
  lemma {:induction false} GuessingMeetsTheLimit(cfg: Config, s: State, username: string, password: string,
                                                 clientIp: string, n: nat)
    requires s.up == Up && cfg.failureWindow >= 1 && !Knows(cfg, s, username, password)
    requires !Stands(s, LoginFailures(clientIp))
    ensures var guesses := Guesses(username, password, clientIp, n);
            && Answered(cfg, s, guesses, clientIp, BadCredentials) == (if n < Allowed(cfg) then n else Allowed(cfg))
            && Answered(cfg, s, guesses, clientIp, TooManyRequests)
               == (if n < Allowed(cfg) then 0 else n - Allowed(cfg))
  {
    GuessesFrom(cfg, s, username, password, clientIp, n, 0);
  }

  // --- one exchange, access, logout, and one user disabled ---

  // A token that was issued and has not expired.
  predicate Genuine(s: State, token: nat) {
    token < |s.issued| && s.now < 1000 * s.issued[token].exp
  }

  predicate Welcome(s: State, username: string) {
    username in s.users && !s.users[username].disabled
  }

  predicate Denies(s: State, token: nat) {
    match s.denylist
    case Expiring => Stands(s, Denied(token))
    case Permanent(revoked) => token in revoked
  }

  // What both guards of a token say, before the denylist is asked.
  predicate Decodes(s: State, token: nat, reply: Reply) {
    && (reply == InvalidToken <==> token >= |s.issued|)
    && (reply == TokenExpired <==> token < |s.issued| && s.now >= 1000 * s.issued[token].exp)
  }

  /** Every reply of the refresh endpoint, exactly. */
  lemma {:induction false} RefreshReplies(cfg: Config, s: State, token: nat)
    ensures var reply := Step(cfg, s, RefreshToken(token)).1;
            && Decodes(s, token, reply)
            && (reply == WrongTokenType <==> Genuine(s, token) && s.issued[token].kind == Access)
            && (reply == ServiceUnavailable <==>
                  Genuine(s, token) && s.issued[token].kind == Refresh && s.up == Absent)
            && (reply == TokenRevoked <==>
                  && Genuine(s, token) && s.issued[token].kind == Refresh
                  && s.up.Present? && s.up.answers && Denies(s, token))
            && (reply == BadUser <==>
                  && Genuine(s, token) && s.issued[token].kind == Refresh
                  && s.up.Present? && s.up.answers && !Denies(s, token) && !Welcome(s, s.issued[token].sub))
            && (reply.Tokens? <==>
                  && Genuine(s, token) && s.issued[token].kind == Refresh
                  && s.up.Present? && s.up.answers && !Denies(s, token) && Welcome(s, s.issued[token].sub)
                  && s.up.writing == Works && cfg.refreshSeconds >= 1)
  {
  }

  // The denylist and nothing else has changed: the token is denied for so many seconds.
  predicate OnlyDenies(s: State, s': State, token: nat, seconds: int) {
    match s.denylist
    case Expiring => s' == s.(store := s.store[Denied(token) := Entry(1, Some(s.now + 1000 * seconds))])
    case Permanent(revoked) => s' == s.(denylist := Permanent(revoked + {token}))
  }

  /** An exchange denies the old token for a whole refresh lifetime and issues one pair for the same user in the same
      family; any other reply issues nothing, and changes nothing but for a write whose confirmation was lost. */
  lemma {:induction false} ExchangeReplaces(cfg: Config, s: State, token: nat)
    ensures var (s', reply) := Step(cfg, s, RefreshToken(token));
            && (reply.Tokens? ==>
                  && OnlyDenies(s, s'.(issued := s.issued), token, cfg.refreshSeconds)
                  && token < |s.issued| && PairIssued(cfg, s, s', reply, s.issued[token].sub, s.issued[token].family))
            && (!reply.Tokens? ==>
                  s' == s || (reply == InternalError && s.up.Present? && s.up.writing == Unconfirmed
                              && OnlyDenies(s, s', token, cfg.refreshSeconds)))
  {
    ExpiryBounds(s.now, cfg.accessSeconds);
    ExpiryBounds(s.now, cfg.refreshSeconds);
  }

  /** Every reply to an access token, exactly; access changes nothing. */
  lemma {:induction false} AccessReplies(cfg: Config, s: State, token: nat)
    ensures var (s', reply) := Step(cfg, s, CurrentUser(token));
            && s' == s && Decodes(s, token, reply)
            && (reply == WrongTokenType <==> Genuine(s, token) && s.issued[token].kind == Refresh)
            && (reply == TokenRevoked <==>
                  && Genuine(s, token) && s.issued[token].kind == Access
                  && s.up.Present? && s.up.answers && Denies(s, token))
            && (reply == BadUser <==>
                  && Genuine(s, token) && s.issued[token].kind == Access
                  && !(s.up.Present? && s.up.answers && Denies(s, token)) && !Welcome(s, s.issued[token].sub))
            && (reply.Authenticated? <==>
                  && Genuine(s, token) && s.issued[token].kind == Access
                  && !(s.up.Present? && s.up.answers && Denies(s, token)) && Welcome(s, s.issued[token].sub))
            && (reply.Authenticated? ==>
                  reply == Authenticated(s.issued[token].sub, s.users[s.issued[token].sub].role, token))
  {
  }

  /** Logout answers as access does to a token that does not pass; one that does is denied for a whole access lifetime
      if the write is done, and the reply is Done if it is also confirmed. */
  lemma {:induction false} LogoutDenies(cfg: Config, s: State, token: nat)
    ensures var access, (s', reply) := Step(cfg, s, CurrentUser(token)).1, Step(cfg, s, Logout(token));
            && (!access.Authenticated? ==> s' == s && reply == access)
            && (access.Authenticated? && s.up == Absent ==> s' == s && reply == ServiceUnavailable)
            && (access.Authenticated? && s.up.Present? ==>
                  && (reply == Done <==> s.up.writing == Works && cfg.accessSeconds >= 1)
                  && (reply != Done ==> reply == InternalError)
                  && (if s.up.writing != Refused && cfg.accessSeconds >= 1
                      then OnlyDenies(s, s', token, cfg.accessSeconds) else s' == s))
  {
  }

  /** Disabling a user marks that record and no other, and from then on nothing lets the user in again: no login,
      refresh, access or logout of theirs succeeds in any run. */
  lemma {:induction false} DisablingIsForGood(cfg: Config, s: State, username: string, after: seq<Request>)
    requires username in s.users
    ensures var s' := Step(cfg, s, DisableUser(username)).0;
            && s' == s.(users := s.users[username := s.users[username].(disabled := true)])
            && forall r :: !LetsIn(Run(cfg, s', after), r, Step(cfg, Run(cfg, s', after), r).1, username)
  {
    DisabledStaysOut(cfg, Step(cfg, s, DisableUser(username)).0, username, after);
  }

  /** The clock and the connection change as told, and an unknown user is nobody's. */
  lemma {:induction false} SurroundingsChange(cfg: Config, s: State, ms: nat, up: Availability, username: string)
    ensures Step(cfg, s, Tick(ms)).0 == s.(now := s.now + ms)
    ensures Step(cfg, s, Connectivity(up)).0 == s.(up := up)
    ensures username !in s.users ==> Step(cfg, s, DisableUser(username)).0 == s
  {
  }
}
