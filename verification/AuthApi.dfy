/** The objects behind the authentication endpoints: the Redis denylist, the user store with records changed in place,
    and the endpoints, each proved to be the step of the system in Auth.dfy. */
module AuthApi {
  import opened Wrappers
  import opened Redis
  import opened Auth
  import LoginGuard

  datatype DenylistError = DenylistUnavailable | BadTtl

  class RedisDenylist {
    var client: Server?

    constructor ()
      ensures client == null
    {
      client := null;
    }

    // The client is kept even if the PING that follows has no answer, which is an error at start-up.
    method Connect(server: Server) returns (ok: bool)
      modifies this
      ensures client == server && ok == server.answers
    {
      client := server;
      ok := server.answers;
    }

    method Close()
      modifies this
      ensures client == null
    {
      client := null;
    }

    predicate Answers()
      reads this, client
    {
      client != null && client.answers
    }

    function Writing(): Writing
      reads this, client
    {
      if client == null then Refused else client.writing
    }

    method Revoke(token: nat, seconds: int) returns (r: Result<(), DenylistError>)
      modifies if client == null then {} else {client}
      ensures r.Success? <==> seconds >= 1 && Writing() == Works
      ensures r.Failure? ==> r.error == if seconds < 1 then BadTtl else DenylistUnavailable
      ensures client != null ==>
                && client.now == old(client.now)
                && client.answers == old(client.answers) && client.writing == old(client.writing)
                && client.store == if seconds >= 1 && client.writing != Refused
                                   then SetEx(old(client.store), Denied(token), seconds, client.now)
                                   else old(client.store)
    {
      if seconds < 1 {
        return Failure(BadTtl);
      }
      if client == null {
        return Failure(DenylistUnavailable);
      }
      var written := client.DoSetEx(Denied(token), seconds);
      if written.Failure? {
        return Failure(DenylistUnavailable);
      }
      return Success(());
    }

    // Fails closed: without an answer there is an error, not a no.
    method IsRevoked(token: nat) returns (r: Result<bool, DenylistError>)
      ensures r.Success? <==> Answers()
      ensures r.Success? ==> r.value == Live(client.store, Denied(token), client.now)
    {
      if client == null {
        return Failure(DenylistUnavailable);
      }
      var found := client.DoExists(Denied(token));
      if found.Failure? {
        return Failure(DenylistUnavailable);
      }
      return Success(found.value);
    }
  }

  class UserRecord {
    const username: string
    const role: string
    var hash: string
    var algorithm: string
    var disabled: bool

    constructor (username: string, user: User)
      ensures this.username == username && Value() == user
    {
      this.username, role := username, user.role;
      hash, algorithm, disabled := user.hash, user.algorithm, user.disabled;
    }

    function Value(): User
      reads this
    {
      User(role, hash, algorithm, disabled)
    }
  }

  class InMemoryUserRepository {
    var records: map<string, UserRecord>

    constructor ()
      ensures Valid() && records == map[]
    {
      records := map[];
    }

    ghost predicate Valid()
      reads this
    {
      forall u :: u in records ==> records[u].username == u
    }

    function Users(): map<string, User>
      reads this, records.Values
    {
      map u | u in records :: records[u].Value()
    }

    method GetByUsername(username: string) returns (r: Option<UserRecord>)
      ensures r == if username in records then Some(records[username]) else None
    {
      r := if username in records then Some(records[username]) else None;
    }

    method UpdatePasswordHash(username: string, hash: string, algorithm: string)
      requires Valid()
      modifies records.Values
      ensures records == old(records)
      ensures Users() == if username !in records then old(Users())
                         else old(Users())[username := old(Users())[username].(hash := hash, algorithm := algorithm)]
    {
      var found := GetByUsername(username);
      if found.None? {
        return;
      }
      var user := found.value;
      user.hash := hash;
      user.algorithm := algorithm;
    }

    method Authenticate(cfg: Config, username: string, password: string) returns (r: Option<UserRecord>)
      requires Valid()
      modifies records.Values
      ensures records == old(records)
      ensures r.Some? <==> Auth.Authenticate(cfg, old(Users()), username, password).Some?
      ensures r.None? ==> Users() == old(Users())
      ensures r.Some? ==>
                && username in records && r.value == records[username]
                && Users() == Auth.Authenticate(cfg, old(Users()), username, password).value
    {
      var found := GetByUsername(username);
      if found.None? || found.value.disabled {
        return None;
      }
      var user := found.value;
      if !cfg.verify(password, user.hash) {
        return None;
      }
      var upgraded := cfg.rehash(user.hash, password);
      if upgraded.Some? {
        UpdatePasswordHash(username, upgraded.value, "argon2id");
      }
      return Some(user);
    }

    method DisableUser(username: string) returns (found: bool)
      requires Valid()
      modifies records.Values
      ensures records == old(records) && found == (username in records)
      ensures Users() == if found then old(Users())[username := old(Users())[username].(disabled := true)]
                         else old(Users())
    {
      if username !in records {
        return false;
      }
      var user := records[username];
      user.disabled := true;
      return true;
    }
  }

  class Endpoints {
    const cfg: Config
    const server: Server
    const denylist: RedisDenylist?
    const users: InMemoryUserRepository
    var issued: seq<Claims>

    constructor (cfg: Config, server: Server, denylist: RedisDenylist?, users: InMemoryUserRepository)
      ensures this.cfg == cfg && this.server == server && this.denylist == denylist && this.users == users
      ensures issued == []
    {
      this.cfg, this.server, this.denylist, this.users := cfg, server, denylist, users;
      issued := [];
    }

    // The denylist talks to this server or to none.
    ghost predicate Valid()
      reads this, denylist, users
    {
      && users.Valid()
      && (denylist != null && denylist.client != null ==> denylist.client == server)
    }

    ghost function Repr(): set<object>
      reads this, users
    {
      {this, server} + users.records.Values
    }

    ghost function System(): State
      reads this, server, denylist, if denylist == null then {} else {denylist.client}, users, users.records.Values
    {
      var up := if denylist == null then Absent else Present(denylist.Answers(), denylist.Writing());
      State(server.now, up, server.store, Expiring, users.Users(), issued)
    }

    method Decode(token: nat) returns (r: Result<Claims, Reply>)
      requires Valid()
      ensures r == Auth.Decode(System(), token)
    {
      if token >= |issued| {
        return Failure(InvalidToken);
      }
      if server.now >= 1000 * issued[token].exp {
        return Failure(TokenExpired);
      }
      return Success(issued[token]);
    }

    method IssueTokens(username: string, role: string, family: Option<nat>) returns (reply: Reply)
      requires Valid()
      modifies this`issued
      ensures Valid() && (System(), reply) == IssuePair(cfg, old(System()), username, role, family)
    {
      var access := |issued|;
      var refresh := access + 1;
      var kin := if family.Some? then family.value else refresh;
      issued := issued + [Claims(username, role, Access, Expiry(server.now, cfg.accessSeconds), kin)];
      issued := issued + [Claims(username, role, Refresh, Expiry(server.now, cfg.refreshSeconds), kin)];
      assert issued == old(issued) + [issued[access], issued[refresh]];
      reply := Tokens(access, refresh, cfg.accessSeconds);
    }

    method Client() returns (client: Server?)
      requires Valid()
      ensures client == if System().up == Absent || denylist.client == null then null else server
    {
      client := if denylist == null then null else denylist.client;
    }

    method TooManyFailures(k: Key) returns (blocked: bool)
      requires Valid() && k.LoginFailures?
      ensures var s := System();
              blocked <==>
                Auth.Answers(s) && Live(s.store, k, s.now) && Count(s.store, k, s.now) >= cfg.failureThreshold
    {
      var client := Client();
      if client == null {
        return false;
      }
      var failures := client.DoGet(k);
      return failures.Success? && failures.value.Some? && failures.value.value >= cfg.failureThreshold;
    }

    // INCR and EXPIRE in one transaction; an outage is ignored.
    method RecordLoginFailure(k: Key)
      requires Valid()
      modifies server`store
      ensures var s := old(System());
              System() == if !Applies(s) then s
                          else s.(store := LoginGuard.Recorded(s.store, k, cfg.failureWindow, s.now))
    {
      var client := Client();
      if client != null {
        var counted := client.DoIncrAndExpire(k, cfg.failureWindow);
      }
    }

    method ClearLoginFailures(k: Key)
      requires Valid()
      modifies server`store
      ensures var s := old(System());
              System() == if Applies(s) then s.(store := Delete(s.store, k)) else s
    {
      var client := Client();
      if client != null {
        var deleted := client.DoDelete(k);
      }
    }

    method CheckPassword(username: string, password: string) returns (user: Option<UserRecord>)
      requires Valid()
      modifies users.records.Values
      ensures users.records == old(users.records)
      ensures var s := old(System());
              match Auth.Authenticate(cfg, s.users, username, password)
              case None => user.None? && System() == s
              case Some(upgraded) => user.Some? && System() == s.(users := upgraded)
                                     && username in upgraded && user.value.role == upgraded[username].role
    {
      user := users.Authenticate(cfg, username, password);
      if user.Some? {
        assert users.Users()[username] == user.value.Value();
      }
    }

    method LetIn(k: Key, username: string, role: string) returns (reply: Reply)
      requires Valid()
      modifies this`issued, server`store
      ensures Valid()
      ensures var s := old(System());
              (System(), reply) == IssuePair(cfg, if Applies(s) then s.(store := Delete(s.store, k)) else s,
                                             username, role, None)
    {
      ClearLoginFailures(k);
      reply := IssueTokens(username, role, None);
    }

    method Login(username: string, password: string, clientIp: string) returns (reply: Reply)
      requires Valid()
      modifies Repr()
      ensures Valid() && users.records == old(users.records)
      ensures (System(), reply) == DoLogin(cfg, old(System()), username, password, clientIp)
    {
      var key := LoginFailures(clientIp);
      var blocked := TooManyFailures(key);
      if blocked {
        return TooManyRequests;
      }
      var user := CheckPassword(username, password);
      if user.None? {
        RecordLoginFailure(key);
        return BadCredentials;
      }
      reply := LetIn(key, username, user.value.role);
    }

    method Consult(token: nat) returns (r: Result<bool, DenylistError>)
      requires Valid() && denylist != null
      ensures r.Success? <==> Auth.Answers(System())
      ensures r.Success? ==> r.value == Revoked(System(), token)
    {
      r := denylist.IsRevoked(token);
    }

    method Spend(token: nat, seconds: int) returns (r: Result<(), DenylistError>)
      requires Valid() && denylist != null
      modifies server
      ensures (System(), r.Success?) == TryRevoke(old(System()), token, seconds)
    {
      r := denylist.Revoke(token, seconds);
    }

    method Exchange(token: nat, username: string, role: string, family: nat) returns (reply: Reply)
      requires Valid() && denylist != null
      modifies this`issued, server
      ensures Valid()
      ensures var (s, ok) := TryRevoke(old(System()), token, cfg.refreshSeconds);
              (System(), reply) == if ok then IssuePair(cfg, s, username, role, Some(family)) else (s, InternalError)
    {
      var written := Spend(token, cfg.refreshSeconds);
      if written.Failure? {
        return InternalError;
      }
      reply := IssueTokens(username, role, Some(family));
    }

    method RefreshToken(token: nat) returns (reply: Reply)
      requires Valid()
      modifies Repr()
      ensures Valid() && users.records == old(users.records)
      ensures (System(), reply) == DoRefresh(cfg, old(System()), token)
    {
      var decoded := Decode(token);
      if decoded.Failure? {
        return decoded.error;
      }
      var claims := decoded.value;
      if claims.kind != Refresh {
        return WrongTokenType;
      }
      if denylist == null {
        return ServiceUnavailable;
      }
      var revoked := Consult(token);
      if revoked.Failure? {
        return InternalError;
      }
      if revoked.value {
        return TokenRevoked;
      }
      var user := users.GetByUsername(claims.sub);
      if user.None? || user.value.disabled {
        return BadUser;
      }
      reply := Exchange(token, user.value.username, user.value.role, claims.family);
    }

    // Fails open: if the denylist has no answer the token counts as not revoked.
    method GetCurrentUser(token: nat) returns (reply: Reply)
      requires Valid()
      ensures reply == DoCurrentUser(System(), token)
    {
      var decoded := Decode(token);
      if decoded.Failure? {
        return decoded.error;
      }
      if decoded.value.kind != Access {
        return WrongTokenType;
      }
      var revoked := false;
      if denylist != null {
        var answer := Consult(token);
        if answer.Success? {
          revoked := answer.value;
        }
      }
      if revoked {
        return TokenRevoked;
      }
      var user := users.GetByUsername(decoded.value.sub);
      if user.None? || user.value.disabled {
        return BadUser;
      }
      return Authenticated(user.value.username, user.value.role, token);
    }

    method Logout(token: nat) returns (reply: Reply)
      requires Valid()
      modifies Repr()
      ensures Valid() && users.records == old(users.records)
      ensures (System(), reply) == DoLogout(cfg, old(System()), token)
    {
      var caller := GetCurrentUser(token);
      if !caller.Authenticated? {
        return caller;
      }
      if denylist == null {
        return ServiceUnavailable;
      }
      var written := Spend(token, cfg.accessSeconds);
      if written.Failure? {
        return InternalError;
      }
      return Done;
    }
  }

  // Start-up: the API comes up only if Redis answers.
  method StartUp(cfg: Config, server: Server, users: InMemoryUserRepository) returns (api: Option<Endpoints>)
    requires users.Valid()
    ensures api.Some? <==> server.answers
    ensures api.Some? ==>
              && fresh(api.value) && api.value.Valid() && api.value.users == users && api.value.server == server
              && api.value.System()
                 == Start(server.now, Present(true, server.writing), Expiring, users.Users()).(store := server.store)
  {
    var denylist := new RedisDenylist();
    var ok := denylist.Connect(server);
    if !ok {
      return None;
    }
    var endpoints := new Endpoints(cfg, server, denylist, users);
    api := Some(endpoints);
  }

  // Shutdown: requests still on their way find a denylist that is down.
  method ShutDown(api: Endpoints)
    requires api.Valid()
    modifies api.denylist
    ensures api.Valid()
    ensures var s := old(api.System());
            api.System() == s.(up := if s.up == Absent then Absent else Down)
  {
    if api.denylist != null {
      api.denylist.Close();
    }
  }
}
