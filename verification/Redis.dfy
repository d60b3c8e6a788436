/** The part of Redis the API uses: integer values under keys that may expire. Time is in milliseconds. */
module Redis {
  import opened Wrappers

  // Key strings carry one of three prefixes and cannot collide across them.
  datatype Key =
    | Denied(jti: nat)                                // jwt:denied:{jti}
    | LoginFailures(clientIp: string)                 // login_failures:{client_ip}
    | RateLimit(endpointGroup: string, user: string)  // ratelimit:{endpoint_group}:{username}

  datatype Entry = Entry(value: int, expiresAt: Option<int>)

  type Store = map<Key, Entry>

  predicate Live(s: Store, k: Key, now: int) {
    k in s && (s[k].expiresAt.Some? ==> now < s[k].expiresAt.value)
  }

  function Count(s: Store, k: Key, now: int): int {
    if Live(s, k, now) then s[k].value else 0
  }

  function SetEx(s: Store, k: Key, seconds: int, now: int): Store {
    s[k := Entry(1, Some(now + 1000 * seconds))]
  }

  // INCR keeps the expiry of a key that exists and gives none to one it creates.
  function Incr(s: Store, k: Key, now: int): Store {
    if Live(s, k, now) then s[k := Entry(s[k].value + 1, s[k].expiresAt)] else s[k := Entry(1, None)]
  }

  function Expire(s: Store, k: Key, seconds: int, now: int): Store {
    if Live(s, k, now) then s[k := Entry(s[k].value, Some(now + 1000 * seconds))] else s
  }

  function Delete(s: Store, k: Key): Store {
    s - {k}
  }

  datatype RedisError = NoAnswer

  // What becomes of a write: it is done and confirmed; it is not done, as on a read-only replica or with no connection;
  // or it is done and the answer is lost.
  datatype Writing = Works | Refused | Unconfirmed

  class Server {
    var store: Store
    var now: int
    var answers: bool
    var writing: Writing

    constructor (now: int)
      ensures store == map[] && this.now == now && answers && writing == Works
    {
      this.store, this.now, answers, writing := map[], now, true, Works;
    }

    // Every write command comes down to this.
    method Write(after: Store) returns (ok: bool)
      modifies this`store
      ensures store == if writing == Refused then old(store) else after
      ensures ok <==> writing == Works
    {
      if writing != Refused {
        store := after;
      }
      ok := writing == Works;
    }

    method DoSetEx(k: Key, seconds: int) returns (r: Result<(), RedisError>)
      modifies this`store
      ensures store == if writing == Refused then old(store) else SetEx(old(store), k, seconds, now)
      ensures r.Success? <==> writing == Works
    {
      var ok := Write(SetEx(store, k, seconds, now));
      r := if ok then Success(()) else Failure(NoAnswer);
    }

    method DoExists(k: Key) returns (r: Result<bool, RedisError>)
      ensures r == if answers then Success(Live(store, k, now)) else Failure(NoAnswer)
    {
      r := if answers then Success(Live(store, k, now)) else Failure(NoAnswer);
    }

    method DoGet(k: Key) returns (r: Result<Option<int>, RedisError>)
      ensures r == if !answers then Failure(NoAnswer)
                   else Success(if Live(store, k, now) then Some(Count(store, k, now)) else None)
    {
      if !answers {
        return Failure(NoAnswer);
      }
      r := Success(if Live(store, k, now) then Some(store[k].value) else None);
    }

    method DoIncr(k: Key) returns (r: Result<int, RedisError>)
      modifies this`store
      ensures store == if writing == Refused then old(store) else Incr(old(store), k, now)
      ensures r == if writing == Works then Success(Count(store, k, now)) else Failure(NoAnswer)
    {
      var ok := Write(Incr(store, k, now));
      r := if ok then Success(store[k].value) else Failure(NoAnswer);
    }

    method DoExpire(k: Key, seconds: int) returns (r: Result<(), RedisError>)
      modifies this`store
      ensures store == if writing == Refused then old(store) else Expire(old(store), k, seconds, now)
      ensures r.Success? <==> writing == Works
    {
      var ok := Write(Expire(store, k, seconds, now));
      r := if ok then Success(()) else Failure(NoAnswer);
    }

    // A pipeline of both, one transaction.
    method DoIncrAndExpire(k: Key, seconds: int) returns (r: Result<(), RedisError>)
      modifies this`store
      ensures store == if writing == Refused then old(store) else Expire(Incr(old(store), k, now), k, seconds, now)
      ensures r.Success? <==> writing == Works
    {
      var ok := Write(Expire(Incr(store, k, now), k, seconds, now));
      r := if ok then Success(()) else Failure(NoAnswer);
    }

    method DoDelete(k: Key) returns (r: Result<(), RedisError>)
      modifies this`store
      ensures store == if writing == Refused then old(store) else Delete(old(store), k)
      ensures r.Success? <==> writing == Works
    {
      var ok := Write(Delete(store, k));
      r := if ok then Success(()) else Failure(NoAnswer);
    }
  }
}
