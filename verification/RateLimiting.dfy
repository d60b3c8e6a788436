/** The per-user rate limit: INCR and, for the request that reads 1, EXPIRE, as separate steps of any number of
    concurrent requests on one key. */
module RateLimiting {
  import opened Wrappers
  import opened Redis

  // --- _check_limit, alone on the key ---

  datatype Verdict = Admitted | Rejected | Unavailable

  class Limiter {
    const server: Server?
    const limits: map<string, int>
    const defaultLimit: int
    const window: int
    const failClosed: bool

    constructor (server: Server?, limits: map<string, int>, defaultLimit: int, window: int, failClosed: bool)
      ensures this.server == server && this.limits == limits && this.defaultLimit == defaultLimit
      ensures this.window == window && this.failClosed == failClosed
    {
      this.server, this.limits, this.defaultLimit := server, limits, defaultLimit;
      this.window, this.failClosed := window, failClosed;
    }

    function LimitForRole(role: string): int {
      if role in limits then limits[role] else defaultLimit
    }

    /** A request raises the caller's live count by one, or starts at one with a fresh expiry, touches no other key,
        and is admitted exactly if the new count is within the limit of its role, or the default limit if the role has
        none; without a working Redis the configuration decides. Seen as steps it is an Arrive followed, when it
        created the key, by its Expiry. */
    method CheckLimit(endpointGroup: string, username: string, role: string) returns (verdict: Verdict)
      modifies if server == null then {} else {server}
      ensures server != null && server.writing == Works ==>
                var k, was, now := RateLimit(endpointGroup, username), old(server.store), old(server.now);
                var live := k in was && (was[k].expiresAt.Some? ==> now < was[k].expiresAt.value);
                var count := (if live then was[k].value else 0) + 1;
                && server.store == was[k := Entry(count, if count == 1 then Some(now + 1000 * window)
                                                         else was[k].expiresAt)]
                && verdict == if count <= (if role in limits then limits[role] else defaultLimit) then Admitted
                              else Rejected
      ensures server == null || server.writing != Works ==> verdict == if failClosed then Unavailable else Admitted
      ensures server != null && server.writing == Refused ==> server.store == old(server.store)
      ensures server == null ==> verdict == if failClosed then Unavailable else Admitted
      ensures server != null && server.writing != Works ==>
                var k := RateLimit(endpointGroup, username);
                var start := Counter(old(server.now), old(server.store), false);
                var e := if server.writing == Refused then ArriveFails else ArriveUnseen(false);
                var (c, v) := Step(start, k, LimitForRole(role), window, failClosed, e);
                server.store == c.store && v == Some(verdict)
      ensures server != null && server.writing == Works ==>
                var k := RateLimit(endpointGroup, username);
                var start := Counter(old(server.now), old(server.store), false);
                var (c1, v1) := Step(start, k, LimitForRole(role), window, failClosed, Arrive);
                var (c2, v2) := Step(c1, k, LimitForRole(role), window, failClosed, Expiry);
                if c1.pending then server.store == c2.store && v2 == Some(verdict)
                else server.store == c1.store && v1 == Some(verdict)
      ensures server != null ==> server.now == old(server.now) && server.writing == old(server.writing)
    {
      var onError := if failClosed then Unavailable else Admitted;
      if server == null {
        return onError;
      }
      var key := RateLimit(endpointGroup, username);
      var limit := LimitForRole(role);
      var count := server.DoIncr(key);
      if count.Failure? {
        return onError;
      }
      if count.value == 1 {
        var expiry := server.DoExpire(key, window);
        if expiry.Failure? {
          return onError;
        }
      }
      verdict := if count.value > limit then Rejected else Admitted;
    }
  }

  // --- any number of requests on one key ---

  // `pending`: some request has read 1 and not yet sent its EXPIRE.
  datatype Counter = Counter(now: int, store: Store, pending: bool)

  datatype Event =
    | Tick(ms: nat)
    | Arrive                      // a request's INCR; unless it read 1 it is decided at once
    | Expiry                      // the pending request's EXPIRE, and its decision
    | ArriveFails                 // the INCR fails
    | ArriveUnseen(again: bool)   // it is done, but its answer lost: the client sends it again, or reports an error
    | ExpiryFails
    | ExpiryUnseen                // the EXPIRE is done, but its answer lost
    | Abandoned                   // the pending request is cancelled or its process dies

  function Decide(count: int, limit: int): Verdict {
    if count > limit then Rejected else Admitted
  }

  function Step(c: Counter, k: Key, limit: int, window: int, failClosed: bool, e: Event): (Counter, Option<Verdict>) {
    var onError := if failClosed then Unavailable else Admitted;
    match e
    case Tick(ms) => (c.(now := c.now + ms), None)
    case Arrive =>
      var store := Incr(c.store, k, c.now);
      var count := Count(store, k, c.now);
      if count == 1 then (c.(store := store, pending := true), None)
      else (c.(store := store), Some(Decide(count, limit)))
    case Expiry =>
      if !c.pending then (c, None)
      else (c.(store := Expire(c.store, k, window, c.now), pending := false), Some(Decide(1, limit)))
    case ArriveFails => (c, Some(onError))
    case ArriveUnseen(again) => (c.(store := Incr(c.store, k, c.now)), if again then None else Some(onError))
    case ExpiryFails =>
      if !c.pending then (c, None) else (c.(pending := false), Some(onError))
    case ExpiryUnseen =>
      if !c.pending then (c, None)
      else (c.(store := Expire(c.store, k, window, c.now), pending := false), Some(onError))
    case Abandoned => (c.(pending := false), None)
  }

  function Run(c: Counter, k: Key, limit: int, window: int, failClosed: bool, events: seq<Event>): Counter
    decreases events
  {
    if events == [] then c
    else Run(Step(c, k, limit, window, failClosed, events[0]).0, k, limit, window, failClosed, events[1..])
  }

  function One(b: bool): nat {
    if b then 1 else 0
  }

  // How many requests a run admits.
  function Admissions(c: Counter, k: Key, limit: int, window: int, failClosed: bool, events: seq<Event>): nat
    decreases events
  {
    if events == [] then 0
    else
      var (next, verdict) := Step(c, k, limit, window, failClosed, events[0]);
      One(verdict == Some(Admitted)) + Admissions(next, k, limit, window, failClosed, events[1..])
  }

  function Duration(events: seq<Event>): nat {
    if events == [] then 0
    else (if events[0].Tick? then events[0].ms else 0) + Duration(events[1..])
  }

  // Reported to the request as an error of Redis.
  predicate IsError(e: Event) {
    e.ArriveFails? || e == ArriveUnseen(false) || e.ExpiryFails? || e.ExpiryUnseen?
  }

  // No Redis error, or errors block.
  predicate ErrorsBlock(failClosed: bool, events: seq<Event>) {
    failClosed || forall i :: 0 <= i < |events| ==> !IsError(events[i])
  }

  ghost predicate Reachable(c: Counter, k: Key) {
    && (k in c.store ==> c.store[k].value >= 1)
    && (c.pending ==> k in c.store && c.store[k].expiresAt.None?)
  }

  lemma {:induction false} RunsAreReachable(c: Counter, k: Key, limit: int, window: int, failClosed: bool,
                                            events: seq<Event>)
    requires Reachable(c, k)
    ensures Reachable(Run(c, k, limit, window, failClosed, events), k)
    decreases events
  {
    if events == [] {
    } else {
      RunsAreReachable(Step(c, k, limit, window, failClosed, events[0]).0, k, limit, window, failClosed, events[1..]);
    }
  }

  function Cap(limit: int): nat {
    if limit > 0 then limit else 0
  }

  // How many more requests this lifetime of the key can admit.
  function Room(c: Counter, k: Key, limit: int): nat {
    var count := Count(c.store, k, c.now);
    (if limit > count >= 0 then limit - count else 0) + One(c.pending && limit >= 1)
  }

  // The most that can be admitted in the next d milliseconds, d at most one window.
  ghost function Budget(c: Counter, k: Key, limit: int, w: nat, d: nat): nat {
    if !Live(c.store, k, c.now) then (if d < w then 1 else 2) * Cap(limit)
    else if c.store[k].expiresAt.None? then Room(c, k, limit) + (if c.pending && d >= w then Cap(limit) else 0)
    else Room(c, k, limit) + (if c.store[k].expiresAt.value <= c.now + d then Cap(limit) else 0)
  }

  lemma {:induction false} BudgetCoversStep(c: Counter, k: Key, limit: int, window: int, failClosed: bool, e: Event,
                                            d: nat)
    requires Reachable(c, k) && window >= 1 && d <= 1000 * window
    requires e.Tick? ==> e.ms <= d
    requires ErrorsBlock(failClosed, [e])
    ensures var (next, verdict) := Step(c, k, limit, window, failClosed, e);
            One(verdict == Some(Admitted))
            + Budget(next, k, limit, 1000 * window, if e.Tick? then d - e.ms else d)
            <= Budget(c, k, limit, 1000 * window, d)
  {
    assert !failClosed ==> !IsError([e][0]);
  }

  lemma {:induction false} BudgetCoversRun(c: Counter, k: Key, limit: int, window: int, failClosed: bool,
                                           events: seq<Event>)
    requires Reachable(c, k) && window >= 1 && Duration(events) <= 1000 * window
    requires ErrorsBlock(failClosed, events)
    ensures Admissions(c, k, limit, window, failClosed, events) <= Budget(c, k, limit, 1000 * window, Duration(events))
    decreases events
  {
    if events == [] {
    } else {
      var next := Step(c, k, limit, window, failClosed, events[0]).0;
      RunsAreReachable(c, k, limit, window, failClosed, [events[0]]);
      assert Run(c, k, limit, window, failClosed, [events[0]]) == next by {
        assert [events[0]][1..] == [];
      }
      BudgetCoversStep(c, k, limit, window, failClosed, events[0], Duration(events));
      BudgetCoversRun(next, k, limit, window, failClosed, events[1..]);
    }
  }

  /** However requests interleave, in any interval no longer than the window at most twice the limit are admitted. */
  lemma {:induction false} AtMostTwiceTheLimit(k: Key, now: int, limit: int, window: int, failClosed: bool,
                                               before: seq<Event>, interval: seq<Event>)
    requires window >= 1 && Duration(interval) <= 1000 * window
    requires ErrorsBlock(failClosed, interval)
    ensures var c := Run(Counter(now, map[], false), k, limit, window, failClosed, before);
            Admissions(c, k, limit, window, failClosed, interval) <= 2 * Cap(limit)
  {
    var start := Counter(now, map[], false);
    RunsAreReachable(start, k, limit, window, failClosed, before);
    BudgetCoversRun(Run(start, k, limit, window, failClosed, before), k, limit, window, failClosed, interval);
  }

  /** So a caller is admitted at most twice the limit of its role in such an interval, and at most that limit within one
      lifetime of its key. */
  lemma {:induction false} CallersAreLimited(limiter: Limiter, endpointGroup: string, username: string, role: string,
                                             now: int, before: seq<Event>, interval: seq<Event>)
    requires limiter.window >= 1 && ErrorsBlock(limiter.failClosed, interval)
    ensures var k, start := RateLimit(endpointGroup, username), Counter(now, map[], false);
            var limit := if role in limiter.limits then limiter.limits[role] else limiter.defaultLimit;
            var c := Run(start, k, limit, limiter.window, limiter.failClosed, before);
            var admitted := Admissions(c, k, limit, limiter.window, limiter.failClosed, interval);
            && (Duration(interval) <= 1000 * limiter.window ==> admitted <= if limit > 0 then 2 * limit else 0)
            && (Live(c.store, k, c.now) && Creations(c, k, limit, limiter.window, limiter.failClosed, interval) == 0 ==>
                  admitted <= if limit > 0 then limit else 0)
  {
    var k, start := RateLimit(endpointGroup, username), Counter(now, map[], false);
    var limit := limiter.LimitForRole(role);
    if Duration(interval) <= 1000 * limiter.window {
      AtMostTwiceTheLimit(k, now, limit, limiter.window, limiter.failClosed, before, interval);
    }
    RunsAreReachable(start, k, limit, limiter.window, limiter.failClosed, before);
    var c := Run(start, k, limit, limiter.window, limiter.failClosed, before);
    if Live(c.store, k, c.now) && Creations(c, k, limit, limiter.window, limiter.failClosed, interval) == 0 {
      LimitPerLifetime(c, k, limit, limiter.window, limiter.failClosed, interval);
    }
  }

  // --- the bound is met: the window is fixed, not sliding ---

  function Arrivals(n: nat): seq<Event> {
    if n == 0 then [] else [Arrive] + Arrivals(n - 1)
  }

  lemma {:induction false} RunsJoin(c: Counter, k: Key, limit: int, window: int, failClosed: bool, a: seq<Event>,
                                    b: seq<Event>)
    ensures Run(c, k, limit, window, failClosed, a + b)
         == Run(Run(c, k, limit, window, failClosed, a), k, limit, window, failClosed, b)
    ensures Admissions(c, k, limit, window, failClosed, a + b)
         == Admissions(c, k, limit, window, failClosed, a)
          + Admissions(Run(c, k, limit, window, failClosed, a), k, limit, window, failClosed, b)
    ensures Duration(a + b) == Duration(a) + Duration(b)
    decreases a
  {
    if a == [] {
      assert a + b == b;
    } else {
      assert (a + b)[1..] == a[1..] + b;
      RunsJoin(Step(c, k, limit, window, failClosed, a[0]).0, k, limit, window, failClosed, a[1..], b);
    }
  }

  lemma {:induction false} ArrivalsFill(c: Counter, k: Key, limit: int, window: int, failClosed: bool, n: nat)
    requires Live(c.store, k, c.now) && 1 <= c.store[k].value <= limit - n
    ensures Admissions(c, k, limit, window, failClosed, Arrivals(n)) == n && Duration(Arrivals(n)) == 0
    ensures var c' := Run(c, k, limit, window, failClosed, Arrivals(n));
            c'.now == c.now && c'.pending == c.pending && k in c'.store && c'.store[k].expiresAt == c.store[k].expiresAt
    decreases n
  {
    if n == 0 {
    } else {
      ArrivalsFill(Step(c, k, limit, window, failClosed, Arrive).0, k, limit, window, failClosed, n - 1);
      assert Arrivals(n)[1..] == Arrivals(n - 1);
    }
  }

  // One whole window's worth, at one instant.
  function Burst(limit: nat): seq<Event>
    requires limit >= 1
  {
    [Arrive, Expiry] + Arrivals(limit - 1)
  }

  lemma {:induction false} BurstAdmitsLimit(c: Counter, k: Key, limit: nat, window: int, failClosed: bool)
    requires !Live(c.store, k, c.now) && !c.pending && limit >= 1 && window >= 1
    ensures Admissions(c, k, limit, window, failClosed, Burst(limit)) == limit && Duration(Burst(limit)) == 0
    ensures var c' := Run(c, k, limit, window, failClosed, Burst(limit));
            && c'.now == c.now && !c'.pending && k in c'.store
            && c'.store[k].expiresAt == Some(c.now + 1000 * window)
  {
    var c1 := Step(c, k, limit, window, failClosed, Arrive).0;
    var c2 := Step(c1, k, limit, window, failClosed, Expiry).0;
    var two := [Arrive, Expiry];
    assert two[1..] == [Expiry] && two[1..][1..] == [];
    assert Run(c, k, limit, window, failClosed, two) == c2;
    assert Admissions(c, k, limit, window, failClosed, two) == 1;
    RunsJoin(c, k, limit, window, failClosed, two, Arrivals(limit - 1));
    ArrivalsFill(c2, k, limit, window, failClosed, limit - 1);
    assert Duration(two) == 0;
  }

  /** Twice the limit is reached, for every limit and window, within one window: the documented sliding window is a
      fixed one. */
  lemma {:induction false} TwiceTheLimitIsReached(k: Key, now: int, limit: nat, window: int, failClosed: bool)
    requires limit >= 1 && window >= 1
    ensures var events := Burst(limit) + ([Tick(1000 * window)] + Burst(limit));
            && Duration(events) == 1000 * window
            && Admissions(Counter(now, map[], false), k, limit, window, failClosed, events) == 2 * limit
  {
    var c := Counter(now, map[], false);
    var tick := [Tick(1000 * window)];
    BurstAdmitsLimit(c, k, limit, window, failClosed);
    var c1 := Run(c, k, limit, window, failClosed, Burst(limit));
    var c2 := Step(c1, k, limit, window, failClosed, tick[0]).0;
    BurstAdmitsLimit(c2, k, limit, window, failClosed);
    RunsJoin(c, k, limit, window, failClosed, Burst(limit), tick + Burst(limit));
    RunsJoin(c1, k, limit, window, failClosed, tick, Burst(limit));
    assert tick[1..] == [];
    assert Run(c1, k, limit, window, failClosed, tick) == c2;
  }

  // --- one lifetime of the key ---

  predicate Creates(c: Counter, k: Key, e: Event) {
    (e.Arrive? || e.ArriveUnseen?) && !Live(c.store, k, c.now)
  }

  function Creations(c: Counter, k: Key, limit: int, window: int, failClosed: bool, events: seq<Event>): nat
    decreases events
  {
    if events == [] then 0
    else One(Creates(c, k, events[0]))
         + Creations(Step(c, k, limit, window, failClosed, events[0]).0, k, limit, window, failClosed, events[1..])
  }

  // EXPIRE commands sent, whether or not they succeed.
  function Expiries(c: Counter, k: Key, limit: int, window: int, failClosed: bool, events: seq<Event>): nat
    decreases events
  {
    if events == [] then 0
    else One(c.pending && (events[0].Expiry? || events[0].ExpiryFails? || events[0].ExpiryUnseen?))
         + Expiries(Step(c, k, limit, window, failClosed, events[0]).0, k, limit, window, failClosed, events[1..])
  }

  // The request that created the key will not send its EXPIRE: it never learned that it read 1, or it is gone.
  predicate Orphans(c: Counter, k: Key, e: Event) {
    (e.ArriveUnseen? && !Live(c.store, k, c.now)) || (e.Abandoned? && c.pending)
  }

  function Orphaned(c: Counter, k: Key, limit: int, window: int, failClosed: bool, events: seq<Event>): nat
    decreases events
  {
    if events == [] then 0
    else One(Orphans(c, k, events[0]))
         + Orphaned(Step(c, k, limit, window, failClosed, events[0]).0, k, limit, window, failClosed, events[1..])
  }

  /** Every lifetime of the key sees exactly one EXPIRE attempt, by the request that created it, unless it is orphaned,
      and then none. */
  lemma {:induction false} OneExpiryPerLifetime(c: Counter, k: Key, limit: int, window: int, failClosed: bool,
                                                events: seq<Event>)
    requires Reachable(c, k)
    ensures One(c.pending) + Creations(c, k, limit, window, failClosed, events)
         == One(Run(c, k, limit, window, failClosed, events).pending)
          + Expiries(c, k, limit, window, failClosed, events)
          + Orphaned(c, k, limit, window, failClosed, events)
    decreases events
  {
    if events == [] {
    } else {
      var next := Step(c, k, limit, window, failClosed, events[0]).0;
      assert Reachable(next, k);
      OneExpiryPerLifetime(next, k, limit, window, failClosed, events[1..]);
    }
  }

  /** Within one lifetime of the key at most `limit` requests are admitted, however long it lasts. */
  lemma {:induction false} LimitPerLifetime(c: Counter, k: Key, limit: int, window: int, failClosed: bool,
                                            events: seq<Event>)
    requires Reachable(c, k) && Live(c.store, k, c.now) && ErrorsBlock(failClosed, events)
    requires Creations(c, k, limit, window, failClosed, events) == 0
    ensures Admissions(c, k, limit, window, failClosed, events) <= Room(c, k, limit) <= Cap(limit)
    decreases events
  {
    if events == [] {
    } else {
      var next := Step(c, k, limit, window, failClosed, events[0]).0;
      assert Reachable(next, k);
      if Live(next.store, k, next.now) {
        LimitPerLifetime(next, k, limit, window, failClosed, events[1..]);
      } else {
        NothingWithoutCreation(next, k, limit, window, failClosed, events[1..]);
      }
    }
  }

  lemma {:induction false} NothingWithoutCreation(c: Counter, k: Key, limit: int, window: int, failClosed: bool,
                                                  events: seq<Event>)
    requires Reachable(c, k) && !Live(c.store, k, c.now) && ErrorsBlock(failClosed, events)
    requires Creations(c, k, limit, window, failClosed, events) == 0
    ensures Admissions(c, k, limit, window, failClosed, events) == 0
    decreases events
  {
    if events == [] {
    } else {
      var next := Step(c, k, limit, window, failClosed, events[0]).0;
      NothingWithoutCreation(next, k, limit, window, failClosed, events[1..]);
    }
  }

  // --- a lost EXPIRE ---

  // The key lives without an expiry and nobody is about to give it one.
  predicate Lost(c: Counter, k: Key) {
    k in c.store && c.store[k].expiresAt.None? && !c.pending
  }

  predicate LosesExpiry(c: Counter, k: Key, e: Event) {
    (c.pending && e.ExpiryFails?) || Orphans(c, k, e)
  }

  lemma {:induction false} LostWhen(c: Counter, k: Key, limit: int, window: int, failClosed: bool, e: Event)
    requires Reachable(c, k)
    ensures Lost(Step(c, k, limit, window, failClosed, e).0, k) <==> Lost(c, k) || LosesExpiry(c, k, e)
  {
  }

  function Losses(c: Counter, k: Key, limit: int, window: int, failClosed: bool, events: seq<Event>): nat
    decreases events
  {
    if events == [] then 0
    else One(LosesExpiry(c, k, events[0]))
         + Losses(Step(c, k, limit, window, failClosed, events[0]).0, k, limit, window, failClosed, events[1..])
  }

  lemma {:induction false} RunIsLostWhen(c: Counter, k: Key, limit: int, window: int, failClosed: bool,
                                         events: seq<Event>)
    requires Reachable(c, k)
    ensures Lost(Run(c, k, limit, window, failClosed, events), k)
            <==> Lost(c, k) || Losses(c, k, limit, window, failClosed, events) > 0
    decreases events
  {
    if events == [] {
    } else {
      var next := Step(c, k, limit, window, failClosed, events[0]).0;
      assert Reachable(next, k);
      LostWhen(c, k, limit, window, failClosed, events[0]);
      RunIsLostWhen(next, k, limit, window, failClosed, events[1..]);
    }
  }

  lemma {:induction false} NoErrorNoLoss(c: Counter, k: Key, limit: int, window: int, failClosed: bool,
                                         events: seq<Event>)
    requires forall e :: e in events ==> !e.ExpiryFails? && !e.ArriveUnseen? && !e.Abandoned?
    ensures Losses(c, k, limit, window, failClosed, events) == 0
    decreases events
  {
    if events == [] {
    } else {
      assert events[0] in events;
      NoErrorNoLoss(Step(c, k, limit, window, failClosed, events[0]).0, k, limit, window, failClosed, events[1..]);
    }
  }

  lemma {:induction false} LostKeyNeverDies(c: Counter, k: Key, limit: int, window: int, failClosed: bool,
                                            events: seq<Event>)
    requires Reachable(c, k) && Lost(c, k) && ErrorsBlock(failClosed, events)
    ensures Admissions(c, k, limit, window, failClosed, events) <= Room(c, k, limit)
    ensures Live(Run(c, k, limit, window, failClosed, events).store, k,
                 Run(c, k, limit, window, failClosed, events).now)
    decreases events
  {
    if events == [] {
    } else {
      LostKeyNeverDies(Step(c, k, limit, window, failClosed, events[0]).0, k, limit, window, failClosed, events[1..]);
    }
  }

  /** A run leaves a key that never dies if and only if in it the EXPIRE of a creating request fails, or that request
      does not get the answer to its INCR, or is abandoned before its EXPIRE; from then on, for ever, no more than the
      rest of one limit is admitted. */
  lemma {:induction false} LostExpiryBlocksForEver(k: Key, now: int, limit: int, window: int, failClosed: bool,
                                                   before: seq<Event>, after: seq<Event>)
    requires ErrorsBlock(failClosed, after)
    ensures var start := Counter(now, map[], false);
            var c := Run(start, k, limit, window, failClosed, before);
            && (Lost(c, k) <==> Losses(start, k, limit, window, failClosed, before) > 0)
            && (Lost(c, k) ==> exists e :: e in before && (e.ExpiryFails? || e.ArriveUnseen? || e.Abandoned?))
            && (Lost(c, k) ==>
                  && Admissions(c, k, limit, window, failClosed, after) <= Room(c, k, limit)
                  && Live(Run(c, k, limit, window, failClosed, after).store, k,
                          Run(c, k, limit, window, failClosed, after).now))
  {
    var start := Counter(now, map[], false);
    var c := Run(start, k, limit, window, failClosed, before);
    RunsAreReachable(start, k, limit, window, failClosed, before);
    RunIsLostWhen(start, k, limit, window, failClosed, before);
    if !exists e :: e in before && (e.ExpiryFails? || e.ArriveUnseen? || e.Abandoned?) {
      NoErrorNoLoss(start, k, limit, window, failClosed, before);
    }
    if Lost(c, k) {
      LostKeyNeverDies(c, k, limit, window, failClosed, after);
    }
  }

  /** One request whose EXPIRE fails is enough, and so is one that is abandoned, or whose INCR is sent twice. */
  lemma {:induction false} OneErrorLosesTheKey(k: Key, now: int, limit: int, window: int, failClosed: bool)
    ensures var c := Counter(now, map[], false);
            && Lost(Run(c, k, limit, window, failClosed, [Arrive, ExpiryFails]), k)
            && Lost(Run(c, k, limit, window, failClosed, [Arrive, Abandoned]), k)
            && Lost(Run(c, k, limit, window, failClosed, [ArriveUnseen(true), Arrive]), k)
  {
    TwoSteps(Counter(now, map[], false), k, limit, window, failClosed, Arrive, ExpiryFails);
    TwoSteps(Counter(now, map[], false), k, limit, window, failClosed, Arrive, Abandoned);
    TwoSteps(Counter(now, map[], false), k, limit, window, failClosed, ArriveUnseen(true), Arrive);
  }

  lemma {:induction false} TwoSteps(c: Counter, k: Key, limit: int, window: int, failClosed: bool, a: Event, b: Event)
    ensures Run(c, k, limit, window, failClosed, [a, b])
         == Step(Step(c, k, limit, window, failClosed, a).0, k, limit, window, failClosed, b).0
  {
    var events, c1 := [a, b], Step(c, k, limit, window, failClosed, a).0;
    assert events[1..] == [b] && [b][1..] == [];
    assert Run(c, k, limit, window, failClosed, events) == Run(c1, k, limit, window, failClosed, [b]);
  }
}
