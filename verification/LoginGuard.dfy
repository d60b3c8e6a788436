/** The brute-force counter on one client address: a GET before the password check, then INCR and EXPIRE in one
    transaction after a failure or DELETE after a success, for any number of requests in between. */
module LoginGuard {
  import opened Wrappers
  import opened Redis

  // `inFlight`: requests past the check whose password has not been judged yet.
  datatype Guard = Guard(now: int, store: Store, inFlight: nat)

  // `Quit`: a request ends without its outcome reaching the counter, because Redis takes no writes or the request dies.
  datatype Event = Tick(ms: nat) | Check | Fail | Succeed | Quit

  // The count is compared only if the key exists.
  predicate Blocked(g: Guard, k: Key, threshold: int) {
    Live(g.store, k, g.now) && Count(g.store, k, g.now) >= threshold
  }

  function Recorded(s: Store, k: Key, window: int, now: int): Store {
    Expire(Incr(s, k, now), k, window, now)
  }

  function Step(g: Guard, k: Key, threshold: int, window: int, e: Event): Guard {
    match e
    case Tick(ms) => g.(now := g.now + ms)
    case Check => if Blocked(g, k, threshold) then g else g.(inFlight := g.inFlight + 1)
    case Fail =>
      if g.inFlight == 0 then g
      else g.(inFlight := g.inFlight - 1, store := Recorded(g.store, k, window, g.now))
    case Succeed =>
      if g.inFlight == 0 then g else g.(inFlight := g.inFlight - 1, store := Delete(g.store, k))
    case Quit => if g.inFlight == 0 then g else g.(inFlight := g.inFlight - 1)
  }

  function Run(g: Guard, k: Key, threshold: int, window: int, events: seq<Event>): Guard
    decreases events
  {
    if events == [] then g else Run(Step(g, k, threshold, window, events[0]), k, threshold, window, events[1..])
  }

  // Failures recorded in a run.
  function Failures(g: Guard, k: Key, threshold: int, window: int, events: seq<Event>): nat
    decreases events
  {
    if events == [] then 0
    else (if events[0].Fail? && g.inFlight > 0 then 1 else 0)
         + Failures(Step(g, k, threshold, window, events[0]), k, threshold, window, events[1..])
  }

  function Duration(events: seq<Event>): nat {
    if events == [] then 0
    else (if events[0].Tick? then events[0].ms else 0) + Duration(events[1..])
  }

  // Never more than `most` requests past the check at once.
  ghost predicate AtMost(most: nat, g: Guard, k: Key, threshold: int, window: int, events: seq<Event>)
    decreases events
  {
    g.inFlight <= most
    && (events == [] || AtMost(most, Step(g, k, threshold, window, events[0]), k, threshold, window, events[1..]))
  }

  // A missing key always passes, so a threshold below 1 acts like 1.
  function Effective(threshold: int): nat {
    if threshold > 1 then threshold else 1
  }

  ghost predicate Invariant(most: nat, g: Guard, k: Key, threshold: int) {
    && most >= 1
    && (k in g.store ==> g.store[k].value >= 1 && g.store[k].expiresAt.Some?)
    && Count(g.store, k, g.now) + g.inFlight <= Effective(threshold) - 1 + most
  }

  lemma {:induction false} StepKeepsInvariant(most: nat, g: Guard, k: Key, threshold: int, window: int, e: Event)
    requires Invariant(most, g, k, threshold) && window >= 1
    requires Step(g, k, threshold, window, e).inFlight <= most
    ensures Invariant(most, Step(g, k, threshold, window, e), k, threshold)
  {
  }

  lemma {:induction false} RunKeepsInvariant(most: nat, g: Guard, k: Key, threshold: int, window: int,
                                             events: seq<Event>)
    requires Invariant(most, g, k, threshold) && window >= 1 && AtMost(most, g, k, threshold, window, events)
    ensures Invariant(most, Run(g, k, threshold, window, events), k, threshold)
    decreases events
  {
    if events == [] {
    } else {
      StepKeepsInvariant(most, g, k, threshold, window, events[0]);
      RunKeepsInvariant(most, Step(g, k, threshold, window, events[0]), k, threshold, window, events[1..]);
    }
  }

  // Failures still possible in the next d milliseconds; every failure renews the key beyond them.
  ghost function Budget(most: nat, g: Guard, k: Key, threshold: int, d: nat): int {
    Effective(threshold) - 1 + most
    - (if Live(g.store, k, g.now) && g.store[k].expiresAt.Some? && g.store[k].expiresAt.value > g.now + d
       then g.store[k].value else 0)
  }

  lemma {:induction false} BudgetCoversRun(most: nat, g: Guard, k: Key, threshold: int, window: int, events: seq<Event>)
    requires Invariant(most, g, k, threshold) && window >= 1 && AtMost(most, g, k, threshold, window, events)
    requires Duration(events) < 1000 * window
    requires forall i :: 0 <= i < |events| ==> !events[i].Succeed?
    ensures Failures(g, k, threshold, window, events) <= Budget(most, g, k, threshold, Duration(events))
    decreases events
  {
    if events == [] {
    } else {
      var next := Step(g, k, threshold, window, events[0]);
      StepKeepsInvariant(most, g, k, threshold, window, events[0]);
      BudgetCoversRun(most, next, k, threshold, window, events[1..]);
    }
  }

  /** With at most `most` requests past the check at once, any interval shorter than the window and without a success
      records at most threshold + most - 1 failures: `threshold` when requests come one after the other. */
  lemma {:induction false} FailuresAreBounded(most: nat, k: Key, now: int, threshold: int, window: int,
                                              before: seq<Event>, interval: seq<Event>)
    requires most >= 1 && window >= 1
    requires AtMost(most, Guard(now, map[], 0), k, threshold, window, before)
    requires AtMost(most, Run(Guard(now, map[], 0), k, threshold, window, before), k, threshold, window, interval)
    requires Duration(interval) < 1000 * window
    requires forall i :: 0 <= i < |interval| ==> !interval[i].Succeed?
    ensures Failures(Run(Guard(now, map[], 0), k, threshold, window, before), k, threshold, window, interval)
            <= Effective(threshold) + most - 1
  {
    var start := Guard(now, map[], 0);
    RunKeepsInvariant(most, start, k, threshold, window, before);
    BudgetCoversRun(most, Run(start, k, threshold, window, before), k, threshold, window, interval);
  }

  // --- the bound is met ---

  function Repeat(e: Event, n: nat): seq<Event> {
    if n == 0 then [] else [e] + Repeat(e, n - 1)
  }

  // One failed attempt after another.
  function Attempts(n: nat): seq<Event> {
    if n == 0 then [] else [Check, Fail] + Attempts(n - 1)
  }

  lemma {:induction false} RunsJoin(g: Guard, k: Key, threshold: int, window: int, a: seq<Event>, b: seq<Event>)
    ensures Run(g, k, threshold, window, a + b) == Run(Run(g, k, threshold, window, a), k, threshold, window, b)
    ensures Failures(g, k, threshold, window, a + b)
         == Failures(g, k, threshold, window, a) + Failures(Run(g, k, threshold, window, a), k, threshold, window, b)
    ensures forall most {:trigger AtMost(most, g, k, threshold, window, a)} ::
              AtMost(most, g, k, threshold, window, a)
              && AtMost(most, Run(g, k, threshold, window, a), k, threshold, window, b)
              ==> AtMost(most, g, k, threshold, window, a + b)
    ensures Duration(a + b) == Duration(a) + Duration(b)
    decreases a
  {
    if a == [] {
      assert a + b == b;
    } else {
      assert (a + b)[1..] == a[1..] + b;
      RunsJoin(Step(g, k, threshold, window, a[0]), k, threshold, window, a[1..], b);
    }
  }

  lemma {:induction false} AttemptsFail(g: Guard, k: Key, threshold: int, window: int, n: nat)
    requires g.inFlight == 0 && window >= 1 && Count(g.store, k, g.now) + n < Effective(threshold)
    requires Count(g.store, k, g.now) >= 0
    ensures Failures(g, k, threshold, window, Attempts(n)) == n && Duration(Attempts(n)) == 0
    ensures AtMost(1, g, k, threshold, window, Attempts(n))
    ensures var g' := Run(g, k, threshold, window, Attempts(n));
            g'.now == g.now && g'.inFlight == 0 && Count(g'.store, k, g'.now) == Count(g.store, k, g.now) + n
    decreases n
  {
    if n == 0 {
    } else {
      var events := Attempts(n);
      var g1 := Step(g, k, threshold, window, Check);
      var g2 := Step(g1, k, threshold, window, Fail);
      assert events[0] == Check && events[1..][0] == Fail && events[1..][1..] == Attempts(n - 1);
      AttemptsFail(g2, k, threshold, window, n - 1);
    }
  }

  lemma {:induction false} ChecksPass(g: Guard, k: Key, threshold: int, window: int, n: nat)
    requires !Blocked(g, k, threshold)
    ensures Failures(g, k, threshold, window, Repeat(Check, n)) == 0 && Duration(Repeat(Check, n)) == 0
    ensures AtMost(g.inFlight + n, g, k, threshold, window, Repeat(Check, n))
    ensures Run(g, k, threshold, window, Repeat(Check, n)) == g.(inFlight := g.inFlight + n)
    decreases n
  {
    if n == 0 {
    } else {
      assert Repeat(Check, n)[1..] == Repeat(Check, n - 1);
      ChecksPass(Step(g, k, threshold, window, Check), k, threshold, window, n - 1);
    }
  }

  lemma {:induction false} AllFail(g: Guard, k: Key, threshold: int, window: int, n: nat)
    requires g.inFlight == n
    ensures Failures(g, k, threshold, window, Repeat(Fail, n)) == n && Duration(Repeat(Fail, n)) == 0
    ensures AtMost(n, g, k, threshold, window, Repeat(Fail, n))
    decreases n
  {
    if n == 0 {
    } else {
      assert Repeat(Fail, n)[1..] == Repeat(Fail, n - 1);
      var next := Step(g, k, threshold, window, Fail);
      AllFail(next, k, threshold, window, n - 1);
      AtMostMore(n - 1, n, next, k, threshold, window, Repeat(Fail, n - 1));
    }
  }

  lemma {:induction false} AtMostMore(fewer: nat, more: nat, g: Guard, k: Key, threshold: int, window: int,
                                      events: seq<Event>)
    requires fewer <= more && AtMost(fewer, g, k, threshold, window, events)
    ensures AtMost(more, g, k, threshold, window, events)
    decreases events
  {
    if events == [] {
    } else {
      AtMostMore(fewer, more, Step(g, k, threshold, window, events[0]), k, threshold, window, events[1..]);
    }
  }

  /** The bound is exact: threshold - 1 failures one after the other, then `most` requests that pass the check together,
      all at one instant. */
  lemma {:induction false} BoundIsReached(most: nat, k: Key, now: int, threshold: int, window: int)
    requires most >= 1 && window >= 1
    ensures var g := Guard(now, map[], 0);
            var events := Attempts(Effective(threshold) - 1) + (Repeat(Check, most) + Repeat(Fail, most));
            && AtMost(most, g, k, threshold, window, events) && Duration(events) == 0
            && Failures(g, k, threshold, window, events) == Effective(threshold) + most - 1
  {
    var g := Guard(now, map[], 0);
    var first, checks, fails := Attempts(Effective(threshold) - 1), Repeat(Check, most), Repeat(Fail, most);
    AttemptsFail(g, k, threshold, window, Effective(threshold) - 1);
    AtMostMore(1, most, g, k, threshold, window, first);
    var g1 := Run(g, k, threshold, window, first);
    ChecksPass(g1, k, threshold, window, most);
    AllFail(g1.(inFlight := most), k, threshold, window, most);
    RunsJoin(g1, k, threshold, window, checks, fails);
    RunsJoin(g, k, threshold, window, first, checks + fails);
  }
}
