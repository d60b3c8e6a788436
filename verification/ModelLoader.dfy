/** The lazily loaded model artifact: hash verification in chunks, and double-checked locking for any number of threads
    and any interleaving of load and _ensure_loaded. */
module ModelLoader {
  import opened Wrappers

  // --- the hash of the artifact ---

  predicate IsSentinel(digest: string) {
    |digest| == 64 && forall c :: c in digest ==> c == '0'
  }

  // The manifest beside the artifact: not there, without a word in it, or starting with this word.
  datatype Manifest = NoManifest | Blank | Starts(word: string)

  // The digest to compare with: the manifest's first word if it is 64 characters long, else the pinned constant, else
  // none while that is still the sentinel. A blank manifest is an IndexError.
  function ExpectedHash(manifest: Manifest, pinned: string): Result<Option<string>, ()> {
    if manifest.Blank? then Failure(())
    else if manifest.Starts? && |manifest.word| == 64 then Success(Some(manifest.word))
    else if IsSentinel(pinned) then Success(None)
    else Success(Some(pinned))
  }

  function Absorb<St>(update: (St, nat) -> St, s: St, bytes: seq<nat>): St {
    if bytes == [] then s else update(Absorb(update, s, bytes[..|bytes| - 1]), bytes[|bytes| - 1])
  }

  lemma {:induction false} AbsorbConcat<St>(update: (St, nat) -> St, s: St, a: seq<nat>, b: seq<nat>)
    ensures Absorb(update, s, a + b) == Absorb(update, Absorb(update, s, a), b)
  {
    if b == [] {
      assert a + b == a;
    } else {
      assert (a + b)[..|a + b| - 1] == a + b[..|b| - 1];
      AbsorbConcat(update, s, a, b[..|b| - 1]);
    }
  }

  lemma {:induction false} AbsorbOne<St>(update: (St, nat) -> St, s: St, byte: nat)
    ensures Absorb(update, s, []) == s && Absorb(update, s, [byte]) == update(s, byte)
  {
    assert [byte][..0] == [];
    assert Absorb(update, s, []) == s;
  }

  /** Reading the file chunk by chunk gives the digest of the whole file, whatever the streaming hash. The check passes
      without an error exactly if that is the first word of the manifest; for want of a manifest of the right form, the
      pinned digest; and if that is the sentinel, always, except with a blank manifest. */
  method VerifyArtifactHash<St>(update: (St, nat) -> St, init: St, hexdigest: St -> string, content: seq<nat>,
                                manifest: Manifest, pinned: string) returns (ok: bool)
    ensures var digest := hexdigest(Absorb(update, init, content));
            ok <==> if manifest.Blank? then false
                    else if manifest.Starts? && |manifest.word| == 64 then digest == manifest.word
                    else (|pinned| == 64 && forall c :: c in pinned ==> c == '0') || digest == pinned
  {
    var expected := ExpectedHash(manifest, pinned);
    if expected.Failure? {
      return false;
    }
    if expected.value.None? {
      return true;
    }
    var sha, at := init, 0;
    while at < |content|
      invariant 0 <= at <= |content|
      invariant sha == Absorb(update, init, content[..at])
    {
      var end := if at + 65536 <= |content| then at + 65536 else |content|;
      var chunk := content[at..end];
      ghost var before := content[..at];
      AbsorbConcat(update, init, before, chunk);
      sha := AbsorbAll(update, sha, chunk);
      assert content[..end] == before + chunk;
      at := end;
    }
    assert content[..at] == content;
    ok := hexdigest(sha) == expected.value.value;
  }

  method AbsorbAll<St>(update: (St, nat) -> St, s: St, chunk: seq<nat>) returns (s': St)
    ensures s' == Absorb(update, s, chunk)
  {
    s' := s;
    for i := 0 to |chunk|
      invariant s' == Absorb(update, s, chunk[..i])
    {
      s' := update(s', chunk[i]);
      assert chunk[..i + 1][..i] == chunk[..i];
    }
    assert chunk[..|chunk|] == chunk;
  }

  // --- threads ---

  // Where a thread stands; `explicit` tells load from _ensure_loaded.
  datatype Pc =
    | Idle
    | FirstCheck                            // if self._model is not None, outside the lock
    | FastReturn                            // return self._model, a second read
    | Waiting(explicit: bool)
    | SecondCheck                           // inside the lock from here to Leaving
    | Verifying(explicit: bool)
    | Loading(explicit: bool)
    | Leaving(explicit: bool, failed: bool)
    | Failing                               // the lock is released, the exception is on its way
    | FinalReturn

  // An artifact is known by its content. What happened, in order.
  datatype Event =
    | Acquired(thread: nat)
    | Verified(thread: nat, content: nat)
    | Stored(thread: nat, content: nat, explicit: bool)
    | Released(thread: nat)
    | Returned(thread: nat, model: Option<nat>)
    | Raised(thread: nat)

  datatype State = State(model: Option<nat>, lock: Option<nat>, pc: map<nat, Pc>, disk: nat, log: seq<Event>)

  // `ok` is the outcome of the hash comparison or of deserialisation.
  datatype Action =
    | CallEnsureLoaded(thread: nat)
    | CallLoad(thread: nat)
    | Advance(thread: nat, ok: bool)
    | ReplaceFile(content: nat)

  function At(s: State, t: nat): Pc {
    if t in s.pc then s.pc[t] else Idle
  }

  predicate Critical(pc: Pc) {
    pc.SecondCheck? || pc.Verifying? || pc.Loading? || pc.Leaving?
  }

  function Move(s: State, t: nat, pc: Pc): State {
    s.(pc := s.pc[t := pc])
  }

  function Log(s: State, e: Event): State {
    s.(log := s.log + [e])
  }

  function StepThread(s: State, t: nat, ok: bool): State {
    match At(s, t)
    case Idle => s
    case FirstCheck => Move(s, t, if s.model.Some? then FastReturn else Waiting(false))
    case FastReturn => Log(Move(s, t, Idle), Returned(t, s.model))
    case Waiting(explicit) =>
      if s.lock.Some? then s
      else Log(Move(s.(lock := Some(t)), t, if explicit then Verifying(true) else SecondCheck), Acquired(t))
    case SecondCheck => Move(s, t, if s.model.None? then Verifying(false) else Leaving(false, false))
    case Verifying(explicit) =>
      if ok then Log(Move(s, t, Loading(explicit)), Verified(t, s.disk)) else Move(s, t, Leaving(explicit, true))
    case Loading(explicit) =>
      if ok then Log(Move(s.(model := Some(s.disk)), t, Leaving(explicit, false)), Stored(t, s.disk, explicit))
      else Move(s, t, Leaving(explicit, true))
    case Leaving(explicit, failed) =>
      Log(Move(s.(lock := None), t, if failed then Failing else if explicit then Idle else FinalReturn), Released(t))
    case Failing => Log(Move(s, t, Idle), Raised(t))
    case FinalReturn => Log(Move(s, t, Idle), Returned(t, s.model))
  }

  function Step(s: State, a: Action): State {
    match a
    case CallEnsureLoaded(t) => if At(s, t) == Idle then Move(s, t, FirstCheck) else s
    case CallLoad(t) => if At(s, t) == Idle then Move(s, t, Waiting(true)) else s
    case Advance(t, ok) => StepThread(s, t, ok)
    case ReplaceFile(content) =>
      // The file does not change between its hash check and its deserialisation.
      if s.lock.Some? && At(s, s.lock.value).Loading? then s else s.(disk := content)
  }

  function Run(s: State, actions: seq<Action>): State
    decreases actions
  {
    if actions == [] then s else Run(Step(s, actions[0]), actions[1..])
  }

  function Start(disk: nat): State {
    State(None, None, map[], disk, [])
  }

  // --- what every interleaving keeps ---

  predicate LockEvent(e: Event) {
    e.Acquired? || e.Released?
  }

  // The thread verified this content at position j and no one has touched the lock since.
  ghost predicate VerifiedAt(log: seq<Event>, j: nat, thread: nat, content: nat) {
    && j < |log| && log[j] == Verified(thread, content)
    && forall k :: j < k < |log| ==> !LockEvent(log[k])
  }

  // Every stored model was verified by the same thread in the same critical section, and no call returned null.
  ghost predicate LogCorrect(log: seq<Event>) {
    log == [] ||
    var before, e := log[..|log| - 1], log[|log| - 1];
    && LogCorrect(before)
    && (e.Stored? ==> exists j :: VerifiedAt(before, j, e.thread, e.content))
    && (e.Returned? ==> e.model.Some?)
  }

  // Stores made by _ensure_loaded.
  function LazyStores(log: seq<Event>): nat {
    if log == [] then 0
    else LazyStores(log[..|log| - 1]) + (if log[|log| - 1].Stored? && !log[|log| - 1].explicit then 1 else 0)
  }

  ghost predicate ThreadSound(s: State, t: nat) {
    var pc := At(s, t);
    && (Critical(pc) <==> s.lock == Some(t))
    && (pc in {FastReturn, FinalReturn, Leaving(false, false)} ==> s.model.Some?)
    && (pc in {Verifying(false), Loading(false)} ==> s.model.None?)
    && (pc.Loading? ==> exists j :: VerifiedAt(s.log, j, t, s.disk))
  }

  ghost predicate LogSound(s: State) {
    LogCorrect(s.log) && LazyStores(s.log) <= (if s.model.Some? then 1 else 0)
  }

  ghost predicate Sound(s: State) {
    (forall t: nat :: ThreadSound(s, t)) && LogSound(s)
  }

  lemma {:induction false} VerifiedStays(log: seq<Event>, j: nat, thread: nat, content: nat, e: Event)
    requires VerifiedAt(log, j, thread, content) && !LockEvent(e)
    ensures VerifiedAt(log + [e], j, thread, content)
  {
  }

  lemma {:induction false} LogKept(log: seq<Event>, e: Event)
    requires LogCorrect(log)
    requires e.Stored? ==> exists j :: VerifiedAt(log, j, e.thread, e.content)
    requires e.Returned? ==> e.model.Some?
    ensures LogCorrect(log + [e])
    ensures LazyStores(log + [e]) == LazyStores(log) + (if e.Stored? && !e.explicit then 1 else 0)
  {
    assert (log + [e])[..|log|] == log;
  }

  // What a step that logs something logs.
  function StepEvent(s: State, t: nat): Event {
    match At(s, t)
    case Waiting(_) => Acquired(t)
    case Verifying(_) => Verified(t, s.disk)
    case Loading(explicit) => Stored(t, s.disk, explicit)
    case Leaving(_, _) => Released(t)
    case Failing => Raised(t)
    case _ => Returned(t, s.model)
  }

  lemma {:induction false} StepLogs(s: State, t: nat, ok: bool)
    ensures var s' := StepThread(s, t, ok);
            s'.log == s.log || (s'.log == s.log + [StepEvent(s, t)] && (At(s, t).Loading? ==> s'.model.Some?))
  {
  }

  // A thread outside the critical section, while another is inside, changes nothing but its own place.
  lemma {:induction false} OutsiderStep(s: State, t: nat, ok: bool)
    requires ThreadSound(s, t) && s.lock.Some? && s.lock != Some(t)
    ensures var s' := StepThread(s, t, ok);
            && s'.model == s.model && s'.lock == s.lock && s'.disk == s.disk
            && (s'.log == s.log || (s'.log == s.log + [StepEvent(s, t)] && !LockEvent(StepEvent(s, t))))
  {
  }

  lemma {:induction false} OtherThreadKept(s: State, t: nat, ok: bool, u: nat)
    requires ThreadSound(s, t) && ThreadSound(s, u) && t != u
    ensures ThreadSound(StepThread(s, t, ok), u)
  {
    var s' := StepThread(s, t, ok);
    assert At(s', u) == At(s, u);
    if s.lock == Some(u) {
      OutsiderStep(s, t, ok);
      if At(s, u).Loading? && s'.log != s.log {
        var j :| VerifiedAt(s.log, j, u, s.disk);
        VerifiedStays(s.log, j, u, s.disk, StepEvent(s, t));
      }
    }
  }

  lemma {:induction false} OwnStepKept(s: State, t: nat, ok: bool)
    requires ThreadSound(s, t)
    ensures ThreadSound(StepThread(s, t, ok), t)
    ensures s.model.Some? ==> StepThread(s, t, ok).model.Some?
  {
    var s' := StepThread(s, t, ok);
    if At(s, t).Verifying? && ok {
      assert VerifiedAt(s'.log, |s.log|, t, s'.disk);
    }
  }

  lemma {:induction false} LogStepKept(s: State, t: nat, ok: bool)
    requires ThreadSound(s, t) && LogSound(s)
    ensures LogSound(StepThread(s, t, ok))
  {
    var s' := StepThread(s, t, ok);
    StepLogs(s, t, ok);
    if s'.log != s.log {
      LogKept(s.log, StepEvent(s, t));
    }
  }

  lemma {:induction false} ThreadStepKeepsSound(s: State, t: nat, ok: bool)
    requires Sound(s)
    ensures Sound(StepThread(s, t, ok))
  {
    assert ThreadSound(s, t);
    LogStepKept(s, t, ok);
    forall u: nat
      ensures ThreadSound(StepThread(s, t, ok), u)
    {
      assert ThreadSound(s, u);
      if u == t {
        OwnStepKept(s, t, ok);
      } else {
        OtherThreadKept(s, t, ok, u);
      }
    }
  }

  lemma {:induction false} StepKeepsSound(s: State, a: Action)
    requires Sound(s)
    ensures Sound(Step(s, a))
    ensures s.model.Some? ==> Step(s, a).model.Some?
  {
    match a
    case Advance(t, ok) =>
      ThreadStepKeepsSound(s, t, ok);
      assert ThreadSound(s, t);
      OwnStepKept(s, t, ok);
    case _ =>
      var s' := Step(s, a);
      forall u: nat
        ensures ThreadSound(s', u)
      {
        assert ThreadSound(s, u);
        if s.lock.Some? {
          assert ThreadSound(s, s.lock.value);
        }
      }
  }

  /** Every interleaving: critical sections exclude one another, each stored model was verified by the same thread in
      the same critical section, no call returns a missing model, a model once there stays, and _ensure_loaded stores
      at most one model, even beside explicit loads. */
  lemma {:induction false} LockingIsCorrect(s: State, actions: seq<Action>)
    requires Sound(s)
    ensures var s' := Run(s, actions);
            && (forall t: nat, u: nat :: Critical(At(s', t)) && Critical(At(s', u)) ==> t == u)
            && LogCorrect(s'.log) && LazyStores(s'.log) <= 1
            && (s.model.Some? ==> s'.model.Some?)
    decreases actions
  {
    if actions == [] {
      forall t: nat, u: nat | Critical(At(s, t)) && Critical(At(s, u))
        ensures t == u
      {
        assert ThreadSound(s, t) && ThreadSound(s, u);
      }
    } else {
      StepKeepsSound(s, actions[0]);
      LockingIsCorrect(Step(s, actions[0]), actions[1..]);
    }
  }

  lemma {:induction false} StartIsSound(disk: nat)
    ensures Sound(Start(disk))
  {
    assert forall t: nat :: At(Start(disk), t) == Idle;
  }

  // --- without explicit loads ---

  predicate Explicit(pc: Pc) {
    pc in {Waiting(true), Verifying(true), Loading(true), Leaving(true, false), Leaving(true, true)}
  }

  function Stores(log: seq<Event>): nat {
    if log == [] then 0 else Stores(log[..|log| - 1]) + (if log[|log| - 1].Stored? then 1 else 0)
  }

  ghost predicate LazyOnly(s: State) {
    (forall t: nat :: !Explicit(At(s, t))) && Stores(s.log) == LazyStores(s.log)
  }

  lemma {:induction false} AdvanceStaysLazy(s: State, t: nat, ok: bool)
    requires LazyOnly(s)
    ensures LazyOnly(StepThread(s, t, ok))
  {
    var s' := StepThread(s, t, ok);
    assert !Explicit(At(s, t));
    forall u: nat
      ensures !Explicit(At(s', u))
    {
      assert !Explicit(At(s, u));
    }
    StepLogs(s, t, ok);
    if s'.log != s.log {
      LazyAppend(s.log, StepEvent(s, t));
    }
  }

  lemma {:induction false} LazyAppend(log: seq<Event>, e: Event)
    requires Stores(log) == LazyStores(log) && (e.Stored? ==> !e.explicit)
    ensures Stores(log + [e]) == LazyStores(log + [e])
  {
    assert (log + [e])[..|log|] == log;
  }

  lemma {:induction false} StepStaysLazy(s: State, a: Action)
    requires LazyOnly(s) && !a.CallLoad?
    ensures LazyOnly(Step(s, a))
  {
    if a.Advance? {
      AdvanceStaysLazy(s, a.thread, a.ok);
    } else {
      forall u: nat
        ensures !Explicit(At(Step(s, a), u))
      {
        assert !Explicit(At(s, u));
      }
    }
  }

  lemma {:induction false} RunStaysLazy(s: State, actions: seq<Action>)
    requires LazyOnly(s) && forall i :: 0 <= i < |actions| ==> !actions[i].CallLoad?
    ensures LazyOnly(Run(s, actions))
    decreases actions
  {
    if actions == [] {
    } else {
      StepStaysLazy(s, actions[0]);
      RunStaysLazy(Step(s, actions[0]), actions[1..]);
    }
  }

  /** If nobody calls load, the artifact is successfully deserialised at most once, however many threads ask for it. */
  lemma {:induction false} LoadedAtMostOnce(disk: nat, actions: seq<Action>)
    requires forall i :: 0 <= i < |actions| ==> !actions[i].CallLoad?
    ensures Stores(Run(Start(disk), actions).log) <= 1
  {
    StartIsSound(disk);
    LockingIsCorrect(Start(disk), actions);
    RunStaysLazy(Start(disk), actions);
  }

  // --- one call, undisturbed ---

  // A call and seven steps, more than any call takes; a thread that is done stays idle.
  function Alone(s: State, call: Action, t: nat, a: seq<bool>): State
    requires |a| == 7
  {
    Run(s, [call, Advance(t, a[0]), Advance(t, a[1]), Advance(t, a[2]), Advance(t, a[3]), Advance(t, a[4]),
            Advance(t, a[5]), Advance(t, a[6])])
  }

  lemma {:induction false} AloneIs(s: State, call: Action, t: nat, a: seq<bool>)
    requires |a| == 7
    ensures var s2 := StepThread(StepThread(Step(s, call), t, a[0]), t, a[1]);
            var s5 := StepThread(StepThread(StepThread(s2, t, a[2]), t, a[3]), t, a[4]);
            Alone(s, call, t, a) == StepThread(StepThread(s5, t, a[5]), t, a[6])
  {
    var x := [call, Advance(t, a[0]), Advance(t, a[1]), Advance(t, a[2]), Advance(t, a[3]), Advance(t, a[4]),
              Advance(t, a[5]), Advance(t, a[6])];
    var s1 := Step(s, x[0]);
    var s2 := Step(Step(s1, x[1]), x[2]);
    TwoOnwards(s, x);
    TwoOnwards(s2, x[3..]);
    TwoOnwards(Step(Step(Step(s2, x[3]), x[4]), x[5]), x[6..]);
  }

  lemma {:induction false} TwoOnwards(s: State, x: seq<Action>)
    requires |x| >= 2
    ensures Run(s, x) == Run(Step(Step(s, x[0]), x[1]), x[2..])
    ensures |x| >= 3 ==> Run(s, x) == Run(Step(Step(Step(s, x[0]), x[1]), x[2]), x[3..])
  {
    assert x[1..][1..] == x[2..];
    assert |x| >= 3 ==> x[2..][1..] == x[3..];
  }

  /** _ensure_loaded alone, with a model: it is returned without the lock and without looking at the disk. */
  lemma {:induction false} EnsureLoadedReturns(s: State, t: nat, hash: bool, loads: bool)
    requires At(s, t) == Idle && s.model.Some?
    ensures var s' := Alone(s, CallEnsureLoaded(t), t, [true, true, true, hash, loads, true, true]);
            && At(s', t) == Idle && s'.lock == s.lock && s'.disk == s.disk && s'.model == s.model
            && s'.log == s.log + [Returned(t, s.model)]
  {
    AloneIs(s, CallEnsureLoaded(t), t, [true, true, true, hash, loads, true, true]);
  }

  /** _ensure_loaded alone, without a model: what is on disk is verified, stored and returned under the lock; if it does
      not verify or does not load, the call raises, the lock is free again and there is still no model. */
  lemma {:induction false} EnsureLoadedLoads(s: State, t: nat, hash: bool, loads: bool)
    requires At(s, t) == Idle && s.lock.None? && s.model.None?
    ensures var s' := Alone(s, CallEnsureLoaded(t), t, [true, true, true, hash, loads, true, true]);
            && At(s', t) == Idle && s'.lock.None? && s'.disk == s.disk
            && s'.model == (if hash && loads then Some(s.disk) else None)
            && s'.log == s.log + [Acquired(t)] + (if hash then [Verified(t, s.disk)] else [])
                         + (if hash && loads then [Stored(t, s.disk, false), Released(t), Returned(t, Some(s.disk))]
                            else [Released(t), Raised(t)])
  {
    AloneIs(s, CallEnsureLoaded(t), t, [true, true, true, hash, loads, true, true]);
  }

  /** load alone: what is on disk replaces the model, there or not, if it verifies and loads; otherwise the call
      raises and the model stays. */
  lemma {:induction false} LoadAlone(s: State, t: nat, hash: bool, loads: bool)
    requires At(s, t) == Idle && s.lock.None?
    ensures var s' := Alone(s, CallLoad(t), t, [true, hash, loads, true, true, true, true]);
            && At(s', t) == Idle && s'.lock.None? && s'.disk == s.disk
            && (hash && loads ==>
                  && s'.model == Some(s.disk)
                  && s'.log == s.log + [Acquired(t), Verified(t, s.disk), Stored(t, s.disk, true), Released(t)])
            && (!(hash && loads) ==>
                  && s'.model == s.model
                  && s'.log == s.log + [Acquired(t)] + (if hash then [Verified(t, s.disk)] else [])
                               + [Released(t), Raised(t)])
  {
    AloneIs(s, CallLoad(t), t, [true, hash, loads, true, true, true, true]);
  }
}
