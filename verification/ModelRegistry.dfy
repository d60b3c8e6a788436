/** The model registry: a service that keeps its catalogue in memory, and the one the API uses, whose cache is rebuilt
    from the table for every request and whose writes are committed or rolled back with it. */
module ModelRegistry {
  import opened Wrappers

  const MODEL_VERSION := "1.0.0"

  datatype VersionStatus = ACTIVE | INACTIVE | CANARY | SHADOW | QUARANTINED

  // A version's record or row. registered_at is left out: it is drawn anew by every bootstrap.
  datatype Record = Record(
    status: VersionStatus, artifactFile: string, activatedAt: Option<int>, metrics: Option<string>)

  type Table = map<string, Record>

  datatype Cache = Cache(versions: map<string, Record>, active: Option<string>)

  // What the loaded model reports about itself.
  datatype Health = Health(artifactFile: string, modelLoaded: bool, loadedAt: Option<int>)

  datatype Request =
    | Register(version: string, artifactFile: string, metrics: Option<string>)
    | Activate(version: string, disk: set<string>, now: int)
    | Quarantine(version: string)
    | ReadVersion(version: string)
    | ReadActive

  datatype Reply =
    | Registered(record: Record)
    | Activated(record: Record, previous: Option<string>)
    | Quarantined(record: Record)
    | Version(found: Option<Record>)
    | ActiveVersion(active: Option<(string, Record)>)
    | AlreadyRegistered | NotRegistered | ArtifactMissing
    | TwoActiveRows

  // Raised as exceptions, so the request's transaction is rolled back.
  predicate Raised(r: Reply) {
    r in {AlreadyRegistered, NotRegistered, ArtifactMissing, TwoActiveRows}
  }

  // --- the catalogue in memory ---

  function BootRecord(h: Health): Record {
    Record(if h.modelLoaded then ACTIVE else INACTIVE, h.artifactFile, h.loadedAt, None)
  }

  function Bootstrap(h: Health): Cache {
    Cache(map[MODEL_VERSION := BootRecord(h)], if h.modelLoaded then Some(MODEL_VERSION) else None)
  }

  // `if previous and previous != version and previous in self._versions`: an empty string is not a previous version.
  function Demoted(c: Cache, version: string): map<string, Record> {
    if c.active.Some? && c.active.value != "" && c.active.value != version && c.active.value in c.versions
    then c.versions[c.active.value := c.versions[c.active.value].(status := INACTIVE)]
    else c.versions
  }

  function CacheStep(c: Cache, r: Request): (Cache, Reply) {
    match r
    case Register(version, artifactFile, metrics) =>
      if version in c.versions then (c, AlreadyRegistered)
      else
        var record := Record(INACTIVE, artifactFile, None, metrics);
        (c.(versions := c.versions[version := record]), Registered(record))
    case Activate(version, disk, now) =>
      if version !in c.versions then (c, NotRegistered)
      else if c.versions[version].artifactFile !in disk then (c, ArtifactMissing)
      else
        var record := c.versions[version].(status := ACTIVE, activatedAt := Some(now));
        (Cache(Demoted(c, version)[version := record], Some(version)), Activated(record, c.active))
    case Quarantine(version) =>
      if version !in c.versions then (c, NotRegistered)
      else
        var record := c.versions[version].(status := QUARANTINED);
        var active := if c.active == Some(version) then None else c.active;
        (Cache(c.versions[version := record], active), Quarantined(record))
    case ReadVersion(version) => (c, Version(if version in c.versions then Some(c.versions[version]) else None))
    case ReadActive =>
      (c, ActiveVersion(if c.active.Some? && c.active.value in c.versions
                        then Some((c.active.value, c.versions[c.active.value])) else None))
  }

  // --- the table ---

  function ActiveRows(t: Table): set<string> {
    set v | v in t && t[v].status == ACTIVE
  }

  function DeactivateAll(t: Table): Table {
    map v | v in t :: if t[v].status == ACTIVE then t[v].(status := INACTIVE) else t[v]
  }

  function SetStatus(t: Table, version: string, status: VersionStatus, activatedAt: Option<int>): Table {
    if version !in t then t
    else t[version := t[version].(status := status,
                                  activatedAt := if status == ACTIVE then activatedAt else t[version].activatedAt)]
  }

  // The statements the async variants add after the cache has accepted the request.
  function TableStep(t: Table, r: Request): Table {
    match r
    case Register(version, artifactFile, metrics) => t[version := Record(INACTIVE, artifactFile, None, metrics)]
    case Activate(version, _, now) => SetStatus(DeactivateAll(t), version, ACTIVE, Some(now))
    case Quarantine(version) => SetStatus(t, version, QUARANTINED, None)
    case _ => t
  }

  function Seeded(h: Health, t: Table): Table {
    if MODEL_VERSION in t then t else t[MODEL_VERSION := BootRecord(h)]
  }

  // The bootstrapped record keeps its artifact and metrics and takes status and activation time from its row.
  function HydratedRecords(h: Health, t: Table): map<string, Record> {
    map v | v in t :: if v == MODEL_VERSION then BootRecord(h).(status := t[v].status, activatedAt := t[v].activatedAt)
                      else t[v]
  }

  // SELECT ... WHERE status = 'active', scalar_one_or_none: more than one row is an error.
  ghost function GetActive(t: Table): Result<Option<string>, Reply> {
    if |ActiveRows(t)| > 1 then Failure(TwoActiveRows)
    else if ActiveRows(t) == {} then Success(None)
    else var v :| v in ActiveRows(t); Success(Some(v))
  }

  // What the reads answer comes from the rows.
  function RowReply(t: Table, active: Option<string>, r: Request, cached: Reply): Reply {
    match r
    case ReadVersion(version) => Version(if version in t then Some(t[version]) else None)
    case ReadActive =>
      ActiveVersion(if active.Some? && active.value in t then Some((active.value, t[active.value])) else None)
    case _ => cached
  }

  // The transaction of one request ends here: the cache it worked with, the table it leaves and its reply.
  datatype Outcome = Outcome(cache: Cache, table: Table, reply: Reply)

  // `health` is what the loaded model reports at the time of the call; `commits` is false when the transaction fails
  // for a reason of its own.
  datatype Call = Call(request: Request, commits: bool, health: Health)

  // create_db_backed, the request, and commit or rollback.
  ghost function Serve(t: Table, call: Call): Outcome {
    var h := call.health;
    var seeded := Seeded(h, t);
    match GetActive(seeded)
    case Failure(reply) => Outcome(Bootstrap(h), t, reply)
    case Success(active) =>
      var c := Cache(HydratedRecords(h, seeded), active);
      var (c', cached) := CacheStep(c, call.request);
      var reply := RowReply(seeded, active, call.request, cached);
      Outcome(c', if call.commits && !Raised(reply) then TableStep(seeded, call.request) else t, reply)
  }

  // --- at most one active row ---

  ghost predicate Sound(t: Table) {
    && |ActiveRows(t)| <= 1
    && (t == map[] || MODEL_VERSION in t)
  }

  predicate IsActiveRow(t: Table, active: Option<string>) {
    ActiveRows(t) == if active.Some? then {active.value} else {}
  }

  lemma {:induction false} OneOrNone(t: Table, v: string)
    requires ActiveRows(t) <= {v}
    ensures |ActiveRows(t)| <= 1
  {
    if v in ActiveRows(t) {
      assert ActiveRows(t) == {v};
    } else {
      assert ActiveRows(t) == {};
    }
  }

  lemma {:induction false} GetActiveFinds(t: Table)
    requires |ActiveRows(t)| <= 1
    ensures GetActive(t).Success? && IsActiveRow(t, GetActive(t).value)
  {
    var a := GetActive(t).value;
    if a.Some? {
      var rest := ActiveRows(t) - {a.value};
      assert |rest| == 0;
      assert ActiveRows(t) == rest + {a.value};
    }
  }

  lemma {:induction false} SeedingIsSound(h: Health, t: Table)
    requires Sound(t)
    ensures Sound(Seeded(h, t))
  {
    if MODEL_VERSION !in t {
      OneOrNone(Seeded(h, t), MODEL_VERSION);
    }
  }

  lemma {:induction false} TableStepIsSound(t: Table, r: Request)
    requires Sound(t) && MODEL_VERSION in t
    requires r.Register? ==> r.version !in t
    ensures Sound(TableStep(t, r))
  {
    var t' := TableStep(t, r);
    match r {
      case Register(_, _, _) =>
        assert ActiveRows(t') == ActiveRows(t);
      case Activate(version, _, _) =>
        OneOrNone(t', version);
      case Quarantine(version) =>
        GetActiveFinds(t);
        var active := GetActive(t).value;
        OneOrNone(t', if active.Some? then active.value else version);
      case _ =>
    }
  }

  lemma {:induction false} ServingKeepsOneActive(t: Table, call: Call)
    requires Sound(t)
    ensures Sound(Serve(t, call).table) && Serve(t, call).reply != TwoActiveRows
  {
    SeedingIsSound(call.health, t);
    var seeded := Seeded(call.health, t);
    GetActiveFinds(seeded);
    assert HydratedRecords(call.health, seeded).Keys == seeded.Keys;
    if Serve(t, call).table != t {
      TableStepIsSound(seeded, call.request);
    }
  }

  ghost function TableAfter(t: Table, calls: seq<Call>): Table
    decreases calls
  {
    if calls == [] then t else TableAfter(Serve(t, calls[0]).table, calls[1..])
  }

  ghost function Replies(t: Table, calls: seq<Call>): seq<Reply>
    decreases calls
  {
    if calls == [] then []
    else [Serve(t, calls[0]).reply] + Replies(Serve(t, calls[0]).table, calls[1..])
  }

  lemma {:induction false} RunKeepsOneActive(t: Table, calls: seq<Call>)
    requires Sound(t)
    ensures Sound(TableAfter(t, calls)) && TwoActiveRows !in Replies(t, calls)
    decreases calls
  {
    if calls == [] {
    } else {
      ServingKeepsOneActive(t, calls[0]);
      RunKeepsOneActive(Serve(t, calls[0]).table, calls[1..]);
    }
  }

  /** From an empty table, whatever the requests, however their transactions end and whatever the model reports in
      between, the table never holds two active rows, so get_active never meets two: no request of any run fails for
      that reason. */
  lemma {:induction false} NeverTwoActiveRows(calls: seq<Call>)
    ensures |ActiveRows(TableAfter(map[], calls))| <= 1 && TwoActiveRows !in Replies(map[], calls)
  {
    EmptyIsSound();
    RunKeepsOneActive(map[], calls);
  }

  lemma {:induction false} EmptyIsSound()
    ensures Sound(map[])
  {
    assert ActiveRows(map[]) == {};
  }

  // --- one long-lived service ---

  // The cache says what the table says: versions, status, activation times and which one is active.
  ghost predicate Agree(c: Cache, t: Table) {
    c.versions == t && IsActiveRow(t, c.active)
  }

  // The table and a service that has lived through the same committed requests.
  ghost predicate Mirrors(h: Health, t: Table, longLived: Cache) {
    && Agree(longLived, Seeded(h, t))
    && (MODEL_VERSION in t || t == map[])
    && (MODEL_VERSION in t ==> t[MODEL_VERSION].artifactFile == h.artifactFile && t[MODEL_VERSION].metrics == None)
  }

  // Activating a named version while the empty string is the active one.
  predicate SkipsDemotion(c: Cache, r: Request) {
    r.Activate? && r.version != "" && c.active == Some("")
  }

  lemma {:induction false} StepsAgree(c: Cache, t: Table, r: Request)
    requires Agree(c, t) && !Raised(CacheStep(c, r).1)
    ensures Agree(CacheStep(c, r).0, TableStep(t, r)) <==> !SkipsDemotion(c, r)
  {
    var c', t' := CacheStep(c, r).0, TableStep(t, r);
    match r {
      case Register(version, _, _) =>
        assert ActiveRows(t') == ActiveRows(t);
      case Activate(version, _, _) =>
        assert ActiveRows(t') == {version};
        if SkipsDemotion(c, r) {
          assert "" in ActiveRows(t);
          assert c'.versions[""].status == ACTIVE && t'[""].status == INACTIVE;
        } else {
          forall v | v in t
            ensures c'.versions[v] == t'[v]
          {
            assert t[v].status == ACTIVE ==> v in ActiveRows(t);
          }
        }
      case Quarantine(version) =>
        assert ActiveRows(t') == ActiveRows(t) - {version};
      case _ =>
    }
  }

  /** The exception can be reached through the service: register the empty string as a version, activate it, then
      activate the bootstrapped one. The cache is left with two active records and the table with one. */
  lemma {:induction false} EmptyVersionDisagrees(h: Health, f: string, now: int)
    ensures var c0, t0 := Bootstrap(h), Seeded(h, map[]);
            var r1, r2 := Register("", f, None), Activate("", {f}, now);
            var r3 := Activate(MODEL_VERSION, {h.artifactFile}, now);
            var (c1, _) := CacheStep(c0, r1);
            var (c2, _) := CacheStep(c1, r2);
            var (c3, reply) := CacheStep(c2, r3);
            var t3 := TableStep(TableStep(TableStep(t0, r1), r2), r3);
            && SkipsDemotion(c2, r3) && reply.Activated?
            && ActiveRows(c3.versions) == {"", MODEL_VERSION} && ActiveRows(t3) == {MODEL_VERSION}
  {
    var r1, r2 := Register("", f, None), Activate("", {f}, now);
    var r3 := Activate(MODEL_VERSION, {h.artifactFile}, now);
    var c1 := CacheStep(Bootstrap(h), r1).0;
    var c2 := CacheStep(c1, r2).0;
    assert c2.active == Some("") && c2.versions[""].status == ACTIVE;
    assert c2.versions[MODEL_VERSION].artifactFile == h.artifactFile;
    assert CacheStep(c2, r3).0.versions.Keys == {"", MODEL_VERSION};
    var t1 := TableStep(Seeded(h, map[]), r1);
    var t2 := TableStep(t1, r2);
    assert t1.Keys == t2.Keys == {"", MODEL_VERSION};
  }

  // A cache rebuilt from the table is the long-lived one.
  lemma {:induction false} HydrationIsMirror(h: Health, t: Table, longLived: Cache)
    requires Mirrors(h, t, longLived)
    ensures var seeded := Seeded(h, t);
            GetActive(seeded).Success? && Cache(HydratedRecords(h, seeded), GetActive(seeded).value) == longLived
  {
    var seeded := Seeded(h, t);
    OneOrNone(seeded, if longLived.active.Some? then longLived.active.value else "");
    GetActiveFinds(seeded);
    assert HydratedRecords(h, seeded) == seeded;
    var a, b := GetActive(seeded).value, longLived.active;
    assert a.Some? ==> a.value in ActiveRows(seeded);
    assert b.Some? ==> b.value in ActiveRows(seeded);
  }

  // The long-lived service applies what is committed.
  function Lived(longLived: Cache, call: Call): Cache {
    if call.commits && !Raised(CacheStep(longLived, call.request).1) then CacheStep(longLived, call.request).0
    else longLived
  }

  /** A request served from a rebuilt cache answers as the long-lived service would. If it commits, the two stay in step
      and the request's own cache agrees with the table it leaves in every case but one: after activating a named
      version while "" is active, cache and table disagree. */
  lemma {:induction false} ServingIsMirrored(t: Table, longLived: Cache, call: Call)
    requires Mirrors(call.health, t, longLived)
    ensures Serve(t, call).reply == CacheStep(longLived, call.request).1
    ensures !SkipsDemotion(longLived, call.request) ==>
              Mirrors(call.health, Serve(t, call).table, Lived(longLived, call))
    ensures call.commits && !Raised(Serve(t, call).reply) ==>
              (Agree(Serve(t, call).cache, Serve(t, call).table) <==> !SkipsDemotion(longLived, call.request))
    ensures MODEL_VERSION in t ==> MODEL_VERSION in Serve(t, call).table
  {
    var h := call.health;
    HydrationIsMirror(h, t, longLived);
    if call.commits && !Raised(CacheStep(longLived, call.request).1) {
      StepsAgree(longLived, Seeded(h, t), call.request);
      var t' := Serve(t, call).table;
      assert Seeded(h, t') == t';
    }
  }

  ghost function LongLivedAfter(longLived: Cache, calls: seq<Call>): Cache
    decreases calls
  {
    if calls == [] then longLived else LongLivedAfter(Lived(longLived, calls[0]), calls[1..])
  }

  ghost function LongLivedReplies(longLived: Cache, calls: seq<Call>): seq<Reply>
    decreases calls
  {
    if calls == [] then []
    else [CacheStep(longLived, calls[0].request).1] + LongLivedReplies(Lived(longLived, calls[0]), calls[1..])
  }

  ghost predicate NeverSkips(longLived: Cache, calls: seq<Call>)
    decreases calls
  {
    calls == [] || (!SkipsDemotion(longLived, calls[0].request) && NeverSkips(Lived(longLived, calls[0]), calls[1..]))
  }

  // What the model may report from one call to the next: anything about its loading once the table is seeded, but
  // always the same artifact file.
  predicate SameArtifact(h: Health, t: Table, other: Health) {
    other.artifactFile == h.artifactFile && (MODEL_VERSION !in t ==> other == h)
  }

  ghost predicate ReportsFit(h: Health, t: Table, calls: seq<Call>) {
    forall i :: 0 <= i < |calls| ==> SameArtifact(h, t, calls[i].health)
  }

  lemma {:induction false} RunIsMirrored(h: Health, t: Table, longLived: Cache, calls: seq<Call>)
    requires Mirrors(h, t, longLived) && NeverSkips(longLived, calls) && ReportsFit(h, t, calls)
    ensures Replies(t, calls) == LongLivedReplies(longLived, calls)
    ensures Mirrors(h, TableAfter(t, calls), LongLivedAfter(longLived, calls))
    decreases calls
  {
    if calls == [] {
    } else {
      assert SameArtifact(h, t, calls[0].health);
      assert Mirrors(calls[0].health, t, longLived);
      ServingIsMirrored(t, longLived, calls[0]);
      RunIsMirrored(h, Serve(t, calls[0]).table, Lived(longLived, calls[0]), calls[1..]);
    }
  }

  lemma {:induction false} NamedVersionsNeverSkip(longLived: Cache, calls: seq<Call>)
    requires "" !in longLived.versions && longLived.active != Some("") && NamedVersions(calls)
    ensures NeverSkips(longLived, calls)
    decreases calls
  {
    if calls == [] {
    } else {
      assert calls[0].request.Register? ==> calls[0].request.version != "";
      NamedVersionsNeverSkip(Lived(longLived, calls[0]), calls[1..]);
    }
  }

  ghost predicate NamedVersions(calls: seq<Call>) {
    forall i :: 0 <= i < |calls| && calls[i].request.Register? ==> calls[i].request.version != ""
  }

  /** From an empty table, any sequence of requests, each with its own rebuilt cache and its own commit or rollback,
      gives the replies of one long-lived in-memory service and ends in its state, if no version is registered under
      the empty string and the model reports the same throughout. */
  lemma {:induction false} RequestsActAsOneService(h: Health, calls: seq<Call>)
    requires NamedVersions(calls) && forall i :: 0 <= i < |calls| ==> calls[i].health == h
    ensures Replies(map[], calls) == LongLivedReplies(Bootstrap(h), calls)
    ensures Agree(LongLivedAfter(Bootstrap(h), calls), Seeded(h, TableAfter(map[], calls)))
  {
    var seeded := Seeded(h, map[]);
    assert ActiveRows(seeded) == if h.modelLoaded then {MODEL_VERSION} else {};
    NamedVersionsNeverSkip(Bootstrap(h), calls);
    RunIsMirrored(h, map[], Bootstrap(h), calls);
  }

  // The service that has lived since before, as the rows of a seeded table tell it.
  ghost function Remembered(t: Table): Cache
    requires |ActiveRows(t)| <= 1
  {
    GetActiveFinds(t);
    Cache(t, GetActive(t).value)
  }

  /** On a table that is seeded the same holds while the model is loaded, fails and is loaded again between the
      requests: what it reports about its loading no longer matters, only the name of its artifact does. */
  lemma {:induction false} SeededRequestsActAsOneService(h: Health, t: Table, calls: seq<Call>)
    requires Sound(t) && MODEL_VERSION in t && "" !in t && NamedVersions(calls)
    requires t[MODEL_VERSION].artifactFile == h.artifactFile && t[MODEL_VERSION].metrics == None
    requires forall i :: 0 <= i < |calls| ==> calls[i].health.artifactFile == h.artifactFile
    ensures Replies(t, calls) == LongLivedReplies(Remembered(t), calls)
    ensures Agree(LongLivedAfter(Remembered(t), calls), TableAfter(t, calls))
  {
    var longLived := Remembered(t);
    GetActiveFinds(t);
    assert longLived.active.Some? ==> longLived.active.value in ActiveRows(t);
    NamedVersionsNeverSkip(longLived, calls);
    RunIsMirrored(h, t, longLived, calls);
    StaysSeeded(t, calls);
  }

  lemma {:induction false} StaysSeeded(t: Table, calls: seq<Call>)
    requires MODEL_VERSION in t
    ensures MODEL_VERSION in TableAfter(t, calls)
    decreases calls
  {
    if calls == [] {
    } else {
      StaysSeeded(Serve(t, calls[0]).table, calls[1..]);
    }
  }
}
