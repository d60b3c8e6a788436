/** The registry service's objects: records changed in place, the repository's statements over the rows of one
    session, the service, and a request's session around it. */
module ModelRegistryService {
  import opened Wrappers
  import opened ModelRegistry

  class VersionRecord {
    const version: string
    const artifactFile: string
    const metrics: Option<string>
    var status: VersionStatus
    var activatedAt: Option<int>

    constructor (version: string, r: Record)
      ensures this.version == version && Value() == r
    {
      this.version, artifactFile, metrics := version, r.artifactFile, r.metrics;
      status, activatedAt := r.status, r.activatedAt;
    }

    function Value(): Record
      reads this
    {
      Record(status, artifactFile, activatedAt, metrics)
    }
  }

  class VersionRepository {
    var rows: Table

    constructor (rows: Table)
      ensures this.rows == rows
    {
      this.rows := rows;
    }

    method Upsert(version: string, r: Record)
      modifies this
      ensures rows == old(rows)[version := r]
    {
      rows := rows[version := r];
    }

    // activated_at is written only with ACTIVE; without a value it would be the time of the call.
    method UpdateStatus(version: string, status: VersionStatus, activatedAt: Option<int>, now: int)
      modifies this
      ensures rows == SetStatus(old(rows), version, status, Some(if activatedAt.Some? then activatedAt.value else now))
    {
      if version in rows {
        var row := rows[version].(status := status);
        if status == ACTIVE {
          row := row.(activatedAt := Some(if activatedAt.Some? then activatedAt.value else now));
        }
        rows := rows[version := row];
      }
    }

    method DemoteActive()
      modifies this
      ensures rows == DeactivateAll(old(rows))
    {
      rows := map v | v in rows :: if rows[v].status == ACTIVE then rows[v].(status := INACTIVE) else rows[v];
    }

    method FindActive() returns (r: Result<Option<string>, Reply>)
      ensures r.Success? <==> |ActiveRows(rows)| <= 1
      ensures r.Success? ==> IsActiveRow(rows, r.value)
      ensures r.Failure? ==> r.error == TwoActiveRows
    {
      var found := ActiveRows(rows);
      if found == {} {
        return Success(None);
      }
      var v :| v in found;
      if |found| > 1 {
        return Failure(TwoActiveRows);
      }
      assert |found - {v}| == 0;
      assert found == (found - {v}) + {v};
      return Success(Some(v));
    }

    // Every row once.
    method ListAll() returns (all: seq<string>)
      ensures forall v :: v in rows <==> v in all
    {
      all := [];
      var rest := rows.Keys;
      while rest != {}
        invariant rest <= rows.Keys
        invariant forall v :: v in rows <==> v in rest || v in all
        decreases rest
      {
        var v :| v in rest;
        all := all + [v];
        rest := rest - {v};
      }
    }
  }

  class Service {
    var versions: map<string, VersionRecord>
    var activeVersion: Option<string>

    ghost predicate Valid()
      reads this
    {
      forall v :: v in versions ==> versions[v].version == v
    }

    function Records(): map<string, Record>
      reads this, versions.Values
    {
      map v | v in versions :: versions[v].Value()
    }

    function Catalogue(): Cache
      reads this, versions.Values
    {
      Cache(Records(), activeVersion)
    }

    // _bootstrap
    constructor (h: Health)
      ensures Valid() && fresh(versions.Values) && versions.Keys == {MODEL_VERSION}
      ensures Catalogue() == Bootstrap(h)
    {
      var r := new VersionRecord(MODEL_VERSION, BootRecord(h));
      versions := map[MODEL_VERSION := r];
      activeVersion := if h.modelLoaded then Some(MODEL_VERSION) else None;
    }

    // One row of the table into the cache: a record already there keeps its artifact and metrics.
    method LoadRow(version: string, row: Record)
      requires Valid()
      modifies this`versions, versions.Values
      ensures Valid() && fresh(versions.Values - old(versions.Values))
      ensures Records() == Loaded(old(Records()), version, row)
    {
      if version !in versions {
        var loaded := new VersionRecord(version, row);
        versions := versions[version := loaded];
      } else {
        var kept := versions[version];
        kept.status := row.status;
        kept.activatedAt := row.activatedAt;
      }
    }

    method PointTo(active: Option<string>)
      modifies this`activeVersion
      ensures activeVersion == active && Records() == old(Records())
    {
      activeVersion := active;
    }

    method RegisterVersion(version: string, artifactFile: string, metrics: Option<string>) returns (reply: Reply)
      requires Valid()
      modifies this
      ensures Valid() && (Catalogue(), reply) == CacheStep(old(Catalogue()), Register(version, artifactFile, metrics))
    {
      if version in versions {
        return AlreadyRegistered;
      }
      var r := new VersionRecord(version, Record(INACTIVE, artifactFile, None, metrics));
      versions := versions[version := r];
      assert Records() == old(Records())[version := r.Value()];
      return Registered(r.Value());
    }

    method ActivateVersion(version: string, disk: set<string>, now: int) returns (reply: Reply)
      requires Valid()
      modifies this`activeVersion, versions.Values
      ensures Valid() && versions == old(versions)
      ensures (Catalogue(), reply) == CacheStep(old(Catalogue()), Activate(version, disk, now))
    {
      if version !in versions {
        return NotRegistered;
      }
      var candidate := versions[version];
      if candidate.artifactFile !in disk {
        return ArtifactMissing;
      }
      ghost var was := Catalogue();
      var previous := activeVersion;
      if previous.Some? && previous.value != "" && previous.value != version && previous.value in versions {
        var demoted := versions[previous.value];
        demoted.status := INACTIVE;
      }
      assert Records() == Demoted(was, version);
      candidate.status := ACTIVE;
      candidate.activatedAt := Some(now);
      activeVersion := Some(version);
      assert Records() == Demoted(was, version)[version := candidate.Value()];
      return Activated(candidate.Value(), previous);
    }

    method QuarantineVersion(version: string) returns (reply: Reply)
      requires Valid()
      modifies this`activeVersion, versions.Values
      ensures Valid() && versions == old(versions)
      ensures (Catalogue(), reply) == CacheStep(old(Catalogue()), Quarantine(version))
    {
      if version !in versions {
        return NotRegistered;
      }
      var r := versions[version];
      r.status := QUARANTINED;
      if activeVersion == Some(version) {
        activeVersion := None;
      }
      assert Records() == old(Records())[version := r.Value()];
      return Quarantined(r.Value());
    }
  }

  // A record already in the cache keeps its artifact and metrics.
  function Loaded(records: map<string, Record>, version: string, row: Record): map<string, Record> {
    records[version := if version !in records then row
                       else records[version].(status := row.status, activatedAt := row.activatedAt)]
  }

  function LoadedAll(records: map<string, Record>, rows: Table, order: seq<string>): map<string, Record>
    requires forall v :: v in order ==> v in rows
  {
    if order == [] then records
    else
      var last := order[|order| - 1];
      Loaded(LoadedAll(records, rows, order[..|order| - 1]), last, rows[last])
  }

  lemma {:induction false} LoadedAllContents(h: Health, rows: Table, order: seq<string>)
    requires forall v :: v in order ==> v in rows
    ensures var records := LoadedAll(Bootstrap(h).versions, rows, order);
            && (forall v :: v in records <==> v == MODEL_VERSION || v in order)
            && (forall v :: v in order ==> records[v] == HydratedRecords(h, rows)[v])
            && (MODEL_VERSION !in order ==> records[MODEL_VERSION] == BootRecord(h))
  {
    if order == [] {
    } else {
      var init, last := order[..|order| - 1], order[|order| - 1];
      assert order == init + [last];
      LoadedAllContents(h, rows, init);
    }
  }

  lemma {:induction false} AllLoadedIsHydrated(h: Health, rows: Table, all: seq<string>)
    requires MODEL_VERSION in rows && forall v :: v in rows <==> v in all
    ensures LoadedAll(Bootstrap(h).versions, rows, all) == HydratedRecords(h, rows)
  {
    LoadedAllContents(h, rows, all);
  }

  // create_db_backed: seed the table if the bootstrapped version has no row, then rebuild the cache from all rows.
  method CreateDbBacked(h: Health, repo: VersionRepository) returns (r: Result<Service, Reply>)
    modifies repo
    ensures repo.rows == Seeded(h, old(repo.rows))
    ensures r.Success? <==> |ActiveRows(repo.rows)| <= 1
    ensures r.Failure? ==> r.error == TwoActiveRows
    ensures r.Success? ==>
              && fresh(r.value) && fresh(r.value.versions.Values) && r.value.Valid()
              && r.value.Records() == HydratedRecords(h, repo.rows)
              && IsActiveRow(repo.rows, r.value.activeVersion)
  {
    var service := new Service(h);
    SeedTable(service, h, repo);
    Hydrate(service, h, repo);
    var active := repo.FindActive();
    if active.Failure? {
      return Failure(active.error);
    }
    service.PointTo(active.value);
    return Success(service);
  }

  method SeedTable(service: Service, h: Health, repo: VersionRepository)
    requires service.Records() == Bootstrap(h).versions
    modifies repo
    ensures repo.rows == Seeded(h, old(repo.rows))
  {
    assert MODEL_VERSION in service.Records();
    if MODEL_VERSION !in repo.rows {
      assert service.Records()[MODEL_VERSION] == BootRecord(h);
      repo.Upsert(MODEL_VERSION, service.versions[MODEL_VERSION].Value());
    }
  }

  method Hydrate(service: Service, h: Health, repo: VersionRepository)
    requires service.Valid() && service.Records() == Bootstrap(h).versions && MODEL_VERSION in repo.rows
    modifies service`versions, service.versions.Values
    ensures service.Valid() && fresh(service.versions.Values - old(service.versions.Values))
    ensures service.Records() == HydratedRecords(h, repo.rows)
  {
    var all := repo.ListAll();
    LoadRows(service, repo.rows, all);
    AllLoadedIsHydrated(h, repo.rows, all);
  }

  method LoadRows(service: Service, rows: Table, all: seq<string>)
    requires service.Valid() && forall v :: v in all ==> v in rows
    modifies service`versions, service.versions.Values
    ensures service.Valid() && fresh(service.versions.Values - old(service.versions.Values))
    ensures service.Records() == LoadedAll(old(service.Records()), rows, all)
  {
    ghost var boot := service.Records();
    assert all[..0] == [];
    for k := 0 to |all|
      invariant service.Valid() && fresh(service.versions.Values - old(service.versions.Values))
      invariant service.Records() == LoadedAll(boot, rows, all[..k])
    {
      service.LoadRow(all[k], rows[all[k]]);
      assert all[..k + 1][..k] == all[..k];
    }
    assert all[..|all|] == all;
  }

  class Database {
    var committed: Table

    // One request: a session over the committed rows, committed on success and rolled back on an exception.
    method Handle(call: Call) returns (reply: Reply)
      modifies this
      ensures var outcome := Serve(old(committed), call);
              committed == outcome.table && reply == outcome.reply
    {
      var repo := new VersionRepository(committed);
      var created := CreateDbBacked(call.health, repo);
      if created.Failure? {
        return created.error;
      }
      GetActiveIs(repo.rows, created.value.activeVersion);
      reply := Dispatch(created.value, repo, call.request);
      if call.commits && !Raised(reply) {
        committed := repo.rows;
      }
    }
  }

  lemma {:induction false} GetActiveIs(t: Table, active: Option<string>)
    requires |ActiveRows(t)| <= 1 && IsActiveRow(t, active)
    ensures GetActive(t) == Success(active)
  {
    GetActiveFinds(t);
    var found := GetActive(t).value;
    assert found.Some? ==> found.value in ActiveRows(t);
    assert active.Some? ==> active.value in ActiveRows(t);
  }

  method ActivateAsync(service: Service, repo: VersionRepository, version: string, disk: set<string>, now: int)
    returns (reply: Reply)
    requires service.Valid()
    modifies service`activeVersion, service.versions.Values, repo
    ensures service.Valid() && service.versions == old(service.versions)
    ensures (service.Catalogue(), reply) == CacheStep(old(service.Catalogue()), Activate(version, disk, now))
    ensures repo.rows == if Raised(reply) then old(repo.rows)
                         else TableStep(old(repo.rows), Activate(version, disk, now))
  {
    reply := service.ActivateVersion(version, disk, now);
    if reply.Activated? {
      repo.DemoteActive();
      repo.UpdateStatus(version, ACTIVE, reply.record.activatedAt, now);
    }
  }

  method ActiveAsync(repo: VersionRepository, cached: Option<string>) returns (reply: Reply)
    requires |ActiveRows(repo.rows)| <= 1 && IsActiveRow(repo.rows, cached)
    ensures reply == RowReply(repo.rows, cached, ReadActive, reply)
  {
    var active := repo.FindActive();
    GetActiveIs(repo.rows, cached);
    GetActiveIs(repo.rows, active.value);
    var v := active.value;
    reply := ActiveVersion(if v.Some? then Some((v.value, repo.rows[v.value])) else None);
  }

  // The async variants: the cache first, then, if it raised nothing, the statements on the rows.
  method Dispatch(service: Service, repo: VersionRepository, request: Request) returns (reply: Reply)
    requires service.Valid() && |ActiveRows(repo.rows)| <= 1 && IsActiveRow(repo.rows, service.activeVersion)
    modifies service, service.versions.Values, repo
    ensures service.Valid()
    ensures var (c', cached) := CacheStep(old(service.Catalogue()), request);
            && service.Catalogue() == c'
            && reply == RowReply(old(repo.rows), old(service.activeVersion), request, cached)
            && (!Raised(reply) ==> repo.rows == TableStep(old(repo.rows), request))
  {
    match request {
      case Register(version, artifactFile, metrics) =>
        reply := service.RegisterVersion(version, artifactFile, metrics);
        if !Raised(reply) {
          repo.Upsert(version, Record(INACTIVE, artifactFile, None, metrics));
        }
      case Activate(version, disk, now) =>
        reply := ActivateAsync(service, repo, version, disk, now);
      case Quarantine(version) =>
        reply := service.QuarantineVersion(version);
        if !Raised(reply) {
          repo.UpdateStatus(version, QUARANTINED, None, 0);
        }
      case ReadVersion(version) =>
        reply := Version(if version in repo.rows then Some(repo.rows[version]) else None);
      case ReadActive =>
        reply := ActiveAsync(repo, service.activeVersion);
    }
  }
}
