/** The objects behind the incident table: ORM records changed in place and shared by everyone who looked them up,
    the repository, the append-only audit log, the gauge, and the service that drives them. */
module IncidentService {
  import opened Wrappers
  import opened Lifecycle
  import opened Incidents

  class Incident {
    const id: string
    const details: Details
    const createdAt: int
    var severity: Severity
    var status: Status
    var updatedAt: int
    var resolvedAt: Option<int>
    var notes: Option<string>

    constructor (row: Row)
      ensures ToRow() == row
    {
      id, details, createdAt := row.id, row.details, row.createdAt;
      severity, status, updatedAt := row.severity, row.status, row.updatedAt;
      resolvedAt, notes := row.resolvedAt, row.notes;
    }

    function ToRow(): Row
      reads this
    {
      Row(id, details, severity, status, createdAt, updatedAt, resolvedAt, notes)
    }
  }

  class IncidentRepository {
    var table: map<string, Incident>

    // A session's view of the committed rows.
    constructor (rows: map<string, Row>)
      requires forall id :: id in rows ==> rows[id].id == id
      ensures Valid() && fresh(table.Values) && Rows() == rows
    {
      table := map[];
      new;
      var rest := rows.Keys;
      while rest != {}
        invariant rest <= rows.Keys && table.Keys == rows.Keys - rest
        invariant Valid() && forall id :: id in table ==> fresh(table[id])
        invariant forall id :: id in table ==> table[id].ToRow() == rows[id]
        decreases rest
      {
        var id :| id in rest;
        var incident := new Incident(rows[id]);
        table := table[id := incident];
        rest := rest - {id};
      }
    }

    ghost predicate Valid()
      reads this
    {
      forall id :: id in table ==> table[id].id == id
    }

    function Rows(): map<string, Row>
      reads this, table.Values
    {
      map id | id in table :: table[id].ToRow()
    }

    method Get(id: string) returns (r: Option<Incident>)
      ensures r == if id in table then Some(table[id]) else None
    {
      r := if id in table then Some(table[id]) else None;
    }

    // Every incident starts OPEN, without a resolution time and without notes.
    method Create(id: string, details: Details, severity: Severity, createdAt: int, updatedAt: int)
      returns (r: Result<Incident, Refusal>)
      requires Valid()
      modifies this
      ensures Valid()
      ensures id in old(table) ==> r == Failure(DuplicateId) && table == old(table) && Rows() == old(Rows())
      ensures id !in old(table) ==>
                && r.Success? && fresh(r.value) && table == old(table)[id := r.value]
                && r.value.ToRow() == Row(id, details, severity, OPEN, createdAt, updatedAt, None, None)
                && Rows() == old(Rows())[id := r.value.ToRow()]
    {
      if id in table {
        return Failure(DuplicateId);
      }
      var incident := new Incident(Row(id, details, severity, OPEN, createdAt, updatedAt, None, None));
      table := table[id := incident];
      return Success(incident);
    }

    twostate lemma {:induction false} OneRowChanged(id: string)
      requires Valid() && id in table && table == old(table)
      requires forall o: Incident :: o in table.Values && o != table[id] ==> old(allocated(o)) && unchanged(o)
      ensures Rows() == old(Rows())[id := table[id].ToRow()]
    {
      forall k | k in table && k != id
        ensures table[k].ToRow() == old(table[k].ToRow())
      {
        assert table[k].id != table[id].id;
        assert table[k] in table.Values;
      }
    }

    // `resolvedAt` is the caller's resolution time, `now` the reading taken for updated_at.
    method UpdateStatus(id: string, newStatus: Status, resolvedAt: Option<int>, now: int)
      returns (r: Result<Incident, Refusal>)
      requires Valid()
      modifies table.Values
      ensures Valid() && table == old(table)
      ensures id !in table ==> r == Failure(NotFound) && Rows() == old(Rows())
      ensures id in table ==>
                var was := old(table[id].ToRow());
                var decision := ValidateStatusTransition(was.status, newStatus);
                if decision.allowed then
                  var at := if resolvedAt.Some? then resolvedAt.value else now;
                  var becomes := Moved(was, newStatus, Readings(at, now, now));
                  r == Success(table[id]) && Rows() == old(Rows())[id := becomes] && table[id].ToRow() == becomes
                else
                  r == Failure(InvalidTransition(decision)) && Rows() == old(Rows())
    {
      var found := Get(id);
      if found.None? {
        return Failure(NotFound);
      }
      var incident := found.value;
      var decision := ValidateStatusTransition(incident.status, newStatus);
      if !decision.allowed {
        return Failure(InvalidTransition(decision));
      }
      incident.status := newStatus;
      incident.updatedAt := now;
      if newStatus == RESOLVED && incident.resolvedAt.None? {
        incident.resolvedAt := Some(if resolvedAt.Some? then resolvedAt.value else now);
      }
      OneRowChanged(id);
      return Success(incident);
    }
  }

  class AuditLogRepository {
    var log: seq<AuditRow>

    constructor (log: seq<AuditRow>)
      ensures this.log == log
    {
      this.log := log;
    }

    // The only write there is.
    method LogEvent(row: AuditRow)
      modifies this
      ensures log == old(log) + [row]
    {
      log := log + [row];
    }
  }

  class ActiveIncidents {
    var levels: Gauge

    method Add(severity: Severity, delta: int)
      modifies this
      ensures levels == Move(old(levels), severity, delta)
    {
      levels := Move(levels, severity, delta);
    }
  }

  class Service {
    const repo: IncidentRepository
    const audit: AuditLogRepository
    const active: ActiveIncidents

    constructor (repo: IncidentRepository, audit: AuditLogRepository, active: ActiveIncidents)
      ensures this.repo == repo && this.audit == audit && this.active == active
    {
      this.repo, this.audit, this.active := repo, audit, active;
    }

    function State(): World
      reads repo, repo.table.Values, audit, active
    {
      World(repo.Rows(), audit.log, active.levels)
    }

    method CountEnd(severity: Severity)
      modifies active
      ensures State() == old(State()).(gauge := Move(old(State()).gauge, severity, -1))
    {
      active.Add(severity, -1);
    }

    method Record(row: AuditRow)
      modifies audit
      ensures State() == old(State()).(audit := old(State()).audit + [row])
    {
      audit.LogEvent(row);
    }

    method OpenIncident(r: Request) returns (reply: Reply)
      requires r.OpenIncident? && repo.Valid()
      modifies repo, audit, active
      ensures repo.Valid()
      ensures (State(), reply) == Open(old(State()), r)
    {
      var owner := if r.owner.Some? then r.owner.value else r.openedBy;
      var details := Details(r.title, r.category, owner, r.description);
      var created := repo.Create(r.id, details, r.severity, r.at.first, r.at.second);
      if created.Failure? {
        return Failure(created.error);
      }
      var incident := created.value;
      active.Add(incident.severity, 1);
      Record(AuditRow(incident.id, CREATED_EVENT, r.openedBy, None, StatusValue(incident.status), r.at.third));
      reply := Success(incident.ToRow());
    }

    /** The record the service looked up is the one the repository changes, so by the time the audit row is written
        its status, logged as the old value, is already the new one. */
    method TransitionStatus(r: Request) returns (reply: Reply)
      requires r.TransitionStatus? && repo.Valid()
      modifies repo.table.Values, audit, active
      ensures repo.Valid() && repo.table == old(repo.table)
      ensures (State(), reply) == Transition(old(State()), r)
    {
      ghost var was := State();
      var found := repo.Get(r.target);
      if found.None? {
        return Failure(NotFound);
      }
      var incident := found.value;
      var resolvedAt := if r.newStatus in {RESOLVED, CLOSED} then Some(r.at.first) else None;
      var updated := repo.UpdateStatus(r.target, r.newStatus, resolvedAt, r.at.second);
      if updated.Failure? {
        assert State() == was;
        return Failure(updated.error);
      }
      assert repo.Rows() == was.rows[r.target := Moved(was.rows[r.target], r.newStatus, r.at)];
      if Ended(r.newStatus) {
        CountEnd(updated.value.severity);
      }
      Record(AuditRow(r.target, STATUS_TRANSITION, r.transitionedBy,
                      Some(StatusValue(incident.status)), StatusValue(r.newStatus), r.at.third));
      reply := Success(updated.value.ToRow());
    }

    method UpdateMetadata(r: Request) returns (reply: Reply)
      requires r.UpdateMetadata? && repo.Valid()
      modifies repo.table.Values, audit
      ensures repo.Valid() && repo.table == old(repo.table)
      ensures (State(), reply) == Update(old(State()), r)
    {
      ghost var was := State();
      var found := repo.Get(r.target);
      if found.None? {
        return Failure(NotFound);
      }
      var incident := found.value;
      var severity := None;
      if r.severityText.Some? {
        severity := ParseSeverity(r.severityText.value);
        if severity.None? {
          return Failure(InvalidSeverity);
        }
        incident.severity := severity.value;
      }
      if r.notes.Some? {
        incident.notes := r.notes;
      }
      assert severity.None? && r.notes.None? ==> repo.Rows() == was.rows;
      if severity.Some? || r.notes.Some? {
        incident.updatedAt := r.at.first;
        assert repo.Rows() == was.rows[r.target := Edited(was.rows[r.target], severity, r.notes, r.at.first)];
        Record(AuditRow(r.target, METADATA_UPDATE, r.updatedBy, None,
                        Changes(severity, r.notes.Some?), r.at.second));
      }
      reply := Success(incident.ToRow());
    }
  }

  // The committed tables, and the gauge of the process.
  class Platform {
    var rows: map<string, Row>
    var log: seq<AuditRow>
    const active: ActiveIncidents

    constructor (active: ActiveIncidents)
      ensures this.active == active && rows == map[] && log == []
    {
      this.active, rows, log := active, map[], [];
    }

    ghost predicate Valid()
      reads this
    {
      forall id :: id in rows ==> rows[id].id == id
    }

    function State(): World
      reads this, active
    {
      World(rows, log, active.levels)
    }

    // What the request makes of the tables in its own session; the gauge it moves is the process's.
    method Attempt(r: Request) returns (reply: Reply, rows': map<string, Row>, log': seq<AuditRow>)
      requires Valid()
      modifies active
      ensures forall id :: id in rows' ==> rows'[id].id == id
      ensures (World(rows', log', active.levels), reply) == Step(old(State()), r)
    {
      var repo := new IncidentRepository(rows);
      var audit := new AuditLogRepository(log);
      var service := new Service(repo, audit, active);
      assert service.State() == State();
      reply := Dispatch(service, r);
      rows', log' := repo.Rows(), audit.log;
      assert service.State() == World(rows', log', active.levels);
    }

    /** One request and its transaction: the tables change only if everything succeeds and the transaction commits; the
        gauge has moved by then, and no rollback reaches it. */
    method Handle(c: Call) returns (reply: Reply)
      requires Valid()
      modifies this, active
      ensures Valid() && (State(), reply) == Serve(old(State()), c)
    {
      if c.fate == FailsEarly {
        return Failure(DatabaseError);
      }
      RefusedChangesNothing(State(), Call(c.request, Commits));
      var rows', log';
      reply, rows', log' := Attempt(c.request);
      if reply.Failure? {
        return;
      }
      if c.fate == FailsLate {
        return Failure(DatabaseError);
      }
      rows, log := rows', log';
      if c.fate == CommitsUnseen {
        return Failure(DatabaseError);
      }
    }
  }

  method Dispatch(service: Service, r: Request) returns (reply: Reply)
    requires service.repo.Valid()
    modifies service.repo, service.repo.table.Values, service.audit, service.active
    ensures service.repo.Valid() && (service.State(), reply) == Step(old(service.State()), r)
  {
    match r {
      case OpenIncident(_, _, _, _, _, _, _, _) => reply := service.OpenIncident(r);
      case TransitionStatus(_, _, _, _) => reply := service.TransitionStatus(r);
      case UpdateMetadata(_, _, _, _, _) => reply := service.UpdateMetadata(r);
    }
  }
}
