/** The incident table, its audit log and the active-incident gauge, as one value stepped by requests.
    IncidentService.dfy proves that the service's objects move exactly like this. */
module Incidents {
  import opened Wrappers
  import opened Lifecycle

  predicate HexDigit(c: char) {
    '0' <= c <= '9' || 'a' <= c <= 'f' || 'A' <= c <= 'F'
  }

  // str(uuid.uuid4()): 32 hex digits in five groups.
  predicate IsUuid(s: string) {
    && |s| == 36
    && s[8] == s[13] == s[18] == s[23] == '-'
    && forall i :: 0 <= i < 36 && i !in {8, 13, 18, 23} ==> HexDigit(s[i])
  }

  type Uuid = s: string | IsUuid(s) witness "00000000-0000-4000-8000-000000000000"

  datatype Details = Details(title: string, category: string, owner: string, description: Option<string>)

  datatype Row = Row(
    id: string, details: Details, severity: Severity, status: Status,
    createdAt: int, updatedAt: int, resolvedAt: Option<int>, notes: Option<string>)

  datatype EventType = CREATED_EVENT | STATUS_TRANSITION | METADATA_UPDATE

  datatype AuditValue = StatusValue(status: Status) | Changes(severity: Option<Severity>, notesChanged: bool)

  datatype AuditRow = AuditRow(
    incidentId: string, eventType: EventType, actor: string,
    oldValue: Option<AuditValue>, newValue: AuditValue, occurredAt: int)

  type Gauge = map<Severity, int>

  datatype World = World(rows: map<string, Row>, audit: seq<AuditRow>, gauge: Gauge)

  const EmptyWorld := World(map[], [], map[])

  // The readings of the clock that one request takes, in the order it takes them.
  datatype Readings = Readings(first: int, second: int, third: int)

  // `id` is the UUID drawn for a new incident.
  datatype Request =
    | OpenIncident(id: Uuid, title: string, severity: Severity, category: string, openedBy: string,
                   owner: Option<string>, description: Option<string>, at: Readings)
    | TransitionStatus(target: string, newStatus: Status, transitionedBy: string, at: Readings)
    | UpdateMetadata(target: string, updatedBy: string, severityText: Option<string>, notes: Option<string>,
                     at: Readings)

  datatype Refusal =
    | DuplicateId | NotFound | InvalidTransition(decision: TransitionDecision) | InvalidSeverity
    | DatabaseError

  type Reply = Result<Row, Refusal>

  function ParseSeverity(s: string): Option<Severity> {
    if s == "SEV-1" then Some(SEV1)
    else if s == "SEV-2" then Some(SEV2)
    else if s == "SEV-3" then Some(SEV3)
    else if s == "SEV-4" then Some(SEV4)
    else None
  }

  function Level(g: Gauge, s: Severity): int {
    if s in g then g[s] else 0
  }

  function Move(g: Gauge, s: Severity, delta: int): Gauge {
    g[s := Level(g, s) + delta]
  }

  function GaugeTotal(g: Gauge): int {
    Level(g, SEV1) + Level(g, SEV2) + Level(g, SEV3) + Level(g, SEV4)
  }

  predicate Ended(s: Status) {
    s in {RESOLVED, CLOSED}
  }

  function NewRow(r: Request): Row
    requires r.OpenIncident?
  {
    var owner := if r.owner.Some? then r.owner.value else r.openedBy;
    Row(r.id, Details(r.title, r.category, owner, r.description), r.severity, OPEN,
        r.at.first, r.at.second, None, None)
  }

  // update_status, called by transition_status with the service's own reading as resolution time.
  function Moved(row: Row, newStatus: Status, at: Readings): Row {
    row.(status := newStatus, updatedAt := at.second,
         resolvedAt := if newStatus == RESOLVED && row.resolvedAt.None? then Some(at.first) else row.resolvedAt)
  }

  function Edited(row: Row, severity: Option<Severity>, notes: Option<string>, now: int): Row {
    if severity.None? && notes.None? then row
    else row.(severity := if severity.Some? then severity.value else row.severity,
              notes := if notes.Some? then notes else row.notes,
              updatedAt := now)
  }

  function Open(w: World, r: Request): (World, Reply)
    requires r.OpenIncident?
  {
    if r.id in w.rows then (w, Failure(DuplicateId))
    else
      var row := NewRow(r);
      (World(w.rows[r.id := row],
             w.audit + [AuditRow(r.id, CREATED_EVENT, r.openedBy, None, StatusValue(OPEN), r.at.third)],
             Move(w.gauge, r.severity, 1)),
       Success(row))
  }

  // The audit row's old value is read from the record after it was changed.
  function Transition(w: World, r: Request): (World, Reply)
    requires r.TransitionStatus?
  {
    if r.target !in w.rows then (w, Failure(NotFound))
    else
      var decision := ValidateStatusTransition(w.rows[r.target].status, r.newStatus);
      if !decision.allowed then (w, Failure(InvalidTransition(decision)))
      else
        var row := Moved(w.rows[r.target], r.newStatus, r.at);
        (World(w.rows[r.target := row],
               w.audit + [AuditRow(r.target, STATUS_TRANSITION, r.transitionedBy,
                                   Some(StatusValue(row.status)), StatusValue(r.newStatus), r.at.third)],
               if Ended(r.newStatus) then Move(w.gauge, row.severity, -1) else w.gauge),
         Success(row))
  }

  function Update(w: World, r: Request): (World, Reply)
    requires r.UpdateMetadata?
  {
    if r.target !in w.rows then (w, Failure(NotFound))
    else if r.severityText.Some? && ParseSeverity(r.severityText.value).None? then (w, Failure(InvalidSeverity))
    else
      var severity := if r.severityText.Some? then ParseSeverity(r.severityText.value) else None;
      var row := Edited(w.rows[r.target], severity, r.notes, r.at.first);
      if severity.None? && r.notes.None? then (w, Success(row))
      else
        (w.(rows := w.rows[r.target := row],
            audit := w.audit + [AuditRow(r.target, METADATA_UPDATE, r.updatedBy, None,
                                         Changes(severity, r.notes.Some?), r.at.second)]),
         Success(row))
  }

  function Step(w: World, r: Request): (World, Reply) {
    match r
    case OpenIncident(_, _, _, _, _, _, _, _) => Open(w, r)
    case TransitionStatus(_, _, _, _) => Transition(w, r)
    case UpdateMetadata(_, _, _, _, _) => Update(w, r)
  }

  // A request's transaction is committed, or it fails: with its first statement, or after the gauge has moved, when
  // the audit row is flushed or the transaction committed. Rows and log are rolled back; the gauge lives in the
  // process. A commit may also be done and its answer lost, which the request sees as a failure.
  datatype Fate = Commits | CommitsUnseen | FailsEarly | FailsLate

  predicate Committed(fate: Fate) {
    fate in {Commits, CommitsUnseen}
  }

  datatype Call = Call(request: Request, fate: Fate)

  function Serve(w: World, c: Call): (World, Reply) {
    match c.fate
    case Commits => Step(w, c.request)
    case CommitsUnseen =>
      var (w', reply) := Step(w, c.request);
      (w', if reply.Failure? then reply else Failure(DatabaseError))
    case FailsEarly => (w, Failure(DatabaseError))
    case FailsLate =>
      var (w', reply) := Step(w, c.request);
      if reply.Failure? then (w, reply) else (w.(gauge := w'.gauge), Failure(DatabaseError))
  }

  function Run(w: World, calls: seq<Call>): World
    decreases calls
  {
    if calls == [] then w else Run(Serve(w, calls[0]).0, calls[1..])
  }

  // --- what the audit log says about one incident ---

  function StatusOf(e: AuditRow): Option<Status> {
    if e.eventType != METADATA_UPDATE && e.newValue.StatusValue? then Some(e.newValue.status) else None
  }

  function StatusPath(audit: seq<AuditRow>, id: string): seq<Status> {
    if audit == [] then []
    else
      var e := audit[|audit| - 1];
      var rest := StatusPath(audit[..|audit| - 1], id);
      if e.incidentId == id && StatusOf(e).Some? then rest + [StatusOf(e).value] else rest
  }

  lemma {:induction false} StatusPathAppend(audit: seq<AuditRow>, e: AuditRow, id: string)
    ensures StatusPath(audit + [e], id) ==
            StatusPath(audit, id) + (if e.incidentId == id && StatusOf(e).Some? then [StatusOf(e).value] else [])
  {
    assert (audit + [e])[..|audit|] == audit;
  }

  // get_status_transitions: the rows it selects, in log order.
  function Transitions(audit: seq<AuditRow>, id: string): seq<AuditRow> {
    if audit == [] then []
    else
      var e := audit[|audit| - 1];
      var rest := Transitions(audit[..|audit| - 1], id);
      if e.incidentId == id && e.eventType == STATUS_TRANSITION then rest + [e] else rest
  }

  function Recorded(e: AuditRow): seq<Status> {
    if StatusOf(e).Some? then [StatusOf(e).value] else []
  }

  function NewStatuses(rows: seq<AuditRow>): seq<Status> {
    if rows == [] then [] else NewStatuses(rows[..|rows| - 1]) + Recorded(rows[|rows| - 1])
  }

  function Moves(audit: seq<AuditRow>, id: string): seq<Status> {
    NewStatuses(Transitions(audit, id))
  }

  lemma {:induction false} MovesAppend(audit: seq<AuditRow>, e: AuditRow, id: string)
    ensures Moves(audit + [e], id) ==
            Moves(audit, id) + (if e.incidentId == id && e.eventType == STATUS_TRANSITION then Recorded(e) else [])
  {
    assert (audit + [e])[..|audit|] == audit;
    var before := Transitions(audit, id);
    assert (before + [e])[..|before|] == before;
  }

  // The log of an incident is a legal path to where the incident is now, and it tells whether it was ever resolved.
  ghost predicate Told(row: Row, path: seq<Status>) {
    && LegalPath(path)
    && path[|path| - 1] == row.status
    && (row.resolvedAt.Some? <==> RESOLVED in path)
  }

  ghost predicate LifeTold(w: World, id: string) {
    var path, moves := StatusPath(w.audit, id), Moves(w.audit, id);
    if id in w.rows then IsUuid(id) && w.rows[id].id == id && Told(w.rows[id], path) && path == [OPEN] + moves
    else path == [] && moves == []
  }

  ghost predicate Consistent(w: World) {
    forall id: string :: LifeTold(w, id)
  }

  // What one more event does to the two paths of its own incident.
  function PathAfter(w: World, e: AuditRow): seq<Status> {
    StatusPath(w.audit, e.incidentId) + Recorded(e)
  }

  function MovesAfter(w: World, e: AuditRow): seq<Status> {
    Moves(w.audit, e.incidentId) + if e.eventType == STATUS_TRANSITION then Recorded(e) else []
  }

  lemma {:induction false} PathsAppend(w: World, e: AuditRow, id: string)
    ensures StatusPath(w.audit + [e], id) == if id == e.incidentId then PathAfter(w, e) else StatusPath(w.audit, id)
    ensures Moves(w.audit + [e], id) == if id == e.incidentId then MovesAfter(w, e) else Moves(w.audit, id)
  {
    StatusPathAppend(w.audit, e, id);
    MovesAppend(w.audit, e, id);
  }

  lemma {:induction false} RecordKeepsLife(w: World, row: Row, e: AuditRow, gauge: Gauge, id: string)
    requires LifeTold(w, id) && e.incidentId == row.id && IsUuid(row.id)
    requires Told(row, PathAfter(w, e)) && PathAfter(w, e) == [OPEN] + MovesAfter(w, e)
    ensures LifeTold(World(w.rows[row.id := row], w.audit + [e], gauge), id)
  {
    PathsAppend(w, e, id);
  }

  lemma {:induction false} RecordKeepsConsistent(w: World, row: Row, e: AuditRow, gauge: Gauge)
    requires Consistent(w) && e.incidentId == row.id && IsUuid(row.id)
    requires Told(row, PathAfter(w, e)) && PathAfter(w, e) == [OPEN] + MovesAfter(w, e)
    ensures Consistent(World(w.rows[row.id := row], w.audit + [e], gauge))
  {
    var w' := World(w.rows[row.id := row], w.audit + [e], gauge);
    forall id: string
      ensures LifeTold(w', id)
    {
      assert LifeTold(w, id);
      RecordKeepsLife(w, row, e, gauge, id);
    }
  }

  lemma {:induction false} OpenKeepsConsistent(w: World, r: Request)
    requires Consistent(w) && r.OpenIncident? && r.id !in w.rows
    ensures Consistent(Open(w, r).0)
  {
    var e := AuditRow(r.id, CREATED_EVENT, r.openedBy, None, StatusValue(OPEN), r.at.third);
    assert LifeTold(w, r.id);
    assert PathAfter(w, e) == [OPEN];
    RecordKeepsConsistent(w, NewRow(r), e, Move(w.gauge, r.severity, 1));
  }

  lemma {:induction false} TransitionKeepsConsistent(w: World, r: Request)
    requires Consistent(w) && r.TransitionStatus? && Transition(w, r).1.Success?
    ensures Consistent(Transition(w, r).0)
  {
    var path := StatusPath(w.audit, r.target);
    assert LifeTold(w, r.target);
    PathGrows(w.rows[r.target], path, r.newStatus, r.at);
    var w' := Transition(w, r).0;
    var e := w'.audit[|w.audit|];
    assert PathAfter(w, e) == path + [r.newStatus];
    assert PathAfter(w, e) == [OPEN] + MovesAfter(w, e);
    RecordKeepsConsistent(w, Moved(w.rows[r.target], r.newStatus, r.at), e, w'.gauge);
  }

  lemma {:induction false} UpdateKeepsConsistent(w: World, r: Request)
    requires Consistent(w) && r.UpdateMetadata? && Update(w, r).0 != w
    ensures Consistent(Update(w, r).0)
  {
    var w' := Update(w, r).0;
    var e := w'.audit[|w.audit|];
    var path := StatusPath(w.audit, r.target);
    assert LifeTold(w, r.target);
    assert PathAfter(w, e) == path;
    assert Told(w'.rows[r.target], path);
    RecordKeepsConsistent(w, w'.rows[r.target], e, w.gauge);
    assert w' == World(w.rows[r.target := w'.rows[r.target]], w.audit + [e], w.gauge);
  }

  lemma {:induction false} StepKeepsConsistent(w: World, r: Request)
    requires Consistent(w)
    ensures Consistent(Step(w, r).0)
  {
    if Step(w, r).0 != w {
      match r {
        case OpenIncident(_, _, _, _, _, _, _, _) => OpenKeepsConsistent(w, r);
        case TransitionStatus(_, _, _, _) => TransitionKeepsConsistent(w, r);
        case UpdateMetadata(_, _, _, _, _) => UpdateKeepsConsistent(w, r);
      }
    }
  }

  lemma {:induction false} PathGrows(row: Row, path: seq<Status>, newStatus: Status, at: Readings)
    requires Told(row, path) && Allowed(row.status, newStatus)
    ensures Told(Moved(row, newStatus, at), path + [newStatus])
  {
    var path' := path + [newStatus];
    forall i | 0 < i < |path'|
      ensures Allowed(path'[i - 1], path'[i])
    {
      assert i < |path| ==> Allowed(path[i - 1], path[i]);
    }
    assert RESOLVED in path' <==> RESOLVED in path || newStatus == RESOLVED;
  }

  lemma {:induction false} ServeKeepsConsistent(w: World, c: Call)
    requires Consistent(w)
    ensures Consistent(Serve(w, c).0)
  {
    if Committed(c.fate) {
      StepKeepsConsistent(w, c.request);
    } else {
      var w' := Serve(w, c).0;
      forall id: string
        ensures LifeTold(w', id)
      {
        assert LifeTold(w, id);
      }
    }
  }

  lemma {:induction false} RunKeepsConsistent(w: World, calls: seq<Call>)
    requires Consistent(w)
    ensures Consistent(Run(w, calls))
    decreases calls
  {
    if calls == [] {
    } else {
      ServeKeepsConsistent(w, calls[0]);
      RunKeepsConsistent(Serve(w, calls[0]).0, calls[1..]);
    }
  }

  /** Every run from an empty system, whatever fails: for every incident the audit log is a legal path from OPEN to its
      status, `resolved_at` is set exactly when that path has visited RESOLVED, and get_status_transitions selects the
      whole path after OPEN. */
  lemma {:induction false} AuditLogTellsEveryLife(calls: seq<Call>)
    ensures Consistent(Run(EmptyWorld, calls))
  {
    assert Consistent(EmptyWorld);
    RunKeepsConsistent(EmptyWorld, calls);
  }

  /** The logged old value is the previous status on exactly the transitions that change nothing. */
  lemma {:induction false} OldValueIsPreviousWhen(w: World, r: Request)
    requires r.TransitionStatus? && Transition(w, r).1.Success?
    ensures var e := Transition(w, r).0.audit[|w.audit|];
            e.oldValue == Some(StatusValue(w.rows[r.target].status)) <==> r.newStatus == w.rows[r.target].status
  {
  }

  /** The first step of an incident already logs a wrong one: picked up by anyone, it was OPEN, and the log says
      INVESTIGATING. */
  lemma {:induction false} OldValueIsLost(open: Request, actor: string, at: Readings)
    requires open.OpenIncident?
    ensures var w := Step(EmptyWorld, open).0;
            var w' := Step(w, TransitionStatus(open.id, INVESTIGATING, actor, at)).0;
            && w.rows[open.id].status == OPEN && |w'.audit| == 2
            && w'.audit[1].oldValue == Some(StatusValue(INVESTIGATING))
  {
  }

  // --- what never changes ---

  ghost predicate Later(before: Row, after: Row) {
    && after.id == before.id && after.details == before.details && after.createdAt == before.createdAt
    && Phase(before.status) <= Phase(after.status)
    && (before.status == CLOSED ==> after.status == CLOSED)
    && (before.resolvedAt.Some? ==> after.resolvedAt == before.resolvedAt)
  }

  lemma {:induction false} StepOnlyAdvances(w: World, r: Request)
    ensures forall id :: id in w.rows ==> id in Step(w, r).0.rows && Later(w.rows[id], Step(w, r).0.rows[id])
    ensures w.audit <= Step(w, r).0.audit
  {
    if r.TransitionStatus? && r.target in w.rows && Allowed(w.rows[r.target].status, r.newStatus) {
      assert Later(w.rows[r.target], Moved(w.rows[r.target], r.newStatus, r.at));
    }
  }

  ghost predicate AllLater(before: World, after: World) {
    && (forall id :: id in before.rows ==> id in after.rows && Later(before.rows[id], after.rows[id]))
    && before.audit <= after.audit
  }

  lemma {:induction false} ServeOnlyAdvances(w: World, c: Call)
    ensures AllLater(w, Serve(w, c).0)
  {
    StepOnlyAdvances(w, c.request);
  }

  lemma {:induction false} LaterTransitive(a: World, b: World, c: World)
    requires AllLater(a, b) && AllLater(b, c)
    ensures AllLater(a, c)
  {
    forall id | id in a.rows
      ensures id in c.rows && Later(a.rows[id], c.rows[id])
    {
      assert Later(a.rows[id], b.rows[id]);
    }
  }

  /** Every run, whatever fails: no incident disappears, changes key or goes back a phase, CLOSED is final, and the
      resolution time is set once. The audit log only grows at its end. */
  lemma {:induction false} LifeOnlyAdvances(w: World, calls: seq<Call>)
    ensures AllLater(w, Run(w, calls))
    decreases calls
  {
    if calls == [] {
    } else {
      var w' := Serve(w, calls[0]).0;
      ServeOnlyAdvances(w, calls[0]);
      LifeOnlyAdvances(w', calls[1..]);
      LaterTransitive(w, w', Run(w, calls));
    }
  }

  /** A request that is refused by the rules changes nothing at all. One that meets an error of the database leaves rows
      and log as they were unless it was committed after all, and the gauge as well unless it had moved by then. */
  lemma {:induction false} RefusedChangesNothing(w: World, c: Call)
    ensures Step(w, c.request).1.Failure? ==> Serve(w, c).1.Failure? && Serve(w, c).0 == w
    ensures !Committed(c.fate) ==>
              Serve(w, c).1.Failure? && Serve(w, c).0.rows == w.rows && Serve(w, c).0.audit == w.audit
    ensures c.fate == FailsEarly ==> Serve(w, c).0 == w
    ensures Committed(c.fate) && Step(w, c.request).1.Success? && !c.request.UpdateMetadata? ==>
              |Serve(w, c).0.audit| == |w.audit| + 1
    ensures Serve(w, c).1.Success? <==> c.fate == Commits && Step(w, c.request).1.Success?
  {
  }

  // --- clocks ---

  predicate Ordered(at: Readings, after: int) {
    after <= at.first <= at.second <= at.third
  }

  ghost predicate ClockRuns(now: int, calls: seq<Call>)
    decreases calls
  {
    calls == [] || (Ordered(calls[0].request.at, now) && ClockRuns(calls[0].request.at.third, calls[1..]))
  }

  function ClockAfter(now: int, calls: seq<Call>): int {
    if calls == [] then now else calls[|calls| - 1].request.at.third
  }

  ghost predicate TimesInOrder(row: Row, now: int) {
    && row.createdAt <= row.updatedAt <= now
    && (row.resolvedAt.Some? ==> row.createdAt <= row.resolvedAt.value <= row.updatedAt)
  }

  ghost predicate InTimeOrder(rows: seq<AuditRow>) {
    forall i, j :: 0 <= i < j < |rows| ==> rows[i].occurredAt <= rows[j].occurredAt
  }

  // The log is in order of time, so reading one incident's events by time is reading its path.
  ghost predicate Chronological(w: World, now: int) {
    && (forall id :: id in w.rows ==> TimesInOrder(w.rows[id], now))
    && InTimeOrder(w.audit)
    && (forall i :: 0 <= i < |w.audit| ==> w.audit[i].occurredAt <= now)
  }

  lemma {:induction false} StepKeepsChronological(w: World, now: int, r: Request)
    requires Chronological(w, now) && Ordered(r.at, now)
    ensures Chronological(Step(w, r).0, r.at.third)
  {
    var w' := Step(w, r).0;
    forall id | id in w'.rows
      ensures TimesInOrder(w'.rows[id], r.at.third)
    {
      assert id in w.rows ==> TimesInOrder(w.rows[id], now);
    }
  }

  lemma {:induction false} RunKeepsChronological(w: World, now: int, calls: seq<Call>)
    requires Chronological(w, now) && ClockRuns(now, calls)
    ensures Chronological(Run(w, calls), ClockAfter(now, calls))
    decreases calls
  {
    if calls == [] {
    } else {
      StepKeepsChronological(w, now, calls[0].request);
      RunKeepsChronological(Serve(w, calls[0]).0, calls[0].request.at.third, calls[1..]);
    }
  }

  lemma {:induction false} TransitionsInTimeOrder(audit: seq<AuditRow>, id: string)
    requires InTimeOrder(audit)
    ensures InTimeOrder(Transitions(audit, id))
    ensures forall e :: e in Transitions(audit, id) ==> e in audit
  {
    if audit == [] {
    } else {
      var init, last := audit[..|audit| - 1], audit[|audit| - 1];
      TransitionsInTimeOrder(init, id);
      var rest := Transitions(init, id);
      assert forall e :: e in init ==> e in audit && e.occurredAt <= last.occurredAt;
      assert forall i :: 0 <= i < |rest| ==> rest[i] in rest;
    }
  }

  /** With a clock that never goes back, created <= resolved <= updated holds for every incident of every run from an
      empty system, and the transitions of an incident, ordered by time, are its path in the order it was taken. */
  lemma {:induction false} TimesStayInOrder(now: int, calls: seq<Call>)
    requires ClockRuns(now, calls)
    ensures Chronological(Run(EmptyWorld, calls), ClockAfter(now, calls))
    ensures forall id :: InTimeOrder(Transitions(Run(EmptyWorld, calls).audit, id))
  {
    assert Chronological(EmptyWorld, now);
    RunKeepsChronological(EmptyWorld, now, calls);
    forall id: string {
      TransitionsInTimeOrder(Run(EmptyWorld, calls).audit, id);
    }
  }

  // --- the gauge ---

  function ActiveIds(rows: map<string, Row>): set<string> {
    set id | id in rows && !Ended(rows[id].status)
  }

  function One(b: bool): nat {
    if b then 1 else 0
  }

  lemma {:induction false} ReplaceMovesActive(rows: map<string, Row>, id: string, row: Row)
    ensures |ActiveIds(rows[id := row])|
         == |ActiveIds(rows)| + One(!Ended(row.status)) - One(id in rows && !Ended(rows[id].status))
  {
    var before, after := ActiveIds(rows), ActiveIds(rows[id := row]);
    if Ended(row.status) {
      assert after == before - {id};
    } else {
      assert after == before + {id};
    }
  }

  lemma {:induction false} MoveTotal(g: Gauge, s: Severity, delta: int)
    ensures GaugeTotal(Move(g, s, delta)) == GaugeTotal(g) + delta
  {
  }

  // A step into RESOLVED or CLOSED taken from RESOLVED or CLOSED.
  predicate EndsAgain(w: World, r: Request) {
    && r.TransitionStatus? && r.target in w.rows
    && Ended(w.rows[r.target].status) && Ended(r.newStatus) && Allowed(w.rows[r.target].status, r.newStatus)
  }

  lemma {:induction false} StepMovesGauge(w: World, r: Request)
    ensures GaugeTotal(Step(w, r).0.gauge) - GaugeTotal(w.gauge)
         == |ActiveIds(Step(w, r).0.rows)| - |ActiveIds(w.rows)| - One(EndsAgain(w, r))
  {
    match r {
      case OpenIncident(id, _, severity, _, _, _, _, _) =>
        if id !in w.rows {
          MoveTotal(w.gauge, severity, 1);
          ReplaceMovesActive(w.rows, id, NewRow(r));
        }
      case TransitionStatus(target, newStatus, _, at) =>
        if target in w.rows && Allowed(w.rows[target].status, newStatus) {
          MoveTotal(w.gauge, w.rows[target].severity, -1);
          ReplaceMovesActive(w.rows, target, Moved(w.rows[target], newStatus, at));
        }
      case UpdateMetadata(target, _, _, notes, _) =>
        if Step(w, r).1.Success? {
          ReplaceMovesActive(w.rows, target, Step(w, r).1.value);
        }
    }
  }

  // The three ways in which the gauge goes wrong: a committed second end, and a rollback after the gauge has moved,
  // upwards for an opening or downwards for an end.
  predicate CountsTwice(w: World, c: Call) {
    Committed(c.fate) && EndsAgain(w, c.request)
  }

  predicate AbortsOpen(w: World, c: Call) {
    c.fate == FailsLate && c.request.OpenIncident? && c.request.id !in w.rows
  }

  predicate AbortsEnd(w: World, c: Call) {
    && c.fate == FailsLate && c.request.TransitionStatus? && c.request.target in w.rows
    && Ended(c.request.newStatus) && Allowed(w.rows[c.request.target].status, c.request.newStatus)
  }

  function Calls(w: World, calls: seq<Call>, p: (World, Call) -> bool): nat
    decreases calls
  {
    if calls == [] then 0 else One(p(w, calls[0])) + Calls(Serve(w, calls[0]).0, calls[1..], p)
  }

  function DoubleCounts(w: World, calls: seq<Call>): nat {
    Calls(w, calls, CountsTwice)
  }

  function AbortedOpens(w: World, calls: seq<Call>): nat {
    Calls(w, calls, AbortsOpen)
  }

  function AbortedEnds(w: World, calls: seq<Call>): nat {
    Calls(w, calls, AbortsEnd)
  }

  // How much too high the gauge reads, summed over severities.
  function Excess(w: World): int {
    GaugeTotal(w.gauge) - |ActiveIds(w.rows)|
  }

  lemma {:induction false} ServeMovesGauge(w: World, c: Call)
    ensures Excess(Serve(w, c).0)
         == Excess(w) - One(CountsTwice(w, c)) + One(AbortsOpen(w, c)) - One(AbortsEnd(w, c))
  {
    StepMovesGauge(w, c.request);
    if c.fate == FailsLate {
      match c.request {
        case OpenIncident(_, _, severity, _, _, _, _, _) => MoveTotal(w.gauge, severity, 1);
        case TransitionStatus(target, newStatus, _, at) =>
          if target in w.rows {
            MoveTotal(w.gauge, w.rows[target].severity, -1);
          }
        case UpdateMetadata(_, _, _, _, _) =>
      }
    }
  }

  /** The gauge, summed over severities, is the number of active incidents, less the second ends, plus the openings and
      less the ends that were rolled back after they had been counted. */
  lemma {:induction false} GaugeLedger(w: World, calls: seq<Call>)
    ensures Excess(Run(w, calls))
         == Excess(w) - DoubleCounts(w, calls) + AbortedOpens(w, calls) - AbortedEnds(w, calls)
    decreases calls
  {
    if calls == [] {
    } else {
      ServeMovesGauge(w, calls[0]);
      GaugeLedger(Serve(w, calls[0]).0, calls[1..]);
    }
  }

  /** From an empty system the gauge is exact at the end of precisely the runs whose rolled-back openings are as many as
      their second ends and rolled-back ends together; with fewer of them it reads too low, with more too high. If every
      transaction commits it is exact on precisely the runs in which no ended incident is ended again. */
  lemma {:induction false} GaugeExactWhen(calls: seq<Call>)
    ensures var w := Run(EmptyWorld, calls);
            var ups := AbortedOpens(EmptyWorld, calls);
            var downs := DoubleCounts(EmptyWorld, calls) + AbortedEnds(EmptyWorld, calls);
            && (GaugeTotal(w.gauge) == |ActiveIds(w.rows)| <==> ups == downs)
            && (GaugeTotal(w.gauge) < |ActiveIds(w.rows)| <==> ups < downs)
            && ((forall c :: c in calls ==> Committed(c.fate)) ==> ups == 0 == AbortedEnds(EmptyWorld, calls))
  {
    GaugeLedger(EmptyWorld, calls);
    assert ActiveIds(map[]) == {};
    if forall c :: c in calls ==> Committed(c.fate) {
      NothingAborted(EmptyWorld, calls);
    }
  }

  lemma {:induction false} NothingAborted(w: World, calls: seq<Call>)
    requires forall c :: c in calls ==> Committed(c.fate)
    ensures AbortedOpens(w, calls) == 0 == AbortedEnds(w, calls)
    decreases calls
  {
    if calls == [] {
    } else {
      assert calls[0] in calls;
      NothingAborted(Serve(w, calls[0]).0, calls[1..]);
    }
  }

  ghost predicate AlwaysExact(w: World, calls: seq<Call>)
    decreases calls
  {
    Excess(w) == 0 && (calls == [] || AlwaysExact(Serve(w, calls[0]).0, calls[1..]))
  }

  predicate Miscounts(w: World, c: Call) {
    CountsTwice(w, c) || AbortsOpen(w, c) || AbortsEnd(w, c)
  }

  /** The gauge is exact at every moment of a run if and only if it starts exact and no call of the run is one of the
      three kinds; each is told by the status of the incident before the call and by how its transaction ends. */
  lemma {:induction false} GaugeAlwaysExactWhen(w: World, calls: seq<Call>)
    ensures AlwaysExact(w, calls) <==> Excess(w) == 0 && Calls(w, calls, Miscounts) == 0
    decreases calls
  {
    if calls == [] {
    } else {
      ServeMovesGauge(w, calls[0]);
      GaugeAlwaysExactWhen(Serve(w, calls[0]).0, calls[1..]);
    }
  }

  /** One opening whose audit row or commit fails leaves no incident and a gauge of one. */
  lemma {:induction false} AbortedOpenReadsTooHigh(r: Request)
    requires r.OpenIncident?
    ensures var w := Run(EmptyWorld, [Call(r, FailsLate)]);
            w.rows == map[] && w.audit == [] && GaugeTotal(w.gauge) == 1
  {
    var c := Call(r, FailsLate);
    assert [c][1..] == [];
    assert Run(EmptyWorld, [c]) == Serve(EmptyWorld, c).0;
    MoveTotal(EmptyWorld.gauge, r.severity, 1);
  }

  /** The ordinary life of one incident, resolved and then closed, already leaves the gauge one too low. */
  lemma {:induction false} ResolveThenCloseLosesOne(w: World, id: string, actor: string, at: Readings)
    requires id in w.rows && w.rows[id].status == INVESTIGATING
    ensures var w1 := Step(w, TransitionStatus(id, RESOLVED, actor, at)).0;
            var w' := Step(w1, TransitionStatus(id, CLOSED, actor, at)).0;
            && GaugeTotal(w'.gauge) == GaugeTotal(w.gauge) - 2
            && |ActiveIds(w'.rows)| == |ActiveIds(w.rows)| - 1
  {
    var resolve, close := TransitionStatus(id, RESOLVED, actor, at), TransitionStatus(id, CLOSED, actor, at);
    var w1 := Step(w, resolve).0;
    StepMovesGauge(w, resolve);
    StepMovesGauge(w1, close);
    ReplaceMovesActive(w.rows, id, w1.rows[id]);
    ReplaceMovesActive(w1.rows, id, Step(w1, close).0.rows[id]);
  }
}
