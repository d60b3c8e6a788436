/** What each call to the incident system does to the row it names, to the audit log and to the gauge, and that it
    touches nothing else. */
module IncidentLaws {
  import opened Wrappers
  import opened Lifecycle
  import opened Incidents

  // Every severity's level has moved by so much.
  ghost predicate GaugeMoved(before: Gauge, after: Gauge, severity: Severity, delta: int) {
    forall s: Severity ::
      (if s in after then after[s] else 0)
      == (if s in before then before[s] else 0) + if s == severity then delta else 0
  }

  // What the caller is told of a change that is done.
  predicate Told(reply: Reply, row: Row, fate: Fate) {
    reply == if fate == Commits then Success(row) else Failure(DatabaseError)
  }

  /** Opening an incident under an id that is taken is refused; otherwise there is a new OPEN row, without resolution
      time and notes and owned by whoever opened it unless an owner is named, one more audit row, and one more
      incident of its severity on the gauge. */
  lemma {:induction false} OpeningCreates(w: World, c: Call)
    requires c.request.OpenIncident? && (c.fate == Commits || c.fate == CommitsUnseen)
    ensures var r, w', reply := c.request, Serve(w, c).0, Serve(w, c).1;
            if r.id in w.rows then w' == w && reply == Failure(DuplicateId)
            else
              var owner := if r.owner.Some? then r.owner.value else r.openedBy;
              var row := Row(r.id, Details(r.title, r.category, owner, r.description), r.severity, OPEN,
                             r.at.first, r.at.second, None, None);
              && w'.rows == w.rows[r.id := row]
              && w'.audit == w.audit + [AuditRow(r.id, CREATED_EVENT, r.openedBy, None, StatusValue(OPEN), r.at.third)]
              && GaugeMoved(w.gauge, w'.gauge, r.severity, 1)
              && Told(reply, row, c.fate)
  {
  }

  predicate MayFollow(a: Status, b: Status) {
    a == b || (a, b) in {
      (OPEN, INVESTIGATING), (OPEN, MITIGATING),
      (INVESTIGATING, MITIGATING), (INVESTIGATING, RESOLVED), (INVESTIGATING, CLOSED),
      (MITIGATING, INVESTIGATING), (MITIGATING, RESOLVED), (MITIGATING, CLOSED),
      (RESOLVED, CLOSED)
    }
  }

  /** The policy is these ten rules, and they are what the phases of an incident's life say: it starts by being picked
      up and never goes back. A refusal names exactly what would have been allowed instead. */
  lemma {:induction false} PolicyIs(a: Status, b: Status)
    ensures Allowed(a, b) <==> MayFollow(a, b)
    ensures MayFollow(a, b) <==> a == b || (Phase(a) <= Phase(b) && (a == OPEN ==> Phase(b) == 1))
    ensures var d := ValidateStatusTransition(a, b);
            && d.current == a && d.requested == b
            && (!d.allowed ==> d.reason.Rejected?
                               && forall s :: s in d.reason.validTargets <==> s != a && MayFollow(a, s))
            && (d.allowed ==> d.reason == if a == b then Idempotent else Permitted)
  {
  }

  /** A transition is refused for an unknown incident or against the policy. Otherwise the row has the new status and
      the second reading as its update time, and the first reading as its resolution time if it is being resolved and
      was never resolved before; the audit log has one more row, which gives the new status twice; and the gauge loses
      one incident of its severity exactly if the new status ends it. */
  lemma {:induction false} TransitionMoves(w: World, c: Call)
    requires c.request.TransitionStatus? && (c.fate == Commits || c.fate == CommitsUnseen)
    ensures var r, w', reply := c.request, Serve(w, c).0, Serve(w, c).1;
            if r.target !in w.rows then w' == w && reply == Failure(NotFound)
            else
              var was := w.rows[r.target];
              if !MayFollow(was.status, r.newStatus) then
                && w' == w && reply.Failure? && reply.error.InvalidTransition?
                && reply.error.decision.current == was.status && reply.error.decision.requested == r.newStatus
              else
                var row := Row(was.id, was.details, was.severity, r.newStatus, was.createdAt, r.at.second,
                               if was.resolvedAt.None? && r.newStatus == RESOLVED then Some(r.at.first)
                               else was.resolvedAt, was.notes);
                && w'.rows == w.rows[r.target := row]
                && w'.audit == w.audit + [AuditRow(r.target, STATUS_TRANSITION, r.transitionedBy,
                                                   Some(StatusValue(r.newStatus)), StatusValue(r.newStatus),
                                                   r.at.third)]
                && GaugeMoved(w.gauge, w'.gauge, was.severity,
                              if r.newStatus == RESOLVED || r.newStatus == CLOSED then -1 else 0)
                && Told(reply, row, c.fate)
  {
    if c.request.target in w.rows {
      PolicyIs(w.rows[c.request.target].status, c.request.newStatus);
    }
  }

  function SeverityText(s: Severity): string {
    match s
    case SEV1 => "SEV-1"
    case SEV2 => "SEV-2"
    case SEV3 => "SEV-3"
    case SEV4 => "SEV-4"
  }

  // The severity that a text names, if any.
  lemma {:induction false} SeverityTexts(text: string, s: Severity)
    ensures ParseSeverity(text) == Some(s) <==> text == SeverityText(s)
    ensures ParseSeverity(text).None? <==> forall s' :: text != SeverityText(s')
  {
    if ParseSeverity(text).Some? {
      assert text == SeverityText(ParseSeverity(text).value);
    } else {
      forall s'
        ensures text != SeverityText(s')
      {
      }
    }
  }

  /** An edit is refused for an unknown incident or a severity that is not one of the four. Otherwise the row has the
      severity and the notes that were given, and keeps what was not; if either was given its update time is the first
      reading and the audit log has one more row, and if neither was, nothing has changed. The gauge is never touched.
      */
  lemma {:induction false} UpdateEdits(w: World, c: Call)
    requires c.request.UpdateMetadata? && (c.fate == Commits || c.fate == CommitsUnseen)
    ensures var r, w', reply := c.request, Serve(w, c).0, Serve(w, c).1;
            if r.target !in w.rows then w' == w && reply == Failure(NotFound)
            else if r.severityText.Some? && forall s :: r.severityText.value != SeverityText(s) then
              w' == w && reply == Failure(InvalidSeverity)
            else
              var was := w.rows[r.target];
              && r.target in w'.rows && w'.rows == w.rows[r.target := w'.rows[r.target]] && w'.gauge == w.gauge
              && var row := w'.rows[r.target];
                 && row == was.(severity := row.severity, notes := row.notes, updatedAt := row.updatedAt)
                 && (if r.severityText.Some? then r.severityText.value == SeverityText(row.severity)
                     else row.severity == was.severity)
                 && row.notes == (if r.notes.Some? then r.notes else was.notes)
                 && row.updatedAt == (if r.severityText.Some? || r.notes.Some? then r.at.first else was.updatedAt)
                 && w'.audit == w.audit
                                + (if r.severityText.None? && r.notes.None? then []
                                   else [AuditRow(r.target, METADATA_UPDATE, r.updatedBy, None,
                                                  Changes(if r.severityText.Some? then Some(row.severity) else None,
                                                          r.notes.Some?), r.at.second)])
                 && Told(reply, row, c.fate)
  {
    var r := c.request;
    if r.severityText.Some? {
      SeverityTexts(r.severityText.value, SEV1);
      var parsed := ParseSeverity(r.severityText.value);
      if parsed.Some? {
        SeverityTexts(r.severityText.value, parsed.value);
      }
    }
  }

  /** A transaction that fails leaves rows and log as they were and is reported, as a refusal if the call would have
      been refused anyway; if it fails late the gauge has moved all the same, as if it had been committed. */
  lemma {:induction false} FailuresRollBack(w: World, c: Call)
    requires c.fate == FailsEarly || c.fate == FailsLate
    ensures var w', reply := Serve(w, c).0, Serve(w, c).1;
            var done := Serve(w, c.(fate := Commits));
            && w'.rows == w.rows && w'.audit == w.audit
            && w'.gauge == (if c.fate == FailsLate then done.0.gauge else w.gauge)
            && reply.Failure?
            && reply == if c.fate == FailsLate && done.1.Failure? then done.1 else Failure(DatabaseError)
  {
    RefusedChangesNothing(w, c.(fate := Commits));
  }

  /** Read row by row, the transitions of an incident are its own STATUS_TRANSITION rows, all of them, in the order of
      the log. */
  lemma {:induction false} TransitionsByRow(audit: seq<AuditRow>, e: AuditRow, id: string)
    ensures Transitions([], id) == []
    ensures Transitions(audit + [e], id)
         == Transitions(audit, id) + if e.incidentId == id && e.eventType == STATUS_TRANSITION then [e] else []
  {
    assert (audit + [e])[..|audit|] == audit;
  }
}
