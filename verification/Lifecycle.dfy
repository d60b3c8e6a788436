/** The incident lifecycle policy of src/domain/incident_lifecycle.py. */
module Lifecycle {

  datatype Status = OPEN | INVESTIGATING | MITIGATING | RESOLVED | CLOSED

  datatype Severity = SEV1 | SEV2 | SEV3 | SEV4

  // The reason strings of the source, by what they carry.
  datatype Reason = Idempotent | Permitted | Rejected(validTargets: set<Status>)

  datatype TransitionDecision =
    TransitionDecision(allowed: bool, current: Status, requested: Status, reason: Reason)

  const ALLOWED_STATUS_TRANSITIONS: map<Status, set<Status>> := map[
    OPEN := {INVESTIGATING, MITIGATING},
    INVESTIGATING := {MITIGATING, RESOLVED, CLOSED},
    MITIGATING := {INVESTIGATING, RESOLVED, CLOSED},
    RESOLVED := {CLOSED},
    CLOSED := {}
  ]

  function ValidateStatusTransition(current: Status, requested: Status): (d: TransitionDecision) {
    if current == requested then
      TransitionDecision(true, current, requested, Idempotent)
    else
      var targets := if current in ALLOWED_STATUS_TRANSITIONS then ALLOWED_STATUS_TRANSITIONS[current] else {};
      if requested in targets then
        TransitionDecision(true, current, requested, Permitted)
      else
        TransitionDecision(false, current, requested, Rejected(targets))
  }

  predicate Allowed(current: Status, requested: Status) {
    ValidateStatusTransition(current, requested).allowed
  }

  // How far through its life an incident is; investigating and mitigating may alternate.
  function Phase(s: Status): nat {
    match s
    case OPEN => 0
    case INVESTIGATING => 1
    case MITIGATING => 1
    case RESOLVED => 2
    case CLOSED => 3
  }

  // A walk through the policy that starts where every incident starts.
  ghost predicate LegalPath(path: seq<Status>) {
    && path != []
    && path[0] == OPEN
    && forall i :: 0 < i < |path| ==> Allowed(path[i - 1], path[i])
  }

  /** A legal path never goes back to an earlier phase, and once it reaches CLOSED it stays there. */
  lemma {:induction false} LegalPathsOnlyAdvance(path: seq<Status>, i: nat, j: nat)
    requires LegalPath(path) && i <= j < |path|
    ensures Phase(path[i]) <= Phase(path[j])
    ensures path[i] == CLOSED ==> path[j] == CLOSED
    decreases j - i
  {
    if i == j {
    } else {
      LegalPathsOnlyAdvance(path, i, j - 1);
      assert Allowed(path[j - 1], path[j]);
    }
  }

  /** No incident is resolved or closed before someone has picked it up: the shortest legal path to either
      has an INVESTIGATING or MITIGATING step strictly before it. */
  lemma {:induction false} NoShortcutToTheEnd(path: seq<Status>, k: nat)
    requires LegalPath(path) && k < |path| && path[k] in {RESOLVED, CLOSED}
    ensures exists i :: 0 < i < k && path[i] in {INVESTIGATING, MITIGATING}
  {
    assert Allowed(path[k - 1], path[k]);
    if path[k - 1] in {RESOLVED, CLOSED} {
      NoShortcutToTheEnd(path, k - 1);
    } else {
      assert path[k - 1] in {INVESTIGATING, MITIGATING};
    }
  }
}
