# Incident platform: verified model

This project models the stateful core of the incident-response platform and proves what its parts are for. `dafny verify
dfyconfig.toml` checks all of it.

The shape is the same everywhere. What the source does step by step to shared state is a class whose methods change the
same fields in the same order; each method is proved to move the state exactly as a step function on values does. The
theorems are then about every run of that step function: any sequence of requests, any interleaving, any clock. The
modules named `...Laws` say what the step functions do from the outside, in terms of replies, rows, keys and numbers, so
that a step which forgot to count, mark or filter would not satisfy them.

| files | what they model |
|---|---|
| `Lifecycle`, `Incidents`, `IncidentLaws`, `IncidentService` | the status policy; the incident table, audit log and gauge as one system; the objects behind them |
| `Pagination`, `PaginationLaws`, `Ordering` | the compound `(created_at, id)` cursor and a client's walk over a table that changes between pages |
| `Drift`, `DriftLaws` | PSI, smoothed Jensen-Shannon divergence, rounding, thresholds and the drift suite |
| `Redis`, `RateLimiting`, `LoginGuard` | keys that expire; the two counters under interleaved requests |
| `Auth`, `AuthLaws`, `AuthApi` | tokens, refresh rotation, the denylist, logout, disabled users; the objects behind the endpoints |
| `ModelRegistry`, `ModelRegistryLaws`, `ModelRegistryService` | the registry as a cache rebuilt per request over a table, against one long-lived service |
| `ModelLoader` | hash verification by chunks and double-checked locking by any number of threads |
| `Jwk`, `JwkLaws`, `KeyRotation`, `KeyRotationLaws` | Base64urlUInt fields; the rotation pool and the scan of numbered variables that loads it |
| `Etl`, `EtlLaws` | row transformation, the batched load and its run-id guard |
| `Timestamps`, `TimestampLaws` | string comparison of timestamps against the instants they denote |

The natural logarithm is any function that is strictly increasing, turns products into sums and lies below `x - 1`. Time
in `Redis`, `RateLimiting`, `LoginGuard` and `Auth` is in milliseconds. `Redis.Server` is the environment: the commands
the API sends, on keys with an optional expiry.

## Where the code and its promises part

Each of these is a theorem with the condition under which the promise holds; the members that prove it are named.

- The gauge of active incidents goes wrong on exactly three kinds of call: a committed step into resolved or closed from
  resolved or closed, and an opening or an end whose transaction fails after the gauge has moved, since a rollback does
  not reach it. It is exact at every moment of a run if and only if it starts exact and no such call is made
  (`Incidents.GaugeAlwaysExactWhen`), and at the end of a run from an empty system if and only if the errors in the two
  directions cancel (`Incidents.GaugeExactWhen`). It does not start exact in a process that is restarted over a table
  with active incidents, or that is one of several workers: each has a gauge of its own that starts at zero. The
  ordinary life of an incident, resolved and then closed, already loses one (`Incidents.ResolveThenCloseLosesOne`); one
  aborted opening leaves one too many (`Incidents.AbortedOpenReadsTooHigh`).
- The audit row of a transition logs the status of a record that has already been changed: its old value is the previous
  status if and only if the transition changes nothing (`Incidents.OldValueIsPreviousWhen`), so the first step of an
  incident already logs a wrong one (`Incidents.OldValueIsLost`). The new values alone still tell the whole life
  (`Incidents.AuditLogTellsEveryLife`).
- The module documentation of the lifecycle (lines 18-23) lists a step from open to closed; the table at lines 72-92 has
  none, and none can be composed (`Lifecycle.NoShortcutToTheEnd`).
- The documented rotation removes the key at index 1 once its window is over. The scan stops at the first gap, so this
  drops every retired key behind it as well: a key at index j survives the removal of index i if and only if j < i
  (`KeyRotation.UnsettingDropsTheRest`).
- The rate limit is documented as a sliding window; it is a fixed one, and twice the limit fits into one window
  (`RateLimiting.TwiceTheLimitIsReached`). A run leaves a key that blocks its user for ever if and only if in it the EXPIRE
  of a creating request fails, or that request does not get the answer to its INCR, or is abandoned before its EXPIRE
  (`RateLimiting.LostExpiryBlocksForEver`); one such request is enough (`RateLimiting.OneErrorLosesTheKey`).
- A login threshold of zero or less acts like one, since a missing counter always passes (`LoginGuard.BoundIsReached`).
- Refresh and logout are documented to answer 503 when the denylist is unavailable. Where there is one that does not
  answer, takes no writes or loses the confirmation, they end in an internal error, and the exact condition is known
  before the call (`Auth.RefreshFailsInternallyWhen`, `Auth.LogoutFailsInternallyWhen`); both do so after any login
  followed by an outage or a switch to read-only (`Auth.OutageAfterLogin`). An exchange that loses only the confirmation
  ends its session for good (`Auth.LostConfirmationEndsTheSession`).
- After an operation the registry's cache and table agree unless it activates a named version while the empty string is
  the active version (`ModelRegistry.StepsAgree`). The service can be brought there
  (`ModelRegistry.EmptyVersionDisagrees`); this is an input to the service, since the path of the activation route
  cannot hold an empty version.
- The load returns the rows it attempted: that is the number inserted if and only if there were none, or they were
  committed and their ids are new to the table and to one another (`Etl.Warehouse.Load`, `Etl.InsertedSize`). The rows of
  a load that was not skipped are all there afterwards if and only if the batch size is positive and no failure, ignored
  or not, kept the transaction from being committed, or they were there before (`Etl.RowsArriveWhen`). On a database that
  aborts transactions a failure that the code ignores is such a failure: a missing run table lets no load succeed, and a
  run that cannot be recorded is reported as loaded and rolled back. A negative batch size marks the run as loaded all the
  same (`Etl.NegativeBatchSizeLosesTheRun`). Two half loads and one whole load leave different tables exactly when the
  halves share a run id and the second brings a new incident (`Etl.SplitLoadsAgree`).
- Running the whole pipeline again changes `updated_at`, hence the run id, so its guard never applies. The second run adds
  nothing if and only if no accepted row without an id is drawn a new one (`Etl.SecondRunAddsNothingWhen`).
- Comparing timestamps as strings is right exactly between timestamps with the same suffix
  (`Timestamps.StringOrderIsTimeOrderWhen`).
- Zero as a JWK integer comes out empty, where section 2 of RFC 7518 asks for one zero octet (`Jwk.OnlyZeroIsEmpty`).
- Above a page limit of 1000 the router never returns a cursor, so a client sees the whole list if and only if it holds no
  more than 1000 incidents (`Pagination.LargeLimitIsCompleteWhen`); at 0 it fails (`Pagination.LimitsOutsideTheCap`).

## Model

| member | source | states |
|---|---|---|
| Lifecycle.LegalPathsOnlyAdvance | src/domain/incident_lifecycle.py:72-92 | along every path the policy allows the phase never falls, and CLOSED is final |
| Lifecycle.NoShortcutToTheEnd | src/domain/incident_lifecycle.py:109-150 | every allowed path to resolved or closed passes through investigating or mitigating strictly before it |
| IncidentLaws.PolicyIs | src/domain/incident_lifecycle.py:72-150 | the policy is exactly the nine steps of the table and staying put; a refusal carries exactly the targets that would have been allowed |
| IncidentService.IncidentRepository.Create | src/repositories/incident_repository.py:195-222 | an incident is added under its id, OPEN, unresolved and without notes; an id that is taken changes nothing |
| IncidentService.IncidentRepository.UpdateStatus | src/repositories/incident_repository.py:224-293 | unknown id and forbidden step change nothing; otherwise exactly the one shared record gets status, updated_at and, the first time it is resolved, resolved_at |
| IncidentService.Service.OpenIncident | src/services/incident_service.py:62-116 | row, gauge and audit row of a new incident, as the step of the system |
| IncidentService.Service.TransitionStatus | src/services/incident_service.py:121-168 | the whole new state of a transition through the shared record, including the aliased old value; a refusal changes nothing |
| IncidentService.Service.UpdateMetadata | src/services/incident_service.py:173-225 | severity and notes are changed on the shared record without the gauge; an unknown severity changes nothing |
| IncidentService.Platform.Handle | src/platform/database.py:107-126 | one request and its transaction: rows and log change only on commit, the gauge also if the transaction fails after it has moved; a commit whose answer is lost is done all the same |
| Incidents.StatusPathAppend | src/repositories/audit_log_repository.py:35-79 | appending an event extends the status path of its incident only, and only if it carries a status |
| Incidents.StepKeepsConsistent | src/services/incident_service.py:62-225 | every operation keeps "the audit path of every incident is legal, ends in its status and shows whether it was resolved" |
| Incidents.AuditLogTellsEveryLife | src/services/incident_service.py:82-158 | that holds in every state reached from an empty system, whatever fails, and the transitions selected for an incident are its whole path after OPEN |
| Incidents.OldValueIsPreviousWhen | src/services/incident_service.py:134-158 | the logged old value is the previous status if and only if the transition keeps the status |
| Incidents.OldValueIsLost | src/services/incident_service.py:145-156 | an incident opened and picked up logs INVESTIGATING as the old value of OPEN |
| Incidents.LifeOnlyAdvances | src/repositories/incident_repository.py:255-293 | in every run no incident vanishes, changes its key or goes back a phase, closed is final, resolved_at is set once, and the log is a prefix of the later log |
| Incidents.RefusedChangesNothing | src/services/incident_service.py:134-158 | a request refused by the rules changes nothing; one that meets a database error leaves rows and log alone unless it was committed, and the gauge unless it had moved; an accepted creation or transition writes exactly one audit row |
| Incidents.TimesStayInOrder | src/services/incident_service.py:134-158 | under a clock that never goes back, created <= resolved <= updated for every incident of every run, and the log is in order of time |
| Incidents.TransitionsInTimeOrder | src/repositories/audit_log_repository.py:106-123 | the transitions of one incident are rows of the log, and ordered by time if the log is |
| Incidents.StepMovesGauge | src/services/incident_service.py:96-100 | what one accepted request does to gauge total minus active count |
| Incidents.ServeMovesGauge | src/platform/database.py:107-126 | the same for one call, committed or rolled back before or after the gauge has moved |
| Incidents.GaugeLedger | src/services/incident_service.py:149-150 | over every run the gauge total exceeds the active count by the aborted openings less the second ends and the aborted ends |
| Incidents.GaugeExactWhen | src/services/incident_service.py:96-150 | from an empty system the gauge is exact at the end if and only if those three cancel, and too low if and only if the downward ones prevail; if all commit, if and only if no ended incident was ended again |
| Incidents.GaugeAlwaysExactWhen | src/services/incident_service.py:96-150 | the gauge is exact at every moment of a run if and only if it starts exact and no call of the run is of those three kinds |
| Incidents.AbortedOpenReadsTooHigh | src/services/incident_service.py:96-107 | one opening that fails after the gauge has moved leaves no incident and a gauge of one |
| Incidents.ResolveThenCloseLosesOne | src/services/incident_service.py:149-150 | resolving and then closing takes two off the gauge for one incident |
| IncidentLaws.OpeningCreates | src/services/incident_service.py:62-116 | every column of the new row, the one audit row, one more of its severity on the gauge and nothing else; an id that is taken changes nothing |
| IncidentLaws.TransitionMoves | src/services/incident_service.py:121-168 | refused exactly for an unknown incident or a step outside the policy; otherwise status, update and resolution time of that row, one audit row, and one less on the gauge exactly for resolved or closed; every other column and row is kept |
| IncidentLaws.UpdateEdits | src/services/incident_service.py:173-225 | what was given is changed, what was not is kept, the audit row appears exactly if something was given, and the gauge is never touched; unknown incidents and severity texts change nothing |
| IncidentLaws.SeverityTexts | src/services/incident_service.py:173-225 | the four severity texts and no others name a severity |
| IncidentLaws.FailuresRollBack | src/platform/database.py:107-126 | a failing transaction leaves rows and log as they were and is reported; the gauge stays unless it had moved |
| IncidentLaws.TransitionsByRow | src/repositories/audit_log_repository.py:106-123 | an incident's transitions are its own STATUS_TRANSITION rows, all of them, in log order |
| Pagination.PageIsTheTop | src/repositories/incident_repository.py:107-149 | the ordered, limited query returns the eligible rows in descending key order, all of them or the top n, with everything left out below every row returned |
| Pagination.QueryIsTheTop | src/repositories/incident_repository.py:107-191 | for every filter, limit and cursor row, open or closed, the query returns the top slice, at most 1000 long, of the rows eligible for it; which those are is said row by row in QueryLists |
| PaginationLaws.QueryLists | src/repositories/incident_repository.py:107-191 | what is listed is in the table, not CLOSED, of the severity asked for and strictly below the cursor row by (created_at, id), newest first; such a row is missing only from a page of min(limit, 1000) rows and lies below all of it; an unknown cursor is an error |
| PaginationLaws.RouterAnswers | api/routers/incidents.py:72-103 | exactly when the cursor is malformed, not found, or the limit 0; otherwise the rows of the query, with the last id as cursor exactly if they are as many as asked for |
| PaginationLaws.CursorsAre | src/services/incident_service.py:234-256 | a cursor is well formed exactly if it has 32 hex digits and otherwise only hyphens |
| Pagination.UuidParses | src/services/incident_service.py:234-256 | every id the platform hands out passes the cursor check of the service |
| Pagination.RouterPage | api/routers/incidents.py:85-103 | for limits from 1 to 1000 the router answers with the page and a cursor exactly when the page is full |
| Pagination.WalkInOrder | src/repositories/incident_repository.py:78-105 | what a walk has shown stays in strictly descending key order in the table as it ends up |
| Pagination.WalkMissesNothing | src/repositories/incident_repository.py:78-149 | an incident below the cursor is shown by a finished walk unless it is closed when the walk ends |
| Pagination.WalkShowsEachOnce | api/routers/incidents.py:72-103 | while any requests run between pages nothing is shown twice, and everything that existed at page one and is not closed at the end is shown |
| Pagination.WalkEnds | api/routers/incidents.py:85-103 | a walk that has not ended after k + 1 pages has shown limit * (k + 1) different incidents, so it has ended once that exceeds the table |
| PaginationLaws.WalkIsTruthful | api/routers/incidents.py:72-103 | page k of a walk shows only what was not CLOSED, and had the severity asked for, in the table after the first k interludes, and what the walk has seen are its pages one after the other |
| Ordering.LexDecides | src/repositories/incident_repository.py:91-105 | the id comparison of the cursor: a proper prefix, or the smaller character where two ids first differ |
| Pagination.LimitsOutsideTheCap | api/routers/incidents.py:92-92 | on every list and behind every cursor, limit 0 fails and a limit above 1000 gives the page without a cursor |
| Pagination.LargeLimitIsCompleteWhen | api/routers/incidents.py:85-103 | with a limit above 1000 the walk ends at once and is complete if and only if at most 1000 incidents are listed |
| Drift.NormalizeHistogram | observability/drift_check.py:107-127 | succeeds exactly if some bin is positive, and then each bin is its share of the sum and the shares sum to one; otherwise the error tells an empty histogram from one without mass |
| Drift.ScaleInvariant | observability/drift_check.py:107-127 | scaling a histogram does not change its normalisation, errors included |
| Drift.LogRatioLaws | observability/drift_check.py:170-190 | sign, antisymmetry and bounds of the smoothed log ratio of two bins and of each with their midpoint |
| Drift.ZipSumBounds | observability/drift_check.py:176-190 | bin-wise bounds add up: range, zero exactly on equality, symmetry |
| Drift.JsdAtMostQuarterPsi | observability/drift_check.py:228-241 | before rounding, JSD is at most a quarter of PSI, for all histograms |
| Drift.PsiIsBounded | observability/drift_check.py:130-190 | 0 <= PSI <= 2 ln((1 + eps) / eps), zero exactly for equal distributions, symmetric |
| Drift.JsdIsBounded | observability/drift_check.py:232-240 | 0 <= JSD <= ln 2, zero exactly for equal distributions, symmetric |
| Drift.RoundingIsClose | observability/drift_check.py:186-190 | rounding to six places moves a value by at most half a millionth |
| Drift.RoundingKeeps | observability/drift_check.py:186-190 | rounding never falls below a threshold with at most six places that the value reached |
| Drift.DriftedFeatureIsMajorByPsi | observability/drift_check.py:206-266 | a feature flagged as drifted is MAJOR by PSI on the same histograms, rounding included; what MAJOR and drifted mean in numbers is PsiSucceedsWhen and FeatureSucceedsWhen |
| Drift.CheckDriftSuite | observability/drift_check.py:269-337 | overall MAJOR exactly if the index is at least 0.20 or an anomaly fired, NO_DRIFT exactly if the index and every divergence are below 0.10 and none fired; the drifted names are those of the drifted features; it fails exactly if a measurement does, with the error of the first |
| Drift.JoinIsLeastAndMonotone | observability/drift_check.py:305-318 | the suite's severity is the least one that is at least each of its three parts, and monotone in each |
| Drift.SomeDrifted | observability/drift_check.py:303-303 | a name is listed as drifted if and only if some result says so |
| DriftLaws.PsiSucceedsWhen | observability/drift_check.py:153-190 | computed exactly for equal positive lengths with positive sums, each error in its case; NO_DRIFT exactly below 0.10, MAJOR exactly from 0.20, MINOR between; bins is the length |
| DriftLaws.PsiReports | observability/drift_check.py:173-180 | the index is within half a millionth of the sum, bin by bin, of (p - q) ln((p + 0.00000001) / (q + 0.00000001)) over the shares |
| DriftLaws.FeatureSucceedsWhen | observability/drift_check.py:228-266 | computed exactly for non-empty histograms with positive sums; drifted exactly if the rounded divergence is at least 0.10 |
| DriftLaws.FeatureReports | observability/drift_check.py:232-241 | the divergence is within half a millionth of the sum, over the bins both have, of the two halves against the midpoint |
| DriftLaws.SameSharesNoDrift | observability/drift_check.py:130-266 | histograms with the same shares have index 0, NO_DRIFT, divergence 0 and no drifted feature |
| DriftLaws.DisjointIsMajor | observability/drift_check.py:130-190 | histograms that share no bin are MAJOR |
| DriftLaws.RoundsTo | observability/drift_check.py:180-180 | the rounded value is the nearest millionth, ties to even |
| DriftLaws.DriftedNamesConcat | observability/drift_check.py:303-303 | the drifted names of two lists of results are those of the first followed by those of the second |
| RateLimiting.Limiter.CheckLimit | api/rate_limit.py:71-155 | the live count goes up by one, or starts at one with a fresh expiry, no other key changes, and the request is admitted exactly if the new count is at most the limit of its role, or the default for a role without one; without a working Redis it fails open or closed as configured |
| RateLimiting.AtMostTwiceTheLimit | api/rate_limit.py:107-155 | however requests interleave, no interval of at most one window admits more than twice the limit |
| RateLimiting.CallersAreLimited | api/rate_limit.py:58-155 | a caller is admitted at most twice the limit of its role in any interval of at most one window, and at most that limit in one lifetime of its key |
| RateLimiting.TwiceTheLimitIsReached | api/rate_limit.py:107-155 | for every limit and window some run admits exactly twice the limit within one window |
| RateLimiting.BudgetCoversRun | api/rate_limit.py:107-155 | the admissions of a run never exceed the budget of the state it starts in |
| RateLimiting.OneExpiryPerLifetime | api/rate_limit.py:113-118 | every lifetime of the key sees exactly one EXPIRE attempt, or none if its creating request never learns that it read 1 or is abandoned |
| RateLimiting.LimitPerLifetime | api/rate_limit.py:107-155 | one lifetime of the key admits at most the limit, however long it lasts |
| RateLimiting.LostExpiryBlocksForEver | api/rate_limit.py:113-155 | exactly when a run leaves a key that never dies, and that then at most the rest of one limit is ever admitted |
| RateLimiting.LostWhen | api/rate_limit.py:113-118 | one step loses the key if and only if the pending EXPIRE fails, the creating request is abandoned before it, or the answer to a creating INCR is lost |
| RateLimiting.OneErrorLosesTheKey | api/rate_limit.py:113-118 | one request is enough: its EXPIRE fails, it is abandoned, or its INCR is sent twice |
| LoginGuard.RunKeepsInvariant | api/dependencies.py:60-95 | count plus requests past the check never exceeds threshold - 1 + concurrency, in any run |
| LoginGuard.FailuresAreBounded | api/dependencies.py:34-95 | an interval shorter than the window without a success records at most threshold + concurrency - 1 failures |
| LoginGuard.BoundIsReached | api/dependencies.py:60-95 | that bound is reached for every threshold, window and concurrency |
| Auth.RunSimulates | api/redis_denylist.py:132-211 | from simulating states the expiring and the permanent denylist give the same replies and simulating states, for every run |
| Auth.ExpiringDenylistIsEnough | api/routers/auth.py:90-169 | every reply of every run is the same as with a denylist that never forgets |
| Auth.RunKeepsLinear | api/routers/auth.py:99-149 | in every run each login's family has at most one unspent refresh token, and revocations and issued tokens are never lost |
| Auth.OneAcceptablePerFamily | api/routers/auth.py:99-149 | at every moment at most one refresh token descended from a login would be exchanged |
| Auth.ExchangedAtMostOnce | api/routers/auth.py:99-149 | every refresh token is exchanged at most once in every sequential run |
| Auth.LoggedOutOnlyPassesInAnOutage | api/dependencies.py:147-203 | after logout a token passes if and only if it is unexpired, its user enabled and the denylist cannot be consulted |
| Auth.KindsAreSeparate | api/dependencies.py:147-156 | no token passes both as a refresh token and as an access token |
| Auth.DisabledStaysOut | src/users/repository.py:284-311 | once disabled a user is never let in again by login, refresh, access or logout |
| Auth.RefreshFailsInternallyWhen | api/routers/auth.py:104-133 | refresh ends in an unhandled error if and only if a genuine refresh token meets a denylist that does not answer, or would be exchanged and its revocation is not confirmed or would last less than a second |
| Auth.LogoutFailsInternallyWhen | api/routers/auth.py:152-168 | logout does if and only if a genuine access token of an enabled user, not known to be revoked, meets a denylist that does not confirm its revocation, or one of less than a second |
| Auth.OutageAfterLogin | api/redis_denylist.py:132-211 | after any login of any run both endpoints fail so with the tokens just issued, as soon as Redis is down or takes no writes |
| Auth.LostConfirmationEndsTheSession | api/routers/auth.py:116-135 | after an exchange whose revocation was done but not confirmed no refresh token of that login is acceptable ever again |
| AuthLaws.LoginReplies | api/dependencies.py:48-112 | turned away exactly if Redis answers and the key of the address stands at the threshold; otherwise tokens exactly for the right password of an enabled user |
| AuthLaws.FailureIsCounted | api/dependencies.py:34-45 | a failed login raises the count of its address by one and renews its expiry to a whole window, if Redis applies writes, and changes nothing else; one that is turned away changes nothing |
| AuthLaws.LoginLetsIn | api/routers/auth.py:48-87 | a login that succeeds removes that key and no other, issues one access and one refresh token in a new family, and may upgrade the hash of that user |
| AuthLaws.GuessingIsLimited | api/dependencies.py:48-95 | after any history, in an interval shorter than the window without a success from the address, at most threshold logins from it are answered BadCredentials, and once they are, every further one is turned away |
| AuthLaws.GuessingMeetsTheLimit | api/dependencies.py:48-95 | of n wrong guesses from a fresh address exactly the first threshold are answered BadCredentials and the rest turned away |
| AuthLaws.RefreshReplies | api/routers/auth.py:90-149 | every reply of the refresh endpoint with its exact condition on token, denylist, user and writes |
| AuthLaws.ExchangeReplaces | api/routers/auth.py:116-149 | an exchange denies the old token for a whole refresh lifetime and issues one pair in its family; any other reply issues nothing and changes nothing but for an unconfirmed denial |
| AuthLaws.AccessReplies | api/dependencies.py:147-203 | every reply to an access token with its exact condition; access changes nothing |
| AuthLaws.LogoutDenies | api/routers/auth.py:152-169 | a token that passes is denied for a whole access lifetime if the write is done, with Done exactly if it is confirmed; one that does not pass is answered as by access |
| AuthLaws.DisablingIsForGood | src/users/repository.py:303-311 | disabling marks that user only, and nothing in any later run lets the user in |
| AuthApi.RedisDenylist.Revoke | api/redis_denylist.py:132-174 | succeeds exactly for a time to live of at least a second and a write that is confirmed; the key lives that long if the write was done, confirmed or not |
| AuthApi.RedisDenylist.IsRevoked | api/redis_denylist.py:176-211 | answers exactly when Redis does, and then says whether the key is alive |
| AuthApi.InMemoryUserRepository.UpdatePasswordHash | src/users/repository.py:272-282 | changes hash and algorithm of that user's record only |
| AuthApi.InMemoryUserRepository.Authenticate | src/users/repository.py:284-301 | who gets in, and which record is upgraded on the way |
| AuthApi.InMemoryUserRepository.DisableUser | src/users/repository.py:303-311 | disables that record only and says whether it was there |
| AuthApi.Endpoints.Decode | src/auth/tokens.py:83-106 | unknown, expired or genuine, with the claims it was issued with |
| AuthApi.Endpoints.IssueTokens | src/auth/tokens.py:46-80 | one access and one refresh token with their own lifetimes |
| AuthApi.Endpoints.TooManyFailures | api/dependencies.py:60-83 | blocked exactly if Redis answers with a count that has reached the threshold |
| AuthApi.Endpoints.RecordLoginFailure | api/dependencies.py:34-45 | increment and expiry together, or nothing in an outage |
| AuthApi.Endpoints.Login | api/routers/auth.py:48-87 | the objects move as the login step does; what that step counts, removes and answers is FailureIsCounted, LoginLetsIn and LoginReplies |
| AuthApi.Endpoints.RefreshToken | api/routers/auth.py:90-149 | the objects move as the refresh step does, each refusal with its own reply |
| AuthApi.Endpoints.GetCurrentUser | api/dependencies.py:147-203 | the decision of the access step; changes nothing |
| AuthApi.Endpoints.Logout | api/routers/auth.py:152-169 | the objects move as the logout step does |
| AuthApi.StartUp | api/lifespan.py:93-98 | the API comes up exactly if Redis answers, and then with the denylist connected to it |
| AuthApi.ShutDown | api/lifespan.py:131-135 | from then on the denylist is down and nothing else has changed |
| ModelRegistry.TableStepIsSound | src/repositories/model_version_repository.py:67-110 | every operation's statements keep at most one ACTIVE row and the bootstrapped version |
| ModelRegistry.NeverTwoActiveRows | src/services/model_registry_service.py:310-352 | no table reached from an empty one has two ACTIVE rows and no request of any run meets two, whatever the model reports from one request to the next |
| ModelRegistry.RunKeepsOneActive | src/services/model_registry_service.py:310-352 | the same from any table with at most one ACTIVE row that is empty or holds the bootstrapped version |
| ModelRegistry.StepsAgree | src/services/model_registry_service.py:356-404 | after an operation cache and table agree if and only if it did not activate a named version over the empty one |
| ModelRegistry.EmptyVersionDisagrees | src/services/model_registry_service.py:215-256 | registering and activating the empty version, then the bootstrapped one, leaves two active records in the cache and one active row |
| ModelRegistry.HydrationIsMirror | src/services/model_registry_service.py:278-354 | a cache rebuilt from the table is the long-lived one |
| ModelRegistry.ServingIsMirrored | src/services/model_registry_service.py:278-425 | one request over a rebuilt cache answers as the long-lived service and stays in step with it, committed or rolled back |
| ModelRegistry.NamedVersionsNeverSkip | src/services/model_registry_service.py:215-256 | without an empty version string the exception cannot arise in any run |
| ModelRegistry.RequestsActAsOneService | src/platform/database.py:107-126 | from an empty table, with the model reporting the same throughout, any sequence of requests with commits and rollbacks replies as one long-lived in-memory service and ends in its state |
| ModelRegistry.SeededRequestsActAsOneService | src/services/model_registry_service.py:122-157 | on a seeded table the same holds while what the model reports about its loading changes between requests |
| ModelRegistryLaws.RegisterAdds | src/services/model_registry_service.py:356-379 | a known version is refused; a new one is an INACTIVE row with its file and metrics, and every other row is kept |
| ModelRegistryLaws.ActivatePromotes | src/services/model_registry_service.py:381-395 | refused exactly for an unknown version or a file that is not on disk; otherwise its row is ACTIVE as of now, the previous active row INACTIVE and named in the reply, and every other row kept |
| ModelRegistryLaws.QuarantineMarks | src/services/model_registry_service.py:397-404 | the row is QUARANTINED with file, activation time and metrics kept, and every other row kept; an unknown version is refused |
| ModelRegistryLaws.ReadsTell | src/services/model_registry_service.py:406-425 | a read answers with the row of the version, or with the one ACTIVE row, and changes nothing but the bootstrapped row it may add |
| ModelRegistryLaws.QuarantineHolds | src/services/model_registry_service.py:258-272 | after a committed quarantine, in whatever history, no read of any later run names the version as active until it is activated again |
| ModelRegistryLaws.ActivationHolds | src/services/model_registry_service.py:381-396 | after a committed activation every read of the active version names it, until another activation or a quarantine commits |
| ModelRegistryService.VersionRepository.UpdateStatus | src/repositories/model_version_repository.py:67-83 | changes that row only; the activation time only with ACTIVE |
| ModelRegistryService.VersionRepository.FindActive | src/repositories/model_version_repository.py:104-110 | fails exactly on two or more ACTIVE rows, otherwise finds the one there is |
| ModelRegistryService.Service.constructor | src/services/model_registry_service.py:122-157 | the bootstrapped catalogue |
| ModelRegistryService.Service.RegisterVersion | src/services/model_registry_service.py:190-213 | the new catalogue and reply |
| ModelRegistryService.Service.ActivateVersion | src/services/model_registry_service.py:215-256 | the new catalogue and reply, with the previous active record demoted in place |
| ModelRegistryService.Service.QuarantineVersion | src/services/model_registry_service.py:258-272 | the catalogue and reply of the quarantine step, with the active pointer cleared if it pointed here; what it does to the rows is QuarantineMarks |
| ModelRegistryService.CreateDbBacked | src/services/model_registry_service.py:278-354 | the table seeded if needed, and a cache equal to its rows with the active pointer at the ACTIVE row; fails exactly on two ACTIVE rows |
| ModelRegistryService.Hydrate | src/services/model_registry_service.py:318-345 | loading the rows in any order gives the same cache |
| ModelRegistryService.Dispatch | src/services/model_registry_service.py:356-425 | cache first, then the statements, as the serving step; reads answer from the rows. What each request leaves there is RegisterAdds, ActivatePromotes and QuarantineMarks |
| ModelRegistryService.Database.Handle | src/platform/database.py:107-126 | one request's session over the committed table is the serving step: committed on success, rolled back on an exception |
| ModelLoader.VerifyArtifactHash | ml_models/incident_anomaly/registry.py:92-138 | which digest is expected, from manifest and pinned constant, and that reading by chunks accepts exactly if the whole file has it or none is expected |
| ModelLoader.ThreadStepKeepsSound | ml_models/incident_anomaly/registry.py:149-170 | one step of any thread keeps the invariant of all threads |
| ModelLoader.StepKeepsSound | ml_models/incident_anomaly/registry.py:149-170 | so does every action, and a model once there stays |
| ModelLoader.LockingIsCorrect | ml_models/incident_anomaly/registry.py:149-170 | for every interleaving: critical sections exclude each other, every stored model was verified in the same critical section, no null is returned, and lazy loading stores at most once |
| ModelLoader.LoadedAtMostOnce | ml_models/incident_anomaly/registry.py:160-170 | without explicit loads the artifact is deserialised successfully at most once |
| ModelLoader.EnsureLoadedReturns | ml_models/incident_anomaly/registry.py:160-170 | undisturbed, with a model: returned without the lock and without the disk |
| ModelLoader.EnsureLoadedLoads | ml_models/incident_anomaly/registry.py:160-170 | undisturbed, without one: verified, stored, returned under the lock; on either failure it raises, the lock is free and there is no model |
| ModelLoader.LoadAlone | ml_models/incident_anomaly/registry.py:149-158 | an explicit load replaces the model if the file verifies and loads, and otherwise raises and keeps it |
| Jwk.FitsExactly | src/auth/key_store.py:384-388 | the length formula is exactly enough octets, the first of them not zero |
| Jwk.NoShorter | src/auth/key_store.py:384-388 | no shorter octet string has that value |
| Jwk.OctetsRoundTrip | src/auth/key_store.py:384-388 | base64 grouping and its inverse, for every octet string |
| Jwk.TextRoundTrip | src/auth/jwt_rs256.py:219-223 | the text of every sextet string reads back and holds no padding |
| Jwk.StripIsText | src/auth/jwt_rs256.py:219-223 | stripping removes the padding and nothing else |
| Jwk.FieldsAreBase64UrlUInt | src/auth/jwt_rs256.py:219-223 | for every positive integer both files write the same text, the unpadded base64url of the fewest octets with that value |
| Jwk.OnlyZeroIsEmpty | src/auth/key_store.py:384-388 | the text is empty exactly for zero |
| JwkLaws.TextIsTheNumber | src/auth/jwt_rs256.py:219-223 | the sextets are the octets' number to the base 64, after two or four zero bits that fill up the last group |
| JwkLaws.AlphabetIs | src/auth/jwt_rs256.py:219-223 | A-Z, a-z, 0-9, hyphen, underscore |
| JwkLaws.OctetsAreDigits | src/auth/jwt_rs256.py:219-223 | octets are digits to the base 256, most significant first |
| JwkLaws.BitsAre | src/auth/key_store.py:384-388 | the bit length k of n is the one with 2^(k-1) <= n < 2^k |
| KeyRotation.Create | src/auth/key_store.py:422-441 | succeeds exactly for a non-empty list without repeated ids, and then the index is exactly that list; otherwise names a repeated id |
| KeyRotation.IndexOf | src/auth/key_store.py:435-435 | the index holds each key under its id and nothing else |
| KeyRotation.RotationStore.SignToken | src/auth/key_store.py:535-551 | fails exactly without a private current key; the token carries its id, RS256, its signature and the expiry, and is accepted by this store exactly until then |
| KeyRotation.RotationStore.VerifyToken | src/auth/key_store.py:553-607 | every result with its exact condition: malformed header, algorithm, unknown kid, signature, expiry, or the token; it accepts exactly unexpired RS256 tokens signed by the pair held under their kid, or by the current pair if they have none |
| KeyRotation.AcceptsIsHeld | src/auth/key_store.py:584-607 | any pool accepts exactly the unexpired RS256 tokens signed by a pair it holds under their kid, or without a kid by the current pair |
| KeyRotation.AcceptedByAnyPoolThatHoldsTheKey | src/auth/key_store.py:584-607 | a token signed by the current key of one pool is accepted by any other, until it expires, if and only if that holds the key, private or public |
| KeyRotation.MissingBeyondHorizon | src/auth/key_store.py:473-484 | in a finite environment all large indices are missing |
| KeyRotation.Scan | src/auth/key_store.py:473-505 | the scan ends at the first gap with the current key followed by what loads below it, in order |
| KeyRotation.FromEnv | src/auth/key_store.py:448-505 | on every finite environment: the pool of the contiguous prefix, or the error for a current key that is unset or malformed or for repeated ids |
| KeyRotation.UnsetMakesGap | src/auth/key_store.py:473-484 | unsetting index i makes the first gap the smaller of i and the old one, and leaves the keys before it as they were |
| KeyRotation.HeldBeforeTheGap | src/auth/key_store.py:473-505 | a loadable key at index j, found nowhere else, is in the pool if and only if j lies before the first gap |
| KeyRotation.UnsettingDropsTheRest | src/auth/key_store.py:448-505 | between the pools loaded from an environment and from the same without index i: tokens signed by the key at index j stay accepted, until they expire, if and only if j < i; unsetting index 1 leaves the current key |
| KeyRotationLaws.IndexYields | src/auth/key_store.py:473-503 | what one numbered index yields, by the names of its variables: the private PEM first, the id beside it or the fingerprint, nothing if it does not load; missing exactly without both PEMs |
| KeyRotationLaws.CurrentKeyYields | src/auth/key_store.py:219-226 | the current key of the two named variables, or the error for one that is unset or malformed |
| KeyRotationLaws.PoolInOrder | src/auth/key_store.py:469-505 | the current key stands first and a key at a lower index before one at a higher index |
| KeyRotationLaws.StripTrims | src/auth/key_store.py:475-477 | trimming takes away the blanks at both ends and nothing else |
| KeyRotationLaws.IndicesReadBack | src/auth/key_store.py:475-477 | an index is written in decimal digits without leading zeros |
| Etl.Transform | pipelines/etl_template.py:254-335 | the rows that validate, transformed, in order; all others are counted as skipped |
| Etl.TransformedConcat | pipelines/etl_template.py:279-335 | transforming a concatenation is concatenating the transforms |
| Etl.PersonalFieldsAreHashed | pipelines/etl_template.py:308-311 | any field listed as personal leaves as a hash, unless it was empty |
| Etl.OwnerIsHashed | pipelines/etl_template.py:308-331 | an accepted row carries its payload's owner hashed as many times as the field is listed, once under the default list, and without a description of its own is described by the hashed fields left over |
| Etl.FirstOccurrenceWins | pipelines/etl_template.py:407-440 | what was there stays, and of new rows with one id the first wins |
| Etl.InsertAllConcat | pipelines/etl_template.py:415-440 | inserting batch after batch is inserting everything |
| Etl.InsertAllTwice | pipelines/etl_template.py:415-440 | inserting the same rows again changes nothing |
| Etl.InsertedSize | pipelines/etl_template.py:415-441 | the table grows by the number of rows if and only if their ids are new to it and to one another |
| Etl.InsertBatches | pipelines/etl_template.py:413-441 | batch by batch the rows are inserted if absent, whatever the batch size; it fails exactly if a batch does or the transaction is spoiled |
| Etl.Warehouse.Load | pipelines/etl_template.py:376-466 | the state it leaves, for every batch size and every failure of look-up, batch, recording or commit; exactly when it raises, and when the returned count is the number inserted; raising changes nothing unless the commit was done |
| Etl.LoadTwiceIsLoadOnce | pipelines/etl_template.py:339-466 | after any failure a load without one ends where a single load without one would have, with a run table or without |
| Etl.SplitLoadsAgree | pipelines/etl_template.py:376-466 | when two half loads equal one whole load |
| Etl.RowsArriveWhen | pipelines/etl_template.py:339-452 | exactly when the rows of a load that was not skipped are all there afterwards, ignored failures included |
| Etl.NegativeBatchSizeLosesTheRun | pipelines/etl_template.py:415-452 | after a load with a negative batch size no later load of the same rows changes the table, unless its look-up fails |
| Etl.SecondRunAddsNothingWhen | pipelines/etl_template.py:86-94 | transforming and loading the same extract again, later and with other spare ids, adds nothing if and only if no accepted row without an id is drawn a new one |
| EtlLaws.RowAcceptedWhen | pipelines/etl_template.py:279-294 | accepted exactly with its four fields, one of the five event types, a dict payload and a timestamp that parses; otherwise the error of the first that fails |
| EtlLaws.RowBecomes | pipelines/etl_template.py:306-333 | every column of an accepted row with its default: id, title, status, category, description and times |
| EtlLaws.SeverityBecomes | pipelines/etl_template.py:296-304 | the payload's severity with the four aliases replaced in either case, or that of the event type |
| EtlLaws.LoadRaisesWhen | pipelines/etl_template.py:376-466 | exactly which loads raise, the failing batch being one whose offset is a multiple of the batch size within the rows |
| EtlLaws.LoadLeaves | pipelines/etl_template.py:376-466 | exactly which loads are done, and of those that are: old rows kept, new ids added, the first row of each id, and the run recorded unless that fails |
| Timestamps.StampOrder | src/validation/schema_checks.py:218-229 | string order of timestamps is field order, then suffix order |
| Timestamps.SecondsOrder | src/validation/schema_checks.py:218-229 | field order is order in time, over the whole calendar |
| Timestamps.StringOrderIsTimeOrderWhen | src/validation/schema_checks.py:68-70 | string order is chronological order if and only if the suffixes are the same |
| Timestamps.UtcChecksAreReal | src/validation/schema_checks.py:218-229 | on UTC timestamps the check finds exactly the times before creation |
| Timestamps.CheckOrdering | src/validation/schema_checks.py:218-229 | on timestamps with the same suffix an error is reported exactly for a time before the creation; absent and empty fields give none |
| Timestamps.BatchPolicyIsStricter | src/validation/schema_checks.py:56-62 | exactly which of the domain's steps the batch validator accepts |
| TimestampLaws.BatchPolicyIs | src/validation/schema_checks.py:56-62 | the five accepted steps and no others, whatever the names |
| TimestampLaws.LocalReads | src/validation/schema_checks.py:67-70 | the text is YYYY-MM-DDTHH:MM:SS and its digits are the fields |
| TimestampLaws.ZonesShift | src/validation/schema_checks.py:67-70 | a time ahead of UTC is the instant that much earlier in UTC, one behind it that much later |
| TimestampLaws.YearsCount | src/validation/schema_checks.py:218-229 | days before a year in closed form, by multiples of 4, 100 and 400 |
| TimestampLaws.MidnightIsNext | src/validation/schema_checks.py:218-229 | midnight is one second after 23:59:59, at the end of a month and of a year too |

## Left out

- HTTP plumbing, middleware, logging, metrics other than the active gauge, tracing, alerts, DAGs, the demo, the site and reports: thin wrappers and I/O.
- RSA, HMAC, argon2, SHA-256, UUID and PEM internals: a signature verifies exactly with the pair that made it, a jti is the serial number of its issue, a forged token is a jti that was never issued, and hashes and parsers are functions.
- GDPR routes, the Postgres user repository and the stub-user login path: the in-memory repository is modelled.
- Interleaved database transactions and interleaved refreshes of one token: one request is one step there; only the two Redis counters and the model loader are interleaved.
- Redis losing its data, and clocks of Redis and API that differ: they share one clock.
- Floating-point rounding in the drift arithmetic: real numbers, with the rounding to six places modelled.
- Incidents.AuditLogTellsEveryLife: rows that the ETL pipeline inserts into the same table have no audit log and may carry ids that are not UUIDs; they are outside the incident system modelled here, as cursors too.
- Histograms with negative entries: the source does not check for them, and the histogram type excludes them.
- IsolationForest scoring, Great Expectations and the DAG's own PSI: libraries or duplicates.
- `registered_at` and the order of listings in the registry: the bootstrapped record gets a new time per request. CANARY and SHADOW are never set by the code modelled. The registry service's own thread lock and a change of MODEL_VERSION are not modelled.
- ModelLoader.LockingIsCorrect: the artifact does not change between its hash check and its deserialisation; `loaded_at` is not modelled.
- Pagination.ListOpen: the prefixes, braces and misplaced hyphens that `uuid.UUID` tolerates are hyphens only here.
- Pagination.WalkShowsEachOnce: limits from 1 to 1000, the rest being LimitsOutsideTheCap; for a walk filtered by severity only incidents whose severity nobody edits. Negative limits are not modelled.
- Incidents.TransitionsInTimeOrder: rows with equal times keep the order of the log, which SQL leaves open.
- Incidents.GaugeLedger: the sum over severities; a single severity's gauge is not exact, since metadata edits move severity without it.
- RateLimiting.AtMostTwiceTheLimit: no Redis errors reported to a request, or errors that block; windows of at least a second. The dependency that reads `sub` from the current user, which does not carry it, is replaced by an explicit username.
- LoginGuard.FailuresAreBounded: windows of at least a second and a Redis that answers the look-up before the password check; without an answer every attempt passes it.
- Auth.LoggedOutOnlyPassesInAnOutage: with an in-memory set of users that is always consulted; tokens signed with other keys are tokens that were never issued.
- KeyRotationLaws.StripTrims: white space beyond ASCII.
- KeyRotation.UnsettingDropsTheRest: literal `\n` escapes and other details of PEM text are part of the loader functions.
- Timestamps.StringOrderIsTimeOrderWhen: digits are ASCII and the text ends at the suffix, where the regular expression also admits other digits and a final newline.
- The other checks of `validate_incident_record`, the feature batch and the batch loop: field lookups.
- Etl.Transform: payload values are text, the clock is read once per run, and a row's fresh id is given with it. Extraction is I/O.
- Etl.SplitLoadsAgree: loads without faults; and a run id that is any function of the rows, fresh for the three loads compared.
