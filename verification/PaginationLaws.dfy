/** What the incident list answers, told by the rows of the table and of the page alone. */
module PaginationLaws {
  import opened Wrappers
  import opened Ordering
  import opened Lifecycle
  import opened Incidents
  import opened Pagination

  // --- cursors ---

  lemma {:induction false} HyphensDropped(s: string)
    ensures |WithoutHyphens(s)| + multiset(s)['-'] == |s|
    ensures forall c :: c in WithoutHyphens(s) <==> c in s && c != '-'
  {
    if s == "" {
    } else {
      HyphensDropped(s[1..]);
      assert s == [s[0]] + s[1..];
      assert multiset(s) == multiset{s[0]} + multiset(s[1..]);
    }
  }

  /** A cursor is well formed exactly if it has 32 hex digits and, wherever they stand, hyphens besides. */
  lemma {:induction false} CursorsAre(s: string)
    ensures ParsesAsUuid(s) <==>
            |s| == 32 + multiset(s)['-']
            && forall c :: c in s ==> c == '-' || '0' <= c <= '9' || 'a' <= c <= 'f' || 'A' <= c <= 'F'
  {
    HyphensDropped(s);
  }

  // --- one page ---

  /** The query lists rows of the table that are not CLOSED, have the severity asked for and stand strictly below the
      cursor's row by (created_at, id), newest first; it leaves such a row out only below a page of min(limit, 1000)
      rows. */
  lemma {:induction false} QueryLists(rows: map<string, Row>, severity: Option<Severity>, limit: nat,
                                      beforeId: Option<string>)
    requires Keyed(rows)
    ensures var r := Query(rows, severity, limit, beforeId);
            if beforeId.Some? && beforeId.value !in rows then r == Failure(CursorNotFound)
            else
              && r.Success?
              && |r.value| <= limit && |r.value| <= 1000
              && (forall i, j :: 0 <= i < j < |r.value| ==>
                    r.value[j].createdAt < r.value[i].createdAt
                    || (r.value[j].createdAt == r.value[i].createdAt && LexLess(r.value[j].id, r.value[i].id)))
              && (forall row :: row in r.value ==>
                    && row.id in rows && rows[row.id] == row
                    && row.status != CLOSED
                    && (severity.Some? ==> row.severity == severity.value)
                    && (beforeId.Some? ==>
                          var last := rows[beforeId.value];
                          row.createdAt < last.createdAt
                          || (row.createdAt == last.createdAt && LexLess(row.id, last.id))))
              && (forall id ::
                    && id in rows && rows[id] !in r.value
                    && rows[id].status != CLOSED
                    && (severity.Some? ==> rows[id].severity == severity.value)
                    && (beforeId.Some? ==>
                          var last := rows[beforeId.value];
                          rows[id].createdAt < last.createdAt
                          || (rows[id].createdAt == last.createdAt && LexLess(id, last.id)))
                    ==>
                    && (|r.value| == limit || |r.value| == 1000)
                    && forall above :: above in r.value ==>
                         rows[id].createdAt < above.createdAt
                         || (rows[id].createdAt == above.createdAt && LexLess(id, above.id)))
  {
    if beforeId.Some? && beforeId.value !in rows {
    } else {
      QueryIsTheTop(rows, severity, limit, beforeId);
      MissingIsBelow(rows, severity, limit, beforeId);
    }
  }

  lemma {:induction false} MissingIsBelow(rows: map<string, Row>, severity: Option<Severity>, limit: nat,
                                          beforeId: Option<string>)
    requires Keyed(rows) && (beforeId.Some? ==> beforeId.value in rows)
    ensures var page := Query(rows, severity, limit, beforeId).value;
            forall id :: id in Eligible(rows, severity, CursorRow(rows, beforeId)) && rows[id] !in page ==>
              (|page| == limit || |page| == 1000) && AllAbove(page, rows[id])
  {
    QueryIsTheTop(rows, severity, limit, beforeId);
  }

  /** The router's errors are these three and no others; otherwise it shows the page of the query and, exactly if that
      has as many rows as were asked for, the id of its last row as the next cursor. */
  lemma {:induction false} RouterAnswers(rows: map<string, Row>, severity: Option<Severity>, limit: nat,
                                         beforeId: Option<string>)
    requires Keyed(rows)
    ensures var r, q := ListIncidents(rows, severity, limit, beforeId), Query(rows, severity, limit, beforeId);
            if beforeId.Some? && !ParsesAsUuid(beforeId.value) then r == Failure(BadRequest(MalformedCursor))
            else if beforeId.Some? && beforeId.value !in rows then r == Failure(BadRequest(CursorNotFound))
            else if limit == 0 then r == Failure(ServerError)
            else
              && r.Success? && q == Success(r.value.incidents)
              && (r.value.nextCursor.Some? <==> |r.value.incidents| == limit)
              && (r.value.nextCursor.Some? ==>
                    r.value.nextCursor.value == r.value.incidents[|r.value.incidents| - 1].id)
  {
    QueryLists(rows, severity, limit, beforeId);
  }

  // --- the walk ---

  // A page of the walk and the system it was read from.
  datatype Shot = Shot(world: World, page: seq<Row>)

  ghost function Shots(w: World, severity: Option<Severity>, limit: nat, cursor: Option<string>,
                       interludes: seq<seq<Call>>)
    : seq<Shot>
    requires Keyed(w.rows)
    decreases |interludes|
  {
    match ListIncidents(w.rows, severity, limit, cursor)
    case Failure(_) => []
    case Success(page) =>
      if page.nextCursor.None? || interludes == [] then [Shot(w, page.incidents)]
      else
        RunKeepsKeyed(w, interludes[0]);
        [Shot(w, page.incidents)]
        + Shots(Run(w, interludes[0]), severity, limit, page.nextCursor, interludes[1..])
  }

  function WorldAt(w: World, interludes: seq<seq<Call>>, k: nat): World
    requires k <= |interludes|
    decreases k
  {
    if k == 0 then w else WorldAt(Run(w, interludes[0]), interludes[1..], k - 1)
  }

  ghost function AllIds(shots: seq<Shot>): seq<string> {
    if shots == [] then [] else Ids(shots[0].page) + AllIds(shots[1..])
  }

  // Nothing shown was closed, of another severity or out of date when it was shown.
  ghost predicate Truthful(shot: Shot, severity: Option<Severity>) {
    forall row :: row in shot.page ==>
      && row.id in shot.world.rows && shot.world.rows[row.id] == row
      && row.status != CLOSED
      && (severity.Some? ==> row.severity == severity.value)
  }

  lemma {:induction false} PageIsTruthful(w: World, severity: Option<Severity>, limit: nat, cursor: Option<string>)
    requires Keyed(w.rows) && ListIncidents(w.rows, severity, limit, cursor).Success?
    ensures Truthful(Shot(w, ListIncidents(w.rows, severity, limit, cursor).value.incidents), severity)
  {
    RouterAnswers(w.rows, severity, limit, cursor);
    QueryLists(w.rows, severity, limit, cursor);
  }

  /** Page k of a walk shows what the table holds after the first k interludes, and of that only incidents that are not
      CLOSED then and have the severity asked for; the walk has seen the ids of its pages one after the other. */
  lemma {:induction false} WalkIsTruthful(w: World, severity: Option<Severity>, limit: nat, cursor: Option<string>,
                                          interludes: seq<seq<Call>>, shots: seq<Shot>)
    requires Keyed(w.rows) && shots == Shots(w, severity, limit, cursor, interludes)
    ensures AllIds(shots) == Follow(w, severity, limit, cursor, interludes).seen
    ensures |shots| <= |interludes| + 1
    ensures forall k :: 0 <= k < |shots| ==>
              shots[k].world == WorldAt(w, interludes, k) && Truthful(shots[k], severity)
    decreases |interludes|
  {
    var r := ListIncidents(w.rows, severity, limit, cursor);
    if r.Failure? {
    } else {
      PageIsTruthful(w, severity, limit, cursor);
      if r.value.nextCursor.None? || interludes == [] {
        WalkStops(w, severity, limit, cursor, interludes, r.value);
        assert AllIds(shots) == Ids(r.value.incidents) + AllIds([]);
      } else {
        RunKeepsKeyed(w, interludes[0]);
        var w', next := Run(w, interludes[0]), r.value.nextCursor;
        var rest := Shots(w', severity, limit, next, interludes[1..]);
        WalkIsTruthful(w', severity, limit, next, interludes[1..], rest);
        WalkGoesOn(w, severity, limit, cursor, interludes, r.value,
                   Follow(w', severity, limit, next, interludes[1..]));
        assert shots == [Shot(w, r.value.incidents)] + rest;
        assert shots[1..] == rest;
        forall k | 0 < k < |shots|
          ensures shots[k].world == WorldAt(w, interludes, k) && Truthful(shots[k], severity)
        {
          assert shots[k] == rest[k - 1];
        }
      }
    }
  }
}
