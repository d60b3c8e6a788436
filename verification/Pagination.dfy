/** Keyset pagination: the repository's query, the service's and the router's wrapping of it, and a client's walk
    over a table that other requests change between the pages. */
module Pagination {
  import opened Wrappers
  import opened Ordering
  import opened Lifecycle
  import opened Incidents

  const PAGE_CAP := 1000

  // ORDER BY created_at, id: the compound key.
  predicate Below(a: Row, b: Row) {
    a.createdAt < b.createdAt || (a.createdAt == b.createdAt && LexLess(a.id, b.id))
  }

  // No severity means any: list_open and list_by_severity differ in this filter alone.
  predicate Listed(row: Row, severity: Option<Severity>, cursor: Option<Row>) {
    && row.status != CLOSED
    && (severity.Some? ==> row.severity == severity.value)
    && (cursor.Some? ==> Below(row, cursor.value))
  }

  function Eligible(rows: map<string, Row>, severity: Option<Severity>, cursor: Option<Row>): set<string> {
    set id | id in rows && Listed(rows[id], severity, cursor)
  }

  ghost predicate Keyed(rows: map<string, Row>) {
    forall id :: id in rows ==> rows[id].id == id && IsUuid(id)
  }

  predicate IsTop(rows: map<string, Row>, ids: set<string>, id: string)
    requires ids <= rows.Keys
  {
    id in ids && forall other :: other in ids && other != id ==> Below(rows[other], rows[id])
  }

  ghost function Pick(ids: set<string>): (x: string)
    requires ids != {}
    ensures x in ids
  {
    var x :| x in ids;
    x
  }

  // The greatest key.
  ghost function Top(rows: map<string, Row>, ids: set<string>): (top: string)
    requires ids <= rows.Keys && ids != {}
    ensures top in ids
    decreases ids
  {
    var x := Pick(ids);
    if ids == {x} then x
    else
      var y := Top(rows, ids - {x});
      if Below(rows[x], rows[y]) then y else x
  }

  lemma {:induction false} TopIsTop(rows: map<string, Row>, ids: set<string>)
    requires Keyed(rows) && ids <= rows.Keys && ids != {}
    ensures IsTop(rows, ids, Top(rows, ids))
    decreases ids
  {
    var x := Pick(ids);
    if ids == {x} {
    } else {
      var y := Top(rows, ids - {x});
      TopIsTop(rows, ids - {x});
      LexTrichotomy(x, y);
      if Below(rows[x], rows[y]) {
      } else {
        forall other | other in ids && other != x
          ensures Below(rows[other], rows[x])
        {
          if other != y {
            BelowTransitive(rows[other], rows[y], rows[x]);
          }
        }
      }
    }
  }

  lemma {:induction false} BelowTransitive(a: Row, b: Row, c: Row)
    requires Below(a, b) && Below(b, c)
    ensures Below(a, c)
  {
    if a.createdAt == b.createdAt == c.createdAt {
      LexTransitive(a.id, b.id, c.id);
    }
  }

  // ORDER BY created_at DESC, id DESC LIMIT n over the eligible rows.
  ghost function TopRows(rows: map<string, Row>, ids: set<string>, n: nat): (page: seq<Row>)
    requires Keyed(rows) && ids <= rows.Keys
    ensures |page| <= n
    decreases ids
  {
    if n == 0 || ids == {} then []
    else
      var top := Top(rows, ids);
      [rows[top]] + TopRows(rows, ids - {top}, n - 1)
  }

  ghost predicate Descending(page: seq<Row>) {
    forall i, j :: 0 <= i < j < |page| ==> Below(page[j], page[i])
  }

  function Ids(page: seq<Row>): (ids: seq<string>)
    ensures |ids| == |page|
    ensures forall i :: 0 <= i < |page| ==> ids[i] == page[i].id
  {
    seq(|page|, i requires 0 <= i < |page| => page[i].id)
  }

  // What a page of at most n rows is, without saying how it is found: in descending order, eligible throughout, and
  // whatever is left out is below all of it and left out only because the page is full.
  ghost predicate TopSlice(rows: map<string, Row>, ids: set<string>, page: seq<Row>, n: nat)
    requires ids <= rows.Keys
  {
    && Descending(page)
    && (forall row :: row in page ==> row.id in ids && rows[row.id] == row)
    && (forall id :: id in ids && rows[id] !in page ==> |page| == n && AllAbove(page, rows[id]))
    && |page| == if |ids| < n then |ids| else n
  }

  ghost predicate AllAbove(page: seq<Row>, row: Row) {
    forall above :: above in page ==> Below(row, above)
  }

  /** The ordered, limited query returns exactly such a page. */
  lemma {:induction false} PageIsTheTop(rows: map<string, Row>, ids: set<string>, n: nat)
    requires Keyed(rows) && ids <= rows.Keys
    ensures TopSlice(rows, ids, TopRows(rows, ids, n), n)
    decreases ids
  {
    if n == 0 || ids == {} {
    } else {
      var top := Top(rows, ids);
      TopIsTop(rows, ids);
      PageIsTheTop(rows, ids - {top}, n - 1);
      TopSliceCons(rows, ids, top, TopRows(rows, ids - {top}, n - 1), n);
    }
  }

  lemma {:induction false} TopSliceCons(rows: map<string, Row>, ids: set<string>, top: string, rest: seq<Row>, n: nat)
    requires Keyed(rows) && ids <= rows.Keys && n > 0
    requires IsTop(rows, ids, top) && TopSlice(rows, ids - {top}, rest, n - 1)
    ensures TopSlice(rows, ids, [rows[top]] + rest, n)
  {
    var page := [rows[top]] + rest;
    forall i, j | 0 <= i < j < |page|
      ensures Below(page[j], page[i])
    {
      assert page[j] == rest[j - 1] && rest[j - 1] in rest;
    }
    forall id | id in ids && rows[id] !in page
      ensures |page| == n && AllAbove(page, rows[id])
    {
      assert rows[top] in page;
      assert id in ids - {top} && rows[id] !in rest;
    }
  }

  datatype ListError = MalformedCursor | CursorNotFound

  function Capped(limit: nat): nat {
    if limit < PAGE_CAP then limit else PAGE_CAP
  }

  function CursorRow(rows: map<string, Row>, cursor: Option<string>): Option<Row>
    requires cursor.Some? ==> cursor.value in rows
  {
    if cursor.Some? then Some(rows[cursor.value]) else None
  }

  // IncidentRepository.list_open and list_by_severity.
  ghost function Query(rows: map<string, Row>, severity: Option<Severity>, limit: nat, beforeId: Option<string>)
    : (r: Result<seq<Row>, ListError>)
    requires Keyed(rows)
    ensures r.Failure? <==> beforeId.Some? && beforeId.value !in rows
  {
    if beforeId.Some? && beforeId.value !in rows then
      Failure(CursorNotFound)
    else
      Success(TopRows(rows, Eligible(rows, severity, CursorRow(rows, beforeId)), Capped(limit)))
  }

  /** For every filter, limit and cursor row, open or closed: the page of the query is the top slice, at most 1000
      long, of the open rows with that severity below the cursor. */
  lemma {:induction false} QueryIsTheTop(rows: map<string, Row>, severity: Option<Severity>, limit: nat,
                                         beforeId: Option<string>)
    requires Keyed(rows) && (beforeId.Some? ==> beforeId.value in rows)
    ensures Query(rows, severity, limit, beforeId).Success?
    ensures TopSlice(rows, Eligible(rows, severity, CursorRow(rows, beforeId)),
                     Query(rows, severity, limit, beforeId).value, Capped(limit))
  {
    PageIsTheTop(rows, Eligible(rows, severity, CursorRow(rows, beforeId)), Capped(limit));
  }

  function WithoutHyphens(s: string): string {
    if s == "" then "" else (if s[0] == '-' then "" else [s[0]]) + WithoutHyphens(s[1..])
  }

  // uuid.UUID(s): hyphens are ignored and 32 hex digits must remain.
  predicate ParsesAsUuid(s: string) {
    |WithoutHyphens(s)| == 32 && Hex(WithoutHyphens(s))
  }

  predicate Hex(s: string) {
    forall c :: c in s ==> HexDigit(c)
  }

  lemma {:induction false} HexStays(a: string, t: string)
    requires Hex(a)
    ensures WithoutHyphens(a + t) == a + WithoutHyphens(t)
  {
    if a == "" {
      assert a + t == t;
    } else {
      assert a[0] in a;
      assert (a + t)[1..] == a[1..] + t;
      HexStays(a[1..], t);
    }
  }

  lemma {:induction false} CutHyphen(a: string, t: string)
    requires Hex(a)
    ensures WithoutHyphens(a + ("-" + t)) == a + WithoutHyphens(t)
  {
    HexStays(a, "-" + t);
    assert ("-" + t)[1..] == t;
  }

  lemma {:induction false} HexGroup(s: string, i: nat, j: nat)
    requires IsUuid(s) && (i, j) in {(0, 8), (9, 13), (14, 18), (19, 23), (24, 36)}
    ensures Hex(s[i..j])
  {
    forall c | c in s[i..j]
      ensures HexDigit(c)
    {
      var k :| 0 <= k < j - i && s[i..j][k] == c;
      assert s[i + k] == c;
    }
  }

  lemma {:induction false} FiveGroups(a: string, b: string, c: string, d: string, e: string)
    requires Hex(a) && Hex(b) && Hex(c) && Hex(d) && Hex(e)
    ensures WithoutHyphens(a + ("-" + (b + ("-" + (c + ("-" + (d + ("-" + e)))))))) == a + (b + (c + (d + e)))
  {
    HexStays(e, "");
    assert e + "" == e;
    CutHyphen(d, e);
    CutHyphen(c, d + ("-" + e));
    CutHyphen(b, c + ("-" + (d + ("-" + e))));
    CutHyphen(a, b + ("-" + (c + ("-" + (d + ("-" + e))))));
  }

  lemma {:induction false} UuidParses(s: string)
    requires IsUuid(s)
    ensures ParsesAsUuid(s)
  {
    var a, b, c, d, e := s[0..8], s[9..13], s[14..18], s[19..23], s[24..36];
    HexGroup(s, 0, 8);
    HexGroup(s, 9, 13);
    HexGroup(s, 14, 18);
    HexGroup(s, 19, 23);
    HexGroup(s, 24, 36);
    FiveGroups(a, b, c, d, e);
    assert s == a + ("-" + (b + ("-" + (c + ("-" + (d + ("-" + e)))))));
  }

  // IncidentService.list_open, with the severity filter of the repository beside it.
  ghost function ListOpen(rows: map<string, Row>, severity: Option<Severity>, limit: nat, beforeId: Option<string>)
    : Result<seq<Row>, ListError>
    requires Keyed(rows)
  {
    if beforeId.Some? && !ParsesAsUuid(beforeId.value) then Failure(MalformedCursor)
    else Query(rows, severity, limit, beforeId)
  }

  datatype Page = Page(incidents: seq<Row>, nextCursor: Option<string>)

  datatype HttpError = BadRequest(cause: ListError) | ServerError

  // The router. A limit of 0 asks for the last incident of an empty page.
  ghost function ListIncidents(rows: map<string, Row>, severity: Option<Severity>, limit: nat, beforeId: Option<string>)
    : Result<Page, HttpError>
    requires Keyed(rows)
  {
    match ListOpen(rows, severity, limit, beforeId)
    case Failure(e) => Failure(BadRequest(e))
    case Success(page) =>
      if |page| != limit then Success(Page(page, None))
      else if page == [] then Failure(ServerError)
      else Success(Page(page, Some(page[|page| - 1].id)))
  }

  // --- a client's walk ---

  datatype Walk = Walk(seen: seq<string>, finished: bool, world: World)

  // Follow next_cursor; interludes[k] is what other requests do between page k and page k + 1.
  ghost function Follow(w: World, severity: Option<Severity>, limit: nat, cursor: Option<string>,
                        interludes: seq<seq<Call>>)
    : Walk
    requires Keyed(w.rows)
    decreases |interludes|
  {
    match ListIncidents(w.rows, severity, limit, cursor)
    case Failure(_) => Walk([], false, w)
    case Success(page) =>
      if page.nextCursor.None? then Walk(Ids(page.incidents), true, w)
      else if interludes == [] then Walk(Ids(page.incidents), false, w)
      else
        RunKeepsKeyed(w, interludes[0]);
        var rest := Follow(Run(w, interludes[0]), severity, limit, page.nextCursor, interludes[1..]);
        Walk(Ids(page.incidents) + rest.seen, rest.finished, rest.world)
  }

  lemma {:induction false} RunKeepsKeyed(w: World, calls: seq<Call>)
    requires Keyed(w.rows)
    ensures Keyed(Run(w, calls).rows)
    decreases calls
  {
    if calls == [] {
    } else {
      ServeKeepsKeyed(w, calls[0]);
      RunKeepsKeyed(Serve(w, calls[0]).0, calls[1..]);
    }
  }

  lemma {:induction false} ServeKeepsKeyed(w: World, c: Call)
    requires Keyed(w.rows)
    ensures Keyed(Serve(w, c).0.rows)
  {
    assert Keyed(Step(w, c.request).0.rows);
  }

  predicate LeavesSeverity(c: Call, id: string) {
    c.request.UpdateMetadata? && c.request.target == id ==> c.request.severityText.None?
  }

  // No request of the walk gives the incident another severity.
  ghost predicate SeverityUntouched(id: string, interludes: seq<seq<Call>>) {
    forall k, j :: 0 <= k < |interludes| && 0 <= j < |interludes[k]| ==> LeavesSeverity(interludes[k][j], id)
  }

  lemma {:induction false} RunKeepsSeverity(w: World, calls: seq<Call>, id: string)
    requires id in w.rows
    requires forall j :: 0 <= j < |calls| ==> LeavesSeverity(calls[j], id)
    ensures id in Run(w, calls).rows && Run(w, calls).rows[id].severity == w.rows[id].severity
    decreases calls
  {
    if calls == [] {
    } else {
      ServeOnlyAdvances(w, calls[0]);
      var w' := Serve(w, calls[0]).0;
      assert w'.rows[id].severity == w.rows[id].severity;
      RunKeepsSeverity(w', calls[1..], id);
    }
  }

  // Everything shown is in the table, in descending order of key, and below the cursor the walk started from.
  ghost predicate InOrder(rows: map<string, Row>, seen: seq<string>, cursor: Option<string>) {
    && (forall i :: 0 <= i < |seen| ==> seen[i] in rows)
    && (forall i, j :: 0 <= i < j < |seen| ==> Below(rows[seen[j]], rows[seen[i]]))
    && (cursor.Some? ==> cursor.value in rows
                         && forall i :: 0 <= i < |seen| ==> Below(rows[seen[i]], rows[cursor.value]))
  }

  ghost predicate SameKeys(before: map<string, Row>, after: map<string, Row>) {
    forall id :: id in before ==> id in after && after[id].id == before[id].id
                                  && after[id].createdAt == before[id].createdAt
  }

  // What lies below the cursor and is neither shown nor closed lies below the last one shown.
  ghost predicate Covers(rows: map<string, Row>, ids: set<string>, seen: seq<string>, more: bool)
    requires ids <= rows.Keys && forall id :: id in seen ==> id in rows
  {
    forall id :: id in ids && id !in seen ==> more && seen != [] && Below(rows[id], rows[seen[|seen| - 1]])
  }

  lemma {:induction false} SliceCovers(rows: map<string, Row>, ids: set<string>, page: seq<Row>, n: nat)
    requires Keyed(rows) && ids <= rows.Keys && n > 0 && TopSlice(rows, ids, page, n)
    ensures forall i :: 0 <= i < |page| ==> Ids(page)[i] in ids && rows[Ids(page)[i]] == page[i]
    ensures Covers(rows, ids, Ids(page), |page| == n)
  {
    var seen := Ids(page);
    assert forall i :: 0 <= i < |page| ==> page[i] in page;
    forall id | id in ids && id !in seen
      ensures |page| == n && Below(rows[id], rows[seen[|seen| - 1]])
    {
      assert AllAbove(page, rows[id]);
    }
  }

  // What one page contributes: a top slice of what lies below the cursor.
  lemma {:induction false} OnePage(w: World, severity: Option<Severity>, limit: nat, cursor: Option<string>)
    requires Keyed(w.rows) && 1 <= limit <= PAGE_CAP
    requires cursor.Some? ==> cursor.value in w.rows
    ensures ListIncidents(w.rows, severity, limit, cursor).Success?
    ensures var page := ListIncidents(w.rows, severity, limit, cursor).value;
            var seen := Ids(page.incidents);
            && InOrder(w.rows, seen, cursor)
            && (page.nextCursor.Some? ==> seen != [] && page.nextCursor.value == seen[|seen| - 1])
            && Covers(w.rows, Eligible(w.rows, severity, CursorRow(w.rows, cursor)), seen, page.nextCursor.Some?)
  {
    RouterPage(w.rows, severity, limit, cursor);
    PageBelowCursor(w.rows, severity, limit, cursor);
  }

  lemma {:induction false} PageBelowCursor(rows: map<string, Row>, severity: Option<Severity>, limit: nat,
                                           cursor: Option<string>)
    requires Keyed(rows) && limit > 0
    requires cursor.Some? ==> cursor.value in rows
    ensures var ids := Eligible(rows, severity, CursorRow(rows, cursor));
            var seen := Ids(TopRows(rows, ids, limit));
            (forall i :: 0 <= i < |seen| ==> seen[i] in rows)
            && InOrder(rows, seen, cursor) && Covers(rows, ids, seen, |seen| == limit)
  {
    var ids := Eligible(rows, severity, CursorRow(rows, cursor));
    var page := TopRows(rows, ids, limit);
    PageIsTheTop(rows, ids, limit);
    SliceCovers(rows, ids, page, limit);
    SliceInOrder(rows, severity, cursor, page, limit);
  }

  // The page the router shows, for every limit.
  ghost function Shown(rows: map<string, Row>, severity: Option<Severity>, limit: nat, cursor: Option<string>): seq<Row>
    requires Keyed(rows) && (cursor.Some? ==> cursor.value in rows)
  {
    TopRows(rows, Eligible(rows, severity, CursorRow(rows, cursor)), Capped(limit))
  }

  lemma {:induction false} QueryBelowCursor(rows: map<string, Row>, severity: Option<Severity>, limit: nat,
                                            cursor: Option<string>)
    requires Keyed(rows) && (cursor.Some? ==> cursor.value in rows)
    ensures ListOpen(rows, severity, limit, cursor) == Success(Shown(rows, severity, limit, cursor))
  {
    if cursor.Some? {
      UuidParses(cursor.value);
    }
  }

  lemma {:induction false} RouterPage(rows: map<string, Row>, severity: Option<Severity>, limit: nat,
                                      cursor: Option<string>)
    requires Keyed(rows) && 1 <= limit <= PAGE_CAP
    requires cursor.Some? ==> cursor.value in rows
    ensures var page := Shown(rows, severity, limit, cursor);
            ListIncidents(rows, severity, limit, cursor)
            == Success(Page(page, if |page| == limit then Some(page[limit - 1].id) else None))
  {
    QueryBelowCursor(rows, severity, limit, cursor);
  }

  lemma {:induction false} SliceInOrder(rows: map<string, Row>, severity: Option<Severity>, cursor: Option<string>,
                                        page: seq<Row>, n: nat)
    requires Keyed(rows) && (cursor.Some? ==> cursor.value in rows)
    requires TopSlice(rows, Eligible(rows, severity, CursorRow(rows, cursor)), page, n)
    ensures InOrder(rows, Ids(page), cursor)
  {
    assert forall i :: 0 <= i < |page| ==> page[i] in page;
  }

  lemma {:induction false} InOrderKept(before: map<string, Row>, after: map<string, Row>, seen: seq<string>,
                                       cursor: Option<string>)
    requires InOrder(before, seen, cursor) && SameKeys(before, after)
    ensures InOrder(after, seen, cursor)
  {
  }

  lemma {:induction false} InOrderJoined(rows: map<string, Row>, first: seq<string>, rest: seq<string>,
                                         cursor: Option<string>)
    requires InOrder(rows, first, cursor) && first != []
    requires InOrder(rows, rest, Some(first[|first| - 1]))
    ensures InOrder(rows, first + rest, cursor)
  {
    var all, last := first + rest, first[|first| - 1];
    forall i, j | 0 <= i < j < |all|
      ensures Below(rows[all[j]], rows[all[i]])
    {
      if i < |first| - 1 && |first| <= j {
        BelowTransitive(rows[all[j]], rows[last], rows[all[i]]);
      }
    }
    if cursor.Some? {
      forall i | |first| <= i < |all|
        ensures Below(rows[all[i]], rows[cursor.value])
      {
        BelowTransitive(rows[all[i]], rows[last], rows[cursor.value]);
      }
    }
  }

  lemma {:induction false} RunKeepsKeys(w: World, calls: seq<Call>)
    ensures SameKeys(w.rows, Run(w, calls).rows)
  {
    LifeOnlyAdvances(w, calls);
  }

  // One page and the rest of the walk, over the tables before it, between the two and at the end.
  lemma {:induction false} WalkContinues(before: map<string, Row>, between: map<string, Row>, after: map<string, Row>,
                      first: seq<string>, rest: seq<string>, cursor: Option<string>)
    requires SameKeys(before, between) && SameKeys(between, after)
    requires InOrder(before, first, cursor) && first != [] && InOrder(after, rest, Some(first[|first| - 1]))
    ensures SameKeys(before, after) && InOrder(after, first + rest, cursor)
  {
    assert SameKeys(before, after);
    InOrderKept(before, after, first, cursor);
    InOrderJoined(after, first, rest, cursor);
  }

  predicate SameKey(before: Row, after: Row) {
    after.id == before.id && after.createdAt == before.createdAt
  }

  lemma {:induction false} RunKeepsRow(w: World, calls: seq<Call>, id: string)
    requires id in w.rows
    ensures id in Run(w, calls).rows && SameKey(w.rows[id], Run(w, calls).rows[id])
    ensures w.rows[id].status == CLOSED ==> Run(w, calls).rows[id].status == CLOSED
  {
    LifeOnlyAdvances(w, calls);
    assert Later(w.rows[id], Run(w, calls).rows[id]);
  }

  // What the next page is asked for: its table is keyed and holds the cursor.
  lemma {:induction false} NextPage(w: World, calls: seq<Call>, cursor: string)
    requires Keyed(w.rows) && cursor in w.rows
    ensures Keyed(Run(w, calls).rows) && cursor in Run(w, calls).rows
  {
    RunKeepsKeyed(w, calls);
    RunKeepsRow(w, calls, cursor);
  }

  // The last page asked for, and a page with more to follow.
  lemma {:induction false} WalkStops(w: World, severity: Option<Severity>, limit: nat, cursor: Option<string>,
                                     interludes: seq<seq<Call>>, page: Page)
    requires Keyed(w.rows) && ListIncidents(w.rows, severity, limit, cursor) == Success(page)
    requires page.nextCursor.None? || interludes == []
    ensures Follow(w, severity, limit, cursor, interludes) == Walk(Ids(page.incidents), page.nextCursor.None?, w)
  {
  }

  lemma {:induction false} WalkGoesOn(w: World, severity: Option<Severity>, limit: nat, cursor: Option<string>,
                                      interludes: seq<seq<Call>>, page: Page, rest: Walk)
    requires Keyed(w.rows) && ListIncidents(w.rows, severity, limit, cursor) == Success(page)
    requires page.nextCursor.Some? && interludes != [] && Keyed(Run(w, interludes[0]).rows)
    requires rest == Follow(Run(w, interludes[0]), severity, limit, page.nextCursor, interludes[1..])
    ensures Follow(w, severity, limit, cursor, interludes)
         == Walk(Ids(page.incidents) + rest.seen, rest.finished, rest.world)
  {
  }

  lemma {:induction false} WalkInOrder(w: World, severity: Option<Severity>, limit: nat, cursor: Option<string>,
                                       interludes: seq<seq<Call>>, walk: Walk)
    requires Keyed(w.rows) && 1 <= limit <= PAGE_CAP
    requires cursor.Some? ==> cursor.value in w.rows
    requires walk == Follow(w, severity, limit, cursor, interludes)
    ensures SameKeys(w.rows, walk.world.rows) && InOrder(walk.world.rows, walk.seen, cursor)
    decreases |interludes|
  {
    OnePage(w, severity, limit, cursor);
    var page := ListIncidents(w.rows, severity, limit, cursor).value;
    if page.nextCursor.None? || interludes == [] {
      WalkStops(w, severity, limit, cursor, interludes, page);
    } else {
      var w' := Run(w, interludes[0]);
      NextPage(w, interludes[0], page.nextCursor.value);
      RunKeepsKeys(w, interludes[0]);
      var rest := Follow(w', severity, limit, page.nextCursor, interludes[1..]);
      WalkInOrder(w', severity, limit, page.nextCursor, interludes[1..], rest);
      WalkContinues(w.rows, w'.rows, rest.world.rows, Ids(page.incidents), rest.seen, cursor);
      WalkGoesOn(w, severity, limit, cursor, interludes, page, rest);
    }
  }

  lemma {:induction false} BelowByKey(a: Row, b: Row, a': Row, b': Row)
    requires SameKey(a, a') && SameKey(b, b')
    ensures Below(a, b) <==> Below(a', b')
  {
  }

  // The incident has the severity asked for, and keeps it.
  ghost predicate Wanted(w: World, severity: Option<Severity>, id: string, interludes: seq<seq<Call>>)
    requires id in w.rows
  {
    severity.Some? ==> w.rows[id].severity == severity.value && SeverityUntouched(id, interludes)
  }

  lemma {:induction false} WantedStays(w: World, severity: Option<Severity>, id: string, interludes: seq<seq<Call>>)
    requires id in w.rows && interludes != [] && Wanted(w, severity, id, interludes)
    ensures id in Run(w, interludes[0]).rows && Wanted(Run(w, interludes[0]), severity, id, interludes[1..])
  {
    LifeOnlyAdvances(w, interludes[0]);
    if severity.Some? {
      RunKeepsSeverity(w, interludes[0], id);
    }
  }

  // One page shows the incident, or leaves it below its cursor, unless it is closed.
  lemma {:induction false} PageShowsOrLeavesBelow(w: World, severity: Option<Severity>, limit: nat,
                                                  cursor: Option<string>, id: string)
    requires Keyed(w.rows) && 1 <= limit <= PAGE_CAP
    requires cursor.Some? ==> cursor.value in w.rows
    requires id in w.rows && (cursor.Some? ==> Below(w.rows[id], w.rows[cursor.value]))
    requires severity.Some? ==> w.rows[id].severity == severity.value
    ensures ListIncidents(w.rows, severity, limit, cursor).Success?
    ensures var page := ListIncidents(w.rows, severity, limit, cursor).value;
            && (page.nextCursor.Some? ==> page.nextCursor.value in w.rows)
            && (w.rows[id].status == CLOSED || id in Ids(page.incidents)
                || (page.nextCursor.Some? && Below(w.rows[id], w.rows[page.nextCursor.value])))
  {
    OnePage(w, severity, limit, cursor);
  }

  lemma {:induction false} WalkMissesNothing(w: World, severity: Option<Severity>, limit: nat, cursor: Option<string>,
                                             interludes: seq<seq<Call>>, id: string)
    requires Keyed(w.rows) && 1 <= limit <= PAGE_CAP
    requires cursor.Some? ==> cursor.value in w.rows
    requires id in w.rows && (cursor.Some? ==> Below(w.rows[id], w.rows[cursor.value]))
    requires Wanted(w, severity, id, interludes)
    ensures var walk := Follow(w, severity, limit, cursor, interludes);
            id in walk.world.rows
            && (w.rows[id].status == CLOSED ==> walk.world.rows[id].status == CLOSED)
            && (walk.finished && walk.world.rows[id].status != CLOSED ==> id in walk.seen)
    decreases |interludes|
  {
    PageShowsOrLeavesBelow(w, severity, limit, cursor, id);
    var page := ListIncidents(w.rows, severity, limit, cursor).value;
    if page.nextCursor.None? || interludes == [] {
    } else {
      var w', last := Run(w, interludes[0]), page.nextCursor.value;
      RunKeepsKeyed(w, interludes[0]);
      RunKeepsRow(w, interludes[0], id);
      RunKeepsRow(w, interludes[0], last);
      if Below(w.rows[id], w.rows[last]) {
        WantedStays(w, severity, id, interludes);
        BelowByKey(w.rows[id], w.rows[last], w'.rows[id], w'.rows[last]);
        WalkMissesNothing(w', severity, limit, page.nextCursor, interludes[1..], id);
      } else {
        WalkTerminalStatus(w', severity, limit, page.nextCursor, interludes[1..], id);
      }
    }
  }

  lemma {:induction false} WalkTerminalStatus(w: World, severity: Option<Severity>, limit: nat, cursor: Option<string>,
                                              interludes: seq<seq<Call>>, id: string)
    requires Keyed(w.rows) && id in w.rows
    ensures var walk := Follow(w, severity, limit, cursor, interludes);
            id in walk.world.rows && (w.rows[id].status == CLOSED ==> walk.world.rows[id].status == CLOSED)
    decreases |interludes|
  {
    var r := ListIncidents(w.rows, severity, limit, cursor);
    if r.Failure? || r.value.nextCursor.None? || interludes == [] {
    } else {
      RunKeepsKeyed(w, interludes[0]);
      RunKeepsRow(w, interludes[0], id);
      WalkTerminalStatus(Run(w, interludes[0]), severity, limit, r.value.nextCursor, interludes[1..], id);
    }
  }

  /** The pagination law, while any requests run between the pages: no incident is shown twice, and once the walk has
      ended every incident that was there at the first page and is still not CLOSED has been shown (for a walk filtered
      by severity: if it had that severity and nobody edited it). */
  lemma {:induction false} WalkShowsEachOnce(w: World, severity: Option<Severity>, limit: nat,
                                             interludes: seq<seq<Call>>)
    requires Keyed(w.rows) && 1 <= limit <= PAGE_CAP
    ensures var walk := Follow(w, severity, limit, None, interludes);
            && (forall i, j :: 0 <= i < j < |walk.seen| ==> walk.seen[i] != walk.seen[j])
            && (forall id :: id in w.rows ==> id in walk.world.rows)
            && (walk.finished ==>
                  forall id :: id in w.rows && walk.world.rows[id].status != CLOSED
                    && (severity.Some? ==> w.rows[id].severity == severity.value && SeverityUntouched(id, interludes))
                    ==> id in walk.seen)
  {
    var walk := Follow(w, severity, limit, None, interludes);
    WalkInOrder(w, severity, limit, None, interludes, walk);
    forall i, j | 0 <= i < j < |walk.seen|
      ensures walk.seen[i] != walk.seen[j]
    {
      var row := walk.world.rows[walk.seen[i]];
      LexTrichotomy(row.id, row.id);
    }
    forall id | id in w.rows && walk.finished && walk.world.rows[id].status != CLOSED
                && (severity.Some? ==> w.rows[id].severity == severity.value && SeverityUntouched(id, interludes))
      ensures id in walk.seen
    {
      WalkMissesNothing(w, severity, limit, None, interludes, id);
    }
  }

  // --- the walk ends ---

  // The rows of so many full pages.
  function Total(limit: nat, pages: nat): nat {
    if pages == 0 then 0 else limit + Total(limit, pages - 1)
  }

  lemma {:induction false} TotalIsProduct(limit: nat, pages: nat)
    ensures Total(limit, pages) == limit * pages
  {
    if pages == 0 {
    } else {
      TotalIsProduct(limit, pages - 1);
    }
  }

  lemma {:induction false} FullPage(w: World, severity: Option<Severity>, limit: nat, cursor: Option<string>)
    requires Keyed(w.rows) && 1 <= limit <= PAGE_CAP
    requires cursor.Some? ==> cursor.value in w.rows
    ensures var page := ListIncidents(w.rows, severity, limit, cursor);
            page.Success? && (page.value.nextCursor.Some? ==>
                                |page.value.incidents| == limit && page.value.nextCursor.value in w.rows)
  {
    OnePage(w, severity, limit, cursor);
    RouterPage(w.rows, severity, limit, cursor);
  }

  // A walk that has not ended has shown so many full pages.
  ghost predicate Full(walk: Walk, limit: nat, pages: nat) {
    !walk.finished ==> |walk.seen| == Total(limit, pages)
  }

  lemma {:induction false} PageMore(first: seq<string>, rest: Walk, limit: nat, pages: nat)
    requires |first| == limit && Full(rest, limit, pages)
    ensures Full(Walk(first + rest.seen, rest.finished, rest.world), limit, pages + 1)
  {
  }

  lemma {:induction false} PageEnds(seen: seq<string>, finished: bool, w: World, limit: nat, pages: nat)
    requires finished || (|seen| == limit && pages == 0)
    ensures Full(Walk(seen, finished, w), limit, pages + 1)
  {
    assert Total(limit, 1) == limit + Total(limit, 0);
  }

  lemma {:induction false} UnfinishedWalkIsFull(w: World, severity: Option<Severity>, limit: nat,
                                                cursor: Option<string>, interludes: seq<seq<Call>>, walk: Walk)
    requires Keyed(w.rows) && 1 <= limit <= PAGE_CAP
    requires cursor.Some? ==> cursor.value in w.rows
    requires walk == Follow(w, severity, limit, cursor, interludes)
    ensures Full(walk, limit, |interludes| + 1)
    decreases |interludes|
  {
    FullPage(w, severity, limit, cursor);
    var page := ListIncidents(w.rows, severity, limit, cursor).value;
    if page.nextCursor.None? || interludes == [] {
      WalkStops(w, severity, limit, cursor, interludes, page);
      PageEnds(Ids(page.incidents), page.nextCursor.None?, w, limit, |interludes|);
    } else {
      NextPage(w, interludes[0], page.nextCursor.value);
      var rest := Follow(Run(w, interludes[0]), severity, limit, page.nextCursor, interludes[1..]);
      UnfinishedWalkIsFull(Run(w, interludes[0]), severity, limit, page.nextCursor, interludes[1..], rest);
      WalkGoesOn(w, severity, limit, cursor, interludes, page, rest);
      PageMore(Ids(page.incidents), rest, limit, |interludes|);
    }
  }

  lemma {:induction false} DistinctFit(seen: seq<string>, keys: set<string>)
    requires forall i :: 0 <= i < |seen| ==> seen[i] in keys
    requires forall i, j :: 0 <= i < j < |seen| ==> seen[i] != seen[j]
    ensures |seen| <= |keys|
  {
    if seen == [] {
    } else {
      var init, last := seen[..|seen| - 1], seen[|seen| - 1];
      DistinctFit(init, keys - {last});
    }
  }

  /** A walk that has asked for enough pages has ended: after k + 1 pages it is finished, or it has shown limit * (k +
      1) different incidents, which is impossible once that is more than the table holds. */
  lemma {:induction false} WalkEnds(w: World, severity: Option<Severity>, limit: nat, interludes: seq<seq<Call>>)
    requires Keyed(w.rows) && 1 <= limit <= PAGE_CAP
    ensures var walk := Follow(w, severity, limit, None, interludes);
            && (!walk.finished ==> |walk.seen| == limit * (|interludes| + 1) <= |walk.world.rows|)
            && (limit * (|interludes| + 1) > |walk.world.rows| ==> walk.finished)
  {
    var walk := Follow(w, severity, limit, None, interludes);
    UnfinishedWalkIsFull(w, severity, limit, None, interludes, walk);
    TotalIsProduct(limit, |interludes| + 1);
    WalkInOrder(w, severity, limit, None, interludes, walk);
    WalkShowsEachOnce(w, severity, limit, interludes);
    DistinctFit(walk.seen, walk.world.rows.Keys);
  }

  // --- limits outside 1..1000 ---

  /** Outside 1..1000 the router fails its clients on every page of every list: limit 0 always ends in a server error,
      and above 1000 there is never a cursor. */
  lemma {:induction false} LimitsOutsideTheCap(rows: map<string, Row>, severity: Option<Severity>, limit: nat,
                                               cursor: Option<string>)
    requires Keyed(rows) && (cursor.Some? ==> cursor.value in rows)
    ensures limit == 0 ==> ListIncidents(rows, severity, limit, cursor) == Failure(ServerError)
    ensures limit > PAGE_CAP ==>
              ListIncidents(rows, severity, limit, cursor) == Success(Page(Shown(rows, severity, limit, cursor), None))
  {
    QueryBelowCursor(rows, severity, limit, cursor);
    PageIsTheTop(rows, Eligible(rows, severity, CursorRow(rows, cursor)), Capped(limit));
  }

  /** A walk with a limit above 1000 ends with its first page, and it has shown everything on the list if and only if
      the list holds no more than 1000 incidents. */
  lemma {:induction false} LargeLimitIsCompleteWhen(w: World, severity: Option<Severity>, limit: nat,
                                                    cursor: Option<string>, interludes: seq<seq<Call>>)
    requires Keyed(w.rows) && limit > PAGE_CAP && (cursor.Some? ==> cursor.value in w.rows)
    ensures var walk := Follow(w, severity, limit, cursor, interludes);
            var ids := Eligible(w.rows, severity, CursorRow(w.rows, cursor));
            walk.finished && ((forall id :: id in ids ==> id in walk.seen) <==> |ids| <= PAGE_CAP)
  {
    LimitsOutsideTheCap(w.rows, severity, limit, cursor);
    var ids := Eligible(w.rows, severity, CursorRow(w.rows, cursor));
    var page := Shown(w.rows, severity, limit, cursor);
    PageIsTheTop(w.rows, ids, PAGE_CAP);
    SliceCovers(w.rows, ids, page, PAGE_CAP);
    if forall id :: id in ids ==> id in Ids(page) {
      CoveredFit(ids, Ids(page));
    } else if |ids| <= PAGE_CAP {
      SmallListIsWhole(w.rows, ids, page);
    }
  }

  lemma {:induction false} CoveredFit(ids: set<string>, seen: seq<string>)
    requires forall id :: id in ids ==> id in seen
    ensures |ids| <= |seen|
  {
    if seen == [] {
      assert ids == {};
    } else {
      var init, last := seen[..|seen| - 1], seen[|seen| - 1];
      CoveredFit(ids - {last}, init);
      assert last in ids ==> |ids - {last}| == |ids| - 1;
      assert last !in ids ==> ids - {last} == ids;
    }
  }

  lemma {:induction false} SmallListIsWhole(rows: map<string, Row>, ids: set<string>, page: seq<Row>)
    requires Keyed(rows) && ids <= rows.Keys && TopSlice(rows, ids, page, PAGE_CAP) && |ids| <= PAGE_CAP
    ensures forall id :: id in ids ==> id in Ids(page)
  {
    var seen := Ids(page);
    assert forall i :: 0 <= i < |page| ==> page[i] in page;
    if id :| id in ids && id !in seen {
      forall i, j | 0 <= i < j < |seen|
        ensures seen[i] != seen[j]
      {
        LexTrichotomy(seen[i], seen[j]);
      }
      DistinctFit(seen, ids - {id});
    }
  }
}
