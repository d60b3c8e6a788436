/** The ETL pipeline: transformation row by row, and a batched load that inserts what is absent, guarded by run ids and
    done in one transaction. */
module Etl {
  import opened Wrappers

  // --- transform ---

  const VALID_EVENT_TYPES: set<string> :=
    {"model_degradation", "pipeline_failure", "data_quality", "latency_spike", "cost_spike"}

  const DB_COLUMNS: set<string> := {"title", "status", "category", "description"}

  // A payload's values are text; the empty string stands for everything Python counts as false.
  type Fields = map<string, string>

  datatype Payload = NotADict | Dict(fields: Fields)

  // A field that is None is a key the row does not have. `spareId` is the UUID drawn for this row if its id is empty.
  datatype RawRow = RawRow(
    id: Option<string>, timestamp: Option<string>, eventType: Option<string>, payload: Option<Payload>, spareId: string)

  datatype DbRow = DbRow(
    id: string, title: string, severity: string, status: string, category: string, owner: Option<string>,
    description: Option<string>, createdAt: int, updatedAt: int)

  // Hashing, serialisation and timestamp parsing are outside the model, and one reading of the clock serves a run.
  datatype Tools = Tools(
    sha256: string -> string, json: Fields -> string, parseTimestamp: string -> Option<int>,
    titleOf: string -> string, piiFields: seq<string>, now: int)

  datatype SchemaError = MissingFields | InvalidEventType | PayloadNotADict | BadTimestamp

  function ValidateRow(row: RawRow): Option<SchemaError> {
    if row.id.None? || row.timestamp.None? || row.eventType.None? || row.payload.None? then Some(MissingFields)
    else if row.eventType.value !in VALID_EVENT_TYPES then Some(InvalidEventType)
    else if row.payload.value.NotADict? then Some(PayloadNotADict)
    else None
  }

  function SeverityOf(eventType: string): string {
    match eventType
    case "model_degradation" => "SEV-1"
    case "pipeline_failure" => "SEV-2"
    case "latency_spike" => "SEV-2"
    case "data_quality" => "SEV-3"
    case "cost_spike" => "SEV-4"
    case _ => "SEV-3"
  }

  function Lower(s: string): string {
    seq(|s|, i requires 0 <= i < |s| => if 'A' <= s[i] <= 'Z' then 'a' + (s[i] - 'A') else s[i])
  }

  function Alias(severity: string): string {
    match Lower(severity)
    case "critical" => "SEV-1"
    case "high" => "SEV-2"
    case "medium" => "SEV-3"
    case "low" => "SEV-4"
    case _ => severity
  }

  function OrElse(fields: Fields, key: string, default: string): string {
    if key in fields && fields[key] != "" then fields[key] else default
  }

  function HashFields(tools: Tools, fields: Fields, pii: seq<string>): Fields {
    if pii == [] then fields
    else
      var f := pii[0];
      var next := if f in fields && fields[f] != "" then fields[f := tools.sha256(fields[f])] else fields;
      HashFields(tools, next, pii[1..])
  }

  function TransformRow(tools: Tools, row: RawRow): Result<DbRow, SchemaError> {
    var error := ValidateRow(row);
    if error.Some? then Failure(error.value)
    else if tools.parseTimestamp(row.timestamp.value).None? then Failure(BadTimestamp)
    else
      var eventType, payload := row.eventType.value, row.payload.value.fields;
      var severity := Alias(OrElse(payload, "severity", SeverityOf(eventType)));
      var hashed := HashFields(tools, payload, tools.piiFields);
      var leftover := hashed - DB_COLUMNS;
      Success(DbRow(
        if row.id.value != "" then row.id.value else row.spareId,
        OrElse(hashed, "title", tools.titleOf(eventType)),
        severity,
        if "status" in hashed then hashed["status"] else "open",
        OrElse(hashed, "category", eventType),
        if "owner" in leftover then Some(leftover["owner"]) else None,
        if "description" in hashed && hashed["description"] != "" then Some(hashed["description"])
        else if leftover != map[] then Some(tools.json(leftover)) else None,
        tools.parseTimestamp(row.timestamp.value).value,
        tools.now))
  }

  ghost function Transformed(tools: Tools, rows: seq<RawRow>): seq<DbRow> {
    if rows == [] then []
    else
      Transformed(tools, rows[..|rows| - 1])
      + (match TransformRow(tools, rows[|rows| - 1]) case Success(r) => [r] case Failure(_) => [])
  }

  // Rows that do not validate are skipped and counted; the others keep their order.
  method Transform(tools: Tools, rows: seq<RawRow>) returns (validated: seq<DbRow>, skipped: nat)
    ensures validated == Transformed(tools, rows)
    ensures |validated| + skipped == |rows|
  {
    validated, skipped := [], 0;
    for i := 0 to |rows|
      invariant validated == Transformed(tools, rows[..i])
      invariant |validated| + skipped == i
    {
      assert rows[..i + 1][..i] == rows[..i];
      match TransformRow(tools, rows[i]) {
        case Success(r) => validated := validated + [r];
        case Failure(_) => skipped := skipped + 1;
      }
    }
    assert rows[..|rows|] == rows;
  }

  lemma {:induction false} TransformedConcat(tools: Tools, a: seq<RawRow>, b: seq<RawRow>)
    ensures Transformed(tools, a + b) == Transformed(tools, a) + Transformed(tools, b)
  {
    if b == [] {
      assert a + b == a;
    } else {
      assert (a + b)[..|a + b| - 1] == a + b[..|b| - 1];
      TransformedConcat(tools, a, b[..|b| - 1]);
    }
  }

  function Occurrences(pii: seq<string>, f: string): nat {
    if pii == [] then 0 else (if pii[0] == f then 1 else 0) + Occurrences(pii[1..], f)
  }

  // A value hashed n times over; one that is empty is left alone.
  function HashedTimes(tools: Tools, value: string, n: nat): string
    decreases n
  {
    if n == 0 || value == "" then value else HashedTimes(tools, tools.sha256(value), n - 1)
  }

  lemma {:induction false} FieldIsHashed(tools: Tools, fields: Fields, pii: seq<string>, f: string)
    ensures HashFields(tools, fields, pii).Keys == fields.Keys
    ensures f in fields ==> HashFields(tools, fields, pii)[f] == HashedTimes(tools, fields[f], Occurrences(pii, f))
    decreases pii
  {
    if pii == [] {
    } else {
      var g := pii[0];
      var next := if g in fields && fields[g] != "" then fields[g := tools.sha256(fields[g])] else fields;
      FieldIsHashed(tools, next, pii[1..], f);
    }
  }

  /** A row that is accepted carries its owner as a hash: once for each time the field is listed as personal, so the
      hash of the payload's owner under the default list. Without a description of its own it is described by the
      fields left over, hashed in the same way. */
  lemma {:induction false} OwnerIsHashed(tools: Tools, row: RawRow)
    requires TransformRow(tools, row).Success?
    ensures var r, payload := TransformRow(tools, row).value, row.payload.value.fields;
            && (r.owner.Some? <==> "owner" in payload)
            && (r.owner.Some? ==>
                  r.owner.value == HashedTimes(tools, payload["owner"], Occurrences(tools.piiFields, "owner")))
            && (r.owner.Some? && payload["owner"] != "" && tools.piiFields == ["owner"] ==>
                  r.owner.value == tools.sha256(payload["owner"]))
    ensures var r, payload := TransformRow(tools, row).value, row.payload.value.fields;
            var left := HashFields(tools, payload, tools.piiFields) - DB_COLUMNS;
            "description" !in payload || payload["description"] == "" ==>
              r.description == if left == map[] then None else Some(tools.json(left))
  {
    var payload := row.payload.value.fields;
    FieldIsHashed(tools, payload, tools.piiFields, "owner");
    FieldIsHashed(tools, payload, tools.piiFields, "description");
    assert "owner" !in DB_COLUMNS;
    if tools.piiFields == ["owner"] {
      assert ["owner"][1..] == [];
      assert Occurrences(["owner"], "owner") == 1;
    }
  }

  /** Every field: what is left under the name of a personal field is a hash, unless it was empty. */
  lemma {:induction false} PersonalFieldsAreHashed(tools: Tools, fields: Fields, pii: seq<string>, f: string)
    requires f in fields && f in pii && fields[f] != ""
    ensures f in HashFields(tools, fields, pii)
    ensures exists x :: HashFields(tools, fields, pii)[f] == tools.sha256(x)
  {
    FieldIsHashed(tools, fields, pii, f);
    ListedOccurs(pii, f);
    HashedIsHash(tools, fields[f], Occurrences(pii, f));
  }

  lemma {:induction false} ListedOccurs(pii: seq<string>, f: string)
    requires f in pii
    ensures Occurrences(pii, f) > 0
  {
    if pii[0] == f {
    } else {
      ListedOccurs(pii[1..], f);
    }
  }

  lemma {:induction false} HashedIsHash(tools: Tools, value: string, n: nat)
    requires n > 0 && value != ""
    ensures exists x :: HashedTimes(tools, value, n) == tools.sha256(x)
    decreases n
  {
    if n == 1 || tools.sha256(value) == "" {
      assert HashedTimes(tools, value, n) == HashedTimes(tools, tools.sha256(value), n - 1) == tools.sha256(value);
    } else {
      HashedIsHash(tools, tools.sha256(value), n - 1);
    }
  }

  // --- load ---

  type Table = map<string, DbRow>

  // INSERT ... ON CONFLICT (id) DO NOTHING
  function Insert(t: Table, row: DbRow): Table {
    if row.id in t then t else t[row.id := row]
  }

  function InsertAll(t: Table, rows: seq<DbRow>): Table {
    if rows == [] then t else Insert(InsertAll(t, rows[..|rows| - 1]), rows[|rows| - 1])
  }

  lemma {:induction false} InsertAllConcat(t: Table, a: seq<DbRow>, b: seq<DbRow>)
    ensures InsertAll(t, a + b) == InsertAll(InsertAll(t, a), b)
  {
    if b == [] {
      assert a + b == a;
    } else {
      assert (a + b)[..|a + b| - 1] == a + b[..|b| - 1];
      InsertAllConcat(t, a, b[..|b| - 1]);
    }
  }

  ghost predicate HasId(rows: seq<DbRow>, id: string) {
    exists i :: 0 <= i < |rows| && rows[i].id == id
  }

  // The first row with its id.
  ghost predicate First(rows: seq<DbRow>, i: nat) {
    i < |rows| && !HasId(rows[..i], rows[i].id)
  }

  lemma {:induction false} HasIdOfInit(rows: seq<DbRow>, id: string)
    requires rows != []
    ensures HasId(rows, id) <==> HasId(rows[..|rows| - 1], id) || rows[|rows| - 1].id == id
  {
    var init := rows[..|rows| - 1];
    if HasId(init, id) {
      var i :| 0 <= i < |init| && init[i].id == id;
      assert rows[i].id == id;
    }
    if HasId(rows, id) {
      var i :| 0 <= i < |rows| && rows[i].id == id;
      assert i < |init| ==> init[i].id == id;
    }
  }

  lemma {:induction false} InsertedIds(t: Table, rows: seq<DbRow>, id: string)
    ensures id in InsertAll(t, rows) <==> id in t || HasId(rows, id)
    ensures id in t ==> InsertAll(t, rows)[id] == t[id]
  {
    if rows == [] {
    } else {
      HasIdOfInit(rows, id);
      InsertedIds(t, rows[..|rows| - 1], id);
    }
  }

  lemma {:induction false} InsertedFirst(t: Table, rows: seq<DbRow>, i: nat)
    requires First(rows, i) && rows[i].id !in t
    ensures rows[i].id in InsertAll(t, rows) && InsertAll(t, rows)[rows[i].id] == rows[i]
  {
    var init := rows[..|rows| - 1];
    if i < |init| {
      assert init[..i] == rows[..i];
      InsertedFirst(t, init, i);
    } else {
      InsertedIds(t, init, rows[i].id);
    }
  }

  /** Insert-if-absent, said without the fold: what was there stays, and of the rows with a new id the first wins. */
  lemma {:induction false} FirstOccurrenceWins(t: Table, rows: seq<DbRow>)
    ensures forall id :: id in InsertAll(t, rows) <==> id in t || HasId(rows, id)
    ensures forall id :: id in t ==> InsertAll(t, rows)[id] == t[id]
    ensures forall i: nat :: First(rows, i) && rows[i].id !in t ==>
              rows[i].id in InsertAll(t, rows) && InsertAll(t, rows)[rows[i].id] == rows[i]
  {
    forall id {
      InsertedIds(t, rows, id);
    }
    forall i: nat | First(rows, i) && rows[i].id !in t {
      InsertedFirst(t, rows, i);
    }
  }

  lemma {:induction false} NothingNew(t: Table, rows: seq<DbRow>)
    requires forall i :: 0 <= i < |rows| ==> rows[i].id in t
    ensures InsertAll(t, rows) == t
  {
    if rows == [] {
    } else {
      NothingNew(t, rows[..|rows| - 1]);
    }
  }

  lemma {:induction false} InsertAllTwice(t: Table, rows: seq<DbRow>)
    ensures InsertAll(InsertAll(t, rows), rows) == InsertAll(t, rows)
  {
    FirstOccurrenceWins(t, rows);
    NothingNew(InsertAll(t, rows), rows);
  }

  // --- how many rows arrive ---

  ghost predicate AllPresent(t: Table, rows: seq<DbRow>) {
    forall i :: 0 <= i < |rows| ==> rows[i].id in t
  }

  // Nothing to skip: the ids are new to the table and to one another.
  ghost predicate AllNew(t: Table, rows: seq<DbRow>) {
    && (forall i :: 0 <= i < |rows| ==> rows[i].id !in t)
    && (forall i, j :: 0 <= i < j < |rows| ==> rows[i].id != rows[j].id)
  }

  lemma {:induction false} AllNewOfInit(t: Table, rows: seq<DbRow>)
    requires rows != []
    ensures var init, last := rows[..|rows| - 1], rows[|rows| - 1];
            AllNew(t, rows) <==> AllNew(t, init) && last.id !in t && !HasId(init, last.id)
  {
    var init, last := rows[..|rows| - 1], rows[|rows| - 1];
    assert forall i :: 0 <= i < |init| ==> init[i] == rows[i];
    if AllNew(t, init) && last.id !in t && !HasId(init, last.id) {
      forall i, j | 0 <= i < j < |rows|
        ensures rows[i].id != rows[j].id
      {
        assert rows[i] == init[i];
      }
    }
  }

  lemma {:induction false} InsertedSize(t: Table, rows: seq<DbRow>)
    ensures |t| <= |InsertAll(t, rows)| <= |t| + |rows|
    ensures |InsertAll(t, rows)| == |t| + |rows| <==> AllNew(t, rows)
  {
    if rows == [] {
    } else {
      var init, last := rows[..|rows| - 1], rows[|rows| - 1];
      InsertedSize(t, init);
      InsertedIds(t, init, last.id);
      AllNewOfInit(t, rows);
      InsertSize(InsertAll(t, init), last);
    }
  }

  lemma {:induction false} InsertSize(t: Table, row: DbRow)
    ensures |Insert(t, row)| == |t| + if row.id in t then 0 else 1
  {
    if row.id !in t {
      assert Insert(t, row).Keys == t.Keys + {row.id};
    }
  }

  // `runs` is None where the etl_runs table was never created. `aborts`: one failed statement spoils the rest of its
  // transaction, as in PostgreSQL.
  datatype Database = Database(table: Table, runs: Option<set<string>>, aborts: bool)

  datatype CommitFault = CommitWorks | CommitFails | CommitUnseen

  // What goes wrong in one load, for reasons of the database's own: the look-up of the run id, the batch at this
  // offset, the recording of the run, the commit, which may also be done and its answer lost.
  datatype Faults = Faults(lookup: bool, batch: Option<nat>, record: bool, commit: CommitFault)

  const NoFaults := Faults(false, None, false, CommitWorks)

  predicate AlreadyLoaded(db: Database, runId: string) {
    db.runs.Some? && runId in db.runs.value
  }

  // A look-up that fails is ignored: the run counts as new.
  predicate Skipped(db: Database, runId: string, f: Faults) {
    AlreadyLoaded(db, runId) && !f.lookup
  }

  // After it, on a database that aborts, no batch can be inserted.
  predicate Spoiled(db: Database, f: Faults) {
    db.aborts && (db.runs.None? || f.lookup)
  }

  // A recording that fails is ignored too: on a database that aborts the commit that follows is a rollback.
  predicate RolledBack(db: Database, f: Faults) {
    db.aborts && db.runs.Some? && f.record
  }

  // One of the batches from this offset on starts at `bad`.
  predicate Hits(start: nat, rows: nat, batchSize: nat, bad: nat)
    requires batchSize > 0
    decreases rows - start
  {
    start < rows && (start == bad || Hits(start + batchSize, rows, batchSize, bad))
  }

  predicate BatchFails(rows: seq<DbRow>, batchSize: int, f: Faults) {
    batchSize > 0 && f.batch.Some? && Hits(0, |rows|, batchSize, f.batch.value)
  }

  function RecordRun(db: Database, runId: string, f: Faults): Database {
    if db.runs.None? || f.record then db else db.(runs := Some(db.runs.value + {runId}))
  }

  // A load in which nothing keeps the transaction from being committed.
  predicate Goes(db: Database, rows: seq<DbRow>, runId: string, batchSize: int, f: Faults) {
    && rows != [] && !Skipped(db, runId, f) && batchSize != 0
    && !Spoiled(db, f) && !BatchFails(rows, batchSize, f) && !RolledBack(db, f) && f.commit != CommitFails
  }

  // What a load leaves behind. A batch size below zero makes an empty range, and the run is recorded all the same.
  function Loaded(db: Database, rows: seq<DbRow>, runId: string, batchSize: int, f: Faults): Database {
    if !Goes(db, rows, runId, batchSize, f) then db
    else RecordRun(db.(table := if batchSize > 0 then InsertAll(db.table, rows) else db.table), runId, f)
  }

  // A load that raises.
  predicate Raises(db: Database, rows: seq<DbRow>, runId: string, batchSize: int, f: Faults) {
    rows != [] && (
      || f.commit != CommitWorks
      || (!Skipped(db, runId, f)
          && (batchSize == 0 || BatchFails(rows, batchSize, f) || (batchSize > 0 && Spoiled(db, f)))))
  }

  // The batches of one transaction; on an error, how many rows it had taken.
  method InsertBatches(start: Database, rows: seq<DbRow>, batchSize: nat, f: Faults) returns (r: Result<Database, nat>)
    requires batchSize > 0
    ensures r.Failure? <==> rows != [] && (Spoiled(start, f) || BatchFails(rows, batchSize, f))
    ensures r.Failure? ==> r.error == if Spoiled(start, f) then 0 else f.batch.value
    ensures r.Success? ==> r.value == start.(table := InsertAll(start.table, rows))
  {
    var conn, count, batchStart := start, 0, 0;
    assert rows[..0] == [];
    while batchStart < |rows|
      invariant 0 <= batchStart && count == if batchStart < |rows| then batchStart else |rows|
      invariant conn == start.(table := InsertAll(start.table, rows[..count]))
      invariant batchStart > 0 ==> !Spoiled(start, f)
      invariant f.batch.Some? ==>
                  (BatchFails(rows, batchSize, f) <==> Hits(batchStart, |rows|, batchSize, f.batch.value))
    {
      if Spoiled(conn, f) || f.batch == Some(batchStart) {
        return Failure(count);
      }
      var end := if batchStart + batchSize < |rows| then batchStart + batchSize else |rows|;
      var batch := rows[batchStart..end];
      InsertAllConcat(start.table, rows[..count], batch);
      assert rows[..end] == rows[..count] + batch;
      conn := conn.(table := InsertAll(conn.table, batch));
      count := count + |batch|;
      batchStart := batchStart + batchSize;
    }
    assert rows[..count] == rows;
    return Success(conn);
  }

  class Warehouse {
    var db: Database

    /** All batches in one transaction: the rows are inserted if absent, whatever the batch size, or nothing changes;
        a load that raises has changed nothing, unless its commit was done and only the answer lost. A failing batch
        is reported at its offset. The count returned is that of the rows attempted: it is the number of rows that
        arrived exactly if there were none, or they were committed and their ids were new to the table and to one
        another. */
    method Load(rows: seq<DbRow>, runId: string, batchSize: int, f: Faults) returns (inserted: Result<nat, nat>)
      modifies this
      ensures db == Loaded(old(db), rows, runId, batchSize, f)
      ensures inserted.Failure? <==> Raises(old(db), rows, runId, batchSize, f)
      ensures inserted.Failure? && f.commit != CommitUnseen ==> db == old(db)
      ensures rows != [] && batchSize > 0 && !Skipped(old(db), runId, f) ==>
                && (Spoiled(old(db), f) ==> inserted == Failure(0))
                && (!Spoiled(old(db), f) && BatchFails(rows, batchSize, f) ==> inserted == Failure(f.batch.value))
      ensures inserted.Success? ==>
                inserted.value == if batchSize > 0 && !Skipped(old(db), runId, f) then |rows| else 0
      ensures inserted.Success? && batchSize > 0 && !Skipped(old(db), runId, f) ==>
                (|db.table| == |old(db).table| + inserted.value
                 <==> rows == [] || (!RolledBack(old(db), f) && AllNew(old(db).table, rows)))
    {
      if rows == [] {
        return Success(0);
      }
      var conn := db;
      if Skipped(conn, runId, f) {
        return if f.commit == CommitWorks then Success(0) else Failure(0);
      }
      if batchSize == 0 {
        return Failure(0);
      }
      var count := 0;
      if batchSize > 0 {
        var inserting := InsertBatches(conn, rows, batchSize, f);
        if inserting.Failure? {
          return Failure(inserting.error);
        }
        conn, count := inserting.value, |rows|;
        InsertedSize(db.table, rows);
      }
      var committed := if Spoiled(conn, f) || RolledBack(conn, f) then db else RecordRun(conn, runId, f);
      if f.commit == CommitFails {
        return Failure(count);
      }
      db := committed;
      return if f.commit == CommitWorks then Success(count) else Failure(count);
    }
  }

  /** Whatever goes wrong in a load, loading the same rows again without a fault ends where one load without a fault
      would have ended, with a run table or without, for every batch size; only a look-up that fails on a run that is
      recorded may have brought rows in that a load without a fault would have skipped. */
  lemma {:induction false} LoadTwiceIsLoadOnce(db: Database, rows: seq<DbRow>, runId: string, batchSize: int, f: Faults)
    ensures var twice := Loaded(Loaded(db, rows, runId, batchSize, f), rows, runId, batchSize, NoFaults);
            !(f.lookup && AlreadyLoaded(db, runId)) ==> twice == Loaded(db, rows, runId, batchSize, NoFaults)
    ensures Goes(db, rows, runId, batchSize, f) ==>
              Loaded(Loaded(db, rows, runId, batchSize, f), rows, runId, batchSize, NoFaults).table
              == Loaded(db, rows, runId, batchSize, f).table
  {
    InsertAllTwice(db.table, rows);
  }

  // Two loads one after the other, and one load of everything, without faults.
  ghost function Apart(db: Database, a: seq<DbRow>, b: seq<DbRow>, runId: seq<DbRow> -> string,
                       batchSize: int): Database {
    Loaded(Loaded(db, a, runId(a), batchSize, NoFaults), b, runId(b), batchSize, NoFaults)
  }

  ghost function Together(db: Database, a: seq<DbRow>, b: seq<DbRow>, runId: seq<DbRow> -> string,
                          batchSize: int): Database {
    Loaded(db, a + b, runId(a + b), batchSize, NoFaults)
  }

  lemma {:induction false} AgreeWithoutRunTable(db: Database, a: seq<DbRow>, b: seq<DbRow>,
                                                runId: seq<DbRow> -> string, batchSize: int)
    requires batchSize > 0 && db.runs.None?
    ensures Apart(db, a, b, runId, batchSize).table == Together(db, a, b, runId, batchSize).table
  {
    InsertAllConcat(db.table, a, b);
    assert a == [] ==> a + b == b;
    assert b == [] ==> a + b == a;
  }

  lemma {:induction false} AgreeWithRunTable(db: Database, a: seq<DbRow>, b: seq<DbRow>, runId: seq<DbRow> -> string,
                                             batchSize: int)
    requires batchSize > 0 && db.runs.Some? && {runId(a), runId(b), runId(a + b)} !! db.runs.value
    ensures Apart(db, a, b, runId, batchSize).table == Together(db, a, b, runId, batchSize).table
            <==> a == [] || runId(a) != runId(b) || AllPresent(InsertAll(db.table, a), b)
  {
    InsertAllConcat(db.table, a, b);
    ChangesUnlessPresent(InsertAll(db.table, a), b);
    if a == [] {
      assert a + b == b;
    } else if b == [] {
      assert a + b == a;
    } else {
      assert Together(db, a, b, runId, batchSize).table == InsertAll(InsertAll(db.table, a), b);
    }
  }

  /** Extracting in two runs or in one gives the same table: where there is no run table always, on a database that
      aborts because neither way loads anything; with one, if none of the three run ids was used before, exactly
      unless the two halves share a run id and the second brings a new incident. */
  lemma {:induction false} SplitLoadsAgree(tools: Tools, db: Database, x: seq<RawRow>, y: seq<RawRow>,
                                           runId: seq<DbRow> -> string, batchSize: int)
    requires batchSize > 0
    ensures var a, b := Transformed(tools, x), Transformed(tools, y);
            Transformed(tools, x + y) == a + b
            && (db.runs.None? ==> Apart(db, a, b, runId, batchSize).table == Together(db, a, b, runId, batchSize).table)
            && (db.runs.Some? && {runId(a), runId(b), runId(a + b)} !! db.runs.value ==>
                  (Apart(db, a, b, runId, batchSize).table == Together(db, a, b, runId, batchSize).table
                   <==> a == [] || runId(a) != runId(b) || AllPresent(InsertAll(db.table, a), b)))
  {
    var a, b := Transformed(tools, x), Transformed(tools, y);
    TransformedConcat(tools, x, y);
    if db.runs.None? {
      AgreeWithoutRunTable(db, a, b, runId, batchSize);
    } else if {runId(a), runId(b), runId(a + b)} !! db.runs.value {
      AgreeWithRunTable(db, a, b, runId, batchSize);
    }
  }

  lemma {:induction false} ChangesUnlessPresent(t: Table, rows: seq<DbRow>)
    ensures InsertAll(t, rows) == t <==> AllPresent(t, rows)
  {
    if AllPresent(t, rows) {
      NothingNew(t, rows);
    } else {
      var i :| 0 <= i < |rows| && rows[i].id !in t;
      InsertedIds(t, rows, rows[i].id);
    }
  }

  /** After a load that was not skipped all its rows are in the table if and only if the batch size was positive and
      nothing spoiled the transaction, rolled it back or failed, or they were there before. */
  lemma {:induction false} RowsArriveWhen(db: Database, rows: seq<DbRow>, runId: string, batchSize: int, f: Faults)
    requires !Skipped(db, runId, f)
    ensures AllPresent(Loaded(db, rows, runId, batchSize, f).table, rows) <==>
              || (&& batchSize > 0 && !Spoiled(db, f) && !BatchFails(rows, batchSize, f)
                  && !RolledBack(db, f) && f.commit != CommitFails)
              || AllPresent(db.table, rows)
  {
    forall i | 0 <= i < |rows|
      ensures rows[i].id in InsertAll(db.table, rows)
    {
      InsertedIds(db.table, rows, rows[i].id);
    }
  }

  /** A batch size below zero loads nothing and still marks the run as loaded: no later load of the same rows, with any
      batch size, brings them in, unless its look-up fails. */
  lemma {:induction false} NegativeBatchSizeLosesTheRun(db: Database, rows: seq<DbRow>, runId: string, negative: int,
                                                        later: int, f: Faults)
    requires negative < 0 && rows != [] && db.runs.Some? && !f.lookup
    ensures Loaded(Loaded(db, rows, runId, negative, NoFaults), rows, runId, later, f).table == db.table
  {
  }

  // --- the whole pipeline again ---

  // The same extract, with other UUIDs at hand for rows without an id.
  ghost predicate SameSource(x: seq<RawRow>, y: seq<RawRow>) {
    |x| == |y| && forall i :: 0 <= i < |x| ==> y[i] == x[i].(spareId := y[i].spareId)
  }

  predicate Accepted(tools: Tools, row: RawRow) {
    TransformRow(tools, row).Success?
  }

  predicate NeedsId(row: RawRow) {
    row.id == Some("")
  }

  ghost predicate GivesId(tools: Tools, row: RawRow, id: string) {
    Accepted(tools, row) && TransformRow(tools, row).value.id == id
  }

  lemma {:induction false} TransformedIds(tools: Tools, rows: seq<RawRow>, id: string)
    ensures HasId(Transformed(tools, rows), id) <==> exists i :: 0 <= i < |rows| && GivesId(tools, rows[i], id)
  {
    if rows == [] {
    } else {
      var init, last := rows[..|rows| - 1], rows[|rows| - 1];
      TransformedIds(tools, init, id);
      assert forall i :: 0 <= i < |init| ==> init[i] == rows[i];
      if Accepted(tools, last) {
        var all := Transformed(tools, rows);
        assert all[..|all| - 1] == Transformed(tools, init);
        HasIdOfInit(all, id);
      } else {
        assert Transformed(tools, rows) == Transformed(tools, init);
      }
    }
  }

  // Every accepted row without an id is drawn one that is there already.
  ghost predicate NoNewSpare(t: Table, tools: Tools, rows: seq<RawRow>) {
    forall i :: 0 <= i < |rows| && Accepted(tools, rows[i]) && NeedsId(rows[i]) ==> rows[i].spareId in t
  }

  lemma {:induction false} SecondTransformPresent(tools: Tools, now: int, x: seq<RawRow>, y: seq<RawRow>, t: Table)
    requires SameSource(x, y)
    ensures var t1 := InsertAll(t, Transformed(tools, x));
            AllPresent(t1, Transformed(tools.(now := now), y)) <==> NoNewSpare(t1, tools, y)
  {
    var again := tools.(now := now);
    var a, b := Transformed(tools, x), Transformed(again, y);
    var t1 := InsertAll(t, a);
    if NoNewSpare(t1, tools, y) {
      forall k | 0 <= k < |b|
        ensures b[k].id in t1
      {
        var id := b[k].id;
        assert HasId(b, id);
        TransformedIds(again, y, id);
        var i :| 0 <= i < |y| && GivesId(again, y[i], id);
        assert Accepted(tools, y[i]) && Accepted(tools, x[i]);
        if !NeedsId(y[i]) {
          assert GivesId(tools, x[i], id);
          TransformedIds(tools, x, id);
          InsertedIds(t, a, id);
        }
      }
    }
    if AllPresent(t1, b) {
      forall i | 0 <= i < |y| && Accepted(tools, y[i]) && NeedsId(y[i])
        ensures y[i].spareId in t1
      {
        assert GivesId(again, y[i], y[i].spareId);
        TransformedIds(again, y, y[i].spareId);
      }
    }
  }

  /** Running the whole pipeline again on the same extract transforms it anew: updated_at is later, so the run id is
      another one and the guard does not help. The table is as one run left it if and only if every accepted row
      without an id is drawn one that is in the table already; with fresh UUIDs, if and only if there is no such row. */
  lemma {:induction false} SecondRunAddsNothingWhen(tools: Tools, now: int, db: Database, x: seq<RawRow>,
                                                    y: seq<RawRow>, first: string, second: string, batchSize: int)
    requires SameSource(x, y) && batchSize > 0 && !Spoiled(db, NoFaults) && first != second
    requires !AlreadyLoaded(db, first) && !AlreadyLoaded(db, second)
    ensures var once := Loaded(db, Transformed(tools, x), first, batchSize, NoFaults);
            var twice := Loaded(once, Transformed(tools.(now := now), y), second, batchSize, NoFaults);
            && (twice.table == once.table <==> NoNewSpare(once.table, tools, y))
            && ((forall i :: 0 <= i < |y| ==> y[i].spareId !in once.table) ==>
                  (twice.table == once.table
                   <==> forall i :: 0 <= i < |y| && Accepted(tools, y[i]) ==> !NeedsId(y[i])))
  {
    var a, b := Transformed(tools, x), Transformed(tools.(now := now), y);
    var once := Loaded(db, a, first, batchSize, NoFaults);
    assert once.table == InsertAll(db.table, a);
    SecondTransformPresent(tools, now, x, y, db.table);
    ChangesUnlessPresent(once.table, b);
  }
}
