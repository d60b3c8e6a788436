/** The ETL pipeline field by field: which rows are accepted and what they become, and what a load does to the table
    and to the recorded runs in each case. */
module EtlLaws {
  import opened Wrappers
  import opened Etl

  // --- one row ---

  /** A row is accepted exactly if its four fields are there, its event type is one of the five, its payload is a dict
      and its timestamp parses; otherwise the error names the first of these that fails. */
  lemma {:induction false} RowAcceptedWhen(tools: Tools, row: RawRow)
    ensures var r := TransformRow(tools, row);
            if row.id.None? || row.timestamp.None? || row.eventType.None? || row.payload.None? then
              r == Failure(MissingFields)
            else if row.eventType.value != "model_degradation" && row.eventType.value != "pipeline_failure"
                    && row.eventType.value != "data_quality" && row.eventType.value != "latency_spike"
                    && row.eventType.value != "cost_spike" then
              r == Failure(InvalidEventType)
            else if row.payload.value.NotADict? then r == Failure(PayloadNotADict)
            else if tools.parseTimestamp(row.timestamp.value).None? then r == Failure(BadTimestamp)
            else r.Success?
  {
  }

  // A payload's field after hashing; the empty string if it is not there.
  function Field(tools: Tools, payload: Fields, key: string): string {
    if key in payload then HashedTimes(tools, payload[key], Occurrences(tools.piiFields, key)) else ""
  }

  /** What an accepted row becomes: every column from its field, with the default that applies where the field is
      missing or empty. An empty status is kept. */
  lemma {:induction false} RowBecomes(tools: Tools, row: RawRow)
    requires TransformRow(tools, row).Success?
    ensures var r, payload := TransformRow(tools, row).value, row.payload.value.fields;
            && r.id == (if row.id.value == "" then row.spareId else row.id.value)
            && r.title == (if Field(tools, payload, "title") == "" then tools.titleOf(row.eventType.value)
                           else Field(tools, payload, "title"))
            && r.status == (if "status" in payload then Field(tools, payload, "status") else "open")
            && r.category == (if Field(tools, payload, "category") == "" then row.eventType.value
                              else Field(tools, payload, "category"))
            && (Field(tools, payload, "description") != "" ==>
                  r.description == Some(Field(tools, payload, "description")))
            && Some(r.createdAt) == tools.parseTimestamp(row.timestamp.value)
            && r.updatedAt == tools.now
  {
    var payload := row.payload.value.fields;
    FieldIsHashed(tools, payload, tools.piiFields, "title");
    FieldIsHashed(tools, payload, tools.piiFields, "status");
    FieldIsHashed(tools, payload, tools.piiFields, "category");
    FieldIsHashed(tools, payload, tools.piiFields, "description");
  }

  lemma {:induction false} HashingOnce(tools: Tools, value: string, pii: seq<string>, f: string)
    ensures HashedTimes(tools, value, 0) == value
    ensures value != "" ==> HashedTimes(tools, value, 1) == tools.sha256(value)
    ensures f !in pii ==> Occurrences(pii, f) == 0
    ensures Occurrences([f] + pii, f) == 1 + Occurrences(pii, f)
  {
    assert ([f] + pii)[1..] == pii;
    if pii == [] {
    } else {
      HashingOnce(tools, value, pii[1..], f);
    }
  }

  // The lower-case letter of an ASCII capital, 32 places on; everything else as it is.
  lemma {:induction false} LowerIs(s: string, i: nat)
    requires i < |s|
    ensures |Lower(s)| == |s|
    ensures if 65 <= s[i] as int <= 90 then Lower(s)[i] as int == s[i] as int + 32 else Lower(s)[i] == s[i]
  {
  }

  /** The severity is the payload's if it has one, whatever its hashing, and otherwise that of the event type; the four
      aliases are replaced, in capitals or not, and anything else is kept. */
  lemma {:induction false} SeverityBecomes(tools: Tools, row: RawRow)
    requires TransformRow(tools, row).Success?
    ensures var r, payload := TransformRow(tools, row).value, row.payload.value.fields;
            if "severity" in payload && payload["severity"] != "" then
              && (Lower(payload["severity"]) == "critical" ==> r.severity == "SEV-1")
              && (Lower(payload["severity"]) == "high" ==> r.severity == "SEV-2")
              && (Lower(payload["severity"]) == "medium" ==> r.severity == "SEV-3")
              && (Lower(payload["severity"]) == "low" ==> r.severity == "SEV-4")
              && (Lower(payload["severity"]) !in {"critical", "high", "medium", "low"} ==>
                    r.severity == payload["severity"])
            else
              (row.eventType.value, r.severity) in {
                ("model_degradation", "SEV-1"), ("pipeline_failure", "SEV-2"), ("latency_spike", "SEV-2"),
                ("data_quality", "SEV-3"), ("cost_spike", "SEV-4")
              }
  {
    RowAcceptedWhen(tools, row);
    var eventType, payload := row.eventType.value, row.payload.value.fields;
    if !("severity" in payload && payload["severity"] != "") {
      var s := SeverityOf(eventType);
      assert Lower(s)[0] == 's' by {
        LowerIs(s, 0);
      }
      assert Alias(s) == s;
    }
  }

  lemma {:induction false} TransformedOne(tools: Tools, row: RawRow)
    ensures Transformed(tools, [row])
         == if TransformRow(tools, row).Success? then [TransformRow(tools, row).value] else []
  {
    assert [row][..0] == [];
    assert Transformed(tools, []) == [];
  }

  // --- one load ---

  // Where batch k starts.
  function Offset(k: nat, batchSize: nat): nat {
    k * batchSize
  }

  lemma {:induction false} HitsFrom(k: nat, rows: nat, batchSize: nat, bad: nat)
    requires batchSize > 0
    ensures Hits(Offset(k, batchSize), rows, batchSize, bad)
            <==> bad < rows && exists j: nat :: k <= j && bad == Offset(j, batchSize)
    decreases if Offset(k, batchSize) < rows then rows - Offset(k, batchSize) else 0
  {
    var start := Offset(k, batchSize);
    assert Offset(k + 1, batchSize) == start + batchSize;
    if start < rows {
      HitsFrom(k + 1, rows, batchSize, bad);
    } else {
      forall j: nat | k <= j
        ensures Offset(j, batchSize) >= rows
      {
        OffsetsGrow(k, j, batchSize);
      }
    }
  }

  lemma {:induction false} OffsetsGrow(k: nat, j: nat, batchSize: nat)
    requires k <= j
    ensures Offset(k, batchSize) <= Offset(j, batchSize)
  {
    assert Offset(j, batchSize) == Offset(k, batchSize) + (j - k) * batchSize;
  }

  // The failing offset is that of one of the load's batches.
  ghost predicate BatchHit(rows: seq<DbRow>, batchSize: int, f: Faults) {
    && batchSize > 0 && f.batch.Some? && f.batch.value < |rows|
    && exists k: nat :: f.batch.value == Offset(k, batchSize)
  }

  /** Which loads raise: those of rows whose commit fails or is not confirmed, and those of a new run with an empty
      batch size, with a failing batch, or on a database that aborts after the look-up has failed or had no table to
      look in. */
  lemma {:induction false} LoadRaisesWhen(db: Database, rows: seq<DbRow>, runId: string, batchSize: int, f: Faults)
    ensures var recorded := db.runs.Some? && runId in db.runs.value && !f.lookup;
            var spoiled := db.aborts && (db.runs.None? || f.lookup);
            Raises(db, rows, runId, batchSize, f) <==>
              rows != [] && (f.commit != CommitWorks
                             || (!recorded && (batchSize == 0 || BatchHit(rows, batchSize, f)
                                               || (batchSize > 0 && spoiled))))
  {
    BatchHitIsFailure(rows, batchSize, f);
  }

  lemma {:induction false} BatchHitIsFailure(rows: seq<DbRow>, batchSize: int, f: Faults)
    ensures BatchFails(rows, batchSize, f) <==> BatchHit(rows, batchSize, f)
  {
    if batchSize > 0 && f.batch.Some? {
      HitsFrom(0, |rows|, batchSize, f.batch.value);
      assert Offset(0, batchSize) == 0;
    }
  }

  /** What a load leaves: unless one of these keeps it from being done, the rows whose ids are new, the first of each
      id, beside what was there, and the run recorded. */
  lemma {:induction false} LoadLeaves(db: Database, rows: seq<DbRow>, runId: string, batchSize: int, f: Faults)
    ensures var recorded := db.runs.Some? && runId in db.runs.value && !f.lookup;
            var spoiled := db.aborts && (db.runs.None? || f.lookup || f.record);
            var done := rows != [] && !recorded && batchSize != 0 && !BatchHit(rows, batchSize, f) && !spoiled
                        && f.commit != CommitFails;
            var db' := Loaded(db, rows, runId, batchSize, f);
            && (!done ==> db' == db)
            && (done ==>
                  && db'.aborts == db.aborts
                  && db'.runs == (if db.runs.None? || f.record then db.runs else Some(db.runs.value + {runId}))
                  && (batchSize < 0 ==> db'.table == db.table)
                  && (batchSize > 0 ==>
                        && (forall id :: id in db'.table <==>
                              id in db.table || exists i :: 0 <= i < |rows| && rows[i].id == id)
                        && (forall id :: id in db.table ==> db'.table[id] == db.table[id])
                        && (forall i: nat :: i < |rows| && rows[i].id !in db.table && FirstOfItsId(rows, i) ==>
                              rows[i].id in db'.table && db'.table[rows[i].id] == rows[i])))
  {
    BatchHitIsFailure(rows, batchSize, f);
    FirstOccurrenceWins(db.table, rows);
    forall i: nat | i < |rows| && FirstOfItsId(rows, i)
      ensures First(rows, i)
    {
    }
  }

  ghost predicate FirstOfItsId(rows: seq<DbRow>, i: nat)
    requires i < |rows|
  {
    forall j :: 0 <= j < i ==> rows[j].id != rows[i].id
  }
}
