/** What each request to the model registry does, told by its reply and the fields of the rows: the steps of
    ModelRegistry.dfy from the outside. */
module ModelRegistryLaws {
  import opened Wrappers
  import opened ModelRegistry

  // The row a version has, or will have once the table is seeded with what the loaded model reports.
  predicate Known(t: Table, v: string) {
    v in t || v == "1.0.0"
  }

  function Row(t: Table, call: Call, v: string): Record
    requires Known(t, v)
  {
    if v in t then t[v]
    else
      var h := call.health;
      Record(if h.modelLoaded then ACTIVE else INACTIVE, h.artifactFile, h.loadedAt, None)
  }

  // The file and the metrics of the bootstrapped version are those of the loaded model, whatever its row says.
  function Artifact(t: Table, call: Call, v: string): string
    requires Known(t, v)
  {
    if v == "1.0.0" then call.health.artifactFile else Row(t, call, v).artifactFile
  }

  function Metrics(t: Table, call: Call, v: string): Option<string>
    requires Known(t, v)
  {
    if v == "1.0.0" then None else Row(t, call, v).metrics
  }

  // The versions of the table afterwards are the known ones and perhaps a new one, and every row but one is as it was.
  ghost predicate OthersKept(t: Table, call: Call, t': Table, v: string) {
    && (forall u :: u in t' <==> Known(t, u) || u == v)
    && (forall u :: u != v && Known(t, u) ==> u in t' && t'[u] == Row(t, call, u))
  }

  lemma {:induction false} ServedFrom(t: Table, call: Call)
    requires Sound(t)
    ensures var seeded := Seeded(call.health, t);
            && (forall u :: u in seeded <==> Known(t, u))
            && (forall u :: Known(t, u) ==> seeded[u] == Row(t, call, u))
            && GetActive(seeded).Success? && IsActiveRow(seeded, GetActive(seeded).value)
            && (forall u :: Known(t, u) ==>
                  (HydratedRecords(call.health, seeded)[u]
                   == Record(Row(t, call, u).status, Artifact(t, call, u), Row(t, call, u).activatedAt,
                             Metrics(t, call, u))))
            && HydratedRecords(call.health, seeded).Keys == seeded.Keys
  {
    SeedingIsSound(call.health, t);
    GetActiveFinds(Seeded(call.health, t));
  }

  lemma {:induction false} Rollback(t: Table, call: Call)
    ensures !call.commits ==> Serve(t, call).table == t
    ensures Serve(t, call).reply in {AlreadyRegistered, NotRegistered, ArtifactMissing, TwoActiveRows} ==>
              Serve(t, call).table == t
    ensures Serve(t, call).reply == Serve(t, call.(commits := true)).reply
  {
  }

  /** Registering a known version is refused; a new one is added INACTIVE with its file and metrics, never activated. */
  lemma {:induction false} RegisterAdds(t: Table, call: Call)
    requires Sound(t) && call.request.Register? && call.commits
    ensures var r, t', reply := call.request, Serve(t, call).table, Serve(t, call).reply;
            if Known(t, r.version) then reply == AlreadyRegistered && t' == t
            else
              var added := Record(INACTIVE, r.artifactFile, None, r.metrics);
              && reply == Registered(added)
              && OthersKept(t, call, t', r.version) && t'[r.version] == added
  {
    ServedFrom(t, call);
  }

  // The version that is active in the table the request sees.
  ghost predicate ActiveIs(t: Table, call: Call, active: Option<string>) {
    forall u :: (Known(t, u) && Row(t, call, u).status == ACTIVE) <==> active == Some(u)
  }

  /** Activating an unknown version, or one whose file is not on disk, is refused. Otherwise its row is ACTIVE as of
      now with its file and metrics kept, the version that was active is INACTIVE and named in the reply, and no other
      row has changed. */
  lemma {:induction false} ActivatePromotes(t: Table, call: Call)
    requires Sound(t) && call.request.Activate? && call.commits
    ensures var r, t', reply := call.request, Serve(t, call).table, Serve(t, call).reply;
            var v := r.version;
            && (reply == NotRegistered <==> !Known(t, v))
            && (reply == ArtifactMissing <==> Known(t, v) && Artifact(t, call, v) !in r.disk)
            && (!Known(t, v) || Artifact(t, call, v) !in r.disk ==> t' == t)
            && (Known(t, v) && Artifact(t, call, v) in r.disk ==>
                  && reply.Activated? && ActiveIs(t, call, reply.previous)
                  && reply.record == Record(ACTIVE, Artifact(t, call, v), Some(r.now), Metrics(t, call, v))
                  && (forall u :: u in t' <==> Known(t, u))
                  && t'[v] == Row(t, call, v).(status := ACTIVE, activatedAt := Some(r.now))
                  && forall u :: Known(t, u) && u != v ==>
                       t'[u] == if Row(t, call, u).status == ACTIVE then Row(t, call, u).(status := INACTIVE)
                                else Row(t, call, u))
  {
    ServedFrom(t, call);
    var seeded := Seeded(call.health, t);
    var active := GetActive(seeded).value;
    forall u
      ensures (Known(t, u) && Row(t, call, u).status == ACTIVE) <==> active == Some(u)
    {
      assert u in ActiveRows(seeded) <==> Known(t, u) && Row(t, call, u).status == ACTIVE;
    }
  }

  /** Quarantining an unknown version is refused; a known one's row is QUARANTINED, with file, activation time and
      metrics kept, and no other row has changed. */
  lemma {:induction false} QuarantineMarks(t: Table, call: Call)
    requires Sound(t) && call.request.Quarantine? && call.commits
    ensures var t', reply, v := Serve(t, call).table, Serve(t, call).reply, call.request.version;
            if !Known(t, v) then reply == NotRegistered && t' == t
            else
              && reply == Quarantined(Record(QUARANTINED, Artifact(t, call, v), Row(t, call, v).activatedAt,
                                             Metrics(t, call, v)))
              && OthersKept(t, call, t', v) && t'[v] == Row(t, call, v).(status := QUARANTINED)
  {
    ServedFrom(t, call);
  }

  /** Reading a version gives its row, reading the active one gives the ACTIVE row if there is one; a read that
      commits adds at most the bootstrapped row. */
  lemma {:induction false} ReadsTell(t: Table, call: Call)
    requires Sound(t)
    ensures var t', reply := Serve(t, call).table, Serve(t, call).reply;
            && (call.request.ReadVersion? ==>
                  var v := call.request.version;
                  reply == Version(if Known(t, v) then Some(Row(t, call, v)) else None))
            && (call.request.ReadActive? ==>
                  && reply.ActiveVersion?
                  && ActiveIs(t, call, if reply.active.Some? then Some(reply.active.value.0) else None)
                  && (reply.active.Some? ==> Known(t, reply.active.value.0)
                                             && reply.active.value.1 == Row(t, call, reply.active.value.0)))
            && ((call.request.ReadVersion? || call.request.ReadActive?) && call.commits ==>
                  OthersKept(t, call, t', "1.0.0") && t'["1.0.0"] == Row(t, call, "1.0.0"))
  {
    ServedFrom(t, call);
    var seeded := Seeded(call.health, t);
    var active := GetActive(seeded).value;
    forall u
      ensures (Known(t, u) && Row(t, call, u).status == ACTIVE) <==> active == Some(u)
    {
      assert u in ActiveRows(seeded) <==> Known(t, u) && Row(t, call, u).status == ACTIVE;
    }
  }

  // --- after a quarantine ---

  predicate Activates(call: Call, v: string) {
    call.request.Activate? && call.request.version == v && call.commits
  }

  predicate Idle(t: Table, v: string) {
    v in t && t[v].status != ACTIVE
  }

  // The reply says that v is the active version.
  predicate SaysActive(reply: Reply, v: string) {
    reply.ActiveVersion? && reply.active.Some? && reply.active.value.0 == v
  }

  lemma {:induction false} IdleStays(t: Table, call: Call, v: string)
    requires Sound(t) && Idle(t, v) && !Activates(call, v)
    ensures Idle(Serve(t, call).table, v) && !SaysActive(Serve(t, call).reply, v)
  {
    Rollback(t, call);
    var now := call.(commits := true);
    match call.request {
      case Register(_, _, _) => RegisterAdds(t, now);
      case Activate(_, _, _) =>
        if call.commits {
          ActivatePromotes(t, call);
        }
      case Quarantine(_) => QuarantineMarks(t, now);
      case _ => ReadsTell(t, now);
    }
  }

  lemma {:induction false} RunStaysIdle(t: Table, calls: seq<Call>, v: string)
    requires Sound(t) && Idle(t, v) && forall i :: 0 <= i < |calls| ==> !Activates(calls[i], v)
    ensures Idle(TableAfter(t, calls), v)
    ensures forall i :: 0 <= i < |Replies(t, calls)| ==> !SaysActive(Replies(t, calls)[i], v)
    decreases calls
  {
    if calls == [] {
    } else {
      IdleStays(t, calls[0], v);
      ServingKeepsOneActive(t, calls[0]);
      RunStaysIdle(Serve(t, calls[0]).table, calls[1..], v);
    }
  }

  /** Once a version is quarantined, in whatever run came before, it is never the active version again in any run that
      follows, until an activation of that very version is committed. */
  lemma {:induction false} QuarantineHolds(before: seq<Call>, call: Call, after: seq<Call>)
    requires call.request.Quarantine? && call.commits
    requires Serve(TableAfter(map[], before), call).reply.Quarantined?
    requires forall i :: 0 <= i < |after| ==> !Activates(after[i], call.request.version)
    ensures var t := Serve(TableAfter(map[], before), call).table;
            forall i :: 0 <= i < |Replies(t, after)| ==> !SaysActive(Replies(t, after)[i], call.request.version)
  {
    EmptyIsSound();
    RunKeepsOneActive(map[], before);
    var t := TableAfter(map[], before);
    QuarantineMarks(t, call);
    ServingKeepsOneActive(t, call);
    RunStaysIdle(Serve(t, call).table, after, call.request.version);
  }

  /** And once a version is activated it is the one that every read names, until another is activated or it is
      quarantined. */
  lemma {:induction false} ActivationHolds(before: seq<Call>, call: Call, after: seq<Call>)
    requires call.request.Activate? && call.commits
    requires Serve(TableAfter(map[], before), call).reply.Activated?
    requires forall i :: 0 <= i < |after| ==> !after[i].commits || after[i].request.Register?
                                              || after[i].request.ReadVersion? || after[i].request.ReadActive?
    ensures var t := Serve(TableAfter(map[], before), call).table;
            forall i :: 0 <= i < |Replies(t, after)| && Replies(t, after)[i].ActiveVersion? ==>
              SaysActive(Replies(t, after)[i], call.request.version)
  {
    EmptyIsSound();
    RunKeepsOneActive(map[], before);
    var t := TableAfter(map[], before);
    ActivatePromotes(t, call);
    ServingKeepsOneActive(t, call);
    RunStaysActive(Serve(t, call).table, after, call.request.version);
  }

  predicate Serving(t: Table, v: string) {
    v in t && t[v].status == ACTIVE && "1.0.0" in t
  }

  lemma {:induction false} RunStaysActive(t: Table, calls: seq<Call>, v: string)
    requires Sound(t) && Serving(t, v)
    requires forall i :: 0 <= i < |calls| ==> !calls[i].commits || calls[i].request.Register?
                                              || calls[i].request.ReadVersion? || calls[i].request.ReadActive?
    ensures forall i :: 0 <= i < |Replies(t, calls)| && Replies(t, calls)[i].ActiveVersion? ==>
              SaysActive(Replies(t, calls)[i], v)
    decreases calls
  {
    if calls == [] {
    } else {
      var call := calls[0];
      Rollback(t, call);
      if call.request.Register? && call.commits {
        RegisterAdds(t, call);
      }
      ReadsTell(t, call);
      ReadsOnly(t, call);
      assert Known(t, v) && Row(t, call, v).status == ACTIVE;
      ServingKeepsOneActive(t, call);
      var rest := Replies(Serve(t, call).table, calls[1..]);
      RunStaysActive(Serve(t, call).table, calls[1..], v);
      assert Replies(t, calls) == [Serve(t, call).reply] + rest;
      assert Serve(t, call).reply.ActiveVersion? ==> SaysActive(Serve(t, call).reply, v);
    }
  }

  // Only a read of the active version answers with one.
  lemma {:induction false} ReadsOnly(t: Table, call: Call)
    ensures Serve(t, call).reply.ActiveVersion? ==> call.request.ReadActive?
  {
  }
}
