/**
 * Collection runs and the verdict on a day: each recorded outcome upserts its
 * source's run, and the day's status is read off the stored runs.
 */
module CatalogRuns {
  import opened CatalogBatch
  import opened Upsert
  import opened Wrappers

  datatype DagStatus = DAG_SUCCESS | DAG_PARTIAL | DAG_FAILED | DAG_INCOMPLETE

  datatype RunKey = RunKey(dagRunId: string, sourceId: string)
  datatype CollectionRun = CollectionRun(runId: string, status: CollectionStatus, attempt: nat, finishedAt: Time)
  datatype DagRun = DagRun(status: DagStatus, startedAt: Time, finishedAt: Option<Time>)

  /** One outcome recorded for a source of a day. */
  datatype Recorded = Recorded(key: RunKey, status: CollectionStatus, finishedAt: Time)

  function MergeRun(o: CollectionRun, n: CollectionRun): CollectionRun {
    o.(status := n.status, attempt := o.attempt + 1, finishedAt := n.finishedAt)
  }

  function RunPk(r: CollectionRun): string { r.runId }

  function RunWrite(e: Recorded): map<RunKey, CollectionRun> {
    map[e.key := CollectionRun(RunId(e.key.dagRunId, e.key.sourceId), e.status, 1, e.finishedAt)]
  }

  function RunWrites(events: seq<Recorded>): (r: seq<map<RunKey, CollectionRun>>)
    ensures |r| == |events|
  {
    seq(|events|, i requires 0 <= i < |events| => RunWrite(events[i]))
  }

  function EventsOf(dagRunId: string, outcomes: seq<Outcome>, finishedAt: Time): (r: seq<Recorded>)
    ensures |r| == |outcomes|
  {
    seq(|outcomes|, i requires 0 <= i < |outcomes| =>
      Recorded(RunKey(dagRunId, outcomes[i].sourceId), outcomes[i].status, finishedAt))
  }

  /** The runs after recording the outcomes in order. */
  function Runs(events: seq<Recorded>): map<RunKey, CollectionRun> {
    PutAll(MergeRun, map[], RunWrites(events))
  }

  // ----- The verdict -----

  function StatusesOf(runs: map<RunKey, CollectionRun>, dagRunId: string): set<CollectionStatus> {
    set k | k in runs && k.dagRunId == dagRunId :: runs[k].status
  }

  function Verdict(statuses: set<CollectionStatus>, downstreamComplete: bool): DagStatus {
    if statuses <= {FAILED} then DAG_FAILED
    else if !downstreamComplete then DAG_INCOMPLETE
    else if exists s :: s in statuses && !Healthy(s) then DAG_PARTIAL
    else DAG_SUCCESS
  }

  // ----- What the stored runs say about the history -----

  ghost function Attempts(events: seq<Recorded>, k: RunKey): nat {
    if events == [] then 0
    else Attempts(events[..|events| - 1], k) + if events[|events| - 1].key == k then 1 else 0
  }

  /** The event is the latest one of its source. */
  ghost predicate IsLatest(events: seq<Recorded>, i: int) {
    0 <= i < |events| && forall j :: i < j < |events| ==> events[j].key != events[i].key
  }

  /** The statuses of the latest outcomes of a day. */
  ghost function LatestStatuses(events: seq<Recorded>, dagRunId: string): set<CollectionStatus> {
    set i | 0 <= i < |events| && IsLatest(events, i) && events[i].key.dagRunId == dagRunId :: events[i].status
  }

  lemma RunsOneMore(events: seq<Recorded>)
    requires events != []
    ensures var n := |events| - 1;
      Runs(events) == Put(MergeRun, Runs(events[..n]), RunWrite(events[n]))
  {
    var n := |events| - 1;
    assert RunWrites(events)[..n] == RunWrites(events[..n]);
  }

  /** A source's run counts its recorded outcomes. */
  lemma {:induction false} AttemptCountsOutcomes(events: seq<Recorded>, k: RunKey)
    ensures k in Runs(events) <==> Attempts(events, k) > 0
    ensures k in Runs(events) ==> Runs(events)[k].attempt == Attempts(events, k)
    ensures k in Runs(events) ==> Runs(events)[k].runId == RunId(k.dagRunId, k.sourceId)
  {
    if events != [] {
      var n := |events| - 1;
      AttemptCountsOutcomes(events[..n], k);
      RunsOneMore(events);
      PutRow(MergeRun, Runs(events[..n]), RunWrite(events[n]), k);
    }
  }

  /** A source's run has the status of its latest outcome. */
  lemma {:induction false} RunIsLatest(events: seq<Recorded>, i: nat)
    requires IsLatest(events, i)
    ensures var k := events[i].key;
      k in Runs(events) && Runs(events)[k].status == events[i].status && Runs(events)[k].finishedAt == events[i].finishedAt
  {
    var n := |events| - 1;
    RunsOneMore(events);
    PutRow(MergeRun, Runs(events[..n]), RunWrite(events[n]), events[i].key);
    if i < n {
      RunIsLatest(events[..n], i);
    }
  }

  lemma {:induction false} EveryRunHasLatest(events: seq<Recorded>, k: RunKey) returns (i: nat)
    requires k in Runs(events)
    ensures IsLatest(events, i) && events[i].key == k
  {
    var n := |events| - 1;
    assert events != [] by {
      assert RunWrites([]) == [];
    }
    RunsOneMore(events);
    PutRow(MergeRun, Runs(events[..n]), RunWrite(events[n]), k);
    if events[n].key == k {
      i := n;
    } else {
      i := EveryRunHasLatest(events[..n], k);
    }
  }

  /** The stored statuses of a day are those of the latest outcomes. */
  lemma StatusesAreLatest(events: seq<Recorded>, dagRunId: string)
    ensures StatusesOf(Runs(events), dagRunId) == LatestStatuses(events, dagRunId)
  {
    var stored, latest := StatusesOf(Runs(events), dagRunId), LatestStatuses(events, dagRunId);
    forall s | s in stored
      ensures s in latest
    {
      var k :| k in Runs(events) && k.dagRunId == dagRunId && Runs(events)[k].status == s;
      var i := EveryRunHasLatest(events, k);
      RunIsLatest(events, i);
    }
    forall s | s in latest
      ensures s in stored
    {
      var i :| 0 <= i < |events| && IsLatest(events, i) && events[i].key.dagRunId == dagRunId && events[i].status == s;
      RunIsLatest(events, i);
    }
  }

  /** Histories whose latest outcomes agree get the same verdict, however often each source was retried. */
  lemma VerdictIgnoresRetries(a: seq<Recorded>, b: seq<Recorded>, dagRunId: string, downstreamComplete: bool)
    requires LatestStatuses(a, dagRunId) == LatestStatuses(b, dagRunId)
    ensures Verdict(StatusesOf(Runs(a), dagRunId), downstreamComplete) ==
            Verdict(StatusesOf(Runs(b), dagRunId), downstreamComplete)
  {
    StatusesAreLatest(a, dagRunId);
    StatusesAreLatest(b, dagRunId);
  }

  /** A day succeeds exactly when it finished and every source, at least one, last came back healthy. */
  lemma SuccessIff(events: seq<Recorded>, dagRunId: string, downstreamComplete: bool)
    ensures Verdict(StatusesOf(Runs(events), dagRunId), downstreamComplete) == DAG_SUCCESS <==>
            && downstreamComplete
            && (exists i :: IsLatest(events, i) && events[i].key.dagRunId == dagRunId)
            && (forall i :: IsLatest(events, i) && events[i].key.dagRunId == dagRunId ==> Healthy(events[i].status))
  {
    StatusesAreLatest(events, dagRunId);
    var latest := LatestStatuses(events, dagRunId);
    if Verdict(latest, downstreamComplete) == DAG_SUCCESS {
      assert !(latest <= {FAILED});
      var s :| s in latest;
    }
    if i :| IsLatest(events, i) && events[i].key.dagRunId == dagRunId {
      assert events[i].status in latest;
    }
  }

  /** The latest outcome of a source of the day has the status. */
  ghost predicate EndsWith(events: seq<Recorded>, dagRunId: string, status: CollectionStatus) {
    exists i :: IsLatest(events, i) && events[i].key.dagRunId == dagRunId && events[i].status == status
  }

  /**
   * A day failed when no source ended with anything but a failure, one without a source
   * included. Otherwise it is incomplete until downstream is complete, and then partial
   * exactly when some source ended truncated or failed.
   */
  lemma DayStatusIs(events: seq<Recorded>, dagRunId: string, downstreamComplete: bool)
    ensures Verdict(StatusesOf(Runs(events), dagRunId), downstreamComplete) ==
      if !EndsWith(events, dagRunId, SUCCESS) && !EndsWith(events, dagRunId, NO_DATA) && !EndsWith(events, dagRunId, TRUNCATED) then DAG_FAILED
      else if !downstreamComplete then DAG_INCOMPLETE
      else if EndsWith(events, dagRunId, TRUNCATED) || EndsWith(events, dagRunId, FAILED) then DAG_PARTIAL
      else DAG_SUCCESS
  {
    StatusesAreLatest(events, dagRunId);
    var latest := LatestStatuses(events, dagRunId);
    forall s: CollectionStatus
      ensures s in latest <==> EndsWith(events, dagRunId, s)
    {
      if EndsWith(events, dagRunId, s) {
        var i :| IsLatest(events, i) && events[i].key.dagRunId == dagRunId && events[i].status == s;
        assert events[i].status in latest;
      }
    }
    VerdictByCases(latest, downstreamComplete);
  }

  /** Recording goes through exactly when no two sources of the table share a run identifier. */
  lemma RecordSucceedsIff(runs: map<RunKey, CollectionRun>, events: seq<Recorded>)
    requires DistinctIds(RunPk, runs)
    ensures PutAllChecked(MergeRun, RunPk, runs, RunWrites(events)) ==
            if DistinctIds(RunPk, PutAll(MergeRun, runs, RunWrites(events)))
            then Some(PutAll(MergeRun, runs, RunWrites(events))) else None
  {
    PutAllSucceedsIff(MergeRun, RunPk, runs, RunWrites(events));
  }

  class RunTable {
    var runs: map<RunKey, CollectionRun>
    var days: map<string, DagRun>
    /** Every outcome recorded so far. */
    ghost var history: seq<Recorded>

    ghost predicate Valid()
      reads this
    {
      runs == Runs(history) && DistinctIds(RunPk, runs)
    }

    constructor ()
      ensures Valid() && history == [] && days == map[]
    {
      runs, days, history := map[], map[], [];
      new;
      assert RunWrites([]) == [];
    }

    /** `upsert_collection_runs`; a run identifier used by two sources aborts the transaction. */
    method UpsertCollectionRuns(dagRunId: string, outcomes: seq<Outcome>, finishedAt: Time) returns (ok: bool)
      requires Valid()
      modifies this
      ensures Valid() && days == old(days)
      ensures history == old(history) + if ok then EventsOf(dagRunId, outcomes, finishedAt) else []
      ensures ok <==> DistinctIds(RunPk, Runs(old(history) + EventsOf(dagRunId, outcomes, finishedAt)))
    {
      ghost var events := EventsOf(dagRunId, outcomes, finishedAt);
      var start := runs;
      RecordSucceedsIff(start, events);
      RunsAppend(history, events);
      var stored: Option<map<RunKey, CollectionRun>> := Some(runs);
      for i := 0 to |outcomes|
        invariant stored == PutAllChecked(MergeRun, RunPk, start, RunWrites(events)[..i])
      {
        assert RunWrites(events)[..i + 1][..i] == RunWrites(events)[..i];
        if stored.Some? {
          var e := Recorded(RunKey(dagRunId, outcomes[i].sourceId), outcomes[i].status, finishedAt);
          stored := PutChecked(MergeRun, RunPk, stored.value, RunWrite(e));
        }
      }
      assert RunWrites(events)[..|outcomes|] == RunWrites(events);
      ok := stored.Some?;
      if ok {
        runs, history := stored.value, history + events;
      }
    }

    /** `open_dag_run` */
    method OpenDagRun(dagRunId: string, startedAt: Time)
      requires Valid()
      modifies this
      ensures Valid() && history == old(history)
      ensures days == old(days)[dagRunId := DagRun(DAG_INCOMPLETE, startedAt, None)]
    {
      days := days[dagRunId := DagRun(DAG_INCOMPLETE, startedAt, None)];
    }

    /** `resolve_dag_run_status` */
    method ResolveDagRunStatus(dagRunId: string, downstreamComplete: bool, finishedAt: Time) returns (status: DagStatus)
      requires Valid()
      modifies this
      ensures Valid() && history == old(history)
      ensures status == Verdict(LatestStatuses(history, dagRunId), downstreamComplete)
      ensures days == if dagRunId in old(days)
                      then old(days)[dagRunId := old(days)[dagRunId].(status := status, finishedAt := Some(finishedAt))]
                      else old(days)
    {
      var statuses := StatusesOf(runs, dagRunId);
      StatusesAreLatest(history, dagRunId);
      if statuses == {} || statuses == {FAILED} {
        status := DAG_FAILED;
      } else if !downstreamComplete {
        status := DAG_INCOMPLETE;
      } else if TRUNCATED in statuses || FAILED in statuses {
        status := DAG_PARTIAL;
      } else {
        status := DAG_SUCCESS;
      }
      VerdictByCases(statuses, downstreamComplete);
      if dagRunId in days {
        days := days[dagRunId := days[dagRunId].(status := status, finishedAt := Some(finishedAt))];
      }
    }
  }

  lemma VerdictByCases(statuses: set<CollectionStatus>, downstreamComplete: bool)
    ensures statuses == {} || statuses == {FAILED} <==> statuses <= {FAILED}
    ensures TRUNCATED in statuses || FAILED in statuses <==> exists s :: s in statuses && !Healthy(s)
  {
    if statuses <= {FAILED} && FAILED !in statuses {
      assert statuses == {};
    }
  }

  lemma RunsAppend(history: seq<Recorded>, events: seq<Recorded>)
    ensures Runs(history + events) == PutAll(MergeRun, Runs(history), RunWrites(events))
  {
    assert RunWrites(history + events) == RunWrites(history) + RunWrites(events);
    PutAllAppend(MergeRun, map[], RunWrites(history), RunWrites(events));
  }
}
