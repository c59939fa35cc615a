/**
 * The last approved state of every managed resource.
 *
 * Recording a workflow reads its approvals and commands, prepares one snapshot per
 * supported command and upserts them under a guard on the completion time. Which
 * snapshot each resource ends with does not depend on the order, or the
 * repetition, of recordings exactly when no two different snapshots tie for the
 * latest completion time. A command without a completion time counts as completed
 * whenever it is recorded, so recording it again can overwrite a newer snapshot.
 */
module ApprovedSnapshots {
  import opened Wrappers
  import Collections

  // ----- The rows a recording reads -----

  /** `status` is a column of the run that a recording does not read. */
  datatype RunRow = RunRow(workspaceId: string, bindingId: string, clusterId: string, commitSha: string, status: string)

  datatype ApprovalRow = ApprovalRow(approvalId: string, status: string)

  /** What `snapshot_from_kubernetes_object` makes of a desired manifest. */
  datatype Desired = Desired(kind: string, name: string, namespace: string, fields: map<string, string>)

  /** The diff of a command; `desired` is absent when it carries no manifest. */
  datatype DiffBody = DiffBody(
    desired: Option<Desired>, resource: string, namespace: string,
    workflowRunId: string, workspaceId: string, bindingId: string, clusterId: string, artifactDigest: string)

  datatype CommandRow = CommandRow(
    commandId: string, status: string, approvalRef: string, eligible: bool, diff: Option<DiffBody>, completedAt: Option<int>)

  // ----- The snapshot table -----

  datatype Key = Key(workspaceId: string, bindingId: string, clusterId: string, namespace: string, kind: string, name: string)

  datatype Snapshot = Snapshot(
    workflowRunId: string, commandId: string, commitSha: string, artifactDigest: string,
    fields: map<string, string>, completedAt: int)

  datatype Entry = Entry(key: Key, snapshot: Snapshot)

  type Table = map<Key, Snapshot>

  /** One guarded upsert. */
  function Put(table: Table, e: Entry): Table {
    if e.key !in table || table[e.key].completedAt <= e.snapshot.completedAt then table[e.key := e.snapshot] else table
  }

  function PutAll(table: Table, entries: seq<Entry>): Table {
    if entries == [] then table
    else Put(PutAll(table, entries[..|entries| - 1]), entries[|entries| - 1])
  }

  // ----- Preparing -----

  const COMPLETED := "completed"
  const GRANTED := "granted"
  const SUCCEEDED := "succeeded"

  /** The diff of a command agrees with its manifest and with the run. */
  predicate Agrees(fold: string -> string, workflowRunId: string, run: RunRow, d: DiffBody) {
    && d.desired.Some?
    && fold(d.desired.value.kind + "/" + d.desired.value.name) == fold(d.resource)
    && d.desired.value.namespace == d.namespace
    && d.workflowRunId == workflowRunId && d.workspaceId == run.workspaceId
    && d.bindingId == run.bindingId && d.clusterId == run.clusterId
  }

  /** The snapshot of a command, when its kind is supported. */
  function EntriesOf(workflowRunId: string, run: RunRow, c: CommandRow, now: int): seq<Entry>
    requires c.diff.Some? && c.diff.value.desired.Some?
  {
    var d := c.diff.value;
    if d.desired.value.fields == map[] then []
    else [Entry(
            Key(run.workspaceId, run.bindingId, run.clusterId, d.desired.value.namespace, d.desired.value.kind, d.desired.value.name),
            Snapshot(workflowRunId, c.commandId, run.commitSha, d.artifactDigest, d.desired.value.fields,
                     if c.completedAt.Some? then c.completedAt.value else now))]
  }

  predicate AllAgree(fold: string -> string, workflowRunId: string, run: RunRow, commands: seq<CommandRow>) {
    forall i :: 0 <= i < |commands| ==> commands[i].diff.Some? && Agrees(fold, workflowRunId, run, commands[i].diff.value)
  }

  /** The snapshots of all commands, in order. */
  function Prepared(workflowRunId: string, run: RunRow, commands: seq<CommandRow>, now: int): seq<Entry>
    requires forall i :: 0 <= i < |commands| ==> commands[i].diff.Some? && commands[i].diff.value.desired.Some?
  {
    if commands == [] then []
    else
      var n := |commands| - 1;
      Prepared(workflowRunId, run, commands[..n], now) + EntriesOf(workflowRunId, run, commands[n], now)
  }

  lemma AgreeOneMore(fold: string -> string, workflowRunId: string, run: RunRow, commands: seq<CommandRow>, i: int, now: int)
    requires 0 <= i < |commands| && AllAgree(fold, workflowRunId, run, commands[..i])
    ensures AllAgree(fold, workflowRunId, run, commands[..i + 1]) <==>
            commands[i].diff.Some? && Agrees(fold, workflowRunId, run, commands[i].diff.value)
    ensures AllAgree(fold, workflowRunId, run, commands) ==> AllAgree(fold, workflowRunId, run, commands[..i + 1])
    ensures AllAgree(fold, workflowRunId, run, commands[..i + 1]) ==>
      Prepared(workflowRunId, run, commands[..i + 1], now) ==
      Prepared(workflowRunId, run, commands[..i], now) + EntriesOf(workflowRunId, run, commands[i], now)
  {
    var longer := commands[..i + 1];
    assert longer[..i] == commands[..i] && longer[i] == commands[i];
    assert forall j :: 0 <= j < i ==> longer[j] == commands[..i][j];
  }

  /** `prepare_approved_resource_snapshots`; `None` when some command does not agree with the run. */
  method PrepareApprovedResourceSnapshots(
    fold: string -> string, workflowRunId: string, run: RunRow, commands: seq<CommandRow>, now: int)
    returns (r: Option<(nat, seq<Entry>)>)
    ensures r.Some? <==> AllAgree(fold, workflowRunId, run, commands)
    ensures r.Some? ==> r.value == (|commands|, Prepared(workflowRunId, run, commands, now))
  {
    var prepared: seq<Entry> := [];
    for i := 0 to |commands|
      invariant AllAgree(fold, workflowRunId, run, commands[..i])
      invariant prepared == Prepared(workflowRunId, run, commands[..i], now)
    {
      AgreeOneMore(fold, workflowRunId, run, commands, i, now);
      if commands[i].diff.None? || !Agrees(fold, workflowRunId, run, commands[i].diff.value) {
        return None;
      }
      prepared := prepared + EntriesOf(workflowRunId, run, commands[i], now);
    }
    assert commands[..|commands|] == commands;
    return Some((|commands|, prepared));
  }

  // ----- Recording a workflow -----

  /** A workflow run with the rows that a recording of it reads. */
  datatype Workflow = Workflow(
    workflowRunId: string, run: Option<RunRow>, approvals: seq<ApprovalRow>, commands: seq<CommandRow>)

  /** One call, with the clock of its transaction. */
  datatype Call = Call(workflow: Workflow, now: int)

  predicate AllGranted(approvals: seq<ApprovalRow>) {
    forall i :: 0 <= i < |approvals| ==> approvals[i].status == GRANTED
  }

  predicate AllApplied(commands: seq<CommandRow>) {
    forall i :: 0 <= i < |commands| ==> commands[i].status == COMPLETED && commands[i].eligible
  }

  predicate IsReferred(commands: seq<CommandRow>, approvalId: string) {
    exists j :: 0 <= j < |commands| && commands[j].approvalRef == approvalId
  }

  /** Every approval of the run is granted and used by a command, and every command is completed and eligible. */
  predicate Decided(w: Workflow) {
    && w.run.Some?
    && AllGranted(w.approvals)
    && (forall i :: 0 <= i < |w.approvals| ==> IsReferred(w.commands, w.approvals[i].approvalId))
    && w.commands != [] && AllApplied(w.commands)
  }

  /** The workflow is decided, and every command agrees with the run. */
  predicate Eligible(fold: string -> string, w: Workflow) {
    Decided(w) && AllAgree(fold, w.workflowRunId, w.run.value, w.commands)
  }

  /** The tests on the approvals and commands of a run. */
  method IsDecided(w: Workflow) returns (ok: bool)
    ensures ok == Decided(w)
  {
    if w.run.None? {
      return false;
    }
    var granted := set i | 0 <= i < |w.approvals| && w.approvals[i].status == GRANTED :: w.approvals[i].approvalId;
    if !AllGranted(w.approvals) {
      return false;
    }
    var refs := set j | 0 <= j < |w.commands| :: w.commands[j].approvalRef;
    if !(granted <= refs) {
      return false;
    }
    assert forall i :: 0 <= i < |w.approvals| ==> w.approvals[i].approvalId in refs;
    return w.commands != [] && AllApplied(w.commands);
  }

  function Recorded(fold: string -> string, c: Call): seq<Entry> {
    var w := c.workflow;
    if Eligible(fold, w) then Prepared(w.workflowRunId, w.run.value, w.commands, c.now) else []
  }

  class SnapshotTable {
    var table: Table

    constructor ()
      ensures table == map[]
    {
      table := map[];
    }

    /** `record_approved_workflow_snapshots`: all prepared snapshots are upserted, or nothing is. */
    method Record(fold: string -> string, w: Workflow, now: int) returns (handled: nat)
      modifies this
      ensures handled == if w.run.Some? && Approved(fold, w, w.run.value) then |w.commands| else 0
      ensures table == PutAll(old(table), Recorded(fold, Call(w, now)))
    {
      EligibleIffApproved(fold, w);
      var decided := IsDecided(w);
      if !decided {
        return 0;
      }
      var prepared := PrepareApprovedResourceSnapshots(fold, w.workflowRunId, w.run.value, w.commands, now);
      if prepared.None? {
        return 0;
      }
      var entries := prepared.value.1;
      for i := 0 to |entries|
        invariant table == PutAll(old(table), entries[..i])
      {
        assert entries[..i + 1][..i] == entries[..i];
        table := Put(table, entries[i]);
      }
      assert entries[..|entries|] == entries;
      return prepared.value.0;
    }
  }

  // ----- Latest wins -----

  ghost function Members(entries: seq<Entry>): set<Entry> {
    set e | e in entries
  }

  /** `s` is a snapshot with the latest completion time for the key. */
  ghost predicate IsLatest(entries: set<Entry>, key: Key, s: Snapshot) {
    Entry(key, s) in entries && forall e :: e in entries && e.key == key ==> e.snapshot.completedAt <= s.completedAt
  }

  /** After any sequence of upserts each delivered key holds a latest snapshot, and no other key exists. */
  lemma {:induction false} StoredIsLatest(entries: seq<Entry>)
    ensures forall k :: k in PutAll(map[], entries) ==> IsLatest(Members(entries), k, PutAll(map[], entries)[k])
    ensures forall e :: e in entries ==> e.key in PutAll(map[], entries)
  {
    if entries != [] {
      var n := |entries| - 1;
      StoredIsLatest(entries[..n]);
      assert entries == entries[..n] + [entries[n]];
      assert Members(entries) == Members(entries[..n]) + {entries[n]};
    }
  }

  /** No two different snapshots of a resource tie for the latest completion time. */
  ghost predicate NoTies(entries: set<Entry>) {
    forall k, s, t :: IsLatest(entries, k, s) && IsLatest(entries, k, t) ==> s == t
  }

  ghost predicate OrderIndependent(entries: set<Entry>) {
    forall xs, ys :: Members(xs) == entries && Members(ys) == entries ==> PutAll(map[], xs) == PutAll(map[], ys)
  }

  /** A latest snapshot that is recorded last is the one that stays. */
  lemma LatestRecordedLast(xs: seq<Entry>, k: Key, s: Snapshot)
    requires IsLatest(Members(xs), k, s)
    ensures Members(xs + [Entry(k, s)]) == Members(xs)
    ensures k in PutAll(map[], xs + [Entry(k, s)]) && PutAll(map[], xs + [Entry(k, s)])[k] == s
  {
    var e := Entry(k, s);
    StoredIsLatest(xs);
    assert (xs + [e])[..|xs|] == xs;
    assert e in xs;
    var stored := PutAll(map[], xs);
    assert IsLatest(Members(xs), k, stored[k]);
    assert Entry(k, stored[k]) in Members(xs);
  }

  /** The recorded snapshots decide the table, whatever the order and repetition, exactly when there are no ties. */
  lemma DecidedIffNoTies(entries: set<Entry>)
    ensures OrderIndependent(entries) <==> NoTies(entries)
  {
    if NoTies(entries) {
      forall xs, ys | Members(xs) == entries && Members(ys) == entries
        ensures PutAll(map[], xs) == PutAll(map[], ys)
      {
        SameTable(xs, ys);
      }
    } else {
      var k, s, t :| IsLatest(entries, k, s) && IsLatest(entries, k, t) && s != t;
      var xs := Collections.Enumerate(entries);
      assert Members(xs) == entries;
      LatestRecordedLast(xs, k, s);
      LatestRecordedLast(xs, k, t);
    }
  }

  lemma SameTable(xs: seq<Entry>, ys: seq<Entry>)
    requires Members(xs) == Members(ys) && NoTies(Members(xs))
    ensures PutAll(map[], xs) == PutAll(map[], ys)
  {
    StoredIsLatest(xs);
    StoredIsLatest(ys);
    var a, b := PutAll(map[], xs), PutAll(map[], ys);
    forall k | k in a
      ensures k in b && b[k] == a[k]
    {
      assert Entry(k, a[k]) in Members(ys);
    }
    forall k | k in b
      ensures k in a
    {
      assert Entry(k, b[k]) in Members(xs);
    }
  }

  // ----- Whole runs -----

  function AllRecorded(fold: string -> string, calls: seq<Call>): seq<Entry> {
    if calls == [] then []
    else AllRecorded(fold, calls[..|calls| - 1]) + Recorded(fold, calls[|calls| - 1])
  }

  /** The table after the calls, one `Record` after another. */
  function Run(fold: string -> string, calls: seq<Call>): Table {
    if calls == [] then map[]
    else PutAll(Run(fold, calls[..|calls| - 1]), Recorded(fold, calls[|calls| - 1]))
  }

  lemma {:induction false} PutAllAppend(table: Table, xs: seq<Entry>, ys: seq<Entry>)
    ensures PutAll(table, xs + ys) == PutAll(PutAll(table, xs), ys)
  {
    if ys == [] {
      assert xs + ys == xs;
    } else {
      var n := |ys| - 1;
      assert (xs + ys)[..|xs| + n] == xs + ys[..n];
      PutAllAppend(table, xs, ys[..n]);
    }
  }

  lemma {:induction false} RunIsPutAll(fold: string -> string, calls: seq<Call>)
    ensures Run(fold, calls) == PutAll(map[], AllRecorded(fold, calls))
  {
    if calls != [] {
      var n := |calls| - 1;
      RunIsPutAll(fold, calls[..n]);
      PutAllAppend(map[], AllRecorded(fold, calls[..n]), Recorded(fold, calls[n]));
    }
  }

  /** Every recorded entry comes from one of the calls. */
  lemma {:induction false} RecordingCall(fold: string -> string, calls: seq<Call>, e: Entry) returns (i: nat)
    requires e in AllRecorded(fold, calls)
    ensures i < |calls| && e in Recorded(fold, calls[i])
  {
    var n := |calls| - 1;
    if e in Recorded(fold, calls[n]) {
      i := n;
    } else {
      i := RecordingCall(fold, calls[..n], e);
    }
  }

  /** Every entry of a call is recorded. */
  lemma {:induction false} CallIsRecorded(fold: string -> string, calls: seq<Call>, i: nat, e: Entry)
    requires i < |calls| && e in Recorded(fold, calls[i])
    ensures e in AllRecorded(fold, calls)
  {
    if i < |calls| - 1 {
      CallIsRecorded(fold, calls[..|calls| - 1], i, e);
    }
  }

  // ----- What is stored, row by row -----

  /** The diff of a command of the run is for its own manifest, run, workspace, binding and cluster. */
  predicate DiffOfRun(fold: string -> string, workflowRunId: string, run: RunRow, d: DiffBody, desired: Desired) {
    && d.desired == Some(desired)
    && fold(desired.kind + "/" + desired.name) == fold(d.resource) && desired.namespace == d.namespace
    && (d.workflowRunId, d.workspaceId, d.bindingId, d.clusterId) == (workflowRunId, run.workspaceId, run.bindingId, run.clusterId)
  }

  /** The command was completed, its result is eligible, and its diff is one of the run. */
  ghost predicate AppliedCommand(fold: string -> string, workflowRunId: string, run: RunRow, c: CommandRow) {
    c.status == "completed" && c.eligible && exists d, desired :: c.diff == Some(d) && DiffOfRun(fold, workflowRunId, run, d, desired)
  }

  /** All approvals of the run were granted and used by commands, and there are commands, all of them applied. */
  ghost predicate Approved(fold: string -> string, w: Workflow, run: RunRow) {
    && w.run == Some(run)
    && (forall a :: a in w.approvals ==> a.status == "granted" && exists c :: c in w.commands && c.approvalRef == a.approvalId)
    && w.commands != [] && (forall c :: c in w.commands ==> AppliedCommand(fold, w.workflowRunId, run, c))
  }

  /** The snapshot of a command that changes supported fields, completed at its own time or else at the clock of the call. */
  ghost predicate SnapshotOf(workflowRunId: string, run: RunRow, c: CommandRow, now: int, e: Entry) {
    exists d, desired ::
      && c.diff == Some(d) && d.desired == Some(desired) && desired.fields != map[]
      && e.key == Key(run.workspaceId, run.bindingId, run.clusterId, desired.namespace, desired.kind, desired.name)
      && e.snapshot.(completedAt := 0) ==
         Snapshot(workflowRunId, c.commandId, run.commitSha, d.artifactDigest, desired.fields, 0)
      && c.completedAt in {None, Some(e.snapshot.completedAt)}
      && (c.completedAt.None? ==> e.snapshot.completedAt == now)
  }

  lemma EligibleIffApproved(fold: string -> string, w: Workflow)
    ensures Eligible(fold, w) <==> w.run.Some? && Approved(fold, w, w.run.value)
  {
    if Eligible(fold, w) {
      forall a | a in w.approvals
        ensures a.status == "granted" && exists c :: c in w.commands && c.approvalRef == a.approvalId
      {
        var i :| 0 <= i < |w.approvals| && w.approvals[i] == a;
        var j :| 0 <= j < |w.commands| && w.commands[j].approvalRef == w.approvals[i].approvalId;
        assert w.commands[j] in w.commands;
      }
      forall c | c in w.commands
        ensures AppliedCommand(fold, w.workflowRunId, w.run.value, c)
      {
        var i :| 0 <= i < |w.commands| && w.commands[i] == c;
        assert DiffOfRun(fold, w.workflowRunId, w.run.value, c.diff.value, c.diff.value.desired.value);
      }
    }
    if w.run.Some? && Approved(fold, w, w.run.value) {
      ApprovedIsDecided(fold, w);
      forall i | 0 <= i < |w.commands|
        ensures w.commands[i].diff.Some? && Agrees(fold, w.workflowRunId, w.run.value, w.commands[i].diff.value)
      {
        assert AppliedCommand(fold, w.workflowRunId, w.run.value, w.commands[i]);
      }
    }
  }

  lemma ApprovedIsDecided(fold: string -> string, w: Workflow)
    requires w.run.Some? && Approved(fold, w, w.run.value)
    ensures Decided(w)
  {
    forall i | 0 <= i < |w.approvals|
      ensures w.approvals[i].status == GRANTED
    {
      assert w.approvals[i] in w.approvals;
    }
    forall i | 0 <= i < |w.approvals|
      ensures IsReferred(w.commands, w.approvals[i].approvalId)
    {
      assert w.approvals[i] in w.approvals;
      var c :| c in w.commands && c.approvalRef == w.approvals[i].approvalId;
      var j :| 0 <= j < |w.commands| && w.commands[j] == c;
    }
    forall i | 0 <= i < |w.commands|
      ensures w.commands[i].status == COMPLETED && w.commands[i].eligible
    {
      assert AppliedCommand(fold, w.workflowRunId, w.run.value, w.commands[i]);
    }
  }

  lemma SnapshotOfIsEntry(workflowRunId: string, run: RunRow, c: CommandRow, now: int, e: Entry)
    requires c.diff.Some? && c.diff.value.desired.Some?
    ensures e in EntriesOf(workflowRunId, run, c, now) <==> SnapshotOf(workflowRunId, run, c, now, e)
  {
  }

  lemma {:induction false} PreparedIff(workflowRunId: string, run: RunRow, commands: seq<CommandRow>, now: int, e: Entry)
    requires forall i :: 0 <= i < |commands| ==> commands[i].diff.Some? && commands[i].diff.value.desired.Some?
    ensures e in Prepared(workflowRunId, run, commands, now) <==> exists c :: c in commands && SnapshotOf(workflowRunId, run, c, now, e)
  {
    if commands != [] {
      var n := |commands| - 1;
      PreparedIff(workflowRunId, run, commands[..n], now, e);
      SnapshotOfIsEntry(workflowRunId, run, commands[n], now, e);
      assert commands == commands[..n] + [commands[n]];
    }
  }

  /** A call records exactly the snapshots of the commands of an approved workflow. */
  lemma RecordedIff(fold: string -> string, w: Workflow, now: int, e: Entry)
    ensures e in Recorded(fold, Call(w, now)) <==>
      && w.run.Some? && Approved(fold, w, w.run.value)
      && exists c :: c in w.commands && SnapshotOf(w.workflowRunId, w.run.value, c, now, e)
  {
    EligibleIffApproved(fold, w);
    if Eligible(fold, w) {
      PreparedIff(w.workflowRunId, w.run.value, w.commands, now, e);
    }
  }

  /** The i-th call is for an approved workflow, one of whose commands made the entry. */
  ghost predicate ApprovedBy(fold: string -> string, call: Call, e: Entry) {
    && call.workflow.run.Some? && Approved(fold, call.workflow, call.workflow.run.value)
    && exists c :: c in call.workflow.commands && SnapshotOf(call.workflow.workflowRunId, call.workflow.run.value, c, call.now, e)
  }

  /** Every stored snapshot was made by a command of an approved workflow. */
  lemma StoredIsApproved(fold: string -> string, calls: seq<Call>, k: Key)
    requires k in Run(fold, calls)
    ensures exists i :: 0 <= i < |calls| && ApprovedBy(fold, calls[i], Entry(k, Run(fold, calls)[k]))
  {
    RunIsPutAll(fold, calls);
    StoredIsLatest(AllRecorded(fold, calls));
    var e := Entry(k, Run(fold, calls)[k]);
    assert e in Members(AllRecorded(fold, calls));
    var i := RecordingCall(fold, calls, e);
    RecordedIff(fold, calls[i].workflow, calls[i].now, e);
    assert ApprovedBy(fold, calls[i], e);
  }

  /** Every command of an approved workflow that was recorded is stored, unless a later one of its resource is. */
  lemma ApprovedIsStored(fold: string -> string, calls: seq<Call>, i: nat, e: Entry)
    requires i < |calls| && ApprovedBy(fold, calls[i], e)
    ensures e.key in Run(fold, calls) && e.snapshot.completedAt <= Run(fold, calls)[e.key].completedAt
  {
    RecordedIff(fold, calls[i].workflow, calls[i].now, e);
    CallIsRecorded(fold, calls, i, e);
    RunIsPutAll(fold, calls);
    StoredIsLatest(AllRecorded(fold, calls));
  }

  // ----- Redelivery at another clock -----

  /** The command makes a snapshot. */
  predicate MakesSnapshot(c: CommandRow) {
    c.diff.Some? && c.diff.value.desired.Some? && c.diff.value.desired.value.fields != map[]
  }

  /** Every snapshot of the workflow carries the completion time of its command. */
  predicate Timed(fold: string -> string, w: Workflow) {
    Eligible(fold, w) ==>
      forall i :: 0 <= i < |w.commands| && MakesSnapshot(w.commands[i]) ==> w.commands[i].completedAt.Some?
  }

  /** The runs recorded, whatever the clock. */
  ghost predicate Delivered(calls: seq<Call>, w: Workflow) {
    exists i :: 0 <= i < |calls| && calls[i].workflow == w
  }

  ghost predicate AllTimed(fold: string -> string, calls: seq<Call>) {
    forall i :: 0 <= i < |calls| ==> Timed(fold, calls[i].workflow)
  }

  lemma {:induction false} PreparedIgnoresClock(workflowRunId: string, run: RunRow, commands: seq<CommandRow>, now: int, later: int)
    requires forall i :: 0 <= i < |commands| ==> commands[i].diff.Some? && commands[i].diff.value.desired.Some?
    requires forall i :: 0 <= i < |commands| && MakesSnapshot(commands[i]) ==> commands[i].completedAt.Some?
    ensures Prepared(workflowRunId, run, commands, now) == Prepared(workflowRunId, run, commands, later)
  {
    if commands != [] {
      PreparedIgnoresClock(workflowRunId, run, commands[..|commands| - 1], now, later);
    }
  }

  /** What a timed workflow records does not depend on the clock. */
  lemma RecordedIgnoresClock(fold: string -> string, w: Workflow, now: int, later: int)
    requires Timed(fold, w)
    ensures Recorded(fold, Call(w, now)) == Recorded(fold, Call(w, later))
  {
    if Eligible(fold, w) {
      PreparedIgnoresClock(w.workflowRunId, w.run.value, w.commands, now, later);
    }
  }

  /**
   * Recording the same workflows in another order, at other clocks, or some of
   * them again, gives the same table.
   */
  lemma RecordingOrderDoesNotMatter(fold: string -> string, calls: seq<Call>, calls': seq<Call>)
    requires forall w :: Delivered(calls, w) <==> Delivered(calls', w)
    requires AllTimed(fold, calls) && NoTies(Members(AllRecorded(fold, calls)))
    ensures Run(fold, calls) == Run(fold, calls')
  {
    RunIsPutAll(fold, calls);
    RunIsPutAll(fold, calls');
    RecordedElsewhere(fold, calls, calls');
    forall i | 0 <= i < |calls'|
      ensures Timed(fold, calls'[i].workflow)
    {
      assert Delivered(calls', calls'[i].workflow);
      var j :| 0 <= j < |calls| && calls[j].workflow == calls'[i].workflow;
    }
    RecordedElsewhere(fold, calls', calls);
    assert Members(AllRecorded(fold, calls)) == Members(AllRecorded(fold, calls'));
    SameTable(AllRecorded(fold, calls), AllRecorded(fold, calls'));
  }

  lemma RecordedElsewhere(fold: string -> string, calls: seq<Call>, calls': seq<Call>)
    requires AllTimed(fold, calls) && forall w :: Delivered(calls, w) ==> Delivered(calls', w)
    ensures forall e :: e in AllRecorded(fold, calls) ==> e in AllRecorded(fold, calls')
  {
    forall e | e in AllRecorded(fold, calls)
      ensures e in AllRecorded(fold, calls')
    {
      var i := RecordingCall(fold, calls, e);
      assert Delivered(calls, calls[i].workflow);
      var j :| 0 <= j < |calls'| && calls'[j].workflow == calls[i].workflow;
      RecordedIgnoresClock(fold, calls[i].workflow, calls[i].now, calls'[j].now);
      CallIsRecorded(fold, calls', j, e);
    }
  }

  /** One snapshot of the resource is the latest one recorded. */
  ghost predicate Settled(fold: string -> string, calls: seq<Call>, k: Key) {
    forall s, t :: IsLatest(Members(AllRecorded(fold, calls)), k, s) && IsLatest(Members(AllRecorded(fold, calls)), k, t) ==> s == t
  }

  ghost function RowOf(table: Table, k: Key): Option<Snapshot> {
    if k in table then Some(table[k]) else None
  }

  /** The run id identifies a workflow. */
  ghost predicate OnePerRun(calls: seq<Call>) {
    forall i, j :: 0 <= i < |calls| && 0 <= j < |calls| && calls[i].workflow.workflowRunId == calls[j].workflow.workflowRunId ==>
      calls[i].workflow == calls[j].workflow
  }

  /** Recording the workflow once more changes no resource whose latest snapshot is settled. */
  ghost predicate ReplaySafe(fold: string -> string, w: Workflow) {
    forall calls: seq<Call>, now: int, k: Key {:trigger Run(fold, calls + [Call(w, now)]), Settled(fold, calls, k)} ::
      OnePerRun(calls) && Delivered(calls, w) && Settled(fold, calls, k) ==>
        RowOf(Run(fold, calls + [Call(w, now)]), k) == RowOf(Run(fold, calls), k)
  }

  lemma TimedReplay(fold: string -> string, w: Workflow, calls: seq<Call>, now: int, k: Key)
    requires Timed(fold, w) && Delivered(calls, w) && Settled(fold, calls, k)
    ensures RowOf(Run(fold, calls + [Call(w, now)]), k) == RowOf(Run(fold, calls), k)
  {
    var again := calls + [Call(w, now)];
    var i :| 0 <= i < |calls| && calls[i].workflow == w;
    RecordedIgnoresClock(fold, w, now, calls[i].now);
    assert again[..|calls|] == calls;
    assert AllRecorded(fold, again) == AllRecorded(fold, calls) + Recorded(fold, Call(w, now));
    forall e | e in Recorded(fold, Call(w, now))
      ensures e in AllRecorded(fold, calls)
    {
      CallIsRecorded(fold, calls, i, e);
    }
    assert Members(AllRecorded(fold, again)) == Members(AllRecorded(fold, calls));
    StoredOf(fold, calls, k);
    StoredOf(fold, again, k);
  }

  /** A resource is stored exactly when it was recorded, with a latest snapshot. */
  lemma StoredOf(fold: string -> string, calls: seq<Call>, k: Key)
    ensures k in Run(fold, calls) <==> exists e :: e in Members(AllRecorded(fold, calls)) && e.key == k
    ensures k in Run(fold, calls) ==> IsLatest(Members(AllRecorded(fold, calls)), k, Run(fold, calls)[k])
  {
    RunIsPutAll(fold, calls);
    StoredIsLatest(AllRecorded(fold, calls));
    if k in Run(fold, calls) {
      assert Entry(k, Run(fold, calls)[k]) in Members(AllRecorded(fold, calls));
    }
  }

  // ----- Without completion times -----

  /** All completion times are before `t`. */
  predicate Before(commands: seq<CommandRow>, t: int) {
    forall i :: 0 <= i < |commands| && commands[i].completedAt.Some? ==> commands[i].completedAt.value < t
  }

  lemma {:induction false} SomeLaterTime(commands: seq<CommandRow>) returns (t: int)
    ensures Before(commands, t)
  {
    if commands == [] {
      t := 0;
    } else {
      var n := |commands| - 1;
      t := SomeLaterTime(commands[..n]);
      if commands[n].completedAt.Some? && t <= commands[n].completedAt.value {
        t := commands[n].completedAt.value + 1;
      }
      assert forall i :: 0 <= i < n ==> commands[..n][i] == commands[i];
    }
  }

  lemma {:induction false} PreparedBefore(workflowRunId: string, run: RunRow, commands: seq<CommandRow>, now: int, t: int, e: Entry)
    requires forall i :: 0 <= i < |commands| ==> commands[i].diff.Some? && commands[i].diff.value.desired.Some?
    requires Before(commands, t) && now < t && e in Prepared(workflowRunId, run, commands, now)
    ensures e.snapshot.completedAt < t
  {
    var n := |commands| - 1;
    if e in Prepared(workflowRunId, run, commands[..n], now) {
      PreparedBefore(workflowRunId, run, commands[..n], now, t, e);
    }
  }

  lemma {:induction false} PreparedHas(workflowRunId: string, run: RunRow, commands: seq<CommandRow>, now: int, i: nat)
    requires forall j :: 0 <= j < |commands| ==> commands[j].diff.Some? && commands[j].diff.value.desired.Some?
    requires i < |commands| && MakesSnapshot(commands[i])
    ensures EntriesOf(workflowRunId, run, commands[i], now)[0] in Prepared(workflowRunId, run, commands, now)
  {
    if i < |commands| - 1 {
      PreparedHas(workflowRunId, run, commands[..|commands| - 1], now, i);
    }
  }

  lemma {:induction false} PreparedOf(workflowRunId: string, run: RunRow, commands: seq<CommandRow>, now: int, e: Entry)
    requires forall j :: 0 <= j < |commands| ==> commands[j].diff.Some? && commands[j].diff.value.desired.Some?
    requires e in Prepared(workflowRunId, run, commands, now)
    ensures e.snapshot.workflowRunId == workflowRunId
  {
    var n := |commands| - 1;
    if e in Prepared(workflowRunId, run, commands[..n], now) {
      PreparedOf(workflowRunId, run, commands[..n], now, e);
    }
  }

  /** The snapshot of the i-th command at a clock. */
  function SnapshotAt(fold: string -> string, w: Workflow, i: nat, now: int): Entry
    requires Eligible(fold, w) && i < |w.commands| && MakesSnapshot(w.commands[i])
  {
    EntriesOf(w.workflowRunId, w.run.value, w.commands[i], now)[0]
  }

  /** Another workflow, which changes the resource of the i-th command and completes at `t`. */
  function Rival(w: Workflow, i: nat, t: int): Workflow
    requires i < |w.commands| && MakesSnapshot(w.commands[i])
  {
    var c, runId := w.commands[i], w.workflowRunId + "'";
    var command := c.(commandId := c.commandId + "'", diff := Some(c.diff.value.(workflowRunId := runId)), completedAt := Some(t));
    Workflow(runId, w.run, [], [command])
  }

  lemma RivalRecords(fold: string -> string, w: Workflow, i: nat, t: int, now: int)
    requires Eligible(fold, w) && i < |w.commands| && MakesSnapshot(w.commands[i])
    ensures Eligible(fold, Rival(w, i, t)) && Timed(fold, Rival(w, i, t))
    ensures var e := SnapshotAt(fold, w, i, t);
      Recorded(fold, Call(Rival(w, i, t), now)) ==
      [Entry(e.key, e.snapshot.(workflowRunId := w.workflowRunId + "'", commandId := w.commands[i].commandId + "'", completedAt := t))]
  {
    var r := Rival(w, i, t);
    assert r.commands[..0] == [];
    assert Prepared(r.workflowRunId, r.run.value, r.commands[..0], now) == [];
  }

  /**
   * A workflow whose snapshot has no completion time overwrites a newer snapshot
   * of another workflow when it is recorded again.
   */
  lemma UntimedReplayOverwrites(fold: string -> string, w: Workflow, i: nat)
    returns (calls: seq<Call>, now: int, k: Key)
    requires Eligible(fold, w) && i < |w.commands| && MakesSnapshot(w.commands[i]) && w.commands[i].completedAt.None?
    ensures |calls| == 2 && calls[0].now < calls[1].now < now && calls[0].workflow == w
    ensures calls[1].workflow.workflowRunId != w.workflowRunId && OnePerRun(calls)
    ensures Timed(fold, calls[1].workflow) && Settled(fold, calls, k)
    ensures k in Run(fold, calls) && Run(fold, calls)[k].workflowRunId == calls[1].workflow.workflowRunId
    ensures Run(fold, calls)[k].completedAt == calls[1].now
    ensures k in Run(fold, calls + [Call(w, now)]) && Run(fold, calls + [Call(w, now)])[k].workflowRunId == w.workflowRunId
  {
    var t := SomeLaterTime(w.commands);
    calls, now := [Call(w, t - 1), Call(Rival(w, i, t), t)], t + 1;
    k := SnapshotAt(fold, w, i, t).key;
    RivalIsAnother(w, i, t, calls);
    RivalIsStored(fold, w, i, t, calls);
    ReplayIsStored(fold, w, i, calls, t);
  }

  lemma RivalIsAnother(w: Workflow, i: nat, t: int, calls: seq<Call>)
    requires i < |w.commands| && MakesSnapshot(w.commands[i]) && calls == [Call(w, t - 1), Call(Rival(w, i, t), t)]
    ensures Rival(w, i, t).workflowRunId != w.workflowRunId && OnePerRun(calls)
  {
    assert |Rival(w, i, t).workflowRunId| == |w.workflowRunId| + 1;
  }

  lemma RivalIsStored(fold: string -> string, w: Workflow, i: nat, t: int, calls: seq<Call>)
    requires Eligible(fold, w) && i < |w.commands| && MakesSnapshot(w.commands[i]) && Before(w.commands, t)
    requires calls == [Call(w, t - 1), Call(Rival(w, i, t), t)]
    ensures var k, once := SnapshotAt(fold, w, i, t).key, Run(fold, calls);
      && Timed(fold, calls[1].workflow) && Settled(fold, calls, k)
      && k in once && once[k].completedAt == t && once[k].workflowRunId == calls[1].workflow.workflowRunId
    ensures forall e :: e in AllRecorded(fold, calls) ==> e.snapshot.completedAt <= t
  {
    RivalRecords(fold, w, i, t, t);
    RivalIsLatest(fold, w, i, t, calls);
    StoredOf(fold, calls, SnapshotAt(fold, w, i, t).key);
  }

  /** Recorded last, at a clock after every completion time, the workflow owns the resource. */
  lemma ReplayIsStored(fold: string -> string, w: Workflow, i: nat, calls: seq<Call>, t: int)
    requires Eligible(fold, w) && i < |w.commands| && MakesSnapshot(w.commands[i]) && w.commands[i].completedAt.None?
    requires forall e :: e in AllRecorded(fold, calls) ==> e.snapshot.completedAt <= t
    ensures var k, again := SnapshotAt(fold, w, i, t).key, Run(fold, calls + [Call(w, t + 1)]);
      k in again && again[k].workflowRunId == w.workflowRunId
  {
    var c, latest := Call(w, t + 1), SnapshotAt(fold, w, i, t + 1);
    PreparedHas(w.workflowRunId, w.run.value, w.commands, t + 1, i);
    LastCallIsStored(fold, calls, c, latest);
    PreparedOf(w.workflowRunId, w.run.value, w.commands, t + 1, Entry(latest.key, Run(fold, calls + [c])[latest.key]));
  }

  /** A call that records something later than all before it stores one of its own entries. */
  lemma LastCallIsStored(fold: string -> string, calls: seq<Call>, c: Call, latest: Entry)
    requires latest in Recorded(fold, c)
    requires forall e :: e in AllRecorded(fold, calls) ==> e.snapshot.completedAt < latest.snapshot.completedAt
    ensures latest.key in Run(fold, calls + [c])
    ensures Entry(latest.key, Run(fold, calls + [c])[latest.key]) in Recorded(fold, c)
  {
    var again := calls + [c];
    CallIsRecorded(fold, again, |calls|, latest);
    StoredOf(fold, again, latest.key);
    var stored := Entry(latest.key, Run(fold, again)[latest.key]);
    assert again[..|calls|] == calls;
    assert stored in Members(AllRecorded(fold, again));
    assert stored.snapshot.completedAt >= latest.snapshot.completedAt;
  }

  lemma TwoRecorded(fold: string -> string, calls: seq<Call>)
    requires |calls| == 2
    ensures AllRecorded(fold, calls) == Recorded(fold, calls[0]) + Recorded(fold, calls[1])
  {
    assert calls[..1][..0] == [] && calls[..1][0] == calls[0];
    assert AllRecorded(fold, calls[..1]) == AllRecorded(fold, []) + Recorded(fold, calls[0]);
  }

  lemma RivalIsLatest(fold: string -> string, w: Workflow, i: nat, t: int, calls: seq<Call>)
    requires Eligible(fold, w) && i < |w.commands| && MakesSnapshot(w.commands[i]) && Before(w.commands, t)
    requires calls == [Call(w, t - 1), Call(Rival(w, i, t), t)]
    ensures var k := SnapshotAt(fold, w, i, t).key;
      && Settled(fold, calls, k)
      && (exists e :: e in Members(AllRecorded(fold, calls)) && e.key == k)
      && (forall e :: e in AllRecorded(fold, calls) ==> e.snapshot.completedAt <= t)
      && forall s :: IsLatest(Members(AllRecorded(fold, calls)), k, s) ==>
           s.completedAt == t && s.workflowRunId == calls[1].workflow.workflowRunId
  {
    var k := SnapshotAt(fold, w, i, t).key;
    RivalRecords(fold, w, i, t, t);
    TwoRecorded(fold, calls);
    var rival := Recorded(fold, calls[1])[0];
    var all := Members(AllRecorded(fold, calls));
    assert rival in all;
    forall e | e in all && e != rival
      ensures e.snapshot.completedAt < t
    {
      PreparedBefore(w.workflowRunId, w.run.value, w.commands, t - 1, t, e);
    }
    LatestIs(all, rival);
  }

  /** An entry later than all others is the only latest one of its resource. */
  lemma LatestIs(all: set<Entry>, e: Entry)
    requires e in all && forall f :: f in all && f != e ==> f.snapshot.completedAt < e.snapshot.completedAt
    ensures forall s :: IsLatest(all, e.key, s) ==> s == e.snapshot
  {
    forall s | IsLatest(all, e.key, s)
      ensures s == e.snapshot
    {
      assert Entry(e.key, s) in all;
    }
  }

  /** Recording a workflow again is harmless exactly when each of its snapshots has a completion time. */
  lemma ReplaySafeIffTimed(fold: string -> string, w: Workflow)
    ensures ReplaySafe(fold, w) <==> Timed(fold, w)
  {
    if Timed(fold, w) {
      forall calls: seq<Call>, now: int, k: Key | OnePerRun(calls) && Delivered(calls, w) && Settled(fold, calls, k)
        ensures RowOf(Run(fold, calls + [Call(w, now)]), k) == RowOf(Run(fold, calls), k)
      {
        TimedReplay(fold, w, calls, now, k);
      }
    } else {
      var i :| 0 <= i < |w.commands| && MakesSnapshot(w.commands[i]) && w.commands[i].completedAt.None?;
      var calls, now, k := UntimedReplayOverwrites(fold, w, i);
      assert Delivered(calls, w);
      assert RowOf(Run(fold, calls + [Call(w, now)]), k) != RowOf(Run(fold, calls), k);
    }
  }

  // ----- The status of the run -----

  /** The workflow stores something when it is recorded. */
  predicate Records(fold: string -> string, w: Workflow) {
    Eligible(fold, w) && exists i :: 0 <= i < |w.commands| && MakesSnapshot(w.commands[i])
  }

  predicate Succeeded(w: Workflow) {
    w.run.Some? && w.run.value.status == SUCCEEDED
  }

  ghost predicate Among(calls: seq<Call>, workflows: set<Workflow>) {
    forall i :: 0 <= i < |calls| ==> calls[i].workflow in workflows
  }

  ghost predicate FromSucceeded(fold: string -> string, calls: seq<Call>, e: Entry) {
    exists i :: 0 <= i < |calls| && Succeeded(calls[i].workflow) && e in Recorded(fold, calls[i])
  }

  /** However the workflows are recorded, every stored snapshot comes from a run that had succeeded. */
  ghost predicate OnlySucceeded(fold: string -> string, workflows: set<Workflow>) {
    forall calls: seq<Call>, k: Key :: Among(calls, workflows) && k in Run(fold, calls) ==>
      FromSucceeded(fold, calls, Entry(k, Run(fold, calls)[k]))
  }

  lemma {:induction false} RecordedByWorkflow(fold: string -> string, w: Workflow, now: int)
    ensures Recorded(fold, Call(w, now)) != [] ==> Records(fold, w)
  {
    if Eligible(fold, w) && !Records(fold, w) {
      NothingPrepared(w.workflowRunId, w.run.value, w.commands, now);
    }
  }

  lemma {:induction false} NothingPrepared(workflowRunId: string, run: RunRow, commands: seq<CommandRow>, now: int)
    requires forall i :: 0 <= i < |commands| ==> commands[i].diff.Some? && commands[i].diff.value.desired.Some?
    requires forall i :: 0 <= i < |commands| ==> !MakesSnapshot(commands[i])
    ensures Prepared(workflowRunId, run, commands, now) == []
  {
    if commands != [] {
      NothingPrepared(workflowRunId, run, commands[..|commands| - 1], now);
    }
  }

  /** Recording alone, an eligible workflow stores its snapshots, whatever the status of its run. */
  lemma AloneIsStored(fold: string -> string, w: Workflow, now: int) returns (k: Key)
    requires Records(fold, w)
    ensures k in Run(fold, [Call(w, now)])
    ensures Entry(k, Run(fold, [Call(w, now)])[k]) in Recorded(fold, Call(w, now))
  {
    var i :| 0 <= i < |w.commands| && MakesSnapshot(w.commands[i]);
    var calls := [Call(w, now)];
    PreparedHas(w.workflowRunId, w.run.value, w.commands, now, i);
    var e := SnapshotAt(fold, w, i, now);
    k := e.key;
    CallIsRecorded(fold, calls, 0, e);
    StoredOf(fold, calls, k);
    var j := RecordingCall(fold, calls, Entry(k, Run(fold, calls)[k]));
  }

  /** Stored snapshots come from succeeded runs exactly when every workflow that records something has succeeded. */
  lemma OnlySucceededIff(fold: string -> string, workflows: set<Workflow>)
    ensures OnlySucceeded(fold, workflows) <==> forall w :: w in workflows && Records(fold, w) ==> Succeeded(w)
  {
    if OnlySucceeded(fold, workflows) {
      forall w | w in workflows && Records(fold, w)
        ensures Succeeded(w)
      {
        var k := AloneIsStored(fold, w, 0);
        assert Among([Call(w, 0)], workflows);
        assert FromSucceeded(fold, [Call(w, 0)], Entry(k, Run(fold, [Call(w, 0)])[k]));
      }
    }
    if forall w :: w in workflows && Records(fold, w) ==> Succeeded(w) {
      forall calls: seq<Call>, k: Key | Among(calls, workflows) && k in Run(fold, calls)
        ensures FromSucceeded(fold, calls, Entry(k, Run(fold, calls)[k]))
      {
        StoredOf(fold, calls, k);
        var i := RecordingCall(fold, calls, Entry(k, Run(fold, calls)[k]));
        RecordedByWorkflow(fold, calls[i].workflow, calls[i].now);
      }
    }
  }

  // ----- Inputs -----

  /** A workflow that scales one deployment. */
  function Scaling(status: string, commandId: string, completedAt: Option<int>): Workflow {
    var desired := Desired("Deployment", "web", "default", map["spec.replicas" := commandId]);
    var diff := DiffBody(Some(desired), "Deployment/web", "default", commandId, "w", "b", "c", "");
    Workflow(commandId, Some(RunRow("w", "b", "c", "sha", status)), [],
             [CommandRow(commandId, COMPLETED, "", true, Some(diff), completedAt)])
  }

  lemma ScalingRecords(fold: string -> string, status: string, commandId: string, completedAt: Option<int>, now: int)
    ensures var w := Scaling(status, commandId, completedAt);
      && Records(fold, w)
      && |Recorded(fold, Call(w, now))| == 1
      && var e := Recorded(fold, Call(w, now))[0];
         && e.key == Key("w", "b", "c", "default", "Deployment", "web")
         && e.snapshot.commandId == commandId
         && e.snapshot.completedAt == if completedAt.Some? then completedAt.value else now
  {
    var w := Scaling(status, commandId, completedAt);
    assert w.commands[..0] == [];
    assert Prepared(w.workflowRunId, w.run.value, w.commands[..0], now) == [];
    assert "Deployment" + "/" + "web" == "Deployment/web";
    assert "spec.replicas" in w.commands[0].diff.value.desired.value.fields;
    assert MakesSnapshot(w.commands[0]);
  }

  /** An older workflow without a completion time, redelivered, replaces the newer state. */
  lemma OlderWorkflowOverwrites(fold: string -> string)
    ensures var older, newer := Scaling(SUCCEEDED, "older", None), Scaling(SUCCEEDED, "newer", Some(5));
      var k := Key("w", "b", "c", "default", "Deployment", "web");
      var once := Run(fold, [Call(older, 1), Call(newer, 6)]);
      var again := Run(fold, [Call(older, 1), Call(newer, 6), Call(older, 7)]);
      k in once && once[k].commandId == "newer" && k in again && again[k].commandId == "older"
  {
    var older, newer := Scaling(SUCCEEDED, "older", None), Scaling(SUCCEEDED, "newer", Some(5));
    ScalingRecords(fold, SUCCEEDED, "older", None, 1);
    ScalingRecords(fold, SUCCEEDED, "newer", Some(5), 6);
    ScalingRecords(fold, SUCCEEDED, "older", None, 7);
    OneRecorded(fold, Call(older, 1));
    LaterCallIsStored(fold, [Call(older, 1)], Call(newer, 6), Call(older, 7));
    LaterCallIsStored(fold, [], Call(older, 1), Call(newer, 6));
    assert [Call(older, 1)] + [Call(newer, 6), Call(older, 7)] == [Call(older, 1), Call(newer, 6), Call(older, 7)];
    assert [] + [Call(older, 1), Call(newer, 6)] == [Call(older, 1), Call(newer, 6)];
  }

  /** Two workflows that complete at one time: the one recorded last is stored. */
  lemma TiedWorkflowsConflict(fold: string -> string)
    ensures var x, y := Scaling(SUCCEEDED, "x", Some(5)), Scaling(SUCCEEDED, "y", Some(5));
      var k := Key("w", "b", "c", "default", "Deployment", "web");
      var xy, yx := Run(fold, [Call(x, 6), Call(y, 6)]), Run(fold, [Call(y, 6), Call(x, 6)]);
      k in xy && xy[k].commandId == "y" && k in yx && yx[k].commandId == "x"
  {
    var x, y := Scaling(SUCCEEDED, "x", Some(5)), Scaling(SUCCEEDED, "y", Some(5));
    ScalingRecords(fold, SUCCEEDED, "x", Some(5), 6);
    ScalingRecords(fold, SUCCEEDED, "y", Some(5), 6);
    LaterCallIsStored(fold, [], Call(x, 6), Call(y, 6));
    LaterCallIsStored(fold, [], Call(y, 6), Call(x, 6));
    assert [] + [Call(x, 6), Call(y, 6)] == [Call(x, 6), Call(y, 6)];
    assert [] + [Call(y, 6), Call(x, 6)] == [Call(y, 6), Call(x, 6)];
  }

  /** Of two single snapshots of a resource, recorded in the order of their times, the later one is stored. */
  lemma LaterCallIsStored(fold: string -> string, calls: seq<Call>, c: Call, d: Call)
    requires |Recorded(fold, c)| == 1 && |Recorded(fold, d)| == 1
    requires var a, b := Recorded(fold, c)[0], Recorded(fold, d)[0];
      && a.key == b.key && a.snapshot.completedAt <= b.snapshot.completedAt
      && forall e :: e in AllRecorded(fold, calls) ==> e.snapshot.completedAt <= b.snapshot.completedAt
    ensures var b, r := Recorded(fold, d)[0], Run(fold, calls + [c, d]);
      b.key in r && r[b.key] == b.snapshot
  {
    var b := Recorded(fold, d)[0];
    RunOneMore(fold, calls, c);
    RunOneMore(fold, calls + [c], d);
    assert calls + [c] + [d] == calls + [c, d];
    StoredOf(fold, calls, b.key);
    var before := Run(fold, calls);
    if b.key in before {
      assert Entry(b.key, before[b.key]) in AllRecorded(fold, calls);
    }
  }

  lemma OneRecorded(fold: string -> string, c: Call)
    ensures AllRecorded(fold, [c]) == Recorded(fold, c)
  {
    assert [c][..0] == [] && AllRecorded(fold, [c][..0]) == [];
  }

  /** Recording one more call that makes a single snapshot is one guarded upsert. */
  lemma RunOneMore(fold: string -> string, calls: seq<Call>, c: Call)
    requires |Recorded(fold, c)| == 1
    ensures Run(fold, calls + [c]) == Put(Run(fold, calls), Recorded(fold, c)[0])
  {
    var all := calls + [c];
    assert all[..|calls|] == calls && all[|calls|] == c;
    PutOne(Run(fold, calls), Recorded(fold, c));
  }

  lemma PutOne(table: map<Key, Snapshot>, entries: seq<Entry>)
    requires |entries| == 1
    ensures PutAll(table, entries) == Put(table, entries[0])
  {
    assert entries[..0] == [] && PutAll(table, entries[..0]) == table;
  }

  /** The snapshots of a failed run are stored. */
  lemma FailedRunIsStored(fold: string -> string)
    ensures var failed := Scaling("failed", "x", Some(1));
      !Succeeded(failed) && Run(fold, [Call(failed, 2)]) != map[] && !OnlySucceeded(fold, {failed})
  {
    var failed := Scaling("failed", "x", Some(1));
    ScalingRecords(fold, "failed", "x", Some(1), 2);
    var k := AloneIsStored(fold, failed, 2);
    OnlySucceededIff(fold, {failed});
  }
}
