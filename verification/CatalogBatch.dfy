/**
 * The daily catalog batch: normalising payloads, schema history, load
 * counts and lineage, each a loop of upserts into its own tables.
 */
module CatalogBatch {
  import opened Folds
  import opened Wrappers
  import opened SchemaContract
  import opened Upsert

  type Time = string

  datatype CollectionStatus = SUCCESS | NO_DATA | TRUNCATED | FAILED

  predicate Healthy(s: CollectionStatus) {
    s == SUCCESS || s == NO_DATA
  }

  datatype Item = Item(assetId: string, rowKey: string, clusterId: Option<string>, payload: Json)

  datatype Outcome = Outcome(sourceId: string, status: CollectionStatus, payloads: seq<Item>)

  /** How identifiers and hashes follow from their parts is a parameter. */
  datatype Env = Env(
    rowId: (string, string, string) -> string,
    evidenceId: (string, string, Time) -> string,
    schemaHash: Contract -> string)

  const DEFAULT_CLUSTER := "local"
  const DOWNSTREAM := "ops.normalized_evidence"
  const TRANSFORMATION := "normalize_asset_schema"

  function RunId(dagRunId: string, sourceId: string): string {
    dagRunId + "__" + sourceId
  }

  // ----- The tables, keyed by the columns of their conflict clauses -----

  datatype RowKey = RowKey(runId: string, assetId: string, rowKey: string)
  datatype ObservedRow = ObservedRow(rowId: string, observedAt: Time)

  datatype FieldKey = FieldKey(rowId: string, path: string)
  datatype ObservedField = ObservedField(runId: string, assetId: string, dataType: FieldType)

  datatype EvidenceKey = EvidenceKey(clusterId: string, sourceId: string, resourceUid: string, observedAt: Time)
  datatype Evidence = Evidence(evidenceId: string, assetId: string, runId: string, status: CollectionStatus, ingestedAt: Time)

  datatype SchemaKey = SchemaKey(assetId: string, version: string, hash: string)
  datatype FirstSeen = FirstSeen(runId: string, at: Time)

  datatype LoadKey = LoadKey(logicalDate: string, sourceId: string, assetId: string)

  datatype EdgeKey = EdgeKey(upstream: string, downstream: string, runId: string)

  datatype Tables = Tables(
    rows: map<RowKey, ObservedRow>,
    fields: map<FieldKey, ObservedField>,
    evidence: map<EvidenceKey, Evidence>,
    schemas: map<SchemaKey, FirstSeen>,
    loads: map<LoadKey, nat>,
    loadedAt: map<LoadKey, Time>,
    edges: map<EdgeKey, string>)

  function MergeRow(o: ObservedRow, n: ObservedRow): ObservedRow { o.(observedAt := n.observedAt) }

  function MergeField(o: ObservedField, n: ObservedField): ObservedField { o.(dataType := n.dataType) }

  function RowPk(r: ObservedRow): string { r.rowId }

  function EvidencePk(e: Evidence): string { e.evidenceId }

  /** The primary keys that are not the key of a conflict clause are distinct. */
  predicate PrimaryKeysHold(t: Tables) {
    DistinctIds(RowPk, t.rows) && DistinctIds(EvidencePk, t.evidence)
  }

  // ----- Normalisation -----

  /** One payload item together with what its outcome says about it. */
  datatype Observation = Observation(sourceId: string, status: CollectionStatus, item: Item)

  function ObservationsOf(o: Outcome): (r: seq<Observation>)
    ensures |r| == |o.payloads|
  {
    seq(|o.payloads|, i requires 0 <= i < |o.payloads| => Observation(o.sourceId, o.status, o.payloads[i]))
  }

  function Observations(outcomes: seq<Outcome>): seq<Observation> {
    if outcomes == [] then []
    else Observations(outcomes[..|outcomes| - 1]) + ObservationsOf(outcomes[|outcomes| - 1])
  }

  function RowIdOf(env: Env, runId: string, item: Item): string {
    env.rowId(runId, item.assetId, item.rowKey)
  }

  function RowWrite(env: Env, dagRunId: string, o: Observation, at: Time): map<RowKey, ObservedRow> {
    var runId := RunId(dagRunId, o.sourceId);
    map[RowKey(runId, o.item.assetId, o.item.rowKey) := ObservedRow(RowIdOf(env, runId, o.item), at)]
  }

  function ContractWrite(rowId: string, runId: string, assetId: string, c: Contract): map<FieldKey, ObservedField> {
    map p | p in c :: FieldKey(rowId, p) := ObservedField(runId, assetId, c[p])
  }

  function FieldWrite(env: Env, dagRunId: string, o: Observation): map<FieldKey, ObservedField> {
    var runId := RunId(dagRunId, o.sourceId);
    ContractWrite(RowIdOf(env, runId, o.item), runId, o.item.assetId, ContractOf(o.item.payload))
  }

  function ClusterOf(item: Item): string {
    if item.clusterId.Some? then item.clusterId.value else DEFAULT_CLUSTER
  }

  function EvidenceWrite(env: Env, dagRunId: string, o: Observation, at: Time, now: Time): map<EvidenceKey, Evidence> {
    map[EvidenceKey(ClusterOf(o.item), o.sourceId, o.item.rowKey, at) :=
          Evidence(env.evidenceId(o.item.assetId, o.item.rowKey, at), o.item.assetId,
                   RunId(dagRunId, o.sourceId), o.status, now)]
  }

  /** The statements for one item; a broken primary key aborts the transaction. */
  function NormalizeOne(env: Env, t: Tables, dagRunId: string, o: Observation, at: Time, now: Time): Option<Tables> {
    var rows := PutChecked(MergeRow, RowPk, t.rows, RowWrite(env, dagRunId, o, at));
    var evidence := PutChecked(Keep, EvidencePk, t.evidence, EvidenceWrite(env, dagRunId, o, at, now));
    if rows.None? || evidence.None? then None
    else
      Some(t.(rows := rows.value,
              fields := Put(MergeField, t.fields, FieldWrite(env, dagRunId, o)),
              evidence := evidence.value))
  }

  /** The step for the i-th item, ingested at `clock(i)`. */
  function Step(env: Env, dagRunId: string, at: Time, clock: int -> Time): (Tables, Observation, int) -> Option<Tables> {
    (t: Tables, o: Observation, i: int) => NormalizeOne(env, t, dagRunId, o, at, clock(i))
  }

  function Normalized(env: Env, t: Tables, dagRunId: string, obs: seq<Observation>, at: Time, clock: int -> Time): Option<Tables> {
    Fold(Step(env, dagRunId, at, clock), t, obs, 0)
  }

  // ----- Schema history -----

  /** The contract of several payloads of one asset. */
  function MergeContract(c: Contract, d: Contract): Contract {
    c + map p | p in d && (p !in c || c[p].None?) :: d[p]
  }

  function ContractsByAsset(items: seq<Item>): map<string, Contract> {
    if items == [] then map[]
    else
      var n := |items| - 1;
      var before := ContractsByAsset(items[..n]);
      var a := items[n].assetId;
      before[a := MergeContract(if a in before then before[a] else map[], ContractOf(items[n].payload))]
  }

  function SchemaWrite(env: Env, versions: map<string, string>, dagRunId: string, o: Outcome, at: Time): map<SchemaKey, FirstSeen> {
    var contracts := ContractsByAsset(o.payloads);
    map a | a in contracts && a in versions ::
      SchemaKey(a, versions[a], env.schemaHash(contracts[a])) := FirstSeen(RunId(dagRunId, o.sourceId), at)
  }

  function SchemaWrites(env: Env, versions: map<string, string>, dagRunId: string, outcomes: seq<Outcome>, at: Time): (r: seq<map<SchemaKey, FirstSeen>>)
    ensures |r| == |outcomes|
  {
    seq(|outcomes|, i requires 0 <= i < |outcomes| => SchemaWrite(env, versions, dagRunId, outcomes[i], at))
  }

  // ----- Load counts and lineage -----

  function AssetIds(items: seq<Item>): (r: seq<string>)
    ensures |r| == |items|
  {
    seq(|items|, i requires 0 <= i < |items| => items[i].assetId)
  }

  function LoadWrite(date: string, o: Outcome): map<LoadKey, nat> {
    var ids := AssetIds(o.payloads);
    map a | a in ids :: LoadKey(date, o.sourceId, a) := multiset(ids)[a]
  }

  function LoadWrites(date: string, outcomes: seq<Outcome>): (r: seq<map<LoadKey, nat>>)
    ensures |r| == |outcomes|
  {
    seq(|outcomes|, i requires 0 <= i < |outcomes| => LoadWrite(date, outcomes[i]))
  }

  function LoadTimeWrite(date: string, o: Outcome, loadedAt: Time): map<LoadKey, Time> {
    map k | k in LoadWrite(date, o) :: loadedAt
  }

  function LoadTimeWrites(date: string, outcomes: seq<Outcome>, loadedAt: Time): (r: seq<map<LoadKey, Time>>)
    ensures |r| == |outcomes|
  {
    seq(|outcomes|, i requires 0 <= i < |outcomes| => LoadTimeWrite(date, outcomes[i], loadedAt))
  }

  function EdgeWrite(dagRunId: string, o: Outcome): map<EdgeKey, string> {
    if !Healthy(o.status) then map[]
    else map a | a in AssetIds(o.payloads) :: EdgeKey(a, DOWNSTREAM, RunId(dagRunId, o.sourceId)) := TRANSFORMATION
  }

  function EdgeWrites(dagRunId: string, outcomes: seq<Outcome>): (r: seq<map<EdgeKey, string>>)
    ensures |r| == |outcomes|
  {
    seq(|outcomes|, i requires 0 <= i < |outcomes| => EdgeWrite(dagRunId, outcomes[i]))
  }

  predicate SomeHealthy(outcomes: seq<Outcome>) {
    exists i :: 0 <= i < |outcomes| && Healthy(outcomes[i].status)
  }

  /** Normalise, record schemas, load and record lineage; `None` is an aborted transaction. */
  function Batch(env: Env, versions: map<string, string>, t: Tables, dagRunId: string, date: string,
                 outcomes: seq<Outcome>, at: Time, clock: int -> Time, loadedAt: Time): Option<Tables>
  {
    var n := Normalized(env, t, dagRunId, Observations(outcomes), at, clock);
    if !SomeHealthy(outcomes) || n.None? then None
    else
      Some(n.value.(
        schemas := PutAll(Keep, t.schemas, SchemaWrites(env, versions, dagRunId, outcomes, at)),
        loads := PutAll(Replace, t.loads, LoadWrites(date, outcomes)),
        loadedAt := PutAll(Replace, t.loadedAt, LoadTimeWrites(date, outcomes, loadedAt)),
        edges := PutAll(Keep, t.edges, EdgeWrites(dagRunId, outcomes))))
  }

  /** The tables after the transaction, committed or not. */
  function AfterBatch(env: Env, versions: map<string, string>, t: Tables, dagRunId: string, date: string,
                      outcomes: seq<Outcome>, at: Time, clock: int -> Time, loadedAt: Time): Tables
  {
    var r := Batch(env, versions, t, dagRunId, date, outcomes, at, clock, loadedAt);
    if r.Some? then r.value else t
  }

  // ----- Rerunning -----

  function RowWrites(env: Env, dagRunId: string, obs: seq<Observation>, at: Time): (r: seq<map<RowKey, ObservedRow>>)
    ensures |r| == |obs|
  {
    seq(|obs|, i requires 0 <= i < |obs| => RowWrite(env, dagRunId, obs[i], at))
  }

  function FieldWrites(env: Env, dagRunId: string, obs: seq<Observation>): (r: seq<map<FieldKey, ObservedField>>)
    ensures |r| == |obs|
  {
    seq(|obs|, i requires 0 <= i < |obs| => FieldWrite(env, dagRunId, obs[i]))
  }

  function EvidenceWrites(env: Env, dagRunId: string, obs: seq<Observation>, at: Time, clock: int -> Time): (r: seq<map<EvidenceKey, Evidence>>)
    ensures |r| == |obs|
  {
    seq(|obs|, i requires 0 <= i < |obs| => EvidenceWrite(env, dagRunId, obs[i], at, clock(i)))
  }

  function RowsAfter(env: Env, t: Tables, dagRunId: string, obs: seq<Observation>, at: Time): Option<map<RowKey, ObservedRow>> {
    PutAllChecked(MergeRow, RowPk, t.rows, RowWrites(env, dagRunId, obs, at))
  }

  function FieldsAfter(env: Env, t: Tables, dagRunId: string, obs: seq<Observation>): map<FieldKey, ObservedField> {
    PutAll(MergeField, t.fields, FieldWrites(env, dagRunId, obs))
  }

  function EvidenceAfter(env: Env, t: Tables, dagRunId: string, obs: seq<Observation>, at: Time, clock: int -> Time): Option<map<EvidenceKey, Evidence>> {
    PutAllChecked(Keep, EvidencePk, t.evidence, EvidenceWrites(env, dagRunId, obs, at, clock))
  }

  lemma RowsAfterOne(env: Env, t: Tables, dagRunId: string, obs: seq<Observation>, at: Time)
    requires obs != []
    ensures var n := |obs| - 1;
      var before := RowsAfter(env, t, dagRunId, obs[..n], at);
      RowsAfter(env, t, dagRunId, obs, at) ==
      if before.None? then None else PutChecked(MergeRow, RowPk, before.value, RowWrite(env, dagRunId, obs[n], at))
  {
    var n := |obs| - 1;
    assert RowWrites(env, dagRunId, obs, at)[..n] == RowWrites(env, dagRunId, obs[..n], at);
  }

  lemma FieldsAfterOne(env: Env, t: Tables, dagRunId: string, obs: seq<Observation>)
    requires obs != []
    ensures var n := |obs| - 1;
      FieldsAfter(env, t, dagRunId, obs) ==
      Put(MergeField, FieldsAfter(env, t, dagRunId, obs[..n]), FieldWrite(env, dagRunId, obs[n]))
  {
    var n := |obs| - 1;
    var writes := FieldWrites(env, dagRunId, obs);
    assert writes[..n] == FieldWrites(env, dagRunId, obs[..n]);
    PutAllOneMore(MergeField, t.fields, writes, n);
    assert writes[..n + 1] == writes;
  }

  lemma EvidenceAfterOne(env: Env, t: Tables, dagRunId: string, obs: seq<Observation>, at: Time, clock: int -> Time)
    requires obs != []
    ensures var n := |obs| - 1;
      var before := EvidenceAfter(env, t, dagRunId, obs[..n], at, clock);
      EvidenceAfter(env, t, dagRunId, obs, at, clock) ==
      if before.None? then None
      else PutChecked(Keep, EvidencePk, before.value, EvidenceWrite(env, dagRunId, obs[n], at, clock(n)))
  {
    var n := |obs| - 1;
    assert EvidenceWrites(env, dagRunId, obs, at, clock)[..n] == EvidenceWrites(env, dagRunId, obs[..n], at, clock);
  }

  ghost function Stored(t: Tables, rows: Option<map<RowKey, ObservedRow>>, fields: map<FieldKey, ObservedField>,
                        evidence: Option<map<EvidenceKey, Evidence>>): Option<Tables>
  {
    if rows.None? || evidence.None? then None
    else Some(t.(rows := rows.value, fields := fields, evidence := evidence.value))
  }

  lemma StepTables(env: Env, t: Tables, rows: map<RowKey, ObservedRow>, fields: map<FieldKey, ObservedField>,
                   evidence: map<EvidenceKey, Evidence>, dagRunId: string, o: Observation, at: Time, clock: int -> Time, i: int)
    ensures Step(env, dagRunId, at, clock)(t.(rows := rows, fields := fields, evidence := evidence), o, i) ==
            Stored(t, PutChecked(MergeRow, RowPk, rows, RowWrite(env, dagRunId, o, at)),
                   Put(MergeField, fields, FieldWrite(env, dagRunId, o)),
                   PutChecked(Keep, EvidencePk, evidence, EvidenceWrite(env, dagRunId, o, at, clock(i))))
  {
    var u := t.(rows := rows, fields := fields, evidence := evidence);
    assert Step(env, dagRunId, at, clock)(u, o, i) == NormalizeOne(env, u, dagRunId, o, at, clock(i));
  }

  /** The outcome of normalising, table by table. */
  ghost function StoredAfter(env: Env, t: Tables, dagRunId: string, obs: seq<Observation>, at: Time, clock: int -> Time): Option<Tables> {
    Stored(t, RowsAfter(env, t, dagRunId, obs, at), FieldsAfter(env, t, dagRunId, obs),
           EvidenceAfter(env, t, dagRunId, obs, at, clock))
  }

  lemma StoredAfterOne(env: Env, t: Tables, dagRunId: string, obs: seq<Observation>, at: Time, clock: int -> Time)
    requires obs != []
    ensures var n := |obs| - 1;
      var before := StoredAfter(env, t, dagRunId, obs[..n], at, clock);
      StoredAfter(env, t, dagRunId, obs, at, clock) ==
      if before.None? then None else Step(env, dagRunId, at, clock)(before.value, obs[n], n)
  {
    var n := |obs| - 1;
    var before := obs[..n];
    RowsAfterOne(env, t, dagRunId, obs, at);
    FieldsAfterOne(env, t, dagRunId, obs);
    EvidenceAfterOne(env, t, dagRunId, obs, at, clock);
    var rows, evidence := RowsAfter(env, t, dagRunId, before, at), EvidenceAfter(env, t, dagRunId, before, at, clock);
    if rows.Some? && evidence.Some? {
      StepTables(env, t, rows.value, FieldsAfter(env, t, dagRunId, before), evidence.value, dagRunId, obs[n], at, clock, n);
    }
  }

  /** Normalisation treats its three tables independently. */
  lemma {:induction false} NormalizedTables(env: Env, t: Tables, dagRunId: string, obs: seq<Observation>, at: Time, clock: int -> Time)
    ensures Normalized(env, t, dagRunId, obs, at, clock) == StoredAfter(env, t, dagRunId, obs, at, clock)
  {
    if obs != [] {
      var n := |obs| - 1;
      NormalizedTables(env, t, dagRunId, obs[..n], at, clock);
      FoldOneMore(Step(env, dagRunId, at, clock), t, obs, 0, n);
      assert obs[..n + 1] == obs;
      StoredAfterOne(env, t, dagRunId, obs, at, clock);
    }
  }

  lemma EvidenceWriteKeys(env: Env, dagRunId: string, o: Observation, at: Time, now: Time)
    ensures EvidenceWrite(env, dagRunId, o, at, now).Keys == {EvidenceKeyOf(o, at)}
    ensures EvidenceWrite(env, dagRunId, o, at, now)[EvidenceKeyOf(o, at)].evidenceId ==
            env.evidenceId(o.item.assetId, o.item.rowKey, at)
  {
  }

  lemma EvidenceWritesAgree(env: Env, dagRunId: string, obs: seq<Observation>, at: Time, c: int -> Time, d: int -> Time)
    ensures Agree(Keep, EvidenceWrites(env, dagRunId, obs, at, c), EvidenceWrites(env, dagRunId, obs, at, d))
  {
    var xs, ys := EvidenceWrites(env, dagRunId, obs, at, c), EvidenceWrites(env, dagRunId, obs, at, d);
    forall i | 0 <= i < |xs|
      ensures xs[i].Keys == ys[i].Keys
    {
      EvidenceWriteKeys(env, dagRunId, obs[i], at, c(i));
      EvidenceWriteKeys(env, dagRunId, obs[i], at, d(i));
    }
  }

  lemma RowsRerun(env: Env, t: Tables, u: Tables, dagRunId: string, obs: seq<Observation>, at: Time)
    requires DistinctIds(RowPk, t.rows) && RowsAfter(env, t, dagRunId, obs, at) == Some(u.rows)
    ensures DistinctIds(RowPk, u.rows) && RowsAfter(env, u, dagRunId, obs, at) == Some(u.rows)
  {
    var rows := RowWrites(env, dagRunId, obs, at);
    CheckedRerunIsStable(MergeRow, RowPk, t.rows, rows, rows);
  }

  lemma FieldsRerun(env: Env, t: Tables, u: Tables, dagRunId: string, obs: seq<Observation>)
    requires u.fields == FieldsAfter(env, t, dagRunId, obs)
    ensures FieldsAfter(env, u, dagRunId, obs) == u.fields
  {
    var fields := FieldWrites(env, dagRunId, obs);
    RerunIsStable(MergeField, t.fields, fields, fields);
  }

  lemma EvidenceRerun(env: Env, t: Tables, u: Tables, dagRunId: string, obs: seq<Observation>, at: Time, c: int -> Time, d: int -> Time)
    requires DistinctIds(EvidencePk, t.evidence) && EvidenceAfter(env, t, dagRunId, obs, at, c) == Some(u.evidence)
    ensures DistinctIds(EvidencePk, u.evidence) && EvidenceAfter(env, u, dagRunId, obs, at, d) == Some(u.evidence)
  {
    EvidenceWritesAgree(env, dagRunId, obs, at, c, d);
    CheckedRerunIsStable(Keep, EvidencePk, t.evidence,
                         EvidenceWrites(env, dagRunId, obs, at, c), EvidenceWrites(env, dagRunId, obs, at, d));
  }

  /** Normalising again, whenever it happens, changes nothing. */
  lemma NormalizeIsIdempotent(env: Env, t: Tables, u: Tables, dagRunId: string, obs: seq<Observation>, at: Time, c: int -> Time, d: int -> Time)
    requires PrimaryKeysHold(t)
    requires Normalized(env, t, dagRunId, obs, at, c) ==
             Some(t.(rows := u.rows, fields := u.fields, evidence := u.evidence))
    ensures PrimaryKeysHold(u) && Normalized(env, u, dagRunId, obs, at, d) == Some(u)
  {
    NormalizedTables(env, t, dagRunId, obs, at, c);
    RowsRerun(env, t, u, dagRunId, obs, at);
    FieldsRerun(env, t, u, dagRunId, obs);
    EvidenceRerun(env, t, u, dagRunId, obs, at, c, d);
    NormalizedTables(env, u, dagRunId, obs, at, d);
  }

  /** Running a committed batch again leaves the rows of running it once, load times aside. */
  lemma CommittedBatchIsIdempotent(env: Env, versions: map<string, string>, t: Tables, dagRunId: string, date: string,
                                   outcomes: seq<Outcome>, at: Time, c: int -> Time, d: int -> Time, loaded: Time, reloaded: Time)
    requires PrimaryKeysHold(t) && Batch(env, versions, t, dagRunId, date, outcomes, at, c, loaded).Some?
    ensures var once := Batch(env, versions, t, dagRunId, date, outcomes, at, c, loaded).value;
      var twice := Batch(env, versions, once, dagRunId, date, outcomes, at, d, reloaded);
      && PrimaryKeysHold(once)
      && twice.Some?
      && twice.value.(loadedAt := once.loadedAt) == once
  {
    var once := Batch(env, versions, t, dagRunId, date, outcomes, at, c, loaded).value;
    NormalizedTables(env, t, dagRunId, Observations(outcomes), at, c);
    NormalizeIsIdempotent(env, t, once, dagRunId, Observations(outcomes), at, c, d);
    var schemas := SchemaWrites(env, versions, dagRunId, outcomes, at);
    RerunIsStable(Keep, t.schemas, schemas, schemas);
    var loads := LoadWrites(date, outcomes);
    RerunIsStable(Replace, t.loads, loads, loads);
    var edges := EdgeWrites(dagRunId, outcomes);
    RerunIsStable(Keep, t.edges, edges, edges);
  }

  /**
   * From any tables, running the batch again, at any clock, commits exactly when the
   * first run did, and leaves the rows of the first run, load times aside.
   */
  lemma BatchIsIdempotent(env: Env, versions: map<string, string>, t: Tables, dagRunId: string, date: string,
                          outcomes: seq<Outcome>, at: Time, c: int -> Time, d: int -> Time, loaded: Time, reloaded: Time)
    requires PrimaryKeysHold(t)
    ensures var once := AfterBatch(env, versions, t, dagRunId, date, outcomes, at, c, loaded);
      && PrimaryKeysHold(once)
      && Batch(env, versions, once, dagRunId, date, outcomes, at, d, reloaded).Some?
         == Batch(env, versions, t, dagRunId, date, outcomes, at, c, loaded).Some?
      && AfterBatch(env, versions, once, dagRunId, date, outcomes, at, d, reloaded).(loadedAt := once.loadedAt) == once
  {
    var first := Batch(env, versions, t, dagRunId, date, outcomes, at, c, loaded);
    if first.Some? {
      CommittedBatchIsIdempotent(env, versions, t, dagRunId, date, outcomes, at, c, d, loaded, reloaded);
    } else {
      NormalizeSucceedsIff(env, t, dagRunId, Observations(outcomes), at, c);
      NormalizeSucceedsIff(env, t, dagRunId, Observations(outcomes), at, d);
    }
  }

  // ----- When a batch goes through -----

  function RowKeys(dagRunId: string, obs: seq<Observation>): (r: seq<RowKey>)
    ensures |r| == |obs|
  {
    seq(|obs|, i requires 0 <= i < |obs| =>
      RowKey(RunId(dagRunId, obs[i].sourceId), obs[i].item.assetId, obs[i].item.rowKey))
  }

  function RowIds(env: Env, dagRunId: string, obs: seq<Observation>): (r: seq<string>)
    ensures |r| == |obs|
  {
    seq(|obs|, i requires 0 <= i < |obs| => RowIdOf(env, RunId(dagRunId, obs[i].sourceId), obs[i].item))
  }

  function EvidenceKeyOf(o: Observation, at: Time): EvidenceKey {
    EvidenceKey(ClusterOf(o.item), o.sourceId, o.item.rowKey, at)
  }

  function EvidenceKeys(obs: seq<Observation>, at: Time): (r: seq<EvidenceKey>)
    ensures |r| == |obs|
  {
    seq(|obs|, i requires 0 <= i < |obs| => EvidenceKeyOf(obs[i], at))
  }

  function EvidenceIds(env: Env, obs: seq<Observation>, at: Time): (r: seq<string>)
    ensures |r| == |obs|
  {
    seq(|obs|, i requires 0 <= i < |obs| => env.evidenceId(obs[i].item.assetId, obs[i].item.rowKey, at))
  }

  /**
   * Among the items that insert a row, or evidence, no two take one identifier, and
   * none takes the identifier of a stored one.
   */
  ghost predicate ClashFree(env: Env, t: Tables, dagRunId: string, obs: seq<Observation>, at: Time) {
    && NoClash(RowPk, t.rows, RowKeys(dagRunId, obs), RowIds(env, dagRunId, obs))
    && NoClash(EvidencePk, t.evidence, EvidenceKeys(obs, at), EvidenceIds(env, obs, at))
  }

  lemma RowStatements(env: Env, dagRunId: string, obs: seq<Observation>, at: Time)
    ensures Statements(RowPk, RowWrites(env, dagRunId, obs, at), RowKeys(dagRunId, obs), RowIds(env, dagRunId, obs))
  {
    forall i | 0 <= i < |obs|
      ensures RowWrites(env, dagRunId, obs, at)[i].Keys == {RowKeys(dagRunId, obs)[i]}
    {
      RowWriteKeys(env, dagRunId, obs[i], at);
    }
  }

  lemma RowWriteKeys(env: Env, dagRunId: string, o: Observation, at: Time)
    ensures RowWrite(env, dagRunId, o, at).Keys == {RowKey(RunId(dagRunId, o.sourceId), o.item.assetId, o.item.rowKey)}
  {
  }

  lemma EvidenceStatements(env: Env, dagRunId: string, obs: seq<Observation>, at: Time, clock: int -> Time)
    ensures Statements(EvidencePk, EvidenceWrites(env, dagRunId, obs, at, clock), EvidenceKeys(obs, at), EvidenceIds(env, obs, at))
  {
    var writes := EvidenceWrites(env, dagRunId, obs, at, clock);
    forall i | 0 <= i < |obs|
      ensures writes[i].Keys == {EvidenceKeys(obs, at)[i]} && writes[i][EvidenceKeys(obs, at)[i]].evidenceId == EvidenceIds(env, obs, at)[i]
    {
      EvidenceWriteKeys(env, dagRunId, obs[i], at, clock(i));
    }
  }

  lemma RowsSucceedIff(env: Env, t: Tables, dagRunId: string, obs: seq<Observation>, at: Time)
    requires DistinctIds(RowPk, t.rows)
    ensures RowsAfter(env, t, dagRunId, obs, at).Some? <==>
            NoClash(RowPk, t.rows, RowKeys(dagRunId, obs), RowIds(env, dagRunId, obs))
  {
    var writes := RowWrites(env, dagRunId, obs, at);
    RowStatements(env, dagRunId, obs, at);
    PutAllSucceedsIff(MergeRow, RowPk, t.rows, writes);
    DistinctIffNoClash(MergeRow, RowPk, t.rows, writes, RowKeys(dagRunId, obs), RowIds(env, dagRunId, obs));
  }

  lemma EvidenceSucceedsIff(env: Env, t: Tables, dagRunId: string, obs: seq<Observation>, at: Time, clock: int -> Time)
    requires DistinctIds(EvidencePk, t.evidence)
    ensures EvidenceAfter(env, t, dagRunId, obs, at, clock).Some? <==>
            NoClash(EvidencePk, t.evidence, EvidenceKeys(obs, at), EvidenceIds(env, obs, at))
  {
    var writes := EvidenceWrites(env, dagRunId, obs, at, clock);
    EvidenceStatements(env, dagRunId, obs, at, clock);
    PutAllSucceedsIff(Keep, EvidencePk, t.evidence, writes);
    DistinctIffNoClash(Keep, EvidencePk, t.evidence, writes, EvidenceKeys(obs, at), EvidenceIds(env, obs, at));
  }

  /** Normalising goes through exactly when the items do not clash, whatever the clock. */
  lemma NormalizeSucceedsIff(env: Env, t: Tables, dagRunId: string, obs: seq<Observation>, at: Time, clock: int -> Time)
    requires PrimaryKeysHold(t)
    ensures Normalized(env, t, dagRunId, obs, at, clock).Some? <==> ClashFree(env, t, dagRunId, obs, at)
  {
    NormalizedTables(env, t, dagRunId, obs, at, clock);
    RowsSucceedIff(env, t, dagRunId, obs, at);
    EvidenceSucceedsIff(env, t, dagRunId, obs, at, clock);
  }

  /** Any batch in which one row key of one asset is first seen in two clusters or sources aborts. */
  lemma SharedRowKeyFails(env: Env, t: Tables, dagRunId: string, obs: seq<Observation>, at: Time, clock: int -> Time, i: nat, j: nat)
    requires PrimaryKeysHold(t)
    requires IsNew(t.evidence, EvidenceKeys(obs, at), i) && IsNew(t.evidence, EvidenceKeys(obs, at), j)
    requires obs[i].item.assetId == obs[j].item.assetId && obs[i].item.rowKey == obs[j].item.rowKey
    requires ClusterOf(obs[i].item) != ClusterOf(obs[j].item) || obs[i].sourceId != obs[j].sourceId
    ensures Normalized(env, t, dagRunId, obs, at, clock) == None
  {
    NormalizeSucceedsIff(env, t, dagRunId, obs, at, clock);
    assert EvidenceIds(env, obs, at)[i] == EvidenceIds(env, obs, at)[j];
  }

  // ----- The stages, statement by statement -----

  lemma {:induction false} ObservationsFrom(outcomes: seq<Outcome>, i: nat) returns (rest: seq<Observation>)
    requires i < |outcomes|
    ensures Observations(outcomes) == Observations(outcomes[..i]) + ObservationsOf(outcomes[i]) + rest
    decreases |outcomes|
  {
    var n := |outcomes| - 1;
    rest := [];
    if i < n {
      rest := ObservationsFrom(outcomes[..n], i);
      assert outcomes[..n][..i] == outcomes[..i];
      rest := rest + ObservationsOf(outcomes[n]);
    }
  }

  /** `counts` in `load_catalog` */
  method CountByAsset(items: seq<Item>) returns (counts: map<string, nat>)
    ensures counts.Keys == set a | a in AssetIds(items)
    ensures forall a :: a in counts ==> counts[a] == multiset(AssetIds(items))[a]
  {
    counts := map[];
    var ids := AssetIds(items);
    for i := 0 to |items|
      invariant counts.Keys == set a | a in ids[..i]
      invariant forall a :: a in counts ==> counts[a] == multiset(ids[..i])[a]
    {
      assert ids[..i + 1] == ids[..i] + [ids[i]];
      counts := counts[ids[i] := (if ids[i] in counts then counts[ids[i]] else 0) + 1];
    }
    assert ids[..|items|] == ids;
  }

  /** `by_asset` in `record_schema_observations` */
  method MergeContracts(items: seq<Item>) returns (byAsset: map<string, Contract>)
    ensures byAsset == ContractsByAsset(items)
  {
    byAsset := map[];
    for i := 0 to |items|
      invariant byAsset == ContractsByAsset(items[..i])
    {
      assert items[..i + 1][..i] == items[..i];
      var contract := ContractFromPayload(items[i].payload);
      var merged := if items[i].assetId in byAsset then byAsset[items[i].assetId] else map[];
      merged := AddContract(merged, contract);
      byAsset := byAsset[items[i].assetId := merged];
    }
    assert items[..|items|] == items;
  }

  lemma MergeContractOneMore(c: Contract, d: Contract, p: string, t: FieldType)
    requires p !in d
    ensures MergeContract(c, d[p := t]) == Note(MergeContract(c, d), FieldEntry(p, t))
  {
    var before, after := MergeContract(c, d), MergeContract(c, d[p := t]);
    assert after.Keys == before.Keys + {p};
  }

  method AddContract(c: Contract, d: Contract) returns (merged: Contract)
    ensures merged == MergeContract(c, d)
  {
    merged := c;
    var paths := SortedPaths(d.Keys);
    for i := 0 to |paths|
      invariant merged == MergeContract(c, Part(d, paths[..i]))
    {
      var p := paths[i];
      assert p in paths;
      PartOneMore(d, paths, i);
      MergeContractOneMore(c, Part(d, paths[..i]), p, d[p]);
      if p !in merged || merged[p].None? {
        merged := merged[p := d[p]];
      }
    }
    PartIsWhole(d, paths);
  }

  function FieldKeys(rowId: string, paths: seq<string>): (r: seq<FieldKey>)
    ensures |r| == |paths|
    ensures forall i :: 0 <= i < |paths| ==> r[i] == FieldKey(rowId, paths[i])
  {
    seq(|paths|, i requires 0 <= i < |paths| => FieldKey(rowId, paths[i]))
  }

  lemma FieldKeysAreWritten(rowId: string, runId: string, assetId: string, contract: Contract, paths: seq<string>)
    requires forall p :: p in paths <==> p in contract
    ensures forall k :: k in FieldKeys(rowId, paths) <==> k in ContractWrite(rowId, runId, assetId, contract)
  {
    var keys, write := FieldKeys(rowId, paths), ContractWrite(rowId, runId, assetId, contract);
    forall k | k in write
      ensures k in keys
    {
      assert k.path in paths;
      var i :| 0 <= i < |paths| && paths[i] == k.path;
      assert keys[i] == k;
    }
    forall k | k in keys
      ensures k in write
    {
      var i :| 0 <= i < |keys| && keys[i] == k;
      assert paths[i] in paths;
    }
  }

  /** The field upserts of one item. */
  method UpsertFields(before: map<FieldKey, ObservedField>, rowId: string, runId: string, assetId: string, contract: Contract)
    returns (fields: map<FieldKey, ObservedField>)
    ensures fields == Put(MergeField, before, ContractWrite(rowId, runId, assetId, contract))
  {
    var paths := SortedPaths(contract.Keys);
    var keys, write := FieldKeys(rowId, paths), ContractWrite(rowId, runId, assetId, contract);
    FieldKeysAreWritten(rowId, runId, assetId, contract, paths);
    PutEachIsPut(MergeField, before, write, keys);
    fields := UpsertEach(before, write, keys);
  }

  method UpsertEach(before: map<FieldKey, ObservedField>, write: map<FieldKey, ObservedField>, keys: seq<FieldKey>)
    returns (fields: map<FieldKey, ObservedField>)
    requires forall i :: 0 <= i < |keys| ==> keys[i] in write
    ensures fields == PutEach(MergeField, before, write, keys)
  {
    fields := before;
    for i := 0 to |keys|
      invariant fields == PutEach(MergeField, before, write, keys[..i])
    {
      assert keys[..i + 1][..i] == keys[..i];
      fields := PutOne(MergeField, fields, keys[i], write[keys[i]]);
    }
    assert keys[..|keys|] == keys;
  }

  /** The statements for one item. */
  method NormalizeItem(env: Env, t: Tables, dagRunId: string, o: Observation, at: Time, now: Time) returns (r: Option<Tables>)
    ensures r == NormalizeOne(env, t, dagRunId, o, at, now)
  {
    var runId := RunId(dagRunId, o.sourceId);
    var rows := PutChecked(MergeRow, RowPk, t.rows, RowWrite(env, dagRunId, o, at));
    if rows.None? {
      return None;
    }
    var contract := ContractFromPayload(o.item.payload);
    var fields := UpsertFields(t.fields, RowIdOf(env, runId, o.item), runId, o.item.assetId, contract);
    var evidence := PutChecked(Keep, EvidencePk, t.evidence, EvidenceWrite(env, dagRunId, o, at, now));
    if evidence.None? {
      return None;
    }
    return Some(t.(rows := rows.value, fields := fields, evidence := evidence.value));
  }

  /** The function says what the statements for an item do. */
  ghost predicate IsStep(step: (Tables, Observation, int) -> Option<Tables>, env: Env, dagRunId: string, at: Time, clock: int -> Time) {
    forall t: Tables, o: Observation, i: int {:trigger NormalizeOne(env, t, dagRunId, o, at, clock(i))} ::
      step(t, o, i) == NormalizeOne(env, t, dagRunId, o, at, clock(i))
  }

  lemma StepIsStep(env: Env, dagRunId: string, at: Time, clock: int -> Time)
    ensures IsStep(Step(env, dagRunId, at, clock), env, dagRunId, at, clock)
  {
  }

  /** The statements for the i-th item, unless an earlier one failed. */
  method NormalizeNext(env: Env, before: Option<Tables>, dagRunId: string, o: Observation, at: Time, clock: int -> Time, i: int,
                       ghost step: (Tables, Observation, int) -> Option<Tables>) returns (r: Option<Tables>)
    requires IsStep(step, env, dagRunId, at, clock)
    ensures r == if before.None? then None else step(before.value, o, i)
  {
    if before.None? {
      return None;
    }
    r := NormalizeItem(env, before.value, dagRunId, o, at, clock(i));
  }

  /** The items of one outcome. */
  method NormalizeItems(env: Env, t: Tables, dagRunId: string, items: seq<Observation>, at: Time, clock: int -> Time, first: int,
                        ghost step: (Tables, Observation, int) -> Option<Tables>) returns (r: Option<Tables>)
    requires IsStep(step, env, dagRunId, at, clock)
    ensures r == Fold(step, t, items, first)
  {
    r := Some(t);
    for j := 0 to |items|
      invariant r == Fold(step, t, items[..j], first)
    {
      FoldOneMore(step, t, items, first, j);
      r := NormalizeNext(env, r, dagRunId, items[j], at, clock, first + j, step);
    }
    assert items[..|items|] == items;
  }

  /** The items of all outcomes, in order; a failed statement ends the run. */
  method NormalizeOutcomes(env: Env, t: Tables, dagRunId: string, outcomes: seq<Outcome>, at: Time, clock: int -> Time,
                           ghost step: (Tables, Observation, int) -> Option<Tables>) returns (r: Option<Tables>)
    requires IsStep(step, env, dagRunId, at, clock)
    ensures r == Fold(step, t, Observations(outcomes), 0)
  {
    var stored := t;
    var n := 0;
    for i := 0 to |outcomes|
      invariant n == |Observations(outcomes[..i])|
      invariant Fold(step, t, Observations(outcomes[..i]), 0) == Some(stored)
    {
      var items := ObservationsOf(outcomes[i]);
      ghost var done := Observations(outcomes[..i]);
      assert outcomes[..i + 1][..i] == outcomes[..i];
      FoldAppend(step, t, done, items, 0);
      var next := NormalizeItems(env, stored, dagRunId, items, at, clock, n, step);
      if next.None? {
        ghost var rest := ObservationsFrom(outcomes, i);
        FoldAppend(step, t, done + items, rest, 0);
        return None;
      }
      stored, n := next.value, n + |items|;
    }
    assert outcomes[..|outcomes|] == outcomes;
    return Some(stored);
  }

  class Catalog {
    var tables: Tables
    const versions: map<string, string>

    constructor (versions: map<string, string>)
      ensures tables == Tables(map[], map[], map[], map[], map[], map[], map[]) && this.versions == versions
    {
      tables := Tables(map[], map[], map[], map[], map[], map[], map[]);
      this.versions := versions;
    }

    /** `normalize_asset_schema`; a failed statement rolls the transaction back. */
    method NormalizeAssetSchema(env: Env, dagRunId: string, outcomes: seq<Outcome>, at: Time, clock: int -> Time) returns (ok: bool)
      modifies this
      ensures ok == Normalized(env, old(tables), dagRunId, Observations(outcomes), at, clock).Some?
      ensures tables == if ok then Normalized(env, old(tables), dagRunId, Observations(outcomes), at, clock).value
                        else old(tables)
    {
      StepIsStep(env, dagRunId, at, clock);
      var stored := NormalizeOutcomes(env, tables, dagRunId, outcomes, at, clock, Step(env, dagRunId, at, clock));
      if stored.Some? {
        tables := stored.value;
      }
      return stored.Some?;
    }

    /** `record_schema_observations` */
    method RecordSchemaObservations(env: Env, dagRunId: string, outcomes: seq<Outcome>, at: Time)
      modifies this
      ensures tables == old(tables).(
        schemas := PutAll(Keep, old(tables).schemas, SchemaWrites(env, versions, dagRunId, outcomes, at)))
    {
      ghost var writes := SchemaWrites(env, versions, dagRunId, outcomes, at);
      for i := 0 to |outcomes|
        invariant tables == old(tables).(schemas := PutAll(Keep, old(tables).schemas, writes[..i]))
      {
        PutAllOneMore(Keep, old(tables).schemas, writes, i);
        var contracts := MergeContracts(outcomes[i].payloads);
        var write := map a | a in contracts && a in versions ::
          SchemaKey(a, versions[a], env.schemaHash(contracts[a])) := FirstSeen(RunId(dagRunId, outcomes[i].sourceId), at);
        assert write == SchemaWrite(env, versions, dagRunId, outcomes[i], at);
        tables := tables.(schemas := Put(Keep, tables.schemas, write));
      }
      assert writes[..|outcomes|] == writes;
    }

    /** `load_catalog` */
    method LoadCatalog(date: string, outcomes: seq<Outcome>, at: Time)
      modifies this
      ensures tables == old(tables).(
        loads := PutAll(Replace, old(tables).loads, LoadWrites(date, outcomes)),
        loadedAt := PutAll(Replace, old(tables).loadedAt, LoadTimeWrites(date, outcomes, at)))
    {
      ghost var counted, timed := LoadWrites(date, outcomes), LoadTimeWrites(date, outcomes, at);
      for i := 0 to |outcomes|
        invariant tables == old(tables).(
          loads := PutAll(Replace, old(tables).loads, counted[..i]),
          loadedAt := PutAll(Replace, old(tables).loadedAt, timed[..i]))
      {
        PutAllOneMore(Replace, old(tables).loads, counted, i);
        PutAllOneMore(Replace, old(tables).loadedAt, timed, i);
        var counts := CountByAsset(outcomes[i].payloads);
        var write := map a | a in counts :: LoadKey(date, outcomes[i].sourceId, a) := counts[a];
        assert write == LoadWrite(date, outcomes[i]);
        tables := tables.(
          loads := Put(Replace, tables.loads, write),
          loadedAt := Put(Replace, tables.loadedAt, map k | k in write :: at));
      }
      assert counted[..|outcomes|] == counted && timed[..|outcomes|] == timed;
    }

    /** `record_lineage` */
    method RecordLineage(dagRunId: string, outcomes: seq<Outcome>)
      modifies this
      ensures tables == old(tables).(edges := PutAll(Keep, old(tables).edges, EdgeWrites(dagRunId, outcomes)))
    {
      ghost var writes := EdgeWrites(dagRunId, outcomes);
      for i := 0 to |outcomes|
        invariant tables == old(tables).(edges := PutAll(Keep, old(tables).edges, writes[..i]))
      {
        PutAllOneMore(Keep, old(tables).edges, writes, i);
        if Healthy(outcomes[i].status) {
          tables := tables.(edges := Put(Keep, tables.edges, EdgeWrite(dagRunId, outcomes[i])));
        }
      }
      assert writes[..|outcomes|] == writes;
    }

    /** The stages of a day, in order; nothing is stored when no source is healthy or normalisation fails. */
    method RunBatch(env: Env, dagRunId: string, date: string, outcomes: seq<Outcome>, at: Time, clock: int -> Time, now: Time)
      returns (ok: bool)
      modifies this
      ensures ok == Batch(env, versions, old(tables), dagRunId, date, outcomes, at, clock, now).Some?
      ensures tables == AfterBatch(env, versions, old(tables), dagRunId, date, outcomes, at, clock, now)
    {
      if !SomeHealthy(outcomes) {
        return false;
      }
      ok := NormalizeAssetSchema(env, dagRunId, outcomes, at, clock);
      if ok {
        NormalizedTables(env, old(tables), dagRunId, Observations(outcomes), at, clock);
        RecordSchemaObservations(env, dagRunId, outcomes, at);
        LoadCatalog(date, outcomes, now);
        RecordLineage(dagRunId, outcomes);
      }
    }
  }
}
