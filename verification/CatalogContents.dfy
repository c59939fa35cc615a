/**
 * What a committed batch leaves in the tables, row by row.
 *
 * Every column is either that of the stored or first written row, or that of the
 * last one written, and the rows are exactly the stored ones and those that the
 * items of the outcomes call for.
 */
module CatalogContents {
  import opened CatalogBatch
  import opened SchemaContract
  import opened Upsert
  import opened Wrappers

  /** The batch was committed and left these tables. */
  ghost predicate Committed(env: Env, versions: map<string, string>, t: Tables, dagRunId: string, date: string,
                            outcomes: seq<Outcome>, at: Time, clock: int -> Time, loadedAt: Time, u: Tables)
  {
    Batch(env, versions, t, dagRunId, date, outcomes, at, clock, loadedAt) == Some(u)
  }

  /** A batch is committed exactly when some source succeeded or had no data and normalising goes through. */
  lemma CommitsIff(env: Env, versions: map<string, string>, t: Tables, dagRunId: string, date: string,
                   outcomes: seq<Outcome>, at: Time, clock: int -> Time, loadedAt: Time)
    ensures Batch(env, versions, t, dagRunId, date, outcomes, at, clock, loadedAt).Some? <==>
      && (exists o :: o in outcomes && o.status in {SUCCESS, NO_DATA})
      && Normalized(env, t, dagRunId, Observations(outcomes), at, clock).Some?
  {
    if SomeHealthy(outcomes) {
      var i :| 0 <= i < |outcomes| && Healthy(outcomes[i].status);
      assert outcomes[i] in outcomes;
    }
  }

  // ----- Items -----

  /** The item is among the payloads of an outcome. */
  predicate IsItem(outcomes: seq<Outcome>, o: Outcome, item: Item) {
    o in outcomes && item in o.payloads
  }

  lemma {:induction false} ObservedIff(outcomes: seq<Outcome>, x: Observation)
    ensures x in Observations(outcomes) <==>
      exists o :: IsItem(outcomes, o, x.item) && x.sourceId == o.sourceId && x.status == o.status
  {
    if outcomes != [] {
      var n := |outcomes| - 1;
      ObservedIff(outcomes[..n], x);
      assert outcomes == outcomes[..n] + [outcomes[n]];
      if o :| IsItem(outcomes, o, x.item) && x.sourceId == o.sourceId && x.status == o.status {
        if o in outcomes[..n] {
          assert IsItem(outcomes[..n], o, x.item);
        } else {
          var i :| 0 <= i < |o.payloads| && o.payloads[i] == x.item;
          assert ObservationsOf(o)[i] == x;
        }
      }
    }
  }

  // ----- Who writes a row -----

  lemma {:induction false} FirstWriterOf<K, V>(writes: seq<map<K, V>>, k: K, j: nat) returns (i: nat)
    requires j < |writes| && k in writes[j]
    ensures FirstWrites(writes, k, i)
  {
    if l :| 0 <= l < j && k in writes[l] {
      i := FirstWriterOf(writes, k, l);
    } else {
      i := j;
    }
  }

  lemma {:induction false} LastWriterOf<K, V>(writes: seq<map<K, V>>, k: K, j: nat) returns (i: nat)
    requires j < |writes| && k in writes[j]
    ensures LastWrites(writes, k, i)
    decreases |writes| - j
  {
    if l :| j < l < |writes| && k in writes[l] {
      i := LastWriterOf(writes, k, l);
    } else {
      i := j;
    }
  }

  /** With `DO NOTHING` a stored row stays, and else the first write stays. */
  lemma KeptRow<K, V(!new)>(table: map<K, V>, writes: seq<map<K, V>>, k: K)
    ensures k in PutAll(Keep, table, writes) <==> k in table || exists j :: 0 <= j < |writes| && k in writes[j]
    ensures k in table ==> PutAll(Keep, table, writes)[k] == table[k]
    ensures forall j: nat :: k !in table && FirstWrites(writes, k, j) ==> PutAll(Keep, table, writes)[k] == writes[j][k]
  {
    PutAllKeys(Keep, table, writes, k);
    if j :| 0 <= j < |writes| && k in writes[j] {
      var a := FirstWriterOf(writes, k, j);
      ColumnIsFirst(Keep, (v: V) => v, table, writes, k, a);
    } else {
      NotWritten(Keep, table, writes, k);
    }
  }

  // ----- Table by table -----

  lemma NormalizedTablesOf(env: Env, t: Tables, dagRunId: string, obs: seq<Observation>, at: Time, clock: int -> Time)
    requires PrimaryKeysHold(t) && Normalized(env, t, dagRunId, obs, at, clock).Some?
    ensures var u := Normalized(env, t, dagRunId, obs, at, clock).value;
      && u.rows == PutAll(MergeRow, t.rows, RowWrites(env, dagRunId, obs, at))
      && u.fields == PutAll(MergeField, t.fields, FieldWrites(env, dagRunId, obs))
      && u.evidence == PutAll(Keep, t.evidence, EvidenceWrites(env, dagRunId, obs, at, clock))
  {
    NormalizedTables(env, t, dagRunId, obs, at, clock);
    PutAllSucceedsIff(MergeRow, RowPk, t.rows, RowWrites(env, dagRunId, obs, at));
    PutAllSucceedsIff(Keep, EvidencePk, t.evidence, EvidenceWrites(env, dagRunId, obs, at, clock));
  }

  /** What the stages after normalising leave alone, and what they write. */
  lemma StagesOf(env: Env, versions: map<string, string>, t: Tables, dagRunId: string, date: string,
                 outcomes: seq<Outcome>, at: Time, clock: int -> Time, loadedAt: Time, u: Tables)
    requires Committed(env, versions, t, dagRunId, date, outcomes, at, clock, loadedAt, u)
    ensures var n := Normalized(env, t, dagRunId, Observations(outcomes), at, clock);
      n.Some? && u.rows == n.value.rows && u.fields == n.value.fields && u.evidence == n.value.evidence
    ensures u.schemas == PutAll(Keep, t.schemas, SchemaWrites(env, versions, dagRunId, outcomes, at))
    ensures u.loads == PutAll(Replace, t.loads, LoadWrites(date, outcomes))
    ensures u.loadedAt == PutAll(Replace, t.loadedAt, LoadTimeWrites(date, outcomes, loadedAt))
    ensures u.edges == PutAll(Keep, t.edges, EdgeWrites(dagRunId, outcomes))
  {
  }

  /** The tables of observations after a committed batch. */
  lemma ObservationsOfBatch(env: Env, versions: map<string, string>, t: Tables, dagRunId: string, date: string,
                            outcomes: seq<Outcome>, at: Time, clock: int -> Time, loadedAt: Time, u: Tables)
    requires PrimaryKeysHold(t) && Committed(env, versions, t, dagRunId, date, outcomes, at, clock, loadedAt, u)
    ensures u.rows == PutAll(MergeRow, t.rows, RowWrites(env, dagRunId, Observations(outcomes), at))
    ensures u.fields == PutAll(MergeField, t.fields, FieldWrites(env, dagRunId, Observations(outcomes)))
    ensures u.evidence == PutAll(Keep, t.evidence, EvidenceWrites(env, dagRunId, Observations(outcomes), at, clock))
  {
    StagesOf(env, versions, t, dagRunId, date, outcomes, at, clock, loadedAt, u);
    NormalizedTablesOf(env, t, dagRunId, Observations(outcomes), at, clock);
  }

  // ----- Observed rows -----

  /** Some item is of the run, asset and row key. */
  ghost predicate IsObserved(dagRunId: string, outcomes: seq<Outcome>, k: RowKey) {
    exists o, item :: IsItem(outcomes, o, item) && k == RowKey(dagRunId + "__" + o.sourceId, item.assetId, item.rowKey)
  }

  lemma RowWrittenIff(env: Env, dagRunId: string, outcomes: seq<Outcome>, at: Time, k: RowKey)
    ensures var writes := RowWrites(env, dagRunId, Observations(outcomes), at);
      IsObserved(dagRunId, outcomes, k) <==> exists j :: 0 <= j < |writes| && k in writes[j]
  {
    var obs := Observations(outcomes);
    var writes := RowWrites(env, dagRunId, obs, at);
    if j :| 0 <= j < |writes| && k in writes[j] {
      assert obs[j] in obs;
      ObservedIff(outcomes, obs[j]);
    }
    if o, item :| IsItem(outcomes, o, item) && k == RowKey(dagRunId + "__" + o.sourceId, item.assetId, item.rowKey) {
      var x := Observation(o.sourceId, o.status, item);
      ObservedIff(outcomes, x);
      var j :| 0 <= j < |obs| && obs[j] == x;
      assert k in writes[j];
    }
  }

  lemma RowOfWrites(env: Env, rows: map<RowKey, ObservedRow>, dagRunId: string, obs: seq<Observation>, at: Time, k: RowKey, j: nat)
    requires j < |obs| && k in RowWrites(env, dagRunId, obs, at)[j]
    ensures var after := PutAll(MergeRow, rows, RowWrites(env, dagRunId, obs, at));
      k in after && after[k] == ObservedRow(if k in rows then rows[k].rowId else env.rowId(k.runId, k.assetId, k.rowKey), at)
  {
    var writes := RowWrites(env, dagRunId, obs, at);
    var a := FirstWriterOf(writes, k, j);
    var b := LastWriterOf(writes, k, j);
    ColumnIsFirst(MergeRow, (r: ObservedRow) => r.rowId, rows, writes, k, a);
    ColumnIsLast(MergeRow, (r: ObservedRow) => r.observedAt, rows, writes, k, b);
  }

  /** The rows are the stored ones and one per run, asset and row key of an item, last observed now. */
  lemma RowStoredIff(env: Env, versions: map<string, string>, t: Tables, dagRunId: string, date: string,
                     outcomes: seq<Outcome>, at: Time, clock: int -> Time, loadedAt: Time, u: Tables, k: RowKey)
    requires PrimaryKeysHold(t) && Committed(env, versions, t, dagRunId, date, outcomes, at, clock, loadedAt, u)
    ensures k in u.rows <==> k in t.rows || IsObserved(dagRunId, outcomes, k)
    ensures IsObserved(dagRunId, outcomes, k) ==>
      u.rows[k] == ObservedRow(if k in t.rows then t.rows[k].rowId else env.rowId(k.runId, k.assetId, k.rowKey), at)
    ensures k in t.rows && !IsObserved(dagRunId, outcomes, k) ==> u.rows[k] == t.rows[k]
  {
    ObservationsOfBatch(env, versions, t, dagRunId, date, outcomes, at, clock, loadedAt, u);
    RowWrittenIff(env, dagRunId, outcomes, at, k);
    var writes := RowWrites(env, dagRunId, Observations(outcomes), at);
    if j :| 0 <= j < |writes| && k in writes[j] {
      RowOfWrites(env, t.rows, dagRunId, Observations(outcomes), at, k, j);
    } else {
      NotWritten(MergeRow, t.rows, writes, k);
    }
  }

  // ----- Observed fields -----

  /** The observation is of the row, and its payload has the field. */
  predicate ShowsField(env: Env, dagRunId: string, x: Observation, k: FieldKey) {
    k.rowId == env.rowId(dagRunId + "__" + x.sourceId, x.item.assetId, x.item.rowKey) && k.path in ContractOf(x.item.payload)
  }

  /** The j-th observation is the last one that shows the field. */
  predicate ShowsLast(env: Env, dagRunId: string, obs: seq<Observation>, k: FieldKey, j: nat) {
    j < |obs| && ShowsField(env, dagRunId, obs[j], k) && forall i :: j < i < |obs| ==> !ShowsField(env, dagRunId, obs[i], k)
  }

  lemma FieldWriteKeys(env: Env, dagRunId: string, x: Observation, k: FieldKey)
    ensures k in FieldWrite(env, dagRunId, x) <==> ShowsField(env, dagRunId, x, k)
    ensures k in FieldWrite(env, dagRunId, x) ==>
      FieldWrite(env, dagRunId, x)[k] == ObservedField(dagRunId + "__" + x.sourceId, x.item.assetId, ContractOf(x.item.payload)[k.path])
  {
  }

  /** A written field has the type written last, and else the columns it had. */
  lemma FieldOfWrites(fields: map<FieldKey, ObservedField>, writes: seq<map<FieldKey, ObservedField>>, k: FieldKey, j: nat) returns (b: nat)
    requires j < |writes| && k in writes[j]
    ensures LastWrites(writes, k, b)
    ensures var after := PutAll(MergeField, fields, writes);
      && k in after && after[k].dataType == writes[b][k].dataType
      && (k in fields ==> after[k].(dataType := None) == fields[k].(dataType := None))
  {
    var a := FirstWriterOf(writes, k, j);
    b := LastWriterOf(writes, k, j);
    ColumnIsFirst(MergeField, (f: ObservedField) => f.(dataType := None), fields, writes, k, a);
    ColumnIsLast(MergeField, (f: ObservedField) => f.dataType, fields, writes, k, b);
  }

  lemma ShownIffWritten(env: Env, dagRunId: string, obs: seq<Observation>, k: FieldKey, j: nat)
    ensures LastWrites(FieldWrites(env, dagRunId, obs), k, j) <==> ShowsLast(env, dagRunId, obs, k, j)
  {
    var writes := FieldWrites(env, dagRunId, obs);
    forall i | 0 <= i < |obs|
      ensures k in writes[i] <==> ShowsField(env, dagRunId, obs[i], k)
    {
      FieldWriteKeys(env, dagRunId, obs[i], k);
    }
  }

  lemma FieldShown(env: Env, fields: map<FieldKey, ObservedField>, dagRunId: string, obs: seq<Observation>, k: FieldKey, j: nat)
    requires ShowsLast(env, dagRunId, obs, k, j)
    ensures var after := PutAll(MergeField, fields, FieldWrites(env, dagRunId, obs));
      && k in after && after[k].dataType == ContractOf(obs[j].item.payload)[k.path]
      && (k in fields ==> after[k].(dataType := None) == fields[k].(dataType := None))
  {
    ShownIffWritten(env, dagRunId, obs, k, j);
    FieldWriteKeys(env, dagRunId, obs[j], k);
    var b := FieldOfWrites(fields, FieldWrites(env, dagRunId, obs), k, j);
    assert b == j;
  }

  lemma FieldNotShown(env: Env, fields: map<FieldKey, ObservedField>, dagRunId: string, obs: seq<Observation>, k: FieldKey)
    requires forall j: nat :: !ShowsLast(env, dagRunId, obs, k, j)
    ensures Row(PutAll(MergeField, fields, FieldWrites(env, dagRunId, obs)), k) == Row(fields, k)
  {
    var writes := FieldWrites(env, dagRunId, obs);
    if j :| 0 <= j < |writes| && k in writes[j] {
      var b := LastWriterOf(writes, k, j);
      ShownIffWritten(env, dagRunId, obs, k, b);
    } else {
      NotWritten(MergeField, fields, writes, k);
    }
  }

  /** The last item that shows a field gives its type; its other columns stay. */
  lemma FieldIsLastShown(env: Env, versions: map<string, string>, t: Tables, dagRunId: string, date: string,
                         outcomes: seq<Outcome>, at: Time, clock: int -> Time, loadedAt: Time, u: Tables, k: FieldKey, j: nat)
    requires PrimaryKeysHold(t) && Committed(env, versions, t, dagRunId, date, outcomes, at, clock, loadedAt, u)
    requires ShowsLast(env, dagRunId, Observations(outcomes), k, j)
    ensures k in u.fields && u.fields[k].dataType == ContractOf(Observations(outcomes)[j].item.payload)[k.path]
    ensures k in t.fields ==> u.fields[k].(dataType := None) == t.fields[k].(dataType := None)
  {
    ObservationsOfBatch(env, versions, t, dagRunId, date, outcomes, at, clock, loadedAt, u);
    FieldShown(env, t.fields, dagRunId, Observations(outcomes), k, j);
  }

  /** Fields that no item shows stay. */
  lemma OtherFieldsStay(env: Env, versions: map<string, string>, t: Tables, dagRunId: string, date: string,
                        outcomes: seq<Outcome>, at: Time, clock: int -> Time, loadedAt: Time, u: Tables, k: FieldKey)
    requires PrimaryKeysHold(t) && Committed(env, versions, t, dagRunId, date, outcomes, at, clock, loadedAt, u)
    requires forall x :: x in Observations(outcomes) ==> !ShowsField(env, dagRunId, x, k)
    ensures Row(u.fields, k) == Row(t.fields, k)
  {
    ObservationsOfBatch(env, versions, t, dagRunId, date, outcomes, at, clock, loadedAt, u);
    FieldNotShown(env, t.fields, dagRunId, Observations(outcomes), k);
  }

  // ----- Evidence -----

  /** The evidence that an item calls for; an item without a cluster is of the local one. */
  predicate CallsFor(x: Observation, at: Time, k: EvidenceKey) {
    k == EvidenceKey(if x.item.clusterId.None? then "local" else x.item.clusterId.value, x.sourceId, x.item.rowKey, at)
  }

  predicate CallsFirst(obs: seq<Observation>, at: Time, k: EvidenceKey, j: nat) {
    j < |obs| && CallsFor(obs[j], at, k) && forall i :: 0 <= i < j ==> !CallsFor(obs[i], at, k)
  }

  lemma EvidenceOfWrites(env: Env, evidence: map<EvidenceKey, Evidence>, dagRunId: string, obs: seq<Observation>,
                         at: Time, clock: int -> Time, k: EvidenceKey)
    ensures var after := PutAll(Keep, evidence, EvidenceWrites(env, dagRunId, obs, at, clock));
      && (k in after <==> k in evidence || exists j: nat :: CallsFirst(obs, at, k, j))
      && (k in evidence ==> after[k] == evidence[k])
      && (forall j: nat :: k !in evidence && CallsFirst(obs, at, k, j) ==>
            after[k] == Evidence(env.evidenceId(obs[j].item.assetId, obs[j].item.rowKey, at), obs[j].item.assetId,
                                 dagRunId + "__" + obs[j].sourceId, obs[j].status, clock(j)))
  {
    var writes := EvidenceWrites(env, dagRunId, obs, at, clock);
    forall j | 0 <= j < |obs|
      ensures k in writes[j] <==> CallsFor(obs[j], at, k)
    {
      EvidenceWriteKeys(env, dagRunId, obs[j], at, clock(j));
    }
    assert forall j: nat :: FirstWrites(writes, k, j) <==> CallsFirst(obs, at, k, j);
    KeptRow(evidence, writes, k);
    if j :| 0 <= j < |writes| && k in writes[j] {
      var a := FirstWriterOf(writes, k, j);
    }
  }

  /** The evidence is the stored one, which stays, and that of the items, of which the first one decides. */
  lemma EvidenceStoredIff(env: Env, versions: map<string, string>, t: Tables, dagRunId: string, date: string,
                          outcomes: seq<Outcome>, at: Time, clock: int -> Time, loadedAt: Time, u: Tables, k: EvidenceKey)
    requires PrimaryKeysHold(t) && Committed(env, versions, t, dagRunId, date, outcomes, at, clock, loadedAt, u)
    ensures var obs := Observations(outcomes);
      && (k in u.evidence <==> k in t.evidence || exists j: nat :: CallsFirst(obs, at, k, j))
      && (k in t.evidence ==> u.evidence[k] == t.evidence[k])
      && (forall j: nat :: k !in t.evidence && CallsFirst(obs, at, k, j) ==>
            u.evidence[k] == Evidence(env.evidenceId(obs[j].item.assetId, obs[j].item.rowKey, at), obs[j].item.assetId,
                                      dagRunId + "__" + obs[j].sourceId, obs[j].status, clock(j)))
  {
    ObservationsOfBatch(env, versions, t, dagRunId, date, outcomes, at, clock, loadedAt, u);
    EvidenceOfWrites(env, t.evidence, dagRunId, Observations(outcomes), at, clock, k);
  }

  // ----- Lineage -----

  /** The outcome is of a source that succeeded or had no data, and has an item of the asset of the edge. */
  ghost predicate Feeds(dagRunId: string, o: Outcome, k: EdgeKey) {
    && o.status in {SUCCESS, NO_DATA} && CountOf(o.payloads, k.upstream) > 0
    && k.downstream == "ops.normalized_evidence" && k.runId == dagRunId + "__" + o.sourceId
  }

  lemma EdgeWriteKeys(dagRunId: string, o: Outcome, k: EdgeKey)
    ensures k in EdgeWrite(dagRunId, o) <==> Feeds(dagRunId, o, k)
    ensures k in EdgeWrite(dagRunId, o) ==> EdgeWrite(dagRunId, o)[k] == "normalize_asset_schema"
  {
    CountIsMultiplicity(o.payloads, k.upstream);
  }

  /** The edges are the stored ones and those that an outcome feeds. */
  lemma EdgeStoredIff(env: Env, versions: map<string, string>, t: Tables, dagRunId: string, date: string,
                      outcomes: seq<Outcome>, at: Time, clock: int -> Time, loadedAt: Time, u: Tables, k: EdgeKey)
    requires Committed(env, versions, t, dagRunId, date, outcomes, at, clock, loadedAt, u)
    ensures k in u.edges <==> k in t.edges || exists o :: o in outcomes && Feeds(dagRunId, o, k)
    ensures k in u.edges ==> u.edges[k] == if k in t.edges then t.edges[k] else "normalize_asset_schema"
  {
    StagesOf(env, versions, t, dagRunId, date, outcomes, at, clock, loadedAt, u);
    EdgesOfWrites(t.edges, dagRunId, outcomes, k);
  }

  lemma EdgesOfWrites(edges: map<EdgeKey, string>, dagRunId: string, outcomes: seq<Outcome>, k: EdgeKey)
    ensures var after := PutAll(Keep, edges, EdgeWrites(dagRunId, outcomes));
      && (k in after <==> k in edges || exists o :: o in outcomes && Feeds(dagRunId, o, k))
      && (k in after ==> after[k] == if k in edges then edges[k] else "normalize_asset_schema")
  {
    var writes := EdgeWrites(dagRunId, outcomes);
    forall j | 0 <= j < |outcomes|
      ensures k in writes[j] <==> Feeds(dagRunId, outcomes[j], k)
      ensures k in writes[j] ==> writes[j][k] == "normalize_asset_schema"
    {
      EdgeWriteKeys(dagRunId, outcomes[j], k);
    }
    KeptRow(edges, writes, k);
    if j :| 0 <= j < |writes| && k in writes[j] {
      assert outcomes[j] in outcomes;
      var a := FirstWriterOf(writes, k, j);
    }
    if o :| o in outcomes && Feeds(dagRunId, o, k) {
      var j :| 0 <= j < |outcomes| && outcomes[j] == o;
      assert k in writes[j];
    }
  }

  // ----- Load counts -----

  /** How many of the items are of the asset. */
  function CountOf(items: seq<Item>, assetId: string): nat {
    if items == [] then 0 else (if items[0].assetId == assetId then 1 else 0) + CountOf(items[1..], assetId)
  }

  lemma {:induction false} CountIsMultiplicity(items: seq<Item>, assetId: string)
    ensures multiset(AssetIds(items))[assetId] == CountOf(items, assetId)
    ensures assetId in AssetIds(items) <==> CountOf(items, assetId) > 0
  {
    if items == [] {
      assert AssetIds(items) == [];
    } else {
      CountIsMultiplicity(items[1..], assetId);
      assert AssetIds(items) == [items[0].assetId] + AssetIds(items[1..]);
    }
  }

  /** The outcome has items of the day, source and asset. */
  predicate Loads(date: string, o: Outcome, k: LoadKey) {
    k.logicalDate == date && k.sourceId == o.sourceId && CountOf(o.payloads, k.assetId) > 0
  }

  lemma LoadWriteKeys(date: string, o: Outcome, loadedAt: Time, k: LoadKey)
    ensures k in LoadWrite(date, o) <==> Loads(date, o, k)
    ensures k in LoadTimeWrite(date, o, loadedAt) <==> Loads(date, o, k)
    ensures Loads(date, o, k) ==> LoadWrite(date, o)[k] == CountOf(o.payloads, k.assetId) && LoadTimeWrite(date, o, loadedAt)[k] == loadedAt
  {
    CountIsMultiplicity(o.payloads, k.assetId);
  }

  /** The j-th outcome is the last one with items for the count. */
  predicate LoadsLast(date: string, outcomes: seq<Outcome>, k: LoadKey, j: nat) {
    j < |outcomes| && Loads(date, outcomes[j], k) && forall i :: j < i < |outcomes| ==> !Loads(date, outcomes[i], k)
  }

  lemma LoadedIffWritten(date: string, outcomes: seq<Outcome>, loadedAt: Time, k: LoadKey, j: nat)
    ensures LastWrites(LoadWrites(date, outcomes), k, j) <==> LoadsLast(date, outcomes, k, j)
    ensures LastWrites(LoadTimeWrites(date, outcomes, loadedAt), k, j) <==> LoadsLast(date, outcomes, k, j)
  {
    var counts, times := LoadWrites(date, outcomes), LoadTimeWrites(date, outcomes, loadedAt);
    forall i | 0 <= i < |outcomes|
      ensures k in counts[i] <==> Loads(date, outcomes[i], k)
      ensures k in times[i] <==> Loads(date, outcomes[i], k)
    {
      LoadWriteKeys(date, outcomes[i], loadedAt, k);
    }
  }

  /** The last outcome with items of a day, source and asset gives the count, loaded now. */
  lemma LoadIsLast(env: Env, versions: map<string, string>, t: Tables, dagRunId: string, date: string,
                   outcomes: seq<Outcome>, at: Time, clock: int -> Time, loadedAt: Time, u: Tables, k: LoadKey, j: nat)
    requires Committed(env, versions, t, dagRunId, date, outcomes, at, clock, loadedAt, u) && LoadsLast(date, outcomes, k, j)
    ensures k in u.loads && u.loads[k] == CountOf(outcomes[j].payloads, k.assetId)
    ensures k in u.loadedAt && u.loadedAt[k] == loadedAt
  {
    StagesOf(env, versions, t, dagRunId, date, outcomes, at, clock, loadedAt, u);
    LoadedIffWritten(date, outcomes, loadedAt, k, j);
    LoadWriteKeys(date, outcomes[j], loadedAt, k);
    ColumnIsLast(Replace, (n: nat) => n, t.loads, LoadWrites(date, outcomes), k, j);
    ColumnIsLast(Replace, (s: Time) => s, t.loadedAt, LoadTimeWrites(date, outcomes, loadedAt), k, j);
  }

  /** Counts for which no outcome has items stay. */
  lemma OtherLoadsStay(env: Env, versions: map<string, string>, t: Tables, dagRunId: string, date: string,
                       outcomes: seq<Outcome>, at: Time, clock: int -> Time, loadedAt: Time, u: Tables, k: LoadKey)
    requires Committed(env, versions, t, dagRunId, date, outcomes, at, clock, loadedAt, u)
    requires forall o :: o in outcomes ==> !Loads(date, o, k)
    ensures Row(u.loads, k) == Row(t.loads, k) && Row(u.loadedAt, k) == Row(t.loadedAt, k)
  {
    StagesOf(env, versions, t, dagRunId, date, outcomes, at, clock, loadedAt, u);
    var counts, times := LoadWrites(date, outcomes), LoadTimeWrites(date, outcomes, loadedAt);
    forall i | 0 <= i < |outcomes|
      ensures k !in counts[i] && k !in times[i]
    {
      assert outcomes[i] in outcomes;
      LoadWriteKeys(date, outcomes[i], loadedAt, k);
    }
    NotWritten(Replace, t.loads, counts, k);
    NotWritten(Replace, t.loadedAt, times, k);
  }

  // ----- Schema history -----

  /** The flattened fields of all items of an asset, in order. */
  function AssetEntries(items: seq<Item>, assetId: string): seq<FieldEntry> {
    if items == [] then []
    else
      var n := |items| - 1;
      AssetEntries(items[..n], assetId) + if items[n].assetId == assetId then Flatten(items[n].payload, "") else []
  }

  lemma {:induction false} NoteAllMerges(c: Contract, xs: seq<FieldEntry>)
    ensures NoteAll(c, xs) == MergeContract(c, NoteAll(map[], xs))
  {
    if xs != [] {
      NoteAllMerges(c, xs[..|xs| - 1]);
    }
  }

  lemma {:induction false} NoteAllAppend(c: Contract, xs: seq<FieldEntry>, ys: seq<FieldEntry>)
    ensures NoteAll(c, xs + ys) == NoteAll(NoteAll(c, xs), ys)
  {
    if ys == [] {
      assert xs + ys == xs;
    } else {
      var n := |ys| - 1;
      assert (xs + ys)[..|xs| + n] == xs + ys[..n];
      NoteAllAppend(c, xs, ys[..n]);
    }
  }

  /** The merged contract of an asset is the contract of the fields of all its items, one after another. */
  lemma {:induction false} MergedIsContractOfAll(items: seq<Item>, assetId: string)
    ensures assetId in ContractsByAsset(items) <==> CountOf(items, assetId) > 0
    ensures assetId in ContractsByAsset(items) ==> ContractsByAsset(items)[assetId] == NoteAll(map[], AssetEntries(items, assetId))
    ensures assetId !in ContractsByAsset(items) ==> AssetEntries(items, assetId) == []
  {
    if items != [] {
      var n := |items| - 1;
      MergedIsContractOfAll(items[..n], assetId);
      CountOneMore(items, assetId);
      if items[n].assetId == assetId {
        var before, fields := AssetEntries(items[..n], assetId), Flatten(items[n].payload, "");
        NoteAllAppend(map[], before, fields);
        NoteAllMerges(NoteAll(map[], before), fields);
        assert AssetEntries(items, assetId) == before + fields;
      } else {
        assert AssetEntries(items, assetId) == AssetEntries(items[..n], assetId);
      }
    }
  }

  lemma CountOneMore(items: seq<Item>, assetId: string)
    requires items != []
    ensures CountOf(items, assetId) == CountOf(items[..|items| - 1], assetId) + if items[|items| - 1].assetId == assetId then 1 else 0
  {
    var n := |items| - 1;
    CountIsMultiplicity(items, assetId);
    CountIsMultiplicity(items[..n], assetId);
    assert AssetIds(items) == AssetIds(items[..n]) + [items[n].assetId];
  }

  /** The outcome shows the asset, which has a version, with the contract of this hash. */
  ghost predicate ShowsSchema(env: Env, versions: map<string, string>, o: Outcome, k: SchemaKey) {
    && CountOf(o.payloads, k.assetId) > 0 && k.assetId in versions && k.version == versions[k.assetId]
    && k.hash == env.schemaHash(NoteAll(map[], AssetEntries(o.payloads, k.assetId)))
  }

  ghost predicate ShowsFirst(env: Env, versions: map<string, string>, outcomes: seq<Outcome>, k: SchemaKey, j: nat) {
    && j < |outcomes| && ShowsSchema(env, versions, outcomes[j], k)
    && forall i :: 0 <= i < j ==> !ShowsSchema(env, versions, outcomes[i], k)
  }

  lemma SchemaWriteKeys(env: Env, versions: map<string, string>, dagRunId: string, o: Outcome, at: Time, k: SchemaKey)
    ensures k in SchemaWrite(env, versions, dagRunId, o, at) <==> ShowsSchema(env, versions, o, k)
    ensures k in SchemaWrite(env, versions, dagRunId, o, at) ==>
      SchemaWrite(env, versions, dagRunId, o, at)[k] == FirstSeen(dagRunId + "__" + o.sourceId, at)
  {
    MergedIsContractOfAll(o.payloads, k.assetId);
  }

  lemma SchemasOfWrites(env: Env, versions: map<string, string>, schemas: map<SchemaKey, FirstSeen>, dagRunId: string,
                        outcomes: seq<Outcome>, at: Time, k: SchemaKey)
    ensures var after := PutAll(Keep, schemas, SchemaWrites(env, versions, dagRunId, outcomes, at));
      && (k in after <==> k in schemas || exists j: nat :: ShowsFirst(env, versions, outcomes, k, j))
      && (k in schemas ==> after[k] == schemas[k])
      && (forall j: nat :: k !in schemas && ShowsFirst(env, versions, outcomes, k, j) ==>
            after[k] == FirstSeen(dagRunId + "__" + outcomes[j].sourceId, at))
  {
    var writes := SchemaWrites(env, versions, dagRunId, outcomes, at);
    forall j | 0 <= j < |outcomes|
      ensures k in writes[j] <==> ShowsSchema(env, versions, outcomes[j], k)
      ensures k in writes[j] ==> writes[j][k] == FirstSeen(dagRunId + "__" + outcomes[j].sourceId, at)
    {
      SchemaWriteKeys(env, versions, dagRunId, outcomes[j], at, k);
    }
    assert forall j: nat :: FirstWrites(writes, k, j) <==> ShowsFirst(env, versions, outcomes, k, j);
    KeptRow(schemas, writes, k);
    if j :| 0 <= j < |writes| && k in writes[j] {
      var a := FirstWriterOf(writes, k, j);
    }
  }

  /** A contract is on record exactly when it was or an outcome shows it; the first outcome that shows it stays. */
  lemma SchemaStoredIff(env: Env, versions: map<string, string>, t: Tables, dagRunId: string, date: string,
                        outcomes: seq<Outcome>, at: Time, clock: int -> Time, loadedAt: Time, u: Tables, k: SchemaKey)
    requires Committed(env, versions, t, dagRunId, date, outcomes, at, clock, loadedAt, u)
    ensures k in u.schemas <==> k in t.schemas || exists j: nat :: ShowsFirst(env, versions, outcomes, k, j)
    ensures k in t.schemas ==> u.schemas[k] == t.schemas[k]
    ensures forall j: nat :: k !in t.schemas && ShowsFirst(env, versions, outcomes, k, j) ==>
      u.schemas[k] == FirstSeen(dagRunId + "__" + outcomes[j].sourceId, at)
  {
    StagesOf(env, versions, t, dagRunId, date, outcomes, at, clock, loadedAt, u);
    SchemasOfWrites(env, versions, t.schemas, dagRunId, outcomes, at, k);
  }
}
