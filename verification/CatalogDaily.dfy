/**
 * The daily job: one extraction task per source, and a batch that reads its input
 * back from the archive.
 *
 * Over every history of tasks the batch reads, for each source, the status of the
 * last task and the payloads of the first task that found something.
 */
module CatalogDaily {
  import opened CatalogArchive
  import opened CatalogBatch
  import opened CatalogRuns
  import opened SchemaContract
  import opened Upsert
  import opened Wrappers

  const DAG_ID := "catalog_reconciliation_daily"

  /** The tables and files that the tasks write. */
  datatype Store = Store(runs: map<RunKey, CollectionRun>, files: Files, snapshots: map<SnapshotKey, FileKey>)

  /** One `extract` task: the day and source, whether it fails, what the source answers, and its clocks. */
  datatype Task = Task(key: FileKey, today: string, failing: bool, fetched: seq<Item>, finishedAt: Time)

  // ----- Identifiers -----

  /** An ISO date. */
  predicate IsDate(date: string) {
    |date| == 10
  }

  function DagRunId(date: string): string {
    DAG_ID + "__" + date
  }

  function RunKeyOf(key: FileKey): RunKey {
    RunKey(DagRunId(key.logicalDate), key.sourceId)
  }

  function RunIdOf(key: FileKey): string {
    RunId(DagRunId(key.logicalDate), key.sourceId)
  }

  lemma RunKeysDiffer(a: FileKey, b: FileKey)
    ensures RunKeyOf(a) == RunKeyOf(b) <==> a == b
  {
    var n := |DAG_ID + "__"|;
    assert DagRunId(a.logicalDate)[n..] == a.logicalDate && DagRunId(b.logicalDate)[n..] == b.logicalDate;
  }

  /** Different days or sources have different run identifiers. */
  lemma RunIdsDiffer(a: FileKey, b: FileKey)
    requires IsDate(a.logicalDate) && IsDate(b.logicalDate)
    ensures RunIdOf(a) == RunIdOf(b) <==> a == b
  {
    RunIdParts(a);
    RunIdParts(b);
  }

  lemma RunIdParts(a: FileKey)
    requires IsDate(a.logicalDate)
    ensures var n := |DAG_ID + "__"|;
      |RunIdOf(a)| >= n + 12 && RunIdOf(a)[n..n + 10] == a.logicalDate && RunIdOf(a)[n + 12..] == a.sourceId
  {
    var n := |DAG_ID + "__"|;
    assert RunIdOf(a) == (DAG_ID + "__") + a.logicalDate + "__" + a.sourceId;
  }

  // ----- The tasks -----

  function Extraction(st: Store, digest: seq<Item> -> string, task: Task): Extracted {
    Extract(st.files, digest, task.key.sourceId, task.key.logicalDate, task.today,
            if task.failing then {task.key.sourceId} else {}, task.fetched)
  }

  function RunEvent(st: Store, digest: seq<Item> -> string, task: Task): Recorded {
    Recorded(RunKeyOf(task.key), Extraction(st, digest, task).outcome.status, task.finishedAt)
  }

  /** The store after one task: the run is upserted and the outcome archived. */
  function Collected(st: Store, digest: seq<Item> -> string, task: Task): Store {
    var x := Extraction(st, digest, task);
    Store(Put(MergeRun, st.runs, RunWrite(RunEvent(st, digest, task))),
          Put(Keep, st.files, FileWrite(task.key.logicalDate, x.outcome)),
          Put(Keep, st.snapshots, SnapshotWrite(digest, DagRunId(task.key.logicalDate), task.key.logicalDate, x)))
  }

  /** The store after any history of tasks, of any days. */
  function Run(digest: seq<Item> -> string, tasks: seq<Task>): Store {
    if tasks == [] then Store(map[], map[], map[])
    else Collected(Run(digest, tasks[..|tasks| - 1]), digest, tasks[|tasks| - 1])
  }

  // ----- The query -----

  /** Every snapshot row belongs to the run of its file, every file has a row and is not empty. */
  ghost predicate Linked(st: Store) {
    && (forall k :: k in st.snapshots ==>
          IsDate(st.snapshots[k].logicalDate) && k.runId == RunIdOf(st.snapshots[k]) && st.snapshots[k] in st.files)
    && (forall f :: f in st.files ==> st.files[f] != [] && HasRow(st, f))
    && (forall k :: k in st.runs ==> st.runs[k].runId == RunId(k.dagRunId, k.sourceId))
  }

  ghost predicate HasRow(st: Store, f: FileKey) {
    exists k :: k in st.snapshots && st.snapshots[k] == f
  }

  /** What the batch gets for a source of a day. */
  function Loaded(st: Store, key: FileKey): Outcome
    requires RunKeyOf(key) in st.runs
  {
    Outcome(key.sourceId, st.runs[RunKeyOf(key)].status, if key in st.files then st.files[key] else [])
  }

  function SourcesOf(st: Store, date: string): set<string> {
    set k | k in st.runs && k.dagRunId == DagRunId(date) :: k.sourceId
  }

  class Warehouse {
    var store: Store

    constructor ()
      ensures store == Store(map[], map[], map[])
    {
      store := Store(map[], map[], map[]);
    }

    /** The body of an `extract` task. */
    method ExtractTask(digest: seq<Item> -> string, task: Task) returns (status: CollectionStatus)
      modifies this
      ensures store == Collected(old(store), digest, task)
      ensures status == Extraction(old(store), digest, task).outcome.status
    {
      var x := Extraction(store, digest, task);
      var date := task.key.logicalDate;
      var runs := Put(MergeRun, store.runs, RunWrite(RunEvent(store, digest, task)));
      var files := Put(Keep, store.files, FileWrite(date, x.outcome));
      store := Store(runs, files, Put(Keep, store.snapshots, SnapshotWrite(digest, DagRunId(date), date, x)));
      return x.outcome.status;
    }

    /** One row of the query; which snapshot row of the run it takes does not matter. `None` when the file is missing. */
    method LoadOne(key: FileKey) returns (r: Option<Outcome>)
      requires IsDate(key.logicalDate) && Linked(store) && RunKeyOf(key) in store.runs
      ensures r == Some(Loaded(store, key))
    {
      var run := store.runs[RunKeyOf(key)];
      var rows := set k | k in store.snapshots && k.runId == run.runId;
      RowsOfRun(store, key);
      if rows == {} {
        assert forall k :: k in store.snapshots && k.runId == RunIdOf(key) ==> k in rows;
        return Some(Outcome(key.sourceId, run.status, []));
      }
      var row :| row in rows;
      if store.snapshots[row] !in store.files {
        return None;
      }
      return Some(Outcome(key.sourceId, run.status, store.files[store.snapshots[row]]));
    }

    /** `load_archived_outcomes` */
    method LoadArchivedOutcomes(date: string) returns (r: Option<seq<Outcome>>)
      requires IsDate(date) && Linked(store)
      ensures r.Some? && Increasing(seq(|r.value|, i requires 0 <= i < |r.value| => r.value[i].sourceId))
      ensures forall s :: s in SourcesOf(store, date) <==> exists i :: 0 <= i < |r.value| && r.value[i].sourceId == s
      ensures forall i :: 0 <= i < |r.value| ==>
        RunKeyOf(FileKey(date, r.value[i].sourceId)) in store.runs && r.value[i] == Loaded(store, FileKey(date, r.value[i].sourceId))
    {
      var sources := SortedPaths(SourcesOf(store, date));
      var outcomes: seq<Outcome> := [];
      for i := 0 to |sources|
        invariant |outcomes| == i
        invariant forall j :: 0 <= j < i ==>
          RunKeyOf(FileKey(date, sources[j])) in store.runs && outcomes[j] == Loaded(store, FileKey(date, sources[j]))
      {
        assert sources[i] in SourcesOf(store, date);
        var one := LoadOne(FileKey(date, sources[i]));
        if one.None? {
          return None;
        }
        outcomes := outcomes + [one.value];
      }
      assert seq(|outcomes|, i requires 0 <= i < |outcomes| => outcomes[i].sourceId) == sources;
      forall s
        ensures s in SourcesOf(store, date) <==> exists i :: 0 <= i < |outcomes| && outcomes[i].sourceId == s
      {
        if s in SourcesOf(store, date) {
          var i :| 0 <= i < |sources| && sources[i] == s;
          assert outcomes[i].sourceId == s;
        }
        if i :| 0 <= i < |outcomes| && outcomes[i].sourceId == s {
          assert sources[i] == s;
        }
      }
      return Some(outcomes);
    }
  }

  /** The rows of a run all lead to its file; there are none exactly when there is no file. */
  lemma RowsOfRun(st: Store, key: FileKey)
    requires Linked(st) && IsDate(key.logicalDate)
    ensures forall k :: k in st.snapshots && k.runId == RunIdOf(key) ==> st.snapshots[k] == key
    ensures key in st.files <==> exists k :: k in st.snapshots && k.runId == RunIdOf(key)
  {
    forall k | k in st.snapshots && k.runId == RunIdOf(key)
      ensures st.snapshots[k] == key
    {
      RunIdsDiffer(st.snapshots[k], key);
    }
    if key in st.files {
      assert HasRow(st, key);
    }
  }

  // ----- The store over every history -----

  /** `DO NOTHING` adds a row unless there is one. */
  lemma KeepOne<K, V>(table: map<K, V>, k: K, v: V)
    ensures Put(Keep, table, map[k := v]) == if k in table then table else table[k := v]
  {
    forall j
      ensures Row(Put(Keep, table, map[k := v]), j) == Row(if k in table then table else table[k := v], j)
    {
      PutRow(Keep, table, map[k := v], j);
    }
    SameRows(Put(Keep, table, map[k := v]), if k in table then table else table[k := v]);
  }

  lemma SameRows<K, V>(a: map<K, V>, b: map<K, V>)
    requires forall k :: Row(a, k) == Row(b, k)
    ensures a == b
  {
    assert forall k :: k in a ==> Row(b, k) == Some(a[k]);
    assert forall k :: k in b ==> Row(a, k) == Some(b[k]);
  }

  lemma RunIdsAreKept(st: Store, digest: seq<Item> -> string, task: Task)
    requires Linked(st)
    ensures var runs := Collected(st, digest, task).runs;
      forall k :: k in runs ==> runs[k].runId == RunId(k.dagRunId, k.sourceId)
  {
    var runs := Collected(st, digest, task).runs;
    forall k | k in runs
      ensures runs[k].runId == RunId(k.dagRunId, k.sourceId)
    {
      PutRow(MergeRun, st.runs, RunWrite(RunEvent(st, digest, task)), k);
    }
  }

  lemma CollectedIsLinked(st: Store, digest: seq<Item> -> string, task: Task)
    requires Linked(st) && IsDate(task.key.logicalDate)
    ensures Linked(Collected(st, digest, task))
  {
    RunIdsAreKept(st, digest, task);
    if Archivable(Extraction(st, digest, task).outcome) {
      var row := ArchivedTask(st, digest, task);
      RowAndFile(st, Collected(st, digest, task), task.key, row);
    } else {
      NothingArchived(st, digest, task);
      RowsKept(st, Collected(st, digest, task));
    }
  }

  lemma ArchivedTask(st: Store, digest: seq<Item> -> string, task: Task) returns (row: SnapshotKey)
    requires Archivable(Extraction(st, digest, task).outcome)
    ensures var st' := Collected(st, digest, task);
      && row.runId == RunIdOf(task.key)
      && st'.snapshots == (if row in st.snapshots then st.snapshots else st.snapshots[row := task.key])
      && st'.files == if task.key in st.files then st.files else st.files[task.key := Extraction(st, digest, task).outcome.payloads]
  {
    var x := Extraction(st, digest, task);
    assert FileKey(task.key.logicalDate, x.outcome.sourceId) == task.key;
    row := SnapshotKey(RunIdOf(task.key), HashOf(digest, x));
    KeepOne(st.snapshots, row, task.key);
    KeepOne(st.files, task.key, x.outcome.payloads);
  }

  lemma NothingArchived(st: Store, digest: seq<Item> -> string, task: Task)
    requires !Archivable(Extraction(st, digest, task).outcome)
    ensures Collected(st, digest, task).snapshots == st.snapshots && Collected(st, digest, task).files == st.files
  {
  }

  lemma RowsKept(st: Store, st': Store)
    requires Linked(st)
    requires forall k :: k in st.snapshots ==> k in st'.snapshots && st'.snapshots[k] == st.snapshots[k]
    ensures forall f :: f in st.files ==> HasRow(st', f)
  {
    forall f | f in st.files
      ensures HasRow(st', f)
    {
      assert HasRow(st, f);
      var k :| k in st.snapshots && st.snapshots[k] == f;
      assert st'.snapshots[k] == f;
    }
  }

  /** Adding a row and a file, each unless it is there, keeps the two linked. */
  lemma RowAndFile(st: Store, st': Store, key: FileKey, row: SnapshotKey)
    requires Linked(st) && IsDate(key.logicalDate) && row.runId == RunIdOf(key)
    requires st'.snapshots == if row in st.snapshots then st.snapshots else st.snapshots[row := key]
    requires key in st'.files && st'.files[key] != []
    requires st'.files == if key in st.files then st.files else st.files[key := st'.files[key]]
    requires forall k :: k in st'.runs ==> st'.runs[k].runId == RunId(k.dagRunId, k.sourceId)
    ensures Linked(st')
  {
    if row in st.snapshots {
      RunIdsDiffer(st.snapshots[row], key);
    }
    assert st'.snapshots[row] == key;
    RowsKept(st, st');
    assert HasRow(st', key);
  }

  /** Whatever the history, the query finds for every run the file of its day and source. */
  lemma {:induction false} HistoryIsLinked(digest: seq<Item> -> string, tasks: seq<Task>)
    requires forall i :: 0 <= i < |tasks| ==> IsDate(tasks[i].key.logicalDate)
    ensures Linked(Run(digest, tasks))
  {
    if tasks != [] {
      var n := |tasks| - 1;
      HistoryIsLinked(digest, tasks[..n]);
      CollectedIsLinked(Run(digest, tasks[..n]), digest, tasks[n]);
    }
  }

  /** What the first task of the day and source that found something found. */
  function FirstFound(tasks: seq<Task>, key: FileKey): seq<Item> {
    if tasks == [] then []
    else
      var last, before := tasks[|tasks| - 1], FirstFound(tasks[..|tasks| - 1], key);
      if before == [] && last.key == key && !last.failing then last.fetched else before
  }

  /** The status of a task when the archive holds `archived` for its day and source. */
  function StatusOf(task: Task, archived: seq<Item>): CollectionStatus {
    if task.failing then FAILED
    else if Less(task.key.logicalDate, task.today) && archived != [] then SUCCESS
    else if task.fetched == [] then NO_DATA else SUCCESS
  }

  /** The status of the last task of the day and source. */
  function LastStatus(tasks: seq<Task>, key: FileKey): Option<CollectionStatus> {
    if tasks == [] then None
    else
      var n := |tasks| - 1;
      if tasks[n].key == key then Some(StatusOf(tasks[n], FirstFound(tasks[..n], key))) else LastStatus(tasks[..n], key)
  }

  /** The file of a day and source over every history: what was found first. */
  lemma {:induction false} FileIsFirstFound(digest: seq<Item> -> string, tasks: seq<Task>, key: FileKey)
    ensures Row(Run(digest, tasks).files, key) == if FirstFound(tasks, key) == [] then None else Some(FirstFound(tasks, key))
  {
    if tasks != [] {
      var n := |tasks| - 1;
      var st := Run(digest, tasks[..n]);
      FileIsFirstFound(digest, tasks[..n], key);
      var o := Extraction(st, digest, tasks[n]).outcome;
      assert o.sourceId == tasks[n].key.sourceId;
      PutRow(Keep, st.files, FileWrite(tasks[n].key.logicalDate, o), key);
    }
  }

  lemma {:induction false} StatusIsLast(digest: seq<Item> -> string, tasks: seq<Task>, key: FileKey)
    ensures RunKeyOf(key) in Run(digest, tasks).runs <==> LastStatus(tasks, key).Some?
    ensures LastStatus(tasks, key).Some? ==> Run(digest, tasks).runs[RunKeyOf(key)].status == LastStatus(tasks, key).value
  {
    if tasks != [] {
      var n := |tasks| - 1;
      var st := Run(digest, tasks[..n]);
      StatusIsLast(digest, tasks[..n], key);
      FileIsFirstFound(digest, tasks[..n], key);
      RunKeysDiffer(tasks[n].key, key);
      PutRow(MergeRun, st.runs, RunWrite(RunEvent(st, digest, tasks[n])), RunKeyOf(key));
    }
  }

  /** Over every history the batch reads the status of the last task and the payloads of the first that found something. */
  lemma LoadedIsHistory(digest: seq<Item> -> string, tasks: seq<Task>, key: FileKey)
    requires LastStatus(tasks, key).Some?
    ensures RunKeyOf(key) in Run(digest, tasks).runs
    ensures Loaded(Run(digest, tasks), key) == Outcome(key.sourceId, LastStatus(tasks, key).value, FirstFound(tasks, key))
  {
    StatusIsLast(digest, tasks, key);
    FileIsFirstFound(digest, tasks, key);
  }

  // ----- What the batch reads is not always what was extracted -----

  /** The batch reads what the last task extracted exactly when the archive held nothing before, or the same. */
  lemma LoadedIsExtractedIff(digest: seq<Item> -> string, tasks: seq<Task>, task: Task)
    ensures LastStatus(tasks + [task], task.key).Some? && RunKeyOf(task.key) in Run(digest, tasks + [task]).runs
    ensures var extracted := Extraction(Run(digest, tasks), digest, task).outcome;
      Loaded(Run(digest, tasks + [task]), task.key) == extracted <==>
      FirstFound(tasks, task.key) == [] || FirstFound(tasks, task.key) == extracted.payloads
  {
    assert (tasks + [task])[..|tasks|] == tasks;
    LoadedIsHistory(digest, tasks + [task], task.key);
    FileIsFirstFound(digest, tasks, task.key);
  }

  /** A second task of the day that finds nothing makes the batch read the payloads of the first as `NO_DATA`. */
  lemma NoDataLoadsOldPayloads(digest: seq<Item> -> string, a: Item, at: Time)
    ensures var key := FileKey("2026-01-01", "s");
      var tasks := [Task(key, "2026-01-01", false, [a], at), Task(key, "2026-01-01", false, [], at)];
      && RunKeyOf(key) in Run(digest, tasks).runs
      && Extraction(Run(digest, tasks[..1]), digest, tasks[1]).outcome == Outcome("s", NO_DATA, [])
      && Loaded(Run(digest, tasks), key) == Outcome("s", NO_DATA, [a])
  {
    var day := "2026-01-01";
    var key := FileKey(day, "s");
    var first, second := Task(key, day, false, [a], at), Task(key, day, false, [], at);
    LessIsTotal(day, day);
    assert [first, second][..1] == [first] && [first][..0] == [];
    assert FirstFound([first], key) == [a] && FirstFound([first, second], key) == [a];
    LoadedIsHistory(digest, [first, second], key);
  }

  // ----- Backfill -----

  /**
   * A backfill of a past day makes the batch read what it read before exactly when it
   * has the status of the last task, and finds nothing new where nothing was found.
   */
  lemma BackfillLoadsTheSameIff(digest: seq<Item> -> string, tasks: seq<Task>, task: Task)
    requires LastStatus(tasks, task.key).Some? && Less(task.key.logicalDate, task.today)
    ensures RunKeyOf(task.key) in Run(digest, tasks).runs && RunKeyOf(task.key) in Run(digest, tasks + [task]).runs
    ensures var archived := FirstFound(tasks, task.key);
      Loaded(Run(digest, tasks + [task]), task.key) == Loaded(Run(digest, tasks), task.key) <==>
        && LastStatus(tasks, task.key) == Some(if task.failing then FAILED else if archived == [] then NO_DATA else SUCCESS)
        && (task.failing || archived != [] || task.fetched == [])
  {
    assert (tasks + [task])[..|tasks|] == tasks;
    LoadedIsHistory(digest, tasks, task.key);
    LoadedIsHistory(digest, tasks + [task], task.key);
  }

  /** The task backfills a day without failing, and finds nothing new where nothing was archived. */
  predicate Replays(task: Task, archived: seq<Item>) {
    Less(task.key.logicalDate, task.today) && !task.failing && (archived == [] ==> task.fetched == [])
  }

  /** The last task of the day and source did not fail, and its status agrees with the archive. */
  predicate Sound(tasks: seq<Task>, key: FileKey) {
    LastStatus(tasks, key) == Some(if FirstFound(tasks, key) == [] then NO_DATA else SUCCESS)
  }

  lemma {:induction false} BackfillKeepsInput(tasks: seq<Task>, more: seq<Task>, key: FileKey)
    requires Sound(tasks, key)
    requires forall i :: 0 <= i < |more| && more[i].key == key ==> Replays(more[i], FirstFound(tasks, key))
    ensures FirstFound(tasks + more, key) == FirstFound(tasks, key) && LastStatus(tasks + more, key) == LastStatus(tasks, key)
  {
    if more == [] {
      assert tasks + more == tasks;
    } else {
      var n := |more| - 1;
      assert (tasks + more)[..|tasks| + n] == tasks + more[..n] && (tasks + more)[|tasks| + n] == more[n];
      assert forall i :: 0 <= i < n ==> more[..n][i] == more[i];
      BackfillKeepsInput(tasks, more[..n], key);
    }
  }

  /** The input of the batch: one outcome per source, in the order of the query. */
  function LoadedAll(st: Store, date: string, sources: seq<string>): (r: seq<Outcome>)
    requires forall i :: 0 <= i < |sources| ==> RunKeyOf(FileKey(date, sources[i])) in st.runs
    ensures |r| == |sources|
  {
    seq(|sources|, i requires 0 <= i < |sources| => Loaded(st, FileKey(date, sources[i])))
  }

  lemma SameInputAgain(digest: seq<Item> -> string, tasks: seq<Task>, more: seq<Task>, date: string, sources: seq<string>)
    requires forall i :: 0 <= i < |sources| ==> Sound(tasks, FileKey(date, sources[i]))
    requires forall i, j :: 0 <= i < |sources| && 0 <= j < |more| && more[j].key == FileKey(date, sources[i]) ==>
      Replays(more[j], FirstFound(tasks, FileKey(date, sources[i])))
    ensures forall i :: 0 <= i < |sources| ==>
      RunKeyOf(FileKey(date, sources[i])) in Run(digest, tasks).runs && RunKeyOf(FileKey(date, sources[i])) in Run(digest, tasks + more).runs
    ensures LoadedAll(Run(digest, tasks + more), date, sources) == LoadedAll(Run(digest, tasks), date, sources)
  {
    forall i | 0 <= i < |sources|
      ensures var key := FileKey(date, sources[i]);
        && RunKeyOf(key) in Run(digest, tasks).runs && RunKeyOf(key) in Run(digest, tasks + more).runs
        && Loaded(Run(digest, tasks + more), key) == Loaded(Run(digest, tasks), key)
    {
      var key := FileKey(date, sources[i]);
      BackfillKeepsInput(tasks, more, key);
      LoadedIsHistory(digest, tasks, key);
      LoadedIsHistory(digest, tasks + more, key);
    }
  }

  /**
   * The daily batch runs on a day; the day is backfilled, between tasks of other days,
   * and the batch runs again. Every table is as the first run left it, load times aside.
   */
  lemma DailyBackfillIsIdempotent(env: Env, versions: map<string, string>, t: Tables, digest: seq<Item> -> string,
                                  tasks: seq<Task>, more: seq<Task>, date: string, sources: seq<string>,
                                  at: Time, c: int -> Time, d: int -> Time, loaded: Time, reloaded: Time)
    requires PrimaryKeysHold(t)
    requires forall i :: 0 <= i < |sources| ==> Sound(tasks, FileKey(date, sources[i]))
    requires forall i, j :: 0 <= i < |sources| && 0 <= j < |more| && more[j].key == FileKey(date, sources[i]) ==>
      Replays(more[j], FirstFound(tasks, FileKey(date, sources[i])))
    ensures forall i :: 0 <= i < |sources| ==>
      RunKeyOf(FileKey(date, sources[i])) in Run(digest, tasks).runs && RunKeyOf(FileKey(date, sources[i])) in Run(digest, tasks + more).runs
    ensures var first, again := LoadedAll(Run(digest, tasks), date, sources), LoadedAll(Run(digest, tasks + more), date, sources);
      var once := AfterBatch(env, versions, t, DagRunId(date), date, first, at, c, loaded);
      AfterBatch(env, versions, once, DagRunId(date), date, again, at, d, reloaded).(loadedAt := once.loadedAt) == once
  {
    SameInputAgain(digest, tasks, more, date, sources);
    BatchIsIdempotent(env, versions, t, DagRunId(date), date, LoadedAll(Run(digest, tasks), date, sources), at, c, d, loaded, reloaded);
  }
}
