/**
 * The raw archive: one file per day and source, written once, from which a
 * later run of a past day is replayed.
 */
module CatalogArchive {
  import opened CatalogBatch
  import opened SchemaContract
  import opened Upsert
  import opened Wrappers

  datatype FileKey = FileKey(logicalDate: string, sourceId: string)

  type Files = map<FileKey, seq<Item>>

  datatype SnapshotKey = SnapshotKey(runId: string, contentHash: string)

  /** An outcome with the hash and file that replaying or archiving attach to it. */
  datatype Extracted = Extracted(outcome: Outcome, file: Option<FileKey>, contentHash: Option<string>)

  function OutcomeOf(sourceId: string, payloads: seq<Item>): Outcome {
    Outcome(sourceId, if payloads == [] then NO_DATA else SUCCESS, payloads)
  }

  /** `extract_source`; `fetched` is what the source would answer now. */
  function Extract(files: Files, digest: seq<Item> -> string, sourceId: string, date: string, today: string,
                   failing: set<string>, fetched: seq<Item>): Extracted
  {
    var key := FileKey(date, sourceId);
    if sourceId in failing then Extracted(Outcome(sourceId, FAILED, []), None, None)
    else if Less(date, today) && key in files then
      Extracted(OutcomeOf(sourceId, files[key]), Some(key), Some(digest(files[key])))
    else Extracted(OutcomeOf(sourceId, fetched), None, None)
  }

  // ----- Archiving -----

  /** Only healthy outcomes with payloads are archived. */
  predicate Archivable(o: Outcome) {
    Healthy(o.status) && o.payloads != []
  }

  function FileWrite(date: string, o: Outcome): Files {
    if Archivable(o) then map[FileKey(date, o.sourceId) := o.payloads] else map[]
  }

  function FileWrites(date: string, outcomes: seq<Extracted>): (r: seq<Files>)
    ensures |r| == |outcomes|
  {
    seq(|outcomes|, i requires 0 <= i < |outcomes| => FileWrite(date, outcomes[i].outcome))
  }

  /** The files after archiving: an existing file is never written again. */
  function Archived(files: Files, date: string, outcomes: seq<Extracted>): Files {
    PutAll(Keep, files, FileWrites(date, outcomes))
  }

  function HashOf(digest: seq<Item> -> string, x: Extracted): string {
    if x.contentHash.Some? && x.contentHash.value != "" then x.contentHash.value else digest(x.outcome.payloads)
  }

  /** The outcome after archiving. */
  function Attached(digest: seq<Item> -> string, date: string, x: Extracted): Extracted {
    if Archivable(x.outcome) then Extracted(x.outcome, Some(FileKey(date, x.outcome.sourceId)), Some(HashOf(digest, x))) else x
  }

  function SnapshotWrite(digest: seq<Item> -> string, dagRunId: string, date: string, x: Extracted): map<SnapshotKey, FileKey> {
    if Archivable(x.outcome) then
      map[SnapshotKey(RunId(dagRunId, x.outcome.sourceId), HashOf(digest, x)) := FileKey(date, x.outcome.sourceId)]
    else map[]
  }

  function SnapshotWrites(digest: seq<Item> -> string, dagRunId: string, date: string, outcomes: seq<Extracted>): (r: seq<map<SnapshotKey, FileKey>>)
    ensures |r| == |outcomes|
  {
    seq(|outcomes|, i requires 0 <= i < |outcomes| => SnapshotWrite(digest, dagRunId, date, outcomes[i]))
  }

  class Archive {
    var files: Files
    var snapshots: map<SnapshotKey, FileKey>

    constructor ()
      ensures files == map[] && snapshots == map[]
    {
      files, snapshots := map[], map[];
    }

    /** One outcome: its file unless there is one, its snapshot row unless there is one. */
    method ArchiveOne(digest: seq<Item> -> string, dagRunId: string, date: string, x: Extracted) returns (updated: Extracted)
      modifies this
      ensures files == Put(Keep, old(files), FileWrite(date, x.outcome))
      ensures snapshots == Put(Keep, old(snapshots), SnapshotWrite(digest, dagRunId, date, x))
      ensures updated == Attached(digest, date, x)
    {
      if !Archivable(x.outcome) {
        return x;
      }
      var target, hash := FileKey(date, x.outcome.sourceId), HashOf(digest, x);
      if target !in files {
        files := files[target := x.outcome.payloads];
      }
      var row := SnapshotKey(RunId(dagRunId, x.outcome.sourceId), hash);
      if row !in snapshots {
        snapshots := snapshots[row := target];
      }
      return Extracted(x.outcome, Some(target), Some(hash));
    }

    /** `archive_raw_snapshot`; the updated outcomes are returned. */
    method ArchiveRawSnapshot(digest: seq<Item> -> string, dagRunId: string, date: string, outcomes: seq<Extracted>)
      returns (updated: seq<Extracted>)
      modifies this
      ensures files == Archived(old(files), date, outcomes)
      ensures snapshots == PutAll(Keep, old(snapshots), SnapshotWrites(digest, dagRunId, date, outcomes))
      ensures |updated| == |outcomes|
      ensures forall i :: 0 <= i < |outcomes| ==> updated[i] == Attached(digest, date, outcomes[i])
    {
      updated := [];
      ghost var fs, ss := FileWrites(date, outcomes), SnapshotWrites(digest, dagRunId, date, outcomes);
      for i := 0 to |outcomes|
        invariant files == PutAll(Keep, old(files), fs[..i])
        invariant snapshots == PutAll(Keep, old(snapshots), ss[..i])
        invariant |updated| == i && forall j :: 0 <= j < i ==> updated[j] == Attached(digest, date, outcomes[j])
      {
        PutAllOneMore(Keep, old(files), fs, i);
        PutAllOneMore(Keep, old(snapshots), ss, i);
        var one := ArchiveOne(digest, dagRunId, date, outcomes[i]);
        updated := updated + [one];
      }
      assert fs[..|outcomes|] == fs && ss[..|outcomes|] == ss;
    }
  }

  // ----- Files never change -----

  /** One archiving stage of some day. */
  datatype Stage = Stage(date: string, outcomes: seq<Extracted>)

  function After(files: Files, stages: seq<Stage>): Files {
    if stages == [] then files
    else
      var n := |stages| - 1;
      Archived(After(files, stages[..n]), stages[n].date, stages[n].outcomes)
  }

  lemma {:induction false} KeepRow<K, V>(table: map<K, V>, writes: seq<map<K, V>>, k: K)
    requires k in table
    ensures k in PutAll(Keep, table, writes) && PutAll(Keep, table, writes)[k] == table[k]
  {
    if writes != [] {
      KeepRow(table, writes[..|writes| - 1], k);
    }
  }

  /** Whatever is archived later, a file keeps its content. */
  lemma {:induction false} FilesNeverChange(files: Files, stages: seq<Stage>, key: FileKey)
    requires key in files
    ensures key in After(files, stages) && After(files, stages)[key] == files[key]
  {
    if stages != [] {
      var n := |stages| - 1;
      FilesNeverChange(files, stages[..n], key);
      KeepRow(After(files, stages[..n]), FileWrites(stages[n].date, stages[n].outcomes), key);
    }
  }

  /** A later extraction of an archived past day replays the file, whatever the source answers by then. */
  lemma ReplayIsExact(files: Files, stages: seq<Stage>, digest: seq<Item> -> string, sourceId: string,
                      date: string, today: string, failing: set<string>, fetched: seq<Item>)
    requires FileKey(date, sourceId) in files && Less(date, today) && sourceId !in failing
    ensures Extract(After(files, stages), digest, sourceId, date, today, failing, fetched).outcome ==
            OutcomeOf(sourceId, files[FileKey(date, sourceId)])
  {
    FilesNeverChange(files, stages, FileKey(date, sourceId));
  }

  // ----- What a stage archives -----

  /** The stage archives something for the day and source. */
  ghost predicate Archives(date: string, outcomes: seq<Extracted>, key: FileKey) {
    date == key.logicalDate
    && exists i :: 0 <= i < |outcomes| && outcomes[i].outcome.sourceId == key.sourceId && Archivable(outcomes[i].outcome)
  }

  lemma {:induction false} ArchivedFile(files: Files, date: string, outcomes: seq<Extracted>, key: FileKey)
    ensures key in Archived(files, date, outcomes) <==> key in files || Archives(date, outcomes, key)
    ensures key in Archived(files, date, outcomes) && key !in files ==>
      exists i :: 0 <= i < |outcomes| && outcomes[i].outcome.sourceId == key.sourceId && Archivable(outcomes[i].outcome)
                  && Archived(files, date, outcomes)[key] == outcomes[i].outcome.payloads
  {
    if outcomes != [] {
      var n := |outcomes| - 1;
      var init := outcomes[..n];
      ArchivedFile(files, date, init, key);
      assert FileWrites(date, outcomes)[..n] == FileWrites(date, init);
      PutRow(Keep, Archived(files, date, init), FileWrite(date, outcomes[n].outcome), key);
      ArchivesOneMore(date, outcomes, key);
      if key in Archived(files, date, init) && key !in files {
        var i :| 0 <= i < |init| && init[i].outcome.sourceId == key.sourceId && Archivable(init[i].outcome)
                 && Archived(files, date, init)[key] == init[i].outcome.payloads;
        assert outcomes[i] == init[i];
      }
    }
  }

  lemma ArchivesOneMore(date: string, outcomes: seq<Extracted>, key: FileKey)
    requires outcomes != []
    ensures var n := |outcomes| - 1;
      Archives(date, outcomes, key) <==>
        Archives(date, outcomes[..n], key) || key in FileWrite(date, outcomes[n].outcome)
  {
    var n := |outcomes| - 1;
    var init := outcomes[..n];
    if Archives(date, init, key) {
      var i :| 0 <= i < |init| && init[i].outcome.sourceId == key.sourceId && Archivable(init[i].outcome);
      assert outcomes[i] == init[i];
    }
    if Archives(date, outcomes, key) {
      var i :| 0 <= i < |outcomes| && outcomes[i].outcome.sourceId == key.sourceId && Archivable(outcomes[i].outcome);
      assert i < n ==> init[i] == outcomes[i];
    }
  }

  ghost predicate ArchivesLater(stages: seq<Stage>, key: FileKey) {
    exists j :: 0 <= j < |stages| && Archives(stages[j].date, stages[j].outcomes, key)
  }

  /** A file appears exactly when some stage archives its day and source, and then it is not empty. */
  lemma {:induction false} FileAppears(files: Files, stages: seq<Stage>, key: FileKey)
    requires key !in files
    ensures key in After(files, stages) <==> ArchivesLater(stages, key)
    ensures key in After(files, stages) ==> After(files, stages)[key] != []
  {
    if stages != [] {
      var n := |stages| - 1;
      var init := stages[..n];
      FileAppears(files, init, key);
      ArchivedFile(After(files, init), stages[n].date, stages[n].outcomes, key);
      if key in After(files, init) {
        KeepRow(After(files, init), FileWrites(stages[n].date, stages[n].outcomes), key);
      }
      LaterOneMore(stages, key);
    }
  }

  lemma LaterOneMore(stages: seq<Stage>, key: FileKey)
    requires stages != []
    ensures var n := |stages| - 1;
      ArchivesLater(stages, key) <==>
        ArchivesLater(stages[..n], key) || Archives(stages[n].date, stages[n].outcomes, key)
  {
    var n := |stages| - 1;
    var init := stages[..n];
    if ArchivesLater(init, key) {
      var j :| 0 <= j < |init| && Archives(init[j].date, init[j].outcomes, key);
      assert stages[j] == init[j];
    }
    if ArchivesLater(stages, key) {
      var j :| 0 <= j < |stages| && Archives(stages[j].date, stages[j].outcomes, key);
      assert j < n ==> init[j] == stages[j];
    }
  }

  /** The hash that is recorded: the one that comes with the outcome, or else that of its payloads. */
  lemma RecordedHash(digest: seq<Item> -> string, dagRunId: string, date: string, x: Extracted)
    requires x.outcome.status in {SUCCESS, NO_DATA} && x.outcome.payloads != []
    ensures var hash := if x.contentHash.None? || x.contentHash.value == "" then digest(x.outcome.payloads) else x.contentHash.value;
      var file := FileKey(date, x.outcome.sourceId);
      && Attached(digest, date, x) == Extracted(x.outcome, Some(file), Some(hash))
      && SnapshotWrite(digest, dagRunId, date, x) == map[SnapshotKey(dagRunId + "__" + x.outcome.sourceId, hash) := file]
      && FileWrite(date, x.outcome) == map[file := x.outcome.payloads]
  {
    assert Archivable(x.outcome);
    assert RunId(dagRunId, x.outcome.sourceId) == dagRunId + "__" + x.outcome.sourceId;
  }

  /** Truncated, failed and empty outcomes leave files and snapshot rows alone. */
  lemma OthersAreNotArchived(files: Files, snapshots: map<SnapshotKey, FileKey>, digest: seq<Item> -> string, dagRunId: string,
                             date: string, outcomes: seq<Extracted>)
    requires forall x :: x in outcomes ==> x.outcome.status in {TRUNCATED, FAILED} || x.outcome.payloads == []
    ensures Archived(files, date, outcomes) == files
    ensures PutAll(Keep, snapshots, SnapshotWrites(digest, dagRunId, date, outcomes)) == snapshots
    ensures forall x :: x in outcomes ==> Attached(digest, date, x) == x
  {
    forall i | 0 <= i < |outcomes|
      ensures FileWrites(date, outcomes)[i] == map[] && SnapshotWrites(digest, dagRunId, date, outcomes)[i] == map[]
    {
      assert outcomes[i] in outcomes;
    }
    NothingPut(files, FileWrites(date, outcomes));
    NothingPut(snapshots, SnapshotWrites(digest, dagRunId, date, outcomes));
  }

  lemma {:induction false} NothingPut<K, V>(table: map<K, V>, writes: seq<map<K, V>>)
    requires forall i :: 0 <= i < |writes| ==> writes[i] == map[]
    ensures PutAll(Keep, table, writes) == table
  {
    if writes != [] {
      NothingPut(table, writes[..|writes| - 1]);
    }
  }

  // ----- Backfill -----

  /** One extraction per source. */
  function ExtractAll(files: Files, digest: seq<Item> -> string, sources: seq<string>, date: string, today: string,
                      failing: set<string>, fetch: string -> seq<Item>): (r: seq<Extracted>)
    ensures |r| == |sources|
    ensures forall i :: 0 <= i < |sources| ==>
      r[i] == Extract(files, digest, sources[i], date, today, failing, fetch(sources[i]))
      && r[i].outcome.sourceId == sources[i]
  {
    seq(|sources|, i requires 0 <= i < |sources| =>
      Extract(files, digest, sources[i], date, today, failing, fetch(sources[i])))
  }

  function Outcomes(xs: seq<Extracted>): (r: seq<Outcome>)
    ensures |r| == |xs|
  {
    seq(|xs|, i requires 0 <= i < |xs| => xs[i].outcome)
  }

  /**
   * What a later extraction of a past day finds is what the first one found: a file
   * that was there before holds it; or the first one found something, and so wrote
   * the file; or it found nothing, nothing was archived since, and the source still
   * has nothing.
   */
  ghost predicate SameInput(files: Files, stages: seq<Stage>, key: FileKey, found: seq<Item>, refetched: seq<Item>) {
    if key in files then files[key] == found
    else if found != [] then true
    else refetched == [] && !ArchivesLater(stages, key)
  }

  /** The file of a source after its day was extracted and archived. */
  lemma FileOfDay(files: Files, digest: seq<Item> -> string, sources: seq<string>, date: string, today: string,
                  failing: set<string>, fetch: string -> seq<Item>, i: nat)
    requires i < |sources|
    ensures var first := ExtractAll(files, digest, sources, date, today, failing, fetch);
      var key, found := FileKey(date, sources[i]), first[i].outcome.payloads;
      Row(Archived(files, date, first), key) ==
      if key in files then Some(files[key]) else if found != [] then Some(found) else None
  {
    var first := ExtractAll(files, digest, sources, date, today, failing, fetch);
    var key := FileKey(date, sources[i]);
    ArchivedFile(files, date, first, key);
    if key in files {
      KeepRow(files, FileWrites(date, first), key);
    } else if first[i].outcome.payloads != [] {
      assert Archives(date, first, key);
    }
  }

  /**
   * A day is extracted and archived; after any other stages it is extracted again as a
   * past day. The second extraction is the first one exactly when both failed, or
   * neither did and the second one finds what the first one found.
   */
  lemma ReplayRestoresIff(files: Files, stages: seq<Stage>, digest: seq<Item> -> string, sources: seq<string>,
                          date: string, today: string, later: string, failing: set<string>, refailing: set<string>,
                          fetch: string -> seq<Item>, refetch: string -> seq<Item>, i: nat)
    requires i < |sources| && Less(date, later)
    ensures var first := ExtractAll(files, digest, sources, date, today, failing, fetch);
      var again := Extract(After(Archived(files, date, first), stages), digest, sources[i], date, later, refailing, refetch(sources[i]));
      again.outcome == first[i].outcome <==>
        if sources[i] in failing then sources[i] in refailing
        else sources[i] !in refailing
             && SameInput(files, stages, FileKey(date, sources[i]), first[i].outcome.payloads, refetch(sources[i]))
  {
    var first := ExtractAll(files, digest, sources, date, today, failing, fetch);
    var archived, key := Archived(files, date, first), FileKey(date, sources[i]);
    FileOfDay(files, digest, sources, date, today, failing, fetch, i);
    if key in archived {
      FilesNeverChange(archived, stages, key);
    } else {
      FileAppears(archived, stages, key);
    }
  }

  /** A same-day rerun that fetches something new keeps the old file, and a backfill then replays the old file. */
  lemma SameDayRerunIsNotReplayed(digest: seq<Item> -> string, a: Item, b: Item, later: string)
    requires a != b && Less("d", later)
    ensures var files := map[FileKey("d", "s") := [a]];
      var first := Extract(files, digest, "s", "d", "d", {}, [b]);
      && first.outcome.payloads == [b]
      && Extract(Archived(files, "d", [first]), digest, "s", "d", later, {}, [b]).outcome.payloads == [a]
  {
    var files: Files := map[FileKey("d", "s") := [a]];
    var first := Extract(files, digest, "s", "d", "d", {}, [b]);
    LessIsTotal("d", "d");
    KeepRow(files, FileWrites("d", [first]), FileKey("d", "s"));
  }

  /** A day on which the source had nothing is not archived, and a backfill asks the source again. */
  lemma EmptyDayIsNotReplayed(digest: seq<Item> -> string, b: Item, later: string)
    requires Less("d", later)
    ensures var first := Extract(map[], digest, "s", "d", "d", {}, []);
      var again := Extract(Archived(map[], "d", [first]), digest, "s", "d", later, {}, [b]);
      first.outcome == Outcome("s", NO_DATA, []) && again.outcome == Outcome("s", SUCCESS, [b])
  {
    var first := Extract(map[], digest, "s", "d", "d", {}, []);
    ArchivedFile(map[], "d", [first], FileKey("d", "s"));
  }

  /** The hash recorded for an extraction is the hash of the archived file exactly when the file has that hash already or is new. */
  lemma RecordedHashMatchesFileIff(files: Files, digest: seq<Item> -> string, date: string, x: Extracted)
    requires Archivable(x.outcome) && (x.contentHash.None? || x.contentHash.value == digest(x.outcome.payloads))
    ensures var key := FileKey(date, x.outcome.sourceId);
      && key in Archived(files, date, [x])
      && (Attached(digest, date, x).contentHash == Some(digest(Archived(files, date, [x])[key])) <==>
            key !in files || digest(files[key]) == digest(x.outcome.payloads))
  {
    var key := FileKey(date, x.outcome.sourceId);
    assert [x][0].outcome == x.outcome && Archives(date, [x], key);
    ArchivedFile(files, date, [x], key);
    if key in files {
      KeepRow(files, FileWrites(date, [x]), key);
    }
  }

  /**
   * Collecting and archiving a day and later backfilling it leaves every table as the
   * first run did, load times aside, whenever every source finds the same input again.
   */
  lemma BackfillIsIdempotent(env: Env, versions: map<string, string>, t: Tables, files: Files, stages: seq<Stage>,
                             digest: seq<Item> -> string, sources: seq<string>, dagRunId: string,
                             date: string, today: string, later: string, failing: set<string>,
                             fetch: string -> seq<Item>, refetch: string -> seq<Item>,
                             at: Time, c: int -> Time, d: int -> Time, loaded: Time, reloaded: Time)
    requires PrimaryKeysHold(t) && Less(date, later)
    requires forall i :: 0 <= i < |sources| && sources[i] !in failing ==>
      SameInput(files, stages, FileKey(date, sources[i]),
                Extract(files, digest, sources[i], date, today, failing, fetch(sources[i])).outcome.payloads, refetch(sources[i]))
    ensures var first := ExtractAll(files, digest, sources, date, today, failing, fetch);
      var once := AfterBatch(env, versions, t, dagRunId, date, Outcomes(first), at, c, loaded);
      var again := ExtractAll(After(Archived(files, date, first), stages), digest, sources, date, later, failing, refetch);
      AfterBatch(env, versions, once, dagRunId, date, Outcomes(again), at, d, reloaded).(loadedAt := once.loadedAt) == once
  {
    var first := ExtractAll(files, digest, sources, date, today, failing, fetch);
    var again := ExtractAll(After(Archived(files, date, first), stages), digest, sources, date, later, failing, refetch);
    forall i | 0 <= i < |sources|
      ensures again[i].outcome == first[i].outcome
    {
      ReplayRestoresIff(files, stages, digest, sources, date, today, later, failing, failing, fetch, refetch, i);
    }
    assert Outcomes(again) == Outcomes(first);
    BatchIsIdempotent(env, versions, t, dagRunId, date, Outcomes(first), at, c, d, loaded, reloaded);
  }
}
