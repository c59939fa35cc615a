/**
 * Statuses that only climb.
 *
 * A status column is written by guarded statements: a status is accepted when the
 * stored one is not terminal, has no higher rank, and is different. The module
 * says what a stored status is after any sequence of deliveries, in terms of the
 * set of delivered statuses alone, and exactly when that set decides it.
 */
module StatusLadder {
  import opened Wrappers
  import Collections

  /** The ranks of the known statuses, which are positive, and the terminal statuses. */
  datatype Ladder = Ladder(rank: string -> nat, terminal: set<string>)

  function WorkflowRank(status: string): nat {
    if status == "started" then 1
    else if status == "rendering" then 2
    else if status == "diffing" then 3
    else if status == "policy_checking" then 4
    else if status == "waiting_for_approval" then 5
    else if status == "applying" then 6
    else if status == "rollout_waiting" then 7
    else if status == "succeeded" || status == "failed" then 8
    else 0
  }

  function StepRank(status: string): nat {
    if status == "pending" then 1
    else if status == "running" then 2
    else if status == "succeeded" || status == "failed" || status == "skipped" then 3
    else 0
  }

  const WORKFLOW := Ladder(WorkflowRank, {"succeeded", "failed"})
  const WORKFLOW_STEP := Ladder(StepRank, {"succeeded", "failed", "skipped"})

  /** The status is in the rank table. */
  predicate IsKnown(l: Ladder, status: string) {
    l.rank(status) > 0
  }

  /** The transition guard together with the test that the status really changes. */
  predicate Accepts(l: Ladder, current: string, status: string) {
    current !in l.terminal && l.rank(current) <= l.rank(status) && current != status
  }

  /** Terminal statuses share the top rank; below it every rank belongs to one status. */
  ghost predicate WellFormed(l: Ladder) {
    && (forall t :: t in l.terminal ==> IsKnown(l, t))
    && (forall s, t :: IsKnown(l, s) && t in l.terminal ==>
          l.rank(s) <= l.rank(t) && (s !in l.terminal ==> l.rank(s) < l.rank(t)))
    && (forall s, t :: IsKnown(l, s) && s !in l.terminal && l.rank(s) == l.rank(t) ==> s == t)
  }

  lemma WorkflowRankTop(s: string)
    ensures WorkflowRank(s) <= 8
    ensures WorkflowRank(s) == 8 <==> s in WORKFLOW.terminal
  {
    assert WorkflowRank("succeeded") == 8;
    assert WorkflowRank("failed") == 8;
  }

  lemma WorkflowRankBelowTop(s: string, t: string)
    requires 0 < WorkflowRank(s) < 8 && WorkflowRank(s) == WorkflowRank(t)
    ensures s == t
  {
  }

  lemma WorkflowLadderIsWellFormed()
    ensures WellFormed(WORKFLOW)
    ensures forall s :: WORKFLOW.rank(s) <= 8
  {
    forall s
      ensures WORKFLOW.rank(s) == WorkflowRank(s) <= 8
      ensures WorkflowRank(s) == 8 <==> s in WORKFLOW.terminal
    {
      WorkflowRankTop(s);
    }
    forall s, t | IsKnown(WORKFLOW, s) && s !in WORKFLOW.terminal && WORKFLOW.rank(s) == WORKFLOW.rank(t)
      ensures s == t
    {
      WorkflowRankBelowTop(s, t);
    }
  }

  lemma StepRankTop(s: string)
    ensures StepRank(s) <= 3
    ensures StepRank(s) == 3 <==> s in WORKFLOW_STEP.terminal
  {
    assert StepRank("succeeded") == 3;
    assert StepRank("failed") == 3;
    assert StepRank("skipped") == 3;
  }

  lemma StepLadderIsWellFormed()
    ensures WellFormed(WORKFLOW_STEP)
    ensures forall s :: WORKFLOW_STEP.rank(s) <= 3
  {
    forall s
      ensures WORKFLOW_STEP.rank(s) == StepRank(s) <= 3
      ensures StepRank(s) == 3 <==> s in WORKFLOW_STEP.terminal
    {
      StepRankTop(s);
    }
  }

  /** An accepted change raises the rank exactly when the statuses are not both unknown. */
  lemma AcceptedRaisesRank(l: Ladder, current: string, status: string)
    requires WellFormed(l) && Accepts(l, current, status)
    ensures l.rank(current) < l.rank(status) <==> IsKnown(l, current) || IsKnown(l, status)
  {
  }

  // ----- Sequences of deliveries -----

  /** Storing one delivered status: the first one is inserted, later ones are guarded. */
  function Store(l: Ladder, current: Option<string>, status: string): Option<string> {
    if current.None? || Accepts(l, current.value, status) then Some(status) else current
  }

  function StoreAll(l: Ladder, current: Option<string>, statuses: seq<string>): Option<string> {
    if statuses == [] then current
    else Store(l, StoreAll(l, current, statuses[..|statuses| - 1]), statuses[|statuses| - 1])
  }

  function Members(statuses: seq<string>): set<string> {
    set s | s in statuses
  }

  predicate Known(l: Ladder, statuses: seq<string>) {
    forall i :: 0 <= i < |statuses| ==> IsKnown(l, statuses[i])
  }

  /** The status with the highest rank among `delivered`. */
  predicate IsTop(l: Ladder, delivered: set<string>, status: string) {
    status in delivered && forall s :: s in delivered ==> l.rank(s) <= l.rank(status)
  }

  predicate AtMostOneTerminal(l: Ladder, delivered: set<string>) {
    forall s, t :: s in delivered && t in delivered && s in l.terminal && t in l.terminal ==> s == t
  }

  /** After any deliveries of known statuses the stored one is a highest one. */
  lemma {:induction false} StoredIsTop(l: Ladder, statuses: seq<string>)
    requires WellFormed(l) && Known(l, statuses) && statuses != []
    ensures StoreAll(l, None, statuses).Some? && IsTop(l, Members(statuses), StoreAll(l, None, statuses).value)
  {
    var n := |statuses| - 1;
    var init := statuses[..n];
    assert statuses == init + [statuses[n]];
    assert Members(statuses) == Members(init) + {statuses[n]};
    if n > 0 {
      StoredIsTop(l, init);
    } else {
      assert init == [];
    }
  }

  lemma TopIsUnique(l: Ladder, delivered: set<string>, s: string, t: string)
    requires WellFormed(l) && (forall s :: s in delivered ==> IsKnown(l, s)) && AtMostOneTerminal(l, delivered)
    requires IsTop(l, delivered, s) && IsTop(l, delivered, t)
    ensures s == t
  {
  }

  /** The deliveries with these members, in any order and with any repetition, all end in the same status. */
  ghost predicate OrderIndependent(l: Ladder, delivered: set<string>) {
    forall xs, ys :: Members(xs) == delivered && Members(ys) == delivered ==> StoreAll(l, None, xs) == StoreAll(l, None, ys)
  }

  lemma {:induction false} FirstTerminalStays(l: Ladder, t: string, statuses: seq<string>)
    requires t in l.terminal
    ensures StoreAll(l, None, [t] + statuses) == Some(t)
  {
    var all := [t] + statuses;
    if statuses == [] {
      assert all[..0] == [];
      assert StoreAll(l, None, all[..0]) == None;
    } else {
      assert all[..|all| - 1] == [t] + statuses[..|statuses| - 1];
      FirstTerminalStays(l, t, statuses[..|statuses| - 1]);
    }
  }

  lemma EmptyMembers(statuses: seq<string>)
    ensures statuses == [] <==> Members(statuses) == {}
  {
    if statuses != [] {
      assert statuses[0] in Members(statuses);
    }
  }

  /** A set of known statuses decides the stored status exactly when it holds at most one terminal status. */
  lemma DecidedIffAtMostOneTerminal(l: Ladder, delivered: set<string>)
    requires WellFormed(l) && (forall s :: s in delivered ==> IsKnown(l, s))
    ensures OrderIndependent(l, delivered) <==> AtMostOneTerminal(l, delivered)
  {
    if AtMostOneTerminal(l, delivered) {
      forall xs, ys | Members(xs) == delivered && Members(ys) == delivered
        ensures StoreAll(l, None, xs) == StoreAll(l, None, ys)
      {
        assert forall i :: 0 <= i < |xs| ==> xs[i] in Members(xs);
        assert forall i :: 0 <= i < |ys| ==> ys[i] in Members(ys);
        if xs != [] && ys != [] {
          StoredIsTop(l, xs);
          StoredIsTop(l, ys);
          TopIsUnique(l, delivered, StoreAll(l, None, xs).value, StoreAll(l, None, ys).value);
        } else {
          EmptyMembers(xs);
          EmptyMembers(ys);
        }
      }
    } else {
      var s, t :| s in delivered && t in delivered && s in l.terminal && t in l.terminal && s != t;
      var rest := Collections.Enumerate(delivered);
      assert Members([s] + rest) == delivered && Members([t] + rest) == delivered;
      FirstTerminalStays(l, s, rest);
      FirstTerminalStays(l, t, rest);
    }
  }

  /** Of two terminal statuses the one delivered first stays. */
  lemma TwoTerminalsConflict()
    ensures StoreAll(WORKFLOW, None, ["succeeded", "failed"]) == Some("succeeded")
    ensures StoreAll(WORKFLOW, None, ["failed", "succeeded"]) == Some("failed")
  {
    FirstTerminalStays(WORKFLOW, "succeeded", ["failed"]);
    FirstTerminalStays(WORKFLOW, "failed", ["succeeded"]);
    assert ["succeeded"] + ["failed"] == ["succeeded", "failed"];
    assert ["failed"] + ["succeeded"] == ["failed", "succeeded"];
  }

  // ----- The order of the stages -----

  const WORKFLOW_STAGES := ["started", "rendering", "diffing", "policy_checking", "waiting_for_approval", "applying", "rollout_waiting"]
  const STEP_STAGES := ["pending", "running"]

  /** `s` comes before `t`: both are stages in this order, or only `t` ends the run. */
  predicate Before(stages: seq<string>, terminal: set<string>, s: string, t: string) {
    || (exists i, j :: 0 <= i < j < |stages| && stages[i] == s && stages[j] == t)
    || (s in stages && t in terminal)
  }

  /** The ranks follow the order of the stages. */
  ghost predicate Orders(l: Ladder, stages: seq<string>, terminal: set<string>) {
    && l.terminal == terminal
    && (forall s :: IsKnown(l, s) <==> s in stages || s in terminal)
    && (forall s, t :: Before(stages, terminal, s, t) ==> l.rank(s) < l.rank(t))
  }

  lemma WorkflowStageRank(i: nat)
    requires i < |WORKFLOW_STAGES|
    ensures WorkflowRank(WORKFLOW_STAGES[i]) == i + 1
  {
    assert WORKFLOW_STAGES[0] == "started" && WORKFLOW_STAGES[1] == "rendering" && WORKFLOW_STAGES[2] == "diffing";
    assert WORKFLOW_STAGES[3] == "policy_checking" && WORKFLOW_STAGES[4] == "waiting_for_approval";
    assert WORKFLOW_STAGES[5] == "applying" && WORKFLOW_STAGES[6] == "rollout_waiting";
  }

  lemma WorkflowKnown(s: string)
    ensures WorkflowRank(s) > 0 <==> s in WORKFLOW_STAGES || s in {"succeeded", "failed"}
  {
    if s in WORKFLOW_STAGES {
      var i :| 0 <= i < |WORKFLOW_STAGES| && WORKFLOW_STAGES[i] == s;
      WorkflowStageRank(i);
    }
    WorkflowRankTop(s);
    assert WORKFLOW_STAGES[0] == "started" && WORKFLOW_STAGES[1] == "rendering" && WORKFLOW_STAGES[2] == "diffing";
    assert WORKFLOW_STAGES[3] == "policy_checking" && WORKFLOW_STAGES[4] == "waiting_for_approval";
    assert WORKFLOW_STAGES[5] == "applying" && WORKFLOW_STAGES[6] == "rollout_waiting";
  }

  /** A run goes through its seven stages in this order and then ends. */
  lemma WorkflowStagesInOrder()
    ensures Orders(WORKFLOW, WORKFLOW_STAGES, {"succeeded", "failed"})
  {
    forall s
      ensures IsKnown(WORKFLOW, s) <==> s in WORKFLOW_STAGES || s in {"succeeded", "failed"}
    {
      WorkflowKnown(s);
    }
    forall s, t | Before(WORKFLOW_STAGES, {"succeeded", "failed"}, s, t)
      ensures WORKFLOW.rank(s) < WORKFLOW.rank(t)
    {
      if s in WORKFLOW_STAGES {
        var i :| 0 <= i < |WORKFLOW_STAGES| && WORKFLOW_STAGES[i] == s;
        WorkflowStageRank(i);
      }
      if i, j :| 0 <= i < j < |WORKFLOW_STAGES| && WORKFLOW_STAGES[i] == s && WORKFLOW_STAGES[j] == t {
        WorkflowStageRank(i);
        WorkflowStageRank(j);
      } else {
        WorkflowRankTop(t);
      }
    }
  }

  /** A step is pending, then running, and then ends. */
  lemma StepStagesInOrder()
    ensures Orders(WORKFLOW_STEP, STEP_STAGES, {"succeeded", "failed", "skipped"})
  {
    assert STEP_STAGES[0] == "pending" && STEP_STAGES[1] == "running";
    forall s
      ensures IsKnown(WORKFLOW_STEP, s) <==> s in STEP_STAGES || s in {"succeeded", "failed", "skipped"}
    {
      StepRankTop(s);
    }
    forall s, t | Before(STEP_STAGES, {"succeeded", "failed", "skipped"}, s, t)
      ensures WORKFLOW_STEP.rank(s) < WORKFLOW_STEP.rank(t)
    {
      StepRankTop(t);
    }
  }

  /** Delivered in any order, no status is replaced by one that comes before it: the stored one comes before none delivered. */
  lemma StoredIsFarthest(l: Ladder, stages: seq<string>, terminal: set<string>, statuses: seq<string>)
    requires WellFormed(l) && Orders(l, stages, terminal) && statuses != []
    requires forall s :: s in statuses ==> s in stages || s in terminal
    ensures StoreAll(l, None, statuses).Some? && StoreAll(l, None, statuses).value in statuses
    ensures forall t :: t in statuses ==> !Before(stages, terminal, StoreAll(l, None, statuses).value, t)
  {
    StoredIsTop(l, statuses);
    assert forall t :: t in statuses ==> t in Members(statuses);
  }

  /**
   * The guard accepts every other status from one that is unknown or a stage, except
   * that a stage is replaced neither by a stage before it nor by an unknown status.
   */
  lemma AcceptsIff(l: Ladder, stages: seq<string>, terminal: set<string>, current: string, status: string)
    requires Orders(l, stages, terminal)
    ensures Accepts(l, current, status) <==>
      && current !in terminal && current != status
      && (current in stages ==> status in stages || status in terminal)
      && !Before(stages, terminal, status, current)
  {
    if current in stages && status in stages && current != status {
      var i :| 0 <= i < |stages| && stages[i] == current;
      var j :| 0 <= j < |stages| && stages[j] == status;
      assert i < j ==> Before(stages, terminal, current, status);
      assert j < i ==> Before(stages, terminal, status, current);
    }
  }

  // ----- The tables -----

  /** The columns that an upsert writes only on insertion, and those every accepted write replaces. */
  datatype Row = Row(identity: map<string, string>, status: string, details: map<string, string>)

  /** A write to one row. An update carries only the columns it names, perhaps no status. */
  datatype Write =
    | Upsert(row: Row)
    | Update(status: Option<string>, details: map<string, string>)

  type Table = map<string, Row>

  /** The effect of one statement on the table; the row it returns, if it changed one. */
  function Execute(l: Ladder, table: Table, id: string, w: Write): (Table, Option<Row>) {
    match w
    case Upsert(row) =>
      if id !in table then (table[id := row], Some(row))
      else if Accepts(l, table[id].status, row.status) then
        var r := Row(table[id].identity, row.status, row.details);
        (table[id := r], Some(r))
      else (table, None)
    case Update(status, details) =>
      if id !in table || (status.Some? && !Accepts(l, table[id].status, status.value)) then (table, None)
      else
        var r := Row(table[id].identity, if status.Some? then status.value else table[id].status, table[id].details + details);
        (table[id := r], Some(r))
  }

  /** The table of workflow runs, or of workflow steps keyed by run and step name. */
  class StatusTable {
    const ladder: Ladder
    var table: Table

    constructor (ladder: Ladder)
      ensures this.ladder == ladder && table == map[]
    {
      this.ladder := ladder;
      table := map[];
    }

    /** `start_workflow_run` and `record_workflow_step`: insert, or overwrite under the guard. */
    method Upsert(id: string, row: Row) returns (applied: Option<Row>)
      modifies this
      ensures (table, applied) == Execute(ladder, old(table), id, Write.Upsert(row))
    {
      if id !in table {
        table := table[id := row];
        return Some(row);
      }
      var stored := table[id];
      if stored.status in ladder.terminal || ladder.rank(stored.status) > ladder.rank(row.status) || stored.status == row.status {
        return None;
      }
      stored := stored.(status := row.status, details := row.details);
      table := table[id := stored];
      return Some(stored);
    }

    /** `update_workflow_run`: the guard applies only when the payload carries a status. */
    method Update(id: string, status: Option<string>, details: map<string, string>) returns (applied: Option<Row>)
      modifies this
      ensures (table, applied) == Execute(ladder, old(table), id, Write.Update(status, details))
    {
      if id !in table {
        return None;
      }
      var stored := table[id];
      if status.Some? {
        if stored.status in ladder.terminal || ladder.rank(stored.status) > ladder.rank(status.value) || stored.status == status.value {
          return None;
        }
        stored := stored.(status := status.value);
      }
      stored := stored.(details := stored.details + details);
      table := table[id := stored];
      return Some(stored);
    }
  }

  // ----- Whole runs -----

  datatype Event = Event(id: string, write: Write)

  function Run(l: Ladder, table: Table, events: seq<Event>): Table {
    if events == [] then table
    else Execute(l, Run(l, table, events[..|events| - 1]), events[|events| - 1].id, events[|events| - 1].write).0
  }

  function StatusOf(w: Write): Option<string> {
    match w
    case Upsert(row) => Some(row.status)
    case Update(status, _) => status
  }

  function RankOf(l: Ladder, table: Table, id: string): nat {
    if id in table then l.rank(table[id].status) else 0
  }

  /** How many statements that carry a status for `id` reported a change. */
  function StatusMutations(l: Ladder, table: Table, events: seq<Event>, id: string): nat {
    if events == [] then 0
    else
      var n := |events| - 1;
      var before := Run(l, table, events[..n]);
      var applied := Execute(l, before, events[n].id, events[n].write).1;
      StatusMutations(l, table, events[..n], id)
      + if events[n].id == id && StatusOf(events[n].write).Some? && applied.Some? then 1 else 0
  }

  predicate KnownEvents(l: Ladder, events: seq<Event>) {
    forall i :: 0 <= i < |events| ==> StatusOf(events[i].write).Some? ==> IsKnown(l, StatusOf(events[i].write).value)
  }

  predicate KnownTable(l: Ladder, table: Table) {
    forall id :: id in table ==> IsKnown(l, table[id].status)
  }

  /** A terminal status never changes, whatever is delivered afterwards. */
  lemma {:induction false} TerminalIsFinal(l: Ladder, table: Table, events: seq<Event>, id: string)
    requires id in table && table[id].status in l.terminal
    ensures id in Run(l, table, events) && Run(l, table, events)[id].status == table[id].status
  {
    if events != [] {
      TerminalIsFinal(l, table, events[..|events| - 1], id);
    }
  }

  lemma ExecuteClimbs(l: Ladder, table: Table, id': string, w: Write, id: string)
    requires WellFormed(l) && KnownTable(l, table)
    requires StatusOf(w).Some? ==> IsKnown(l, StatusOf(w).value)
    ensures KnownTable(l, Execute(l, table, id', w).0)
    ensures RankOf(l, table, id) + (if id' == id && StatusOf(w).Some? && Execute(l, table, id', w).1.Some? then 1 else 0)
         <= RankOf(l, Execute(l, table, id', w).0, id)
  {
  }

  /** Every reported status change climbs, so their number is bounded by the rank reached. */
  lemma {:induction false} MutationsAreBounded(l: Ladder, table: Table, events: seq<Event>, id: string)
    requires WellFormed(l) && KnownTable(l, table) && KnownEvents(l, events)
    ensures KnownTable(l, Run(l, table, events))
    ensures RankOf(l, table, id) + StatusMutations(l, table, events, id) <= RankOf(l, Run(l, table, events), id)
  {
    if events != [] {
      var n := |events| - 1;
      MutationsAreBounded(l, table, events[..n], id);
      ExecuteClimbs(l, Run(l, table, events[..n]), events[n].id, events[n].write, id);
    }
  }

  function StoredStatusOf(table: Table, id: string): Option<string> {
    if id in table then Some(table[id].status) else None
  }

  /** How often the stored status of the row changes over the events, its insertion included. */
  function StatusChanges(l: Ladder, table: Table, events: seq<Event>, id: string): nat {
    if events == [] then 0
    else
      var n := |events| - 1;
      StatusChanges(l, table, events[..n], id)
      + if StoredStatusOf(Run(l, table, events), id) != StoredStatusOf(Run(l, table, events[..n]), id) then 1 else 0
  }

  /** The statements report exactly the changes of the stored status. */
  lemma {:induction false} MutationsAreChanges(l: Ladder, table: Table, events: seq<Event>, id: string)
    ensures StatusMutations(l, table, events, id) == StatusChanges(l, table, events, id)
  {
    if events != [] {
      MutationsAreChanges(l, table, events[..|events| - 1], id);
    }
  }

  /** Over any run a row keeps the columns that identify it. */
  lemma {:induction false} IdentityStays(l: Ladder, table: Table, events: seq<Event>, id: string)
    requires id in table
    ensures id in Run(l, table, events) && Run(l, table, events)[id].identity == table[id].identity
  {
    if events != [] {
      IdentityStays(l, table, events[..|events| - 1], id);
    }
  }

  /**
   * An update never inserts a row. Without a status it always takes effect on the row it
   * names; with a status it does so exactly when an upsert of that status would. It
   * changes the columns it names and no other.
   */
  lemma UpdateTakesEffect(l: Ladder, table: Table, id: string, status: Option<string>, details: map<string, string>, row: Row)
    requires status.Some? ==> row.status == status.value
    ensures var (after, applied) := Execute(l, table, id, Update(status, details));
      && after.Keys == table.Keys && (forall k :: k in table && k != id ==> after[k] == table[k])
      && (applied.Some? <==> id in table && (status.Some? ==> Execute(l, table, id, Upsert(row)).1.Some?))
      && (applied.None? ==> after == table)
      && (applied.Some? ==>
            && after[id] == applied.value && after[id].status == (if status.Some? then status.value else table[id].status)
            && (forall c :: c in details ==> c in after[id].details && after[id].details[c] == details[c])
            && (forall c :: c !in details ==> (c in after[id].details <==> c in table[id].details))
            && (forall c :: c !in details && c in table[id].details ==> after[id].details[c] == table[id].details[c]))
  {
  }

  lemma {:induction false} RankNeverFalls(l: Ladder, table: Table, events: seq<Event>, id: string)
    requires id in table
    ensures id in Run(l, table, events) && l.rank(table[id].status) <= l.rank(Run(l, table, events)[id].status)
  {
    if events != [] {
      RankNeverFalls(l, table, events[..|events| - 1], id);
    }
  }

  /** Over any run of upserts and updates a row never goes back to a stage before the one it is in. */
  lemma NeverGoesBack(l: Ladder, stages: seq<string>, terminal: set<string>, table: Table, events: seq<Event>, id: string)
    requires Orders(l, stages, terminal) && id in table
    ensures id in Run(l, table, events) && !Before(stages, terminal, Run(l, table, events)[id].status, table[id].status)
  {
    RankNeverFalls(l, table, events, id);
  }

  /** No workflow run reports more than eight status changes, no step more than three. */
  lemma AtMostEightMutations(events: seq<Event>, id: string)
    ensures KnownEvents(WORKFLOW, events) ==> StatusMutations(WORKFLOW, map[], events, id) <= 8
    ensures KnownEvents(WORKFLOW_STEP, events) ==> StatusMutations(WORKFLOW_STEP, map[], events, id) <= 3
  {
    WorkflowLadderIsWellFormed();
    StepLadderIsWellFormed();
    if KnownEvents(WORKFLOW, events) {
      MutationsAreBounded(WORKFLOW, map[], events, id);
    }
    if KnownEvents(WORKFLOW_STEP, events) {
      MutationsAreBounded(WORKFLOW_STEP, map[], events, id);
    }
  }

  /** The statuses upserted for `id`, in order. */
  function Upserts(events: seq<Event>, id: string): seq<string> {
    if events == [] then []
    else
      var n := |events| - 1;
      Upserts(events[..n], id) + if events[n].id == id && events[n].write.Upsert? then [events[n].write.row.status] else []
  }

  predicate OnlyUpserts(events: seq<Event>) {
    forall i :: 0 <= i < |events| ==> events[i].write.Upsert?
  }

  /** The stored status of a row is the fold of the statuses upserted for it. */
  lemma {:induction false} StoredStatus(l: Ladder, events: seq<Event>, id: string)
    requires OnlyUpserts(events)
    ensures StoreAll(l, None, Upserts(events, id)) ==
            if id in Run(l, map[], events) then Some(Run(l, map[], events)[id].status) else None
  {
    if events != [] {
      var n := |events| - 1;
      StoredStatus(l, events[..n], id);
      var before := Upserts(events[..n], id);
      if events[n].id == id {
        assert Upserts(events, id)[..|before|] == before;
      } else {
        assert Upserts(events, id) == before;
      }
    }
  }

  /**
   * Two sequences of upserts that deliver the same set of known statuses to a row,
   * with at most one terminal status among them, leave the same status in it.
   */
  lemma DeliveryOrderDoesNotMatter(l: Ladder, events: seq<Event>, events': seq<Event>, id: string)
    requires WellFormed(l) && OnlyUpserts(events) && OnlyUpserts(events')
    requires Members(Upserts(events, id)) == Members(Upserts(events', id))
    requires forall s :: s in Members(Upserts(events, id)) ==> IsKnown(l, s)
    requires AtMostOneTerminal(l, Members(Upserts(events, id)))
    ensures var a := Run(l, map[], events); var b := Run(l, map[], events');
      (id in a <==> id in b) && (id in a ==> a[id].status == b[id].status)
  {
    StoredStatus(l, events, id);
    StoredStatus(l, events', id);
    DecidedIffAtMostOneTerminal(l, Members(Upserts(events, id)));
  }
}
