/**
 * Workflow approvals, which are decided once.
 *
 * A request inserts an approval or rewrites an open one; a resolution is one
 * guarded update of an open, unexpired approval. Time is an integer clock read by
 * the statement itself.
 */
module Approvals {
  import opened Wrappers

  /** `asked` and `decided` stand for the columns of the request and of the decision. */
  datatype Row = Row(
    workspaceId: string,
    identity: map<string, string>,
    status: string,
    asked: map<string, string>,
    decided: map<string, string>,
    expiresAt: Option<int>)

  type Table = map<string, Row>

  const OPEN_APPROVAL_STATUSES := {"requested", "not_required"}

  predicate IsOpen(status: string) {
    status in OPEN_APPROVAL_STATUSES
  }

  datatype Event =
    | Request(id: string, row: Row)
    | Resolve(id: string, workspaceId: string, status: string, decided: map<string, string>, now: int)

  /** The row can be resolved from this workspace at this time. */
  predicate Resolvable(table: Table, id: string, workspaceId: string, now: int) {
    && id in table && table[id].workspaceId == workspaceId && IsOpen(table[id].status)
    && (table[id].expiresAt.None? || table[id].expiresAt.value > now)
  }

  /** The effect of one statement, and whether a resolution changed a row. */
  function Execute(table: Table, e: Event): (Table, bool) {
    match e
    case Request(id, row) =>
      if id !in table then (table[id := row], false)
      else if IsOpen(table[id].status) then
        (table[id := row.(workspaceId := table[id].workspaceId, identity := table[id].identity)], false)
      else (table, false)
    case Resolve(id, workspaceId, status, decided, now) =>
      if Resolvable(table, id, workspaceId, now) then (table[id := table[id].(status := status, decided := decided)], true)
      else (table, false)
  }

  class ApprovalTable {
    var table: Table

    constructor ()
      ensures table == map[]
    {
      table := map[];
    }

    /** `request_workflow_approval` */
    method RequestWorkflowApproval(id: string, row: Row)
      modifies this
      ensures table == Execute(old(table), Request(id, row)).0
      ensures id in table && (id in old(table) && !IsOpen(old(table)[id].status) ==> table[id] == old(table)[id])
    {
      if id !in table {
        table := table[id := row];
      } else if IsOpen(table[id].status) {
        var stored := table[id];
        table := table[id := stored.(status := row.status, asked := row.asked, decided := row.decided, expiresAt := row.expiresAt)];
      }
    }

    /** `resolve_workflow_approval_if_open`: the test and the write are one statement. */
    method ResolveIfOpen(id: string, workspaceId: string, status: string, decided: map<string, string>, now: int) returns (resolved: bool)
      modifies this
      ensures (table, resolved) == Execute(old(table), Resolve(id, workspaceId, status, decided, now))
      ensures resolved ==> old(table)[id].expiresAt.None? || now < old(table)[id].expiresAt.value
    {
      if id !in table {
        return false;
      }
      var stored := table[id];
      if stored.workspaceId != workspaceId || !IsOpen(stored.status) {
        return false;
      }
      if stored.expiresAt.Some? && stored.expiresAt.value <= now {
        return false;
      }
      table := table[id := stored.(status := status, decided := decided)];
      return true;
    }
  }

  // ----- Whole runs -----

  function Run(table: Table, events: seq<Event>): Table {
    if events == [] then table
    else Execute(Run(table, events[..|events| - 1]), events[|events| - 1]).0
  }

  /** Whether the `k`-th event is a resolution of `id` that changed the row. */
  predicate ResolvedAt(table: Table, events: seq<Event>, k: nat, id: string)
    requires k < |events|
  {
    events[k].Resolve? && events[k].id == id && Execute(Run(table, events[..k]), events[k]).1
  }

  /** Every resolution of `id` closes it. */
  predicate Closing(events: seq<Event>, id: string) {
    forall k :: 0 <= k < |events| && events[k].Resolve? && events[k].id == id ==> !IsOpen(events[k].status)
  }

  /** A row that has left the open statuses never changes again. */
  lemma {:induction false} ClosedIsFrozen(table: Table, events: seq<Event>, id: string)
    requires id in table && !IsOpen(table[id].status)
    ensures id in Run(table, events) && Run(table, events)[id] == table[id]
  {
    if events != [] {
      ClosedIsFrozen(table, events[..|events| - 1], id);
    }
  }

  lemma {:induction false} RunAppend(table: Table, xs: seq<Event>, ys: seq<Event>)
    ensures Run(table, xs + ys) == Run(Run(table, xs), ys)
  {
    if ys == [] {
      assert xs + ys == xs;
    } else {
      var n := |ys| - 1;
      assert (xs + ys)[..|xs| + n] == xs + ys[..n];
      RunAppend(table, xs, ys[..n]);
    }
  }

  /** Under closing resolutions, at most one of them on an approval changes it. */
  lemma ResolvedOnce(table: Table, events: seq<Event>, id: string, j: nat, k: nat)
    requires j < k < |events| && Closing(events, id) && ResolvedAt(table, events, j, id)
    ensures !ResolvedAt(table, events, k, id)
  {
    var after := Run(table, events[..j + 1]);
    assert events[..j + 1][..j] == events[..j];
    assert id in after && !IsOpen(after[id].status);
    assert events[..k] == events[..j + 1] + events[j + 1..k];
    RunAppend(table, events[..j + 1], events[j + 1..k]);
    ClosedIsFrozen(after, events[j + 1..k], id);
  }

  /** Over any run an approval keeps its workspace and the columns that identify it. */
  lemma {:induction false} WorkspaceStays(table: Table, events: seq<Event>, id: string)
    requires id in table
    ensures id in Run(table, events)
    ensures Run(table, events)[id].workspaceId == table[id].workspaceId && Run(table, events)[id].identity == table[id].identity
  {
    if events != [] {
      WorkspaceStays(table, events[..|events| - 1], id);
    }
  }

  /** An approval is never resolved from another workspace than the one it was requested in, whatever happens to it. */
  lemma OtherWorkspaceNeverResolves(table: Table, events: seq<Event>, k: nat, id: string)
    requires k < |events| && id in table && events[k].Resolve? && events[k].workspaceId != table[id].workspaceId
    ensures !ResolvedAt(table, events, k, id)
  {
    WorkspaceStays(table, events[..k], id);
  }

  /** Events about other approvals leave the row alone. */
  lemma {:induction false} OthersLeaveRow(table: Table, events: seq<Event>, id: string)
    requires forall k :: 0 <= k < |events| ==> events[k].id != id
    ensures (id in Run(table, events) <==> id in table) && (id in table ==> Run(table, events)[id] == table[id])
  {
    if events != [] {
      OthersLeaveRow(table, events[..|events| - 1], id);
    }
  }

  /**
   * An approval that is new or still open is requested with an open status, and other
   * events follow. Its resolution goes through exactly in the workspace of its first
   * request and before its new expiry, and leaves what was asked last with the decision.
   */
  lemma OpenRequestIsResolvedIff(table: Table, id: string, row: Row, others: seq<Event>, e: Event)
    requires IsOpen(row.status) && (id in table ==> IsOpen(table[id].status))
    requires forall k :: 0 <= k < |others| ==> others[k].id != id
    requires e.Resolve? && e.id == id
    ensures var (after, resolved) := Execute(Run(table, [Request(id, row)] + others), e);
      var first := if id in table then table[id] else row;
      && (resolved <==> e.workspaceId == first.workspaceId && (row.expiresAt.Some? ==> e.now < row.expiresAt.value))
      && (resolved ==> id in after && after[id] == Row(first.workspaceId, first.identity, e.status, row.asked, e.decided, row.expiresAt))
  {
    RunAppend(table, [Request(id, row)], others);
    assert [Request(id, row)][..0] == [] && Run(table, []) == table;
    assert Run(table, [Request(id, row)]) == Execute(table, Request(id, row)).0;
    OthersLeaveRow(Run(table, [Request(id, row)]), others, id);
  }

  /** The clocks that the resolutions read do not go back. */
  predicate ClockForward(events: seq<Event>) {
    forall j, k :: 0 <= j < k < |events| && events[j].Resolve? && events[k].Resolve? ==> events[j].now <= events[k].now
  }

  /** No request of `id` among the events from `j` on. */
  predicate NotRequestedFrom(events: seq<Event>, j: nat, id: string) {
    forall k :: j <= k < |events| && events[k].Request? ==> events[k].id != id
  }

  /** Without a request an approval keeps its expiry. */
  lemma {:induction false} ExpiryStays(table: Table, events: seq<Event>, id: string)
    requires id in table && NotRequestedFrom(events, 0, id)
    ensures id in Run(table, events) && Run(table, events)[id].expiresAt == table[id].expiresAt
  {
    if events != [] {
      ExpiryStays(table, events[..|events| - 1], id);
    }
  }

  /**
   * Once a resolution reads a clock at or past the expiry of an approval that is not
   * requested again, neither it nor any later one changes the approval.
   */
  lemma NotResolvedAfterExpiry(table: Table, events: seq<Event>, j: nat, k: nat, id: string)
    requires j <= k < |events| && ClockForward(events) && NotRequestedFrom(events, j, id)
    requires var before := Run(table, events[..j]);
      id in before && before[id].expiresAt.Some? && events[j].Resolve? && before[id].expiresAt.value <= events[j].now
    ensures !ResolvedAt(table, events, k, id)
  {
    var between := events[j..k];
    assert events[..k] == events[..j] + between;
    RunAppend(table, events[..j], between);
    forall i | 0 <= i < |between| && between[i].Request?
      ensures between[i].id != id
    {
      assert between[i] == events[j + i];
    }
    ExpiryStays(Run(table, events[..j]), between, id);
  }

  /** Every resolution in the run uses the status. */
  predicate AllUse(events: seq<Event>, status: string) {
    forall k :: 0 <= k < |events| && events[k].Resolve? ==> events[k].status == status
  }

  /** In every run whose resolutions use the status each approval is resolved at most once. */
  ghost predicate ResolvesOnce(status: string) {
    forall table: Table, events: seq<Event>, id: string, j: nat, k: nat ::
      AllUse(events, status) && j < k < |events| && ResolvedAt(table, events, j, id) ==> !ResolvedAt(table, events, k, id)
  }

  /** A status resolves each approval at most once, in every run, exactly when it is not an open status. */
  lemma ResolvesOnceIffClosing(status: string)
    ensures ResolvesOnce(status) <==> !IsOpen(status)
  {
    if IsOpen(status) {
      var table: Table := map["a" := Row("w", map[], "requested", map[], map[], None)];
      var e := Resolve("a", "w", status, map[], 0);
      var events := [e, e];
      assert IsOpen("requested") && Execute(table, e).1;
      assert events[..0] == [] && events[..1][..0] == [] && events[..1][0] == e;
      assert Run(table, events[..1]) == Execute(Run(table, []), e).0;
      assert ResolvedAt(table, events, 0, "a") && ResolvedAt(table, events, 1, "a");
    } else {
      forall table: Table, events: seq<Event>, id: string, j: nat, k: nat |
        AllUse(events, status) && j < k < |events| && ResolvedAt(table, events, j, id)
        ensures !ResolvedAt(table, events, k, id)
      {
        ResolvedOnce(table, events, id, j, k);
      }
    }
  }
}
