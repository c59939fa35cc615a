/**
 * The ledger of external alert events.
 *
 * Deliveries of one alert are merged into one row. A resolved event is terminal
 * for the incident it belongs to; a delivery that names another incident starts a
 * new episode. The stored status is characterized by the deliveries alone.
 */
module AlertLedger {
  import opened Wrappers

  const RESOLVED := "resolved"

  /** `labels` are the columns every delivery overwrites, `reading` those a terminal event keeps. */
  datatype Delivery = Delivery(
    status: string, incidentId: Option<string>, labels: map<string, string>, reading: map<string, string>,
    seriesIdentity: Option<string>)

  /** `acknowledged` and `promoted` hold the time and the user of the operator's actions. */
  datatype Row = Row(
    status: string, incidentId: Option<string>, labels: map<string, string>, reading: map<string, string>,
    seriesIdentity: Option<string>, acknowledged: Option<(int, string)>, promoted: Option<(int, string)>)

  type Table = map<string, Row>

  predicate IncidentChanged(stored: Option<string>, delivered: Option<string>) {
    delivered.Some? && stored.Some? && delivered != stored
  }

  function Coalesce<T>(first: Option<T>, second: Option<T>): Option<T> {
    if first.Some? then first else second
  }

  /** The inserted row of a first delivery. */
  function Inserted(d: Delivery): Row {
    Row(d.status, d.incidentId, d.labels, d.reading, d.seriesIdentity, None, None)
  }

  /** The updated row of a later delivery. */
  function Merged(row: Row, d: Delivery): Row {
    var changed := IncidentChanged(row.incidentId, d.incidentId);
    var terminal := row.status == RESOLVED && d.status != RESOLVED && !changed;
    Row(if terminal then row.status else d.status,
        Coalesce(d.incidentId, row.incidentId),
        d.labels,
        if terminal then row.reading else d.reading,
        Coalesce(d.seriesIdentity, row.seriesIdentity),
        if changed then None else row.acknowledged,
        if changed then None else row.promoted)
  }

  class AlertEvents {
    var table: Table

    constructor ()
      ensures table == map[]
    {
      table := map[];
    }

    /** `upsert_external_alert_event` */
    method UpsertExternalAlertEvent(eventId: string, d: Delivery) returns (row: Row)
      modifies this
      ensures row == if eventId in old(table) then Merged(old(table)[eventId], d) else Inserted(d)
      ensures table == old(table)[eventId := row]
    {
      if eventId !in table {
        row := Inserted(d);
      } else {
        row := table[eventId];
        var changed := d.incidentId.Some? && row.incidentId.Some? && d.incidentId.value != row.incidentId.value;
        if !(row.status == RESOLVED && d.status != RESOLVED && !changed) {
          row := row.(status := d.status, reading := d.reading);
        }
        row := row.(labels := d.labels);
        if d.incidentId.Some? {
          row := row.(incidentId := d.incidentId);
        }
        if d.seriesIdentity.Some? {
          row := row.(seriesIdentity := d.seriesIdentity);
        }
        if changed {
          row := row.(acknowledged := None, promoted := None);
        }
      }
      table := table[eventId := row];
    }
  }

  // ----- Whole histories of one event -----

  /** What happens to one event: deliveries, and operator actions between them. */
  datatype Action = Deliver(d: Delivery) | Acknowledge(at: int, who: string) | Promote(at: int, who: string)

  function Act(row: Option<Row>, a: Action): Option<Row> {
    match a
    case Deliver(d) => Some(if row.Some? then Merged(row.value, d) else Inserted(d))
    case Acknowledge(at, who) => if row.None? then None else Some(row.value.(acknowledged := Some((at, who))))
    case Promote(at, who) => if row.None? then None else Some(row.value.(promoted := Some((at, who))))
  }

  function History(actions: seq<Action>): Option<Row> {
    if actions == [] then None
    else Act(History(actions[..|actions| - 1]), actions[|actions| - 1])
  }

  /** The last incident that the deliveries name. */
  function LastIncident(actions: seq<Action>): Option<string> {
    if actions == [] then None
    else
      var last := actions[|actions| - 1];
      if last.Deliver? && last.d.incidentId.Some? then last.d.incidentId else LastIncident(actions[..|actions| - 1])
  }

  /** The `k`-th action is a delivery that names another incident than the last one named before. */
  predicate StartsEpisode(actions: seq<Action>, k: nat)
    requires k < |actions|
  {
    actions[k].Deliver? && IncidentChanged(LastIncident(actions[..k]), actions[k].d.incidentId)
  }

  /** A resolved delivery that no later change of incident has overtaken. */
  ghost predicate ResolvedInEpisode(actions: seq<Action>, k: nat) {
    && k < |actions| && actions[k].Deliver? && actions[k].d.status == RESOLVED
    && forall j :: k < j < |actions| ==> !StartsEpisode(actions, j)
  }

  lemma {:induction false} StoredIncident(actions: seq<Action>)
    ensures History(actions).Some? ==> History(actions).value.incidentId == LastIncident(actions)
    ensures History(actions).None? ==> LastIncident(actions).None?
  {
    if actions != [] {
      StoredIncident(actions[..|actions| - 1]);
    }
  }

  lemma EpisodeOfPrefix(actions: seq<Action>, n: nat, k: nat)
    requires n <= |actions| && k < n
    ensures StartsEpisode(actions[..n], k) == StartsEpisode(actions, k)
  {
    assert actions[..n][..k] == actions[..k];
  }

  /**
   * The event is resolved exactly when some delivery since the last change of
   * incident (that change included) was resolved.
   */
  lemma {:induction false} ResolvedIffEpisodeResolved(actions: seq<Action>)
    ensures History(actions).Some? && History(actions).value.status == RESOLVED
        <==> exists k: nat :: ResolvedInEpisode(actions, k)
  {
    if actions != [] {
      var n := |actions| - 1;
      var init := actions[..n];
      ResolvedIffEpisodeResolved(init);
      StoredIncident(init);
      EpisodeExtended(actions);
    }
  }

  // ----- The columns of the stored row -----

  /** The delivery is not a late one: it resolves, or starts an episode, or finds its episode unresolved. */
  ghost predicate Counts(actions: seq<Action>, k: nat) {
    && k < |actions| && actions[k].Deliver?
    && (actions[k].d.status == RESOLVED || StartsEpisode(actions, k) || forall j: nat :: !ResolvedInEpisode(actions[..k], j))
  }

  /** The delivery is the last one that counts. */
  ghost predicate CountsLast(actions: seq<Action>, k: nat) {
    Counts(actions, k) && forall j: nat :: j > k ==> !Counts(actions, j)
  }

  lemma CountsInPrefix(actions: seq<Action>, n: nat, k: nat)
    requires k < n <= |actions|
    ensures Counts(actions[..n], k) <==> Counts(actions, k)
  {
    assert actions[..n][..k] == actions[..k] && actions[..n][k] == actions[k];
  }

  /** Over any history the stored status and reading are those of the last delivery that counts. */
  lemma {:induction false} StoredReading(actions: seq<Action>)
    ensures History(actions).Some? <==> exists k: nat :: Counts(actions, k)
    ensures forall k: nat :: CountsLast(actions, k) ==>
      History(actions).value.status == actions[k].d.status && History(actions).value.reading == actions[k].d.reading
  {
    if actions != [] {
      var n := |actions| - 1;
      var init := actions[..n];
      StoredReading(init);
      StoredIncident(init);
      ResolvedIffEpisodeResolved(init);
      forall k: nat | k < n
        ensures Counts(init, k) <==> Counts(actions, k)
      {
        CountsInPrefix(actions, n, k);
      }
      forall k: nat | CountsLast(actions, k)
        ensures History(actions).value.status == actions[k].d.status && History(actions).value.reading == actions[k].d.reading
      {
        if k < n {
          assert !Counts(actions, n) && CountsLast(init, k) && init[k] == actions[k];
        }
      }
    }
  }

  /** The last delivery, and the last series that a delivery names. */
  function LastLabels(actions: seq<Action>): Option<map<string, string>> {
    if actions == [] then None
    else if actions[|actions| - 1].Deliver? then Some(actions[|actions| - 1].d.labels)
    else LastLabels(actions[..|actions| - 1])
  }

  function LastSeries(actions: seq<Action>): Option<string> {
    if actions == [] then None
    else
      var last := actions[|actions| - 1];
      if last.Deliver? && last.d.seriesIdentity.Some? then last.d.seriesIdentity else LastSeries(actions[..|actions| - 1])
  }

  /** Over any history the labels are those of the last delivery and the series is the last one named, late or not. */
  lemma {:induction false} StoredLabels(actions: seq<Action>)
    ensures History(actions).Some? <==> LastLabels(actions).Some?
    ensures History(actions).Some? ==>
      Some(History(actions).value.labels) == LastLabels(actions) && History(actions).value.seriesIdentity == LastSeries(actions)
    ensures History(actions).None? ==> LastSeries(actions).None?
  {
    if actions != [] {
      StoredLabels(actions[..|actions| - 1]);
    }
  }

  /** How the resolved deliveries of the current episode change with one more action. */
  lemma EpisodeExtended(actions: seq<Action>)
    requires actions != []
    ensures var n := |actions| - 1; var init := actions[..n];
      (exists k: nat :: ResolvedInEpisode(actions, k)) <==>
        || (actions[n].Deliver? && actions[n].d.status == RESOLVED)
        || (!StartsEpisode(actions, n) && exists k: nat :: ResolvedInEpisode(init, k))
  {
    var n := |actions| - 1;
    var init := actions[..n];
    if k: nat :| ResolvedInEpisode(actions, k) {
      if k < n {
        forall j | k < j < n
          ensures !StartsEpisode(init, j)
        {
          EpisodeOfPrefix(actions, n, j);
        }
        assert ResolvedInEpisode(init, k);
      }
    }
    if actions[n].Deliver? && actions[n].d.status == RESOLVED {
      assert ResolvedInEpisode(actions, n);
    }
    if !StartsEpisode(actions, n) {
      if k: nat :| ResolvedInEpisode(init, k) {
        forall j | k < j < |actions|
          ensures !StartsEpisode(actions, j)
        {
          if j < n {
            EpisodeOfPrefix(actions, n, j);
          }
        }
        assert ResolvedInEpisode(actions, k);
      }
    }
  }

  // ----- Operator actions -----

  /** What an action writes into the promotion column, or into the acknowledgement column. */
  function Mark(promotion: bool, a: Action): Option<(int, string)> {
    match a
    case Deliver(_) => None
    case Acknowledge(at, who) => if promotion then None else Some((at, who))
    case Promote(at, who) => if promotion then Some((at, who)) else None
  }

  function Marked(promotion: bool, row: Row): Option<(int, string)> {
    if promotion then row.promoted else row.acknowledged
  }

  /** The last mark on an existing row that no later change of incident has overtaken. */
  ghost predicate LastMarkInEpisode(promotion: bool, actions: seq<Action>, k: nat, mark: (int, string)) {
    && k < |actions| && Mark(promotion, actions[k]) == Some(mark)
    && (exists j :: 0 <= j < k && actions[j].Deliver?)
    && forall j :: k < j < |actions| ==> !StartsEpisode(actions, j) && Mark(promotion, actions[j]).None?
  }

  lemma {:induction false} StoredIffDelivered(actions: seq<Action>)
    ensures History(actions).Some? <==> exists j :: 0 <= j < |actions| && actions[j].Deliver?
  {
    if actions != [] {
      var n := |actions| - 1;
      var init := actions[..n];
      StoredIffDelivered(init);
      if j :| 0 <= j < |init| && init[j].Deliver? {
        assert actions[j].Deliver?;
      }
      if j :| 0 <= j < |actions| && actions[j].Deliver? {
        assert j < n ==> init[j].Deliver?;
      }
    }
  }

  /** One more action: it sets the mark, starts an episode, or leaves the last mark as it was. */
  lemma LastMarkExtended(promotion: bool, actions: seq<Action>, mark: (int, string))
    requires actions != []
    ensures var n := |actions| - 1; var init := actions[..n];
      (exists k: nat :: LastMarkInEpisode(promotion, actions, k, mark)) <==>
        if Mark(promotion, actions[n]).Some? && History(init).Some? then Mark(promotion, actions[n]) == Some(mark)
        else Mark(promotion, actions[n]).None? && !StartsEpisode(actions, n)
             && exists k: nat :: LastMarkInEpisode(promotion, init, k, mark)
  {
    var n := |actions| - 1;
    var init := actions[..n];
    StoredIffDelivered(init);
    if k: nat :| LastMarkInEpisode(promotion, actions, k, mark) {
      LastMarkOfPrefix(promotion, actions, k, mark);
    }
    if Mark(promotion, actions[n]) == Some(mark) && History(init).Some? {
      var j :| 0 <= j < |init| && init[j].Deliver?;
      assert actions[j].Deliver?;
      assert LastMarkInEpisode(promotion, actions, n, mark);
    }
    if Mark(promotion, actions[n]).None? && !StartsEpisode(actions, n) {
      if k: nat :| LastMarkInEpisode(promotion, init, k, mark) {
        LastMarkKept(promotion, actions, k, mark);
      }
    }
  }

  lemma LastMarkOfPrefix(promotion: bool, actions: seq<Action>, k: nat, mark: (int, string))
    requires LastMarkInEpisode(promotion, actions, k, mark)
    ensures var n := |actions| - 1; var init := actions[..n];
      if k == n then Mark(promotion, actions[n]) == Some(mark) && exists j :: 0 <= j < |init| && init[j].Deliver?
      else LastMarkInEpisode(promotion, init, k, mark)
  {
    var n := |actions| - 1;
    var init := actions[..n];
    var j :| 0 <= j < k && actions[j].Deliver?;
    assert init[j].Deliver?;
    if k < n {
      forall i | k < i < n
        ensures !StartsEpisode(init, i) && Mark(promotion, init[i]).None?
      {
        EpisodeOfPrefix(actions, n, i);
      }
    }
  }

  lemma LastMarkKept(promotion: bool, actions: seq<Action>, k: nat, mark: (int, string))
    requires actions != []
    requires var n := |actions| - 1;
      LastMarkInEpisode(promotion, actions[..n], k, mark) && Mark(promotion, actions[n]).None? && !StartsEpisode(actions, n)
    ensures LastMarkInEpisode(promotion, actions, k, mark)
  {
    var n := |actions| - 1;
    var init := actions[..n];
    var j :| 0 <= j < k && init[j].Deliver?;
    assert actions[j].Deliver?;
    forall i | k < i < |actions|
      ensures !StartsEpisode(actions, i) && Mark(promotion, actions[i]).None?
    {
      if i < n {
        EpisodeOfPrefix(actions, n, i);
        assert init[i] == actions[i];
      }
    }
  }

  /**
   * The event is acknowledged (promoted), by whom and when, exactly as the last such
   * action on an existing row says that follows the last change of incident.
   */
  lemma {:induction false} MarkedIffInEpisode(promotion: bool, actions: seq<Action>, mark: (int, string))
    ensures History(actions).Some? && Marked(promotion, History(actions).value) == Some(mark)
        <==> exists k: nat :: LastMarkInEpisode(promotion, actions, k, mark)
  {
    if actions != [] {
      var n := |actions| - 1;
      var init := actions[..n];
      MarkedIffInEpisode(promotion, init, mark);
      StoredIncident(init);
      LastMarkExtended(promotion, actions, mark);
    }
  }

  /** Between two moments no delivery names another incident. */
  ghost predicate SameEpisode(actions: seq<Action>, n: nat, m: nat)
    requires n <= m <= |actions|
  {
    forall j :: n <= j < m ==> !StartsEpisode(actions, j)
  }

  /**
   * Over any stretch of a history: a resolved event is reopened, and an
   * acknowledgement or promotion is cleared, only by a change of incident.
   */
  lemma {:induction false} OnlyNewIncidentReopens(actions: seq<Action>, n: nat, m: nat)
    requires n <= m <= |actions| && SameEpisode(actions, n, m) && History(actions[..n]).Some?
    ensures History(actions[..m]).Some?
    ensures var a, b := History(actions[..n]).value, History(actions[..m]).value;
      && (a.status == RESOLVED ==> b.status == RESOLVED)
      && (a.acknowledged.Some? ==> b.acknowledged.Some?)
      && (a.promoted.Some? ==> b.promoted.Some?)
  {
    if n < m {
      OnlyNewIncidentReopens(actions, n, m - 1);
      assert actions[..m][..m - 1] == actions[..m - 1];
      assert !StartsEpisode(actions, m - 1);
      StoredIncident(actions[..m - 1]);
    }
  }

  /** Once an incident is named the event always has one. */
  lemma {:induction false} IncidentStays(actions: seq<Action>, n: nat)
    requires n <= |actions| && History(actions[..n]).Some? && History(actions[..n]).value.incidentId.Some?
    ensures History(actions).Some? && History(actions).value.incidentId.Some?
  {
    if n == |actions| {
      assert actions[..n] == actions;
    } else {
      assert actions[..|actions| - 1][..n] == actions[..n];
      IncidentStays(actions[..|actions| - 1], n);
    }
  }

  /** All deliveries that name an incident name this one. */
  predicate OneIncident(actions: seq<Action>, incident: string) {
    forall k :: 0 <= k < |actions| && actions[k].Deliver? && actions[k].d.incidentId.Some? ==>
      actions[k].d.incidentId.value == incident
  }

  lemma {:induction false} LastIncidentIsOne(actions: seq<Action>, incident: string)
    requires OneIncident(actions, incident)
    ensures LastIncident(actions).Some? ==> LastIncident(actions).value == incident
  {
    if actions != [] {
      LastIncidentIsOne(actions[..|actions| - 1], incident);
    }
  }

  /** When deliveries name at most one incident, the event ends resolved exactly when some delivery was resolved. */
  lemma OneIncidentStaysResolved(actions: seq<Action>, incident: string)
    requires OneIncident(actions, incident)
    ensures History(actions).Some? && History(actions).value.status == RESOLVED
        <==> exists k :: 0 <= k < |actions| && actions[k].Deliver? && actions[k].d.status == RESOLVED
  {
    ResolvedIffEpisodeResolved(actions);
    forall k | 0 <= k < |actions|
      ensures !StartsEpisode(actions, k)
    {
      LastIncidentIsOne(actions[..k], incident);
    }
    if k :| 0 <= k < |actions| && actions[k].Deliver? && actions[k].d.status == RESOLVED {
      assert ResolvedInEpisode(actions, k);
    }
  }
}
