/** The records of the monitoring store and the statements the engines run
    against it.

    The store is an in-memory stand-in for the relational database: the
    `metrics` table is an append-only sequence, the `alerts` table a
    sequence whose `alert_id` column is unique, and the `incidents` table a
    sequence of rows. Every `UPDATE … WHERE …` statement the engines issue
    is a function from the old rows to the new ones. */
module Db {

  datatype Option<+T> = None | Some(value: T)

  datatype Severity = Critical | Warning | Info

  datatype ConditionType = Threshold | Stale | Rate

  datatype AlertStatus = Active | Resolved | Acknowledged

  datatype IncidentStatus = Open | Investigating | IncidentResolved

  datatype RemediationStatus = Pending | InProgress | Completed

  datatype FeedType = MarketData | OrderGateway

  datatype FeedStatus = Healthy | Degraded | Down

  /** One timestamped observation (a row of `metrics`). `metadata` is the
      already serialised JSON text, if any. */
  datatype Metric = Metric(
    timestamp: int,
    metricType: string,
    metricName: string,
    value: int,
    metadata: Option<string>)

  /** A row of `alerts`, also the value kept in the engine's live map. */
  datatype Alert = Alert(
    alertId: string,
    name: string,
    severity: Severity,
    conditionType: ConditionType,
    threshold: Option<int>,
    currentValue: real,
    status: AlertStatus,
    triggeredAt: int,
    resolvedAt: Option<int>,
    message: string,
    createdAt: Option<int>)

  /** `INC-<milliseconds>`: the id carries the clock reading it was made from. */
  datatype IncidentId = Inc(stamp: int)

  /** A row of `incidents`. `IncidentResolved` is the `resolved` value of
      the status column. */
  datatype Incident = Incident(
    incidentId: IncidentId,
    alertId: string,
    title: string,
    description: string,
    severity: Severity,
    status: IncidentStatus,
    remediationAction: Option<string>,
    remediationStatus: Option<RemediationStatus>,
    startedAt: int,
    resolvedAt: Option<int>,
    mttdSeconds: Option<real>,
    mttrSeconds: Option<real>)

  /** A row of `feed_health`. */
  datatype FeedHealth = FeedHealth(
    feedName: string,
    feedType: FeedType,
    lastHeartbeat: int,
    status: FeedStatus,
    latencyMs: Option<int>,
    messageCount: Option<int>,
    errorCount: Option<int>)

  /** Some row of `alerts` has this `alert_id`. */
  predicate HasAlertRow(rows: seq<Alert>, alertId: string) {
    exists i | 0 <= i < |rows| :: rows[i].alertId == alertId
  }

  /** The `UNIQUE` constraint on `alerts.alert_id`. */
  ghost predicate UniqueAlertIds(rows: seq<Alert>) {
    forall i, j | 0 <= i < j < |rows| :: rows[i].alertId != rows[j].alertId
  }

  /** `UPDATE alerts SET status = 'resolved', resolved_at = at WHERE alert_id = id` */
  function ResolveAlertRows(rows: seq<Alert>, alertId: string, at: int): (r: seq<Alert>)
    ensures |r| == |rows|
    ensures forall i | 0 <= i < |rows| ::
      r[i] == if rows[i].alertId == alertId
              then rows[i].(status := Resolved, resolvedAt := Some(at))
              else rows[i]
  {
    if rows == [] then []
    else
      var head := if rows[0].alertId == alertId
                  then rows[0].(status := Resolved, resolvedAt := Some(at))
                  else rows[0];
      [head] + ResolveAlertRows(rows[1..], alertId, at)
  }

  /** `UPDATE incidents SET status = 'resolved', resolved_at, mttd_seconds,
      mttr_seconds WHERE alert_id = id AND status != 'resolved'` */
  function CloseIncidentRows(rows: seq<Incident>, alertId: string, at: int, mttd: real, mttr: real): (r: seq<Incident>)
    ensures |r| == |rows|
    ensures forall i | 0 <= i < |rows| ::
      r[i] == if rows[i].alertId == alertId && rows[i].status != IncidentResolved
              then rows[i].(status := IncidentResolved, resolvedAt := Some(at),
                            mttdSeconds := Some(mttd), mttrSeconds := Some(mttr))
              else rows[i]
  {
    if rows == [] then []
    else
      var head := if rows[0].alertId == alertId && rows[0].status != IncidentResolved
                  then rows[0].(status := IncidentResolved, resolvedAt := Some(at),
                                mttdSeconds := Some(mttd), mttrSeconds := Some(mttr))
                  else rows[0];
      [head] + CloseIncidentRows(rows[1..], alertId, at, mttd, mttr)
  }

  /** `UPDATE incidents SET remediation_action, remediation_status
      WHERE alert_id = id AND status = 'open'` */
  function RemediateIncidentRows(rows: seq<Incident>, alertId: string, action: string, status: RemediationStatus): (r: seq<Incident>)
    ensures |r| == |rows|
    ensures forall i | 0 <= i < |rows| ::
      r[i] == if rows[i].alertId == alertId && rows[i].status == Open
              then rows[i].(remediationAction := Some(action), remediationStatus := Some(status))
              else rows[i]
  {
    if rows == [] then []
    else
      var head := if rows[0].alertId == alertId && rows[0].status == Open
                  then rows[0].(remediationAction := Some(action), remediationStatus := Some(status))
                  else rows[0];
      [head] + RemediateIncidentRows(rows[1..], alertId, action, status)
  }

  /** The store both engines share. */
  class Database {
    var metrics: seq<Metric>
    var alerts: seq<Alert>
    var incidents: seq<Incident>

    /** A store holding the given rows, as loaded from a previous session. */
    constructor Load(metrics: seq<Metric>, alerts: seq<Alert>, incidents: seq<Incident>)
      requires UniqueAlertIds(alerts)
      ensures this.metrics == metrics && this.alerts == alerts && this.incidents == incidents
    {
      this.metrics := metrics;
      this.alerts := alerts;
      this.incidents := incidents;
    }

    /** `INSERT INTO metrics …` */
    method InsertMetric(m: Metric)
      modifies this`metrics
      ensures metrics == old(metrics) + [m]
    {
      metrics := metrics + [m];
    }

    /** `INSERT INTO alerts …`; refused (`ok` false, nothing written) when a
        row with the same `alert_id` exists, as the unique column demands. */
    method InsertAlert(a: Alert) returns (ok: bool)
      modifies this`alerts
      ensures ok <==> !HasAlertRow(old(alerts), a.alertId)
      ensures alerts == if ok then old(alerts) + [a] else old(alerts)
      ensures UniqueAlertIds(old(alerts)) ==> UniqueAlertIds(alerts)
    {
      ok := !HasAlertRow(alerts, a.alertId);
      if ok {
        alerts := alerts + [a];
      }
    }

    method ResolveAlert(alertId: string, at: int)
      modifies this`alerts
      ensures alerts == ResolveAlertRows(old(alerts), alertId, at)
    {
      alerts := ResolveAlertRows(alerts, alertId, at);
    }

    /** `INSERT INTO incidents …` */
    method InsertIncident(inc: Incident)
      modifies this`incidents
      ensures incidents == old(incidents) + [inc]
    {
      incidents := incidents + [inc];
    }

    method CloseIncidents(alertId: string, at: int, mttd: real, mttr: real)
      modifies this`incidents
      ensures incidents == CloseIncidentRows(old(incidents), alertId, at, mttd, mttr)
    {
      incidents := CloseIncidentRows(incidents, alertId, at, mttd, mttr);
    }

    method RemediateIncidents(alertId: string, action: string, status: RemediationStatus)
      modifies this`incidents
      ensures incidents == RemediateIncidentRows(old(incidents), alertId, action, status)
    {
      incidents := RemediateIncidentRows(incidents, alertId, action, status);
    }
  }
}
