/** The alerting engine object: its rules, its live map of alerts, and the
    statements it issues against the store. */
module Alerting {
  import opened Db
  import opened Ordering
  import opened AlertingCycle
  import Metrics

  /** Milliseconds in an hour. */
  const HOUR_MS: int := 60 * 60 * 1000

  function IsActiveRow(a: Alert): bool { a.status == Active }

  /** Sort key for `ORDER BY triggered_at DESC`. */
  function LatestTriggered(a: Alert): int { -a.triggeredAt }

  /** Sort key for `ORDER BY started_at DESC`. */
  function LatestStarted(i: Incident): int { -i.startedAt }

  /** `getActiveAlerts`: the rows of `alerts` whose status is active, most
      recently triggered first. */
  function ActiveAlerts(rows: seq<Alert>): (r: seq<Alert>)
    ensures forall x :: multiset(r)[x] == if x.status == Active then multiset(rows)[x] else 0
    ensures forall i, j | 0 <= i < j < |r| :: r[i].triggeredAt >= r[j].triggeredAt
  {
    var r := SortBy(Filter(rows, IsActiveRow), LatestTriggered);
    SortByCorrect(Filter(rows, IsActiveRow), LatestTriggered);
    FilterContents(rows, IsActiveRow);
    assert forall i, j | 0 <= i < j < |r| :: LatestTriggered(r[i]) <= LatestTriggered(r[j]);
    r
  }

  /** The cut-off of `getRecentIncidents(hours)`. */
  function IncidentCutoff(hours: int, now: int): int { now - hours * HOUR_MS }

  /** `getRecentIncidents(hours)`: the incidents started after the cut-off,
      most recent first. */
  function RecentIncidents(rows: seq<Incident>, hours: int, now: int): (r: seq<Incident>)
    ensures forall x :: multiset(r)[x] == if x.startedAt > IncidentCutoff(hours, now) then multiset(rows)[x] else 0
    ensures forall i, j | 0 <= i < j < |r| :: r[i].startedAt >= r[j].startedAt
  {
    var cutoff := IncidentCutoff(hours, now);
    var recent := (x: Incident) => x.startedAt > cutoff;
    var r := SortBy(Filter(rows, recent), LatestStarted);
    SortByCorrect(Filter(rows, recent), LatestStarted);
    FilterContents(rows, recent);
    assert forall i, j | 0 <= i < j < |r| :: LatestStarted(r[i]) <= LatestStarted(r[j]);
    r
  }

  /** A reconnection that fires after the stale-feed alert has resolved
      finds no open incident of it: the closed rows are left as they are. */
  lemma ReconnectionAfterResolution(rows: seq<Incident>, at: int, mttd: real, mttr: real)
    ensures var closed := CloseIncidentRows(rows, STALE_FEED, at, mttd, mttr);
            RemediateIncidentRows(closed, STALE_FEED, ReconnectionDone().action, ReconnectionDone().status) == closed
  {
    var closed := CloseIncidentRows(rows, STALE_FEED, at, mttd, mttr);
    var r := RemediateIncidentRows(closed, STALE_FEED, ReconnectionDone().action, ReconnectionDone().status);
    forall i | 0 <= i < |closed| ensures r[i] == closed[i] {
      assert closed[i].alertId == STALE_FEED ==> closed[i].status == IncidentResolved;
    }
  }

  /** An active row is listed by `getActiveAlerts`. */
  lemma ActiveRowListed(rows: seq<Alert>, a: Alert)
    requires a in rows && a.status == Active
    ensures a in ActiveAlerts(rows)
  {
    assert multiset(rows)[a] > 0;
    assert multiset(ActiveAlerts(rows))[a] > 0;
  }

  /** An incident started after the cut-off is listed by
      `getRecentIncidents`. */
  lemma RecentRowListed(rows: seq<Incident>, inc: Incident, hours: int, now: int)
    requires inc in rows && inc.startedAt > IncidentCutoff(hours, now)
    ensures inc in RecentIncidents(rows, hours, now)
  {
    assert multiset(rows)[inc] > 0;
    assert multiset(RecentIncidents(rows, hours, now))[inc] > 0;
  }

  /** After a completed cycle, `getActiveAlerts` lists every alert the
      cycle triggered, and `getRecentIncidents` with a positive window lists
      every incident it filed. */
  lemma CycleOutputIsListed(rules: seq<AlertRule>, t0: Tables, obs: Inputs, hours: int)
    requires DistinctIds(rules) && hours > 0
    ensures var c := Run(rules, Cycle(t0, [], None), obs);
            c.refused.None? ==>
              (forall k | 0 <= k < |c.triggered| ::
                 c.triggered[k] in ActiveAlerts(c.tables.alerts)
                 && FiledIncident(c.triggered[k], obs.now) in RecentIncidents(c.tables.incidents, hours, obs.now))
  {
    var c := Run(rules, Cycle(t0, [], None), obs);
    AppendedRows(rules, t0, obs);
    if c.refused.None? {
      forall k | 0 <= k < |c.triggered|
        ensures c.triggered[k] in ActiveAlerts(c.tables.alerts)
        ensures FiledIncident(c.triggered[k], obs.now) in RecentIncidents(c.tables.incidents, hours, obs.now)
      {
        var a := c.triggered[k];
        assert c.tables.alerts[|t0.alerts| + k] == a;
        ActiveRowListed(c.tables.alerts, a);
        assert c.tables.incidents[|t0.incidents| + k] == FiledIncident(a, obs.now);
        RecentRowListed(c.tables.incidents, FiledIncident(a, obs.now), hours, obs.now);
      }
    }
  }

  class AlertingEngine {
    const rules: seq<AlertRule>
    /** The live map `alert_id -> alert` kept between cycles. */
    var activeAlerts: map<string, Alert>
    const db: Database

    /** The engine's rules are the declared ones, every live entry is an
        active alert stored under its own id, and the store's alert ids are
        unique. */
    ghost predicate Valid()
      reads this, db
    {
      rules == Rules() && AllActive(activeAlerts) && UniqueAlertIds(db.alerts)
    }

    /** A new engine: the declared rules and an empty live map. */
    constructor (db: Database)
      requires UniqueAlertIds(db.alerts)
      ensures Valid() && activeAlerts == map[] && this.db == db
    {
      rules := Rules();
      activeAlerts := map[];
      this.db := db;
    }

    /** `checkAlerts`: evaluates the rules in order against the snapshot, the
        feed-health rows and the clock. The live map and the two tables end
        as the cycle function says, and the result is the triggered alerts,
        or the id whose insert the store refused (where the cycle stops). */
    method CheckAlerts(kpis: Metrics.KpiSnapshot, feeds: seq<FeedHealth>, now: int) returns (r: CheckResult)
      requires Valid()
      modifies this`activeAlerts, db`alerts, db`incidents
      ensures Valid()
      ensures var c := CheckCycle(Tables(old(activeAlerts), old(db.alerts), old(db.incidents)), Inputs(kpis, feeds, now));
              activeAlerts == c.tables.active && db.alerts == c.tables.alerts && db.incidents == c.tables.incidents
              && r == Outcome(c)
    {
      var obs := Inputs(kpis, feeds, now);
      ghost var c0 := Cycle(Tables(activeAlerts, db.alerts, db.incidents), [], None);
      var triggered: seq<Alert> := [];
      var i := 0;
      while i < |rules|
        invariant 0 <= i <= |rules|
        invariant Run(rules[..i], c0, obs) == Cycle(Tables(activeAlerts, db.alerts, db.incidents), triggered, None)
        invariant AllActive(activeAlerts)
      {
        ghost var before := Cycle(Tables(activeAlerts, db.alerts, db.incidents), [], None);
        RunPrefix(rules, i, c0, obs);
        StepAppends(Tables(activeAlerts, db.alerts, db.incidents), triggered, rules[i], obs);
        var refused, added := ApplyRule(rules[i], obs);
        StepKeepsUnique(before, rules[i], obs);
        if refused {
          RefusedStops(rules, i + 1, c0, obs);
          RunInvariants(rules, c0, obs);
          return DuplicateAlert(rules[i].alertId);
        }
        triggered := triggered + added;
        i := i + 1;
      }
      assert rules[..i] == rules;
      RunInvariants(rules, c0, obs);
      r := Triggered(triggered);
    }

    /** One pass of the loop in `checkAlerts`: a rule whose check holds and
        that has no live entry raises its alert (refused when the store
        already has the id), files the incident and remediates it; a rule
        whose check fails and whose live entry is active resolves it. */
    method ApplyRule(rule: AlertRule, obs: Inputs) returns (refused: bool, added: seq<Alert>)
      requires AllActive(activeAlerts)
      modifies this`activeAlerts, db`alerts, db`incidents
      ensures var c := Step(Cycle(Tables(old(activeAlerts), old(db.alerts), old(db.incidents)), [], None), rule, obs);
              activeAlerts == c.tables.active && db.alerts == c.tables.alerts && db.incidents == c.tables.incidents
              && refused == c.refused.Some? && added == c.triggered
              && (refused ==> c.refused == Some(rule.alertId))
    {
      refused := false;
      added := [];
      var isTriggered := Holds(rule.check, obs);
      if isTriggered && rule.alertId !in activeAlerts {
        var alert := NewAlert(rule, obs);
        var ok := db.InsertAlert(alert);
        if !ok {
          refused := true;
          return;
        }
        activeAlerts := activeAlerts[rule.alertId := alert];
        added := [alert];
        CreateIncident(alert, obs.now);
        var _ := AutoRemediate(alert);
      } else if !isTriggered && rule.alertId in activeAlerts && activeAlerts[rule.alertId].status == Active {
        var existing := activeAlerts[rule.alertId];
        db.ResolveAlert(rule.alertId, obs.now);
        ResolveIncident(existing, obs.now);
        activeAlerts := activeAlerts - {rule.alertId};
      }
    }

    /** `createIncident`: inserts the open incident of an alert. */
    method CreateIncident(alert: Alert, now: int)
      modifies db`incidents
      ensures db.incidents == old(db.incidents) + [OpenIncident(alert, now)]
    {
      var incidentId := Inc(now);
      db.InsertIncident(Incident(incidentId, alert.alertId, alert.name, alert.message, alert.severity, Open,
                                 None, None, alert.triggeredAt, None, None, None));
    }

    /** `resolveIncident`: closes the alert's unresolved incidents with the
        alert's MTTD and MTTR. */
    method ResolveIncident(alert: Alert, resolvedAt: int)
      modifies db`incidents
      ensures db.incidents == CloseIncidentRows(old(db.incidents), alert.alertId, resolvedAt, Mttd(alert), Mttr(alert, resolvedAt))
    {
      var mttd := 0.0;
      var mttr := 0.0;
      if alert.triggeredAt != 0 {
        var created := alert.triggeredAt;
        if alert.createdAt.Some? && alert.createdAt.value != 0 {
          created := alert.createdAt.value;
        }
        mttd := (alert.triggeredAt - created) as real / 1000.0;
        mttr := (resolvedAt - alert.triggeredAt) as real / 1000.0;
      }
      db.CloseIncidents(alert.alertId, resolvedAt, mttd, mttr);
    }

    /** `autoRemediate`: records the action chosen by the alert's id on its
        open incidents; for a stale feed it also schedules the reconnection
        (`CompleteFeedReconnection`), which it reports. */
    method AutoRemediate(alert: Alert) returns (reconnectionScheduled: bool)
      modifies db`incidents
      ensures reconnectionScheduled <==> alert.alertId == STALE_FEED
      ensures db.incidents == RemediateIncidentRows(old(db.incidents), alert.alertId,
                                                    RemediationPlan(alert.alertId).action, RemediationPlan(alert.alertId).status)
    {
      var action := "";
      var status := Pending;
      reconnectionScheduled := false;
      if alert.alertId == STALE_FEED {
        action := "Attempting automatic reconnection to market data feed";
        status := InProgress;
        reconnectionScheduled := true;
      } else if alert.alertId == HIGH_LATENCY {
        action := "Switching to backup order gateway";
        status := InProgress;
      } else if alert.alertId == RISK_BREACH {
        action := "KILL-SWITCH ACTIVATED: All trading halted";
        status := Completed;
      } else if alert.alertId == HIGH_REJECTS {
        action := "Reducing order rate by 50%";
        status := InProgress;
      }
      db.RemediateIncidents(alert.alertId, action, status);
    }

    /** The reconnection `autoRemediate` schedules for a stale feed, five
        seconds later: every open stale-feed incident is marked reconnected;
        closed incidents and those of other alerts are left alone. */
    method CompleteFeedReconnection()
      modifies db`incidents
      ensures db.incidents == RemediateIncidentRows(old(db.incidents), STALE_FEED,
                                                    ReconnectionDone().action, ReconnectionDone().status)
    {
      db.RemediateIncidents(STALE_FEED, "Feed reconnection successful", Completed);
    }

    /** `getActiveAlerts` */
    method GetActiveAlerts() returns (rows: seq<Alert>)
      ensures rows == ActiveAlerts(db.alerts)
    {
      rows := ActiveAlerts(db.alerts);
    }

    /** `getRecentIncidents(hours)`, against the clock reading `now`. */
    method GetRecentIncidents(hours: int, now: int) returns (rows: seq<Incident>)
      ensures rows == RecentIncidents(db.incidents, hours, now)
    {
      rows := RecentIncidents(db.incidents, hours, now);
    }
  }
}
