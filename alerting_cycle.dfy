/** The alerting engine's rules and one evaluation cycle, as functions.

    A cycle evaluates the four rules in their declared order against one KPI
    snapshot, the feed-health rows and one clock reading `now`. Per rule it
    either triggers (a new alert row, a live-map entry, an incident and its
    remediation), resolves (the alert row and the open incidents are closed
    and the live-map entry removed) or leaves everything as it is. The store
    refuses a second `alerts` row with the same `alert_id`; the insert then
    fails and the cycle stops at that rule with what it has written so far. */
module AlertingCycle {
  import opened Db
  import Metrics

  const STALE_FEED: string := "stale_feed"
  const HIGH_LATENCY: string := "high_latency"
  const HIGH_REJECTS: string := "high_rejects"
  const RISK_BREACH: string := "risk_breach"

  /** The condition a rule tests. */
  datatype Check =
    | StaleHeartbeat(limitMs: int)    // some feed: now - last_heartbeat > limitMs
    | P95Above(limitMs: int)          // latencyP95 > limitMs
    | RejectRateAbove(percent: real)  // rejectRate > percent
    | ExposureAbove(limit: int)       // positionExposure > limit

  datatype AlertRule = AlertRule(
    alertId: string,
    name: string,
    severity: Severity,
    conditionType: ConditionType,
    threshold: Option<int>,
    check: Check,
    message: string)

  /** `initializeRules`: the four rules, in evaluation order. */
  function Rules(): (r: seq<AlertRule>)
    ensures DistinctIds(r)
  {
    [ AlertRule(STALE_FEED, "Stale Market Data Feed", Critical, Stale, Some(3000),
                StaleHeartbeat(3000), "Market data feed has not sent heartbeat in over 3 seconds"),
      AlertRule(HIGH_LATENCY, "High Order Latency", Warning, Threshold, Some(100),
                P95Above(100), "Order latency P95 exceeds 100ms threshold"),
      AlertRule(HIGH_REJECTS, "High Reject Rate", Warning, Rate, Some(5),
                RejectRateAbove(5.0), "Order reject rate exceeds 5% baseline"),
      AlertRule(RISK_BREACH, "Risk Limit Breach", Critical, Threshold, Some(1000000),
                ExposureAbove(1000000), "Position exposure exceeds $1M risk limit") ]
  }

  /** What one cycle reads: the KPI snapshot, the feed-health rows and the
      clock. */
  datatype Inputs = Inputs(kpis: Metrics.KpiSnapshot, feeds: seq<FeedHealth>, now: int)

  /** No two rules share an id. */
  predicate DistinctIds(rules: seq<AlertRule>) {
    forall i, j | 0 <= i < j < |rules| :: rules[i].alertId != rules[j].alertId
  }

  /** The declared rules have distinct ids, and each one's check compares
      against the rule's own threshold. */
  lemma RulesWellFormed()
    ensures DistinctIds(Rules())
    ensures forall r | r in Rules() :: r.threshold.Some? && ThresholdOf(r.check) == r.threshold.value as real
  {
  }

  /** The limit a check compares with. */
  function ThresholdOf(c: Check): real {
    match c
    case StaleHeartbeat(l) => l as real
    case P95Above(l) => l as real
    case RejectRateAbove(l) => l
    case ExposureAbove(l) => l as real
  }

  /** Some feed's last heartbeat is more than `limitMs` before `now`. */
  predicate AnyStale(feeds: seq<FeedHealth>, now: int, limitMs: int) {
    exists i | 0 <= i < |feeds| :: now - feeds[i].lastHeartbeat > limitMs
  }

  /** A rule's `checkFn`. */
  predicate Holds(c: Check, obs: Inputs) {
    match c
    case StaleHeartbeat(l) => AnyStale(obs.feeds, obs.now, l)
    case P95Above(l) => obs.kpis.latencyP95 > l
    case RejectRateAbove(l) => obs.kpis.rejectRate > l
    case ExposureAbove(l) => obs.kpis.positionExposure > l
  }

  /** `feedHealth.reduce((max, feed) => Math.max(max, now - feed.last_heartbeat), acc)` */
  function MaxStaleness(feeds: seq<FeedHealth>, now: int, acc: int): (r: int)
    ensures r >= acc
    ensures forall i | 0 <= i < |feeds| :: r >= now - feeds[i].lastHeartbeat
    ensures r == acc || exists i | 0 <= i < |feeds| :: r == now - feeds[i].lastHeartbeat
  {
    if feeds == [] then acc
    else
      var next := if now - feeds[0].lastHeartbeat > acc then now - feeds[0].lastHeartbeat else acc;
      var r := MaxStaleness(feeds[1..], now, next);
      assert r == next || exists i | 0 <= i < |feeds| :: r == now - feeds[i].lastHeartbeat by {
        if r != next {
          var i :| 0 <= i < |feeds[1..]| && r == now - feeds[1..][i].lastHeartbeat;
          assert r == now - feeds[i + 1].lastHeartbeat;
        }
      }
      r
  }

  /** `getCurrentValue`: the observed quantity a rule is about, chosen by
      the rule's id; 0 for an id it does not know. */
  function CurrentValue(alertId: string, obs: Inputs): (r: real)
    ensures alertId == STALE_FEED ==> r >= 0.0
  {
    if alertId == HIGH_LATENCY then obs.kpis.latencyP95 as real
    else if alertId == HIGH_REJECTS then obs.kpis.rejectRate
    else if alertId == RISK_BREACH then obs.kpis.positionExposure as real
    else if alertId == STALE_FEED then MaxStaleness(obs.feeds, obs.now, 0) as real
    else 0.0
  }

  /** The stale-feed check holds exactly when the largest staleness (seeded
      with 0) exceeds the limit, for a non-negative limit. */
  lemma StaleIffMaxAbove(feeds: seq<FeedHealth>, now: int, limitMs: nat)
    ensures AnyStale(feeds, now, limitMs) <==> MaxStaleness(feeds, now, 0) > limitMs
  {
  }

  /** For every declared rule the check is a strict comparison of the
      rule's current value with its threshold: it holds exactly when the
      value is above the threshold, and not when the value equals it. */
  lemma HoldsIffValueAbove(obs: Inputs)
    ensures forall r | r in Rules() ::
      Holds(r.check, obs) <==> CurrentValue(r.alertId, obs) > ThresholdOf(r.check)
  {
    StaleIffMaxAbove(obs.feeds, obs.now, 3000);
  }

  /** The alert a triggering rule creates. */
  function NewAlert(rule: AlertRule, obs: Inputs): Alert {
    Alert(rule.alertId, rule.name, rule.severity, rule.conditionType, rule.threshold,
          CurrentValue(rule.alertId, obs), Active, obs.now, None, rule.message, None)
  }

  /** `createIncident`: the incident row opened for an alert; its id carries
      the clock reading. */
  function OpenIncident(a: Alert, now: int): Incident {
    Incident(Inc(now), a.alertId, a.name, a.message, a.severity, Open,
             None, None, a.triggeredAt, None, None, None)
  }

  datatype Remediation = Remediation(action: string, status: RemediationStatus)

  /** The action `autoRemediate` attaches for an alert id. */
  function RemediationPlan(alertId: string): Remediation
  {
    if alertId == STALE_FEED then Remediation("Attempting automatic reconnection to market data feed", InProgress)
    else if alertId == HIGH_LATENCY then Remediation("Switching to backup order gateway", InProgress)
    else if alertId == RISK_BREACH then Remediation("KILL-SWITCH ACTIVATED: All trading halted", Completed)
    else if alertId == HIGH_REJECTS then Remediation("Reducing order rate by 50%", InProgress)
    else Remediation("", Pending)
  }

  /** Only the risk breach is remediated at once; the four declared ids get
      an action, and any other id is left pending with no action. */
  lemma RemediationKinds(alertId: string)
    ensures RemediationPlan(alertId).status == Completed <==> alertId == RISK_BREACH
    ensures RemediationPlan(alertId).status == Pending <==> RemediationPlan(alertId).action == ""
    ensures RemediationPlan(alertId).status == Pending <==>
      alertId != STALE_FEED && alertId != HIGH_LATENCY && alertId != HIGH_REJECTS && alertId != RISK_BREACH
  {
  }

  /** The update the delayed stale-feed callback applies. */
  function ReconnectionDone(): Remediation {
    Remediation("Feed reconnection successful", Completed)
  }

  /** The incident row an alert leaves behind once opened and remediated in
      the same cycle. */
  function FiledIncident(a: Alert, now: int): Incident {
    var plan := RemediationPlan(a.alertId);
    OpenIncident(a, now).(remediationAction := Some(plan.action), remediationStatus := Some(plan.status))
  }

  /** JavaScript truthiness of a number: 0 is false. */
  predicate Truthy(x: int) { x != 0 }

  /** Mean time to detect, in seconds: `(triggered_at - (created_at ||
      triggered_at)) / 1000` when `triggered_at` is truthy, else 0. */
  function Mttd(a: Alert): (r: real)
    ensures a.createdAt.None? ==> r == 0.0
  {
    if !Truthy(a.triggeredAt) then 0.0
    else
      var created := if a.createdAt.Some? && Truthy(a.createdAt.value) then a.createdAt.value else a.triggeredAt;
      (a.triggeredAt - created) as real / 1000.0
  }

  /** Mean time to resolve, in seconds: `(resolvedAt - triggered_at) / 1000`
      when `triggered_at` is truthy, else 0. */
  function Mttr(a: Alert, resolvedAt: int): (r: real)
    ensures Truthy(a.triggeredAt) ==> r * 1000.0 == (resolvedAt - a.triggeredAt) as real
    ensures !Truthy(a.triggeredAt) ==> r == 0.0
  {
    if !Truthy(a.triggeredAt) then 0.0 else (resolvedAt - a.triggeredAt) as real / 1000.0
  }

  /** An alert built by the engine carries no `created_at`, so its MTTD is 0;
      its MTTR is the elapsed time in seconds, never negative when the clock
      has not gone back. */
  lemma EngineAlertTimes(rule: AlertRule, obs: Inputs, resolvedAt: int)
    requires obs.now <= resolvedAt
    ensures Mttd(NewAlert(rule, obs)) == 0.0
    ensures Mttr(NewAlert(rule, obs), resolvedAt) >= 0.0
    ensures obs.now != 0 ==> Mttr(NewAlert(rule, obs), resolvedAt) * 1000.0 == (resolvedAt - obs.now) as real
  {
  }

  /** The state a cycle reads and writes: the live map and two tables. */
  datatype Tables = Tables(active: map<string, Alert>, alerts: seq<Alert>, incidents: seq<Incident>)

  /** The state after some rules of a cycle: the tables, the alerts
      triggered so far, and the id whose insert the store refused, if any. */
  datatype Cycle = Cycle(tables: Tables, triggered: seq<Alert>, refused: Option<string>)

  /** What `checkAlerts` reports: the triggered alerts, or the rejected
      insert. */
  datatype CheckResult = Triggered(alerts: seq<Alert>) | DuplicateAlert(alertId: string)

  function Outcome(c: Cycle): CheckResult {
    if c.refused.Some? then DuplicateAlert(c.refused.value) else Triggered(c.triggered)
  }

  /** The rule triggers: its check holds and the live map has no entry. */
  predicate Triggers(rule: AlertRule, active: map<string, Alert>, obs: Inputs) {
    Holds(rule.check, obs) && rule.alertId !in active
  }

  /** The rule resolves: its check fails and the live entry is active. */
  predicate Resolves(rule: AlertRule, active: map<string, Alert>, obs: Inputs) {
    !Holds(rule.check, obs) && rule.alertId in active && active[rule.alertId].status == Active
  }

  /** One iteration of the loop over the rules. */
  function Step(c: Cycle, rule: AlertRule, obs: Inputs): Cycle {
    var t := c.tables;
    if c.refused.Some? then c
    else if Triggers(rule, t.active, obs) then
      var a := NewAlert(rule, obs);
      if HasAlertRow(t.alerts, a.alertId) then c.(refused := Some(a.alertId))
      else
        var plan := RemediationPlan(a.alertId);
        Cycle(Tables(t.active[a.alertId := a], t.alerts + [a],
                     RemediateIncidentRows(t.incidents + [OpenIncident(a, obs.now)], a.alertId, plan.action, plan.status)),
              c.triggered + [a], None)
    else if Resolves(rule, t.active, obs) then
      var existing := t.active[rule.alertId];
      Cycle(Tables(t.active - {rule.alertId}, ResolveAlertRows(t.alerts, rule.alertId, obs.now),
                   CloseIncidentRows(t.incidents, rule.alertId, obs.now, Mttd(existing), Mttr(existing, obs.now))),
            c.triggered, None)
    else c
  }

  /** The cycle after the rules `rules`, in order, starting from `c`. */
  function Run(rules: seq<AlertRule>, c: Cycle, obs: Inputs): Cycle
    decreases |rules|
  {
    if rules == [] then c
    else Step(Run(rules[..|rules| - 1], c, obs), rules[|rules| - 1], obs)
  }

  /** The cycle `checkAlerts` runs from the given live map and tables. */
  function CheckCycle(t: Tables, obs: Inputs): Cycle {
    Run(Rules(), Cycle(t, [], None), obs)
  }

  /** The ids of those `rules` that resolve against the live map `active`. */
  function ResolvedIds(rules: seq<AlertRule>, active: map<string, Alert>, obs: Inputs): set<string>
    decreases |rules|
  {
    if rules == [] then {}
    else
      var last := rules[|rules| - 1];
      var before := ResolvedIds(rules[..|rules| - 1], active, obs);
      if Resolves(last, active, obs) then before + {last.alertId} else before
  }

  /** The ids of those `rules` that trigger against the live map `active`. */
  function TriggeredIds(rules: seq<AlertRule>, active: map<string, Alert>, obs: Inputs): set<string>
    decreases |rules|
  {
    if rules == [] then {}
    else
      var last := rules[|rules| - 1];
      var before := TriggeredIds(rules[..|rules| - 1], active, obs);
      if Triggers(last, active, obs) then before + {last.alertId} else before
  }

  /** The alerts of the rules that trigger against `active`, in rule order. */
  function NewlyTriggered(rules: seq<AlertRule>, active: map<string, Alert>, obs: Inputs): seq<Alert>
    decreases |rules|
  {
    if rules == [] then []
    else
      var last := rules[|rules| - 1];
      var before := NewlyTriggered(rules[..|rules| - 1], active, obs);
      if Triggers(last, active, obs) then before + [NewAlert(last, obs)] else before
  }

  /** `a` is the alert some rule of `rules` creates when it triggers. */
  ghost predicate FromTriggeringRule(a: Alert, rules: seq<AlertRule>, active: map<string, Alert>, obs: Inputs) {
    exists j | 0 <= j < |rules| :: Triggers(rules[j], active, obs) && a == NewAlert(rules[j], obs)
  }

  /** Membership in the id sets is decided rule by rule, and every newly
      triggered alert is the alert of a triggering rule. */
  lemma {:induction false} IdsSpec(rules: seq<AlertRule>, active: map<string, Alert>, obs: Inputs)
    ensures forall id :: id in ResolvedIds(rules, active, obs) <==>
      exists j | 0 <= j < |rules| :: rules[j].alertId == id && Resolves(rules[j], active, obs)
    ensures forall id :: id in TriggeredIds(rules, active, obs) <==>
      exists j | 0 <= j < |rules| :: rules[j].alertId == id && Triggers(rules[j], active, obs)
    ensures forall k | 0 <= k < |NewlyTriggered(rules, active, obs)| ::
      FromTriggeringRule(NewlyTriggered(rules, active, obs)[k], rules, active, obs)
    decreases |rules|
  {
    if rules != [] {
      var p := rules[..|rules| - 1];
      IdsSpec(p, active, obs);
      var nt := NewlyTriggered(rules, active, obs);
      forall k | 0 <= k < |nt| ensures FromTriggeringRule(nt[k], rules, active, obs) {
        if k < |NewlyTriggered(p, active, obs)| {
          assert FromTriggeringRule(NewlyTriggered(p, active, obs)[k], p, active, obs);
          var j :| 0 <= j < |p| && Triggers(p[j], active, obs) && NewlyTriggered(p, active, obs)[k] == NewAlert(p[j], obs);
          assert rules[j] == p[j];
        } else {
          var j := |rules| - 1;
          assert Triggers(rules[j], active, obs) && nt[k] == NewAlert(rules[j], obs);
        }
      }
    }
  }

  /** The alert row after a cycle that resolved the ids `resolved`. */
  function AlertRowAfter(row: Alert, resolved: set<string>, now: int): (r: Alert)
    ensures r.alertId == row.alertId
  {
    if row.alertId in resolved then row.(status := Resolved, resolvedAt := Some(now)) else row
  }

  /** The incident row after a cycle that resolved the ids `resolved` (with
      the live entries `active` they had) and triggered the ids `triggered`:
      an unresolved incident of a resolved alert is closed with its MTTD and
      MTTR, an open incident of a triggered alert gets the alert's
      remediation, and a resolved incident stays as it is. */
  function IncidentRowAfter(row: Incident, resolved: set<string>, triggered: set<string>,
                            active: map<string, Alert>, now: int): (r: Incident)
    ensures r.alertId == row.alertId
    ensures row.status == IncidentResolved ==> r == row
  {
    if row.alertId in resolved && row.alertId in active && row.status != IncidentResolved then
      var e := active[row.alertId];
      row.(status := IncidentResolved, resolvedAt := Some(now), mttdSeconds := Some(Mttd(e)), mttrSeconds := Some(Mttr(e, now)))
    else if row.alertId in triggered && row.status == Open then
      var plan := RemediationPlan(row.alertId);
      row.(remediationAction := Some(plan.action), remediationStatus := Some(plan.status))
    else row
  }

  /** The alerts table after a cycle: the rows it started with (`a0`), those
      of the `resolved` ids marked resolved, followed by the `triggered`
      alerts. */
  ghost predicate AlertsShape(a0: seq<Alert>, resolved: set<string>, now: int, triggered: seq<Alert>, alerts: seq<Alert>) {
    |alerts| == |a0| + |triggered|
    && (forall i | 0 <= i < |a0| :: alerts[i] == AlertRowAfter(a0[i], resolved, now))
    && (forall k | 0 <= k < |triggered| :: alerts[|a0| + k] == triggered[k])
  }

  /** The incidents table after a cycle: the rows it started with (`i0`),
      updated as `IncidentRowAfter` says, followed by one filed incident per
      triggered alert. */
  ghost predicate IncidentsShape(i0: seq<Incident>, resolved: set<string>, triggeredIds: set<string>,
                                 active0: map<string, Alert>, now: int, triggered: seq<Alert>, incidents: seq<Incident>) {
    |incidents| == |i0| + |triggered|
    && (forall i | 0 <= i < |i0| :: incidents[i] == IncidentRowAfter(i0[i], resolved, triggeredIds, active0, now))
    && (forall k | 0 <= k < |triggered| :: incidents[|i0| + k] == FiledIncident(triggered[k], now))
  }

  /** The live map after a cycle: the entries it started with (`active0`)
      less the resolved ids, plus the triggered alerts. */
  ghost predicate ActiveShape(active0: map<string, Alert>, resolved: set<string>, triggeredIds: set<string>,
                              triggered: seq<Alert>, active: map<string, Alert>) {
    (forall id :: id in active <==> (id in active0 && id !in resolved) || id in triggeredIds)
    && (forall id | id in active && id !in triggeredIds :: active[id] == active0[id])
    && (forall k | 0 <= k < |triggered| :: triggered[k].alertId in active && active[triggered[k].alertId] == triggered[k])
  }

  /** The cycle state `c` is the tables `t0` after resolving the ids
      `resolved` and triggering the alerts `triggered` (with ids
      `triggeredIds`) at time `now`. */
  ghost predicate Effect(t0: Tables, resolved: set<string>, triggeredIds: set<string>, triggered: seq<Alert>, now: int, c: Cycle) {
    c.triggered == triggered
    && AlertsShape(t0.alerts, resolved, now, triggered, c.tables.alerts)
    && IncidentsShape(t0.incidents, resolved, triggeredIds, t0.active, now, triggered, c.tables.incidents)
    && ActiveShape(t0.active, resolved, triggeredIds, triggered, c.tables.active)
  }

  /** What a cycle over `rules` that no insert failed leaves behind, stated
      against the tables `t0` it started from. */
  ghost predicate RunEffect(rules: seq<AlertRule>, t0: Tables, c: Cycle, obs: Inputs) {
    Effect(t0, ResolvedIds(rules, t0.active, obs), TriggeredIds(rules, t0.active, obs),
           NewlyTriggered(rules, t0.active, obs), obs.now, c)
  }

  lemma AlertsShapeTrigger(a0: seq<Alert>, resolved: set<string>, now: int, triggered: seq<Alert>, alerts: seq<Alert>, a: Alert)
    requires AlertsShape(a0, resolved, now, triggered, alerts)
    ensures AlertsShape(a0, resolved, now, triggered + [a], alerts + [a])
  {
  }

  lemma AlertsShapeResolve(a0: seq<Alert>, resolved: set<string>, now: int, triggered: seq<Alert>, alerts: seq<Alert>, id: string)
    requires AlertsShape(a0, resolved, now, triggered, alerts)
    requires id !in resolved && forall k | 0 <= k < |triggered| :: triggered[k].alertId != id
    ensures AlertsShape(a0, resolved + {id}, now, triggered, ResolveAlertRows(alerts, id, now))
  {
    var r := ResolveAlertRows(alerts, id, now);
    forall i | 0 <= i < |a0| ensures r[i] == AlertRowAfter(a0[i], resolved + {id}, now) {
      if a0[i].alertId == id { assert alerts[i] == a0[i]; }
    }
    forall k | 0 <= k < |triggered| ensures r[|a0| + k] == triggered[k] {
      assert alerts[|a0| + k] == triggered[k];
    }
  }

  /** Remediating the incidents of a fresh id leaves the rows of other ids
      as they are. */
  lemma RemediateOthers(rows: seq<Incident>, i: int, id: string, action: string, status: RemediationStatus)
    requires 0 <= i < |rows| && rows[i].alertId != id
    ensures RemediateIncidentRows(rows, id, action, status)[i] == rows[i]
  {
  }

  lemma IncidentsShapeTrigger(i0: seq<Incident>, resolved: set<string>, triggeredIds: set<string>,
                              active0: map<string, Alert>, now: int, triggered: seq<Alert>, incidents: seq<Incident>, a: Alert)
    requires IncidentsShape(i0, resolved, triggeredIds, active0, now, triggered, incidents)
    requires a.alertId !in resolved && a.alertId !in triggeredIds
    requires forall k | 0 <= k < |triggered| :: triggered[k].alertId != a.alertId
    ensures var plan := RemediationPlan(a.alertId);
            IncidentsShape(i0, resolved, triggeredIds + {a.alertId}, active0, now, triggered + [a],
                           RemediateIncidentRows(incidents + [OpenIncident(a, now)], a.alertId, plan.action, plan.status))
  {
    var plan := RemediationPlan(a.alertId);
    var grown := incidents + [OpenIncident(a, now)];
    var r := RemediateIncidentRows(grown, a.alertId, plan.action, plan.status);
    var T' := triggeredIds + {a.alertId};
    forall i | 0 <= i < |i0| ensures r[i] == IncidentRowAfter(i0[i], resolved, T', active0, now) {
      if i0[i].alertId != a.alertId {
        RemediateOthers(grown, i, a.alertId, plan.action, plan.status);
        assert grown[i] == incidents[i];
      } else {
        assert grown[i] == i0[i];
      }
    }
    forall k | 0 <= k < |triggered| ensures r[|i0| + k] == FiledIncident(triggered[k], now) {
      assert grown[|i0| + k] == FiledIncident(triggered[k], now);
      assert grown[|i0| + k].alertId == triggered[k].alertId;
      RemediateOthers(grown, |i0| + k, a.alertId, plan.action, plan.status);
    }
    assert grown[|i0| + |triggered|] == OpenIncident(a, now);
    assert r[|i0| + |triggered|] == FiledIncident(a, now);
  }

  /** Closing the incidents of one id leaves the rows of other ids as they
      are. */
  lemma CloseOthers(rows: seq<Incident>, i: int, id: string, at: int, mttd: real, mttr: real)
    requires 0 <= i < |rows| && rows[i].alertId != id
    ensures CloseIncidentRows(rows, id, at, mttd, mttr)[i] == rows[i]
  {
  }

  lemma IncidentsShapeResolve(i0: seq<Incident>, resolved: set<string>, triggeredIds: set<string>,
                              active0: map<string, Alert>, now: int, triggered: seq<Alert>, incidents: seq<Incident>, id: string)
    requires IncidentsShape(i0, resolved, triggeredIds, active0, now, triggered, incidents)
    requires id !in resolved && id !in triggeredIds && id in active0
    requires forall k | 0 <= k < |triggered| :: triggered[k].alertId != id
    ensures IncidentsShape(i0, resolved + {id}, triggeredIds, active0, now, triggered,
                           CloseIncidentRows(incidents, id, now, Mttd(active0[id]), Mttr(active0[id], now)))
  {
    var e := active0[id];
    var r := CloseIncidentRows(incidents, id, now, Mttd(e), Mttr(e, now));
    forall i | 0 <= i < |i0|
      ensures r[i] == IncidentRowAfter(i0[i], resolved + {id}, triggeredIds, active0, now)
    {
      if i0[i].alertId == id {
        assert incidents[i] == i0[i];
      } else {
        CloseOthers(incidents, i, id, now, Mttd(e), Mttr(e, now));
      }
    }
    forall k | 0 <= k < |triggered| ensures r[|i0| + k] == FiledIncident(triggered[k], now) {
      assert incidents[|i0| + k] == FiledIncident(triggered[k], now);
      assert incidents[|i0| + k].alertId == triggered[k].alertId;
      CloseOthers(incidents, |i0| + k, id, now, Mttd(e), Mttr(e, now));
    }
  }

  lemma ActiveShapeTrigger(active0: map<string, Alert>, resolved: set<string>, triggeredIds: set<string>,
                           triggered: seq<Alert>, active: map<string, Alert>, a: Alert)
    requires ActiveShape(active0, resolved, triggeredIds, triggered, active)
    requires a.alertId !in triggeredIds && forall k | 0 <= k < |triggered| :: triggered[k].alertId != a.alertId
    ensures ActiveShape(active0, resolved, triggeredIds + {a.alertId}, triggered + [a], active[a.alertId := a])
  {
    forall k | 0 <= k < |triggered| + 1
      ensures (triggered + [a])[k].alertId in active[a.alertId := a]
              && active[a.alertId := a][(triggered + [a])[k].alertId] == (triggered + [a])[k]
    {
      if k < |triggered| { assert (triggered + [a])[k] == triggered[k]; }
    }
  }

  lemma ActiveShapeResolve(active0: map<string, Alert>, resolved: set<string>, triggeredIds: set<string>,
                           triggered: seq<Alert>, active: map<string, Alert>, id: string)
    requires ActiveShape(active0, resolved, triggeredIds, triggered, active)
    requires id !in triggeredIds && forall k | 0 <= k < |triggered| :: triggered[k].alertId != id
    ensures ActiveShape(active0, resolved + {id}, triggeredIds, triggered, active - {id})
  {
  }

  /** Appending a rule extends the id sets and the triggered alerts by that
      rule's own decision against the starting live map. */
  lemma AppendRule(p: seq<AlertRule>, last: AlertRule, active: map<string, Alert>, obs: Inputs)
    ensures ResolvedIds(p + [last], active, obs)
            == if Resolves(last, active, obs) then ResolvedIds(p, active, obs) + {last.alertId} else ResolvedIds(p, active, obs)
    ensures TriggeredIds(p + [last], active, obs)
            == if Triggers(last, active, obs) then TriggeredIds(p, active, obs) + {last.alertId} else TriggeredIds(p, active, obs)
    ensures NewlyTriggered(p + [last], active, obs)
            == if Triggers(last, active, obs) then NewlyTriggered(p, active, obs) + [NewAlert(last, obs)] else NewlyTriggered(p, active, obs)
  {
    assert (p + [last])[..|p|] == p;
  }

  /** A rule whose id no earlier rule has sees the live map as the cycle
      found it, and no alert triggered so far carries its id. */
  lemma FreshRule(p: seq<AlertRule>, last: AlertRule, active0: map<string, Alert>, triggered: seq<Alert>,
                  active: map<string, Alert>, obs: Inputs)
    requires forall j | 0 <= j < |p| :: p[j].alertId != last.alertId
    requires triggered == NewlyTriggered(p, active0, obs)
    requires ActiveShape(active0, ResolvedIds(p, active0, obs), TriggeredIds(p, active0, obs), triggered, active)
    ensures last.alertId !in ResolvedIds(p, active0, obs) && last.alertId !in TriggeredIds(p, active0, obs)
    ensures forall k | 0 <= k < |triggered| :: triggered[k].alertId != last.alertId
    ensures Triggers(last, active, obs) <==> Triggers(last, active0, obs)
    ensures Resolves(last, active, obs) <==> Resolves(last, active0, obs)
    ensures last.alertId in active ==> active[last.alertId] == active0[last.alertId]
  {
    IdsSpec(p, active0, obs);
    forall k | 0 <= k < |triggered| ensures triggered[k].alertId != last.alertId {
      assert FromTriggeringRule(triggered[k], p, active0, obs);
    }
  }

  /** A triggering alert with a fresh id whose insert is accepted. */
  lemma EffectTrigger(t0: Tables, resolved: set<string>, triggeredIds: set<string>, triggered: seq<Alert>, now: int, c: Cycle, a: Alert)
    requires Effect(t0, resolved, triggeredIds, triggered, now, c)
    requires a.alertId !in resolved && a.alertId !in triggeredIds
    requires forall k | 0 <= k < |triggered| :: triggered[k].alertId != a.alertId
    ensures var plan := RemediationPlan(a.alertId);
            var t := c.tables;
            Effect(t0, resolved, triggeredIds + {a.alertId}, triggered + [a], now,
                   Cycle(Tables(t.active[a.alertId := a], t.alerts + [a],
                                RemediateIncidentRows(t.incidents + [OpenIncident(a, now)], a.alertId, plan.action, plan.status)),
                         triggered + [a], None))
  {
    var t := c.tables;
    AlertsShapeTrigger(t0.alerts, resolved, now, triggered, t.alerts, a);
    IncidentsShapeTrigger(t0.incidents, resolved, triggeredIds, t0.active, now, triggered, t.incidents, a);
    ActiveShapeTrigger(t0.active, resolved, triggeredIds, triggered, t.active, a);
  }

  /** A resolving rule with a fresh id that has a live entry. */
  lemma EffectResolve(t0: Tables, resolved: set<string>, triggeredIds: set<string>, triggered: seq<Alert>, now: int, c: Cycle, id: string)
    requires Effect(t0, resolved, triggeredIds, triggered, now, c)
    requires id !in resolved && id !in triggeredIds && id in t0.active
    requires forall k | 0 <= k < |triggered| :: triggered[k].alertId != id
    ensures var e := t0.active[id];
            var t := c.tables;
            Effect(t0, resolved + {id}, triggeredIds, triggered, now,
                   Cycle(Tables(t.active - {id}, ResolveAlertRows(t.alerts, id, now),
                                CloseIncidentRows(t.incidents, id, now, Mttd(e), Mttr(e, now))),
                         triggered, None))
  {
    var t := c.tables;
    AlertsShapeResolve(t0.alerts, resolved, now, triggered, t.alerts, id);
    IncidentsShapeResolve(t0.incidents, resolved, triggeredIds, t0.active, now, triggered, t.incidents, id);
    ActiveShapeResolve(t0.active, resolved, triggeredIds, triggered, t.active, id);
  }

  /** One more rule whose id is fresh and whose insert is not refused keeps
      the characterisation of the cycle. */
  lemma StepEffect(p: seq<AlertRule>, last: AlertRule, t0: Tables, cp: Cycle, obs: Inputs)
    requires forall j | 0 <= j < |p| :: p[j].alertId != last.alertId
    requires cp.refused.None? && RunEffect(p, t0, cp, obs)
    requires Step(cp, last, obs).refused.None?
    ensures RunEffect(p + [last], t0, Step(cp, last, obs), obs)
  {
    var R := ResolvedIds(p, t0.active, obs);
    var T := TriggeredIds(p, t0.active, obs);
    var nt := NewlyTriggered(p, t0.active, obs);
    FreshRule(p, last, t0.active, cp.triggered, cp.tables.active, obs);
    AppendRule(p, last, t0.active, obs);
    if Triggers(last, t0.active, obs) {
      EffectTrigger(t0, R, T, nt, obs.now, cp, NewAlert(last, obs));
    } else if Resolves(last, t0.active, obs) {
      EffectResolve(t0, R, T, nt, obs.now, cp, last.alertId);
    }
  }

  /** The characterisation of a whole cycle whose inserts all succeeded: the
      triggered alerts are those of the rules whose check holds and that have
      no live entry, in rule order; the alert and incident tables are the old
      rows updated for the resolved and triggered ids, followed by one new
      row per triggered alert; the live map loses the resolved ids and gains
      the triggered alerts. */
  lemma {:induction false} RunCharacterized(rules: seq<AlertRule>, t0: Tables, obs: Inputs)
    requires DistinctIds(rules)
    ensures var c := Run(rules, Cycle(t0, [], None), obs);
            c.refused.None? ==> RunEffect(rules, t0, c, obs)
    decreases |rules|
  {
    var c := Run(rules, Cycle(t0, [], None), obs);
    if rules == [] {
      assert AlertsShape(t0.alerts, {}, obs.now, [], t0.alerts);
      assert IncidentsShape(t0.incidents, {}, {}, t0.active, obs.now, [], t0.incidents);
    } else if c.refused.None? {
      var p := rules[..|rules| - 1];
      var last := rules[|rules| - 1];
      var cp := Run(p, Cycle(t0, [], None), obs);
      assert c == Step(cp, last, obs);
      RunCharacterized(p, t0, obs);
      assert p + [last] == rules;
      StepEffect(p, last, t0, cp, obs);
    }
  }

  /** Every entry of the live map is an active alert filed under its own
      id. */
  ghost predicate AllActive(active: map<string, Alert>) {
    forall id | id in active :: active[id].status == Active && active[id].alertId == id
  }

  /** `t2` keeps the history recorded in `t`: no row disappears or changes
      its ids, and a resolved incident stays exactly as it was. */
  ghost predicate Extends(t: Tables, t2: Tables) {
    |t.alerts| <= |t2.alerts| && |t.incidents| <= |t2.incidents|
    && (forall i | 0 <= i < |t.alerts| :: t2.alerts[i].alertId == t.alerts[i].alertId)
    && (forall i | 0 <= i < |t.incidents| ::
          t2.incidents[i].alertId == t.incidents[i].alertId
          && t2.incidents[i].incidentId == t.incidents[i].incidentId
          && (t.incidents[i].status == IncidentResolved ==> t2.incidents[i] == t.incidents[i]))
  }

  lemma ExtendsTrans(t1: Tables, t2: Tables, t3: Tables)
    requires Extends(t1, t2) && Extends(t2, t3)
    ensures Extends(t1, t3)
  {
  }

  /** One rule keeps the history. */
  lemma StepExtends(c: Cycle, rule: AlertRule, obs: Inputs)
    ensures Extends(c.tables, Step(c, rule, obs).tables)
  {
    var t := c.tables;
    if c.refused.None? && Triggers(rule, t.active, obs) && !HasAlertRow(t.alerts, rule.alertId) {
      var a := NewAlert(rule, obs);
      var plan := RemediationPlan(a.alertId);
      var grown := t.incidents + [OpenIncident(a, obs.now)];
      var r := RemediateIncidentRows(grown, a.alertId, plan.action, plan.status);
      forall i | 0 <= i < |t.incidents|
        ensures r[i].alertId == t.incidents[i].alertId && r[i].incidentId == t.incidents[i].incidentId
        ensures t.incidents[i].status == IncidentResolved ==> r[i] == t.incidents[i]
      {
        assert grown[i] == t.incidents[i];
      }
    }
  }

  /** One rule keeps the alert ids unique and the live map active. */
  lemma StepKeepsUnique(c: Cycle, rule: AlertRule, obs: Inputs)
    ensures UniqueAlertIds(c.tables.alerts) ==> UniqueAlertIds(Step(c, rule, obs).tables.alerts)
    ensures AllActive(c.tables.active) ==> AllActive(Step(c, rule, obs).tables.active)
  {
    var t := c.tables;
    if c.refused.None? && Triggers(rule, t.active, obs) && !HasAlertRow(t.alerts, rule.alertId) && UniqueAlertIds(t.alerts) {
      var alerts := t.alerts + [NewAlert(rule, obs)];
      forall i, j | 0 <= i < j < |alerts| ensures alerts[i].alertId != alerts[j].alertId {
        if j == |t.alerts| {
          assert alerts[i] == t.alerts[i];
        }
      }
    }
  }

  /** A cycle, refused or not, keeps the history, the uniqueness of alert ids
      and a live map of active alerts. */
  lemma {:induction false} RunInvariants(rules: seq<AlertRule>, c: Cycle, obs: Inputs)
    ensures Extends(c.tables, Run(rules, c, obs).tables)
    ensures UniqueAlertIds(c.tables.alerts) ==> UniqueAlertIds(Run(rules, c, obs).tables.alerts)
    ensures AllActive(c.tables.active) ==> AllActive(Run(rules, c, obs).tables.active)
    decreases |rules|
  {
    if rules != [] {
      var p := rules[..|rules| - 1];
      var cp := Run(p, c, obs);
      RunInvariants(p, c, obs);
      StepExtends(cp, rules[|rules| - 1], obs);
      StepKeepsUnique(cp, rules[|rules| - 1], obs);
      ExtendsTrans(c.tables, cp.tables, Run(rules, c, obs).tables);
    }
  }

  /** The id of the first of `rules` whose insert the store refuses: a rule
      that triggers against `active` although `alerts` already holds a row
      with its id. */
  function FirstRefusal(rules: seq<AlertRule>, active: map<string, Alert>, alerts: seq<Alert>, obs: Inputs): (r: Option<string>)
    ensures r.Some? ==> exists j | 0 <= j < |rules| :: rules[j].alertId == r.value
    decreases |rules|
  {
    if rules == [] then None
    else
      var p := rules[..|rules| - 1];
      var last := rules[|rules| - 1];
      var before := FirstRefusal(p, active, alerts, obs);
      if before.Some? then
        assert p[0] == rules[0];
        before
      else if Refuses(last, active, alerts, obs) then Some(last.alertId)
      else None
  }

  /** The store refuses the rule's insert: it triggers although the table
      already has a row with its id. */
  predicate Refuses(rule: AlertRule, active: map<string, Alert>, alerts: seq<Alert>, obs: Inputs) {
    Triggers(rule, active, obs) && HasAlertRow(alerts, rule.alertId)
  }

  /** `FirstRefusal` names the first refusing rule, and is `None` exactly
      when no rule refuses. */
  lemma {:induction false} FirstRefusalSpec(rules: seq<AlertRule>, active: map<string, Alert>, alerts: seq<Alert>, obs: Inputs)
    ensures FirstRefusal(rules, active, alerts, obs).None? <==>
      forall j | 0 <= j < |rules| :: !Refuses(rules[j], active, alerts, obs)
    ensures FirstRefusal(rules, active, alerts, obs).Some? ==>
      exists j | 0 <= j < |rules| :: rules[j].alertId == FirstRefusal(rules, active, alerts, obs).value
        && Refuses(rules[j], active, alerts, obs)
        && forall i | 0 <= i < j :: !Refuses(rules[i], active, alerts, obs)
    decreases |rules|
  {
    if rules != [] {
      var p := rules[..|rules| - 1];
      FirstRefusalSpec(p, active, alerts, obs);
      var f := FirstRefusal(rules, active, alerts, obs);
      if FirstRefusal(p, active, alerts, obs).Some? {
        var j :| 0 <= j < |p| && p[j].alertId == f.value && Refuses(p[j], active, alerts, obs)
                 && forall i | 0 <= i < j :: !Refuses(p[i], active, alerts, obs);
        assert rules[j] == p[j];
        forall i | 0 <= i < j ensures !Refuses(rules[i], active, alerts, obs) {
          assert rules[i] == p[i];
        }
      } else {
        forall j | 0 <= j < |rules| - 1 ensures !Refuses(rules[j], active, alerts, obs) {
          assert rules[j] == p[j];
        }
      }
    }
  }

  /** With a single triggering rule, the cycle's new alerts are that rule's
      alert alone. */
  lemma {:induction false} SingleTrigger(rules: seq<AlertRule>, active: map<string, Alert>, obs: Inputs, j0: nat)
    requires j0 < |rules| && Triggers(rules[j0], active, obs)
    requires forall j | 0 <= j < |rules| && j != j0 :: !Triggers(rules[j], active, obs)
    ensures NewlyTriggered(rules, active, obs) == [NewAlert(rules[j0], obs)]
    ensures TriggeredIds(rules, active, obs) == {rules[j0].alertId}
    decreases |rules|
  {
    var p := rules[..|rules| - 1];
    if j0 == |rules| - 1 {
      NoTrigger(p, active, obs);
    } else {
      SingleTrigger(p, active, obs, j0);
    }
  }

  /** With no triggering rule, the cycle has no new alerts. */
  lemma {:induction false} NoTrigger(rules: seq<AlertRule>, active: map<string, Alert>, obs: Inputs)
    requires forall j | 0 <= j < |rules| :: !Triggers(rules[j], active, obs)
    ensures NewlyTriggered(rules, active, obs) == []
    ensures TriggeredIds(rules, active, obs) == {}
    decreases |rules|
  {
    if rules != [] {
      NoTrigger(rules[..|rules| - 1], active, obs);
    }
  }

  /** For an id no triggered alert carries, the alerts table after the
      cycle has a row with that id exactly when the starting table had. */
  lemma AlertRowsFresh(a0: seq<Alert>, resolved: set<string>, now: int, triggered: seq<Alert>, alerts: seq<Alert>, id: string)
    requires AlertsShape(a0, resolved, now, triggered, alerts)
    requires forall k | 0 <= k < |triggered| :: triggered[k].alertId != id
    ensures HasAlertRow(alerts, id) <==> HasAlertRow(a0, id)
  {
    forall j | |a0| <= j < |alerts| ensures alerts[j].alertId != id {
      assert alerts[|a0| + (j - |a0|)] == triggered[j - |a0|];
    }
    if HasAlertRow(alerts, id) {
      var i :| 0 <= i < |alerts| && alerts[i].alertId == id;
      assert a0[i].alertId == id;
    }
    if HasAlertRow(a0, id) {
      var i :| 0 <= i < |a0| && a0[i].alertId == id;
      assert alerts[i].alertId == id;
    }
  }

  /** A cycle stops exactly at the first rule that triggers while the
      alerts table already holds a row with its id (a row the live map no
      longer knows, such as the resolved alert of an earlier episode). */
  lemma {:induction false} RefusedIsFirstRefusal(rules: seq<AlertRule>, t0: Tables, obs: Inputs)
    requires DistinctIds(rules)
    ensures Run(rules, Cycle(t0, [], None), obs).refused == FirstRefusal(rules, t0.active, t0.alerts, obs)
    decreases |rules|
  {
    if rules != [] {
      var p := rules[..|rules| - 1];
      var last := rules[|rules| - 1];
      var cp := Run(p, Cycle(t0, [], None), obs);
      RefusedIsFirstRefusal(p, t0, obs);
      if cp.refused.None? {
        RunCharacterized(p, t0, obs);
        var R := ResolvedIds(p, t0.active, obs);
        var T := TriggeredIds(p, t0.active, obs);
        FreshRule(p, last, t0.active, cp.triggered, cp.tables.active, obs);
        AlertRowsFresh(t0.alerts, R, obs.now, cp.triggered, cp.tables.alerts, last.alertId);
      }
    }
  }

  /** Every rule whose check holds and that has no live entry contributes
      its alert to the triggered alerts. */
  lemma {:induction false} NewlyTriggeredComplete(rules: seq<AlertRule>, active: map<string, Alert>, obs: Inputs)
    ensures forall j | 0 <= j < |rules| && Triggers(rules[j], active, obs) ::
      NewAlert(rules[j], obs) in NewlyTriggered(rules, active, obs)
    decreases |rules|
  {
    if rules != [] {
      var p := rules[..|rules| - 1];
      NewlyTriggeredComplete(p, active, obs);
      forall j | 0 <= j < |rules| - 1 && Triggers(rules[j], active, obs)
        ensures NewAlert(rules[j], obs) in NewlyTriggered(rules, active, obs)
      {
        assert rules[j] == p[j];
      }
    }
  }

  /** The alerts a completed cycle reports are exactly the new, active
      alerts of the rules whose check holds and that had no live entry:
      each carries the cycle's clock reading and the rule's current value. */
  lemma TriggeredAlerts(rules: seq<AlertRule>, t0: Tables, obs: Inputs)
    requires DistinctIds(rules)
    ensures var c := Run(rules, Cycle(t0, [], None), obs);
            c.refused.None? ==>
              (forall k | 0 <= k < |c.triggered| ::
                 c.triggered[k].status == Active && c.triggered[k].triggeredAt == obs.now
                 && c.triggered[k].alertId !in t0.active
                 && c.triggered[k].currentValue == CurrentValue(c.triggered[k].alertId, obs)
                 && FromTriggeringRule(c.triggered[k], rules, t0.active, obs))
              && (forall j | 0 <= j < |rules| && Triggers(rules[j], t0.active, obs) :: NewAlert(rules[j], obs) in c.triggered)
  {
    var c := Run(rules, Cycle(t0, [], None), obs);
    RunCharacterized(rules, t0, obs);
    IdsSpec(rules, t0.active, obs);
    NewlyTriggeredComplete(rules, t0.active, obs);
    if c.refused.None? {
      forall k | 0 <= k < |c.triggered|
        ensures c.triggered[k].status == Active && c.triggered[k].triggeredAt == obs.now
                && c.triggered[k].alertId !in t0.active
                && c.triggered[k].currentValue == CurrentValue(c.triggered[k].alertId, obs)
      {
        assert FromTriggeringRule(c.triggered[k], rules, t0.active, obs);
      }
    }
  }

  /** The cycle after the first `i + 1` rules is one step past the cycle
      after the first `i`. */
  lemma RunPrefix(rules: seq<AlertRule>, i: nat, c: Cycle, obs: Inputs)
    requires i < |rules|
    ensures Run(rules[..i + 1], c, obs) == Step(Run(rules[..i], c, obs), rules[i], obs)
  {
    assert rules[..i + 1][..i] == rules[..i];
  }

  /** A step does not depend on the alerts triggered before it: it appends
      its own. */
  lemma StepAppends(t: Tables, triggered: seq<Alert>, rule: AlertRule, obs: Inputs)
    ensures var c := Step(Cycle(t, [], None), rule, obs);
            Step(Cycle(t, triggered, None), rule, obs) == Cycle(c.tables, triggered + c.triggered, c.refused)
  {
  }

  /** Once an insert is refused, the remaining rules change nothing. */
  lemma {:induction false} RefusedStops(rules: seq<AlertRule>, k: nat, c: Cycle, obs: Inputs)
    requires k <= |rules| && Run(rules[..k], c, obs).refused.Some?
    ensures Run(rules, c, obs) == Run(rules[..k], c, obs)
    decreases |rules|
  {
    if k < |rules| {
      var p := rules[..|rules| - 1];
      assert p[..k] == rules[..k];
      RefusedStops(p, k, c, obs);
    } else {
      assert rules[..k] == rules;
    }
  }

  /** A completed cycle appends, per triggered alert and in order, the
      alert's row and its filed incident; each such alert is active and
      stamped with the cycle's clock reading. */
  lemma AppendedRows(rules: seq<AlertRule>, t0: Tables, obs: Inputs)
    requires DistinctIds(rules)
    ensures var c := Run(rules, Cycle(t0, [], None), obs);
            c.refused.None? ==>
              |c.tables.alerts| == |t0.alerts| + |c.triggered|
              && |c.tables.incidents| == |t0.incidents| + |c.triggered|
              && forall k | 0 <= k < |c.triggered| ::
                   c.tables.alerts[|t0.alerts| + k] == c.triggered[k]
                   && c.tables.incidents[|t0.incidents| + k] == FiledIncident(c.triggered[k], obs.now)
                   && c.triggered[k].status == Active && c.triggered[k].triggeredAt == obs.now
                   && c.tables.incidents[|t0.incidents| + k].status == Open
                   && c.tables.incidents[|t0.incidents| + k].startedAt == obs.now
                   && c.tables.incidents[|t0.incidents| + k].alertId == c.triggered[k].alertId
                   && c.tables.incidents[|t0.incidents| + k].title == c.triggered[k].name
                   && c.tables.incidents[|t0.incidents| + k].severity == c.triggered[k].severity
  {
    var c := Run(rules, Cycle(t0, [], None), obs);
    RunCharacterized(rules, t0, obs);
    TriggeredAlerts(rules, t0, obs);
    if c.refused.None? {
      forall k | 0 <= k < |c.triggered|
        ensures c.tables.incidents[|t0.incidents| + k] == FiledIncident(c.triggered[k], obs.now)
        ensures c.tables.incidents[|t0.incidents| + k].startedAt == obs.now
      {
        var a := c.triggered[k];
        assert a.triggeredAt == obs.now;
        assert FiledIncident(a, obs.now).startedAt == a.triggeredAt;
      }
    }
  }

  /** Re-trigger suppression: a rule whose check still holds and that
      already has a live entry raises no alert and files no incident; its
      live entry stays as it was. */
  lemma RetriggerSuppressed(rules: seq<AlertRule>, t0: Tables, obs: Inputs, j: nat)
    requires DistinctIds(rules) && j < |rules|
    requires Holds(rules[j].check, obs) && rules[j].alertId in t0.active
    ensures var c := Run(rules, Cycle(t0, [], None), obs);
            var id := rules[j].alertId;
            c.refused.None? ==>
              (forall k | 0 <= k < |c.triggered| :: c.triggered[k].alertId != id)
              && (forall k | |t0.alerts| <= k < |c.tables.alerts| :: c.tables.alerts[k].alertId != id)
              && (forall k | |t0.incidents| <= k < |c.tables.incidents| :: c.tables.incidents[k].alertId != id)
              && id in c.tables.active && c.tables.active[id] == t0.active[id]
  {
    var c := Run(rules, Cycle(t0, [], None), obs);
    var id := rules[j].alertId;
    TriggeredAlerts(rules, t0, obs);
    AppendedRows(rules, t0, obs);
    if c.refused.None? {
      RunCharacterized(rules, t0, obs);
      IdsSpec(rules, t0.active, obs);
      forall k | |t0.alerts| <= k < |c.tables.alerts| ensures c.tables.alerts[k].alertId != id {
        assert c.tables.alerts[|t0.alerts| + (k - |t0.alerts|)] == c.triggered[k - |t0.alerts|];
      }
      forall k | |t0.incidents| <= k < |c.tables.incidents| ensures c.tables.incidents[k].alertId != id {
        assert c.tables.incidents[|t0.incidents| + (k - |t0.incidents|)].alertId == c.triggered[k - |t0.incidents|].alertId;
      }
      assert id !in ResolvedIds(rules, t0.active, obs);
      assert id !in TriggeredIds(rules, t0.active, obs);
    }
  }

  /** `id` is the id of one of `rules`. */
  ghost predicate IsRuleId(rules: seq<AlertRule>, id: string) {
    exists j | 0 <= j < |rules| :: rules[j].alertId == id
  }

  /** After a completed cycle over distinct rules, starting from a live map
      of active alerts, a rule has a live entry exactly when its check
      holds; entries of ids no rule has are left as they were. */
  lemma ActiveIffHolds(rules: seq<AlertRule>, t0: Tables, obs: Inputs)
    requires DistinctIds(rules) && AllActive(t0.active)
    ensures var c := Run(rules, Cycle(t0, [], None), obs);
            c.refused.None? ==>
              (forall j | 0 <= j < |rules| :: rules[j].alertId in c.tables.active <==> Holds(rules[j].check, obs))
              && (forall id | !IsRuleId(rules, id) ::
                    (id in c.tables.active <==> id in t0.active)
                    && (id in c.tables.active ==> c.tables.active[id] == t0.active[id]))
  {
    var c := Run(rules, Cycle(t0, [], None), obs);
    RunCharacterized(rules, t0, obs);
    IdsSpec(rules, t0.active, obs);
    if c.refused.None? {
      var R := ResolvedIds(rules, t0.active, obs);
      var T := TriggeredIds(rules, t0.active, obs);
      forall j | 0 <= j < |rules| ensures rules[j].alertId in c.tables.active <==> Holds(rules[j].check, obs) {
        var id := rules[j].alertId;
        assert id in R <==> Resolves(rules[j], t0.active, obs);
        assert id in T <==> Triggers(rules[j], t0.active, obs);
      }
      forall id | !IsRuleId(rules, id)
        ensures (id in c.tables.active <==> id in t0.active)
                && (id in c.tables.active ==> c.tables.active[id] == t0.active[id])
      {
        assert id !in R && id !in T;
      }
    }
  }

  /** `checkAlerts` with the declared rules, from a live map of active
      alerts: it stops at the first refused insert; it keeps the history,
      the uniqueness of alert ids and a live map of active alerts; and when
      it completes, its effect is the one `RunEffect` describes and each
      rule has a live entry exactly when its check holds. */
  lemma CheckCycleSpec(t: Tables, obs: Inputs)
    requires AllActive(t.active)
    ensures var c := CheckCycle(t, obs);
            c.refused == FirstRefusal(Rules(), t.active, t.alerts, obs)
            && Extends(t, c.tables)
            && (UniqueAlertIds(t.alerts) ==> UniqueAlertIds(c.tables.alerts))
            && AllActive(c.tables.active)
            && (c.refused.None? ==>
                  RunEffect(Rules(), t, c, obs)
                  && forall j | 0 <= j < |Rules()| :: Rules()[j].alertId in c.tables.active <==> Holds(Rules()[j].check, obs))
  {
    RulesWellFormed();
    RefusedIsFirstRefusal(Rules(), t, obs);
    RunCharacterized(Rules(), t, obs);
    RunInvariants(Rules(), Cycle(t, [], None), obs);
    ActiveIffHolds(Rules(), t, obs);
  }
}
