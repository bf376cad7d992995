/** One stale-feed episode, cycle by cycle: the feed goes quiet, the alert
    is raised, and a later cycle resolves it. */
module AlertingExamples {
  import opened Db
  import opened AlertingCycle
  import Metrics

  /** Only the stale-feed rule's check holds. */
  predicate OnlyStale(obs: Inputs) {
    Holds(Rules()[0].check, obs) && forall j | 1 <= j < |Rules()| :: !Holds(Rules()[j].check, obs)
  }

  /** From empty tables, a cycle in which exactly one rule's check holds
      raises that rule's alert alone, records it as live, and files one
      incident for it. */
  lemma FromEmptySingle(rules: seq<AlertRule>, obs: Inputs, j0: nat)
    requires DistinctIds(rules) && j0 < |rules| && Holds(rules[j0].check, obs)
    requires forall j | 0 <= j < |rules| && j != j0 :: !Holds(rules[j].check, obs)
    ensures var c := Run(rules, Cycle(Tables(map[], [], []), [], None), obs);
            var a := NewAlert(rules[j0], obs);
            c.refused == None
            && c.triggered == [a]
            && c.tables.alerts == [a]
            && c.tables.active == map[rules[j0].alertId := a]
            && c.tables.incidents == [FiledIncident(a, obs.now)]
  {
    var t := Tables(map[], [], []);
    var c := Run(rules, Cycle(t, [], None), obs);
    var a := NewAlert(rules[j0], obs);
    RefusedIsFirstRefusal(rules, t, obs);
    FirstRefusalSpec(rules, t.active, t.alerts, obs);
    RunCharacterized(rules, t, obs);
    SingleTrigger(rules, t.active, obs, j0);
    IdsSpec(rules, t.active, obs);
    assert ResolvedIds(rules, t.active, obs) == {};
    assert c.tables.alerts[|t.alerts| + 0] == c.triggered[0];
    assert c.tables.alerts == [a];
    assert c.tables.incidents[|t.incidents| + 0] == FiledIncident(c.triggered[0], obs.now);
    assert c.tables.incidents == [FiledIncident(a, obs.now)];
  }

  /** From empty tables, a cycle in which only the feed is stale raises the
      stale-feed alert alone, records it as live, and files one incident
      with the reconnection under way. */
  lemma StaleFeedRaised(obs: Inputs)
    requires OnlyStale(obs)
    ensures var c := CheckCycle(Tables(map[], [], []), obs);
            var a := NewAlert(Rules()[0], obs);
            c.refused == None
            && c.triggered == [a]
            && c.tables.alerts == [a]
            && c.tables.active == map[STALE_FEED := a]
            && c.tables.incidents == [FiledIncident(a, obs.now)]
  {
    RulesWellFormed();
    FromEmptySingle(Rules(), obs, 0);
  }

  /** A cycle in which no check holds resolves the one live alert: its row
      is marked resolved, its open incident closed with its MTTD and MTTR,
      and the live map is emptied. */
  lemma RecoveryResolves(rules: seq<AlertRule>, j0: nat, a: Alert, inc: Incident, obs: Inputs)
    requires DistinctIds(rules) && j0 < |rules| && a.alertId == rules[j0].alertId && a.status == Active
    requires inc.alertId == a.alertId && inc.status == Open
    requires forall j | 0 <= j < |rules| :: !Holds(rules[j].check, obs)
    ensures var c := Run(rules, Cycle(Tables(map[a.alertId := a], [a], [inc]), [], None), obs);
            c.refused == None
            && c.triggered == []
            && c.tables.active == map[]
            && c.tables.alerts == [a.(status := Resolved, resolvedAt := Some(obs.now))]
            && c.tables.incidents == [inc.(status := IncidentResolved, resolvedAt := Some(obs.now),
                                           mttdSeconds := Some(Mttd(a)), mttrSeconds := Some(Mttr(a, obs.now)))]
  {
    var t := Tables(map[a.alertId := a], [a], [inc]);
    var c := Run(rules, Cycle(t, [], None), obs);
    RefusedIsFirstRefusal(rules, t, obs);
    FirstRefusalSpec(rules, t.active, t.alerts, obs);
    RunCharacterized(rules, t, obs);
    NoTrigger(rules, t.active, obs);
    IdsSpec(rules, t.active, obs);
    assert Resolves(rules[j0], t.active, obs);
    assert ResolvedIds(rules, t.active, obs) == {a.alertId};
    assert c.tables.alerts == [a.(status := Resolved, resolvedAt := Some(obs.now))];
    assert c.tables.incidents[0] == IncidentRowAfter(inc, {a.alertId}, {}, t.active, obs.now);
  }

  /** Once the alert is resolved, the rule's check holding again makes the
      cycle fail at that rule: the resolved row still holds the unique id. */
  lemma ReturnRefused(rules: seq<AlertRule>, j0: nat, a: Alert, incidents: seq<Incident>, obs: Inputs)
    requires DistinctIds(rules) && j0 < |rules| && a.alertId == rules[j0].alertId
    requires Holds(rules[j0].check, obs)
    requires forall j | 0 <= j < |rules| && j != j0 :: !Holds(rules[j].check, obs)
    ensures Run(rules, Cycle(Tables(map[], [a], incidents), [], None), obs).refused == Some(a.alertId)
  {
    var t := Tables(map[], [a], incidents);
    RefusedIsFirstRefusal(rules, t, obs);
    FirstRefusalSpec(rules, t.active, t.alerts, obs);
    assert Refuses(rules[j0], t.active, t.alerts, obs) by {
      assert t.alerts[0].alertId == rules[j0].alertId;
    }
  }

  /** No check holds. */
  predicate NoneHolds(obs: Inputs) {
    forall j | 0 <= j < |Rules()| :: !Holds(Rules()[j].check, obs)
  }

  /** The stale-feed episode with the declared rules: raised from empty
      tables, resolved when the feed recovers (MTTD 0, MTTR the seconds in
      between), and refused when the feed goes stale again. */
  lemma StaleFeedEpisode(obs1: Inputs, obs2: Inputs, obs3: Inputs)
    requires OnlyStale(obs1) && NoneHolds(obs2) && OnlyStale(obs3) && obs1.now <= obs2.now
    ensures var c1 := CheckCycle(Tables(map[], [], []), obs1);
            var c2 := CheckCycle(c1.tables, obs2);
            var c3 := CheckCycle(c2.tables, obs3);
            var a := NewAlert(Rules()[0], obs1);
            c1.triggered == [a] && c1.refused == None
            && c2.refused == None && c2.tables.active == map[]
            && c2.tables.alerts == [a.(status := Resolved, resolvedAt := Some(obs2.now))]
            && c2.tables.incidents == [FiledIncident(a, obs1.now).(status := IncidentResolved, resolvedAt := Some(obs2.now),
                                                              mttdSeconds := Some(0.0), mttrSeconds := Some(Mttr(a, obs2.now)))]
            && c3.refused == Some(STALE_FEED)
  {
    RulesWellFormed();
    StaleFeedRaised(obs1);
    var a := NewAlert(Rules()[0], obs1);
    var c1 := CheckCycle(Tables(map[], [], []), obs1);
    RecoveryResolves(Rules(), 0, a, FiledIncident(a, obs1.now), obs2);
    var c2 := CheckCycle(c1.tables, obs2);
    EngineAlertTimes(Rules()[0], obs1, obs2.now);
    ReturnRefused(Rules(), 0, a.(status := Resolved, resolvedAt := Some(obs2.now)), c2.tables.incidents, obs3);
  }

  /** KPIs that trip none of the threshold rules. */
  function CalmKpis(): Metrics.KpiSnapshot {
    Metrics.KpiSnapshot(100.0, 0.0, 0.0, 10, 20, 30, 0, 5, Some(1.0))
  }

  function MarketFeed(lastHeartbeat: int): FeedHealth {
    FeedHealth("market_data", MarketData, lastHeartbeat, Healthy, None, None, None)
  }

  /** Concrete readings for the episode: at 5000 ms the feed's last
      heartbeat is 4 seconds old, so only the stale-feed rule trips and the
      alert carries 4000 ms as its value, with the reconnection in progress
      on its incident; at 9000 ms a heartbeat from 8000 ms trips nothing,
      and the alert resolves with an MTTR of 4 seconds; at 20000 ms the same
      heartbeat is stale again. */
  lemma StaleFeedExample()
    ensures var obs1 := Inputs(CalmKpis(), [MarketFeed(1000)], 5000);
            var a := NewAlert(Rules()[0], obs1);
            OnlyStale(obs1)
            && a.currentValue == 4000.0
            && FiledIncident(a, 5000).remediationStatus == Some(InProgress)
            && NoneHolds(Inputs(CalmKpis(), [MarketFeed(8000)], 9000))
            && Mttr(a, 9000) == 4.0
            && OnlyStale(Inputs(CalmKpis(), [MarketFeed(8000)], 20000))
  {
    var obs1 := Inputs(CalmKpis(), [MarketFeed(1000)], 5000);
    assert obs1.now - obs1.feeds[0].lastHeartbeat > 3000;
    var obs3 := Inputs(CalmKpis(), [MarketFeed(8000)], 20000);
    assert obs3.now - obs3.feeds[0].lastHeartbeat > 3000;
  }
}
