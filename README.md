# Trading-system monitor: metrics and alerting core

This project models the two engines at the heart of a trading-system
monitor, together with the store they share.

- **Metrics engine.** It buffers timestamped observations (orders, fills,
  latencies, market-data messages, exposure readings) and flushes them to
  the `metrics` table. From that table it answers window queries and
  computes a KPI snapshot:
  - fill, cancel and reject rates;
  - nearest-rank latency percentiles P50, P95 and P99;
  - the latest position exposure;
  - the order count;
  - the market-data message rate.
- **Alerting engine.** It holds four fixed rules (stale feed, high latency,
  high reject rate, risk breach) and a live map from alert id to alert.
  Each check cycle walks the rules in declaration order:
  - a rule whose check holds and that has no live entry raises an alert,
    inserts its row, files an open incident and attaches the rule's
    remediation;
  - a rule whose check fails and whose live entry is active resolves the
    alert row, closes the alert's unresolved incidents with their MTTD and
    MTTR, and drops the live entry.

  The delayed completion of the stale-feed reconnection is a separate
  operation (`CompleteFeedReconnection`) that the caller may invoke at any
  later point.

The files, by module:

- `db.dfy` (`Db`): the records, the enumerations of the schema's `CHECK`
  constraints, and the store.
  - The store is the class `Database`, whose three tables are sequences of
    rows.
  - The `alerts` table enforces the `UNIQUE` constraint on `alert_id`: an
    insert of an existing id is refused.
  - Each `UPDATE … WHERE …` statement is a function from the old rows to
    the new rows.
- `ordering.dfy` (`Ordering`): one stable insertion sort on an integer key.
  It stands for every `ORDER BY` and for the numeric sort of the percentile
  computation. The module also holds the `Filter` and `Count` the engines
  use.
- `metrics.dfy` (`Metrics`):
  - window selection, `getRecentMetrics`, the percentile and
    `calculateKPIs`, all as functions;
  - the buffered recorder, as the class `MetricsEngine`.
- `alerting_cycle.dfy` (`AlertingCycle`):
  - the rules, their checks and current values;
  - one cycle of `checkAlerts` as a fold (`Step`, `Run`, `CheckCycle`)
    over three things: the live map, the `alerts` rows and the `incidents`
    rows;
  - the properties of that fold.
- `alerting.dfy` (`Alerting`): the class `AlertingEngine`.
  - `CheckAlerts` is a loop over the rules, proved equal to the fold.
  - `createIncident`, `resolveIncident` and `autoRemediate` are methods on
    the shared store.
  - It also holds the two read queries.
- `alerting_examples.dfy` (`AlertingExamples`): scenarios.
  - A stale-feed episode: raised, resolved, and raised again.
  - Concrete readings for that episode.

**Behaviour of the code as written: a rule fires at most once per
database.** The `alerts.alert_id` column is `UNIQUE`, and `checkAlerts`
inserts a row keyed by the rule's id each time the rule triggers; after a
resolution it never deletes that row. So the second trigger of any rule is
refused by the store, which the model represents as follows:
- `InsertAlert` returns `false` and writes nothing;
- the cycle stops at that rule;
- the cycle returns `DuplicateAlert(id)`.

The rows outlive the process. The store is reloaded from its saved copy
when the connection is first opened (lib/db.ts:15-22), and it is saved
after every simulator tick (app/api/simulator/route.ts:93). So a fresh
engine, whose live map is empty, is refused as soon as any rule triggers
whose row was saved by an earlier run.

Two lemmas prove this:
- `AlertingExamples.StaleFeedEpisode`: within one process, the stale feed
  is raised, resolved, then refused.
- `AlertingExamples.ReturnRefused`: the restart case, where the live map is
  empty and a row with the rule's id is stored.

`AlertingCycle.RefusedIsFirstRefusal` and `FirstRefusalSpec` characterise
exactly when a cycle is refused.

## Model

| member | source | states |
|---|---|---|
| Db.ResolveAlertRows | lib/alerting-engine.ts:113-118 | exactly the rows with the alert id become resolved at the given time; every other row and the length are unchanged |
| Db.CloseIncidentRows | lib/alerting-engine.ts:169-179 | exactly the rows with the alert id that are not yet resolved become resolved with resolved_at, MTTD and MTTR; all other rows are unchanged |
| Db.RemediateIncidentRows | lib/alerting-engine.ts:219-225 | exactly the open rows with the alert id get the remediation action and status; all other rows are unchanged |
| Db.Database.Load | app/api/init/route.ts:18-54 | a store holding the given metrics, alerts and incidents rows; the alert rows must have unique ids, as the schema demands |
| Db.Database.InsertMetric | lib/metrics-engine.ts:48-54 | one row is appended to `metrics` |
| Db.Database.InsertAlert | lib/alerting-engine.ts:88-100 | the insert succeeds if and only if no row has the alert id (the UNIQUE column of app/api/init/route.ts:20); on success the row is appended, otherwise nothing changes; uniqueness of alert ids is kept |
| Db.Database.ResolveAlert | lib/alerting-engine.ts:113-118 | the alerts table becomes `ResolveAlertRows` of the old one |
| Db.Database.InsertIncident | lib/alerting-engine.ts:151-161 | one row is appended to `incidents` |
| Db.Database.CloseIncidents | lib/alerting-engine.ts:169-179 | the incidents table becomes `CloseIncidentRows` of the old one |
| Db.Database.RemediateIncidents | lib/alerting-engine.ts:219-225 | the incidents table becomes `RemediateIncidentRows` of the old one |
| Ordering.SortBy | lib/metrics-engine.ts:131 | the sort behind every `ORDER BY` and the numeric sort; it keeps the length, and `SortByCorrect` states its order and contents |
| Ordering.Count | lib/metrics-engine.ts:81-83 | `filter(...).length`: never more than the elements; `CountSortBy` and `OutcomesAtMostTotal` use it |
| Ordering.SortByCorrect | lib/metrics-engine.ts:131 | the sort's output is in ascending key order and is a permutation (same multiset) of its input |
| Ordering.SortSortedIsIdentity | lib/metrics-engine.ts:131 | sorting values that are already in order (they come from `ORDER BY value`) changes nothing |
| Ordering.FilterContents | lib/alerting-engine.ts:230 | the filter keeps each element satisfying the predicate with its full multiplicity and nothing else |
| Ordering.CountSortBy | lib/metrics-engine.ts:131 | sorting does not change how many elements satisfy a predicate |
| Metrics.Cutoff | lib/metrics-engine.ts:61 | the window's cut-off `now - minutes·60000`; rows strictly after it are inside the window (`Select`, `RecentMetrics`) |
| Metrics.Select | lib/metrics-engine.ts:75-79 | every selected row matches the column value and lies strictly after the cut-off; no more rows than the table |
| Metrics.SelectContents | lib/metrics-engine.ts:75-79 | the selection holds each matching row with its full multiplicity and no other row |
| Metrics.RecentMetrics | lib/metrics-engine.ts:59-68 | the result is exactly the rows of that type strictly after `now - minutes·60000`, as a multiset, ordered by timestamp descending |
| Metrics.RankIsCeiling | lib/metrics-engine.ts:132 | the integer rank `(p·n + 99) / 100` is `ceil(p·n/100)`: its hundredfold is at least p·n, and one less falls below |
| Metrics.RankIndex | lib/metrics-engine.ts:132 | the index `max(0, ceil(p·n/100) - 1)` is inside a non-empty sequence whenever p ≤ 100 |
| Metrics.Percentile | lib/metrics-engine.ts:129-134 | 0 for no values; for p ≤ 100 the result is one of the values |
| Metrics.PercentileMonotone | lib/metrics-engine.ts:94-96 | a higher percentile is never smaller, so P50 ≤ P95 ≤ P99 |
| Metrics.PercentileIsNearestRank | lib/metrics-engine.ts:129-134 | nearest-rank definition, independent of the sort: with k = max(1, ceil(p·n/100)), at least k values are ≤ the result and fewer than k are below it |
| Metrics.PercentileOfSorted | lib/metrics-engine.ts:131-133 | on ascending input the result is the element at `RankIndex` |
| Metrics.PercentilesOfFive | lib/metrics-engine.ts:94-96 | for five sorted values P50 is the third and P95 and P99 the fifth |
| Metrics.PercentileExample | lib/metrics-engine.ts:129-134 | for [10,20,30,40,50]: P50 = 30, P95 = 50, P99 = 50 |
| Metrics.Values | lib/metrics-engine.ts:93 | the values column, row for row |
| Metrics.LatestValueIsNewest | lib/metrics-engine.ts:99-105 | the exposure is 0 when no row matches; otherwise it is the value of a matching row that no matching row is newer than |
| Metrics.LatestValueOfNewest | lib/metrics-engine.ts:99-105 | the exposure is the value of the first row of the newest-first query, a matching row at least as new as every matching row |
| Metrics.LatestValue | lib/metrics-engine.ts:99-105 | the value of the newest matching row, or 0; `LatestValueIsNewest` states it |
| Metrics.OutcomesAtMostTotal | lib/metrics-engine.ts:81-84 | fills, cancels and rejects are disjoint, so together they count at most all order rows |
| Metrics.OutcomeRate | lib/metrics-engine.ts:117-119 | one outcome's rate over the order rows; `ShareTimesTotal` gives it meaning |
| Metrics.Share | lib/metrics-engine.ts:117-119 | a percentage is never negative |
| Metrics.ShareTimesTotal | lib/metrics-engine.ts:117-119 | share × total = 100 × count (the meaning of `count / total · 100`) |
| Metrics.ShareAtMostHundred | lib/metrics-engine.ts:117-119 | a count that is at most the total is at most 100% |
| Metrics.ShareAdd | lib/metrics-engine.ts:117-119 | shares over one total add up |
| Metrics.SharesBounded | lib/metrics-engine.ts:117-119 | three disjoint counts: each share is ≤ 100 and the three together are ≤ 100 |
| Metrics.Denominator | lib/metrics-engine.ts:84 | the rate denominator is at least 1 and at least the number of order rows |
| Metrics.MessageRate | lib/metrics-engine.ts:114 | there is no rate exactly when the window is zero minutes long |
| Metrics.MessageRateTimesWindow | lib/metrics-engine.ts:114 | rate × window seconds = number of market-data rows |
| Metrics.MessageRateOfSnapshot | lib/metrics-engine.ts:108-114 | for a window of non-zero length, the snapshot's message rate is present, and the rate × window seconds = the number of `market_data` rows inside the window |
| Metrics.CalculateKpis | lib/metrics-engine.ts:70-127 | the order count is at least 1; P50 ≤ P95 ≤ P99; the message rate is missing exactly for a zero-minute window |
| Metrics.KpiRatesBounded | lib/metrics-engine.ts:116-124 | the fill, cancel and reject rates each lie in [0, 100] and sum to at most 100 |
| Metrics.EmptyWindowKpis | lib/metrics-engine.ts:70-127 | with no row inside the window: all rates and latencies are 0, exposure is 0, the order count is the floor value 1, and the message rate is 0 |
| Metrics.RatesAreShares | lib/metrics-engine.ts:81-124 | the rate law (`RateLaw`): each of the fill, cancel and reject rates times the order count is 100 × the number of order rows with that outcome; the order count is the number of order rows in the window, or 1 when there are none |
| Metrics.ExposureIsLatest | lib/metrics-engine.ts:99-105 | the snapshot's exposure is 0 when no `position_exposure` row lies inside the window, and otherwise the value of such a row that no other such row is newer than |
| Metrics.RateLawExample | lib/metrics-engine.ts:117-119 | 100 orders of which 80 fill, 15 cancel and 5 reject give rates 80, 15 and 5 with order count 100 |
| Metrics.LatencyKpisAreNearestRank | lib/metrics-engine.ts:87-96 | each of P50, P95 and P99 of the window's latencies is a nearest-rank percentile, and P95 is one of the latencies |
| Metrics.MetricsEngine.constructor | lib/metrics-engine.ts:15-23 | a new recorder starts with an empty buffer over the given store |
| Metrics.MetricsEngine.RecordMetric | lib/metrics-engine.ts:25-39 | the observation is appended to everything recorded; below the buffer size it waits in the buffer and the table is unchanged; at the buffer size the old buffer plus the observation reach the table in order and the buffer is empty; the buffer never holds BUFFER_SIZE rows afterwards |
| Metrics.MetricsEngine.FlushMetrics | lib/metrics-engine.ts:41-57 | the buffer is emptied and its rows are appended to the table in order; nothing recorded is lost or reordered |
| Metrics.MetricsEngine.GetRecentMetrics | lib/metrics-engine.ts:59-68 | the query runs over the flushed rows only |
| Metrics.MetricsEngine.CalculateKPIs | lib/metrics-engine.ts:70-127 | the snapshot is computed over the flushed rows only |
| Metrics.RecordFlushQuery | lib/metrics-engine.ts:25-68 | an observation that is recorded and then flushed is returned by a later query of its type over any positive window, and every returned row has that type and lies inside the window |
| AlertingCycle.Rules | lib/alerting-engine.ts:22-63 | the four rules in declaration order; their ids are distinct (thresholds matched by `RulesWellFormed`) |
| AlertingCycle.Holds | lib/alerting-engine.ts:30-60 | each rule's check; it holds if and only if the rule's current value is strictly above its threshold (`HoldsIffValueAbove`, `StaleIffMaxAbove`) |
| AlertingCycle.CurrentValue | lib/alerting-engine.ts:130-145 | the value an alert records: P95, reject rate, exposure, or the largest staleness, which is never negative; `HoldsIffValueAbove` ties it to the check |
| AlertingCycle.NewAlert | lib/alerting-engine.ts:76-86 | the alert a triggering rule builds; `TriggeredAlerts` and `EngineAlertTimes` state its properties |
| AlertingCycle.OpenIncident | lib/alerting-engine.ts:151-161 | the open incident of an alert; `AppendedRows` states its fields as the cycle files it |
| AlertingCycle.RemediationPlan | lib/alerting-engine.ts:187-217 | the action and status per alert id; `RemediationKinds` states their meaning |
| AlertingCycle.RemediationKinds | lib/alerting-engine.ts:187-217 | only the risk breach is completed at once; a status is pending exactly when there is no action, which happens exactly for an id other than the four declared ones |
| AlertingCycle.Mttd | lib/alerting-engine.ts:166 | an alert without a creation time has MTTD 0 |
| AlertingCycle.Mttr | lib/alerting-engine.ts:167 | MTTR × 1000 is the milliseconds from trigger to resolution when the trigger time is truthy, else 0 |
| AlertingCycle.Step | lib/alerting-engine.ts:70-125 | one pass of the loop; `StepExtends`, `StepKeepsUnique` and `StepEffect` state what it keeps and does |
| AlertingCycle.Run | lib/alerting-engine.ts:70-125 | the passes over the rules in order; `RunCharacterized` and `RunInvariants` state its effect |
| AlertingCycle.CheckCycle | lib/alerting-engine.ts:66-128 | one `checkAlerts` call with the declared rules; `CheckCycleSpec` states its effect |
| AlertingCycle.StepEffect | lib/alerting-engine.ts:70-125 | a pass that is not refused extends the closed-form effect of the rules before it by that rule's trigger or resolution |
| AlertingCycle.RulesWellFormed | lib/alerting-engine.ts:22-63 | the four rule ids are distinct, and each check compares against the rule's declared threshold |
| AlertingCycle.MaxStaleness | lib/alerting-engine.ts:140 | the reduce gives the largest `now - last_heartbeat` over the feeds, and at least the seed; it is attained by the seed or by some feed |
| AlertingCycle.StaleIffMaxAbove | lib/alerting-engine.ts:30-33 | some feed is silent for longer than the limit if and only if the largest staleness exceeds it |
| AlertingCycle.HoldsIffValueAbove | lib/alerting-engine.ts:22-63 | for every rule, the check holds if and only if its current value is strictly above its threshold (a value equal to the threshold does not fire) |
| AlertingCycle.EngineAlertTimes | lib/alerting-engine.ts:164-167 | an engine-built alert has MTTD 0; its MTTR is never negative and equals the elapsed seconds |
| AlertingCycle.IdsSpec | lib/alerting-engine.ts:70-125 | an id is resolved (or triggered) in a cycle if and only if some rule with that id resolves (or triggers); every newly triggered alert is the alert of a triggering rule |
| AlertingCycle.RunCharacterized | lib/alerting-engine.ts:66-128 | a cycle that is not refused has the following effect, with the old rows as reference: resolved ids have their alert rows resolved and their unresolved incidents closed; every triggered alert is appended as an alert row and as a filed incident; the live map loses the resolved ids and gains the triggered alerts; no other row or entry changes |
| AlertingCycle.StepExtends | lib/alerting-engine.ts:70-125 | one rule step keeps history: no row disappears or changes its ids, and a resolved incident stays exactly as it was |
| AlertingCycle.StepKeepsUnique | lib/alerting-engine.ts:70-125 | one rule step keeps alert ids unique and keeps every live entry active under its own id |
| AlertingCycle.RunInvariants | lib/alerting-engine.ts:66-128 | a whole cycle, refused or not, keeps the history, the uniqueness of alert ids and a live map of active alerts under their own ids |
| AlertingCycle.FirstRefusal | lib/alerting-engine.ts:88-100 | a refused id is the id of one of the rules |
| AlertingCycle.FirstRefusalSpec | lib/alerting-engine.ts:88-100 | `FirstRefusal` is None exactly when no rule both triggers and finds its id in the table; otherwise it names the first such rule |
| AlertingCycle.RefusedIsFirstRefusal | lib/alerting-engine.ts:66-128 | a cycle is refused exactly at the first rule whose insert would hit an existing alert id |
| AlertingCycle.NewlyTriggeredComplete | lib/alerting-engine.ts:74-103 | every rule that triggers contributes its alert to the newly triggered list |
| AlertingCycle.TriggeredAlerts | lib/alerting-engine.ts:74-103 | the returned list is exactly the alerts of the triggering rules: each is active, stamped `now`, had no live entry, carries the rule's current value and comes from a triggering rule; and every triggering rule's alert is in it |
| AlertingCycle.AppendedRows | lib/alerting-engine.ts:88-109 | one alert row and one incident row per triggered alert, in order; the incident is open, started at the alert's trigger time, and carries its id, title and severity |
| AlertingCycle.RetriggerSuppressed | lib/alerting-engine.ts:74 | a rule that still holds and already has a live entry raises no alert, inserts no alert row, files no incident, and keeps its live entry unchanged |
| AlertingCycle.ActiveIffHolds | lib/alerting-engine.ts:66-128 | after a completed cycle, starting from a live map of active alerts, a rule has a live entry exactly when its check holds; entries of ids no rule has are unchanged |
| AlertingCycle.CheckCycleSpec | lib/alerting-engine.ts:66-128 | for the declared rules, combines the above: the cycle is refused exactly at the first refusal; history, uniqueness and the live map's invariant are kept; on completion the cycle's effect is as stated by RunCharacterized and each rule is live exactly when its check holds |
| AlertingExamples.FromEmptySingle | lib/alerting-engine.ts:74-109 | from empty tables, when exactly one rule holds: that rule's alert alone is returned, stored, made live and given one filed incident |
| AlertingExamples.StaleFeedRaised | lib/alerting-engine.ts:30-33 | from empty tables, with only the stale-feed check holding, the stale-feed alert alone is raised and filed |
| AlertingExamples.RecoveryResolves | lib/alerting-engine.ts:110-124 | when no check holds, a live alert is resolved at `now`, its open incident is closed with MTTD and MTTR, and the live map empties |
| AlertingExamples.ReturnRefused | lib/alerting-engine.ts:88-100 | a rule that triggers while its alert row is still in the table makes the cycle refused with its id |
| AlertingExamples.StaleFeedEpisode | lib/alerting-engine.ts:66-128 | raise, resolve, re-raise of the stale feed with the declared rules: one alert is raised; it then resolves with MTTD 0 and MTTR equal to the elapsed seconds; and the re-raise is refused on the stale-feed id |
| AlertingExamples.StaleFeedExample | lib/alerting-engine.ts:130-145 | concrete readings: a heartbeat 4000 ms old trips only the stale feed, with value 4000 and the reconnection in progress; a fresh heartbeat trips nothing and gives MTTR 4 s; the same heartbeat 12 s later is stale again |
| Alerting.ActiveAlerts | lib/alerting-engine.ts:228-231 | exactly the active rows (as a multiset), most recently triggered first |
| Alerting.RecentIncidents | lib/alerting-engine.ts:233-237 | exactly the incidents started after `now - hours·3600000` (as a multiset), most recent first |
| Alerting.ReconnectionAfterResolution | lib/alerting-engine.ts:192-200 | a reconnection that fires after the stale-feed incidents were resolved leaves every row unchanged |
| Alerting.CycleOutputIsListed | lib/alerting-engine.ts:228-237 | after a completed cycle, every triggered alert is listed by `getActiveAlerts` and its filed incident by `getRecentIncidents` for any positive window |
| Alerting.AlertingEngine.constructor | lib/alerting-engine.ts:14-20 | a new engine over a store with unique alert ids has the declared rules and an empty live map, and its invariant holds |
| Alerting.AlertingEngine.CheckAlerts | lib/alerting-engine.ts:66-128 | the loop leaves the live map, the alerts and the incidents exactly as `CheckCycle` does, and returns its outcome; it keeps the engine invariant (declared rules, live entries active under their own ids, unique alert ids in the store) |
| Alerting.AlertingEngine.ApplyRule | lib/alerting-engine.ts:70-125 | one loop pass changes the state exactly as one `Step`; it returns the alert it added, or reports a refusal on this rule's id |
| Alerting.AlertingEngine.CreateIncident | lib/alerting-engine.ts:147-162 | appends the open incident of the alert, started at its trigger time, with an id stamped from the clock |
| Alerting.AlertingEngine.ResolveIncident | lib/alerting-engine.ts:164-180 | closes the alert's unresolved incidents with that alert's MTTD and MTTR |
| Alerting.AlertingEngine.AutoRemediate | lib/alerting-engine.ts:182-226 | records the action chosen by the alert id on its open incidents; it schedules the reconnection if and only if the alert is the stale feed |
| Alerting.AlertingEngine.CompleteFeedReconnection | lib/alerting-engine.ts:192-200 | marks the open stale-feed incidents as reconnected; closed incidents and those of other alerts are untouched |
| Alerting.AlertingEngine.GetActiveAlerts | lib/alerting-engine.ts:228-231 | the active alerts of the store, newest first |
| Alerting.AlertingEngine.GetRecentIncidents | lib/alerting-engine.ts:233-237 | the incidents of the store inside the window, newest first |

## Left out

- Timers: the constructor's `setInterval` flush, and the five-second delay of
  the stale-feed reconnection, are not modelled. `FlushMetrics` and
  `CompleteFeedReconnection` are operations the caller may invoke at any
  point.
- Asynchrony: every `await` is treated as completing before the next
  statement starts. Two check cycles, or a cycle and the reconnection, never
  interleave.
- Clock: `Date.now()` is the parameter `now`. One cycle reads a single
  instant, so the reading taken inside `getCurrentValue` equals the one the
  check used.
- Defaults: the default arguments (`minutes = 60`, `hours = 24`) are not
  modelled; the caller always passes the value.
- Db.Database.InsertIncident: always appends. The `incident_id` column is
  UNIQUE and would refuse a repeated id, but the model does not enforce it.
- Alerting.AlertingEngine.CreateIncident: the `incident_id` column is UNIQUE
  (app/api/init/route.ts:39), but the model does not enforce it.
  - In the source, ids are `INC-<Date.now()>`, read on each call. Two ids
    could collide only when two incidents are filed within one millisecond.
  - The model reads one `now` per cycle, so in the model every two-trigger
    cycle reuses an id.
  - In the real store the second `createIncident` would then reject. That
    happens after that rule's alert row and live entry are written
    (lib/alerting-engine.ts:88-106). The model does not represent that
    state.
- The foreign key from `incidents.alert_id` to `alerts` is not enforced.
  The engine always inserts the alert first.
- Refused inserts: a refused `alerts` insert makes the source's promise
  reject. The model returns `DuplicateAlert(id)` instead, with the rows the
  earlier rules wrote kept and the later rules not run.
- Metrics.Percentile: numbers are integers, not IEEE doubles. The rank
  `ceil(p/100·n)` is computed exactly in integers.
- Metrics.Percentile: the fall-back `|| 0` is modelled only for an index
  past the end. A stored value is returned as it is.
- Metrics.CalculateKpis: observation values and exposure are integers, and
  the rates and message rate are exact reals. Floating-point rounding is not
  modelled.
- Metrics.MessageRate: the non-finite rate of a zero-minute window is `None`.
  A negative window gives a negative rate, as the division does.
- Ordering: SQL leaves the order of rows with equal keys unspecified. The
  model uses one stable sort, so ties keep table order.
- Db: `triggered_at` is an integer, never NULL; the engine always sets it.
- Db: `metadata` is stored as the already serialised text. `JSON.stringify`
  is not modelled.
- Db: the `created_at` column default and `metadata` of alerts and incidents
  are not modelled. A live alert carries no `created_at`, as in the engine's
  map.
- Db: the database driver, the connection and SQL parsing are not modelled.
  The store is the `Database` class.
- Alerting.AlertingEngine.Valid: the claim that the live map's keys are the
  rules whose check held is proved from a live map of active alerts stored
  under their own ids (`AllActive`). Every map the engine builds is such a
  map, and `Valid` carries the fact.
- HTTP routes, the UI components, runbooks and the market simulator are not
  part of this model.
