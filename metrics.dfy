/** The metrics engine: a buffered recorder in front of the `metrics` table
    and the KPI aggregator that reads that table over a trailing window.

    The queries are functions of the table's rows at the time of the call
    and of the clock reading `now` (milliseconds). */
module Metrics {
  import opened Db
  import opened Ordering

  /** Number of buffered observations that forces a flush. */
  const BUFFER_SIZE: nat := 1000

  /** Milliseconds in a minute. */
  const MINUTE_MS: int := 60 * 1000

  /** Oldest timestamp (exclusive) still inside a window of `minutes`. */
  function Cutoff(now: int, minutes: int): int {
    now - minutes * MINUTE_MS
  }

  /** The column a `WHERE <column> = ?` clause compares with. */
  datatype Column = TypeColumn | NameColumn

  /** `WHERE <column> = v AND timestamp > cutoff` */
  predicate Matches(m: Metric, column: Column, v: string, cutoff: int) {
    (match column
     case TypeColumn => m.metricType
     case NameColumn => m.metricName) == v
    && m.timestamp > cutoff
  }

  /** The rows selected by `WHERE <column> = v AND timestamp > cutoff`, in
      table order. */
  function Select(rows: seq<Metric>, column: Column, v: string, cutoff: int): (r: seq<Metric>)
    ensures |r| <= |rows|
    ensures forall i | 0 <= i < |r| :: Matches(r[i], column, v, cutoff)
  {
    if rows == [] then []
    else (if Matches(rows[0], column, v, cutoff) then [rows[0]] else []) + Select(rows[1..], column, v, cutoff)
  }

  /** The selection holds every matching row as often as the table does,
      and nothing else. */
  lemma {:induction false} SelectContents(rows: seq<Metric>, column: Column, v: string, cutoff: int)
    ensures forall m :: multiset(Select(rows, column, v, cutoff))[m]
                        == if Matches(m, column, v, cutoff) then multiset(rows)[m] else 0
  {
    if rows != [] {
      SelectContents(rows[1..], column, v, cutoff);
      assert rows == [rows[0]] + rows[1..];
    }
  }

  /** Sort key for `ORDER BY timestamp DESC`. */
  function NewestFirst(m: Metric): int { -m.timestamp }

  /** Sort key for `ORDER BY value`. */
  function ByValue(m: Metric): int { m.value }

  /** Sort key of the numeric comparator `(a, b) => a - b`. */
  function Ascending(x: int): int { x }

  /** `getRecentMetrics(metricType, minutes)`: the stored observations of one
      type inside the window, newest first. */
  function RecentMetrics(rows: seq<Metric>, metricType: string, minutes: int, now: int): (r: seq<Metric>)
    ensures forall m ::
      multiset(r)[m] == (if m.metricType == metricType && m.timestamp > Cutoff(now, minutes) then multiset(rows)[m] else 0)
    ensures forall i, j | 0 <= i < j < |r| :: r[i].timestamp >= r[j].timestamp
  {
    var r := SortBy(Select(rows, TypeColumn, metricType, Cutoff(now, minutes)), NewestFirst);
    SortByCorrect(Select(rows, TypeColumn, metricType, Cutoff(now, minutes)), NewestFirst);
    SelectContents(rows, TypeColumn, metricType, Cutoff(now, minutes));
    assert forall i, j | 0 <= i < j < |r| :: NewestFirst(r[i]) <= NewestFirst(r[j]);
    r
  }

  /** `ceil(p / 100 * n)` in integers. */
  function RankOf(p: nat, n: nat): nat {
    (p * n + 99) / 100
  }

  /** `max(0, ceil(p / 100 * n) - 1)`: the index the percentile reads, inside
      a non-empty sequence whenever `p <= 100`. */
  function RankIndex(p: nat, n: nat): (i: nat)
    ensures 0 < n && p <= 100 ==> i < n
  {
    assert 0 < n && p <= 100 ==> RankOf(p, n) <= n by {
      if p <= 100 { RankBounds(p, 100, n); }
    }
    if RankOf(p, n) == 0 then 0 else RankOf(p, n) - 1
  }

  /** Nearest-rank percentile `p` of `values`: the element at `RankIndex` of
      the ascending sort, and 0 for no values or an index past the end. */
  function Percentile(values: seq<int>, p: nat): (r: int)
    ensures values == [] ==> r == 0
    ensures values != [] && p <= 100 ==> r in values
  {
    if |values| == 0 then 0
    else
      var sorted := SortBy(values, Ascending);
      var i := RankIndex(p, |sorted|);
      if i < |sorted| then
        SortByCorrect(values, Ascending);
        assert sorted[i] in multiset(sorted);
        sorted[i]
      else 0
  }

  /** `RankOf` is the ceiling of `p·n/100`: the least integer whose
      hundredfold is at least `p·n`. */
  lemma RankIsCeiling(p: nat, n: nat)
    ensures RankOf(p, n) * 100 >= p * n
    ensures (RankOf(p, n) - 1) * 100 < p * n
  {
  }

  lemma RankBounds(p: nat, q: nat, n: nat)
    requires p <= q <= 100
    ensures RankOf(p, n) <= RankOf(q, n) <= n
  {
    MulMonotone(p, q, n);
    MulMonotone(q, 100, n);
  }

  lemma MulMonotone(a: nat, b: nat, n: nat)
    requires a <= b
    ensures a * n <= b * n
  {
    assert b * n == a * n + (b - a) * n;
  }

  /** On input with at least one value and `p <= 100` the percentile is the
      sorted values' element at `RankIndex`. */
  lemma PercentileAt(values: seq<int>, p: nat)
    requires values != [] && p <= 100
    ensures RankIndex(p, |values|) < |values|
    ensures Percentile(values, p) == SortBy(values, Ascending)[RankIndex(p, |values|)]
  {
  }

  /** P50 <= P95 <= P99: a larger `p` never picks a smaller element. */
  lemma PercentileMonotone(values: seq<int>, p: nat, q: nat)
    requires p <= q <= 100
    ensures Percentile(values, p) <= Percentile(values, q)
  {
    if values != [] {
      RankBounds(p, q, |values|);
      PercentileAt(values, p);
      PercentileAt(values, q);
      SortByCorrect(values, Ascending);
    }
  }

  function IsAtMost(v: int): int -> bool { (x: int) => x <= v }

  function IsBelow(v: int): int -> bool { (x: int) => x < v }

  /** How many of `values` are at most `v`. */
  function AtMost(values: seq<int>, v: int): nat {
    Count(values, IsAtMost(v))
  }

  /** How many of `values` are below `v`. */
  function Below(values: seq<int>, v: int): nat {
    Count(values, IsBelow(v))
  }

  /** In an ascending sequence, at least `i + 1` elements are at most the
      one at index `i`, and at most `i` are below it. */
  lemma SortedRankCounts(sorted: seq<int>, i: nat)
    requires i < |sorted| && SortedBy(sorted, Ascending)
    ensures AtMost(sorted, sorted[i]) >= i + 1
    ensures Below(sorted, sorted[i]) <= i
  {
    var r := sorted[i];
    forall j | 0 <= j < i + 1 ensures IsAtMost(r)(sorted[j]) {
      assert Ascending(sorted[j]) <= Ascending(sorted[i]);
    }
    CountAtLeastPrefix(sorted, i + 1, IsAtMost(r));
    forall j | i <= j < |sorted| ensures !IsBelow(r)(sorted[j]) {
      assert Ascending(sorted[i]) <= Ascending(sorted[j]);
    }
    CountAtMostPrefix(sorted, i, IsBelow(r));
  }

  /** The percentile is the nearest-rank one: with `k = max(1, ceil(p / 100 * n))`,
      at least `k` of the values are at most the result and fewer than `k`
      are below it. */
  lemma PercentileIsNearestRank(values: seq<int>, p: nat)
    requires values != [] && p <= 100
    ensures var k := if RankOf(p, |values|) == 0 then 1 else RankOf(p, |values|);
            var r := Percentile(values, p);
            AtMost(values, r) >= k && Below(values, r) < k
  {
    PercentileAt(values, p);
    var r := Percentile(values, p);
    SortByCorrect(values, Ascending);
    SortedRankCounts(SortBy(values, Ascending), RankIndex(p, |values|));
    CountSortBy(values, Ascending, IsAtMost(r));
    CountSortBy(values, Ascending, IsBelow(r));
  }

  /** On an ascending input the percentile indexes the input itself. */
  lemma PercentileOfSorted(s: seq<int>, p: nat)
    requires s != [] && p <= 100 && SortedBy(s, Ascending)
    ensures Percentile(s, p) == s[RankIndex(p, |s|)]
  {
    SortSortedIsIdentity(s, Ascending);
  }

  /** Five ascending values: the P50 is the middle one and the P95 and P99
      are both the last one. */
  lemma PercentilesOfFive(s: seq<int>)
    requires |s| == 5 && SortedBy(s, Ascending)
    ensures Percentile(s, 50) == s[2]
    ensures Percentile(s, 95) == s[4]
    ensures Percentile(s, 99) == s[4]
  {
    PercentileOfSorted(s, 50);
    PercentileOfSorted(s, 95);
    PercentileOfSorted(s, 99);
  }

  /** The worked example: over [10, 20, 30, 40, 50] the P50 is 30 and the
      P95 and P99 are both 50 (the index stops at the last element). */
  lemma PercentileExample()
    ensures Percentile([10, 20, 30, 40, 50], 50) == 30
    ensures Percentile([10, 20, 30, 40, 50], 95) == 50
    ensures Percentile([10, 20, 30, 40, 50], 99) == 50
  {
    PercentilesOfFive([10, 20, 30, 40, 50]);
  }

  /** The values of a query result, in its order. */
  function Values(rows: seq<Metric>): (r: seq<int>)
    ensures |r| == |rows|
    ensures forall i | 0 <= i < |rows| :: r[i] == rows[i].value
  {
    if rows == [] then [] else [rows[0].value] + Values(rows[1..])
  }

  /** `ORDER BY timestamp DESC LIMIT 1` over the rows named `name` inside
      the window: the value of the first row of the newest-first selection,
      or 0 when the selection is empty. */
  function LatestValue(rows: seq<Metric>, name: string, cutoff: int): int {
    var q := SortBy(Select(rows, NameColumn, name, cutoff), NewestFirst);
    if q == [] then 0 else q[0].value
  }

  /** The latest value is 0 when no row matches, and otherwise the value of
      a matching row no other matching row is newer than. */
  lemma LatestValueIsNewest(rows: seq<Metric>, name: string, cutoff: int)
    ensures (forall m | m in rows :: !Matches(m, NameColumn, name, cutoff)) ==> LatestValue(rows, name, cutoff) == 0
    ensures (exists m | m in rows :: Matches(m, NameColumn, name, cutoff)) ==>
      exists m | m in rows && Matches(m, NameColumn, name, cutoff) ::
        LatestValue(rows, name, cutoff) == m.value &&
        forall m' | m' in rows && Matches(m', NameColumn, name, cutoff) :: m'.timestamp <= m.timestamp
  {
    if exists m | m in rows :: Matches(m, NameColumn, name, cutoff) {
      LatestValueOfNewest(rows, name, cutoff);
    } else {
      SelectNone(rows, NameColumn, name, cutoff);
    }
  }

  lemma LatestValueOfNewest(rows: seq<Metric>, name: string, cutoff: int)
    requires exists m | m in rows :: Matches(m, NameColumn, name, cutoff)
    ensures var q := SortBy(Select(rows, NameColumn, name, cutoff), NewestFirst);
      q != [] && q[0] in rows && Matches(q[0], NameColumn, name, cutoff) &&
      LatestValue(rows, name, cutoff) == q[0].value &&
      forall m' | m' in rows && Matches(m', NameColumn, name, cutoff) :: m'.timestamp <= q[0].timestamp
  {
    var sel := Select(rows, NameColumn, name, cutoff);
    var q := SortBy(sel, NewestFirst);
    SelectContents(rows, NameColumn, name, cutoff);
    SortByCorrect(sel, NewestFirst);
    var m :| m in rows && Matches(m, NameColumn, name, cutoff);
    assert multiset(q)[m] > 0;
    assert multiset(q)[q[0]] > 0;
    assert multiset(rows)[q[0]] > 0;
    forall m' | m' in rows && Matches(m', NameColumn, name, cutoff)
      ensures m'.timestamp <= q[0].timestamp
    {
      assert multiset(rows)[m'] > 0;
      assert multiset(q)[m'] > 0;
      NewestComesFirst(q, m');
    }
  }

  /** In a newest-first sequence no element is newer than the first. */
  lemma NewestComesFirst(q: seq<Metric>, m: Metric)
    requires SortedBy(q, NewestFirst) && m in q
    ensures m.timestamp <= q[0].timestamp
  {
    var j :| 0 <= j < |q| && q[j] == m;
    if j > 0 { assert NewestFirst(q[0]) <= NewestFirst(q[j]); }
  }

  /** How many rows have this `metric_name`. */
  function CountNamed(rows: seq<Metric>, name: string): nat {
    Count(rows, IsNamed(name))
  }

  function IsNamed(name: string): Metric -> bool { (m: Metric) => m.metricName == name }

  /** Fill, cancel and reject rows are disjoint, so together they are at
      most all the rows. */
  lemma {:induction false} OutcomesAtMostTotal(rows: seq<Metric>)
    ensures CountNamed(rows, "fill") + CountNamed(rows, "cancel") + CountNamed(rows, "reject") <= |rows|
  {
    if rows != [] {
      OutcomesAtMostTotal(rows[1..]);
    }
  }

  /** A product with a positive factor keeps a strict order. */
  lemma MulStrict(x: real, y: real, t: real)
    requires x > y && t > 0.0
    ensures x * t > y * t
  {
    assert x * t - y * t == (x - y) * t;
  }

  /** `count / total * 100`: the share of `total` that `count` makes up, in
      percent. */
  function Share(count: nat, total: nat): (r: real)
    requires total > 0
    ensures 0.0 <= r
  {
    (count as real / total as real) * 100.0
  }

  /** A share times the whole is a hundred times the part. */
  lemma ShareTimesTotal(count: nat, total: nat)
    requires total > 0
    ensures Share(count, total) * total as real == 100.0 * count as real
  {
    var t := total as real;
    var q := count as real / t;
    assert q * t == count as real;
    assert (q * 100.0) * t == 100.0 * (q * t);
  }

  /** A part no larger than the whole has a share of at most 100. */
  lemma ShareAtMostHundred(count: nat, total: nat)
    requires 0 < total && count <= total
    ensures Share(count, total) <= 100.0
  {
    var t := total as real;
    var q := count as real / t;
    assert q * t == count as real;
    if q > 1.0 {
      MulStrict(q, 1.0, t);
      assert false;
    }
  }

  /** Shares of two parts add up to the share of their union. */
  lemma ShareAdd(a: nat, b: nat, total: nat)
    requires total > 0
    ensures Share(a, total) + Share(b, total) == Share(a + b, total)
  {
    var t := total as real;
    var qa, qb, q := a as real / t, b as real / t, (a + b) as real / t;
    assert qa * t == a as real && qb * t == b as real && q * t == (a + b) as real;
    assert (qa + qb) * t == qa * t + qb * t;
    if qa + qb > q {
      MulStrict(qa + qb, q, t);
      assert false;
    } else if qa + qb < q {
      MulStrict(q, qa + qb, t);
      assert false;
    }
  }

  /** Shares of disjoint parts of a whole are each between 0 and 100 and sum
      to at most 100. */
  lemma SharesBounded(a: nat, b: nat, c: nat, total: nat)
    requires total > 0 && a + b + c <= total
    ensures Share(a, total) <= 100.0 && Share(b, total) <= 100.0 && Share(c, total) <= 100.0
    ensures Share(a, total) + Share(b, total) + Share(c, total) <= 100.0
  {
    ShareAtMostHundred(a, total);
    ShareAtMostHundred(b, total);
    ShareAtMostHundred(c, total);
    ShareAdd(a, b, total);
    ShareAdd(a + b, c, total);
    ShareAtMostHundred(a + b + c, total);
  }

  /** The denominator of the rates: the number of order rows, floored at 1. */
  function Denominator(orders: seq<Metric>): (n: nat)
    ensures n >= 1 && n >= |orders|
  {
    if |orders| == 0 then 1 else |orders|
  }

  /** The percentage of the order rows whose `metric_name` is `outcome`. */
  function OutcomeRate(orders: seq<Metric>, outcome: string): real {
    Share(CountNamed(orders, outcome), Denominator(orders))
  }

  /** Market-data rows per second of a window of `minutes`; `None` for a
      zero-length window. */
  function MessageRate(count: nat, minutes: int): (r: Option<real>)
    ensures minutes == 0 <==> r.None?
  {
    if minutes == 0 then None else Some(count as real / (minutes * 60) as real)
  }

  /** The snapshot's message rate over a window of non-zero length, times
      the window's length in seconds, is the number of `market_data` rows
      inside the window. */
  lemma MessageRateOfSnapshot(rows: seq<Metric>, minutes: int, now: int)
    requires minutes != 0
    ensures var k := CalculateKpis(rows, minutes, now);
            k.messageRate.Some?
            && k.messageRate.value * (minutes * 60) as real == |MarketDataIn(rows, Cutoff(now, minutes))| as real
  {
    var n := |MarketDataIn(rows, Cutoff(now, minutes))|;
    MessageRateField(rows, minutes, now);
    MessageRateTimesWindow(n, minutes);
  }

  /** The snapshot's message rate is the rate of its window's `market_data`
      rows. */
  lemma MessageRateField(rows: seq<Metric>, minutes: int, now: int)
    ensures CalculateKpis(rows, minutes, now).messageRate
            == MessageRate(|MarketDataIn(rows, Cutoff(now, minutes))|, minutes)
  {
  }

  /** The rate times the window's length in seconds is the count. */
  lemma MessageRateTimesWindow(count: nat, minutes: int)
    requires minutes != 0
    ensures MessageRate(count, minutes).value * (minutes * 60) as real == count as real
  {
    var d := (minutes * 60) as real;
    assert d != 0.0;
    assert (count as real / d) * d == count as real;
  }

  /** A KPI snapshot. `messageRate` is `None` where the source divides by a
      zero-length window (a non-finite number). */
  datatype KpiSnapshot = KpiSnapshot(
    fillRate: real,
    cancelRate: real,
    rejectRate: real,
    latencyP50: int,
    latencyP95: int,
    latencyP99: int,
    positionExposure: int,
    orderCount: nat,
    messageRate: Option<real>)

  /** The `order` rows inside the window. */
  function OrdersIn(rows: seq<Metric>, cutoff: int): seq<Metric> {
    Select(rows, TypeColumn, "order", cutoff)
  }

  /** The `latency` values inside the window, as the `ORDER BY value` query returns them. */
  function LatenciesIn(rows: seq<Metric>, cutoff: int): seq<int> {
    Values(SortBy(Select(rows, NameColumn, "latency", cutoff), ByValue))
  }

  /** The `market_data` rows inside the window. */
  function MarketDataIn(rows: seq<Metric>, cutoff: int): seq<Metric> {
    Select(rows, TypeColumn, "market_data", cutoff)
  }

  /** `calculateKPIs(minutes)` over the rows of the `metrics` table. */
  function CalculateKpis(rows: seq<Metric>, minutes: int, now: int): (k: KpiSnapshot)
    ensures k.orderCount >= 1
    ensures k.latencyP50 <= k.latencyP95 <= k.latencyP99
    ensures minutes == 0 <==> k.messageRate.None?
  {
    var cutoff := Cutoff(now, minutes);
    var orders := OrdersIn(rows, cutoff);
    var latencies := LatenciesIn(rows, cutoff);
    PercentileMonotone(latencies, 50, 95);
    PercentileMonotone(latencies, 95, 99);
    KpiSnapshot(
      OutcomeRate(orders, "fill"), OutcomeRate(orders, "cancel"), OutcomeRate(orders, "reject"),
      Percentile(latencies, 50), Percentile(latencies, 95), Percentile(latencies, 99),
      LatestValue(rows, "position_exposure", cutoff),
      Denominator(orders),
      MessageRate(|MarketDataIn(rows, cutoff)|, minutes))
  }

  /** The three rates are percentages of disjoint parts of the order rows:
      each is between 0 and 100 and together they are at most 100. */
  lemma KpiRatesBounded(rows: seq<Metric>, minutes: int, now: int)
    ensures var k := CalculateKpis(rows, minutes, now);
            0.0 <= k.fillRate <= 100.0 && 0.0 <= k.cancelRate <= 100.0 && 0.0 <= k.rejectRate <= 100.0
            && k.fillRate + k.cancelRate + k.rejectRate <= 100.0
  {
    var orders := OrdersIn(rows, Cutoff(now, minutes));
    OutcomesAtMostTotal(orders);
    SharesBounded(CountNamed(orders, "fill"), CountNamed(orders, "cancel"), CountNamed(orders, "reject"), Denominator(orders));
  }

  /** No row matches: the selection is empty. */
  lemma {:induction false} SelectNone(rows: seq<Metric>, column: Column, v: string, cutoff: int)
    requires forall i | 0 <= i < |rows| :: !Matches(rows[i], column, v, cutoff)
    ensures Select(rows, column, v, cutoff) == []
  {
    if rows != [] {
      SelectNone(rows[1..], column, v, cutoff);
    }
  }

  /** An empty window has all rates 0 and, because the denominator floor is
      returned as the count, an order count of 1. */
  lemma EmptyWindowKpis(rows: seq<Metric>, minutes: int, now: int)
    requires forall i | 0 <= i < |rows| :: rows[i].timestamp <= Cutoff(now, minutes)
    ensures var k := CalculateKpis(rows, minutes, now);
            k.fillRate == 0.0 && k.cancelRate == 0.0 && k.rejectRate == 0.0
            && k.orderCount == 1 && k.positionExposure == 0
            && k.latencyP50 == 0 && k.latencyP95 == 0 && k.latencyP99 == 0
            && (minutes != 0 ==> k.messageRate == Some(0.0))
  {
    var cutoff := Cutoff(now, minutes);
    SelectNone(rows, TypeColumn, "order", cutoff);
    SelectNone(rows, NameColumn, "latency", cutoff);
    SelectNone(rows, NameColumn, "position_exposure", cutoff);
    SelectNone(rows, TypeColumn, "market_data", cutoff);
    assert LatenciesIn(rows, cutoff) == [];
  }

  /** The rate law of a snapshot over the order rows `orders`: each rate
      times the order count is a hundred times the number of rows with that
      outcome. */
  predicate RateLaw(k: KpiSnapshot, orders: seq<Metric>) {
    k.fillRate * k.orderCount as real == 100.0 * CountNamed(orders, "fill") as real
    && k.cancelRate * k.orderCount as real == 100.0 * CountNamed(orders, "cancel") as real
    && k.rejectRate * k.orderCount as real == 100.0 * CountNamed(orders, "reject") as real
  }

  /** What each rate means: the rate times the order count is a hundred
      times the number of order rows with that outcome, where the order
      count is the number of order rows in the window, or 1 when there are
      none. */
  lemma RatesAreShares(rows: seq<Metric>, minutes: int, now: int)
    ensures var k := CalculateKpis(rows, minutes, now);
            var orders := OrdersIn(rows, Cutoff(now, minutes));
            (orders != [] ==> k.orderCount == |orders|)
            && (orders == [] ==> k.orderCount == 1)
            && RateLaw(k, orders)
  {
    var orders := OrdersIn(rows, Cutoff(now, minutes));
    RateFields(rows, minutes, now);
    RateTimesCount(CalculateKpis(rows, minutes, now), orders);
  }

  /** The snapshot's rates and order count are those of the window's
      order rows. */
  lemma RateFields(rows: seq<Metric>, minutes: int, now: int)
    ensures var k := CalculateKpis(rows, minutes, now);
            var orders := OrdersIn(rows, Cutoff(now, minutes));
            k.orderCount == Denominator(orders)
            && k.fillRate == OutcomeRate(orders, "fill")
            && k.cancelRate == OutcomeRate(orders, "cancel")
            && k.rejectRate == OutcomeRate(orders, "reject")
  {
  }

  /** A snapshot whose rates and count are those of `orders` satisfies the
      rate law. */
  lemma RateTimesCount(k: KpiSnapshot, orders: seq<Metric>)
    requires k.orderCount == Denominator(orders)
    requires k.fillRate == OutcomeRate(orders, "fill")
    requires k.cancelRate == OutcomeRate(orders, "cancel")
    requires k.rejectRate == OutcomeRate(orders, "reject")
    ensures RateLaw(k, orders)
  {
    ScaledShare(k.fillRate, k.orderCount, CountNamed(orders, "fill"));
    ScaledShare(k.cancelRate, k.orderCount, CountNamed(orders, "cancel"));
    ScaledShare(k.rejectRate, k.orderCount, CountNamed(orders, "reject"));
  }

  /** `ShareTimesTotal` for a rate known to be a share. */
  lemma ScaledShare(rate: real, total: nat, count: nat)
    requires total > 0 && rate == Share(count, total)
    ensures rate * total as real == 100.0 * count as real
  {
    ShareTimesTotal(count, total);
  }

  /** The exposure of the snapshot is 0 when no `position_exposure` row lies
      inside the window, and otherwise the value of such a row that no other
      such row is newer than. */
  lemma ExposureIsLatest(rows: seq<Metric>, minutes: int, now: int)
    ensures var k := CalculateKpis(rows, minutes, now);
            var cutoff := Cutoff(now, minutes);
            ((forall m | m in rows :: !Matches(m, NameColumn, "position_exposure", cutoff)) ==> k.positionExposure == 0)
            && ((exists m | m in rows :: Matches(m, NameColumn, "position_exposure", cutoff)) ==>
                  exists m | m in rows && Matches(m, NameColumn, "position_exposure", cutoff) ::
                    k.positionExposure == m.value
                    && forall m' | m' in rows && Matches(m', NameColumn, "position_exposure", cutoff) :: m'.timestamp <= m.timestamp)
  {
    LatestValueIsNewest(rows, "position_exposure", Cutoff(now, minutes));
  }

  /** The rate law: 100 order rows of which 80 fills, 15 cancels and 5
      rejects give rates of 80, 15 and 5. */
  lemma RateLawExample(rows: seq<Metric>, minutes: int, now: int)
    requires var orders := OrdersIn(rows, Cutoff(now, minutes));
             |orders| == 100 && CountNamed(orders, "fill") == 80
             && CountNamed(orders, "cancel") == 15 && CountNamed(orders, "reject") == 5
    ensures var k := CalculateKpis(rows, minutes, now);
            k.fillRate == 80.0 && k.cancelRate == 15.0 && k.rejectRate == 5.0 && k.orderCount == 100
  {
    RatesAreShares(rows, minutes, now);
  }

  /** The latency KPIs are nearest-rank percentiles of the window's latency values. */
  lemma LatencyKpisAreNearestRank(rows: seq<Metric>, minutes: int, now: int)
    requires LatenciesIn(rows, Cutoff(now, minutes)) != []
    ensures var lat := LatenciesIn(rows, Cutoff(now, minutes));
            var k := CalculateKpis(rows, minutes, now);
            var n := |lat|;
            k.latencyP95 in lat
            && AtMost(lat, k.latencyP95) >= RankOf(95, n) && Below(lat, k.latencyP95) < RankOf(95, n)
            && AtMost(lat, k.latencyP50) >= RankOf(50, n) && Below(lat, k.latencyP50) < RankOf(50, n)
            && AtMost(lat, k.latencyP99) >= RankOf(99, n) && Below(lat, k.latencyP99) < RankOf(99, n)
  {
    var lat := LatenciesIn(rows, Cutoff(now, minutes));
    PercentileIsNearestRank(lat, 50);
    PercentileIsNearestRank(lat, 95);
    PercentileIsNearestRank(lat, 99);
  }

  /** The buffered recorder. Observations wait in `buffer` until it holds
      `BUFFER_SIZE` of them or the flush timer fires; a flush moves them,
      in order, to the `metrics` table of `db`. */
  class MetricsEngine {
    var buffer: seq<Metric>
    const db: Database

    constructor (db: Database)
      ensures buffer == [] && this.db == db
    {
      buffer := [];
      this.db := db;
    }

    /** Everything recorded so far, flushed or not, in recording order. */
    ghost function Recorded(): seq<Metric>
      reads this, db
    {
      db.metrics + buffer
    }

    /** `recordMetric`: buffers one observation stamped `now`, flushing when
        the buffer reaches its size. */
    method RecordMetric(now: int, metricType: string, metricName: string, value: int, metadata: Option<string>)
      modifies this`buffer, db`metrics
      ensures |buffer| < BUFFER_SIZE
      ensures Recorded() == old(Recorded()) + [Metric(now, metricType, metricName, value, metadata)]
      ensures |old(buffer)| + 1 < BUFFER_SIZE ==>
        buffer == old(buffer) + [Metric(now, metricType, metricName, value, metadata)]
        && db.metrics == old(db.metrics)
      ensures |old(buffer)| + 1 >= BUFFER_SIZE ==>
        buffer == [] && db.metrics == old(db.metrics) + old(buffer) + [Metric(now, metricType, metricName, value, metadata)]
    {
      var metric := Metric(now, metricType, metricName, value, metadata);
      buffer := buffer + [metric];
      if |buffer| >= BUFFER_SIZE {
        FlushMetrics();
      }
    }

    /** `flushMetrics`: a no-op on an empty buffer; otherwise the buffer is
        swapped for an empty one and its contents inserted row by row. */
    method FlushMetrics()
      modifies this`buffer, db`metrics
      ensures buffer == []
      ensures db.metrics == old(db.metrics) + old(buffer)
      ensures Recorded() == old(Recorded())
    {
      if buffer == [] {
        return;
      }
      var pending := buffer;
      buffer := [];
      var i := 0;
      while i < |pending|
        invariant 0 <= i <= |pending|
        invariant buffer == []
        invariant db.metrics == old(db.metrics) + pending[..i]
      {
        db.InsertMetric(pending[i]);
        i := i + 1;
      }
      assert pending[..i] == pending;
    }

    /** `getRecentMetrics(metricType, minutes)` against the clock reading
        `now`: only flushed rows are seen, never the buffer. */
    method GetRecentMetrics(metricType: string, minutes: int, now: int) returns (rows: seq<Metric>)
      ensures rows == RecentMetrics(db.metrics, metricType, minutes, now)
    {
      rows := RecentMetrics(db.metrics, metricType, minutes, now);
    }

    /** `calculateKPIs(minutes)` against the clock reading `now`, over the
        flushed rows. */
    method CalculateKPIs(minutes: int, now: int) returns (kpis: KpiSnapshot)
      ensures kpis == CalculateKpis(db.metrics, minutes, now)
    {
      kpis := CalculateKpis(db.metrics, minutes, now);
    }
  }

  /** Recording, flushing and querying: an observation inside the window
      comes back from `getRecentMetrics` with its type, name and value. */
  method RecordFlushQuery(engine: MetricsEngine, now: int, metricType: string, metricName: string, value: int, minutes: int)
    returns (found: seq<Metric>)
    requires minutes > 0
    modifies engine, engine.db
    ensures Metric(now, metricType, metricName, value, None) in found
    ensures forall m | m in found :: m.metricType == metricType && m.timestamp > now - minutes * MINUTE_MS
  {
    var m := Metric(now, metricType, metricName, value, None);
    engine.RecordMetric(now, metricType, metricName, value, None);
    ghost var recorded := engine.Recorded();
    assert recorded[|recorded| - 1] == m;
    engine.FlushMetrics();
    var rows := engine.db.metrics;
    assert rows == recorded;
    assert multiset(rows)[m] > 0;
    assert m.timestamp > Cutoff(now, minutes) by {
      assert minutes * MINUTE_MS >= 60000;
    }
    found := engine.GetRecentMetrics(metricType, minutes, now);
    assert multiset(found)[m] > 0;
    forall m' | m' in found
      ensures m'.metricType == metricType && m'.timestamp > now - minutes * MINUTE_MS
    {
      assert multiset(found)[m'] > 0;
    }
  }
}
