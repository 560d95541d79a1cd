/** Droplet instances and the stale-market check of src/instances.rs. */
module Instances {
  import opened Common
  import opened Markets
  import Utilities
  import Exchanges

  datatype InstanceType = Mita | Ig

  function TypeAsStr(t: InstanceType): string {
    match t
    case Mita => "mita"
    case Ig => "ig"
  }

  /** `TryFrom<String> for InstanceType`. */
  function TypeTryFrom(s: string): (r: Result<InstanceType>)
    ensures r.Ok? ==> TypeAsStr(r.value) == ToLower(s)
    ensures r.Err? ==> forall t :: TypeAsStr(t) != ToLower(s)
    ensures r.Err? ==> r.error == ToLower(s) + " is not a supported instance."
  {
    TypeParseLower(ToLower(s))
  }

  function TypeParseLower(lower: string): Result<InstanceType> {
    match lower
    case "mita" => Ok(Mita)
    case "ig" => Ok(Ig)
    case other => Err(other + " is not a supported instance.")
  }

  /** Every instance type reads back as itself. */
  lemma TypeTryFromAsStr(t: InstanceType)
    ensures TypeTryFrom(TypeAsStr(t)) == Ok(t)
  {
    assert NoUpper(TypeAsStr(t));
    LowerOfLower(TypeAsStr(t));
  }

  /** Instance types parse regardless of letter case. */
  lemma TypeTryFromCaseInsensitive(s: string)
    ensures TypeTryFrom(ToUpper(s)) == TypeTryFrom(s)
    ensures TypeTryFrom(ToLower(s)) == TypeTryFrom(s)
  {
    LowerOfUpper(s);
    LowerIdempotent(s);
  }

  datatype InstanceStatus = New | Sync | Active | Restart | Paused | Terminated

  function StatusAsStr(s: InstanceStatus): string {
    match s
    case New => "new"
    case Sync => "sync"
    case Active => "active"
    case Restart => "restart"
    case Paused => "paused"
    case Terminated => "terminated"
  }

  /** `TryFrom<String> for InstanceStatus`. */
  function StatusTryFrom(s: string): (r: Result<InstanceStatus>)
    ensures r.Ok? ==> StatusAsStr(r.value) == ToLower(s)
    ensures r.Err? ==> forall t :: StatusAsStr(t) != ToLower(s)
    ensures r.Err? ==> r.error == ToLower(s) + " is not a supported instance status."
  {
    StatusParseLower(ToLower(s))
  }

  function StatusParseLower(lower: string): Result<InstanceStatus> {
    match lower
    case "new" => Ok(New)
    case "sync" => Ok(Sync)
    case "active" => Ok(Active)
    case "restart" => Ok(Restart)
    case "paused" => Ok(Paused)
    case "terminated" => Ok(Terminated)
    case other => Err(other + " is not a supported instance status.")
  }

  lemma StatusAsStrIsLower(s: InstanceStatus)
    ensures ToLower(StatusAsStr(s)) == StatusAsStr(s)
  {
    assert NoUpper(StatusAsStr(s));
    LowerOfLower(StatusAsStr(s));
  }

  lemma StatusParseLowerAsStr(s: InstanceStatus)
    ensures StatusParseLower(StatusAsStr(s)) == Ok(s)
  {
  }

  /** Every instance status reads back as itself. */
  lemma StatusTryFromAsStr(s: InstanceStatus)
    ensures StatusTryFrom(StatusAsStr(s)) == Ok(s)
  {
    StatusAsStrIsLower(s);
    StatusParseLowerAsStr(s);
  }

  /** Instance statuses parse regardless of letter case. */
  lemma StatusTryFromCaseInsensitive(s: string)
    ensures StatusTryFrom(ToUpper(s)) == StatusTryFrom(s)
    ensures StatusTryFrom(ToLower(s)) == StatusTryFrom(s)
  {
    LowerOfUpper(s);
    LowerIdempotent(s);
  }

  /** A row of `instances`. */
  datatype Instance = Instance(
    instanceType: InstanceType,
    droplet: string,
    exchangeName: Option<Exchanges.ExchangeName>,
    instanceStatus: InstanceStatus,
    restart: bool,
    lastRestartTs: Option<Instant>,
    restartCount: Option<int>,
    numMarkets: int,
    lastUpdateTs: Instant,
    lastMessageTs: Option<Instant>)

  /** The fields of a `metrics_ap` row the check reads. */
  datatype MetricRow = MetricRow(
    exchangeName: Exchanges.ExchangeName,
    marketName: string,
    timeFrame: Utilities.TimeFrame,
    lbp: int,
    datetime: Instant)

  /** The metric the check looks for: the 15-minute series with the 8640
      look-back for this exchange and market. */
  predicate Watched(m: MetricRow, exchange: Exchanges.ExchangeName, marketName: string) {
    m.exchangeName == exchange && m.marketName == marketName && m.timeFrame == Utilities.T15 && m.lbp == 8640
  }

  /** The datetime of the metric `find` reaches first once the metrics are
      sorted newest first: the latest watched one. */
  function Latest(metrics: seq<MetricRow>, exchange: Exchanges.ExchangeName, marketName: string): (r: Option<Instant>)
    ensures r.None? <==> forall i :: 0 <= i < |metrics| ==> !Watched(metrics[i], exchange, marketName)
    ensures r.Some? ==> exists i :: 0 <= i < |metrics| && Watched(metrics[i], exchange, marketName) && metrics[i].datetime == r.value
    ensures r.Some? ==> forall i :: 0 <= i < |metrics| && Watched(metrics[i], exchange, marketName) ==> metrics[i].datetime <= r.value
    decreases |metrics|
  {
    if |metrics| == 0 then None
    else
      var front := metrics[..|metrics| - 1];
      var m := metrics[|metrics| - 1];
      var rest := Latest(front, exchange, marketName);
      assert forall i :: 0 <= i < |front| ==> front[i] == metrics[i];
      if !Watched(m, exchange, marketName) then rest
      else if rest.Some? && rest.value >= m.datetime then rest
      else Some(m.datetime)
  }

  const STALE_METRIC: string := "Stale Metric"
  const NO_METRIC_FOUND: string := "No Metric Found"

  /** The reason a market is inactive, if it is. */
  function Classify(latest: Option<Instant>, expected: Instant): Option<string> {
    match latest
    case None => Some(NO_METRIC_FOUND)
    case Some(t) => if t != expected then Some(STALE_METRIC) else None
  }

  /** The start of the last interval that should have a metric: the current
      interval, truncated, minus one interval. */
  function ExpectedTs(now: Instant, duration: int): (r: Instant)
    requires duration > 0
    ensures r + duration <= now < r + 2 * duration
    ensures (r + duration) % duration == 0
  {
    var t := Trunc(now, duration);
    assert t == (now / duration) * duration;
    TruncOfMultiple(now / duration, duration);
    t - duration
  }

  /** The specification of the market loop: the inactive markets in order, each with its reason. */
  function Report(markets: seq<MarketDetail>, metrics: seq<MetricRow>, exchange: Exchanges.ExchangeName, expected: Instant): (r: seq<(MarketDetail, string)>)
    ensures |r| <= |markets|
    decreases |markets|
  {
    if |markets| == 0 then []
    else
      var front := Report(markets[..|markets| - 1], metrics, exchange, expected);
      var m := markets[|markets| - 1];
      match Classify(Latest(metrics, exchange, m.marketName), expected)
      case None => front
      case Some(reason) => front + [(m, reason)]
  }

  /** `Instance::inactive_markets`: `markets` are this droplet's markets,
      `metrics` those stored for its exchange, `now` the clock reading. An
      ingest instance has nothing to report; a sync instance without an
      exchange panics on `unwrap`, as does truncating a clock reading
      shorter than the interval. */
  method InactiveMarkets(inst: Instance, markets: seq<MarketDetail>, metrics: seq<MetricRow>, now: Instant, duration: int)
    returns (r: Outcome<seq<(MarketDetail, string)>>)
    requires duration > 0 && now >= 0
    ensures inst.instanceType == Ig ==> r == Returns([])
    ensures inst.instanceType == Mita && (inst.exchangeName.None? || duration > now) ==> r.Panics?
    ensures inst.instanceType == Mita && inst.exchangeName.Some? && duration <= now ==>
      r == Returns(Report(markets, metrics, inst.exchangeName.value, ExpectedTs(now, duration)))
  {
    if inst.instanceType == Ig {
      return Returns([]);
    }
    if inst.exchangeName.None? || duration > now {
      return Panics;
    }
    var exchange := inst.exchangeName.value;
    var expected := Trunc(now, duration) - duration;
    var im: seq<(MarketDetail, string)> := [];
    for i := 0 to |markets|
      invariant im == Report(markets[..i], metrics, exchange, expected)
    {
      assert markets[..i + 1][..i] == markets[..i];
      var lastMetric: Option<Instant> := None;
      for j := 0 to |metrics|
        invariant lastMetric == Latest(metrics[..j], exchange, markets[i].marketName)
      {
        assert metrics[..j + 1][..j] == metrics[..j];
        var m := metrics[j];
        if Watched(m, exchange, markets[i].marketName) && (lastMetric.None? || lastMetric.value < m.datetime) {
          lastMetric := Some(m.datetime);
        }
      }
      assert metrics[..|metrics|] == metrics;
      match lastMetric
      case Some(t) =>
        if t != expected {
          im := im + [(markets[i], STALE_METRIC)];
        }
      case None =>
        im := im + [(markets[i], NO_METRIC_FOUND)];
    }
    assert markets[..|markets|] == markets;
    return Returns(im);
  }

  /** Each entry of the report is one of the markets, with the reason its
      latest watched metric gives; a market is reported iff that reason
      exists, and every reason is one of the two messages. */
  lemma {:induction false} ReportSpec(markets: seq<MarketDetail>, metrics: seq<MetricRow>, exchange: Exchanges.ExchangeName, expected: Instant)
    ensures var r := Report(markets, metrics, exchange, expected);
      && (forall k :: 0 <= k < |r| ==>
            && r[k].0 in markets
            && Classify(Latest(metrics, exchange, r[k].0.marketName), expected) == Some(r[k].1)
            && (r[k].1 == STALE_METRIC || r[k].1 == NO_METRIC_FOUND))
      && (forall i :: 0 <= i < |markets| && Classify(Latest(metrics, exchange, markets[i].marketName), expected).Some? ==>
            (markets[i], Classify(Latest(metrics, exchange, markets[i].marketName), expected).value) in r)
    decreases |markets|
  {
    if |markets| > 0 {
      var front := markets[..|markets| - 1];
      ReportSpec(front, metrics, exchange, expected);
      assert forall i :: 0 <= i < |front| ==> front[i] == markets[i];
    }
  }

  /** A market whose watched metric is current is never reported. */
  lemma ReportOmitsCurrent(markets: seq<MarketDetail>, metrics: seq<MetricRow>, exchange: Exchanges.ExchangeName, expected: Instant, m: MarketDetail)
    requires Latest(metrics, exchange, m.marketName) == Some(expected)
    ensures forall k :: 0 <= k < |Report(markets, metrics, exchange, expected)| ==>
      Report(markets, metrics, exchange, expected)[k].0 != m
  {
    ReportSpec(markets, metrics, exchange, expected);
  }

  /** With distinct markets every market appears at most once. */
  lemma {:induction false} ReportOncePerMarket(markets: seq<MarketDetail>, metrics: seq<MetricRow>, exchange: Exchanges.ExchangeName, expected: Instant)
    requires forall i, j :: 0 <= i < j < |markets| ==> markets[i] != markets[j]
    ensures var r := Report(markets, metrics, exchange, expected);
      forall a, b :: 0 <= a < b < |r| ==> r[a].0 != r[b].0
    decreases |markets|
  {
    if |markets| > 0 {
      var front := markets[..|markets| - 1];
      var last := markets[|markets| - 1];
      ReportOncePerMarket(front, metrics, exchange, expected);
      ReportSpec(front, metrics, exchange, expected);
      assert forall i :: 0 <= i < |front| ==> front[i] == markets[i];
      assert last !in front;
    }
  }

  /** The example in the source: at 12:07 with 15-minute intervals the last
      expected metric is the one for 11:45. */
  lemma ExpectedTsExample()
    ensures ExpectedTs(Hours(12) + Minutes(7), Minutes(15)) == Hours(11) + Minutes(45)
  {
    DivUnique(Hours(12) + Minutes(7), Minutes(15), 48);
  }
}
