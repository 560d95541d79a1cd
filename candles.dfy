/** Candle aggregation, resampling and validation (src/candles.rs). */
module Candles {
  import opened Common
  import opened Utilities

  /** An FTX trade. */
  datatype Trade = Trade(id: int, price: Decimal, size: Decimal, side: string, liquidation: bool, time: Instant)

  /** An OHLC candle with volume, trade counts and the trades at its edges. */
  datatype Candle = Candle(
    datetime: Instant,
    open: Decimal,
    high: Decimal,
    low: Decimal,
    close: Decimal,
    volume: Decimal,
    volumeNet: Decimal,
    volumeLiquidation: Decimal,
    value: Decimal,
    tradeCount: int,
    liquidationCount: int,
    lastTradeTs: Instant,
    lastTradeId: string,
    firstTradeTs: Instant,
    firstTradeId: string,
    isValidated: bool)

  /** A candle as FTX reports it. */
  datatype ExchangeCandle = ExchangeCandle(
    startTime: Instant, time: Instant,
    open: Decimal, high: Decimal, low: Decimal, close: Decimal, volume: Decimal)

  // ---------------------------------------------------------------------------
  // Building a candle from trades
  // ---------------------------------------------------------------------------

  /** The accumulator `new_from_trades` starts its fold with. */
  function TradesSeed(datetime: Instant, first: Trade): Candle {
    Candle(datetime, first.price, DECIMAL_MIN, DECIMAL_MAX, 0.0, 0.0, 0.0, 0.0, 0.0, 0, 0,
           datetime, "", first.time, IntToString(first.id), false)
  }

  /** One step of the `new_from_trades` fold. */
  function TradeStep(c: Candle, t: Trade): Candle {
    c.(high := Max(c.high, t.price),
       low := Min(c.low, t.price),
       close := t.price,
       volume := c.volume + t.size,
       volumeNet := if t.side == "sell" then c.volumeNet + t.size * -1.0 else c.volumeNet + t.size,
       volumeLiquidation := if t.liquidation then c.volumeLiquidation + t.size else c.volumeLiquidation,
       value := c.value + t.size * t.price,
       tradeCount := c.tradeCount + 1,
       liquidationCount := if t.liquidation then c.liquidationCount + 1 else c.liquidationCount,
       lastTradeTs := t.time,
       lastTradeId := IntToString(t.id))
  }

  /** `trades.iter().fold(acc, step)`. */
  function FoldTrades(acc: Candle, ts: seq<Trade>): Candle
    decreases |ts|
  {
    if |ts| == 0 then acc else TradeStep(FoldTrades(acc, ts[..|ts| - 1]), ts[|ts| - 1])
  }

  /** What a trade contributes to each of the candle's sums. */
  datatype Measure = Size | Notional | BuySize | SellSize | LiquidatedSize

  function Amount(t: Trade, m: Measure): Decimal {
    match m
    case Size => t.size
    case Notional => t.size * t.price
    case BuySize => if t.side == "sell" then 0.0 else t.size
    case SellSize => if t.side == "sell" then t.size else 0.0
    case LiquidatedSize => if t.liquidation then t.size else 0.0
  }

  /** The sum of a measure over a list of trades. */
  function Total(ts: seq<Trade>, m: Measure): Decimal
    decreases |ts|
  {
    if |ts| == 0 then 0.0 else Total(ts[..|ts| - 1], m) + Amount(ts[|ts| - 1], m)
  }

  function LiquidationCount(ts: seq<Trade>): nat
    decreases |ts|
  {
    if |ts| == 0 then 0
    else LiquidationCount(ts[..|ts| - 1]) + (if ts[|ts| - 1].liquidation then 1 else 0)
  }

  lemma FoldTradesSnoc(acc: Candle, ts: seq<Trade>, t: Trade)
    ensures FoldTrades(acc, ts + [t]) == TradeStep(FoldTrades(acc, ts), t)
  {
    assert (ts + [t])[..|ts|] == ts;
  }

  /** Folding trades keeps the candle's identity and opening fields, counts
      the trades and takes the close and last trade from the last one. */
  lemma {:induction false} FoldTradesShape(acc: Candle, ts: seq<Trade>)
    ensures var r := FoldTrades(acc, ts);
      r.datetime == acc.datetime && r.open == acc.open
      && r.firstTradeTs == acc.firstTradeTs && r.firstTradeId == acc.firstTradeId
      && r.isValidated == acc.isValidated
      && r.tradeCount == acc.tradeCount + |ts|
    ensures |ts| > 0 ==> var r := FoldTrades(acc, ts);
      r.close == ts[|ts| - 1].price && r.lastTradeTs == ts[|ts| - 1].time
      && r.lastTradeId == IntToString(ts[|ts| - 1].id)
    decreases |ts|
  {
    if |ts| > 0 {
      FoldTradesShape(acc, ts[..|ts| - 1]);
    }
  }

  /** Each running sum of the fold grows by the matching total. */
  lemma {:induction false} FoldTradesTotals(acc: Candle, ts: seq<Trade>)
    ensures var r := FoldTrades(acc, ts);
      r.volume == acc.volume + Total(ts, Size)
      && r.value == acc.value + Total(ts, Notional)
      && r.volumeNet == acc.volumeNet + Total(ts, BuySize) - Total(ts, SellSize)
      && r.volumeLiquidation == acc.volumeLiquidation + Total(ts, LiquidatedSize)
      && r.liquidationCount == acc.liquidationCount + LiquidationCount(ts)
    decreases |ts|
  {
    if |ts| > 0 {
      var front := ts[..|ts| - 1];
      FoldTradesTotals(acc, front);
      TotalsStep(ts);
    }
  }

  /** The totals of a list are those of all but its last trade plus that trade's amounts. */
  lemma TotalsStep(ts: seq<Trade>)
    requires |ts| > 0
    ensures var front := ts[..|ts| - 1];
      var t := ts[|ts| - 1];
      && Total(ts, Size) == Total(front, Size) + t.size
      && Total(ts, Notional) == Total(front, Notional) + t.size * t.price
      && Total(ts, BuySize) == Total(front, BuySize) + (if t.side == "sell" then 0.0 else t.size)
      && Total(ts, SellSize) == Total(front, SellSize) + (if t.side == "sell" then t.size else 0.0)
      && Total(ts, LiquidatedSize) == Total(front, LiquidatedSize) + (if t.liquidation then t.size else 0.0)
      && LiquidationCount(ts) == LiquidationCount(front) + (if t.liquidation then 1 else 0)
  {
  }

  /** The running high and low bracket every price seen and are attained. */
  lemma {:induction false} FoldTradesExtremes(acc: Candle, ts: seq<Trade>)
    ensures var r := FoldTrades(acc, ts);
      r.high >= acc.high && r.low <= acc.low
      && (forall i :: 0 <= i < |ts| ==> r.low <= ts[i].price <= r.high)
      && (r.high == acc.high || exists i :: 0 <= i < |ts| && r.high == ts[i].price)
      && (r.low == acc.low || exists i :: 0 <= i < |ts| && r.low == ts[i].price)
    decreases |ts|
  {
    if |ts| > 0 {
      var front := ts[..|ts| - 1];
      FoldTradesExtremes(acc, front);
      var p, r := FoldTrades(acc, front), FoldTrades(acc, ts);
      assert forall i :: 0 <= i < |front| ==> ts[i] == front[i];
      if r.high != acc.high && r.high != ts[|ts| - 1].price {
        var i :| 0 <= i < |front| && p.high == front[i].price;
        assert r.high == ts[i].price;
      }
      if r.low != acc.low && r.low != ts[|ts| - 1].price {
        var i :| 0 <= i < |front| && p.low == front[i].price;
        assert r.low == ts[i].price;
      }
    }
  }

  /** `Candle::new_from_trades`: aggregate trades, in the order given, into one
      candle stamped `datetime`. The source's `expect` panics on an empty list. */
  function NewFromTrades(datetime: Instant, trades: seq<Trade>): (c: Candle)
    requires |trades| > 0
    ensures c.datetime == datetime && !c.isValidated
    ensures c.open == trades[0].price && c.close == trades[|trades| - 1].price
    ensures c.firstTradeTs == trades[0].time && c.firstTradeId == IntToString(trades[0].id)
    ensures c.lastTradeTs == trades[|trades| - 1].time && c.lastTradeId == IntToString(trades[|trades| - 1].id)
    ensures c.tradeCount == |trades|
  {
    FoldTradesShape(TradesSeed(datetime, trades[0]), trades);
    FoldTrades(TradesSeed(datetime, trades[0]), trades)
  }

  /** Volume, value, net volume, liquidation volume and count are the sums over the trades. */
  lemma NewFromTradesTotals(datetime: Instant, trades: seq<Trade>)
    requires |trades| > 0
    ensures var c := NewFromTrades(datetime, trades);
      c.volume == Total(trades, Size)
      && c.value == Total(trades, Notional)
      && c.volumeNet == Total(trades, BuySize) - Total(trades, SellSize)
      && c.volumeLiquidation == Total(trades, LiquidatedSize)
      && c.liquidationCount == LiquidationCount(trades)
  {
    FoldTradesTotals(TradesSeed(datetime, trades[0]), trades);
  }

  /** For prices a Decimal can hold, high is the largest price and low the smallest. */
  lemma NewFromTradesHighLow(datetime: Instant, trades: seq<Trade>)
    requires |trades| > 0
    requires forall i :: 0 <= i < |trades| ==> InDecimalRange(trades[i].price)
    ensures var c := NewFromTrades(datetime, trades);
      c.low <= c.high
      && (forall i :: 0 <= i < |trades| ==> c.low <= trades[i].price <= c.high)
      && (exists i :: 0 <= i < |trades| && c.high == trades[i].price)
      && (exists i :: 0 <= i < |trades| && c.low == trades[i].price)
  {
    var seed := TradesSeed(datetime, trades[0]);
    FoldTradesExtremes(seed, trades);
    var c := NewFromTrades(datetime, trades);
    assert c.low <= trades[0].price <= c.high;
    if c.high == DECIMAL_MIN {
      assert c.high == trades[0].price;
    }
    if c.low == DECIMAL_MAX {
      assert c.low == trades[0].price;
    }
  }

  lemma {:induction false} TotalsBounded(ts: seq<Trade>)
    requires forall i :: 0 <= i < |ts| ==> ts[i].size >= 0.0
    ensures Total(ts, BuySize) + Total(ts, SellSize) == Total(ts, Size)
    ensures Total(ts, BuySize) >= 0.0 && Total(ts, SellSize) >= 0.0
    ensures 0.0 <= Total(ts, LiquidatedSize) <= Total(ts, Size)
    ensures LiquidationCount(ts) <= |ts|
    decreases |ts|
  {
    if |ts| > 0 {
      TotalsBounded(ts[..|ts| - 1]);
    }
  }

  /** With non-negative sizes the net volume is bounded by the volume, and
      liquidations are part of the volume and of the count. */
  lemma NewFromTradesBounds(datetime: Instant, trades: seq<Trade>)
    requires |trades| > 0
    requires forall i :: 0 <= i < |trades| ==> trades[i].size >= 0.0
    ensures var c := NewFromTrades(datetime, trades);
      -c.volume <= c.volumeNet <= c.volume
      && 0.0 <= c.volumeLiquidation <= c.volume
      && 0 <= c.liquidationCount <= c.tradeCount
  {
    NewFromTradesTotals(datetime, trades);
    TotalsBounded(trades);
  }

  /** The four sample trades of the source's unit tests. */
  const SAMPLE_TRADES: seq<Trade> := [
    Trade(1, 70.2, 2.3, "sell", false, Seconds(1524886322)),
    Trade(2, 75.2, 6.4, "buy", false, Seconds(1524887322)),
    Trade(3, 81.0, 0.4, "buy", true, Seconds(1524888322)),
    Trade(4, 76.7, 1.3, "sell", false, Seconds(1524889322))
  ]

  /** The candle built from the sample trades. */
  lemma SampleTradesCandle()
    ensures var c := NewFromTrades(Seconds(1524886322), SAMPLE_TRADES);
      c.open == 70.2 && c.high == 81.0 && c.low == 70.2 && c.close == 76.7
      && c.volume == 10.4 && c.volumeNet == 3.2 && c.volumeLiquidation == 0.4
      && c.value == 774.85 && c.tradeCount == 4 && c.liquidationCount == 1
  {
    var ts := SAMPLE_TRADES;
    var seed := TradesSeed(Seconds(1524886322), ts[0]);
    assert ts == [] + [ts[0]] + [ts[1]] + [ts[2]] + [ts[3]];
    FoldTradesSnoc(seed, [], ts[0]);
    FoldTradesSnoc(seed, [ts[0]], ts[1]);
    FoldTradesSnoc(seed, [ts[0], ts[1]], ts[2]);
    FoldTradesSnoc(seed, [ts[0], ts[1], ts[2]], ts[3]);
  }

  // ---------------------------------------------------------------------------
  // Building a candle from candles
  // ---------------------------------------------------------------------------

  /** The accumulator `new_from_candles` starts its fold with. */
  function CandlesSeed(datetime: Instant, first: Candle): Candle {
    Candle(datetime, first.open, DECIMAL_MIN, DECIMAL_MAX, 0.0, 0.0, 0.0, 0.0, 0.0, 0, 0,
           datetime, "", first.firstTradeTs, first.firstTradeId, false)
  }

  /** One step of the `new_from_candles` fold. */
  function CandleStep(acc: Candle, c: Candle): Candle {
    acc.(high := Max(acc.high, c.high),
         low := Min(acc.low, c.low),
         close := c.close,
         volume := acc.volume + c.volume,
         volumeNet := acc.volumeNet + c.volumeNet,
         volumeLiquidation := acc.volumeLiquidation + c.volumeLiquidation,
         value := acc.value + c.value,
         tradeCount := acc.tradeCount + c.tradeCount,
         liquidationCount := acc.liquidationCount + c.liquidationCount,
         lastTradeTs := c.lastTradeTs,
         lastTradeId := c.lastTradeId)
  }

  function FoldCandles(acc: Candle, cs: seq<Candle>): Candle
    decreases |cs|
  {
    if |cs| == 0 then acc else CandleStep(FoldCandles(acc, cs[..|cs| - 1]), cs[|cs| - 1])
  }

  /** The sums a candle carries. */
  datatype CandleMeasure = Volume | VolumeNet | VolumeLiquidation | Value | TradeCount | LiquidationCountOf

  function CandleAmount(c: Candle, m: CandleMeasure): Decimal {
    match m
    case Volume => c.volume
    case VolumeNet => c.volumeNet
    case VolumeLiquidation => c.volumeLiquidation
    case Value => c.value
    case TradeCount => c.tradeCount as real
    case LiquidationCountOf => c.liquidationCount as real
  }

  function CandleTotal(cs: seq<Candle>, m: CandleMeasure): Decimal
    decreases |cs|
  {
    if |cs| == 0 then 0.0 else CandleTotal(cs[..|cs| - 1], m) + CandleAmount(cs[|cs| - 1], m)
  }

  lemma {:induction false} FoldCandlesShape(acc: Candle, cs: seq<Candle>)
    ensures var r := FoldCandles(acc, cs);
      r.datetime == acc.datetime && r.open == acc.open
      && r.firstTradeTs == acc.firstTradeTs && r.firstTradeId == acc.firstTradeId
      && r.isValidated == acc.isValidated
    ensures |cs| > 0 ==> var r := FoldCandles(acc, cs);
      r.close == cs[|cs| - 1].close && r.lastTradeTs == cs[|cs| - 1].lastTradeTs
      && r.lastTradeId == cs[|cs| - 1].lastTradeId
    decreases |cs|
  {
    if |cs| > 0 {
      FoldCandlesShape(acc, cs[..|cs| - 1]);
    }
  }

  lemma {:induction false} FoldCandlesTotals(acc: Candle, cs: seq<Candle>)
    ensures forall m :: CandleAmount(FoldCandles(acc, cs), m) == CandleAmount(acc, m) + CandleTotal(cs, m)
    decreases |cs|
  {
    if |cs| > 0 {
      FoldCandlesTotals(acc, cs[..|cs| - 1]);
    }
  }

  lemma {:induction false} FoldCandlesExtremes(acc: Candle, cs: seq<Candle>)
    ensures var r := FoldCandles(acc, cs);
      r.high >= acc.high && r.low <= acc.low
      && (forall i :: 0 <= i < |cs| ==> r.low <= cs[i].low && cs[i].high <= r.high)
      && (r.high == acc.high || exists i :: 0 <= i < |cs| && r.high == cs[i].high)
      && (r.low == acc.low || exists i :: 0 <= i < |cs| && r.low == cs[i].low)
    decreases |cs|
  {
    if |cs| > 0 {
      var front := cs[..|cs| - 1];
      FoldCandlesExtremes(acc, front);
      var p, r := FoldCandles(acc, front), FoldCandles(acc, cs);
      assert forall i :: 0 <= i < |front| ==> cs[i] == front[i];
      if r.high != acc.high && r.high != cs[|cs| - 1].high {
        var i :| 0 <= i < |front| && p.high == front[i].high;
        assert r.high == cs[i].high;
      }
      if r.low != acc.low && r.low != cs[|cs| - 1].low {
        var i :| 0 <= i < |front| && p.low == front[i].low;
        assert r.low == cs[i].low;
      }
    }
  }

  /** `Candle::new_from_candles`: merge candles, in the order given, into one
      candle stamped `datetime`. The source's `expect` panics on an empty list. */
  function NewFromCandles(datetime: Instant, candles: seq<Candle>): (c: Candle)
    requires |candles| > 0
    ensures c.datetime == datetime && !c.isValidated
    ensures c.open == candles[0].open && c.close == candles[|candles| - 1].close
    ensures c.firstTradeTs == candles[0].firstTradeTs && c.firstTradeId == candles[0].firstTradeId
    ensures c.lastTradeTs == candles[|candles| - 1].lastTradeTs
    ensures c.lastTradeId == candles[|candles| - 1].lastTradeId
  {
    FoldCandlesShape(CandlesSeed(datetime, candles[0]), candles);
    FoldCandles(CandlesSeed(datetime, candles[0]), candles)
  }

  /** Volumes, value and both counts of the merged candle are the sums over the parts. */
  lemma NewFromCandlesTotals(datetime: Instant, candles: seq<Candle>)
    requires |candles| > 0
    ensures forall m :: CandleAmount(NewFromCandles(datetime, candles), m) == CandleTotal(candles, m)
  {
    FoldCandlesTotals(CandlesSeed(datetime, candles[0]), candles);
  }

  /** For highs and lows a Decimal can hold, the merged high is the largest
      high and the merged low the smallest low. */
  lemma NewFromCandlesHighLow(datetime: Instant, candles: seq<Candle>)
    requires |candles| > 0
    requires forall i :: 0 <= i < |candles| ==> InDecimalRange(candles[i].high) && InDecimalRange(candles[i].low)
    ensures var c := NewFromCandles(datetime, candles);
      (forall i :: 0 <= i < |candles| ==> c.low <= candles[i].low && candles[i].high <= c.high)
      && (exists i :: 0 <= i < |candles| && c.high == candles[i].high)
      && (exists i :: 0 <= i < |candles| && c.low == candles[i].low)
  {
    FoldCandlesExtremes(CandlesSeed(datetime, candles[0]), candles);
    var c := NewFromCandles(datetime, candles);
    if c.high == DECIMAL_MIN {
      assert c.high == candles[0].high;
    }
    if c.low == DECIMAL_MAX {
      assert c.low == candles[0].low;
    }
  }

  // ---------------------------------------------------------------------------
  // Merging trade candles is building from all their trades
  // ---------------------------------------------------------------------------

  /** An accumulator whose high and low have not passed the fold's sentinels. */
  predicate InSentinels(c: Candle) {
    c.high >= DECIMAL_MIN && c.low <= DECIMAL_MAX
  }

  lemma {:induction false} FoldTradesInSentinels(acc: Candle, ts: seq<Trade>)
    requires InSentinels(acc)
    ensures InSentinels(FoldTrades(acc, ts))
  {
    FoldTradesExtremes(acc, ts);
  }

  /** Folding a trade into a merge is merging the trade-extended candle. */
  lemma TradeStepAfterMerge(acc: Candle, c: Candle, t: Trade)
    ensures TradeStep(CandleStep(acc, c), t) == CandleStep(acc, TradeStep(c, t))
  {
  }

  /** Folding a non-empty list of trades into `acc` is merging the candle those
      trades make on their own. */
  lemma {:induction false} FoldTradesIsMerge(acc: Candle, seed: Candle, ts: seq<Trade>)
    requires |ts| > 0 && InSentinels(acc)
    requires seed.high == DECIMAL_MIN && seed.low == DECIMAL_MAX
    requires seed.volume == 0.0 && seed.volumeNet == 0.0 && seed.volumeLiquidation == 0.0 && seed.value == 0.0
    requires seed.tradeCount == 0 && seed.liquidationCount == 0
    ensures FoldTrades(acc, ts) == CandleStep(acc, FoldTrades(seed, ts))
    decreases |ts|
  {
    var front, t := ts[..|ts| - 1], ts[|ts| - 1];
    if |front| == 0 {
      assert FoldTrades(acc, front) == acc;
      assert FoldTrades(seed, front) == seed;
    } else {
      FoldTradesIsMerge(acc, seed, front);
      TradeStepAfterMerge(acc, FoldTrades(seed, front), t);
    }
  }

  lemma {:induction false} FoldTradesAppend(acc: Candle, a: seq<Trade>, b: seq<Trade>)
    ensures FoldTrades(acc, a + b) == FoldTrades(FoldTrades(acc, a), b)
    decreases |b|
  {
    if |b| == 0 {
      assert a + b == a;
    } else {
      assert (a + b)[..|a + b| - 1] == a + b[..|b| - 1];
      FoldTradesAppend(acc, a, b[..|b| - 1]);
    }
  }

  /** The candles built from consecutive groups of trades. */
  function TradeCandles(dts: seq<Instant>, groups: seq<seq<Trade>>): (cs: seq<Candle>)
    requires |dts| == |groups|
    requires forall i :: 0 <= i < |groups| ==> |groups[i]| > 0
    ensures |cs| == |groups|
    decreases |groups|
  {
    if |groups| == 0 then []
    else
      TradeCandles(dts[..|dts| - 1], groups[..|groups| - 1])
      + [NewFromTrades(dts[|dts| - 1], groups[|groups| - 1])]
  }

  function Concat(groups: seq<seq<Trade>>): seq<Trade>
    decreases |groups|
  {
    if |groups| == 0 then [] else Concat(groups[..|groups| - 1]) + groups[|groups| - 1]
  }

  lemma {:induction false} TradeCandlesFold(acc: Candle, dts: seq<Instant>, groups: seq<seq<Trade>>)
    requires |dts| == |groups|
    requires forall i :: 0 <= i < |groups| ==> |groups[i]| > 0
    requires InSentinels(acc)
    ensures FoldCandles(acc, TradeCandles(dts, groups)) == FoldTrades(acc, Concat(groups))
    decreases |groups|
  {
    if |groups| > 0 {
      var n := |groups|;
      var g := groups[n - 1];
      var front := groups[..n - 1];
      TradeCandlesFold(acc, dts[..n - 1], front);
      var before := FoldTrades(acc, Concat(front));
      FoldTradesInSentinels(acc, Concat(front));
      FoldTradesAppend(acc, Concat(front), g);
      FoldTradesIsMerge(before, TradesSeed(dts[n - 1], g[0]), g);
    }
  }

  lemma {:induction false} FirstOfGroups(dts: seq<Instant>, groups: seq<seq<Trade>>)
    requires |dts| == |groups| > 0
    requires forall i :: 0 <= i < |groups| ==> |groups[i]| > 0
    ensures TradeCandles(dts, groups)[0] == NewFromTrades(dts[0], groups[0])
    ensures |Concat(groups)| > 0 && Concat(groups)[0] == groups[0][0]
    decreases |groups|
  {
    if |groups| > 1 {
      FirstOfGroups(dts[..|dts| - 1], groups[..|groups| - 1]);
    } else {
      assert Concat(groups) == Concat(groups[..0]) + groups[0];
    }
  }

  /** Merging the candles of consecutive trade groups gives the candle of all
      their trades: resampling trade candles loses nothing. */
  lemma MergeOfTradeCandles(datetime: Instant, dts: seq<Instant>, groups: seq<seq<Trade>>)
    requires |dts| == |groups| > 0
    requires forall i :: 0 <= i < |groups| ==> |groups[i]| > 0
    ensures NewFromCandles(datetime, TradeCandles(dts, groups)) == NewFromTrades(datetime, Concat(groups))
  {
    FirstOfGroups(dts, groups);
    var cs, ts := TradeCandles(dts, groups), Concat(groups);
    assert CandlesSeed(datetime, cs[0]) == TradesSeed(datetime, ts[0]);
    TradeCandlesFold(TradesSeed(datetime, ts[0]), dts, groups);
  }

  // ---------------------------------------------------------------------------
  // Forward fill
  // ---------------------------------------------------------------------------

  /** `Candle::new_from_last`: a zero-volume placeholder carrying the last
      known price and trade. */
  function NewFromLast(datetime: Instant, lastTradePrice: Decimal, lastTradeTs: Instant, lastTradeId: string): (c: Candle)
    ensures c.datetime == datetime && !c.isValidated
    ensures c.open == lastTradePrice && c.high == lastTradePrice
    ensures c.low == lastTradePrice && c.close == lastTradePrice
    ensures c.volume == 0.0 && c.volumeNet == 0.0 && c.volumeLiquidation == 0.0 && c.value == 0.0
    ensures c.tradeCount == 0 && c.liquidationCount == 0
    ensures c.firstTradeTs == c.lastTradeTs == lastTradeTs
    ensures c.firstTradeId == c.lastTradeId == lastTradeId
  {
    Candle(datetime, lastTradePrice, lastTradePrice, lastTradePrice, lastTradePrice,
           0.0, 0.0, 0.0, 0.0, 0, 0, lastTradeTs, lastTradeId, lastTradeTs, lastTradeId, false)
  }

  /** Merging the forward fill of a candle into it changes nothing. */
  lemma ForwardFillIsNeutral(acc: Candle, datetime: Instant)
    requires acc.low <= acc.close <= acc.high
    ensures CandleStep(acc, NewFromLast(datetime, acc.close, acc.lastTradeTs, acc.lastTradeId)) == acc
  {
  }

  // ---------------------------------------------------------------------------
  // Resampling
  // ---------------------------------------------------------------------------

  /** The candles whose datetime truncates to `bucket`, in order. */
  function Bucket(cs: seq<Candle>, bucket: Instant, d: int): (r: seq<Candle>)
    requires d > 0
    ensures |r| <= |cs|
    decreases |cs|
  {
    if |cs| == 0 then []
    else
      var last := cs[|cs| - 1];
      Bucket(cs[..|cs| - 1], bucket, d) + (if Trunc(last.datetime, d) == bucket then [last] else [])
  }

  lemma {:induction false} BucketMembers(cs: seq<Candle>, bucket: Instant, d: int)
    requires d > 0
    ensures forall c :: c in Bucket(cs, bucket, d) <==> c in cs && Trunc(c.datetime, d) == bucket
    decreases |cs|
  {
    if |cs| > 0 {
      BucketMembers(cs[..|cs| - 1], bucket, d);
      assert cs == cs[..|cs| - 1] + [cs[|cs| - 1]];
    }
  }

  /** One candle per bucket, or a panic when a bucket is empty. */
  function ResampleBuckets(cs: seq<Candle>, buckets: seq<Instant>, d: int): Outcome<seq<Candle>>
    requires d > 0
    decreases |buckets|
  {
    if |buckets| == 0 then Returns([])
    else
      var b := buckets[|buckets| - 1];
      var filtered := Bucket(cs, b, d);
      match ResampleBuckets(cs, buckets[..|buckets| - 1], d)
      case Panics => Panics
      case Returns(v) => if |filtered| == 0 then Panics else Returns(v + [NewFromCandles(b, filtered)])
  }

  /** The buckets from the first candle's to the last candle's, inclusive. */
  function ResampleRange(cs: seq<Candle>, d: int): seq<Instant>
    requires d > 0 && |cs| > 0
  {
    var lo := Trunc(cs[0].datetime, d);
    var hi := Trunc(cs[|cs| - 1].datetime, d);
    Steps(lo, InclusiveCount(lo, hi, d), d)
  }

  /** What `resample_candles` computes. */
  function Resample(cs: seq<Candle>, d: int): Outcome<seq<Candle>>
    requires d > 0
  {
    if |cs| == 0 then Returns([]) else ResampleBuckets(cs, ResampleRange(cs, d), d)
  }

  /** `resample_candles`: candles regrouped into buckets of `duration`. */
  method ResampleCandles(candles: seq<Candle>, duration: int) returns (r: Outcome<seq<Candle>>)
    requires duration > 0
    ensures r == Resample(candles, duration)
  {
    if |candles| == 0 {
      return Returns([]);
    }
    var floorStart := Trunc(candles[0].datetime, duration);
    var floorEnd := Trunc(candles[|candles| - 1].datetime, duration);
    var drStart := floorStart;
    var dateRange: seq<Instant> := [];
    while drStart <= floorEnd
      invariant dateRange == Steps(floorStart, |dateRange|, duration)
      invariant drStart == Nth(floorStart, |dateRange|, duration)
      invariant |dateRange| > 0 ==> Nth(floorStart, |dateRange| - 1, duration) <= floorEnd
      invariant |dateRange| == 0 ==> drStart == floorStart
      decreases floorEnd - drStart
    {
      dateRange := dateRange + [drStart];
      drStart := drStart + duration;
    }
    InclusiveCountOfStop(floorStart, floorEnd, duration, |dateRange|);
    assert dateRange == ResampleRange(candles, duration);
    var resampled: seq<Candle> := [];
    var i := 0;
    while i < |dateRange|
      invariant 0 <= i <= |dateRange|
      invariant ResampleBuckets(candles, dateRange[..i], duration) == Returns(resampled)
    {
      var filtered := Bucket(candles, dateRange[i], duration);
      ResampleStep(candles, dateRange, i, duration, resampled);
      if |filtered| == 0 {
        PanicsPersist(candles, dateRange, i + 1, duration);
        assert dateRange[..|dateRange|] == dateRange;
        return Panics;
      }
      resampled := resampled + [NewFromCandles(dateRange[i], filtered)];
      i := i + 1;
    }
    assert dateRange[..|dateRange|] == dateRange;
    return Returns(resampled);
  }

  lemma ResampleStep(cs: seq<Candle>, buckets: seq<Instant>, i: nat, d: int, acc: seq<Candle>)
    requires d > 0 && i < |buckets|
    requires ResampleBuckets(cs, buckets[..i], d) == Returns(acc)
    ensures var filtered := Bucket(cs, buckets[i], d);
      ResampleBuckets(cs, buckets[..i + 1], d)
      == if |filtered| == 0 then Panics else Returns(acc + [NewFromCandles(buckets[i], filtered)])
  {
    assert buckets[..i + 1][..i] == buckets[..i];
  }

  /** Once a prefix of the buckets panics, all of them do. */
  lemma {:induction false} PanicsPersist(cs: seq<Candle>, buckets: seq<Instant>, k: nat, d: int)
    requires d > 0 && k <= |buckets|
    requires ResampleBuckets(cs, buckets[..k], d) == Panics
    ensures ResampleBuckets(cs, buckets, d) == Panics
    decreases |buckets| - k
  {
    if k < |buckets| {
      assert buckets[..k + 1][..k] == buckets[..k];
      PanicsPersist(cs, buckets, k + 1, d);
    } else {
      assert buckets[..k] == buckets;
    }
  }

  /** Resampling succeeds exactly when no bucket is empty, and then yields one
      candle per bucket, stamped with the bucket, built from that bucket's candles. */
  lemma {:induction false} ResampleBucketsShape(cs: seq<Candle>, buckets: seq<Instant>, d: int)
    requires d > 0
    ensures ResampleBuckets(cs, buckets, d).Returns? <==>
      forall i :: 0 <= i < |buckets| ==> |Bucket(cs, buckets[i], d)| > 0
    ensures ResampleBuckets(cs, buckets, d).Returns? ==>
      var v := ResampleBuckets(cs, buckets, d).value;
      |v| == |buckets|
      && forall i :: 0 <= i < |buckets| ==>
        |Bucket(cs, buckets[i], d)| > 0 && v[i] == NewFromCandles(buckets[i], Bucket(cs, buckets[i], d))
    decreases |buckets|
  {
    if |buckets| > 0 {
      var front := buckets[..|buckets| - 1];
      ResampleBucketsShape(cs, front, d);
      assert forall i :: 0 <= i < |front| ==> buckets[i] == front[i];
    }
  }

  /** An empty list resamples to an empty list. */
  lemma ResampleEmpty(d: int)
    requires d > 0
    ensures Resample([], d) == Returns([])
  {
  }

  /** A successful resample has one candle per bucket from the first candle's
      bucket to the last one's, stamped at strictly increasing multiples of the duration. */
  lemma ResampleShape(cs: seq<Candle>, d: int)
    requires d > 0 && |cs| > 0
    requires Resample(cs, d).Returns?
    ensures var v := Resample(cs, d).value;
      var lo := Trunc(cs[0].datetime, d);
      |v| == InclusiveCount(lo, Trunc(cs[|cs| - 1].datetime, d), d)
      && (forall i :: 0 <= i < |v| ==> v[i].datetime == lo + i * d)
      && (forall i, j :: 0 <= i < j < |v| ==> v[i].datetime < v[j].datetime)
  {
    var bs := ResampleRange(cs, d);
    var lo := Trunc(cs[0].datetime, d);
    ResampleBucketsShape(cs, bs, d);
    StepsIndex(lo, |bs|, d);
    var v := Resample(cs, d).value;
    forall i | 0 <= i < |v|
      ensures v[i].datetime == lo + i * d
    {
      NthIsProduct(lo, i, d);
    }
    forall i, j | 0 <= i < j < |v|
      ensures v[i].datetime < v[j].datetime
    {
      NthIncreasing(lo, i, j, d);
    }
  }

  // Conservation of trade counts.

  function SumTradeCount(cs: seq<Candle>): int
    decreases |cs|
  {
    if |cs| == 0 then 0 else SumTradeCount(cs[..|cs| - 1]) + cs[|cs| - 1].tradeCount
  }

  /** The trade counts of every bucket, added up. */
  function BucketsTradeCount(cs: seq<Candle>, buckets: seq<Instant>, d: int): int
    requires d > 0
    decreases |buckets|
  {
    if |buckets| == 0 then 0
    else BucketsTradeCount(cs, buckets[..|buckets| - 1], d) + SumTradeCount(Bucket(cs, buckets[|buckets| - 1], d))
  }

  /** `v` counted once for each occurrence of `x` among the buckets. */
  function Hits(buckets: seq<Instant>, x: Instant, v: int): int
    decreases |buckets|
  {
    if |buckets| == 0 then 0
    else Hits(buckets[..|buckets| - 1], x, v) + (if buckets[|buckets| - 1] == x then v else 0)
  }

  lemma {:induction false} BucketsTradeCountSnoc(cs: seq<Candle>, c: Candle, buckets: seq<Instant>, d: int)
    requires d > 0
    ensures BucketsTradeCount(cs + [c], buckets, d)
      == BucketsTradeCount(cs, buckets, d) + Hits(buckets, Trunc(c.datetime, d), c.tradeCount)
    decreases |buckets|
  {
    if |buckets| > 0 {
      BucketsTradeCountSnoc(cs, c, buckets[..|buckets| - 1], d);
      var b := buckets[|buckets| - 1];
      assert (cs + [c])[..|cs + [c]| - 1] == cs;
      var extra := if Trunc(c.datetime, d) == b then [c] else [];
      assert Bucket(cs + [c], b, d) == Bucket(cs, b, d) + extra;
      assert SumTradeCount(Bucket(cs, b, d) + extra) == SumTradeCount(Bucket(cs, b, d)) + SumTradeCount(extra) by {
        if extra != [] {
          assert (Bucket(cs, b, d) + extra)[..|Bucket(cs, b, d) + extra| - 1] == Bucket(cs, b, d);
        } else {
          assert Bucket(cs, b, d) + extra == Bucket(cs, b, d);
        }
      }
    }
  }

  /** Among strictly increasing buckets, a value that occurs is hit exactly once. */
  lemma {:induction false} HitsOnce(buckets: seq<Instant>, x: Instant, v: int)
    requires StrictlyIncreasing(buckets)
    ensures x in buckets ==> Hits(buckets, x, v) == v
    ensures x !in buckets ==> Hits(buckets, x, v) == 0
    decreases |buckets|
  {
    if |buckets| > 0 {
      var front := buckets[..|buckets| - 1];
      assert StrictlyIncreasing(front);
      HitsOnce(front, x, v);
      assert buckets == front + [buckets[|buckets| - 1]];
      if buckets[|buckets| - 1] == x {
        assert x !in front;
      }
    }
  }

  /** When every candle falls in one of the (distinct) buckets, the buckets
      share out all the trade counts. */
  lemma {:induction false} BucketsPartition(cs: seq<Candle>, buckets: seq<Instant>, d: int)
    requires d > 0 && StrictlyIncreasing(buckets)
    requires forall i :: 0 <= i < |cs| ==> Trunc(cs[i].datetime, d) in buckets
    ensures BucketsTradeCount(cs, buckets, d) == SumTradeCount(cs)
    decreases |cs|
  {
    if |cs| == 0 {
      BucketsOfNothing(buckets, d);
    } else {
      var front, c := cs[..|cs| - 1], cs[|cs| - 1];
      BucketsPartition(front, buckets, d);
      assert cs == front + [c];
      BucketsTradeCountSnoc(front, c, buckets, d);
      HitsOnce(buckets, Trunc(c.datetime, d), c.tradeCount);
    }
  }

  lemma {:induction false} BucketsOfNothing(buckets: seq<Instant>, d: int)
    requires d > 0
    ensures BucketsTradeCount([], buckets, d) == 0
    decreases |buckets|
  {
    if |buckets| > 0 {
      BucketsOfNothing(buckets[..|buckets| - 1], d);
    }
  }

  lemma {:induction false} ResampledTradeCount(cs: seq<Candle>, buckets: seq<Instant>, d: int)
    requires d > 0
    requires ResampleBuckets(cs, buckets, d).Returns?
    ensures SumTradeCount(ResampleBuckets(cs, buckets, d).value) == BucketsTradeCount(cs, buckets, d)
    decreases |buckets|
  {
    if |buckets| > 0 {
      var front := buckets[..|buckets| - 1];
      var b := buckets[|buckets| - 1];
      ResampledTradeCount(cs, front, d);
      var v := ResampleBuckets(cs, front, d).value;
      var c := NewFromCandles(b, Bucket(cs, b, d));
      assert ResampleBuckets(cs, buckets, d).value == v + [c];
      assert (v + [c])[..|v + [c]| - 1] == v;
      NewFromCandlesTotals(b, Bucket(cs, b, d));
      CandleTotalIsSumTradeCount(Bucket(cs, b, d));
    }
  }

  lemma {:induction false} CandleTotalIsSumTradeCount(cs: seq<Candle>)
    ensures CandleTotal(cs, TradeCount) == SumTradeCount(cs) as real
    decreases |cs|
  {
    if |cs| > 0 {
      CandleTotalIsSumTradeCount(cs[..|cs| - 1]);
    }
  }

  predicate SortedByDatetime(cs: seq<Candle>) {
    forall i, j :: 0 <= i <= j < |cs| ==> cs[i].datetime <= cs[j].datetime
  }

  /** For candles sorted by datetime, every candle's bucket is in the resample range. */
  lemma SortedInRange(cs: seq<Candle>, d: int)
    requires d > 0 && |cs| > 0 && SortedByDatetime(cs)
    ensures StrictlyIncreasing(ResampleRange(cs, d))
    ensures forall i :: 0 <= i < |cs| ==> Trunc(cs[i].datetime, d) in ResampleRange(cs, d)
  {
    var lo := Trunc(cs[0].datetime, d);
    var hi := Trunc(cs[|cs| - 1].datetime, d);
    var n := InclusiveCount(lo, hi, d);
    var bs := ResampleRange(cs, d);
    StepsIndex(lo, n, d);
    forall i, j | 0 <= i < j < |bs|
      ensures bs[i] < bs[j]
    {
      NthIncreasing(lo, i, j, d);
    }
    forall i | 0 <= i < |cs|
      ensures Trunc(cs[i].datetime, d) in bs
    {
      var t := cs[i].datetime;
      TruncMonotone(cs[0].datetime, t, d);
      TruncMonotone(t, cs[|cs| - 1].datetime, d);
      var k := (t / d) - (cs[0].datetime / d);
      BucketIndex(cs[0].datetime, t, cs[|cs| - 1].datetime, d);
      assert 0 <= k < n;
      NthIsProduct(lo, k, d);
      assert bs[k] == Trunc(t, d);
    }
  }

  /** The bucket of `t` is `k` steps after the bucket of `first`. */
  lemma BucketIndex(first: Instant, t: Instant, last: Instant, d: int)
    requires d > 0 && first <= t <= last
    ensures var k := t / d - first / d;
      0 <= k && Trunc(first, d) + k * d == Trunc(t, d)
      && k < InclusiveCount(Trunc(first, d), Trunc(last, d), d)
  {
    var p, q, r := first / d, t / d, last / d;
    DivMonotone(first, t, d);
    DivMonotone(t, last, d);
    assert Trunc(first, d) + (q - p) * d == q * d by {
      assert (q - p) * d == q * d - p * d;
    }
    assert Trunc(last, d) - Trunc(first, d) == (r - p) * d;
    DivUnique((r - p) * d, d, r - p);
  }

  /** For candles sorted by datetime, a successful resample conserves the total trade count. */
  lemma ResampleConservesTradeCount(cs: seq<Candle>, d: int)
    requires d > 0 && SortedByDatetime(cs)
    requires Resample(cs, d).Returns?
    ensures SumTradeCount(Resample(cs, d).value) == SumTradeCount(cs)
  {
    if |cs| > 0 {
      var bs := ResampleRange(cs, d);
      SortedInRange(cs, d);
      ResampledTradeCount(cs, bs, d);
      BucketsPartition(cs, bs, d);
    }
  }

  // ---------------------------------------------------------------------------
  // Validation against the exchange
  // ---------------------------------------------------------------------------

  /** `i` is the first position whose exchange candle has the given time. */
  predicate FirstAt(ecs: seq<ExchangeCandle>, time: Instant, i: int) {
    0 <= i < |ecs| && ecs[i].time == time && forall j :: 0 <= j < i ==> ecs[j].time != time
  }

  /** `exchange_candles.iter().find(|c| c.time == candle.datetime)`. */
  function FindByTime(ecs: seq<ExchangeCandle>, time: Instant): (r: Option<ExchangeCandle>)
    ensures r.None? <==> forall i :: 0 <= i < |ecs| ==> ecs[i].time != time
    ensures r.Some? ==> exists i :: FirstAt(ecs, time, i) && ecs[i] == r.value
    decreases |ecs|
  {
    if |ecs| == 0 then None
    else if ecs[0].time == time then (assert FirstAt(ecs, time, 0); Some(ecs[0]))
    else
      var r := FindByTime(ecs[1..], time);
      assert forall i :: 1 <= i < |ecs| ==> ecs[i] == ecs[1..][i - 1];
      if r.Some? then
        var k :| FirstAt(ecs[1..], time, k) && ecs[1..][k] == r.value;
        assert FirstAt(ecs, time, k + 1);
        r
      else r
  }

  /** The 1 basis point tolerance. */
  const TOLERANCE: Decimal := 0.0001

  /** `validate_candle`: the candle's value agrees with the exchange candle's
      volume. Dividing by a zero value panics. */
  function ValidateCandle(candle: Candle, exchangeCandles: seq<ExchangeCandle>): (r: Outcome<bool>)
    ensures FindByTime(exchangeCandles, candle.datetime).None? ==> r == Returns(candle.volume == 0.0)
    ensures FindByTime(exchangeCandles, candle.datetime).Some? ==>
      var ec := FindByTime(exchangeCandles, candle.datetime).value;
      (ec.volume == candle.value ==> r == Returns(true))
      && (r == Panics <==> ec.volume != candle.value && candle.value == 0.0)
  {
    match FindByTime(exchangeCandles, candle.datetime)
    case Some(c) =>
      if c.volume == candle.value then Returns(true)
      else if candle.value == 0.0 then Panics
      else Returns(c.volume / candle.value - 1.0 < TOLERANCE)
    case None => Returns(candle.volume == 0.0)
  }

  /** For a positive value the check is one-sided: it passes exactly when the
      exchange volume is below 1.0001 times the value, however far below. */
  lemma ValidateTolerance(candle: Candle, exchangeCandles: seq<ExchangeCandle>)
    requires FindByTime(exchangeCandles, candle.datetime).Some?
    requires candle.value > 0.0
    ensures var ec := FindByTime(exchangeCandles, candle.datetime).value;
      ValidateCandle(candle, exchangeCandles) == Returns(ec.volume < (1.0 + TOLERANCE) * candle.value)
  {
    var ec := FindByTime(exchangeCandles, candle.datetime).value;
    var v, a := ec.volume, candle.value;
    if v != a {
      assert v / a - 1.0 < TOLERANCE <==> v / a < 1.0 + TOLERANCE;
      DivLessIff(v, a, 1.0 + TOLERANCE);
    }
  }

  lemma DivLessIff(v: real, a: real, k: real)
    requires a > 0.0
    ensures v / a < k <==> v < k * a
  {
    assert v == (v / a) * a;
    if v / a < k {
      assert (v / a) * a < k * a;
    }
    if v < k * a {
      assert (v / a) * a < k * a;
    }
  }
}
