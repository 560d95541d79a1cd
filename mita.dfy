/** The candle sync of src/mita.rs: from the candle after the last stored
    one up to the current 15-minute mark, one candle per interval, built
    from that interval's trades or carried forward from the candle before. */
module Mita {
  import opened Common
  import opened Utilities
  import opened Candles
  import opened Markets

  /** The sync works on 15-minute intervals. */
  function Interval(): int { Seconds(900) }

  // ---------------------------------------------------------------------------
  // The trades of one interval
  // ---------------------------------------------------------------------------

  /** The trades whose time truncates to `d`, in their order. */
  function TradesIn(trades: seq<Trade>, d: Instant): (r: seq<Trade>)
    ensures |r| <= |trades|
    decreases |trades|
  {
    if |trades| == 0 then []
    else
      var front := TradesIn(trades[..|trades| - 1], d);
      var last := trades[|trades| - 1];
      if Trunc(last.time, Interval()) == d then front + [last] else front
  }

  /** The filter keeps exactly the trades of the interval. */
  lemma {:induction false} TradesInMembers(trades: seq<Trade>, d: Instant)
    ensures forall t :: t in TradesIn(trades, d) <==> t in trades && Trunc(t.time, Interval()) == d
    decreases |trades|
  {
    if |trades| > 0 {
      var front := trades[..|trades| - 1];
      TradesInMembers(front, d);
      assert trades == front + [trades[|trades| - 1]];
    }
  }

  /** Trade ids strictly increase along `s`. */
  predicate StrictIds(s: seq<Trade>) {
    forall i, j :: 0 <= i < j < |s| ==> s[i].id < s[j].id
  }

  /** Some trade of `s` has id `id`. */
  predicate HasId(s: seq<Trade>, id: int) {
    exists k :: 0 <= k < |s| && s[k].id == id
  }

  /** `s[k]` is the first trade of `s` with its id. */
  predicate FirstOfItsId(s: seq<Trade>, k: int) {
    0 <= k < |s| && forall j :: 0 <= j < k ==> s[j].id != s[k].id
  }

  /** Insert `t` into an id-ordered sequence, unless a trade with its id is
      already there. */
  function InsertById(s: seq<Trade>, t: Trade): (r: seq<Trade>)
    ensures |r| > 0
    decreases |s|
  {
    if |s| == 0 then [t]
    else if t.id < s[0].id then [t] + s
    else if t.id == s[0].id then s
    else [s[0]] + InsertById(s[1..], t)
  }

  /** Inserting adds no trade but `t`. */
  lemma {:induction false} InsertByIdSubset(s: seq<Trade>, t: Trade)
    ensures forall x :: x in InsertById(s, t) ==> x in s || x == t
    decreases |s|
  {
    if |s| > 0 && t.id > s[0].id {
      InsertByIdSubset(s[1..], t);
    }
  }

  /** Inserting drops no trade. */
  lemma {:induction false} InsertByIdKeeps(s: seq<Trade>, t: Trade)
    ensures forall x :: x in s ==> x in InsertById(s, t)
    decreases |s|
  {
    if |s| > 0 && t.id > s[0].id {
      InsertByIdKeeps(s[1..], t);
      assert forall x :: x in s ==> x == s[0] || x in s[1..];
    }
  }

  /** A new id is inserted. */
  lemma {:induction false} InsertByIdAdds(s: seq<Trade>, t: Trade)
    requires !HasId(s, t.id)
    ensures t in InsertById(s, t)
    decreases |s|
  {
    if |s| > 0 && t.id > s[0].id {
      assert !HasId(s[1..], t.id) by {
        forall k | 0 <= k < |s[1..]|
          ensures s[1..][k].id != t.id
        {
          assert s[1..][k] == s[k + 1];
        }
      }
      InsertByIdAdds(s[1..], t);
    }
  }

  /** An id already present leaves the sequence as it is. */
  lemma {:induction false} InsertByIdPresent(s: seq<Trade>, t: Trade)
    requires StrictIds(s) && HasId(s, t.id)
    ensures InsertById(s, t) == s
    decreases |s|
  {
    var k :| 0 <= k < |s| && s[k].id == t.id;
    assert k == 0 || s[0].id < s[k].id;
    if t.id > s[0].id {
      StrictTail(s);
      assert s[1..][k - 1].id == t.id;
      InsertByIdPresent(s[1..], t);
      assert s == [s[0]] + s[1..];
    }
  }

  /** After inserting, every id of `s` and the id of `t` are present. */
  lemma InsertByIdHasIds(s: seq<Trade>, t: Trade)
    requires StrictIds(s)
    ensures HasId(InsertById(s, t), t.id)
    ensures forall id :: HasId(s, id) ==> HasId(InsertById(s, t), id)
  {
    var r := InsertById(s, t);
    InsertByIdKeeps(s, t);
    forall id | HasId(s, id)
      ensures HasId(r, id)
    {
      var j :| 0 <= j < |s| && s[j].id == id;
      assert s[j] in r;
      var i :| 0 <= i < |r| && r[i] == s[j];
      assert r[i].id == id;
    }
    if HasId(s, t.id) {
      InsertByIdPresent(s, t);
    } else {
      InsertByIdAdds(s, t);
      var i :| 0 <= i < |r| && r[i] == t;
      assert r[i].id == t.id;
    }
  }

  lemma StrictTail(s: seq<Trade>)
    requires StrictIds(s) && |s| > 0
    ensures StrictIds(s[1..])
  {
    forall i, j | 0 <= i < j < |s| - 1
      ensures s[1..][i].id < s[1..][j].id
    {
      assert s[1..][i] == s[i + 1] && s[1..][j] == s[j + 1];
    }
  }

  /** Inserting keeps the ids strictly increasing. */
  lemma {:induction false} InsertByIdStrict(s: seq<Trade>, t: Trade)
    requires StrictIds(s)
    ensures StrictIds(InsertById(s, t))
    decreases |s|
  {
    if |s| > 0 && t.id > s[0].id {
      var rest := InsertById(s[1..], t);
      StrictTail(s);
      InsertByIdStrict(s[1..], t);
      InsertByIdSubset(s[1..], t);
      forall i | 0 <= i < |rest|
        ensures s[0].id < rest[i].id
      {
        assert rest[i] in rest;
        if rest[i] != t {
          var k :| 0 <= k < |s[1..]| && s[1..][k] == rest[i];
          assert s[k + 1] == rest[i];
        }
      }
    }
  }

  /** Sort by id and drop repeated ids, keeping the first occurrence: the
      stable `sort_by` on id followed by `dedup_by` on id. */
  function SortDedupById(ts: seq<Trade>): (r: seq<Trade>)
    ensures |ts| > 0 ==> |r| > 0
    decreases |ts|
  {
    if |ts| == 0 then [] else InsertById(SortDedupById(ts[..|ts| - 1]), ts[|ts| - 1])
  }

  /** The result is ordered by id without repeats. */
  lemma {:induction false} SortDedupStrict(ts: seq<Trade>)
    ensures StrictIds(SortDedupById(ts))
    decreases |ts|
  {
    if |ts| > 0 {
      SortDedupStrict(ts[..|ts| - 1]);
      InsertByIdStrict(SortDedupById(ts[..|ts| - 1]), ts[|ts| - 1]);
    }
  }

  /** The result holds input trades only. */
  lemma {:induction false} SortDedupSubset(ts: seq<Trade>)
    ensures forall x :: x in SortDedupById(ts) ==> x in ts
    decreases |ts|
  {
    if |ts| > 0 {
      var front := ts[..|ts| - 1];
      SortDedupSubset(front);
      InsertByIdSubset(SortDedupById(front), ts[|ts| - 1]);
      assert forall x :: x in front ==> x in ts;
    }
  }

  /** Every id of the input has a trade in the result. */
  lemma {:induction false} SortDedupCovers(ts: seq<Trade>)
    ensures forall k :: 0 <= k < |ts| ==> HasId(SortDedupById(ts), ts[k].id)
    decreases |ts|
  {
    if |ts| > 0 {
      var front := ts[..|ts| - 1];
      var last := ts[|ts| - 1];
      var s := SortDedupById(front);
      var r := SortDedupById(ts);
      SortDedupCovers(front);
      SortDedupStrict(front);
      InsertByIdHasIds(s, last);
      forall k | 0 <= k < |ts|
        ensures HasId(r, ts[k].id)
      {
        if k < |front| {
          assert front[k] == ts[k];
          assert HasId(s, ts[k].id);
        }
      }
    }
  }

  /** Every trade kept is the first one of the input with its id. */
  lemma {:induction false} SortDedupKeepsFirst(ts: seq<Trade>)
    ensures forall x :: x in SortDedupById(ts) ==> exists k :: FirstOfItsId(ts, k) && ts[k] == x
    decreases |ts|
  {
    if |ts| > 0 {
      var front := ts[..|ts| - 1];
      var last := ts[|ts| - 1];
      var s := SortDedupById(front);
      SortDedupKeepsFirst(front);
      SortDedupStrict(front);
      SortDedupCovers(front);
      InsertByIdSubset(s, last);
      forall x | x in SortDedupById(ts)
        ensures exists k :: FirstOfItsId(ts, k) && ts[k] == x
      {
        if x in s {
          var k :| FirstOfItsId(front, k) && front[k] == x;
          assert FirstOfItsId(ts, k);
        } else {
          assert x == last;
          assert !HasId(s, last.id) by {
            if HasId(s, last.id) {
              InsertByIdPresent(s, last);
            }
          }
          forall j | 0 <= j < |ts| - 1
            ensures ts[j].id != last.id
          {
            assert front[j] == ts[j];
          }
          assert FirstOfItsId(ts, |ts| - 1);
        }
      }
    }
  }

  // ---------------------------------------------------------------------------
  // The fold over the date range
  // ---------------------------------------------------------------------------

  /** The candle for interval `d`: from its trades, sorted and deduplicated
      by id, or, for an interval without trades, carried forward from the
      close, last trade time and last trade id of `previous`. */
  function CandleFor(d: Instant, trades: seq<Trade>, previous: Candle): (c: Candle)
    ensures c.datetime == d && !c.isValidated
  {
    var bucket := TradesIn(trades, d);
    if |bucket| == 0 then NewFromLast(d, previous.close, previous.lastTradeTs, previous.lastTradeId)
    else NewFromTrades(d, SortDedupById(bucket))
  }

  /** The candle before position `i` of `cs`: `previous` at the start. */
  function Before(previous: Candle, cs: seq<Candle>, i: nat): Candle
    requires i <= |cs|
  {
    if i == 0 then previous else cs[i - 1]
  }

  /** A fold over dates that hands each step the candle made by the step
      before it (`previous` for the first). */
  function FoldDates(dates: seq<Instant>, step: (Instant, Candle) -> Candle, previous: Candle): (r: seq<Candle>)
    ensures |r| == |dates|
    decreases |dates|
  {
    if |dates| == 0 then []
    else
      var front := FoldDates(dates[..|dates| - 1], step, previous);
      front + [step(dates[|dates| - 1], Before(previous, front, |front|))]
  }

  lemma {:induction false} FoldDatesAt(dates: seq<Instant>, step: (Instant, Candle) -> Candle, previous: Candle, k: nat)
    requires k < |dates|
    ensures var r := FoldDates(dates, step, previous);
      r[k] == step(dates[k], Before(previous, r, k))
    decreases |dates|
  {
    var n := |dates| - 1;
    if k < n {
      var front := dates[..n];
      FoldDatesAt(front, step, previous, k);
      assert front[k] == dates[k];
      var r := FoldDates(dates, step, previous);
      var f := FoldDates(front, step, previous);
      assert r[k] == f[k];
      assert k > 0 ==> r[k - 1] == f[k - 1];
    }
  }

  /** The closure `sync` folds with. */
  function SyncStep(trades: seq<Trade>): (Instant, Candle) -> Candle {
    (d: Instant, p: Candle) => CandleFor(d, trades, p)
  }

  /** The fold of `sync`: each interval's candle is built with the candle
      made for the interval before it as the previous candle. */
  function SyncFold(dates: seq<Instant>, trades: seq<Trade>, previous: Candle): (r: seq<Candle>)
    ensures |r| == |dates|
  {
    FoldDates(dates, SyncStep(trades), previous)
  }

  /** Each candle of the fold is `CandleFor` its interval with the candle
      just before it as the previous one. */
  lemma SyncFoldAt(dates: seq<Instant>, trades: seq<Trade>, previous: Candle, k: nat)
    requires k < |dates|
    ensures var r := SyncFold(dates, trades, previous);
      r[k] == CandleFor(dates[k], trades, Before(previous, r, k))
  {
    FoldDatesAt(dates, SyncStep(trades), previous, k);
  }

  /** The fold makes one candle per date, dated with it. */
  lemma SyncFoldDates(dates: seq<Instant>, trades: seq<Trade>, previous: Candle)
    ensures var r := SyncFold(dates, trades, previous);
      forall i :: 0 <= i < |r| ==> r[i].datetime == dates[i] && !r[i].isValidated
  {
    forall i | 0 <= i < |dates|
      ensures SyncFold(dates, trades, previous)[i].datetime == dates[i]
      ensures !SyncFold(dates, trades, previous)[i].isValidated
    {
      SyncFoldAt(dates, trades, previous, i);
    }
  }

  /** A run of intervals without trades repeats the close, last trade time
      and last trade id of the candle before the run. */
  lemma {:induction false} ForwardFill(dates: seq<Instant>, trades: seq<Trade>, previous: Candle, i: nat, k: nat)
    requires i <= k < |dates|
    requires forall j :: i <= j <= k ==> |TradesIn(trades, dates[j])| == 0
    ensures var r := SyncFold(dates, trades, previous);
      && r[k].close == Before(previous, r, i).close
      && r[k].lastTradeTs == Before(previous, r, i).lastTradeTs
      && r[k].lastTradeId == Before(previous, r, i).lastTradeId
      && r[k].volume == 0.0 && r[k].tradeCount == 0
    decreases k - i
  {
    SyncFoldAt(dates, trades, previous, k);
    if i < k {
      ForwardFill(dates, trades, previous, i, k - 1);
    }
  }

  /** An interval with trades gets the candle of its distinct trades in id
      order. */
  lemma IntervalWithTrades(dates: seq<Instant>, trades: seq<Trade>, previous: Candle, i: nat)
    requires i < |dates| && |TradesIn(trades, dates[i])| > 0
    ensures var r := SyncFold(dates, trades, previous);
      var kept := SortDedupById(TradesIn(trades, dates[i]));
      && r[i] == NewFromTrades(dates[i], kept)
      && r[i].tradeCount == |kept|
      && StrictIds(kept)
      && (forall x :: x in kept ==> x in trades && Trunc(x.time, Interval()) == dates[i])
      && (forall t :: t in trades && Trunc(t.time, Interval()) == dates[i] ==> HasId(kept, t.id))
  {
    SyncFoldAt(dates, trades, previous, i);
    var bucket := TradesIn(trades, dates[i]);
    TradesInMembers(trades, dates[i]);
    SortDedupStrict(bucket);
    SortDedupSubset(bucket);
    SortDedupCovers(bucket);
    forall t | t in trades && Trunc(t.time, Interval()) == dates[i]
      ensures HasId(SortDedupById(bucket), t.id)
    {
      var k :| 0 <= k < |bucket| && bucket[k] == t;
    }
  }

  /** The fold as the source runs it, with the previous candle replaced by
      each new one. */
  method SyncCandles(dates: seq<Instant>, trades: seq<Trade>, previous: Candle) returns (candles: seq<Candle>)
    ensures candles == SyncFold(dates, trades, previous)
  {
    var previousCandle := previous;
    candles := [];
    for i := 0 to |dates|
      invariant candles == SyncFold(dates[..i], trades, previous)
      invariant previousCandle == Before(previous, candles, i)
    {
      SyncFoldSnoc(dates, trades, previous, i);
      var newCandle := NextCandle(dates[i], trades, previousCandle);
      previousCandle := newCandle;
      candles := candles + [newCandle];
    }
    assert dates[..|dates|] == dates;
  }

  /** The closure of the fold for one date. */
  method NextCandle(d: Instant, trades: seq<Trade>, previousCandle: Candle) returns (c: Candle)
    ensures c == CandleFor(d, trades, previousCandle)
  {
    var filtered := TradesIn(trades, d);
    if |filtered| == 0 {
      c := NewFromLast(d, previousCandle.close, previousCandle.lastTradeTs, previousCandle.lastTradeId);
    } else {
      c := NewFromTrades(d, SortDedupById(filtered));
    }
  }

  lemma SyncFoldSnoc(dates: seq<Instant>, trades: seq<Trade>, previous: Candle, i: nat)
    requires i < |dates|
    ensures var front := SyncFold(dates[..i], trades, previous);
      SyncFold(dates[..i + 1], trades, previous) == front + [CandleFor(dates[i], trades, Before(previous, front, i))]
  {
    assert dates[..i + 1][..i] == dates[..i];
    assert SyncFold(dates[..i + 1], trades, previous)
      == SyncFold(dates[..i], trades, previous) + [SyncStep(trades)(dates[i], Before(previous, SyncFold(dates[..i], trades, previous), i))];
  }

  /** The date range of `sync`: `start`, `start + 900s`, ... up to and
      including `end`. */
  method SyncDateRange(start: Instant, end: Instant) returns (r: seq<Instant>)
    ensures |r| == InclusiveCount(start, end, Interval())
    ensures r == Steps(start, |r|, Interval())
    ensures forall i :: 0 <= i < |r| ==> r[i] == start + i * Interval() && r[i] <= end
  {
    var drStart := start;
    r := [];
    while drStart <= end
      invariant drStart == Nth(start, |r|, Interval())
      invariant r == Steps(start, |r|, Interval())
      invariant |r| > 0 ==> Nth(start, |r| - 1, Interval()) <= end
      invariant |r| == 0 ==> drStart == start
      decreases end - drStart
    {
      r := r + [drStart];
      drStart := drStart + Interval();
    }
    InclusiveCountOfStop(start, end, Interval(), |r|);
    StepsIndex(start, |r|, Interval());
    forall i | 0 <= i < |r|
      ensures r[i] == start + i * Interval() && r[i] <= end
    {
      NthIsProduct(start, i, Interval());
      if i < |r| - 1 {
        NthIncreasing(start, i, |r| - 1, Interval());
      }
    }
  }

  /** An aligned range from one 15-minute mark to another has one date per
      mark, both ends included. */
  lemma AlignedRangeLength(a: int, b: int)
    requires a <= b
    ensures InclusiveCount(a * Interval(), b * Interval(), Interval()) == b - a + 1
  {
    assert b * Interval() - a * Interval() == (b - a) * Interval();
    DivUnique((b - a) * Interval(), Interval(), b - a);
  }

  // ---------------------------------------------------------------------------
  // One pass over the markets
  // ---------------------------------------------------------------------------

  /** What `sync` reads for one market: the last stored candle (an error
      panics), the clock, the trades of the live table between start and end
      once the REST trades have been moved there, and the candle before start
      (a missing one panics). */
  datatype MarketSync = MarketSync(
    lastCandle: Option<Candle>,
    now: Instant,
    wsTrades: seq<Trade>,
    previousCandle: Option<Candle>)

  /** The current 15-minute mark: the end of the sync. */
  function SyncEnd(x: MarketSync): (r: Instant)
    ensures r <= x.now < r + Interval() && r % Interval() == 0
  {
    Trunc(x.now, Interval())
  }

  /** The candles `sync` writes for one market: none when the last stored
      candle already ends at the current mark. */
  function MarketCandles(x: MarketSync): Outcome<seq<Candle>> {
    match x.lastCandle
    case None => Panics
    case Some(last) =>
      var start := last.datetime + Interval();
      var end := SyncEnd(x);
      if start == end then Returns([])
      else
        match x.previousCandle
        case None => Panics
        case Some(previous) =>
          Returns(SyncFold(Steps(start, InclusiveCount(start, end, Interval()), Interval()), x.wsTrades, previous))
  }

  /** A market's sync panics iff its last candle cannot be read, or there
      are candles to make and no candle before them; a market already at the
      current mark gets no candles. */
  lemma MarketCandlesPanics(x: MarketSync)
    ensures MarketCandles(x).Panics? <==>
      x.lastCandle.None? || (x.lastCandle.value.datetime + Interval() != SyncEnd(x) && x.previousCandle.None?)
    ensures x.lastCandle.Some? && x.lastCandle.value.datetime + Interval() == SyncEnd(x) ==> MarketCandles(x) == Returns([])
  {
  }

  /** When a sync runs, there is one candle per mark from the one after the
      last stored candle to the current one, in order. */
  lemma MarketCandlesCover(x: MarketSync)
    requires MarketCandles(x).Returns?
    ensures var cs := MarketCandles(x).value;
      var start := x.lastCandle.value.datetime + Interval();
      && |cs| == (if start == SyncEnd(x) then 0 else InclusiveCount(start, SyncEnd(x), Interval()))
      && forall i :: 0 <= i < |cs| ==> cs[i].datetime == start + i * Interval() && cs[i].datetime <= SyncEnd(x)
  {
    var start := x.lastCandle.value.datetime + Interval();
    var end := SyncEnd(x);
    if start != end {
      var n := InclusiveCount(start, end, Interval());
      StepsWithin(start, end, Interval());
      SyncFoldDates(Steps(start, n, Interval()), x.wsTrades, x.previousCandle.value);
    }
  }

  /** The steps of an inclusive range stay within it. */
  lemma StepsWithin(start: Instant, end: Instant, d: int)
    requires d > 0
    ensures var n := InclusiveCount(start, end, d);
      forall i :: 0 <= i < n ==> Steps(start, n, d)[i] == start + i * d && start + i * d <= end
  {
    var n := InclusiveCount(start, end, d);
    StepsIndex(start, n, d);
    forall i | 0 <= i < n
      ensures Steps(start, n, d)[i] == start + i * d && start + i * d <= end
    {
      NthIsProduct(start, i, d);
      StepWithin(start, end, d, i);
    }
  }

  lemma StepWithin(start: Instant, end: Instant, d: int, i: nat)
    requires d > 0 && i < InclusiveCount(start, end, d)
    ensures start + i * d <= end
  {
    var q := (end - start) / d;
    assert i <= q;
    MulLeq(i, q, d);
    assert q * d <= end - start;
  }

  lemma MulLeq(a: int, b: int, d: int)
    requires 0 <= a <= b && d > 0
    ensures a * d <= b * d
  {
  }

  /** The heartbeat map: each market's name mapped to its sync end, a later
      market of the same name overwriting an earlier one. */
  function Heartbeats(markets: seq<MarketDetail>, xs: seq<MarketSync>): map<string, Instant>
    requires |xs| == |markets|
    decreases |markets|
  {
    if |markets| == 0 then map[]
    else
      var n := |markets| - 1;
      Heartbeats(markets[..n], xs[..n])[markets[n].marketName := SyncEnd(xs[n])]
  }

  /** There is a heartbeat for exactly the names of the markets. */
  lemma {:induction false} HeartbeatKeys(markets: seq<MarketDetail>, xs: seq<MarketSync>)
    requires |xs| == |markets|
    ensures forall i :: 0 <= i < |markets| ==> markets[i].marketName in Heartbeats(markets, xs)
    ensures forall name :: name in Heartbeats(markets, xs) ==> exists i :: 0 <= i < |markets| && markets[i].marketName == name
    decreases |markets|
  {
    if |markets| > 0 {
      var n := |markets| - 1;
      HeartbeatKeys(markets[..n], xs[..n]);
      assert forall i :: 0 <= i < n ==> markets[..n][i] == markets[i];
    }
  }

  /** A market's heartbeat is the sync end of the last market with its name. */
  lemma {:induction false} HeartbeatOfLast(markets: seq<MarketDetail>, xs: seq<MarketSync>, i: int)
    requires |xs| == |markets| && 0 <= i < |markets|
    requires forall j :: i < j < |markets| ==> markets[j].marketName != markets[i].marketName
    ensures markets[i].marketName in Heartbeats(markets, xs)
    ensures Heartbeats(markets, xs)[markets[i].marketName] == SyncEnd(xs[i])
    decreases |markets|
  {
    HeartbeatKeys(markets, xs);
    var n := |markets| - 1;
    if i < n {
      assert markets[..n][i] == markets[i];
      assert forall j :: i < j < n ==> markets[..n][j] == markets[j];
      HeartbeatOfLast(markets[..n], xs[..n], i);
      assert xs[..n][i] == xs[i];
    }
  }

  /** `Mita::sync` over the markets: the candles written for each market, in
      the order of the markets, and the heartbeat map. Any market that
      panics ends the whole pass. */
  method Sync(markets: seq<MarketDetail>, xs: seq<MarketSync>) returns (r: Outcome<(map<string, Instant>, seq<seq<Candle>>)>)
    requires |xs| == |markets|
    ensures r.Panics? <==> exists i :: 0 <= i < |xs| && MarketCandles(xs[i]) == Panics
    ensures r.Returns? ==> r.value.0 == Heartbeats(markets, xs)
    ensures r.Returns? ==> |r.value.1| == |markets|
    ensures r.Returns? ==> forall i :: 0 <= i < |markets| ==> MarketCandles(xs[i]) == Returns(r.value.1[i])
  {
    var heartbeats: map<string, Instant> := map[];
    var written: seq<seq<Candle>> := [];
    for i := 0 to |markets|
      invariant heartbeats == Heartbeats(markets[..i], xs[..i])
      invariant |written| == i
      invariant forall j :: 0 <= j < i ==> MarketCandles(xs[j]) == Returns(written[j])
    {
      HeartbeatsStep(markets, xs, i);
      var candles := SyncMarket(xs[i]);
      if candles.Panics? {
        return Panics;
      }
      written := written + [candles.value];
      heartbeats := heartbeats[markets[i].marketName := SyncEnd(xs[i])];
    }
    assert markets[..|markets|] == markets;
    assert xs[..|xs|] == xs;
    return Returns((heartbeats, written));
  }

  lemma HeartbeatsStep(markets: seq<MarketDetail>, xs: seq<MarketSync>, i: nat)
    requires |xs| == |markets| && i < |markets|
    ensures Heartbeats(markets[..i + 1], xs[..i + 1])
      == Heartbeats(markets[..i], xs[..i])[markets[i].marketName := SyncEnd(xs[i])]
  {
    assert markets[..i + 1][..i] == markets[..i];
    assert xs[..i + 1][..i] == xs[..i];
  }

  /** The body of `sync`'s loop for one market. */
  method SyncMarket(x: MarketSync) returns (r: Outcome<seq<Candle>>)
    ensures r == MarketCandles(x)
  {
    if x.lastCandle.None? {
      return Panics;
    }
    var start := x.lastCandle.value.datetime + Interval();
    var end := Trunc(x.now, Interval());
    if start == end {
      return Returns([]);
    }
    var dateRange := SyncDateRange(start, end);
    if x.previousCandle.None? {
      return Panics;
    }
    var candles := SyncCandles(dateRange, x.wsTrades, x.previousCandle.value);
    return Returns(candles);
  }
}
