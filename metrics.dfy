/** Indicator kernels (src/metrics.rs): look-back tables per time frame,
    the exponentially weighted moving average, Donchian channels and the
    per-candle wick, body and true-range figures. */
module Metrics {
  import opened Common
  import opened Utilities
  import opened Candles

  // ---------------------------------------------------------------------------
  // Look-back tables
  // ---------------------------------------------------------------------------

  /** `TimeFrame::lbps`: the three look-back periods of a time frame. */
  function Lbps(tf: TimeFrame): seq<int> {
    match tf
    case T15 => [672, 2880, 8640]
    case H01 => [168, 720, 2160]
    case H04 => [42, 180, 540]
    case H12 => [14, 60, 180]
    case D01 => [7, 30, 90]
    case _ => [0, 0, 0]
  }

  /** `TimeFrame::max_len`: how many candles the metrics of a time frame need. */
  function MaxLen(tf: TimeFrame): int {
    match tf
    case T15 => 9312
    case H01 => 2328
    case H04 => 582
    case H12 => 194
    case D01 => 97
    case _ => 1
  }

  /** `TimeFrame::prev`: the finer time frame a frame's candles are built from. */
  function Prev(tf: TimeFrame): TimeFrame {
    match tf
    case T15 => T15
    case H01 => T15
    case H04 => H01
    case H12 => H04
    case D01 => H12
    case _ => T15
  }

  /** The frames with metrics defined. */
  predicate HasMetrics(tf: TimeFrame) {
    tf == T15 || tf == H01 || tf == H04 || tf == H12 || tf == D01
  }

  /** A frame with metrics needs its shortest plus its longest look back; the
      others look back nowhere and need one candle. */
  lemma MaxLenIsShortestPlusLongest(tf: TimeFrame)
    ensures |Lbps(tf)| == 3
    ensures HasMetrics(tf) ==> MaxLen(tf) == Lbps(tf)[0] + Lbps(tf)[2]
    ensures HasMetrics(tf) ==> 0 < Lbps(tf)[0] < Lbps(tf)[1] < Lbps(tf)[2]
    ensures !HasMetrics(tf) ==> Lbps(tf) == [0, 0, 0] && MaxLen(tf) == 1
  {
  }

  /** Among the frames with metrics, `prev` steps down to a frame with metrics
      that is strictly finer, except at the finest where it stays. */
  lemma PrevIsFiner(tf: TimeFrame)
    ensures HasMetrics(tf) ==> HasMetrics(Prev(tf)) && AsSecs(Prev(tf)) <= AsSecs(tf)
    ensures HasMetrics(tf) && tf != T15 ==> AsSecs(Prev(tf)) < AsSecs(tf)
    ensures !HasMetrics(tf) ==> Prev(tf) == T15
  {
  }

  /** The fallback arm also maps frames shorter than 15 minutes to T15, so
      `prev` does not step down for them. */
  lemma PrevOfShortFrame()
    ensures AsSecs(Prev(S15)) > AsSecs(S15)
  {
  }

  // ---------------------------------------------------------------------------
  // Exponentially weighted moving average
  // ---------------------------------------------------------------------------

  /** The smoothing factor `2 / (lbp + 1)`. */
  function Smoothing(lbp: int): Decimal
    requires lbp != -1
  {
    2.0 / (lbp as real + 1.0)
  }

  /** The average after folding in every element of `v` after the first. */
  function EwmaOf(v: seq<Decimal>, k: Decimal): Decimal
    requires |v| > 0
    decreases |v|
  {
    if |v| == 1 then v[0] else v[|v| - 1] * k + EwmaOf(v[..|v| - 1], k) * (1.0 - k)
  }

  /** `Metric::ewma`. Indexing `v[0]` panics on an empty slice and the
      division panics for `lbp == -1`. */
  method Ewma(v: seq<Decimal>, lbp: int) returns (r: Decimal)
    requires |v| > 0 && lbp != -1
    ensures r == EwmaOf(v, Smoothing(lbp))
  {
    var k := 2.0 / (lbp as real + 1.0);
    var ik := 1.0 - k;
    r := v[0];
    for i := 1 to |v|
      invariant r == EwmaOf(v[..i], k)
    {
      assert v[..i + 1][..i] == v[..i];
      r := v[i] * k + r * ik;
    }
    assert v[..|v|] == v;
  }

  lemma SmoothingInUnit(lbp: int)
    requires lbp >= 1
    ensures 0.0 < Smoothing(lbp) <= 1.0
    ensures lbp == 1 ==> Smoothing(lbp) == 1.0
  {
  }

  lemma ConvexStep(e: Decimal, x: Decimal, k: Decimal, lo: Decimal, hi: Decimal)
    requires 0.0 <= k <= 1.0
    requires lo <= e <= hi && lo <= x <= hi
    ensures lo <= x * k + e * (1.0 - k) <= hi
  {
    var g := x - e;
    assert x * k + e * (1.0 - k) == e + k * g;
    PartOfGap(g, k);
    if g >= 0.0 {
      assert e <= e + k * g <= x;
    } else {
      assert x <= e + k * g <= e;
    }
  }

  /** A fraction in [0, 1] of a gap lies between zero and the gap. */
  lemma PartOfGap(g: real, k: real)
    requires 0.0 <= k <= 1.0
    ensures g >= 0.0 ==> 0.0 <= k * g <= g
    ensures g < 0.0 ==> g <= k * g <= 0.0
  {
  }

  /** With a factor in [0, 1] the average is a convex combination: it stays
      within any bounds all the elements share. */
  lemma {:induction false} EwmaWithin(v: seq<Decimal>, k: Decimal, lo: Decimal, hi: Decimal)
    requires |v| > 0 && 0.0 <= k <= 1.0
    requires forall i :: 0 <= i < |v| ==> lo <= v[i] <= hi
    ensures lo <= EwmaOf(v, k) <= hi
    decreases |v|
  {
    if |v| > 1 {
      EwmaWithin(v[..|v| - 1], k, lo, hi);
      ConvexStep(EwmaOf(v[..|v| - 1], k), v[|v| - 1], k, lo, hi);
    }
  }

  /** For a look back of at least one period the average lies between the
      smallest and the largest element. */
  lemma EwmaBetweenExtremes(v: seq<Decimal>, lbp: int, lo: Decimal, hi: Decimal)
    requires |v| > 0 && lbp >= 1
    requires forall i :: 0 <= i < |v| ==> lo <= v[i] <= hi
    ensures lo <= EwmaOf(v, Smoothing(lbp)) <= hi
  {
    SmoothingInUnit(lbp);
    EwmaWithin(v, Smoothing(lbp), lo, hi);
  }

  /** The average of a constant series is that constant. */
  lemma EwmaOfConstant(v: seq<Decimal>, lbp: int, c: Decimal)
    requires |v| > 0 && lbp >= 1
    requires forall i :: 0 <= i < |v| ==> v[i] == c
    ensures EwmaOf(v, Smoothing(lbp)) == c
  {
    EwmaBetweenExtremes(v, lbp, c, c);
  }

  /** A single element is its own average, and a one-period look back keeps
      only the last element. */
  lemma EwmaEdgeCases(v: seq<Decimal>, lbp: int)
    requires |v| > 0 && lbp != -1
    ensures |v| == 1 ==> EwmaOf(v, Smoothing(lbp)) == v[0]
    ensures lbp == 1 ==> EwmaOf(v, Smoothing(lbp)) == v[|v| - 1]
  {
  }

  // ---------------------------------------------------------------------------
  // Donchian channels
  // ---------------------------------------------------------------------------

  /** The window lengths; each window skips the current (last) element. */
  const DON_RANGES: seq<int> := [4, 8, 12, 24, 48, 96, 192]

  function IMin(a: int, b: int): int { if a <= b then a else b }
  function IMax(a: int, b: int): int { if a >= b then a else b }

  /** How far back window `w` reaches into a series of length `n`: elements
      `n - 2` down to `n - Reach(w, n)`. */
  function Reach(w: nat, n: nat): int
    requires w < 7
  {
    IMin(DON_RANGES[w] + 1, n)
  }

  /** The element `j` places from the end; `Ago(s, 1)` is the last. */
  function Ago(s: seq<Decimal>, j: int): Decimal
    requires 1 <= j <= |s|
  {
    s[|s| - j]
  }

  /** The largest of `s[|s| - 2]`, ..., `s[|s| - back]`, or the `Decimal::MIN`
      sentinel when that is no element. */
  function HighBack(s: seq<Decimal>, back: int): Decimal
    requires back < 2 || back <= |s|
    decreases back
  {
    if back < 2 then DECIMAL_MIN else Max(HighBack(s, back - 1), Ago(s, back))
  }

  /** The smallest of `s[|s| - 2]`, ..., `s[|s| - back]`, or `Decimal::MAX`. */
  function LowBack(s: seq<Decimal>, back: int): Decimal
    requires back < 2 || back <= |s|
    decreases back
  {
    if back < 2 then DECIMAL_MAX else Min(LowBack(s, back - 1), Ago(s, back))
  }

  /** The groups [max close, min close, max high, min low] of the first `w` windows. */
  function DonsGroups(c: seq<Decimal>, h: seq<Decimal>, l: seq<Decimal>, w: nat): (r: seq<Decimal>)
    requires w <= 7 && |h| >= |c| && |l| >= |c|
    ensures |r| == 4 * w
  {
    if w == 0 then []
    else
      var b := Reach(w - 1, |c|);
      DonsGroups(c, h, l, w - 1) + [HighBack(c, b), LowBack(c, b), HighBack(h, b), LowBack(l, b)]
  }

  lemma ReachGrows(w: nat, n: nat)
    requires w < 6
    ensures Reach(w, n) <= Reach(w + 1, n)
  {
  }

  /** Before window `w` the scan has looked this far back. */
  function Scanned(w: nat, n: nat): int
    requires w <= 7
  {
    if w == 0 then 1 else IMax(1, Reach(w - 1, n))
  }

  /** `Metric::dons`: highest and lowest closes, highs and lows over the seven
      cumulative windows, skipping the last element. */
  method Dons(c: seq<Decimal>, h: seq<Decimal>, l: seq<Decimal>) returns (dons: seq<Decimal>)
    requires |h| >= |c| && |l| >= |c|
    ensures dons == DonsGroups(c, h, l, 7)
  {
    dons := [];
    var i := 2;
    var minC, minL := DECIMAL_MAX, DECIMAL_MAX;
    var maxC, maxH := DECIMAL_MIN, DECIMAL_MIN;
    for w := 0 to 7
      invariant dons == DonsGroups(c, h, l, w)
      invariant i == Scanned(w, |c|) + 1
      invariant maxC == HighBack(c, i - 1) && minC == LowBack(c, i - 1)
      invariant maxH == HighBack(h, i - 1) && minL == LowBack(l, i - 1)
    {
      ScanStart(w, |c|);
      while i <= DON_RANGES[w] + 1 && i <= |c|
        invariant 2 <= i <= IMax(Scanned(w, |c|), Reach(w, |c|)) + 1
        invariant maxC == HighBack(c, i - 1) && minC == LowBack(c, i - 1)
        invariant maxH == HighBack(h, i - 1) && minL == LowBack(l, i - 1)
        decreases |c| - i
      {
        BackStep(c, i);
        BackStep(h, i);
        BackStep(l, i);
        minC := Min(minC, c[|c| - i]);
        minL := Min(minL, l[|l| - i]);
        maxC := Max(maxC, c[|c| - i]);
        maxH := Max(maxH, h[|h| - i]);
        i := i + 1;
      }
      ScanEnd(w, |c|, i);
      BackOfAtLeastOne(c, Reach(w, |c|));
      BackOfAtLeastOne(h, Reach(w, |c|));
      BackOfAtLeastOne(l, Reach(w, |c|));
      dons := dons + [maxC, minC, maxH, minL];
    }
  }

  lemma BackStep(s: seq<Decimal>, i: int)
    requires 2 <= i <= |s|
    ensures HighBack(s, i) == Max(HighBack(s, i - 1), s[|s| - i])
    ensures LowBack(s, i) == Min(LowBack(s, i - 1), s[|s| - i])
  {
  }

  /** Each window starts no further back than the previous one ended. */
  lemma ScanStart(w: nat, n: nat)
    requires w < 7
    ensures Scanned(w, n) <= IMax(1, Reach(w, n)) && 1 <= Scanned(w, n) <= IMax(1, n)
  {
    if w > 0 {
      ReachGrows(w - 1, n);
    }
  }

  /** When a window's scan stops it has reached exactly that window's extent. */
  lemma ScanEnd(w: nat, n: nat, i: int)
    requires w < 7
    requires Scanned(w, n) <= IMax(1, Reach(w, n))
    requires 2 <= i <= IMax(Scanned(w, n), Reach(w, n)) + 1
    requires !(i <= DON_RANGES[w] + 1 && i <= n)
    ensures i - 1 == Scanned(w + 1, n) == IMax(1, Reach(w, n))
  {
  }

  lemma BackOfAtLeastOne(s: seq<Decimal>, b: int)
    requires b < 2 || b <= |s|
    ensures HighBack(s, IMax(1, b)) == HighBack(s, b) && LowBack(s, IMax(1, b)) == LowBack(s, b)
  {
  }

  lemma {:induction false} DonsGroupsIndex(c: seq<Decimal>, h: seq<Decimal>, l: seq<Decimal>, w: nat, v: nat)
    requires w <= 7 && v < w && |h| >= |c| && |l| >= |c|
    ensures var r, b := DonsGroups(c, h, l, w), Reach(v, |c|);
      r[4 * v] == HighBack(c, b) && r[4 * v + 1] == LowBack(c, b)
      && r[4 * v + 2] == HighBack(h, b) && r[4 * v + 3] == LowBack(l, b)
    decreases w
  {
    if v < w - 1 {
      DonsGroupsIndex(c, h, l, w - 1, v);
    }
  }

  /** `HighBack` bounds the elements it covers and is one of them, or the
      sentinel when it covers none; `LowBack` likewise from below. */
  lemma {:induction false} BackExtremes(s: seq<Decimal>, back: int)
    requires back < 2 || back <= |s|
    ensures back < 2 ==> HighBack(s, back) == DECIMAL_MIN && LowBack(s, back) == DECIMAL_MAX
    ensures forall j :: 2 <= j <= back ==> LowBack(s, back) <= Ago(s, j) <= HighBack(s, back)
    ensures back >= 2 ==> exists j :: 2 <= j <= back && HighBack(s, back) == Max(Ago(s, j), DECIMAL_MIN)
    ensures back >= 2 ==> exists j :: 2 <= j <= back && LowBack(s, back) == Min(Ago(s, j), DECIMAL_MAX)
    decreases back
  {
    if back >= 2 {
      BackExtremes(s, back - 1);
      if back == 2 {
        assert HighBack(s, back) == Max(Ago(s, 2), DECIMAL_MIN);
        assert LowBack(s, back) == Min(Ago(s, 2), DECIMAL_MAX);
      }
    }
  }

  /** A wider window never lowers the high nor raises the low. */
  lemma {:induction false} BackMonotone(s: seq<Decimal>, a: int, b: int)
    requires a <= b <= |s|
    ensures HighBack(s, a) <= HighBack(s, b) && LowBack(s, b) <= LowBack(s, a)
    decreases b - a
  {
    if a < b {
      BackMonotone(s, a, b - 1);
    }
  }

  /** `dons` yields 28 values; window `v` of them holds the extremes of the
      closes, highs and lows from the second-to-last element back `Reach(v)`
      elements. */
  lemma DonsWindows(c: seq<Decimal>, h: seq<Decimal>, l: seq<Decimal>, v: nat)
    requires |h| >= |c| && |l| >= |c| && v < 7
    ensures var r, b := DonsGroups(c, h, l, 7), Reach(v, |c|);
      |r| == 28
      && (forall j :: 2 <= j <= b ==> r[4 * v + 1] <= Ago(c, j) <= r[4 * v])
      && (forall j :: 2 <= j <= b ==> Ago(h, j) <= r[4 * v + 2])
      && (forall j :: 2 <= j <= b ==> r[4 * v + 3] <= Ago(l, j))
  {
    var b := Reach(v, |c|);
    DonsGroupsIndex(c, h, l, 7, v);
    BackExtremes(c, b);
    BackExtremes(h, b);
    BackExtremes(l, b);
  }

  /** Windows are cumulative: later highs are never lower, later lows never higher. */
  lemma DonsCumulative(c: seq<Decimal>, h: seq<Decimal>, l: seq<Decimal>, v: nat, w: nat)
    requires |h| >= |c| && |l| >= |c| && v <= w < 7
    ensures var r := DonsGroups(c, h, l, 7);
      r[4 * v] <= r[4 * w] && r[4 * w + 1] <= r[4 * v + 1]
      && r[4 * v + 2] <= r[4 * w + 2] && r[4 * w + 3] <= r[4 * v + 3]
  {
    DonsGroupsIndex(c, h, l, 7, v);
    DonsGroupsIndex(c, h, l, 7, w);
    var k := v;
    while k < w
      invariant v <= k <= w
      invariant Reach(v, |c|) <= Reach(k, |c|)
    {
      ReachGrows(k, |c|);
      k := k + 1;
    }
    BackMonotone(c, Reach(v, |c|), Reach(w, |c|));
    BackMonotone(h, Reach(v, |c|), Reach(w, |c|));
    BackMonotone(l, Reach(v, |c|), Reach(w, |c|));
  }

  /** With fewer than two elements there is nothing to scan and every value
      keeps its sentinel. */
  lemma DonsOfShortSeries(c: seq<Decimal>, h: seq<Decimal>, l: seq<Decimal>)
    requires |h| >= |c| && |l| >= |c| && |c| < 2
    ensures var r := DonsGroups(c, h, l, 7);
      forall v :: 0 <= v < 7 ==>
        r[4 * v] == DECIMAL_MIN && r[4 * v + 1] == DECIMAL_MAX
        && r[4 * v + 2] == DECIMAL_MIN && r[4 * v + 3] == DECIMAL_MAX
  {
    forall v | 0 <= v < 7
      ensures var r := DonsGroups(c, h, l, 7);
        r[4 * v] == DECIMAL_MIN && r[4 * v + 1] == DECIMAL_MAX
        && r[4 * v + 2] == DECIMAL_MIN && r[4 * v + 3] == DECIMAL_MAX
    {
      DonsGroupsIndex(c, h, l, 7, v);
    }
  }

  // ---------------------------------------------------------------------------
  // Per-candle figures of MetricAP::new
  // ---------------------------------------------------------------------------

  /** The return, true range and the upper-wick, body and lower-wick
      fractions of one candle. */
  datatype CandleFigures = CandleFigures(ret: Decimal, trueRange: Decimal, upperWick: Decimal, body: Decimal, lowerWick: Decimal)

  /** The figures of `can` given the previous close (zero before the first candle). */
  function FiguresOf(prevClose: Decimal, can: Candle): CandleFigures {
    var hl := can.high - can.low;
    var r := if prevClose == 0.0 then prevClose else can.close / prevClose - 1.0;
    var tr := if prevClose == 0.0 then hl
      else Max(Max(hl, Abs(can.high - prevClose)), Abs(prevClose - can.low));
    var uw := if hl == 0.0 then 0.0 else (can.high - Max(can.open, can.close)) / hl;
    var b := if hl == 0.0 then 0.0 else Abs(can.open - can.close) / hl;
    var lw := if hl == 0.0 then 0.0 else (Min(can.open, can.close) - can.low) / hl;
    CandleFigures(r, tr, uw, b, lw)
  }

  /** The figures of every candle, each computed against the close before it. */
  function Figures(cs: seq<Candle>): (r: seq<CandleFigures>)
    ensures |r| == |cs|
    decreases |cs|
  {
    if |cs| == 0 then []
    else
      var front := cs[..|cs| - 1];
      Figures(front) + [FiguresOf(if |front| == 0 then 0.0 else front[|front| - 1].close, cs[|cs| - 1])]
  }

  lemma {:induction false} FiguresIndex(cs: seq<Candle>, i: nat)
    requires i < |cs|
    ensures Figures(cs)[i] == FiguresOf(if i == 0 then 0.0 else cs[i - 1].close, cs[i])
    decreases |cs|
  {
    var front := cs[..|cs| - 1];
    if i < |front| {
      FiguresIndex(front, i);
    }
  }

  lemma SplitFraction(a: real, b: real, c: real, d: real)
    requires d != 0.0
    ensures a / d + b / d + c / d == (a + b + c) / d
  {
  }

  /** Upper wick, body and lower wick share out the candle's range: their
      fractions add to one, or are all zero for a candle with no range. */
  lemma WickBodyPartition(prevClose: Decimal, can: Candle)
    ensures var f := FiguresOf(prevClose, can);
      (can.high != can.low ==> f.upperWick + f.body + f.lowerWick == 1.0)
      && (can.high == can.low ==> f.upperWick == 0.0 && f.body == 0.0 && f.lowerWick == 0.0)
  {
    var hl := can.high - can.low;
    if hl != 0.0 {
      var hi, lo := Max(can.open, can.close), Min(can.open, can.close);
      var f := FiguresOf(prevClose, can);
      assert Abs(can.open - can.close) == hi - lo;
      assert f.upperWick == (can.high - hi) / hl && f.body == (hi - lo) / hl && f.lowerWick == (lo - can.low) / hl;
      SplitFraction(can.high - hi, hi - lo, lo - can.low, hl);
      assert (can.high - hi) + (hi - lo) + (lo - can.low) == hl;
      SelfFraction(hl);
    }
  }

  lemma SelfFraction(d: real)
    requires d != 0.0
    ensures d / d == 1.0
  {
  }

  /** For a candle whose open and close lie within its range each fraction is in [0, 1]. */
  lemma WickBodyBounds(prevClose: Decimal, can: Candle)
    requires can.low <= can.open <= can.high && can.low <= can.close <= can.high
    ensures var f := FiguresOf(prevClose, can);
      0.0 <= f.upperWick <= 1.0 && 0.0 <= f.body <= 1.0 && 0.0 <= f.lowerWick <= 1.0
  {
    var hl := can.high - can.low;
    if hl != 0.0 {
      var hi, lo := Max(can.open, can.close), Min(can.open, can.close);
      FractionInUnit(can.high - hi, hl);
      FractionInUnit(Abs(can.open - can.close), hl);
      FractionInUnit(lo - can.low, hl);
    }
  }

  lemma FractionInUnit(x: real, d: real)
    requires 0.0 <= x <= d && d > 0.0
    ensures 0.0 <= x / d <= 1.0
  {
    assert x / d * d == x;
  }

  /** The true range is at least the candle's own range and, after the first
      candle, at least its distance from the previous close. */
  lemma TrueRangeBounds(prevClose: Decimal, can: Candle)
    ensures var f := FiguresOf(prevClose, can);
      f.trueRange >= can.high - can.low
      && (prevClose != 0.0 ==> f.trueRange >= Abs(can.high - prevClose) && f.trueRange >= Abs(prevClose - can.low))
      && (prevClose == 0.0 ==> f.trueRange == can.high - can.low && f.ret == 0.0)
  {
  }
}
