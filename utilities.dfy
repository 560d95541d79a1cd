/** Time frames, half-open date ranges and monthly ranges (src/utilities.rs). */
module Utilities {
  import opened Common
  import opened Calendar

  datatype TimeFrame =
    | S15 | S30 | T01 | T03 | T05 | T15 | T30
    | H01 | H02 | H03 | H04 | H06 | H12
    | D01 | D03 | W01

  /** `TimeFrame::all_time_frames`, in declaration order. */
  const ALL_TIME_FRAMES: seq<TimeFrame> :=
    [S15, S30, T01, T03, T05, T15, T30, H01, H02, H03, H04, H06, H12, D01, D03, W01]

  /** `TimeFrame::as_str`. */
  function AsStr(tf: TimeFrame): string {
    match tf
    case S15 => "s15"
    case S30 => "s30"
    case T01 => "t01"
    case T03 => "t03"
    case T05 => "t05"
    case T15 => "t15"
    case T30 => "t30"
    case H01 => "h01"
    case H02 => "h01"
    case H03 => "h03"
    case H04 => "h04"
    case H06 => "h06"
    case H12 => "h12"
    case D01 => "d01"
    case D03 => "d03"
    case W01 => "w01"
  }

  /** `TimeFrame::as_secs`. */
  function AsSecs(tf: TimeFrame): int {
    match tf
    case S15 => 15
    case S30 => 30
    case T01 => 60
    case T03 => 180
    case T05 => 300
    case T15 => 900
    case T30 => 1800
    case H01 => 3600
    case H02 => 7200
    case H03 => 10800
    case H04 => 14400
    case H06 => 21600
    case H12 => 43200
    case D01 => 86400
    case D03 => 259200
    case W01 => 604800
  }

  /** `TimeFrame::as_dur`, in microseconds. */
  function AsDur(tf: TimeFrame): int {
    match tf
    case S15 => Seconds(15)
    case S30 => Seconds(30)
    case T01 => Minutes(1)
    case T03 => Minutes(3)
    case T05 => Minutes(5)
    case T15 => Minutes(15)
    case T30 => Minutes(30)
    case H01 => Hours(1)
    case H02 => Hours(2)
    case H03 => Hours(3)
    case H04 => Hours(4)
    case H06 => Hours(6)
    case H12 => Hours(12)
    case D01 => Days(1)
    case D03 => Days(3)
    case W01 => Weeks(1)
  }

  /** The spelling `TryFrom` accepts for each frame. */
  function Key(tf: TimeFrame): string {
    if tf == H02 then "h02" else AsStr(tf)
  }

  /** `TryFrom<String> for TimeFrame`: the frame whose spelling is the
      lower-cased input, or the error text. */
  function TryFrom(s: string): (r: Result<TimeFrame>)
    ensures r.Ok? ==> Key(r.value) == ToLower(s)
    ensures r.Err? ==> forall tf :: Key(tf) != ToLower(s)
    ensures r.Err? ==> r.error == ToLower(s) + " is not a supported TimeFrame."
  {
    ParseLower(ToLower(s))
  }

  function ParseLower(lower: string): Result<TimeFrame> {
    match lower
    case "s15" => Ok(S15)
    case "s30" => Ok(S30)
    case "t01" => Ok(T01)
    case "t03" => Ok(T03)
    case "t05" => Ok(T05)
    case "t15" => Ok(T15)
    case "t30" => Ok(T30)
    case "h01" => Ok(H01)
    case "h02" => Ok(H02)
    case "h03" => Ok(H03)
    case "h04" => Ok(H04)
    case "h06" => Ok(H06)
    case "h12" => Ok(H12)
    case "d01" => Ok(D01)
    case "d03" => Ok(D03)
    case "w01" => Ok(W01)
    case other => Err(other + " is not a supported TimeFrame.")
  }

  /** Only H02 is written differently from the way it is parsed. */
  lemma KeyIsAsStr(tf: TimeFrame)
    ensures Key(tf) == AsStr(tf) <==> tf != H02
  {
  }

  /** Parsing a frame's name gives the frame back, except that H02 reads back as H01. */
  lemma TryFromKey(tf: TimeFrame)
    ensures TryFrom(Key(tf)) == Ok(tf)
  {
    KeyIsLower(tf);
    ParseLowerKey(tf);
  }

  lemma KeyIsLower(tf: TimeFrame)
    ensures ToLower(Key(tf)) == Key(tf)
  {
    assert NoUpper(Key(tf));
    LowerOfLower(Key(tf));
  }

  lemma ParseLowerKey(tf: TimeFrame)
    ensures ParseLower(Key(tf)) == Ok(tf)
  {
  }

  lemma TryFromAsStr(tf: TimeFrame)
    ensures tf != H02 ==> TryFrom(AsStr(tf)) == Ok(tf)
    ensures TryFrom(AsStr(H02)) == Ok(H01)
  {
    TryFromKey(tf);
    TryFromKey(H01);
  }

  /** Parsing ignores letter case. */
  lemma TryFromCaseInsensitive(s: string)
    ensures TryFrom(ToUpper(s)) == TryFrom(s)
    ensures TryFrom(ToLower(s)) == TryFrom(s)
  {
    LowerOfUpper(s);
    LowerIdempotent(s);
  }

  /** `as_dur` is `as_secs` seconds. */
  lemma AsDurIsAsSecs(tf: TimeFrame)
    ensures AsDur(tf) == Seconds(AsSecs(tf))
    ensures AsDur(tf) > 0
  {
  }

  /** Position in declaration order. */
  function Ordinal(tf: TimeFrame): nat {
    match tf
    case S15 => 0
    case S30 => 1
    case T01 => 2
    case T03 => 3
    case T05 => 4
    case T15 => 5
    case T30 => 6
    case H01 => 7
    case H02 => 8
    case H03 => 9
    case H04 => 10
    case H06 => 11
    case H12 => 12
    case D01 => 13
    case D03 => 14
    case W01 => 15
  }

  /** Every frame is listed, at its declaration position, and the frames get
      strictly longer in declaration order. */
  lemma AllTimeFramesIncreasing()
    ensures forall tf :: Ordinal(tf) < |ALL_TIME_FRAMES| && ALL_TIME_FRAMES[Ordinal(tf)] == tf
    ensures forall i, j :: 0 <= i < j < |ALL_TIME_FRAMES| ==> AsSecs(ALL_TIME_FRAMES[i]) < AsSecs(ALL_TIME_FRAMES[j])
  {
  }

  /** `is_gt_timeframe`: `dt2` falls in a later bucket of `tf` than `dt1`. */
  predicate IsGtTimeframe(tf: TimeFrame, dt1: Instant, dt2: Instant) {
    AsDurIsAsSecs(tf);
    Trunc(dt1, AsDur(tf)) < Trunc(dt2, AsDur(tf))
  }

  /** `is_lt_timeframe`: `dt2` falls in an earlier bucket of `tf` than `dt1`. */
  predicate IsLtTimeframe(tf: TimeFrame, dt1: Instant, dt2: Instant) {
    AsDurIsAsSecs(tf);
    Trunc(dt1, AsDur(tf)) > Trunc(dt2, AsDur(tf))
  }

  /** The two comparisons are mirror images, exclusive, and follow the order of time. */
  lemma {:induction false} TimeframeComparisons(tf: TimeFrame, dt1: Instant, dt2: Instant)
    ensures IsGtTimeframe(tf, dt1, dt2) == IsLtTimeframe(tf, dt2, dt1)
    ensures !(IsGtTimeframe(tf, dt1, dt2) && IsLtTimeframe(tf, dt1, dt2))
    ensures IsGtTimeframe(tf, dt1, dt2) ==> dt1 < dt2
    ensures IsLtTimeframe(tf, dt1, dt2) ==> dt2 < dt1
  {
    AsDurIsAsSecs(tf);
    if dt2 <= dt1 {
      TruncMonotone(dt2, dt1, AsDur(tf));
    } else {
      TruncMonotone(dt1, dt2, AsDur(tf));
    }
  }

  /** 02:29:59 and 02:30:01 lie in consecutive 15-minute buckets. */
  lemma IsGtTimeframeExample()
    ensures IsGtTimeframe(T15, CivilInstant(2021, 6, 27, 2, 29, 59), CivilInstant(2021, 6, 27, 2, 30, 1))
  {
    assert DaysBeforeYear(2021) == 18628;
    assert DaysBeforeMonth(2021, 6) == 151;
    assert CivilInstant(2021, 6, 27, 2, 29, 59) == 1624760999000000;
    assert CivilInstant(2021, 6, 27, 2, 30, 1) == 1624761001000000;
    DivUnique(1624760999000000, 900000000, 1805289);
    DivUnique(1624761001000000, 900000000, 1805290);
  }

  /** `start` advanced by `i` steps of `d`. */
  function Nth(start: Instant, i: nat, d: int): Instant {
    if i == 0 then start else Nth(start, i - 1, d) + d
  }

  lemma {:induction false} NthIsProduct(start: Instant, i: nat, d: int)
    ensures Nth(start, i, d) == start + i * d
  {
    if i > 0 {
      NthIsProduct(start, i - 1, d);
      assert (i - 1) * d + d == i * d;
    }
  }

  /** The first `n` instants of `start`, `start + d`, ... */
  function Steps(start: Instant, n: nat, d: int): (r: seq<Instant>)
    ensures |r| == n
  {
    if n == 0 then [] else Steps(start, n - 1, d) + [Nth(start, n - 1, d)]
  }

  lemma {:induction false} StepsIndex(start: Instant, n: nat, d: int)
    ensures forall i :: 0 <= i < n ==> Steps(start, n, d)[i] == Nth(start, i, d)
  {
    if n > 0 {
      StepsIndex(start, n - 1, d);
      assert forall i :: 0 <= i < n - 1 ==> Steps(start, n, d)[i] == Steps(start, n - 1, d)[i];
    }
  }

  lemma {:induction false} NthIncreasing(start: Instant, i: nat, j: nat, d: int)
    requires d > 0 && i < j
    ensures Nth(start, i, d) < Nth(start, j, d)
    decreases j - i
  {
    if i + 1 < j {
      NthIncreasing(start, i, j - 1, d);
    }
  }

  /** The number of steps of `d` from `lo` that do not pass `hi`. */
  function InclusiveCount(lo: Instant, hi: Instant, d: int): nat
    requires d > 0
  {
    if lo > hi then 0 else (hi - lo) / d + 1
  }

  /** A loop that stops at the first step past `hi` has taken `InclusiveCount` steps. */
  lemma InclusiveCountOfStop(lo: Instant, hi: Instant, d: int, n: nat)
    requires d > 0
    requires n == 0 ==> lo > hi
    requires n > 0 ==> Nth(lo, n - 1, d) <= hi < Nth(lo, n, d)
    ensures InclusiveCount(lo, hi, d) == n
  {
    if n > 0 {
      NthIsProduct(lo, n - 1, d);
      NthIsProduct(lo, n, d);
      assert (n - 1) * d + d == n * d;
      DivUnique(hi - lo, d, n - 1);
    }
  }

  /** A range whose last step stops at `end` has ceil((end - start) / d) entries. */
  lemma RangeLength(start: Instant, end: Instant, d: int, k: nat)
    requires d > 0 && k >= 1
    requires Nth(start, k - 1, d) < end <= Nth(start, k, d)
    ensures CeilDiv(end - start, d) == k
  {
    NthIsProduct(start, k - 1, d);
    NthIsProduct(start, k, d);
    assert (k - 1) * d + d == k * d;
    CeilDivUnique(end - start, d, k);
  }

  /** `create_date_range` (the free function; `ElDorado`'s method hands it the frame's step):
      `start`, `start + d`, ... up to but excluding `end`. */
  method CreateDateRange(start: Instant, end: Instant, d: int) returns (r: seq<Instant>)
    requires d > 0
    ensures start >= end ==> r == []
    ensures start < end ==> |r| == CeilDiv(end - start, d)
    ensures forall i :: 0 <= i < |r| ==> r[i] == Nth(start, i, d)
    ensures forall i :: 0 <= i < |r| ==> r[i] < end
  {
    var drStart := start;
    r := [];
    while drStart < end
      invariant drStart == Nth(start, |r|, d)
      invariant forall i :: 0 <= i < |r| ==> r[i] == Nth(start, i, d)
      invariant forall i :: 0 <= i < |r| ==> r[i] < end
      invariant |r| > 0 ==> Nth(start, |r| - 1, d) < end
      decreases end - drStart
    {
      r := r + [drStart];
      drStart := drStart + d;
    }
    if start < end {
      RangeLength(start, end, d, |r|);
    }
  }

  /** The months from `start` (kept as given) up to but excluding `end`. */
  function MonthlyRange(start: Instant, end: Instant): (r: seq<Instant>)
    requires start >= 0
    decreases end - start
  {
    if start >= end then []
    else
      NextMonthAfter(start);
      [start] + MonthlyRange(NextMonthDatetime(start), end)
  }

  lemma MonthlyRangeUnfold(t: Instant, end: Instant)
    requires 0 <= t < end
    ensures t < NextMonthDatetime(t)
    ensures MonthlyRange(t, end) == [t] + MonthlyRange(NextMonthDatetime(t), end)
  {
    NextMonthAfter(t);
  }

  /** `create_monthly_date_range`. */
  method CreateMonthlyDateRange(start: Instant, end: Instant) returns (r: seq<Instant>)
    requires start >= 0
    ensures r == MonthlyRange(start, end)
  {
    ghost var whole := MonthlyRange(start, end);
    var drStart := start;
    r := [];
    while drStart < end
      invariant drStart >= 0
      invariant r + MonthlyRange(drStart, end) == whole
      decreases end - drStart
    {
      r, drStart := MonthStep(r, drStart, end, whole);
    }
    MonthlyDone(r, drStart, end, whole);
  }

  /** Once the current date reaches `end`, what is collected is the whole range. */
  lemma MonthlyDone(r: seq<Instant>, t: Instant, end: Instant, whole: seq<Instant>)
    requires 0 <= t && end <= t && r + MonthlyRange(t, end) == whole
    ensures r == whole
  {
    assert MonthlyRange(t, end) == [];
    assert r + [] == r;
  }

  /** The loop body of `create_monthly_date_range`: push the current date and
      move to the first of the next month. */
  method MonthStep(r: seq<Instant>, t: Instant, end: Instant, ghost whole: seq<Instant>) returns (r': seq<Instant>, next: Instant)
    requires 0 <= t < end && r + MonthlyRange(t, end) == whole
    ensures r' == r + [t]
    ensures t < next && r' + MonthlyRange(next, end) == whole
  {
    next := NextMonthDatetime(t);
    MonthlyStepLemma(r, t, next, end, whole);
    r' := r + [t];
  }

  /** One turn of the loop keeps what is collected plus what is left equal to the whole range. */
  lemma MonthlyStepLemma(r: seq<Instant>, t: Instant, next: Instant, end: Instant, whole: seq<Instant>)
    requires 0 <= t < end && next == NextMonthDatetime(t)
    requires r + MonthlyRange(t, end) == whole
    ensures t < next
    ensures (r + [t]) + MonthlyRange(next, end) == whole
  {
    MonthlyRangeUnfold(t, end);
    var rest := MonthlyRange(next, end);
    assert (r + [t]) + rest == r + ([t] + rest);
  }

  /** A monthly range is empty iff `start` is not before `end`, and starts at `start` otherwise. */
  lemma MonthlyRangeHead(start: Instant, end: Instant)
    requires start >= 0
    ensures start >= end ==> MonthlyRange(start, end) == []
    ensures start < end ==> |MonthlyRange(start, end)| > 0 && MonthlyRange(start, end)[0] == start
  {
    if start < end {
      MonthlyRangeUnfold(start, end);
    }
  }

  /** A monthly range stays within [start, end). */
  lemma {:induction false} MonthlyRangeBounds(start: Instant, end: Instant)
    requires start >= 0
    ensures forall i :: 0 <= i < |MonthlyRange(start, end)| ==> start <= MonthlyRange(start, end)[i] < end
    decreases end - start
  {
    if start < end {
      MonthlyRangeUnfold(start, end);
      var next := NextMonthDatetime(start);
      MonthlyRangeBounds(next, end);
      var r, rest := MonthlyRange(start, end), MonthlyRange(next, end);
      assert r == [start] + rest;
      forall i | 0 <= i < |r|
        ensures start <= r[i] < end
      {
        if i > 0 {
          assert r[i] == rest[i - 1];
        }
      }
    }
  }

  /** A monthly range rises strictly. */
  lemma {:induction false} MonthlyRangeIncreasing(start: Instant, end: Instant)
    requires start >= 0
    ensures StrictlyIncreasing(MonthlyRange(start, end))
    decreases end - start
  {
    if start < end {
      NextMonthAfter(start);
      var next := NextMonthDatetime(start);
      MonthlyRangeIncreasing(next, end);
      MonthlyRangeBounds(next, end);
      IncreasingCons(start, MonthlyRange(next, end));
    }
  }

  /** Between two month starts of one year there is one entry per month. */
  lemma {:induction false} MonthlyRangeWithinYear(y: int, m: int, n: int)
    requires y >= 1970 && 1 <= m <= n <= 12
    ensures |MonthlyRange(MonthStart(y, m), MonthStart(y, n))| == n - m
    decreases n - m
  {
    var a, c := MonthStart(y, m), MonthStart(y, n);
    if m < n {
      var b := MonthStart(y, m + 1);
      NextOfMonthStart(y, m);
      MonthStartIncreasing(y, m);
      MonthStartMonotone(y, m + 1, n);
      assert a < b <= c;
      MonthlyRangeUnfold(a, c);
      assert MonthlyRange(a, c) == [a] + MonthlyRange(b, c);
      MonthlyRangeWithinYear(y, m + 1, n);
    } else {
      assert MonthlyRange(a, c) == [];
    }
  }

  /** The monthly range from 2020-02-01 to 2020-05-01 has three entries, and
      one from a date to itself has none. */
  lemma MonthlyRangeExample()
    ensures |MonthlyRange(MonthStart(2020, 2), MonthStart(2020, 5))| == 3
    ensures MonthlyRange(MonthStart(2020, 2), MonthStart(2020, 2)) == []
  {
    MonthlyRangeWithinYear(2020, 2, 5);
  }

  /** `next_month_datetime` of 2020-01-12T04:04:30 is 2020-02-01T00:00:00. */
  lemma NextMonthExampleJanuary()
    ensures NextMonthDatetime(CivilInstant(2020, 1, 12, 4, 4, 30)) == MonthStart(2020, 2)
  {
    assert ValidCivil(2020, 1, 12, 4, 4, 30);
    NextMonthOfCivil(2020, 1, 12, 4, 4, 30);
  }

  /** `next_month_datetime` of 2020-12-12T04:04:30 rolls over to 2021-01-01T00:00:00. */
  lemma NextMonthExampleDecember()
    ensures NextMonthDatetime(CivilInstant(2020, 12, 12, 4, 4, 30)) == MonthStart(2021, 1)
  {
    assert ValidCivil(2020, 12, 12, 4, 4, 30);
    NextMonthOfCivil(2020, 12, 12, 4, 4, 30);
  }

  /** A rust_decimal value: `mantissa / 10^scale`. */
  datatype DecimalRepr = DecimalRepr(mantissa: int, scale: nat)

  function ValueOf(x: DecimalRepr): Decimal {
    x.mantissa as real / Pow10(x.scale) as real
  }

  /** `10^scale * x` is the mantissa of `x`. */
  lemma ScaledIsMantissa(x: DecimalRepr)
    ensures Pow10(x.scale) as real * ValueOf(x) == x.mantissa as real
  {
  }

  /** `min_to_dp` for an increment below one: the decimal places a price or
      quantity with this tick size needs. The comparisons of `10^scale * increment`
      with 1 and 5 are comparisons of the mantissa (`ScaledIsMantissa`). */
  function MinToDp(increment: DecimalRepr): (dp: int)
    requires ValueOf(increment) < 1.0
    ensures increment.scale - 2 <= dp <= increment.scale
  {
    var dp := increment.scale;
    if increment.mantissa == 1 then dp
    else if increment.mantissa == 5 then dp - 1
    else dp - 2
  }

  /** A tick of exactly 10^-dp gives dp, a tick of 5 * 10^-(dp+1) gives dp, and
      any other tick two places fewer than its scale. */
  lemma {:induction false} MinToDpTicks(x: DecimalRepr)
    requires ValueOf(x) < 1.0
    ensures x.mantissa == 1 ==> MinToDp(x) == x.scale && Pow10(x.scale) as real * ValueOf(x) == 1.0
    ensures x.mantissa == 5 ==> MinToDp(x) + 1 == x.scale && Pow10(x.scale) as real * ValueOf(x) == 5.0
    ensures x.mantissa != 1 && x.mantissa != 5 ==> MinToDp(x) == x.scale - 2
  {
    ScaledIsMantissa(x);
  }

  /** 0.01 needs two places and 0.05 one. */
  lemma MinToDpExamples()
    ensures MinToDp(DecimalRepr(1, 2)) == 2
    ensures MinToDp(DecimalRepr(5, 2)) == 1
  {
  }
}
