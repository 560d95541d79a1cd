# El Dorado core, modelled in Dafny

El Dorado is a market-data pipeline for crypto exchanges (FTX and FTX US).
Its *mita* instances stream trades for their markets and turn them into
15-minute ("heartbeat") candles. The *inquisidor* instance (`ig`) watches
the mitas, processes events and re-validates candles that failed their
quality check. This project models the deterministic core of that
pipeline and proves what it promises.

The model is split into modules that follow the Rust source:

- `Common`: the shared vocabulary.
  - Exact decimals are `real`.
  - Instants are integer microseconds.
  - chrono's `duration_trunc`, for an instant at least one duration after the epoch, is `Trunc`.
  - ASCII case mapping.
  - A panic is modelled by `Outcome` (`Returns` or `Panics`) and a fallible conversion by `Result`.
- `Calendar`: the civil calendar (year, month) behind month arithmetic.
- `Candles` (`src/candles.rs`):
  - the trade and candle folds, the forward-fill candle, resampling and candle validation;
  - `resample_candles` is a method with its loops, proved against a function.
- `Utilities` (`src/utilities.rs`):
  - the `TimeFrame` codec and durations, frame comparisons and `min_to_dp`;
  - the half-open and monthly date ranges, as loops proved against functions.
- `Metrics` (`src/metrics.rs`):
  - the look-back tables;
  - `ewma` and `dons` as loops proved against functions;
  - the wick, body and true-range figures of `MetricAP::new`.
- `Events` (`src/events.rs`): the event codecs, the backfill-event rule, the status update and the dispatch of `process_events`.
- `Validation` (`src/validation.rs`): the validation codecs, the duration dispatch, the automatic and manual outcome transitions, and the insert-if-absent rule.
- `Instances` (`src/instances.rs`): the instance codecs and `inactive_markets`, as a nested loop proved against a report function.
- `Monitor` (`src/monitor.rs`): the class `Inquisidor`, whose `Monitor` method builds each instance's alert message and keeps the alerts table and the instance stamps.
- `Eldorado` (`src/eldorado.rs`): error classification, the restart backoff, and the class `ElDorado` whose `ProcessRestart` updates the instance.
- `Exchanges` and `Markets` (`src/exchanges.rs`, `src/markets.rs`):
  - the exchange codec;
  - the class `Registry`, whose `Add` and `InsertNewMarkets` keep exchange and market names unique;
  - `strip_name` and the USD/future filter.
- `Mita` (`src/mita.rs`): the candle sync, with its inclusive date range, the fold that carries the previous candle forward, and the heartbeat map.

The database, the REST and WebSocket clients, the clock and the console
are not modelled as effects:

- What the source reads from them is a parameter (`now`, `listing`, `exchangeCandles`, `response`, the stored rows).
- What it writes is the new state of a class field or the returned record.

## Model

| member | source | states |
|---|---|---|
| Candles.FoldTradesShape | src/candles.rs:63-102 | the trade fold keeps the datetime, open, first trade and validation flag of its accumulator, adds one to the trade count per trade, and takes close, last trade time and last trade id from the last trade |
| Candles.FoldTradesTotals | src/candles.rs:86-95 | each running sum grows by the matching total over the trades: size, size times price, buy size minus sell size, liquidated size and liquidation count |
| Candles.FoldTradesExtremes | src/candles.rs:83-84 | the running high and low only widen, bracket every price folded in, and are either the accumulator's or some trade's price |
| Candles.NewFromTrades | src/candles.rs:62-121 | a candle from a non-empty trade list has the given datetime, open of the first trade's price, close of the last, first and last trade time and id from the first and last trade, trade count equal to the number of trades, and is not validated |
| Candles.NewFromTradesTotals | src/candles.rs:86-95 | volume is the sum of sizes, value the sum of size times price, net volume buy sizes minus sell sizes, liquidation volume and count the sums over liquidations |
| Candles.NewFromTradesHighLow | src/candles.rs:66-84 | for prices a Decimal can hold, low <= high, every price lies between them and both are attained by a trade |
| Candles.TotalsBounded | src/candles.rs:86-95 | with non-negative sizes, buy and sell sizes add up to the volume, liquidated size is within the volume and liquidations within the trade count |
| Candles.NewFromTradesBounds | src/candles.rs:86-95 | with non-negative sizes, the net volume lies within plus or minus the volume, liquidation volume within the volume and liquidation count within the trade count |
| Candles.SampleTradesCandle | src/candles.rs:1076-1132 | the candle of the four sample trades has open 70.2, high 81.0, low 70.2, close 76.7, volume 10.4, net volume 3.2, liquidation volume 0.4, value 774.85, 4 trades and 1 liquidation |
| Candles.FoldCandlesShape | src/candles.rs:128-167 | the candle fold keeps datetime, open and first trade of its accumulator, and takes close and last trade from the last candle |
| Candles.FoldCandlesTotals | src/candles.rs:155-160 | every sum of the candle fold grows by the sum of that measure over the candles |
| Candles.FoldCandlesExtremes | src/candles.rs:152-153 | the merged high and low only widen, bracket every high and low folded in, and are attained |
| Candles.NewFromCandles | src/candles.rs:127-186 | a merged candle has the given datetime, the first candle's open and first trade, the last candle's close and last trade, and is not validated |
| Candles.NewFromCandlesTotals | src/candles.rs:155-160 | volume, net volume, liquidation volume, value, trade count and liquidation count of the merge are sums over its parts |
| Candles.NewFromCandlesHighLow | src/candles.rs:131-153 | for values a Decimal can hold, the merged high is the largest high and the merged low the smallest low, both attained |
| Candles.FoldTradesIsMerge | src/candles.rs:62-186 | folding trades into an accumulator equals merging the candle those trades make on their own |
| Candles.FoldTradesAppend | src/candles.rs:63-102 | folding a concatenation of trade lists is folding the second list into the fold of the first |
| Candles.TradeCandlesFold | src/candles.rs:127-186 | merging the candles of consecutive trade groups folds the same as the concatenated trades |
| Candles.MergeOfTradeCandles | src/candles.rs:62-186 | merging the candles of consecutive non-empty trade groups gives the candle of all their trades |
| Candles.NewFromLast | src/candles.rs:190-214 | the placeholder candle has all four prices at the last trade price, zero volumes, value and counts, first trade equal to last trade, and is not validated |
| Candles.ForwardFillIsNeutral | src/candles.rs:190-214 | merging the forward fill of a candle into that candle leaves it unchanged |
| Candles.BucketMembers | src/candles.rs:239-243 | a candle is in a bucket iff it is an input candle whose truncated datetime is the bucket |
| Candles.ResampleCandles | src/candles.rs:217-251 | the imperative resample, with its date-range loop and push loop, returns what the resample function describes |
| Candles.ResampleBucketsShape | src/candles.rs:238-247 | the per-bucket step succeeds iff no bucket is empty (an empty bucket panics), and then gives one candle per bucket, stamped with the bucket and merged from its candles |
| Candles.ResampleEmpty | src/candles.rs:218-219 | an empty input resamples to an empty output |
| Candles.ResampleShape | src/candles.rs:226-235 | a successful resample has one candle per bucket from the first candle's truncated datetime to the last one's inclusive, at datetimes that step by the duration and rise strictly |
| Candles.BucketsPartition | src/candles.rs:238-247 | when every candle falls in one of distinct buckets, the trade counts of the buckets add up to the trade count of the input |
| Candles.ResampledTradeCount | src/candles.rs:244-245 | the trade counts of the resampled candles are the trade counts of their buckets |
| Candles.SortedInRange | src/candles.rs:222-235 | for input sorted by datetime, the bucket range rises strictly and holds every candle's bucket |
| Candles.ResampleConservesTradeCount | src/candles.rs:217-251 | for input sorted by datetime, a successful resample conserves the total trade count |
| Candles.FindByTime | src/candles.rs:473 | the lookup is None iff no exchange candle has the time, and otherwise is the first one that has it |
| Candles.ValidateCandle | src/candles.rs:469-502 | with no exchange candle the result is that the volume is 0; an exact match of exchange volume and value is valid; the division panics exactly when the two differ and the value is 0 |
| Candles.ValidateTolerance | src/candles.rs:478 | for a positive value the check passes iff the exchange volume is below 1.0001 times the value, so any lower volume passes |
| Utilities.TryFrom | src/utilities.rs:295-319 | the parse of a string is the frame whose spelling is the lower-cased string, an error iff no frame has that spelling, with the text "<lower-cased input> is not a supported TimeFrame." |
| Utilities.KeyIsAsStr | src/utilities.rs:190-209 | the written name of a frame is its parsed spelling for every frame except H02, which is written "h01" |
| Utilities.TryFromKey | src/utilities.rs:298-318 | every frame's spelling parses back to that frame |
| Utilities.TryFromAsStr | src/utilities.rs:190-319 | parsing the written name gives the frame back for every frame but H02, whose name reads back as H01 |
| Utilities.TryFromCaseInsensitive | src/utilities.rs:299 | parsing ignores letter case: the upper-cased and lower-cased input parse as the input does |
| Utilities.AsDurIsAsSecs | src/utilities.rs:211-251 | the duration of every frame is its number of seconds, and is positive |
| Utilities.AllTimeFramesIncreasing | src/utilities.rs:264-284 | the list of all frames holds every frame at its declaration position, and the seconds rise strictly along it |
| Utilities.TimeframeComparisons | src/utilities.rs:286-292 | greater-than with the arguments swapped is less-than, the two never hold together, and each implies the order of the two instants |
| Utilities.IsGtTimeframeExample | src/utilities.rs:532-537 | with T15, 02:29:59 and 02:30:01 of 2021-06-27 compare as greater |
| Utilities.CreateDateRange | src/utilities.rs:344-357 | the loop yields nothing when start >= end, and otherwise ceil((end - start) / d) instants, the i-th being start + i*d, all before end |
| Utilities.CreateMonthlyDateRange | src/utilities.rs:359-368 | the loop yields the monthly range: start, then the first of each following month, up to but excluding end |
| Utilities.MonthlyRangeHead | src/utilities.rs:363-366 | a monthly range is empty iff start is not before end, and otherwise begins with start |
| Utilities.MonthlyRangeBounds | src/utilities.rs:363-366 | every entry of a monthly range lies in [start, end) |
| Utilities.MonthlyRangeIncreasing | src/utilities.rs:363-366 | a monthly range rises strictly |
| Utilities.MonthlyRangeWithinYear | src/utilities.rs:359-379 | from the first of month m to the first of month n of one year there are n - m entries |
| Utilities.MonthlyRangeExample | src/utilities.rs:552-565 | 2020-02-01 to 2020-05-01 gives three entries, and 2020-02-01 to itself none |
| Utilities.NextMonthExampleJanuary | src/utilities.rs:542-545 | the month after 2020-01-12T04:04:30 starts at 2020-02-01T00:00:00 |
| Utilities.NextMonthExampleDecember | src/utilities.rs:546-549 | the month after 2020-12-12T04:04:30 starts at 2021-01-01T00:00:00 |
| Utilities.MinToDp | src/utilities.rs:386-395 | for an increment below one, the decimal places lie between the scale minus two and the scale |
| Utilities.MinToDpTicks | src/utilities.rs:388-394 | the places are the scale when 10^scale times the increment is 1, the scale minus one when it is 5, and the scale minus two otherwise |
| Utilities.MinToDpExamples | src/utilities.rs:386-395 | 0.01 needs two places and 0.05 one |
| Calendar.CivilFields | src/utilities.rs:370-384 | the year and month of an instant built from civil fields are those fields |
| Calendar.MonthBounds | src/utilities.rs:370-384 | the truncation to the month is at or before the instant, and the start of the next month is after it |
| Calendar.NextOfMonthStart | src/utilities.rs:370-379 | after the first of a month comes the first of the next month, and after December the first of January of the next year |
| Calendar.NextMonthOfCivil | src/utilities.rs:370-379 | for any instant of month m of year y the next month starts on the first of month m + 1, or of January of y + 1 when m is 12 |
| Calendar.MonthStartIncreasing | src/utilities.rs:370-379 | each month starts later than the one before it, across the turn of the year too |
| Calendar.YearOfDay | src/utilities.rs:373-376 | the year of an instant is the year whose days hold its day number |
| Calendar.MonthOfDay | src/utilities.rs:373-376 | the month of an instant is the month whose days hold its day of the year |
| Metrics.MaxLenIsShortestPlusLongest | src/metrics.rs:12-32 | every frame has three look-back periods; for T15, H01, H04, H12 and D01 they rise strictly and max_len is the first plus the third; every other frame has [0, 0, 0] and max_len 1 |
| Metrics.PrevIsFiner | src/metrics.rs:34-43 | among the frames with metrics, prev gives a frame with metrics that is no longer, and strictly shorter except at T15; every other frame maps to T15 |
| Metrics.PrevOfShortFrame | src/metrics.rs:41 | the fallback arm sends S15 to the longer T15, so prev is not finer for frames below 15 minutes |
| Metrics.Ewma | src/metrics.rs:114-123 | the loop returns the exponentially weighted average: the first element, then each later element folded in with factor 2 / (lbp + 1) |
| Metrics.SmoothingInUnit | src/metrics.rs:116 | for lbp >= 1 the factor lies in (0, 1], and is 1 for lbp = 1 |
| Metrics.EwmaWithin | src/metrics.rs:117-121 | with a factor in [0, 1] the average stays within any bounds all the elements share |
| Metrics.EwmaBetweenExtremes | src/metrics.rs:114-123 | for lbp >= 1 the average lies between the smallest and the largest element |
| Metrics.EwmaOfConstant | src/metrics.rs:114-123 | the average of a constant series is that constant |
| Metrics.EwmaEdgeCases | src/metrics.rs:114-123 | a one-element series averages to its element, and lbp = 1 gives the last element |
| Metrics.Dons | src/metrics.rs:139-174 | the nested loops return the groups [max close, min close, max high, min low] of the seven cumulative windows |
| Metrics.DonsGroupsIndex | src/metrics.rs:151-172 | group v holds the highest and lowest close, the highest high and the lowest low from the second-to-last element back to the window's reach |
| Metrics.BackExtremes | src/metrics.rs:160-166 | a window's high bounds every element it covers and is one of them (or the Decimal::MIN sentinel), and its low likewise from below |
| Metrics.BackMonotone | src/metrics.rs:151-172 | a wider window never lowers the high nor raises the low |
| Metrics.DonsWindows | src/metrics.rs:139-174 | dons yields 28 values, and group v brackets the closes and bounds the highs and lows of elements len-2 down to len-(range+1) |
| Metrics.DonsCumulative | src/metrics.rs:151-172 | across successive windows the highs never fall and the lows never rise |
| Metrics.DonsOfShortSeries | src/metrics.rs:144-160 | with fewer than two elements every value keeps its Decimal::MIN or Decimal::MAX sentinel |
| Metrics.FiguresIndex | src/metrics.rs:191-275 | the figures of candle i are computed against the previous candle's close, and against zero for the first |
| Metrics.WickBodyPartition | src/metrics.rs:251-270 | when high differs from low the upper-wick, body and lower-wick fractions add to one; when they are equal all three are zero |
| Metrics.WickBodyBounds | src/metrics.rs:251-270 | for a candle whose open and close lie in its range each fraction is in [0, 1] |
| Metrics.TrueRangeBounds | src/metrics.rs:239-249 | the true range is at least high - low, at least the distance of high and low from the previous close after the first candle, and exactly high - low (with a zero return) for the first |
| Events.TypeTryFrom | src/events.rs:62-76 | the parse is the event type whose name is the lower-cased input, an error iff no type has that name, with the text "<input> is not a supported validation type." |
| Events.TypeAsStrIsLower | src/events.rs:50-59 | every event type's name is already lower case |
| Events.TypeTryFromAsStr | src/events.rs:49-76 | every event type's name parses back to that type |
| Events.TypeTryFromCaseInsensitive | src/events.rs:66 | event types parse regardless of letter case |
| Events.StatusTryFrom | src/events.rs:96-107 | the parse is the status whose name is the lower-cased input, an error iff none has it, with the text "<input> is not a supported validation status." |
| Events.StatusAsStrIsLower | src/events.rs:87-93 | every status name is already lower case |
| Events.StatusTryFromAsStr | src/events.rs:86-107 | New, Open and Done parse back from their names |
| Events.StatusTryFromCaseInsensitive | src/events.rs:100 | statuses parse regardless of letter case |
| Events.NewBackfillTrades | src/events.rs:110-145 | no event iff the previous status is Completed; otherwise a New BackfillTrades event for droplet "ig", the given exchange and market, starting at the previous trade day, with no end, not processed, noting the previous status |
| Events.UpdateStatus | src/events.rs:172-207 | the event takes the new status; Done also stamps the processing time, New and Open leave it; nothing else changes |
| Events.UpdateEventStatusProcessed | src/events.rs:720-736 | closing an event sets status Done and the processing time to now |
| Events.ProcessedIsUpdateDone | src/events.rs:191-204 | closing an event directly and through update_status agree, and closing twice keeps only the later time |
| Events.ReopenKeepsProcessedTs | src/events.rs:177-190 | re-opening a closed event keeps its processing time |
| Events.IngestDispatch | src/events.rs:302-321 | the ingest droplet skips exactly ProcessTrades events, hands validations the event's market, and panics only for a validation whose market is unknown |
| Events.SyncEventsShape | src/events.rs:485-524 | a completed sync pass handles one entry per ProcessTrades event, each closed at now, with its market and with its window start as the validation start |
| Events.MitaProcessEvents | src/events.rs:466-501 | within a minute of the last pass nothing happens; otherwise a completed pass handles every ProcessTrades event |
| Events.SyncEventsPanics | src/events.rs:485-513 | the pass panics iff some open event has an unknown market or is a ProcessTrades event without both window ends |
| Events.SyncIgnoresOtherTypes | src/events.rs:492-497 | an event of any other type with a known market leaves the pass as it was |
| Events.DropletsSplitWork | src/events.rs:291-501 | the sync droplet handles a well-formed event iff the ingest droplet skips it |
| Validation.TypeTryFrom | src/validation.rs:53-63 | a success decodes to the validation type whose name is the lower-cased input; a failure means no type has that name and carries the source's error text |
| Validation.TypeTryFromAsStr | src/validation.rs:44-63 | decoding any validation type's name gives that type back |
| Validation.TypeTryFromCaseInsensitive | src/validation.rs:57 | decoding ignores letter case: upper- and lower-cased inputs decode alike |
| Validation.StatusTryFrom | src/validation.rs:83-94 | a success decodes to the validation status whose name is the lower-cased input; a failure means no status has that name and carries the source's error text |
| Validation.StatusTryFromAsStr | src/validation.rs:73-94 | decoding any validation status's name gives that status back |
| Validation.StatusTryFromCaseInsensitive | src/validation.rs:87 | status decoding ignores letter case |
| Validation.MarkProcessed | src/validation.rs:803-825 | the record is Done, stamped with the processing time and the note, and every other field is unchanged |
| Validation.SetTypeStatus | src/validation.rs:827-851 | the record gets the new type, status and note, and every other field is unchanged |
| Validation.UpdatesKeepKey | src/validation.rs:803-851 | neither update moves a record off its exchange, market and datetime or changes its duration |
| Validation.Dispatch | src/validation.rs:134-193 | processing panics exactly when the market is unknown or the duration is neither 900 nor 86400; otherwise the validator is heartbeat iff the duration is 900 and automatic iff the record is Auto |
| Validation.DispatchDurations | src/validation.rs:171-192 | for a known market, the durations that do not panic are exactly those of the 15-minute and daily time frames |
| Validation.Settle | src/validation.rs:214-245 | a valid recreated candle closes the record as revalidated; an invalid one hands it to manual review (Manual, Open) with the failure note; the key never changes |
| Validation.AutoValidateCandle | src/validation.rs:195-246 | panics exactly when the candle check panics; the record ends Done, with note and timestamp, iff the check accepts the candle, and otherwise becomes an open manual validation |
| Validation.AutoValidate01d | src/validation.rs:248-310 | nothing changes until every heartbeat of the day is validated (or when there are none); any change is either closing the record as revalidated or handing it to manual review |
| Validation.AutoValidate01dOfOneDay | src/validation.rs:265-309 | once all heartbeats are validated and lie within one day, resampling yields exactly one daily candle and the record is settled by checking it |
| Validation.AcceptedAnswers | src/validation.rs:385-395 | "y" and "yes" are accepted in any letter case; "n", "no", "" and "ye" are not |
| Validation.ManualSettle | src/validation.rs:326-415 | panics exactly when the exchange returns no candle or its volume is zero (the percentage divides by it); an accepted answer closes the record with the message, any other answer leaves it untouched |
| Validation.ManualValidate01d | src/validation.rs:417-495 | with no heartbeat candles the daily resample panics; otherwise the outcome is the manual settlement |
| Validation.ManualKeepsType | src/validation.rs:385-404 | a manual pass never changes the validation type and leaves the status as it was or Done |
| Validation.InsertCandleValidation | src/validation.rs:723-749 | the candle's key is present afterwards and no other key is added; an existing record is left as it is; a new one is an Auto, New validation with the basic-QC note, the given duration and creation time, under its own key; every earlier record is unchanged |
| Validation.InsertCandleValidationIdempotent | src/validation.rs:723-749 | inserting keeps every record under its own key, and inserting the same candle again changes nothing whatever the second clock and duration |
| Instances.TypeTryFrom | src/instances.rs:148-158 | a success decodes to the instance type whose name is the lower-cased input; a failure means no type has that name and carries the source's error text |
| Instances.TypeTryFromAsStr | src/instances.rs:139-158 | decoding any instance type's name gives that type back |
| Instances.TypeTryFromCaseInsensitive | src/instances.rs:152 | instance types decode regardless of letter case |
| Instances.StatusTryFrom | src/instances.rs:184-198 | a success decodes to the instance status whose name is the lower-cased input; a failure means no status has that name and carries the source's error text |
| Instances.StatusAsStrIsLower | src/instances.rs:171-182 | every status name is already lower case |
| Instances.StatusParseLowerAsStr | src/instances.rs:172-195 | the lower-case parser maps each status name back to its status |
| Instances.StatusTryFromAsStr | src/instances.rs:171-198 | decoding any instance status's name gives that status back |
| Instances.StatusTryFromCaseInsensitive | src/instances.rs:188 | instance statuses decode regardless of letter case |
| Instances.Latest | src/instances.rs:59-75 | the metric the search reaches first in the newest-first order: none iff no metric is the market's 15-minute, 8640-period series; otherwise the datetime of such a metric that no other such metric exceeds |
| Instances.ExpectedTs | src/instances.rs:60-67 | the expected timestamp is a multiple of the interval, and now lies in the interval after the one it starts |
| Instances.ExpectedTsExample | src/instances.rs:62-66 | at 12:07 with 15-minute intervals the expected metric is the one for 11:45 |
| Instances.InactiveMarkets | src/instances.rs:32-98 | an ingest instance reports nothing; a sync instance without an exchange panics; otherwise the loop returns exactly the report of its markets against the expected timestamp |
| Instances.ReportSpec | src/instances.rs:68-96 | every reported entry is one of the markets, with "Stale Metric" or "No Metric Found" as the reason its latest metric gives; every market with a reason is reported with it |
| Instances.ReportOmitsCurrent | src/instances.rs:80-88 | a market whose latest metric is for the expected timestamp is never reported |
| Instances.ReportOncePerMarket | src/instances.rs:68-96 | with distinct markets no market is reported twice |
| Monitor.Fragments | src/monitor.rs:62-73 | a non-empty list of failing markets gives a non-empty message |
| Monitor.AlertFor | src/monitor.rs:126-133 | an instance raises at most one alert in a pass |
| Monitor.TouchAll | src/monitor.rs:18-139 | the pass keeps one entry per instance |
| Monitor.TouchAllAt | src/monitor.rs:126-138 | each instance is stamped on its own account: entry k of the pass is instance k after its own check |
| Monitor.UnwatchedNeverAlert | src/monitor.rs:21-23 | New, Paused and Terminated instances never produce a message |
| Monitor.ThrottleSilences | src/monitor.rs:33-44 | within an hour of the last message nothing is said, whatever the status and the failing markets |
| Monitor.OverdueIsReported | src/monitor.rs:24-124 | outside the throttle: an Active instance's message is "Inactive Mita. " iff more than 3 minutes passed since its last update, followed by its failing markets; a Sync instance's is "Delayed Mita Sync. " iff more than 15 minutes passed, a Restart instance's "Delayed Mita Restart. " iff more than 1 minute passed, and neither says anything else |
| Monitor.TouchThrottles | src/monitor.rs:126-138 | once a message has gone out, the next pass within the hour says nothing for that instance |
| Monitor.BuildMessage | src/monitor.rs:19-125 | the message pushed together branch by branch is the instance's alert message |
| Monitor.AppendFragments | src/monitor.rs:62-66 | the loop appends exactly the fragments of the failing markets, in order |
| Monitor.Pass | src/monitor.rs:126-138 | the loop body records the instance's alert, if any, and stamps the instance exactly when a message went out |
| Monitor.Inquisidor.Monitor | src/monitor.rs:9-140 | after the pass the alerts table gains the alerts of all instances in order, and every instance is stamped on its own account |
| Eldorado.HandleSqlxErrorForRestart | src/eldorado.rs:262-285 | a database error asks for a restart iff it is an I/O error of any kind or the pool timed out or closed |
| Eldorado.HandleReqwestErrorForRestart | src/eldorado.rs:287-289 | an HTTP client error never asks for a restart |
| Eldorado.HandleErrorForRestart | src/eldorado.rs:253-260 | only database and WebSocket errors can ask for a restart; a database error follows the database handler and a WebSocket error that handler's verdict |
| Eldorado.RestartableErrors | src/eldorado.rs:253-285 | an error asks for a restart iff it is a transient database error or a WebSocket error whose handler asks for one |
| Eldorado.HandleRestError | src/eldorado.rs:291-333 | a non-transport error is handed back as a REST error and a transport error that is not retried is handed back as itself; a retry waits 30 or 90 seconds |
| Eldorado.RestErrorClassification | src/eldorado.rs:293-326 | timeouts, connect and request errors retry after 30 seconds; otherwise a retry after 30 seconds happens iff the status is 500, 502, 503, 504, 520, 522 or 530, a retry after 90 iff it is 429, and every other status, or none, gives up |
| Eldorado.Backoff | src/eldorado.rs:137-147 | with no restart in the last day the wait is 5 seconds and the count restarts at 1; otherwise an unset count panics and the new count is the old one plus one |
| Eldorado.BackoffSchedule | src/eldorado.rs:142-146 | within the day the wait is 5 seconds after no restarts, 30 after one and 60 after two or more |
| Eldorado.BackoffGrows | src/eldorado.rs:137-153 | a second restart within a day of the first never waits less than the first |
| Eldorado.RestartState | src/eldorado.rs:148-156 | as written: the backoff panics or not; with a restart the instance records it, the new count and the wake-up time; without one the instance is left exactly as it was |
| Eldorado.NoRestartKeepsRunning | src/eldorado.rs:119-156 | as written, declining a restart leaves the restart flag set, so the run loop goes round again |
| Eldorado.RestartStateFixed | src/eldorado.rs:148-156 | with the fix the instance's restart flag always equals the decision; a declined restart changes nothing else and an accepted one is as written |
| Eldorado.FixedShutsDown | src/eldorado.rs:119-156 | with the fix an error not worth a restart ends the run loop |
| Eldorado.ElDorado.ProcessRestart | src/eldorado.rs:134-162 | panics exactly when the backoff does, and then leaves the instance alone; otherwise returns the backoff's wait and leaves the instance as the as-written restart update says: count and wake time recorded on a restart, the instance untouched (restart flag still set) when none is wanted |
| Eldorado.ElDorado.CreateDateRange | src/utilities.rs:12-30 | empty when start is not before end; otherwise ceil((end - start) / step) datetimes from start, each start + i steps and before end, one frame's duration apart |
| Exchanges.TryFrom | src/exchanges.rs:34-44 | a success decodes to the exchange whose name is the lower-cased input; a failure means no exchange has that name and carries the source's error text |
| Exchanges.AsStrIsLower | src/exchanges.rs:25-32 | every exchange name is already lower case |
| Exchanges.TryFromAsStr | src/exchanges.rs:25-44 | decoding any exchange's name gives that exchange back |
| Exchanges.TryFromCaseInsensitive | src/exchanges.rs:38 | exchange names decode regardless of letter case |
| Exchanges.EveryExchangeSupported | src/exchanges.rs:56-74 | the hard-coded supported list names every exchange, so a parsed exchange is never rejected as unsupported |
| Exchanges.MarketNamesOf | src/exchanges.rs:95-99 | a name is listed iff a stored market row of that exchange carries it |
| Exchanges.NewMarkets | src/exchanges.rs:102-111 | at most one row per fetched market; every row is for the exchange and has a name not stored before; every fetched market with a new name gets a row |
| Exchanges.NewMarketsNames | src/exchanges.rs:103-110 | every inserted row names one of the fetched markets |
| Exchanges.NewMarketsIndices | src/exchanges.rs:103-110 | rows come in the order of the fetched markets they name |
| Exchanges.NewMarketsUnique | src/exchanges.rs:102-111 | when the listing names each market once, no market name is inserted twice |
| Exchanges.UniqueAfterInsert | src/exchanges.rs:64-80 | adding an exchange that is not yet present keeps exchange names unique |
| Exchanges.Registry.InsertNewMarkets | src/exchanges.rs:102-111 | the exchanges are unchanged and the markets gain exactly the new rows for the fetched markets, in order |
| Exchanges.Registry.Add | src/exchanges.rs:46-117 | an unparsable name panics and changes nothing; an exchange already present changes nothing; otherwise the exchange is appended, a failed listing stops there, and a successful one appends the new USD markets; exchange names stay unique |
| Markets.StripName | src/markets.rs:38-48 | the result has no '/' or '-' and is shorter than the name by exactly its number of separators |
| Markets.StripNameAppend | src/markets.rs:40 | stripping distributes over concatenation |
| Markets.StripNameChar | src/markets.rs:40 | a single separator vanishes and any other character stays |
| Markets.StripNameKeepsOthers | src/markets.rs:40 | every non-separator character occurs as often as in the name, and separators not at all |
| Markets.StripNameOfClean | src/markets.rs:40 | a name without separators is unchanged |
| Markets.StripNameIdempotent | src/markets.rs:40 | stripping twice is stripping once |
| Markets.StripAroundSeparator | src/markets.rs:40 | base, separator and quote strip to base followed by quote |
| Markets.StripNameSpotExample | src/markets.rs:40 | "BTC/USD" strips to "BTCUSD" |
| Markets.StripNamePerpExample | src/markets.rs:40 | "BTC-PERP" strips to "BTCPERP" |
| Markets.MarketIdStripName | src/markets.rs:38-42 | a market id's stripped name has no separators |
| Markets.MarketDetailStripName | src/markets.rs:44-48 | a market detail's stripped name has no separators |
| Markets.StripNamesAgree | src/markets.rs:38-48 | both record kinds strip the same name to the same string |
| Markets.FindMarket | src/validation.rs:146-149 | none iff no market has the id; otherwise a market with that id that no earlier market has |
| Markets.RetainUsd | src/markets.rs:61 | the kept markets are USD-quoted or futures and come from the listing, and every such market of the listing is kept |
| Markets.RetainUsdAppend | src/markets.rs:61 | filtering distributes over concatenation, so kept markets stay in their order |
| Markets.PullUsdMarketsFromFtx | src/markets.rs:50-63 | panics iff the exchange is neither "ftx" nor "ftxus"; a successful listing is filtered to USD markets and futures, a failed one is passed on |
| Mita.TradesIn | src/mita.rs:148-152 | the filter never yields more trades than it is given |
| Mita.TradesInMembers | src/mita.rs:148-152 | a trade is kept iff it is one of the trades and its time truncates to the interval |
| Mita.InsertByIdStrict | src/mita.rs:165-166 | inserting into an id-ordered sequence without repeats keeps it ordered without repeats |
| Mita.InsertByIdPresent | src/mita.rs:166 | a trade whose id is already present leaves the sequence unchanged |
| Mita.SortDedupStrict | src/mita.rs:165-166 | after sorting by id and dropping repeats, ids strictly increase |
| Mita.SortDedupSubset | src/mita.rs:165-166 | every trade kept is one of the input trades |
| Mita.SortDedupCovers | src/mita.rs:165-166 | every id of the input is kept by some trade |
| Mita.SortDedupKeepsFirst | src/mita.rs:165-166 | every trade kept is the first trade of the input with its id |
| Mita.CandleFor | src/mita.rs:147-169 | the candle of an interval is dated with it and not validated |
| Mita.FoldDatesAt | src/mita.rs:147-173 | candle k of the fold is the step applied to date k and the candle made just before it |
| Mita.SyncFoldAt | src/mita.rs:147-173 | candle k of the sync is the candle for date k given the candle made just before it, or the stored previous candle for the first |
| Mita.SyncFoldDates | src/mita.rs:147-173 | the sync makes one unvalidated candle per date, dated with it |
| Mita.ForwardFill | src/mita.rs:153-163 | a run of intervals without trades repeats the close, last trade time and last trade id of the candle before the run, with no volume and no trades |
| Mita.IntervalWithTrades | src/mita.rs:164-168 | an interval with trades gets the candle of its trades sorted by id with repeats dropped: its trade count is their number, and every trade of the interval is represented by its id |
| Mita.SyncCandles | src/mita.rs:147-173 | the fold with a mutable previous candle computes exactly the sync's candle sequence |
| Mita.NextCandle | src/mita.rs:148-169 | the fold's closure for one date computes the candle for that date |
| Mita.SyncDateRange | src/mita.rs:131-137 | the range has one date per 15-minute step from start up to and including end, each start + i steps |
| Mita.AlignedRangeLength | src/mita.rs:131-137 | from one 15-minute mark to another the range has one date per mark, both ends included |
| Mita.SyncEnd | src/mita.rs:84 | the end of the sync is a 15-minute mark, at or before the clock and less than 15 minutes before it |
| Mita.MarketCandlesPanics | src/mita.rs:73-146 | a market's sync panics iff its last candle cannot be read, or candles are due and there is no candle before them; a market already at the current mark gets no candles |
| Mita.MarketCandlesCover | src/mita.rs:117-173 | a sync that runs yields one candle per mark from the one after the last stored candle up to the current mark, in order |
| Mita.HeartbeatKeys | src/mita.rs:209-210 | the heartbeat map has an entry for exactly the names of the markets |
| Mita.HeartbeatOfLast | src/mita.rs:209-210 | a market's heartbeat is its own sync end when no later market has its name |
| Mita.Sync | src/mita.rs:68-214 | the pass panics iff some market's sync panics; otherwise it writes each market's candles in order and returns the heartbeat map |
| Mita.SyncMarket | src/mita.rs:71-210 | the loop body for one market computes that market's candles, panicking where the source does |
| Common.Trunc | src/instances.rs:67 | truncation gives a multiple of the duration, at or before the instant and less than one duration before it |
| Common.LowerIdempotent | src/exchanges.rs:38 | lower-cased text has no upper-case letters, and lower-casing it again changes nothing |
| Common.LowerOfUpper | src/exchanges.rs:38 | lower-casing undoes upper-casing, which makes every codec case-insensitive |

## Left out

- All SQL through sqlx (`insert_*`, `select_*`, `update_*`, `delete_*`, table creation and dropping): database I/O. Rows read are parameters, and rows written are the returned record or a class field.
- The REST clients, the WebSocket stream, `historical`, `get_ftx_candles`, `recreate_ftx_candle` and `process_revalidated_candle`: network I/O. The recreated candle and the exchange candles are parameters of the validators.
- `Metric::z` and the `log10` branch of `min_to_dp`: approximate numerics (Decimal `sqrt`, floating point). `MinToDp` models the branch for increments below 1 only.
- Rounding of Decimal results to 28 digits, Decimal overflow and `round_dp`: decimals are exact reals. `Decimal::MIN`/`MAX` appear only as the fold sentinels.
- Twilio, `get_input` and the sending part of `src/alerts.rs`: SMS, stdin and environment variables. The manual validators take the typed response and the delta/percent message as parameters.
- Monitor.Alert: keeps the instance type, droplet, exchange and message that `Alert::new` copies, but not its random uuid and clock timestamp.
- `ElDorado::run` and its `Conqui` arm: an endless loop over the instance run. `InstanceType` in `src/instances.rs` has no `Conqui` variant, so the arm cannot be modelled against that enum. `FixedShutsDown` and `NoRestartKeepsRunning` state the loop's exit condition.
- `handle_ws_error_for_restart`: its source is not part of this model. A WebSocket error carries the verdict that handler gives.
- `Inquisidor::set_initial_event` and the bodies of the `process_event_*` handlers: sequences of database effects. The dispatch to them and the status rule are modelled.
- Mita's database steps (moving REST trades to the live table, inserting candles, moving trades to processed), plus `Mita::new` and `Mita::run`: database I/O and process start-up. `MarketSync` holds what those steps read.
- `Instance::update_last_message_ts`: its choice of WHERE clause by exchange is an I/O detail. The model stamps the instance itself.
- Calendar arithmetic before 1970 and chrono's truncation of negative instants: all instants are at or after the Unix epoch.
- Common.Trunc: for an instant less than one duration after the epoch chrono's `duration_trunc` returns `DurationExceedsTimestamp` and the source's `unwrap` panics; `Trunc` returns 0 there. Only Instances.InactiveMarkets models that panic; the candle bucketing and resampling in `Candles`, Mita.SyncEnd, Mita.TradesIn and Instances.ExpectedTs take every instant to be at least one duration after the epoch.
- Instances.InactiveMarkets: requires `duration > 0 && now >= 0`. chrono's truncation is modelled for non-negative instants, and the only caller passes the 15-minute duration.
- Instances.InactiveMarkets: the newest-first `sort_by` of the metrics is modelled by its effect on `find`, which is to return the latest matching metric (`Latest`), not as an in-place sort.
- Monitor.Inquisidor.Monitor: uses one `now` for the whole pass, where the source reads the clock for each instance. The failing markets of each instance are a parameter, because `inactive_markets` is a separate operation.
- Monitor.Fragment: the Debug formatting of a market name is modelled as the name in double quotes, without Debug's escaping of quotes and backslashes inside it.
- Common.ToLower: Rust's `to_lowercase` is modelled on ASCII letters only.
- Markets.MarketDataStatusAsStr: `MarketDataStatus` is not defined in the modelled files. Its names are taken to be the lower-case variant names.
- Candles.NewFromTrades: requires a non-empty trade list. The source's `expect("No first trade for candle.")` panics on an empty one.
- Metrics.Ewma: requires a non-empty series, because the source indexes `v[0]`. `lbp = -1` (a division by zero) is excluded.
- Metrics.Dons: requires the high and low series to be at least as long as the closes, as they are when all three come from one candle list.
- Utilities.CreateDateRange: requires a positive step. Every `TimeFrame` has one, and a zero step loops forever in the source.
- Metrics.PrevIsFiner: states "no longer than" only for the frames that have metrics. For the others `prev` falls back to T15, which can be longer (`PrevOfShortFrame`).
- Eldorado.BackoffGrows: assumes a non-negative restart count. The count comes only from previous restarts.
- Eldorado.Backoff: models `restart_count` as an unbounded integer. The source's `i32` overflows only after about two billion restarts within a day.
- `Candle::new_from_trades` is called with an extra `market_id` in `src/validation.rs` and `src/mita.rs`. The model follows the definition in `src/candles.rs`, so the id is not a field of `Candle`.
- `eldorado.rs` names more exchanges (Gdax, Kraken) than `exchanges.rs` defines. The model follows `ExchangeName` in `src/exchanges.rs`.

## Findings

| source | as written | input that shows it | evidently intended | confidence | as-written member | corrected member |
|---|---|---|---|---|---|---|
| src/eldorado.rs:148-156 | `process_restart(false)` writes nothing to the instance, so `instance.restart` stays true and `run`'s `while self.instance.restart` loop starts the instance again at once | any run error for which `handle_error_for_restart` is false, for example an sqlx error other than I/O or pool errors, while `instance.restart` is true | record the declined restart (`restart = false`) so that `run` stops, as the message "No restart. Shutdown." says | medium, not executed | Eldorado.NoRestartKeepsRunning | Eldorado.FixedShutsDown |
