/** Candle validations: records of candles that failed their first check and
    the automatic and manual passes that settle them (src/validation.rs). */
module Validation {
  import opened Common
  import opened Markets
  import opened Candles
  import Exchanges
  import Utilities

  datatype ValidationType = Auto | Manual

  function TypeAsStr(t: ValidationType): string {
    match t
    case Auto => "auto"
    case Manual => "manual"
  }

  /** `TryFrom<String> for ValidationType`. */
  function TypeTryFrom(s: string): (r: Result<ValidationType>)
    ensures r.Ok? ==> TypeAsStr(r.value) == ToLower(s)
    ensures r.Err? ==> forall t :: TypeAsStr(t) != ToLower(s)
    ensures r.Err? ==> r.error == ToLower(s) + " is not a supported validation type."
  {
    TypeParseLower(ToLower(s))
  }

  function TypeParseLower(lower: string): Result<ValidationType> {
    match lower
    case "auto" => Ok(Auto)
    case "manual" => Ok(Manual)
    case other => Err(other + " is not a supported validation type.")
  }

  /** Every validation type reads back as itself. */
  lemma TypeTryFromAsStr(t: ValidationType)
    ensures TypeTryFrom(TypeAsStr(t)) == Ok(t)
  {
    assert NoUpper(TypeAsStr(t));
    LowerOfLower(TypeAsStr(t));
  }

  /** Validation types parse regardless of letter case. */
  lemma TypeTryFromCaseInsensitive(s: string)
    ensures TypeTryFrom(ToUpper(s)) == TypeTryFrom(s)
    ensures TypeTryFrom(ToLower(s)) == TypeTryFrom(s)
  {
    LowerOfUpper(s);
    LowerIdempotent(s);
  }

  datatype ValidationStatus = New | Open | Done

  function StatusAsStr(s: ValidationStatus): string {
    match s
    case New => "new"
    case Open => "open"
    case Done => "done"
  }

  /** `TryFrom<String> for ValidationStatus`. */
  function StatusTryFrom(s: string): (r: Result<ValidationStatus>)
    ensures r.Ok? ==> StatusAsStr(r.value) == ToLower(s)
    ensures r.Err? ==> forall t :: StatusAsStr(t) != ToLower(s)
    ensures r.Err? ==> r.error == ToLower(s) + " is not a supported validation status."
  {
    StatusParseLower(ToLower(s))
  }

  function StatusParseLower(lower: string): Result<ValidationStatus> {
    match lower
    case "new" => Ok(New)
    case "open" => Ok(Open)
    case "done" => Ok(Done)
    case other => Err(other + " is not a supported validation status.")
  }

  /** Every validation status reads back as itself. */
  lemma StatusTryFromAsStr(s: ValidationStatus)
    ensures StatusTryFrom(StatusAsStr(s)) == Ok(s)
  {
    assert NoUpper(StatusAsStr(s));
    LowerOfLower(StatusAsStr(s));
  }

  /** Validation statuses parse regardless of letter case. */
  lemma StatusTryFromCaseInsensitive(s: string)
    ensures StatusTryFrom(ToUpper(s)) == StatusTryFrom(s)
    ensures StatusTryFrom(ToLower(s)) == StatusTryFrom(s)
  {
    LowerOfUpper(s);
    LowerIdempotent(s);
  }

  /** A row of `candle_validations`; `duration` is the candle length in seconds. */
  datatype CandleValidation = CandleValidation(
    exchangeName: Exchanges.ExchangeName,
    marketId: int,
    datetime: Instant,
    duration: int,
    validationType: ValidationType,
    createdTs: Instant,
    processedTs: Option<Instant>,
    validationStatus: ValidationStatus,
    notes: Option<string>)

  /** The candle a validation is about; the table holds one validation per key. */
  datatype ValidationKey = ValidationKey(exchangeName: Exchanges.ExchangeName, marketId: int, datetime: Instant)

  function KeyOf(v: CandleValidation): ValidationKey {
    ValidationKey(v.exchangeName, v.marketId, v.datetime)
  }

  // ---------------------------------------------------------------------------
  // Record updates
  // ---------------------------------------------------------------------------

  /** `update_candle_validation_status_processed`: close the validation at
      `now` with a message; only status, processing time and notes change. */
  function MarkProcessed(v: CandleValidation, message: string, now: Instant): (r: CandleValidation)
    ensures r.validationStatus == Done && r.processedTs == Some(now) && r.notes == Some(message)
    ensures r.(validationStatus := v.validationStatus, processedTs := v.processedTs, notes := v.notes) == v
  {
    v.(processedTs := Some(now), validationStatus := Done, notes := Some(message))
  }

  /** `update_candle_validations_type_status`: only type, status and notes change. */
  function SetTypeStatus(v: CandleValidation, t: ValidationType, s: ValidationStatus, message: string): (r: CandleValidation)
    ensures r.validationType == t && r.validationStatus == s && r.notes == Some(message)
    ensures r.(validationType := v.validationType, validationStatus := v.validationStatus, notes := v.notes) == v
  {
    v.(validationType := t, validationStatus := s, notes := Some(message))
  }

  /** Neither update moves a validation to another candle. */
  lemma UpdatesKeepKey(v: CandleValidation, message: string, now: Instant, t: ValidationType, s: ValidationStatus)
    ensures KeyOf(MarkProcessed(v, message, now)) == KeyOf(v)
    ensures KeyOf(SetTypeStatus(v, t, s, message)) == KeyOf(v)
    ensures MarkProcessed(v, message, now).duration == v.duration
    ensures SetTypeStatus(v, t, s, message).duration == v.duration
  {
  }

  const MSG_REVALIDATED: string := "Re-validation successful."
  const MSG_AUTO_FAILED: string := "Failed to auto-validate."
  const MSG_BASIC_QC: string := "Basic QC failed, re-download trades and re-validate."

  // ---------------------------------------------------------------------------
  // Dispatch
  // ---------------------------------------------------------------------------

  /** The four validators. */
  datatype Validator = AutoHeartbeat | AutoDaily | ManualHeartbeat | ManualDaily

  /** `process_candle_validations` for one record: look its market up (an
      unknown market panics on `unwrap`), branch on the validation type, then
      on the duration in `auto_process_candle_validation` or
      `manual_process_candle_validation` (any duration other than 900 or
      86400 panics). */
  function Dispatch(v: CandleValidation, markets: seq<MarketDetail>): (r: Outcome<Validator>)
    ensures r.Panics? <==> FindMarket(markets, v.marketId).None? || (v.duration != 900 && v.duration != 86400)
    ensures r.Returns? ==> (r.value == AutoHeartbeat || r.value == ManualHeartbeat <==> v.duration == 900)
    ensures r.Returns? ==> (r.value == AutoHeartbeat || r.value == AutoDaily <==> v.validationType == Auto)
  {
    if FindMarket(markets, v.marketId).None? then Panics
    else match v.validationType
      case Auto =>
        if v.duration == 900 then Returns(AutoHeartbeat)
        else if v.duration == 86400 then Returns(AutoDaily)
        else Panics
      case Manual =>
        if v.duration == 900 then Returns(ManualHeartbeat)
        else if v.duration == 86400 then Returns(ManualDaily)
        else Panics
  }

  /** Heartbeat and daily candles are exactly the two durations of the
      time frames T15 and D01. */
  lemma DispatchDurations(v: CandleValidation, markets: seq<MarketDetail>)
    requires FindMarket(markets, v.marketId).Some?
    ensures Dispatch(v, markets).Returns? <==>
      v.duration == Utilities.AsSecs(Utilities.T15) || v.duration == Utilities.AsSecs(Utilities.D01)
  {
  }

  // ---------------------------------------------------------------------------
  // Automatic validation
  // ---------------------------------------------------------------------------

  /** The outcome of an automatic pass over the candle recreated from
      re-downloaded trades: closed when it now matches the exchange, handed
      over for manual review otherwise. */
  function Settle(v: CandleValidation, isValid: bool, now: Instant): (r: CandleValidation)
    ensures isValid ==> r == MarkProcessed(v, MSG_REVALIDATED, now)
    ensures !isValid ==> r == SetTypeStatus(v, Manual, Open, MSG_AUTO_FAILED)
    ensures KeyOf(r) == KeyOf(v)
  {
    if isValid then MarkProcessed(v, MSG_REVALIDATED, now)
    else SetTypeStatus(v, Manual, Open, MSG_AUTO_FAILED)
  }

  /** `auto_validate_candle`: `candle` is the recreated heartbeat candle and
      `exchangeCandles` what the exchange reports for its period. */
  function AutoValidateCandle(v: CandleValidation, candle: Candle, exchangeCandles: seq<ExchangeCandle>, now: Instant): (r: Outcome<CandleValidation>)
    ensures r.Panics? <==> ValidateCandle(candle, exchangeCandles).Panics?
    ensures r.Returns? ==> (r.value.validationStatus == Done <==> ValidateCandle(candle, exchangeCandles) == Returns(true))
    ensures r.Returns? && r.value.validationStatus == Done ==> r.value.notes == Some(MSG_REVALIDATED) && r.value.processedTs == Some(now)
    ensures r.Returns? && r.value.validationStatus != Done ==>
      r.value.validationType == Manual && r.value.validationStatus == Open && r.value.notes == Some(MSG_AUTO_FAILED)
  {
    match ValidateCandle(candle, exchangeCandles)
    case Panics => Panics
    case Returns(ok) => Returns(Settle(v, ok, now))
  }

  predicate AllValidated(cs: seq<Candle>) {
    forall i :: 0 <= i < |cs| ==> cs[i].isValidated
  }

  /** `auto_validate_01d_candle`: `heartbeats` are the day's heartbeat
      candles. The record stays as it is until every one of them is
      validated; then the day is resampled from them and its last candle
      checked against the exchange. */
  function AutoValidate01d(v: CandleValidation, heartbeats: seq<Candle>, exchangeCandles: seq<ExchangeCandle>, now: Instant): (r: Outcome<CandleValidation>)
    ensures !AllValidated(heartbeats) ==> r == Returns(v)
    ensures |heartbeats| == 0 ==> r == Returns(v)
    ensures r.Returns? && r.value != v ==>
      || r.value == MarkProcessed(v, MSG_REVALIDATED, now)
      || r.value == SetTypeStatus(v, Manual, Open, MSG_AUTO_FAILED)
  {
    if !AllValidated(heartbeats) then Returns(v)
    else
      match Resample(heartbeats, Days(1))
      case Panics => Panics
      case Returns(days) =>
        if |days| == 0 then Returns(v)
        else
          match ValidateCandle(days[|days| - 1], exchangeCandles)
          case Panics => Panics
          case Returns(ok) => Returns(Settle(v, ok, now))
  }

  /** Once every heartbeat is validated and they all lie in one day, the day
      is settled by checking the single resampled candle. */
  lemma AutoValidate01dOfOneDay(v: CandleValidation, heartbeats: seq<Candle>, exchangeCandles: seq<ExchangeCandle>, now: Instant)
    requires |heartbeats| > 0 && AllValidated(heartbeats)
    requires Resample(heartbeats, Days(1)).Returns?
    requires Trunc(heartbeats[0].datetime, Days(1)) == Trunc(heartbeats[|heartbeats| - 1].datetime, Days(1))
    ensures |Resample(heartbeats, Days(1)).value| == 1
    ensures AutoValidate01d(v, heartbeats, exchangeCandles, now) ==
      match ValidateCandle(Resample(heartbeats, Days(1)).value[0], exchangeCandles)
      case Panics => Panics
      case Returns(ok) => Returns(Settle(v, ok, now))
  {
    ResampleShape(heartbeats, Days(1));
  }

  // ---------------------------------------------------------------------------
  // Manual validation
  // ---------------------------------------------------------------------------

  /** The y/yes check on the operator's answer. */
  predicate IsAccepted(response: string) {
    ToLower(response) == "y" || ToLower(response) == "yes"
  }

  /** Acceptance ignores letter case, and nothing but y and yes accepts. */
  lemma AcceptedAnswers(response: string)
    ensures IsAccepted("Y") && IsAccepted("YES") && IsAccepted("yEs")
    ensures !IsAccepted("n") && !IsAccepted("no") && !IsAccepted("") && !IsAccepted("ye")
    ensures IsAccepted(ToUpper(response)) == IsAccepted(response)
  {
    LowerOfUpper(response);
    assert ToLower("YES") == "yes";
    assert ToLower("yEs") == "yes";
    assert ToLower("Y") == "y";
  }

  /** `manual_validate_candle` (for the candle recreated from re-downloaded
      trades) and the end of `manual_validate_01_candle`: the last exchange candle is popped (none
      panics), the delta is reported as a percentage of its volume (a zero
      volume panics on the division) and the record is closed with that
      report iff the operator accepts. `message` is the formatted report. */
  function ManualSettle(v: CandleValidation, exchangeCandles: seq<ExchangeCandle>, response: string, message: string, now: Instant): (r: Outcome<CandleValidation>)
    ensures r.Panics? <==> |exchangeCandles| == 0 || exchangeCandles[|exchangeCandles| - 1].volume == 0.0
    ensures r.Returns? && IsAccepted(response) ==> r.value == MarkProcessed(v, message, now)
    ensures r.Returns? && !IsAccepted(response) ==> r.value == v
  {
    if |exchangeCandles| == 0 then Panics
    else if exchangeCandles[|exchangeCandles| - 1].volume == 0.0 then Panics
    else if IsAccepted(response) then Returns(MarkProcessed(v, message, now))
    else Returns(v)
  }

  /** `manual_validate_01_candle`: the day is resampled from `heartbeats` and
      its last candle popped (none panics) before the exchange candle is. */
  function ManualValidate01d(v: CandleValidation, heartbeats: seq<Candle>, exchangeCandles: seq<ExchangeCandle>, response: string, message: string, now: Instant): (r: Outcome<CandleValidation>)
    ensures |heartbeats| == 0 ==> r.Panics?
    ensures r.Returns? ==> r == ManualSettle(v, exchangeCandles, response, message, now)
  {
    match Resample(heartbeats, Days(1))
    case Panics => Panics
    case Returns(days) =>
      if |days| == 0 then Panics
      else ManualSettle(v, exchangeCandles, response, message, now)
  }

  /** A manual pass never changes the record's type, and it either closes it
      or leaves it untouched. */
  lemma ManualKeepsType(v: CandleValidation, exchangeCandles: seq<ExchangeCandle>, response: string, message: string, now: Instant)
    requires ManualSettle(v, exchangeCandles, response, message, now).Returns?
    ensures ManualSettle(v, exchangeCandles, response, message, now).value.validationType == v.validationType
    ensures ManualSettle(v, exchangeCandles, response, message, now).value.validationStatus in {v.validationStatus, Done}
  {
  }

  // ---------------------------------------------------------------------------
  // insert_candle_validation
  // ---------------------------------------------------------------------------

  /** `insert_candle_validation`: add a new automatic validation for the
      candle unless the table already has one for it (`ON CONFLICT DO NOTHING`). */
  function InsertCandleValidation(table: map<ValidationKey, CandleValidation>, exchange: Exchanges.ExchangeName,
                                  marketId: int, datetime: Instant, duration: int, now: Instant): (r: map<ValidationKey, CandleValidation>)
    ensures ValidationKey(exchange, marketId, datetime) in r
    ensures r.Keys == table.Keys + {ValidationKey(exchange, marketId, datetime)}
    ensures ValidationKey(exchange, marketId, datetime) in table ==> r == table
    ensures ValidationKey(exchange, marketId, datetime) !in table ==>
      var v := r[ValidationKey(exchange, marketId, datetime)];
      && v.validationType == Auto && v.validationStatus == New
      && v.processedTs.None? && v.notes == Some(MSG_BASIC_QC)
      && v.duration == duration && v.createdTs == now
      && KeyOf(v) == ValidationKey(exchange, marketId, datetime)
    ensures forall k :: k in table ==> r[k] == table[k]
  {
    var key := ValidationKey(exchange, marketId, datetime);
    if key in table then table
    else table[key := CandleValidation(exchange, marketId, datetime, duration, Auto, now, None, New, Some(MSG_BASIC_QC))]
  }

  /** Every stored validation sits under its own candle's key. */
  predicate WellKeyed(table: map<ValidationKey, CandleValidation>) {
    forall k :: k in table ==> KeyOf(table[k]) == k
  }

  /** Inserting keeps the table well keyed, and inserting twice is
      inserting once, whatever the second call's clock and duration. */
  lemma InsertCandleValidationIdempotent(table: map<ValidationKey, CandleValidation>, exchange: Exchanges.ExchangeName,
                                         marketId: int, datetime: Instant, duration: int, now: Instant, duration2: int, later: Instant)
    ensures WellKeyed(table) ==> WellKeyed(InsertCandleValidation(table, exchange, marketId, datetime, duration, now))
    ensures var once := InsertCandleValidation(table, exchange, marketId, datetime, duration, now);
      InsertCandleValidation(once, exchange, marketId, datetime, duration2, later) == once
  {
  }
}
