/** Events: the work items droplets hand each other (src/events.rs). */
module Events {
  import opened Common
  import opened Markets
  import Exchanges

  datatype EventType =
    | ProcessTrades
    | ValidateCandle
    | CreateDailyCandles
    | ValidateDailyCandles
    | ArchiveDailyCandles
    | BackfillTrades

  function TypeAsStr(t: EventType): string {
    match t
    case ProcessTrades => "processtrades"
    case ValidateCandle => "validatecandle"
    case CreateDailyCandles => "createdailycandles"
    case ValidateDailyCandles => "validatedailycandles"
    case ArchiveDailyCandles => "archivedailycandles"
    case BackfillTrades => "backfilltrades"
  }

  /** `TryFrom<String> for EventType`; its error text speaks of a "validation type". */
  function TypeTryFrom(s: string): (r: Result<EventType>)
    ensures r.Ok? ==> TypeAsStr(r.value) == ToLower(s)
    ensures r.Err? ==> forall t :: TypeAsStr(t) != ToLower(s)
    ensures r.Err? ==> r.error == ToLower(s) + " is not a supported validation type."
  {
    TypeParseLowerSpec(ToLower(s));
    TypeParseLower(ToLower(s))
  }

  /** The parser accepts exactly the names of the event types. */
  lemma TypeParseLowerSpec(lower: string)
    ensures TypeParseLower(lower).Ok? ==> TypeAsStr(TypeParseLower(lower).value) == lower
    ensures TypeParseLower(lower).Err? ==> forall t :: TypeAsStr(t) != lower
    ensures TypeParseLower(lower).Err? ==> TypeParseLower(lower).error == lower + " is not a supported validation type."
  {
    if TypeParseLower(lower).Err? {
      forall t
        ensures TypeAsStr(t) != lower
      {
        TypeParseLowerAsStr(t);
      }
    }
  }

  function TypeParseLower(lower: string): Result<EventType> {
    match lower
    case "processtrades" => Ok(ProcessTrades)
    case "validatecandle" => Ok(ValidateCandle)
    case "createdailycandles" => Ok(CreateDailyCandles)
    case "validatedailycandles" => Ok(ValidateDailyCandles)
    case "archivedailycandles" => Ok(ArchiveDailyCandles)
    case "backfilltrades" => Ok(BackfillTrades)
    case other => Err(other + " is not a supported validation type.")
  }

  lemma TypeAsStrIsLower(t: EventType)
    ensures ToLower(TypeAsStr(t)) == TypeAsStr(t)
  {
    match t
    case ProcessTrades => ProcessTradesNameIsLower();
    case ValidateCandle => ValidateCandleNameIsLower();
    case CreateDailyCandles => CreateDailyCandlesNameIsLower();
    case ValidateDailyCandles => ValidateDailyCandlesNameIsLower();
    case ArchiveDailyCandles => ArchiveDailyCandlesNameIsLower();
    case BackfillTrades => BackfillTradesNameIsLower();
  }

  // One lemma per name: each literal is checked on its own.
  lemma ProcessTradesNameIsLower()
    ensures ToLower("processtrades") == "processtrades"
  {
    LowerOfLower("processtrades");
  }

  lemma ValidateCandleNameIsLower()
    ensures ToLower("validatecandle") == "validatecandle"
  {
    LowerOfLower("validatecandle");
  }

  lemma CreateDailyCandlesNameIsLower()
    ensures ToLower("createdailycandles") == "createdailycandles"
  {
    LowerOfLower("createdailycandles");
  }

  lemma ValidateDailyCandlesNameIsLower()
    ensures ToLower("validatedailycandles") == "validatedailycandles"
  {
    LowerOfLower("validatedailycandles");
  }

  lemma ArchiveDailyCandlesNameIsLower()
    ensures ToLower("archivedailycandles") == "archivedailycandles"
  {
    LowerOfLower("archivedailycandles");
  }

  lemma BackfillTradesNameIsLower()
    ensures ToLower("backfilltrades") == "backfilltrades"
  {
    LowerOfLower("backfilltrades");
  }

  /** Every event type reads back as itself. */
  lemma TypeTryFromAsStr(t: EventType)
    ensures TypeTryFrom(TypeAsStr(t)) == Ok(t)
  {
    TypeAsStrIsLower(t);
    TypeParseLowerAsStr(t);
  }

  lemma TypeParseLowerAsStr(t: EventType)
    ensures TypeParseLower(TypeAsStr(t)) == Ok(t)
  {
  }

  /** Event types parse regardless of letter case. */
  lemma TypeTryFromCaseInsensitive(s: string)
    ensures TypeTryFrom(ToUpper(s)) == TypeTryFrom(s)
    ensures TypeTryFrom(ToLower(s)) == TypeTryFrom(s)
  {
    LowerOfUpper(s);
    LowerIdempotent(s);
  }

  datatype EventStatus = New | Open | Done

  function StatusAsStr(s: EventStatus): string {
    match s
    case New => "new"
    case Open => "open"
    case Done => "done"
  }

  /** `TryFrom<String> for EventStatus`; its error text speaks of a "validation status". */
  function StatusTryFrom(s: string): (r: Result<EventStatus>)
    ensures r.Ok? ==> StatusAsStr(r.value) == ToLower(s)
    ensures r.Err? ==> forall t :: StatusAsStr(t) != ToLower(s)
    ensures r.Err? ==> r.error == ToLower(s) + " is not a supported validation status."
  {
    StatusParseLower(ToLower(s))
  }

  function StatusParseLower(lower: string): Result<EventStatus> {
    match lower
    case "new" => Ok(New)
    case "open" => Ok(Open)
    case "done" => Ok(Done)
    case other => Err(other + " is not a supported validation status.")
  }

  lemma StatusAsStrIsLower(s: EventStatus)
    ensures ToLower(StatusAsStr(s)) == StatusAsStr(s)
  {
    assert NoUpper(StatusAsStr(s));
    LowerOfLower(StatusAsStr(s));
  }

  /** Every event status reads back as itself. */
  lemma StatusTryFromAsStr(s: EventStatus)
    ensures StatusTryFrom(StatusAsStr(s)) == Ok(s)
  {
    StatusAsStrIsLower(s);
    StatusParseLowerAsStr(s);
  }

  lemma StatusParseLowerAsStr(s: EventStatus)
    ensures StatusParseLower(StatusAsStr(s)) == Ok(s)
  {
  }

  /** Event statuses parse regardless of letter case. */
  lemma StatusTryFromCaseInsensitive(s: string)
    ensures StatusTryFrom(ToUpper(s)) == StatusTryFrom(s)
    ensures StatusTryFrom(ToLower(s)) == StatusTryFrom(s)
  {
    LowerOfUpper(s);
    LowerIdempotent(s);
  }

  /** A row of `events`; uuids are modelled as integers. */
  datatype Event = Event(
    eventId: int,
    droplet: string,
    eventType: EventType,
    exchangeName: Exchanges.ExchangeName,
    marketId: int,
    startTs: Option<Instant>,
    endTs: Option<Instant>,
    eventTs: Instant,
    createdTs: Instant,
    processedTs: Option<Instant>,
    eventStatus: EventStatus,
    notes: Option<string>)

  /** `Event::new_backfill_trades`: no event once the market's history is
      complete, otherwise a new backfill event for the ingest droplet that
      starts at the earliest day already held. `eventId` is the fresh uuid
      and `now` the clock reading. */
  function NewBackfillTrades(mtd: MarketTradeDetail, exchange: Exchanges.ExchangeName, eventId: int, now: Instant): (r: Option<Event>)
    ensures r.None? <==> mtd.previousStatus == Completed
    ensures r.Some? ==>
      && r.value.eventType == BackfillTrades
      && r.value.eventStatus == New
      && r.value.droplet == "ig"
      && r.value.exchangeName == exchange
      && r.value.marketId == mtd.marketId
      && r.value.startTs == Some(mtd.previousTradeDay)
      && r.value.endTs.None?
      && r.value.processedTs.None?
      && r.value.notes == Some(MarketDataStatusAsStr(mtd.previousStatus))
  {
    match mtd.previousStatus
    case Completed => None
    case _ =>
      Some(Event(eventId, "ig", BackfillTrades, exchange, mtd.marketId, Some(mtd.previousTradeDay), None,
                 now, now, None, New, Some(MarketDataStatusAsStr(mtd.previousStatus))))
  }

  /** `Event::update_status`: the row with its status changed; closing it
      also stamps the processing time. */
  function UpdateStatus(e: Event, status: EventStatus, now: Instant): (r: Event)
    ensures r.eventStatus == status
    ensures status == Done ==> r.processedTs == Some(now)
    ensures status != Done ==> r.processedTs == e.processedTs
    ensures r.(eventStatus := e.eventStatus, processedTs := e.processedTs) == e
  {
    match status
    case New => e.(eventStatus := status)
    case Open => e.(eventStatus := status)
    case Done => e.(eventStatus := status, processedTs := Some(now))
  }

  /** `update_event_status_processed`: close an event at `now`. */
  function UpdateEventStatusProcessed(e: Event, now: Instant): (r: Event)
    ensures r.eventStatus == Done && r.processedTs == Some(now)
  {
    e.(processedTs := Some(now), eventStatus := Done)
  }

  /** Closing an event directly and through `update_status` agree, and
      closing is idempotent up to the timestamp. */
  lemma ProcessedIsUpdateDone(e: Event, now: Instant, later: Instant)
    ensures UpdateEventStatusProcessed(e, now) == UpdateStatus(e, Done, now)
    ensures UpdateEventStatusProcessed(UpdateEventStatusProcessed(e, now), later) == UpdateEventStatusProcessed(e, later)
  {
  }

  /** Re-opening a closed event leaves its processing time in place. */
  lemma ReopenKeepsProcessedTs(e: Event, now: Instant, later: Instant)
    ensures UpdateStatus(UpdateStatus(e, Done, now), Open, later).processedTs == Some(now)
    ensures UpdateStatus(UpdateStatus(e, Done, now), Open, later).eventStatus == Open
  {
  }

  // ---------------------------------------------------------------------------
  // Event dispatch
  // ---------------------------------------------------------------------------

  /** What `Inquisidor::process_events` does with one open event. */
  datatype IngestAction =
    | Skip
    | ValidateHeartbeats(market: MarketDetail)
    | CreateDaily
    | ValidateDaily
    | ArchiveDaily
    | Backfill

  /** The ingest droplet leaves trade processing to the sync droplet; a
      candle validation for an unknown market panics on its `unwrap`. */
  function IngestDispatch(e: Event, markets: seq<MarketDetail>): (r: Outcome<IngestAction>)
    ensures r.Panics? <==> e.eventType == ValidateCandle && FindMarket(markets, e.marketId).None?
    ensures r == Returns(Skip) <==> e.eventType == ProcessTrades
    ensures r.Returns? && r.value.ValidateHeartbeats? ==> r.value.market.marketId == e.marketId
  {
    var market := FindMarket(markets, e.marketId);
    match e.eventType
    case ProcessTrades => Returns(Skip)
    case ValidateCandle => if market.None? then Panics else Returns(ValidateHeartbeats(market.value))
    case CreateDailyCandles => Returns(CreateDaily)
    case ValidateDailyCandles => Returns(ValidateDaily)
    case ArchiveDailyCandles => Returns(ArchiveDaily)
    case BackfillTrades => Returns(Backfill)
  }

  /** What one trade-processing event leaves behind: the event closed at
      `now` and a heartbeat validation event raised for its market, whose
      end is the processed event's start. */
  datatype Processed = Processed(closed: Event, market: MarketDetail, validateUntil: Instant)

  /** How `Mita::process_events` ends: too soon after the last pass, or the
      trade-processing events it handled, in order. */
  datatype SyncPass = TooSoon | Ran(processed: seq<Processed>)

  /** An event panics the sync pass when its market is unknown (that
      `unwrap` comes before the type is looked at) or when it is a
      trade-processing event without both ends of its window. */
  predicate SyncPanics(e: Event, markets: seq<MarketDetail>) {
    FindMarket(markets, e.marketId).None?
    || (e.eventType == ProcessTrades && (e.startTs.None? || e.endTs.None?))
  }

  function CountProcessTrades(es: seq<Event>): nat {
    if |es| == 0 then 0
    else CountProcessTrades(es[..|es| - 1]) + (if es[|es| - 1].eventType == ProcessTrades then 1 else 0)
  }

  /** The loop of `Mita::process_events` over the open events. */
  function SyncEvents(es: seq<Event>, markets: seq<MarketDetail>, now: Instant): Outcome<seq<Processed>>
    decreases |es|
  {
    if |es| == 0 then Returns([])
    else
      var front := SyncEvents(es[..|es| - 1], markets, now);
      var e := es[|es| - 1];
      var market := FindMarket(markets, e.marketId);
      if front.Panics? || market.None? then Panics
      else if e.eventType != ProcessTrades then front
      else if e.startTs.None? || e.endTs.None? then Panics
      else Returns(front.value + [Processed(UpdateEventStatusProcessed(e, now), market.value, e.startTs.value)])
  }

  /** A pass that completes handles every trade-processing event, closing it
      at `now`, with its market and its window's start. */
  lemma {:induction false} SyncEventsShape(es: seq<Event>, markets: seq<MarketDetail>, now: Instant)
    ensures var r := SyncEvents(es, markets, now);
      r.Returns? ==> |r.value| == CountProcessTrades(es)
    ensures var r := SyncEvents(es, markets, now);
      r.Returns? ==> forall i :: 0 <= i < |r.value| ==>
        && r.value[i].closed.eventType == ProcessTrades
        && r.value[i].closed.eventStatus == Done
        && r.value[i].closed.processedTs == Some(now)
        && Some(r.value[i].validateUntil) == r.value[i].closed.startTs
        && r.value[i].market.marketId == r.value[i].closed.marketId
    decreases |es|
  {
    if |es| > 0 {
      SyncEventsShape(es[..|es| - 1], markets, now);
    }
  }

  /** `Mita::process_events`: nothing happens within a minute of the last pass. */
  function MitaProcessEvents(now: Instant, eventsTs: Instant, open: seq<Event>, markets: seq<MarketDetail>): (r: Outcome<SyncPass>)
    ensures now - eventsTs < Minutes(1) ==> r == Returns(TooSoon)
    ensures now - eventsTs >= Minutes(1) && r.Returns? ==> r.value.Ran? && |r.value.processed| == CountProcessTrades(open)
  {
    if now - eventsTs < Minutes(1) then Returns(TooSoon)
    else
      SyncEventsShape(open, markets, now);
      match SyncEvents(open, markets, now)
      case Panics => Panics
      case Returns(ps) => Returns(Ran(ps))
  }

  /** The sync pass panics exactly when one of the open events does. */
  lemma {:induction false} SyncEventsPanics(es: seq<Event>, markets: seq<MarketDetail>, now: Instant)
    ensures SyncEvents(es, markets, now).Panics? <==> exists i :: 0 <= i < |es| && SyncPanics(es[i], markets)
    decreases |es|
  {
    if |es| > 0 {
      var front := es[..|es| - 1];
      SyncEventsPanics(front, markets, now);
      assert forall i :: 0 <= i < |front| ==> front[i] == es[i];
      if SyncEvents(es, markets, now).Panics? {
        if !SyncEvents(front, markets, now).Panics? {
          assert SyncPanics(es[|es| - 1], markets);
        }
      } else {
        assert !SyncPanics(es[|es| - 1], markets);
      }
    }
  }

  /** Events of other types leave the sync pass as it was. */
  lemma SyncIgnoresOtherTypes(es: seq<Event>, e: Event, markets: seq<MarketDetail>, now: Instant)
    requires e.eventType != ProcessTrades
    requires FindMarket(markets, e.marketId).Some?
    ensures SyncEvents(es + [e], markets, now) == SyncEvents(es, markets, now)
  {
    assert (es + [e])[..|es + [e]| - 1] == es;
  }

  /** The two droplets split the work: the sync droplet handles exactly the
      event type the ingest droplet skips. */
  lemma DropletsSplitWork(e: Event, markets: seq<MarketDetail>, now: Instant)
    requires FindMarket(markets, e.marketId).Some?
    requires e.startTs.Some? && e.endTs.Some?
    ensures SyncEvents([e], markets, now).Returns?
    ensures IngestDispatch(e, markets) == Returns(Skip) <==> |SyncEvents([e], markets, now).value| == 1
  {
    assert [e][..0] == [];
  }
}
