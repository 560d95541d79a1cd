/** Market records and the name and listing filters of src/markets.rs. */
module Markets {
  import opened Common

  /** A row of `markets` as `fetch_markets` returns it. */
  datatype MarketId = MarketId(marketId: int, marketName: string)

  /** The fields of a market detail the core reads. */
  datatype MarketDetail = MarketDetail(
    marketId: int,
    exchangeName: string,
    marketName: string,
    marketType: string,
    quoteCurrency: Option<string>,
    marketStatus: string)

  /** A market as the FTX REST API lists it (its floating-point fields are not modelled). */
  datatype FtxMarket = FtxMarket(name: string, marketType: string, quoteCurrency: Option<string>)

  /** The backfill state of a market's trade history. */
  datatype MarketDataStatus = Completed | Get | Archive | Validate

  function MarketDataStatusAsStr(s: MarketDataStatus): string {
    match s
    case Completed => "completed"
    case Get => "get"
    case Archive => "archive"
    case Validate => "validate"
  }

  /** The part of a market trade detail that backfill decisions read. */
  datatype MarketTradeDetail = MarketTradeDetail(marketId: int, previousStatus: MarketDataStatus, previousTradeDay: Instant)

  // ---------------------------------------------------------------------------
  // strip_name
  // ---------------------------------------------------------------------------

  predicate IsSeparator(c: char) {
    c == '/' || c == '-'
  }

  /** `market_name.replace(&['/', '-'][..], "")`. */
  function StripName(name: string): (r: string)
    ensures forall i :: 0 <= i < |r| ==> !IsSeparator(r[i])
    ensures |r| == |name| - Separators(name)
    decreases |name|
  {
    if |name| == 0 then ""
    else StripName(name[..|name| - 1]) + (if IsSeparator(name[|name| - 1]) then "" else [name[|name| - 1]])
  }

  /** The number of '/' and '-' characters. */
  function Separators(s: string): nat
    decreases |s|
  {
    if |s| == 0 then 0 else Separators(s[..|s| - 1]) + (if IsSeparator(s[|s| - 1]) then 1 else 0)
  }

  /** Stripping works character by character: it distributes over
      concatenation, drops a separator and keeps any other character. */
  lemma {:induction false} StripNameAppend(a: string, b: string)
    ensures StripName(a + b) == StripName(a) + StripName(b)
    decreases |b|
  {
    if |b| == 0 {
      assert a + b == a;
    } else {
      var b' := b[..|b| - 1];
      assert (a + b)[..|a + b| - 1] == a + b';
      StripNameAppend(a, b');
    }
  }

  lemma StripNameChar(c: char)
    ensures StripName([c]) == if IsSeparator(c) then "" else [c]
  {
    assert [c][..0] == "";
  }

  /** Every character other than a separator survives, as often as it occurred. */
  lemma {:induction false} StripNameKeepsOthers(name: string)
    ensures forall c :: !IsSeparator(c) ==> multiset(StripName(name))[c] == multiset(name)[c]
    ensures forall c :: IsSeparator(c) ==> multiset(StripName(name))[c] == 0
    decreases |name|
  {
    if |name| > 0 {
      var front := name[..|name| - 1];
      var last := name[|name| - 1];
      StripNameKeepsOthers(front);
      assert name == front + [last];
      assert multiset(name) == multiset(front) + multiset{last};
      var tail := if IsSeparator(last) then "" else [last];
      assert StripName(name) == StripName(front) + tail;
      assert multiset(StripName(name)) == multiset(StripName(front)) + multiset(tail);
    }
  }

  lemma {:induction false} StripNameOfClean(s: string)
    requires forall i :: 0 <= i < |s| ==> !IsSeparator(s[i])
    ensures StripName(s) == s
    decreases |s|
  {
    if |s| > 0 {
      StripNameOfClean(s[..|s| - 1]);
    }
  }

  /** Stripping twice is stripping once. */
  lemma StripNameIdempotent(name: string)
    ensures StripName(StripName(name)) == StripName(name)
  {
    StripNameOfClean(StripName(name));
  }

  lemma StripBeforeSeparator(base: string, sep: char)
    requires IsSeparator(sep)
    requires forall i :: 0 <= i < |base| ==> !IsSeparator(base[i])
    ensures StripName(base + [sep]) == base
  {
    StripNameAppend(base, [sep]);
    StripNameChar(sep);
    StripNameOfClean(base);
    assert base + "" == base;
  }

  /** Stripping a name built from a clean base, one separator and a clean quote. */
  lemma StripAroundSeparator(base: string, sep: char, quote: string)
    requires IsSeparator(sep)
    requires forall i :: 0 <= i < |base| ==> !IsSeparator(base[i])
    requires forall i :: 0 <= i < |quote| ==> !IsSeparator(quote[i])
    ensures StripName(base + [sep] + quote) == base + quote
  {
    StripBeforeSeparator(base, sep);
    StripNameAppend(base + [sep], quote);
    StripNameOfClean(quote);
  }

  lemma StripNameSpotExample()
    ensures StripName("BTC/USD") == "BTCUSD"
  {
    var name := "BTC" + ['/'] + "USD";
    assert |name| == 7;
    assert forall i :: 0 <= i < 7 ==> name[i] == "BTC/USD"[i];
    assert name == "BTC/USD";
    assert forall i :: 0 <= i < 6 ==> ("BTC" + "USD")[i] == "BTCUSD"[i];
    assert "BTC" + "USD" == "BTCUSD";
    StripAroundSeparator("BTC", '/', "USD");
  }

  lemma StripNamePerpExample()
    ensures StripName("BTC-PERP") == "BTCPERP"
  {
    var name := "BTC" + ['-'] + "PERP";
    assert |name| == 8;
    assert forall i :: 0 <= i < 8 ==> name[i] == "BTC-PERP"[i];
    assert name == "BTC-PERP";
    assert forall i :: 0 <= i < 7 ==> ("BTC" + "PERP")[i] == "BTCPERP"[i];
    assert "BTC" + "PERP" == "BTCPERP";
    StripAroundSeparator("BTC", '-', "PERP");
  }

  /** `MarketId::strip_name`. */
  function MarketIdStripName(m: MarketId): (r: string)
    ensures forall i :: 0 <= i < |r| ==> !IsSeparator(r[i])
  {
    StripName(m.marketName)
  }

  /** `MarketDetail::strip_name`. */
  function MarketDetailStripName(m: MarketDetail): (r: string)
    ensures forall i :: 0 <= i < |r| ==> !IsSeparator(r[i])
  {
    StripName(m.marketName)
  }

  /** Both record kinds strip a name the same way. */
  lemma StripNamesAgree(a: MarketId, b: MarketDetail)
    requires a.marketName == b.marketName
    ensures MarketIdStripName(a) == MarketDetailStripName(b)
  {
  }

  /** The first market detail with the event's market id (`iter().find`), as the event and validation loops look it up. */
  function FindMarket(markets: seq<MarketDetail>, marketId: int): (r: Option<MarketDetail>)
    ensures r.None? <==> forall i :: 0 <= i < |markets| ==> markets[i].marketId != marketId
    ensures r.Some? ==> r.value in markets && r.value.marketId == marketId
    ensures r.Some? ==> exists i ::
              && 0 <= i < |markets|
              && markets[i] == r.value
              && forall j :: 0 <= j < i ==> markets[j].marketId != marketId
  {
    if |markets| == 0 then None
    else if markets[0].marketId == marketId then Some(markets[0])
    else
      var r := FindMarket(markets[1..], marketId);
      assert forall i :: 1 <= i < |markets| ==> markets[i] == markets[1..][i - 1];
      if r.Some? then
        var i :| 0 <= i < |markets[1..]| && markets[1..][i] == r.value
          && forall j :: 0 <= j < i ==> markets[1..][j].marketId != marketId;
        assert markets[i + 1] == r.value;
        r
      else r
  }

  // ---------------------------------------------------------------------------
  // pull_usd_markets_from_ftx
  // ---------------------------------------------------------------------------

  /** The retain predicate: USD-quoted markets and all futures. */
  predicate IsUsdOrFuture(m: FtxMarket) {
    m.quoteCurrency == Some("USD") || m.marketType == "future"
  }

  /** `markets.retain(...)`: the markets kept, in their original order. */
  function RetainUsd(ms: seq<FtxMarket>): (r: seq<FtxMarket>)
    ensures |r| <= |ms|
    ensures forall i :: 0 <= i < |r| ==> IsUsdOrFuture(r[i]) && r[i] in ms
    ensures forall i :: 0 <= i < |ms| && IsUsdOrFuture(ms[i]) ==> ms[i] in r
    decreases |ms|
  {
    if |ms| == 0 then []
    else
      var front := RetainUsd(ms[..|ms| - 1]);
      assert forall i :: 0 <= i < |ms| - 1 ==> ms[i] == ms[..|ms| - 1][i];
      front + (if IsUsdOrFuture(ms[|ms| - 1]) then [ms[|ms| - 1]] else [])
  }

  /** Retaining distributes over concatenation, so the relative order of kept markets is unchanged. */
  lemma {:induction false} RetainUsdAppend(a: seq<FtxMarket>, b: seq<FtxMarket>)
    ensures RetainUsd(a + b) == RetainUsd(a) + RetainUsd(b)
    decreases |b|
  {
    if |b| == 0 {
      assert a + b == a;
    } else {
      var b' := b[..|b| - 1];
      assert (a + b)[..|a + b| - 1] == a + b';
      RetainUsdAppend(a, b');
    }
  }

  /** `pull_usd_markets_from_ftx`: pick the client by exchange name (any other
      name panics), list its markets and keep the USD ones and the futures.
      `listing` is what the REST call returned. */
  function PullUsdMarketsFromFtx(exchange: string, listing: Result<seq<FtxMarket>>): (r: Outcome<Result<seq<FtxMarket>>>)
    ensures r.Panics? <==> exchange != "ftx" && exchange != "ftxus"
    ensures r.Returns? && listing.Ok? ==> r.value == Ok(RetainUsd(listing.value))
    ensures r.Returns? && listing.Err? ==> r.value == listing
  {
    if exchange != "ftxus" && exchange != "ftx" then Panics
    else match listing
      case Ok(ms) => Returns(Ok(RetainUsd(ms)))
      case Err(e) => Returns(Err(e))
  }
}
