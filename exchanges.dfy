/** Exchange names and the `add` command of src/exchanges.rs. */
module Exchanges {
  import opened Common
  import opened Markets

  datatype ExchangeName = Ftx | FtxUs

  function AsStr(e: ExchangeName): string {
    match e
    case Ftx => "ftx"
    case FtxUs => "ftxus"
  }

  /** `TryFrom<String> for ExchangeName`. */
  function TryFrom(s: string): (r: Result<ExchangeName>)
    ensures r.Ok? ==> AsStr(r.value) == ToLower(s)
    ensures r.Err? ==> forall e :: AsStr(e) != ToLower(s)
    ensures r.Err? ==> r.error == ToLower(s) + " is not a supported exchange."
  {
    ParseLower(ToLower(s))
  }

  function ParseLower(lower: string): Result<ExchangeName> {
    match lower
    case "ftx" => Ok(Ftx)
    case "ftxus" => Ok(FtxUs)
    case other => Err(other + " is not a supported exchange.")
  }

  lemma AsStrIsLower(e: ExchangeName)
    ensures ToLower(AsStr(e)) == AsStr(e)
  {
    assert NoUpper(AsStr(e));
    LowerOfLower(AsStr(e));
  }

  /** Every name reads back as itself. */
  lemma TryFromAsStr(e: ExchangeName)
    ensures TryFrom(AsStr(e)) == Ok(e)
  {
    AsStrIsLower(e);
  }

  /** Parsing ignores letter case. */
  lemma TryFromCaseInsensitive(s: string)
    ensures TryFrom(ToUpper(s)) == TryFrom(s)
    ensures TryFrom(ToLower(s)) == TryFrom(s)
  {
    LowerOfUpper(s);
    LowerIdempotent(s);
  }

  /** A row of `exchanges`. */
  datatype Exchange = Exchange(id: int, name: ExchangeName)

  /** A row of `markets`: which exchange lists it under which name. */
  datatype MarketRow = MarketRow(exchangeName: ExchangeName, marketName: string)

  /** The names of `add`'s hard-coded supported list. */
  const SUPPORTED_EXCHANGES: seq<string> := ["ftx", "ftxus"]

  /** The supported list names every exchange there is, so `add` never
      rejects a parsed exchange as unsupported. */
  lemma EveryExchangeSupported(e: ExchangeName)
    ensures AsStr(e) in SUPPORTED_EXCHANGES
  {
  }

  predicate HasExchange(es: seq<Exchange>, name: ExchangeName) {
    exists i :: 0 <= i < |es| && es[i].name == name
  }

  predicate UniqueExchangeNames(es: seq<Exchange>) {
    forall i, j :: 0 <= i < j < |es| ==> es[i].name != es[j].name
  }

  /** The names of the markets already stored for an exchange. */
  function MarketNamesOf(ms: seq<MarketRow>, e: ExchangeName): (r: seq<string>)
    ensures forall n :: n in r <==> exists i :: 0 <= i < |ms| && ms[i] == MarketRow(e, n)
    decreases |ms|
  {
    if |ms| == 0 then []
    else
      var front := ms[..|ms| - 1];
      var r := MarketNamesOf(front, e) + (if ms[|ms| - 1].exchangeName == e then [ms[|ms| - 1].marketName] else []);
      assert forall i :: 0 <= i < |front| ==> front[i] == ms[i];
      r
  }

  /** The rows the market loop of `add` inserts: each fetched market whose
      name is not among the names stored before the loop. */
  function NewMarkets(e: ExchangeName, stored: seq<string>, fetched: seq<FtxMarket>): (r: seq<MarketRow>)
    ensures |r| <= |fetched|
    ensures forall i :: 0 <= i < |r| ==> r[i].exchangeName == e && r[i].marketName !in stored
    ensures forall i :: 0 <= i < |fetched| && fetched[i].name !in stored ==> MarketRow(e, fetched[i].name) in r
    decreases |fetched|
  {
    if |fetched| == 0 then []
    else
      var front := fetched[..|fetched| - 1];
      var m := fetched[|fetched| - 1];
      assert forall i :: 0 <= i < |front| ==> front[i] == fetched[i];
      NewMarkets(e, stored, front) + (if m.name in stored then [] else [MarketRow(e, m.name)])
  }

  lemma {:induction false} NewMarketsNames(e: ExchangeName, stored: seq<string>, fetched: seq<FtxMarket>)
    ensures forall i :: 0 <= i < |NewMarkets(e, stored, fetched)| ==>
      exists j :: 0 <= j < |fetched| && NewMarkets(e, stored, fetched)[i].marketName == fetched[j].name
    decreases |fetched|
  {
    if |fetched| > 0 {
      var front := fetched[..|fetched| - 1];
      var r0 := NewMarkets(e, stored, front);
      var r := NewMarkets(e, stored, fetched);
      NewMarketsNames(e, stored, front);
      assert forall j :: 0 <= j < |front| ==> front[j] == fetched[j];
      forall i | 0 <= i < |r|
        ensures exists j :: 0 <= j < |fetched| && r[i].marketName == fetched[j].name
      {
        if i < |r0| {
          assert r[i] == r0[i];
          var j :| 0 <= j < |front| && r0[i].marketName == front[j].name;
          assert fetched[j] == front[j];
        } else {
          assert r[i].marketName == fetched[|fetched| - 1].name;
        }
      }
    } else {
      assert NewMarkets(e, stored, fetched) == [];
    }
  }

  lemma {:induction false} NewMarketsIndices(e: ExchangeName, stored: seq<string>, fetched: seq<FtxMarket>, i: nat, k: nat)
    requires i < k < |NewMarkets(e, stored, fetched)|
    ensures exists a, b ::
              && 0 <= a < b < |fetched|
              && NewMarkets(e, stored, fetched)[i].marketName == fetched[a].name
              && NewMarkets(e, stored, fetched)[k].marketName == fetched[b].name
    decreases |fetched|
  {
    var front := fetched[..|fetched| - 1];
    var r0 := NewMarkets(e, stored, front);
    assert forall j :: 0 <= j < |front| ==> front[j] == fetched[j];
    var r := NewMarkets(e, stored, fetched);
    if k < |r0| {
      NewMarketsIndices(e, stored, front, i, k);
      var a, b :| 0 <= a < b < |front| && r0[i].marketName == front[a].name && r0[k].marketName == front[b].name;
      assert r[i] == r0[i] && r[k] == r0[k];
      assert fetched[a] == front[a] && fetched[b] == front[b];
    } else {
      NewMarketsNames(e, stored, front);
      var a :| 0 <= a < |front| && r0[i].marketName == front[a].name;
      assert r[i] == r0[i] && fetched[a] == front[a];
      assert r[k].marketName == fetched[|fetched| - 1].name;
    }
  }

  /** With a listing that names each market once, the loop inserts no market
      twice and none that was already stored, so an exchange's market names
      stay unique. */
  lemma NewMarketsUnique(e: ExchangeName, stored: seq<string>, fetched: seq<FtxMarket>)
    requires forall a, b :: 0 <= a < b < |fetched| ==> fetched[a].name != fetched[b].name
    ensures var r := NewMarkets(e, stored, fetched);
      forall i, k :: 0 <= i < k < |r| ==> r[i].marketName != r[k].marketName
  {
    var r := NewMarkets(e, stored, fetched);
    forall i, k | 0 <= i < k < |r|
      ensures r[i].marketName != r[k].marketName
    {
      NewMarketsIndices(e, stored, fetched, i, k);
    }
  }

  /** Inserting an exchange that is not there keeps the names unique. */
  lemma UniqueAfterInsert(es: seq<Exchange>, x: Exchange)
    requires !HasExchange(es, x.name)
    ensures UniqueExchangeNames(es) ==> UniqueExchangeNames(es + [x])
  {
    if UniqueExchangeNames(es) {
      var r := es + [x];
      forall i, j | 0 <= i < j < |r|
        ensures r[i].name != r[j].name
      {
        assert r[i] == es[i];
        if j < |es| {
          assert r[j] == es[j];
        }
      }
    }
  }

  /** How `add` ends. */
  datatype AddOutcome = AlreadyAdded | Unsupported | FetchFailed | Added

  /** The `exchanges` and `markets` tables. */
  class Registry {
    var exchanges: seq<Exchange>
    var markets: seq<MarketRow>

    constructor(exchanges: seq<Exchange>, markets: seq<MarketRow>)
      ensures this.exchanges == exchanges && this.markets == markets
    {
      this.exchanges := exchanges;
      this.markets := markets;
    }

    /** The market loop of `add`: insert each fetched market of exchange `e`
        whose name was not stored for it before the loop. */
    method InsertNewMarkets(e: ExchangeName, fetched: seq<FtxMarket>)
      modifies this
      ensures exchanges == old(exchanges)
      ensures markets == old(markets) + NewMarkets(e, MarketNamesOf(old(markets), e), fetched)
    {
      var stored := MarketNamesOf(markets, e);
      ghost var before := markets;
      for i := 0 to |fetched|
        invariant exchanges == old(exchanges)
        invariant markets == before + NewMarkets(e, stored, fetched[..i])
      {
        assert fetched[..i + 1][..i] == fetched[..i];
        if fetched[i].name !in stored {
          markets := markets + [MarketRow(e, fetched[i].name)];
        }
      }
      assert fetched[..|fetched|] == fetched;
    }

    /** `add`: parse the exchange the user typed (an unknown name panics),
        insert it unless it is already there, then insert those of its
        fetched USD markets that are not stored yet. `listing` is what the
        REST call returned and `newId` the fresh exchange id. */
    method Add(input: string, newId: int, listing: Result<seq<FtxMarket>>) returns (r: Outcome<AddOutcome>)
      modifies this
      ensures TryFrom(input).Err? ==> r == Panics && exchanges == old(exchanges) && markets == old(markets)
      ensures TryFrom(input).Ok? && HasExchange(old(exchanges), TryFrom(input).value) ==>
        r == Returns(AlreadyAdded) && exchanges == old(exchanges) && markets == old(markets)
      ensures TryFrom(input).Ok? && !HasExchange(old(exchanges), TryFrom(input).value) ==>
        exchanges == old(exchanges) + [Exchange(newId, TryFrom(input).value)]
      ensures TryFrom(input).Ok? && !HasExchange(old(exchanges), TryFrom(input).value) && listing.Err? ==>
        r == Returns(FetchFailed) && markets == old(markets)
      ensures TryFrom(input).Ok? && !HasExchange(old(exchanges), TryFrom(input).value) && listing.Ok? ==>
        var name := TryFrom(input).value;
        r == Returns(Added) && markets == old(markets) + NewMarkets(name, MarketNamesOf(old(markets), name), RetainUsd(listing.value))
      ensures UniqueExchangeNames(old(exchanges)) ==> UniqueExchangeNames(exchanges)
    {
      var parsed := TryFrom(input);
      if parsed.Err? {
        return Panics;
      }
      var name := parsed.value;
      if HasExchange(exchanges, name) {
        return Returns(AlreadyAdded);
      } else if AsStr(name) !in SUPPORTED_EXCHANGES {
        assert false;
        return Returns(Unsupported);
      }
      UniqueAfterInsert(exchanges, Exchange(newId, name));
      exchanges := exchanges + [Exchange(newId, name)];
      var pulled := PullUsdMarketsFromFtx(AsStr(name), listing);
      if pulled.Panics? {
        assert false;
        return Panics;
      }
      if pulled.value.Err? {
        return Returns(FetchFailed);
      }
      InsertNewMarkets(name, pulled.value.value);
      return Returns(Added);
    }
  }
}
