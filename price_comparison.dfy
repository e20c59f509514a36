/**
 The start/current comparison the tool shows for each ticker: from the daily
 close prices of the chosen range it takes the first close in the range (on
 the first trading day on or after the start date), the last close (the current price) and the percentage
 change between them. An empty price series means no data was found for the
 ticker, and nothing is computed. Prices are exact reals.
 */
module PriceComparison {

  /** What the tool reports for one ticker's close-price series. */
  datatype Outcome =
    | NoData
      // the price series is empty: only a "no data found" message is shown
    | Comparison(startPrice: real, currentPrice: real, percentChange: real)
      // the first close, the last close and the change between them in percent
    | ZeroBaseline(startPrice: real, currentPrice: real)
      // the first close is zero, so the change has no finite value

  /**
   The change from `first` to `last` in percent of `first`. It is the unique
   number `r` for which growing `first` by `r` percent gives `last`.
   */
  function PercentChange(first: real, last: real): (r: real)
    requires first != 0.0
    ensures first + first * r / 100.0 == last
  {
    (last - first) / first * 100.0
  }

  /** No other number grows `first` into `last`: the percentage change is determined by its defining equation. */
  lemma PercentChangeUnique(first: real, last: real, p: real)
    requires first != 0.0
    requires first + first * p / 100.0 == last
    ensures p == PercentChange(first, last)
  {
  }

  /** The change is zero exactly when the price did not move. */
  lemma PercentChangeZeroIff(first: real, last: real)
    requires first != 0.0
    ensures PercentChange(first, last) == 0.0 <==> last == first
  {
  }

  /** For a positive start price the change has the sign of the price difference. */
  lemma PercentChangeSign(first: real, last: real)
    requires first > 0.0
    ensures PercentChange(first, last) > 0.0 <==> last > first
    ensures PercentChange(first, last) < 0.0 <==> last < first
  {
  }

  /** A rise from 100 to 120 is a change of 20 percent. */
  lemma PercentChangeExample()
    ensures PercentChange(100.0, 120.0) == 20.0
  {
  }

  /**
   The comparison for a series of daily closes, oldest first. An empty series
   gives `NoData`; otherwise the start price is the first close, the current
   price is the last close, and the change relates them as `PercentChange` does.
   */
  function Compare(closes: seq<real>): (r: Outcome)
    ensures r.NoData? <==> closes == []
    ensures !r.NoData? ==> r.startPrice == closes[0] && r.currentPrice == closes[|closes| - 1]
    ensures r.ZeroBaseline? <==> closes != [] && closes[0] == 0.0
    ensures r.Comparison? ==> r.startPrice + r.startPrice * r.percentChange / 100.0 == r.currentPrice
  {
    if closes == [] then NoData
    else
      var first, last := closes[0], closes[|closes| - 1];
      if first == 0.0 then ZeroBaseline(first, last)
      else Comparison(first, last, PercentChange(first, last))
  }

  /** A one-day series compares the price with itself: no change. */
  lemma CompareSingleDay(price: real)
    requires price != 0.0
    ensures Compare([price]) == Comparison(price, price, 0.0)
  {
  }

  /** Only the first and the last close matter; the days in between do not. */
  lemma CompareEndpointsOnly(closes: seq<real>, middle: seq<real>)
    requires closes != []
    ensures Compare(closes) == Compare([closes[0]] + middle + [closes[|closes| - 1]])
  {
  }

  /** A series whose last close equals its first reports no change. */
  lemma CompareUnchanged(closes: seq<real>)
    requires closes != [] && closes[0] != 0.0 && closes[|closes| - 1] == closes[0]
    ensures Compare(closes).Comparison? && Compare(closes).percentChange == 0.0
  {
  }
}
