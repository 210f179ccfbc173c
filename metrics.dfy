/**
 * The four metric cards over the filtered rows (idealista_app.py, lines
 * 169-203): the number of properties, and the mean price, mean price per
 * square foot and mean area, each shown as "N/A" when there is no row to
 * average.
 */
module Metrics {
  import opened Wrappers
  import opened Listings
  import opened Frame
  import opened Formatting
  import opened Filters

  /** A column mean, or the missing value the empty frame produces. */
  datatype Metric = NotApplicable | Mean(value: real)

  /** `mean()` of column `val`: missing exactly when there are no rows. */
  function MeanOf(rows: seq<Row>, val: Row -> real): (m: Metric)
    ensures m.NotApplicable? <==> rows == []
    ensures m.Mean? ==> m.value * |rows| as real == Sum(rows, val)
  {
    if rows == [] then NotApplicable else Mean(Average(rows, val))
  }

  datatype Summary = Summary(count: nat, avgPrice: Metric, avgPricePerSqft: Metric, avgArea: Metric)

  /** The numbers behind the four cards. */
  function Summarize(rows: seq<Row>): (s: Summary)
    ensures s.count == |rows|
    ensures s.count == 0 <==> s.avgPrice.NotApplicable?
    ensures s.count == 0 <==> s.avgPricePerSqft.NotApplicable?
    ensures s.count == 0 <==> s.avgArea.NotApplicable?
    ensures s.avgPrice.Mean? ==> s.avgPrice.value * s.count as real == Sum(rows, PriceOf)
    ensures s.avgPricePerSqft.Mean? ==> s.avgPricePerSqft.value * s.count as real == Sum(rows, PricePerSqftOf)
    ensures s.avgArea.Mean? ==> s.avgArea.value * s.count as real == Sum(rows, SqftOf)
  {
    Summary(|rows|, MeanOf(rows, PriceOf), MeanOf(rows, PricePerSqftOf), MeanOf(rows, SqftOf))
  }

  /** The texts shown on the four cards. */
  datatype Cards = Cards(properties: string, avgPrice: string, avgPricePerSqft: string, avgArea: string)

  /** A euro card: "N/A", or the integer part of the mean after a euro sign,
      grouped in thousands. */
  function EuroCard(m: Metric): (t: string)
    ensures m.NotApplicable? <==> t == "N/A"
    ensures m.Mean? ==> WrittenInEuros(t, Trunc(m.value))
    ensures m.Mean? ==> ParseCurrency(t) == Some(Trunc(m.value))
  {
    match m
    case NotApplicable => "N/A"
    case Mean(v) =>
      CurrencyRoundTrip(Trunc(v));
      CurrencyText(Trunc(v))
  }

  /** The area card: "N/A", or the integer part of the mean followed by " sqft". */
  function AreaCard(m: Metric): (t: string)
    ensures m.NotApplicable? <==> t == "N/A"
    ensures m.Mean? ==> |t| > 5 && t[|t| - 5..] == " sqft"
    ensures m.Mean? ==> WrittenInDecimal(t[..|t| - 5], Trunc(m.value))
    ensures m.Mean? ==> ParseInt(t[..|t| - 5]) == Some(Trunc(m.value))
  {
    match m
    case NotApplicable => "N/A"
    case Mean(v) =>
      var n := IntText(Trunc(v));
      IntTextRoundTrip(Trunc(v));
      var t := n + " sqft";
      assert t[..|t| - 5] == n && t[|t| - 5..] == " sqft";
      t
  }

  /** What the four cards display for the given rows. */
  function MetricCards(rows: seq<Row>): (c: Cards)
    ensures WrittenInDecimal(c.properties, |rows|) && ParseInt(c.properties) == Some(|rows|)
    ensures rows == [] <==> c.avgPrice == "N/A"
    ensures rows == [] <==> c.avgPricePerSqft == "N/A"
    ensures rows == [] <==> c.avgArea == "N/A"
    ensures rows != [] ==> WrittenInEuros(c.avgPrice, Trunc(Average(rows, PriceOf)))
    ensures rows != [] ==> WrittenInEuros(c.avgPricePerSqft, Trunc(Average(rows, PricePerSqftOf)))
    ensures rows != [] ==> ParseCurrency(c.avgPrice) == Some(Trunc(Average(rows, PriceOf)))
    ensures rows != [] ==> ParseCurrency(c.avgPricePerSqft) == Some(Trunc(Average(rows, PricePerSqftOf)))
    ensures rows != [] ==> var area := c.avgArea;
      && |area| > 5 && area[|area| - 5..] == " sqft"
      && WrittenInDecimal(area[..|area| - 5], Trunc(Average(rows, SqftOf)))
      && ParseInt(area[..|area| - 5]) == Some(Trunc(Average(rows, SqftOf)))
  {
    var s := Summarize(rows);
    IntTextRoundTrip(|rows|);
    Cards(IntText(s.count), EuroCard(s.avgPrice), EuroCard(s.avgPricePerSqft), AreaCard(s.avgArea))
  }

  /** When nothing passes the filter, the cards read "0" and three times "N/A". */
  lemma NothingSelectedCards(rows: seq<Row>, c: Criteria)
    requires FilterRows(rows, c) == []
    ensures MetricCards(FilterRows(rows, c)) == Cards("0", "N/A", "N/A", "N/A")
  {
    assert IntText(0) == "0";
  }

  /** The mean price and mean area of the filtered rows lie within the slider
      ranges, and so do the integers the cards display. */
  lemma FilteredMeansWithinRanges(rows: seq<Row>, c: Criteria)
    requires FilterRows(rows, c) != []
    ensures var f := FilterRows(rows, c);
      && c.priceLow as real <= Average(f, PriceOf) <= c.priceHigh as real
      && c.areaLow as real <= Average(f, SqftOf) <= c.areaHigh as real
      && c.priceLow <= Trunc(Average(f, PriceOf)) <= c.priceHigh
      && c.areaLow <= Trunc(Average(f, SqftOf)) <= c.areaHigh
  {
    var f := FilterRows(rows, c);
    AverageBounds(f, PriceOf, c.priceLow as real, c.priceHigh as real);
    AverageBounds(f, SqftOf, c.areaLow as real, c.areaHigh as real);
    TruncWithin(Average(f, PriceOf), c.priceLow, c.priceHigh);
    TruncWithin(Average(f, SqftOf), c.areaLow, c.areaHigh);
  }
}
