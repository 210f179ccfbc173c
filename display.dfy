/**
 * The "Property Data" table (idealista_app.py, lines 473-488): eight columns
 * of the filtered rows, with the price and the price per square foot
 * rewritten as euro amounts grouped in thousands.
 */
module Display {
  import opened Wrappers
  import opened Listings
  import opened Formatting

  /** One line of the displayed table, in the order of its columns. */
  datatype DisplayRow = DisplayRow(
    title: string,
    price: string,
    rooms: int,
    baths: int,
    sqft: real,
    pricePerSqft: string,
    neighborhood: string,
    typology: string)

  /** The displayed line of one row: the two money columns read back as the
      integer parts of the amounts; every other column is copied. */
  function DisplayRowOf(r: Row): (d: DisplayRow)
    ensures WrittenInEuros(d.price, Trunc(r.price)) && ParseCurrency(d.price) == Some(Trunc(r.price))
    ensures WrittenInEuros(d.pricePerSqft, Trunc(r.pricePerSqft))
    ensures ParseCurrency(d.pricePerSqft) == Some(Trunc(r.pricePerSqft))
    ensures d.title == r.title && d.rooms == r.rooms && d.baths == r.baths && d.sqft == r.sqft
    ensures d.neighborhood == r.neighborhood && d.typology == r.typology
  {
    CurrencyRoundTrip(Trunc(r.price));
    CurrencyRoundTrip(Trunc(r.pricePerSqft));
    DisplayRow(r.title, CurrencyText(Trunc(r.price)), r.rooms, r.baths, r.sqft,
               CurrencyText(Trunc(r.pricePerSqft)), r.neighborhood, r.typology)
  }

  /** `formatted_df`: one displayed line per filtered row, in the same order. */
  function DisplayTable(rows: seq<Row>): (t: seq<DisplayRow>)
    ensures |t| == |rows|
    ensures forall i :: 0 <= i < |t| ==> t[i] == DisplayRowOf(rows[i])
  {
    if rows == [] then [] else [DisplayRowOf(rows[0])] + DisplayTable(rows[1..])
  }

  /** The table is shown in the value tab, which shows only a warning when no
      row passed the filter. */
  function PropertyData(rows: seq<Row>): (v: Option<seq<DisplayRow>>)
    ensures v.Some? <==> rows != []
    ensures v.Some? ==> v.value == DisplayTable(rows) && |v.value| == |rows|
    ensures v.Some? ==> forall i :: 0 <= i < |rows| ==>
      && WrittenInEuros(v.value[i].price, Trunc(rows[i].price))
      && WrittenInEuros(v.value[i].pricePerSqft, Trunc(rows[i].pricePerSqft))
      && ParseCurrency(v.value[i].price) == Some(Trunc(rows[i].price))
      && ParseCurrency(v.value[i].pricePerSqft) == Some(Trunc(rows[i].pricePerSqft))
      && v.value[i].title == rows[i].title && v.value[i].neighborhood == rows[i].neighborhood
  {
    if rows == [] then None else Some(DisplayTable(rows))
  }
}
