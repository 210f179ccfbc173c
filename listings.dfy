/**
 * The listing records of the Madrid real-estate dataset and the three columns
 * `load_data` derives from them (idealista_app.py, lines 70-80).
 */
module Listings {

  /** One row of the source table, as read from the CSV file. */
  datatype Listing = Listing(
    title: string,
    price: real,
    rooms: int,
    baths: int,
    sqft: real,
    typology: string,
    address: string)

  /** A listing together with the columns derived at load time. */
  datatype Row = Row(
    title: string,
    price: real,
    rooms: int,
    baths: int,
    sqft: real,
    typology: string,
    address: string,
    pricePerSqft: real,
    pricePerRoom: real,
    neighborhood: string)

  /** The schema the dataset is expected to respect: positive price and area,
      non-negative room and bath counts. */
  predicate WellFormed(l: Listing)
  {
    l.price > 0.0 && l.sqft > 0.0 && l.rooms >= 0 && l.baths >= 0
  }

  /** The divisor of `price_per_room`: `rooms.replace(0, 1)`. Only a count of
      exactly zero is replaced, so the divisor is never zero, and for the
      non-negative counts of the schema it is max(rooms, 1). */
  function RoomDivisor(rooms: int): (d: int)
    ensures d != 0
    ensures rooms >= 0 ==> d >= 1 && d == (if rooms < 1 then 1 else rooms)
    ensures rooms != 0 ==> d == rooms
  {
    if rooms == 0 then 1 else rooms
  }

  /** `address.split(',')[0]`: the address up to (not including) its first
      comma, or the whole address when it has none. Nothing is trimmed. */
  function Neighborhood(address: string): (n: string)
    ensures |n| <= |address| && n == address[..|n|]
    ensures ',' !in n
    ensures |n| < |address| ==> address[|n|] == ','
    ensures ',' !in address ==> n == address
  {
    if address == [] || address[0] == ',' then []
    else [address[0]] + Neighborhood(address[1..])
  }

  /** The three properties above determine the neighborhood completely. */
  lemma NeighborhoodUnique(address: string, p: string)
    requires |p| <= |address| && p == address[..|p|]
    requires ',' !in p
    requires |p| < |address| ==> address[|p|] == ','
    ensures Neighborhood(address) == p
  {
  }

  /** The text before the first comma is the neighborhood, whatever follows. */
  lemma NeighborhoodOfJoined(head: string, tail: string)
    requires ',' !in head
    ensures Neighborhood(head + "," + tail) == head
  {
    var address := head + "," + tail;
    assert address[..|head|] == head;
    assert address[|head|] == ',';
    NeighborhoodUnique(address, head);
  }

  /** Surrounding whitespace is kept: no trimming takes place. */
  lemma NeighborhoodKeepsWhitespace()
    ensures Neighborhood(" Salamanca , Madrid") == " Salamanca "
  {
    assert " Salamanca , Madrid" == " Salamanca " + "," + " Madrid";
    NeighborhoodOfJoined(" Salamanca ", " Madrid");
  }

  /** The derived columns of one listing. */
  function Enrich(l: Listing): (r: Row)
    requires l.sqft != 0.0
    ensures r.title == l.title && r.price == l.price && r.rooms == l.rooms && r.baths == l.baths
    ensures r.sqft == l.sqft && r.typology == l.typology && r.address == l.address
    ensures r.pricePerSqft * l.sqft == l.price
    ensures r.pricePerRoom * RoomDivisor(l.rooms) as real == l.price
    ensures r.neighborhood == Neighborhood(l.address)
    ensures WellFormed(l) ==> r.pricePerSqft > 0.0 && r.pricePerRoom > 0.0
  {
    Row(l.title, l.price, l.rooms, l.baths, l.sqft, l.typology, l.address,
        l.price / l.sqft, l.price / RoomDivisor(l.rooms) as real, Neighborhood(l.address))
  }

  /** `load_data`: every listing with its derived columns, in file order. */
  function LoadData(listings: seq<Listing>): (rows: seq<Row>)
    requires forall l :: l in listings ==> l.sqft != 0.0
    ensures |rows| == |listings|
    ensures forall i :: 0 <= i < |rows| ==> rows[i] == Enrich(listings[i])
    ensures (forall l :: l in listings ==> WellFormed(l)) ==> forall r :: r in rows ==> r.pricePerSqft > 0.0
  {
    seq(|listings|, i requires 0 <= i < |listings| => Enrich(listings[i]))
  }

  // Columns, as functions from a row to its value, for grouping and averaging.

  function NeighborhoodOf(r: Row): string { r.neighborhood }
  function TypologyOf(r: Row): string { r.typology }
  function RoomsOf(r: Row): int { r.rooms }
  function BathsOf(r: Row): int { r.baths }
  function RoomsAndTypology(r: Row): (int, string) { (r.rooms, r.typology) }
  function PriceOf(r: Row): real { r.price }
  function SqftOf(r: Row): real { r.sqft }
  function PricePerSqftOf(r: Row): real { r.pricePerSqft }
}
