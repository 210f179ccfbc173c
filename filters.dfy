/**
 * The sidebar filters (idealista_app.py, lines 86-161): two inclusive range
 * sliders, three multiselects that start with every value selected, and a
 * neighborhood multiselect that starts empty and, while empty, filters
 * nothing.
 *
 * The filter runs in two stages, as the dashboard does: one mask combining
 * the ranges and the first three selections, then, only when some
 * neighborhood is selected, a second mask on the neighborhood.
 */
module Filters {
  import opened Listings
  import opened Frame
  import opened Formatting

  /** What the sidebar hands to the filter. Slider ends are integers. */
  datatype Criteria = Criteria(
    priceLow: int,
    priceHigh: int,
    areaLow: int,
    areaHigh: int,
    rooms: set<int>,
    baths: set<int>,
    types: set<string>,
    neighborhoods: set<string>)

  /** The first mask: both ranges inclusive at both ends, and membership in
      the room, bath and type selections. */
  predicate PassesStageOne(r: Row, c: Criteria)
  {
    && c.priceLow as real <= r.price <= c.priceHigh as real
    && c.areaLow as real <= r.sqft <= c.areaHigh as real
    && r.rooms in c.rooms
    && r.baths in c.baths
    && r.typology in c.types
  }

  /** Whether a row survives both stages: an empty neighborhood selection
      lets every neighborhood through. */
  predicate Matches(r: Row, c: Criteria)
  {
    PassesStageOne(r, c) && (c.neighborhoods == {} || r.neighborhood in c.neighborhoods)
  }

  function StageOneMask(c: Criteria): Row -> bool
  {
    (r: Row) => PassesStageOne(r, c)
  }

  function NeighborhoodMask(c: Criteria): Row -> bool
  {
    (r: Row) => r.neighborhood in c.neighborhoods
  }

  function Matcher(c: Criteria): Row -> bool
  {
    (r: Row) => Matches(r, c)
  }

  /** The rows after the first mask, in their original order. */
  function StageOne(rows: seq<Row>, c: Criteria): (s: seq<Row>)
    ensures forall r :: r in s <==> r in rows && PassesStageOne(r, c)
  {
    Mask(rows, StageOneMask(c))
  }

  /** `filtered_df`: the first mask, then the neighborhood mask if any
      neighborhood is selected. */
  function FilterRows(rows: seq<Row>, c: Criteria): (f: seq<Row>)
    ensures forall r :: r in f <==> r in rows && Matches(r, c)
    ensures c.neighborhoods == {} ==> f == StageOne(rows, c)
    ensures c.rooms == {} || c.baths == {} || c.types == {} ==> f == []
    ensures c.priceLow > c.priceHigh || c.areaLow > c.areaHigh ==> f == []
  {
    var s := StageOne(rows, c);
    var f := if c.neighborhoods == {} then s else Mask(s, NeighborhoodMask(c));
    assert forall r :: r in f <==> r in rows && Matches(r, c);
    assert |f| > 0 ==> f[0] in rows && Matches(f[0], c) by {
      if |f| > 0 {
        assert f[0] in f;
      }
    }
    f
  }

  /** The two stages select exactly what the single combined mask selects. */
  lemma FilterSinglePass(rows: seq<Row>, c: Criteria)
    ensures FilterRows(rows, c) == Mask(rows, Matcher(c))
  {
    if c.neighborhoods == {} {
      MaskCongruent(rows, StageOneMask(c), Matcher(c));
    } else {
      MaskThenMask(rows, StageOneMask(c), NeighborhoodMask(c), Matcher(c));
    }
  }

  /** Every matching row is kept as many times as it occurs; no other row is. */
  lemma FilterCount(rows: seq<Row>, c: Criteria, r: Row)
    ensures multiset(FilterRows(rows, c))[r] == if Matches(r, c) then multiset(rows)[r] else 0
  {
    FilterSinglePass(rows, c);
    MaskCount(rows, Matcher(c), r);
  }

  /** The filter only deletes rows; the survivors keep their order. */
  lemma FilterIsSubsequence(rows: seq<Row>, c: Criteria)
    ensures IsSubsequence(FilterRows(rows, c), rows)
  {
    FilterSinglePass(rows, c);
    MaskIsSubsequence(rows, Matcher(c));
  }

  /** Filtering the filtered rows again with the same criteria changes nothing. */
  lemma FilterIdempotent(rows: seq<Row>, c: Criteria)
    ensures FilterRows(FilterRows(rows, c), c) == FilterRows(rows, c)
  {
    FilterSinglePass(rows, c);
    FilterSinglePass(FilterRows(rows, c), c);
    MaskIdempotent(rows, Matcher(c));
  }

  /** Selecting every neighborhood present after the first stage has the same
      effect as selecting none. */
  lemma AllNeighborhoodsSelected(rows: seq<Row>, c: Criteria)
    requires KeySet(StageOne(rows, c), NeighborhoodOf) <= c.neighborhoods
    ensures FilterRows(rows, c) == StageOne(rows, c)
  {
    var s := StageOne(rows, c);
    if c.neighborhoods != {} {
      forall r | r in s ensures NeighborhoodMask(c)(r) {
        assert NeighborhoodOf(r) in KeySet(s, NeighborhoodOf);
      }
      MaskKeepsAll(s, NeighborhoodMask(c));
    }
  }

  /** `c2` asks for no row that `c1` rejects. For neighborhoods that means
      `c1` selects none, or `c2` selects some and only ones `c1` selects:
      clearing the neighborhood selection widens the filter. */
  predicate Narrower(c2: Criteria, c1: Criteria)
  {
    && c1.priceLow <= c2.priceLow && c2.priceHigh <= c1.priceHigh
    && c1.areaLow <= c2.areaLow && c2.areaHigh <= c1.areaHigh
    && c2.rooms <= c1.rooms && c2.baths <= c1.baths && c2.types <= c1.types
    && (c1.neighborhoods == {} || (c2.neighborhoods != {} && c2.neighborhoods <= c1.neighborhoods))
  }

  /** Narrowing the criteria is the same as filtering the already filtered rows. */
  lemma NarrowingRefilters(rows: seq<Row>, c1: Criteria, c2: Criteria)
    requires Narrower(c2, c1)
    ensures FilterRows(rows, c2) == FilterRows(FilterRows(rows, c1), c2)
  {
    FilterSinglePass(rows, c1);
    FilterSinglePass(rows, c2);
    FilterSinglePass(FilterRows(rows, c1), c2);
    MaskThenMask(rows, Matcher(c1), Matcher(c2), Matcher(c2));
  }

  /** The sidebar's starting position: prices from `int(min price)` up to
      3,000,000, areas from `int(min sqft)` to `int(max sqft)`, every room
      count, bath count and type present, no neighborhood. */
  function DefaultCriteria(rows: seq<Row>): (c: Criteria)
    requires |rows| > 0
    ensures c.neighborhoods == {}
  {
    Criteria(
      Trunc(MinOf(rows, PriceOf)), 3000000,
      Trunc(MinOf(rows, SqftOf)), Trunc(MaxOf(rows, SqftOf)),
      KeySet(rows, RoomsOf), KeySet(rows, BathsOf), KeySet(rows, TypologyOf), {})
  }

  /** The starting multiselects hold every room count, bath count and type
      that occurs in the data. */
  lemma DefaultSelectsEveryValue(rows: seq<Row>, r: Row)
    requires r in rows
    ensures var c := DefaultCriteria(rows);
      r.rooms in c.rooms && r.baths in c.baths && r.typology in c.types
  {
    assert RoomsOf(r) in KeySet(rows, RoomsOf);
    assert BathsOf(r) in KeySet(rows, BathsOf);
    assert TypologyOf(r) in KeySet(rows, TypologyOf);
  }

  /** With non-negative prices and areas, the starting position drops exactly
      the listings above 3,000,000 and those whose area exceeds the integer
      part of the largest area. */
  lemma DefaultFilter(rows: seq<Row>)
    requires |rows| > 0
    requires forall r :: r in rows ==> r.price >= 0.0 && r.sqft >= 0.0
    ensures forall r :: r in rows ==>
      (r in FilterRows(rows, DefaultCriteria(rows)) <==>
         r.price <= 3000000.0 && r.sqft <= Trunc(MaxOf(rows, SqftOf)) as real)
  {
    forall r | r in rows
      ensures r in FilterRows(rows, DefaultCriteria(rows)) <==>
        r.price <= 3000000.0 && r.sqft <= Trunc(MaxOf(rows, SqftOf)) as real
    {
      DefaultMatches(rows, r);
    }
  }

  /** One row against the starting position of the sidebar. */
  lemma DefaultMatches(rows: seq<Row>, r: Row)
    requires r in rows
    requires forall x :: x in rows ==> x.price >= 0.0 && x.sqft >= 0.0
    ensures Matches(r, DefaultCriteria(rows)) <==>
      r.price <= 3000000.0 && r.sqft <= Trunc(MaxOf(rows, SqftOf)) as real
  {
    var c := DefaultCriteria(rows);
    var minPrice := MinOf(rows, PriceOf);
    var minArea := MinOf(rows, SqftOf);
    assert Trunc(minPrice) as real <= minPrice by {
      var x :| x in rows && PriceOf(x) == minPrice;
    }
    assert Trunc(minArea) as real <= minArea by {
      var x :| x in rows && SqftOf(x) == minArea;
    }
    assert minPrice <= PriceOf(r) && minArea <= SqftOf(r);
    DefaultSelectsEveryValue(rows, r);
  }

  /** When the largest area is a whole number, the starting position keeps
      every listing priced at most 3,000,000. */
  lemma DefaultFilterWholeAreas(rows: seq<Row>)
    requires |rows| > 0
    requires forall r :: r in rows ==> r.price >= 0.0 && r.sqft >= 0.0
    requires Trunc(MaxOf(rows, SqftOf)) as real == MaxOf(rows, SqftOf)
    ensures forall r :: r in rows ==> (r in FilterRows(rows, DefaultCriteria(rows)) <==> r.price <= 3000000.0)
  {
    DefaultFilter(rows);
    var maxArea := MaxOf(rows, SqftOf);
    forall r | r in rows ensures r.sqft <= Trunc(maxArea) as real {
      assert SqftOf(r) <= maxArea;
    }
  }
}
