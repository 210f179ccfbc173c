/**
 * The grouped aggregates behind the charts (idealista_app.py, lines 214-263
 * and 357-390): the property-type counts, the two top-10 neighborhood
 * rankings, and the mean price per room count and type. Each chart is drawn
 * only when the filtered rows are not empty and, for the comparisons, only
 * when more than one distinct group is present; a view that is not drawn is
 * `None`.
 */
module Views {
  import opened Wrappers
  import opened Listings
  import opened Frame

  /** The number of neighborhoods a ranking shows at most. */
  const TopCount: nat := 10

  /** The mean of column `val` over the rows of neighborhood `n`. */
  function NeighborhoodMean(rows: seq<Row>, val: Row -> real, n: string): real
    requires n in KeySet(rows, NeighborhoodOf)
  {
    Average(GroupOf(rows, NeighborhoodOf, n), val)
  }

  /** `groupby('neighborhood')[val].mean()`, sorted by the mean, largest
      first, then `head(10)`: at most ten entries, one per neighborhood,
      largest mean first. */
  function NeighborhoodRanking(rows: seq<Row>, val: Row -> real): (t: seq<(string, real)>)
    ensures |t| == if TopCount < |KeySet(rows, NeighborhoodOf)| then TopCount else |KeySet(rows, NeighborhoodOf)|
    ensures DistinctKeys(t)
    ensures NonIncreasing(t, EntryValue)
  {
    TopOfGroupMeans(rows, NeighborhoodOf, val, TopCount);
    Top(GroupMeans(rows, NeighborhoodOf, val), EntryValue, TopCount)
  }

  /** Each entry of the ranking is a neighborhood of the rows with its own
      mean. */
  lemma RankingEntries(rows: seq<Row>, val: Row -> real)
    ensures var t := NeighborhoodRanking(rows, val);
      forall i :: 0 <= i < |t| ==>
        t[i].0 in KeySet(rows, NeighborhoodOf) && t[i].1 == NeighborhoodMean(rows, val, t[i].0)
  {
    TopOfGroupMeans(rows, NeighborhoodOf, val, TopCount);
  }

  /** A neighborhood missing from the ranking has a mean no higher than any
      shown mean. */
  lemma RankingLeavesOutLower(rows: seq<Row>, val: Row -> real)
    ensures var t := NeighborhoodRanking(rows, val);
      forall n, i :: n in KeySet(rows, NeighborhoodOf) && !HasKey(t, n) && 0 <= i < |t| ==>
        t[i].1 >= NeighborhoodMean(rows, val, n)
  {
    var g := GroupMeans(rows, NeighborhoodOf, val);
    var t := NeighborhoodRanking(rows, val);
    assert t == Top(g, EntryValue, TopCount);
    forall n | n in KeySet(rows, NeighborhoodOf) && !HasKey(t, n)
      ensures forall i :: 0 <= i < |t| ==> t[i].1 >= NeighborhoodMean(rows, val, n)
    {
      var j :| 0 <= j < |g| && g[j].0 == n;
      TopLeavesOutLower(g, TopCount, j);
    }
  }

  /** The ranking built from all of the neighborhoods' means: its length
      never exceeds ten, and with more than one neighborhood it has at least
      two entries. */
  lemma RankingSize(rows: seq<Row>, val: Row -> real)
    requires |KeySet(rows, NeighborhoodOf)| > 1
    ensures 2 <= |NeighborhoodRanking(rows, val)| <= TopCount
  {
  }

  /** Neighborhood charts are drawn only when `len(unique()) > 1`: when the
      rows hold more than one distinct neighborhood. */
  predicate SeveralNeighborhoods(rows: seq<Row>): (b: bool)
    ensures b <==> |KeySet(rows, NeighborhoodOf)| > 1
  {
    UniqueSize(rows, NeighborhoodOf);
    |Unique(rows, NeighborhoodOf)| > 1
  }

  /** "Top 10 Neighborhoods by Average Price". */
  function TopNeighborhoodsByPrice(rows: seq<Row>): (v: Option<seq<(string, real)>>)
    ensures v.Some? <==> |KeySet(rows, NeighborhoodOf)| > 1
    ensures v.Some? ==> v.value == NeighborhoodRanking(rows, PriceOf) && 2 <= |v.value| <= TopCount
  {
    if rows == [] || !SeveralNeighborhoods(rows) then None
    else Some(NeighborhoodRanking(rows, PriceOf))
  }

  /** "Top 10 Neighborhoods by Price per Square Foot". */
  function TopNeighborhoodsByPricePerSqft(rows: seq<Row>): (v: Option<seq<(string, real)>>)
    ensures v.Some? <==> |KeySet(rows, NeighborhoodOf)| > 1
    ensures v.Some? ==> v.value == NeighborhoodRanking(rows, PricePerSqftOf) && 2 <= |v.value| <= TopCount
  {
    if rows == [] || !SeveralNeighborhoods(rows) then None
    else Some(NeighborhoodRanking(rows, PricePerSqftOf))
  }

  /** With more than ten neighborhoods the ranking shows exactly ten. */
  lemma ManyNeighborhoodsShowTen(rows: seq<Row>)
    requires |KeySet(rows, NeighborhoodOf)| > TopCount
    ensures TopNeighborhoodsByPrice(rows).Some? && |TopNeighborhoodsByPrice(rows).value| == TopCount
  {
  }

  /** "Property Types": `value_counts()` of the type column, drawn when some
      row passed the filter. */
  function TypologyCounts(rows: seq<Row>): (v: Option<seq<(string, nat)>>)
    ensures v.Some? <==> rows != []
    ensures v.Some? ==> DistinctKeys(v.value) && |v.value| == |KeySet(rows, TypologyOf)|
    ensures v.Some? ==> forall t :: t in KeySet(rows, TypologyOf) <==> HasKey(v.value, t)
    ensures v.Some? ==> forall i :: 0 <= i < |v.value| ==>
      v.value[i].1 == |GroupOf(rows, TypologyOf, v.value[i].0)| && v.value[i].1 > 0
    ensures v.Some? ==> NonIncreasing(v.value, CountOf)
    ensures v.Some? ==> Sum(v.value, CountOf) == |rows| as real
  {
    if rows == [] then None else Some(ValueCounts(rows, TypologyOf))
  }

  /** Room-count charts are drawn only when `len(rooms.unique()) > 1`: when
      the rows hold more than one distinct room count. */
  predicate SeveralRoomCounts(rows: seq<Row>): (b: bool)
    ensures b <==> |KeySet(rows, RoomsOf)| > 1
  {
    UniqueSize(rows, RoomsOf);
    |Unique(rows, RoomsOf)| > 1
  }

  /** Two rows with different room counts give two different room-and-type
      combinations. */
  lemma SeveralCombinations(rows: seq<Row>)
    requires |KeySet(rows, RoomsOf)| > 1
    ensures |KeySet(rows, RoomsAndTypology)| > 1
  {
    var roomCounts := KeySet(rows, RoomsOf);
    var r1 :| r1 in roomCounts;
    assert |roomCounts - {r1}| == |roomCounts| - 1;
    var r2 :| r2 in roomCounts - {r1};
    var x :| x in rows && RoomsOf(x) == r1;
    var y :| y in rows && RoomsOf(y) == r2;
    var combos := KeySet(rows, RoomsAndTypology);
    assert RoomsAndTypology(x) in combos && RoomsAndTypology(y) in combos;
    assert RoomsAndTypology(y) in combos - {RoomsAndTypology(x)};
    assert |combos - {RoomsAndTypology(x)}| == |combos| - 1;
  }

  /** "Average Price by Number of Rooms and Property Type":
      `groupby(['rooms', 'typology'])['price'].mean()`. */
  function PriceByRoomsAndType(rows: seq<Row>): (v: Option<seq<((int, string), real)>>)
    ensures v.Some? <==> |KeySet(rows, RoomsOf)| > 1
    ensures v.Some? ==> DistinctKeys(v.value) && |v.value| == |KeySet(rows, RoomsAndTypology)| >= 2
    ensures v.Some? ==> forall k :: k in KeySet(rows, RoomsAndTypology) <==> HasKey(v.value, k)
    ensures v.Some? ==> forall i :: 0 <= i < |v.value| ==>
      v.value[i].0 in KeySet(rows, RoomsAndTypology) &&
      v.value[i].1 == Average(GroupOf(rows, RoomsAndTypology, v.value[i].0), PriceOf)
  {
    if rows == [] || !SeveralRoomCounts(rows) then None
    else
      SeveralCombinations(rows);
      Some(GroupMeans(rows, RoomsAndTypology, PriceOf))
  }
}
