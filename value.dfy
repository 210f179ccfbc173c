/**
 * The value-opportunity table (idealista_app.py, lines 411-424): each
 * filtered listing is joined with the mean price per square foot of its
 * neighborhood; its value ratio is its own price per square foot over that
 * mean, and its value opportunity is two minus the ratio. The table is built
 * only when the filtered rows span more than one neighborhood.
 */
module ValueAnalysis {
  import opened Wrappers
  import opened Listings
  import opened Frame
  import opened Views

  /** A row of `value_df`: the listing, the merged neighborhood mean and the
      two assigned columns. */
  datatype ValuedRow = ValuedRow(row: Row, avgPricePerSqft: real, valueRatio: real, valueOpportunity: real)

  /** The two assigned columns of one joined row. Below the mean the ratio is
      under one and the opportunity over one; at the mean both are one. */
  function Assess(r: Row, avg: real): (v: ValuedRow)
    requires avg != 0.0
    ensures v.row == r && v.avgPricePerSqft == avg
    ensures v.valueRatio * avg == r.pricePerSqft
    ensures v.valueRatio + v.valueOpportunity == 2.0
    ensures v.valueRatio == 1.0 <==> r.pricePerSqft == avg
    ensures v.valueRatio == 1.0 ==> v.valueOpportunity == 1.0
    ensures v.valueRatio < 1.0 <==> v.valueOpportunity > 1.0
    ensures avg > 0.0 ==> (v.valueRatio < 1.0 <==> r.pricePerSqft < avg)
  {
    var ratio := r.pricePerSqft / avg;
    ValuedRow(r, avg, ratio, 2.0 - ratio)
  }

  /** The entry of `table` keyed `n`. */
  function Lookup(table: seq<(string, real)>, n: string): (v: real)
    requires HasKey(table, n)
    ensures (n, v) in table
  {
    if table[0].0 == n then table[0].1
    else
      assert HasKey(table[1..], n) by {
        var i :| 0 <= i < |table| && table[i].0 == n;
        assert table[1..][i - 1] == table[i];
      }
      Lookup(table[1..], n)
  }

  /** `neighborhood_avg`: `groupby('neighborhood')['price_per_sqft'].mean()`. */
  function MeansTable(rows: seq<Row>): (t: seq<(string, real)>)
    ensures DistinctKeys(t)
    ensures forall n :: n in KeySet(rows, NeighborhoodOf) <==> HasKey(t, n)
    ensures forall i :: 0 <= i < |t| ==>
      t[i].0 in KeySet(rows, NeighborhoodOf) && t[i].1 == NeighborhoodMean(rows, PricePerSqftOf, t[i].0)
  {
    GroupMeans(rows, NeighborhoodOf, PricePerSqftOf)
  }

  /** Every mean in the table is positive. */
  predicate PositiveMeans(table: seq<(string, real)>)
  {
    forall i :: 0 <= i < |table| ==> table[i].1 > 0.0
  }

  /** The means table holds an entry for every listing's neighborhood, and
      every entry is positive when every price per square foot is. */
  lemma MeansTableEntries(rows: seq<Row>)
    requires forall r :: r in rows ==> r.pricePerSqft > 0.0
    ensures PositiveMeans(MeansTable(rows))
    ensures forall r :: r in rows ==> HasKey(MeansTable(rows), r.neighborhood)
  {
    var table := MeansTable(rows);
    forall i | 0 <= i < |table| ensures table[i].1 > 0.0 {
      AveragePositive(GroupOf(rows, NeighborhoodOf, table[i].0), PricePerSqftOf);
    }
    forall r | r in rows ensures HasKey(table, r.neighborhood) {
      assert NeighborhoodOf(r) in KeySet(rows, NeighborhoodOf);
    }
  }

  /** An entry of the means table carries the mean of its own neighborhood. */
  lemma MeansTableEntry(rows: seq<Row>, n: string, avg: real)
    requires (n, avg) in MeansTable(rows)
    ensures n in KeySet(rows, NeighborhoodOf)
    ensures avg == NeighborhoodMean(rows, PricePerSqftOf, n)
  {
    var table := MeansTable(rows);
    var j :| 0 <= j < |table| && table[j] == (n, avg);
  }

  /** Two entries of a table with distinct keys that share a key are one entry. */
  lemma SameKeySameMean(table: seq<(string, real)>, n: string, a: real, b: real)
    requires DistinctKeys(table)
    requires (n, a) in table && (n, b) in table
    ensures a == b
  {
    var i :| 0 <= i < |table| && table[i] == (n, a);
    var j :| 0 <= j < |table| && table[j] == (n, b);
  }

  lemma AssessAgainstPositiveMean(r: Row, avg: real)
    requires avg > 0.0
    ensures Assessed(Assess(r, avg))
  {
  }

  /** One listing joined with its neighborhood's entry of the means table. */
  function JoinRow(r: Row, table: seq<(string, real)>): (v: ValuedRow)
    requires HasKey(table, r.neighborhood)
    requires PositiveMeans(table)
    ensures v.row == r && (r.neighborhood, v.avgPricePerSqft) in table
    ensures Assessed(v)
  {
    var avg := Lookup(table, r.neighborhood);
    assert avg > 0.0 by {
      var i :| 0 <= i < |table| && table[i] == (r.neighborhood, avg);
    }
    AssessAgainstPositiveMean(r, avg);
    Assess(r, avg)
  }

  /** Whether a joined row carries the columns `Assess` gives it. */
  predicate Assessed(v: ValuedRow)
  {
    && v.avgPricePerSqft > 0.0
    && v.valueRatio == v.row.pricePerSqft / v.avgPricePerSqft
    && v.valueOpportunity == 2.0 - v.valueRatio
  }

  /** `merge(neighborhood_avg, on='neighborhood')` of the listings of `part`:
      each listing joined with its neighborhood's entry, in the order of
      `part`. */
  function Merge(part: seq<Row>, table: seq<(string, real)>): (vs: seq<ValuedRow>)
    requires forall r :: r in part ==> HasKey(table, r.neighborhood)
    requires PositiveMeans(table)
    ensures |vs| == |part|
    ensures forall i :: 0 <= i < |vs| ==> vs[i] == JoinRow(part[i], table)
  {
    if part == [] then []
    else [JoinRow(part[0], table)] + Merge(part[1..], table)
  }

  /** `value_df`: one joined row per listing, in the listings' order,
      carrying the mean of its own neighborhood and the two assigned columns. */
  function ValueTable(rows: seq<Row>): (vt: seq<ValuedRow>)
    requires forall r :: r in rows ==> r.pricePerSqft > 0.0
    ensures |vt| == |rows|
    ensures forall i :: 0 <= i < |vt| ==>
      && vt[i].row == rows[i]
      && NeighborhoodOf(rows[i]) in KeySet(rows, NeighborhoodOf)
      && vt[i].avgPricePerSqft == NeighborhoodMean(rows, PricePerSqftOf, NeighborhoodOf(rows[i]))
      && Assessed(vt[i])
  {
    MeansTableEntries(rows);
    var vt := Merge(rows, MeansTable(rows));
    forall i | 0 <= i < |vt|
      ensures NeighborhoodOf(rows[i]) in KeySet(rows, NeighborhoodOf)
      ensures vt[i].avgPricePerSqft == NeighborhoodMean(rows, PricePerSqftOf, NeighborhoodOf(rows[i]))
    {
      MeansTableEntry(rows, rows[i].neighborhood, vt[i].avgPricePerSqft);
    }
    vt
  }

  /** "Value Opportunities": computed only when the filtered rows span more
      than one neighborhood. */
  function ValueOpportunities(rows: seq<Row>): (v: Option<seq<ValuedRow>>)
    requires forall r :: r in rows ==> r.pricePerSqft > 0.0
    ensures v.Some? <==> |KeySet(rows, NeighborhoodOf)| > 1
    ensures v.Some? ==> v.value == ValueTable(rows)
  {
    if rows == [] || !SeveralNeighborhoods(rows) then None
    else Some(ValueTable(rows))
  }

  function ValuedNeighborhood(v: ValuedRow): string { v.row.neighborhood }
  function RatioOf(v: ValuedRow): real { v.valueRatio }
  function OpportunityOf(v: ValuedRow): real { v.valueOpportunity }

  /** Within neighborhood `n`, whose entry in the table is `a`, the merged
      rows match the neighborhood's listings one for one, and their ratios add
      up to the listings' prices per square foot divided by `a`. */
  lemma {:induction false} MergedGroup(part: seq<Row>, table: seq<(string, real)>, n: string, a: real)
    requires forall r :: r in part ==> HasKey(table, r.neighborhood)
    requires PositiveMeans(table) && DistinctKeys(table)
    requires (n, a) in table && a != 0.0
    ensures var vg := GroupOf(Merge(part, table), ValuedNeighborhood, n);
      var g := GroupOf(part, NeighborhoodOf, n);
      && |vg| == |g|
      && Sum(vg, RatioOf) == Sum(g, DividedBy(PricePerSqftOf, a))
  {
    if part != [] {
      var v := JoinRow(part[0], table);
      var tail := Merge(part[1..], table);
      assert Merge(part, table) == [v] + tail;
      assert part == [part[0]] + part[1..];
      var f := DividedBy(PricePerSqftOf, a);
      assert part[0].neighborhood == n ==> RatioOf(v) == f(part[0]) by {
        if part[0].neighborhood == n {
          SameKeySameMean(table, n, a, v.avgPricePerSqft);
        }
      }
      MergedGroup(part[1..], table, n, a);
      GroupStep(v, part[0], tail, part[1..], n, f);
    }
  }

  /** Adding a joined row and its listing in front of the two sides keeps
      the groups of `n` matched and their sums equal. */
  lemma GroupStep(v: ValuedRow, r: Row, vs: seq<ValuedRow>, rs: seq<Row>, n: string, f: Row -> real)
    requires v.row == r
    requires r.neighborhood == n ==> RatioOf(v) == f(r)
    requires |GroupOf(vs, ValuedNeighborhood, n)| == |GroupOf(rs, NeighborhoodOf, n)|
    requires Sum(GroupOf(vs, ValuedNeighborhood, n), RatioOf) == Sum(GroupOf(rs, NeighborhoodOf, n), f)
    ensures |GroupOf([v] + vs, ValuedNeighborhood, n)| == |GroupOf([r] + rs, NeighborhoodOf, n)|
    ensures Sum(GroupOf([v] + vs, ValuedNeighborhood, n), RatioOf) == Sum(GroupOf([r] + rs, NeighborhoodOf, n), f)
  {
    var vg := GroupOf(vs, ValuedNeighborhood, n);
    var g := GroupOf(rs, NeighborhoodOf, n);
    GroupOfCons(v, vs, ValuedNeighborhood, n);
    GroupOfCons(r, rs, NeighborhoodOf, n);
    if r.neighborhood == n {
      SumCons(v, vg, RatioOf);
      SumCons(r, g, f);
    } else {
      assert [] + vg == vg && [] + g == g;
    }
  }

  /** Within every neighborhood the value ratios average to exactly one. */
  lemma RatiosAverageToOne(rows: seq<Row>, n: string)
    requires forall r :: r in rows ==> r.pricePerSqft > 0.0
    requires n in KeySet(rows, NeighborhoodOf)
    ensures var vg := GroupOf(ValueTable(rows), ValuedNeighborhood, n);
      |vg| > 0 && Average(vg, RatioOf) == 1.0
  {
    var table := MeansTable(rows);
    var vg := GroupOf(ValueTable(rows), ValuedNeighborhood, n);
    var g := GroupOf(rows, NeighborhoodOf, n);
    var a := NeighborhoodMean(rows, PricePerSqftOf, n);
    MeansTableEntries(rows);
    assert (n, a) in table by {
      var j :| 0 <= j < |table| && table[j].0 == n;
    }
    MergedGroup(rows, table, n, a);
    SumDividedByMean(g, PricePerSqftOf);
    AverageOfCount(vg, RatioOf);
  }

  /** Within every neighborhood the value opportunities average to exactly
      one as well. */
  lemma OpportunitiesAverageToOne(rows: seq<Row>, n: string)
    requires forall r :: r in rows ==> r.pricePerSqft > 0.0
    requires n in KeySet(rows, NeighborhoodOf)
    ensures var vg := GroupOf(ValueTable(rows), ValuedNeighborhood, n);
      |vg| > 0 && Average(vg, OpportunityOf) == 1.0
  {
    var vt := ValueTable(rows);
    var vg := GroupOf(vt, ValuedNeighborhood, n);
    RatiosAverageToOne(rows, n);
    AssessedTable(rows);
    assert forall v :: v in vg ==> OpportunityOf(v) == 2.0 - RatioOf(v);
    ComplementAverage(vg, OpportunityOf, RatioOf);
  }

  /** Every row of the value table carries the assigned columns. */
  lemma AssessedTable(rows: seq<Row>)
    requires forall r :: r in rows ==> r.pricePerSqft > 0.0
    ensures forall v :: v in ValueTable(rows) ==> Assessed(v)
  {
    var vt := ValueTable(rows);
    forall v | v in vt ensures Assessed(v) {
      var i :| 0 <= i < |vt| && vt[i] == v;
    }
  }

  /** Two listings of 50 sqft at 200,000 and 400,000 in neighborhood "A"
      cost 4,000 and 8,000 per square foot. */
  lemma TwoListingsLoaded()
    ensures var first := Enrich(Listing("first", 200000.0, 1, 1, 50.0, "flat", "A"));
      first.pricePerSqft == 4000.0 && first.neighborhood == "A"
    ensures var second := Enrich(Listing("second", 400000.0, 2, 1, 50.0, "flat", "A"));
      second.pricePerSqft == 8000.0 && second.neighborhood == "A"
  {
    assert Neighborhood("A") == "A" by {
      assert "A"[1..] == [];
    }
  }

  /** Two listings of one neighborhood at 4,000 and 8,000 per square foot:
      their mean is 6,000. */
  lemma TwoListingsMean(rows: seq<Row>)
    requires |rows| == 2 && rows[0].neighborhood == rows[1].neighborhood
    requires rows[0].pricePerSqft == 4000.0 && rows[1].pricePerSqft == 8000.0
    ensures KeySet(rows, NeighborhoodOf) == {rows[0].neighborhood}
    ensures NeighborhoodMean(rows, PricePerSqftOf, rows[0].neighborhood) == 6000.0
  {
    var n := rows[0].neighborhood;
    assert GroupOf(rows, NeighborhoodOf, n) == rows by {
      MaskKeepsAll(rows, x => NeighborhoodOf(x) == n);
    }
    assert Sum(rows, PricePerSqftOf) == 12000.0 by {
      var tail := rows[1..];
      assert tail[0] == rows[1] && tail[1..] == [];
      assert Sum(tail, PricePerSqftOf) == 8000.0;
    }
    assert KeySet(rows, NeighborhoodOf) == {n} by {
      assert forall r :: r in rows ==> r == rows[0] || r == rows[1];
    }
  }

  /** Against their mean of 6,000 the two listings have ratios 2/3 and 4/3
      and opportunities 4/3 and 2/3. With a single neighborhood the
      dashboard does not show the table. */
  lemma TwoListingsExample(rows: seq<Row>)
    requires |rows| == 2 && rows[0].neighborhood == rows[1].neighborhood
    requires rows[0].pricePerSqft == 4000.0 && rows[1].pricePerSqft == 8000.0
    ensures var vt := ValueTable(rows);
      && vt[0].avgPricePerSqft == 6000.0 && vt[1].avgPricePerSqft == 6000.0
      && vt[0].valueRatio == 2.0 / 3.0 && vt[0].valueOpportunity == 4.0 / 3.0
      && vt[1].valueRatio == 4.0 / 3.0 && vt[1].valueOpportunity == 2.0 / 3.0
      && ValueOpportunities(rows).None?
  {
    TwoListingsMean(rows);
    var vt := ValueTable(rows);
    assert Assessed(vt[0]) && Assessed(vt[1]);
  }
}
