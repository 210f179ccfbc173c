# Madrid real-estate dashboard: the data pipeline, in Dafny

`idealista_app.py` is a Streamlit dashboard over a table of Madrid property
listings. Most of it is page layout and Plotly charts. Underneath sits a
short data pipeline, and that pipeline is what this project models:

1. `load_data` adds three columns to every listing:
   - the price per square foot;
   - the price per room, where a room count of zero is replaced by one;
   - the neighborhood, which is the address up to its first comma.
2. The sidebar selection filters the rows:
   - two inclusive range sliders, one for price and one for area;
   - three multiselects, for rooms, baths and property type;
   - a neighborhood multiselect that filters nothing while it is empty.
3. Four metric cards summarise the filtered rows: the count, then the mean price, the mean price per square foot and the mean area. Each mean reads "N/A" when nothing passed the filter.
4. The charts aggregate the filtered rows:
   - `value_counts()` of the property type;
   - two top-10 neighborhood rankings, each a `groupby(...).mean()` sorted largest first and cut at ten;
   - the mean price per room count and type.

   The charts are drawn only when some row passed the filter. The comparison charts also need more than one distinct group.
5. The value analysis joins every listing with the mean price per square foot of its neighborhood. A listing's value ratio is its own price per square foot divided by that mean. Its value opportunity is two minus the ratio.
6. Money is displayed as `€` followed by the integer part, grouped in thousands by commas.

Every step is modelled as pure functions over `seq<Row>`, with exact `real`
arithmetic. The modules follow the pipeline:
- `Listings`: the enrichment;
- `Filters`;
- `Metrics`;
- `Views`: the chart aggregates;
- `ValueAnalysis`;
- `Display`: the data table;
- `Formatting`: `int(x)` as truncation toward zero, and the text formats `f"{n}"`, `f"{n:,}"` and `f"€{n:,}"`, each with a parser that reads the text back;
- `Frame`: the dataframe operations the other modules share: masks, sums and means, `unique()`, group-by-mean, `value_counts()`, sort and head.

Two details of the code matter for what the model states:
- the neighborhood is taken as written, with no whitespace trimmed;
- the room divisor replaces only a count of exactly 0, so a negative room count is kept as it is.

## Model

| member | source | states |
|---|---|---|
| Listings.RoomDivisor | idealista_app.py:75 | The divisor is never zero. It equals the room count unless the count is 0, in which case it is 1. For non-negative counts it is `max(rooms, 1)`. |
| Listings.Neighborhood | idealista_app.py:78 | The result is a prefix of the address and contains no comma. Where it is shorter than the address, a comma follows it. An address without a comma is returned whole. |
| Listings.NeighborhoodUnique | idealista_app.py:78 | Those three properties determine the neighborhood completely. |
| Listings.NeighborhoodOfJoined | idealista_app.py:78 | For a comma-free `head`, the neighborhood of `head + "," + tail` is `head`, whatever `tail` is. |
| Listings.NeighborhoodKeepsWhitespace | idealista_app.py:78 | `" Salamanca , Madrid"` gives `" Salamanca "`: surrounding whitespace is kept. |
| Listings.Enrich | idealista_app.py:74-78 | The source columns are copied. `price_per_sqft * sqft == price`, `price_per_room * divisor == price`, and `neighborhood` is the address prefix. Both ratios are positive for a well-formed listing. |
| Listings.LoadData | idealista_app.py:70-80 | There is one enriched row per listing, in file order. Every price per square foot is positive when every listing is well formed. |
| Filters.Matches | idealista_app.py:148-161 | The single-pass definition the filter is stated against: both inclusive ranges, the three selections, and the neighborhood selection when it is not empty. |
| Filters.StageOne | idealista_app.py:149-157 | A row survives the first mask iff it is in the input and meets both inclusive ranges and the three membership tests. |
| Filters.FilterRows | idealista_app.py:148-161 | A row is kept iff it is in the input and matches. An empty neighborhood selection leaves the first-stage result unchanged. An empty room, bath or type selection, or an inverted range, gives no rows. |
| Filters.FilterSinglePass | idealista_app.py:148-161 | The two-stage filter equals one pass of the combined mask. |
| Filters.FilterCount | idealista_app.py:148-161 | A matching row is kept as many times as it occurs in the input. A non-matching row is never kept. |
| Filters.FilterIsSubsequence | idealista_app.py:148-161 | The output is a subsequence of the input: rows are only deleted, never reordered. |
| Filters.FilterIdempotent | idealista_app.py:148-161 | Filtering the filtered rows again with the same criteria changes nothing. |
| Filters.AllNeighborhoodsSelected | idealista_app.py:159-161 | Selecting every neighborhood present after the first stage has the same effect as selecting none. |
| Filters.NarrowingRefilters | idealista_app.py:148-161 | Filtering with narrower criteria equals filtering the already filtered rows with them. |
| Filters.DefaultCriteria | idealista_app.py:89-145 | The sidebar starts with no neighborhood selected. The other starting values are stated by the two lemmas below. |
| Filters.DefaultSelectsEveryValue | idealista_app.py:113-137 | The starting room, bath and type selections contain every value present in the data. |
| Filters.DefaultFilter | idealista_app.py:89-157 | With non-negative prices and areas, the starting position keeps a row iff its price is at most 3,000,000 and its area is at most `int(max sqft)`. |
| Filters.DefaultMatches | idealista_app.py:89-157 | For one row with non-negative price and area, the starting position matches it iff its price is at most 3,000,000 and its area is at most `int(max sqft)`. |
| Filters.DefaultFilterWholeAreas | idealista_app.py:100-109 | When the largest area is whole, the starting position keeps exactly the rows priced at most 3,000,000. |
| Metrics.MeanOf | idealista_app.py:178-180 | The mean is missing iff there are no rows. Otherwise the mean times the count is the column sum. |
| Metrics.Summarize | idealista_app.py:173-200 | The count is the number of rows. Each of the three means is missing iff the count is zero. Each present mean times the count is its column sum. |
| Metrics.EuroCard | idealista_app.py:180-183 | The card reads "N/A" iff the mean is missing. Otherwise it is `int(mean)` after a euro sign, grouped in thousands, and it parses back to `int(mean)`. |
| Metrics.AreaCard | idealista_app.py:200-203 | The card reads "N/A" iff the mean is missing. Otherwise it is `int(mean)` in plain decimal followed by " sqft", and its prefix parses back to `int(mean)`. |
| Metrics.MetricCards | idealista_app.py:171-204 | The count card is the number of rows in plain decimal. Each of the other three cards reads "N/A" iff there are no rows. Otherwise the two euro cards are `int` of the mean price and the mean price per square foot, written in euros and grouped in thousands. The area card is `int` of the mean area in plain decimal followed by " sqft". |
| Metrics.NothingSelectedCards | idealista_app.py:171-204 | When no row passes the filter, the cards read "0", "N/A", "N/A" and "N/A". |
| Metrics.FilteredMeansWithinRanges | idealista_app.py:148-203 | The mean price and the mean area of the filtered rows lie within the slider ranges, and so do the integers the cards display. |
| Views.NeighborhoodRanking | idealista_app.py:262-263 | The ranking has exactly min(10, number of neighborhoods) entries, distinct neighborhoods, and non-increasing means. |
| Views.RankingEntries | idealista_app.py:262-263 | Each entry is a neighborhood of the rows, paired with the mean of its own rows. |
| Views.RankingLeavesOutLower | idealista_app.py:263 | A neighborhood left out of the ranking has a mean no higher than any shown mean. |
| Views.RankingSize | idealista_app.py:261-263 | With more than one neighborhood, the ranking has between 2 and 10 entries. |
| Views.SeveralNeighborhoods | idealista_app.py:261 | `len(unique()) > 1` on the neighborhood column, the guard of both rankings and of the value analysis, holds iff the rows have more than one distinct neighborhood. |
| Views.SeveralRoomCounts | idealista_app.py:389 | `len(unique()) > 1` on the room column holds iff the rows have more than one distinct room count. |
| Views.TopNeighborhoodsByPrice | idealista_app.py:261-263 | The chart is drawn iff there is more than one neighborhood. It is then the price ranking, with 2 to 10 entries. |
| Views.TopNeighborhoodsByPricePerSqft | idealista_app.py:363-366 | The same, for the price per square foot. |
| Views.ManyNeighborhoodsShowTen | idealista_app.py:263 | With more than ten neighborhoods, exactly ten are shown. |
| Views.TypologyCounts | idealista_app.py:215-242 | The counts are present iff some row passed the filter. There is one entry per type present, holding that type's row count, which is positive. Counts are non-increasing and add up to the number of rows. |
| Views.SeveralCombinations | idealista_app.py:389-390 | Two distinct room counts give at least two room-and-type groups. |
| Views.PriceByRoomsAndType | idealista_app.py:389-390 | The chart is drawn iff there is more than one room count. There is then one entry per room-and-type pair present, at least two, each holding the mean price of its rows. |
| ValueAnalysis.Assess | idealista_app.py:423-424 | `ratio * mean == price_per_sqft` and `ratio + opportunity == 2`. The ratio is 1 iff the listing is at the mean, and then the opportunity is 1 too. The ratio is below 1 iff the opportunity is above 1. For a positive mean, the ratio is below 1 iff the listing is below the mean. |
| ValueAnalysis.Lookup | idealista_app.py:418-422 | The value found for a key is the value stored with that key in the means table. |
| ValueAnalysis.MeansTable | idealista_app.py:418-419 | `neighborhood_avg` has distinct keys, one entry for each neighborhood of the rows, and each entry holds the mean price per square foot of that neighborhood's rows. |
| ValueAnalysis.MeansTableEntries | idealista_app.py:418-419 | `neighborhood_avg` has an entry for every listing's neighborhood. Every entry is positive when every price per square foot is. |
| ValueAnalysis.MeansTableEntry | idealista_app.py:418-419 | Each entry of `neighborhood_avg` holds the mean of its own neighborhood's rows. |
| ValueAnalysis.JoinRow | idealista_app.py:422-424 | The joined row keeps the listing. It carries its neighborhood's entry from the table, with ratio `price_per_sqft / avg` and opportunity `2 - ratio`. |
| ValueAnalysis.Merge | idealista_app.py:422 | There is one joined row per listing, in the listings' order. |
| ValueAnalysis.ValueTable | idealista_app.py:416-424 | Joined row `i` is listing `i`, carrying the mean price per square foot of its own neighborhood and both assigned columns. |
| ValueAnalysis.ValueOpportunities | idealista_app.py:416-424 | The table is computed iff the rows span more than one neighborhood. |
| ValueAnalysis.MergedGroup | idealista_app.py:418-423 | Within one neighborhood, the joined rows match its listings one for one. Their ratios add up to the listings' prices per square foot divided by the neighborhood mean. |
| ValueAnalysis.RatiosAverageToOne | idealista_app.py:418-423 | Within every neighborhood, the value ratios average to exactly 1. |
| ValueAnalysis.OpportunitiesAverageToOne | idealista_app.py:418-424 | Within every neighborhood, the value opportunities average to exactly 1. |
| ValueAnalysis.AssessedTable | idealista_app.py:422-424 | Every row of the value table carries the two assigned columns. |
| ValueAnalysis.TwoListingsLoaded | idealista_app.py:74-78 | Listings of 50 sqft at 200,000 and 400,000 in "A" cost 4,000 and 8,000 per square foot and lie in neighborhood "A". |
| ValueAnalysis.TwoListingsMean | idealista_app.py:418-419 | Two rows of one neighborhood at 4,000 and 8,000 per square foot form one group, with mean 6,000. |
| ValueAnalysis.TwoListingsExample | idealista_app.py:416-424 | Those two rows get ratios 2/3 and 4/3 and opportunities 4/3 and 2/3. With a single neighborhood the analysis is not computed. |
| Display.DisplayRowOf | idealista_app.py:479-485 | The price and price-per-sqft cells are `int` of the values, written in euros and grouped in thousands, and they parse back to those integers. Every other column is copied. |
| Display.DisplayTable | idealista_app.py:482-485 | There is one displayed line per filtered row, in the same order. |
| Display.PropertyData | idealista_app.py:482-488 | The table is present iff some row passed the filter. It then holds the displayed line of every filtered row, in order: the other columns copied, and the money cells holding the integer parts of the values, written in euros and grouped in thousands. |
| Formatting.Trunc | idealista_app.py:183 | `int(x)` rounds toward zero. For `x >= 0` it is the largest integer not above `x`. For `x < 0` it is the smallest integer not below `x`. |
| Formatting.TruncWithin | idealista_app.py:183 | Truncating a value between two integers gives an integer between them. |
| Formatting.Decimal | idealista_app.py:173 | A natural number is written as digits without leading zeros, and those digits denote the number. |
| Formatting.GroupThousands | idealista_app.py:183 | The grouped text has `(n - 1) / 3` commas for `n` digits. Commas stand exactly at every fourth place from the right. Removing them gives back the digits. |
| Formatting.IntText | idealista_app.py:173 | `f"{n}"`: a minus sign for a negative `n`, then the digits of its magnitude without leading zeros. |
| Formatting.ThousandsText | idealista_app.py:183 | `f"{n:,}"`: a minus sign for a negative `n`, then the digits of its magnitude with commas exactly at every fourth place from the right. |
| Formatting.CurrencyText | idealista_app.py:183 | `f"€{n:,}"`: the euro sign, then `n` grouped in thousands as above. |
| Formatting.ThreeDigitAmount | idealista_app.py:183 | `f"€{123:,}"` is "€123", and "€,123" is not a grouped amount: no comma is put in front. |
| Formatting.ReadThousands | idealista_app.py:183 | Any text grouped in thousands as above reads back as its number. |
| Formatting.ReadDecimal | idealista_app.py:173 | Any text in plain decimal as above reads back as its number. |
| Formatting.ReadEuros | idealista_app.py:484-485 | Any euro amount as above reads back as its number. |
| Formatting.ThousandsRoundTrip | idealista_app.py:183 | Reading back `f"{n:,}"` gives `n`, for every integer `n`. |
| Formatting.IntTextRoundTrip | idealista_app.py:203 | Reading back `f"{n}"` gives `n`, for every integer `n`. |
| Formatting.CurrencyRoundTrip | idealista_app.py:484-485 | Reading back `f"€{n:,}"` gives `n`, for every integer `n`. |
| Frame.Mask | idealista_app.py:148-161 | `df[mask]`: a row is selected iff it is in the input and the mask holds on it. The selection is no longer than the input. |
| Frame.MaskCount | idealista_app.py:148-161 | Each row occurs in the selection as often as in the input when the mask holds on it, and not at all otherwise. |
| Frame.MaskIsSubsequence | idealista_app.py:148-161 | The selection keeps the rows in their original order. |
| Frame.Average | idealista_app.py:178 | `mean()`: the mean times the number of rows is the sum. |
| Frame.MinOf | idealista_app.py:90 | `min()` is attained by some row and is no larger than any. |
| Frame.MaxOf | idealista_app.py:102 | `max()` is attained by some row and is no smaller than any. |
| Frame.Unique | idealista_app.py:261 | `unique()` has no repeats and holds exactly the values of the column. |
| Frame.UniqueSize | idealista_app.py:261 | `len(unique())` is the number of distinct values. |
| Frame.GroupOf | idealista_app.py:262 | A group holds exactly the rows with its key. It is non-empty for a key that occurs. |
| Frame.GroupCount | idealista_app.py:262 | A group holds each row with its key as often as the input does, so equal rows all count towards the group's mean. |
| Frame.GroupMeans | idealista_app.py:262 | `groupby(key)[val].mean()` has distinct keys and one entry per key present, each holding its group's mean. |
| Frame.GroupMeansConsistent | idealista_app.py:262 | The group means, weighted by group sizes, add up to the column total. |
| Frame.SortDescending | idealista_app.py:263 | `sort_values(ascending=False)` is a rearrangement of its input, largest first. |
| Frame.Top | idealista_app.py:263 | `head(n)` of the sorted values: min(n, size) entries, non-increasing, drawn without repetition from the input. Each entry scores at least as high as every entry left out. |
| Frame.ValueCounts | idealista_app.py:241 | `value_counts()` has one entry per distinct value, holding its positive row count. Counts are non-increasing and add up to the number of rows. |

## Left out

- Streamlit layout is not modelled:
  - the page configuration, CSS, tabs, the sidebar widgets themselves, warnings and info boxes;
  - the Plotly chart construction and styling;
  - the download button.

  These are rendering and UI. The model keeps only the values the widgets hand to the pipeline and the values the charts are drawn from.
- Reading the CSV file and `@st.cache_data` are not modelled. They are I/O and framework caching, so the rows are a parameter.
- The OLS trendline and its fallback are not modelled. They are a call into statsmodels plus floating-point numerics.
- Floating point is not modelled. Prices, areas, means and ratios are exact reals, and `int(x)` is exact truncation toward zero. Float rounding of sums and quotients does not appear.
- NaN values and the `pd.isna` test are not modelled. A missing mean appears only as the empty-frame case, which is the one the dashboard can produce from a complete table.
- Two orders are neither modelled nor asserted:
  - pandas sorts `groupby` keys by default, so `neighborhood_avg` and the rooms-by-type table come out in key order;
  - the tie order of `sort_values` and `value_counts` is left to the library.

  The model picks first-occurrence key order and an insertion sort, and its contracts hold for any order.
- ValueAnalysis.Merge keeps the listings' own order in the joined table. The row order of an inner `merge` depends on the pandas version: older versions group the rows by key. Nothing downstream depends on that order.
- Columns assigned in place (`df['x'] = ...`, the overwritten price cells of the display copy) are modelled as new values built from the old ones.
- Listings.Enrich requires a non-zero area. Dividing by zero gives infinity or NaN in the dataframe, which has no counterpart in the reals.
- ValueAnalysis.ValueTable requires every price per square foot to be positive, so that every neighborhood mean is non-zero. `ValueOpportunities`, `RatiosAverageToOne` and `OpportunitiesAverageToOne` carry the same requirement. With a zero mean the dashboard would divide by zero.
- ValueAnalysis.Assess requires a non-zero mean for the same reason.
- ValueAnalysis.ValueOpportunities: only the table is modelled, because the dashboard computes `value_df` but draws its scatter plot from the filtered rows.
- Filters.DefaultCriteria states only its neighborhood selection in its own contract. The starting ranges and selections are stated by `DefaultSelectsEveryValue` and `DefaultFilter`. Slider step sizes and the slider bounds are not modelled. The starting price range is taken as `(int(min price), 3000000)` as written. How the slider widget treats a starting pair that lies outside its bounds, or is reversed, is not modelled.
- Filters.DefaultFilter: the starting area range ends at `int(max sqft)`. A largest area with a fractional part is therefore excluded by default, and the lemma states this as it is.
