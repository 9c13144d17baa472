# Prescription cost derivation engine, in Dafny

`cost_analysis.py` derives three reports from the `Prescriptions`, `Drugs`
and `Providers` tables, each as one SQL query in `main()`:

- **brand-versus-generic savings** (`brand_generic_sql`). Sums are taken per
  (generic_name, brand_name). Cost per claim is pooled per generic_name over
  every variant, generic-only products included. The two are joined on
  generic_name and rows without a brand are dropped. Each brand's claims are
  re-priced at the pooled rate, and the rows are ordered by savings,
  descending.
- **regional variance** (`regional_sql`). Sums and cost per claim are taken
  per (state, generic_name), ordered by generic_name and then state.
- **year-over-year trend** (`yoy_sql`). Cost per claim is taken per
  (generic_name, brand_name, year). `LAG` over each (generic_name,
  brand_name) partition, ordered by year, gives the previous value. The
  relative change follows from the two. Rows without a previous value are
  dropped, and the rest are ordered by the change, descending.

The model states each query as a pure function over sequences of table rows.

| file | module | contents |
|---|---|---|
| `nullable.dfy` | `Nullable` | SQL NULL as `Option`; null-propagating `*`, `-` and `x / NULLIF(y, 0)` |
| `seqs.dfy` | `Seqs` | selection, flat-map, key-distinctness and permutation facts |
| `ordering.dfy` | `Ordering` | sorting by a total preorder; BINARY text collation; `DESC` with NULLs last |
| `grouping.dfy` | `Grouping` | `GROUP BY` with `SUM` and the null-safe average |
| `schema.dfy` | `Schema` | the three tables and the two inner joins |
| `savings.dfy` | `Savings` | `brand_generic_sql` |
| `regional.dfy` | `Regional` | `regional_sql` |
| `trend.dfy` | `Trend` | `yoy_sql`, with `LAG` as partition, sort by year and pairwise scan |
| `scenarios.dfy` | `Scenarios` | worked examples proved against the full reports |

Modelling choices:

- **Joins.** Each join is an inner join. A claim whose drug or provider id
  matches no row is dropped. A claim that matches several rows is repeated
  once per match.
- **Grouping.** Equal keys group together, and a NULL brand_name is a key
  like any other. A group's sums are the sums over exactly the rows that
  carry its key.
- **Ratios.** Every ratio is an exact `real` inside `Option`. Division by a
  zero sum gives NULL, and NULL propagates through `*` and `-`.
- **Ordering.**
  - Text is compared code point by code point, with a proper prefix first.
    This is SQLite's BINARY collation.
  - `DESC` puts NULLs last, because SQLite orders NULL below every number.
  - Each report is specified as sorted and as a permutation of its unsorted
    rows, with no particular order among ties.
- **LAG.** It is computed as partition, sort by year and pairwise scan. It is
  proved equal to a reference definition: the average of the row with the
  greatest smaller year in the same partition, or NULL if there is none.

Each report also has a direct description of its rows (`IsSavingsRow`,
`IsRegionalRow`, `IsTrendRow`). The report is proved to hold exactly those
rows, once each. Reordering the input claims is proved to leave the multiset
of report rows unchanged. Rows that tie on the sort key may come out in a
different order.

The inner joins drop a claim whose drug or provider id matches no row, and
no error is raised (`Schema.DanglingClaimDropped`). With unique drug ids and
no dangling reference, `Schema.JoinDrugsOnePerClaim` shows that the drug join
yields exactly one row per claim, in claim order. Row `i` is claim `i`
resolved against its drug.

## Model

| member | source | states |
|---|---|---|
| Nullable.Scale | cost_analysis.py:43 | `claims * avg` is NULL exactly when the average is NULL, and otherwise the product |
| Nullable.Sub | cost_analysis.py:44 | `x - y` is NULL exactly when either operand is NULL, and otherwise the difference |
| Nullable.Div | cost_analysis.py:32 | `x / NULLIF(y, 0)` is NULL exactly when an operand is NULL or the divisor is zero; otherwise it is the quotient |
| Grouping.Average | cost_analysis.py:32 | the null-safe cost per claim is NULL exactly when the claim sum is zero, and otherwise multiplies back to the cost sum |
| Grouping.Keys | cost_analysis.py:27 | the distinct keys of the rows, each once, are exactly the keys that occur |
| Grouping.GroupBy | cost_analysis.py:19-27 | `GROUP BY` gives one group per occurring key, each carrying the sums over exactly the rows with that key |
| Grouping.TallyIsSumOfSelected | cost_analysis.py:23-24 | the one-pass group sum equals the sum over the sub-sequence of rows carrying the key |
| Grouping.TallyAppend | cost_analysis.py:23-24 | group sums over a concatenation add up |
| Grouping.TallyAbsent | cost_analysis.py:23-24 | a key that no row carries sums to zero |
| Grouping.TallyPermutation | cost_analysis.py:55-56 | group sums do not depend on the order of the rows |
| Grouping.OccursPermutation | cost_analysis.py:61 | whether a group exists does not depend on the order of the rows |
| Grouping.GroupByPermutation | cost_analysis.py:61 | the grouped result holds the same groups for any order of the rows |
| Ordering.Insert | cost_analysis.py:49 | inserting into a sorted sequence keeps it sorted and adds exactly the one element |
| Ordering.Sort | cost_analysis.py:49 | `ORDER BY` yields a sorted permutation of its input |
| Ordering.DescNullsLastOrder | cost_analysis.py:49 | `DESC` is a total preorder that puts every value before NULL and orders values from largest to smallest |
| Ordering.TextLeTotal | cost_analysis.py:62 | BINARY text comparison orders every pair of strings |
| Ordering.TextLeAntisymmetric | cost_analysis.py:62 | two strings that each sort no later than the other are equal |
| Ordering.TextLeTransitive | cost_analysis.py:62 | BINARY text comparison is transitive |
| Ordering.TextPairLeTotal | cost_analysis.py:62 | ordering by (generic_name, state) orders every pair |
| Ordering.TextPairLeTransitive | cost_analysis.py:62 | ordering by (generic_name, state) is transitive |
| Schema.DrugRowsOf | cost_analysis.py:26 | one claim joins to exactly the drug rows with its id, one output row per matching drug row |
| Schema.ProviderRowsOf | cost_analysis.py:60 | one joined row meets exactly the provider rows with its provider id, one output row per matching provider row |
| Schema.JoinDrugs | cost_analysis.py:25-26 | the drug join holds exactly the (claim, drug) combinations with equal drug ids |
| Schema.JoinProviders | cost_analysis.py:58-60 | the provider join holds exactly the (row, provider) combinations with equal provider ids |
| Schema.JoinDrugsAppend | cost_analysis.py:25-26 | joining a concatenation of claims concatenates the joins |
| Schema.JoinAllAppend | cost_analysis.py:58-60 | the same for both joins of the regional report |
| Schema.JoinDrugsPermutation | cost_analysis.py:25-26 | reordering the claims only reorders the joined rows |
| Schema.JoinAllPermutation | cost_analysis.py:58-60 | the same for both joins |
| Schema.DanglingClaimDropped | cost_analysis.py:26 | a claim whose drug id matches no drug row adds nothing to the join; no error is raised |
| Schema.JoinDrugsOnePerClaim | cost_analysis.py:26 | with unique drug ids and no dangling claim, the join has one row per claim, and row `i` is claim `i` resolved against a drug row with its id |
| Schema.ResolvedOnce | cost_analysis.py:26 | a claim whose drug id is unique and present joins to exactly one fact, the claim resolved against that drug row |
| Schema.SelectSingle | cost_analysis.py:26 | a unique drug id that is present selects exactly one drug row |
| Savings.GenericAvgs | cost_analysis.py:29-36 | `generic_avg` has one row per occurring generic_name, carrying cost per claim pooled over all of that generic's claims, NULL for a zero claim sum |
| Savings.MatchAvg | cost_analysis.py:45-47 | one `agg` row joins to exactly the `generic_avg` rows of its generic, and to at most one of them |
| Savings.JoinAvg | cost_analysis.py:45-48 | the join keeps exactly the branded `agg` rows, each paired with its generic's average |
| Savings.JoinAvgDistinct | cost_analysis.py:45-48 | the joined rows have distinct (generic_name, brand_name) |
| Savings.SavingsOrder | cost_analysis.py:49 | `ORDER BY potential_savings DESC` is a total preorder |
| Savings.SavingsNullsLast | cost_analysis.py:49 | in the report, rows with savings come first, largest first, and rows with NULL savings come last |
| Savings.ArithmeticDetermines | cost_analysis.py:43-44 | a row that keeps the arithmetic carries exactly the null-propagating product and difference, so those columns follow from the others |
| Savings.ProjectArithmetic | cost_analysis.py:43-44 | hypothetical cost is claims times the pooled average, and savings is cost minus hypothetical; both are NULL exactly when the average is |
| Savings.JoinAvgRowsWellFormed | cost_analysis.py:43-48 | every joined row has a brand and consistent savings columns |
| Savings.Report | cost_analysis.py:18-50 | the savings rows are sorted by savings descending with NULLs last, all branded, arithmetically consistent, and one per (generic_name, brand_name) |
| Savings.JoinedIsSavingsRow | cost_analysis.py:19-48 | every joined row meets the direct description of a savings row |
| Savings.SavingsRowIsJoined | cost_analysis.py:19-48 | every row meeting that description is produced by the join |
| Savings.ReportRows | cost_analysis.py:19-48 | the report holds exactly the branded (generic_name, brand_name) pairs that occur, with their own sums and the generic's pooled average |
| Savings.PooledIncludesGenericOnly | cost_analysis.py:29-35 | a generic's pooled sums are its branded sums plus its generic-only sums, so generic-only claims move the rate without forming rows |
| Savings.ReportOrderIndependent | cost_analysis.py:19-49 | reordering the claims leaves the multiset of savings rows unchanged |
| Regional.RegionalOrder | cost_analysis.py:62 | `ORDER BY generic_name, state` is a total preorder |
| Regional.Groups | cost_analysis.py:52-61 | one row per occurring (state, generic_name), with the sums over exactly that pair's rows and the null-safe average |
| Regional.Report | cost_analysis.py:51-63 | the regional rows are sorted by generic_name then state, one per pair, and exactly the rows the direct description admits |
| Regional.RowAverage | cost_analysis.py:57 | a row's average column is NULL exactly for zero claims, and otherwise the cost per claim |
| Regional.AverageColumn | cost_analysis.py:57 | every regional row's average is NULL exactly for zero claims, and otherwise total_cost / total_claims |
| Regional.StateIsolation | cost_analysis.py:58-61 | adding claims that join only to other states leaves every row of a state unchanged |
| Regional.ReportOrderIndependent | cost_analysis.py:55-61 | reordering the claims leaves the multiset of regional rows unchanged |
| Trend.Yearly | cost_analysis.py:65-74 | `yearly` has one row per occurring (generic_name, brand_name, year), with the null-safe average of exactly those claims |
| Trend.PredecessorUnique | cost_analysis.py:78 | with distinct keys, a year has at most one predecessor in its partition |
| Trend.Scan | cost_analysis.py:78 | the pairwise scan keeps every row in order and gives each the average of the row before it, or the given prior for the first |
| Trend.PartitionShape | cost_analysis.py:78 | a partition ordered by year holds exactly the partition's rows, and its years strictly increase |
| Trend.LagAt | cost_analysis.py:78 | in an ordered partition, the row before position i is the row with the greatest smaller year; the first position has none |
| Trend.PrevInYearOrder | cost_analysis.py:78 | in a partition listed in strictly increasing year order, a row's predecessor is the row just before it, and the first row has none |
| Trend.ScanEntry | cost_analysis.py:78 | each entry of a partition's scan is a yearly row paired with its predecessor's average |
| Trend.ScannedIsLagged | cost_analysis.py:75-80 | everything in the partition scans is a yearly row with its predecessor's average |
| Trend.LaggedIsScanned | cost_analysis.py:75-80 | every yearly row, paired with its predecessor's average, is in the partition scans |
| Trend.LaggedRows | cost_analysis.py:75-80 | the partition scans pair every yearly row with its predecessor's average, NULL for the first year, skipping gap years, and hold nothing else |
| Trend.PartitionInto | cost_analysis.py:78 | every lagged row of a partition belongs to that partition |
| Trend.LaggedDistinct | cost_analysis.py:75-80 | every yearly row appears once in the partition scans |
| Trend.Lagged | cost_analysis.py:75-80 | over one-row-per-key yearly rows, `lagged` holds each yearly row once, paired with the average of the greatest smaller year in its partition, or NULL |
| Trend.Finish | cost_analysis.py:81-89 | the filter keeps exactly the lagged rows with a non-NULL previous value, projected to output rows, without introducing duplicates |
| Trend.TrendOrder | cost_analysis.py:90 | `ORDER BY yoy_change DESC` is a total preorder |
| Trend.ChangeNullsLast | cost_analysis.py:90 | in the report, rows with a change come first, largest first, and rows with a NULL change come last |
| Trend.Report | cost_analysis.py:64-91 | the trend rows are sorted by change descending with NULLs last, one per (generic_name, brand_name, year), and exactly the rows the direct description admits |
| Trend.RowChange | cost_analysis.py:87 | a row's change is NULL exactly when its average is NULL or the previous average is zero, and otherwise (avg - prev) / prev |
| Trend.ChangeColumn | cost_analysis.py:87-89 | every trend row has a non-NULL previous value, and its change is NULL exactly when its average is NULL or the previous average is zero, otherwise (avg - prev) / prev |
| Trend.SameRowsSamePrev | cost_analysis.py:78 | the previous value depends only on which yearly rows are present |
| Trend.ReportOrderIndependent | cost_analysis.py:65-90 | reordering the claims leaves the multiset of trend rows unchanged |
| Scenarios.TwoYearRows | cost_analysis.py:64-91 | for one drug over two years, the report holds the later year's row exactly when the earlier year's average is not NULL |
| Scenarios.TwoYearSingleRow | cost_analysis.py:64-91 | in that case the report is exactly that one row |
| Scenarios.TwoYearTrend | cost_analysis.py:64-91 | 100.0 over 10 claims, then 240.0 over 20, gives one row: previous 10.0, average 12.0, change 0.2 |
| Scenarios.ZeroClaimYearDropsNext | cost_analysis.py:70-89 | a first year with zero claims has a NULL average, so the next year's previous value is NULL and the report is empty |
| Scenarios.GapYearSkipped | cost_analysis.py:78 | with no 2020 claims, the 2021 row is compared with 2019 |
| Scenarios.BrandSavingsExample | cost_analysis.py:18-50 | a brand at 500.0 over 50 claims and a generic-only product at 300.0 over 100 give one row: pooled rate 16/3, hypothetical 800/3, savings 700/3 |

## Left out

- Database and file I/O are not modelled: `create_engine`, `run_query`, the
  `DATABASE_URL` and `OUTDIR` lookups, `os.makedirs`, `to_csv` and the
  closing `print` (cost_analysis.py:3-15 and 92-105). The reports take the
  table contents as parameters.
- `CAST(... AS FLOAT)` and IEEE double rounding (cost_analysis.py:32, 57, 70)
  are not modelled. Every ratio and product is an exact `real`.
- NULL values in `generic_name`, `state`, `year`, `total_cost` and
  `claims_count` are not modelled. Those columns are non-NULL fields, so
  `SUM` never skips a NULL. Only `brand_name` is nullable.
- 64-bit integer overflow of `SUM(claims_count)` in SQLite is not modelled.
  Sums are unbounded integers.
- No error is raised on a dangling drug or provider reference, because the
  code raises none. The inner join drops the claim (see
  `Schema.DanglingClaimDropped`).
- The model fixes the SQLite engine, which is the default `DATABASE_URL`
  (cost_analysis.py:7). So NULLs sort last under `DESC`, and text compares by
  code point. Other engines selectable through `DATABASE_URL` may order
  differently: PostgreSQL, for example, puts NULLs first under `DESC`.
- The order SQLite gives to rows whose sort keys tie is not modelled.
  `Ordering.Sort` is a deterministic function, so equal input gives equal
  output. The contracts, however, promise only sortedness and permutation,
  and claim no particular order among ties.
- Window framing beyond plain `LAG(x)` is not modelled, nor are the query
  planner and concurrency.
