# Monthly sales rollup: a Dafny model

This project models the core of a batch reporting tool. The tool reads a CSV
log of individual sales and writes one summary row per calendar (year, month).
Each row gives the number of sales, the largest and smallest total, the mean
and the standard deviation. The model covers three steps of
`src/process_sales.ts`:

- `processBatch`: the fold that groups records into running-statistics
  buckets keyed by (year, month). It creates a bucket lazily with count 0,
  max −∞, min +∞ and zero sums, then adds each record's total to it.
- The buffering rule inside `processSalesData`: a batch is folded whenever
  the buffer reaches `BATCH_SIZE` (10000), and a non-empty remainder is
  folded once at end of input.
- The pure part of `writeAggregatedData`: mean = sum/count, variance =
  sumOfSquares/count − mean², and the ascending sort by year, then month.

Modules, one file each:

- `Statistics` (`statistics.dfy`): reference definitions over a sequence of
  totals. These are sum, sum of squares, largest and smallest. It also holds
  the algebra behind the raw-moment variance: n·Σt² − (Σt)² equals the sum
  of squared pairwise differences.
- `Aggregation` (`aggregation.dfy`): records, keys, buckets and the fold.
  It also keeps the JavaScript `Map`'s insertion order, which
  `Array.from(map.values())` exposes. It proves well-formedness, count
  conservation, and that the fold agrees with the reference statistics.
- `Batching` (`batching.dfy`): the buffer/flush driver as a loop. The lemma
  `BatchBoundaryInvariance` shows that any way of cutting the input gives the
  same map.
- `Report` (`report.dfy`): finalisation, the comparator, and a sort that
  yields a permutation. It proves that the report has one row per bucket,
  strictly ascending, and that it does not depend on insertion order.
- `Pipeline` (`pipeline.dfy`): the end-to-end statements, and the scenarios
  of the repository's test suite as lemmas.
- `KeyText` (`keytext.dfy`): the string key `${year}-${month}` used by the
  source, and a proof that keying by the pair groups records the same way.

Totals are integer cents, so every sum is exact. Mean and variance are exact
rationals (`real`). `Math.sqrt` and `toFixed(2)` are not modelled, so a row
carries the variance instead of the formatted standard deviation.

The source computes the variance in double precision as
`sumOfSquares / n - mean * mean` and passes it to `Math.sqrt` without
clamping (src/process_sales.ts:111-113). When every total in a month is the
same, rounding can make that difference slightly negative. For three sales of
0.10 in one month it comes out near −1.7e-18, and `Math.sqrt` then yields
NaN, which `toFixed(2)` writes as "NaN". Over exact arithmetic this cannot
happen: `VarianceIsSpread` shows the variance is the population variance
(the sum of squared pairwise differences divided by n²), and
`SalesReportRow` shows it is never negative and is zero exactly when all of
the month's totals are equal.

The sort is modelled as an insertion sort using the source's comparator
(year difference, then month difference). JavaScript's own sort algorithm may
order things differently on the way, but `AscendingUnique` shows there is
only one strictly ascending arrangement of a set of rows with distinct keys.
Any correct sort therefore produces the same output.

## Model

| member | source | states |
|---|---|---|
| Aggregation.FoldRecord | src/process_sales.ts:83-106 | one iteration of processBatch's loop: folding a record adds its key to the map (creating the bucket if absent), raises that bucket's count by exactly one, and leaves every other bucket unchanged |
| Aggregation.ProcessBatchConcat | src/process_sales.ts:82-107 | ProcessBatch: folding one batch and then another yields the same map as folding their concatenation |
| Aggregation.ProcessBatchWellFormed | src/process_sales.ts:88-105 | ProcessBatch: every bucket it leaves has count ≥ 1, finite min and max with min ≤ max, and its own year and month; the insertion order lists each key exactly once |
| Aggregation.FoldRecordCount | src/process_sales.ts:88-101 | FoldRecord: one record raises the total number of sales over all buckets by exactly one |
| Aggregation.ProcessBatchCount | src/process_sales.ts:82-107 | ProcessBatch, count conservation: a batch raises the total number of sales by exactly its length |
| Aggregation.AggregateMatchesReference | src/process_sales.ts:82-107 | ProcessBatch with AddSale, MaxBound and MinBound: after folding the records from an empty map, a bucket exists exactly for the keys that occur, and each holds the count, max, min, sum and sum of squares of its own records' totals |
| Aggregation.BucketStatistics | src/process_sales.ts:101-105 | the buckets AddSale, MaxBound and MinBound build: each bucket's count is the number of records with its key; every such record's total lies within [min, max]; both extremes are totals of such records; the sums are those records' sums |
| Aggregation.TotalsForMembership | src/process_sales.ts:84-88 | TotalsFor, the reference list of a key's totals: a total is among a key's totals exactly when some record with that key carries it |
| Aggregation.ValuesListsEveryBucket | src/process_sales.ts:110 | Values, which models Array.from(map.values()): for a well-formed aggregate there are as many values as buckets, and every bucket sits at its own key's position, so each bucket appears exactly once |
| Statistics.Largest | src/process_sales.ts:104 | the running Math.max is one of the totals and no total exceeds it |
| Statistics.Smallest | src/process_sales.ts:105 | the running Math.min is one of the totals and no total is below it |
| Statistics.SpreadIdentity | src/process_sales.ts:112 | n·Σt² − (Σt)² equals the sum of squared differences over all pairs of totals |
| Statistics.SpreadZero | src/process_sales.ts:112 | that spread is never negative, and it is zero exactly when all totals are equal |
| Statistics.SumBetweenExtremes | src/process_sales.ts:111 | n·min ≤ sum ≤ n·max |
| Batching.ReadRecords | src/process_sales.ts:53-64 | the 'readable' handler counts every record; the batches it folds are full, and those batches followed by the leftover buffer are the input in order; the buffer is never full on return |
| Batching.ProcessSalesData | src/process_sales.ts:53-69 | for every batch size, the driver returns the map of folding all records in order and counts every record; its batches are non-empty, are the input in order, and all but the last have exactly the capacity |
| Batching.FlattenConcat | src/process_sales.ts:55-62 | Flatten, the records of the flushed batches in order: flattening two lists of batches one after the other gives the two flattened inputs concatenated |
| Batching.BatchBoundaryInvariance | src/process_sales.ts:59-62 | folding any cut of the input batch by batch equals folding the whole input at once |
| Batching.ProcessSales | src/process_sales.ts:27-73 | with BATCH_SIZE the driver yields the single-fold map and counts all records |
| Report.FinalizeAllSales | src/process_sales.ts:110-124 | FinalizeAll, which models the .map over the values: the rows carry exactly as many sales as the buckets they come from |
| Report.InsertPermutation | src/process_sales.ts:126-131 | Insert: insertion adds exactly the one row to the multiset of rows |
| Report.SortRowsPermutation | src/process_sales.ts:126-131 | SortRows, which models records.sort with Compare: sorting returns a permutation of its input |
| Report.InsertAscending | src/process_sales.ts:126-131 | Insert with Compare: inserting a row with a new key into a strictly ascending sequence keeps it strictly ascending |
| Report.SortRowsAscending | src/process_sales.ts:126-131 | SortRows: sorting rows with distinct keys yields rows strictly ascending by year then month |
| Report.SortRowsSales | src/process_sales.ts:126-131 | SortRows: sorting keeps the total number of sales across the rows |
| Report.AscendingUnique | src/process_sales.ts:126-131 | two strictly ascending row sequences with the same elements are equal, so the sorted output is unique |
| Report.WriteAggregatedDataRows | src/process_sales.ts:109-131 | WriteAggregatedData: the report has exactly one row per bucket, each row is its bucket finalised, rows are strictly ascending, and the sales in the rows add up to the map's total |
| Report.WriteAggregatedDataDeterministic | src/process_sales.ts:110-131 | WriteAggregatedData: two aggregates with the same buckets but different insertion orders produce the same report |
| Report.FinalizeReference | src/process_sales.ts:111-112 | Finalize of the bucket of totals ts: min ≤ mean ≤ max, mean = Σts/\|ts\|, variance = Spread(ts)/\|ts\|² (the population variance), variance ≥ 0, variance = 0 exactly when all totals are equal, and a single sale has mean equal to its total and variance 0 |
| Report.VarianceIsSpread | src/process_sales.ts:111-112 | Finalize: the variance sumOfSquares/n − mean² of the bucket of totals ts equals Spread(ts)/\|ts\|², the sum of squared differences over all pairs divided by n², which is the population variance |
| Pipeline.SalesReportShape | src/process_sales.ts:66-131 | end to end: rows are strictly ascending, their sales add up to the number of records, there are no rows exactly when there are no records, a key has a row exactly when some record has it, and each row is the finalised reference bucket of its key |
| Pipeline.SalesReportRow | src/process_sales.ts:101-112 | per output row of SalesReport: the count of its key's records, min and max bound and are attained by those records' totals, min ≤ mean ≤ max, the variance is the population variance Spread/n² of those totals, is ≥ 0, and is zero exactly when they are all equal |
| Pipeline.ProcessSalesReport | src/process_sales.ts:29-73 | the driver followed by the report writer counts every record, writes strictly ascending rows whose sales add up to the input size, and writes a row for a key exactly when a record has it; the rows are SalesReport(records), so every per-row statistic of SalesReportShape and SalesReportRow holds for them |
| Pipeline.ReportIs | src/process_sales.ts:110-131 | a strictly ascending list covering every occurring key with each key's finalised reference bucket is the report |
| Pipeline.EmptyInputReport | test/process_sales.test.ts:81-96 | a header-only input produces no rows |
| Pipeline.SameMonthReport | test/process_sales.test.ts:98-126 | totals 100, 200, 300 in 2023-01 produce one row: 3 sales, max 300, min 100, mean 200, variance 20000/3 dollars² |
| Pipeline.MixedMonthsReport | test/process_sales.test.ts:31-79 | the six-record input produces exactly the rows 2022-12, 2023-01, 2023-02 in that order, with counts 1, 3, 2, extremes 50/50, 300/100, 250/150, means 50, 200, 200 and variances 0, 20000/3, 2500 dollars² |
| KeyText.DigitsRoundTrip | src/process_sales.ts:86 | Digits: the decimal text of a natural number reads back as that number |
| KeyText.NumberRoundTrip | src/process_sales.ts:86 | NumberText: the template-literal text of an integer (JavaScript uses this plain decimal form for magnitudes below 10^21, which covers every year `getFullYear` returns, at most 275760 in magnitude, and every month) starts with '-' exactly for negatives and reads back as that integer |
| KeyText.KeyTextInjective | src/process_sales.ts:86 | KeyText, the template literal `${year}-${month}`: for months ≥ 0, two (year, month) pairs have the same text key exactly when they are equal |
| KeyText.TextKeyGroupsLikePair | src/process_sales.ts:86-88 | KeyText against KeyOf: two records share a text key exactly when they share a (year, month) |

## Left out

- File streams, the `csv-parse` and `csv-stringify` libraries, and the `'readable'`/`'end'`/`'error'` event wiring with Promise resolution (src/process_sales.ts:35-51, 75-78, 133-149). These are I/O and callback plumbing over libraries outside this model. The driver takes the already parsed records as a sequence. A read or parse error therefore has no counterpart: such an error aborts the run before any row is written.
- Column casting with `parseInt`, `parseFloat` and `new Date`, plus `getFullYear`/`getMonth` (src/process_sales.ts:39-50, 84-85). These are host parsing that depends on the local time zone, and they pass `NaN` or an invalid date through. Records arrive with an integer year, an integer month and an integer total in cents.
- Floating-point arithmetic. Totals are exact cents, and mean and variance are exact rationals. Binary rounding of the running sums is not modelled.
- Report.FinalizeReference: proves the variance is never negative over exact rationals. The source works in doubles, where the variance of equal totals can round to a tiny negative number (three sales of 0.10 give about −1.7e-18). `Math.sqrt` then returns NaN, and the row's standard deviation is written as "NaN". That path is not modelled, because the model has no floating-point arithmetic.
- `Math.sqrt` and `toFixed(2)` (src/process_sales.ts:113, 119-122). Rows carry the variance. The standard deviation and its two-decimal text are not modelled. The test's "81.65" is √(20000/3) rounded, and "0.00" for single-sale buckets follows from `FinalizeReference` giving variance 0.
- CSV serialisation of the rows, with its header and quoting (src/process_sales.ts:133-144).
- `console.log`/`console.error`, the `require.main` CLI guard, and the input/output path constants. These are glue. `recordCount` is modelled only as a returned count.
- Report.WriteAggregatedData: accepts only well-formed aggregates: the insertion order lists exactly the map's keys with no duplicates, every bucket carries its own key, has at least one sale, has finite extremes, and has min ≤ max. The source accepts any map, but it only ever receives maps built by `processBatch`, and `ProcessBatchWellFormed` proves those are well-formed.
- KeyText.NumberText: always renders plain decimal digits. JavaScript switches to exponent form ("1e+21") at magnitudes of 10^21 and above, which no year or month from `getFullYear`/`getMonth` reaches, so that form is not modelled.
- Report.Finalize: requires a bucket with at least one sale and finite extremes. On a bucket with no sales the source would divide by zero and print NaN or ±Infinity, and such a bucket is never created.
