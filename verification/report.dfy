/**
 The pure part of the report writer: each bucket becomes one output row with
 its mean and population variance, and the rows are sorted ascending by year
 and then by month with the source's comparator.
 */
module Report {
  import opened Statistics
  import opened Aggregation

  /** One output row before number formatting; money in cents, moments as reals. */
  datatype Row = Row(
    year: int,
    month: int,
    numberOfSales: nat,
    maxTotal: int,
    minTotal: int,
    averageTotal: real,
    variance: real)

  function RowKey(x: Row): YearMonth
  {
    YearMonth(x.year, x.month)
  }

  /** A bucket the fold can have produced: at least one sale, finite extremes. */
  predicate Finalizable(b: Bucket)
  {
    b.numberOfSales >= 1 && b.maxTotal.Fin? && b.minTotal.Fin?
  }

  /** mean = sum / count and variance = sumOfSquares / count - mean^2. */
  function Finalize(b: Bucket): Row
    requires Finalizable(b)
  {
    var n := b.numberOfSales as real;
    var mean := b.sumTotal as real / n;
    var variance := b.sumOfSquares as real / n - mean * mean;
    Row(b.year, b.month, b.numberOfSales, b.maxTotal.value, b.minTotal.value, mean, variance)
  }

  function FinalizeAll(bs: seq<Bucket>): seq<Row>
    requires forall i :: 0 <= i < |bs| ==> Finalizable(bs[i])
  {
    seq(|bs|, i requires 0 <= i < |bs| => Finalize(bs[i]))
  }

  /** The sort comparator: negative when `x` goes first. */
  function Compare(x: Row, y: Row): int
  {
    if x.year != y.year then x.year - y.year else x.month - y.month
  }

  /** `x` comes strictly before `y` in chronological order. */
  predicate Before(x: Row, y: Row)
  {
    x.year < y.year || (x.year == y.year && x.month < y.month)
  }

  predicate StrictlyAscending(rows: seq<Row>)
  {
    forall i, j :: 0 <= i < j < |rows| ==> Before(rows[i], rows[j])
  }

  /** Some row carries the key `k`. */
  predicate HasRow(rows: seq<Row>, k: YearMonth)
  {
    exists i :: 0 <= i < |rows| && RowKey(rows[i]) == k
  }

  predicate DistinctKeys(rows: seq<Row>)
  {
    forall i, j :: 0 <= i < j < |rows| ==> RowKey(rows[i]) != RowKey(rows[j])
  }

  /** Inserts `x` in front of the first row it does not compare after. */
  function Insert(x: Row, rows: seq<Row>): seq<Row>
  {
    if |rows| == 0 then [x]
    else if Compare(x, rows[0]) <= 0 then [x] + rows
    else [rows[0]] + Insert(x, rows[1..])
  }

  /** Sorts rows with Compare, inserting each row into the sorted rest. */
  function SortRows(rows: seq<Row>): seq<Row>
  {
    if |rows| == 0 then []
    else Insert(rows[0], SortRows(rows[1..]))
  }

  /** Total number of sales over the rows. */
  function RowSales(rows: seq<Row>): nat
  {
    if |rows| == 0 then 0 else rows[0].numberOfSales + RowSales(rows[1..])
  }

  /** The rows of the report: finalised buckets in chronological order. */
  function WriteAggregatedData(a: Aggregate): seq<Row>
    requires WellFormed(a)
  {
    SortRows(FinalizeAll(Values(a)))
  }

  // ---------------------------------------------------------------------------
  // Sorting.

  /** Insertion adds exactly the one row. */
  lemma {:induction false} InsertPermutation(x: Row, rows: seq<Row>)
    ensures multiset(Insert(x, rows)) == multiset(rows) + multiset{x}
  {
    if |rows| > 0 && Compare(x, rows[0]) > 0 {
      InsertPermutation(x, rows[1..]);
      assert rows == [rows[0]] + rows[1..];
    }
  }

  /** Sorting returns a permutation of its input. */
  lemma {:induction false} SortRowsPermutation(rows: seq<Row>)
    ensures multiset(SortRows(rows)) == multiset(rows)
  {
    if |rows| > 0 {
      SortRowsPermutation(rows[1..]);
      InsertPermutation(rows[0], SortRows(rows[1..]));
      assert rows == [rows[0]] + rows[1..];
      assert multiset(rows) == multiset{rows[0]} + multiset(rows[1..]);
    }
  }

  lemma CompareBefore(x: Row, y: Row)
    requires RowKey(x) != RowKey(y)
    ensures Compare(x, y) <= 0 <==> Before(x, y)
    ensures Compare(x, y) > 0 <==> Before(y, x)
  {
  }

  lemma {:induction false} InsertSales(x: Row, rows: seq<Row>)
    ensures RowSales(Insert(x, rows)) == x.numberOfSales + RowSales(rows)
  {
    if |rows| > 0 {
      if Compare(x, rows[0]) <= 0 {
        assert ([x] + rows)[1..] == rows;
      } else {
        InsertSales(x, rows[1..]);
        assert ([rows[0]] + Insert(x, rows[1..]))[1..] == Insert(x, rows[1..]);
      }
    }
  }

  /** A row before every row of a strictly ascending sequence can lead it. */
  lemma PrependAscending(y: Row, rows: seq<Row>)
    requires StrictlyAscending(rows)
    requires forall z :: z in rows ==> Before(y, z)
    ensures StrictlyAscending([y] + rows)
  {
    var r := [y] + rows;
    forall i, j | 0 <= i < j < |r| ensures Before(r[i], r[j]) {
      assert r[j] == rows[j - 1];
      if i > 0 {
        assert r[i] == rows[i - 1];
      }
    }
  }

  lemma TailAscending(rows: seq<Row>)
    requires |rows| > 0 && StrictlyAscending(rows)
    ensures StrictlyAscending(rows[1..])
    ensures forall z :: z in rows[1..] ==> Before(rows[0], z)
  {
    var tail := rows[1..];
    forall i, j | 0 <= i < j < |tail| ensures Before(tail[i], tail[j]) {
      assert tail[i] == rows[i + 1] && tail[j] == rows[j + 1];
    }
  }

  /** Inserting a row with a new key into a strictly ascending sequence keeps it so. */
  lemma {:induction false} InsertAscending(x: Row, rows: seq<Row>)
    requires StrictlyAscending(rows)
    requires forall z :: z in rows ==> RowKey(z) != RowKey(x)
    ensures StrictlyAscending(Insert(x, rows))
  {
    if |rows| > 0 {
      CompareBefore(x, rows[0]);
      TailAscending(rows);
      var tail := rows[1..];
      if Compare(x, rows[0]) <= 0 {
        PrependAscending(x, rows);
      } else {
        InsertAscending(x, tail);
        var ins := Insert(x, tail);
        InsertPermutation(x, tail);
        forall y | y in ins ensures Before(rows[0], y) {
          assert y in multiset(ins);
        }
        PrependAscending(rows[0], ins);
      }
    }
  }

  /** Sorting keeps the total number of sales. */
  lemma {:induction false} SortRowsSales(rows: seq<Row>)
    ensures RowSales(SortRows(rows)) == RowSales(rows)
  {
    if |rows| > 0 {
      SortRowsSales(rows[1..]);
      InsertSales(rows[0], SortRows(rows[1..]));
    }
  }

  /** Sorting rows with pairwise distinct keys yields a strictly ascending sequence. */
  lemma {:induction false} SortRowsAscending(rows: seq<Row>)
    requires DistinctKeys(rows)
    ensures StrictlyAscending(SortRows(rows))
  {
    if |rows| > 0 {
      var tail := rows[1..];
      assert DistinctKeys(tail) by {
        forall i, j | 0 <= i < j < |tail| ensures RowKey(tail[i]) != RowKey(tail[j]) {
          assert tail[i] == rows[i + 1] && tail[j] == rows[j + 1];
        }
      }
      SortRowsAscending(tail);
      var sorted := SortRows(tail);
      SortRowsPermutation(tail);
      forall z | z in sorted ensures RowKey(z) != RowKey(rows[0]) {
        assert z in multiset(tail);
        var j :| 0 <= j < |tail| && tail[j] == z;
        assert rows[j + 1] == tail[j];
      }
      InsertAscending(rows[0], sorted);
    }
  }

  // ---------------------------------------------------------------------------
  // The report as a whole.

  lemma {:induction false} RowSalesSnoc(rows: seq<Row>, x: Row)
    ensures RowSales(rows + [x]) == RowSales(rows) + x.numberOfSales
  {
    if |rows| > 0 {
      assert (rows + [x])[1..] == rows[1..] + [x];
      RowSalesSnoc(rows[1..], x);
    }
  }

  lemma {:induction false} FinalizeAllSales(bs: seq<Bucket>)
    requires forall i :: 0 <= i < |bs| ==> Finalizable(bs[i])
    ensures RowSales(FinalizeAll(bs)) == SalesCount(bs)
  {
    if |bs| > 0 {
      var init := bs[..|bs| - 1];
      FinalizeAllSales(init);
      assert FinalizeAll(bs) == FinalizeAll(init) + [Finalize(bs[|bs| - 1])];
      RowSalesSnoc(FinalizeAll(init), Finalize(bs[|bs| - 1]));
    }
  }

  lemma UnsortedRows(a: Aggregate)
    requires WellFormed(a)
    ensures var unsorted := FinalizeAll(Values(a));
      && |unsorted| == |a.order| == |a.buckets|
      && (forall i :: 0 <= i < |unsorted| ==> RowKey(unsorted[i]) == a.order[i])
      && DistinctKeys(unsorted)
      && RowSales(unsorted) == SalesCount(Values(a))
  {
    FinalizeAllSales(Values(a));
    assert a.buckets.Keys == set k | k in a.order;
    DistinctCardinality(a.order);
    assert |a.buckets| == |a.buckets.Keys|;
  }

  /** Sorting keeps the length and the elements. */
  lemma SortRowsMembers(rows: seq<Row>)
    ensures |SortRows(rows)| == |rows|
    ensures forall x :: x in SortRows(rows) <==> x in rows
  {
    var r := SortRows(rows);
    SortRowsPermutation(rows);
    assert |r| == |multiset(r)| == |multiset(rows)| == |rows|;
    forall x ensures x in r <==> x in rows {
      assert x in r <==> x in multiset(r);
      assert x in rows <==> x in multiset(rows);
    }
  }

  /** Every bucket has a row. */
  lemma BucketsHaveRows(a: Aggregate)
    requires WellFormed(a)
    ensures forall k :: k in a.buckets ==> HasRow(WriteAggregatedData(a), k)
  {
    var unsorted := FinalizeAll(Values(a));
    var rows := SortRows(unsorted);
    SortRowsMembers(unsorted);
    forall k | k in a.buckets
      ensures HasRow(rows, k)
    {
      var j :| 0 <= j < |a.order| && a.order[j] == k;
      assert unsorted[j] == Finalize(a.buckets[k]);
      assert unsorted[j] in rows;
      var i :| 0 <= i < |rows| && rows[i] == unsorted[j];
      assert RowKey(rows[i]) == k;
    }
  }

  /** Every row is the finalised bucket of its own key. */
  lemma RowsAreFinalizedBuckets(a: Aggregate)
    requires WellFormed(a)
    ensures var rows := WriteAggregatedData(a);
      forall i :: 0 <= i < |rows| ==>
        RowKey(rows[i]) in a.buckets && rows[i] == Finalize(a.buckets[RowKey(rows[i])])
  {
    var unsorted := FinalizeAll(Values(a));
    var rows := SortRows(unsorted);
    UnsortedRows(a);
    SortRowsMembers(unsorted);
    forall i | 0 <= i < |rows|
      ensures RowKey(rows[i]) in a.buckets && rows[i] == Finalize(a.buckets[RowKey(rows[i])])
    {
      assert rows[i] in unsorted;
      var j :| 0 <= j < |unsorted| && unsorted[j] == rows[i];
    }
  }

  /**
   The report has exactly one row per bucket, each row finalises its own
   bucket, the rows are strictly ascending by (year, month), and their sales
   add up to the aggregate's total.
   */
  lemma WriteAggregatedDataRows(a: Aggregate)
    requires WellFormed(a)
    ensures var rows := WriteAggregatedData(a);
      && StrictlyAscending(rows)
      && |rows| == |a.buckets|
      && (forall k :: k in a.buckets <==> HasRow(rows, k))
      && (forall i :: 0 <= i < |rows| ==>
            RowKey(rows[i]) in a.buckets && rows[i] == Finalize(a.buckets[RowKey(rows[i])]))
      && RowSales(rows) == SalesCount(Values(a))
  {
    var unsorted := FinalizeAll(Values(a));
    UnsortedRows(a);
    SortRowsAscending(unsorted);
    SortRowsSales(unsorted);
    SortRowsMembers(unsorted);
    BucketsHaveRows(a);
    RowsAreFinalizedBuckets(a);
  }

  /** Two strictly ascending sequences with the same elements are equal. */
  lemma {:induction false} AscendingUnique(x: seq<Row>, y: seq<Row>)
    requires StrictlyAscending(x) && StrictlyAscending(y)
    requires forall z :: z in x <==> z in y
    ensures x == y
    decreases |x|
  {
    if |x| > 0 {
      assert x[0] in y;
      assert |y| > 0;
      assert y[0] in x;
      TailAscending(x);
      TailAscending(y);
      assert x[0] == y[0] by {
        FirstIsLeast(x, y[0]);
        FirstIsLeast(y, x[0]);
      }
      forall z ensures z in x[1..] <==> z in y[1..] {
        if z in x[1..] {
          assert Before(x[0], z);
          assert z in y && z != y[0];
          var i :| 0 <= i < |y| && y[i] == z;
          assert y[1..][i - 1] == z;
        }
        if z in y[1..] {
          assert Before(y[0], z);
          assert z in x && z != x[0];
          var i :| 0 <= i < |x| && x[i] == z;
          assert x[1..][i - 1] == z;
        }
      }
      AscendingUnique(x[1..], y[1..]);
      assert x == [x[0]] + x[1..];
      assert y == [y[0]] + y[1..];
    } else if |y| > 0 {
      HeadIsMember(y);
      assert false;
    }
  }

  /** The first element of a non-empty sequence is one of its members. */
  lemma HeadIsMember(y: seq<Row>)
    ensures |y| > 0 ==> y[0] in y
  {
  }

  lemma FirstIsLeast(x: seq<Row>, z: Row)
    requires StrictlyAscending(x) && z in x
    ensures z == x[0] || Before(x[0], z)
  {
    var i :| 0 <= i < |x| && x[i] == z;
  }

  lemma RowsOfSameBuckets(a: Aggregate, b: Aggregate, z: Row)
    requires WellFormed(a) && WellFormed(b)
    requires a.buckets == b.buckets
    requires z in WriteAggregatedData(a)
    ensures z in WriteAggregatedData(b)
  {
    var ra, rb := WriteAggregatedData(a), WriteAggregatedData(b);
    WriteAggregatedDataRows(a);
    WriteAggregatedDataRows(b);
    var i :| 0 <= i < |ra| && ra[i] == z;
    assert HasRow(rb, RowKey(z));
    var j :| 0 <= j < |rb| && RowKey(rb[j]) == RowKey(z);
  }

  /**
   The report does not depend on the order in which the buckets were
   created: aggregates with the same buckets give the same rows.
   */
  lemma WriteAggregatedDataDeterministic(a: Aggregate, b: Aggregate)
    requires WellFormed(a) && WellFormed(b)
    requires a.buckets == b.buckets
    ensures WriteAggregatedData(a) == WriteAggregatedData(b)
  {
    var ra, rb := WriteAggregatedData(a), WriteAggregatedData(b);
    WriteAggregatedDataRows(a);
    WriteAggregatedDataRows(b);
    forall z | z in ra ensures z in rb {
      RowsOfSameBuckets(a, b, z);
    }
    forall z | z in rb ensures z in ra {
      RowsOfSameBuckets(b, a, z);
    }
    AscendingUnique(ra, rb);
  }

  // ---------------------------------------------------------------------------
  // Mean and variance.

  lemma VarianceFormula(n: int, s: int, q: int)
    requires n >= 1
    ensures q as real / n as real - (s as real / n as real) * (s as real / n as real)
         == (n * q - s * s) as real / (n * n) as real
  {
    var N, S, Q := n as real, s as real, q as real;
    assert (S / N) * (S / N) == (S * S) / (N * N);
    assert Q / N == (N * Q) / (N * N);
    assert (n * q - s * s) as real == N * Q - S * S;
    assert (n * n) as real == N * N;
  }

  lemma MeanBetween(n: int, s: int, lo: int, hi: int)
    requires n >= 1
    requires n * lo <= s <= n * hi
    ensures lo as real <= s as real / n as real <= hi as real
  {
    var N := n as real;
    assert N * lo as real <= s as real <= N * hi as real;
    assert (N * lo as real) / N == lo as real;
    assert (N * hi as real) / N == hi as real;
  }

  /**
   The row of a bucket holding the totals `ts`: the mean lies between the
   minimum and the maximum, the variance is never negative, and it is zero
   exactly when all totals are equal (in particular for a single sale).
   */
  lemma FinalizeReference(k: YearMonth, ts: seq<int>)
    requires |ts| > 0
    ensures var row := Finalize(ReferenceBucket(k, ts));
      && row.minTotal as real <= row.averageTotal <= row.maxTotal as real
      && row.averageTotal == Sum(ts) as real / |ts| as real
      && row.variance >= 0.0
      && (row.variance == 0.0 <==> AllEqual(ts))
      && row.variance == Spread(ts) as real / Sq(|ts|) as real
      && (|ts| == 1 ==> row.averageTotal == ts[0] as real && row.variance == 0.0)
  {
    var b := ReferenceBucket(k, ts);
    var row := Finalize(b);
    var n, s, q := |ts|, Sum(ts), SumSquares(ts);
    assert b.numberOfSales == n && b.sumTotal == s && b.sumOfSquares == q;
    assert n * q - s * s == Spread(ts) by {
      SpreadIdentity(ts);
    }
    SpreadZero(ts);
    SumBetweenExtremes(ts);
    RowMoments(b);
    VarianceIsSpread(k, ts);
    if |ts| == 1 {
      assert ts[..0] == [];
      assert AllEqual(ts);
      assert ts[0] as real / 1 as real == ts[0] as real;
    }
  }

  /**
   The row's variance is the population variance of its totals: the sum of
   squared differences over all pairs, divided by the squared count.
   */
  lemma VarianceIsSpread(k: YearMonth, ts: seq<int>)
    requires |ts| > 0
    ensures Finalize(ReferenceBucket(k, ts)).variance == Spread(ts) as real / Sq(|ts|) as real
  {
    var b := ReferenceBucket(k, ts);
    FinalizeVariance(b);
    SpreadIdentity(ts);
    assert b.numberOfSales * b.sumOfSquares - b.sumTotal * b.sumTotal == Spread(ts);
  }

  /** The variance of a row is (n·sumOfSquares − sum²) / n². */
  lemma FinalizeVariance(b: Bucket)
    requires Finalizable(b)
    ensures Finalize(b).variance
         == (b.numberOfSales * b.sumOfSquares - b.sumTotal * b.sumTotal) as real / Sq(b.numberOfSales) as real
  {
    VarianceFormula(b.numberOfSales, b.sumTotal, b.sumOfSquares);
  }

  /** The moments of a row, given the count, extremes and sums of its bucket. */
  lemma RowMoments(b: Bucket)
    requires Finalizable(b)
    requires b.numberOfSales * b.minTotal.value <= b.sumTotal <= b.numberOfSales * b.maxTotal.value
    requires b.numberOfSales * b.sumOfSquares - b.sumTotal * b.sumTotal >= 0
    ensures var row := Finalize(b);
      && row.minTotal as real <= row.averageTotal <= row.maxTotal as real
      && row.variance >= 0.0
      && (row.variance == 0.0 <==> b.numberOfSales * b.sumOfSquares - b.sumTotal * b.sumTotal == 0)
  {
    var n, s, q := b.numberOfSales, b.sumTotal, b.sumOfSquares;
    MeanBetween(n, s, b.minTotal.value, b.maxTotal.value);
    VarianceSign(n, s, q);
  }

  lemma VarianceSign(n: int, s: int, q: int)
    requires n >= 1 && n * q - s * s >= 0
    ensures var v := q as real / n as real - (s as real / n as real) * (s as real / n as real);
      && v >= 0.0
      && (v == 0.0 <==> n * q - s * s == 0)
  {
    VarianceFormula(n, s, q);
    var num, den := (n * q - s * s) as real, (n * n) as real;
    assert den > 0.0;
    assert num / den >= 0.0;
    assert num / den == 0.0 <==> num == 0.0;
  }
}
