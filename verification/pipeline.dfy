/**
 The whole report over a finite input: records are folded into buckets and
 the buckets are finalised and sorted. Batching does not enter here, since
 the driver's result equals the single fold whatever the batch size.
 */
module Pipeline {
  import opened Statistics
  import opened Aggregation
  import opened Batching
  import opened Report

  /** The rows written for the given records. */
  function SalesReport(records: seq<Record>): seq<Row>
  {
    ProcessBatchWellFormed(EmptyAggregate, records);
    WriteAggregatedData(ProcessBatch(EmptyAggregate, records))
  }

  /** The driver followed by the report writer, with the source's batch size. */
  method ProcessSalesReport(records: seq<Record>) returns (rows: seq<Row>, recordCount: nat)
    ensures recordCount == |records|
    ensures StrictlyAscending(rows)
    ensures RowSales(rows) == |records|
    ensures |rows| == 0 <==> |records| == 0
    ensures forall k :: HasRow(rows, k) <==> HasRecord(records, k)
    ensures rows == SalesReport(records)
  {
    var a;
    a, recordCount := ProcessSales(records);
    ProcessBatchWellFormed(EmptyAggregate, records);
    rows := WriteAggregatedData(a);
    assert rows == SalesReport(records);
    SalesReportShape(records);
  }

  /** Some record has key `k` exactly when the key's totals are non-empty. */
  lemma KeyPresent(rs: seq<Record>, k: YearMonth)
    ensures HasRecord(rs, k) <==> |TotalsFor(rs, k)| > 0
  {
    if HasRecord(rs, k) {
      var j :| 0 <= j < |rs| && KeyOf(rs[j]) == k;
      TotalsForMembership(rs, k, rs[j].total);
    }
    if |TotalsFor(rs, k)| > 0 {
      TotalsForMembership(rs, k, TotalsFor(rs, k)[0]);
    }
  }

  /**
   One row per distinct (year, month) of the input, strictly ascending, with
   the sales adding up to the number of records; no rows exactly for no
   records; every row is the finalised reference bucket of its key.
   */
  lemma SalesReportShape(rs: seq<Record>)
    ensures var rows := SalesReport(rs);
      && StrictlyAscending(rows)
      && RowSales(rows) == |rs|
      && (|rows| == 0 <==> |rs| == 0)
      && (forall k :: HasRow(rows, k) <==> HasRecord(rs, k))
      && (forall i :: 0 <= i < |rows| ==>
            |TotalsFor(rs, RowKey(rows[i]))| > 0
            && rows[i] == Finalize(ReferenceBucket(RowKey(rows[i]), TotalsFor(rs, RowKey(rows[i])))))
  {
    var a := ProcessBatch(EmptyAggregate, rs);
    var rows := SalesReport(rs);
    ProcessBatchWellFormed(EmptyAggregate, rs);
    assert rows == WriteAggregatedData(a);
    WriteAggregatedDataRows(a);
    assert RowSales(rows) == |rs| by {
      ProcessBatchCount(EmptyAggregate, rs);
      assert SalesCount(Values(EmptyAggregate)) == 0;
    }
    AggregateMatchesReference(rs);
    forall k ensures HasRecord(rs, k) <==> k in a.buckets {
      KeyPresent(rs, k);
    }
    assert |rs| > 0 ==> HasRow(rows, KeyOf(rs[0])) by {
      if |rs| > 0 {
        assert HasRecord(rs, KeyOf(rs[0]));
      }
    }
  }

  /**
   The statistics of one output row in terms of the records of its key: the
   count, the extremes bounding and attained by those records' totals, the
   mean between them, and a variance that is the population variance of
   those totals, never negative, and zero exactly when they are all equal.
   */
  lemma SalesReportRow(rs: seq<Record>, i: nat)
    requires i < |SalesReport(rs)|
    ensures var row := SalesReport(rs)[i];
      && row.numberOfSales == |TotalsFor(rs, RowKey(row))| >= 1
      && (forall j :: 0 <= j < |rs| && KeyOf(rs[j]) == RowKey(row) ==>
            row.minTotal <= rs[j].total <= row.maxTotal)
      && (exists j :: 0 <= j < |rs| && KeyOf(rs[j]) == RowKey(row) && rs[j].total == row.maxTotal)
      && (exists j :: 0 <= j < |rs| && KeyOf(rs[j]) == RowKey(row) && rs[j].total == row.minTotal)
      && row.minTotal as real <= row.averageTotal <= row.maxTotal as real
      && row.variance >= 0.0
      && row.variance == Spread(TotalsFor(rs, RowKey(row))) as real / Sq(row.numberOfSales) as real
      && (row.variance == 0.0 <==>
            forall j1, j2 :: 0 <= j1 < |rs| && 0 <= j2 < |rs|
              && KeyOf(rs[j1]) == RowKey(row) && KeyOf(rs[j2]) == RowKey(row)
              ==> rs[j1].total == rs[j2].total)
  {
    var row := SalesReport(rs)[i];
    var k := RowKey(row);
    SalesReportShape(rs);
    var ts := TotalsFor(rs, k);
    AggregateMatchesReference(rs);
    BucketStatistics(rs, k);
    FinalizeReference(k, ts);
    if AllEqual(ts) {
      forall j1, j2 | 0 <= j1 < |rs| && 0 <= j2 < |rs| && KeyOf(rs[j1]) == k && KeyOf(rs[j2]) == k
        ensures rs[j1].total == rs[j2].total
      {
        TotalsForMembership(rs, k, rs[j1].total);
        TotalsForMembership(rs, k, rs[j2].total);
      }
    } else {
      var p, q :| 0 <= p < |ts| && 0 <= q < |ts| && ts[p] != ts[q];
      TotalsForMembership(rs, k, ts[p]);
      TotalsForMembership(rs, k, ts[q]);
    }
  }

  // ---------------------------------------------------------------------------
  // The scenarios of the repository's test suite, totals in cents.

  /** A header-only file produces no rows. */
  lemma EmptyInputReport()
    ensures SalesReport([]) == []
  {
    SalesReportShape([]);
  }

  /**
   The rows for the records are exactly `expected` when `expected` is
   strictly ascending, lists one row per key that occurs in the records,
   and each of its rows is the finalised reference bucket of its key.
   */
  lemma ReportIs(rs: seq<Record>, expected: seq<Row>)
    requires StrictlyAscending(expected)
    requires forall k :: HasRecord(rs, k) ==> HasRow(expected, k)
    requires forall e :: e in expected ==>
      |TotalsFor(rs, RowKey(e))| > 0 && e == Finalize(ReferenceBucket(RowKey(e), TotalsFor(rs, RowKey(e))))
    ensures SalesReport(rs) == expected
  {
    var rows := SalesReport(rs);
    SalesReportShape(rs);
    forall z | z in rows ensures z in expected {
      var i :| 0 <= i < |rows| && rows[i] == z;
      assert HasRow(rows, RowKey(z));
      var j :| 0 <= j < |expected| && RowKey(expected[j]) == RowKey(z);
    }
    forall e | e in expected ensures e in rows {
      KeyPresent(rs, RowKey(e));
      var i :| 0 <= i < |rows| && RowKey(rows[i]) == RowKey(e);
    }
    AscendingUnique(rows, expected);
  }

  /** Three sales in 2023-01 give one row: 3 sales, max 300.00, min 100.00, mean 200.00. */
  lemma SameMonthReport(rs: seq<Record>)
    requires rs == [Record(2023, 1, 10000), Record(2023, 1, 20000), Record(2023, 1, 30000)]
    ensures SalesReport(rs) == [Row(2023, 1, 3, 30000, 10000, 20000.0, 200000000.0 / 3.0)]
  {
    var jan := YearMonth(2023, 1);
    var r0, r1, r2 := rs[0], rs[1], rs[2];
    assert rs == [] + [r0] + [r1] + [r2];
    TotalsForSnoc([], r0, jan);
    TotalsForSnoc([r0], r1, jan);
    TotalsForSnoc([r0, r1], r2, jan);
    assert [r0] == [] + [r0] && [r0, r1] == [r0] + [r1];
    var ts := TotalsFor(rs, jan);
    assert ts == [10000, 20000, 30000];
    JanuaryRow(ts);
    var expected := [Row(2023, 1, 3, 30000, 10000, 20000.0, 200000000.0 / 3.0)];
    forall k | HasRecord(rs, k) ensures HasRow(expected, k) {
      var j :| 0 <= j < |rs| && KeyOf(rs[j]) == k;
      assert k == jan && RowKey(expected[0]) == k;
    }
    ReportIs(rs, [Row(2023, 1, 3, 30000, 10000, 20000.0, 200000000.0 / 3.0)]);
  }

  lemma JanuaryRow(ts: seq<int>)
    requires ts == [10000, 20000, 30000]
    ensures Finalize(ReferenceBucket(YearMonth(2023, 1), ts))
         == Row(2023, 1, 3, 30000, 10000, 20000.0, 200000000.0 / 3.0)
  {
    assert ts[..2] == [10000, 20000] && ts[..2][..1] == [10000] && ts[..2][..1][..0] == [];
    assert Sum(ts[..2][..1]) == 10000 && SumSquares(ts[..2][..1]) == 100000000;
    assert Sum(ts[..2]) == 30000 && SumSquares(ts[..2]) == 500000000;
    assert Sum(ts) == 60000 && SumSquares(ts) == 1400000000;
    assert Largest(ts) == 30000 && Smallest(ts) == 10000;
    assert 60000.0 / 3.0 == 20000.0;
    assert 1400000000.0 / 3.0 - 20000.0 * 20000.0 == 200000000.0 / 3.0;
  }

  lemma FebruaryRow(ts: seq<int>)
    requires ts == [15000, 25000]
    ensures Finalize(ReferenceBucket(YearMonth(2023, 2), ts))
         == Row(2023, 2, 2, 25000, 15000, 20000.0, 25000000.0)
  {
    assert ts[..1] == [15000] && ts[..1][..0] == [];
    assert Sum(ts[..1]) == 15000 && SumSquares(ts[..1]) == 225000000;
    assert Sum(ts) == 40000 && SumSquares(ts) == 850000000;
    assert Largest(ts) == 25000 && Smallest(ts) == 15000;
    assert 40000.0 / 2.0 == 20000.0;
    assert 850000000.0 / 2.0 - 20000.0 * 20000.0 == 25000000.0;
  }

  lemma DecemberRow(ts: seq<int>)
    requires ts == [5000]
    ensures Finalize(ReferenceBucket(YearMonth(2022, 12), ts))
         == Row(2022, 12, 1, 5000, 5000, 5000.0, 0.0)
  {
    assert ts[..0] == [];
    assert Sum(ts) == 5000 && SumSquares(ts) == 25000000;
    assert Largest(ts) == 5000 && Smallest(ts) == 5000;
    assert 5000.0 / 1.0 == 5000.0;
    assert 25000000.0 / 1.0 - 5000.0 * 5000.0 == 0.0;
  }

  /** The six records of the mixed-months scenario, totals in cents. */
  predicate IsMixedMonths(rs: seq<Record>)
  {
    rs == [
      Record(2023, 1, 10000), Record(2023, 1, 20000), Record(2023, 2, 15000),
      Record(2023, 2, 25000), Record(2022, 12, 5000), Record(2023, 1, 30000)]
  }

  /** The totals each month of the mixed-months scenario collects, in input order. */
  lemma MixedMonthsTotals(rs: seq<Record>, k: YearMonth)
    requires IsMixedMonths(rs)
    ensures TotalsFor(rs, k)
         == if k == YearMonth(2022, 12) then [5000]
            else if k == YearMonth(2023, 1) then [10000, 20000, 30000]
            else if k == YearMonth(2023, 2) then [15000, 25000]
            else []
  {
    var r0, r1, r2, r3, r4, r5 := rs[0], rs[1], rs[2], rs[3], rs[4], rs[5];
    assert rs == [r0, r1, r2, r3, r4] + [r5];
    assert [r0, r1, r2, r3, r4] == [r0, r1, r2, r3] + [r4];
    assert [r0, r1, r2, r3] == [r0, r1, r2] + [r3];
    assert [r0, r1, r2] == [r0, r1] + [r2];
    assert [r0, r1] == [r0] + [r1];
    assert [r0] == [] + [r0];
    TotalsForSnoc([], r0, k);
    TotalsForSnoc([r0], r1, k);
    TotalsForSnoc([r0, r1], r2, k);
    TotalsForSnoc([r0, r1, r2], r3, k);
    TotalsForSnoc([r0, r1, r2, r3], r4, k);
    TotalsForSnoc([r0, r1, r2, r3, r4], r5, k);
  }

  /**
   The six-record scenario: rows for 2022-12, 2023-01 and 2023-02 in that
   order, with 1, 3 and 2 sales, the extremes 50/50, 300/100 and 250/150,
   means 50, 200 and 200, and variances 0, 20000/3 and 2500 (in dollars).
   */
  lemma MixedMonthsReport(rs: seq<Record>)
    requires IsMixedMonths(rs)
    ensures SalesReport(rs) == [
      Row(2022, 12, 1, 5000, 5000, 5000.0, 0.0),
      Row(2023, 1, 3, 30000, 10000, 20000.0, 200000000.0 / 3.0),
      Row(2023, 2, 2, 25000, 15000, 20000.0, 25000000.0)]
  {
    var dec, jan, feb := YearMonth(2022, 12), YearMonth(2023, 1), YearMonth(2023, 2);
    var expected := [
      Row(2022, 12, 1, 5000, 5000, 5000.0, 0.0),
      Row(2023, 1, 3, 30000, 10000, 20000.0, 200000000.0 / 3.0),
      Row(2023, 2, 2, 25000, 15000, 20000.0, 25000000.0)];
    assert StrictlyAscending(expected);
    forall e | e in expected
      ensures |TotalsFor(rs, RowKey(e))| > 0
      ensures e == Finalize(ReferenceBucket(RowKey(e), TotalsFor(rs, RowKey(e))))
    {
      MixedMonthsTotals(rs, RowKey(e));
      if e == expected[0] {
        DecemberRow(TotalsFor(rs, dec));
      } else if e == expected[1] {
        JanuaryRow(TotalsFor(rs, jan));
      } else {
        FebruaryRow(TotalsFor(rs, feb));
      }
    }
    forall k | HasRecord(rs, k) ensures HasRow(expected, k) {
      KeyPresent(rs, k);
      MixedMonthsTotals(rs, k);
      if k == dec { assert RowKey(expected[0]) == k; }
      else if k == jan { assert RowKey(expected[1]) == k; }
      else { assert RowKey(expected[2]) == k; }
    }
    ReportIs(rs, expected);
  }
}
