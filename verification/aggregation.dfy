/**
 The grouping step of the sales report: every sale record is folded into the
 running-statistics bucket of its (year, month), creating the bucket on first
 sight. The aggregate keeps the JavaScript Map's insertion order next to the
 key-to-bucket mapping, because the report reads the buckets in that order.
 */
module Aggregation {
  import opened Statistics

  /** One input row after column casting; `total` is in integer cents. */
  datatype Record = Record(year: int, month: int, total: int)

  /** The grouping key: calendar year and 1-based month. */
  datatype YearMonth = YearMonth(year: int, month: int)

  /** A running extremum, which starts out at minus or plus infinity. */
  datatype Bound = NegInf | Fin(value: int) | PosInf

  /** Running statistics for one (year, month). */
  datatype Bucket = Bucket(
    year: int,
    month: int,
    numberOfSales: nat,
    maxTotal: Bound,
    minTotal: Bound,
    sumTotal: int,
    sumOfSquares: int)

  /** Buckets by key, plus the keys in the order their buckets were created. */
  datatype Aggregate = Aggregate(buckets: map<YearMonth, Bucket>, order: seq<YearMonth>)

  const EmptyAggregate := Aggregate(map[], [])

  function KeyOf(r: Record): YearMonth
  {
    YearMonth(r.year, r.month)
  }

  /** Math.max with a finite second argument. */
  function MaxBound(b: Bound, t: int): Bound
  {
    match b
    case NegInf => Fin(t)
    case Fin(v) => if v < t then Fin(t) else Fin(v)
    case PosInf => PosInf
  }

  /** Math.min with a finite second argument. */
  function MinBound(b: Bound, t: int): Bound
  {
    match b
    case NegInf => NegInf
    case Fin(v) => if t < v then Fin(t) else Fin(v)
    case PosInf => Fin(t)
  }

  /** The bucket created for a key seen for the first time. */
  function NewBucket(k: YearMonth): Bucket
  {
    Bucket(k.year, k.month, 0, NegInf, PosInf, 0, 0)
  }

  /** Folds one total into a bucket. */
  function AddSale(b: Bucket, t: int): Bucket
  {
    b.(numberOfSales := b.numberOfSales + 1,
       sumTotal := b.sumTotal + t,
       sumOfSquares := b.sumOfSquares + t * t,
       maxTotal := MaxBound(b.maxTotal, t),
       minTotal := MinBound(b.minTotal, t))
  }

  /**
   Folds one record: its bucket (created if absent) gains one sale and no
   other bucket changes.
   */
  function FoldRecord(a: Aggregate, r: Record): (a': Aggregate)
    ensures a'.buckets.Keys == a.buckets.Keys + {KeyOf(r)}
    ensures a'.buckets[KeyOf(r)].numberOfSales
         == (if KeyOf(r) in a.buckets then a.buckets[KeyOf(r)].numberOfSales else 0) + 1
    ensures forall k :: k in a.buckets && k != KeyOf(r) ==> a'.buckets[k] == a.buckets[k]
  {
    var k := KeyOf(r);
    var a1 := if k in a.buckets then a else Aggregate(a.buckets[k := NewBucket(k)], a.order + [k]);
    a1.(buckets := a1.buckets[k := AddSale(a1.buckets[k], r.total)])
  }

  /** Folds a batch of records in order. */
  function ProcessBatch(a: Aggregate, batch: seq<Record>): Aggregate
    decreases |batch|
  {
    if |batch| == 0 then a else ProcessBatch(FoldRecord(a, batch[0]), batch[1..])
  }

  /** Folding two batches one after the other equals folding their concatenation. */
  lemma {:induction false} ProcessBatchConcat(a: Aggregate, xs: seq<Record>, ys: seq<Record>)
    ensures ProcessBatch(ProcessBatch(a, xs), ys) == ProcessBatch(a, xs + ys)
    decreases |xs|
  {
    if |xs| > 0 {
      ProcessBatchConcat(FoldRecord(a, xs[0]), xs[1..], ys);
      var zs := xs + ys;
      assert zs[0] == xs[0] && zs[1..] == xs[1..] + ys;
      assert ProcessBatch(a, zs) == ProcessBatch(FoldRecord(a, xs[0]), xs[1..] + ys);
    } else {
      assert xs + ys == ys;
    }
  }

  /** Folding a batch extended by one record folds that record last. */
  lemma ProcessBatchSnoc(a: Aggregate, rs: seq<Record>, r: Record)
    ensures ProcessBatch(a, rs + [r]) == FoldRecord(ProcessBatch(a, rs), r)
  {
    ProcessBatchConcat(a, rs, [r]);
    assert ProcessBatch(ProcessBatch(a, rs), [r])
        == ProcessBatch(FoldRecord(ProcessBatch(a, rs), r), []);
  }

  // ---------------------------------------------------------------------------
  // Well-formedness: what every aggregate built by the fold satisfies.

  /** A bucket as the fold leaves it: keyed correctly, non-empty, finite extremes. */
  predicate BucketInvariant(k: YearMonth, b: Bucket)
  {
    && b.year == k.year && b.month == k.month
    && b.numberOfSales >= 1
    && b.maxTotal.Fin? && b.minTotal.Fin?
    && b.minTotal.value <= b.maxTotal.value
  }

  predicate NoDuplicates(ks: seq<YearMonth>)
  {
    forall i, j :: 0 <= i < j < |ks| ==> ks[i] != ks[j]
  }

  ghost predicate WellFormed(a: Aggregate)
  {
    && NoDuplicates(a.order)
    && (forall k :: k in a.buckets <==> k in a.order)
    && (forall k :: k in a.buckets ==> BucketInvariant(k, a.buckets[k]))
  }

  lemma FoldRecordWellFormed(a: Aggregate, r: Record)
    requires WellFormed(a)
    ensures WellFormed(FoldRecord(a, r))
  {
    var k := KeyOf(r);
    var a' := FoldRecord(a, r);
    if k in a.buckets {
      assert a'.order == a.order;
    } else {
      assert a'.order == a.order + [k];
      assert forall k' :: k' in a'.order <==> k' in a.order || k' == k;
    }
  }

  lemma {:induction false} ProcessBatchWellFormed(a: Aggregate, batch: seq<Record>)
    requires WellFormed(a)
    ensures WellFormed(ProcessBatch(a, batch))
    decreases |batch|
  {
    if |batch| > 0 {
      FoldRecordWellFormed(a, batch[0]);
      ProcessBatchWellFormed(FoldRecord(a, batch[0]), batch[1..]);
    }
  }

  // ---------------------------------------------------------------------------
  // Count conservation over the buckets in insertion order.

  /** The buckets in insertion order, as Array.from(map.values()) yields them. */
  function Values(a: Aggregate): seq<Bucket>
    requires forall i :: 0 <= i < |a.order| ==> a.order[i] in a.buckets
  {
    seq(|a.order|, i requires 0 <= i < |a.order| => a.buckets[a.order[i]])
  }

  /** A key order without duplicates has as many distinct keys as positions. */
  lemma {:induction false} DistinctCardinality(ks: seq<YearMonth>)
    requires NoDuplicates(ks)
    ensures |set k | k in ks| == |ks|
  {
    if |ks| > 0 {
      var init := ks[..|ks| - 1];
      DistinctCardinality(init);
      assert (set k | k in ks) == (set k | k in init) + {ks[|ks| - 1]};
      assert ks[|ks| - 1] !in init;
    }
  }

  /**
   Array.from(map.values()) of a well-formed aggregate lists every bucket of
   the map, and each exactly once: there are as many values as keys, and
   every key's bucket sits at that key's position.
   */
  lemma ValuesListsEveryBucket(a: Aggregate)
    requires WellFormed(a)
    ensures |Values(a)| == |a.buckets|
    ensures forall k :: k in a.buckets ==>
      exists i :: 0 <= i < |Values(a)| && a.order[i] == k && Values(a)[i] == a.buckets[k]
  {
    DistinctCardinality(a.order);
    assert a.buckets.Keys == set k | k in a.order;
    assert |a.buckets| == |a.buckets.Keys|;
    forall k | k in a.buckets
      ensures exists i :: 0 <= i < |Values(a)| && a.order[i] == k && Values(a)[i] == a.buckets[k]
    {
      var i :| 0 <= i < |a.order| && a.order[i] == k;
      assert Values(a)[i] == a.buckets[k];
    }
  }

  /** Total number of sales recorded across a sequence of buckets. */
  function SalesCount(bs: seq<Bucket>): nat
  {
    if |bs| == 0 then 0 else SalesCount(bs[..|bs| - 1]) + bs[|bs| - 1].numberOfSales
  }

  lemma {:induction false} SalesCountUpdate(bs: seq<Bucket>, i: nat, b: Bucket)
    requires i < |bs|
    ensures SalesCount(bs[i := b]) == SalesCount(bs) - bs[i].numberOfSales + b.numberOfSales
  {
    var n := |bs|;
    if i == n - 1 {
      assert bs[i := b][..n - 1] == bs[..n - 1];
    } else {
      assert bs[i := b][..n - 1] == bs[..n - 1][i := b];
      SalesCountUpdate(bs[..n - 1], i, b);
    }
  }

  /** Replacing the bucket of a key already present replaces its value in place. */
  lemma ValuesReplace(a: Aggregate, i: nat, b: Bucket)
    requires forall j :: 0 <= j < |a.order| ==> a.order[j] in a.buckets
    requires NoDuplicates(a.order) && i < |a.order|
    ensures Values(Aggregate(a.buckets[a.order[i] := b], a.order)) == Values(a)[i := b]
  {
    var a' := Aggregate(a.buckets[a.order[i] := b], a.order);
    forall j | 0 <= j < |a.order| ensures Values(a')[j] == Values(a)[i := b][j] {
      if j != i {
        assert a.order[j] != a.order[i];
      }
    }
  }

  /** Adding the bucket of a new key appends its value. */
  lemma ValuesAppend(a: Aggregate, k: YearMonth, b: Bucket)
    requires forall j :: 0 <= j < |a.order| ==> a.order[j] in a.buckets
    requires k !in a.order
    ensures Values(Aggregate(a.buckets[k := b], a.order + [k])) == Values(a) + [b]
  {
    var a' := Aggregate(a.buckets[k := b], a.order + [k]);
    forall j | 0 <= j < |a'.order| ensures Values(a')[j] == (Values(a) + [b])[j] {
      if j < |a.order| {
        assert a.order[j] != k;
      }
    }
  }

  /** Storing bucket `b` under `k` changes the total by the difference in sales. */
  lemma SalesCountPut(a: Aggregate, k: YearMonth, b: Bucket)
    requires forall j :: 0 <= j < |a.order| ==> a.order[j] in a.buckets
    requires NoDuplicates(a.order)
    requires k in a.buckets <==> k in a.order
    ensures k in a.buckets ==>
      SalesCount(Values(Aggregate(a.buckets[k := b], a.order)))
        == SalesCount(Values(a)) - a.buckets[k].numberOfSales + b.numberOfSales
    ensures k !in a.buckets ==>
      SalesCount(Values(Aggregate(a.buckets[k := b], a.order + [k])))
        == SalesCount(Values(a)) + b.numberOfSales
  {
    if k in a.buckets {
      var i :| 0 <= i < |a.order| && a.order[i] == k;
      ValuesReplace(a, i, b);
      SalesCountUpdate(Values(a), i, b);
    } else {
      ValuesAppend(a, k, b);
      var vs := Values(a);
      assert (vs + [b])[..|vs|] == vs;
    }
  }

  /** Folding one record adds exactly one sale to the aggregate's total. */
  lemma FoldRecordCount(a: Aggregate, r: Record)
    requires WellFormed(a)
    ensures WellFormed(FoldRecord(a, r))
    ensures SalesCount(Values(FoldRecord(a, r))) == SalesCount(Values(a)) + 1
  {
    FoldRecordWellFormed(a, r);
    var k := KeyOf(r);
    var b := FoldRecord(a, r).buckets[k];
    SalesCountPut(a, k, b);
    if k in a.buckets {
      assert FoldRecord(a, r) == Aggregate(a.buckets[k := b], a.order);
    } else {
      assert FoldRecord(a, r) == Aggregate(a.buckets[k := b], a.order + [k]);
    }
  }

  /** Count conservation: a batch adds its length to the total number of sales. */
  lemma {:induction false} ProcessBatchCount(a: Aggregate, batch: seq<Record>)
    requires WellFormed(a)
    ensures WellFormed(ProcessBatch(a, batch))
    ensures SalesCount(Values(ProcessBatch(a, batch))) == SalesCount(Values(a)) + |batch|
    decreases |batch|
  {
    if |batch| > 0 {
      FoldRecordCount(a, batch[0]);
      ProcessBatchCount(FoldRecord(a, batch[0]), batch[1..]);
    }
  }

  // ---------------------------------------------------------------------------
  // Reference definition: each bucket summarises the totals of its own records.

  /** Some record has the key `k`. */
  predicate HasRecord(rs: seq<Record>, k: YearMonth)
  {
    exists j :: 0 <= j < |rs| && KeyOf(rs[j]) == k
  }

  /** Totals of the records with key `k`, in input order. */
  function TotalsFor(rs: seq<Record>, k: YearMonth): seq<int>
  {
    if |rs| == 0 then []
    else if KeyOf(rs[|rs| - 1]) == k then TotalsFor(rs[..|rs| - 1], k) + [rs[|rs| - 1].total]
    else TotalsFor(rs[..|rs| - 1], k)
  }

  lemma TotalsForSnoc(rs: seq<Record>, r: Record, k: YearMonth)
    ensures TotalsFor(rs + [r], k)
         == TotalsFor(rs, k) + (if KeyOf(r) == k then [r.total] else [])
  {
    assert (rs + [r])[..|rs|] == rs;
  }

  /** The bucket that the statistics of `ts` describe directly. */
  function ReferenceBucket(k: YearMonth, ts: seq<int>): Bucket
    requires |ts| > 0
  {
    Bucket(k.year, k.month, |ts|, Fin(Largest(ts)), Fin(Smallest(ts)), Sum(ts), SumSquares(ts))
  }

  lemma ReferenceBucketStep(k: YearMonth, ts: seq<int>, t: int)
    ensures |ts| == 0 ==> AddSale(NewBucket(k), t) == ReferenceBucket(k, [t])
    ensures |ts| > 0 ==> AddSale(ReferenceBucket(k, ts), t) == ReferenceBucket(k, ts + [t])
  {
    assert (ts + [t])[..|ts|] == ts;
    assert [t][..0] == [];
    assert Largest([t]) == t && Smallest([t]) == t;
    assert Sum([t]) == t && SumSquares([t]) == t * t;
  }

  /**
   The fold agrees with the reference: a bucket exists exactly for the keys
   of the input records, and it holds the count, extremes, sum and sum of
   squares of the totals of exactly those records.
   */
  lemma {:induction false} AggregateMatchesReference(rs: seq<Record>)
    ensures forall k :: k in ProcessBatch(EmptyAggregate, rs).buckets <==> |TotalsFor(rs, k)| > 0
    ensures forall k :: k in ProcessBatch(EmptyAggregate, rs).buckets ==>
              ProcessBatch(EmptyAggregate, rs).buckets[k] == ReferenceBucket(k, TotalsFor(rs, k))
  {
    if |rs| > 0 {
      var init, r := rs[..|rs| - 1], rs[|rs| - 1];
      assert rs == init + [r];
      AggregateMatchesReference(init);
      ProcessBatchSnoc(EmptyAggregate, init, r);
      var a := ProcessBatch(EmptyAggregate, init);
      var a' := FoldRecord(a, r);
      var k := KeyOf(r);
      forall k' ensures k' in a'.buckets <==> |TotalsFor(rs, k')| > 0 {
        if k' != k {
          assert TotalsFor(rs, k') == TotalsFor(init, k');
        }
      }
      forall k' | k' in a'.buckets
        ensures a'.buckets[k'] == ReferenceBucket(k', TotalsFor(rs, k'))
      {
        if k' == k {
          ReferenceBucketStep(k, TotalsFor(init, k), r.total);
        } else {
          assert TotalsFor(rs, k') == TotalsFor(init, k');
        }
      }
    }
  }

  /** A total belongs to the key's totals exactly when some record with that key carries it. */
  lemma {:induction false} TotalsForMembership(rs: seq<Record>, k: YearMonth, t: int)
    ensures t in TotalsFor(rs, k) <==> exists i :: 0 <= i < |rs| && KeyOf(rs[i]) == k && rs[i].total == t
  {
    if |rs| > 0 {
      var init := rs[..|rs| - 1];
      TotalsForMembership(init, k, t);
      if exists i :: 0 <= i < |rs| && KeyOf(rs[i]) == k && rs[i].total == t {
        var i :| 0 <= i < |rs| && KeyOf(rs[i]) == k && rs[i].total == t;
        if i < |init| {
          assert init[i] == rs[i];
        }
      }
      if t in TotalsFor(init, k) {
        var i :| 0 <= i < |init| && KeyOf(init[i]) == k && init[i].total == t;
        assert rs[i] == init[i];
      }
    }
  }

  /**
   Per-bucket statistics in terms of the input records: the count of records
   with the key, every such total lies between the bucket's min and max, both
   extremes are totals of such records, and the sums are those records' sums.
   */
  lemma BucketStatistics(rs: seq<Record>, k: YearMonth)
    requires k in ProcessBatch(EmptyAggregate, rs).buckets
    ensures var b := ProcessBatch(EmptyAggregate, rs).buckets[k];
      && b.numberOfSales == |TotalsFor(rs, k)| >= 1
      && b.sumTotal == Sum(TotalsFor(rs, k))
      && b.sumOfSquares == SumSquares(TotalsFor(rs, k))
      && b.maxTotal.Fin? && b.minTotal.Fin?
      && (forall i :: 0 <= i < |rs| && KeyOf(rs[i]) == k ==>
            b.minTotal.value <= rs[i].total <= b.maxTotal.value)
      && (exists i :: 0 <= i < |rs| && KeyOf(rs[i]) == k && rs[i].total == b.maxTotal.value)
      && (exists i :: 0 <= i < |rs| && KeyOf(rs[i]) == k && rs[i].total == b.minTotal.value)
  {
    AggregateMatchesReference(rs);
    var b := ProcessBatch(EmptyAggregate, rs).buckets[k];
    var ts := TotalsFor(rs, k);
    forall i | 0 <= i < |rs| && KeyOf(rs[i]) == k
      ensures b.minTotal.value <= rs[i].total <= b.maxTotal.value
    {
      TotalsForMembership(rs, k, rs[i].total);
      var j :| 0 <= j < |ts| && ts[j] == rs[i].total;
    }
    TotalsForMembership(rs, k, b.maxTotal.value);
    TotalsForMembership(rs, k, b.minTotal.value);
  }
}
