/**
 The ingestion driver of the sales report: records are pushed into a buffer
 that is folded and reset whenever it reaches the batch size, and a non-empty
 remainder is folded once at end of input. The result does not depend on
 where the batches were cut.
 */
module Batching {
  import opened Aggregation

  /** Records buffered before a batch is folded. */
  const BATCH_SIZE: int := 10000

  /** Concatenation of a sequence of batches. */
  function Flatten(batches: seq<seq<Record>>): seq<Record>
  {
    if |batches| == 0 then [] else Flatten(batches[..|batches| - 1]) + batches[|batches| - 1]
  }

  /** Flattening distributes over concatenation of batch lists. */
  lemma {:induction false} FlattenConcat(xs: seq<seq<Record>>, ys: seq<seq<Record>>)
    ensures Flatten(xs + ys) == Flatten(xs) + Flatten(ys)
  {
    if |ys| == 0 {
      assert xs + ys == xs;
    } else {
      var init := ys[..|ys| - 1];
      assert (xs + ys)[..|xs + ys| - 1] == xs + init;
      FlattenConcat(xs, init);
    }
  }

  /** Folds each batch in turn, as consecutive processBatch calls on one map. */
  function FoldBatches(a: Aggregate, batches: seq<seq<Record>>): Aggregate
  {
    if |batches| == 0 then a
    else ProcessBatch(FoldBatches(a, batches[..|batches| - 1]), batches[|batches| - 1])
  }

  /**
   Batch-boundary invariance: folding any cut of the input batch by batch
   gives the same aggregate as folding the whole input at once.
   */
  lemma {:induction false} BatchBoundaryInvariance(a: Aggregate, batches: seq<seq<Record>>)
    ensures FoldBatches(a, batches) == ProcessBatch(a, Flatten(batches))
  {
    if |batches| > 0 {
      var init := batches[..|batches| - 1];
      BatchBoundaryInvariance(a, init);
      ProcessBatchConcat(a, Flatten(init), batches[|batches| - 1]);
    }
  }

  /** Appending one batch extends the flattened input and folds that batch last. */
  lemma FlushStep(a: Aggregate, batches: seq<seq<Record>>, buffer: seq<Record>)
    ensures Flatten(batches + [buffer]) == Flatten(batches) + buffer
    ensures FoldBatches(a, batches + [buffer]) == ProcessBatch(FoldBatches(a, batches), buffer)
  {
    FlattenConcat(batches, [buffer]);
    assert [buffer][..0] == [];
    assert (batches + [buffer])[..|batches|] == batches;
  }

  /** Buffering the next record extends the consumed prefix by one. */
  lemma BufferStep(flat: seq<Record>, buffer: seq<Record>, records: seq<Record>, i: nat)
    requires i < |records| && flat + buffer == records[..i]
    ensures flat + (buffer + [records[i]]) == records[..i + 1]
  {
    assert records[..i + 1] == records[..i] + [records[i]];
  }

  /** The buffer never holds more than this many records between reads. */
  function Capacity(batchSize: int): nat
  {
    if batchSize < 1 then 1 else batchSize
  }

  /**
   The 'readable' handler: every record is appended to the buffer and
   counted, and a buffer that reaches the batch size is folded and emptied.
   On return the folded batches followed by the buffer are the input, every
   folded batch has exactly the capacity, and the buffer is not full.
   */
  method ReadRecords(records: seq<Record>, batchSize: int)
    returns (a: Aggregate, recordCount: nat, buffer: seq<Record>, ghost batches: seq<seq<Record>>)
    ensures recordCount == |records|
    ensures |buffer| < Capacity(batchSize)
    ensures Flatten(batches) + buffer == records
    ensures a == FoldBatches(EmptyAggregate, batches)
    ensures forall j :: 0 <= j < |batches| ==> |batches[j]| == Capacity(batchSize)
  {
    a := EmptyAggregate;
    buffer := [];
    recordCount := 0;
    batches := [];
    var i := 0;
    while i < |records|
      invariant 0 <= i <= |records|
      invariant recordCount == i
      invariant |buffer| < Capacity(batchSize)
      invariant Flatten(batches) + buffer == records[..i]
      invariant a == FoldBatches(EmptyAggregate, batches)
      invariant forall j :: 0 <= j < |batches| ==> |batches[j]| == Capacity(batchSize)
    {
      BufferStep(Flatten(batches), buffer, records, i);
      buffer := buffer + [records[i]];
      recordCount := recordCount + 1;
      if |buffer| >= batchSize {
        FlushStep(EmptyAggregate, batches, buffer);
        a := ProcessBatch(a, buffer);
        batches := batches + [buffer];
        buffer := [];
      }
      i := i + 1;
    }
    assert records[..|records|] == records;
  }

  /**
   The 'readable' and 'end' handlers together: returns the aggregate and the
   number of records read. Every full batch has exactly the capacity, only
   the last one may be shorter, none is empty, and together they are the
   input in order.
   */
  method ProcessSalesData(records: seq<Record>, batchSize: int)
    returns (a: Aggregate, recordCount: nat, ghost batches: seq<seq<Record>>)
    ensures recordCount == |records|
    ensures a == ProcessBatch(EmptyAggregate, records)
    ensures Flatten(batches) == records
    ensures a == FoldBatches(EmptyAggregate, batches)
    ensures forall j :: 0 <= j < |batches| ==> 1 <= |batches[j]| <= Capacity(batchSize)
    ensures forall j :: 0 <= j < |batches| - 1 ==> |batches[j]| == Capacity(batchSize)
  {
    var buffer;
    a, recordCount, buffer, batches := ReadRecords(records, batchSize);
    if |buffer| > 0 {
      FlushStep(EmptyAggregate, batches, buffer);
      a := ProcessBatch(a, buffer);
      batches := batches + [buffer];
    } else {
      assert Flatten(batches) + buffer == Flatten(batches);
    }
    BatchBoundaryInvariance(EmptyAggregate, batches);
  }

  /** The driver as the source configures it, with BATCH_SIZE records per batch. */
  method ProcessSales(records: seq<Record>) returns (a: Aggregate, recordCount: nat)
    ensures recordCount == |records|
    ensures a == ProcessBatch(EmptyAggregate, records)
  {
    ghost var batches;
    a, recordCount, batches := ProcessSalesData(records, BATCH_SIZE);
  }
}
