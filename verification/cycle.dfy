/** One pass of the main loop: read the cursor, compute the end height from
    the chain head and the confirmation depth, then fetch and import every
    height strictly between the two. */
module Cycle {
  import opened Types
  import opened Importer
  import opened Retry
  import opened Table

  /** Python's `range(lo, hi)`. */
  function Range(lo: int, hi: int): (r: seq<int>)
    ensures |r| == (if lo < hi then hi - lo else 0)
    ensures forall k :: 0 <= k < |r| ==> r[k] == lo + k
    decreases hi - lo
  {
    if lo >= hi then [] else [lo] + Range(lo + 1, hi)
  }

  /** The first height not scanned this cycle. */
  function EndBlock(head: int, confirmations: int): int
  {
    head - confirmations
  }

  /** The heights one cycle fetches: above the cursor and below the end
      height, ascending, with the end height itself left for a later cycle. */
  function ScanRange(store: Store, startBlock: int, head: int, confirmations: int): (heights: seq<int>)
    ensures forall x :: x in heights <==> Cursor(store, startBlock) < x < head - confirmations
    ensures forall a, b :: 0 <= a < b < |heights| ==> heights[a] < heights[b]
    ensures |heights| == 0 <==> head - confirmations <= Cursor(store, startBlock) + 1
    ensures |heights| > 0 ==>
      heights[0] == Cursor(store, startBlock) + 1 && heights[|heights| - 1] == head - confirmations - 1
  {
    var lo := Cursor(store, startBlock) + 1;
    var r := Range(lo, EndBlock(head, confirmations));
    forall x | lo <= x < head - confirmations
      ensures x in r
    {
      assert r[x - lo] == x;
    }
    r
  }

  /** A chain head of 1000 with no confirmation depth and a cursor at 998
      scans block 999 only. */
  lemma ScanExample(store: Store, startBlock: int)
    requires Cursor(store, startBlock) == 998
    ensures ScanRange(store, startBlock, 1000, 0) == [999]
  {
  }

  /** How a cycle ends: every height imported, or an exception out of the
      block fetch at `height`, which stops the process. */
  datatype CycleEnd = Completed | Fatal(height: int, failure: Outcome)

  /** The table after the cycle and the heights whose fetch was started. */
  datatype CycleRun = CycleRun(store: Store, fetched: seq<int>, end: CycleEnd)

  /** The node's answers, per block height, to successive `get_block` calls. */
  type Chain = int -> Node

  /** The retried fetch the loop makes for height `h`. */
  function FetchAt(chain: Chain, h: int): Fetch
  {
    GetBlockWithRetry(chain(h), DefaultRetries)
  }

  /** Every fetch of `heights` returned a block. */
  predicate AllReturned(chain: Chain, heights: seq<int>)
  {
    forall j :: 0 <= j < |heights| ==> FetchAt(chain, heights[j]).outcome.Returned?
  }

  /** The blocks the fetches of `heights` returned, in order. */
  function ReturnedBlocks(chain: Chain, heights: seq<int>): seq<Block>
  {
    if |heights| == 0 then []
    else
      var f := FetchAt(chain, heights[0]);
      (if f.outcome.Returned? then [f.outcome.block] else []) + ReturnedBlocks(chain, heights[1..])
  }

  /** The reference for the loop's writes: the blocks imported one after
      another, every row of an earlier block before those of a later one. */
  function ImportBlocks(store: Store, blocks: seq<Block>, receipts: ReceiptSource): (r: Store)
    ensures |store| <= |r| && r[..|store|] == store
    decreases |blocks|
  {
    if |blocks| == 0 then store
    else
      var next := InsertTxsFromBlock(store, blocks[0], receipts);
      var r := ImportBlocks(next, blocks[1..], receipts);
      assert r[..|store|] == next[..|store|];
      r
  }

  /** The loop body for a fetched block: blocks without transactions are
      skipped, the others imported. */
  function ImportFetched(store: Store, b: Block, receipts: ReceiptSource): (r: Store)
    ensures r == InsertTxsFromBlock(store, b, receipts)
    ensures |store| <= |r| && r[..|store|] == store
  {
    if |b.transactions| > 0 then InsertTxsFromBlock(store, b, receipts)
    else
      NoRelevantNoWrite(store, b, receipts);
      store
  }

  /** Putting the first height back in front of what the rest of the loop
      fetched keeps a prefix of the heights, and the last height fetched. */
  lemma FetchedCons(h: int, rest: seq<int>, heights: seq<int>)
    requires |heights| > 0 && heights[0] == h && rest <= heights[1..]
    ensures [h] + rest <= heights
    ensures rest == heights[1..] ==> [h] + rest == heights
    ensures |rest| > 0 ==> ([h] + rest)[|rest|] == rest[|rest| - 1]
  {
  }

  /** A prefix of a prefix is a prefix. */
  lemma PrefixTrans(a: Store, b: Store, c: Store)
    requires |a| <= |b| && b[..|a|] == a
    requires |b| <= |c| && c[..|b|] == b
    ensures |a| <= |c| && c[..|a|] == a
  {
    assert c[..|a|] == c[..|b|][..|a|];
  }

  /** One step of the loop: what the rest of the loop promises about the
      remaining heights carries over once the first height, whose block was
      imported, is put back in front. */
  lemma LoopStep(store: Store, next: Store, h: int, heights: seq<int>, chain: Chain, rest: CycleRun)
    requires |heights| > 0 && heights[0] == h
    requires |store| <= |next| && next[..|store|] == store
    requires rest.fetched <= heights[1..]
    requires rest.end.Completed? ==> rest.fetched == heights[1..]
    requires rest.end.Fatal? ==>
      && |rest.fetched| > 0 && rest.end.height == rest.fetched[|rest.fetched| - 1]
      && rest.end.failure == FetchAt(chain, rest.end.height).outcome
      && !rest.end.failure.Returned?
    requires |next| <= |rest.store| && rest.store[..|next|] == next
    ensures [h] + rest.fetched <= heights
    ensures rest.end.Completed? ==> [h] + rest.fetched == heights
    ensures rest.end.Fatal? ==>
      && |[h] + rest.fetched| > 0 && rest.end.height == ([h] + rest.fetched)[|[h] + rest.fetched| - 1]
      && rest.end.failure == FetchAt(chain, rest.end.height).outcome
      && !rest.end.failure.Returned?
    ensures |store| <= |rest.store| && rest.store[..|store|] == store
  {
    PrefixTrans(store, next, rest.store);
    FetchedCons(h, rest.fetched, heights);
  }

  /** The `for blockHeight in …` loop over the remaining heights. Rows of a
      block are written as they are classified, so a fatal fetch keeps the
      rows of the blocks before it. */
  function ImportHeights(store: Store, heights: seq<int>, chain: Chain, receipts: ReceiptSource): (run: CycleRun)
    ensures run.fetched <= heights
    ensures run.end.Completed? ==> run.fetched == heights
    ensures run.end.Fatal? ==>
      && |run.fetched| > 0 && run.end.height == run.fetched[|run.fetched| - 1]
      && run.end.failure == FetchAt(chain, run.end.height).outcome
      && !run.end.failure.Returned?
    ensures |store| <= |run.store| && run.store[..|store|] == store
    decreases |heights|
  {
    if |heights| == 0 then CycleRun(store, [], Completed)
    else
      var h := heights[0];
      var f := FetchAt(chain, h);
      if f.outcome.Returned? then
        var next := ImportFetched(store, f.outcome.block, receipts);
        var rest := ImportHeights(next, heights[1..], chain, receipts);
        LoopStep(store, next, h, heights, chain, rest);
        CycleRun(rest.store, [h] + rest.fetched, rest.end)
      else CycleRun(store, [h], Fatal(h, f.outcome))
  }

  lemma AllReturnedTail(chain: Chain, heights: seq<int>)
    requires |heights| > 0
    ensures AllReturned(chain, heights) <==>
      FetchAt(chain, heights[0]).outcome.Returned? && AllReturned(chain, heights[1..])
  {
    if FetchAt(chain, heights[0]).outcome.Returned? && AllReturned(chain, heights[1..]) {
      forall j | 0 <= j < |heights|
        ensures FetchAt(chain, heights[j]).outcome.Returned?
      {
        if j > 0 {
          assert heights[j] == heights[1..][j - 1];
        }
      }
    }
    if AllReturned(chain, heights) {
      forall j | 0 <= j < |heights| - 1
        ensures FetchAt(chain, heights[1..][j]).outcome.Returned?
      {
        assert heights[1..][j] == heights[j + 1];
      }
    }
  }

  /** The loop completes exactly when every fetch returns a block, and it
      reaches a height only after every earlier fetch returned. */
  lemma {:induction false} ImportHeightsCompletes(store: Store, heights: seq<int>, chain: Chain, receipts: ReceiptSource)
    ensures var run := ImportHeights(store, heights, chain, receipts);
      run.end.Completed? <==> AllReturned(chain, heights)
    ensures var run := ImportHeights(store, heights, chain, receipts);
      forall j :: 0 <= j < |run.fetched| - 1 ==> FetchAt(chain, run.fetched[j]).outcome.Returned?
    decreases |heights|
  {
    if |heights| > 0 {
      var run := ImportHeights(store, heights, chain, receipts);
      var h := heights[0];
      AllReturnedTail(chain, heights);
      var f := FetchAt(chain, h);
      if f.outcome.Returned? {
        var b := f.outcome.block;
        var next := ImportFetched(store, b, receipts);
        ImportHeightsCompletes(next, heights[1..], chain, receipts);
        var rest := ImportHeights(next, heights[1..], chain, receipts);
        assert run == CycleRun(rest.store, [h] + rest.fetched, rest.end);
        forall j | 0 <= j < |run.fetched| - 1
          ensures FetchAt(chain, run.fetched[j]).outcome.Returned?
        {
          if j > 0 {
            assert run.fetched[j] == rest.fetched[j - 1];
          }
        }
      }
    }
  }

  /** The rows the loop writes are those of importing, in order, the blocks
      its fetches returned; skipping a block without transactions changes
      nothing. */
  lemma {:induction false} ImportHeightsWrites(store: Store, heights: seq<int>, chain: Chain, receipts: ReceiptSource)
    ensures var run := ImportHeights(store, heights, chain, receipts);
      run.store == ImportBlocks(store, ReturnedBlocks(chain, run.fetched), receipts)
    decreases |heights|
  {
    if |heights| > 0 {
      var run := ImportHeights(store, heights, chain, receipts);
      var h := heights[0];
      var f := FetchAt(chain, h);
      if f.outcome.Returned? {
        var b := f.outcome.block;
        var next := ImportFetched(store, b, receipts);
        ImportHeightsWrites(next, heights[1..], chain, receipts);
        var rest := ImportHeights(next, heights[1..], chain, receipts);
        assert run == CycleRun(rest.store, [h] + rest.fetched, rest.end);
        assert run.fetched[1..] == rest.fetched;
        assert ReturnedBlocks(chain, run.fetched) == [b] + ReturnedBlocks(chain, rest.fetched);
        assert ([b] + ReturnedBlocks(chain, rest.fetched))[1..] == ReturnedBlocks(chain, rest.fetched);
      } else {
        assert run.fetched == [h];
        assert ReturnedBlocks(chain, run.fetched) == [];
      }
    }
  }

  /** One cycle from the current table and chain head: it completes iff
      every height of the scan range was fetched, and its writes are the
      import of the blocks it fetched, in height order. */
  function RunCycle(store: Store, startBlock: int, head: int, confirmations: int,
                    chain: Chain, receipts: ReceiptSource): (run: CycleRun)
    ensures run.fetched <= ScanRange(store, startBlock, head, confirmations)
    ensures run.end.Completed? <==> AllReturned(chain, ScanRange(store, startBlock, head, confirmations))
    ensures run.end.Completed? ==> run.fetched == ScanRange(store, startBlock, head, confirmations)
    ensures forall j :: 0 <= j < |run.fetched| - 1 ==> FetchAt(chain, run.fetched[j]).outcome.Returned?
    ensures run.end.Fatal? ==>
      && |run.fetched| > 0 && run.end.height == run.fetched[|run.fetched| - 1]
      && run.end.failure == FetchAt(chain, run.end.height).outcome
      && !run.end.failure.Returned?
    ensures run.store == ImportBlocks(store, ReturnedBlocks(chain, run.fetched), receipts)
    ensures |store| <= |run.store| && run.store[..|store|] == store
  {
    var heights := ScanRange(store, startBlock, head, confirmations);
    ImportHeightsCompletes(store, heights, chain, receipts);
    ImportHeightsWrites(store, heights, chain, receipts);
    ImportHeights(store, heights, chain, receipts)
  }

  /** A node that answers a request for height `h` only with block `h`. */
  ghost predicate Honest(chain: Chain)
  {
    forall h, i :: chain(h)(i).Ok? ==> chain(h)(i).block.number == h
  }

  /** Every row `run` added to `store` belongs to a height it fetched. */
  predicate RowsFromFetched(store: Store, run: CycleRun)
  {
    forall k :: |store| <= k < |run.store| ==> run.store[k].block in run.fetched
  }

  /** Against an honest node, every row a run adds belongs to a height the
      run fetched. */
  lemma {:induction false} ImportedRowsFromFetched(store: Store, heights: seq<int>, chain: Chain, receipts: ReceiptSource)
    requires Honest(chain)
    ensures RowsFromFetched(store, ImportHeights(store, heights, chain, receipts))
    decreases |heights|
  {
    var run := ImportHeights(store, heights, chain, receipts);
    if |heights| > 0 {
      var h := heights[0];
      var f := FetchAt(chain, h);
      if f.outcome.Returned? {
        var b := f.outcome.block;
        assert chain(h)(f.attempts - 1) == Ok(b);
        var next := ImportFetched(store, b, receipts);
        var rest := ImportHeights(next, heights[1..], chain, receipts);
        ImportedRowsFromFetched(next, heights[1..], chain, receipts);
        assert run.store == rest.store && run.fetched == [h] + rest.fetched;
        forall k | |store| <= k < |run.store|
          ensures run.store[k].block in run.fetched
        {
          if k < |next| {
            assert run.store[k] == rest.store[..|next|][k] == next[k];
            assert next[k].block == h;
          } else {
            assert rest.store[k].block in rest.fetched;
          }
        }
      }
    }
  }

  lemma PrefixMember(a: seq<int>, b: seq<int>, x: int)
    requires a <= b && x in a
    ensures x in b
  {
  }

  /** A cycle is the loop over its scan range. */
  lemma RunCycleIsLoop(store: Store, startBlock: int, head: int, confirmations: int,
                       chain: Chain, receipts: ReceiptSource)
    ensures RunCycle(store, startBlock, head, confirmations, chain, receipts)
      == ImportHeights(store, ScanRange(store, startBlock, head, confirmations), chain, receipts)
  {
  }

  /** Against an honest node, the loop over heights strictly between `lo`
      and `hi` adds only rows of blocks strictly between them, and never
      lowers the cursor of a non-empty table. */
  lemma LoopBounds(store: Store, heights: seq<int>, chain: Chain, receipts: ReceiptSource,
                   lo: int, hi: int, startBlock: int)
    requires Honest(chain)
    requires forall x :: x in heights ==> lo < x < hi
    ensures var run := ImportHeights(store, heights, chain, receipts);
      forall k :: |store| <= k < |run.store| ==> lo < run.store[k].block < hi
    ensures var run := ImportHeights(store, heights, chain, receipts);
      |store| > 0 ==> Cursor(store, startBlock) <= Cursor(run.store, startBlock)
  {
    var run := ImportHeights(store, heights, chain, receipts);
    ImportedRowsFromFetched(store, heights, chain, receipts);
    forall k | |store| <= k < |run.store|
      ensures lo < run.store[k].block < hi
    {
      PrefixMember(run.fetched, heights, run.store[k].block);
    }
    if |store| > 0 {
      assert run.store == store + run.store[|store|..];
      AppendKeepsCursor(store, run.store[|store|..], startBlock);
    }
  }

  /** Against an honest node, a cycle keeps the cursor of a non-empty table
      or raises it, and never past the height below the end height. */
  lemma CycleCursorBounds(store: Store, startBlock: int, head: int, confirmations: int,
                          chain: Chain, receipts: ReceiptSource)
    requires Honest(chain)
    ensures var run := RunCycle(store, startBlock, head, confirmations, chain, receipts);
      forall k :: |store| <= k < |run.store| ==>
        Cursor(store, startBlock) < run.store[k].block < head - confirmations
    ensures var run := RunCycle(store, startBlock, head, confirmations, chain, receipts);
      |store| > 0 ==> Cursor(store, startBlock) <= Cursor(run.store, startBlock)
  {
    RunCycleIsLoop(store, startBlock, head, confirmations, chain, receipts);
    LoopBounds(store, ScanRange(store, startBlock, head, confirmations), chain, receipts,
               Cursor(store, startBlock), head - confirmations, startBlock);
  }
}
