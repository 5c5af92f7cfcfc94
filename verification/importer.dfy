/** `insertTxsFromBlock`: the rows one block adds to the table. */
module Importer {
  import opened Types
  import opened Classifier

  /** The relevant transactions of a list, in their order: the reference the
      import is measured against. */
  function RelevantTxs(txs: seq<Tx>): (r: seq<Tx>)
    ensures |r| <= |txs|
    ensures forall t :: t in r <==> t in txs && IsRelevant(t)
  {
    if |txs| == 0 then []
    else (if IsRelevant(txs[0]) then [txs[0]] else []) + RelevantTxs(txs[1..])
  }

  /** Each relevant transaction is kept as often as it occurs, every other
      one dropped. */
  lemma {:induction false} RelevantTxsCounts(txs: seq<Tx>)
    ensures forall t ::
      multiset(RelevantTxs(txs))[t] == (if IsRelevant(t) then multiset(txs)[t] else 0)
    decreases |txs|
  {
    if |txs| > 0 {
      RelevantTxsCounts(txs[1..]);
      assert txs == [txs[0]] + txs[1..];
    }
  }

  /** Filtering distributes over concatenation, so relevant transactions
      keep their block order. */
  lemma {:induction false} RelevantTxsAppend(a: seq<Tx>, b: seq<Tx>)
    ensures RelevantTxs(a + b) == RelevantTxs(a) + RelevantTxs(b)
    decreases |a|
  {
    if |a| == 0 {
      assert a + b == b;
    } else {
      assert (a + b)[1..] == a[1..] + b;
      RelevantTxsAppend(a[1..], b);
    }
  }

  /** The row a relevant transaction of `block` is stored as. */
  function RowFor(block: Block, tx: Tx, receipts: ReceiptSource): Record
  {
    MakeRecord(block, tx, receipts(tx.hash))
  }

  /** The rows of a list of transactions, one each, in the same order. */
  function Rows(block: Block, txs: seq<Tx>, receipts: ReceiptSource): (r: seq<Record>)
    ensures |r| == |txs|
    ensures forall i :: 0 <= i < |txs| ==> r[i] == RowFor(block, txs[i], receipts)
  {
    if |txs| == 0 then [] else [RowFor(block, txs[0], receipts)] + Rows(block, txs[1..], receipts)
  }

  /** The loop of `insertTxsFromBlock` from some transaction on: each
      transaction is classified in turn and its row, if any, appended. The
      result is the filter-then-map reference: the rows of the relevant
      transactions, in order, after the rows already stored. */
  function InsertTxs(store: Store, block: Block, txs: seq<Tx>, receipts: ReceiptSource): (r: Store)
    ensures r == store + Rows(block, RelevantTxs(txs), receipts)
    decreases |txs|
  {
    if |txs| == 0 then store
    else
      var tail := RelevantTxs(txs[1..]);
      match Classify(block, txs[0], receipts(txs[0].hash))
      case None =>
        assert RelevantTxs(txs) == tail;
        InsertTxs(store, block, txs[1..], receipts)
      case Some(row) =>
        assert RelevantTxs(txs) == [txs[0]] + tail;
        assert ([txs[0]] + tail)[1..] == tail;
        assert Rows(block, RelevantTxs(txs), receipts) == [row] + Rows(block, tail, receipts);
        assert store + [row] + Rows(block, tail, receipts) == store + ([row] + Rows(block, tail, receipts));
        InsertTxs(store + [row], block, txs[1..], receipts)
  }

  /** Importing a block appends, in transaction order, one row per relevant
      transaction and leaves the rows already stored as they were. */
  function InsertTxsFromBlock(store: Store, block: Block, receipts: ReceiptSource): (r: Store)
    ensures |r| == |store| + |RelevantTxs(block.transactions)|
    ensures r[..|store|] == store
    ensures forall i :: 0 <= i < |RelevantTxs(block.transactions)| ==>
      r[|store| + i] == RowFor(block, RelevantTxs(block.transactions)[i], receipts)
    ensures forall k :: |store| <= k < |r| ==>
      r[k].block == block.number && r[k].time == block.timestamp
  {
    var r := InsertTxs(store, block, block.transactions, receipts);
    forall k | |store| <= k < |r|
      ensures r[k].block == block.number && r[k].time == block.timestamp
    {
      assert r[k] == RowFor(block, RelevantTxs(block.transactions)[k - |store|], receipts);
    }
    r
  }

  /** Transaction hashes are unique on a chain. */
  ghost predicate DistinctHashes(txs: seq<Tx>)
  {
    forall i, j :: 0 <= i < j < |txs| ==> txs[i].hash != txs[j].hash
  }

  /** A relevant transaction of the block gets a row carrying its hash. */
  lemma RelevantGetsRow(store: Store, block: Block, receipts: ReceiptSource, tx: Tx)
    requires tx in block.transactions && IsRelevant(tx)
    ensures var r := InsertTxsFromBlock(store, block, receipts);
      exists k :: |store| <= k < |r| && r[k].txhash == tx.hash
  {
    var r := InsertTxsFromBlock(store, block, receipts);
    var rel := RelevantTxs(block.transactions);
    assert tx in rel;
    var i :| 0 <= i < |rel| && rel[i] == tx;
    assert r[|store| + i].txhash == tx.hash;
  }

  /** With unique hashes, a new row's hash belongs to a relevant transaction. */
  lemma RowComesFromRelevant(store: Store, block: Block, receipts: ReceiptSource, tx: Tx, k: int)
    requires DistinctHashes(block.transactions)
    requires tx in block.transactions
    requires var r := InsertTxsFromBlock(store, block, receipts);
      |store| <= k < |r| && r[k].txhash == tx.hash
    ensures IsRelevant(tx)
  {
    var rel := RelevantTxs(block.transactions);
    var u := rel[k - |store|];
    assert u in rel;
    var a :| 0 <= a < |block.transactions| && block.transactions[a] == u;
    var b :| 0 <= b < |block.transactions| && block.transactions[b] == tx;
    assert a == b;
  }

  /** A transaction of the block gets a row exactly when it is relevant;
      every irrelevant one is skipped without a write. */
  lemma RowExistsIffRelevant(store: Store, block: Block, receipts: ReceiptSource, tx: Tx)
    requires DistinctHashes(block.transactions)
    requires tx in block.transactions
    ensures var r := InsertTxsFromBlock(store, block, receipts);
      IsRelevant(tx) <==> exists k :: |store| <= k < |r| && r[k].txhash == tx.hash
  {
    var r := InsertTxsFromBlock(store, block, receipts);
    if IsRelevant(tx) {
      RelevantGetsRow(store, block, receipts, tx);
    }
    if k :| |store| <= k < |r| && r[k].txhash == tx.hash {
      RowComesFromRelevant(store, block, receipts, tx, k);
    }
  }

  /** A block without relevant transactions writes nothing, so it does not
      move the `MAX(block)` cursor even after it has been scanned. */
  lemma NoRelevantNoWrite(store: Store, block: Block, receipts: ReceiptSource)
    requires forall t :: t in block.transactions ==> !IsRelevant(t)
    ensures InsertTxsFromBlock(store, block, receipts) == store
  {
    var r := InsertTxsFromBlock(store, block, receipts);
    if |RelevantTxs(block.transactions)| > 0 {
      assert RelevantTxs(block.transactions)[0] in RelevantTxs(block.transactions);
    }
    assert r == r[..|store|];
  }
}
