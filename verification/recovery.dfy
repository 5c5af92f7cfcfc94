/** Why the startup discard makes a restart safe: rows of one block are
    written one by one, so a crash can leave the highest block partly
    indexed; deleting that block and scanning it again rebuilds the table
    exactly, with no row lost or written twice. */
module Recovery {
  import opened Types
  import opened Classifier
  import opened Importer
  import opened Table

  /** A table whose rows all lie below `block`, interrupted after the first
      `k` rows of `block`: the discard restores the table as it was before
      the block, and importing the block again yields the complete table. */
  lemma RescanRebuildsBlock(prefix: Store, block: Block, receipts: ReceiptSource, k: nat)
    requires forall i :: 0 <= i < |prefix| ==> prefix[i].block < block.number
    requires 0 < k <= |RelevantTxs(block.transactions)|
    ensures var full := InsertTxsFromBlock(prefix, block, receipts);
      DiscardHighest(full[..|prefix| + k]) == prefix
    ensures var full := InsertTxsFromBlock(prefix, block, receipts);
      InsertTxsFromBlock(DiscardHighest(full[..|prefix| + k]), block, receipts) == full
  {
    var full := InsertTxsFromBlock(prefix, block, receipts);
    var top := full[|prefix|..|prefix| + k];
    assert full[..|prefix| + k] == prefix + top;
    assert top[0] == full[|prefix|];
    forall j | 0 <= j < |top|
      ensures top[j].block == top[0].block
    {
      assert top[j] == full[|prefix| + j];
    }
    DiscardDropsTopRun(prefix, top);
  }

  /** No transaction hash occurs twice in the table. */
  ghost predicate DistinctRowHashes(s: Store)
  {
    forall i, j :: 0 <= i < j < |s| ==> s[i].txhash != s[j].txhash
  }

  lemma {:induction false} RelevantTxsDistinct(txs: seq<Tx>)
    requires DistinctHashes(txs)
    ensures DistinctHashes(RelevantTxs(txs))
    decreases |txs|
  {
    if |txs| > 0 {
      var rest := txs[1..];
      assert DistinctHashes(rest) by {
        forall i, j | 0 <= i < j < |rest|
          ensures rest[i].hash != rest[j].hash
        {
          assert rest[i] == txs[i + 1] && rest[j] == txs[j + 1];
        }
      }
      RelevantTxsDistinct(rest);
      var r := RelevantTxs(txs);
      var tail := RelevantTxs(rest);
      forall u | u in tail
        ensures u.hash != txs[0].hash
      {
        var a :| 0 <= a < |rest| && rest[a] == u;
        assert txs[a + 1] == u;
      }
      if IsRelevant(txs[0]) {
        assert r == [txs[0]] + tail;
        forall i, j | 0 <= i < j < |r|
          ensures r[i].hash != r[j].hash
        {
          assert r[j] == tail[j - 1];
          assert tail[j - 1] in tail;
          if i > 0 {
            assert r[i] == tail[i - 1];
          }
        }
      } else {
        assert r == tail;
      }
    }
  }

  /** The hash in row `i` of the table after the import: an old row keeps
      its hash, a new row carries the hash of its relevant transaction. */
  lemma ImportedRowHash(store: Store, block: Block, receipts: ReceiptSource, i: int)
    requires 0 <= i < |InsertTxsFromBlock(store, block, receipts)|
    ensures var r := InsertTxsFromBlock(store, block, receipts);
      i < |store| ==> r[i].txhash == store[i].txhash
    ensures var r := InsertTxsFromBlock(store, block, receipts);
      var rel := RelevantTxs(block.transactions);
      i >= |store| ==> 0 <= i - |store| < |rel| && r[i].txhash == rel[i - |store|].hash
  {
  }

  /** Importing a block whose transactions are not yet in the table keeps
      every transaction hash in the table unique. */
  lemma ImportKeepsHashesDistinct(store: Store, block: Block, receipts: ReceiptSource)
    requires DistinctRowHashes(store)
    requires DistinctHashes(block.transactions)
    requires forall k, t :: 0 <= k < |store| && t in block.transactions ==> store[k].txhash != t.hash
    ensures DistinctRowHashes(InsertTxsFromBlock(store, block, receipts))
  {
    var r := InsertTxsFromBlock(store, block, receipts);
    var rel := RelevantTxs(block.transactions);
    RelevantTxsDistinct(block.transactions);
    forall i, j | 0 <= i < j < |r|
      ensures r[i].txhash != r[j].txhash
    {
      ImportedRowHash(store, block, receipts, i);
      ImportedRowHash(store, block, receipts, j);
      if j >= |store| {
        assert rel[j - |store|] in rel;
      }
    }
  }
}
