# ethsync: a Dafny model of the indexer's sync logic

`ethsync.py` follows an Ethereum node and copies the transactions it cares about
into one Postgres table, `ethtxs`. Around its I/O sit five pieces of deterministic
logic, modelled here as pure functions over immutable values:

- **classifier** (`classifier.dfy`): a transaction is indexed when it carries native
  value or its payload starts with the ERC-20 `transfer(address,uint256)` selector
  `0xa9059cbb`. For such a call `contract_to` is `hex[10:-64]` and `contract_value` is
  `hex[74:]`, with Python's slice clamping (`pyslice.dfy`). Both are blanked when
  `contract_to` is longer than 128 characters, and the row is still written.
- **block import** (`importer.dfy`): `insertTxsFromBlock` appends one row per relevant
  transaction, in block order. `gas` comes from the receipt's `gasUsed`.
- **bounded retry** (`retry.dfy`): `get_block_with_retry` is a function of the node's
  scripted answers (block, timeout, other error). It returns the outcome, the number
  of attempts and the number of sleeps.
- **cursor, scan range and one cycle** (`table.dfy`, `cycle.dfy`): the cursor is
  `MAX(block)`, or the start height when the table is empty. A cycle fetches
  `range(cursor + 1, head - confirmations)` and imports each block. It stops at the
  first fetch that raises.
- **startup discard** (`table.dfy`, `recovery.dfy`): every row of the highest block is
  deleted. The model proves that this undoes a crash in the middle of a block: rows
  written before the crash are removed, and importing the block again rebuilds the
  table exactly, with every transaction hash still unique.

The table is a `seq<Record>` in insertion order. Receipts come from a function from
transaction hash to receipt. The node's answers to successive `get_block` calls are a
function from the attempt number to an outcome, given per height.

At four points the code does something other than the obvious reading; the
model follows the code:

- The comment at `ethsync.py:122` describes a correct transfer payload as `0x`, the
  selector and two 64-character words, 138 characters in all. `contract_value` is
  `hex[74:]`, which is the last word only for exactly that length. For payloads of
  139 to 202 characters, `contract_value` is longer than one word and repeats the
  tail of `contract_to` (`Classifier.ContractValueIsNotLastWord`).
- A block without relevant transactions writes no row (lines 110-111;
  `Importer.NoRelevantNoWrite`). So after a cycle `MAX(block)` is the last block that
  had a relevant transaction, which can be below `endblock - 1`.
  `Cycle.CycleCursorBounds` proves the bounds that hold for every chain whose node
  answers a request for height h with block h.
- With `retries <= 0`, `range(retries)` is empty and `get_block_with_retry` returns
  `None` without an attempt (lines 133-141; `Retry.NoBudgetReturnsNone`). Line 165
  would then fail on `block.transactions`, so the model ends the cycle fatally.
- The startup delete (line 84) runs before the node-sync wait (lines 89-93). Neither
  step depends on the other.

## Model

| member | source | states |
|---|---|---|
| PySlice.Slice | ethsync.py:120-121 | Python's `s[i:j]`: negative indices count from the end, out-of-range ones are clamped, and the result is the elements from the clamped start up to the clamped stop, empty when the stop is not past the start. This contract also covers the helper `Bound`, which shifts a negative index by the length and clamps it into `0..len` |
| PySlice.SliceInRange | ethsync.py:120-121 | for indices already within `0..len`, the Python slice is the plain subsequence |
| PySlice.SliceNegativeStop | ethsync.py:120 | `s[i:-m]` is `s[i:len-m]` when `i <= len - m`, and empty otherwise |
| PySlice.SliceFromSuffix | ethsync.py:121 | `s[i:]` is the suffix from `i`, and empty when `i` is past the end |
| Classifier.SlicedFields | ethsync.py:116-121 | without the selector both fields are `''`; with it, both have length `max(0, len - 74)`, and for a payload longer than 74 characters they are `hex[10:len-64]` and `hex[74:]` |
| Classifier.ContractFieldsOf | ethsync.py:116-127 | the stored fields always have equal length, at most 128, so they are both empty or both filled. They are `''` without the selector, for a payload of at most 74 characters, or over 202. For a selector payload of 75-202 characters they are `hex[10:len-64]` (non-empty) and `hex[74:]`. This contract also covers the helper `Guard`, which applies the 128-character check |
| Classifier.WellFormedTransferFields | ethsync.py:119-122 | for a well-formed 138-character transfer call, `contract_to` is the 64-character address word `hex[10:74]` and `contract_value` is the last 64 characters |
| Classifier.ContractValueIsNotLastWord | ethsync.py:121-124 | for a selector payload of 139-202 characters, `contract_value` is longer than 64 characters and starts with the tail of `contract_to` past its first 64 characters |
| Classifier.Classify | ethsync.py:106-130 | a transaction yields a row iff `value != 0` or its hex payload starts with `0xa9059cbb`. The row takes `block`/`time` from the block, `gas` from the receipt's `gasUsed`, hash/from/to/value/gasPrice from the transaction and the guarded contract fields; those are both empty or both non-empty. This contract also covers the helper `MakeRecord`, which builds the row of lines 128-130 |
| Classifier.OversizedTransferStillIndexed | ethsync.py:124-130 | when the sliced `contract_to` exceeds 128 characters, the transaction is still indexed with both contract fields `''` |
| Classifier.PlainValueTransfer | ethsync.py:107-121 | a transaction with value 5 and payload `0x` is indexed with empty contract fields |
| Classifier.TokenTransfer | ethsync.py:108-122 | a zero-value `transfer` call built from selector, 24-character pad, 40-character address and 64-character amount is indexed with `contract_to` = pad + address and `contract_value` = amount |
| Importer.RelevantTxs | ethsync.py:101-111 | the reference filter: its elements are exactly the block's transactions that are relevant |
| Importer.RelevantTxsCounts | ethsync.py:101-111 | the filter keeps every relevant transaction as many times as it occurs in the block and drops every other one |
| Importer.RelevantTxsAppend | ethsync.py:101-111 | filtering distributes over concatenation, so the relevant transactions keep their block order |
| Importer.Rows | ethsync.py:112-130 | one row per transaction, the i-th row built from the i-th transaction and its receipt |
| Importer.InsertTxs | ethsync.py:101-130 | the loop's result is the old table followed by the rows of the relevant transactions, in transaction order: filtering first and building rows afterwards gives the same table |
| Importer.InsertTxsFromBlock | ethsync.py:98-130 | importing a block keeps the stored rows, appends the rows of its relevant transactions in order, and every new row carries the block's number and timestamp |
| Importer.RelevantGetsRow | ethsync.py:106-130 | a relevant transaction of the block gets a new row carrying its hash |
| Importer.RowComesFromRelevant | ethsync.py:106-130 | with unique hashes, a new row carrying a transaction's hash means that transaction is relevant |
| Importer.RowExistsIffRelevant | ethsync.py:106-130 | with unique transaction hashes, a transaction of the block has a new row with its hash iff it is relevant |
| Importer.NoRelevantNoWrite | ethsync.py:101-111 | a block with no relevant transaction leaves the table unchanged, so it does not move the cursor |
| Retry.RetryFrom | ethsync.py:134-141 | from iteration i on, the loop makes between i+1 and `retries` attempts and sleeps once fewer than it attempts. Every attempt but the last timed out. The outcome is the last attempt's block, its non-timeout error, or, only on the final attempt of the budget, its timeout |
| Retry.GetBlockWithRetry | ethsync.py:133-141 | at most `retries` attempts and `attempts - 1` sleeps. No attempt and `None` when `retries <= 0`, and never `None` when `retries > 0`. Every attempt but the last timed out. The outcome is decided by the last attempt, and a timeout is re-raised only after the whole budget |
| Retry.FirstOkIsReturned | ethsync.py:134-136 | the first block answered within the budget is returned after k+1 attempts and k sleeps |
| Retry.OtherErrorPropagates | ethsync.py:135-141 | a non-timeout error propagates at once, with no later attempt |
| Retry.ExhaustedBudgetRaises | ethsync.py:137-141 | timeouts on all `retries` attempts re-raise the timeout after `retries - 1` sleeps |
| Retry.NoBudgetReturnsNone | ethsync.py:133-134 | with `retries <= 0` no attempt is made and the call returns `None` |
| Retry.TwoTimeoutsThenBlock | ethsync.py:133-141 | with the default budget of 3, two timeouts then a block return that block after 3 attempts and 2 sleeps |
| Table.MaxBlock | ethsync.py:154-155 | `MAX(block)` is NULL iff the table is empty; otherwise it is the block of some row and no row's block is larger |
| Table.Cursor | ethsync.py:154-157 | the cursor is the start height for an empty table, and otherwise the largest stored block |
| Table.AppendKeepsCursor | ethsync.py:154-157 | appending rows never lowers the cursor of a non-empty table |
| Table.WithoutBlockCounts | ethsync.py:84 | deleting block h removes every row of h and keeps every other row as many times as it occurred. This contract also covers the helper `WithoutBlock`, the `WHERE block = h` filter |
| Table.WithoutBlockAppend | ethsync.py:84 | deleting a block distributes over concatenation, so kept rows stay in their order |
| Table.DiscardHighest | ethsync.py:84 | the startup delete removes exactly the rows whose block equals the maximum before the delete. Every other row is kept with its multiplicity, all remaining blocks are below that maximum, and an empty table stays empty |
| Table.DiscardDropsTopRun | ethsync.py:82-84 | when the table ends with a run of rows of its highest block, the delete leaves exactly the rows before that run |
| Cycle.Range | ethsync.py:163 | Python `range(lo, hi)`: `max(0, hi - lo)` elements, the k-th being `lo + k` |
| Cycle.ScanRange | ethsync.py:154-163 | the heights scanned are exactly those strictly between the cursor and `head - confirmations`, in ascending order. The range is empty iff `head - confirmations <= cursor + 1`; otherwise it runs from `cursor + 1` to `head - confirmations - 1` |
| Cycle.ScanExample | ethsync.py:159-163 | head 1000, no confirmations and cursor 998 scan only height 999 |
| Cycle.ImportBlocks | ethsync.py:163-166 | importing blocks one after another keeps the rows already in the table |
| Cycle.ImportFetched | ethsync.py:165-166 | the loop body for a fetched block gives exactly the table `insertTxsFromBlock` gives: a block with transactions is imported, and skipping a block without them changes nothing. The rows already in the table are kept |
| Cycle.ImportHeights | ethsync.py:163-169 | the loop fetches a prefix of its heights, all of them when it completes. A fatal end names the last height fetched, and its failure is exactly what the retried fetch of that height produced, never a block. Rows already in the table are never changed |
| Cycle.ImportHeightsCompletes | ethsync.py:163-164 | the loop completes iff every fetch of its heights returns a block, and it reaches a height only after every earlier fetch returned one |
| Cycle.ImportHeightsWrites | ethsync.py:163-166 | the table after the loop is the old table with the blocks returned by its fetches imported in order; skipping an empty block changes nothing |
| Cycle.RunCycle | ethsync.py:152-169 | a cycle fetches a prefix of the scan range. It completes iff every fetch of the range returns a block, and then it has fetched the whole range. Every fetch before the last returned a block. A fatal end names the last height fetched and carries that height's fetch outcome, which is never a block. The table afterwards is the old table with the returned blocks imported in height order |
| Cycle.ImportedRowsFromFetched | ethsync.py:163-166 | against a node that returns block h for height h, every row a run adds belongs to a height it fetched |
| Cycle.RunCycleIsLoop | ethsync.py:152-163 | one cycle is exactly the block loop run over its scan range |
| Cycle.LoopBounds | ethsync.py:163-166 | against such a node, the loop over heights strictly between two bounds adds only rows whose block lies strictly between them, and never lowers the cursor of a non-empty table |
| Cycle.CycleCursorBounds | ethsync.py:154-166 | against such a node, every row a cycle adds has a block strictly between the cursor and `head - confirmations`, and the cursor of a non-empty table never decreases |
| Recovery.RescanRebuildsBlock | ethsync.py:82-84 | after a crash that left only the first k rows of the highest block, the startup delete restores the earlier table, and importing the block again yields exactly the complete table |
| Recovery.RelevantTxsDistinct | ethsync.py:101-111 | filtering a block whose hashes are unique keeps them unique |
| Recovery.ImportedRowHash | ethsync.py:128-130 | after an import, an old row keeps its hash and the i-th new row carries the hash of the i-th relevant transaction |
| Recovery.ImportKeepsHashesDistinct | ethsync.py:98-130 | importing a block with unique hashes not yet in the table keeps every `txhash` in the table unique |

## Left out

- Environment and configuration loading, the `int()` parsing of its strings, and the `exit(2)`/`exit(1)` paths (lines 23-39, 72-80): process plumbing. The start height and confirmation depth are integer parameters.
- Web3 provider selection, the proof-of-authority middleware and real RPC calls (lines 42-49, 103, 136, 159). The chain head is a parameter, blocks come from scripted answers, and receipts from a function of the hash. A failing `get_transaction_receipt` is not modelled.
- Postgres connections, cursors and SQL (lines 74-86, 144-155, 170-171). The table is a sequence of rows, and each insert is an append. A failed reconnect in the loop, which is only logged, is not modelled.
- Logging (lines 52-62, 125, 161, 167-169): no effect on the data.
- Sleep durations and the node-sync wait loop (lines 89-93, 139, 172). A retry sleep is a counted event, and the `delay` argument has no other effect.
- The unbounded outer `while True` (line 143). One cycle is modelled, and a restart is modelled as the startup discard followed by re-import.
- `HexBytes.hex()` itself. The payload's hex form, with its `0x` prefix, is an input. A library version that drops the prefix would never match the selector; that is outside the model.
- Cycle.CycleCursorBounds: assumes a node that answers a request for height h only with block h. The code does not check this.
