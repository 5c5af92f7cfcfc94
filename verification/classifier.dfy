/** The per-transaction logic of `insertTxsFromBlock`: whether a transaction
    is indexed at all, and which parts of an ERC-20 `transfer` payload end up
    in `contract_to` and `contract_value`. */
module Classifier {
  import opened Types
  import opened PySlice

  /** The `transfer(address,uint256)` selector as it starts a payload's hex form. */
  const TransferSelector: string := "0xa9059cbb"

  /** Longest `contract_to` the indexer keeps; anything longer is dropped. */
  const MaxContractTo := 128

  predicate IsTransferCall(input: Hex)
  {
    StartsWith(input, TransferSelector)
  }

  /** The indexing rule: a transaction is kept when it moves native value or
      calls `transfer`. */
  predicate IsRelevant(tx: Tx)
  {
    tx.value != 0 || IsTransferCall(tx.input)
  }

  datatype ContractFields = ContractFields(to: Hex, value: Hex)

  const NoContractFields := ContractFields("", "")

  /** Length both fields have before the guard: the part of the payload past
      the selector and the first argument word, `max(0, len - 74)`. */
  function Tail(input: Hex): nat
  {
    if |input| <= 74 then 0 else |input| - 74
  }

  /** The fields as sliced, before the length guard: `hex[10:-64]` and
      `hex[74:]` for a transfer call, empty otherwise. */
  function SlicedFields(input: Hex): (f: ContractFields)
    ensures !IsTransferCall(input) ==> f == NoContractFields
    ensures IsTransferCall(input) ==> |f.to| == Tail(input) && |f.value| == Tail(input)
    ensures IsTransferCall(input) && |input| > 74 ==>
      f.to == input[10..|input| - 64] && f.value == input[74..]
  {
    if IsTransferCall(input) then ContractFields(Slice(input, 10, -64), SliceFrom(input, 74))
    else NoContractFields
  }

  /** The guard against malformed payloads: an over-long `contract_to` blanks
      both fields. */
  function Guard(f: ContractFields): ContractFields
  {
    if |f.to| > MaxContractTo then NoContractFields else f
  }

  /** The `contract_to` and `contract_value` columns stored for a payload. */
  function ContractFieldsOf(input: Hex): (f: ContractFields)
    ensures |f.to| == |f.value| <= MaxContractTo
    ensures !IsTransferCall(input) ==> f == NoContractFields
    ensures IsTransferCall(input) && (|input| <= 74 || |input| > 74 + MaxContractTo) ==> f == NoContractFields
    ensures IsTransferCall(input) && 74 < |input| <= 74 + MaxContractTo ==>
      f.to == input[10..|input| - 64] && f.value == input[74..] && f.to != ""
  {
    Guard(SlicedFields(input))
  }

  /** For a well-formed call (selector and two 32-byte words, 138 hex
      characters) the fields are the recipient word and the amount word. */
  lemma WellFormedTransferFields(input: Hex)
    requires IsTransferCall(input) && |input| == 138
    ensures ContractFieldsOf(input).to == input[10..74]
    ensures ContractFieldsOf(input).value == input[|input| - 64..]
    ensures |ContractFieldsOf(input).to| == 64
  {
  }

  /** `contract_value` is `hex[74:]`, not the final 64 characters: for a
      transfer call longer than 138 characters that passes the guard it is
      longer than one word and repeats the tail of `contract_to`. */
  lemma ContractValueIsNotLastWord(input: Hex)
    requires IsTransferCall(input) && 138 < |input| <= 74 + MaxContractTo
    ensures |ContractFieldsOf(input).value| > 64
    ensures ContractFieldsOf(input).value[..|input| - 138] == ContractFieldsOf(input).to[64..]
  {
  }

  /** The loop body of `insertTxsFromBlock` for one transaction: skip it, or
      build the row that is inserted. */
  function Classify(block: Block, tx: Tx, receipt: Receipt): (r: Option<Record>)
    ensures r.Some? <==> tx.value != 0 || StartsWith(tx.input, "0xa9059cbb")
    ensures r.Some? ==>
      && r.value.block == block.number && r.value.time == block.timestamp
      && r.value.txhash == tx.hash && r.value.txfrom == tx.from && r.value.txto == tx.to
      && r.value.value == tx.value && r.value.gasprice == tx.gasPrice
      && r.value.gas == receipt.gasUsed
    ensures r.Some? ==>
      && r.value.contractTo == ContractFieldsOf(tx.input).to
      && r.value.contractValue == ContractFieldsOf(tx.input).value
    ensures r.Some? ==> (r.value.contractTo == "" <==> r.value.contractValue == "")
  {
    if tx.value == 0 && !IsTransferCall(tx.input) then None
    else Some(MakeRecord(block, tx, receipt))
  }

  /** The row inserted for a transaction that is not skipped. */
  function MakeRecord(block: Block, tx: Tx, receipt: Receipt): Record
  {
    var f := ContractFieldsOf(tx.input);
    Record(block.number, block.timestamp, tx.hash, tx.from, tx.to, tx.value,
           receipt.gasUsed, tx.gasPrice, f.to, f.value)
  }

  /** A transfer call whose `contract_to` would exceed the limit is still
      indexed, with both contract fields blank. */
  lemma OversizedTransferStillIndexed(block: Block, tx: Tx, receipt: Receipt)
    requires IsTransferCall(tx.input) && |tx.input| > 74 + MaxContractTo
    ensures Classify(block, tx, receipt).Some?
    ensures Classify(block, tx, receipt).value.contractTo == ""
    ensures Classify(block, tx, receipt).value.contractValue == ""
    ensures |SlicedFields(tx.input).to| > MaxContractTo
  {
  }

  /** A plain value transfer with an empty payload is indexed with blank
      contract fields. */
  lemma PlainValueTransfer(block: Block, tx: Tx, receipt: Receipt)
    requires tx.value == 5 && tx.input == "0x"
    ensures Classify(block, tx, receipt).Some?
    ensures Classify(block, tx, receipt).value.contractTo == ""
    ensures Classify(block, tx, receipt).value.contractValue == ""
  {
  }

  /** A zero-value `transfer` call to a 40-character address, padded to a
      32-byte word, is indexed with the padded word and the amount word. */
  lemma TokenTransfer(block: Block, tx: Tx, receipt: Receipt, pad: Hex, address: Hex, amount: Hex)
    requires |pad| == 24 && |address| == 40 && |amount| == 64
    requires tx.value == 0 && tx.input == TransferSelector + pad + address + amount
    ensures Classify(block, tx, receipt).Some?
    ensures Classify(block, tx, receipt).value.contractTo == pad + address
    ensures Classify(block, tx, receipt).value.contractValue == amount
  {
  }
}
