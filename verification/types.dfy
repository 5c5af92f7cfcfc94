/** The values the indexer reads from the chain node and the rows it writes
    to its `ethtxs` table. */
module Types {

  datatype Option<+T> = None | Some(value: T)

  /** A hex string as web3 renders it, with its `0x` prefix. */
  type Hex = string

  /** A transaction as it arrives inside a block fetched with its
      transactions. `input` is the hex form of the call payload, prefix
      included; `to` is None for a contract creation; `gas` is the sender's
      gas limit, which the index does not keep. */
  datatype Tx = Tx(
    hash: Hex,
    from: Hex,
    to: Option<Hex>,
    value: nat,
    gas: nat,
    gasPrice: nat,
    input: Hex)

  /** The part of a transaction receipt the indexer reads. */
  datatype Receipt = Receipt(gasUsed: nat)

  datatype Block = Block(number: int, timestamp: int, transactions: seq<Tx>)

  /** The node's receipt for a transaction hash. */
  type ReceiptSource = Hex -> Receipt

  /** One row of `ethtxs`. */
  datatype Record = Record(
    block: int,
    time: int,
    txhash: Hex,
    txfrom: Hex,
    txto: Option<Hex>,
    value: nat,
    gas: nat,
    gasprice: nat,
    contractTo: Hex,
    contractValue: Hex)

  /** The table's rows in the order they were inserted. */
  type Store = seq<Record>
}
