/** Chain records and constants. Hash functions are unknown total functions. */
module Primitives {
  import opened Bytes

  const Sha256: seq<byte> -> Hash256

  const MAINNET_CHAIN_ID: u64 := 707070
  const MAX_TRANSACTION_PAYLOAD_BYTES: nat := 128 * 1024
  const MAX_BLOCK_BYTES: nat := 2 * 1024 * 1024
  const MAX_ACCESS_LIST_ENTRIES: nat := 256
  const MAX_ACCESS_LIST_STORAGE_KEYS_PER_ENTRY: nat := 1024
  const MAX_ACCESS_LIST_STORAGE_KEYS: nat := 4096

  datatype AccessListItem = AccessListItem(address: Address, storageKeys: seq<Hash256>)

  datatype Signature = Signature(yParity: bool, r: Hash256, s: Hash256)

  datatype Transaction = Transaction(
    chainId: u64,
    transactionType: byte,
    nonce: u64,
    from: Address,
    to: Option<Address>,
    value: u128,
    gasLimit: u64,
    maxFeePerGas: u128,
    maxPriorityFeePerGas: u128,
    payload: seq<byte>,
    accessList: seq<AccessListItem>,
    signature: Option<Signature>,
    externalHash: Option<Hash256>)

  datatype LogEntry = LogEntry(address: Address, topics: seq<Hash256>, data: seq<byte>)

  datatype Receipt = Receipt(transactionHash: Hash256, success: bool, gasUsed: u64, logsRoot: Hash256,
    logs: seq<LogEntry>)

  datatype BlockHeader = BlockHeader(
    parentHash: Hash256,
    number: u64,
    stateRoot: Hash256,
    transactionsRoot: Hash256,
    receiptsRoot: Hash256,
    beneficiary: Hash256,
    difficultyTarget: Hash256,
    baseFeePerGas: u128,
    gasLimit: u64,
    gasUsed: u64,
    timestampSeconds: u64,
    powAlgorithm: seq<byte>,
    powEpoch: u64,
    extraNonce: u64,
    mixHash: Hash256,
    nonce: u64)

  datatype Block = Block(header: BlockHeader, transactions: seq<Transaction>, receipts: seq<Receipt>)
}
