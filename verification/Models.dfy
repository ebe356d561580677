/** Consensus objects and parameters (models.py, params.py). */
module Models {
  import opened Prelude
  import opened Arith

  /** Network parameters; the lengths the code divides by are positive. */
  datatype Params = Params(
    coinbaseMaturity: int,
    halvingInterval: pos,
    initialMinerSubsidy: nat,
    initialNodeEpochReward: nat,
    maxMoney: nat,
    targetBlockTime: pos,
    legacyTargetBlockTime: Option<pos>,
    targetBlockTimeActivation: int,
    difficultyWindow: pos,
    genesisBits: nat,
    maxBlockWeight: int,
    epochLength: pos,
    registerFee: int,
    renewFee: int,
    nodeRewardActivation: int,
    warmupEpochs: nat,
    checkWindows: nat,
    targetChecks: nat,
    minPassedChecks: int,
    committeeSize: nat,
    quorum: int,
    syncLagTolerance: int,
    maxRewardedNodes: nat,
    maxBundlesPerBlock: int,
    maxAttestationsPerBundle: int,
    maxAttestationsPerVerifierWindow: int)

  /** A 32-byte digest; the code carries it as 64 hex characters. */
  type Hash = Bytes

  datatype OutPoint = OutPoint(txid: Hash, index: int)

  datatype TxInput = TxInput(previousOutput: OutPoint, signature: Bytes, publicKey: Bytes, sequence: int, schemeId: int)

  datatype TxOutput = TxOutput(value: int, recipient: Text)

  type Metadata = map<Text, Text>

  datatype Transaction = Transaction(
    version: int,
    inputs: seq<TxInput>,
    outputs: seq<TxOutput>,
    locktime: int,
    metadata: Metadata)

  datatype BlockHeader = BlockHeader(
    version: int,
    previousHash: Hash,
    merkleRoot: Hash,
    timestamp: int,
    bits: nat,
    nonce: int)

  datatype Block = Block(header: BlockHeader, transactions: seq<Transaction>)

  /** The all-zero hash that anchors a genesis header. */
  const ZERO_HASH: Hash :=
    [0, 0, 0, 0, 0, 0, 0, 0, 0, 0, 0, 0, 0, 0, 0, 0, 0, 0, 0, 0, 0, 0, 0, 0, 0, 0, 0, 0, 0, 0, 0, 0]

  function OutputTotal(outputs: seq<TxOutput>): int {
    if outputs == [] then 0 else outputs[0].value + OutputTotal(outputs[1..])
  }
}
